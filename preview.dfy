/** `PreviewVertical`: the first row the view includes, one selected column
    per line as `name: value`. */
module Preview {
  import opened Results
  import opened Text
  import opened Tables
  import opened Views
  import opened CsvWriter

  /** The position of the first row from `i` on that the view includes, `None`
      when it includes none of them; a filter failing on a row before that
      ends the search with its error. */
  function FirstIncludedFrom(view: View, header: seq<string>, rows: seq<seq<string>>, i: nat): (r: Result<Option<nat>>)
    requires RowsFit(header, rows) && i <= |rows|
    ensures r.Ok? && r.value.Some? ==> i <= r.value.value < |rows|
    decreases |rows| - i
  {
    if i == |rows| then Ok(None)
    else
      match view.Includes(header, rows[i])
      case Err(e) => Err(e)
      case Ok(included) =>
        if included then Ok(Some(i)) else FirstIncludedFrom(view, header, rows, i + 1)
  }

  /** The search skips exactly the excluded rows: a row it finds is included
      and every row before it excluded, and it reports `None` iff every row is
      excluded. */
  lemma {:induction false} FirstIncludedMeaning(view: View, header: seq<string>, rows: seq<seq<string>>, i: nat)
    requires RowsFit(header, rows) && i <= |rows|
    ensures var r := FirstIncludedFrom(view, header, rows, i);
      && (r.Ok? && r.value.Some? ==>
            view.Includes(header, rows[r.value.value]) == Ok(true) &&
            forall j :: i <= j < r.value.value ==> view.Includes(header, rows[j]) == Ok(false))
      && (r == Ok(None) <==> forall j :: i <= j < |rows| ==> view.Includes(header, rows[j]) == Ok(false))
    decreases |rows| - i
  {
    if i < |rows| && view.Includes(header, rows[i]) == Ok(false) {
      FirstIncludedMeaning(view, header, rows, i + 1);
    }
  }

  /** A failed search reports the error of a row whose filters fail, every
      row before it being excluded. */
  lemma {:induction false} FirstIncludedFails(view: View, header: seq<string>, rows: seq<seq<string>>, i: nat)
    requires RowsFit(header, rows) && i <= |rows|
    requires FirstIncludedFrom(view, header, rows, i).Err?
    ensures exists k :: i <= k < |rows| && view.Includes(header, rows[k]) == Err(FirstIncludedFrom(view, header, rows, i).error) &&
                        (forall j :: i <= j < k ==> view.Includes(header, rows[j]) == Ok(false))
    decreases |rows| - i
  {
    if view.Includes(header, rows[i]) == Ok(false) {
      FirstIncludedFails(view, header, rows, i + 1);
    }
  }

  /** The preview lines of one row: `name: value` for every selected column
      below `n`, in source order. */
  function VerticalLines(columns: seq<string>, row: seq<string>, selected: set<nat>, n: nat): seq<string>
    requires n <= |columns| == |row|
  {
    if n == 0 then []
    else VerticalLines(columns, row, selected, n - 1) + (if n - 1 in selected then [columns[n - 1] + ": " + row[n - 1]] else [])
  }

  /** One line per selected column, in ascending column order, naming the
      column and its value in the row. */
  lemma {:induction false} VerticalLinesInOrder(columns: seq<string>, row: seq<string>, selected: set<nat>, n: nat)
    requires n <= |columns| == |row|
    ensures |VerticalLines(columns, row, selected, n)| == |Ascending(selected, n)|
    ensures forall k :: 0 <= k < |Ascending(selected, n)| ==>
      VerticalLines(columns, row, selected, n)[k] == columns[Ascending(selected, n)[k]] + ": " + row[Ascending(selected, n)[k]]
  {
    if n > 0 {
      VerticalLinesInOrder(columns, row, selected, n - 1);
    }
  }

  /** What PreviewVertical prints, after its `[n columns]` line. */
  function Previewed(table: Table, view: View): Result<seq<string>>
    requires table.WellFormed()
  {
    match view.GetSelectedIndices(table.columnNames)
    case Err(e) => Err(e)
    case Ok(ix) =>
      match FirstIncludedFrom(view, table.columnNames, table.rows, 0)
      case Err(e) => Err(e)
      case Ok(None) => Ok([])
      case Ok(Some(k)) => Ok(VerticalLines(table.columnNames, table.rows[k], AsSet(ix), |table.columnNames|))
  }

  /** `PreviewVertical`: skip the rows the view excludes, print the selected
      cells of the first included row, and stop. */
  method PreviewVertical(table: Table, view: View) returns (r: Result<seq<string>>)
    requires table.WellFormed()
    requires view.ResolvedFor(table.columnNames)
    modifies view.Objects()
    ensures view.ResolvedFor(table.columnNames)
    ensures r == Previewed(table, view)
    ensures view.filters.Some? ==> forall k :: 0 <= k < |view.filters.value| && old(view.filters.value[k].Cache()).Resolved() ==>
      view.filters.value[k].Cache() == old(view.filters.value[k].Cache())
  {
    var ix := view.GetSelectedIndices(table.columnNames);
    if ix.Err? {
      return Err(ix.error);
    }
    var selectIndices := AsSet(ix.value);
    var columns := table.columnNames;
    var rows := table.rows;
    var i := 0;
    while i < |rows|
      invariant i <= |rows|
      invariant view.ResolvedFor(columns)
      invariant FirstIncludedFrom(view, columns, rows, i) == FirstIncludedFrom(view, columns, rows, 0)
      invariant view.filters.Some? ==> forall k :: 0 <= k < |view.filters.value| && old(view.filters.value[k].Cache()).Resolved() ==>
        view.filters.value[k].Cache() == old(view.filters.value[k].Cache())
    {
      var row := rows[i];
      var included := view.IsRowIncluded(columns, row);
      if included.Err? {
        return Err(included.error);
      }
      if !included.value {
        i := i + 1;
        continue;
      }
      var lines := [];
      for c := 0 to |columns|
        invariant lines == VerticalLines(columns, row, selectIndices, c)
      {
        if c in selectIndices {
          lines := lines + [columns[c] + ": " + row[c]];
        }
      }
      return Ok(lines);
    }
    return Ok([]);
  }

  /** The preview shows at most one row, and it is the first row ApplyFilter
      would write: a found row is the first of the kept rows. */
  lemma PreviewShowsFirstKept(view: View, header: seq<string>, rows: seq<seq<string>>)
    requires RowsFit(header, rows)
    requires NoFilterFails(view, header, rows)
    ensures var r := FirstIncludedFrom(view, header, rows, 0);
      && r.Ok?
      && (r.value.None? <==> |KeptRows(view, header, rows)| == 0)
      && (r.value.Some? ==> KeptRows(view, header, rows)[0] == rows[r.value.value])
  {
    FirstKept(view, header, rows, 0);
  }

  lemma {:induction false} FirstKept(view: View, header: seq<string>, rows: seq<seq<string>>, i: nat)
    requires RowsFit(header, rows) && i <= |rows|
    requires NoFilterFails(view, header, rows)
    ensures RowsFit(header, rows[i..])
    ensures var r := FirstIncludedFrom(view, header, rows, i);
      && r.Ok?
      && (r.value.None? <==> |KeptRows(view, header, rows[i..])| == 0)
      && (r.value.Some? ==> KeptRows(view, header, rows[i..])[0] == rows[r.value.value])
    decreases |rows| - i
  {
    if i < |rows| {
      assert rows[i..][0] == rows[i] && rows[i..][1..] == rows[i + 1..];
      var included := view.Includes(header, rows[i]);
      assert included.Ok?;
      if !included.value {
        FirstKept(view, header, rows, i + 1);
      }
    }
  }
}
