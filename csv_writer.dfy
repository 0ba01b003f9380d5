/** The CSV writer of the tool: cell escaping, the projection of the selected
    columns, the filtered copy (`ApplyFilter`), its fast path
    (`PrintFastSummary`), the row count and the vertical preview. Output is the
    sequence of lines written, in order. */
module CsvWriter {
  import opened Results
  import opened Text
  import opened Tables
  import opened Views

  /** `EscapeCsvCell`: a missing cell is empty; otherwise every double quote
      becomes a single quote, and a cell with a comma is wrapped in double
      quotes. */
  function EscapeCsvCell(s: Option<string>): (r: string)
    ensures s.None? ==> r == ""
    ensures s.Some? ==> ('"' in r <==> ',' in s.value)
    ensures s.Some? ==> Unquote(r) == Replace(s.value, '"', '\'')
  {
    match s
    case None => ""
    case Some(v) =>
      var t := Replace(v, '"', '\'');
      assert ',' in t <==> ',' in v by {
        if ',' in v {
          var i :| 0 <= i < |v| && v[i] == ',';
          assert t[i] == ',';
        }
      }
      if ',' in t then ['"'] + t + ['"'] else t
  }

  /** How a reader of the output takes a cell back: one pair of surrounding
      double quotes is dropped. */
  function Unquote(r: string): string {
    if |r| >= 2 && r[0] == '"' && r[|r| - 1] == '"' then r[1..|r| - 1] else r
  }

  /** A cell without double quotes or commas is written as it is. */
  lemma EscapePlainCell(s: string)
    requires '"' !in s && ',' !in s
    ensures EscapeCsvCell(Some(s)) == s
  {
    ReplaceAbsent(s, '"', '\'');
  }

  /** A cell without double quotes is read back exactly, commas included. */
  lemma EscapeRoundTrip(s: string)
    requires '"' !in s
    ensures Unquote(EscapeCsvCell(Some(s))) == s
  {
    ReplaceAbsent(s, '"', '\'');
  }

  lemma ReplaceAbsent(s: string, from: char, to: char)
    requires from !in s
    ensures Replace(s, from, to) == s
  {
  }

  /** The cell as written: escaped in data rows, verbatim in the header. */
  function Cell(value: string, escape: bool): string {
    if escape then EscapeCsvCell(Some(value)) else value
  }

  /** The cells of the selected columns, walking the columns in source order
      (the selection is a set, so order and repetitions in it are lost). */
  function SelectedCells(cells: seq<string>, selected: set<nat>, escape: bool): seq<string> {
    if |cells| == 0 then []
    else
      var n := |cells| - 1;
      SelectedCells(cells[..n], selected, escape) + (if n in selected then [Cell(cells[n], escape)] else [])
  }

  /** The selected column positions below `n`, ascending. */
  function Ascending(selected: set<nat>, n: nat): (r: seq<nat>)
    ensures forall k :: 0 <= k < |r| ==> r[k] < n && r[k] in selected
    ensures forall i :: 0 <= i < n && i in selected ==> i in r
    ensures forall j, k :: 0 <= j < k < |r| ==> r[j] < r[k]
  {
    if n == 0 then [] else Ascending(selected, n - 1) + (if n - 1 in selected then [n - 1] else [])
  }

  /** A written line holds, for each selected column in ascending source
      order and once each, that column's cell. */
  lemma {:induction false} SelectedCellsInOrder(cells: seq<string>, selected: set<nat>, escape: bool)
    ensures |SelectedCells(cells, selected, escape)| == |Ascending(selected, |cells|)|
    ensures forall k :: 0 <= k < |Ascending(selected, |cells|)| ==>
      SelectedCells(cells, selected, escape)[k] == Cell(cells[Ascending(selected, |cells|)[k]], escape)
  {
    if |cells| > 0 {
      var n := |cells| - 1;
      SelectedCellsInOrder(cells[..n], selected, escape);
    }
  }

  /** The header loop and the row loop of ApplyFilter: the selected cells in
      source order, separated by commas (`first` suppresses the leading one). */
  method WriteSelected(cells: seq<string>, selectIndices: set<nat>, escape: bool) returns (line: string)
    ensures line == Join(",", SelectedCells(cells, selectIndices, escape))
  {
    line := "";
    var first := true;
    for i := 0 to |cells|
      invariant line == Join(",", SelectedCells(cells[..i], selectIndices, escape))
      invariant first <==> |SelectedCells(cells[..i], selectIndices, escape)| == 0
    {
      ghost var parts := SelectedCells(cells[..i], selectIndices, escape);
      assert cells[..i + 1][..i] == cells[..i] && cells[..i + 1][i] == cells[i];
      if i in selectIndices {
        assert SelectedCells(cells[..i + 1], selectIndices, escape) == parts + [Cell(cells[i], escape)];
        JoinSnoc(",", parts, Cell(cells[i], escape));
        if !first {
          line := line + ",";
        }
        first := false;
        line := line + Cell(cells[i], escape);
      } else {
        assert SelectedCells(cells[..i + 1], selectIndices, escape) == parts + [];
        assert parts + [] == parts;
      }
    }
    assert cells[..|cells|] == cells;
  }

  /** `N` in PrintFastSummary: the requested count, 5 by default. */
  function FastLimit(take: Option<int>): int {
    if take.Some? then take.value else 5
  }

  /** How many lines the fast path copies from a file of `n` lines. */
  function FastShown(take: Option<int>, n: nat): (r: nat)
    ensures r <= n
  {
    if FastLimit(take) - 1 <= 0 then 0
    else if FastLimit(take) - 1 < n then FastLimit(take) - 1
    else n
  }

  /** `PrintFastSummary`: copy a line while the running count is below `N`, and
      count every line. */
  method PrintFastSummary(lines: seq<string>, take: Option<int>) returns (written: seq<string>, totalRows: nat)
    ensures totalRows == |lines|
    ensures |written| == FastShown(take, |lines|)
    ensures written == lines[..|written|]
  {
    var n := FastLimit(take);
    written := [];
    totalRows := 0;
    while totalRows < |lines|
      invariant totalRows <= |lines|
      invariant written == lines[..FastShown(take, totalRows)]
    {
      var line := lines[totalRows];
      totalRows := totalRows + 1;
      if totalRows < n {
        written := written + [line];
      }
    }
  }

  /** `GetTotalRows`: the number of lines. */
  method GetTotalRows(lines: seq<string>) returns (count: nat)
    ensures count == |lines|
  {
    count := 0;
    while true
      invariant count <= |lines|
      decreases |lines| - count
    {
      if count == |lines| {
        return count;
      }
      count := count + 1;
    }
  }

  /** What the filtered copy has done after reading some rows. */
  datatype Scan = Scan(
    /** The data lines written, in order. */
    lines: seq<string>,
    skipped: nat,
    rowCount: nat,
    stoppedEarly: bool,
    /** The failure a filter raised, which ends the copy. */
    error: Option<Error>,
    /** How many rows were read. */
    consumed: nat)

  /** The row loop of ApplyFilter over `rows`, after `before` rows were
      already written: skip a row the view does not include, otherwise write
      its selected cells escaped, and stop once the written count reaches
      `Take`. */
  function ScanRows(view: View, header: seq<string>, selected: set<nat>, rows: seq<seq<string>>, before: nat): (s: Scan)
    requires RowsFit(header, rows)
    ensures s.consumed <= |rows|
    ensures |s.lines| == s.rowCount
  {
    if |rows| == 0 then Scan([], 0, 0, false, None, 0)
    else
      match view.Includes(header, rows[0])
      case Err(e) => Scan([], 0, 0, false, Some(e), 1)
      case Ok(included) =>
        if !included then
          var s := ScanRows(view, header, selected, rows[1..], before);
          s.(skipped := s.skipped + 1, consumed := s.consumed + 1)
        else
          var line := Join(",", SelectedCells(rows[0], selected, true));
          if view.take.Some? && before + 1 >= view.take.value then Scan([line], 0, 1, true, None, 1)
          else
            var s := ScanRows(view, header, selected, rows[1..], before + 1);
            s.(lines := [line] + s.lines, rowCount := s.rowCount + 1, consumed := s.consumed + 1)
  }

  /** The outcome of ApplyFilter: the lines written to the output and the
      counters it reports on the console. */
  datatype FilterOutcome =
    | Fast(lines: seq<string>, totalRows: nat)
    | Projected(lines: seq<string>, skipped: nat, rowCount: nat, stoppedEarly: bool)
    | Failed(lines: seq<string>, error: Error)

  /** The positions GetSelectedIndices lists, as the HashSet ApplyFilter builds. */
  function AsSet(ix: seq<nat>): set<nat> {
    set k | 0 <= k < |ix| :: ix[k]
  }

  /** What ApplyFilter writes for a file read both as raw lines (fast path)
      and as a table. */
  function Filtered(fileLines: seq<string>, table: Table, view: View): FilterOutcome
    requires table.WellFormed()
  {
    if view.select.None? && view.filters.None? then
      Fast(fileLines[..FastShown(view.take, |fileLines|)], |fileLines|)
    else
      match view.GetSelectedIndices(table.columnNames)
      case Err(e) => Failed([], e)
      case Ok(ix) => Copied(table, view, AsSet(ix))
  }

  /** The slow path once the selection is known: the header line, then the
      scan of the rows. */
  function Copied(table: Table, view: View, selected: set<nat>): FilterOutcome
    requires table.WellFormed()
  {
    var header := Join(",", SelectedCells(table.columnNames, selected, false));
    var s := ScanRows(view, table.columnNames, selected, table.rows, 0);
    if s.error.Some? then Failed([header] + s.lines, s.error.value)
    else Projected([header] + s.lines, s.skipped, s.rowCount, s.stoppedEarly)
  }

  /** `ApplyFilter`: the fast path when there is neither a selection nor a
      filter; otherwise the header line, then the selected cells of each
      included row until `Take` rows are written. */
  method ApplyFilter(fileLines: seq<string>, table: Table, view: View) returns (r: FilterOutcome)
    requires table.WellFormed()
    requires view.ResolvedFor(table.columnNames)
    modifies view.Objects()
    ensures view.ResolvedFor(table.columnNames)
    ensures r == Filtered(fileLines, table, view)
    ensures view.filters.Some? ==> forall k :: 0 <= k < |view.filters.value| && old(view.filters.value[k].Cache()).Resolved() ==>
      view.filters.value[k].Cache() == old(view.filters.value[k].Cache())
  {
    if view.select.None? && view.filters.None? {
      var written, totalRows := PrintFastSummary(fileLines, view.take);
      return Fast(written, totalRows);
    }
    var ix := view.GetSelectedIndices(table.columnNames);
    if ix.Err? {
      return Failed([], ix.error);
    }
    var selectIndices := AsSet(ix.value);
    assert Filtered(fileLines, table, view) == Copied(table, view, selectIndices);
    label selected:
    var header := WriteSelected(table.columnNames, selectIndices, false);
    assert unchanged@selected(view.Objects());
    var s := CopyRows(view, table.columnNames, selectIndices, table.rows);
    if s.error.Some? {
      return Failed([header] + s.lines, s.error.value);
    }
    return Projected([header] + s.lines, s.skipped, s.rowCount, s.stoppedEarly);
  }

  /** The row loop of ApplyFilter, with the counters `skipped` and `rowCount`
      and the flag `stoppedEarly`; a failing filter ends it. */
  method CopyRows(view: View, columns: seq<string>, selectIndices: set<nat>, rows: seq<seq<string>>) returns (s: Scan)
    requires RowsFit(columns, rows)
    requires view.ResolvedFor(columns)
    modifies view.Objects()
    ensures view.ResolvedFor(columns)
    ensures s == ScanRows(view, columns, selectIndices, rows, 0)
    ensures view.filters.Some? ==> forall k :: 0 <= k < |view.filters.value| && old(view.filters.value[k].Cache()).Resolved() ==>
      view.filters.value[k].Cache() == old(view.filters.value[k].Cache())
  {
    ghost var all := ScanFrom(view, columns, selectIndices, rows, 0, [], 0, 0);
    var lines := [];
    var skipped, rowCount := 0, 0;
    var i := 0;
    while i < |rows|
      invariant i <= |rows|
      invariant view.ResolvedFor(columns)
      invariant ScanFrom(view, columns, selectIndices, rows, i, lines, skipped, rowCount) == all
      invariant view.filters.Some? ==> forall k :: 0 <= k < |view.filters.value| && old(view.filters.value[k].Cache()).Resolved() ==>
        view.filters.value[k].Cache() == old(view.filters.value[k].Cache())
    {
      var row := rows[i];
      var included, line := ProcessRow(view, columns, selectIndices, row);
      if included.Err? {
        s := Scan(lines, skipped, rowCount, false, Some(included.error), i + 1);
        break;
      }
      if !included.value {
        skipped := skipped + 1;
        i := i + 1;
        continue;
      }
      lines := lines + [line];
      rowCount := rowCount + 1;
      if view.take.Some? && rowCount >= view.take.value {
        s := Scan(lines, skipped, rowCount, true, None, i + 1);
        break;
      }
      i := i + 1;
    }
    if i == |rows| {
      s := Scan(lines, skipped, rowCount, false, None, i);
    }
    ScanFromResumes(view, columns, selectIndices, rows, 0, [], 0, 0);
    assert rows[0..] == rows;
  }

  /** The row loop of ApplyFilter from row `i` on, with the lines and
      counters it has so far; it ends the same Scan as ScanRows. */
  function ScanFrom(view: View, header: seq<string>, selected: set<nat>, rows: seq<seq<string>>,
                    i: nat, lines: seq<string>, skipped: nat, rowCount: nat): Scan
    requires RowsFit(header, rows) && i <= |rows|
    decreases |rows| - i
  {
    if i == |rows| then Scan(lines, skipped, rowCount, false, None, i)
    else
      match view.Includes(header, rows[i])
      case Err(e) => Scan(lines, skipped, rowCount, false, Some(e), i + 1)
      case Ok(included) =>
        if !included then ScanFrom(view, header, selected, rows, i + 1, lines, skipped + 1, rowCount)
        else
          var more := lines + [Join(",", SelectedCells(rows[i], selected, true))];
          if view.take.Some? && rowCount + 1 >= view.take.value then Scan(more, skipped, rowCount + 1, true, None, i + 1)
          else ScanFrom(view, header, selected, rows, i + 1, more, skipped, rowCount + 1)
  }

  /** The scan with accumulators resumes ScanRows of the remaining rows. */
  lemma {:induction false} ScanFromResumes(view: View, header: seq<string>, selected: set<nat>, rows: seq<seq<string>>,
                                           i: nat, lines: seq<string>, skipped: nat, rowCount: nat)
    requires RowsFit(header, rows) && i <= |rows|
    ensures Resumes(ScanFrom(view, header, selected, rows, i, lines, skipped, rowCount), lines, skipped, rowCount, i,
                    ScanRows(view, header, selected, rows[i..], rowCount))
    decreases |rows| - i
  {
    if i < |rows| {
      ScanStep(view, header, selected, rows, i, rowCount);
      match view.Includes(header, rows[i])
      case Err(_) =>
      case Ok(included) =>
        if !included {
          ScanFromResumes(view, header, selected, rows, i + 1, lines, skipped + 1, rowCount);
        } else if !(view.take.Some? && rowCount + 1 >= view.take.value) {
          var line := Join(",", SelectedCells(rows[i], selected, true));
          ScanFromResumes(view, header, selected, rows, i + 1, lines + [line], skipped, rowCount + 1);
        }
    }
  }

  /** One row of the copy: run the view's filters on it and, when it is
      included, write its selected cells escaped. */
  method ProcessRow(view: View, columns: seq<string>, selectIndices: set<nat>, row: seq<string>) returns (included: Result<bool>, line: string)
    requires |row| == |columns|
    requires view.ResolvedFor(columns)
    modifies view.Objects()
    ensures view.ResolvedFor(columns)
    ensures included == view.Includes(columns, row)
    ensures included == Ok(true) ==> line == Join(",", SelectedCells(row, selectIndices, true))
    ensures view.filters.Some? ==> forall k :: 0 <= k < |view.filters.value| && old(view.filters.value[k].Cache()).Resolved() ==>
      view.filters.value[k].Cache() == old(view.filters.value[k].Cache())
  {
    included := view.IsRowIncluded(columns, row);
    line := "";
    if included == Ok(true) {
      label written:
      line := WriteSelected(row, selectIndices, true);
      assert unchanged@written(view.Objects());
    }
  }

  /** The whole scan `all` continues, after `consumed` rows that wrote
      `lines`, as the scan `rest` of the remaining rows. */
  predicate Resumes(all: Scan, lines: seq<string>, skipped: nat, rowCount: nat, consumed: nat, rest: Scan) {
    && all.lines == lines + rest.lines
    && all.skipped == skipped + rest.skipped
    && all.rowCount == rowCount + rest.rowCount
    && all.stoppedEarly == rest.stoppedEarly
    && all.error == rest.error
    && all.consumed == consumed + rest.consumed
  }

  /** One step of the scan: the first remaining row decides, the rest follows. */
  lemma ScanStep(view: View, header: seq<string>, selected: set<nat>, rows: seq<seq<string>>, i: nat, before: nat)
    requires RowsFit(header, rows) && i < |rows|
    ensures RowsFit(header, rows[i + 1..])
    ensures var s := ScanRows(view, header, selected, rows[i..], before);
      match view.Includes(header, rows[i])
      case Err(e) => s == Scan([], 0, 0, false, Some(e), 1)
      case Ok(included) =>
        var rest := ScanRows(view, header, selected, rows[i + 1..], before);
        if !included then s == rest.(skipped := rest.skipped + 1, consumed := rest.consumed + 1)
        else
          var line := Join(",", SelectedCells(rows[i], selected, true));
          if view.take.Some? && before + 1 >= view.take.value then s == Scan([line], 0, 1, true, None, 1)
          else
            var more := ScanRows(view, header, selected, rows[i + 1..], before + 1);
            s == more.(lines := [line] + more.lines, rowCount := more.rowCount + 1, consumed := more.consumed + 1)
  {
    assert rows[i..][0] == rows[i] && rows[i..][1..] == rows[i + 1..];
  }

  /** No filter raises on any of the rows. */
  predicate NoFilterFails(view: View, header: seq<string>, rows: seq<seq<string>>)
    requires RowsFit(header, rows)
  {
    forall k :: 0 <= k < |rows| ==> view.Includes(header, rows[k]).Ok?
  }

  /** The rows the view includes, in order. */
  function KeptRows(view: View, header: seq<string>, rows: seq<seq<string>>): (kept: seq<seq<string>>)
    requires RowsFit(header, rows)
    ensures |kept| <= |rows|
  {
    if |rows| == 0 then []
    else (if view.Includes(header, rows[0]) == Ok(true) then [rows[0]] else []) + KeptRows(view, header, rows[1..])
  }

  /** The data lines written for `rows`: their selected cells, escaped. */
  function RowLines(rows: seq<seq<string>>, selected: set<nat>): (lines: seq<string>)
    ensures |lines| == |rows|
  {
    if |rows| == 0 then [] else [Join(",", SelectedCells(rows[0], selected, true))] + RowLines(rows[1..], selected)
  }

  /** How many more rows the copy writes at most after `before` were written:
      none without `Take`; otherwise `Take - before`, but always at least one,
      since the count is compared only after a row is written. */
  function Quota(take: Option<int>, before: nat): Option<nat> {
    if take.None? then None
    else if take.value - before <= 1 then Some(1)
    else Some(take.value - before)
  }

  /** The counters agree: without a failure every row read was skipped or
      written; a failure comes from the last row read; a copy that ran out of
      rows read them all. */
  lemma {:induction false} ScanCounts(view: View, header: seq<string>, selected: set<nat>, rows: seq<seq<string>>, before: nat)
    requires RowsFit(header, rows)
    ensures var s := ScanRows(view, header, selected, rows, before);
      && (s.error.None? ==> s.skipped + s.rowCount == s.consumed)
      && (s.error.Some? ==> 1 <= s.consumed && view.Includes(header, rows[s.consumed - 1]) == Err(s.error.value))
      && (s.error.Some? ==> !s.stoppedEarly)
      && (s.error.None? && !s.stoppedEarly ==> s.consumed == |rows|)
  {
    if |rows| > 0 && view.Includes(header, rows[0]).Ok? {
      if view.Includes(header, rows[0]) == Ok(false) {
        ScanCounts(view, header, selected, rows[1..], before);
      } else if !(view.take.Some? && before + 1 >= view.take.value) {
        ScanCounts(view, header, selected, rows[1..], before + 1);
      }
    }
  }

  /** No filter fails on the rows after the first either. */
  lemma NoFilterFailsTail(view: View, header: seq<string>, rows: seq<seq<string>>)
    requires RowsFit(header, rows) && |rows| > 0
    requires NoFilterFails(view, header, rows)
    ensures RowsFit(header, rows[1..]) && NoFilterFails(view, header, rows[1..])
  {
    forall k | 0 <= k < |rows| - 1 ensures view.Includes(header, rows[1..][k]).Ok? {
      assert rows[1..][k] == rows[k + 1];
    }
  }

  /** When no filter fails, the copy writes as many of the included rows as
      `Take` allows, and reports stopping early exactly when it reached that
      quota. */
  lemma {:induction false} ScanKeptCount(view: View, header: seq<string>, selected: set<nat>, rows: seq<seq<string>>, before: nat)
    requires RowsFit(header, rows)
    requires NoFilterFails(view, header, rows)
    ensures var s := ScanRows(view, header, selected, rows, before);
      var n := |KeptRows(view, header, rows)|;
      var quota := Quota(view.take, before);
      && s.error.None?
      && s.rowCount == (if quota.Some? && quota.value < n then quota.value else n)
      && (s.stoppedEarly <==> quota.Some? && quota.value <= n)
  {
    if |rows| > 0 {
      NoFilterFailsTail(view, header, rows);
      var included := view.Includes(header, rows[0]);
      assert included.Ok?;
      if !included.value {
        ScanKeptCount(view, header, selected, rows[1..], before);
      } else if !(view.take.Some? && before + 1 >= view.take.value) {
        ScanKeptCount(view, header, selected, rows[1..], before + 1);
      }
    }
  }

  /** When no filter fails, the lines written are those of the first included
      rows, in order. */
  lemma {:induction false} ScanWritesKept(view: View, header: seq<string>, selected: set<nat>, rows: seq<seq<string>>, before: nat)
    requires RowsFit(header, rows)
    requires NoFilterFails(view, header, rows)
    ensures var s := ScanRows(view, header, selected, rows, before);
      s.rowCount <= |KeptRows(view, header, rows)| &&
      s.lines == RowLines(KeptRows(view, header, rows)[..s.rowCount], selected)
  {
    if |rows| > 0 {
      NoFilterFailsTail(view, header, rows);
      var rest := rows[1..];
      var included := view.Includes(header, rows[0]);
      assert included.Ok?;
      var kept := KeptRows(view, header, rows);
      if !included.value {
        ScanWritesKept(view, header, selected, rest, before);
        assert kept == KeptRows(view, header, rest);
      } else if view.take.Some? && before + 1 >= view.take.value {
        assert included == Ok(true);
        assert kept[..1] == [rows[0]];
      } else {
        ScanWritesKept(view, header, selected, rest, before + 1);
        var s := ScanRows(view, header, selected, rest, before + 1);
        var more := KeptRows(view, header, rest);
        assert included == Ok(true);
        assert kept == [rows[0]] + more;
        assert kept[..s.rowCount + 1][1..] == more[..s.rowCount];
      }
    }
  }

  /** The slow path of ApplyFilter when no filter fails: the header line, then
      the lines of the first included rows; with `Take = t >= 1` it writes
      min(t, included) rows and stops early iff t rows were reached, with
      `Take <= 0` it still writes the first included row, and without `Take`
      it writes every included row. */
  lemma CopiedWritesKept(table: Table, view: View, selected: set<nat>)
    requires table.WellFormed()
    requires NoFilterFails(view, table.columnNames, table.rows)
    ensures var r := Copied(table, view, selected);
      var kept := KeptRows(view, table.columnNames, table.rows);
      && r.Projected?
      && r.rowCount <= |kept|
      && r.lines == [Join(",", SelectedCells(table.columnNames, selected, false))] + RowLines(kept[..r.rowCount], selected)
      && (view.take.None? ==> r.rowCount == |kept| && !r.stoppedEarly)
      && (view.take.Some? && view.take.value >= 1 ==>
            r.rowCount == (if view.take.value < |kept| then view.take.value else |kept|) &&
            (r.stoppedEarly <==> view.take.value <= |kept|))
      && (view.take.Some? && view.take.value <= 0 ==>
            r.rowCount == (if 0 < |kept| then 1 else 0) && (r.stoppedEarly <==> 0 < |kept|))
  {
    ScanKeptCount(view, table.columnNames, selected, table.rows, 0);
    ScanWritesKept(view, table.columnNames, selected, table.rows, 0);
  }

  /** The fast path writes one line fewer than `Take`: with `Take = t >= 1`
      and at least `t` lines in the file it copies `t - 1` of them, where the
      slow path would write `t` rows. */
  lemma FastPathOneShort(t: int, n: nat)
    requires 1 <= t <= n
    ensures FastShown(Some(t), n) == t - 1
    ensures Quota(Some(t), 0) == Some(t)
  {
  }
}
