/** The header rewriting commands: `AdjustHeader` (add, replace or drop the
    header line) and `Rename` (rename one header field). Both copy the file
    line by line, without parsing the data rows. */
module HeaderTools {
  import opened Results
  import opened Text

  /** The header line to write before the first line: with commas turned into
      tabs when that line is tab-delimited. */
  function HeaderFor(newHeaderRow: string, firstLine: string): string {
    if '\t' in firstLine then Replace(newHeaderRow, ',', '\t') else newHeaderRow
  }

  /** What AdjustHeader writes: nothing for an empty file; otherwise the new
      header (if any), the first line unless `removeHeader`, and every later
      line. */
  function Adjusted(lines: seq<string>, newHeaderRow: Option<string>, removeHeader: bool): seq<string> {
    if |lines| == 0 then []
    else
      (if newHeaderRow.Some? then [HeaderFor(newHeaderRow.value, lines[0])] else [])
      + (if removeHeader then [] else [lines[0]])
      + lines[1..]
  }

  /** `AdjustHeader`: the new header and the drop flag are consumed on the
      first line read. */
  method AdjustHeader(lines: seq<string>, newHeaderRow: Option<string>, removeHeader: bool) returns (output: seq<string>)
    ensures output == Adjusted(lines, newHeaderRow, removeHeader)
  {
    output := [];
    var header := newHeaderRow;
    var remove := removeHeader;
    var totalRows := 0;
    while totalRows < |lines|
      invariant totalRows <= |lines|
      invariant totalRows == 0 ==> output == [] && header == newHeaderRow && remove == removeHeader
      invariant totalRows > 0 ==> header.None? && !remove && output == Adjusted(lines[..totalRows], newHeaderRow, removeHeader)
    {
      var line := lines[totalRows];
      if header.Some? {
        var row := header.value;
        if '\t' in line {
          row := Replace(row, ',', '\t');
        }
        output := output + [row];
        header := None;
      }
      totalRows := totalRows + 1;
      if !remove {
        output := output + [line];
      }
      remove := false;
      assert lines[..totalRows][0] == lines[0];
      if totalRows == 1 {
        assert lines[..totalRows][1..] == [];
      } else {
        assert lines[..totalRows][1..] == lines[..totalRows - 1][1..] + [line];
      }
    }
    assert lines[..|lines|] == lines;
  }

  /** AdjustHeader keeps every line after the first, in order, at the end of
      its output; an empty file gives an empty output, without header; and
      otherwise the number of lines changes by one for each of adding and
      removing. */
  lemma AdjustedShape(lines: seq<string>, newHeaderRow: Option<string>, removeHeader: bool)
    ensures var out := Adjusted(lines, newHeaderRow, removeHeader);
      && (|lines| == 0 ==> |out| == 0)
      && (|lines| > 0 ==> |out| == |lines| + (if newHeaderRow.Some? then 1 else 0) - (if removeHeader then 1 else 0))
      && (|lines| > 0 ==> out[|out| - (|lines| - 1)..] == lines[1..])
      && (|lines| > 0 && newHeaderRow.Some? ==> out[0] == HeaderFor(newHeaderRow.value, lines[0]))
      && (|lines| > 0 && newHeaderRow.None? && !removeHeader ==> out == lines)
  {
    if |lines| > 0 {
      assert [lines[0]] + lines[1..] == lines;
    }
  }

  /** Replacing the header of a comma-delimited file keeps the number of
      lines and every data line. */
  lemma ReplaceHeader(lines: seq<string>, newHeaderRow: string)
    requires |lines| > 0 && '\t' !in lines[0]
    ensures Adjusted(lines, Some(newHeaderRow), true) == [newHeaderRow] + lines[1..]
  {
  }

  /** The tab-delimited header has no comma left, and no other character
      changes. */
  lemma HeaderForTabs(newHeaderRow: string, firstLine: string)
    requires '\t' in firstLine
    ensures |HeaderFor(newHeaderRow, firstLine)| == |newHeaderRow|
    ensures ',' !in HeaderFor(newHeaderRow, firstLine)
    ensures forall i :: 0 <= i < |newHeaderRow| && newHeaderRow[i] != ',' ==> HeaderFor(newHeaderRow, firstLine)[i] == newHeaderRow[i]
  {
  }

  /** One header field renamed: surrounding quotes stripped (the first
      character being a quote, the last is dropped too, whatever it is), then
      replaced by `dest` when it equals `src` ignoring case. An empty field or
      a lone quote fails, as `x[0]` and `Substring(1, -1)` do. */
  function RenameField(x: string, position: nat, src: string, dest: string): Result<string> {
    if |x| == 0 then Err(EmptyHeaderField(position))
    else if x[0] == '"' && |x| < 2 then Err(LoneQuoteField(position))
    else
      var y := if x[0] == '"' then x[1..|x| - 1] else x;
      Ok(if SameName(y, src) then dest else y)
  }

  /** `Array.ConvertAll` of RenameField over the fields from position `i` on:
      the first failure aborts the conversion. */
  function RenameFrom(fields: seq<string>, i: nat, src: string, dest: string): (r: Result<seq<string>>)
    requires i <= |fields|
    ensures r.Ok? ==> |r.value| == |fields| - i
    decreases |fields| - i
  {
    if i == |fields| then Ok([])
    else
      match RenameField(fields[i], i, src, dest)
      case Err(e) => Err(e)
      case Ok(y) =>
        match RenameFrom(fields, i + 1, src, dest)
        case Err(e) => Err(e)
        case Ok(rest) => Ok([y] + rest)
  }

  /** The conversion succeeds iff every field renames, and then it holds
      each field's new name in place. */
  lemma {:induction false} RenameFromSucceeds(fields: seq<string>, i: nat, src: string, dest: string)
    requires i <= |fields|
    ensures var r := RenameFrom(fields, i, src, dest);
      && (r.Ok? <==> forall k :: i <= k < |fields| ==> RenameField(fields[k], k, src, dest).Ok?)
      && (r.Ok? ==> forall k :: i <= k < |fields| ==> RenameField(fields[k], k, src, dest) == Ok(r.value[k - i]))
    decreases |fields| - i
  {
    if i < |fields| && RenameField(fields[i], i, src, dest).Ok? {
      RenameFromSucceeds(fields, i + 1, src, dest);
    }
  }

  /** A failed conversion reports the error of the first field that does not
      rename. */
  lemma {:induction false} RenameFromFails(fields: seq<string>, i: nat, src: string, dest: string)
    requires i <= |fields|
    requires RenameFrom(fields, i, src, dest).Err?
    ensures exists k :: i <= k < |fields| && RenameField(fields[k], k, src, dest) == Err(RenameFrom(fields, i, src, dest).error) &&
                        (forall j :: i <= j < k ==> RenameField(fields[j], j, src, dest).Ok?)
    decreases |fields| - i
  {
    if RenameField(fields[i], i, src, dest).Ok? {
      RenameFromFails(fields, i + 1, src, dest);
    }
  }

  /** What Rename writes: the renamed header fields joined by commas, then
      every later line unchanged; an empty file has no header to read. */
  function Renamed(lines: seq<string>, src: string, dest: string): Result<seq<string>> {
    if |lines| == 0 then Err(NoHeaderLine)
    else
      match RenameFrom(Split(lines[0], ','), 0, src, dest)
      case Err(e) => Err(e)
      case Ok(names) => Ok([Join(",", names)] + lines[1..])
  }

  /** `Rename`: rewrite the header line, then copy the remaining lines. */
  method Rename(lines: seq<string>, src: string, dest: string) returns (r: Result<seq<string>>)
    ensures r == Renamed(lines, src, dest)
  {
    if |lines| == 0 {
      return Err(NoHeaderLine);
    }
    var header := lines[0];
    var newHeaderNames := RenameFrom(Split(header, ','), 0, src, dest);
    if newHeaderNames.Err? {
      return Err(newHeaderNames.error);
    }
    var output := [Join(",", newHeaderNames.value)];
    var totalRows := 0;
    while totalRows < |lines| - 1
      invariant totalRows <= |lines| - 1
      invariant output == [Join(",", newHeaderNames.value)] + lines[1..totalRows + 1]
    {
      var line := lines[totalRows + 1];
      assert lines[1..totalRows + 2] == lines[1..totalRows + 1] + [line];
      totalRows := totalRows + 1;
      output := output + [line];
    }
    assert lines[1..totalRows + 1] == lines[1..];
    return Ok(output);
  }

  /** After a successful rename, splitting the new header line on commas
      gives one field per old field, each the old field renamed, provided
      `dest` has no comma; every later line is unchanged. */
  lemma RenamedHeaderFields(lines: seq<string>, src: string, dest: string)
    requires Renamed(lines, src, dest).Ok?
    requires ',' !in dest
    ensures var out := Renamed(lines, src, dest).value;
      var fields := Split(lines[0], ',');
      && |out| == |lines|
      && out[1..] == lines[1..]
      && |Split(out[0], ',')| == |fields|
      && forall k :: 0 <= k < |fields| ==> RenameField(fields[k], k, src, dest) == Ok(Split(out[0], ',')[k])
  {
    var fields := Split(lines[0], ',');
    RenameFromSucceeds(fields, 0, src, dest);
    var names := RenameFrom(fields, 0, src, dest).value;
    forall k | 0 <= k < |names| ensures ',' !in names[k] {
      var x := fields[k];
      assert RenameField(x, k, src, dest) == Ok(names[k]);
      assert ',' !in x;
      if x[0] == '"' && names[k] != dest {
        assert names[k] == x[1..|x| - 1];
        assert forall i :: 0 <= i < |names[k]| ==> names[k][i] == x[i + 1];
      }
    }
    SplitJoin(names, ',');
  }

  /** A header whose fields are all non-empty, unquoted and different from
      `src` (ignoring case) is written back unchanged, and so is the file. */
  lemma RenameWithoutMatch(lines: seq<string>, src: string, dest: string)
    requires |lines| > 0
    requires forall k :: 0 <= k < |Split(lines[0], ',')| ==>
      var x := Split(lines[0], ',')[k]; |x| > 0 && x[0] != '"' && !SameName(x, src)
    ensures Renamed(lines, src, dest) == Ok(lines)
  {
    var fields := Split(lines[0], ',');
    RenameFromSucceeds(fields, 0, src, dest);
    var names := RenameFrom(fields, 0, src, dest).value;
    assert names == fields;
    JoinSplit(lines[0], ',');
    assert [lines[0]] + lines[1..] == lines;
  }

  /** An empty header field, and a field that is a lone double quote, make
      the rename fail. */
  lemma RenameRejectsBrokenHeader(src: string, dest: string)
    ensures Renamed(["a,,b"], src, dest) == Err(EmptyHeaderField(1))
    ensures Renamed(["\""], src, dest) == Err(LoneQuoteField(0))
  {
    SplitWithoutSeparator("b", ',');
    SplitAfterField("", ',', "b");
    assert "" + [','] + "b" == ",b";
    SplitAfterField("", ',', ",b");
    assert "" + [','] + ",b" == ",,b";
    SplitAfterField("a", ',', ",b");
    assert "a" + [','] + ",b" == "a,,b";
    var fields := Split("a,,b", ',');
    assert fields == ["a", "", "b"];
    assert RenameFrom(fields, 1, src, dest) == Err(EmptyHeaderField(1));
    assert RenameField("a", 0, src, dest).Ok?;
    SplitWithoutSeparator("\"", ',');
  }
}
