/** Column resolution: mapping header names to positions, ignoring case. */
module RowExtensions {
  import opened Results
  import opened Text

  /** Which of several case-insensitively equal header names a resolver picks. */
  datatype MatchRule = FirstMatch | LastMatch

  predicate HasColumn(columnNames: seq<string>, name: string) {
    exists j :: 0 <= j < |columnNames| && SameName(columnNames[j], name)
  }

  /** `i` is the first (or last) position whose name equals `name` ignoring case. */
  predicate IsMatch(columnNames: seq<string>, name: string, i: nat, rule: MatchRule) {
    && i < |columnNames|
    && SameName(columnNames[i], name)
    && match rule
       case FirstMatch => forall j :: 0 <= j < i ==> !SameName(columnNames[j], name)
       case LastMatch => forall j :: i < j < |columnNames| ==> !SameName(columnNames[j], name)
  }

  /** The position GetIndex returns: the first case-insensitive match, or the
      failure when there is none (IndexOfMeaning states this). */
  function IndexOf(columnNames: seq<string>, name: string): (r: Result<nat>)
    ensures r.Ok? ==> r.value < |columnNames|
  {
    if |columnNames| == 0 then Err(ColumnNotFound(name))
    else if SameName(columnNames[0], name) then Ok(0)
    else match IndexOf(columnNames[1..], name)
      case Ok(i) => Ok(i + 1)
      case Err(e) => Err(e)
  }

  lemma {:induction false} IndexOfMeaning(columnNames: seq<string>, name: string)
    ensures IndexOf(columnNames, name).Ok? ==> IsMatch(columnNames, name, IndexOf(columnNames, name).value, FirstMatch)
    ensures IndexOf(columnNames, name).Err? ==>
      IndexOf(columnNames, name).error == ColumnNotFound(name) && !HasColumn(columnNames, name)
  {
    if |columnNames| > 0 && !SameName(columnNames[0], name) {
      var tail := columnNames[1..];
      IndexOfMeaning(tail, name);
      assert forall j :: 1 <= j < |columnNames| ==> tail[j - 1] == columnNames[j];
    }
  }

  /** `i` is the last position whose folded name is `key`. */
  predicate LastWithKey(columnNames: seq<string>, key: string, i: nat) {
    && i < |columnNames|
    && ToLower(columnNames[i]) == key
    && forall j :: i < j < |columnNames| ==> ToLower(columnNames[j]) != key
  }

  /** The dictionary GetIndices fills: folded name to position, a later
      position overwriting an earlier one with the same folded name
      (ColumnMapMeaning states this). */
  function ColumnMap(columnNames: seq<string>): (m: map<string, nat>)
    ensures forall key :: key in m ==> m[key] < |columnNames|
  {
    if |columnNames| == 0 then map[]
    else
      var n := |columnNames| - 1;
      ColumnMap(columnNames[..n])[ToLower(columnNames[n]) := n]
  }

  lemma {:induction false} ColumnMapMeaning(columnNames: seq<string>)
    ensures forall i :: 0 <= i < |columnNames| ==> ToLower(columnNames[i]) in ColumnMap(columnNames)
    ensures forall key :: key in ColumnMap(columnNames) ==> LastWithKey(columnNames, key, ColumnMap(columnNames)[key])
  {
    if |columnNames| > 0 {
      var n := |columnNames| - 1;
      var prefix := columnNames[..n];
      ColumnMapMeaning(prefix);
      var m := ColumnMap(prefix);
      var last := ToLower(columnNames[n]);
      forall key | key in m && key != last
        ensures LastWithKey(columnNames, key, m[key])
      {
        assert LastWithKey(prefix, key, m[key]);
      }
    }
  }

  /** The position GetIndices reads from its dictionary for one name. */
  function LastIndexOf(columnNames: seq<string>, name: string): (r: Result<nat>)
    ensures r.Ok? ==> r.value < |columnNames|
  {
    var m := ColumnMap(columnNames);
    if ToLower(name) in m then Ok(m[ToLower(name)]) else Err(ColumnNotFound(name))
  }

  lemma LastIndexOfMeaning(columnNames: seq<string>, name: string)
    ensures LastIndexOf(columnNames, name).Ok? ==> IsMatch(columnNames, name, LastIndexOf(columnNames, name).value, LastMatch)
    ensures LastIndexOf(columnNames, name).Err? ==>
      LastIndexOf(columnNames, name).error == ColumnNotFound(name) && !HasColumn(columnNames, name)
  {
    ColumnMapMeaning(columnNames);
  }

  /** `names[k]` is the first of `names` with no match in the header. */
  predicate FirstMissing(columnNames: seq<string>, names: seq<string>, k: nat) {
    && k < |names|
    && !HasColumn(columnNames, names[k])
    && forall j :: 0 <= j < k ==> HasColumn(columnNames, names[j])
  }

  function Resolve(columnNames: seq<string>, name: string, rule: MatchRule): (r: Result<nat>)
    ensures r.Ok? ==> r.value < |columnNames|
  {
    match rule
    case FirstMatch => IndexOf(columnNames, name)
    case LastMatch => LastIndexOf(columnNames, name)
  }

  /** Either rule yields a matching position of its kind, or reports the name
      missing exactly when the header lacks it. */
  lemma ResolveMeaning(columnNames: seq<string>, name: string, rule: MatchRule)
    ensures Resolve(columnNames, name, rule).Ok? ==> IsMatch(columnNames, name, Resolve(columnNames, name, rule).value, rule)
    ensures Resolve(columnNames, name, rule).Err? ==>
      Resolve(columnNames, name, rule).error == ColumnNotFound(name) && !HasColumn(columnNames, name)
  {
    IndexOfMeaning(columnNames, name);
    LastIndexOfMeaning(columnNames, name);
  }

  /** A name resolves under either rule iff the header has it. */
  lemma ResolveFindsColumn(columnNames: seq<string>, name: string, rule: MatchRule)
    ensures Resolve(columnNames, name, rule).Ok? <==> HasColumn(columnNames, name)
  {
    ResolveMeaning(columnNames, name, rule);
    var r := Resolve(columnNames, name, rule);
    if r.Ok? {
      assert SameName(columnNames[r.value], name);
    }
  }

  /** `Array.ConvertAll(names, resolve)`: one position per name in the
      requested order, or the failure of the first name that is missing
      (ResolveAllMeaning states this). */
  function ResolveAll(columnNames: seq<string>, names: seq<string>, rule: MatchRule): (r: Result<seq<nat>>)
    ensures r.Ok? ==> |r.value| == |names|
    ensures r.Ok? ==> forall k :: 0 <= k < |names| ==> r.value[k] < |columnNames|
  {
    if |names| == 0 then Ok([])
    else match Resolve(columnNames, names[0], rule)
      case Err(e) => Err(e)
      case Ok(i) =>
        match ResolveAll(columnNames, names[1..], rule)
        case Err(e) => Err(e)
        case Ok(rest) => Ok([i] + rest)
  }

  /** ResolveAll succeeds iff every name is present, and then each position is
      that name's own resolution. */
  lemma {:induction false} ResolveAllMeaning(columnNames: seq<string>, names: seq<string>, rule: MatchRule)
    ensures ResolveAll(columnNames, names, rule).Ok? <==> forall k :: 0 <= k < |names| ==> HasColumn(columnNames, names[k])
    ensures ResolveAll(columnNames, names, rule).Ok? ==>
      forall k :: 0 <= k < |names| ==> Resolve(columnNames, names[k], rule) == Ok(ResolveAll(columnNames, names, rule).value[k])
    ensures ResolveAll(columnNames, names, rule).Ok? ==>
      forall k :: 0 <= k < |names| ==> IsMatch(columnNames, names[k], ResolveAll(columnNames, names, rule).value[k], rule)
  {
    forall k | 0 <= k < |names| {
      ResolveMeaning(columnNames, names[k], rule);
    }
    if |names| > 0 {
      var tail := names[1..];
      ResolveAllMeaning(columnNames, tail, rule);
      ResolveFindsColumn(columnNames, names[0], rule);
      assert forall k :: 1 <= k < |names| ==> tail[k - 1] == names[k];
    }
  }

  /** A failing ResolveAll reports the first missing name. */
  lemma {:induction false} ResolveAllError(columnNames: seq<string>, names: seq<string>, rule: MatchRule)
    ensures ResolveAll(columnNames, names, rule).Err? ==>
      exists k: nat :: FirstMissing(columnNames, names, k) && ResolveAll(columnNames, names, rule).error == ColumnNotFound(names[k])
  {
    if |names| > 0 {
      var tail := names[1..];
      ResolveMeaning(columnNames, names[0], rule);
      ResolveFindsColumn(columnNames, names[0], rule);
      if Resolve(columnNames, names[0], rule).Err? {
        assert FirstMissing(columnNames, names, 0);
      } else if ResolveAll(columnNames, tail, rule).Err? {
        ResolveAllError(columnNames, tail, rule);
        var k: nat :| FirstMissing(columnNames, tail, k) && ResolveAll(columnNames, tail, rule).error == ColumnNotFound(tail[k]);
        assert forall j :: 1 <= j < |names| ==> tail[j - 1] == names[j];
        assert FirstMissing(columnNames, names, k + 1);
      }
    }
  }

  /** GetIndex: a linear scan returning the first match. */
  method GetIndex(columnNames: seq<string>, columnName: string) returns (r: Result<nat>)
    ensures r == IndexOf(columnNames, columnName)
  {
    IndexOfMeaning(columnNames, columnName);
    var i := 0;
    while i < |columnNames|
      invariant 0 <= i <= |columnNames|
      invariant forall j :: 0 <= j < i ==> !SameName(columnNames[j], columnName)
    {
      if SameName(columnNames[i], columnName) {
        return Ok(i);
      }
      i := i + 1;
    }
    return Err(ColumnNotFound(columnName));
  }

  /** GetIndices: fill the case-insensitive dictionary, then look every
      required name up in it; a missing name fails the whole call. */
  method GetIndices(columnNames: seq<string>, requiredColumns: seq<string>) returns (r: Result<seq<nat>>)
    ensures r == ResolveAll(columnNames, requiredColumns, LastMatch)
  {
    var columnMap: map<string, nat> := map[];
    for i := 0 to |columnNames|
      invariant columnMap == ColumnMap(columnNames[..i])
    {
      assert columnNames[..i + 1][..i] == columnNames[..i];
      columnMap := columnMap[ToLower(columnNames[i]) := i];
    }
    assert columnNames[..|columnNames|] == columnNames;
    var indices: seq<nat> := [];
    for k := 0 to |requiredColumns|
      invariant |indices| == k
      invariant forall j :: 0 <= j < k ==> LastIndexOf(columnNames, requiredColumns[j]) == Ok(indices[j])
    {
      var key := ToLower(requiredColumns[k]);
      if key !in columnMap {
        forall j | 0 <= j < k
          ensures HasColumn(columnNames, requiredColumns[j])
        {
          ResolveFindsColumn(columnNames, requiredColumns[j], LastMatch);
        }
        ResolveFindsColumn(columnNames, requiredColumns[k], LastMatch);
        ResolveAllFails(columnNames, requiredColumns, LastMatch, k);
        return Err(ColumnNotFound(requiredColumns[k]));
      }
      indices := indices + [columnMap[key]];
    }
    ResolveAllSucceeds(columnNames, requiredColumns, LastMatch, indices);
    return Ok(indices);
  }

  lemma ResolveAllSucceeds(columnNames: seq<string>, names: seq<string>, rule: MatchRule, indices: seq<nat>)
    requires |indices| == |names|
    requires forall k :: 0 <= k < |names| ==> Resolve(columnNames, names[k], rule) == Ok(indices[k])
    ensures ResolveAll(columnNames, names, rule) == Ok(indices)
  {
    forall k | 0 <= k < |names|
      ensures HasColumn(columnNames, names[k])
    {
      ResolveFindsColumn(columnNames, names[k], rule);
    }
    ResolveAllMeaning(columnNames, names, rule);
    var r := ResolveAll(columnNames, names, rule);
    assert r.value == indices;
  }

  lemma ResolveAllFails(columnNames: seq<string>, names: seq<string>, rule: MatchRule, k: nat)
    requires FirstMissing(columnNames, names, k)
    ensures ResolveAll(columnNames, names, rule) == Err(ColumnNotFound(names[k]))
  {
    ResolveAllMeaning(columnNames, names, rule);
    var r := ResolveAll(columnNames, names, rule);
    ResolveAllError(columnNames, names, rule);
    var k': nat :| FirstMissing(columnNames, names, k') && r.error == ColumnNotFound(names[k']);
    assert k' == k;
  }

  /** With duplicate header names GetIndex picks the first and GetIndices the last. */
  lemma DuplicateNamesResolveApart(columnNames: seq<string>, name: string, i: nat, j: nat)
    requires i < j < |columnNames|
    requires SameName(columnNames[i], name) && SameName(columnNames[j], name)
    ensures IndexOf(columnNames, name).Ok? && IndexOf(columnNames, name).value <= i
    ensures LastIndexOf(columnNames, name).Ok? && LastIndexOf(columnNames, name).value >= j
  {
    ResolveMeaning(columnNames, name, FirstMatch);
    ResolveMeaning(columnNames, name, LastMatch);
    ResolveFindsColumn(columnNames, name, FirstMatch);
    ResolveFindsColumn(columnNames, name, LastMatch);
  }

  /** Names differing only in case resolve to the same position under either rule. */
  lemma {:induction false} ResolveIgnoresCase(columnNames: seq<string>, a: string, b: string, rule: MatchRule)
    requires ToLower(a) == ToLower(b)
    ensures Resolve(columnNames, a, rule).Ok? == Resolve(columnNames, b, rule).Ok?
    ensures Resolve(columnNames, a, rule).Ok? ==> Resolve(columnNames, a, rule) == Resolve(columnNames, b, rule)
  {
    ResolveMeaning(columnNames, a, rule);
    ResolveMeaning(columnNames, b, rule);
    var ra, rb := Resolve(columnNames, a, rule), Resolve(columnNames, b, rule);
    if ra.Ok? {
      assert HasColumn(columnNames, b) by {
        assert SameName(columnNames[ra.value], b);
      }
    }
    if rb.Ok? {
      assert HasColumn(columnNames, a) by {
        assert SameName(columnNames[rb.value], a);
      }
    }
  }

  /** Without case-insensitive duplicates in the header both rules agree. */
  lemma DistinctNamesResolveAlike(columnNames: seq<string>, name: string)
    requires forall i, j :: 0 <= i < j < |columnNames| ==> !SameName(columnNames[i], columnNames[j])
    ensures Resolve(columnNames, name, FirstMatch) == Resolve(columnNames, name, LastMatch)
  {
    ResolveMeaning(columnNames, name, FirstMatch);
    ResolveMeaning(columnNames, name, LastMatch);
    ResolveFindsColumn(columnNames, name, FirstMatch);
    ResolveFindsColumn(columnNames, name, LastMatch);
  }
}
