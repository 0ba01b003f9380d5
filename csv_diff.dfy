/** `CsvDiff`: a diff of two files with the same columns, keyed by one
    primary-key column, that also compares a fixed list of tracked columns
    for rows whose keys match. */
module CsvDiff {
  import opened Results
  import opened Text
  import opened Tables
  import opened RowExtensions

  /** What GetKeys yields for one row: the lower-cased primary key and the
      lower-cased `;`-join of the tracked cells (the fingerprint). */
  datatype KeyPair = KeyPair(key: string, extras: string)

  /** The cells of `row` at `positions`, in that order. */
  function CellsAt(row: seq<string>, positions: seq<nat>): (cells: seq<string>)
    requires forall j :: 0 <= j < |positions| ==> positions[j] < |row|
    ensures |cells| == |positions|
  {
    seq(|positions|, j requires 0 <= j < |positions| => row[positions[j]])
  }

  /** `GetKeys`: the primary-key column and the tracked columns are resolved
      (first case-insensitive match) before the first row, then every row
      gives one pair, in row order. */
  function GetKeys(table: Table, primaryKeyColumnName: string, columnNames: seq<string>): (r: Result<seq<KeyPair>>)
    requires table.WellFormed()
    ensures r.Ok? ==> |r.value| == |table.rows|
  {
    match IndexOf(table.columnNames, primaryKeyColumnName)
    case Err(e) => Err(e)
    case Ok(colPrimary) =>
      match ResolveAll(table.columnNames, columnNames, FirstMatch)
      case Err(e) => Err(e)
      case Ok(colExtra) =>
        Ok(seq(|table.rows|, k requires 0 <= k < |table.rows| =>
          KeyPair(ToLower(table.rows[k][colPrimary]), ToLower(Join(";", CellsAt(table.rows[k], colExtra))))))
  }

  /** GetKeys fails iff the primary key or a tracked column is missing, with
      the error for the first missing name; otherwise pair `k` holds row `k`'s
      primary cell and its tracked cells, found by their first matches. */
  lemma GetKeysMeaning(table: Table, primaryKeyColumnName: string, columnNames: seq<string>)
    requires table.WellFormed()
    ensures var r := GetKeys(table, primaryKeyColumnName, columnNames);
      && (r.Ok? <==> HasColumn(table.columnNames, primaryKeyColumnName) &&
                     forall j :: 0 <= j < |columnNames| ==> HasColumn(table.columnNames, columnNames[j]))
      && (r.Err? && !HasColumn(table.columnNames, primaryKeyColumnName) ==> r.error == ColumnNotFound(primaryKeyColumnName))
      && (r.Err? && HasColumn(table.columnNames, primaryKeyColumnName) ==>
            exists j: nat :: FirstMissing(table.columnNames, columnNames, j) && r.error == ColumnNotFound(columnNames[j]))
      && (r.Ok? ==> exists p: nat, ix: seq<nat> ::
            && IsMatch(table.columnNames, primaryKeyColumnName, p, FirstMatch)
            && |ix| == |columnNames|
            && (forall j :: 0 <= j < |columnNames| ==> IsMatch(table.columnNames, columnNames[j], ix[j], FirstMatch))
            && (forall k :: 0 <= k < |table.rows| ==>
                  r.value[k] == KeyPair(ToLower(table.rows[k][p]), ToLower(Join(";", CellsAt(table.rows[k], ix))))))
  {
    IndexOfMeaning(table.columnNames, primaryKeyColumnName);
    ResolveAllMeaning(table.columnNames, columnNames, FirstMatch);
    ResolveAllError(table.columnNames, columnNames, FirstMatch);
    var r := GetKeys(table, primaryKeyColumnName, columnNames);
    if r.Ok? {
      var p := IndexOf(table.columnNames, primaryKeyColumnName).value;
      var ix := ResolveAll(table.columnNames, columnNames, FirstMatch).value;
      assert IsMatch(table.columnNames, primaryKeyColumnName, p, FirstMatch);
    }
  }

  /** The keys of a list of pairs. */
  function KeysOf(pairs: seq<KeyPair>): set<string> {
    set k | 0 <= k < |pairs| :: pairs[k].key
  }

  /** No key appears twice. */
  predicate UniqueKeys(pairs: seq<KeyPair>) {
    forall i, j :: 0 <= i < j < |pairs| ==> pairs[i].key != pairs[j].key
  }

  /** `vals` after the first pass: each key mapped to the fingerprint of its
      last row (later rows overwrite earlier ones). */
  function FillMap(pairs: seq<KeyPair>): map<string, string> {
    if |pairs| == 0 then map[]
    else
      var p := pairs[|pairs| - 1];
      FillMap(pairs[..|pairs| - 1])[p.key := p.extras]
  }

  /** `k` is the last position of `pairs` with key `key`. */
  predicate LastWith(pairs: seq<KeyPair>, key: string, k: nat) {
    k < |pairs| && pairs[k].key == key && forall j :: k < j < |pairs| ==> pairs[j].key != key
  }

  /** The keys of the pairs with one more pair appended. */
  lemma KeysOfSnoc(pairs: seq<KeyPair>)
    requires |pairs| > 0
    ensures KeysOf(pairs) == KeysOf(pairs[..|pairs| - 1]) + {pairs[|pairs| - 1].key}
  {
    var init := pairs[..|pairs| - 1];
    assert forall k :: 0 <= k < |init| ==> init[k] == pairs[k];
  }

  /** The first pass maps exactly the keys of file 1. */
  lemma {:induction false} FillMapKeys(pairs: seq<KeyPair>)
    ensures FillMap(pairs).Keys == KeysOf(pairs)
  {
    if |pairs| > 0 {
      FillMapKeys(pairs[..|pairs| - 1]);
      KeysOfSnoc(pairs);
    }
  }

  /** The first pass maps each key to the fingerprint of the last row with
      that key. */
  lemma {:induction false} FillMapMeaning(pairs: seq<KeyPair>)
    ensures FillMap(pairs).Keys == KeysOf(pairs)
    ensures forall key :: key in FillMap(pairs) ==> exists k: nat :: LastWith(pairs, key, k) && FillMap(pairs)[key] == pairs[k].extras
  {
    FillMapKeys(pairs);
    if |pairs| > 0 {
      var init := pairs[..|pairs| - 1];
      var p := pairs[|pairs| - 1];
      FillMapMeaning(init);
      forall key | key in FillMap(pairs)
        ensures exists k: nat :: LastWith(pairs, key, k) && FillMap(pairs)[key] == pairs[k].extras
      {
        if key == p.key {
          assert LastWith(pairs, key, |pairs| - 1);
        } else {
          var k: nat :| LastWith(init, key, k) && FillMap(init)[key] == init[k].extras;
          assert LastWith(pairs, key, k);
        }
      }
    }
  }

  /** With unique keys the first pass holds every row's own fingerprint. */
  lemma FillMapUnique(pairs: seq<KeyPair>)
    requires UniqueKeys(pairs)
    ensures FillMap(pairs).Keys == KeysOf(pairs)
    ensures forall k :: 0 <= k < |pairs| ==> FillMap(pairs)[pairs[k].key] == pairs[k].extras
  {
    FillMapMeaning(pairs);
    forall k | 0 <= k < |pairs| ensures FillMap(pairs)[pairs[k].key] == pairs[k].extras {
      var key := pairs[k].key;
      assert key in KeysOf(pairs);
      var l: nat :| LastWith(pairs, key, l) && FillMap(pairs)[key] == pairs[l].extras;
      assert l == k;
    }
  }

  /** The state of the second pass: what is left of `vals` and the two
      counters. */
  datatype Reconciled = Reconciled(vals: map<string, string>, diffKeys: nat, diffExtras: nat)

  /** The second pass over the pairs of file 2: a key still in `vals` is
      removed, counting a fingerprint mismatch; any other key counts as a
      different key. */
  function Reconcile(vals: map<string, string>, pairs: seq<KeyPair>): Reconciled {
    if |pairs| == 0 then Reconciled(vals, 0, 0)
    else
      var s := Reconcile(vals, pairs[..|pairs| - 1]);
      var p := pairs[|pairs| - 1];
      if p.key in s.vals then
        Reconciled(s.vals - {p.key}, s.diffKeys, s.diffExtras + (if s.vals[p.key] != p.extras then 1 else 0))
      else Reconciled(s.vals, s.diffKeys + 1, s.diffExtras)
  }

  /** `vals` restricted to the keys not in `keys`. */
  function Without(vals: map<string, string>, keys: set<string>): map<string, string> {
    map key | key in vals && key !in keys :: vals[key]
  }

  /** The loop invariant of the second pass: what is left of `vals` is the
      first-pass map without the keys seen in file 2 so far. */
  lemma {:induction false} ReconcileLeftover(vals: map<string, string>, pairs: seq<KeyPair>)
    ensures Reconcile(vals, pairs).vals == Without(vals, KeysOf(pairs))
  {
    if |pairs| > 0 {
      var init := pairs[..|pairs| - 1];
      ReconcileLeftover(vals, init);
      KeysOfSnoc(pairs);
    }
  }

  /** The shared keys whose fingerprints differ. */
  function Mismatched(a: map<string, string>, b: map<string, string>): set<string> {
    set key | key in a && key in b && a[key] != b[key]
  }

  /** Adding a key that `b` lacks adds it to the mismatches iff `a` has it
      with another value. */
  lemma MismatchedAdd(a: map<string, string>, b: map<string, string>, key: string, v: string)
    requires key !in b
    ensures key !in Mismatched(a, b)
    ensures Mismatched(a, b[key := v]) == Mismatched(a, b) + (if key in a && a[key] != v then {key} else {})
  {
  }

  /** With unique keys in file 2, the second pass counts each file-2 key
      missing from `vals` once as a different key. */
  lemma {:induction false} ReconcileKeyCount(vals: map<string, string>, pairs: seq<KeyPair>)
    requires UniqueKeys(pairs)
    ensures Reconcile(vals, pairs).diffKeys == |KeysOf(pairs) - vals.Keys|
  {
    if |pairs| > 0 {
      var init := pairs[..|pairs| - 1];
      var p := pairs[|pairs| - 1];
      assert UniqueKeys(init) by {
        assert forall k :: 0 <= k < |init| ==> init[k] == pairs[k];
      }
      ReconcileKeyCount(vals, init);
      ReconcileLeftover(vals, init);
      KeysOfSnoc(pairs);
      assert p.key !in KeysOf(init);
      var s := Reconcile(vals, init);
      assert (p.key in s.vals) == (p.key in vals);
      DifferenceAdd(KeysOf(init), vals.Keys, p.key);
    }
  }

  /** Adding a new element to `a` grows `a - v` by one iff it is not in `v`. */
  lemma DifferenceAdd(a: set<string>, v: set<string>, x: string)
    requires x !in a
    ensures |(a + {x}) - v| == |a - v| + (if x in v then 0 else 1)
  {
    if x in v {
      assert (a + {x}) - v == a - v;
    } else {
      assert (a + {x}) - v == (a - v) + {x};
    }
  }

  /** With unique keys in file 2, the second pass counts each shared key
      whose fingerprints differ once as a value difference. */
  lemma {:induction false} ReconcileExtrasCount(vals: map<string, string>, pairs: seq<KeyPair>)
    requires UniqueKeys(pairs)
    ensures Reconcile(vals, pairs).diffExtras == |Mismatched(vals, FillMap(pairs))|
  {
    if |pairs| > 0 {
      var init := pairs[..|pairs| - 1];
      var p := pairs[|pairs| - 1];
      assert UniqueKeys(init) by {
        assert forall k :: 0 <= k < |init| ==> init[k] == pairs[k];
      }
      ReconcileExtrasCount(vals, init);
      ReconcileLeftover(vals, init);
      FillMapKeys(init);
      KeysOfSnoc(pairs);
      assert p.key !in KeysOf(init);
      var s := Reconcile(vals, init);
      var before := Mismatched(vals, FillMap(init));
      MismatchedAdd(vals, FillMap(init), p.key, p.extras);
      assert (p.key in s.vals) == (p.key in vals);
      if p.key in vals {
        assert s.vals[p.key] == vals[p.key];
        if vals[p.key] != p.extras {
          assert |before + {p.key}| == |before| + 1;
        }
      }
    }
  }

  /** What Diff reports (the error rate, a floating-point value, aside). */
  datatype DiffReport = DiffReport(diffKeys: nat, diffExtras: nat, total: nat, originalSize1: nat, originalSize2: nat)

  /** The report of a diff of two files' pairs. */
  function Compare(pairs1: seq<KeyPair>, pairs2: seq<KeyPair>): DiffReport {
    var s := Reconcile(FillMap(pairs1), pairs2);
    var diffKeys := s.diffKeys + |s.vals|;
    DiffReport(diffKeys, s.diffExtras, diffKeys + s.diffExtras, |pairs1|, |pairs2|)
  }

  /** The report of `Diff`, or the error of a missing column. */
  function DiffOf(t1: Table, t2: Table, primaryKeyColumnName: string, columnNames: seq<string>): Result<DiffReport>
    requires t1.WellFormed() && t2.WellFormed()
  {
    match GetKeys(t1, primaryKeyColumnName, columnNames)
    case Err(e) => Err(e)
    case Ok(pairs1) =>
      match GetKeys(t2, primaryKeyColumnName, columnNames)
      case Err(e) => Err(e)
      case Ok(pairs2) => Ok(Compare(pairs1, pairs2))
  }

  /** `Diff`: fill `vals` from file 1, reconcile file 2 against it, then count
      the keys left over as different keys. */
  method Diff(t1: Table, t2: Table, primaryKeyColumnName: string, columnNames: seq<string>) returns (r: Result<DiffReport>)
    requires t1.WellFormed() && t2.WellFormed()
    ensures r == DiffOf(t1, t2, primaryKeyColumnName, columnNames)
  {
    var keys1 := GetKeys(t1, primaryKeyColumnName, columnNames);
    if keys1.Err? {
      return Err(keys1.error);
    }
    var vals, originalSize1 := FirstPass(keys1.value);
    var keys2 := GetKeys(t2, primaryKeyColumnName, columnNames);
    if keys2.Err? {
      return Err(keys2.error);
    }
    var left, diffKeys, diffExtras, originalSize2 := SecondPass(vals, keys2.value);
    diffKeys := diffKeys + |left|;
    var total := diffKeys + diffExtras;
    return Ok(DiffReport(diffKeys, diffExtras, total, originalSize1, originalSize2));
  }

  /** The first loop of Diff: every pair of file 1 is counted and stored in
      `vals`, overwriting an earlier fingerprint of the same key. */
  method FirstPass(pairs1: seq<KeyPair>) returns (vals: map<string, string>, originalSize1: nat)
    ensures vals == FillMap(pairs1)
    ensures originalSize1 == |pairs1|
  {
    vals := map[];
    originalSize1 := 0;
    for i := 0 to |pairs1|
      invariant originalSize1 == i
      invariant vals == FillMap(pairs1[..i])
    {
      originalSize1 := originalSize1 + 1;
      var tuple := pairs1[i];
      vals := vals[tuple.key := tuple.extras];
      assert pairs1[..i + 1][..i] == pairs1[..i];
    }
    assert pairs1[..|pairs1|] == pairs1;
  }

  /** The second loop of Diff: every pair of file 2 is counted; a key still
      in `vals` is removed, counting a fingerprint mismatch, and any other key
      counts as a different key. */
  method SecondPass(first: map<string, string>, pairs2: seq<KeyPair>)
    returns (vals: map<string, string>, diffKeys: nat, diffExtras: nat, originalSize2: nat)
    ensures Reconciled(vals, diffKeys, diffExtras) == Reconcile(first, pairs2)
    ensures originalSize2 == |pairs2|
  {
    vals, diffKeys, diffExtras := first, 0, 0;
    originalSize2 := 0;
    for j := 0 to |pairs2|
      invariant originalSize2 == j
      invariant Reconcile(first, pairs2[..j]) == Reconciled(vals, diffKeys, diffExtras)
    {
      originalSize2 := originalSize2 + 1;
      var tuple := pairs2[j];
      if tuple.key in vals {
        var extra := vals[tuple.key];
        if extra != tuple.extras {
          diffExtras := diffExtras + 1;
        }
        vals := vals - {tuple.key};
      } else {
        diffKeys := diffKeys + 1;
      }
      assert pairs2[..j + 1][..j] == pairs2[..j];
    }
    assert pairs2[..|pairs2|] == pairs2;
  }

  /** With unique keys in file 2, the different keys are those of the
      symmetric difference of the two key sets, and the value differences are
      the shared keys whose fingerprints differ (file 1's last one). */
  lemma CompareCounts(pairs1: seq<KeyPair>, pairs2: seq<KeyPair>)
    requires UniqueKeys(pairs2)
    ensures var r := Compare(pairs1, pairs2);
      && r.diffKeys == |KeysOf(pairs1) - KeysOf(pairs2)| + |KeysOf(pairs2) - KeysOf(pairs1)|
      && r.diffExtras == |Mismatched(FillMap(pairs1), FillMap(pairs2))|
      && r.total == r.diffKeys + r.diffExtras
      && r.originalSize1 == |pairs1| && r.originalSize2 == |pairs2|
  {
    var m1 := FillMap(pairs1);
    FillMapKeys(pairs1);
    ReconcileKeyCount(m1, pairs2);
    ReconcileExtrasCount(m1, pairs2);
    ReconcileLeftover(m1, pairs2);
    var left := Without(m1, KeysOf(pairs2));
    assert left.Keys == KeysOf(pairs1) - KeysOf(pairs2);
  }

  /** The diff is symmetric when keys are unique within each file: swapping
      the files leaves both counts and the total unchanged. */
  lemma CompareSymmetric(pairs1: seq<KeyPair>, pairs2: seq<KeyPair>)
    requires UniqueKeys(pairs1) && UniqueKeys(pairs2)
    ensures Compare(pairs1, pairs2).diffKeys == Compare(pairs2, pairs1).diffKeys
    ensures Compare(pairs1, pairs2).diffExtras == Compare(pairs2, pairs1).diffExtras
    ensures Compare(pairs1, pairs2).total == Compare(pairs2, pairs1).total
  {
    CompareCounts(pairs1, pairs2);
    CompareCounts(pairs2, pairs1);
    assert Mismatched(FillMap(pairs1), FillMap(pairs2)) == Mismatched(FillMap(pairs2), FillMap(pairs1));
  }

  /** A key repeated in file 2 breaks the symmetry: one row `a` against two
      rows `a` counts one different key, the other way round none. */
  lemma DuplicateKeyAsymmetry()
    ensures Compare([KeyPair("a", "")], [KeyPair("a", ""), KeyPair("a", "")]).diffKeys == 1
    ensures Compare([KeyPair("a", ""), KeyPair("a", "")], [KeyPair("a", "")]).diffKeys == 0
  {
    var one := [KeyPair("a", "")];
    var two := [KeyPair("a", ""), KeyPair("a", "")];
    assert two[..1] == one;
    assert one[..0] == [];
    assert FillMap(one) == map["a" := ""];
    assert FillMap(two) == map["a" := ""];
    assert Reconcile(map["a" := ""], one) == Reconciled(map[], 0, 0);
    assert Reconcile(map["a" := ""], two) == Reconciled(map[], 1, 0);
  }

  /** A shared key whose tracked cells differ is one value difference and no
      key difference. */
  lemma MismatchExample()
    ensures Compare([KeyPair("k1", "x")], [KeyPair("k1", "y")]) == DiffReport(0, 1, 1, 1, 1)
  {
    var one := [KeyPair("k1", "x")];
    var other := [KeyPair("k1", "y")];
    assert one[..0] == [] && other[..0] == [];
    assert FillMap(one) == map["k1" := "x"];
    assert Reconcile(map["k1" := "x"], other) == Reconciled(map[], 0, 1);
  }
}
