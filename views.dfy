/** A view: which columns to show, how many rows to take, and which filters a
    row must pass. */
module Views {
  import opened Results
  import opened Text
  import opened RowExtensions
  import opened RowFilters

  /** The objects behind a list of filters (their caches are what changes). */
  ghost function FilterObjects(filters: seq<RowFilter>): set<object> {
    set k | 0 <= k < |filters| :: filters[k].Obj()
  }

  ghost predicate AllResolvedFor(filters: seq<RowFilter>, header: seq<string>)
    reads FilterObjects(filters)
  {
    forall k :: 0 <= k < |filters| ==> filters[k].ResolvedFor(header)
  }

  /** No filter before position `n` shares the object of `filters[k]`. */
  predicate NotAmong(filters: seq<RowFilter>, n: nat, k: nat)
    requires n <= |filters| && k < |filters|
  {
    forall j :: 0 <= j < n ==> filters[j].Obj() != filters[k].Obj()
  }

  /** `filters[k]` is the first filter that does not accept the row. */
  predicate FirstRejecting(filters: seq<RowFilter>, header: seq<string>, values: seq<string>, k: int)
    requires |values| == |header|
  {
    && 0 <= k < |filters|
    && filters[k].Accepts(header, values) != Ok(true)
    && forall j :: 0 <= j < k ==> filters[j].Accepts(header, values) == Ok(true)
  }

  /** The AND of the filters in order, stopping at the first rejection or
      failure (PipelineAcceptsMeaning states this). */
  function PipelineAccepts(filters: seq<RowFilter>, header: seq<string>, values: seq<string>): Result<bool>
    requires |values| == |header|
  {
    if |filters| == 0 then Ok(true)
    else
      var first := filters[0].Accepts(header, values);
      if first != Ok(true) then first
      else PipelineAccepts(filters[1..], header, values)
  }

  /** How many filters the pipeline calls on a row: up to and including the
      first one that does not accept (EvaluatedMeaning states this). */
  function Evaluated(filters: seq<RowFilter>, header: seq<string>, values: seq<string>): (n: nat)
    requires |values| == |header|
    ensures n <= |filters|
  {
    if |filters| == 0 then 0
    else if filters[0].Accepts(header, values) != Ok(true) then 1
    else 1 + Evaluated(filters[1..], header, values)
  }

  datatype View = View(
    /** Only these columns, in this order; `None` keeps them all. */
    select: Option<seq<string>>,
    /** Only this many included rows. */
    take: Option<int>,
    /** `None` does not filter. */
    filters: Option<seq<RowFilter>>)
  {

    /** `View.GetSelectedIndices`: every column in order without a selection,
        otherwise the first case-insensitive match of each selected name, in
        the selection's order and with its repetitions. */
    function GetSelectedIndices(columnNames: seq<string>): (r: Result<seq<nat>>)
      ensures select.None? ==> r.Ok? && |r.value| == |columnNames|
      ensures select.None? ==> forall i :: 0 <= i < |columnNames| ==> r.value[i] == i
      ensures select.Some? && r.Ok? ==> |r.value| == |select.value|
      ensures select.Some? && r.Ok? ==>
        forall k :: 0 <= k < |select.value| ==> IsMatch(columnNames, select.value[k], r.value[k], FirstMatch)
      ensures select.Some? ==> (r.Err? <==> exists k :: 0 <= k < |select.value| && !HasColumn(columnNames, select.value[k]))
      ensures r.Err? ==> exists k: nat :: FirstMissing(columnNames, select.value, k) && r.error == ColumnNotFound(select.value[k])
    {
      match select
      case None => Ok(seq(|columnNames|, i => i))
      case Some(names) =>
        ResolveAllMeaning(columnNames, names, FirstMatch);
        ResolveAllError(columnNames, names, FirstMatch);
        ResolveAll(columnNames, names, FirstMatch)
    }

    ghost function Objects(): set<object> {
      match filters
      case None => {}
      case Some(fs) => FilterObjects(fs)
    }

    ghost predicate ResolvedFor(header: seq<string>)
      reads Objects()
    {
      filters.Some? ==> AllResolvedFor(filters.value, header)
    }

    /** What IsRowIncluded answers for a row. */
    function Includes(header: seq<string>, values: seq<string>): Result<bool>
      requires |values| == |header|
    {
      match filters
      case None => Ok(true)
      case Some(fs) => PipelineAccepts(fs, header, values)
    }


    /** `View.IsRowIncluded`: no filters include every row; otherwise the
        pipeline runs (RunFilters). */
    method IsRowIncluded(header: seq<string>, values: seq<string>) returns (r: Result<bool>)
      requires |values| == |header|
      requires ResolvedFor(header)
      modifies Objects()
      ensures ResolvedFor(header)
      ensures r == Includes(header, values)
      ensures filters.Some? ==> forall k ::
        (Evaluated(filters.value, header, values) <= k < |filters.value| &&
         NotAmong(filters.value, Evaluated(filters.value, header, values), k)) ==> filters.value[k].Cache() == old(filters.value[k].Cache())
      ensures filters.Some? ==> forall k ::
        0 <= k < |filters.value| && old(filters.value[k].Cache()).Resolved() ==> filters.value[k].Cache() == old(filters.value[k].Cache())
      ensures filters.Some? ==> forall k ::
        0 <= k < Evaluated(filters.value, header, values) && filters.value[k].Accepts(header, values).Ok? ==> filters.value[k].Cache().Resolved()
    {
      if filters.None? {
        return Ok(true);
      }
      r := RunFilters(filters.value, header, values);
    }
  }

  /** The loop of `View.IsRowIncluded`: run the filters in order and stop at
      the first that rejects the row. A filter not reached keeps its cache, no
      resolved cache changes, and every filter that answered is resolved. */
  method RunFilters(fs: seq<RowFilter>, header: seq<string>, values: seq<string>) returns (r: Result<bool>)
    requires |values| == |header|
    requires AllResolvedFor(fs, header)
    modifies FilterObjects(fs)
    ensures AllResolvedFor(fs, header)
    ensures r == PipelineAccepts(fs, header, values)
    ensures forall k ::
      (Evaluated(fs, header, values) <= k < |fs| && NotAmong(fs, Evaluated(fs, header, values), k)) ==> fs[k].Cache() == old(fs[k].Cache())
    ensures forall k :: 0 <= k < |fs| && old(fs[k].Cache()).Resolved() ==> fs[k].Cache() == old(fs[k].Cache())
    ensures forall k :: 0 <= k < Evaluated(fs, header, values) && fs[k].Accepts(header, values).Ok? ==> fs[k].Cache().Resolved()
  {
    var i := 0;
    while i < |fs|
      invariant 0 <= i <= |fs|
      invariant AllResolvedFor(fs, header)
      invariant PipelineAccepts(fs, header, values) == PipelineAccepts(fs[i..], header, values)
      invariant Evaluated(fs, header, values) == i + Evaluated(fs[i..], header, values)
      invariant forall k :: i <= k < |fs| && NotAmong(fs, i, k) ==> fs[k].Cache() == old(fs[k].Cache())
      invariant forall k :: 0 <= k < |fs| && old(fs[k].Cache()).Resolved() ==> fs[k].Cache() == old(fs[k].Cache())
      invariant forall k :: 0 <= k < i && fs[k].Accepts(header, values).Ok? ==> fs[k].Cache().Resolved()
    {
      assert fs[i..][0] == fs[i] && fs[i..][1..] == fs[i + 1..];
      var accepted := InvokeFilter(fs, i, header, values);
      if accepted.Err? {
        return Err(accepted.error);
      }
      if !accepted.value {
        return Ok(false);
      }
      i := i + 1;
    }
    return Ok(true);
  }

  /** `filter.IsValid(row)` on the `i`-th filter of a pipeline: the answer is
      that filter's verdict, every filter stays resolved, and the cache of
      every filter on another object is left as it was. */
  method InvokeFilter(fs: seq<RowFilter>, i: nat, header: seq<string>, values: seq<string>) returns (r: Result<bool>)
    requires i < |fs| && |values| == |header|
    requires AllResolvedFor(fs, header)
    modifies fs[i].Obj()
    ensures AllResolvedFor(fs, header)
    ensures r == fs[i].Accepts(header, values)
    ensures forall k :: 0 <= k < |fs| && fs[k].Obj() != fs[i].Obj() ==> fs[k].Cache() == old(fs[k].Cache())
    ensures forall k :: 0 <= k < |fs| && old(fs[k].Cache()).Resolved() ==> fs[k].Cache() == old(fs[k].Cache())
    ensures r.Ok? ==> fs[i].Cache().Resolved()
  {
    r := fs[i].IsValid(header, values);
    forall k | 0 <= k < |fs| && fs[k].Obj() == fs[i].Obj()
      ensures fs[k].ResolvedFor(header)
      ensures old(fs[k].Cache()).Resolved() ==> fs[k].Cache() == old(fs[k].Cache())
    {
      assert fs[k] == fs[i];
    }
  }

  /** The pipeline accepts iff every filter accepts; otherwise its answer is
      that of the first filter that does not accept. */
  lemma {:induction false} PipelineAcceptsMeaning(filters: seq<RowFilter>, header: seq<string>, values: seq<string>)
    requires |values| == |header|
    ensures PipelineAccepts(filters, header, values) == Ok(true) <==>
      forall k :: 0 <= k < |filters| ==> filters[k].Accepts(header, values) == Ok(true)
    ensures PipelineAccepts(filters, header, values) != Ok(true) ==>
      exists k :: FirstRejecting(filters, header, values, k) && filters[k].Accepts(header, values) == PipelineAccepts(filters, header, values)
  {
    if |filters| > 0 && filters[0].Accepts(header, values) == Ok(true) {
      var tail := filters[1..];
      PipelineAcceptsMeaning(tail, header, values);
      assert forall k :: 1 <= k < |filters| ==> tail[k - 1] == filters[k];
      if PipelineAccepts(tail, header, values) != Ok(true) {
        var k :| FirstRejecting(tail, header, values, k) && tail[k].Accepts(header, values) == PipelineAccepts(tail, header, values);
        assert FirstRejecting(filters, header, values, k + 1);
      }
    } else if |filters| > 0 {
      assert FirstRejecting(filters, header, values, 0);
    }
  }

  /** The pipeline calls every filter of a row it accepts, and otherwise the
      filters up to and including the first that does not accept. */
  lemma {:induction false} EvaluatedMeaning(filters: seq<RowFilter>, header: seq<string>, values: seq<string>)
    requires |values| == |header|
    ensures PipelineAccepts(filters, header, values) == Ok(true) ==> Evaluated(filters, header, values) == |filters|
    ensures PipelineAccepts(filters, header, values) != Ok(true) ==>
      0 < Evaluated(filters, header, values) && FirstRejecting(filters, header, values, Evaluated(filters, header, values) - 1)
  {
    if |filters| > 0 && filters[0].Accepts(header, values) == Ok(true) {
      var tail := filters[1..];
      EvaluatedMeaning(tail, header, values);
      assert forall k :: 1 <= k < |filters| ==> tail[k - 1] == filters[k];
    }
  }
}
