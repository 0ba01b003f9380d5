/** The two row filters. Each resolves its column positions on its first
    `IsValid` call and keeps them in a field for every later row. */
module RowFilters {
  import opened Results
  import opened Text
  import opened RowExtensions

  /** What a MustHaveColumnsFilter over `names` answers for a row: the
      positions come from GetIndices (last duplicate wins), and the row passes
      iff none of those cells is empty or whitespace only. */
  function MustHaveColumns(names: seq<string>, header: seq<string>, values: seq<string>): Result<bool>
    requires |values| == |header|
  {
    match ResolveAll(header, names, LastMatch)
    case Err(e) => Err(e)
    case Ok(ix) => Ok(forall k :: 0 <= k < |ix| ==> !IsBlank(values[ix[k]]))
  }

  /** What a WhereFilter answers for a row: the cell of the first column named
      `columnName` (ignoring case) equals `value` exactly (ordinal, case-sensitive). */
  function WhereEquals(columnName: string, value: string, header: seq<string>, values: seq<string>): Result<bool>
    requires |values| == |header|
  {
    match IndexOf(header, columnName)
    case Err(e) => Err(e)
    case Ok(i) => Ok(values[i] == value)
  }

  /** Row must have non-blank values for all the named columns. */
  class MustHaveColumnsFilter {
    const columnNames: seq<string>
    /** `_columnIdx`: `None` until the first call resolves it. */
    var columnIdx: Option<seq<nat>>

    constructor (columnNames: seq<string>)
      ensures this.columnNames == columnNames && columnIdx == None
    {
      this.columnNames := columnNames;
      columnIdx := None;
    }

    /** The cache, when set, holds the positions of `columnNames` in `header`. */
    ghost predicate ResolvedFor(header: seq<string>)
      reads this
    {
      columnIdx.Some? ==> ResolveAll(header, columnNames, LastMatch) == Ok(columnIdx.value)
    }

    method IsValid(header: seq<string>, values: seq<string>) returns (r: Result<bool>)
      requires |values| == |header|
      requires ResolvedFor(header)
      modifies this
      ensures ResolvedFor(header)
      ensures r == MustHaveColumns(columnNames, header, values)
      ensures old(columnIdx).Some? ==> columnIdx == old(columnIdx)
      ensures old(columnIdx).None? ==> (columnIdx.Some? <==> r.Ok?)
    {
      if columnIdx.None? {
        var ix := GetIndices(header, columnNames);
        if ix.Err? {
          return Err(ix.error);
        }
        columnIdx := Some(ix.value);
      }
      var idx := columnIdx.value;
      CachedPositions(columnNames, header, values, idx);
      for i := 0 to |idx|
        invariant forall k :: 0 <= k < i ==> !IsBlank(values[idx[k]])
      {
        if IsBlank(values[idx[i]]) {
          return Ok(false);
        }
      }
      return Ok(true);
    }
  }

  /** With the positions resolved, MustHaveColumns checks exactly those cells. */
  lemma CachedPositions(names: seq<string>, header: seq<string>, values: seq<string>, idx: seq<nat>)
    requires |values| == |header|
    requires ResolveAll(header, names, LastMatch) == Ok(idx)
    ensures forall k :: 0 <= k < |idx| ==> idx[k] < |values|
    ensures MustHaveColumns(names, header, values) == Ok(forall k :: 0 <= k < |idx| ==> !IsBlank(values[idx[k]]))
  {
  }

  /** Row's cell in one column must equal a value. */
  class WhereFilter {
    const columnName: string
    const value: string
    /** `_idx`: -1 until the first call resolves it. */
    var idx: int

    constructor (columnName: string, value: string)
      ensures this.columnName == columnName && this.value == value && idx == -1
    {
      this.columnName := columnName;
      this.value := value;
      idx := -1;
    }

    /** The cache is -1 or the position of `columnName` in `header`. */
    ghost predicate ResolvedFor(header: seq<string>)
      reads this
    {
      idx == -1 || (0 <= idx && IndexOf(header, columnName) == Ok(idx as nat))
    }

    method IsValid(header: seq<string>, values: seq<string>) returns (r: Result<bool>)
      requires |values| == |header|
      requires ResolvedFor(header)
      modifies this
      ensures ResolvedFor(header)
      ensures r == WhereEquals(columnName, value, header, values)
      ensures old(idx) != -1 ==> idx == old(idx)
      ensures old(idx) == -1 ==> if r.Ok? then 0 <= idx < |header| else idx == -1
    {
      if idx == -1 {
        var i := GetIndex(header, columnName);
        if i.Err? {
          return Err(i.error);
        }
        idx := i.value;
      }
      r := Ok(values[idx] == value);
    }
  }

  /** The cached column positions of a filter. */
  datatype CacheState = MustHaveCache(columnIdx: Option<seq<nat>>) | WhereCache(idx: int) {
    /** The positions have been looked up (`_columnIdx != null`, `_idx != -1`). */
    predicate Resolved() {
      match this
      case MustHaveCache(c) => c.Some?
      case WhereCache(i) => i != -1
    }
  }

  /** `IRowFilter`: the closed set of filter kinds behind one `IsValid`. */
  datatype RowFilter = MustHave(must: MustHaveColumnsFilter) | Where(clause: WhereFilter) {

    function Obj(): object {
      match this
      case MustHave(f) => f
      case Where(f) => f
    }

    /** The current content of the filter's cache field. */
    function Cache(): CacheState
      reads Obj()
    {
      match this
      case MustHave(f) => MustHaveCache(f.columnIdx)
      case Where(f) => WhereCache(f.idx)
    }

    /** `c`, as this filter's cache, holds the positions of its columns in `header`. */
    ghost predicate CacheFits(c: CacheState, header: seq<string>) {
      match this
      case MustHave(f) =>
        c.MustHaveCache? && (c.columnIdx.Some? ==> ResolveAll(header, f.columnNames, LastMatch) == Ok(c.columnIdx.value))
      case Where(f) =>
        c.WhereCache? && (c.idx == -1 || (0 <= c.idx && IndexOf(header, f.columnName) == Ok(c.idx as nat)))
    }

    ghost predicate ResolvedFor(header: seq<string>)
      reads Obj()
    {
      CacheFits(Cache(), header)
    }

    /** The answer of this filter for a row, whatever the state of its cache. */
    function Accepts(header: seq<string>, values: seq<string>): Result<bool>
      requires |values| == |header|
    {
      match this
      case MustHave(f) => MustHaveColumns(f.columnNames, header, values)
      case Where(f) => WhereEquals(f.columnName, f.value, header, values)
    }

    method IsValid(header: seq<string>, values: seq<string>) returns (r: Result<bool>)
      requires |values| == |header|
      requires ResolvedFor(header)
      modifies Obj()
      ensures ResolvedFor(header)
      ensures r == Accepts(header, values)
      ensures old(Cache()).Resolved() ==> Cache() == old(Cache())
      ensures r.Ok? ==> Cache().Resolved()
      ensures r.Err? ==> Cache() == old(Cache())
    {
      match this
      case MustHave(f) => r := f.IsValid(header, values);
      case Where(f) => r := f.IsValid(header, values);
    }
  }

  /** A filter with no required columns accepts every row. */
  lemma NoRequiredColumnsAcceptsAll(header: seq<string>, values: seq<string>)
    requires |values| == |header|
    ensures MustHaveColumns([], header, values) == Ok(true)
  {
  }

  /** MustHaveColumns accepts iff every named column exists and its cell
      (at the last case-insensitive match) has a non-whitespace character. */
  lemma MustHaveColumnsMeaning(names: seq<string>, header: seq<string>, values: seq<string>)
    requires |values| == |header|
    ensures MustHaveColumns(names, header, values) == Ok(true) <==>
      forall k :: 0 <= k < |names| ==>
        exists i: nat :: IsMatch(header, names[k], i, LastMatch) && !IsBlank(values[i])
  {
    ResolveAllMeaning(header, names, LastMatch);
    var r := ResolveAll(header, names, LastMatch);
    if r.Ok? {
      var ix := r.value;
      assert forall k :: 0 <= k < |names| ==> IsMatch(header, names[k], ix[k], LastMatch);
      if forall k :: 0 <= k < |names| ==> exists i: nat :: IsMatch(header, names[k], i, LastMatch) && !IsBlank(values[i]) {
        forall k | 0 <= k < |ix| ensures !IsBlank(values[ix[k]]) {
          var i: nat :| IsMatch(header, names[k], i, LastMatch) && !IsBlank(values[i]);
          assert i == ix[k];
        }
      }
    } else {
      ResolveAllError(header, names, LastMatch);
      var k: nat :| FirstMissing(header, names, k) && r.error == ColumnNotFound(names[k]);
    }
  }
}
