/** `ShowHist`: how often each value of one column occurs, ignoring case, and
    the share of the rows each value has. */
module Histogram {
  import opened Results
  import opened Text
  import opened Tables
  import opened RowExtensions

  /** One dictionary entry: the key as first inserted and its count. */
  datatype Bucket = Bucket(spelling: string, count: nat)

  /** The counts dictionary after counting `values`: keyed by the value
      ignoring case; an existing key keeps its first spelling. */
  function Tally(values: seq<string>): (m: map<string, Bucket>)
    ensures forall key :: key in m ==> m[key].count >= 1
  {
    if |values| == 0 then map[]
    else
      var m := Tally(values[..|values| - 1]);
      var v := values[|values| - 1];
      var key := ToLower(v);
      if key in m then m[key := Bucket(m[key].spelling, m[key].count + 1)]
      else m[key := Bucket(v, 1)]
  }

  /** How many of `values` are `key` ignoring case. */
  function Occurs(values: seq<string>, key: string): nat {
    if |values| == 0 then 0
    else Occurs(values[..|values| - 1], key) + (if ToLower(values[|values| - 1]) == key then 1 else 0)
  }

  /** `k` is the first position of `values` holding `key` ignoring case. */
  predicate FirstSpelling(values: seq<string>, key: string, k: nat) {
    k < |values| && ToLower(values[k]) == key && forall j :: 0 <= j < k ==> ToLower(values[j]) != key
  }

  /** The dictionary has one entry per value ignoring case; its count is the
      number of occurrences of that value in any case, and its label is the
      spelling of the first occurrence. */
  lemma {:induction false} TallyMeaning(values: seq<string>)
    ensures forall key :: key in Tally(values) <==> exists k :: 0 <= k < |values| && ToLower(values[k]) == key
    ensures forall key :: key in Tally(values) ==> Tally(values)[key].count == Occurs(values, key)
    ensures forall key :: key !in Tally(values) ==> Occurs(values, key) == 0
    ensures forall key :: key in Tally(values) ==> exists k: nat :: FirstSpelling(values, key, k) && Tally(values)[key].spelling == values[k]
  {
    if |values| > 0 {
      var init := values[..|values| - 1];
      TallyMeaning(init);
      assert forall k :: 0 <= k < |init| ==> init[k] == values[k];
      forall key | key in Tally(values)
        ensures exists k: nat :: FirstSpelling(values, key, k) && Tally(values)[key].spelling == values[k]
      {
        if key in Tally(init) {
          var k: nat :| FirstSpelling(init, key, k) && Tally(init)[key].spelling == init[k];
          assert FirstSpelling(values, key, k);
        } else {
          assert FirstSpelling(values, key, |values| - 1);
        }
      }
    }
  }

  /** Some key of a non-empty dictionary. */
  ghost function AnyKey(m: map<string, Bucket>): (key: string)
    requires |m| > 0
    ensures key in m
  {
    var key :| key in m; key
  }

  /** The sum of the counts of a dictionary. */
  ghost function SumCounts(m: map<string, Bucket>): nat
    decreases |m|
  {
    if |m| == 0 then 0
    else
      var key := AnyKey(m);
      m[key].count + SumCounts(m - {key})
  }

  /** The sum does not depend on which key is taken first. */
  lemma {:induction false} SumCountsRemove(m: map<string, Bucket>, key: string)
    requires key in m
    ensures SumCounts(m) == m[key].count + SumCounts(m - {key})
    decreases |m|
  {
    var k := AnyKey(m);
    if k != key {
      SumCountsRemove(m - {k}, key);
      SumCountsRemove(m - {key}, k);
      assert m - {k} - {key} == m - {key} - {k};
    }
  }

  /** Setting one entry changes the sum by the difference of its counts. */
  lemma SumCountsUpdate(m: map<string, Bucket>, key: string, b: Bucket)
    ensures SumCounts(m[key := b]) + (if key in m then m[key].count else 0) == SumCounts(m) + b.count
  {
    var n := m[key := b];
    SumCountsRemove(n, key);
    assert n - {key} == m - {key};
    if key in m {
      SumCountsRemove(m, key);
    } else {
      assert m - {key} == m;
    }
  }

  /** The counts add up to the number of values counted. */
  lemma {:induction false} TallySum(values: seq<string>)
    ensures SumCounts(Tally(values)) == |values|
  {
    if |values| > 0 {
      var init := values[..|values| - 1];
      var m := Tally(init);
      var v := values[|values| - 1];
      var key := ToLower(v);
      TallySum(init);
      if key in m {
        SumCountsUpdate(m, key, Bucket(m[key].spelling, m[key].count + 1));
      } else {
        SumCountsUpdate(m, key, Bucket(v, 1));
      }
    }
  }

  /** No count exceeds the number of values counted. */
  lemma CountAtMostTotal(values: seq<string>, key: string)
    requires key in Tally(values)
    ensures Tally(values)[key].count <= |values|
  {
    TallySum(values);
    SumCountsRemove(Tally(values), key);
  }

  /** The cells of column `idx`, row by row. */
  function Column(rows: seq<seq<string>>, idx: nat): (cells: seq<string>)
    requires forall k :: 0 <= k < |rows| ==> idx < |rows[k]|
    ensures |cells| == |rows|
    ensures forall k :: 0 <= k < |rows| ==> cells[k] == rows[k][idx]
  {
    seq(|rows|, k requires 0 <= k < |rows| => rows[k][idx])
  }

  /** What ShowHist counts: `total` rows and the dictionary of the cells of
      the column named `histColumn` (its first case-insensitive match). */
  datatype Counts = Counts(total: nat, counts: map<string, Bucket>)

  function Histogram(table: Table, histColumn: string): Result<Counts>
    requires table.WellFormed()
  {
    match IndexOf(table.columnNames, histColumn)
    case Err(e) => Err(e)
    case Ok(idx) => Ok(Counts(|table.rows|, Tally(Column(table.rows, idx))))
  }

  /** `ShowHist`: count each row's cell in the dictionary, `TryGetValue`
      giving 0 for a new key. */
  method ShowHist(table: Table, histColumn: string) returns (r: Result<Counts>)
    requires table.WellFormed()
    ensures r == Histogram(table, histColumn)
  {
    var idx := GetIndex(table.columnNames, histColumn);
    if idx.Err? {
      return Err(idx.error);
    }
    var rows := table.rows;
    ghost var cells := Column(rows, idx.value);
    var counts: map<string, Bucket> := map[];
    var total := 0;
    for i := 0 to |rows|
      invariant total == i
      invariant counts == Tally(cells[..i])
    {
      total := total + 1;
      var value := rows[i][idx.value];
      var key := ToLower(value);
      var c := 0;
      if key in counts {
        c := counts[key].count;
      }
      c := c + 1;
      var spelling := if key in counts then counts[key].spelling else value;
      counts := counts[key := Bucket(spelling, c)];
      assert cells[..i + 1][..i] == cells[..i];
    }
    assert cells[..|rows|] == cells;
    return Ok(Counts(total, counts));
  }

  /** The histogram of a present column: every row is counted once, under its
      cell ignoring case. */
  lemma HistogramTotals(table: Table, histColumn: string)
    requires table.WellFormed()
    ensures var r := Histogram(table, histColumn);
      && (r.Err? <==> !HasColumn(table.columnNames, histColumn))
      && (r.Ok? ==> r.value.total == |table.rows| && SumCounts(r.value.counts) == r.value.total)
      && (r.Ok? ==> forall key :: key in r.value.counts ==> 1 <= r.value.counts[key].count <= r.value.total)
  {
    IndexOfMeaning(table.columnNames, histColumn);
    var r := Histogram(table, histColumn);
    if r.Ok? {
      var cells := Column(table.rows, IndexOf(table.columnNames, histColumn).value);
      TallySum(cells);
      forall key | key in r.value.counts ensures r.value.counts[key].count <= r.value.total {
        CountAtMostTotal(cells, key);
      }
    }
  }

  /** 2^31: C# `int` holds -2^31 .. 2^31 - 1. */
  const TwoTo31: int := 0x8000_0000

  /** Unchecked 32-bit signed arithmetic: `x` wrapped into the `int` range. */
  function Wrap32(x: int): (r: int)
    ensures -TwoTo31 <= r < TwoTo31
    ensures (r - x) % (2 * TwoTo31) == 0
    ensures x >= 0 ==> r <= x
  {
    (x + TwoTo31) % (2 * TwoTo31) - TwoTo31
  }

  /** C# `/` on `int`: the quotient truncated toward zero. */
  function TruncDiv(a: int, b: int): int
    requires b > 0
  {
    if a >= 0 then a / b else -((-a) / b)
  }

  /** The printed percentage as the source computes it: `kv.Value * 100`
      in unchecked `int` arithmetic, then divided by `total`. */
  function PercentAsWritten(count: nat, total: nat): int
    requires 0 < total < TwoTo31
  {
    TruncDiv(Wrap32(count * 100), total)
  }

  /** A value on every one of 21474837 rows is printed as -99% instead of
      100%: the product 2147483700 does not fit in an `int`. */
  lemma PercentOverflows()
    ensures PercentAsWritten(21474837, 21474837) == -99
    ensures Percent(21474837, 21474837) == 100
  {
    assert Wrap32(2147483700) == -2147483596;
  }

  /** The percentage the histogram means to print: `count * 100 / total`
      truncated, without overflow. */
  function Percent(count: nat, total: nat): (r: nat)
    requires total > 0
    ensures r * total <= count * 100 < (r + 1) * total
    ensures count <= total ==> r <= 100
  {
    count * 100 / total
  }

  /** Below the overflow the source computes exactly this percentage. */
  lemma PercentAsWrittenSmall(count: nat, total: nat)
    requires 0 < total < TwoTo31
    requires count * 100 < TwoTo31
    ensures PercentAsWritten(count, total) == Percent(count, total)
  {
  }

  /** One printed line: the key, its count and its percentage. */
  datatype HistLine = HistLine(spelling: string, count: nat, percent: int)

  /** The printed lines of a histogram, in no particular order, with the
      percentage as the source computes it. */
  function Report(c: Counts): (lines: set<HistLine>)
    requires 0 < c.total < TwoTo31
  {
    set key | key in c.counts :: HistLine(c.counts[key].spelling, c.counts[key].count, PercentAsWritten(c.counts[key].count, c.total))
  }

  /** The lines the histogram means to print: the same, with the percentage
      computed without overflow. */
  function IntendedReport(c: Counts): (lines: set<HistLine>)
    requires c.total > 0
  {
    set key | key in c.counts :: HistLine(c.counts[key].spelling, c.counts[key].count, Percent(c.counts[key].count, c.total))
  }

  /** Below `(c + 1) * b`, the quotient by `b` is at most `c`. */
  lemma QuotientAtMost(a: int, b: int, c: int)
    requires 0 <= a && 0 < b && 0 <= c && a < (c + 1) * b
    ensures a / b <= c
  {
    if a / b > c {
      MultiplyAtLeast(a / b, c + 1, b);
      assert false;
    }
  }

  /** Multiplying by a positive number keeps the order. */
  lemma MultiplyAtLeast(x: int, y: int, b: int)
    requires x >= y && b > 0
    ensures x * b >= y * b
  {
    assert (x - y) * b >= 0;
  }

  /** A count no larger than the total never prints above 100%, overflow or
      not: a wrapped product is at most the true one, or negative. */
  lemma PercentAsWrittenAtMost100(count: nat, total: nat)
    requires 0 < total < TwoTo31 && count <= total
    ensures PercentAsWritten(count, total) <= 100
  {
    var w := Wrap32(count * 100);
    if w >= 0 {
      assert w < 101 * total;
      QuotientAtMost(w, total, 100);
    }
  }

  /** Every printed line of a histogram has a count between 1 and the number
      of rows and a percentage of at most 100; with fewer than 21474837 rows
      no product overflows, and the percentages are the intended ones, none
      negative. */
  lemma ReportPercentages(table: Table, histColumn: string)
    requires table.WellFormed()
    requires Histogram(table, histColumn).Ok? && 0 < |table.rows| < TwoTo31
    ensures forall line :: line in Report(Histogram(table, histColumn).value) ==>
      1 <= line.count <= |table.rows| && line.percent <= 100
    ensures |table.rows| * 100 < TwoTo31 ==>
      Report(Histogram(table, histColumn).value) == IntendedReport(Histogram(table, histColumn).value)
    ensures |table.rows| * 100 < TwoTo31 ==>
      forall line :: line in Report(Histogram(table, histColumn).value) ==> 0 <= line.percent <= 100
  {
    HistogramTotals(table, histColumn);
    var c := Histogram(table, histColumn).value;
    forall key | key in c.counts
      ensures PercentAsWritten(c.counts[key].count, c.total) <= 100
      ensures c.total * 100 < TwoTo31 ==> PercentAsWritten(c.counts[key].count, c.total) == Percent(c.counts[key].count, c.total)
    {
      PercentAsWrittenAtMost100(c.counts[key].count, c.total);
      if c.total * 100 < TwoTo31 {
        PercentAsWrittenSmall(c.counts[key].count, c.total);
      }
    }
  }
}
