/**
 The statistics `getCaseResult` derives from a raw timing sample itself:
 the minimum and maximum (`Math.min(...sample)`, `Math.max(...sample)`) and
 the median of `median`, which sorts the sample ascending and takes the
 middle element, or the mean of the two middle elements for an even count.

 The source sorts the caller's array in place. Here the sort returns a new
 sequence, and the case result reports that sorted sequence where the
 source reports the (by then sorted) array.
 */
module Samples {
  import opened Numbers

  /** Ascending order, duplicates allowed. */
  predicate Ascending(s: seq<real>)
  {
    forall i, j :: 0 <= i < j < |s| ==> s[i] <= s[j]
  }

  // ---------------------------------------------------------------------
  // Sorting

  /** Inserts `x` into an ascending sequence, keeping it ascending. */
  function Insert(x: real, s: seq<real>): (r: seq<real>)
    requires Ascending(s)
    ensures Ascending(r)
    ensures multiset(r) == multiset(s) + multiset{x}
  {
    if |s| == 0 then [x]
    else if x < s[0] then
      ConsAscending(x, s);
      [x] + s
    else
      var rest := Insert(x, s[1..]);
      assert s == [s[0]] + s[1..];
      forall i | 0 <= i < |rest|
        ensures s[0] <= rest[i]
      {
        assert rest[i] in multiset(s[1..]) + multiset{x};
        if rest[i] != x {
          TailAboveHead(s, rest[i]);
        }
      }
      ConsAscending(s[0], rest);
      [s[0]] + rest
  }

  lemma TailAboveHead(s: seq<real>, y: real)
    requires Ascending(s) && |s| > 0
    requires y in multiset(s[1..])
    ensures s[0] <= y
  {
    var j :| 0 <= j < |s[1..]| && s[1..][j] == y;
    assert s[j + 1] == y;
  }

  /** A value no larger than any element of an ascending sequence can go in front. */
  lemma ConsAscending(a: real, t: seq<real>)
    requires Ascending(t)
    requires forall i :: 0 <= i < |t| ==> a <= t[i]
    ensures Ascending([a] + t)
  {
  }

  /**
   The ascending sort of `median` (comparator `a < b ? -1 : 1`). For reals
   every sort that returns the sample in ascending order yields the same
   sequence, see `AscendingUnique`.
   */
  function Sort(s: seq<real>): (r: seq<real>)
    ensures Ascending(r)
    ensures multiset(r) == multiset(s)
  {
    if |s| == 0 then []
    else
      assert s == [s[0]] + s[1..];
      Insert(s[0], Sort(s[1..]))
  }

  /** Two ascending arrangements of the same values are the same sequence. */
  lemma {:induction false} AscendingUnique(a: seq<real>, b: seq<real>)
    requires Ascending(a) && Ascending(b)
    requires multiset(a) == multiset(b)
    ensures a == b
  {
    assert |a| == |b| by {
      assert |multiset(a)| == |multiset(b)|;
    }
    if |a| > 0 {
      SameHead(a, b);
      SameTailValues(a, b);
      AscendingUnique(a[1..], b[1..]);
    }
  }

  lemma SameHead(a: seq<real>, b: seq<real>)
    requires Ascending(a) && Ascending(b)
    requires multiset(a) == multiset(b)
    requires |a| > 0 && |b| > 0
    ensures a[0] == b[0]
  {
    assert a[0] in multiset(b);
    assert b[0] in multiset(a);
    var i :| 0 <= i < |b| && b[i] == a[0];
    var j :| 0 <= j < |a| && a[j] == b[0];
  }

  lemma SameTailValues(a: seq<real>, b: seq<real>)
    requires multiset(a) == multiset(b)
    requires |a| > 0 && |b| > 0 && a[0] == b[0]
    ensures multiset(a[1..]) == multiset(b[1..])
  {
    assert a == [a[0]] + a[1..];
    assert b == [b[0]] + b[1..];
    assert multiset(a) == multiset{a[0]} + multiset(a[1..]);
    assert multiset(b) == multiset{a[0]} + multiset(b[1..]);
    forall y
      ensures multiset(a[1..])[y] == multiset(b[1..])[y]
    {
      assert multiset(a)[y] == multiset{a[0]}[y] + multiset(a[1..])[y];
      assert multiset(b)[y] == multiset{a[0]}[y] + multiset(b[1..])[y];
    }
  }

  // ---------------------------------------------------------------------
  // Median

  /**
   The median rule applied to an already ascending sequence: the element at
   `n / 2` for an odd count, the mean of the elements at `n / 2 - 1` and
   `n / 2` for an even one. An empty sequence gives `NaN`, as
   `(undefined + undefined) / 2` does.
   */
  function MiddleOf(d: seq<real>): Num
  {
    if |d| % 2 == 0 then
      if |d| == 0 then NaN else Finite((d[|d| / 2 - 1] + d[|d| / 2]) / 2.0)
    else
      Finite(d[|d| / 2])
  }

  /** `median(data)`: sort ascending, then take the middle. */
  function Median(sample: seq<real>): (m: Num)
    ensures m.Finite? <==> |sample| > 0
    ensures !m.Finite? ==> m == NaN
  {
    MiddleOf(Sort(sample))
  }

  /**
   The median depends only on the values of the sample, not their order:
   it is the middle of ANY ascending arrangement of the sample.
   */
  lemma MedianOfAnyArrangement(sample: seq<real>, sorted: seq<real>)
    requires Ascending(sorted)
    requires multiset(sorted) == multiset(sample)
    ensures |sorted| == |sample|
    ensures |sorted| % 2 == 1 ==> Median(sample) == Finite(sorted[|sorted| / 2])
    ensures |sorted| % 2 == 0 && |sorted| > 0 ==>
              Median(sample) == Finite((sorted[|sorted| / 2 - 1] + sorted[|sorted| / 2]) / 2.0)
  {
    AscendingUnique(Sort(sample), sorted);
    assert |sorted| == |sample| by {
      assert |multiset(sorted)| == |multiset(sample)|;
    }
  }

  /** Reordering the sample does not change its median. */
  lemma MedianIgnoresOrder(a: seq<real>, b: seq<real>)
    requires multiset(a) == multiset(b)
    ensures Median(a) == Median(b)
  {
    AscendingUnique(Sort(a), Sort(b));
  }

  // ---------------------------------------------------------------------
  // Minimum and maximum

  /** The least element of a non-empty sample. */
  function Least(s: seq<real>): (r: real)
    requires |s| > 0
    ensures r in s
    ensures forall i :: 0 <= i < |s| ==> r <= s[i]
  {
    if |s| == 1 then s[0]
    else
      var rest := Least(s[1..]);
      assert s == [s[0]] + s[1..];
      if s[0] <= rest then s[0] else rest
  }

  /** The greatest element of a non-empty sample. */
  function Greatest(s: seq<real>): (r: real)
    requires |s| > 0
    ensures r in s
    ensures forall i :: 0 <= i < |s| ==> s[i] <= r
  {
    if |s| == 1 then s[0]
    else
      var rest := Greatest(s[1..]);
      assert s == [s[0]] + s[1..];
      if s[0] >= rest then s[0] else rest
  }

  /** `Math.min(...sample)`: `Infinity` when the sample is empty. */
  function Min(s: seq<real>): (r: Num)
    ensures r == PosInf <==> |s| == 0
    ensures r.Finite? <==> |s| > 0
    ensures r.Finite? ==> r.value in s && forall i :: 0 <= i < |s| ==> r.value <= s[i]
  {
    if |s| == 0 then PosInf else Finite(Least(s))
  }

  /** `Math.max(...sample)`: `-Infinity` when the sample is empty. */
  function Max(s: seq<real>): (r: Num)
    ensures r == NegInf <==> |s| == 0
    ensures r.Finite? <==> |s| > 0
    ensures r.Finite? ==> r.value in s && forall i :: 0 <= i < |s| ==> s[i] <= r.value
  {
    if |s| == 0 then NegInf else Finite(Greatest(s))
  }

  /** The median of a non-empty sample lies between its minimum and maximum. */
  lemma MedianWithinRange(sample: seq<real>)
    requires |sample| > 0
    ensures Least(sample) <= Median(sample).value <= Greatest(sample)
  {
    var d := Sort(sample);
    var n := |d|;
    assert |multiset(d)| == |multiset(sample)|;
    assert d[n / 2] in multiset(sample);
    if n % 2 == 0 {
      assert d[n / 2 - 1] in multiset(sample);
    }
  }

  // ---------------------------------------------------------------------
  // The counting characterisation of the median

  /** How many elements of `s` are at most `m`. */
  function CountAtMost(s: seq<real>, m: real): (c: nat)
    ensures c <= |s|
  {
    if |s| == 0 then 0 else (if s[0] <= m then 1 else 0) + CountAtMost(s[1..], m)
  }

  /** How many elements of `s` are at least `m`. */
  function CountAtLeast(s: seq<real>, m: real): (c: nat)
    ensures c <= |s|
  {
    if |s| == 0 then 0 else (if s[0] >= m then 1 else 0) + CountAtLeast(s[1..], m)
  }

  lemma {:induction false} InsertCounts(x: real, s: seq<real>, m: real)
    requires Ascending(s)
    ensures CountAtMost(Insert(x, s), m) == (if x <= m then 1 else 0) + CountAtMost(s, m)
    ensures CountAtLeast(Insert(x, s), m) == (if x >= m then 1 else 0) + CountAtLeast(s, m)
  {
    if |s| > 0 && x >= s[0] {
      InsertCounts(x, s[1..], m);
      var r := Insert(x, s);
      assert r[1..] == Insert(x, s[1..]);
    }
  }

  /** Sorting keeps every count. */
  lemma {:induction false} SortCounts(s: seq<real>, m: real)
    ensures CountAtMost(Sort(s), m) == CountAtMost(s, m)
    ensures CountAtLeast(Sort(s), m) == CountAtLeast(s, m)
  {
    if |s| > 0 {
      SortCounts(s[1..], m);
      InsertCounts(s[0], Sort(s[1..]), m);
    }
  }

  /** At least `k` elements are at most `m` when the first `k` are. */
  lemma {:induction false} CountAtMostPrefix(s: seq<real>, m: real, k: nat)
    requires k <= |s|
    requires forall i :: 0 <= i < k ==> s[i] <= m
    ensures CountAtMost(s, m) >= k
  {
    if k > 0 {
      CountAtMostPrefix(s[1..], m, k - 1);
    }
  }

  /** At least `|s| - k` elements are at least `m` when those from `k` on are. */
  lemma {:induction false} CountAtLeastSuffix(s: seq<real>, m: real, k: nat)
    requires k <= |s|
    requires forall i :: k <= i < |s| ==> s[i] >= m
    ensures CountAtLeast(s, m) >= |s| - k
  {
    if |s| > 0 {
      if k == 0 {
        CountAtLeastSuffix(s[1..], m, 0);
      } else {
        CountAtLeastSuffix(s[1..], m, k - 1);
      }
    }
  }

  /**
   The textbook definition of a median: at least half of the sample is at
   most the median and at least half is at least the median.
   */
  lemma MedianSplitsSample(sample: seq<real>)
    requires |sample| > 0
    ensures 2 * CountAtMost(sample, Median(sample).value) >= |sample|
    ensures 2 * CountAtLeast(sample, Median(sample).value) >= |sample|
  {
    var d := Sort(sample);
    var m := Median(sample).value;
    assert |multiset(d)| == |multiset(sample)|;
    SortCounts(sample, m);
    MiddleSplits(d);
  }

  lemma MiddleSplits(d: seq<real>)
    requires |d| > 0 && Ascending(d)
    ensures 2 * CountAtMost(d, MiddleOf(d).value) >= |d|
    ensures 2 * CountAtLeast(d, MiddleOf(d).value) >= |d|
  {
    var n := |d|;
    if n % 2 == 1 {
      var m := d[n / 2];
      assert MiddleOf(d).value == m;
      SplitAt(d, m, n / 2 + 1, n / 2);
    } else {
      var a, b := d[n / 2 - 1], d[n / 2];
      assert a <= b;
      var m := (a + b) / 2.0;
      assert MiddleOf(d).value == m;
      assert a <= m <= b;
      SplitAt(d, m, n / 2, n / 2);
    }
  }

  /** The first `lo` elements are at most `m` and those from `hi` on at least `m`. */
  lemma SplitAt(d: seq<real>, m: real, lo: nat, hi: nat)
    requires Ascending(d) && lo <= |d| && hi <= |d|
    requires lo > 0 ==> d[lo - 1] <= m
    requires hi < |d| ==> m <= d[hi]
    ensures CountAtMost(d, m) >= lo
    ensures CountAtLeast(d, m) >= |d| - hi
  {
    forall i | 0 <= i < lo
      ensures d[i] <= m
    {
      assert d[i] <= d[lo - 1];
    }
    forall i | hi <= i < |d|
      ensures d[i] >= m
    {
      assert d[hi] <= d[i];
    }
    CountAtMostPrefix(d, m, lo);
    CountAtLeastSuffix(d, m, hi);
  }
}
