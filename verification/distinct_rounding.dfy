/**
 `roundNumbersToDistinctValues`: round every throughput to `precision`
 decimals; if that merges values that were different, try again one decimal
 finer. Equal inputs stay equal, so the search stops at the first precision
 where rounding merges nothing, and such a precision always exists: values
 that differ by `g` are told apart once `10 ** p * g > 1`.
 */
module DistinctRounding {
  import opened Numbers

  /** The set of values occurring in `s`. */
  function Elements(s: seq<real>): set<real>
  {
    set x | x in s
  }

  /** `new Set(s).size`: at most the length, and zero only for an empty list. */
  function DistinctCount(s: seq<real>): (c: nat)
    ensures c <= |s|
    ensures c == 0 <==> |s| == 0
  {
    ElementsBound(s);
    assert |s| > 0 ==> s[0] in Elements(s);
    |Elements(s)|
  }

  lemma {:induction false} ElementsBound(s: seq<real>)
    ensures |Elements(s)| <= |s|
  {
    if |s| > 0 {
      ElementsCons(s);
      ElementsBound(s[1..]);
    }
  }

  /** `numbers.map(num => Math.round(num * 10 ** p) / 10 ** p)`. */
  function RoundAll(numbers: seq<real>, p: nat): (r: seq<real>)
    ensures |r| == |numbers|
    ensures forall i :: 0 <= i < |r| ==> r[i] == RoundTo(numbers[i], p)
  {
    seq(|numbers|, i requires 0 <= i < |numbers| => RoundTo(numbers[i], p))
  }

  /** Rounding at `p` keeps the number of distinct values. */
  predicate Preserves(numbers: seq<real>, p: nat)
  {
    DistinctCount(RoundAll(numbers, p)) == DistinctCount(numbers)
  }

  /**
   `roundNumbersToDistinctValues(numbers, precision)`: the rounding at the
   first precision from `precision` on that keeps the distinct count. The
   search is bounded by `SeparatingPrecision`, beyond which no two distinct
   values can collide.
   */
  function RoundNumbersToDistinctValues(numbers: seq<real>, precision: nat): (r: seq<real>)
    ensures |r| == |numbers|
    ensures DistinctCount(r) == DistinctCount(numbers)
    ensures Preserves(numbers, precision) ==> r == RoundAll(numbers, precision)
    decreases SeparatingPrecision(numbers) - precision
  {
    var rounded := RoundAll(numbers, precision);
    if DistinctCount(rounded) == DistinctCount(numbers) then
      rounded
    else
      SeparatedPreserves(numbers, precision);
      RoundNumbersToDistinctValues(numbers, precision + 1)
  }

  /** `p` is the first precision from `start` on whose rounding keeps the distinct count. */
  ghost predicate FirstPreserving(numbers: seq<real>, start: nat, p: nat)
  {
    && start <= p
    && Preserves(numbers, p)
    && forall q :: start <= q < p ==> !Preserves(numbers, q)
  }

  /**
   The result is the rounding of every input at the first preserving
   precision; in particular element `i` is input `i` rounded.
   */
  lemma {:induction false} RoundsAtFirstPreservingPrecision(numbers: seq<real>, start: nat)
    ensures exists p :: FirstPreserving(numbers, start, p)
                        && RoundNumbersToDistinctValues(numbers, start) == RoundAll(numbers, p)
    decreases SeparatingPrecision(numbers) - start
  {
    if Preserves(numbers, start) {
      assert FirstPreserving(numbers, start, start);
    } else {
      SeparatedPreserves(numbers, start);
      RoundsAtFirstPreservingPrecision(numbers, start + 1);
      var p :| FirstPreserving(numbers, start + 1, p)
               && RoundNumbersToDistinctValues(numbers, start + 1) == RoundAll(numbers, p);
      assert FirstPreserving(numbers, start, p);
    }
  }

  /**
   Two inputs round to the same output exactly when they were equal: the
   rounding neither merges distinct throughputs nor splits equal ones.
   */
  lemma RoundingKeepsDistinctions(numbers: seq<real>, precision: nat)
    ensures forall i, j :: 0 <= i < |numbers| && 0 <= j < |numbers| ==>
              (RoundNumbersToDistinctValues(numbers, precision)[i]
                 == RoundNumbersToDistinctValues(numbers, precision)[j]
               <==> numbers[i] == numbers[j])
  {
    RoundsAtFirstPreservingPrecision(numbers, precision);
    var p :| FirstPreserving(numbers, precision, p)
             && RoundNumbersToDistinctValues(numbers, precision) == RoundAll(numbers, p);
    PreservesIffNoCollision(numbers, p);
    RoundAllFunctional(numbers, p);
  }

  /**
   Values that already have at most `precision` decimals come back
   unchanged: the first rounding changes nothing and so keeps the count.
   */
  lemma ShortDecimalsUnchanged(numbers: seq<real>, precision: nat)
    requires forall i :: 0 <= i < |numbers| ==> HasDecimals(numbers[i], precision)
    ensures RoundNumbersToDistinctValues(numbers, precision) == numbers
  {
    forall i | 0 <= i < |numbers|
      ensures RoundAll(numbers, precision)[i] == numbers[i]
    {
      RoundToFixesDecimals(numbers[i], precision);
    }
    assert RoundAll(numbers, precision) == numbers;
  }

  // ---------------------------------------------------------------------
  // Counting distinct values through a rounding
  //
  // The counting arguments only use that `r` is obtained from `s` element by
  // element through a function, so they are stated for any such pair.

  /** `r[i]` is a function of `s[i]`: equal inputs give equal outputs. */
  ghost predicate Functional(s: seq<real>, r: seq<real>)
  {
    && |s| == |r|
    && forall i, j :: 0 <= i < |s| && 0 <= j < |s| && s[i] == s[j] ==> r[i] == r[j]
  }

  /** Different inputs give different outputs. */
  ghost predicate Injective(s: seq<real>, r: seq<real>)
  {
    && |s| == |r|
    && forall i, j :: 0 <= i < |s| && 0 <= j < |s| && r[i] == r[j] ==> s[i] == s[j]
  }

  lemma ElementsCons(s: seq<real>)
    requires |s| > 0
    ensures Elements(s) == {s[0]} + Elements(s[1..])
  {
    assert s == [s[0]] + s[1..];
  }

  lemma FunctionalTail(s: seq<real>, r: seq<real>)
    requires Functional(s, r) && |s| > 0
    ensures Functional(s[1..], r[1..])
  {
    forall i, j | 0 <= i < |s| - 1 && 0 <= j < |s| - 1 && s[1..][i] == s[1..][j]
      ensures r[1..][i] == r[1..][j]
    {
      assert s[i + 1] == s[j + 1];
    }
  }

  lemma InjectiveTail(s: seq<real>, r: seq<real>)
    requires Injective(s, r) && |s| > 0
    ensures Injective(s[1..], r[1..])
  {
    forall i, j | 0 <= i < |s| - 1 && 0 <= j < |s| - 1 && r[1..][i] == r[1..][j]
      ensures s[1..][i] == s[1..][j]
    {
      assert r[i + 1] == r[j + 1];
    }
  }

  /** When the first input recurs later, so does the first output. */
  lemma HeadRecurs(s: seq<real>, r: seq<real>)
    requires Functional(s, r) && |s| > 0 && s[0] in s[1..]
    ensures r[0] in r[1..]
  {
    var k :| 0 <= k < |s| - 1 && s[1..][k] == s[0];
    assert r[k + 1] == r[0];
    assert r[1..][k] == r[0];
  }

  lemma {:induction false} ImageNoLarger(s: seq<real>, r: seq<real>)
    requires Functional(s, r)
    ensures |Elements(r)| <= |Elements(s)|
  {
    if |s| > 0 {
      ElementsCons(s);
      ElementsCons(r);
      FunctionalTail(s, r);
      ImageNoLarger(s[1..], r[1..]);
      if s[0] in s[1..] {
        HeadRecurs(s, r);
      }
    }
  }

  lemma {:induction false} ImageSameSize(s: seq<real>, r: seq<real>)
    requires Functional(s, r) && Injective(s, r)
    ensures |Elements(r)| == |Elements(s)|
  {
    if |s| > 0 {
      ElementsCons(s);
      ElementsCons(r);
      FunctionalTail(s, r);
      InjectiveTail(s, r);
      ImageSameSize(s[1..], r[1..]);
      if s[0] in s[1..] {
        HeadRecurs(s, r);
        assert Elements(s) == Elements(s[1..]);
        assert Elements(r) == Elements(r[1..]);
      }
    }
  }

  lemma {:induction false} ImageSmaller(s: seq<real>, r: seq<real>, i: nat, j: nat)
    requires Functional(s, r)
    requires i < |s| && j < |s| && s[i] != s[j] && r[i] == r[j]
    ensures |Elements(r)| < |Elements(s)|
  {
    ElementsCons(s);
    ElementsCons(r);
    FunctionalTail(s, r);
    var t, u := s[1..], r[1..];
    ImageNoLarger(t, u);
    if i == 0 || j == 0 {
      var b := if i == 0 then j else i;
      assert u[b - 1] == r[0] && t[b - 1] != s[0];
      assert r[0] in Elements(u);
      AddOne(r[0], Elements(u));
      AddOne(s[0], Elements(t));
      if s[0] in t {
        var k :| 0 <= k < |t| && t[k] == s[0];
        assert u[k] == r[0];
        ImageSmaller(t, u, k, b - 1);
      }
    } else {
      assert t[i - 1] != t[j - 1] && u[i - 1] == u[j - 1];
      ImageSmaller(t, u, i - 1, j - 1);
      AddOne(r[0], Elements(u));
      AddOne(s[0], Elements(t));
      if s[0] in t {
        HeadRecurs(s, r);
      }
    }
  }

  /** Adding an element grows a set by one exactly when it was missing. */
  lemma AddOne(x: real, e: set<real>)
    ensures |{x} + e| == if x in e then |e| else |e| + 1
  {
    if x in e {
      assert {x} + e == e;
    }
  }

  lemma RoundAllFunctional(numbers: seq<real>, p: nat)
    ensures Functional(numbers, RoundAll(numbers, p))
  {
  }

  /** Rounding never adds distinct values. */
  lemma RoundingNeverAddsValues(numbers: seq<real>, p: nat)
    ensures DistinctCount(RoundAll(numbers, p)) <= DistinctCount(numbers)
  {
    RoundAllFunctional(numbers, p);
    ImageNoLarger(numbers, RoundAll(numbers, p));
  }

  /** Rounding keeps the distinct count exactly when it merges no two different inputs. */
  lemma PreservesIffNoCollision(numbers: seq<real>, p: nat)
    ensures Preserves(numbers, p) <==> Injective(numbers, RoundAll(numbers, p))
  {
    var r := RoundAll(numbers, p);
    RoundAllFunctional(numbers, p);
    if Injective(numbers, r) {
      ImageSameSize(numbers, r);
    } else {
      var i, j :| 0 <= i < |numbers| && 0 <= j < |numbers| && r[i] == r[j] && numbers[i] != numbers[j];
      ImageSmaller(numbers, r, i, j);
    }
  }

  // ---------------------------------------------------------------------
  // Termination: a precision at which all distinct inputs separate

  /** A precision at which `x` and `y`, if different, round apart. */
  ghost function GapPrecision(x: real, y: real): nat
  {
    if x == y then 0
    else
      var g := if x < y then y - x else x - y;
      assert 1.0 / g > 0.0;
      (1.0 / g).Floor + 1
  }

  lemma GapPrecisionSeparates(x: real, y: real, p: nat)
    requires x < y
    requires p >= GapPrecision(x, y)
    ensures RoundTo(x, p) != RoundTo(y, p)
  {
    var g := y - x;
    var n := GapPrecision(x, y);
    Pow10Grows(n);
    Pow10Monotone(n, p);
    assert Pow10(p) > 1.0 / g;
    BeyondReciprocal(g, Pow10(p));
    RoundToSeparates(x, y, p);
  }

  lemma BeyondReciprocal(g: real, P: real)
    requires g > 0.0 && P > 1.0 / g
    ensures g * P > 1.0
  {
    var q := 1.0 / g;
    Reciprocal(g);
    MultiplyStrict(q, P, g);
    var one := g * q;
    assert one == 1.0 && one < g * P;
  }

  lemma MultiplyStrict(a: real, b: real, c: real)
    requires a < b && c > 0.0
    ensures c * a < c * b
  {
  }

  lemma Reciprocal(g: real)
    requires g > 0.0
    ensures g * (1.0 / g) == 1.0
  {
  }

  /** The largest `GapPrecision` between `x` and an element of `t`. */
  ghost function PairPrecision(x: real, t: seq<real>): nat
  {
    if |t| == 0 then 0
    else
      var here := GapPrecision(x, t[0]);
      var rest := PairPrecision(x, t[1..]);
      if here < rest then rest else here
  }

  /** The largest `GapPrecision` over all pairs of elements of `s`. */
  ghost function SeparatingPrecision(s: seq<real>): nat
  {
    if |s| == 0 then 0
    else
      var first := PairPrecision(s[0], s[1..]);
      var rest := SeparatingPrecision(s[1..]);
      if first < rest then rest else first
  }

  lemma {:induction false} PairPrecisionBounds(x: real, t: seq<real>, j: nat)
    requires j < |t|
    ensures GapPrecision(x, t[j]) <= PairPrecision(x, t)
  {
    if j > 0 {
      PairPrecisionBounds(x, t[1..], j - 1);
    }
  }

  lemma GapPrecisionSymmetric(x: real, y: real)
    ensures GapPrecision(x, y) == GapPrecision(y, x)
  {
  }

  lemma {:induction false} SeparatingPrecisionBounds(s: seq<real>, i: nat, j: nat)
    requires i < |s| && j < |s|
    ensures GapPrecision(s[i], s[j]) <= SeparatingPrecision(s)
  {
    if i > 0 && j > 0 {
      SeparatingPrecisionBounds(s[1..], i - 1, j - 1);
    } else if i == 0 && j > 0 {
      PairPrecisionBounds(s[0], s[1..], j - 1);
    } else if i > 0 && j == 0 {
      PairPrecisionBounds(s[0], s[1..], i - 1);
      GapPrecisionSymmetric(s[i], s[0]);
    }
  }

  /** From `SeparatingPrecision` on, rounding keeps the distinct count. */
  lemma SeparatedPreserves(numbers: seq<real>, p: nat)
    ensures p >= SeparatingPrecision(numbers) ==> Preserves(numbers, p)
  {
    if p >= SeparatingPrecision(numbers) {
      var r := RoundAll(numbers, p);
      forall i, j | 0 <= i < |numbers| && 0 <= j < |numbers| && r[i] == r[j]
        ensures numbers[i] == numbers[j]
      {
        SeparatingPrecisionBounds(numbers, i, j);
        if numbers[i] < numbers[j] {
          GapPrecisionSeparates(numbers[i], numbers[j], p);
        } else if numbers[j] < numbers[i] {
          GapPrecisionSeparates(numbers[j], numbers[i], p);
        }
      }
      PreservesIffNoCollision(numbers, p);
    }
  }
}
