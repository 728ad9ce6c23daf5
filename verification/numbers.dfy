/**
 Numeric vocabulary shared by the case-result and summary modules.

 JavaScript numbers are modelled as exact reals plus the three non-finite
 values the report can actually produce (`Math.min()` of nothing is
 `Infinity`, `Math.max()` of nothing is `-Infinity`, the median of nothing
 and `0 / 0` are `NaN`). The two rounding primitives of the source are
 `Math.round(x * 10 ** p) / 10 ** p` and `Number(x.toFixed(f))`.
 */
module Numbers {

  /** A JavaScript number as far as this model needs one. */
  datatype Num = Finite(value: real) | PosInf | NegInf | NaN

  /** `10 ** p` for a non-negative precision. */
  function Pow10(p: nat): (r: real)
    ensures r >= 1.0
  {
    if p == 0 then 1.0 else 10.0 * Pow10(p - 1)
  }

  /** `Math.round(x)`: the nearest integer, halves rounded towards +Infinity. */
  function MathRound(x: real): int
  {
    (x + 0.5).Floor
  }

  /** `x * 10 ** p`. */
  function Scale(x: real, p: nat): real
  {
    x * Pow10(p)
  }

  /** `k / 10 ** p`. */
  function Unscale(k: int, p: nat): real
  {
    k as real / Pow10(p)
  }

  /**
   `Math.round(x * 10 ** p) / 10 ** p`, the rounding step of the summary: the
   multiple of `10 ** -p` nearest to `x`, a tie going upwards. It has at most
   `p` decimals and lies in `(x - h, x + h]` for `h = 1 / (2 * 10 ** p)`.
   */
  function RoundTo(x: real, p: nat): (r: real)
    ensures HasDecimals(r, p)
    ensures x - 0.5 / Pow10(p) < r <= x + 0.5 / Pow10(p)
  {
    NearestMultiple(x, p);
    Unscale(MathRound(Scale(x, p)), p)
  }

  /** True when `x` has at most `p` decimal places. */
  predicate HasDecimals(x: real, p: nat)
  {
    Scale(x, p).Floor as real == Scale(x, p)
  }

  /** The ECMAScript threshold above which `toFixed` falls back to `ToString`. */
  const ToFixedLimit: real := 1_000_000_000_000_000_000_000.0

  /**
   `Number(x.toFixed(f))` for a finite `x`: the sign is split off, the
   magnitude is rounded to the nearest multiple of `10 ** -f` with ties going
   to the larger multiple, and magnitudes of `10 ** 21` or more are printed
   (and read back) unchanged. Below that bound the result has `f` decimals and
   lies within half a unit of the `f`-th decimal of `x`, a tie going away
   from zero.
   */
  function ToFixed(x: real, f: nat): (r: real)
    ensures -ToFixedLimit < x < ToFixedLimit ==> HasDecimals(r, f)
    ensures -ToFixedLimit < x < ToFixedLimit ==> x - 0.5 / Pow10(f) <= r <= x + 0.5 / Pow10(f)
    ensures 0.0 <= x < ToFixedLimit ==> x - 0.5 / Pow10(f) < r
    ensures -ToFixedLimit < x < 0.0 ==> r < x + 0.5 / Pow10(f)
    ensures x <= -ToFixedLimit || ToFixedLimit <= x ==> r == x
  {
    if x < 0.0 then
      NegatedRounding(x, f);
      -ToFixedMagnitude(-x, f)
    else
      ToFixedMagnitude(x, f)
  }

  function ToFixedMagnitude(x: real, f: nat): real
  {
    if x >= ToFixedLimit then x else RoundTo(x, f)
  }

  // ---------------------------------------------------------------------
  // Facts about powers of ten

  lemma {:induction false} Pow10Grows(p: nat)
    ensures Pow10(p) >= (p + 1) as real
  {
    if p > 0 {
      Pow10Grows(p - 1);
    }
  }

  lemma {:induction false} Pow10Monotone(p: nat, q: nat)
    requires p <= q
    ensures Pow10(p) <= Pow10(q)
  {
    if p < q {
      Pow10Monotone(p, q - 1);
    }
  }

  // ---------------------------------------------------------------------
  // Facts about Math.round

  lemma MathRoundIsNearest(x: real)
    ensures x - 0.5 < MathRound(x) as real <= x + 0.5
  {
  }

  lemma MathRoundMonotone(x: real, y: real)
    requires x <= y
    ensures MathRound(x) <= MathRound(y)
  {
  }

  lemma MathRoundSeparates(x: real, y: real)
    requires y - x > 1.0
    ensures MathRound(x) < MathRound(y)
  {
  }

  lemma MathRoundFixesIntegers(n: int)
    ensures MathRound(n as real) == n
  {
  }

  // ---------------------------------------------------------------------
  // Scaling by a positive factor

  lemma ScaleBounds(x: real, k: real, P: real)
    requires P > 0.0
    requires x * P - 0.5 < k <= x * P + 0.5
    ensures x - 0.5 / P < k / P <= x + 0.5 / P
  {
    assert k / P - (x - 0.5 / P) == (k - (x * P - 0.5)) / P;
    assert (x + 0.5 / P) - k / P == ((x * P + 0.5) - k) / P;
  }

  lemma ScaleInverse(x: real, P: real)
    requires P > 0.0
    ensures (x / P) * P == x
    ensures (x * P) / P == x
  {
  }

  lemma ScaleMonotone(x: real, y: real, P: real)
    requires P > 0.0 && x <= y
    ensures x * P <= y * P
    ensures x / P <= y / P
  {
    assert y / P - x / P == (y - x) / P;
  }

  lemma ScaleStrict(x: real, y: real, P: real)
    requires P > 0.0 && x < y
    ensures x / P < y / P
  {
    assert y / P - x / P == (y - x) / P;
  }

  lemma ScaleNegate(x: real, P: real)
    ensures (-x) * P == -(x * P)
  {
  }

  // ---------------------------------------------------------------------
  // Facts about rounding

  /** The contract of `RoundTo`, stated on its body. */
  lemma NearestMultiple(x: real, p: nat)
    ensures HasDecimals(Unscale(MathRound(Scale(x, p)), p), p)
    ensures x - 0.5 / Pow10(p) < Unscale(MathRound(Scale(x, p)), p) <= x + 0.5 / Pow10(p)
  {
    UnscaleHasDecimals(MathRound(Scale(x, p)), p);
    UnscaleBounds(x, p);
  }

  lemma UnscaleBounds(x: real, p: nat)
    ensures x - 0.5 / Pow10(p) < Unscale(MathRound(Scale(x, p)), p) <= x + 0.5 / Pow10(p)
  {
    var P := Pow10(p);
    var s := Scale(x, p);
    var k := MathRound(s);
    MathRoundIsNearest(s);
    assert s == x * P;
    ScaleBounds(x, k as real, P);
    assert Unscale(k, p) == k as real / P;
  }

  lemma UnscaleHasDecimals(k: int, p: nat)
    ensures HasDecimals(Unscale(k, p), p)
  {
    ScaleInverse(k as real, Pow10(p));
    assert Scale(Unscale(k, p), p) == k as real;
  }

  /** A value that already has `p` decimals is left unchanged by rounding at `p`. */
  lemma RoundToFixesDecimals(x: real, p: nat)
    requires HasDecimals(x, p)
    ensures RoundTo(x, p) == x
  {
    var k := Scale(x, p).Floor;
    MathRoundFixesIntegers(k);
    ScaleInverse(x, Pow10(p));
  }

  /** Rounding at `p` is idempotent. */
  lemma RoundToIdempotent(x: real, p: nat)
    ensures RoundTo(RoundTo(x, p), p) == RoundTo(x, p)
  {
    RoundToFixesDecimals(RoundTo(x, p), p);
  }

  /** Rounding never reverses the order of two values. */
  lemma RoundToMonotone(x: real, y: real, p: nat)
    requires x <= y
    ensures RoundTo(x, p) <= RoundTo(y, p)
  {
    var P := Pow10(p);
    ScaleMonotone(x, y, P);
    MathRoundMonotone(Scale(x, p), Scale(y, p));
    ScaleMonotone(MathRound(Scale(x, p)) as real, MathRound(Scale(y, p)) as real, P);
  }

  /**
   Two values more than one unit of the `p`-th decimal apart round to
   different values (the larger stays larger).
   */
  lemma RoundToSeparates(x: real, y: real, p: nat)
    requires (y - x) * Pow10(p) > 1.0
    ensures RoundTo(x, p) < RoundTo(y, p)
  {
    ScaleGap(x, y, p);
    MathRoundSeparates(Scale(x, p), Scale(y, p));
    UnscaleStrict(MathRound(Scale(x, p)), MathRound(Scale(y, p)), p);
  }

  lemma ScaleGap(x: real, y: real, p: nat)
    ensures Scale(y, p) - Scale(x, p) == (y - x) * Pow10(p)
  {
    Distribute(x, y, Pow10(p));
  }

  lemma Distribute(x: real, y: real, P: real)
    ensures y * P - x * P == (y - x) * P
  {
  }

  lemma UnscaleStrict(a: int, b: int, p: nat)
    requires a < b
    ensures Unscale(a, p) < Unscale(b, p)
  {
    ScaleStrict(a as real, b as real, Pow10(p));
  }

  /** The negative branch of `ToFixed` keeps `f` decimals below the `toFixed` bound. */
  lemma NegatedRounding(x: real, f: nat)
    requires x < 0.0
    ensures -x < ToFixedLimit ==> HasDecimals(-RoundTo(-x, f), f)
  {
    NegatedHasDecimals(RoundTo(-x, f), f);
  }

  lemma NegatedHasDecimals(r: real, f: nat)
    requires HasDecimals(r, f)
    ensures HasDecimals(-r, f)
  {
    ScaleNegate(r, Pow10(f));
    assert Scale(-r, f) == -Scale(r, f);
    NegatedInteger(Scale(r, f));
  }

  lemma NegatedInteger(y: real)
    requires y.Floor as real == y
    ensures (-y).Floor as real == -y
  {
    var n := y.Floor;
    assert -y == (-n) as real;
    assert ((-n) as real).Floor == -n;
  }

  /** A whole number has at most `p` decimals for every `p`. */
  lemma IntegerHasDecimals(n: int, p: nat)
    ensures HasDecimals(n as real, p)
  {
    Pow10IsInteger(p);
    var P := Pow10(p);
    assert Scale(n as real, p) == (n * P.Floor) as real;
  }

  /** A whole number is unchanged by rounding at any precision. */
  lemma RoundToFixesIntegers(n: int, p: nat)
    ensures RoundTo(n as real, p) == n as real
  {
    IntegerHasDecimals(n, p);
    RoundToFixesDecimals(n as real, p);
  }

  /** Rounding to `f` decimals keeps a value of `[0, 100]` inside `[0, 100]`. */
  lemma ToFixedPercentRange(x: real, f: nat)
    requires 0.0 <= x <= 100.0
    ensures 0.0 <= ToFixed(x, f) <= 100.0
  {
    RoundToMonotone(0.0, x, f);
    RoundToMonotone(x, 100.0, f);
    RoundToFixesIntegers(0, f);
    RoundToFixesIntegers(100, f);
  }

  lemma {:induction false} Pow10IsInteger(p: nat)
    ensures Pow10(p).Floor as real == Pow10(p)
  {
    if p > 0 {
      Pow10IsInteger(p - 1);
      var n := Pow10(p - 1).Floor;
      assert Pow10(p) == (10 * n) as real;
    }
  }
}
