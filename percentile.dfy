/**
 * `GetPercentile`, textually the same in the client and the server, and the
 * five-percentile block both reports print with it. Doubles are idealised as
 * reals; the indices are computed exactly as the code does, without clamping.
 */
module Percentile {
  import opened Results
  import opened Stats

  /** The index the code read that `List<double>` rejected. */
  datatype IndexError = IndexOutOfRange(index: int)

  /** `Math.Truncate`: rounds toward zero. */
  function Truncate(x: real): (n: int)
    ensures x >= 0.0 ==> n as real <= x < n as real + 1.0
    ensures x < 0.0 ==> n as real - 1.0 < x <= n as real
  {
    if x >= 0.0 then x.Floor else -((-x).Floor)
  }

  /** `Math.Ceiling`. */
  function Ceiling(x: real): (n: int)
    ensures n as real - 1.0 < x <= n as real
  {
    -((-x).Floor)
  }

  /** The one-based fractional rank `percent * count / 100.0 + 0.5`. */
  function Rank(percent: int, count: nat): real {
    (percent * count) as real / 100.0 + 0.5
  }

  function LowerIndex(percent: int, count: nat): int {
    Truncate(Rank(percent, count)) - 1
  }

  function UpperIndex(percent: int, count: nat): int {
    Ceiling(Rank(percent, count)) - 1
  }

  function Fraction(percent: int, count: nat): real {
    Rank(percent, count) - Truncate(Rank(percent, count)) as real
  }

  /** `sortedData[k]`, which throws for an index outside the list. */
  function Element(sorted: seq<real>, k: int): (r: Result<real, IndexError>)
    ensures r.Ok? <==> 0 <= k < |sorted|
    ensures r.Ok? ==> r.value == sorted[k]
    ensures r.Err? ==> r.error.index == k
  {
    if 0 <= k < |sorted| then Ok(sorted[k]) else Err(IndexOutOfRange(k))
  }

  /**
   * `GetPercentile(percent, sortedData)` as written: the last element for 100,
   * otherwise the blend of the elements at the truncated and the ceiled rank.
   * The lower element is read first, so its index is the one reported when both fail.
   */
  function Percentile(percent: int, sorted: seq<real>): (r: Result<real, IndexError>)
    ensures r.Err? ==> !(0 <= r.error.index < |sorted|)
    ensures percent == 100 ==> (r.Ok? <==> |sorted| > 0)
  {
    if percent == 100 then Element(sorted, |sorted| - 1)
    else
      var n := |sorted|;
      var lo, hi, f := LowerIndex(percent, n), UpperIndex(percent, n), Fraction(percent, n);
      if !(0 <= lo < n) then Err(IndexOutOfRange(lo))
      else if !(0 <= hi < n) then Err(IndexOutOfRange(hi))
      else Ok(Interpolate(sorted[lo], sorted[hi], f))
  }

  /** The inputs on which `GetPercentile` returns instead of throwing. */
  predicate Defined(percent: int, count: nat) {
    if percent == 100 then count > 0 else 50 <= percent * count <= 100 * count - 50
  }

  /** How the two indices and the fraction relate to the rank. */
  lemma IndexFacts(percent: int, count: nat)
    ensures LowerIndex(percent, count) <= UpperIndex(percent, count) <= LowerIndex(percent, count) + 1
    ensures LowerIndex(percent, count) >= 0 <==> percent * count >= 50
    ensures UpperIndex(percent, count) <= count - 1 <==> percent * count <= 100 * count - 50
    ensures percent * count >= -50 ==> 0.0 <= Fraction(percent, count) < 1.0
    ensures percent * count >= -50 ==>
      (UpperIndex(percent, count) == LowerIndex(percent, count) <==> Fraction(percent, count) == 0.0)
  {
    var k := percent * count;
    var r := Rank(percent, count);
    assert r == k as real / 100.0 + 0.5;
  }

  /** GetPercentile returns exactly when `Defined` holds: for 100 on a non-empty list, and
      otherwise when 50 <= percent * count <= 100 * count - 50. */
  lemma PercentileDefinedIff(percent: int, sorted: seq<real>)
    ensures Percentile(percent, sorted).Ok? <==> Defined(percent, |sorted|)
  {
    IndexFacts(percent, |sorted|);
  }

  /** For 100 the result is the last element, the maximum of an ascending list; an empty
      list throws for index -1. */
  lemma PercentileHundred(sorted: seq<real>)
    ensures |sorted| == 0 ==> Percentile(100, sorted) == Err(IndexOutOfRange(-1))
    ensures |sorted| > 0 ==> Percentile(100, sorted) == Ok(sorted[|sorted| - 1])
    ensures |sorted| > 0 && Ascending(sorted) ==>
      forall k :: 0 <= k < |sorted| ==> sorted[k] <= Percentile(100, sorted).value
  {
  }

  lemma ProductNonNegative(x: real, y: real)
    requires x >= 0.0 && y >= 0.0
    ensures x * y >= 0.0
  {
  }

  /** The linear blend `(1 - f) * lower + f * upper`. */
  function Interpolate(lower: real, upper: real, f: real): real {
    (1.0 - f) * lower + f * upper
  }

  /** A blend with `0 <= f <= 1` lies between its two end points. */
  lemma Blend(a: real, b: real, f: real)
    requires 0.0 <= f <= 1.0
    ensures a <= b ==> a <= Interpolate(a, b, f) <= b
    ensures b <= a ==> b <= Interpolate(a, b, f) <= a
  {
    if a <= b {
      ProductNonNegative(f, b - a);
      ProductNonNegative(1.0 - f, b - a);
    } else {
      ProductNonNegative(f, a - b);
      ProductNonNegative(1.0 - f, a - b);
    }
  }

  /** Away from 100 and inside the domain, the result is the blend of the two indexed elements. */
  lemma PercentileBlend(percent: int, sorted: seq<real>)
    requires percent != 100 && Defined(percent, |sorted|)
    ensures 0 <= LowerIndex(percent, |sorted|) <= UpperIndex(percent, |sorted|) < |sorted|
    ensures 0.0 <= Fraction(percent, |sorted|) < 1.0
    ensures Percentile(percent, sorted).Ok?
    ensures Percentile(percent, sorted).value == Interpolate(
      sorted[LowerIndex(percent, |sorted|)], sorted[UpperIndex(percent, |sorted|)], Fraction(percent, |sorted|))
  {
    IndexFacts(percent, |sorted|);
  }

  /** A returned value blends the elements at two adjacent (or equal) indices, so it lies
      between them, and on an ascending list between the first and the last element. */
  lemma PercentileBetween(percent: int, sorted: seq<real>)
    requires Percentile(percent, sorted).Ok?
    ensures percent != 100 ==>
      var lo, hi := LowerIndex(percent, |sorted|), UpperIndex(percent, |sorted|);
      && 0 <= lo <= hi <= lo + 1 && hi < |sorted|
      && (sorted[lo] <= sorted[hi] ==> sorted[lo] <= Percentile(percent, sorted).value <= sorted[hi])
      && (sorted[hi] <= sorted[lo] ==> sorted[hi] <= Percentile(percent, sorted).value <= sorted[lo])
    ensures Ascending(sorted) ==>
      sorted[0] <= Percentile(percent, sorted).value <= sorted[|sorted| - 1]
  {
    PercentileDefinedIff(percent, sorted);
    if percent != 100 {
      var n := |sorted|;
      PercentileBlend(percent, sorted);
      IndexFacts(percent, n);
      Blend(sorted[LowerIndex(percent, n)], sorted[UpperIndex(percent, n)], Fraction(percent, n));
    }
  }

  /** Moving the weight towards the larger end point does not decrease a blend. */
  lemma InterpolateMonotone(a: real, b: real, f: real, g: real)
    requires a <= b && f <= g
    ensures Interpolate(a, b, f) <= Interpolate(a, b, g)
  {
    ProductNonNegative(g - f, b - a);
    assert Interpolate(a, b, g) - Interpolate(a, b, f) == (g - f) * (b - a);
  }

  /** A larger percent moves both indices up, or keeps them and raises the fraction. */
  lemma IndicesMonotone(p: int, q: int, n: nat)
    requires p < q && n > 0 && p * n >= 50
    ensures LowerIndex(p, n) <= LowerIndex(q, n) && UpperIndex(p, n) <= UpperIndex(q, n)
    ensures UpperIndex(p, n) > LowerIndex(q, n) ==>
      && LowerIndex(p, n) == LowerIndex(q, n)
      && UpperIndex(p, n) == UpperIndex(q, n) == LowerIndex(p, n) + 1
      && Fraction(p, n) < Fraction(q, n)
  {
    assert q * n - p * n == (q - p) * n;
    assert (q - p) * n > 0;
    assert Rank(p, n) < Rank(q, n);
    IndexFacts(p, n);
    IndexFacts(q, n);
  }

  /** On an ascending list the estimate does not decrease as the percent grows. */
  lemma PercentileMonotone(p: int, q: int, sorted: seq<real>)
    requires Ascending(sorted) && p <= q
    requires Percentile(p, sorted).Ok? && Percentile(q, sorted).Ok?
    ensures Percentile(p, sorted).value <= Percentile(q, sorted).value
  {
    var n := |sorted|;
    PercentileDefinedIff(p, sorted);
    PercentileDefinedIff(q, sorted);
    PercentileBetween(p, sorted);
    PercentileBetween(q, sorted);
    if p != 100 && q != 100 && p < q {
      PercentileBlend(p, sorted);
      PercentileBlend(q, sorted);
      IndicesMonotone(p, q, n);
      var lp, hp, fp := LowerIndex(p, n), UpperIndex(p, n), Fraction(p, n);
      var lq, fq := LowerIndex(q, n), Fraction(q, n);
      if hp <= lq {
        assert sorted[hp] <= sorted[lq];
      } else {
        InterpolateMonotone(sorted[lp], sorted[hp], fp, fq);
      }
    }
  }

  /** When the rank is a whole number m, the result is exactly the m-th element (one-based). */
  lemma PercentileWholeRank(percent: int, sorted: seq<real>)
    requires percent != 100 && Defined(percent, |sorted|)
    requires (2 * percent * |sorted| + 100) % 200 == 0
    ensures Percentile(percent, sorted) == Ok(sorted[(2 * percent * |sorted| + 100) / 200 - 1])
  {
    var n := |sorted|;
    var m := (2 * percent * n + 100) / 200;
    assert 2 * (percent * n) + 100 == 200 * m;
    assert Rank(percent, n) == m as real;
    IndexFacts(percent, n);
  }

  lemma MedianOfFive()
    ensures Percentile(50, [1.0, 2.0, 3.0, 4.0, 5.0]) == Ok(3.0)
  {
    PercentileWholeRank(50, [1.0, 2.0, 3.0, 4.0, 5.0]);
  }

  lemma MedianOfFour()
    ensures Percentile(50, [1.0, 2.0, 3.0, 4.0]) == Ok(2.5)
  {
    assert Rank(50, 4) == 2.5;
    assert Truncate(2.5) == 2;
    assert Ceiling(2.5) == 3;
  }

  /** On a single sample, 50 and 100 return it; a percent in [0, 50) throws for index -1 and
      one strictly between 50 and 100 (75, 90 and 99 among them) throws for index 1. */
  lemma SingleSample(percent: int, x: real)
    requires 0 <= percent <= 100
    ensures percent == 50 || percent == 100 ==> Percentile(percent, [x]) == Ok(x)
    ensures percent < 50 ==> Percentile(percent, [x]) == Err(IndexOutOfRange(-1))
    ensures 50 < percent < 100 ==> Percentile(percent, [x]) == Err(IndexOutOfRange(1))
  {
    if percent == 50 {
      PercentileWholeRank(50, [x]);
    } else if percent != 100 {
      IndexFacts(percent, 1);
      var r := Rank(percent, 1);
      assert r == percent as real / 100.0 + 0.5;
      if percent < 50 {
        assert 0.0 < r < 1.0;
        assert LowerIndex(percent, 1) == -1;
      } else {
        assert 1.0 < r < 2.0;
        assert LowerIndex(percent, 1) == 0 && UpperIndex(percent, 1) == 1;
      }
    }
  }

  // ---------------------------------------------------------------------------
  // The evidently intended estimator: indices clamped into the list.

  function Clamp(k: int, count: nat): (c: int)
    requires count > 0
    ensures 0 <= c < count
    ensures 0 <= k < count ==> c == k
  {
    if k < 0 then 0 else if k > count - 1 then count - 1 else k
  }

  /** GetPercentile with both indices clamped to [0, count - 1]; only the empty list throws. */
  function ClampedPercentile(percent: int, sorted: seq<real>): Result<real, IndexError> {
    if |sorted| == 0 then Err(IndexOutOfRange(-1))
    else if percent == 100 then Ok(sorted[|sorted| - 1])
    else
      var n := |sorted|;
      var f := Fraction(percent, n);
      Ok(Interpolate(sorted[Clamp(LowerIndex(percent, n), n)], sorted[Clamp(UpperIndex(percent, n), n)], f))
  }

  lemma ClampedBlend(percent: int, sorted: seq<real>)
    requires |sorted| > 0 && percent != 100
    ensures ClampedPercentile(percent, sorted).Ok?
    ensures ClampedPercentile(percent, sorted).value == Interpolate(
      sorted[Clamp(LowerIndex(percent, |sorted|), |sorted|)],
      sorted[Clamp(UpperIndex(percent, |sorted|), |sorted|)], Fraction(percent, |sorted|))
  {
  }

  /** For a percent in [0, 100) the clamped indices are ordered and the weight is in [0, 1). */
  lemma ClampedIndices(percent: int, n: nat)
    requires 0 <= percent < 100 && n > 0
    ensures Clamp(LowerIndex(percent, n), n) <= Clamp(UpperIndex(percent, n), n)
    ensures 0.0 <= Fraction(percent, n) < 1.0
  {
    assert percent * n >= 0;
    IndexFacts(percent, n);
  }

  /** The clamped estimator returns for every percent in [0, 100] on a non-empty list and,
      on an ascending list, stays between the first and the last element. */
  lemma ClampedPercentileWithin(percent: int, sorted: seq<real>)
    requires 0 <= percent <= 100
    ensures ClampedPercentile(percent, sorted).Ok? <==> |sorted| > 0
    ensures |sorted| > 0 && Ascending(sorted) ==>
      sorted[0] <= ClampedPercentile(percent, sorted).value <= sorted[|sorted| - 1]
  {
    var n := |sorted|;
    if n > 0 && percent != 100 {
      ClampedIndices(percent, n);
      ClampedBlend(percent, sorted);
      var lo, hi := Clamp(LowerIndex(percent, n), n), Clamp(UpperIndex(percent, n), n);
      Blend(sorted[lo], sorted[hi], Fraction(percent, n));
      if Ascending(sorted) {
        assert sorted[0] <= sorted[lo] <= sorted[hi] <= sorted[n - 1];
      }
    }
  }

  /** Wherever GetPercentile as written returns, the clamped estimator returns the same value. */
  lemma ClampedPercentileAgrees(percent: int, sorted: seq<real>)
    requires Percentile(percent, sorted).Ok?
    ensures ClampedPercentile(percent, sorted) == Percentile(percent, sorted)
  {
    var n := |sorted|;
    PercentileDefinedIff(percent, sorted);
    if percent != 100 {
      PercentileBlend(percent, sorted);
      ClampedBlend(percent, sorted);
      var lo, hi := LowerIndex(percent, n), UpperIndex(percent, n);
      assert sorted[Clamp(lo, n)] == sorted[lo] && sorted[Clamp(hi, n)] == sorted[hi];
    }
  }

  // ---------------------------------------------------------------------------
  // The five percentiles both reports print, in the order they are evaluated.

  datatype Percentiles = Percentiles(max: real, p50: real, p75: real, p90: real, p99: real)

  /** The percent whose GetPercentile call threw, and the index it read. */
  datatype PercentileFailure = PercentileFailure(percent: int, index: int)

  function PercentileAt(percent: int, sorted: seq<real>): Result<real, PercentileFailure> {
    match Percentile(percent, sorted)
    case Ok(v) => Ok(v)
    case Err(e) => Err(PercentileFailure(percent, e.index))
  }

  /** GetPercentile for 100, 50, 75, 90 and 99, in that order; the first throw ends the report. */
  function ReportPercentiles(sorted: seq<real>): (r: Result<Percentiles, PercentileFailure>)
    ensures r.Err? ==> r.error.percent in {100, 50, 75, 90, 99}
    ensures r.Err? ==> !(0 <= r.error.index < |sorted|)
    ensures r.Ok? ==> |sorted| > 0 && r.value.max == sorted[|sorted| - 1]
  {
    var max :- PercentileAt(100, sorted);
    var p50 :- PercentileAt(50, sorted);
    var p75 :- PercentileAt(75, sorted);
    var p90 :- PercentileAt(90, sorted);
    var p99 :- PercentileAt(99, sorted);
    Ok(Percentiles(max, p50, p75, p90, p99))
  }

  /** The percent that throws first on a list of `count` samples, when one does. */
  function FirstFailingPercent(count: nat): int {
    if count == 0 then 100
    else if count == 1 then 75
    else if count < 5 then 90
    else 99
  }

  /** The five-percentile block completes exactly when there are at least 50 samples;
      with fewer, the first call to throw is the one for FirstFailingPercent. */
  lemma ReportPercentilesDefinedIff(sorted: seq<real>)
    ensures ReportPercentiles(sorted).Ok? <==> |sorted| >= 50
    ensures ReportPercentiles(sorted).Err? ==>
      ReportPercentiles(sorted).error.percent == FirstFailingPercent(|sorted|)
  {
    var n := |sorted|;
    PercentileDefinedIff(100, sorted);
    PercentileDefinedIff(50, sorted);
    PercentileDefinedIff(75, sorted);
    PercentileDefinedIff(90, sorted);
    PercentileDefinedIff(99, sorted);
  }

  /** On an ascending list the reported percentiles are ordered p50 <= p75 <= p90 <= p99 <= max,
      lie between the first and the last element, and the maximum is the last element. */
  lemma ReportPercentilesBetween(sorted: seq<real>)
    requires Ascending(sorted)
    requires ReportPercentiles(sorted).Ok?
    ensures var ps := ReportPercentiles(sorted).value;
      && ps.max == sorted[|sorted| - 1]
      && sorted[0] <= ps.p50 <= ps.p75 <= ps.p90 <= ps.p99 <= ps.max
  {
    PercentileBetween(50, sorted);
    PercentileMonotone(50, 75, sorted);
    PercentileMonotone(75, 90, sorted);
    PercentileMonotone(90, 99, sorted);
    PercentileMonotone(99, 100, sorted);
  }
}
