/**
 * The scalar streamflow metrics of one period. Each takes the period's
 * discharge series, drops its missing entries first, and yields one number,
 * or None where pandas would yield NaN.
 */
module Metrics {
  import opened Options
  import opened Series
  import opened Order

  /** All values are equal. */
  predicate Constant(s: seq<real>)
  {
    forall i, j :: 0 <= i < |s| && 0 <= j < |s| ==> s[i] == s[j]
  }

  /** k / n is a fraction in [0, 1) when k < n. */
  lemma FractionBounds(k: nat, n: nat)
    requires k < n
    ensures 0.0 <= k as real / n as real < 1.0
    ensures k as real / n as real == 0.0 <==> k == 0
  {
    var f := k as real / n as real;
    assert f * n as real == k as real;
    assert (1.0 - f) * n as real > 0.0;
  }

  /** A non-empty sum of values at most t, one of them below t, is below |s| * t. */
  lemma {:induction false} SumBelowStrict(s: seq<real>, t: real, j: nat)
    requires j < |s| && s[j] < t
    requires forall i :: 0 <= i < |s| ==> s[i] <= t
    ensures Sum(s) < |s| as real * t
  {
    var n := |s| as real;
    assert n * t == t + (n - 1.0) * t;
    if j == 0 {
      SumAtMost(s[1..], t);
    } else {
      SumBelowStrict(s[1..], t, j - 1);
    }
  }

  lemma DivideBelow(total: real, n: real, t: real)
    requires n > 0.0
    requires total < n * t
    ensures total / n < t
  {
    var m := total / n;
    assert m * n == total;
    assert (t - m) * n > 0.0;
  }

  /** The mean of values at most t, one of them below t, is below t. */
  lemma MeanBelow(s: seq<real>, t: real, j: nat)
    requires j < |s| && s[j] < t
    requires forall i :: 0 <= i < |s| ==> s[i] <= t
    ensures Mean(s) < t
  {
    SumBelowStrict(s, t, j);
    DivideBelow(Sum(s), |s| as real, t);
  }

  /** No value lies above the mean exactly when all values are equal. */
  lemma NoneAboveMeanIffConstant(s: seq<real>)
    requires |s| > 0
    ensures CountAbove(s, Mean(s)) == 0 <==> Constant(s)
  {
    var m := Mean(s);
    if Constant(s) {
      MeanOfConstant(s, s[0]);
    } else if CountAbove(s, m) == 0 {
      var i, j :| 0 <= i < |s| && 0 <= j < |s| && s[i] != s[j];
      var k := if s[i] < m then i else j;
      if s[k] < m {
        MeanBelow(s, m, k);
      }
      assert false;
    }
  }

  /**
   * Tqmean: the fraction of valid values strictly above their mean
   * (program_10.py, CalcTqmean). The count divided by zero values gives NaN
   * in numpy, hence None for a period without valid values.
   */
  function CalcTqmean(q: seq<Option<real>>): (r: Option<real>)
    ensures r.None? <==> |Valid(q)| == 0
    ensures r.Some? ==> r.value == CountAbove(Valid(q), Mean(Valid(q))) as real / |Valid(q)| as real
    ensures r.Some? ==> 0.0 <= r.value < 1.0
    ensures r.Some? ==> (r.value == 0.0 <==> Constant(Valid(q)))
  {
    var v := Valid(q);
    if |v| == 0 then None
    else
      var above := CountAbove(v, Mean(v));
      NotAllAboveMean(v);
      FractionBounds(above, |v|);
      NoneAboveMeanIffConstant(v);
      Some(above as real / |v| as real)
  }

  function Abs(x: real): real
  {
    if x < 0.0 then -x else x
  }

  /**
   * Sum of the absolute differences between consecutive values, the
   * "pathlength" of the R-B index.
   */
  function PathLength(v: seq<real>): (p: real)
    ensures p >= 0.0
    ensures p == 0.0 <==> Constant(v)
  {
    if |v| < 2 then 0.0
    else
      var rest := PathLength(v[1..]);
      assert Constant(v) <==> v[0] == v[1] && Constant(v[1..]) by {
        if v[0] == v[1] && Constant(v[1..]) {
          forall i, j | 0 <= i < |v| && 0 <= j < |v| ensures v[i] == v[j] {
            assert i > 0 ==> v[i] == v[1..][i - 1];
            assert j > 0 ==> v[j] == v[1..][j - 1];
          }
        }
        if Constant(v) {
          forall i, j | 0 <= i < |v| - 1 && 0 <= j < |v| - 1 ensures v[1..][i] == v[1..][j] {
            assert v[1..][i] == v[i + 1] && v[1..][j] == v[j + 1];
          }
        }
      }
      Abs(v[0] - v[1]) + rest
  }

  /** The values after the first (`Qvalues[1:]`), empty for an empty series. */
  function TailSlice(v: seq<real>): seq<real>
  {
    if |v| == 0 then [] else v[1..]
  }

  lemma QuotientZero(a: real, d: real)
    requires d != 0.0
    ensures a / d == 0.0 <==> a == 0.0
  {
    if a / d == 0.0 {
      assert a == (a / d) * d;
    }
  }

  lemma QuotientSign(a: real, d: real)
    requires a >= 0.0 && d != 0.0
    ensures d > 0.0 ==> a / d >= 0.0
  {
    assert a == (a / d) * d;
  }

  /** Sum of non-negative values is non-negative and zero only if every value is. */
  lemma {:induction false} SumNonNegative(s: seq<real>)
    requires forall i :: 0 <= i < |s| ==> s[i] >= 0.0
    ensures Sum(s) >= 0.0
    ensures Sum(s) == 0.0 <==> forall i :: 0 <= i < |s| ==> s[i] == 0.0
  {
    if |s| > 0 {
      SumNonNegative(s[1..]);
      assert forall i :: 1 <= i < |s| ==> s[i] == s[1..][i - 1];
    }
  }

  /** With non-negative discharge, the index's denominator is never negative. */
  lemma NonNegativeDenominator(q: seq<Option<real>>)
    ensures NonNegative(q) ==> Sum(TailSlice(Valid(q))) >= 0.0
  {
    if NonNegative(q) {
      var v := Valid(q);
      ValidNonNegative(q);
      if |v| > 0 {
        assert forall k :: 0 <= k < |v| - 1 ==> v[1..][k] == v[k + 1];
        SumNonNegative(v[1..]);
      }
    }
  }

  /**
   * Richards-Baker flashiness index (program_10.py, CalcRBindex): the
   * pathlength of the valid values divided by the sum of all valid values
   * but the first. A zero denominator yields None.
   */
  function CalcRBindex(q: seq<Option<real>>): (r: Option<real>)
    ensures r.None? <==> Sum(TailSlice(Valid(q))) == 0.0
    ensures r.Some? ==> r.value == PathLength(Valid(q)) / Sum(TailSlice(Valid(q)))
    ensures |Valid(q)| <= 1 ==> r.None?
    ensures r.Some? ==> (r.value == 0.0 <==> Constant(Valid(q)))
    ensures NonNegative(q) && r.Some? ==> r.value >= 0.0
  {
    var v := Valid(q);
    var total := Sum(TailSlice(v));
    if total == 0.0 then None
    else
      var path := PathLength(v);
      QuotientZero(path, total);
      NonNegativeDenominator(q);
      assert NonNegative(q) ==> total > 0.0;
      QuotientSign(path, total);
      Some(path / total)
  }

  /** For non-negative discharge, the index's denominator is zero exactly when every valid value after the first is. */
  lemma TailSumZero(q: seq<Option<real>>)
    requires NonNegative(q)
    ensures Sum(TailSlice(Valid(q))) == 0.0 <==> forall k :: 1 <= k < |Valid(q)| ==> Valid(q)[k] == 0.0
  {
    var v := Valid(q);
    ValidNonNegative(q);
    if |v| > 0 {
      SumNonNegative(v[1..]);
      assert forall k :: 1 <= k < |v| ==> v[k] == v[1..][k - 1];
    }
  }

  /** For non-negative discharge, the index is missing exactly when every valid value after the first is zero. */
  lemma RBindexMissing(q: seq<Option<real>>)
    requires NonNegative(q)
    ensures CalcRBindex(q).None? <==> forall k :: 1 <= k < |Valid(q)| ==> Valid(q)[k] == 0.0
  {
    TailSumZero(q);
  }

  /** A series holding one positive value on at least two valid days has index 0. */
  lemma RBindexOfConstant(q: seq<Option<real>>, c: real)
    requires |Valid(q)| >= 2 && c > 0.0
    requires forall k :: 0 <= k < |Valid(q)| ==> Valid(q)[k] == c
    ensures CalcRBindex(q) == Some(0.0)
  {
    var v := Valid(q);
    SumAbove(v[1..], 0.0);
    assert Constant(v);
  }

  /** Length of the low-flow averaging window (`rolling(window=7)`). */
  const Window: nat := 7

  /** Mean of the window of valid values that ends at position i + Window - 1. */
  function WindowMean(v: seq<real>, i: nat): real
    requires i + Window <= |v|
  {
    Mean(v[i..i + Window])
  }

  /** Smallest window mean among the windows starting at i or later. */
  function LowestWindowFrom(v: seq<real>, i: nat): (m: real)
    requires i + Window <= |v|
    ensures exists j :: i <= j && j + Window <= |v| && m == WindowMean(v, j)
    ensures forall j :: i <= j && j + Window <= |v| ==> m <= WindowMean(v, j)
    decreases |v| - i
  {
    if i + Window == |v| then WindowMean(v, i)
    else
      var rest := LowestWindowFrom(v, i + 1);
      if WindowMean(v, i) <= rest then WindowMean(v, i) else rest
  }

  /** Every window mean lies between the smallest and largest valid value. */
  lemma WindowMeanBounds(v: seq<real>, j: nat)
    requires j + Window <= |v|
    ensures SeqMin(v) <= WindowMean(v, j) <= SeqMax(v)
  {
    var w := v[j..j + Window];
    assert forall k :: 0 <= k < |w| ==> w[k] == v[j + k];
    MeanBetween(w, SeqMin(v), SeqMax(v));
  }

  /**
   * Seven-day low flow (program_10.py, Calc7Q): the smallest mean over
   * every run of seven consecutive valid values. Windows run over the
   * values left after dropping missing entries, not over calendar days.
   * Fewer than seven valid values yield None.
   */
  function Calc7Q(q: seq<Option<real>>): (r: Option<real>)
    ensures r.None? <==> |Valid(q)| < Window
    ensures r.Some? ==> exists j :: 0 <= j && j + Window <= |Valid(q)| && r.value == WindowMean(Valid(q), j)
    ensures r.Some? ==> forall j :: 0 <= j && j + Window <= |Valid(q)| ==> r.value <= WindowMean(Valid(q), j)
    ensures r.Some? ==> SeqMin(Valid(q)) <= r.value <= SeqMax(Valid(q))
  {
    var v := Valid(q);
    if |v| < Window then None
    else
      var m := LowestWindowFrom(v, 0);
      var j :| 0 <= j && j + Window <= |v| && m == WindowMean(v, j);
      WindowMeanBounds(v, j);
      Some(m)
  }

  /** A missing day does not split a window: the values on both sides of it join up. */
  lemma Calc7QClosesGaps(a: seq<Option<real>>, b: seq<Option<real>>)
    ensures Calc7Q(a + [None] + b) == Calc7Q(a + b)
  {
    GapClosed(a, b);
  }

  /** Any threshold at or above the median has at most half the values above it. */
  lemma AboveMedianAtMostHalf(v: seq<real>, t: real)
    requires |v| > 0 && t >= Median(v)
    ensures CountAbove(v, t) <= |v| / 2
  {
    CountAboveAntitone(v, Median(v), t);
    MedianHalves(v);
  }

  /** The median of non-negative values is non-negative. */
  lemma MedianNonNegative(q: seq<Option<real>>)
    requires |Valid(q)| > 0 && NonNegative(q)
    ensures Median(Valid(q)) >= 0.0
  {
    var v := Valid(q);
    ValidNonNegative(q);
    var k :| 0 <= k < |v| && v[k] == SeqMin(v);
  }

  /** The exceedance threshold: three times the median (`3*Qvalues.median()`). */
  function ThreeTimesMedian(v: seq<real>): real
    requires |v| > 0
  {
    3.0 * Median(v)
  }

  lemma NonNegativeExceed(q: seq<Option<real>>)
    requires |Valid(q)| > 0
    ensures NonNegative(q) ==> CountAbove(Valid(q), ThreeTimesMedian(Valid(q))) <= |Valid(q)| / 2
  {
    if NonNegative(q) {
      MedianNonNegative(q);
      AboveMedianAtMostHalf(Valid(q), ThreeTimesMedian(Valid(q)));
    }
  }

  /**
   * Number of valid values strictly above three times their median
   * (program_10.py, CalcExceed3TimesMedian). On a period without valid
   * values pandas compares against a NaN median, no comparison holds, and
   * the count is 0 rather than NaN.
   */
  function CalcExceed3TimesMedian(q: seq<Option<real>>): (n: nat)
    ensures n <= |Valid(q)|
    ensures |Valid(q)| == 0 ==> n == 0
    ensures |Valid(q)| > 0 ==> n == CountAbove(Valid(q), ThreeTimesMedian(Valid(q)))
    ensures NonNegative(q) ==> n <= |Valid(q)| / 2
  {
    var v := Valid(q);
    if |v| == 0 then 0
    else
      NonNegativeExceed(q);
      CountAbove(v, ThreeTimesMedian(v))
  }

  lemma MultiplyMonotone(f1: real, f2: real, m: real)
    requires f1 <= f2 && m >= 0.0
    ensures f1 * m <= f2 * m
  {
    assert (f2 - f1) * m >= 0.0;
  }

  /**
   * Lowering the multiplier of a non-negative base never lowers the count
   * above it: with m the median of non-negative discharge (MedianNonNegative),
   * the count above 2 x m is at least the count above 3 x m.
   */
  lemma MultiplierAntitone(v: seq<real>, m: real, f1: real, f2: real)
    requires m >= 0.0 && f1 <= f2
    ensures CountAbove(v, f2 * m) <= CountAbove(v, f1 * m)
  {
    MultiplyMonotone(f1, f2, m);
    CountAboveAntitone(v, f1 * m, f2 * m);
  }
}
