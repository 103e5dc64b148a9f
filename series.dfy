/**
 * Primitives on one period's discharge series: dropping missing entries,
 * sums, means, extremes and threshold counts. These stand for the pandas
 * operations the metric functions are built from (dropna, sum, mean, min,
 * max and the sum of a boolean comparison).
 */
module Series {
  import opened Options

  /** Number of missing (NaN) entries, as `isna().sum()` counts them. */
  function MissingCount(q: seq<Option<real>>): (n: nat)
    ensures n <= |q|
    ensures n == 0 <==> forall i :: 0 <= i < |q| ==> q[i].Some?
  {
    if |q| == 0 then 0
    else (if q[0].None? then 1 else 0) + MissingCount(q[1..])
  }

  /** The series with its missing entries removed, order kept (`dropna`). */
  function Valid(q: seq<Option<real>>): (v: seq<real>)
    ensures |v| + MissingCount(q) == |q|
    ensures forall i :: 0 <= i < |q| && q[i].Some? ==> q[i].value in v
    ensures forall k :: 0 <= k < |v| ==> Some(v[k]) in q
  {
    if |q| == 0 then []
    else
      var rest := Valid(q[1..]);
      assert forall k :: 0 <= k < |rest| ==> Some(rest[k]) in q by {
        forall k | 0 <= k < |rest| ensures Some(rest[k]) in q {
          var j :| 0 <= j < |q[1..]| && q[1..][j] == Some(rest[k]);
          assert q[j + 1] == Some(rest[k]);
        }
      }
      (if q[0].Some? then [q[0].value] else []) + rest
  }

  lemma {:induction false} ValidAppend(a: seq<Option<real>>, b: seq<Option<real>>)
    ensures Valid(a + b) == Valid(a) + Valid(b)
  {
    if |a| == 0 {
      assert a + b == b;
    } else {
      assert (a + b)[1..] == a[1..] + b;
      ValidAppend(a[1..], b);
    }
  }

  /** A missing entry contributes nothing: dropping it closes the gap. */
  lemma GapClosed(a: seq<Option<real>>, b: seq<Option<real>>)
    ensures Valid(a + [None] + b) == Valid(a + b)
  {
    var gap: seq<Option<real>> := [None];
    assert Valid(gap) == [] by {
      assert gap[1..] == [];
    }
    calc {
      Valid(a + gap + b);
      { ValidAppend(a + gap, b); }
      Valid(a + gap) + Valid(b);
      { ValidAppend(a, gap); }
      Valid(a) + Valid(b);
      { ValidAppend(a, b); }
      Valid(a + b);
    }
  }

  /** Every present value is at least zero. */
  predicate NonNegative(q: seq<Option<real>>)
  {
    forall i :: 0 <= i < |q| && q[i].Some? ==> q[i].value >= 0.0
  }

  lemma ValidNonNegative(q: seq<Option<real>>)
    requires NonNegative(q)
    ensures forall k :: 0 <= k < |Valid(q)| ==> Valid(q)[k] >= 0.0
  {
    var v := Valid(q);
    forall k | 0 <= k < |v| ensures v[k] >= 0.0 {
      var i :| 0 <= i < |q| && q[i] == Some(v[k]);
    }
  }

  function Sum(s: seq<real>): real
  {
    if |s| == 0 then 0.0 else s[0] + Sum(s[1..])
  }

  /** Smallest element of a non-empty sequence. */
  function SeqMin(s: seq<real>): (m: real)
    requires |s| > 0
    ensures m in s
    ensures forall i :: 0 <= i < |s| ==> m <= s[i]
  {
    if |s| == 1 then s[0]
    else
      var rest := SeqMin(s[1..]);
      assert forall i :: 1 <= i < |s| ==> s[i] == s[1..][i - 1];
      if s[0] <= rest then s[0] else rest
  }

  /** Largest element of a non-empty sequence. */
  function SeqMax(s: seq<real>): (m: real)
    requires |s| > 0
    ensures m in s
    ensures forall i :: 0 <= i < |s| ==> s[i] <= m
  {
    if |s| == 1 then s[0]
    else
      var rest := SeqMax(s[1..]);
      assert forall i :: 1 <= i < |s| ==> s[i] == s[1..][i - 1];
      if s[0] >= rest then s[0] else rest
  }

  /** A sum of values lying in [lo, hi] lies between |s| * lo and |s| * hi. */
  lemma {:induction false} SumBounds(s: seq<real>, lo: real, hi: real)
    requires forall i :: 0 <= i < |s| ==> lo <= s[i] <= hi
    ensures |s| as real * lo <= Sum(s) <= |s| as real * hi
  {
    if |s| > 0 {
      var n := |s| as real;
      SumBounds(s[1..], lo, hi);
      assert n * lo == lo + (n - 1.0) * lo;
      assert n * hi == hi + (n - 1.0) * hi;
    }
  }

  /** A sum of values all at most hi is at most |s| * hi. */
  lemma {:induction false} SumAtMost(s: seq<real>, hi: real)
    requires forall i :: 0 <= i < |s| ==> s[i] <= hi
    ensures Sum(s) <= |s| as real * hi
  {
    if |s| > 0 {
      var n := |s| as real;
      SumAtMost(s[1..], hi);
      assert n * hi == hi + (n - 1.0) * hi;
    }
  }

  /** A non-empty sum of values all above t exceeds |s| * t. */
  lemma {:induction false} SumAbove(s: seq<real>, t: real)
    requires |s| > 0
    requires forall i :: 0 <= i < |s| ==> s[i] > t
    ensures Sum(s) > |s| as real * t
  {
    var n := |s| as real;
    if |s| == 1 {
      assert Sum(s[1..]) == 0.0;
    } else {
      SumAbove(s[1..], t);
      assert n * t == t + (n - 1.0) * t;
    }
  }

  /** Dividing a bounded total by a positive count keeps the bounds. */
  lemma DivideBounds(total: real, n: real, lo: real, hi: real)
    requires n > 0.0
    requires n * lo <= total <= n * hi
    ensures lo <= total / n <= hi
  {
    var m := total / n;
    assert m * n == total;
    assert (m - lo) * n >= 0.0;
    assert (hi - m) * n >= 0.0;
  }

  /** Dividing a total above n * t by n stays above t. */
  lemma DivideAbove(total: real, n: real, t: real)
    requires n > 0.0
    requires total > n * t
    ensures total / n > t
  {
    var m := total / n;
    assert m * n == total;
    assert (m - t) * n > 0.0;
  }

  /** Arithmetic mean, as `Series.mean` computes it on a series without NaN. */
  function Mean(s: seq<real>): real
    requires |s| > 0
  {
    Sum(s) / |s| as real
  }

  /** The mean of values lying in [lo, hi] lies in [lo, hi]. */
  lemma MeanBetween(s: seq<real>, lo: real, hi: real)
    requires |s| > 0
    requires forall i :: 0 <= i < |s| ==> lo <= s[i] <= hi
    ensures lo <= Mean(s) <= hi
  {
    SumBounds(s, lo, hi);
    DivideBounds(Sum(s), |s| as real, lo, hi);
  }

  /** The mean of values all strictly above t is strictly above t. */
  lemma MeanAbove(s: seq<real>, t: real)
    requires |s| > 0
    requires forall i :: 0 <= i < |s| ==> s[i] > t
    ensures Mean(s) > t
  {
    SumAbove(s, t);
    DivideAbove(Sum(s), |s| as real, t);
  }

  /** The mean lies between the smallest and the largest value. */
  lemma MeanBounds(s: seq<real>)
    requires |s| > 0
    ensures SeqMin(s) <= Mean(s) <= SeqMax(s)
  {
    MeanBetween(s, SeqMin(s), SeqMax(s));
  }

  /** The mean of a series whose values all equal c is c. */
  lemma MeanOfConstant(s: seq<real>, c: real)
    requires |s| > 0
    requires forall i :: 0 <= i < |s| ==> s[i] == c
    ensures Mean(s) == c
  {
    MeanBetween(s, c, c);
  }

  /** Mean skipping missing entries (`mean()` with skipna); None when nothing is left. */
  function MeanOfValid(q: seq<Option<real>>): (r: Option<real>)
    ensures r.None? <==> MissingCount(q) == |q|
    ensures r.Some? ==> r.value == Mean(Valid(q))
    ensures r.Some? ==> SeqMin(Valid(q)) <= r.value <= SeqMax(Valid(q))
  {
    var v := Valid(q);
    if |v| == 0 then None
    else
      MeanBounds(v);
      Some(Mean(v))
  }

  /** Number of elements strictly greater than t. */
  function CountAbove(s: seq<real>, t: real): (n: nat)
    ensures n <= |s|
    ensures n == 0 <==> forall i :: 0 <= i < |s| ==> s[i] <= t
    ensures n == |s| <==> forall i :: 0 <= i < |s| ==> s[i] > t
  {
    if |s| == 0 then 0
    else
      assert forall i :: 1 <= i < |s| ==> s[i] == s[1..][i - 1];
      (if s[0] > t then 1 else 0) + CountAbove(s[1..], t)
  }

  /** Number of elements strictly smaller than t. */
  function CountBelow(s: seq<real>, t: real): (n: nat)
    ensures n <= |s|
    ensures n == 0 <==> forall i :: 0 <= i < |s| ==> s[i] >= t
  {
    if |s| == 0 then 0
    else
      assert forall i :: 1 <= i < |s| ==> s[i] == s[1..][i - 1];
      (if s[0] < t then 1 else 0) + CountBelow(s[1..], t)
  }

  /** Raising the threshold never increases the count above it. */
  lemma {:induction false} CountAboveAntitone(s: seq<real>, t1: real, t2: real)
    requires t1 <= t2
    ensures CountAbove(s, t2) <= CountAbove(s, t1)
  {
    if |s| > 0 {
      CountAboveAntitone(s[1..], t1, t2);
    }
  }

  /** Not every element of a non-empty series lies strictly above its mean. */
  lemma NotAllAboveMean(s: seq<real>)
    requires |s| > 0
    ensures CountAbove(s, Mean(s)) < |s|
  {
    var m := Mean(s);
    if CountAbove(s, m) == |s| {
      MeanAbove(s, m);
      assert false;
    }
  }
}
