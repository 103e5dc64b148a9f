/**
 * The median as pandas computes it (`Series.median` on a series without
 * NaN): the middle element of the sorted values, or the mean of the two
 * middle elements when their number is even. Sorting is given by an
 * insertion sort that serves as the reference for "the sorted values".
 */
module Order {
  import opened Series

  predicate Sorted(t: seq<real>)
  {
    forall i, j :: 0 <= i <= j < |t| ==> t[i] <= t[j]
  }

  /** Places x in front of the first element not smaller than it. */
  function Insert(x: real, t: seq<real>): (r: seq<real>)
    requires Sorted(t)
    ensures Sorted(r)
    ensures multiset(r) == multiset(t) + multiset{x}
  {
    if |t| == 0 then [x]
    else if x <= t[0] then [x] + t
    else
      var rest := Insert(x, t[1..]);
      assert t == [t[0]] + t[1..];
      assert forall k :: 0 <= k < |rest| ==> t[0] <= rest[k] by {
        forall k | 0 <= k < |rest| ensures t[0] <= rest[k] {
          assert rest[k] in multiset(rest);
          if rest[k] != x {
            assert rest[k] in t[1..];
          }
        }
      }
      var r := [t[0]] + rest;
      assert forall i :: 1 <= i < |r| ==> r[i] == rest[i - 1];
      r
  }

  /** The values of s in ascending order. */
  function Sort(s: seq<real>): (t: seq<real>)
    ensures Sorted(t)
    ensures multiset(t) == multiset(s)
  {
    if |s| == 0 then []
    else
      assert s == [s[0]] + s[1..];
      Insert(s[0], Sort(s[1..]))
  }

  lemma {:induction false} InsertCountAbove(x: real, t: seq<real>, c: real)
    requires Sorted(t)
    ensures CountAbove(Insert(x, t), c) == (if x > c then 1 else 0) + CountAbove(t, c)
  {
    if |t| > 0 && x > t[0] {
      var rest := Insert(x, t[1..]);
      InsertCountAbove(x, t[1..], c);
      assert ([t[0]] + rest)[1..] == rest;
    } else if |t| > 0 {
      assert ([x] + t)[1..] == t;
    }
  }

  lemma {:induction false} InsertCountBelow(x: real, t: seq<real>, c: real)
    requires Sorted(t)
    ensures CountBelow(Insert(x, t), c) == (if x < c then 1 else 0) + CountBelow(t, c)
  {
    if |t| > 0 && x > t[0] {
      var rest := Insert(x, t[1..]);
      InsertCountBelow(x, t[1..], c);
      assert ([t[0]] + rest)[1..] == rest;
    } else if |t| > 0 {
      assert ([x] + t)[1..] == t;
    }
  }

  /** Sorting does not change how many values lie above or below a threshold. */
  lemma {:induction false} SortCounts(s: seq<real>, c: real)
    ensures CountAbove(Sort(s), c) == CountAbove(s, c)
    ensures CountBelow(Sort(s), c) == CountBelow(s, c)
  {
    if |s| > 0 {
      SortCounts(s[1..], c);
      InsertCountAbove(s[0], Sort(s[1..]), c);
      InsertCountBelow(s[0], Sort(s[1..]), c);
    }
  }

  /** In sorted t, nothing at or before a position k with t[k] <= c lies above c. */
  lemma {:induction false} SortedAboveBound(t: seq<real>, k: nat, c: real)
    requires Sorted(t)
    requires k < |t| && t[k] <= c
    ensures CountAbove(t, c) <= |t| - k - 1
  {
    if k > 0 {
      SortedAboveBound(t[1..], k - 1, c);
    }
  }

  /** In sorted t, nothing at or after a position k with t[k] >= c lies below c. */
  lemma {:induction false} SortedBelowBound(t: seq<real>, k: nat, c: real)
    requires Sorted(t)
    requires k < |t| && t[k] >= c
    ensures CountBelow(t, c) <= k
  {
    if k > 0 {
      SortedBelowBound(t[1..], k - 1, c);
    }
  }

  /** Middle element, or mean of the two middle elements, of the sorted values. */
  function Median(s: seq<real>): (m: real)
    requires |s| > 0
    ensures SeqMin(s) <= m <= SeqMax(s)
  {
    var t := Sort(s);
    var n := |t|;
    assert |t| == |multiset(t)| == |s|;
    assert t[n / 2] in multiset(s);
    if n % 2 == 1 then t[n / 2]
    else
      assert t[n / 2 - 1] in multiset(s);
      (t[n / 2 - 1] + t[n / 2]) / 2.0
  }

  /**
   * The median splits the values in half: at most half of them lie strictly
   * above it and at most half strictly below it.
   */
  lemma MedianHalves(s: seq<real>)
    requires |s| > 0
    ensures CountAbove(s, Median(s)) <= |s| / 2
    ensures CountBelow(s, Median(s)) <= |s| / 2
  {
    var t := Sort(s);
    var m := Median(s);
    assert |t| == |multiset(t)| == |s|;
    var n := |s|;
    SortCounts(s, m);
    if n % 2 == 1 {
      SortedAboveBound(t, n / 2, m);
      SortedBelowBound(t, n / 2, m);
    } else {
      SortedAboveBound(t, n / 2 - 1, m);
      SortedBelowBound(t, n / 2, m);
    }
  }
}
