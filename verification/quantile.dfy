/**
  NumPy's default quantile ("linear", definition 7 of Hyndman and Fan, 1996)
  over exact real values. The values are sorted; for a probability p the
  virtual index h = (n - 1) * p falls between the order statistics
  x[floor h] and x[floor h + 1] (the upper index clipped to n - 1), and the
  quantile interpolates linearly between them.
 */
module Quantiles {

  /** Non-decreasing order. */
  predicate Sorted(s: seq<real>)
  {
    forall i, j :: 0 <= i <= j < |s| ==> s[i] <= s[j]
  }

  /** Smallest element. */
  function Min(s: seq<real>): (m: real)
    requires |s| > 0
    ensures m in s
    ensures forall i :: 0 <= i < |s| ==> m <= s[i]
  {
    if |s| == 1 then s[0]
    else
      var rest := Min(s[1..]);
      assert forall i :: 1 <= i < |s| ==> s[1..][i - 1] == s[i];
      if s[0] <= rest then s[0] else rest
  }

  /** Largest element. */
  function Max(s: seq<real>): (m: real)
    requires |s| > 0
    ensures m in s
    ensures forall i :: 0 <= i < |s| ==> s[i] <= m
  {
    if |s| == 1 then s[0]
    else
      var rest := Max(s[1..]);
      assert forall i :: 1 <= i < |s| ==> s[1..][i - 1] == s[i];
      if rest <= s[0] then s[0] else rest
  }

  /** Inserts `x` into the sorted sequence `s`, keeping it sorted. */
  function Insert(x: real, s: seq<real>): (r: seq<real>)
    requires Sorted(s)
    ensures Sorted(r)
    ensures multiset(r) == multiset(s) + multiset{x}
  {
    if |s| == 0 then [x]
    else if x <= s[0] then [x] + s
    else
      var rest := Insert(x, s[1..]);
      HeadBelowRest(x, s, rest);
      [s[0]] + rest
  }

  /** The head of `s` is no larger than anything in the tail with `x` inserted, when it is below `x`. */
  lemma HeadBelowRest(x: real, s: seq<real>, rest: seq<real>)
    requires |s| > 0 && Sorted(s) && s[0] < x
    requires Sorted(rest) && multiset(rest) == multiset(s[1..]) + multiset{x}
    ensures Sorted([s[0]] + rest)
    ensures multiset([s[0]] + rest) == multiset(s) + multiset{x}
  {
    forall k | 0 <= k < |rest|
      ensures s[0] <= rest[k]
    {
      assert rest[k] in multiset(rest);
      if rest[k] != x {
        assert rest[k] in multiset(s[1..]);
        var m :| 0 <= m < |s[1..]| && s[1..][m] == rest[k];
        assert s[m + 1] == rest[k];
      }
    }
    assert s == [s[0]] + s[1..];
  }

  /** Insertion sort: a sorted permutation of `s`. */
  function Sort(s: seq<real>): (r: seq<real>)
    ensures Sorted(r)
    ensures multiset(r) == multiset(s)
  {
    if |s| == 0 then []
    else
      assert s == [s[0]] + s[1..];
      Insert(s[0], Sort(s[1..]))
  }

  /** Two sorted sequences with the same elements are equal: sorting is determined by the multiset. */
  lemma {:induction false} SortedUnique(a: seq<real>, b: seq<real>)
    requires Sorted(a) && Sorted(b)
    requires multiset(a) == multiset(b)
    ensures a == b
  {
    if |a| > 0 {
      SameHead(a, b);
      var ta, tb := a[1..], b[1..];
      assert multiset(ta) == multiset(tb) by {
        TailMultiset(a);
        TailMultiset(b);
      }
      assert Sorted(ta) && Sorted(tb);
      SortedUnique(ta, tb);
      assert a == [a[0]] + ta;
      assert b == [b[0]] + tb;
    } else {
      assert |b| == |multiset(b)| == 0;
    }
  }

  /** Sorted sequences with the same elements start with the same (least) element. */
  lemma SameHead(a: seq<real>, b: seq<real>)
    requires Sorted(a) && Sorted(b) && |a| > 0
    requires multiset(a) == multiset(b)
    ensures |b| > 0 && a[0] == b[0]
  {
    assert a[0] in multiset(b);
    var j :| 0 <= j < |b| && b[j] == a[0];
    assert b[0] in multiset(a);
    var k :| 0 <= k < |a| && a[k] == b[0];
  }

  /** Dropping the head removes one copy of it from the multiset. */
  lemma TailMultiset(a: seq<real>)
    requires |a| > 0
    ensures multiset(a[1..]) == multiset(a) - multiset{a[0]}
  {
    assert a == [a[0]] + a[1..];
  }

  /** The first element of a sorted permutation is the minimum, the last the maximum. */
  lemma SortedEnds(s: seq<real>, t: seq<real>)
    requires |s| > 0 && Sorted(t) && multiset(t) == multiset(s)
    ensures |t| == |s|
    ensures t[0] == Min(s) && t[|t| - 1] == Max(s)
  {
    assert |t| == |multiset(t)| == |multiset(s)| == |s|;
    assert t[0] in multiset(s);
    assert t[|t| - 1] in multiset(s);
    assert Min(s) in multiset(t);
    assert Max(s) in multiset(t);
  }

  /** Lower order-statistic index floor((n - 1) * p). */
  function LowerIndex(n: nat, p: real): (lo: nat)
    requires n > 0 && 0.0 <= p <= 1.0
    ensures lo < n
    ensures lo as real <= (n - 1) as real * p < lo as real + 1.0
  {
    var m := (n - 1) as real;
    var h := m * p;
    assert 0.0 <= h <= m by {
      NonNegativeProduct(m, p);
      NonNegativeProduct(m, 1.0 - p);
      assert m * (1.0 - p) == m - h;
    }
    var lo := h.Floor;
    assert lo as real <= h < lo as real + 1.0;
    assert 0 <= lo < n;
    lo
  }

  /** Upper order-statistic index: the next one, clipped to the last. */
  function UpperIndex(n: nat, lo: nat): (hi: nat)
    requires lo < n
    ensures lo <= hi < n
    ensures hi == lo + 1 || (hi == lo && lo == n - 1)
  {
    if lo + 1 < n then lo + 1 else n - 1
  }

  /** Linear-interpolation quantile of a sorted, non-empty sequence. */
  function SortedQuantile(s: seq<real>, p: real): (q: real)
    requires |s| > 0 && Sorted(s) && 0.0 <= p <= 1.0
    ensures s[LowerIndex(|s|, p)] <= q <= s[UpperIndex(|s|, LowerIndex(|s|, p))]
  {
    var lo := LowerIndex(|s|, p);
    var hi := UpperIndex(|s|, lo);
    var gamma := (|s| - 1) as real * p - lo as real;
    ScaleBounds(gamma, s[hi] - s[lo]);
    s[lo] + gamma * (s[hi] - s[lo])
  }

  /** `np.quantile(values, p)`: defined for non-empty values only (NumPy raises on an empty array). */
  function Quantile(values: seq<real>, p: real): (q: real)
    requires |values| > 0 && 0.0 <= p <= 1.0
    ensures Min(values) <= q <= Max(values)
  {
    var s := Sort(values);
    SortedEnds(values, s);
    SortedQuantile(s, p)
  }

  /** Sorting already sorted values changes nothing, so their quantile is read off directly. */
  lemma SortedInputQuantile(s: seq<real>, p: real)
    requires |s| > 0 && Sorted(s) && 0.0 <= p <= 1.0
    ensures Quantile(s, p) == SortedQuantile(s, p)
  {
    SortedUnique(Sort(s), s);
  }

  /** The quantile of sorted values whose virtual index is lo + gamma, strictly inside the sequence. */
  lemma InterpolateAt(s: seq<real>, p: real, lo: nat, gamma: real)
    requires |s| > 0 && Sorted(s) && 0.0 <= p <= 1.0
    requires lo + 1 < |s| && 0.0 <= gamma < 1.0
    requires (|s| - 1) as real * p == lo as real + gamma
    ensures SortedQuantile(s, p) == s[lo] + gamma * (s[lo + 1] - s[lo])
  {
    assert LowerIndex(|s|, p) == lo;
  }

  /** For 0 <= t <= 1 and d >= 0, the product t * d lies in [0, d]. */
  lemma ScaleBounds(t: real, d: real)
    requires 0.0 <= t <= 1.0 && 0.0 <= d
    ensures 0.0 <= t * d <= d
  {
  }

  /** The product of two non-negative reals is non-negative. */
  lemma NonNegativeProduct(a: real, b: real)
    requires 0.0 <= a && 0.0 <= b
    ensures 0.0 <= a * b
  {
  }

  /** The quantile depends only on the multiset of values, not on their order. */
  lemma QuantileOrderIndependent(a: seq<real>, b: seq<real>, p: real)
    requires |a| > 0 && 0.0 <= p <= 1.0
    requires multiset(a) == multiset(b)
    ensures |b| > 0
    ensures Quantile(a, p) == Quantile(b, p)
  {
    assert |a| == |multiset(a)| == |multiset(b)| == |b|;
    SortedUnique(Sort(a), Sort(b));
  }

  /** The quantile is non-decreasing in the probability. */
  lemma QuantileMonotone(values: seq<real>, p1: real, p2: real)
    requires |values| > 0 && 0.0 <= p1 <= p2 <= 1.0
    ensures Quantile(values, p1) <= Quantile(values, p2)
  {
    SortedQuantileMonotone(Sort(values), p1, p2);
  }

  lemma SortedQuantileMonotone(s: seq<real>, p1: real, p2: real)
    requires |s| > 0 && Sorted(s) && 0.0 <= p1 <= p2 <= 1.0
    ensures SortedQuantile(s, p1) <= SortedQuantile(s, p2)
  {
    var n := |s|;
    var lo1, lo2 := LowerIndex(n, p1), LowerIndex(n, p2);
    var hi1, hi2 := UpperIndex(n, lo1), UpperIndex(n, lo2);
    var h1, h2 := (n - 1) as real * p1, (n - 1) as real * p2;
    assert h1 <= h2 by {
      assert h2 - h1 == (n - 1) as real * (p2 - p1);
      NonNegativeProduct((n - 1) as real, p2 - p1);
    }
    assert lo1 <= lo2;
    if lo1 == lo2 {
      var d := s[hi1] - s[lo1];
      assert d >= 0.0;
      var g1, g2 := h1 - lo1 as real, h2 - lo1 as real;
      assert g2 * d - g1 * d == (g2 - g1) * d;
      assert (g2 - g1) * d >= 0.0;
    } else {
      assert hi1 == lo1 + 1 <= lo2;
      assert SortedQuantile(s, p1) <= s[hi1] <= s[lo2] <= SortedQuantile(s, p2);
    }
  }
}
