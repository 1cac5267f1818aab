/**
 * Python's `bisect.bisect_left`, the lower-bound search that the trace
 * generator, the sampler, the matcher and the denominator sweep all use.
 * It is modelled once, as the binary search Python runs, so that it is
 * defined on every list; what it means is proved for sorted lists.
 */
module Bisect {

  /** Non-decreasing order, the order `bisect` presumes. */
  predicate Sorted(a: seq<int>) {
    forall j, k :: 0 <= j < k < |a| ==> a[j] <= a[k]
  }

  /**
   * `bisect_left(a, x, lo, hi)`: halve [lo, hi) until it is empty,
   * keeping everything left of `lo` below `x` and everything from `hi` on
   * at least `x`.
   */
  function BisectLeftIn(a: seq<int>, x: int, lo: nat, hi: nat): (p: nat)
    requires lo <= hi <= |a|
    ensures lo <= p <= hi
    ensures Sorted(a) ==> forall k :: lo <= k < p ==> a[k] < x
    ensures Sorted(a) ==> forall k :: p <= k < hi ==> x <= a[k]
    decreases hi - lo
  {
    if lo < hi then
      var mid := (lo + hi) / 2;
      if a[mid] < x then BisectLeftIn(a, x, mid + 1, hi) else BisectLeftIn(a, x, lo, mid)
    else
      lo
  }

  /** `bisect_left(a, x)`: on a sorted list, the number of elements below `x`. */
  function LowerBound(a: seq<int>, x: int): (p: nat)
    ensures p <= |a|
    ensures Sorted(a) ==> forall k :: 0 <= k < p ==> a[k] < x
    ensures Sorted(a) ==> forall k :: p <= k < |a| ==> x <= a[k]
  {
    BisectLeftIn(a, x, 0, |a|)
  }

  /** On a sorted list the lower bound is the one position with everything before it below `x` and the element at it not. */
  lemma LowerBoundAt(a: seq<int>, x: int, p: nat)
    requires Sorted(a) && p <= |a|
    requires p > 0 ==> a[p - 1] < x
    requires p < |a| ==> x <= a[p]
    ensures LowerBound(a, x) == p
  {
  }

  /** On a sorted list the lower bound lands on `x` exactly when `x` occurs. */
  lemma LowerBoundFinds(a: seq<int>, x: int)
    requires Sorted(a)
    ensures (LowerBound(a, x) < |a| && a[LowerBound(a, x)] == x) <==> x in a
  {
    if x in a {
      var k :| 0 <= k < |a| && a[k] == x;
      assert LowerBound(a, x) <= k;
    }
  }

  /**
   * Two lower bounds differ exactly when some element lies in the
   * half-open interval between them.
   */
  lemma LowerBoundsDiffer(a: seq<int>, lo: int, hi: int)
    requires Sorted(a) && lo <= hi
    ensures LowerBound(a, lo) != LowerBound(a, hi)
            <==> exists k :: 0 <= k < |a| && lo <= a[k] < hi
  {
    var p, q := LowerBound(a, lo), LowerBound(a, hi);
    assert q < |a| ==> lo <= a[q];
    if p < q {
      assert lo <= a[p] < hi;
    }
    if k :| 0 <= k < |a| && lo <= a[k] < hi {
      assert p <= k < q;
    }
  }

  /**
   * The first element at or after `s` is within `d` of `s` exactly when
   * some element lies in the closed interval [s, s + d].
   */
  lemma LowerBoundWithin(a: seq<int>, s: int, d: int)
    requires Sorted(a)
    ensures (LowerBound(a, s) < |a| && a[LowerBound(a, s)] - s <= d)
            <==> exists k :: 0 <= k < |a| && s <= a[k] <= s + d
  {
    var p := LowerBound(a, s);
    if k :| 0 <= k < |a| && s <= a[k] <= s + d {
      assert p <= k;
    }
  }

  /** Two sorted lists, the first nowhere above the second, join into a sorted list. */
  lemma SortedConcat(a: seq<int>, b: seq<int>)
    requires Sorted(a) && Sorted(b)
    requires forall j, k :: 0 <= j < |a| && 0 <= k < |b| ==> a[j] <= b[k]
    ensures Sorted(a + b)
  {
    forall j, k | 0 <= j < k < |a + b| ensures (a + b)[j] <= (a + b)[k] {
      if k < |a| {
        assert (a + b)[j] == a[j] && (a + b)[k] == a[k];
      } else if j >= |a| {
        assert (a + b)[j] == b[j - |a|] && (a + b)[k] == b[k - |a|];
      } else {
        assert (a + b)[j] == a[j] && (a + b)[k] == b[k - |a|];
      }
    }
  }

  /** A list whose every neighbour pair is in order is sorted. */
  lemma {:induction false} SortedFromNeighbours(a: seq<int>)
    requires forall i :: 0 <= i < |a| - 1 ==> a[i] <= a[i + 1]
    ensures Sorted(a)
  {
    forall j, k | 0 <= j < k < |a| ensures a[j] <= a[k] {
      NeighboursChain(a, j, k);
    }
  }

  lemma {:induction false} NeighboursChain(a: seq<int>, j: nat, k: nat)
    requires forall i :: 0 <= i < |a| - 1 ==> a[i] <= a[i + 1]
    requires j <= k < |a|
    ensures a[j] <= a[k]
    decreases k - j
  {
    if j < k {
      NeighboursChain(a, j + 1, k);
    }
  }
}
