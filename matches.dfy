/**
 * The matcher (ned.py:55-119): for one sample, count the positions of the
 * padded trace where an adversary seeing only the padded trace could have
 * observed the same sample, split by whether an interaction happens there.
 * The trace, its inter-arrival times and the sorted interaction list are
 * inputs (the worker processes' shared globals).
 */
module Matches {
  import opened Basics
  import opened Bisect
  import opened Trace

  /** Matches with and without an interaction. */
  datatype Counts = Counts(task: nat, notask: nat)

  /** An index the multi-element scan would read lies past the end of a list. */
  datatype MatchError = IndexOutOfRange

  /** Count one more position if it is accepted, under its label. */
  function Tally(m: Counts, accepted: bool, task: bool): (r: Counts)
    ensures r.task + r.notask == m.task + m.notask + (if accepted then 1 else 0)
    ensures r.task >= m.task && r.notask >= m.notask
  {
    if !accepted then m
    else if task then m.(task := m.task + 1)
    else m.(notask := m.notask + 1)
  }

  function Total(m: Counts): nat { m.task + m.notask }

  // ---------------------------------------------------------------- empty sample

  /** How many empty windows fit into one gap that is not an outage (ned.py:62-66). */
  function Room(gap: int, threshold: int, duration: int): nat {
    if gap <= threshold && gap - duration > 0 then gap - duration else 0
  }

  /** The empty-window room of the first k gaps. */
  function EmptyRoom(ia: seq<int>, threshold: int, duration: int, k: nat): nat
    requires k <= |ia|
    decreases k
  {
    if k == 0 then 0 else EmptyRoom(ia, threshold, duration, k - 1) + Room(ia[k - 1], threshold, duration)
  }

  /** There is no room for an empty window exactly when no gap lies in (duration, threshold]. */
  lemma {:induction false} EmptyRoomZero(ia: seq<int>, threshold: int, duration: int, k: nat)
    requires k <= |ia|
    ensures EmptyRoom(ia, threshold, duration, k) == 0
            <==> forall m :: 0 <= m < k ==> !(duration < ia[m] <= threshold)
    decreases k
  {
    if k > 0 {
      EmptyRoomZero(ia, threshold, duration, k - 1);
    }
  }

  /** The empty-sample count of ned.py:60-66. */
  method MatchEmpty(ia: seq<int>, threshold: int, duration: int) returns (r: Counts)
    ensures r == Counts(0, EmptyRoom(ia, threshold, duration, |ia|))
  {
    var notask: nat := 0;
    for k := 0 to |ia|
      invariant notask == EmptyRoom(ia, threshold, duration, k)
    {
      var gap := ia[k];
      if gap > threshold {
        continue;
      }
      var between := gap - duration;
      if between > 0 {
        notask := notask + between;
      }
    }
    return Counts(0, notask);
  }

  // ---------------------------------------------------------------- one-element sample

  /**
   * Position i matches a one-element sample: neither gap around event i is
   * an outage, the gap after it exceeds the window and the gap before it
   * exceeds the sample's single delta (ned.py:70-74).
   */
  predicate SingleAccepts(ia: seq<int>, threshold: int, duration: int, first: int, i: nat)
    requires 1 <= i < |ia|
  {
    ia[i] <= threshold && ia[i - 1] <= threshold && ia[i] > duration && ia[i - 1] > first
  }

  /** The membership test of ned.py:75-76: the lower bound of `x` lands on `x`. */
  function IsInteraction(interactions: seq<int>, x: int): bool {
    var p := LowerBound(interactions, x);
    p < |interactions| && interactions[p] == x
  }

  /** On a sorted interaction list the membership test is exactly membership. */
  lemma IsInteractionMeaning(interactions: seq<int>, x: int)
    requires Sorted(interactions)
    ensures IsInteraction(interactions, x) <==> x in interactions
  {
    LowerBoundFinds(interactions, x);
  }

  /** The one-element matches among positions 1 .. k-1. */
  function SingleCounts(out: seq<int>, ia: seq<int>, interactions: seq<int>, threshold: int, duration: int,
                        first: int, k: nat): Counts
    requires k <= |ia| && k <= |out|
    decreases k
  {
    if k <= 1 then Counts(0, 0)
    else Tally(SingleCounts(out, ia, interactions, threshold, duration, first, k - 1),
               SingleAccepts(ia, threshold, duration, first, k - 1),
               IsInteraction(interactions, out[k - 1]))
  }

  /**
   * At most one match per position, and some match exactly when some
   * position among 1 .. k-1 accepts the sample.
   */
  lemma {:induction false} SingleCountsMeaning(out: seq<int>, ia: seq<int>, interactions: seq<int>, threshold: int,
                                               duration: int, first: int, k: nat)
    requires k <= |ia| && k <= |out|
    ensures Total(SingleCounts(out, ia, interactions, threshold, duration, first, k)) <= k
    ensures Total(SingleCounts(out, ia, interactions, threshold, duration, first, k)) > 0
            <==> exists i :: 1 <= i < k && SingleAccepts(ia, threshold, duration, first, i)
    decreases k
  {
    if k > 1 {
      var accepted := SingleAccepts(ia, threshold, duration, first, k - 1);
      SingleCountsMeaning(out, ia, interactions, threshold, duration, first, k - 1);
      assert SingleCounts(out, ia, interactions, threshold, duration, first, k)
             == Tally(SingleCounts(out, ia, interactions, threshold, duration, first, k - 1),
                      accepted, IsInteraction(interactions, out[k - 1]));
      if i :| 1 <= i < k && SingleAccepts(ia, threshold, duration, first, i) {
        assert i < k - 1 || accepted;
      }
      if accepted {
        assert 1 <= k - 1 < k && SingleAccepts(ia, threshold, duration, first, k - 1);
      }
    }
  }

  lemma SingleCountsStep(out: seq<int>, ia: seq<int>, interactions: seq<int>, threshold: int, duration: int,
                         first: int, i: nat)
    requires 1 <= i < |ia| && i < |out|
    ensures SingleCounts(out, ia, interactions, threshold, duration, first, i + 1)
            == Tally(SingleCounts(out, ia, interactions, threshold, duration, first, i),
                     SingleAccepts(ia, threshold, duration, first, i), IsInteraction(interactions, out[i]))
  {
  }

  /**
   * The checks of ned.py:70-79 at position i: whether the position matches
   * and, if it does, its label.
   */
  method ExaminePosition(out: seq<int>, ia: seq<int>, interactions: seq<int>, threshold: int, duration: int,
                         first: int, i: nat)
    returns (accepted: bool, task: bool)
    requires 1 <= i < |ia| && |out| == |ia| + 1
    ensures accepted == SingleAccepts(ia, threshold, duration, first, i)
    ensures accepted ==> task == IsInteraction(interactions, out[i])
  {
    if ia[i] > threshold {
      return false, false;
    }
    if ia[i - 1] > threshold {
      return false, false;
    }
    if ia[i] > duration && ia[i - 1] > first {
      var p := LowerBound(interactions, out[i]);
      return true, p < |interactions| && out[i] == interactions[p];
    }
    return false, false;
  }

  /** The one-element count of ned.py:68-79. */
  method MatchSingle(out: seq<int>, ia: seq<int>, interactions: seq<int>, threshold: int, duration: int, first: int)
    returns (r: Counts)
    requires ia == InterArrivals(out)
    ensures r == SingleCounts(out, ia, interactions, threshold, duration, first, |ia|)
  {
    if |ia| <= 1 {
      return Counts(0, 0);
    }
    assert |out| == |ia| + 1;
    var counts := Counts(0, 0);
    for i := 1 to |ia|
      invariant counts == SingleCounts(out, ia, interactions, threshold, duration, first, i)
    {
      var accepted, task := ExaminePosition(out, ia, interactions, threshold, duration, first, i);
      SingleCountsStep(out, ia, interactions, threshold, duration, first, i);
      counts := Tally(counts, accepted, task);
    }
    return counts;
  }

  // ---------------------------------------------------------------- multi-element sample

  /** Every delta of the sample but the first equals the gap at the same offset from c. */
  predicate TailMatches(ia: seq<int>, sample: seq<int>, c: nat)
    requires 1 <= c && c + |sample| - 1 <= |ia|
  {
    forall j {:trigger sample[j]} :: 1 <= j < |sample| ==> ia[c + j - 1] == sample[j]
  }

  /**
   * A window whose first event is out[c] shows the sample: the gap before
   * that event exceeds the first delta, the following gaps are the rest of
   * the sample, and the event after the sample lies beyond the window
   * (ned.py:97-111).
   */
  predicate MultiAccepts(out: seq<int>, ia: seq<int>, sample: seq<int>, duration: int, c: nat)
    requires |sample| >= 1 && 1 <= c <= |ia| - |sample| && c + |sample| < |out|
  {
    ia[c - 1] > sample[0] && TailMatches(ia, sample, c) && out[c + |sample|] - out[c] > duration
  }

  /** The task label of ned.py:114: the lower bounds of the window's two ends differ. */
  function WindowHasTask(interactions: seq<int>, x: int, duration: int): bool {
    LowerBound(interactions, x) != LowerBound(interactions, x + duration)
  }

  /** On a sorted interaction list, a window is labelled a task exactly when an interaction lies in [x, x + duration). */
  lemma WindowHasTaskMeaning(interactions: seq<int>, x: int, duration: int)
    requires Sorted(interactions) && duration >= 0
    ensures WindowHasTask(interactions, x, duration)
            <==> exists k :: 0 <= k < |interactions| && x <= interactions[k] < x + duration
  {
    LowerBoundsDiffer(interactions, x, x + duration);
  }

  /** The multi-element matches among window starts 1 .. k. */
  function MultiCounts(out: seq<int>, ia: seq<int>, interactions: seq<int>, sample: seq<int>, duration: int, k: int): Counts
    requires |sample| >= 1 && k <= |ia| - |sample| && (k < 1 || k + |sample| < |out|)
    decreases k
  {
    if k < 1 then Counts(0, 0)
    else Tally(MultiCounts(out, ia, interactions, sample, duration, k - 1),
               MultiAccepts(out, ia, sample, duration, k),
               WindowHasTask(interactions, out[k], duration))
  }

  /** A count that is not zero names a start among 1 .. k that accepts the sample. */
  lemma {:induction false} MultiCountsWitness(out: seq<int>, ia: seq<int>, interactions: seq<int>, sample: seq<int>,
                                              duration: int, k: int) returns (c: nat)
    requires |sample| >= 1 && k <= |ia| - |sample| && (k < 1 || k + |sample| < |out|)
    requires Total(MultiCounts(out, ia, interactions, sample, duration, k)) > 0
    ensures 1 <= c <= k && MultiAccepts(out, ia, sample, duration, c)
    decreases k
  {
    var accepted := MultiAccepts(out, ia, sample, duration, k);
    if accepted {
      c := k;
    } else {
      c := MultiCountsWitness(out, ia, interactions, sample, duration, k - 1);
    }
  }

  /** A start among 1 .. k that accepts the sample makes the count not zero. */
  lemma {:induction false} MultiCountsFound(out: seq<int>, ia: seq<int>, interactions: seq<int>, sample: seq<int>,
                                            duration: int, k: int, c: nat)
    requires |sample| >= 1 && k <= |ia| - |sample| && (k < 1 || k + |sample| < |out|)
    requires 1 <= c <= k && MultiAccepts(out, ia, sample, duration, c)
    ensures Total(MultiCounts(out, ia, interactions, sample, duration, k)) > 0
    decreases k
  {
    var prev := MultiCounts(out, ia, interactions, sample, duration, k - 1);
    var accepted := MultiAccepts(out, ia, sample, duration, k);
    assert MultiCounts(out, ia, interactions, sample, duration, k)
           == Tally(prev, accepted, WindowHasTask(interactions, out[k], duration));
    if c < k {
      MultiCountsFound(out, ia, interactions, sample, duration, k - 1, c);
      assert Total(prev) > 0;
    } else {
      assert accepted;
    }
  }

  /** At most one match per start among 1 .. k. */
  lemma {:induction false} MultiCountsBound(out: seq<int>, ia: seq<int>, interactions: seq<int>, sample: seq<int>,
                                            duration: int, k: int)
    requires |sample| >= 1 && k <= |ia| - |sample| && (k < 1 || k + |sample| < |out|)
    ensures k >= 1 ==> Total(MultiCounts(out, ia, interactions, sample, duration, k)) <= k
    decreases k
  {
    if k >= 1 {
      MultiCountsBound(out, ia, interactions, sample, duration, k - 1);
    }
  }

  /** At most one match per start, and some match exactly when some start among 1 .. k accepts the sample. */
  lemma MultiCountsMeaning(out: seq<int>, ia: seq<int>, interactions: seq<int>, sample: seq<int>,
                           duration: int, k: int)
    requires |sample| >= 1 && k <= |ia| - |sample| && (k < 1 || k + |sample| < |out|)
    ensures k >= 1 ==> Total(MultiCounts(out, ia, interactions, sample, duration, k)) <= k
    ensures Total(MultiCounts(out, ia, interactions, sample, duration, k)) > 0
            <==> exists c :: 1 <= c <= k && MultiAccepts(out, ia, sample, duration, c)
  {
    MultiCountsBound(out, ia, interactions, sample, duration, k);
    if Total(MultiCounts(out, ia, interactions, sample, duration, k)) > 0 {
      var c := MultiCountsWitness(out, ia, interactions, sample, duration, k);
    }
    if c :| 1 <= c <= k && MultiAccepts(out, ia, sample, duration, c) {
      MultiCountsFound(out, ia, interactions, sample, duration, k, c);
    }
  }

  /** Starts whose gap before them is zero never match a sample with a non-negative first delta. */
  lemma {:induction false} ZeroGapsSkipped(out: seq<int>, ia: seq<int>, interactions: seq<int>, sample: seq<int>,
                                           duration: int, a: int, b: int)
    requires |sample| >= 1 && sample[0] >= 0 && a <= b <= |ia| - |sample| && (b < 1 || b + |sample| < |out|)
    requires forall m :: 0 <= m && a <= m < b ==> ia[m] == 0
    ensures MultiCounts(out, ia, interactions, sample, duration, b) == MultiCounts(out, ia, interactions, sample, duration, a)
    decreases b - a
  {
    if a < b {
      ZeroGapsSkipped(out, ia, interactions, sample, duration, a, b - 1);
      if b >= 1 {
        assert ia[b - 1] == 0;
      }
    }
  }

  /** The tail comparison of ned.py:100-104, or None when it would read past the end. */
  method CompareTail(ia: seq<int>, sample: seq<int>, c: nat) returns (r: Option<bool>)
    requires 1 <= c && |sample| >= 1
    ensures r.None? ==> c + |sample| - 1 > |ia|
    ensures c + |sample| - 1 <= |ia| ==> r == Some(TailMatches(ia, sample, c))
  {
    for j := 1 to |sample|
      invariant forall m :: 1 <= m < j ==> c + m - 1 < |ia| && ia[c + m - 1] == sample[m]
    {
      if c + j - 1 >= |ia| {
        return None;
      }
      if ia[c + j - 1] != sample[j] {
        return Some(false);
      }
    }
    return Some(true);
  }

  /** The zero-gap skip of ned.py:91-93: the end of the run of zero gaps starting at i. */
  method SkipZeros(ia: seq<int>, i: nat) returns (j: nat)
    requires i < |ia| && ia[i] == 0
    ensures i < j <= |ia| && (j < |ia| ==> ia[j] != 0)
    ensures forall m :: i <= m < j ==> ia[m] == 0
  {
    j := i;
    while j < |ia| && ia[j] == 0
      invariant i <= j <= |ia|
      invariant forall m :: i <= m < j ==> ia[m] == 0
    {
      j := j + 1;
    }
  }

  /**
   * The checks of ned.py:97-117 on the window whose first event is out[c]:
   * no match, a match with its label, or a read past the end of a list.
   */
  method ExamineStart(out: seq<int>, ia: seq<int>, interactions: seq<int>, sample: seq<int>, duration: int, c: nat)
    returns (r: Result<Option<bool>, MatchError>)
    requires |out| == |ia| + 1 && |sample| >= 2 && 1 <= c <= |ia|
    ensures c <= |ia| - |sample| ==>
              r == Ok(if MultiAccepts(out, ia, sample, duration, c) then Some(WindowHasTask(interactions, out[c], duration)) else None)
    ensures ia[c - 1] <= sample[0] ==> r == Ok(None)
    ensures r.Err? ==> c > |ia| - |sample|
  {
    var L := |sample|;
    if ia[c - 1] <= sample[0] {
      return Ok(None);
    }
    var tail := CompareTail(ia, sample, c);
    if tail.None? {
      return Err(IndexOutOfRange);
    }
    if !tail.value {
      return Ok(None);
    }
    if c + L >= |out| {
      return Err(IndexOutOfRange);
    }
    if out[c + L] - out[c] <= duration {
      return Ok(None);
    }
    if LowerBound(interactions, out[c]) != LowerBound(interactions, out[c] + duration) {
      return Ok(Some(true));
    } else {
      return Ok(Some(false));
    }
  }

  /**
   * The layered multi-element scan of ned.py:81-117. With a non-negative
   * first delta every start after a run of zero gaps fails the first check,
   * so skipping the run loses nothing and the scan counts exactly the
   * accepted starts; only a negative first delta lets a start past the end
   * through, and then the read past the end is an error.
   */
  method MatchMulti(out: seq<int>, ia: seq<int>, interactions: seq<int>, sample: seq<int>, duration: int)
    returns (r: Result<Counts, MatchError>)
    requires ia == InterArrivals(out) && |sample| >= 2
    ensures sample[0] >= 0 ==> r == Ok(MultiCounts(out, ia, interactions, sample, duration, |ia| - |sample|))
    ensures r.Err? ==> sample[0] < 0
  {
    var n, L := |ia|, |sample|;
    assert n == 0 || |out| == n + 1;
    var task: nat, notask: nat := 0, 0;
    var i: nat := 0;
    while i < n - L
      invariant i <= n
      invariant sample[0] >= 0 ==> Counts(task, notask) == MultiCounts(out, ia, interactions, sample, duration, Min(i, n - L))
      decreases n - i
    {
      ghost var i0 := i;
      ghost var before := Counts(task, notask);
      if ia[i] == 0 {
        i := SkipZeros(ia, i);
        if sample[0] >= 0 {
          ZeroGapsSkipped(out, ia, interactions, sample, duration, i0, Min(i, n - L));
        }
      } else {
        i := i + 1;
      }
      assert i0 < i && (i <= n - L || ia[i - 1] == 0);
      var seen := ExamineStart(out, ia, interactions, sample, duration, i);
      if seen.Err? {
        return Err(seen.error);
      }
      if seen.value.Some? {
        if seen.value.value {
          task := task + 1;
        } else {
          notask := notask + 1;
        }
      }
      assert sample[0] >= 0 && i <= n - L ==>
               Counts(task, notask) == Tally(before, MultiAccepts(out, ia, sample, duration, i), WindowHasTask(interactions, out[i], duration));
    }
    return Ok(Counts(task, notask));
  }

  /** The matcher's dispatch on the sample's length (ned.py:55-119). */
  method ComputeMatches(out: seq<int>, ia: seq<int>, interactions: seq<int>, sample: seq<int>,
                        threshold: int, duration: int)
    returns (r: Result<Counts, MatchError>)
    requires ia == InterArrivals(out)
    ensures |sample| == 0 ==> r == Ok(Counts(0, EmptyRoom(ia, threshold, duration, |ia|)))
    ensures |sample| == 1 ==> r == Ok(SingleCounts(out, ia, interactions, threshold, duration, sample[0], |ia|))
    ensures |sample| >= 2 && sample[0] >= 0 ==>
              r == Ok(MultiCounts(out, ia, interactions, sample, duration, |ia| - |sample|))
    ensures r.Err? ==> |sample| >= 2 && sample[0] < 0
  {
    if |sample| == 0 {
      var m := MatchEmpty(ia, threshold, duration);
      return Ok(m);
    } else if |sample| == 1 {
      var m := MatchSingle(out, ia, interactions, threshold, duration, sample[0]);
      return Ok(m);
    } else {
      r := MatchMulti(out, ia, interactions, sample, duration);
    }
  }

  /**
   * The one-gap sample [0] on the trace of Denominators.SkippedInteractionSweep
   * matches at the events 1 and 12, both interactions.
   */
  lemma SkippedInteractionMatches()
    ensures SingleCounts([0, 1, 11, 12, 20], [1, 10, 1, 8], [0, 1, 12], 10, 2, 0, 4) == Counts(2, 0)
  {
    var out, ia, ints := [0, 1, 11, 12, 20], [1, 10, 1, 8], [0, 1, 12];
    assert Sorted(ints);
    LowerBoundAt(ints, 1, 1);
    LowerBoundAt(ints, 12, 2);
    assert SingleCounts(out, ia, ints, 10, 2, 0, 2) == Counts(1, 0);
    assert SingleCounts(out, ia, ints, 10, 2, 0, 3) == Counts(1, 0);
  }
}
