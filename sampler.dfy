/**
 * The window sampler (ned.py:283-359): window starts are drawn one after
 * another (`random.randint` becomes a supplied start time); a start next to
 * an outage is skipped; otherwise the window's sample and its task label
 * are computed, a label already too far ahead of the other is skipped, a
 * sample already seen is skipped, and everything else is accepted and
 * dispatched to the matcher.
 */
module Sampler {
  import opened Bisect
  import opened Trace

  /** Position q of the trace comes right after a gap longer than the outage threshold (ned.py:305). */
  predicate AfterOutage(out: seq<int>, ia: seq<int>, threshold: int, q: nat)
    requires ia == InterArrivals(out)
  {
    0 < q < |out| && ia[q - 1] > threshold
  }

  /** A start is an outage when either window boundary's lower-bound position comes right after an outage gap. */
  predicate InOutage(out: seq<int>, ia: seq<int>, threshold: int, duration: int, start: int)
    requires ia == InterArrivals(out)
  {
    AfterOutage(out, ia, threshold, LowerBound(out, start)) ||
    AfterOutage(out, ia, threshold, LowerBound(out, start + duration))
  }

  /** The outage test of ned.py:303-308 over the window's boundary positions. */
  method CheckOutage(out: seq<int>, ia: seq<int>, threshold: int, insertPos: seq<nat>) returns (inOutage: bool)
    requires ia == InterArrivals(out)
    ensures inOutage <==> exists u :: 0 <= u < |insertPos| && AfterOutage(out, ia, threshold, insertPos[u])
  {
    inOutage := false;
    for t := 0 to |insertPos|
      invariant !inOutage
      invariant forall u :: 0 <= u < t ==> !AfterOutage(out, ia, threshold, insertPos[u])
    {
      var q := insertPos[t];
      if 0 < q < |out| && ia[q - 1] > threshold {
        return true;
      }
    }
  }

  /**
   * The j-th candidate delta of a window starting at `start` whose first
   * event is out[p]: that event's distance from the start, then the
   * successive inter-arrival times.
   */
  function Delta(out: seq<int>, start: int, p: nat, j: nat): int
    requires p + j < |out|
  {
    if j == 0 then out[p] - start else out[p + j] - out[p + j - 1]
  }

  /** `sample` is the longest run of candidate deltas from p each at most `duration`. */
  predicate IsWindowSample(out: seq<int>, start: int, duration: int, p: nat, sample: seq<int>) {
    p + |sample| <= |out| &&
    (forall j :: 0 <= j < |sample| ==> sample[j] == Delta(out, start, p, j) && sample[j] <= duration) &&
    (p + |sample| < |out| ==> Delta(out, start, p, |sample|) > duration)
  }

  /**
   * The sample assembly of ned.py:313-321: walk the trace from p and keep
   * each delta, compared on its own with the window length, until one is
   * larger. The sample is empty exactly when there is no event from p on or
   * the first one is already too far from the start.
   */
  method AssembleSample(out: seq<int>, start: int, duration: int, p: nat) returns (sample: seq<int>)
    requires p <= |out|
    ensures IsWindowSample(out, start, duration, p, sample)
    ensures sample == [] <==> p == |out| || out[p] - start > duration
  {
    sample := [];
    var i := p;
    while i < |out|
      invariant p <= i <= |out| && |sample| == i - p
      invariant forall j :: 0 <= j < |sample| ==> sample[j] == Delta(out, start, p, j) && sample[j] <= duration
    {
      var difference := if i == p then out[i] - start else out[i] - out[i - 1];
      if difference > duration {
        break;
      }
      sample := sample + [difference];
      i := i + 1;
    }
    assert p < |out| ==> Delta(out, start, p, 0) == out[p] - start;
  }

  /**
   * The task label of ned.py:324-327: the first interaction at or after the
   * start lies at most `duration` after it; on a sorted interaction list,
   * exactly when some interaction falls in [start, start + duration].
   */
  function IsTaskStart(interactions: seq<int>, start: int, duration: int): (task: bool)
    ensures Sorted(interactions) ==>
              (task <==> exists k :: 0 <= k < |interactions| && start <= interactions[k] <= start + duration)
  {
    var p := LowerBound(interactions, start);
    p < |interactions| && interactions[p] - start <= duration
  }

  /** `count > 1.5 · other + 900` (ned.py:329, ned.py:333), exactly, over the integers. */
  predicate OverQuota(task: bool, samplesTask: nat, samplesNotask: nat) {
    if task then 2 * samplesTask > 3 * samplesNotask + 1800
    else 2 * samplesNotask > 3 * samplesTask + 1800
  }

  /** What the quota rule keeps true of the two label counts. */
  predicate Balanced(samplesTask: nat, samplesNotask: nat) {
    2 * samplesTask <= 3 * samplesNotask + 1802 && 2 * samplesNotask <= 3 * samplesTask + 1802
  }

  /** The samples of a list, as a set. */
  function Elements(results: seq<seq<int>>): set<seq<int>> {
    set j | 0 <= j < |results| :: results[j]
  }

  /**
   * The accepted samples are pairwise distinct and are exactly the
   * registry, each is counted under one label, the counts stay balanced,
   * and on a sorted trace none starts with a negative delta.
   */
  ghost predicate Registry(out: seq<int>, checked: set<seq<int>>, results: seq<seq<int>>, samplesTask: nat, samplesNotask: nat) {
    |results| == |checked| == samplesTask + samplesNotask &&
    checked == Elements(results) &&
    (forall a, b :: 0 <= a < b < |results| ==> results[a] != results[b]) &&
    Balanced(samplesTask, samplesNotask) &&
    (Sorted(out) ==> forall a :: 0 <= a < |results| && |results[a]| > 0 ==> results[a][0] >= 0)
  }

  /** Accepting a new sample whose label is within its quota keeps the registry consistent. */
  lemma RegistryAccept(out: seq<int>, checked: set<seq<int>>, results: seq<seq<int>>, samplesTask: nat, samplesNotask: nat,
                       sample: seq<int>, task: bool)
    requires Registry(out, checked, results, samplesTask, samplesNotask)
    requires sample !in checked && !OverQuota(task, samplesTask, samplesNotask)
    requires Sorted(out) && |sample| > 0 ==> sample[0] >= 0
    ensures Registry(out, checked + {sample}, results + [sample],
                     samplesTask + (if task then 1 else 0), samplesNotask + (if task then 0 else 1))
  {
    var results' := results + [sample];
    assert Elements(results') == Elements(results) + {sample} by {
      assert forall j :: 0 <= j < |results| ==> results'[j] == results[j];
      assert results'[|results|] == sample;
    }
    assert sample !in Elements(results);
    assert |checked + {sample}| == |checked| + 1;
  }

  datatype Outcome = OutageSkip | QuotaSkip | DuplicateSkip | Accepted

  /**
   * The sampling loop's state: the read-only trace, its inter-arrival times
   * and the interactions, and the mutable registry of samples already
   * accepted, the dispatched samples in order, and the two label counts.
   */
  class SampleCollector {
    const out: seq<int>
    const ia: seq<int>
    const interactions: seq<int>
    const duration: int
    const threshold: int
    var checked: set<seq<int>>
    var results: seq<seq<int>>
    var samplesTask: nat
    var samplesNotask: nat

    ghost predicate Valid()
      reads this
    {
      ia == InterArrivals(out) && Registry(out, checked, results, samplesTask, samplesNotask)
    }

    constructor (out: seq<int>, ia: seq<int>, interactions: seq<int>, duration: int, threshold: int)
      requires ia == InterArrivals(out)
      ensures Valid()
      ensures this.out == out && this.ia == ia && this.interactions == interactions
      ensures this.duration == duration && this.threshold == threshold
      ensures checked == {} && results == [] && samplesTask == 0 && samplesNotask == 0
    {
      this.out, this.ia, this.interactions := out, ia, interactions;
      this.duration, this.threshold := duration, threshold;
      checked, results := {}, [];
      samplesTask, samplesNotask := 0, 0;
    }

    /**
     * The four accept/reject stages of ned.py:299-339 for a given start:
     * the outage check at both window boundaries, the sample, its label, the
     * quota and the duplicate check. Nothing changes yet.
     */
    method Classify(start: int) returns (outcome: Outcome, sample: seq<int>, task: bool)
      requires Valid()
      ensures outcome == OutageSkip <==> InOutage(out, ia, threshold, duration, start)
      ensures outcome != OutageSkip ==>
                IsWindowSample(out, start, duration, LowerBound(out, start), sample) &&
                task == IsTaskStart(interactions, start, duration)
      ensures outcome == QuotaSkip <==> outcome != OutageSkip && OverQuota(task, samplesTask, samplesNotask)
      ensures outcome == DuplicateSkip <==>
                outcome != OutageSkip && !OverQuota(task, samplesTask, samplesNotask) && sample in checked
      ensures Sorted(out) && outcome != OutageSkip && |sample| > 0 ==> sample[0] >= 0
    {
      sample, task := [], false;
      var insertPos := [LowerBound(out, start), LowerBound(out, start + duration)];
      var inOutage := CheckOutage(out, ia, threshold, insertPos);
      assert inOutage <==> AfterOutage(out, ia, threshold, insertPos[0]) || AfterOutage(out, ia, threshold, insertPos[1]);
      if inOutage {
        return OutageSkip, sample, task;
      }
      sample := AssembleSample(out, start, duration, insertPos[0]);
      assert |sample| > 0 ==> sample[0] == Delta(out, start, insertPos[0], 0);
      var p := LowerBound(interactions, start);
      task := p < |interactions| && interactions[p] - start <= duration;
      if OverQuota(task, samplesTask, samplesNotask) {
        return QuotaSkip, sample, task;
      }
      if sample in checked {
        return DuplicateSkip, sample, task;
      }
      return Accepted, sample, task;
    }

    /** Register a new sample and count it under its label (ned.py:340-346). */
    method Accept(sample: seq<int>, task: bool)
      requires Valid() && sample !in checked && !OverQuota(task, samplesTask, samplesNotask)
      requires Sorted(out) && |sample| > 0 ==> sample[0] >= 0
      modifies this
      ensures Valid()
      ensures results == old(results) + [sample] && checked == old(checked) + {sample}
      ensures samplesTask == old(samplesTask) + (if task then 1 else 0)
      ensures samplesNotask == old(samplesNotask) + (if task then 0 else 1)
    {
      RegistryAccept(out, checked, results, samplesTask, samplesNotask, sample, task);
      checked := checked + {sample};
      results := results + [sample];
      if task {
        samplesTask := samplesTask + 1;
      } else {
        samplesNotask := samplesNotask + 1;
      }
    }

    /** One pass of the sampling loop's body (ned.py:294-358) for a given start. */
    method Step(start: int) returns (outcome: Outcome, sample: seq<int>, task: bool)
      requires Valid()
      modifies this
      ensures Valid()
      ensures outcome == OutageSkip <==> InOutage(out, ia, threshold, duration, start)
      ensures outcome != OutageSkip ==>
                IsWindowSample(out, start, duration, LowerBound(out, start), sample) &&
                task == IsTaskStart(interactions, start, duration)
      ensures outcome == QuotaSkip <==>
                outcome != OutageSkip && OverQuota(task, old(samplesTask), old(samplesNotask))
      ensures outcome == DuplicateSkip <==>
                outcome != OutageSkip && !OverQuota(task, old(samplesTask), old(samplesNotask)) && sample in old(checked)
      ensures outcome == Accepted ==>
                results == old(results) + [sample] && checked == old(checked) + {sample} &&
                samplesTask == old(samplesTask) + (if task then 1 else 0) &&
                samplesNotask == old(samplesNotask) + (if task then 0 else 1)
      ensures outcome != Accepted ==>
                results == old(results) && checked == old(checked) &&
                samplesTask == old(samplesTask) && samplesNotask == old(samplesNotask)
    {
      outcome, sample, task := Classify(start);
      if outcome == Accepted {
        Accept(sample, task);
      }
    }

    /**
     * The sampling loop (ned.py:292): draw until `sampleCount` samples are
     * accepted or the supplied starts run out, which stands for the
     * wall-clock timeout. Returns how many starts were drawn.
     */
    method Collect(starts: seq<int>, sampleCount: nat) returns (drawn: nat)
      requires Valid()
      modifies this
      ensures Valid()
      ensures drawn <= |starts| && old(results) <= results
      ensures |results| >= sampleCount || drawn == |starts|
      ensures |old(results)| <= sampleCount ==> |results| <= sampleCount
      ensures |results| - |old(results)| <= drawn
    {
      drawn := 0;
      while |results| < sampleCount && drawn < |starts|
        invariant Valid() && drawn <= |starts| && old(results) <= results
        invariant |old(results)| <= sampleCount ==> |results| <= sampleCount
        invariant |results| - |old(results)| <= drawn
      {
        var _, _, _ := Step(starts[drawn]);
        drawn := drawn + 1;
      }
    }
  }
}
