/**
 * One rate's run of the estimation script (ned.py:170-378): pad the
 * genuine trace, derive its inter-arrival times, split the covered time
 * into task and no-task time, draw and match samples, and aggregate the
 * matches into epsilon and delta. The lemmas here connect the stages.
 */
module Pipeline {
  import opened Basics
  import opened Bisect
  import opened Dummies
  import opened Trace
  import opened Sampler
  import opened Matches
  import opened Denominators
  import opened Privacy

  /** Which stage failed. */
  datatype RunError =
    | Generation(gen: GenError)
    | Matching(matching: MatchError)
    | SweepUnfinished
    | Aggregation(privacy: PrivacyError)

  /** The padded trace's length, the number of accepted samples, and the estimate. */
  datatype Report = Report(padded: nat, samples: nat, estimate: Estimate)

  /** The facts every lemma below starts from: a start the sampler accepted, with an event before its window. */
  predicate Drawn(out: seq<int>, threshold: int, duration: int, start: int, sample: seq<int>) {
    Sorted(out) && !InOutage(out, InterArrivals(out), threshold, duration, start) &&
    IsWindowSample(out, start, duration, LowerBound(out, start), sample) &&
    LowerBound(out, start) >= 1 && LowerBound(out, start) + |sample| < |out|
  }

  /** An accepted empty sample is matched by its own window: the gap before the first event has room for it. */
  lemma EmptyWindowMatches(out: seq<int>, threshold: int, duration: int, start: int)
    requires Drawn(out, threshold, duration, start, [])
    ensures EmptyRoom(InterArrivals(out), threshold, duration, |InterArrivals(out)|) > 0
  {
    var ia := InterArrivals(out);
    var p := LowerBound(out, start);
    assert out[p - 1] < start;
    assert !AfterOutage(out, ia, threshold, p);
    assert Delta(out, start, p, 0) > duration;
    assert duration < ia[p - 1] <= threshold;
    EmptyRoomZero(ia, threshold, duration, |ia|);
  }

  /**
   * An accepted one-element sample whose event lies strictly inside the
   * window is matched by its own window; the strictness puts the gap after
   * the event under the outage check.
   */
  lemma SingleWindowMatches(out: seq<int>, interactions: seq<int>, threshold: int, duration: int, start: int, sample: seq<int>)
    requires Drawn(out, threshold, duration, start, sample) && |sample| == 1
    requires out[LowerBound(out, start)] - start < duration
    ensures Total(SingleCounts(out, InterArrivals(out), interactions, threshold, duration, sample[0], |InterArrivals(out)|)) > 0
  {
    var ia := InterArrivals(out);
    var p := LowerBound(out, start);
    assert out[p - 1] < start;
    assert !AfterOutage(out, ia, threshold, p);
    assert sample[0] == Delta(out, start, p, 0) && Delta(out, start, p, 1) > duration;
    LowerBoundAt(out, start + duration, p + 1);
    assert !AfterOutage(out, ia, threshold, p + 1);
    assert SingleAccepts(ia, threshold, duration, sample[0], p);
    SingleCountsMeaning(out, ia, interactions, threshold, duration, sample[0], |ia|);
  }

  /** Every delta of a window's sample after the first is the inter-arrival time at the same offset. */
  lemma WindowTail(out: seq<int>, start: int, duration: int, p: nat, sample: seq<int>)
    requires IsWindowSample(out, start, duration, p, sample)
    requires 1 <= p && |sample| >= 1 && p + |sample| <= |out|
    ensures TailMatches(InterArrivals(out), sample, p)
  {
    var ia := InterArrivals(out);
    forall j | 1 <= j < |sample|
      ensures ia[p + j - 1] == sample[j]
    {
      assert sample[j] == Delta(out, start, p, j);
    }
  }

  /** The window of a sample of two or more deltas, drawn from a sorted trace, shows that sample. */
  lemma OwnStartAccepts(out: seq<int>, duration: int, start: int, sample: seq<int>)
    requires Sorted(out) && |sample| >= 2
    requires IsWindowSample(out, start, duration, LowerBound(out, start), sample)
    requires LowerBound(out, start) >= 1 && LowerBound(out, start) + |sample| < |out|
    ensures MultiAccepts(out, InterArrivals(out), sample, duration, LowerBound(out, start))
  {
    var ia := InterArrivals(out);
    var p := LowerBound(out, start);
    var L := |sample|;
    WindowTail(out, start, duration, p, sample);
    assert out[p - 1] < start;
    assert sample[0] == Delta(out, start, p, 0);
    assert ia[p - 1] == out[p] - out[p - 1];
    assert Delta(out, start, p, L) > duration;
    assert out[p] <= out[p + L - 1];
  }

  /** An accepted sample of two or more deltas is matched by its own window. */
  lemma MultiWindowMatches(out: seq<int>, interactions: seq<int>, threshold: int, duration: int, start: int, sample: seq<int>)
    requires Drawn(out, threshold, duration, start, sample) && |sample| >= 2
    ensures Total(MultiCounts(out, InterArrivals(out), interactions, sample, duration, |InterArrivals(out)| - |sample|)) > 0
  {
    var ia, p := InterArrivals(out), LowerBound(out, start);
    assert |ia| == |out| - 1;
    OwnStartAccepts(out, duration, start, sample);
    MultiCountsMeaning(out, ia, interactions, sample, duration, |ia| - |sample|);
    assert 1 <= p <= |ia| - |sample| && MultiAccepts(out, ia, sample, duration, p);
  }

  /**
   * Interactions that are genuine messages are events of the padded trace
   * or lie past its end, so the denominator sweep never runs behind them.
   */
  lemma GenuineInteractionsCovered(genuine: seq<int>, rate: real, threshold: int, draws: seq<seq<nat>>,
                                   interactions: seq<int>)
    requires Sorted(genuine) && Assembled(genuine, rate, threshold, draws).Ok?
    requires forall k :: 0 <= k < |interactions| ==> interactions[k] in genuine
    ensures Covered(Assembled(genuine, rate, threshold, draws).value, interactions)
  {
    var out := Assembled(genuine, rate, threshold, draws).value;
    var n := |genuine|;
    AssembledContains(genuine, rate, threshold, draws);
    AssembledSorted(genuine, rate, threshold, draws);
    forall k | 0 <= k < |interactions|
      ensures interactions[k] in out || interactions[k] > out[|out| - 1]
    {
      var j :| 0 <= j < n && genuine[j] == interactions[k];
      if j == n - 1 && genuine[j] <= out[|out| - 1] {
        assert genuine[j] == out[|out| - 1];
      }
    }
  }

  /**
   * The run for one rate. The interactions and the supplied draws, window
   * starts and step bound stand for the database, the random sources, the
   * timeout and the sweep's unbounded loop.
   */
  method EstimateRate(genuine: seq<int>, interactions: seq<int>, rate: real, threshold: int, duration: int, toTs: int,
                      draws: seq<seq<nat>>, starts: seq<int>, sampleCount: nat, fuel: nat)
    returns (r: Result<Report, RunError>)
    ensures |genuine| == 0 <==> r == Err(Generation(EmptyTrace))
    ensures r.Ok? && rate < 0.0 ==> r.value.padded == |genuine|
    ensures r.Ok? ==> r.value.samples <= sampleCount && r.value.samples <= |starts|
    ensures r.Ok? ==> r.value.estimate.epsRatio >= 1.0 && r.value.estimate.delta >= 0.0
    ensures Sorted(genuine) ==> r != Err(Matching(IndexOutOfRange))
    ensures Sorted(genuine) && Sorted(interactions) && threshold >= 0 && duration >= 0 &&
            (forall k :: 0 <= k < |interactions| ==> interactions[k] in genuine) ==>
              r != Err(Aggregation(LogDomain))
  {
    var padded := AssembleTrace(genuine, rate, threshold, draws);
    if padded.Err? {
      return Err(Generation(padded.error));
    }
    var out := padded.value;
    if rate < 0.0 {
      Passthrough(genuine, rate, threshold, draws);
    }
    if Sorted(genuine) {
      AssembledSorted(genuine, rate, threshold, draws);
    }
    var ia := InterArrivals(out);
    var totals := DenominatorSweep(out, interactions, threshold, duration, toTs, fuel);
    if totals.None? {
      return Err(SweepUnfinished);
    }
    var taskTotal, notaskTotal := totals.value.task, totals.value.notask;

    var collector := new SampleCollector(out, ia, interactions, duration, threshold);
    var drawn := collector.Collect(starts, sampleCount);
    var samples := collector.results;
    assert Sorted(out) ==> forall a :: 0 <= a < |samples| && |samples[a]| > 0 ==> samples[a][0] >= 0;

    var counts: seq<Counts> := [];
    for j := 0 to |samples|
      invariant |counts| == j
    {
      var m := ComputeMatches(out, ia, interactions, samples[j], threshold, duration);
      if m.Err? {
        return Err(Matching(m.error));
      }
      counts := counts + [m.value];
    }

    var estimate := Aggregate(counts, taskTotal, notaskTotal);
    if estimate.Err? {
      if Sorted(genuine) && Sorted(interactions) && threshold >= 0 && duration >= 0 &&
         (forall k :: 0 <= k < |interactions| ==> interactions[k] in genuine) {
        GenuineInteractionsCovered(genuine, rate, threshold, draws, interactions);
        TotalsNonNegative(out, interactions, threshold, duration, toTs, fuel);
        if taskTotal != 0 && notaskTotal != 0 {
          forall j | 0 <= j < |counts| && !IsDeltaCase(counts[j])
            ensures Ratio(counts[j], taskTotal, notaskTotal) > 0.0
          {
            RatioAtLeastOne(counts[j], taskTotal, notaskTotal);
          }
        }
      }
      return Err(Aggregation(estimate.error));
    }
    return Ok(Report(|out|, |samples|, estimate.value));
  }

  /** The sample [0] is drawn at the interaction 12 of the trace in TaskProbabilityAboveOne. */
  lemma SkippedInteractionDrawn()
    ensures InterArrivals([0, 1, 11, 12, 20]) == [1, 10, 1, 8]
    ensures Drawn([0, 1, 11, 12, 20], 10, 2, 12, [0]) && IsTaskStart([0, 1, 12], 12, 2)
  {
    var out, ints := [0, 1, 11, 12, 20], [0, 1, 12];
    assert Sorted(out) && Sorted(ints);
    var ia := InterArrivals(out);
    assert ia == [1, 10, 1, 8];
    LowerBoundAt(out, 12, 3);
    LowerBoundAt(out, 14, 4);
    LowerBoundAt(ints, 12, 2);
    assert IsWindowSample(out, 12, 2, 3, [0]) by {
      assert Delta(out, 12, 3, 0) == 0 && Delta(out, 12, 3, 1) == 8;
    }
  }

  /**
   * Pr(O | task) can exceed 1, even on a sorted trace whose interactions are
   * its events: the sample [0], drawn at the interaction 12, matches at two
   * interactions, while the sweep's task total is 1 because the outage jump
   * from 0 to 11 passes the interactions 0 and 1 without counting them.
   */
  lemma TaskProbabilityAboveOne()
    ensures var out, ints := [0, 1, 11, 12, 20], [0, 1, 12];
            Drawn(out, 10, 2, 12, [0]) && IsTaskStart(ints, 12, 2) &&
            SweepFrom(out, ints, 10, 2, 23, Start, 4) == Some(Totals(1, 8)) &&
            SingleCounts(out, InterArrivals(out), ints, 10, 2, 0, |InterArrivals(out)|) == Counts(2, 0) &&
            Pr(2, 1) == 2.0
  {
    SkippedInteractionDrawn();
    SkippedInteractionSweep();
    SkippedInteractionMatches();
  }
}
