/**
 * The denominator sweep (ned.py:238-276): a walk over the padded trace that
 * splits the covered time into time whose window contains an interaction
 * (`samples_task_total`) and time whose window does not
 * (`samples_notask_total`). The walk's position is reset by lower-bound
 * searches, so termination is not evident; the model bounds the number of
 * steps with a fuel argument.
 */
module Denominators {
  import opened Basics
  import opened Bisect

  /** The sweep's position in the trace, its next interaction and the two running totals. */
  datatype SweepState = SweepState(i: nat, next: nat, task: int, notask: int)

  datatype Totals = Totals(task: int, notask: int)

  const Start := SweepState(0, 0, 0, 0)

  /** The loop condition of ned.py:242. */
  predicate Running(out: seq<int>, toTs: int, duration: int, st: SweepState) {
    st.i < |out| && out[st.i] < toTs - duration
  }

  /**
   * The interaction the sweep aims at: the next one, or one placed an
   * outage threshold past the trace's end when none is left (ned.py:253-256).
   */
  function Target(out: seq<int>, interactions: seq<int>, threshold: int, next: nat): int
    requires |out| > 0
  {
    if next >= |interactions| then out[|out| - 1] + threshold else interactions[next]
  }

  /**
   * One pass of the loop body (ned.py:243-276): None when the window
   * reaches the end of the trace (the break), otherwise the next state.
   */
  function SweepStep(out: seq<int>, interactions: seq<int>, threshold: int, duration: int, st: SweepState)
    : (r: Option<SweepState>)
    requires st.i < |out|
    ensures r.None? <==> LowerBound(out, out[st.i] + duration) == |out|
  {
    var nas := LowerBound(out, out[st.i] + duration);
    if nas == |out| then None
    else if out[nas] - out[st.i] > threshold then
      Some(st.(i := nas, next := LowerBound(interactions, out[nas])))
    else
      var target := Target(out, interactions, threshold, st.next);
      var toNext := target - out[st.i];
      if toNext < duration then
        Some(SweepState(LowerBound(out, target), st.next + 1, st.task + toNext, st.notask))
      else if toNext < threshold then
        Some(SweepState(LowerBound(out, target), st.next + 1, st.task + duration, st.notask + toNext - duration))
      else
        Some(st.(i := nas, notask := st.notask + out[nas] - out[st.i]))
  }

  /** The totals the sweep reaches from `st` within `fuel` steps, or None if it needs more. */
  function SweepFrom(out: seq<int>, interactions: seq<int>, threshold: int, duration: int, toTs: int,
                     st: SweepState, fuel: nat): Option<Totals>
    decreases fuel
  {
    if !Running(out, toTs, duration, st) then Some(Totals(st.task, st.notask))
    else match SweepStep(out, interactions, threshold, duration, st)
      case None => Some(Totals(st.task, st.notask))
      case Some(st') => if fuel == 0 then None else SweepFrom(out, interactions, threshold, duration, toTs, st', fuel - 1)
  }

  /** A sweep that stops, or whose window reaches the end, reports its totals. */
  lemma SweepFromDone(out: seq<int>, interactions: seq<int>, threshold: int, duration: int, toTs: int,
                      st: SweepState, fuel: nat)
    requires !Running(out, toTs, duration, st) || SweepStep(out, interactions, threshold, duration, st).None?
    ensures SweepFrom(out, interactions, threshold, duration, toTs, st, fuel) == Some(Totals(st.task, st.notask))
  {
  }

  /** A running sweep that takes a step uses one unit of fuel for it. */
  lemma SweepFromStep(out: seq<int>, interactions: seq<int>, threshold: int, duration: int, toTs: int,
                      st: SweepState, fuel: nat)
    requires Running(out, toTs, duration, st) && SweepStep(out, interactions, threshold, duration, st).Some? && fuel > 0
    ensures SweepFrom(out, interactions, threshold, duration, toTs, st, fuel)
            == SweepFrom(out, interactions, threshold, duration, toTs, SweepStep(out, interactions, threshold, duration, st).value, fuel - 1)
  {
  }

  /**
   * The rest of the loop body once the window does not reach the end
   * (ned.py:248-276): the position, next interaction and totals after the
   * outage jump, the step to an interaction in or near the window, or the
   * step past the window.
   */
  method Advance(out: seq<int>, interactions: seq<int>, threshold: int, duration: int, st: SweepState, nas: nat)
    returns (st': SweepState)
    requires st.i < |out| && nas == LowerBound(out, out[st.i] + duration) && nas < |out|
    ensures SweepStep(out, interactions, threshold, duration, st) == Some(st')
  {
    var i, next, task, notask := st.i, st.next, st.task, st.notask;
    if out[nas] - out[i] > threshold {
      return SweepState(nas, LowerBound(interactions, out[nas]), task, notask);
    }
    var target := if next >= |interactions| then out[|out| - 1] + threshold else interactions[next];
    var toNext := target - out[i];
    if toNext < duration {
      return SweepState(LowerBound(out, target), next + 1, task + toNext, notask);
    }
    if toNext < threshold {
      return SweepState(LowerBound(out, target), next + 1, task + duration, notask + toNext - duration);
    }
    return SweepState(nas, next, task, notask + out[nas] - out[i]);
  }

  /** The sweep of ned.py:238-276, stopped with None after `fuel` steps. */
  method DenominatorSweep(out: seq<int>, interactions: seq<int>, threshold: int, duration: int, toTs: int, fuel: nat)
    returns (r: Option<Totals>)
    ensures r == SweepFrom(out, interactions, threshold, duration, toTs, Start, fuel)
  {
    var st := Start;
    var steps := fuel;
    while st.i < |out| && out[st.i] < toTs - duration
      invariant SweepFrom(out, interactions, threshold, duration, toTs, st, steps)
                == SweepFrom(out, interactions, threshold, duration, toTs, Start, fuel)
      decreases steps
    {
      var nas := LowerBound(out, out[st.i] + duration);
      if nas == |out| {
        SweepFromDone(out, interactions, threshold, duration, toTs, st, steps);
        break;
      }
      if steps == 0 {
        return None;
      }
      SweepFromStep(out, interactions, threshold, duration, toTs, st, steps);
      st := Advance(out, interactions, threshold, duration, st, nas);
      steps := steps - 1;
    }
    if !Running(out, toTs, duration, st) {
      SweepFromDone(out, interactions, threshold, duration, toTs, st, steps);
    }
    return Some(Totals(st.task, st.notask));
  }

  /**
   * Every interaction is an event of the trace or lies past its end: true
   * when the interactions are messages of the genuine trace.
   */
  predicate Covered(out: seq<int>, interactions: seq<int>) {
    |out| > 0 && forall k :: 0 <= k < |interactions| ==> interactions[k] in out || interactions[k] > out[|out| - 1]
  }

  /** The next interaction is never behind the sweep's position. */
  predicate Ahead(out: seq<int>, interactions: seq<int>, st: SweepState) {
    st.i < |out| && st.next < |interactions| ==> interactions[st.next] >= out[st.i]
  }

  predicate NonNegative(st: SweepState) { st.task >= 0 && st.notask >= 0 }

  /** One step keeps the next interaction ahead and adds no negative time. */
  lemma StepKeeps(out: seq<int>, interactions: seq<int>, threshold: int, duration: int, st: SweepState)
    requires Sorted(out) && Sorted(interactions) && Covered(out, interactions)
    requires threshold >= 0 && duration >= 0 && st.i < |out|
    requires Ahead(out, interactions, st) && NonNegative(st)
    requires SweepStep(out, interactions, threshold, duration, st).Some?
    ensures Ahead(out, interactions, SweepStep(out, interactions, threshold, duration, st).value)
    ensures NonNegative(SweepStep(out, interactions, threshold, duration, st).value)
  {
    var nas := LowerBound(out, out[st.i] + duration);
    var st' := SweepStep(out, interactions, threshold, duration, st).value;
    if out[nas] - out[st.i] <= threshold {
      var target := Target(out, interactions, threshold, st.next);
      var toNext := target - out[st.i];
      assert toNext >= 0;
      if toNext < threshold && st.next < |interactions| {
        var p := LowerBound(out, target);
        if p < |out| {
          assert target in out by {
            assert !(target > out[|out| - 1]);
          }
          LowerBoundFinds(out, target);
          if st.next + 1 < |interactions| {
            assert interactions[st.next] <= interactions[st.next + 1];
          }
        }
      }
    }
  }

  /**
   * With a sorted trace and sorted interactions that are trace events, and
   * non-negative threshold and window, neither total ever becomes negative.
   */
  lemma {:induction false} SweepNonNegative(out: seq<int>, interactions: seq<int>, threshold: int, duration: int,
                                            toTs: int, st: SweepState, fuel: nat)
    requires Sorted(out) && Sorted(interactions) && Covered(out, interactions)
    requires threshold >= 0 && duration >= 0
    requires Ahead(out, interactions, st) && NonNegative(st)
    requires SweepFrom(out, interactions, threshold, duration, toTs, st, fuel).Some?
    ensures SweepFrom(out, interactions, threshold, duration, toTs, st, fuel).value.task >= 0
    ensures SweepFrom(out, interactions, threshold, duration, toTs, st, fuel).value.notask >= 0
    decreases fuel
  {
    if Running(out, toTs, duration, st) && SweepStep(out, interactions, threshold, duration, st).Some? && fuel > 0 {
      StepKeeps(out, interactions, threshold, duration, st);
      SweepNonNegative(out, interactions, threshold, duration, toTs,
                       SweepStep(out, interactions, threshold, duration, st).value, fuel - 1);
    }
  }

  /** From the start, the totals of a completed sweep are non-negative. */
  lemma TotalsNonNegative(out: seq<int>, interactions: seq<int>, threshold: int, duration: int, toTs: int, fuel: nat)
    requires Sorted(out) && Sorted(interactions) && Covered(out, interactions)
    requires threshold >= 0 && duration >= 0
    requires SweepFrom(out, interactions, threshold, duration, toTs, Start, fuel).Some?
    ensures SweepFrom(out, interactions, threshold, duration, toTs, Start, fuel).value.task >= 0
    ensures SweepFrom(out, interactions, threshold, duration, toTs, Start, fuel).value.notask >= 0
  {
    assert 0 < |interactions| ==> interactions[0] >= out[0] by {
      if 0 < |interactions| && interactions[0] in out {
        var k :| 0 <= k < |out| && out[k] == interactions[0];
        assert out[0] <= out[k];
      }
    }
    SweepNonNegative(out, interactions, threshold, duration, toTs, Start, fuel);
  }

  /**
   * The time a step leaves out of both totals: the gap an outage jump
   * skips (ned.py:249-251), 0 for every other step.
   */
  function Skip(out: seq<int>, threshold: int, duration: int, st: SweepState): int
    requires st.i < |out|
  {
    var nas := LowerBound(out, out[st.i] + duration);
    if nas < |out| && out[nas] - out[st.i] > threshold then out[nas] - out[st.i] else 0
  }

  /** How a sweep ends: the state it stops in, the time its outage jumps skipped, and its number of steps. */
  datatype Run = Run(last: SweepState, skipped: int, steps: nat)

  /** The sweep of SweepFrom, keeping its final state and its bookkeeping. */
  function SweepRun(out: seq<int>, interactions: seq<int>, threshold: int, duration: int, toTs: int,
                    st: SweepState, fuel: nat): Option<Run>
    decreases fuel
  {
    if !Running(out, toTs, duration, st) then Some(Run(st, 0, 0))
    else match SweepStep(out, interactions, threshold, duration, st)
      case None => Some(Run(st, 0, 0))
      case Some(st') =>
        if fuel == 0 then None
        else match SweepRun(out, interactions, threshold, duration, toTs, st', fuel - 1)
          case None => None
          case Some(r) => Some(Run(r.last, r.skipped + Skip(out, threshold, duration, st), r.steps + 1))
  }

  /** SweepRun ends exactly when SweepFrom does, and its final state holds SweepFrom's totals. */
  lemma {:induction false} SweepRunTotals(out: seq<int>, interactions: seq<int>, threshold: int, duration: int,
                                          toTs: int, st: SweepState, fuel: nat)
    ensures SweepRun(out, interactions, threshold, duration, toTs, st, fuel).Some?
            <==> SweepFrom(out, interactions, threshold, duration, toTs, st, fuel).Some?
    ensures SweepRun(out, interactions, threshold, duration, toTs, st, fuel).Some? ==>
              var last := SweepRun(out, interactions, threshold, duration, toTs, st, fuel).value.last;
              SweepFrom(out, interactions, threshold, duration, toTs, st, fuel) == Some(Totals(last.task, last.notask))
    decreases fuel
  {
    if Running(out, toTs, duration, st) && SweepStep(out, interactions, threshold, duration, st).Some? && fuel > 0 {
      SweepRunTotals(out, interactions, threshold, duration, toTs,
                     SweepStep(out, interactions, threshold, duration, st).value, fuel - 1);
    }
  }

  /** One step adds at most the window to the task total. */
  lemma StepTaskBound(out: seq<int>, interactions: seq<int>, threshold: int, duration: int, st: SweepState)
    requires duration >= 0 && st.i < |out|
    requires SweepStep(out, interactions, threshold, duration, st).Some?
    ensures SweepStep(out, interactions, threshold, duration, st).value.task <= st.task + duration
  {
  }

  /**
   * Conservation for one step on a sorted, covered trace: an outage jump
   * skips more than the threshold, and a step that stays in the trace adds
   * to the two totals together exactly the time it advances, less what it
   * skips.
   */
  lemma StepConserves(out: seq<int>, interactions: seq<int>, threshold: int, duration: int, st: SweepState)
    requires Sorted(out) && Covered(out, interactions) && threshold >= 0 && duration >= 0 && st.i < |out|
    requires SweepStep(out, interactions, threshold, duration, st).Some?
    ensures Skip(out, threshold, duration, st) == 0 || Skip(out, threshold, duration, st) > threshold
    ensures var st' := SweepStep(out, interactions, threshold, duration, st).value;
            st'.i < |out| ==>
              st'.task + st'.notask == st.task + st.notask + out[st'.i] - out[st.i] - Skip(out, threshold, duration, st)
  {
    var nas := LowerBound(out, out[st.i] + duration);
    if out[nas] - out[st.i] <= threshold {
      var target := Target(out, interactions, threshold, st.next);
      var toNext := target - out[st.i];
      if toNext < threshold {
        var p := LowerBound(out, target);
        if p < |out| {
          assert target in out by {
            assert !(target > out[|out| - 1]);
          }
          LowerBoundFinds(out, target);
        }
      }
    }
  }

  /** A running sweep that takes a step ends where the rest of it ends, with the step's skip and one step more. */
  lemma SweepRunStep(out: seq<int>, interactions: seq<int>, threshold: int, duration: int, toTs: int,
                     st: SweepState, fuel: nat) returns (r': Run)
    requires Running(out, toTs, duration, st) && SweepStep(out, interactions, threshold, duration, st).Some? && fuel > 0
    requires SweepRun(out, interactions, threshold, duration, toTs, st, fuel).Some?
    ensures SweepRun(out, interactions, threshold, duration, toTs, SweepStep(out, interactions, threshold, duration, st).value, fuel - 1)
            == Some(r')
    ensures SweepRun(out, interactions, threshold, duration, toTs, st, fuel)
            == Some(Run(r'.last, r'.skipped + Skip(out, threshold, duration, st), r'.steps + 1))
    ensures !Running(out, toTs, duration, SweepStep(out, interactions, threshold, duration, st).value) ==>
              r'.last == SweepStep(out, interactions, threshold, duration, st).value
  {
    r' := SweepRun(out, interactions, threshold, duration, toTs, SweepStep(out, interactions, threshold, duration, st).value, fuel - 1).value;
  }

  /**
   * Conservation for a whole sweep that stops inside the trace: the two
   * totals together grow by the time the position advances less the time
   * the outage jumps skip.
   */
  lemma {:induction false} SweepConserves(out: seq<int>, interactions: seq<int>, threshold: int, duration: int,
                                          toTs: int, st: SweepState, fuel: nat, r: Run)
    requires Sorted(out) && Covered(out, interactions) && threshold >= 0 && duration >= 0 && st.i < |out|
    requires SweepRun(out, interactions, threshold, duration, toTs, st, fuel) == Some(r) && r.last.i < |out|
    ensures r.last.task + r.last.notask == st.task + st.notask + out[r.last.i] - out[st.i] - r.skipped
    ensures r.skipped >= 0
    decreases fuel
  {
    if Running(out, toTs, duration, st) && SweepStep(out, interactions, threshold, duration, st).Some? && fuel > 0 {
      var st' := SweepStep(out, interactions, threshold, duration, st).value;
      var r' := SweepRunStep(out, interactions, threshold, duration, toTs, st, fuel);
      StepConserves(out, interactions, threshold, duration, st);
      assert st'.i < |out| by {
        if !Running(out, toTs, duration, st') {
          assert r.last == st';
        }
      }
      SweepConserves(out, interactions, threshold, duration, toTs, st', fuel - 1, r');
    } else {
      assert r == Run(st, 0, 0);
    }
  }

  /** Adding one more step of at most d to a bound of n steps of d. */
  lemma OneMoreStep(last: int, mid: int, start: int, d: int, n: nat)
    requires last <= mid + d * n && mid <= start + d
    ensures last <= start + d * (n + 1)
  {
    assert d * (n + 1) == d * n + d;
  }

  /** A sweep adds at most one window per step to the task total. */
  lemma {:induction false} SweepTaskBound(out: seq<int>, interactions: seq<int>, threshold: int, duration: int,
                                          toTs: int, st: SweepState, fuel: nat, r: Run)
    requires duration >= 0
    requires SweepRun(out, interactions, threshold, duration, toTs, st, fuel) == Some(r)
    ensures r.last.task <= st.task + duration * r.steps
    decreases fuel
  {
    if Running(out, toTs, duration, st) && SweepStep(out, interactions, threshold, duration, st).Some? && fuel > 0 {
      var st' := SweepStep(out, interactions, threshold, duration, st).value;
      var r' := SweepRunStep(out, interactions, threshold, duration, toTs, st, fuel);
      StepTaskBound(out, interactions, threshold, duration, st);
      SweepTaskBound(out, interactions, threshold, duration, toTs, st', fuel - 1, r');
      OneMoreStep(r'.last.task, st'.task, st.task, duration, r'.steps);
    } else {
      assert r == Run(st, 0, 0);
    }
  }

  /**
   * The meaning of the totals of a completed sweep from the start of a
   * sorted, covered trace, when it stops inside the trace: together they
   * are the time from the first event to the stopping position less the
   * outage gaps jumped over, and the task total is at most one window per step.
   */
  lemma TotalsConserve(out: seq<int>, interactions: seq<int>, threshold: int, duration: int, toTs: int, fuel: nat)
    requires Sorted(out) && Covered(out, interactions) && threshold >= 0 && duration >= 0
    requires SweepRun(out, interactions, threshold, duration, toTs, Start, fuel).Some?
    requires SweepRun(out, interactions, threshold, duration, toTs, Start, fuel).value.last.i < |out|
    ensures var r := SweepRun(out, interactions, threshold, duration, toTs, Start, fuel).value;
            SweepFrom(out, interactions, threshold, duration, toTs, Start, fuel) == Some(Totals(r.last.task, r.last.notask)) &&
            r.last.task + r.last.notask == out[r.last.i] - out[0] - r.skipped &&
            r.last.task <= duration * r.steps &&
            r.skipped >= 0
  {
    SweepRunTotals(out, interactions, threshold, duration, toTs, Start, fuel);
    var r := SweepRun(out, interactions, threshold, duration, toTs, Start, fuel).value;
    SweepConserves(out, interactions, threshold, duration, toTs, Start, fuel, r);
    SweepTaskBound(out, interactions, threshold, duration, toTs, Start, fuel, r);
  }

  /** The first two steps of the sweep in UncoveredGoesNegative: both aim at an interaction. */
  lemma UncoveredTaskSteps()
    ensures SweepStep([0, 100, 200], [10, 20], 1000, 50, Start) == Some(SweepState(1, 1, 10, 0))
    ensures SweepStep([0, 100, 200], [10, 20], 1000, 50, SweepState(1, 1, 10, 0)) == Some(SweepState(1, 2, -70, 0))
  {
    var out := [0, 100, 200];
    assert Sorted(out);
    LowerBoundAt(out, 50, 1);
    LowerBoundAt(out, 10, 1);
    LowerBoundAt(out, 20, 1);
    LowerBoundAt(out, 150, 2);
  }

  /** The last two steps of the sweep in UncoveredGoesNegative: no interaction is left, then the end. */
  lemma UncoveredFinalSteps()
    ensures SweepStep([0, 100, 200], [10, 20], 1000, 50, SweepState(1, 2, -70, 0)) == Some(SweepState(2, 2, -70, 100))
    ensures SweepStep([0, 100, 200], [10, 20], 1000, 50, SweepState(2, 2, -70, 100)) == None
  {
    var out := [0, 100, 200];
    assert Sorted(out);
    LowerBoundAt(out, 150, 2);
    LowerBoundAt(out, 250, 3);
  }

  /**
   * Without the covering assumption the task total can become negative:
   * an interaction between two events sends the sweep back to an event
   * after it, and the next interaction is then behind the position.
   */
  lemma UncoveredGoesNegative()
    ensures SweepFrom([0, 100, 200], [10, 20], 1000, 50, 1000, Start, 4) == Some(Totals(-70, 100))
  {
    var out, ints := [0, 100, 200], [10, 20];
    UncoveredTaskSteps();
    UncoveredFinalSteps();
    var s1 := SweepState(1, 1, 10, 0);
    var s2 := SweepState(1, 2, -70, 0);
    var s3 := SweepState(2, 2, -70, 100);
    assert SweepFrom(out, ints, 1000, 50, 1000, s3, 1) == Some(Totals(-70, 100));
    assert SweepFrom(out, ints, 1000, 50, 1000, s2, 2) == Some(Totals(-70, 100));
    assert SweepFrom(out, ints, 1000, 50, 1000, s1, 3) == Some(Totals(-70, 100));
  }

  /** The first two steps of the sweep in SkippedInteractionSweep: an outage jump, then a step onto an interaction. */
  lemma SkippedInteractionJump()
    ensures SweepStep([0, 1, 11, 12, 20], [0, 1, 12], 10, 2, Start) == Some(SweepState(2, 2, 0, 0))
    ensures SweepStep([0, 1, 11, 12, 20], [0, 1, 12], 10, 2, SweepState(2, 2, 0, 0)) == Some(SweepState(3, 3, 1, 0))
  {
    var out, ints := [0, 1, 11, 12, 20], [0, 1, 12];
    assert Sorted(out) && Sorted(ints);
    LowerBoundAt(out, 2, 2);
    LowerBoundAt(ints, 11, 2);
    LowerBoundAt(out, 13, 4);
    LowerBoundAt(out, 12, 3);
  }

  /** The last two steps of the sweep in SkippedInteractionSweep: past the window, then the end. */
  lemma SkippedInteractionEnd()
    ensures SweepStep([0, 1, 11, 12, 20], [0, 1, 12], 10, 2, SweepState(3, 3, 1, 0)) == Some(SweepState(4, 3, 1, 8))
    ensures SweepStep([0, 1, 11, 12, 20], [0, 1, 12], 10, 2, SweepState(4, 3, 1, 8)) == None
  {
    var out := [0, 1, 11, 12, 20];
    assert Sorted(out);
    LowerBoundAt(out, 14, 4);
    LowerBoundAt(out, 22, 5);
  }

  /**
   * On a sorted, covered trace an interaction the sweep reaches by an
   * outage jump adds nothing to the task total: here the jump from 0 to 11
   * passes the interactions 0 and 1, and the task total is 1.
   */
  lemma SkippedInteractionSweep()
    ensures Sorted([0, 1, 11, 12, 20]) && Covered([0, 1, 11, 12, 20], [0, 1, 12])
    ensures SweepFrom([0, 1, 11, 12, 20], [0, 1, 12], 10, 2, 23, Start, 4) == Some(Totals(1, 8))
  {
    var out, ints := [0, 1, 11, 12, 20], [0, 1, 12];
    assert Sorted(out);
    assert ints[0] == out[0] && ints[1] == out[1] && ints[2] == out[3];
    SkippedInteractionJump();
    SkippedInteractionEnd();
    var s1, s2, s3 := SweepState(2, 2, 0, 0), SweepState(3, 3, 1, 0), SweepState(4, 3, 1, 8);
    assert SweepFrom(out, ints, 10, 2, 23, s3, 1) == Some(Totals(1, 8));
    assert SweepFrom(out, ints, 10, 2, 23, s2, 2) == Some(Totals(1, 8));
    assert SweepFrom(out, ints, 10, 2, 23, s1, 3) == Some(Totals(1, 8));
  }
}
