/**
 * The aggregation of ned.py:366-375: every sample's match counts become the
 * two conditional probabilities Pr(O | task) and Pr(O | no task); a sample
 * with a zero probability raises delta to the larger of the two, every
 * other sample raises epsilon to the log of their ratio. Epsilon is kept as
 * the ratio itself (the log is monotone, so the maximum is the same), with
 * 1 standing for epsilon = 0.
 */
module Privacy {
  import opened Basics
  import opened Matches

  /** epsRatio is exp(epsilon). */
  datatype Estimate = Estimate(epsRatio: real, delta: real)

  /** A total of zero (ZeroDivisionError), or a ratio the logarithm rejects (ValueError). */
  datatype PrivacyError = ZeroDenominator | LogDomain

  /** matches / total as a real number. */
  function Pr(matches: nat, total: int): real
    requires total != 0
  {
    matches as real / total as real
  }

  /** A sample with no match of one kind counts towards delta (ned.py:371). */
  predicate IsDeltaCase(m: Counts) {
    m.task == 0 || m.notask == 0
  }

  /** max / min of the two probabilities (ned.py:374). */
  function Ratio(m: Counts, taskTotal: int, notaskTotal: int): real
    requires taskTotal != 0 && notaskTotal != 0 && !IsDeltaCase(m)
  {
    var p1, p2 := Pr(m.task, taskTotal), Pr(m.notask, notaskTotal);
    MaxReal(p1, p2) / MinReal(p1, p2)
  }

  /** The larger of a delta case's two probabilities. */
  function DeltaOf(m: Counts, taskTotal: int, notaskTotal: int): real
    requires taskTotal != 0 && notaskTotal != 0
  {
    MaxReal(Pr(m.task, taskTotal), Pr(m.notask, notaskTotal))
  }

  /**
   * With positive totals both probabilities of a non-delta sample are
   * positive, so their ratio is at least 1: epsilon is never negative and
   * the logarithm's domain error cannot happen.
   */
  lemma RatioAtLeastOne(m: Counts, taskTotal: int, notaskTotal: int)
    requires taskTotal > 0 && notaskTotal > 0 && !IsDeltaCase(m)
    ensures Ratio(m, taskTotal, notaskTotal) >= 1.0
  {
    var p1, p2 := Pr(m.task, taskTotal), Pr(m.notask, notaskTotal);
    assert p1 > 0.0 && p2 > 0.0;
    var hi, lo := MaxReal(p1, p2), MinReal(p1, p2);
    assert hi >= lo > 0.0;
    assert hi / lo * lo == hi;
  }

  /**
   * The result loop of ned.py:362-375 in submission order. Both totals must
   * be non-zero once there is a sample; a non-delta sample whose ratio is
   * not positive is an error; otherwise delta is the largest delta-case
   * probability (or 0) and epsRatio the largest ratio (or 1).
   */
  method Aggregate(results: seq<Counts>, taskTotal: int, notaskTotal: int) returns (r: Result<Estimate, PrivacyError>)
    ensures r == Err(ZeroDenominator) <==> |results| > 0 && (taskTotal == 0 || notaskTotal == 0)
    ensures r == Err(LogDomain) <==>
              taskTotal != 0 && notaskTotal != 0 &&
              exists j :: 0 <= j < |results| && !IsDeltaCase(results[j]) && Ratio(results[j], taskTotal, notaskTotal) <= 0.0
    ensures r.Ok? ==> r.value.epsRatio >= 1.0 && r.value.delta >= 0.0
    ensures r.Ok? && |results| > 0 ==> forall j :: 0 <= j < |results| ==>
              if IsDeltaCase(results[j]) then r.value.delta >= DeltaOf(results[j], taskTotal, notaskTotal)
              else r.value.epsRatio >= Ratio(results[j], taskTotal, notaskTotal)
    ensures r.Ok? ==>
              (r.value.epsRatio == 1.0 ||
               exists j :: 0 <= j < |results| && taskTotal != 0 && notaskTotal != 0 && !IsDeltaCase(results[j]) &&
                           r.value.epsRatio == Ratio(results[j], taskTotal, notaskTotal))
    ensures r.Ok? ==>
              (r.value.delta == 0.0 ||
               exists j :: 0 <= j < |results| && taskTotal != 0 && notaskTotal != 0 && IsDeltaCase(results[j]) &&
                           r.value.delta == DeltaOf(results[j], taskTotal, notaskTotal))
  {
    if |results| > 0 && (taskTotal == 0 || notaskTotal == 0) {
      return Err(ZeroDenominator);
    }
    var epsRatio, delta := 1.0, 0.0;
    for i := 0 to |results|
      invariant epsRatio >= 1.0 && delta >= 0.0
      invariant forall j :: 0 <= j < i ==>
                  if IsDeltaCase(results[j]) then delta >= DeltaOf(results[j], taskTotal, notaskTotal)
                  else Ratio(results[j], taskTotal, notaskTotal) > 0.0 && epsRatio >= Ratio(results[j], taskTotal, notaskTotal)
      invariant epsRatio == 1.0 ||
                exists j :: 0 <= j < i && !IsDeltaCase(results[j]) && epsRatio == Ratio(results[j], taskTotal, notaskTotal)
      invariant delta == 0.0 ||
                exists j :: 0 <= j < i && IsDeltaCase(results[j]) && delta == DeltaOf(results[j], taskTotal, notaskTotal)
    {
      var prob1 := results[i].task as real / taskTotal as real;
      var prob2 := results[i].notask as real / notaskTotal as real;
      if prob1 == 0.0 || prob2 == 0.0 {
        assert IsDeltaCase(results[i]);
        delta := MaxReal(delta, MaxReal(prob1, prob2));
      } else {
        assert !IsDeltaCase(results[i]);
        var ratio := MaxReal(prob1, prob2) / MinReal(prob1, prob2);
        if ratio <= 0.0 {
          return Err(LogDomain);
        }
        epsRatio := MaxReal(epsRatio, ratio);
      }
    }
    return Ok(Estimate(epsRatio, delta));
  }
}
