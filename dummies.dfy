/**
 * Dummy insertion for one chunk of the genuine trace (`compute_ned_dummies`,
 * ned.py:26-52). The exponential draws `floor(expovariate(λ·precision))` are
 * supplied as a list of naturals, consumed in order; a list that runs out
 * before the chunk is done is reported as `DrawsExhausted`.
 */
module Dummies {
  import opened Basics
  import opened Bisect

  /**
   * An empty trace or chunk (IndexError), a rate of zero at a pair that
   * draws (`expovariate(0.0)` divides by zero), or too few supplied draws.
   */
  datatype GenError = EmptyTrace | EmptyChunk | ZeroRate | DrawsExhausted

  /** What has been emitted so far, and the index of the first unused draw. */
  datatype Emitted = Emitted(values: seq<int>, used: nat)

  /** An outage: the gap from genuine value i-1 to genuine value i exceeds the threshold. */
  predicate IsOutage(chunk: seq<int>, threshold: int, i: nat)
    requires 0 < i < |chunk|
  {
    chunk[i] - chunk[i - 1] > threshold
  }

  /** Some pair of the chunk is not an outage, so dummies are drawn for it. */
  predicate HasGap(chunk: seq<int>, threshold: int) {
    exists i :: 0 < i < |chunk| && !IsOutage(chunk, threshold, i)
  }

  /**
   * The dummies of one pair that is not an outage: starting from `cur`, add
   * draw after draw and keep each running value while it stays below `next`.
   */
  function PairDummies(cur: int, next: int, draws: seq<nat>, k: nat): (r: Option<Emitted>)
    requires k <= |draws|
    ensures r.Some? ==> k < r.value.used <= |draws|
    ensures r.Some? ==> forall j :: 0 <= j < |r.value.values| ==> cur <= r.value.values[j] < next
    ensures r.Some? ==> Sorted(r.value.values)
    decreases |draws| - k
  {
    if k == |draws| then None
    else if cur + draws[k] >= next then Some(Emitted([], k + 1))
    else match PairDummies(cur + draws[k], next, draws, k + 1)
      case None => None
      case Some(e) => Some(Emitted([cur + draws[k]] + e.values, e.used))
  }

  /** `vs` put in front of an emission, if there is one. */
  function Prepend(vs: seq<int>, r: Option<Emitted>): Option<Emitted> {
    match r
    case None => None
    case Some(e) => Some(Emitted(vs + e.values, e.used))
  }

  lemma PrependTwice(a: seq<int>, b: seq<int>, r: Option<Emitted>)
    ensures Prepend(a, Prepend(b, r)) == Prepend(a + b, r)
  {
    if r.Some? {
      assert a + (b + r.value.values) == (a + b) + r.value.values;
    }
  }

  /**
   * The output list after the first `i` genuine pairs have been processed,
   * before the final trim: the first genuine value, then per pair its
   * dummies (none for an outage) and its second genuine value.
   */
  function Expand(chunk: seq<int>, threshold: int, draws: seq<nat>, i: nat): (r: Option<Emitted>)
    requires i < |chunk|
    ensures r.Some? ==> r.value.used <= |draws|
    ensures r.Some? ==> |r.value.values| > i && r.value.values[0] == chunk[0]
    ensures r.Some? ==> r.value.values[|r.value.values| - 1] == chunk[i]
    decreases i
  {
    if i == 0 then Some(Emitted([chunk[0]], 0))
    else match Expand(chunk, threshold, draws, i - 1)
      case None => None
      case Some(e) =>
        if IsOutage(chunk, threshold, i) then Some(Emitted(e.values + [chunk[i]], e.used))
        else match PairDummies(chunk[i - 1], chunk[i], draws, e.used)
          case None => None
          case Some(d) => Some(Emitted(e.values + d.values + [chunk[i]], d.used))
  }

  /**
   * What `compute_ned_dummies` returns for one chunk. A rate of zero fails
   * exactly when some pair is not an outage: its first draw divides by zero.
   */
  function Padded(chunk: seq<int>, rate: real, threshold: int, draws: seq<nat>): (r: Result<seq<int>, GenError>)
    ensures r.Err? ==> r.error != EmptyTrace
    ensures rate >= 0.0 && |chunk| > 0 ==> (r == Err(ZeroRate) <==> rate == 0.0 && HasGap(chunk, threshold))
  {
    if rate < 0.0 then Ok(if |chunk| == 0 then [] else chunk[..|chunk| - 1])
    else if |chunk| == 0 then Err(EmptyChunk)
    else if rate == 0.0 && HasGap(chunk, threshold) then Err(ZeroRate)
    else match Expand(chunk, threshold, draws, |chunk| - 1)
      case None => Err(DrawsExhausted)
      case Some(e) => Ok(e.values[..|e.values| - 1])
  }

  /** A prefix made only of outages is copied unchanged, using no draw. */
  lemma {:induction false} ExpandOutages(chunk: seq<int>, threshold: int, draws: seq<nat>, i: nat)
    requires i < |chunk|
    requires forall j :: 0 < j <= i ==> IsOutage(chunk, threshold, j)
    ensures Expand(chunk, threshold, draws, i) == Some(Emitted(chunk[..i + 1], 0))
    decreases i
  {
    if i > 0 {
      ExpandOutages(chunk, threshold, draws, i - 1);
      assert chunk[..i] + [chunk[i]] == chunk[..i + 1];
    } else {
      assert chunk[..1] == [chunk[0]];
    }
  }

  /**
   * A rate of zero either fails or, when every pair is an outage, returns
   * the chunk minus its last value, as a negative rate does.
   */
  lemma ZeroRatePassthrough(chunk: seq<int>, threshold: int, draws: seq<nat>)
    requires |chunk| > 0 && !HasGap(chunk, threshold)
    ensures Padded(chunk, 0.0, threshold, draws) == Ok(chunk[..|chunk| - 1])
  {
    ExpandOutages(chunk, threshold, draws, |chunk| - 1);
    assert chunk[..|chunk|][..|chunk| - 1] == chunk[..|chunk| - 1];
  }

  /** Once the draws have run out, later pairs cannot be processed either. */
  lemma {:induction false} ExpandNoneStays(chunk: seq<int>, threshold: int, draws: seq<nat>, i: nat, j: nat)
    requires i <= j < |chunk|
    requires Expand(chunk, threshold, draws, i).None?
    ensures Expand(chunk, threshold, draws, j).None?
    decreases j - i
  {
    if i < j {
      ExpandNoneStays(chunk, threshold, draws, i + 1, j);
    }
  }

  /**
   * The inner `while True` loop of ned.py:41-50 for one pair that is not an
   * outage: from `last`, add draw after draw and emit each running value
   * until one reaches `nextGenuine`. Reports whether the draws ran out first.
   */
  method EmitPair(last: int, nextGenuine: int, draws: seq<nat>, k0: nat)
    returns (dummies: seq<int>, k: nat, exhausted: bool)
    requires k0 <= |draws|
    ensures exhausted <==> PairDummies(last, nextGenuine, draws, k0).None?
    ensures !exhausted ==> PairDummies(last, nextGenuine, draws, k0) == Some(Emitted(dummies, k))
  {
    dummies, k := [], k0;
    var nextDummy := last;
    assert Prepend([], PairDummies(nextDummy, nextGenuine, draws, k)) == PairDummies(nextDummy, nextGenuine, draws, k) by {
      if PairDummies(nextDummy, nextGenuine, draws, k).Some? {
        assert [] + PairDummies(nextDummy, nextGenuine, draws, k).value.values
               == PairDummies(nextDummy, nextGenuine, draws, k).value.values;
      }
    }
    while true
      invariant k0 <= k <= |draws|
      invariant PairDummies(last, nextGenuine, draws, k0) == Prepend(dummies, PairDummies(nextDummy, nextGenuine, draws, k))
      decreases |draws| - k
    {
      if k == |draws| {
        return dummies, k, true;
      }
      ghost var was := nextDummy;
      nextDummy := nextDummy + draws[k];
      k := k + 1;
      if nextDummy >= nextGenuine {
        assert PairDummies(was, nextGenuine, draws, k - 1) == Some(Emitted([], k));
        assert dummies + [] == dummies;
        break;
      }
      assert PairDummies(was, nextGenuine, draws, k - 1)
             == Prepend([nextDummy], PairDummies(nextDummy, nextGenuine, draws, k));
      PrependTwice(dummies, [nextDummy], PairDummies(nextDummy, nextGenuine, draws, k));
      dummies := dummies + [nextDummy];
    }
    return dummies, k, false;
  }

  /**
   * `compute_ned_dummies` as written: with a negative rate the chunk minus
   * its last element; otherwise the first genuine value, and for each pair
   * its dummies and its second value, minus the last element.
   */
  method ComputeNedDummies(chunk: seq<int>, rate: real, threshold: int, draws: seq<nat>)
    returns (r: Result<seq<int>, GenError>)
    ensures r == Padded(chunk, rate, threshold, draws)
    ensures rate < 0.0 && |chunk| > 0 ==> r == Ok(chunk[..|chunk| - 1])
    ensures rate >= 0.0 && |chunk| == 0 ==> r == Err(EmptyChunk)
    ensures rate == 0.0 && |chunk| > 0 ==> (r == Err(ZeroRate) <==> HasGap(chunk, threshold))
  {
    if rate < 0.0 {
      return Ok(if |chunk| == 0 then [] else chunk[..|chunk| - 1]);
    }
    if |chunk| == 0 {
      return Err(EmptyChunk);
    }
    var output := [chunk[0]];
    var k: nat := 0;
    for i := 0 to |chunk| - 1
      invariant k <= |draws|
      invariant Expand(chunk, threshold, draws, i) == Some(Emitted(output, k))
      invariant rate == 0.0 ==> forall j :: 0 < j <= i ==> IsOutage(chunk, threshold, j)
    {
      var last, nextGenuine := chunk[i], chunk[i + 1];
      assert IsOutage(chunk, threshold, i + 1) <==> nextGenuine - last > threshold;
      if nextGenuine - last > threshold {
        output := output + [nextGenuine];
        continue;
      }
      if rate == 0.0 {
        assert !IsOutage(chunk, threshold, i + 1);
        return Err(ZeroRate);
      }
      var dummies, k', exhausted := EmitPair(last, nextGenuine, draws, k);
      if exhausted {
        ExpandNoneStays(chunk, threshold, draws, i + 1, |chunk| - 1);
        return Err(DrawsExhausted);
      }
      output, k := output + dummies + [nextGenuine], k';
    }
    return Ok(output[..|output| - 1]);
  }

  /**
   * Pair j of the chunk is in place in `out`: its first genuine value at
   * out[pos[j]], then only dummies of the pair, in [chunk[j], chunk[j + 1]),
   * up to pos[j + 1], and no dummy at all when the pair is an outage.
   */
  ghost predicate PairPlaced(chunk: seq<int>, threshold: int, out: seq<int>, pos: seq<nat>, j: nat)
    requires j + 1 < |chunk| && j + 1 < |pos|
  {
    pos[j] < pos[j + 1] <= |out| &&
    out[pos[j]] == chunk[j] &&
    (forall m :: pos[j] < m < pos[j + 1] ==> chunk[j] <= out[m] < chunk[j + 1]) &&
    (IsOutage(chunk, threshold, j + 1) ==> pos[j + 1] == pos[j] + 1)
  }

  /**
   * `pos` locates the genuine values chunk[0..i] in `out`, the last of them
   * just past its end (that is the element the chunk boundary trims), with
   * every pair in place; so the genuine values appear in order and every
   * other element is a dummy lying inside its pair's gap.
   */
  ghost predicate Embeds(chunk: seq<int>, threshold: int, out: seq<int>, pos: seq<nat>, i: nat)
    requires i < |chunk|
  {
    |pos| == i + 1 && pos[0] == 0 && pos[i] == |out| &&
    forall j :: 0 <= j < i ==> PairPlaced(chunk, threshold, out, pos, j)
  }

  /** Appending the genuine value i-1 and the dummies of pair i-1 extends an embedding by one pair. */
  lemma EmbedsStep(chunk: seq<int>, threshold: int, out0: seq<int>, pos0: seq<nat>, i: nat, ds: seq<int>)
    requires 0 < i < |chunk|
    requires Embeds(chunk, threshold, out0, pos0, i - 1)
    requires forall m :: 0 <= m < |ds| ==> chunk[i - 1] <= ds[m] < chunk[i]
    requires IsOutage(chunk, threshold, i) ==> ds == []
    ensures Embeds(chunk, threshold, out0 + [chunk[i - 1]] + ds, pos0 + [|out0| + 1 + |ds|], i)
  {
    var out, pos := out0 + [chunk[i - 1]] + ds, pos0 + [|out0| + 1 + |ds|];
    forall j | 0 <= j < i ensures PairPlaced(chunk, threshold, out, pos, j) {
      if j < i - 1 {
        assert PairPlaced(chunk, threshold, out0, pos0, j);
        assert pos[j] == pos0[j] && pos[j + 1] == pos0[j + 1];
        assert forall m :: 0 <= m < |out0| ==> out[m] == out0[m];
      } else {
        assert pos[j] == |out0| && out[|out0|] == chunk[i - 1];
        forall m | pos[j] < m < pos[j + 1] ensures chunk[j] <= out[m] < chunk[j + 1] {
          assert out[m] == ds[m - |out0| - 1];
        }
      }
    }
  }

  /**
   * One pair of the expansion: the list after pair i is the list after pair
   * i-1, then the pair's dummies (sorted, inside the pair's gap, none for an
   * outage), then genuine value i.
   */
  lemma ExpandStep(chunk: seq<int>, threshold: int, draws: seq<nat>, i: nat) returns (ds: seq<int>)
    requires 0 < i < |chunk| && Expand(chunk, threshold, draws, i).Some?
    ensures Expand(chunk, threshold, draws, i - 1).Some?
    ensures Expand(chunk, threshold, draws, i).value.values
            == Expand(chunk, threshold, draws, i - 1).value.values + ds + [chunk[i]]
    ensures Sorted(ds) && forall m :: 0 <= m < |ds| ==> chunk[i - 1] <= ds[m] < chunk[i]
    ensures IsOutage(chunk, threshold, i) ==> ds == []
  {
    var e := Expand(chunk, threshold, draws, i - 1).value;
    ds := if IsOutage(chunk, threshold, i) then []
          else PairDummies(chunk[i - 1], chunk[i], draws, e.used).value.values;
  }

  /** An embedding of the list after pair i-1 extends to one of the list after pair i. */
  lemma ExpandEmbedsStep(chunk: seq<int>, threshold: int, draws: seq<nat>, i: nat, prev: seq<nat>) returns (pos: seq<nat>)
    requires 0 < i < |chunk| && Expand(chunk, threshold, draws, i).Some?
    requires Expand(chunk, threshold, draws, i - 1).Some?
    requires var w := Expand(chunk, threshold, draws, i - 1).value.values;
             Embeds(chunk, threshold, w[..|w| - 1], prev, i - 1)
    ensures var v := Expand(chunk, threshold, draws, i).value.values;
            Embeds(chunk, threshold, v[..|v| - 1], pos, i)
  {
    var v := Expand(chunk, threshold, draws, i).value.values;
    var w := Expand(chunk, threshold, draws, i - 1).value.values;
    var out0 := w[..|w| - 1];
    var ds := ExpandStep(chunk, threshold, draws, i);
    assert w == out0 + [chunk[i - 1]];
    assert v[..|v| - 1] == out0 + [chunk[i - 1]] + ds;
    EmbedsStep(chunk, threshold, out0, prev, i, ds);
    pos := prev + [|out0| + 1 + |ds|];
  }

  lemma {:induction false} ExpandEmbeds(chunk: seq<int>, threshold: int, draws: seq<nat>, i: nat) returns (pos: seq<nat>)
    requires i < |chunk| && Expand(chunk, threshold, draws, i).Some?
    ensures var v := Expand(chunk, threshold, draws, i).value.values;
            Embeds(chunk, threshold, v[..|v| - 1], pos, i)
  {
    if i == 0 {
      pos := [0];
    } else {
      var ds := ExpandStep(chunk, threshold, draws, i);
      var prev := ExpandEmbeds(chunk, threshold, draws, i - 1);
      pos := ExpandEmbedsStep(chunk, threshold, draws, i, prev);
    }
  }

  lemma {:induction false} ExpandSorted(chunk: seq<int>, threshold: int, draws: seq<nat>, i: nat)
    requires i < |chunk| && Sorted(chunk) && Expand(chunk, threshold, draws, i).Some?
    ensures var v := Expand(chunk, threshold, draws, i).value.values;
            Sorted(v) && forall m :: 0 <= m < |v| ==> chunk[0] <= v[m] <= chunk[i]
  {
    if i > 0 {
      var ds := ExpandStep(chunk, threshold, draws, i);
      ExpandSorted(chunk, threshold, draws, i - 1);
      var w := Expand(chunk, threshold, draws, i - 1).value.values;
      SortedConcat(w, ds);
      SortedConcat(w + ds, [chunk[i]]);
    }
  }

  /**
   * With a non-negative rate the padded chunk keeps every genuine value but
   * the last, in order, each pair's dummies between its two values, none
   * after an outage, and it starts with the chunk's first value.
   */
  lemma PaddedEmbedsGenuine(chunk: seq<int>, rate: real, threshold: int, draws: seq<nat>) returns (pos: seq<nat>)
    requires rate >= 0.0 && Padded(chunk, rate, threshold, draws).Ok?
    ensures |chunk| > 0 && Embeds(chunk, threshold, Padded(chunk, rate, threshold, draws).value, pos, |chunk| - 1)
    ensures |chunk| >= 2 ==> Padded(chunk, rate, threshold, draws).value[0] == chunk[0]
  {
    pos := ExpandEmbeds(chunk, threshold, draws, |chunk| - 1);
  }

  /** Every genuine value of the chunk except the last occurs in the padded chunk, whatever the rate. */
  lemma PaddedContains(chunk: seq<int>, rate: real, threshold: int, draws: seq<nat>)
    requires Padded(chunk, rate, threshold, draws).Ok?
    ensures forall j :: 0 <= j < |chunk| - 1 ==> chunk[j] in Padded(chunk, rate, threshold, draws).value
  {
    var out := Padded(chunk, rate, threshold, draws).value;
    if rate >= 0.0 {
      var pos := PaddedEmbedsGenuine(chunk, rate, threshold, draws);
      forall j | 0 <= j < |chunk| - 1
        ensures chunk[j] in out
      {
        assert PairPlaced(chunk, threshold, out, pos, j);
        assert out[pos[j]] == chunk[j];
      }
    } else {
      forall j | 0 <= j < |chunk| - 1
        ensures chunk[j] in out
      {
        assert out[j] == chunk[j];
      }
    }
  }

  /** A sorted chunk gives a sorted padded chunk within the chunk's own range. */
  lemma PaddedSorted(chunk: seq<int>, rate: real, threshold: int, draws: seq<nat>)
    requires Sorted(chunk) && Padded(chunk, rate, threshold, draws).Ok?
    ensures var out := Padded(chunk, rate, threshold, draws).value;
            Sorted(out) && forall m :: 0 <= m < |out| ==> chunk[0] <= out[m] <= chunk[|chunk| - 1]
  {
    if rate >= 0.0 {
      ExpandSorted(chunk, threshold, draws, |chunk| - 1);
    }
  }
}
