/**
 * The padded trace of one rate (ned.py:172-184 and ned.py:197): the genuine
 * trace is cut into chunks of 5001 values that overlap by one, every chunk
 * is padded on its own (each with its own list of draws, standing for the
 * random source of the task that pads it), and the padded chunks are joined in chunk order behind
 * a seed element, the first genuine value. The inter-arrival list is then
 * derived from the joined trace.
 */
module Trace {
  import opened Basics
  import opened Bisect
  import opened Dummies

  /** The stride between chunk starts; a chunk holds one value more. */
  const ChunkSize: nat := 5000

  /** Where chunk c starts in the genuine trace; chunks start while this is below n - 1. */
  function ChunkStart(c: nat): nat { c * ChunkSize }

  /** Chunk c: genuine[c·5000 .. min(c·5000 + 5001, n)]. */
  function ChunkAt(genuine: seq<int>, c: nat): (chunk: seq<int>)
    requires ChunkStart(c) < |genuine| - 1
    ensures 2 <= |chunk| <= ChunkSize + 1
  {
    genuine[ChunkStart(c) .. Min(ChunkStart(c) + ChunkSize + 1, |genuine|)]
  }

  /** The draws of chunk c; a chunk with no draws given gets none. */
  function DrawsFor(draws: seq<seq<nat>>, c: nat): seq<nat> {
    if c < |draws| then draws[c] else []
  }

  /**
   * The padded chunks from chunk c on, appended to `acc` in chunk order, or
   * the error of the first chunk that fails.
   */
  function Join(genuine: seq<int>, rate: real, threshold: int, draws: seq<seq<nat>>, c: nat, acc: seq<int>)
    : Result<seq<int>, GenError>
    decreases |genuine| - ChunkStart(c)
  {
    if ChunkStart(c) >= |genuine| - 1 then Ok(acc)
    else match Padded(ChunkAt(genuine, c), rate, threshold, DrawsFor(draws, c))
      case Err(e) => Err(e)
      case Ok(p) => Join(genuine, rate, threshold, draws, c + 1, acc + p)
  }

  /** The whole padded trace: the seed element, then every padded chunk. */
  function Assembled(genuine: seq<int>, rate: real, threshold: int, draws: seq<seq<nat>>): Result<seq<int>, GenError> {
    if |genuine| == 0 then Err(EmptyTrace)
    else Join(genuine, rate, threshold, draws, 0, [genuine[0]])
  }

  /** Joining from chunk c: chunk c's error, or the join from chunk c + 1 behind it. */
  lemma JoinStep(genuine: seq<int>, rate: real, threshold: int, draws: seq<seq<nat>>, c: nat, acc: seq<int>)
    requires ChunkStart(c) < |genuine| - 1
    ensures var p := Padded(ChunkAt(genuine, c), rate, threshold, DrawsFor(draws, c));
            p.Ok? ==> Join(genuine, rate, threshold, draws, c, acc) == Join(genuine, rate, threshold, draws, c + 1, acc + p.value)
    ensures var p := Padded(ChunkAt(genuine, c), rate, threshold, DrawsFor(draws, c));
            p.Err? ==> Join(genuine, rate, threshold, draws, c, acc) == Err(p.error)
  {
  }

  /** The chunk loop and the join of ned.py:172-184, run sequentially in submission order. */
  method AssembleTrace(genuine: seq<int>, rate: real, threshold: int, draws: seq<seq<nat>>)
    returns (r: Result<seq<int>, GenError>)
    ensures r == Assembled(genuine, rate, threshold, draws)
    ensures |genuine| == 0 <==> r == Err(EmptyTrace)
  {
    if |genuine| == 0 {
      return Err(EmptyTrace);
    }
    var output := [genuine[0]];
    var i, c := 0, 0;
    while i < |genuine| - 1
      invariant i == ChunkStart(c)
      invariant Join(genuine, rate, threshold, draws, c, output) == Assembled(genuine, rate, threshold, draws)
      decreases |genuine| - i
    {
      var chunk := genuine[i .. Min(i + ChunkSize + 1, |genuine|)];
      assert chunk == ChunkAt(genuine, c);
      var part := ComputeNedDummies(chunk, rate, threshold, DrawsFor(draws, c));
      JoinStep(genuine, rate, threshold, draws, c, output);
      if part.Err? {
        return Err(part.error);
      }
      output := output + part.value;
      i, c := i + ChunkSize, c + 1;
    }
    return Ok(output);
  }

  /** With a negative rate chunk c passes through without its last value. */
  lemma ChunkPassthrough(genuine: seq<int>, rate: real, threshold: int, ds: seq<nat>, c: nat)
    requires rate < 0.0 && ChunkStart(c) < |genuine| - 1
    ensures Padded(ChunkAt(genuine, c), rate, threshold, ds)
            == Ok(genuine[ChunkStart(c) .. Min(ChunkStart(c) + ChunkSize + 1, |genuine|) - 1])
  {
    var chunk := ChunkAt(genuine, c);
    assert chunk[..|chunk| - 1] == genuine[ChunkStart(c) .. Min(ChunkStart(c) + ChunkSize + 1, |genuine|) - 1];
  }

  lemma SliceJoin(s: seq<int>, acc: seq<int>, a: nat, b: nat, c: nat)
    requires a <= b <= c <= |s|
    ensures (acc + s[a .. b]) + s[b .. c] == acc + s[a .. c]
  {
    assert s[a .. b] + s[b .. c] == s[a .. c];
  }

  /**
   * With a negative rate every chunk passes through minus its last value,
   * so the chunks from c on add the genuine values from chunk c's start up
   * to, but not including, the last genuine value.
   */
  lemma {:induction false} JoinPassthrough(genuine: seq<int>, rate: real, threshold: int, draws: seq<seq<nat>>, c: nat, acc: seq<int>)
    requires rate < 0.0 && |genuine| > 0
    ensures Join(genuine, rate, threshold, draws, c, acc)
            == Ok(acc + genuine[Min(ChunkStart(c), |genuine| - 1) .. |genuine| - 1])
    decreases |genuine| - ChunkStart(c)
  {
    var n := |genuine|;
    if ChunkStart(c) >= n - 1 {
      assert acc + genuine[n - 1 .. n - 1] == acc;
    } else {
      var lo, hi := ChunkStart(c), Min(ChunkStart(c) + ChunkSize + 1, n);
      ChunkPassthrough(genuine, rate, threshold, DrawsFor(draws, c), c);
      JoinStep(genuine, rate, threshold, draws, c, acc);
      JoinPassthrough(genuine, rate, threshold, draws, c + 1, acc + genuine[lo .. hi - 1]);
      assert hi - 1 == Min(ChunkStart(c + 1), n - 1);
      SliceJoin(genuine, acc, lo, hi - 1, n - 1);
    }
  }

  /**
   * Without padding the trace is the seed element followed by every genuine
   * value but the last: the first genuine value appears twice and the last
   * not at all, so the trace is exactly as long as the genuine trace.
   */
  lemma Passthrough(genuine: seq<int>, rate: real, threshold: int, draws: seq<seq<nat>>)
    requires rate < 0.0 && |genuine| > 0
    ensures Assembled(genuine, rate, threshold, draws) == Ok([genuine[0]] + genuine[..|genuine| - 1])
    ensures |Assembled(genuine, rate, threshold, draws).value| == |genuine|
  {
    JoinPassthrough(genuine, rate, threshold, draws, 0, [genuine[0]]);
  }

  /** On a sorted genuine trace, padded chunk c is sorted and lies between its chunk's first and last values. */
  lemma ChunkFits(genuine: seq<int>, rate: real, threshold: int, ds: seq<nat>, c: nat)
    requires Sorted(genuine) && ChunkStart(c) < |genuine| - 1 && Padded(ChunkAt(genuine, c), rate, threshold, ds).Ok?
    ensures var p := Padded(ChunkAt(genuine, c), rate, threshold, ds).value;
            Sorted(p) &&
            forall m :: 0 <= m < |p| ==> genuine[ChunkStart(c)] <= p[m] <= genuine[Min(ChunkStart(c + 1), |genuine| - 1)]
  {
    var chunk := ChunkAt(genuine, c);
    assert Sorted(chunk);
    PaddedSorted(chunk, rate, threshold, ds);
    assert chunk[0] == genuine[ChunkStart(c)];
    assert chunk[|chunk| - 1] == genuine[Min(ChunkStart(c + 1), |genuine| - 1)];
  }

  /**
   * One chunk of the join: a sorted prefix no higher than the chunk's first
   * value, followed by the padded chunk, is sorted and no higher than the
   * chunk's last value.
   */
  lemma JoinSortedStep(genuine: seq<int>, rate: real, threshold: int, ds: seq<nat>, c: nat, acc: seq<int>)
    requires Sorted(genuine) && ChunkStart(c) < |genuine| - 1 && Sorted(acc)
    requires forall m :: 0 <= m < |acc| ==> acc[m] <= genuine[ChunkStart(c)]
    requires Padded(ChunkAt(genuine, c), rate, threshold, ds).Ok?
    ensures Sorted(acc + Padded(ChunkAt(genuine, c), rate, threshold, ds).value)
    ensures forall m :: 0 <= m < |acc + Padded(ChunkAt(genuine, c), rate, threshold, ds).value| ==>
              (acc + Padded(ChunkAt(genuine, c), rate, threshold, ds).value)[m] <= genuine[Min(ChunkStart(c + 1), |genuine| - 1)]
  {
    var p := Padded(ChunkAt(genuine, c), rate, threshold, ds).value;
    var hi := genuine[Min(ChunkStart(c + 1), |genuine| - 1)];
    ChunkFits(genuine, rate, threshold, ds, c);
    assert genuine[ChunkStart(c)] <= hi;
    SortedConcat(acc, p);
    forall m | 0 <= m < |acc + p|
      ensures (acc + p)[m] <= hi
    {
      if m < |acc| {
        assert (acc + p)[m] == acc[m];
      } else {
        assert (acc + p)[m] == p[m - |acc|];
      }
    }
  }

  /**
   * Joining onto a sorted prefix that lies within [genuine[0], start of
   * chunk c] keeps the result sorted, for every rate and every draw.
   */
  lemma {:induction false} JoinSorted(genuine: seq<int>, rate: real, threshold: int, draws: seq<seq<nat>>, c: nat, acc: seq<int>)
    requires Sorted(genuine) && |genuine| > 0 && Sorted(acc)
    requires forall m :: 0 <= m < |acc| ==> acc[m] <= genuine[Min(ChunkStart(c), |genuine| - 1)]
    requires Join(genuine, rate, threshold, draws, c, acc).Ok?
    ensures Sorted(Join(genuine, rate, threshold, draws, c, acc).value)
    ensures var out := Join(genuine, rate, threshold, draws, c, acc).value;
            forall m :: 0 <= m < |out| ==> out[m] <= genuine[|genuine| - 1]
    decreases |genuine| - ChunkStart(c)
  {
    var n := |genuine|;
    if ChunkStart(c) < n - 1 {
      var ds := DrawsFor(draws, c);
      var p := Padded(ChunkAt(genuine, c), rate, threshold, ds);
      JoinStep(genuine, rate, threshold, draws, c, acc);
      assert p.Ok?;
      JoinSortedStep(genuine, rate, threshold, ds, c, acc);
      JoinSorted(genuine, rate, threshold, draws, c + 1, acc + p.value);
      assert Join(genuine, rate, threshold, draws, c, acc) == Join(genuine, rate, threshold, draws, c + 1, acc + p.value);
    } else {
      assert Join(genuine, rate, threshold, draws, c, acc) == Ok(acc);
      assert Min(ChunkStart(c), n - 1) == n - 1;
    }
  }

  /**
   * A sorted genuine trace gives a sorted padded trace, whatever the rate
   * and the draws, and nothing in it lies past the last genuine value.
   */
  lemma AssembledSorted(genuine: seq<int>, rate: real, threshold: int, draws: seq<seq<nat>>)
    requires Sorted(genuine) && Assembled(genuine, rate, threshold, draws).Ok?
    ensures Sorted(Assembled(genuine, rate, threshold, draws).value)
    ensures var out := Assembled(genuine, rate, threshold, draws).value;
            forall m :: 0 <= m < |out| ==> out[m] <= genuine[|genuine| - 1]
  {
    JoinSorted(genuine, rate, threshold, draws, 0, [genuine[0]]);
  }

  /**
   * Joining keeps `acc` as a prefix and adds every genuine value from chunk
   * c's start on, except the last genuine value.
   */
  lemma {:induction false} JoinContains(genuine: seq<int>, rate: real, threshold: int, draws: seq<seq<nat>>, c: nat, acc: seq<int>)
    requires Join(genuine, rate, threshold, draws, c, acc).Ok?
    ensures acc <= Join(genuine, rate, threshold, draws, c, acc).value
    ensures forall j :: ChunkStart(c) <= j < |genuine| - 1 ==> genuine[j] in Join(genuine, rate, threshold, draws, c, acc).value
    decreases |genuine| - ChunkStart(c)
  {
    var n := |genuine|;
    if ChunkStart(c) < n - 1 {
      var chunk := ChunkAt(genuine, c);
      var p := Padded(chunk, rate, threshold, DrawsFor(draws, c)).value;
      var out := Join(genuine, rate, threshold, draws, c, acc).value;
      PaddedContains(chunk, rate, threshold, DrawsFor(draws, c));
      JoinContains(genuine, rate, threshold, draws, c + 1, acc + p);
      forall j | ChunkStart(c) <= j < n - 1
        ensures genuine[j] in out
      {
        if j < ChunkStart(c + 1) {
          var m := j - ChunkStart(c);
          assert chunk[m] == genuine[j];
          var k :| 0 <= k < |p| && p[k] == genuine[j];
          assert out[|acc| + k] == (acc + p)[|acc| + k];
        }
      }
    }
  }

  /** Every genuine value but the last occurs in the padded trace, and so does the first. */
  lemma AssembledContains(genuine: seq<int>, rate: real, threshold: int, draws: seq<seq<nat>>)
    requires Assembled(genuine, rate, threshold, draws).Ok?
    ensures genuine[0] in Assembled(genuine, rate, threshold, draws).value
    ensures forall j :: 0 <= j < |genuine| - 1 ==> genuine[j] in Assembled(genuine, rate, threshold, draws).value
  {
    JoinContains(genuine, rate, threshold, draws, 0, [genuine[0]]);
    assert Assembled(genuine, rate, threshold, draws).value[0] == genuine[0];
  }

  /** `ia[i] = out[i+1] - out[i]` (ned.py:197). */
  function InterArrivals(out: seq<int>): (ia: seq<int>)
    ensures |ia| == if |out| == 0 then 0 else |out| - 1
    ensures forall i :: 0 <= i < |ia| ==> ia[i] == out[i + 1] - out[i]
  {
    if |out| == 0 then [] else seq(|out| - 1, i requires 0 <= i < |out| - 1 => out[i + 1] - out[i])
  }

  /** The trace is sorted exactly when no inter-arrival time is negative. */
  lemma InterArrivalsNonNegative(out: seq<int>)
    ensures Sorted(out) <==> forall i :: 0 <= i < |InterArrivals(out)| ==> InterArrivals(out)[i] >= 0
  {
    var ia := InterArrivals(out);
    if forall i :: 0 <= i < |ia| ==> ia[i] >= 0 {
      assert forall i :: 0 <= i < |out| - 1 ==> out[i] <= out[i + 1] by {
        forall i | 0 <= i < |out| - 1 ensures out[i] <= out[i + 1] {
          assert ia[i] >= 0;
        }
      }
      SortedFromNeighbours(out);
    }
  }
}
