# ned-eval core in Dafny

This project models, and proves properties of, the core of `ned.py`. The script estimates how much privacy
Negative-Exponential-Distribution (NED) dummy traffic gives a home-automation system.

## What is modelled

**Padding** (`compute_ned_dummies`, module `Dummies`). The genuine message trace of a system is padded with
dummy messages. The gaps between dummies are exponential draws. No dummy is placed across a gap longer than the
system's outage threshold. The draws are supplied as lists of naturals, one list per chunk.

**Trace assembly** (module `Trace`).
- The genuine trace is cut into chunks of 5001 values that overlap by one value.
- Each chunk is padded on its own.
- The padded chunks are joined in submission order behind a seed element, the first genuine value.
- The inter-arrival list is then derived from the joined trace.

**Denominator sweep** (module `Denominators`). A sweep over the padded trace splits the covered time into
`samples_task_total` (windows that contain an interaction) and `samples_notask_total`.

**Sampling** (module `Sampler`, class `SampleCollector`). Observation windows are drawn, and a start is skipped
when it is:
- next to an outage;
- of the label whose quota is exceeded;
- a sample already seen.

Every other sample is accepted and counted under its label.

**Matching** (`compute_matches`, module `Matches`). For every accepted sample, the padded trace's positions where
an observer could have seen the same sample are counted, split by whether an interaction happens there. There
are three cases: the empty sample, one delta, and several deltas.

**Aggregation** (module `Privacy`). The match counts become the two conditional probabilities. Epsilon and delta
are their maxima.

**One rate end to end** (module `Pipeline`). `Pipeline.EstimateRate` ties one λ's run together. Lemmas in the same
module connect the stages, e.g. an accepted sample is matched by its own window.

Python's `bisect.bisect_left` is modelled once, as the binary search Python runs (module `Bisect`). Its meaning
is proved for sorted lists.

### Where the code and its documented design differ (the model follows the code)

- **Not strictly increasing.** The padded trace is claimed to be strictly increasing, with every genuine value
  exactly once. The code does something else:
  - The seed element and the first element of chunk 0 are both the first genuine value, so it appears twice.
  - Each chunk drops its last element, including the final chunk, so the last genuine value is missing.
  - A draw of 0 makes a dummy equal to the value before it.
  
  What holds is that the trace is non-decreasing (`Trace.AssembledSorted`), and that it contains every genuine
  value but the last (`Trace.AssembledContains`). Without padding, the trace is exactly as long as the genuine
  trace (`Trace.Passthrough`).
- **No ordering check.** The code does not check that a chunk is ordered; there is no ordering error. The model
  takes any chunk, and states sortedness results under a `Sorted` precondition.
- **Half-open task test.** The multi-element task test is `bisect_left(x) != bisect_left(x + duration)`. That
  means an interaction in the half-open interval `[x, x + duration)` (`Matches.WindowHasTaskMeaning`), not
  strictly inside the span.
- **Quota limit off by one.** The rule rejects a label only once its count already exceeds `1.5 · other + 900`.
  So a count can reach one more than that bound. What the rule keeps is `2·t ≤ 3·n + 1802` and symmetrically
  (`Sampler.Balanced`), not `t ≤ 1.5·n + 900`.
- **Interaction order is assumed.** The interaction list comes from a `SELECT DISTINCT` without `ORDER BY`.
  Results that need it sorted take that as a precondition.
- **Uncovered interactions.** The denominator sweep's totals are non-negative when every interaction is an event
  of the trace or lies past its end. That holds when interactions are genuine messages
  (`Pipeline.GenuineInteractionsCovered`). Without it the task total can become negative
  (`Denominators.UncoveredGoesNegative`, which uses a concrete input).
- **What the totals measure.** Together the two totals are the time from the first event to where the sweep
  stops, less the gaps its outage jumps skip (`Denominators.TotalsConserve`).
- **Probabilities above 1.** `prob_1` and `prob_2` are read as probabilities but can exceed 1, even on a sorted
  trace whose interactions are its events. An outage jump passes the interactions inside the gap without adding
  task time, yet those interactions still count as task matches. `Pipeline.TaskProbabilityAboveOne` shows a
  drawn sample with two task matches against a task total of 1, so `prob_1` is 2.
- **Zero rate.** A rate of 0.0 is not treated like a negative one. `random.expovariate(0.0)` divides by zero at the
  first pair that is not an outage, so the chunk fails with `ZeroRate` (`Dummies.Padded`). A chunk made only of
  outages passes through as with a negative rate (`Dummies.ZeroRatePassthrough`).

## Model

| member | source | states |
|---|---|---|
| Bisect.BisectLeftIn | ned.py:245 | bisect_left on [lo, hi): the result lies in [lo, hi); on a sorted list, everything before it is below x and everything from it on is at least x |
| Bisect.LowerBound | ned.py:245 | bisect_left on the whole list: a position at most the length; on a sorted list, the elements below x come exactly before it |
| Bisect.LowerBoundAt | ned.py:263 | on a sorted list, a position with its predecessor below x and its element at least x is the lower bound |
| Bisect.LowerBoundFinds | ned.py:75-76 | on a sorted list, the lower bound lands on x exactly when x occurs in the list |
| Bisect.LowerBoundsDiffer | ned.py:114 | on a sorted list, the lower bounds of lo ≤ hi differ exactly when some element lies in [lo, hi) |
| Bisect.LowerBoundWithin | ned.py:325-326 | on a sorted list, the first element at or after s is within d of s exactly when some element lies in [s, s + d] |
| Bisect.SortedConcat | ned.py:184 | two sorted lists, the first nowhere above the second, concatenate to a sorted list |
| Bisect.SortedFromNeighbours | ned.py:197 | a list whose neighbouring pairs are in order is sorted |
| Dummies.IsOutage | ned.py:37 | a pair is an outage when its second genuine value is more than the threshold after its first |
| Dummies.HasGap | ned.py:34-45 | some pair of the chunk is not an outage, so the loop draws for it |
| Dummies.PairDummies | ned.py:43-50 | the dummies of a pair that is not an outage use at least one draw, lie in [last, next) and are non-decreasing |
| Dummies.Expand | ned.py:30-51 | the list after i pairs starts with the chunk's first value, ends with genuine value i and has more than i elements |
| Dummies.Padded | ned.py:26-52 | a padding failure is never the empty-trace error; with a non-negative rate and a non-empty chunk, the zero-rate error happens exactly when the rate is 0.0 and some pair is not an outage |
| Dummies.EmitPair | ned.py:43-50 | the inner `while True` loop emits exactly the pair's dummies and reports when the draws run out first |
| Dummies.ComputeNedDummies | ned.py:26-52 | the method returns the padded chunk; with a negative rate the chunk without its last value; an empty chunk with a non-negative rate is an error; a rate of 0.0 fails exactly when some pair is not an outage |
| Dummies.ExpandOutages | ned.py:37-40 | a prefix of outages only is copied unchanged and uses no draw |
| Dummies.ZeroRatePassthrough | ned.py:26-52 | with a rate of 0.0 and every pair an outage, the chunk passes through without its last value |
| Dummies.ExpandNoneStays | ned.py:44-45 | once the draws have run out no later pair can be processed |
| Dummies.EmbedsStep | ned.py:40-51 | appending a genuine value and its pair's dummies extends the embedding of the genuine values by one pair |
| Dummies.ExpandStep | ned.py:34-51 | the list after pair i is the list after pair i-1, the pair's dummies (sorted, inside the gap, none for an outage) and genuine value i |
| Dummies.ExpandEmbedsStep | ned.py:34-51 | an embedding of the list after pair i-1 extends to the list after pair i |
| Dummies.ExpandEmbeds | ned.py:30-51 | the untrimmed output embeds every genuine value in order, with only in-gap dummies between them and none after an outage |
| Dummies.ExpandSorted | ned.py:30-51 | on a sorted chunk the untrimmed output is sorted and lies between the chunk's first value and genuine value i |
| Dummies.PaddedEmbedsGenuine | ned.py:30-52 | with a non-negative rate the padded chunk keeps every genuine value but the last, in order, with in-gap dummies between them and none after an outage, starting with the first |
| Dummies.PaddedContains | ned.py:28-52 | for every rate, every genuine value of the chunk but the last occurs in the padded chunk |
| Dummies.PaddedSorted | ned.py:26-52 | on a sorted chunk the padded chunk is sorted and lies between the chunk's first and last values |
| Trace.ChunkAt | ned.py:177-178 | each chunk has between 2 and 5001 values |
| Trace.Join | ned.py:182-184 | the padded chunks from chunk c on appended in submission order, or the first chunk error |
| Trace.Assembled | ned.py:172-184 | the seed element followed by every chunk's padding; an empty genuine trace is the empty-trace error |
| Trace.AssembleTrace | ned.py:172-184 | the chunked, sequentially joined trace, an empty genuine trace being the only empty-trace error |
| Trace.ChunkPassthrough | ned.py:28-29 | with a negative rate chunk c passes through without its last value |
| Trace.JoinPassthrough | ned.py:172-184 | with a negative rate the chunks from c on add the genuine values from chunk c's start up to, but not including, the last |
| Trace.Passthrough | ned.py:172-184 | with a negative rate the trace is the first genuine value followed by every genuine value but the last, exactly as long as the genuine trace |
| Trace.ChunkFits | ned.py:178 | on a sorted trace a padded chunk is sorted and lies between its chunk's first and last values |
| Trace.JoinSortedStep | ned.py:184 | a sorted prefix no higher than a chunk's first value, followed by the padded chunk, is sorted and no higher than the chunk's last value |
| Trace.JoinSorted | ned.py:172-184 | joining onto a suitably bounded sorted prefix gives a sorted list no higher than the last genuine value |
| Trace.AssembledSorted | ned.py:172-184 | a sorted genuine trace gives a sorted padded trace, whatever the rate and the draws, nothing in it past the last genuine value |
| Trace.JoinContains | ned.py:172-184 | joining keeps the prefix and adds every genuine value from chunk c's start on except the last |
| Trace.AssembledContains | ned.py:172-184 | the padded trace contains the first genuine value and every genuine value but the last |
| Trace.InterArrivals | ned.py:197 | one fewer gap than events; gap i is event i + 1 minus event i |
| Trace.InterArrivalsNonNegative | ned.py:197 | the trace is sorted exactly when no inter-arrival time is negative |
| Sampler.AfterOutage | ned.py:305 | a boundary position inside the trace that comes right after a gap above the threshold |
| Sampler.InOutage | ned.py:299-307 | a start is in an outage when either window boundary's lower-bound position comes right after an outage gap |
| Sampler.Delta | ned.py:315-318 | the first delta is the first event's distance from the start, every later one an inter-arrival time |
| Sampler.IsWindowSample | ned.py:313-321 | the sample is the longest run of deltas from the first event at or after the start that are each at most the window length |
| Sampler.CheckOutage | ned.py:299-307 | the start is in an outage exactly when some window boundary position comes right after a gap above the threshold |
| Sampler.AssembleSample | ned.py:313-321 | the sample is the longest run of deltas from the first event at or after the start that are each at most the window length; it is empty exactly when there is no such event or the first is too far |
| Sampler.IsTaskStart | ned.py:324-327 | on a sorted interaction list, the label is true exactly when an interaction lies in [start, start + duration] |
| Sampler.OverQuota | ned.py:329-333 | a label is over quota when its count exceeds 1.5 times the other count plus 900, compared exactly as 2·count > 3·other + 1800 |
| Sampler.Balanced | ned.py:329-346 | what the quota rule keeps: 2·t ≤ 3·n + 1802 and 2·n ≤ 3·t + 1802 |
| Sampler.Registry | ned.py:336-346 | the accepted samples are pairwise distinct and are exactly the seen set, each counted under one label, the counts balanced |
| Sampler.RegistryAccept | ned.py:336-346 | accepting a new sample within its quota keeps the registry distinct, equal to the dispatched list, counted once and balanced |
| Sampler.SampleCollector.constructor | ned.py:283-289 | the collector starts with an empty registry, no results and zero counts |
| Sampler.SampleCollector.Classify | ned.py:298-340 | the outcome is outage, quota, duplicate or accepted exactly under the source's conditions, with the window's sample and label; nothing changes |
| Sampler.SampleCollector.Accept | ned.py:341-346 | the sample is registered and dispatched, and counted under its label, keeping the registry invariant |
| Sampler.SampleCollector.Step | ned.py:292-358 | one draw, stated in full: which outcome, and the new registry, results and counts (unchanged unless accepted) |
| Sampler.SampleCollector.Collect | ned.py:292 | draws until enough samples are accepted or the starts run out, never overshooting the sample count and adding at most one sample per draw |
| Matches.Tally | ned.py:76-79 | an accepted position adds exactly one match, under one label |
| Matches.Room | ned.py:62-66 | a gap above the threshold gives no room; any other gap gives its excess over the window length, if positive |
| Matches.EmptyRoom | ned.py:60-66 | the room of the first k gaps, summed |
| Matches.EmptyRoomZero | ned.py:60-66 | there is no room for an empty window exactly when no gap lies in (duration, threshold] |
| Matches.MatchEmpty | ned.py:60-66 | the empty-sample loop returns no task matches and the total room of the non-outage gaps |
| Matches.SingleAccepts | ned.py:70-74 | position i accepts a one-element sample when both neighbouring gaps are within the threshold, the gap after exceeds the window and the gap before exceeds the delta |
| Matches.IsInteraction | ned.py:75-76 | the membership test: the lower bound of x lands on x |
| Matches.SingleCounts | ned.py:68-79 | the tally of positions 1 .. k-1, each accepted position under its label |
| Matches.IsInteractionMeaning | ned.py:75-76 | on a sorted interaction list the membership test is exactly membership |
| Matches.SingleCountsMeaning | ned.py:68-79 | at most one match per position, and a match exists exactly when some position among 1 .. k-1 passes the three checks |
| Matches.ExaminePosition | ned.py:70-79 | whether position i passes the three checks, and its label if it does |
| Matches.MatchSingle | ned.py:68-79 | the one-element loop returns the reference single-element counts |
| Matches.MultiAccepts | ned.py:97-111 | a start shows a multi-element sample: the gap before exceeds the first delta, the later deltas equal the gaps from the start, and the event after the sample is beyond the window |
| Matches.WindowHasTask | ned.py:114 | the lower bounds of x and x + duration in the interaction list differ |
| Matches.MultiCounts | ned.py:81-117 | the tally of starts 1 .. k, each accepted start under its label |
| Matches.WindowHasTaskMeaning | ned.py:114 | on a sorted interaction list a window is labelled a task exactly when an interaction lies in [x, x + duration) |
| Matches.MultiCountsWitness | ned.py:89-117 | a count that is not zero names an accepting start |
| Matches.MultiCountsFound | ned.py:89-117 | an accepting start makes the count not zero |
| Matches.MultiCountsBound | ned.py:89-117 | at most one match per start |
| Matches.MultiCountsMeaning | ned.py:89-117 | at most one match per start, and a match exists exactly when some start among 1 .. k shows the sample |
| Matches.ZeroGapsSkipped | ned.py:91-98 | with a non-negative first delta, starts after zero gaps never match, so skipping them loses nothing |
| Matches.CompareTail | ned.py:100-106 | the tail comparison decides whether the sample's later deltas equal the gaps from the start, or fails by reading past the end |
| Matches.SkipZeros | ned.py:91-93 | the skip ends at the first non-zero gap or at the end, and skips only zero gaps |
| Matches.ExamineStart | ned.py:97-117 | the layered checks at one start decide a match and its label when the window fits; a read past the end happens only past the last start |
| Matches.MatchMulti | ned.py:81-117 | with a non-negative first delta, the scan returns the reference multi-element counts; an index error is possible only with a negative first delta |
| Matches.ComputeMatches | ned.py:55-119 | dispatch on the sample's length to the three reference counts; an error only for a multi-element sample with a negative first delta |
| Denominators.Target | ned.py:254-258 | the next interaction, or the last event plus the threshold when none is left |
| Denominators.SweepStep | ned.py:243-276 | one pass of the loop body stops exactly when the window reaches the end of the trace |
| Denominators.SweepFrom | ned.py:238-276 | repeat the loop body from a state while the loop condition holds and the window does not reach the end, within the fuel |
| Denominators.Skip | ned.py:249-253 | the gap an outage jump skips, 0 for any other step |
| Denominators.SweepRun | ned.py:238-276 | the same sweep, keeping its final state, the skipped time and the number of steps |
| Denominators.Advance | ned.py:250-276 | the loop body after the end check produces the reference next state |
| Denominators.DenominatorSweep | ned.py:238-276 | the loop computes the reference totals, or reports that it needed more steps |
| Denominators.StepKeeps | ned.py:250-276 | on sorted, covered input, one step keeps the next interaction ahead of the position and adds no negative time |
| Denominators.SweepNonNegative | ned.py:238-276 | on sorted, covered input, from any state that keeps the invariant, the totals are non-negative |
| Denominators.TotalsNonNegative | ned.py:238-276 | on sorted, covered input, the totals from the start are non-negative |
| Denominators.UncoveredTaskSteps | ned.py:259-265 | two concrete steps towards interactions that lie between events |
| Denominators.UncoveredFinalSteps | ned.py:273-276 | two concrete steps after the interactions are used up |
| Denominators.SweepRunTotals | ned.py:238-276 | the bookkeeping sweep finishes exactly when the sweep does, and its final state holds the sweep's totals |
| Denominators.StepTaskBound | ned.py:259-272 | one step adds at most the window length to the task total |
| Denominators.StepConserves | ned.py:243-276 | on a sorted, covered trace an outage jump skips more than the threshold; a step that stays in the trace adds to the two totals together the time it advances less what it skips |
| Denominators.SweepConserves | ned.py:238-276 | on a sorted, covered trace a sweep that stops inside the trace adds to the two totals together the time from its first to its last position less the skipped outage gaps |
| Denominators.SweepTaskBound | ned.py:238-276 | a sweep adds at most one window length per step to the task total |
| Denominators.TotalsConserve | ned.py:238-276 | from the start, the totals together equal the time from the first event to the stopping position less the skipped outage gaps, and the task total is at most one window per step |
| Denominators.SkippedInteractionJump | ned.py:248-265 | two concrete steps: an outage jump past two interactions, then a step onto the next one |
| Denominators.SkippedInteractionEnd | ned.py:243-276 | two concrete steps after the interactions are used up |
| Denominators.SkippedInteractionSweep | ned.py:238-276 | on the sorted, covered trace [0, 1, 11, 12, 20] with interactions [0, 1, 12] the totals are 1 and 8 |
| Denominators.UncoveredGoesNegative | ned.py:259-265 | without the covering assumption the task total can be negative: trace [0, 100, 200], interactions [10, 20] give -70 |
| Privacy.Pr | ned.py:367-369 | a match count divided by its total |
| Privacy.IsDeltaCase | ned.py:372 | one of the two match counts is zero |
| Privacy.Ratio | ned.py:375 | the larger probability over the smaller, the argument of the logarithm |
| Privacy.DeltaOf | ned.py:373 | the larger of the two probabilities |
| Privacy.RatioAtLeastOne | ned.py:374-375 | with positive totals a non-delta ratio is at least 1, so epsilon is not negative and the logarithm cannot fail |
| Privacy.Aggregate | ned.py:361-375 | zero-division exactly when a total is zero and there are results; log-domain error exactly for a non-positive ratio; otherwise epsilon and delta bound every sample's value and are attained or initial |
| Pipeline.EmptyWindowMatches | ned.py:60-66 | an accepted empty sample is matched by the gap before its window |
| Pipeline.SingleWindowMatches | ned.py:68-79 | an accepted one-element sample whose event lies strictly inside the window is matched by its own window |
| Pipeline.WindowTail | ned.py:100-104 | every delta of a window's sample after the first is the inter-arrival time at the same offset |
| Pipeline.OwnStartAccepts | ned.py:97-111 | the window of a multi-element sample drawn from a sorted trace passes all matching checks at its own start |
| Pipeline.MultiWindowMatches | ned.py:81-117 | an accepted multi-element sample is matched by its own window |
| Pipeline.GenuineInteractionsCovered | ned.py:234-276 | interactions that are genuine messages are trace events or lie past the trace's end |
| Matches.SkippedInteractionMatches | ned.py:68-79 | on the same trace the sample [0] has two task matches and none without a task |
| Pipeline.SkippedInteractionDrawn | ned.py:299-327 | on the same trace the sample [0] is drawn at the interaction 12 and labelled a task |
| Pipeline.TaskProbabilityAboveOne | ned.py:366-367 | a drawn sample's Pr(O given task) can be 2: two task matches over a task total of 1 |
| Pipeline.EstimateRate | ned.py:170-375 | one λ's run: an empty genuine trace is the only empty-trace error; no padding keeps the length; the sample count is bounded; epsilon ≥ 0 and delta ≥ 0; on a sorted trace no index error; with sorted genuine interactions no log-domain error |

## Left out

- The database, settings, command line, LaTeX output and progress printing become parameters or are dropped.
  - The genuine trace, the interactions, the rate, the outage threshold, the window length in trace units and
    `to_ts` are inputs.
  - `round(... / precision)` scaling is not modelled.
- Random numbers come from supplied lists (a model artefact):
  - `floor(expovariate(...))` draws are supplied per chunk. A list that runs out is the error `DrawsExhausted`.
  - `random.randint` window starts are supplied. Their range `[from_ts + 1, to_ts - duration]` is not enforced.
  - A positive rate's magnitude therefore does not matter. Only whether the rate is negative, zero or positive does.
- The wall-clock timeout of the sampling loop becomes the end of the supplied starts. `gc.collect` is dropped.
- Both worker pools are modelled sequentially, with chunk and sample results joined in submission order.
  - `output_messages` and `output_messages_shared` are the same list.
  - The `c_uint64` storage of the trace and of the inter-arrival times is not modelled, so a negative gap does
    not wrap around.
- Floating point becomes exact reals.
  - Epsilon is kept as exp(ε), a ratio starting at 1, rather than its logarithm.
  - The quota's `1.5 · x + 900` is compared exactly over the integers.
- Per-system iteration, split systems, the loop over the λ list and the report's traffic-increase factor are not
  part of this model.
- Denominators.DenominatorSweep: the sweep's step count is bounded by a fuel argument, because its termination is
  not evident. Running out of fuel is reported as `None` (`SweepUnfinished` in the pipeline).
- Denominators.TotalsConserve: states the totals only for a sweep that stops inside the trace. When the last step
  aims at an interaction past the trace's end, or at the virtual one past the last event, the step adds the time to
  that target, which is no event of the trace.
- Pipeline.EstimateRate: the order in which errors surface follows the stages. Its contract states the bounds and
  the excluded errors, not the full report as a function of the inputs.
- Matches.MatchMulti: no count is stated when the first delta is negative. An index error can then end the scan
  early, which a sorted trace rules out.
- Matches.ComputeMatches: like MatchMulti, no count is stated for a multi-element sample with a negative first
  delta.
- Sampler.SampleCollector.Collect: states how many samples are accepted, not which. The per-sample content is
  what Step states.
- Pipeline.SingleWindowMatches: requires the event to lie strictly inside the window. When the event lies exactly
  at the window's end, the outage check covers only the gap before it. The gap after it may then be an outage, and
  the sample need not match its own window.
