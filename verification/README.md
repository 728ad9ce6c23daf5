# benny report core in Dafny

This project models the two transformations at the heart of the benny
benchmark reporter:

- **Case results** (`getCaseResult`). One benchmark case record becomes the
  report's case result. The result holds:
  - the id, name and throughput (`ops`);
  - the relative margin of error rounded to two decimals;
  - the sample count, and a `completed` flag that is set exactly when the
    sample is non-empty;
  - a `details` block with the sample's minimum, maximum and median.
- **Suite summaries** (`getSummary`). Every case is normalised, and each
  throughput is replaced by its *distinct-preserving rounding*
  (`roundNumbersToDistinctValues`): every throughput is rounded to the
  requested number of decimals, and the search moves one decimal finer until
  rounding merges no two different throughputs. The engine's fastest and
  slowest case ids are resolved to `{ name, index }` positions. A slowest id
  that is also fastest is dropped. Every case gets a `percentSlower` measured
  against the first fastest case.

Modules:

| file | module | content |
|---|---|---|
| `numbers.dfy` | `Numbers` | JavaScript numbers (exact reals plus `Infinity`, `-Infinity`, `NaN`), `Math.round`, the `Math.round(x * 10 ** p) / 10 ** p` rounding step, `Number(x.toFixed(f))` |
| `samples.dfy` | `Samples` | sorting, `median`, `Math.min`/`Math.max` of a sample |
| `case_result.dfy` | `CaseResults` | the case record and `getCaseResult` |
| `distinct_rounding.dfy` | `DistinctRounding` | `roundNumbersToDistinctValues`, with a termination argument |
| `summary.dfy` | `Summaries` | `getSummary`: id resolution, exclusion of fastest ids from the slowest list, `percentSlower` |
| `scenarios.dfy` | `Scenarios` | worked examples proved for concrete inputs |

### Numbers

A JavaScript number is an exact `real`, or one of the three non-finite values
the report can produce:
- `Math.min()` of an empty sample is `Infinity`;
- `Math.max()` of an empty sample is `-Infinity`;
- the median of an empty sample is `NaN`;
- dividing by a zero baseline gives `Infinity`, `-Infinity` or `NaN`.

`Math.round(x)` is `floor(x + 1/2)`. `Number(x.toFixed(f))` follows section
21.1.3.3 of ECMA-262:
- the sign is split off;
- the magnitude is rounded to `f` decimals, and a tie goes to the larger
  candidate;
- magnitudes of `10 ** 21` or more are printed by `ToString` and read back
  unchanged.

### Failures and the in-place sort

`findIndex` gives -1 for an id that names no case. The next read,
`results[-1].name` or `results[-1].ops`, is `undefined.name` or
`undefined.ops` and throws a `TypeError`. With cases but no fastest id,
`fastestIndexes[0]` is `undefined`, and the baseline read
`results[undefined].ops` throws as well. `GetSummary` returns
`Err(UnknownCase(id))` for the first id whose lookup would throw, and
`Err(NoFastestCase)` for a suite with cases but no fastest id.
`Summaries.SummarySucceedsIffIdsKnown` characterises exactly when the summary
succeeds.

`median` sorts the sample array in place, and that same array is reported as
`sampleResults`. So the reported sample is in ascending order, and
`CaseResults.GetCaseResult` states this.

## Model

| member | source | states |
|---|---|---|
| Numbers.MathRoundIsNearest | src/internal/getSummary.ts:12 | `Math.round(x)` lies in `(x - 1/2, x + 1/2]` |
| Numbers.RoundTo | src/internal/getSummary.ts:12 | rounding at `p` gives a value with at most `p` decimals within half a unit of the `p`-th decimal of the input, ties upwards |
| Numbers.RoundToFixesDecimals | src/internal/getSummary.ts:12 | a value that already has at most `p` decimals is unchanged by rounding at `p` |
| Numbers.RoundToIdempotent | src/internal/getSummary.ts:12 | rounding twice at `p` equals rounding once |
| Numbers.RoundToMonotone | src/internal/getSummary.ts:12 | rounding never reverses the order of two values |
| Numbers.RoundToSeparates | src/internal/getSummary.ts:12 | two values more than one unit of the `p`-th decimal apart round to different values, in the same order |
| Numbers.RoundToFixesIntegers | src/internal/getSummary.ts:12 | a whole number is unchanged by rounding at any precision |
| Numbers.ToFixed | src/internal/getCaseResult.ts:21 | below `10 ** 21` in magnitude, `Number(x.toFixed(f))` has `f` decimals and lies within half a unit of the `f`-th decimal of `x`, a tie going away from zero; larger magnitudes come back unchanged |
| Numbers.ToFixedPercentRange | src/internal/getSummary.ts:54 | `toFixed` keeps a percentage inside `[0, 100]` |
| Samples.Insert | src/internal/getCaseResult.ts:5 | inserting into an ascending sequence keeps it ascending and adds exactly the inserted value |
| Samples.Sort | src/internal/getCaseResult.ts:5 | the sort is ascending and a permutation of the sample |
| Samples.AscendingUnique | src/internal/getCaseResult.ts:5 | two ascending arrangements of the same values are equal, so every ascending sort of the sample gives the same sequence |
| Samples.Median | src/internal/getCaseResult.ts:4-10 | the median is finite exactly when the sample is non-empty, and `NaN` otherwise |
| Samples.MedianOfAnyArrangement | src/internal/getCaseResult.ts:4-10 | the median is the middle element of any ascending arrangement of the sample for an odd count, and the mean of the two middle elements for an even one |
| Samples.MedianIgnoresOrder | src/internal/getCaseResult.ts:4-10 | reordering the sample does not change its median |
| Samples.Min | src/internal/getCaseResult.ts:32 | `Math.min` of a sample is `Infinity` exactly when the sample is empty, and otherwise an element of the sample at most every element |
| Samples.Max | src/internal/getCaseResult.ts:33 | `Math.max` of a sample is `-Infinity` exactly when the sample is empty, and otherwise an element of the sample at least every element |
| Samples.Least | src/internal/getCaseResult.ts:32 | the least element occurs in the sample and bounds every element from below |
| Samples.Greatest | src/internal/getCaseResult.ts:33 | the greatest element occurs in the sample and bounds every element from above |
| Samples.MedianWithinRange | src/internal/getCaseResult.ts:32-35 | the median of a non-empty sample lies between its minimum and maximum |
| Samples.MedianSplitsSample | src/internal/getCaseResult.ts:4-10 | at least half of the sample is at most the median, and at least half is at least the median |
| Samples.SortCounts | src/internal/getCaseResult.ts:5 | sorting keeps the number of elements at most, or at least, any value |
| CaseResults.GetCaseResult | src/internal/getCaseResult.ts:14-45 | id, name and throughput are copied; the sample count is kept; the reported sample is the case's sample in ascending order; `completed` holds exactly for a non-empty sample; the margin is `ToFixed` of the relative margin of error to two decimals: within half a hundredth, a tie rounded away from zero, and a value of magnitude at least 10^21 kept unchanged; and the engine's mean, deviation, margin of error, standard error, variance and relative margin of error are reported unchanged; the median is the sample's median, and a completed case's minimum and maximum are the least and greatest sample elements, with finite `min <= median <= max`; an empty sample gives `Infinity`, `-Infinity` and `NaN` |
| CaseResults.SampleStatsOrdered | src/internal/getCaseResult.ts:32-35 | minimum, median and maximum of a non-empty sample are in order |
| DistinctRounding.RoundAll | src/internal/getSummary.ts:11-13 | every throughput is rounded on its own, in place |
| DistinctRounding.DistinctCount | src/internal/getSummary.ts:15-16 | `new Set(s).size` is at most the length, and zero exactly for an empty list |
| DistinctRounding.RoundNumbersToDistinctValues | src/internal/getSummary.ts:7-21 | the result is as long as the input and has as many distinct values; if rounding at the requested precision already keeps them, that rounding is the result |
| DistinctRounding.RoundsAtFirstPreservingPrecision | src/internal/getSummary.ts:7-21 | the result is the rounding at the first precision, from the requested one on, whose rounding keeps the distinct count |
| DistinctRounding.RoundingKeepsDistinctions | src/internal/getSummary.ts:15-20 | two results are equal exactly when their inputs were equal |
| DistinctRounding.ShortDecimalsUnchanged | src/internal/getSummary.ts:11-20 | throughputs that already have at most the requested decimals come back unchanged |
| DistinctRounding.PreservesIffNoCollision | src/internal/getSummary.ts:15-18 | rounding keeps the distinct count exactly when it merges no two different inputs |
| DistinctRounding.RoundingNeverAddsValues | src/internal/getSummary.ts:15-16 | rounding never increases the distinct count |
| DistinctRounding.SeparatedPreserves | src/internal/getSummary.ts:18-20 | from some precision on, rounding keeps the distinct count, so the search ends |
| Summaries.Normalise | src/internal/getSummary.ts:26-28 | every case goes through `getCaseResult`, in order |
| Summaries.WithOps | src/internal/getSummary.ts:34-37 | each result keeps every field except `ops`, which becomes the rounded throughput at its position |
| Summaries.FindIndex | src/internal/getSummary.ts:41 | the first position holding the id, or -1 exactly when no result has it |
| Summaries.Without | src/internal/getSummary.ts:43-45 | an id stays in the slowest list exactly when it is not fastest; the list is never longer; a list with no excluded id is kept whole, and one with only excluded ids becomes empty |
| Summaries.WithoutKeepsOrder | src/internal/getSummary.ts:43-45 | filtering a concatenation filters each part, so with the one-id cases the kept ids come out in their original order, repetitions included |
| Summaries.PercentSlowerOf | src/internal/getSummary.ts:53-55 | a nonzero baseline gives `ToFixed` of the relative slowdown to two decimals: within half a hundredth, a tie rounded away from zero, and a slowdown of magnitude at least 10^21 kept unchanged; a zero baseline gives `-Infinity`, `Infinity` or `NaN` according to the sign of `ops` |
| Summaries.WithDiffs | src/internal/getSummary.ts:49-58 | results are kept in order; the baseline position gets 0 and every other position its slowdown against the baseline |
| Summaries.Resolve | src/internal/getSummary.ts:65-72 | the ids resolve exactly when each names a result; each entry is the name and first position of its id; a failure names an id with no result |
| Summaries.Throughputs | src/internal/getSummary.ts:31 | the throughputs of the cases, in order |
| Summaries.RoundedResults | src/internal/getSummary.ts:26-37 | one result per case, in order: the case's `getCaseResult` with `ops` replaced by the distinct-preserving rounding of all throughputs at its position |
| Summaries.RoundedThroughputs | src/internal/getSummary.ts:7-37 | every reported `ops` is its case's throughput rounded at one shared precision, the first from the requested one on that merges no two different throughputs |
| Summaries.Summarise | src/internal/getSummary.ts:39-73 | the assembly fails with `NoFastestCase` exactly when there are results but no fastest id, and with `UnknownCase` only on an id found in no result; a report has one ranked result per result and one entry per fastest id, each pointing into the results |
| Summaries.GetSummary | src/internal/getSummary.ts:23-74 | the summary fails with `NoFastestCase` exactly when there are cases but no fastest id, and with `UnknownCase` only on an id found in no result; a report keeps the suite's name, one result per case and one fastest entry per fastest id |
| Summaries.FindIndexKnown | src/internal/getSummary.ts:41 | an id is found among the results exactly when some case has it |
| Summaries.SummarySucceedsIffIdsKnown | src/internal/getSummary.ts:41-72 | the summary succeeds exactly when each fastest id, and each slowest id not also fastest, names a case, and a non-empty suite has a fastest id; a failure names an unknown id |
| Summaries.SummarySucceedsIffIdsFound | src/internal/getSummary.ts:41-72 | the summary succeeds exactly when a non-empty suite has a fastest id and every fastest id, and every remaining slowest id, is found among the results |
| Summaries.SummaryParts | src/internal/getSummary.ts:60-72 | a successful summary carries the suite name, the rounded results in order, and the resolved fastest and slowest lists |
| Summaries.AssembledParts | src/internal/getSummary.ts:60-72 | a successful assembly carries the given results in order and the resolved fastest and slowest lists |
| Summaries.SummarySlowestCount | src/internal/getSummary.ts:43-47 | there is one slowest entry per slowest id that is not also fastest |
| Summaries.SummaryKeepsCases | src/internal/getSummary.ts:26-37 | in a successful summary, results follow the cases in order, differ from `getCaseResult` only in `ops`, and two results have equal `ops` exactly when their cases had equal throughput |
| Summaries.SummaryEntriesResolveIds | src/internal/getSummary.ts:39-47 | in a successful summary, each fastest and slowest entry is the first result with the listed id, named after it, in the order of the id lists |
| Summaries.AssembledEntries | src/internal/getSummary.ts:39-47 | the same for an assembly from any results |
| Summaries.SummaryFastestSlowestDisjoint | src/internal/getSummary.ts:43-45 | no position is listed both as fastest and as slowest |
| Summaries.SummaryTotalTie | src/internal/getSummary.ts:43-45 | when every slowest case is also fastest, a successful summary lists no slowest case |
| Summaries.SummaryBaseline | src/internal/getSummary.ts:49-58 | in a successful summary of a non-empty suite, `percentSlower` is 0 at the first fastest case and the slowdown against its rounded `ops` everywhere else |
| Summaries.AssembledBaseline | src/internal/getSummary.ts:49-58 | the same for an assembly from any non-empty results |
| Summaries.PercentSlowerRange | src/internal/getSummary.ts:53-55 | against a positive baseline at least as large, `percentSlower` is between 0 and 100 |
| Scenarios.OddMedianExample | src/internal/getCaseResult.ts:4-10 | every arrangement of `[1, 2, 3]` has median 2 |
| Scenarios.EvenMedianExample | src/internal/getCaseResult.ts:4-10 | every arrangement of `[1, 2, 3, 4]` has median 2.5 |
| Scenarios.EscalationExample | src/internal/getSummary.ts:7-21 | `[1.001, 1.002]` collide at two decimals and come back exactly at three |
| Scenarios.WholeThroughputsUnchanged | src/internal/getSummary.ts:30-37 | whole throughputs are reported unrounded at any precision |
| Scenarios.RaceOps | src/internal/getSummary.ts:30-37 | the throughputs 100, 50 and 25 are reported unrounded at any precision |
| Scenarios.RaceEntries | src/internal/getSummary.ts:39-72 | with case 0 fastest and case 2 slowest, the entries are at positions 0 and 2 |
| Scenarios.RaceSlowdowns | src/internal/getSummary.ts:53-55 | against 100, the throughputs 50 and 25 are 50 % and 75 % slower |
| Scenarios.RaceExample | src/internal/getSummary.ts:23-74 | throughputs 100, 50 and 25 with case 0 fastest and case 2 slowest give slowdowns 0, 50 and 75 and entries at positions 0 and 2, whatever the cases' statistics |
| Scenarios.UnknownFastestExample | src/internal/getSummary.ts:65-68 | a fastest id that names no case makes the summary fail on that id |
| Scenarios.NoFastestExample | src/internal/getSummary.ts:49-55 | cases with no fastest id leave no baseline, and the summary fails |
| Scenarios.TieSucceeds | src/internal/getSummary.ts:39-47 | when all cases are fastest and slowest, every id resolves and the summary succeeds |
| Scenarios.TieExample | src/internal/getSummary.ts:43-45 | when all cases are fastest and slowest, no slowest entry is listed |

## Left out

- The `options` block and the `promise` field of a case result are plain copies of engine fields. They are not modelled.
- The summary's `date`, built from the event's timestamp, is a clock value and is not modelled.
- The engine's `filter('fastest')` and `filter('slowest')` are foreign calls. Their id lists are inputs of `Summaries.Suite`.
- Selecting the cases by their numeric keys (`Object.entries` with a numeric-key filter) is not modelled. The cases arrive as an ordered sequence.
- IEEE 754 double arithmetic is not modelled. Numbers are exact reals, so the model has no floating-point error in `num * 10 ** precision`, in the division by the baseline, or in `toFixed`'s decimal expansion. It also has no signed zero.
- A non-finite throughput is not modelled: `hz` is a finite real.
- `Math.min(...sample)` and `Math.max(...sample)` pass the sample as call arguments. A JavaScript engine can refuse a very long argument list. The model has no such limit.
- `median` sorts the case's own sample array in place. The model does not mutate the input record. The one effect the report shows, a sorted `sampleResults`, is modelled.
- DistinctRounding.RoundNumbersToDistinctValues: `precision` is modelled as a natural number. The source accepts any number (src/internal/getSummary.ts:5, 9); negative and fractional precisions are not modelled.
- DistinctRounding.RoundNumbersToDistinctValues: on doubles the search need not end. From precision 309 on, `10 ** precision` is `Infinity`, every rounding is `NaN`, and a `Set` counts all of them as one value. With two or more distinct throughputs, the recursion then goes on until the stack overflows. On reals the search always ends: the function is total, with a termination measure Dafny checks.
- CaseResults.GetCaseResult: the unwrap `event.target || event` (src/internal/getCaseResult.ts:15) is not modelled; the function takes the benchmark target directly.
- Samples.Median: the comparator `a < b ? -1 : 1` is not a consistent comparator, because it returns 1 for two equal values in either order. The ECMA-262 definition of `Array.prototype.sort` then leaves the order of the sorted array implementation-defined. The model assumes the engine returns the sample in ascending order. Every ascending arrangement of the same values is the same sequence (`Samples.AscendingUnique`), so the median then does not depend on the engine.
