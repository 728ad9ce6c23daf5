/**
 Per-case normalisation: `getCaseResult` turns one benchmark case record
 into the report's case result. Apart from the median it only copies and
 renames fields; the margin is the relative margin of error to two decimals.
 */
module CaseResults {
  import opened Numbers
  import opened Samples

  /** The statistics block of a benchmark case, as computed by the engine. */
  datatype Stats = Stats(
    rme: real,
    sample: seq<real>,
    mean: real,
    deviation: real,
    moe: real,
    sem: real,
    variance: real)

  /** One benchmark case as far as the report reads it. */
  datatype Target = Target(id: int, name: string, hz: real, stats: Stats)

  /** The `details` block of a case result. */
  datatype Details = Details(
    min: Num,
    max: Num,
    mean: real,
    median: Num,
    standardDeviation: real,
    marginOfError: real,
    relativeMarginOfError: real,
    standardErrorOfMean: real,
    sampleVariance: real,
    sampleResults: seq<real>)

  /** The normalised result of one case. */
  datatype CaseResult = CaseResult(
    id: int,
    name: string,
    ops: real,
    margin: real,
    samples: nat,
    details: Details,
    completed: bool)

  /** Decimal places of the reported margin. */
  const MarginDecimals: nat := 2

  /** `getCaseResult(target)`. */
  function GetCaseResult(t: Target): (r: CaseResult)
    // identity and throughput are copied unrounded
    ensures r.id == t.id && r.name == t.name && r.ops == t.hz
    // the sample is counted and kept
    ensures r.samples == |t.stats.sample|
    // `median` sorts the sample array in place before it is reported, so the
    // reported sample is the case's sample in ascending order
    ensures Ascending(r.details.sampleResults)
    ensures multiset(r.details.sampleResults) == multiset(t.stats.sample)
    ensures r.completed <==> |t.stats.sample| > 0
    // the margin is the relative margin of error to two decimals; the raw value is kept
    ensures r.details.relativeMarginOfError == t.stats.rme
    // the engine's other statistics are reported as they are
    ensures r.details.mean == t.stats.mean && r.details.standardDeviation == t.stats.deviation
    ensures r.details.marginOfError == t.stats.moe && r.details.standardErrorOfMean == t.stats.sem
    ensures r.details.sampleVariance == t.stats.variance
    ensures r.margin == ToFixed(t.stats.rme, MarginDecimals)
    ensures -ToFixedLimit < t.stats.rme < ToFixedLimit ==>
              HasDecimals(r.margin, 2) && t.stats.rme - 0.005 <= r.margin <= t.stats.rme + 0.005
    // a tie goes away from zero, and huge values come back unchanged
    ensures 0.0 <= t.stats.rme < ToFixedLimit ==> t.stats.rme - 0.005 < r.margin
    ensures -ToFixedLimit < t.stats.rme < 0.0 ==> r.margin < t.stats.rme + 0.005
    ensures t.stats.rme <= -ToFixedLimit || ToFixedLimit <= t.stats.rme ==> r.margin == t.stats.rme
    // the minimum, maximum and median are those of the sample
    ensures r.details.median == Median(t.stats.sample)
    ensures r.completed ==> r.details.min == Finite(Least(t.stats.sample)) && r.details.max == Finite(Greatest(t.stats.sample))
    // the statistics of a completed case are finite and ordered
    ensures r.completed ==> r.details.min.Finite? && r.details.max.Finite? && r.details.median.Finite?
    ensures r.completed ==> r.details.min.value <= r.details.median.value <= r.details.max.value
    // an empty sample leaves them as the non-finite values JavaScript produces
    ensures !r.completed ==> r.details.min == PosInf && r.details.max == NegInf && r.details.median == NaN
  {
    var sample := t.stats.sample;
    TwoDecimals(t.stats.rme);
    SampleStatsOrdered(sample);
    CaseResult(
      t.id,
      t.name,
      t.hz,
      ToFixed(t.stats.rme, MarginDecimals),
      |sample|,
      Details(
        Min(sample),
        Max(sample),
        t.stats.mean,
        Median(sample),
        t.stats.deviation,
        t.stats.moe,
        t.stats.rme,
        t.stats.sem,
        t.stats.variance,
        Sort(sample)),
      |sample| > 0)
  }

  /**
   `Number(x.toFixed(2))` has two decimals and is within half a hundredth of
   `x`, a tie going away from zero.
   */
  lemma TwoDecimals(x: real)
    ensures -ToFixedLimit < x < ToFixedLimit ==>
              HasDecimals(ToFixed(x, 2), 2) && x - 0.005 <= ToFixed(x, 2) <= x + 0.005
    ensures 0.0 <= x < ToFixedLimit ==> x - 0.005 < ToFixed(x, 2)
    ensures -ToFixedLimit < x < 0.0 ==> ToFixed(x, 2) < x + 0.005
  {
    assert Pow10(2) == 100.0;
  }

  /** Minimum, median and maximum of a sample, in order when it is non-empty. */
  lemma SampleStatsOrdered(sample: seq<real>)
    ensures |sample| > 0 ==> Min(sample).value <= Median(sample).value <= Max(sample).value
  {
    if |sample| > 0 {
      MedianWithinRange(sample);
    }
  }
}
