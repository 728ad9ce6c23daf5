/**
 Worked examples of the report's documented behaviour, each proved for the
 concrete input.
 */
module Scenarios {
  import opened Numbers
  import opened Samples
  import opened CaseResults
  import opened DistinctRounding
  import opened Summaries

  /** Any arrangement of `[1, 2, 3]` has median 2. */
  lemma OddMedianExample(sample: seq<real>)
    requires multiset(sample) == multiset{1.0, 2.0, 3.0}
    ensures Median(sample) == Finite(2.0)
  {
    var d := [1.0, 2.0, 3.0];
    assert Ascending(d);
    assert multiset(d) == multiset{1.0, 2.0, 3.0};
    MedianOfAnyArrangement(sample, d);
  }

  /** Any arrangement of `[1, 2, 3, 4]` has median 2.5, the mean of the two middle elements. */
  lemma EvenMedianExample(sample: seq<real>)
    requires multiset(sample) == multiset{1.0, 2.0, 3.0, 4.0}
    ensures Median(sample) == Finite(2.5)
  {
    var d := [1.0, 2.0, 3.0, 4.0];
    assert Ascending(d);
    assert multiset(d) == multiset{1.0, 2.0, 3.0, 4.0};
    MedianOfAnyArrangement(sample, d);
  }

  /**
   `[1.001, 1.002]` both round to 1.00 at two decimals, so the search moves
   to three decimals, where both are kept exactly.
   */
  lemma EscalationExample()
    ensures RoundNumbersToDistinctValues([1.001, 1.002], 2) == [1.001, 1.002]
  {
    var numbers := [1.001, 1.002];
    assert Elements(numbers) == {1.001, 1.002};
    assert RoundTo(1.001, 2) == 1.0 && RoundTo(1.002, 2) == 1.0;
    assert Elements(RoundAll(numbers, 2)) == {1.0};
    assert !Preserves(numbers, 2);
    assert HasDecimals(1.001, 3) && HasDecimals(1.002, 3);
    ShortDecimalsUnchanged(numbers, 3);
  }

  /** A case with the given id and throughput; its statistics do not matter to the summary. */
  function Case(id: int, hz: real, stats: Stats): Target
  {
    Target(id, "case", hz, stats)
  }

  lemma WholeThroughputsUnchanged(cases: seq<Target>, precision: nat)
    requires forall i :: 0 <= i < |cases| ==> cases[i].hz == cases[i].hz.Floor as real
    ensures RoundedResults(cases, precision) == Normalise(cases)
  {
    var unrounded := Normalise(cases);
    var ops := OpsOf(unrounded);
    forall i | 0 <= i < |ops|
      ensures HasDecimals(ops[i], precision)
    {
      IntegerHasDecimals(cases[i].hz.Floor, precision);
    }
    ShortDecimalsUnchanged(ops, precision);
    assert WithOps(unrounded, ops) == unrounded;
  }

  /** Three whole throughputs; case 0 is fastest and case 2 slowest. */
  function RaceSuite(fastestIds: seq<int>, slowestIds: seq<int>, stats: Stats): Suite
  {
    Suite("race", [Case(0, 100.0, stats), Case(1, 50.0, stats), Case(2, 25.0, stats)], fastestIds, slowestIds)
  }

  /** The race's results keep the cases' ids and names, in order. */
  lemma RaceIds(fastestIds: seq<int>, slowestIds: seq<int>, stats: Stats, precision: nat)
    ensures var rs := RoundedResults(RaceSuite(fastestIds, slowestIds, stats).cases, precision);
            && |rs| == 3
            && rs[0].id == 0 && rs[1].id == 1 && rs[2].id == 2
            && rs[0].name == "case" && rs[2].name == "case"
  {
  }

  /** The race's whole throughputs come back unrounded. */
  lemma RaceOps(fastestIds: seq<int>, slowestIds: seq<int>, stats: Stats, precision: nat)
    ensures var rs := RoundedResults(RaceSuite(fastestIds, slowestIds, stats).cases, precision);
            rs[0].ops == 100.0 && rs[1].ops == 50.0 && rs[2].ops == 25.0
  {
    var cases := RaceSuite(fastestIds, slowestIds, stats).cases;
    var hzs := Throughputs(cases);
    assert hzs == [100.0, 50.0, 25.0];
    IntegerHasDecimals(100, precision);
    IntegerHasDecimals(50, precision);
    IntegerHasDecimals(25, precision);
    ShortDecimalsUnchanged(hzs, precision);
  }

  /** Results holding the ids 0, 1 and 2 in order are found at their own positions. */
  lemma FoundAtOwnPositions(results: seq<CaseResult>)
    requires |results| == 3 && results[0].id == 0 && results[1].id == 1 && results[2].id == 2
    ensures FindIndex(results, 0) == 0 && FindIndex(results, 1) == 1 && FindIndex(results, 2) == 2
    ensures AllFound(results, [0, 1, 2])
  {
    assert FindIndex(results[2..], 2) == 0;
    assert FindIndex(results[1..], 2) == 1 && FindIndex(results[1..], 1) == 0;
  }

  /** In such results no id other than 0, 1 and 2 is found. */
  lemma OnlyOwnIdsFound(results: seq<CaseResult>)
    requires |results| == 3 && results[0].id == 0 && results[1].id == 1 && results[2].id == 2
    ensures forall id :: id < 0 || id > 2 ==> FindIndex(results, id) == -1
  {
    forall id | id < 0 || id > 2
      ensures FindIndex(results, id) == -1
    {
      assert results[0].id != id && results[1].id != id && results[2].id != id;
    }
  }

  /**
   Whole throughputs are reported unrounded; the fastest and slowest ids
   resolve to positions, and the others are 50 % and 75 % slower.
   */
  lemma RaceExample(stats: Stats, precision: nat)
    ensures var r := GetSummary(RaceSuite([0], [2], stats), precision);
            && r.Ok?
            && r.value.fastest == [Entry("case", 0)]
            && r.value.slowest == [Entry("case", 2)]
            && |r.value.results| == 3
            && r.value.results[0].percentSlower == Finite(0.0)
            && r.value.results[1].percentSlower == Finite(50.0)
            && r.value.results[2].percentSlower == Finite(75.0)
  {
    var suite := RaceSuite([0], [2], stats);
    RaceEntries(stats, precision);
    RaceOps([0], [2], stats, precision);
    SummaryParts(suite, precision);
    SummaryBaseline(suite, precision);
    RaceSlowdowns();
  }

  /** The race's fastest and slowest ids resolve to the first and the last case. */
  lemma RaceEntries(stats: Stats, precision: nat)
    ensures var r := GetSummary(RaceSuite([0], [2], stats), precision);
            && r.Ok?
            && r.value.fastest == [Entry("case", 0)]
            && r.value.slowest == [Entry("case", 2)]
  {
    var suite := RaceSuite([0], [2], stats);
    RaceIds([0], [2], stats, precision);
    var results := RoundedResults(suite.cases, precision);
    RaceResolves(results);
    assert Without([2], [0]) == [2];
    SummarySucceedsIffIdsFound(suite, precision);
    SummaryParts(suite, precision);
  }

  /** In the race's results, id 0 resolves to the first case and id 2 to the last. */
  lemma RaceResolves(results: seq<CaseResult>)
    requires |results| == 3 && results[0].id == 0 && results[1].id == 1 && results[2].id == 2
    requires results[0].name == "case" && results[2].name == "case"
    ensures AllFound(results, [0]) && AllFound(results, [2])
    ensures Resolve(results, [0]) == Ok([Entry("case", 0)])
    ensures Resolve(results, [2]) == Ok([Entry("case", 2)])
  {
    FoundAtOwnPositions(results);
    assert AllFound(results, [0]) && AllFound(results, [2]);
    var fastest, slowest := Resolve(results, [0]), Resolve(results, [2]);
    assert |fastest.value| == 1 && fastest.value[0] == Entry("case", 0);
    assert |slowest.value| == 1 && slowest.value[0] == Entry("case", 2);
    assert fastest.value == [Entry("case", 0)] && slowest.value == [Entry("case", 2)];
  }

  /** Against 100 operations per second, 50 and 25 are 50 % and 75 % slower. */
  lemma RaceSlowdowns()
    ensures PercentSlowerOf(50.0, 100.0) == Finite(50.0)
    ensures PercentSlowerOf(25.0, 100.0) == Finite(75.0)
  {
    assert (1.0 - 50.0 / 100.0) * 100.0 == 50 as real;
    assert (1.0 - 25.0 / 100.0) * 100.0 == 75 as real;
    RoundToFixesIntegers(50, PercentDecimals);
    RoundToFixesIntegers(75, PercentDecimals);
  }

  /** A fastest id that names no case makes the summary fail on that id. */
  lemma UnknownFastestExample(stats: Stats, precision: nat)
    ensures GetSummary(RaceSuite([7], [2], stats), precision) == Err(UnknownCase(7))
  {
    RaceIds([7], [2], stats, precision);
    OnlyOwnIdsFound(RoundedResults(RaceSuite([7], [2], stats).cases, precision));
  }

  /** Cases without any fastest id leave no case to compare against. */
  lemma NoFastestExample(stats: Stats, precision: nat)
    ensures GetSummary(RaceSuite([], [2], stats), precision) == Err(NoFastestCase)
  {
  }

  /** When every case ties, all are fastest and none is listed as slowest. */
  lemma TieExample(stats: Stats, precision: nat)
    ensures var r := GetSummary(RaceSuite([0, 1, 2], [0, 1, 2], stats), precision);
            r.Ok? && |r.value.fastest| == 3 && r.value.slowest == []
  {
    var suite := RaceSuite([0, 1, 2], [0, 1, 2], stats);
    TieSucceeds(stats, precision);
    SummaryTotalTie(suite, precision);
  }

  /** Every id of the tie names a case, so the tie has a report. */
  lemma TieSucceeds(stats: Stats, precision: nat)
    ensures GetSummary(RaceSuite([0, 1, 2], [0, 1, 2], stats), precision).Ok?
  {
    var suite := RaceSuite([0, 1, 2], [0, 1, 2], stats);
    RaceIds([0, 1, 2], [0, 1, 2], stats, precision);
    FoundAtOwnPositions(RoundedResults(suite.cases, precision));
    assert Without([0, 1, 2], [0, 1, 2]) == [];
    SummarySucceedsIffIdsFound(suite, precision);
  }
}
