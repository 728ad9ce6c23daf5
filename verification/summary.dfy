/**
 Suite summarisation: `getSummary` normalises every case, replaces each
 throughput by its distinct-preserving rounding, resolves the engine's
 fastest and slowest case ids to positions in the results, and computes how
 much slower every case is than the first fastest one.

 The benchmarking engine's `filter('fastest')` and `filter('slowest')` are
 foreign calls; their id lists are inputs here. The cases arrive as an
 ordered sequence, the order of the engine's numeric keys.
 */
module Summaries {
  import opened Numbers
  import opened CaseResults
  import opened DistinctRounding

  /** What the summary reads from the suite-completion event. */
  datatype Suite = Suite(name: string, cases: seq<Target>, fastestIds: seq<int>, slowestIds: seq<int>)

  /** A case result with the `percentSlower` field added. */
  datatype Ranked = Ranked(result: CaseResult, percentSlower: Num)

  /** A `{ name, index }` pair of the fastest or slowest list. */
  datatype Entry = Entry(name: string, index: int)

  /** The report of one suite run. The event's timestamp is not modelled. */
  datatype Summary = Summary(name: string, results: seq<Ranked>, fastest: seq<Entry>, slowest: seq<Entry>)

  /**
   The `TypeError`s `getSummary` can throw: a case to compare against is
   needed but the fastest list is empty (`results[undefined].ops`), or an id
   of the fastest or slowest list names no case (`results[-1].name`).
   */
  datatype SummaryError = NoFastestCase | UnknownCase(id: int)

  datatype Result<T> = Ok(value: T) | Err(error: SummaryError)

  /** Decimal places of `percentSlower`. */
  const PercentDecimals: nat := 2

  // ---------------------------------------------------------------------
  // The steps of getSummary

  /** Every case through `getCaseResult`, in the suite's order. */
  function Normalise(cases: seq<Target>): (rs: seq<CaseResult>)
    ensures |rs| == |cases|
    ensures forall i :: 0 <= i < |cases| ==> rs[i] == GetCaseResult(cases[i])
  {
    seq(|cases|, i requires 0 <= i < |cases| => GetCaseResult(cases[i]))
  }

  /** The `ops` column of the results. */
  function OpsOf(results: seq<CaseResult>): (ops: seq<real>)
    ensures |ops| == |results|
    ensures forall i :: 0 <= i < |results| ==> ops[i] == results[i].ops
  {
    seq(|results|, i requires 0 <= i < |results| => results[i].ops)
  }

  /** `{ ...result, ops: roundedOps[index] }` for every result. */
  function WithOps(results: seq<CaseResult>, ops: seq<real>): (rs: seq<CaseResult>)
    requires |ops| == |results|
    ensures |rs| == |results|
    ensures forall i :: 0 <= i < |results| ==> rs[i] == results[i].(ops := ops[i])
  {
    seq(|results|, i requires 0 <= i < |results| => results[i].(ops := ops[i]))
  }

  /** `results.findIndex(c => c.id === id)`: the first position holding `id`, or -1. */
  function FindIndex(results: seq<CaseResult>, id: int): (k: int)
    ensures -1 <= k < |results|
    ensures k == -1 <==> forall i :: 0 <= i < |results| ==> results[i].id != id
    ensures k >= 0 ==> results[k].id == id
    ensures k >= 0 ==> forall i :: 0 <= i < k ==> results[i].id != id
  {
    if |results| == 0 then -1
    else if results[0].id == id then 0
    else
      var k := FindIndex(results[1..], id);
      if k == -1 then -1 else k + 1
  }

  /** `ids.filter(id => !excluded.includes(id))`. */
  function Without(ids: seq<int>, excluded: seq<int>): (r: seq<int>)
    ensures forall id :: id in r <==> id in ids && id !in excluded
    ensures |r| <= |ids|
    ensures (forall i :: 0 <= i < |ids| ==> ids[i] !in excluded) ==> r == ids
    ensures (forall i :: 0 <= i < |ids| ==> ids[i] in excluded) ==> r == []
  {
    if |ids| == 0 then []
    else
      var rest := Without(ids[1..], excluded);
      assert ids == [ids[0]] + ids[1..];
      if ids[0] in excluded then rest else [ids[0]] + rest
  }

  /**
   `Number(((1 - ops / baseline) * 100).toFixed(2))`. A zero baseline
   divides by zero: a positive `ops` gives `-Infinity`, a negative one
   `Infinity` and zero gives `NaN`.
   */
  function PercentSlowerOf(ops: real, baseline: real): (r: Num)
    ensures r.Finite? <==> baseline != 0.0
    ensures baseline == 0.0 ==> (r == NaN <==> ops == 0.0) && (r == NegInf <==> ops > 0.0)
    ensures baseline != 0.0 && -ToFixedLimit < (1.0 - ops / baseline) * 100.0 < ToFixedLimit ==>
              && HasDecimals(r.value, PercentDecimals)
              && (1.0 - ops / baseline) * 100.0 - 0.005 <= r.value <= (1.0 - ops / baseline) * 100.0 + 0.005
    // a tie goes away from zero, and huge values come back unchanged
    ensures baseline != 0.0 && 0.0 <= (1.0 - ops / baseline) * 100.0 < ToFixedLimit ==>
              (1.0 - ops / baseline) * 100.0 - 0.005 < r.value
    ensures baseline != 0.0 && -ToFixedLimit < (1.0 - ops / baseline) * 100.0 < 0.0 ==>
              r.value < (1.0 - ops / baseline) * 100.0 + 0.005
    ensures baseline != 0.0 && !(-ToFixedLimit < (1.0 - ops / baseline) * 100.0 < ToFixedLimit) ==>
              r.value == (1.0 - ops / baseline) * 100.0
    ensures r.Finite? ==> r.value == ToFixed((1.0 - ops / baseline) * 100.0, PercentDecimals)
  {
    if baseline == 0.0 then
      if ops > 0.0 then NegInf else if ops < 0.0 then PosInf else NaN
    else
      var percent := (1.0 - ops / baseline) * 100.0;
      TwoDecimals(percent);
      Finite(ToFixed(percent, PercentDecimals))
  }

  /** Adds `percentSlower` to every result, measured against the result at `base`. */
  function WithDiffs(results: seq<CaseResult>, base: nat): (rs: seq<Ranked>)
    requires base < |results|
    ensures |rs| == |results|
    ensures forall i :: 0 <= i < |results| ==> rs[i].result == results[i]
    ensures rs[base].percentSlower == Finite(0.0)
    ensures forall i :: 0 <= i < |results| && i != base ==>
              rs[i].percentSlower == PercentSlowerOf(results[i].ops, results[base].ops)
  {
    seq(|results|, i requires 0 <= i < |results| =>
      Ranked(results[i], if i == base then Finite(0.0) else PercentSlowerOf(results[i].ops, results[base].ops)))
  }

  /** `ids.map(id => findIndex(id)).map(index => ({ name: results[index].name, index }))`. */
  function Resolve(results: seq<CaseResult>, ids: seq<int>): (r: Result<seq<Entry>>)
    ensures r.Ok? <==> AllFound(results, ids)
    ensures r.Ok? ==> |r.value| == |ids|
    ensures r.Ok? ==> forall k :: 0 <= k < |ids| ==>
              r.value[k] == Entry(results[FindIndex(results, ids[k])].name, FindIndex(results, ids[k]))
    ensures r.Err? ==> r.error.UnknownCase? && r.error.id in ids && FindIndex(results, r.error.id) == -1
  {
    if |ids| == 0 then Ok([])
    else
      var k := FindIndex(results, ids[0]);
      if k == -1 then Err(UnknownCase(ids[0]))
      else
        match Resolve(results, ids[1..])
        case Err(e) => Err(e)
        case Ok(rest) =>
          assert forall j :: 1 <= j < |ids| ==> ids[j] == ids[1..][j - 1];
          Ok([Entry(results[k].name, k)] + rest)
  }

  /** The throughput of every case, in order. */
  function Throughputs(cases: seq<Target>): (hzs: seq<real>)
    ensures |hzs| == |cases|
    ensures forall i :: 0 <= i < |cases| ==> hzs[i] == cases[i].hz
  {
    seq(|cases|, i requires 0 <= i < |cases| => cases[i].hz)
  }

  /**
   The results of a suite before `percentSlower` is added: each case's
   `getCaseResult` with `ops` replaced by the distinct-preserving rounding of
   the throughputs at its position.
   */
  function RoundedResults(cases: seq<Target>, precision: nat): (rs: seq<CaseResult>)
    ensures |rs| == |cases|
    ensures forall i :: 0 <= i < |rs| ==> rs[i].id == cases[i].id && rs[i].name == cases[i].name
    ensures forall i {:trigger GetCaseResult(cases[i])} :: 0 <= i < |rs| ==>
              rs[i] == GetCaseResult(cases[i]).(ops := rs[i].ops)
    ensures forall i :: 0 <= i < |rs| ==>
              rs[i].ops == RoundNumbersToDistinctValues(Throughputs(cases), precision)[i]
  {
    assert OpsOf(Normalise(cases)) == Throughputs(cases);
    var unrounded := Normalise(cases);
    WithOps(unrounded, RoundNumbersToDistinctValues(OpsOf(unrounded), precision))
  }

  /**
   The report assembled from the rounded results: `percentSlower` against the
   first fastest case, and the fastest and slowest ids resolved to entries.
   It fails with `NoFastestCase` exactly when there are results but no
   fastest id, and with `UnknownCase` only on an id that names no result; a
   report has one ranked result per result and one entry per fastest id,
   each pointing into the results.
   */
  function Summarise(name: string, results: seq<CaseResult>, fastestIds: seq<int>, slowestIds: seq<int>)
    : (r: Result<Summary>)
    ensures r == Err(NoFastestCase) <==> |results| > 0 && |fastestIds| == 0
    ensures r.Err? && r.error.UnknownCase? ==> FindIndex(results, r.error.id) == -1
    ensures r.Ok? ==> && r.value.name == name
                      && |r.value.results| == |results|
                      && |r.value.fastest| == |fastestIds|
                      && forall k :: 0 <= k < |r.value.fastest| ==> 0 <= r.value.fastest[k].index < |results|
  {
    if |results| > 0 && |fastestIds| == 0 then Err(NoFastestCase)
    else if |results| > 0 && FindIndex(results, fastestIds[0]) == -1 then
      Err(UnknownCase(fastestIds[0]))
    else
      var ranked := if |results| == 0 then [] else WithDiffs(results, FindIndex(results, fastestIds[0]));
      match Resolve(results, fastestIds)
      case Err(e) => Err(e)
      case Ok(fastest) =>
        match Resolve(results, Without(slowestIds, fastestIds))
        case Err(e) => Err(e)
        case Ok(slowest) => Ok(Summary(name, ranked, fastest, slowest))
  }

  /**
   `getSummary(event, precision)`: the report of the suite's rounded results.
   It fails with `NoFastestCase` exactly when there are cases but no fastest
   id, and with `UnknownCase` only on an id that names no case; a report keeps
   the suite's name, one result per case and one fastest entry per fastest id.
   */
  function GetSummary(suite: Suite, precision: nat): (r: Result<Summary>)
    ensures r == Err(NoFastestCase) <==> |suite.cases| > 0 && |suite.fastestIds| == 0
    ensures r.Err? && r.error.UnknownCase? ==>
              FindIndex(RoundedResults(suite.cases, precision), r.error.id) == -1
    ensures r.Ok? ==> && r.value.name == suite.name
                      && |r.value.results| == |suite.cases|
                      && |r.value.fastest| == |suite.fastestIds|
  {
    Summarise(suite.name, RoundedResults(suite.cases, precision), suite.fastestIds, suite.slowestIds)
  }

  // ---------------------------------------------------------------------
  // Properties of the steps

  /**
   The filter keeps the order and the repetitions of the ids: filtering a
   concatenation filters each part. With the single-id cases of `Without`'s
   contract, this pins the result down to exactly the ids kept, in order.
   */
  lemma {:induction false} WithoutKeepsOrder(a: seq<int>, b: seq<int>, excluded: seq<int>)
    ensures Without(a + b, excluded) == Without(a, excluded) + Without(b, excluded)
  {
    if |a| == 0 {
      assert a + b == b;
    } else {
      var ab := a + b;
      assert ab[0] == a[0] && ab[1..] == a[1..] + b;
      WithoutKeepsOrder(a[1..], b, excluded);
    }
  }

  /**
   Every reported `ops` is the rounding of its case's throughput at one
   precision: the first precision, from the requested one on, that merges no
   two different throughputs.
   */
  lemma RoundedThroughputs(cases: seq<Target>, precision: nat)
    ensures exists p :: && FirstPreserving(Throughputs(cases), precision, p)
                        && forall i :: 0 <= i < |cases| ==>
                             RoundedResults(cases, precision)[i].ops == RoundTo(cases[i].hz, p)
  {
    var hzs := Throughputs(cases);
    RoundsAtFirstPreservingPrecision(hzs, precision);
    var p :| FirstPreserving(hzs, precision, p) && RoundNumbersToDistinctValues(hzs, precision) == RoundAll(hzs, p);
    assert forall i :: 0 <= i < |cases| ==> RoundedResults(cases, precision)[i].ops == RoundTo(cases[i].hz, p);
  }

  // ---------------------------------------------------------------------
  // Properties of the summary

  /** Some case of the suite has this id. */
  ghost predicate Known(cases: seq<Target>, id: int)
  {
    exists i :: 0 <= i < |cases| && cases[i].id == id
  }

  lemma FindIndexKnown(suite: Suite, precision: nat, id: int)
    ensures FindIndex(RoundedResults(suite.cases, precision), id) >= 0 <==> Known(suite.cases, id)
  {
    FoundIffKnown(RoundedResults(suite.cases, precision), suite.cases, id);
  }

  /** Results carrying the cases' ids find exactly the known ids. */
  lemma FoundIffKnown(results: seq<CaseResult>, cases: seq<Target>, id: int)
    requires |results| == |cases|
    requires forall i :: 0 <= i < |results| ==> results[i].id == cases[i].id
    ensures FindIndex(results, id) >= 0 <==> Known(cases, id)
  {
    if Known(cases, id) {
      var i :| 0 <= i < |cases| && cases[i].id == id;
      assert results[i].id == id;
    }
  }

  /**
   The summary fails exactly when a lookup of the source would throw: the
   suite has cases but no fastest id, or some fastest id, or some slowest id
   that is not also fastest, names no case.
   */
  lemma SummarySucceedsIffIdsKnown(suite: Suite, precision: nat)
    ensures GetSummary(suite, precision).Ok? <==>
              && (|suite.cases| > 0 ==> |suite.fastestIds| > 0)
              && (forall id :: id in suite.fastestIds ==> Known(suite.cases, id))
              && (forall id :: id in suite.slowestIds && id !in suite.fastestIds ==> Known(suite.cases, id))
    ensures GetSummary(suite, precision).Err? && GetSummary(suite, precision).error.UnknownCase? ==>
              !Known(suite.cases, GetSummary(suite, precision).error.id)
  {
    var results := RoundedResults(suite.cases, precision);
    var slowestIds := Without(suite.slowestIds, suite.fastestIds);
    SummarySucceedsIffIdsFound(suite, precision);
    forall id | true
      ensures FindIndex(results, id) >= 0 <==> Known(suite.cases, id)
    {
      FindIndexKnown(suite, precision, id);
    }
    AllFoundIffKnown(results, suite.cases, suite.fastestIds);
    AllFoundIffKnown(results, suite.cases, slowestIds);
  }

  /** Every id of the list names some result. */
  predicate AllFound(results: seq<CaseResult>, ids: seq<int>)
  {
    forall k :: 0 <= k < |ids| ==> FindIndex(results, ids[k]) >= 0
  }

  /** Every id of a list is found exactly when every id of it is known. */
  lemma AllFoundIffKnown(results: seq<CaseResult>, cases: seq<Target>, ids: seq<int>)
    requires forall id :: FindIndex(results, id) >= 0 <==> Known(cases, id)
    ensures AllFound(results, ids) <==> (forall id :: id in ids ==> Known(cases, id))
  {
  }

  /** `SummarySucceedsIffIdsKnown` in terms of the lookups themselves. */
  lemma SummarySucceedsIffIdsFound(suite: Suite, precision: nat)
    ensures GetSummary(suite, precision).Ok? <==>
              && (|suite.cases| > 0 ==> |suite.fastestIds| > 0)
              && AllFound(RoundedResults(suite.cases, precision), suite.fastestIds)
              && AllFound(RoundedResults(suite.cases, precision), Without(suite.slowestIds, suite.fastestIds))
    ensures GetSummary(suite, precision).Err? && GetSummary(suite, precision).error.UnknownCase? ==>
              FindIndex(RoundedResults(suite.cases, precision), GetSummary(suite, precision).error.id) == -1
  {
    var results := RoundedResults(suite.cases, precision);
    var slowestIds := Without(suite.slowestIds, suite.fastestIds);
    var fastest := Resolve(results, suite.fastestIds);
    var slowest := Resolve(results, slowestIds);
    var r := GetSummary(suite, precision);
    if |results| > 0 && |suite.fastestIds| == 0 {
      assert r == Err(NoFastestCase);
    } else if |results| > 0 && FindIndex(results, suite.fastestIds[0]) == -1 {
      assert r == Err(UnknownCase(suite.fastestIds[0]));
    } else if fastest.Err? {
      assert r == Err(fastest.error);
      assert FindIndex(results, fastest.error.id) == -1;
    } else if slowest.Err? {
      assert r == Err(slowest.error);
      assert FindIndex(results, slowest.error.id) == -1;
    } else {
      assert r.Ok?;
    }
  }

  /**
   The results keep the suite's cases in order; only `ops` is replaced, by
   the distinct-preserving rounding of the throughputs, so two results have
   equal `ops` exactly when their cases had equal throughput.
   */
  lemma SummaryKeepsCases(suite: Suite, precision: nat)
    ensures GetSummary(suite, precision).Ok? ==>
              (var s := GetSummary(suite, precision).value;
              && |s.results| == |suite.cases|
              && s.name == suite.name
              && (forall i :: 0 <= i < |s.results| ==>
                    s.results[i].result == GetCaseResult(suite.cases[i]).(ops := s.results[i].result.ops))
              && (forall i, j :: 0 <= i < |s.results| && 0 <= j < |s.results| ==>
                    (s.results[i].result.ops == s.results[j].result.ops <==> suite.cases[i].hz == suite.cases[j].hz)))
  {
    if GetSummary(suite, precision).Ok? {
      SummaryParts(suite, precision);
      RoundingKeepsDistinctions(Throughputs(suite.cases), precision);
      var s := GetSummary(suite, precision).value;
      forall i | 0 <= i < |s.results|
        ensures s.results[i].result == GetCaseResult(suite.cases[i]).(ops := s.results[i].result.ops)
      {
        assert s.results[i].result == RoundedResults(suite.cases, precision)[i];
      }
    }
  }

  /**
   Each fastest and slowest entry names the first result with the listed id,
   in the order of the id lists; the slowest list is the engine's slowest ids
   without those that are also fastest.
   */
  lemma SummaryEntriesResolveIds(suite: Suite, precision: nat)
    ensures GetSummary(suite, precision).Ok? ==>
              (var s := GetSummary(suite, precision).value;
              var slowestIds := Without(suite.slowestIds, suite.fastestIds);
              && |s.fastest| == |suite.fastestIds|
              && |s.slowest| == |slowestIds|
              && (forall k :: 0 <= k < |s.fastest| ==>
                    && 0 <= s.fastest[k].index < |s.results|
                    && s.results[s.fastest[k].index].result.id == suite.fastestIds[k]
                    && s.fastest[k].name == s.results[s.fastest[k].index].result.name
                    && forall i :: 0 <= i < s.fastest[k].index ==> s.results[i].result.id != suite.fastestIds[k])
              && (forall k :: 0 <= k < |s.slowest| ==>
                    && 0 <= s.slowest[k].index < |s.results|
                    && s.results[s.slowest[k].index].result.id == slowestIds[k]
                    && s.slowest[k].name == s.results[s.slowest[k].index].result.name
                    && forall i :: 0 <= i < s.slowest[k].index ==> s.results[i].result.id != slowestIds[k]))
  {
    AssembledEntries(suite.name, RoundedResults(suite.cases, precision), suite.fastestIds, suite.slowestIds);
  }

  /** `SummaryEntriesResolveIds` for any results. */
  lemma AssembledEntries(name: string, results: seq<CaseResult>, fastestIds: seq<int>, slowestIds: seq<int>)
    ensures Summarise(name, results, fastestIds, slowestIds).Ok? ==>
              (var s := Summarise(name, results, fastestIds, slowestIds).value;
              var kept := Without(slowestIds, fastestIds);
              && |s.fastest| == |fastestIds|
              && |s.slowest| == |kept|
              && (forall k :: 0 <= k < |s.fastest| ==>
                    && 0 <= s.fastest[k].index < |s.results|
                    && s.results[s.fastest[k].index].result.id == fastestIds[k]
                    && s.fastest[k].name == s.results[s.fastest[k].index].result.name
                    && forall i :: 0 <= i < s.fastest[k].index ==> s.results[i].result.id != fastestIds[k])
              && (forall k :: 0 <= k < |s.slowest| ==>
                    && 0 <= s.slowest[k].index < |s.results|
                    && s.results[s.slowest[k].index].result.id == kept[k]
                    && s.slowest[k].name == s.results[s.slowest[k].index].result.name
                    && forall i :: 0 <= i < s.slowest[k].index ==> s.results[i].result.id != kept[k]))
  {
    if Summarise(name, results, fastestIds, slowestIds).Ok? {
      var s := Summarise(name, results, fastestIds, slowestIds).value;
      AssembledParts(name, results, fastestIds, slowestIds);
      ResolvedEntries(results, fastestIds, s.fastest);
      ResolvedEntries(results, Without(slowestIds, fastestIds), s.slowest);
    }
  }

  /** Each resolved entry is the first result holding its id, named after it. */
  lemma ResolvedEntries(results: seq<CaseResult>, ids: seq<int>, entries: seq<Entry>)
    requires Resolve(results, ids) == Ok(entries)
    ensures |entries| == |ids|
    ensures forall k :: 0 <= k < |entries| ==>
              && 0 <= entries[k].index < |results|
              && results[entries[k].index].id == ids[k]
              && entries[k].name == results[entries[k].index].name
              && forall i :: 0 <= i < entries[k].index ==> results[i].id != ids[k]
  {
  }

  /** A successful summary is assembled from the rounded results and the two resolved id lists. */
  lemma SummaryParts(suite: Suite, precision: nat)
    ensures GetSummary(suite, precision).Ok? ==>
              (var s := GetSummary(suite, precision).value;
              var results := RoundedResults(suite.cases, precision);
              && s.name == suite.name
              && |s.results| == |results|
              && (forall i :: 0 <= i < |results| ==> s.results[i].result == results[i])
              && Resolve(results, suite.fastestIds) == Ok(s.fastest)
              && Resolve(results, Without(suite.slowestIds, suite.fastestIds)) == Ok(s.slowest))
  {
    AssembledParts(suite.name, RoundedResults(suite.cases, precision), suite.fastestIds, suite.slowestIds);
  }

  /** `SummaryParts` for any results. */
  lemma AssembledParts(name: string, results: seq<CaseResult>, fastestIds: seq<int>, slowestIds: seq<int>)
    ensures Summarise(name, results, fastestIds, slowestIds).Ok? ==>
              (var s := Summarise(name, results, fastestIds, slowestIds).value;
              && (forall i :: 0 <= i < |results| ==> s.results[i].result == results[i])
              && Resolve(results, fastestIds) == Ok(s.fastest)
              && Resolve(results, Without(slowestIds, fastestIds)) == Ok(s.slowest))
  {
    if Summarise(name, results, fastestIds, slowestIds).Ok? && |results| > 0 {
      var ranked := WithDiffs(results, FindIndex(results, fastestIds[0]));
      assert Summarise(name, results, fastestIds, slowestIds).value.results == ranked;
    }
  }

  /** No case is reported both as fastest and as slowest. */
  lemma SummaryFastestSlowestDisjoint(suite: Suite, precision: nat)
    ensures GetSummary(suite, precision).Ok? ==>
              (var s := GetSummary(suite, precision).value;
              forall k, l :: 0 <= k < |s.slowest| && 0 <= l < |s.fastest| ==> s.slowest[k].index != s.fastest[l].index)
  {
    if GetSummary(suite, precision).Ok? {
      var s := GetSummary(suite, precision).value;
      SummaryEntriesResolveIds(suite, precision);
      var slowestIds := Without(suite.slowestIds, suite.fastestIds);
      forall k, l | 0 <= k < |s.slowest| && 0 <= l < |s.fastest|
        ensures s.slowest[k].index != s.fastest[l].index
      {
        assert slowestIds[k] in slowestIds;
        assert suite.fastestIds[l] in suite.fastestIds;
      }
    }
  }

  /**
   When the engine reports every slowest case as fastest too (a total tie),
   the summary lists no slowest case.
   */
  lemma SummaryTotalTie(suite: Suite, precision: nat)
    requires forall id :: id in suite.slowestIds ==> id in suite.fastestIds
    ensures GetSummary(suite, precision).Ok? ==> GetSummary(suite, precision).value.slowest == []
  {
    if GetSummary(suite, precision).Ok? {
      var slowestIds := Without(suite.slowestIds, suite.fastestIds);
      assert forall i :: 0 <= i < |suite.slowestIds| ==> suite.slowestIds[i] in suite.fastestIds;
      assert slowestIds == [];
      SummarySlowestCount(suite, precision);
    }
  }

  /** There is one slowest entry per slowest id that is not also fastest. */
  lemma SummarySlowestCount(suite: Suite, precision: nat)
    ensures GetSummary(suite, precision).Ok? ==>
              |GetSummary(suite, precision).value.slowest| == |Without(suite.slowestIds, suite.fastestIds)|
  {
    SummaryParts(suite, precision);
  }

  /**
   `percentSlower` is 0 at the first fastest case and, everywhere else, the
   two-decimal relative slowdown against that case's rounded `ops`.
   */
  lemma SummaryBaseline(suite: Suite, precision: nat)
    requires |suite.cases| > 0
    ensures GetSummary(suite, precision).Ok? ==>
              (var s := GetSummary(suite, precision).value;
              && |s.fastest| > 0
              && s.results[s.fastest[0].index].percentSlower == Finite(0.0)
              && forall i :: 0 <= i < |s.results| && i != s.fastest[0].index ==>
                   s.results[i].percentSlower
                     == PercentSlowerOf(s.results[i].result.ops, s.results[s.fastest[0].index].result.ops))
  {
    AssembledBaseline(suite.name, RoundedResults(suite.cases, precision), suite.fastestIds, suite.slowestIds);
  }

  /** `SummaryBaseline` for any non-empty results. */
  lemma AssembledBaseline(name: string, results: seq<CaseResult>, fastestIds: seq<int>, slowestIds: seq<int>)
    requires |results| > 0
    ensures Summarise(name, results, fastestIds, slowestIds).Ok? ==>
              (var s := Summarise(name, results, fastestIds, slowestIds).value;
              && |s.fastest| > 0
              && s.results[s.fastest[0].index].percentSlower == Finite(0.0)
              && forall i :: 0 <= i < |s.results| && i != s.fastest[0].index ==>
                   s.results[i].percentSlower
                     == PercentSlowerOf(s.results[i].result.ops, s.results[s.fastest[0].index].result.ops))
  {
    if Summarise(name, results, fastestIds, slowestIds).Ok? {
      var s := Summarise(name, results, fastestIds, slowestIds).value;
      var base := FindIndex(results, fastestIds[0]);
      AssembledParts(name, results, fastestIds, slowestIds);
      assert s.fastest[0].index == base;
      assert s.results == WithDiffs(results, base);
    }
  }

  /**
   Against a positive baseline at least as large, `percentSlower` is a
   percentage between 0 and 100.
   */
  lemma PercentSlowerRange(ops: real, baseline: real)
    requires 0.0 <= ops <= baseline && baseline > 0.0
    ensures PercentSlowerOf(ops, baseline).Finite?
    ensures 0.0 <= PercentSlowerOf(ops, baseline).value <= 100.0
  {
    var q := ops / baseline;
    assert 0.0 <= q <= 1.0 by {
      ScaleMonotone(0.0, ops, baseline);
      ScaleMonotone(ops, baseline, baseline);
      ScaleInverse(1.0, baseline);
    }
    ToFixedPercentRange((1.0 - q) * 100.0, PercentDecimals);
  }
}
