/** What a projected bundle holds, field by field, over the parents' contributions (projector.py, project). */
module BundleMeaning {
  import opened Prelude
  import opened Goals
  import opened LoopIds
  import opened Ranking
  import opened Bundles
  import opened MergeOrder
  import opened FindingOrder
  import opened Transcripts
  import opened Projector

  // ---- Counters -----------------------------------------------------------------------------------

  /** A dictionary has each name once. */
  ghost predicate DistinctNames(items: Counts) {
    forall i, j :: 0 <= i < j < |items| ==> items[i].0 != items[j].0
  }

  lemma {:induction false} ItemCountIs(items: Counts, name: string)
    requires DistinctNames(items)
    ensures forall i :: 0 <= i < |items| && items[i].0 == name ==> ItemCount(items, name) == items[i].1
    ensures (forall i :: 0 <= i < |items| ==> items[i].0 != name) ==> ItemCount(items, name) == 0
  {
    if items != [] {
      assert forall i :: 0 <= i < |items[1..]| ==> items[1..][i] == items[i + 1];
      ItemCountIs(items[1..], name);
    }
  }

  /** The dictionary read as a map. */
  ghost predicate IsMapOf(m: map<string, int>, items: Counts) {
    && (forall i :: 0 <= i < |items| ==> items[i].0 in m && m[items[i].0] == items[i].1)
    && forall name :: name in m ==> exists i :: 0 <= i < |items| && items[i].0 == name
  }

  lemma NamesAre(items: Counts)
    ensures forall name :: name in Names(items) <==> exists i :: 0 <= i < |items| && items[i].0 == name
  {
    forall name | name in Names(items)
      ensures exists i :: 0 <= i < |items| && items[i].0 == name
    {
      var item :| item in items && item.0 == name;
    }
    forall i | 0 <= i < |items|
      ensures items[i].0 in Names(items)
    {
      assert items[i] in items;
    }
  }

  lemma CountedOnce(items: Counts, m: map<string, int>)
    requires DistinctNames(items) && m.Keys == Names(items)
    requires forall name :: name in m ==> m[name] == ItemCount(items, name)
    ensures IsMapOf(m, items)
  {
    NamesAre(items);
    forall i | 0 <= i < |items|
      ensures items[i].0 in m && m[items[i].0] == items[i].1
    {
      ItemCountIs(items, items[i].0);
      assert items[i].0 in Names(items);
    }
  }

  /** One parent alone: its own counters. */
  lemma OneParentsCounters(parent: Pair)
    requires DistinctNames(parent.1.calls) && DistinctNames(parent.1.failures)
    ensures IsMapOf(MergedCalls([parent]), parent.1.calls) && IsMapOf(MergedFailures([parent]), parent.1.failures)
  {
    var none: seq<Pair> := [parent][1..];
    assert none == [] && CallNames(none) == {} && FailureNames(none) == {};
    assert CallNames([parent]) == Names(parent.1.calls) && FailureNames([parent]) == Names(parent.1.failures);
    assert forall name :: CallCount([parent], name) == ItemCount(parent.1.calls, name);
    assert forall name :: FailureCount([parent], name) == ItemCount(parent.1.failures, name);
    hide CallNames, FailureNames, CallCount, FailureCount;
    CountedOnce(parent.1.calls, MergedCalls([parent]));
    CountedOnce(parent.1.failures, MergedFailures([parent]));
  }

  /** The sum of two counter maps. */
  ghost predicate IsSum(m: map<string, int>, a: map<string, int>, b: map<string, int>) {
    && m.Keys == a.Keys + b.Keys
    && forall name :: name in m ==> m[name] == Sum(a, b, name)
  }

  function Sum(a: map<string, int>, b: map<string, int>, name: string): int {
    (if name in a then a[name] else 0) + (if name in b then b[name] else 0)
  }

  lemma {:induction false} CountsOfConcat(a: seq<Pair>, b: seq<Pair>)
    ensures CallNames(a + b) == CallNames(a) + CallNames(b)
    ensures FailureNames(a + b) == FailureNames(a) + FailureNames(b)
    ensures forall name :: CallCount(a + b, name) == CallCount(a, name) + CallCount(b, name)
    ensures forall name :: FailureCount(a + b, name) == FailureCount(a, name) + FailureCount(b, name)
    decreases |a|
  {
    if a == [] {
      assert a + b == b;
    } else {
      assert (a + b)[1..] == a[1..] + b;
      CountsOfConcat(a[1..], b);
    }
  }

  lemma {:induction false} UnnamedIsZero(pairs: seq<Pair>, name: string)
    ensures name !in CallNames(pairs) ==> CallCount(pairs, name) == 0
    ensures name !in FailureNames(pairs) ==> FailureCount(pairs, name) == 0
  {
    if pairs != [] {
      UnnamedIsZero(pairs[1..], name);
      if name !in CallNames(pairs) {
        NoItemNoCount(pairs[0].1.calls, name);
      }
      if name !in FailureNames(pairs) {
        NoItemNoCount(pairs[0].1.failures, name);
      }
    }
  }

  lemma {:induction false} NoItemNoCount(items: Counts, name: string)
    requires name !in Names(items)
    ensures ItemCount(items, name) == 0
  {
    if items != [] {
      NamesOfCons(items);
      NoItemNoCount(items[1..], name);
    }
  }

  /** More parents add their counters, name by name. */
  lemma CountersAdd(a: seq<Pair>, b: seq<Pair>)
    ensures IsSum(MergedCalls(a + b), MergedCalls(a), MergedCalls(b))
    ensures IsSum(MergedFailures(a + b), MergedFailures(a), MergedFailures(b))
  {
    hide CallCount, FailureCount, CallNames, FailureNames;
    CountsOfConcat(a, b);
    forall name | name in CallNames(a + b)
      ensures MergedCalls(a + b)[name] == Sum(MergedCalls(a), MergedCalls(b), name)
    {
      UnnamedIsZero(a, name);
      UnnamedIsZero(b, name);
    }
    forall name | name in FailureNames(a + b)
      ensures MergedFailures(a + b)[name] == Sum(MergedFailures(a), MergedFailures(b), name)
    {
      UnnamedIsZero(a, name);
      UnnamedIsZero(b, name);
    }
  }

  // ---- The whole bundle ---------------------------------------------------------------------------

  /**
   * The bundle of a projection: plan steps and effects in merge order, findings by rank, each cut at its own
   * cap, the counters of calls and of failures, and the transcript.
   */
  lemma ProjectionMeans(goal: Goal, d: Dag, first: Found, later: Found, config: Config)
    returns (steps: seq<Place>, effects: seq<Place>, findings: seq<Place>)
    ensures var direct := Asked(first, goal.dependsOn + goal.informs);
      var pairs := ByRecency(d, goal.dependsOn + goal.informs, direct);
      var b := Projection(goal, d, first, later, config);
      && InOrder(steps) && (forall p :: p in steps <==> MergeOrder.Within(p, StepSizes(pairs)))
      && StepsAt(pairs, Take(steps, config.maxPlanSteps), b.steps)
      && InOrder(effects) && (forall p :: p in effects <==> FirstCarrierAt(pairs, p))
      && EffectsAt(pairs, Take(effects, if config.maxEffects < 1 then 1 else config.maxEffects), b.effects)
      && IsRanking(pairs, findings) && FindingsAt(pairs, Take(findings, config.maxFindings), b.findings)
      && b.calls == MergedCalls(pairs) && b.failures == MergedFailures(pairs)
      && b.preamble == Transcript(d, goal, direct, later)
  {
    var direct := Asked(first, goal.dependsOn + goal.informs);
    var pairs := ByRecency(d, goal.dependsOn + goal.informs, direct);
    assert Projection(goal, d, first, later, config) == Merged(pairs, config, Transcript(d, goal, direct, later));
    assert Merged(pairs, config, Transcript(d, goal, direct, later)).steps == Take(AllSteps(pairs), config.maxPlanSteps);
    hide ByRecency, Asked, Transcript, InOrder, StepsAt, EffectsAt, FirstCarrierAt, IsRanking, FindingsAt;
    hide AllSteps, AllEffects, AllFindings, KeepFirst, SortDesc, MergedCalls, MergedFailures, Items, Take, Projection;
    steps := MergedStepsMean(pairs, config.maxPlanSteps);
    effects := MergedEffectsMean(pairs, config.maxEffects);
    findings := MergedFindingsMean(pairs, config.maxFindings);
  }
}
