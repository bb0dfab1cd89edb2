/** Projecting stored contributions of a goal's parents and ancestors into one bundle (projector.py, project). */
module Projector {
  import opened Prelude
  import opened Goals
  import opened LoopIds
  import opened Ranking
  import opened Bundles
  import opened Ancestors
  import opened Transcripts

  function Parents(goal: Goal): seq<GoalId> {
    goal.dependsOn + goal.informs
  }

  function Recency(d: Dag, pid: GoalId): real {
    if pid in d then d[pid].updatedAt else 0.0
  }

  /** One pair for each occurrence of a parent that has a contribution. */
  function ParentPairs(d: Dag, parents: seq<GoalId>, found: Found): seq<Keyed<Pair>> {
    if parents == [] then []
    else PairOf(d, parents[0], found) + ParentPairs(d, parents[1..], found)
  }

  function PairOf(d: Dag, pid: GoalId, found: Found): seq<Keyed<Pair>> {
    if pid in found then [Keyed(Recency(d, pid), (pid, found[pid]))] else []
  }

  /** Most recently updated parent first, ties in list order. */
  function ByRecency(d: Dag, parents: seq<GoalId>, found: Found): seq<Pair> {
    Items(SortDesc(ParentPairs(d, parents, found)))
  }

  method OrderByRecency(d: Dag, parents: seq<GoalId>, found: Found) returns (pairs: seq<Pair>)
    ensures pairs == ByRecency(d, parents, found)
  {
    var keyed := [];
    assert parents[0..] == parents;
    for i := 0 to |parents|
      invariant keyed + ParentPairs(d, parents[i..], found) == ParentPairs(d, parents, found)
    {
      FromIndex(parents, i);
      Assoc(keyed, PairOf(d, parents[i], found), ParentPairs(d, parents[i + 1..], found));
      keyed := keyed + PairOf(d, parents[i], found);
    }
    assert keyed + [] == keyed;
    pairs := Items(SortDesc(keyed));
  }

  lemma {:induction false} ParentPairsAreFound(d: Dag, parents: seq<GoalId>, found: Found)
    ensures forall k :: k in ParentPairs(d, parents, found) <==>
      k.item.0 in parents && k.item.0 in found && k == Keyed(Recency(d, k.item.0), (k.item.0, found[k.item.0]))
  {
    if parents != [] {
      ParentPairsAreFound(d, parents[1..], found);
      assert forall p :: p in parents <==> p == parents[0] || p in parents[1..];
    }
  }

  /** When a goal was last updated; an unknown one counts as oldest of all known times from zero on. */
  ghost function Updated(d: Dag, pid: GoalId): real {
    if pid in d then d[pid].updatedAt else 0.0
  }

  /** The merge order never puts an older parent before a newer one. */
  lemma NewestFirst(d: Dag, parents: seq<GoalId>, found: Found, i: nat, j: nat)
    requires i < j < |ByRecency(d, parents, found)|
    ensures var pairs := ByRecency(d, parents, found); Updated(d, pairs[i].0) >= Updated(d, pairs[j].0)
  {
    var keyed := ParentPairs(d, parents, found);
    var ranked := SortDesc(keyed);
    SortDescFacts(keyed);
    KeysStay(keyed);
    ParentPairsAreFound(d, parents, found);
    hide SortDesc, ParentPairs;
    assert ranked[i] in keyed && ranked[j] in keyed;
  }

  /** And it holds exactly the parents that have a contribution, each with its own. */
  lemma ExactlyThoseFound(d: Dag, parents: seq<GoalId>, found: Found, p: Pair)
    ensures p in ByRecency(d, parents, found) <==> p.0 in parents && p.0 in found && p.1 == found[p.0]
  {
    var keyed := ParentPairs(d, parents, found);
    var ranked := SortDesc(keyed);
    KeysStay(keyed);
    ParentPairsAreFound(d, parents, found);
    hide SortDesc, ParentPairs, Recency;
    if i :| 0 <= i < |ranked| && ranked[i].item == p {
      assert ranked[i] in keyed;
    }
    if p.0 in parents && p.0 in found && p.1 == found[p.0] {
      assert Keyed(Recency(d, p.0), p) in ranked;
      var i :| 0 <= i < |ranked| && ranked[i] == Keyed(Recency(d, p.0), p);
      assert Items(ranked)[i] == p;
    }
  }

  // ---- Latest parent wins -----------------------------------------------------------------------

  /** The contribution has an effect under this reference. */
  predicate Carries(c: Contribution, ref: string) {
    exists k :: 0 <= k < |c.effects| && Strip(c.effects[k].ref) == ref
  }

  lemma {:induction false} StampedCarry(parent: GoalId, effects: seq<Effect>)
    ensures |StampedEffects(parent, effects)| == |effects|
    ensures forall i :: 0 <= i < |effects| ==> StampedEffects(parent, effects)[i] == Stamped(parent, effects[i])
  {
    if effects != [] {
      StampedCarry(parent, effects[1..]);
    }
  }

  /** A first carrier in a concatenation is in the first part, or the first part lacks the reference. */
  lemma FirstInConcat(a: seq<Effect>, b: seq<Effect>, e: Effect)
    requires IsFirst(a + b, e)
    ensures e in a || (IsFirst(b, e) && forall x :: x in a ==> x.ref != e.ref)
  {
    var all := a + b;
    var i :| 0 <= i < |all| && all[i] == e && forall j :: 0 <= j < i ==> all[j].ref != e.ref;
    if i < |a| {
      assert a[i] == e;
    } else {
      assert forall j :: 0 <= j < |a| ==> all[j] == a[j];
      assert b[i - |a|] == e && forall j :: 0 <= j < i - |a| ==> b[j] == all[|a| + j];
    }
  }

  lemma FirstCarrierStep(pairs: seq<Pair>, e: Effect)
    requires IsFirst(AllEffects(pairs), e)
    ensures pairs != []
    ensures if Carries(pairs[0].1, e.ref) then e.origin == Some(pairs[0].0) else IsFirst(AllEffects(pairs[1..]), e)
  {
    var (parent, c) := pairs[0];
    var mine := StampedEffects(parent, c.effects);
    FirstInConcat(mine, AllEffects(pairs[1..]), e);
    hide AllEffects, IsFirst, StampedEffects, Carries;
    if e in mine {
      CarriedByHead(parent, c, e);
    } else {
      NotInHead(parent, c, e.ref);
    }
  }

  /** The first carrier of a reference in the concatenation sits in the first pair that carries it. */
  lemma {:induction false} FirstCarrier(pairs: seq<Pair>, e: Effect) returns (k: nat)
    requires IsFirst(AllEffects(pairs), e)
    ensures k < |pairs| && e.origin == Some(pairs[k].0) && Carries(pairs[k].1, e.ref)
    ensures forall m :: 0 <= m < k ==> !Carries(pairs[m].1, e.ref)
  {
    hide *;
    FirstCarrierStep(pairs, e);
    if Carries(pairs[0].1, e.ref) {
      return 0;
    }
    var rest := pairs[1..];
    k := FirstCarrier(rest, e);
    forall m | 0 < m < k + 1
      ensures !Carries(pairs[m].1, e.ref)
    {
      assert rest[m - 1] == pairs[m];
    }
    k := k + 1;
  }

  lemma CarriedByHead(parent: GoalId, c: Contribution, e: Effect)
    requires e in StampedEffects(parent, c.effects)
    ensures e.origin == Some(parent) && Carries(c, e.ref)
  {
    StampedCarry(parent, c.effects);
    var i :| 0 <= i < |c.effects| && StampedEffects(parent, c.effects)[i] == e;
    assert Strip(c.effects[i].ref) == e.ref;
  }

  lemma NotInHead(parent: GoalId, c: Contribution, ref: string)
    requires forall x :: x in StampedEffects(parent, c.effects) ==> x.ref != ref
    ensures !Carries(c, ref)
  {
    StampedCarry(parent, c.effects);
    forall k | 0 <= k < |c.effects|
      ensures Strip(c.effects[k].ref) != ref
    {
      assert StampedEffects(parent, c.effects)[k].ref != ref;
    }
  }

  /**
   * The merged effect of a reference comes from a parent that carries it, and from one at least as recent as
   * every other found parent that does.
   */
  lemma LatestParentWins(d: Dag, parents: seq<GoalId>, found: Found, e: Effect, q: GoalId)
    requires e in KeepFirst(AllEffects(ByRecency(d, parents, found)), {})
    ensures e.origin.Some? && e.origin.value in parents && e.origin.value in found
    ensures Carries(found[e.origin.value], e.ref)
    ensures q in parents && q in found && Carries(found[q], e.ref) ==> Updated(d, e.origin.value) >= Updated(d, q)
  {
    var pairs := ByRecency(d, parents, found);
    KeepFirstIsSound(AllEffects(pairs), {});
    var k := FirstCarrier(pairs, e);
    ExactlyThoseFound(d, parents, found, pairs[k]);
    if q in parents && q in found && Carries(found[q], e.ref) {
      ExactlyThoseFound(d, parents, found, (q, found[q]));
      var m :| 0 <= m < |pairs| && pairs[m] == (q, found[q]);
      if k < m {
        NewestFirst(d, parents, found, k, m);
      }
    }
  }

  /** The five merges and the transcript, before the bundle's own validator sees them. */
  function Merged(pairs: seq<Pair>, config: Config, preamble: seq<Turn>): Bundle {
    Bundle(
      Take(AllSteps(pairs), config.maxPlanSteps),
      Take(KeepFirst(AllEffects(pairs), {}), EffectLimit(config.maxEffects)),
      Items(Take(SortDesc(AllFindings(pairs, 0)), config.maxFindings)),
      MergedCalls(pairs),
      MergedFailures(pairs),
      preamble)
  }

  method MergeParents(pairs: seq<Pair>, config: Config, preamble: seq<Turn>) returns (b: Bundle)
    ensures b == Merged(pairs, config, preamble)
  {
    var steps := MergePlanSteps(pairs, config.maxPlanSteps);
    var effects := MergeEffects(pairs, config.maxEffects);
    var findings := MergeFindings(pairs, config.maxFindings);
    var calls, failures := MergeToolStats(pairs);
    b := Bundle(steps, effects, findings, calls, failures, preamble);
  }

  lemma NothingToMerge(config: Config, preamble: seq<Turn>)
    ensures Merged([], config, preamble) == EMPTY_BUNDLE.(preamble := preamble)
  {
    assert SortDesc<ParentFinding>([]) == [];
    assert AllFindings([], 0) == [];
  }

  /** Without parents nothing is an ancestor. */
  lemma NoParentsNoTranscript(goal: Goal, d: Dag, direct: Found, later: Found)
    requires Parents(goal) == []
    ensures Transcript(d, goal, direct, later) == []
  {
    assert goal.dependsOn == [] && goal.informs == [];
    GraphIsUnique(d, goal, GraphOf(d, goal), map[]);
    assert TopoOrder(map[], CreatedTimes(d)) == [];
  }

  /** The bundle a projection builds, where the store holds `first` at its first read and `later` at its second. */
  ghost function Projection(goal: Goal, d: Dag, first: Found, later: Found, config: Config): Bundle {
    var direct := Asked(first, Parents(goal));
    Merged(ByRecency(d, Parents(goal), direct), config, Transcript(d, goal, direct, later))
  }

  /** `project`: asks for the parents, then for the ancestors still missing. None where the bundle's validator raises. */
  method Project(goal: Goal, d: Dag, first: Found, later: Found, config: Config) returns (bundle: Option<Bundle>)
    ensures var b := Projection(goal, d, first, later, config); bundle == if Accepted(b) then Some(b) else None
  {
    var parents := goal.dependsOn + goal.informs;
    var direct := Asked(first, parents);
    if parents == [] {
      NothingToMerge(config, []);
      NoParentsNoTranscript(goal, d, direct, later);
      assert ByRecency(d, [], direct) == [];
      return Some(EMPTY_BUNDLE);
    }
    var preamble := BuildPreamble(goal, d, direct, later);
    var merged := EMPTY_BUNDLE.(preamble := preamble);
    if direct == map[] {
      NothingFound(d, parents);
      NothingToMerge(config, preamble);
    } else {
      var pairs := OrderByRecency(d, parents, direct);
      merged := MergeParents(pairs, config, preamble);
    }
    bundle := if Accepted(merged) then Some(merged) else None;
  }

  lemma NothingFound(d: Dag, parents: seq<GoalId>)
    ensures ByRecency(d, parents, map[]) == []
  {
    NoPairs(d, parents);
    assert SortDesc<Pair>([]) == [];
  }

  lemma {:induction false} NoPairs(d: Dag, parents: seq<GoalId>)
    ensures ParentPairs(d, parents, map[]) == []
  {
    if parents != [] {
      NoPairs(d, parents[1..]);
    }
  }

  // ---- When the validator accepts the projection ------------------------------------------------

  /** The merged lists, cut at the configured caps, stay within the hard caps. */
  ghost predicate Fits(pairs: seq<Pair>, config: Config) {
    && (config.maxFindings <= 20 || |AllFindings(pairs, 0)| <= 20)
    && (config.maxEffects <= 50 || |KeepFirst(AllEffects(pairs), {})| <= 50)
    && (config.maxPlanSteps <= 30 || |AllSteps(pairs)| <= 30)
  }

  /** For one input: acceptance is decided by the three flat lists alone; the preamble always fits. */
  lemma AcceptedIff(goal: Goal, d: Dag, first: Found, later: Found, config: Config)
    ensures |Projection(goal, d, first, later, config).preamble| <= 12
    ensures Accepted(Projection(goal, d, first, later, config))
      <==> Fits(ByRecency(d, Parents(goal), Asked(first, Parents(goal))), config)
  {
    var nodes := WithReport(d, goal, Asked(first, Parents(goal)), later);
    SelectedSize(nodes);
    TurnsLength(Selected(nodes));
    hide Selected, Turns, ByRecency, Asked, WithReport, MergedCalls, MergedFailures;
    var pairs := ByRecency(d, Parents(goal), Asked(first, Parents(goal)));
    SortDescFacts(AllFindings(pairs, 0));
    TakeFits(SortDesc(AllFindings(pairs, 0)), config.maxFindings, MAX_FINDINGS);
    TakeFits(KeepFirst(AllEffects(pairs), {}), EffectLimit(config.maxEffects), MAX_EFFECTS);
    TakeFits(AllSteps(pairs), config.maxPlanSteps, MAX_PLAN_STEPS);
  }

  lemma TakeFits<T>(s: seq<T>, cap: nat, hard: nat)
    ensures |Take(s, cap)| <= hard <==> cap <= hard || |s| <= hard
  {
  }

  // ---- Which configurations can never raise -----------------------------------------------------

  ghost predicate StoreWithinBounds(found: Found) {
    forall k :: k in found ==> found[k].WithinBounds()
  }

  /** No goal, DAG or stored contributions can make the projection raise. */
  ghost predicate NeverRaises(config: Config) {
    forall goal, d, first, later ::
      StoreWithinBounds(first) ==> Accepted(Projection(goal, d, first, later, config))
  }

  function Tick(n: nat): string {
    seq(n, _ => 'x')
  }

  ghost predicate TickRefs(effects: seq<Effect>, offset: nat) {
    forall i :: 0 <= i < |effects| ==> effects[i].ref == Tick(offset + i + 1)
  }

  /** A contribution at all three of its own bounds; the effects' references start after `offset` ticks. */
  function FullContribution(offset: nat): (c: Contribution)
    ensures c.WithinBounds()
    ensures |c.findings| == MAX_FINDINGS && |c.effects| == MAX_EFFECTS && |c.steps| == MAX_PLAN_STEPS
    ensures TickRefs(c.effects, offset)
  {
    Contribution(
      seq(MAX_PLAN_STEPS, _ => StepSummary("", "", "completed", None)),
      seq(MAX_EFFECTS, i requires 0 <= i < MAX_EFFECTS => Effect("produce", Tick(offset + i + 1), "", None, 1.0, None)),
      seq(MAX_FINDINGS, _ => Finding("", 1.0)),
      [], [])
  }

  lemma {:induction false} PriorStepsLength(parent: GoalId, steps: seq<StepSummary>)
    ensures |PriorSteps(parent, steps)| == |steps|
  {
    if steps != [] {
      PriorStepsLength(parent, steps[1..]);
    }
  }

  lemma {:induction false} ScoredFindingsLength(parent: GoalId, findings: seq<Finding>, weight: real)
    ensures |ScoredFindings(parent, findings, weight)| == |findings|
  {
    if findings != [] {
      ScoredFindingsLength(parent, findings[1..], weight);
    }
  }

  /** Effects with pairwise distinct new references all survive keep-first. */
  lemma {:induction false} DistinctAreKept(effects: seq<Effect>, seen: set<string>)
    requires forall i :: 0 <= i < |effects| ==> effects[i].ref != "" && effects[i].ref !in seen
    requires forall i, j :: 0 <= i < j < |effects| ==> effects[i].ref != effects[j].ref
    ensures KeepFirst(effects, seen) == effects
  {
    if effects != [] {
      assert forall i :: 0 < i < |effects| ==> effects[i].ref != effects[0].ref;
      DistinctAreKept(effects[1..], seen + {effects[0].ref});
    }
  }

  lemma TwoParentLists(x: Pair, y: Pair)
    ensures |AllFindings([x, y], 0)| == |x.1.findings| + |y.1.findings|
    ensures |AllSteps([x, y])| == |x.1.steps| + |y.1.steps|
    ensures AllEffects([x, y]) == StampedEffects(x.0, x.1.effects) + StampedEffects(y.0, y.1.effects)
  {
    assert [x, y][1..] == [y] && [y][1..] == [];
    assert AllSteps([y]) == PriorSteps(y.0, y.1.steps) + AllSteps([]);
    assert AllEffects([y]) == StampedEffects(y.0, y.1.effects) + AllEffects([]);
    PriorStepsLength(x.0, x.1.steps);
    PriorStepsLength(y.0, y.1.steps);
    ScoredFindingsLength(x.0, x.1.findings, Weight(0, 2));
    ScoredFindingsLength(y.0, y.1.findings, Weight(1, 2));
    assert AllFindings([x, y], 2) == [];
    assert AllFindings([x, y], 1) == ScoredFindings(y.0, y.1.findings, Weight(1, 2)) + [];
  }

  lemma StampedTicks(parent: GoalId, effects: seq<Effect>, offset: nat)
    requires TickRefs(effects, offset)
    ensures |StampedEffects(parent, effects)| == |effects| && TickRefs(StampedEffects(parent, effects), offset)
  {
    StampedCarry(parent, effects);
    hide Strip, Tick;
    forall i | 0 <= i < |effects|
      ensures StampedEffects(parent, effects)[i].ref == Tick(offset + i + 1)
    {
      TickIsStripped(offset + i + 1);
    }
  }

  lemma TickIsStripped(n: nat)
    ensures Strip(Tick(n)) == Tick(n)
  {
    StripIsIdentityIff(Tick(n));
  }

  lemma TicksAreKept(effects: seq<Effect>)
    requires TickRefs(effects, 0)
    ensures KeepFirst(effects, {}) == effects
  {
    forall i, j | 0 <= i < j < |effects|
      ensures effects[i].ref != effects[j].ref
    {
      assert |effects[i].ref| != |effects[j].ref|;
    }
    DistinctAreKept(effects, {});
  }

  lemma TwoFullParents(x: Pair, y: Pair, n: nat)
    requires |x.1.effects| == n && |y.1.effects| == n && TickRefs(x.1.effects, 0) && TickRefs(y.1.effects, n)
    ensures |KeepFirst(AllEffects([x, y]), {})| == 2 * n
  {
    TwoParentLists(x, y);
    StampedTicks(x.0, x.1.effects, 0);
    StampedTicks(y.0, y.1.effects, n);
    TicksAreKept(AllEffects([x, y]));
  }

  lemma TwoParentsInOrder(found: Found)
    requires "a" in found && "b" in found
    ensures ByRecency(map[], ["a", "b"], found) == [("a", found["a"]), ("b", found["b"])]
  {
    var (x, y) := (Keyed(0.0, ("a", found["a"])), Keyed(0.0, ("b", found["b"])));
    assert ["a", "b"][1..] == ["b"] && ["b"][1..] == [];
    assert ParentPairs(map[], ["b"], found) == [y];
    assert ParentPairs(map[], ["a", "b"], found) == [x, y];
    assert [x, y][1..] == [y];
    assert SortDesc([y]) == [y] by {
      assert [y][1..] == [];
    }
    assert SortDesc([x, y]) == [x, y];
  }

  /**
   * The configuration model admits caps ten times the validator's. A projection can never raise exactly
   * when each configured cap is within the hard cap: two parents at their own bounds break any larger one.
   */
  lemma NeverRaisesIff(config: Config)
    requires config.Admitted()
    ensures NeverRaises(config) <==>
      config.maxFindings <= 20 && config.maxEffects <= 50 && config.maxPlanSteps <= 30
  {
    hide Projection, Accepted;
    if NeverRaises(config) {
      var found: Found := map["a" := FullContribution(0), "b" := FullContribution(MAX_EFFECTS)];
      var goal := Goal("g", Pending, None, ["a", "b"], [], [], false, [], 0, None, 0.0, 0.0, 0, "");
      assert Parents(goal) == ["a", "b"] && Asked(found, ["a", "b"]) == found;
      assert Accepted(Projection(goal, map[], found, map[], config));
      AcceptedIff(goal, map[], found, map[], config);
      TwoParentsInOrder(found);
      TwoParentLists(("a", found["a"]), ("b", found["b"]));
      TwoFullParents(("a", found["a"]), ("b", found["b"]), MAX_EFFECTS);
    } else {
      var goal, d, first, later :|
        StoreWithinBounds(first) && !Accepted(Projection(goal, d, first, later, config));
      AcceptedIff(goal, d, first, later, config);
    }
  }
}
