/** Merging parents' contributions into one bounded dispatch bundle (projector.py, goal_contracts.py). */
module Bundles {
  import opened Prelude
  import opened Goals
  import opened LoopIds
  import opened Ranking

  const MAX_FINDINGS := 20
  const MAX_EFFECTS := 50
  const MAX_PLAN_STEPS := 30
  const MAX_PREAMBLE_TURNS := 12
  const MAX_TURN_CHARS := 2000

  datatype StepSummary = StepSummary(id: string, action: string, outcome: string, durationMs: Option<int>)

  datatype PriorStep = PriorStep(
    id: string, description: string, status: string, durationMs: Option<int>, origin: GoalId)

  datatype Effect = Effect(
    kind: string, ref: string, statement: string, digest: Option<string>, confidence: real, origin: Option<GoalId>)

  datatype Finding = Finding(summary: string, relevance: real)

  datatype ParentFinding = ParentFinding(origin: GoalId, summary: string, relevance: real)

  /** Dictionaries of counters as their items in order, keys distinct. */
  type Counts = seq<(string, int)>

  datatype Contribution = Contribution(
    steps: seq<StepSummary>, effects: seq<Effect>, findings: seq<Finding>, calls: Counts, failures: Counts)
  {
    /** The contribution's own validator. */
    predicate WithinBounds() {
      |findings| <= MAX_FINDINGS && |effects| <= MAX_EFFECTS && |steps| <= MAX_PLAN_STEPS
    }
  }

  datatype Turn = UserTurn(origin: GoalId, content: string) | AiTurn(origin: GoalId)

  datatype Bundle = Bundle(
    steps: seq<PriorStep>,
    effects: seq<Effect>,
    findings: seq<ParentFinding>,
    calls: map<string, int>,
    failures: map<string, int>,
    preamble: seq<Turn>)

  const EMPTY_BUNDLE := Bundle([], [], [], map[], map[], [])

  /** `_enforce_bounds`: the bundle constructor raises when this fails. */
  predicate Accepted(b: Bundle) {
    && |b.findings| <= MAX_FINDINGS
    && |b.effects| <= MAX_EFFECTS
    && |b.steps| <= MAX_PLAN_STEPS
    && |b.preamble| <= MAX_PREAMBLE_TURNS
  }

  datatype Config = Config(maxFindings: nat, maxEffects: nat, maxPlanSteps: nat) {
    /** What the configuration model admits: each cap at least one, but up to ten times the hard cap. */
    predicate Admitted() {
      1 <= maxFindings <= 200 && 1 <= maxEffects <= 500 && 1 <= maxPlanSteps <= 300
    }
  }

  type Pair = (GoalId, Contribution)

  // ---- Plan steps -----------------------------------------------------------------------------

  function Prior(parent: GoalId, s: StepSummary): PriorStep {
    PriorStep(s.id, s.action, s.outcome, s.durationMs, parent)
  }

  function PriorSteps(parent: GoalId, steps: seq<StepSummary>): seq<PriorStep> {
    if steps == [] then [] else [Prior(parent, steps[0])] + PriorSteps(parent, steps[1..])
  }

  function AllSteps(pairs: seq<Pair>): seq<PriorStep> {
    if pairs == [] then [] else PriorSteps(pairs[0].0, pairs[0].1.steps) + AllSteps(pairs[1..])
  }

  method AppendSteps(merged: seq<PriorStep>, parent: GoalId, steps: seq<StepSummary>) returns (longer: seq<PriorStep>)
    ensures longer == merged + PriorSteps(parent, steps)
  {
    longer := merged;
    assert steps[0..] == steps;
    for i := 0 to |steps|
      invariant longer + PriorSteps(parent, steps[i..]) == merged + PriorSteps(parent, steps)
    {
      ghost var rest := PriorSteps(parent, steps[i + 1..]);
      assert steps[i..][0] == steps[i] && steps[i..][1..] == steps[i + 1..];
      assert longer + ([Prior(parent, steps[i])] + rest) == (longer + [Prior(parent, steps[i])]) + rest;
      longer := longer + [Prior(parent, steps[i])];
    }
  }

  lemma TakeOfConcat<T>(a: seq<T>, b: seq<T>, n: nat)
    requires n <= |a|
    ensures Take(a + b, n) == a[..n]
  {
  }

  /** The early exit changes nothing: the result is the head of the full concatenation. */
  method MergePlanSteps(pairs: seq<Pair>, cap: nat) returns (steps: seq<PriorStep>)
    ensures steps == Take(AllSteps(pairs), cap)
  {
    steps := [];
    assert pairs[0..] == pairs;
    for i := 0 to |pairs|
      invariant steps + AllSteps(pairs[i..]) == AllSteps(pairs)
    {
      FromIndex(pairs, i);
      ghost var rest := AllSteps(pairs[i + 1..]);
      Assoc(steps, PriorSteps(pairs[i].0, pairs[i].1.steps), rest);
      steps := AppendSteps(steps, pairs[i].0, pairs[i].1.steps);
      if |steps| >= cap {
        TakeOfConcat(steps, rest, cap);
        return steps[..cap];
      }
    }
    assert steps + [] == steps;
    steps := Take(steps, cap);
  }

  // ---- Effects --------------------------------------------------------------------------------

  function Stamped(parent: GoalId, e: Effect): Effect {
    e.(ref := Strip(e.ref), origin := Some(parent))
  }

  function StampedEffects(parent: GoalId, effects: seq<Effect>): seq<Effect> {
    if effects == [] then [] else [Stamped(parent, effects[0])] + StampedEffects(parent, effects[1..])
  }

  function AllEffects(pairs: seq<Pair>): seq<Effect> {
    if pairs == [] then [] else StampedEffects(pairs[0].0, pairs[0].1.effects) + AllEffects(pairs[1..])
  }

  /** Keep the first effect of each non-empty reference not in `seen`. */
  function KeepFirst(effects: seq<Effect>, seen: set<string>): seq<Effect> {
    if effects == [] then []
    else if effects[0].ref == "" || effects[0].ref in seen then KeepFirst(effects[1..], seen)
    else [effects[0]] + KeepFirst(effects[1..], seen + {effects[0].ref})
  }

  /** `e` occurs, and nothing before it carries its reference. */
  ghost predicate IsFirst(effects: seq<Effect>, e: Effect) {
    exists i :: 0 <= i < |effects| && effects[i] == e && forall j :: 0 <= j < i ==> effects[j].ref != e.ref
  }

  lemma IsFirstAfter(head: Effect, rest: seq<Effect>, e: Effect)
    requires IsFirst(rest, e) && head.ref != e.ref
    ensures IsFirst([head] + rest, e)
  {
    var i :| 0 <= i < |rest| && rest[i] == e && forall j :: 0 <= j < i ==> rest[j].ref != e.ref;
    var effects := [head] + rest;
    assert effects[i + 1] == e && forall j :: 0 < j < i + 1 ==> effects[j] == rest[j - 1];
  }

  /** What keep-first keeps: distinct new references, each represented by its first carrier. */
  lemma {:induction false} KeepFirstIsSound(effects: seq<Effect>, seen: set<string>)
    ensures forall e :: e in KeepFirst(effects, seen) ==> e.ref != "" && e.ref !in seen && IsFirst(effects, e)
    ensures forall i, j :: 0 <= i < j < |KeepFirst(effects, seen)| ==>
      KeepFirst(effects, seen)[i].ref != KeepFirst(effects, seen)[j].ref
  {
    if effects != [] {
      var (head, rest) := (effects[0], effects[1..]);
      assert effects == [head] + rest;
      var novel := head.ref != "" && head.ref !in seen;
      var seen' := if novel then seen + {head.ref} else seen;
      KeepFirstIsSound(rest, seen');
      forall e | e in KeepFirst(rest, seen')
        ensures IsFirst(effects, e)
      {
        IsFirstAfter(head, rest, e);
      }
      if novel {
        assert effects[0] == head && IsFirst(effects, head);
      }
    }
  }

  /** And nothing is lost: every non-empty reference not already seen is represented. */
  lemma {:induction false} KeepFirstIsComplete(effects: seq<Effect>, seen: set<string>)
    ensures forall e :: e in effects && e.ref != "" && e.ref !in seen ==> e.ref in Refs(KeepFirst(effects, seen))
  {
    if effects != [] {
      var (head, rest) := (effects[0], effects[1..]);
      assert effects == [head] + rest;
      if head.ref == "" || head.ref in seen {
        KeepFirstIsComplete(rest, seen);
      } else {
        KeepFirstIsComplete(rest, seen + {head.ref});
        RefsOfCons(head, KeepFirst(rest, seen + {head.ref}));
      }
    }
  }

  function Refs(effects: seq<Effect>): set<string> {
    set e | e in effects :: e.ref
  }

  lemma {:induction false} KeepFirstConcat(a: seq<Effect>, b: seq<Effect>, seen: set<string>)
    ensures KeepFirst(a + b, seen) == KeepFirst(a, seen) + KeepFirst(b, seen + Refs(KeepFirst(a, seen)))
  {
    if a == [] {
      assert a + b == b;
      assert seen + Refs([]) == seen;
    } else {
      assert (a + b)[1..] == a[1..] + b;
      var skip := a[0].ref == "" || a[0].ref in seen;
      if skip {
        KeepFirstConcat(a[1..], b, seen);
      } else {
        KeepFirstConcat(a[1..], b, seen + {a[0].ref});
        var tail := KeepFirst(a[1..], seen + {a[0].ref});
        RefsOfCons(a[0], tail);
        assert seen + {a[0].ref} + Refs(tail) == seen + Refs([a[0]] + tail);
      }
    }
  }

  lemma RefsOfCons(e: Effect, es: seq<Effect>)
    ensures Refs([e] + es) == {e.ref} + Refs(es)
  {
    assert forall x :: x in [e] + es <==> x == e || x in es;
  }

  /** One parent's effects; `full` reports that the cap was reached and the caller must return. */
  method AppendEffects(merged: seq<Effect>, seen: set<string>, parent: GoalId, effects: seq<Effect>, cap: nat)
    returns (merged': seq<Effect>, seen': set<string>, full: bool)
    requires |merged| < EffectLimit(cap)
    ensures var mine := KeepFirst(StampedEffects(parent, effects), seen);
      if full then |merged'| == EffectLimit(cap) && merged' <= merged + mine
      else |merged'| < EffectLimit(cap) && merged' == merged + mine && seen' == seen + Refs(mine)
  {
    merged', seen', full := merged, seen, false;
    assert effects[0..] == effects && seen + Refs([]) == seen;
    ghost var all := KeepFirst(StampedEffects(parent, effects), seen);
    hide KeepFirst, StampedEffects, Stamped, Refs;
    for i := 0 to |effects|
      invariant merged' + KeepFirst(StampedEffects(parent, effects[i..]), seen') == merged + all
      invariant seen' + Refs(KeepFirst(StampedEffects(parent, effects[i..]), seen')) == seen + Refs(all)
      invariant |merged'| < EffectLimit(cap)
    {
      var e := Stamped(parent, effects[i]);
      ghost var rest := StampedEffects(parent, effects[i + 1..]);
      StampedFrom(parent, effects, i);
      KeepFirstCons(e, rest, seen');
      if e.ref == "" || e.ref in seen' {
        continue;
      }
      ghost var later := KeepFirst(rest, seen' + {e.ref});
      Assoc(merged', [e], later);
      RefsOfCons(e, later);
      seen' := seen' + {e.ref};
      merged' := merged' + [e];
      if |merged'| >= cap {
        full := true;
        return;
      }
    }
    NothingKept(parent, effects[|effects|..], seen');
  }

  lemma StampedFrom(parent: GoalId, effects: seq<Effect>, i: nat)
    requires i < |effects|
    ensures StampedEffects(parent, effects[i..])
      == [Stamped(parent, effects[i])] + StampedEffects(parent, effects[i + 1..])
  {
    FromIndex(effects, i);
  }

  lemma KeepFirstCons(e: Effect, rest: seq<Effect>, seen: set<string>)
    ensures KeepFirst([e] + rest, seen)
      == if e.ref == "" || e.ref in seen then KeepFirst(rest, seen) else [e] + KeepFirst(rest, seen + {e.ref})
  {
    assert ([e] + rest)[1..] == rest;
  }

  lemma NothingKept(parent: GoalId, effects: seq<Effect>, seen: set<string>)
    requires effects == []
    ensures KeepFirst(StampedEffects(parent, effects), seen) == [] && Refs([]) == {}
  {
  }

  /** The length test comes after an append, so a cap of zero would still let one effect through. */
  function EffectLimit(cap: nat): nat {
    if cap == 0 then 1 else cap
  }

  /** Keep-first by stripped reference in recency order, cut at the cap. */
  method MergeEffects(pairs: seq<Pair>, cap: nat) returns (effects: seq<Effect>)
    ensures effects == Take(KeepFirst(AllEffects(pairs), {}), EffectLimit(cap))
  {
    var seen := {};
    effects := [];
    assert pairs[0..] == pairs;
    for i := 0 to |pairs|
      invariant effects + KeepFirst(AllEffects(pairs[i..]), seen) == KeepFirst(AllEffects(pairs), {})
      invariant |effects| < EffectLimit(cap)
    {
      FromIndex(pairs, i);
      ghost var rest := AllEffects(pairs[i + 1..]);
      ghost var mine := StampedEffects(pairs[i].0, pairs[i].1.effects);
      KeepFirstConcat(mine, rest, seen);
      Assoc(effects, KeepFirst(mine, seen), KeepFirst(rest, seen + Refs(KeepFirst(mine, seen))));
      var full;
      effects, seen, full := AppendEffects(effects, seen, pairs[i].0, pairs[i].1.effects, cap);
      if full {
        return;
      }
    }
  }

  // ---- Findings -------------------------------------------------------------------------------

  function Weight(idx: nat, n: nat): real
    requires n > 0
  {
    1.0 - 0.5 * (idx as real) / (n as real)
  }

  function Scored(parent: GoalId, f: Finding, weight: real): Keyed<ParentFinding> {
    Keyed(f.relevance * weight, ParentFinding(parent, f.summary, f.relevance))
  }

  function ScoredFindings(parent: GoalId, findings: seq<Finding>, weight: real): seq<Keyed<ParentFinding>> {
    if findings == [] then [] else [Scored(parent, findings[0], weight)] + ScoredFindings(parent, findings[1..], weight)
  }

  /** Every finding with its score, parents from position `idx` on. */
  function AllFindings(pairs: seq<Pair>, idx: nat): seq<Keyed<ParentFinding>>
    requires idx <= |pairs|
    decreases |pairs| - idx
  {
    if idx == |pairs| then []
    else ScoredFindings(pairs[idx].0, pairs[idx].1.findings, Weight(idx, |pairs|)) + AllFindings(pairs, idx + 1)
  }

  method ScoreParent(parent: GoalId, findings: seq<Finding>, weight: real) returns (scored: seq<Keyed<ParentFinding>>)
    ensures scored == ScoredFindings(parent, findings, weight)
  {
    scored := [];
    assert findings[0..] == findings;
    for i := 0 to |findings|
      invariant scored + ScoredFindings(parent, findings[i..], weight) == ScoredFindings(parent, findings, weight)
    {
      FromIndex(findings, i);
      Assoc(scored, [Scored(parent, findings[i], weight)], ScoredFindings(parent, findings[i + 1..], weight));
      scored := scored + [Scored(parent, findings[i], weight)];
    }
  }

  /** The top findings by relevance weighted with recency; TopOfRanking says what that means. */
  method MergeFindings(pairs: seq<Pair>, cap: nat) returns (findings: seq<ParentFinding>)
    ensures findings == Items(Take(SortDesc(AllFindings(pairs, 0)), cap))
  {
    var ranked := [];
    for i := 0 to |pairs|
      invariant ranked + AllFindings(pairs, i) == AllFindings(pairs, 0)
    {
      var mine := ScoreParent(pairs[i].0, pairs[i].1.findings, Weight(i, |pairs|));
      Assoc(ranked, mine, AllFindings(pairs, i + 1));
      ranked := ranked + mine;
    }
    assert ranked + [] == ranked;
    findings := Items(Take(SortDesc(ranked), cap));
  }

  // ---- Tool statistics ------------------------------------------------------------------------

  function ItemsTotal(items: Counts): int {
    if items == [] then 0 else items[0].1 + ItemsTotal(items[1..])
  }

  function CallsTotal(pairs: seq<Pair>): int {
    if pairs == [] then 0 else ItemsTotal(pairs[0].1.calls) + CallsTotal(pairs[1..])
  }

  function FailuresTotal(pairs: seq<Pair>): int {
    if pairs == [] then 0 else ItemsTotal(pairs[0].1.failures) + FailuresTotal(pairs[1..])
  }

  /** `total_calls` / `total_failures`: the sum of a counter dictionary's values. */
  ghost function ValuesTotal(m: map<string, int>): int {
    if m == map[] then 0
    else
      var k :| k in m;
      m[k] + ValuesTotal(m - {k})
  }

  lemma {:induction false} ValuesTotalWithout(m: map<string, int>, k: string)
    requires k in m
    ensures ValuesTotal(m) == m[k] + ValuesTotal(m - {k})
    decreases m.Keys
  {
    var j :| j in m && ValuesTotal(m) == m[j] + ValuesTotal(m - {j});
    if j != k {
      ValuesTotalWithout(m - {j}, k);
      ValuesTotalWithout(m - {k}, j);
      assert m - {j} - {k} == m - {k} - {j};
    }
  }

  function Bumped(m: map<string, int>, name: string, n: int): map<string, int> {
    m[name := (if name in m then m[name] else 0) + n]
  }

  lemma BumpAddsToTotal(m: map<string, int>, name: string, n: int)
    ensures ValuesTotal(Bumped(m, name, n)) == ValuesTotal(m) + n
  {
    var b := Bumped(m, name, n);
    ValuesTotalWithout(b, name);
    assert b - {name} == m - {name};
    if name in m {
      ValuesTotalWithout(m, name);
    } else {
      assert m - {name} == m;
    }
  }

  function Tally(m: map<string, int>, name: string): int {
    if name in m then m[name] else 0
  }

  /** What a counter dictionary holds under one name. */
  function ItemCount(items: Counts, name: string): int {
    if items == [] then 0 else (if items[0].0 == name then items[0].1 else 0) + ItemCount(items[1..], name)
  }

  function CallCount(pairs: seq<Pair>, name: string): int {
    if pairs == [] then 0 else ItemCount(pairs[0].1.calls, name) + CallCount(pairs[1..], name)
  }

  function FailureCount(pairs: seq<Pair>, name: string): int {
    if pairs == [] then 0 else ItemCount(pairs[0].1.failures, name) + FailureCount(pairs[1..], name)
  }

  /** The names a counter dictionary mentions. */
  function Names(items: Counts): set<string> {
    set i | i in items :: i.0
  }

  function CallNames(pairs: seq<Pair>): set<string> {
    if pairs == [] then {} else Names(pairs[0].1.calls) + CallNames(pairs[1..])
  }

  function FailureNames(pairs: seq<Pair>): set<string> {
    if pairs == [] then {} else Names(pairs[0].1.failures) + FailureNames(pairs[1..])
  }

  function MergedCalls(pairs: seq<Pair>): map<string, int> {
    map name | name in CallNames(pairs) :: CallCount(pairs, name)
  }

  function MergedFailures(pairs: seq<Pair>): map<string, int> {
    map name | name in FailureNames(pairs) :: FailureCount(pairs, name)
  }

  method AddCounts(counts: map<string, int>, items: Counts) returns (sums: map<string, int>)
    ensures Added(counts, items, sums)
  {
    sums := counts;
    assert items[0..] == items;
    for i := 0 to |items|
      invariant forall name ::
        Tally(sums, name) + ItemCount(items[i..], name) == Tally(counts, name) + ItemCount(items, name)
      invariant ValuesTotal(sums) + ItemsTotal(items[i..]) == ValuesTotal(counts) + ItemsTotal(items)
      invariant sums.Keys + Names(items[i..]) == counts.Keys + Names(items)
    {
      FromIndex(items, i);
      NamesOfCons(items[i..]);
      BumpAddsToTotal(sums, items[i].0, items[i].1);
      sums := Bumped(sums, items[i].0, items[i].1);
    }
  }

  lemma NamesOfCons(items: Counts)
    requires items != []
    ensures Names(items) == {items[0].0} + Names(items[1..])
  {
    assert items == [items[0]] + items[1..];
  }

  /** Merging counters loses and invents no call, under any tool name or in total. */
  method MergeToolStats(pairs: seq<Pair>) returns (calls: map<string, int>, failures: map<string, int>)
    ensures calls == MergedCalls(pairs) && failures == MergedFailures(pairs)
    ensures ValuesTotal(calls) == CallsTotal(pairs) && ValuesTotal(failures) == FailuresTotal(pairs)
  {
    calls, failures := map[], map[];
    assert pairs[0..] == pairs;
    for i := 0 to |pairs|
      invariant CallsLeft(calls, pairs, i) && FailuresLeft(failures, pairs, i)
    {
      hide *;
      ghost var (before, failed) := (calls, failures);
      calls := AddCounts(calls, pairs[i].1.calls);
      failures := AddCounts(failures, pairs[i].1.failures);
      CallsStep(before, calls, pairs, i);
      FailuresStep(failed, failures, pairs, i);
    }
    AllCounted(calls, failures, pairs);
  }

  /** The counters so far and the pairs from `i` on make up the whole. */
  ghost predicate CallsLeft(calls: map<string, int>, pairs: seq<Pair>, i: nat)
    requires i <= |pairs|
  {
    && (forall name :: Tally(calls, name) + CallCount(pairs[i..], name) == CallCount(pairs, name))
    && calls.Keys + CallNames(pairs[i..]) == CallNames(pairs)
    && ValuesTotal(calls) + CallsTotal(pairs[i..]) == CallsTotal(pairs)
  }

  ghost predicate FailuresLeft(failures: map<string, int>, pairs: seq<Pair>, i: nat)
    requires i <= |pairs|
  {
    && (forall name :: Tally(failures, name) + FailureCount(pairs[i..], name) == FailureCount(pairs, name))
    && failures.Keys + FailureNames(pairs[i..]) == FailureNames(pairs)
    && ValuesTotal(failures) + FailuresTotal(pairs[i..]) == FailuresTotal(pairs)
  }

  /** The counters after one more dictionary of counts. */
  ghost predicate Added(counts: map<string, int>, items: Counts, sums: map<string, int>) {
    && (forall name :: Tally(sums, name) == Tally(counts, name) + ItemCount(items, name))
    && ValuesTotal(sums) == ValuesTotal(counts) + ItemsTotal(items)
    && sums.Keys == counts.Keys + Names(items)
  }

  lemma CallsStep(calls: map<string, int>, sums: map<string, int>, pairs: seq<Pair>, i: nat)
    requires i < |pairs| && CallsLeft(calls, pairs, i) && Added(calls, pairs[i].1.calls, sums)
    ensures CallsLeft(sums, pairs, i + 1)
  {
    FromIndex(pairs, i);
    hide Tally, ItemCount, ValuesTotal, ItemsTotal, Names;
  }

  lemma FailuresStep(failures: map<string, int>, sums: map<string, int>, pairs: seq<Pair>, i: nat)
    requires i < |pairs| && FailuresLeft(failures, pairs, i) && Added(failures, pairs[i].1.failures, sums)
    ensures FailuresLeft(sums, pairs, i + 1)
  {
    FromIndex(pairs, i);
    hide Tally, ItemCount, ValuesTotal, ItemsTotal, Names;
  }

  lemma AllCounted(calls: map<string, int>, failures: map<string, int>, pairs: seq<Pair>)
    requires CallsLeft(calls, pairs, |pairs|) && FailuresLeft(failures, pairs, |pairs|)
    ensures calls == MergedCalls(pairs) && failures == MergedFailures(pairs)
    ensures ValuesTotal(calls) == CallsTotal(pairs) && ValuesTotal(failures) == FailuresTotal(pairs)
  {
    assert pairs[|pairs|..] == [];
    assert forall name :: name in calls ==> Tally(calls, name) == calls[name];
    assert forall name :: name in failures ==> Tally(failures, name) == failures[name];
  }

  // ---- Preamble -------------------------------------------------------------------------------

  function Content(g: Goal): string {
    Take(Strip(g.description), MAX_TURN_CHARS)
  }

  function Turns(nodes: seq<Goal>): seq<Turn> {
    if nodes == [] then [] else TurnPair(nodes[0]) + Turns(nodes[1..])
  }

  function TurnPair(node: Goal): seq<Turn> {
    [UserTurn(node.id, Content(node)), AiTurn(node.id)]
  }

  function ByUpdated(nodes: seq<Goal>): (r: seq<Keyed<Goal>>)
    ensures |r| == |nodes| && forall i :: 0 <= i < |r| ==> r[i] == Keyed(nodes[i].updatedAt, nodes[i])
  {
    seq(|nodes|, i requires 0 <= i < |nodes| => Keyed(nodes[i].updatedAt, nodes[i]))
  }

  /** Ascending creation time is descending negated time. */
  function ByCreated(nodes: seq<Goal>): (r: seq<Keyed<Goal>>)
    ensures |r| == |nodes| && forall i :: 0 <= i < |r| ==> r[i] == Keyed(-nodes[i].createdAt, nodes[i])
  {
    seq(|nodes|, i requires 0 <= i < |nodes| => Keyed(-nodes[i].createdAt, nodes[i]))
  }

  const MAX_PAIRS := MAX_PREAMBLE_TURNS / 2

  /** The ancestors that survive the cap: the most recently updated ones, put back in creation order. */
  function Selected(candidates: seq<Goal>): seq<Goal> {
    if |candidates| <= MAX_PAIRS then candidates
    else Items(SortDesc(ByCreated(Items(Take(SortDesc(ByUpdated(candidates)), MAX_PAIRS)))))
  }

  method Candidates(ancestors: seq<Goal>, contributions: map<GoalId, Contribution>) returns (found: seq<Goal>)
    ensures found == WithContribution(ancestors, contributions)
  {
    found := [];
    assert ancestors[0..] == ancestors;
    for i := 0 to |ancestors|
      invariant found + WithContribution(ancestors[i..], contributions) == WithContribution(ancestors, contributions)
    {
      ghost var rest := WithContribution(ancestors[i + 1..], contributions);
      assert ancestors[i..][0] == ancestors[i] && ancestors[i..][1..] == ancestors[i + 1..];
      assert found + ([ancestors[i]] + rest) == (found + [ancestors[i]]) + rest;
      assert found + ([] + rest) == found + rest;
      if ancestors[i].id in contributions {
        found := found + [ancestors[i]];
      }
    }
  }

  function WithContribution(ancestors: seq<Goal>, contributions: map<GoalId, Contribution>): seq<Goal> {
    if ancestors == [] then []
    else (if ancestors[0].id in contributions then [ancestors[0]] else []) + WithContribution(ancestors[1..], contributions)
  }

  method EmitTurns(candidates: seq<Goal>) returns (out: seq<Turn>)
    requires |candidates| <= MAX_PAIRS
    ensures out == Turns(candidates)
  {
    out := [];
    assert candidates[0..] == candidates;
    for i := 0 to |candidates|
      invariant out + Turns(candidates[i..]) == Turns(candidates) && |out| == 2 * i
    {
      if |out| + 2 > MAX_PREAMBLE_TURNS {
        break;
      }
      FromIndex(candidates, i);
      Assoc(out, TurnPair(candidates[i]), Turns(candidates[i + 1..]));
      out := out + TurnPair(candidates[i]);
    }
  }

  method BuildPreamblePairs(ancestors: seq<Goal>, contributions: map<GoalId, Contribution>) returns (out: seq<Turn>)
    ensures out == Turns(Selected(WithContribution(ancestors, contributions)))
  {
    var candidates := Candidates(ancestors, contributions);
    SelectedSize(candidates);
    if |candidates| > MAX_PAIRS {
      var recent := Items(Take(SortDesc(ByUpdated(candidates)), MAX_PAIRS));
      candidates := Items(SortDesc(ByCreated(recent)));
    }
    out := EmitTurns(candidates);
  }

  lemma SelectedSize(candidates: seq<Goal>)
    ensures |Selected(candidates)| == if |candidates| <= MAX_PAIRS then |candidates| else MAX_PAIRS
  {
    if |candidates| > MAX_PAIRS {
      SortDescFacts(ByUpdated(candidates));
      SortDescFacts(ByCreated(Items(Take(SortDesc(ByUpdated(candidates)), MAX_PAIRS))));
    }
  }

  /** The candidates the cap leaves out. */
  ghost function LeftOut(candidates: seq<Goal>): seq<Goal> {
    var ranked := SortDesc(ByUpdated(candidates));
    Items(ranked[|Take(ranked, MAX_PAIRS)|..])
  }

  ghost predicate OldestFirst(nodes: seq<Goal>) {
    forall i, j :: 0 <= i < j < |nodes| ==> nodes[i].createdAt <= nodes[j].createdAt
  }

  /**
   * When the cap bites, the survivors are the most recently updated candidates, oldest created first; every
   * candidate either survives or is left out.
   */
  lemma CapKeepsMostRecent(candidates: seq<Goal>)
    ensures multiset(Selected(candidates)) + multiset(LeftOut(candidates)) == multiset(candidates)
    ensures forall a, b :: a in Selected(candidates) && b in LeftOut(candidates) ==> a.updatedAt >= b.updatedAt
    ensures |candidates| <= 6 ==> Selected(candidates) == candidates
    ensures |candidates| > 6 ==> |Selected(candidates)| == 6 && OldestFirst(Selected(candidates))
  {
    SelectedSize(candidates);
    SortDescFacts(ByUpdated(candidates));
    if |candidates| <= MAX_PAIRS {
      assert LeftOut(candidates) == [];
    } else {
      RecentSplit(candidates);
      CreationOrder(Recent(candidates));
    }
  }

  ghost function Recent(candidates: seq<Goal>): seq<Goal> {
    Items(Take(SortDesc(ByUpdated(candidates)), MAX_PAIRS))
  }

  lemma RecentSplit(candidates: seq<Goal>)
    ensures multiset(Recent(candidates)) + multiset(LeftOut(candidates)) == multiset(candidates)
    ensures forall a, b :: a in Recent(candidates) && b in LeftOut(candidates) ==> a.updatedAt >= b.updatedAt
  {
    var ranked := SortDesc(ByUpdated(candidates));
    var kept := Take(ranked, MAX_PAIRS);
    SortDescItems(ByUpdated(candidates));
    assert Items(ByUpdated(candidates)) == candidates;
    assert Items(ranked) == Items(kept) + Items(ranked[|kept|..]);
    forall a, b | a in Recent(candidates) && b in LeftOut(candidates)
      ensures a.updatedAt >= b.updatedAt
    {
      RecentBeatsLeftOut(candidates, a, b);
    }
  }

  lemma RecentBeatsLeftOut(candidates: seq<Goal>, a: Goal, b: Goal)
    requires a in Recent(candidates) && b in LeftOut(candidates)
    ensures a.updatedAt >= b.updatedAt
  {
    var x, y := KeptBeatsDropped(ByUpdated(candidates), MAX_PAIRS, a, b);
  }

  lemma CreationOrder(kept: seq<Goal>)
    ensures var s := Items(SortDesc(ByCreated(kept)));
      OldestFirst(s) && multiset(s) == multiset(kept) && forall a :: a in s <==> a in kept
  {
    var s := Items(SortDesc(ByCreated(kept)));
    SortDescFacts(ByCreated(kept));
    SortDescItems(ByCreated(kept));
    KeysStay(ByCreated(kept));
    assert Items(ByCreated(kept)) == kept;
    assert forall k :: k in SortDesc(ByCreated(kept)) ==> k.key == -k.item.createdAt;
    forall a
      ensures a in s <==> a in kept
    {
      assert a in multiset(s) <==> a in multiset(kept);
    }
  }

  /** The transcript is one user/AI pair per selected ancestor, in order. */
  lemma {:induction false} TurnsArePairs(nodes: seq<Goal>, i: nat)
    requires i < |nodes|
    ensures |Turns(nodes)| == 2 * |nodes| && Turns(nodes)[2 * i..2 * i + 2] == TurnPair(nodes[i])
  {
    TurnsLength(nodes);
    var later := Turns(nodes[1..]);
    if i == 0 {
      PrefixOfConcat(TurnPair(nodes[0]), later);
    } else {
      TurnsArePairs(nodes[1..], i - 1);
      SliceOfConcat(TurnPair(nodes[0]), later, 2 * (i - 1), 2 * i);
    }
  }

  lemma PrefixOfConcat<T>(a: seq<T>, b: seq<T>)
    ensures (a + b)[..|a|] == a
  {
  }

  lemma SliceOfConcat<T>(a: seq<T>, b: seq<T>, i: nat, j: nat)
    requires i <= j <= |b|
    ensures (a + b)[|a| + i..|a| + j] == b[i..j]
  {
  }

  lemma {:induction false} TurnsLength(nodes: seq<Goal>)
    ensures |Turns(nodes)| == 2 * |nodes|
  {
    if nodes != [] {
      TurnsLength(nodes[1..]);
    }
  }
}
