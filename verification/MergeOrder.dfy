/** What the merges of a bundle keep, told by where it stands in the parents' contributions (projector.py). */
module MergeOrder {
  import opened Prelude
  import opened Goals
  import opened LoopIds
  import opened Ranking
  import opened Bundles

  /** The `item`-th entry of the contribution of the `pair`-th parent. */
  datatype Place = Place(pair: nat, item: nat)

  predicate Earlier(p: Place, q: Place) {
    p.pair < q.pair || (p.pair == q.pair && p.item < q.item)
  }

  /** How many entries each parent contributes. */
  type Sizes = seq<nat>

  predicate Within(p: Place, sizes: Sizes) {
    p.pair < |sizes| && p.item < sizes[p.pair]
  }

  ghost predicate InOrder(places: seq<Place>) {
    forall i, j :: 0 <= i < j < |places| ==> Earlier(places[i], places[j])
  }

  function Row(i: nat, n: nat): (r: seq<Place>)
    ensures |r| == n && forall k :: 0 <= k < n ==> r[k] == Place(i, k)
  {
    seq(n, k requires 0 <= k < n => Place(i, k))
  }

  /** All places from parent `i` on, parent by parent. */
  function Flat(sizes: Sizes, i: nat): seq<Place>
    requires i <= |sizes|
    decreases |sizes| - i
  {
    if i == |sizes| then [] else Row(i, sizes[i]) + Flat(sizes, i + 1)
  }

  lemma InOrderConcat(a: seq<Place>, b: seq<Place>)
    requires InOrder(a) && InOrder(b) && forall p, q :: p in a && q in b ==> Earlier(p, q)
    ensures InOrder(a + b)
  {
  }

  lemma {:induction false} FlatFacts(sizes: Sizes, i: nat)
    requires i <= |sizes|
    ensures InOrder(Flat(sizes, i))
    ensures forall p :: p in Flat(sizes, i) <==> Within(p, sizes) && p.pair >= i
    decreases |sizes| - i
  {
    if i < |sizes| {
      FlatFacts(sizes, i + 1);
      var row := Row(i, sizes[i]);
      forall p: Place
        ensures p in row <==> p.pair == i && p.item < sizes[i]
      {
        if p.pair == i && p.item < sizes[i] {
          assert row[p.item] == p;
        }
      }
      InOrderConcat(row, Flat(sizes, i + 1));
    }
  }

  // ---- Plan steps -------------------------------------------------------------------------------

  function StepSizes(pairs: seq<Pair>): (sizes: Sizes)
    ensures |sizes| == |pairs| && forall i :: 0 <= i < |pairs| ==> sizes[i] == |pairs[i].1.steps|
  {
    seq(|pairs|, i requires 0 <= i < |pairs| => |pairs[i].1.steps|)
  }

  /** The listed steps are those at the places, under the parent's id. */
  ghost predicate StepsAt(pairs: seq<Pair>, places: seq<Place>, steps: seq<PriorStep>) {
    |steps| == |places| && forall m :: 0 <= m < |places| ==> StepAt(pairs, places[m], steps[m])
  }

  predicate StepAt(pairs: seq<Pair>, p: Place, step: PriorStep) {
    && Within(p, StepSizes(pairs))
    && var (parent, c) := pairs[p.pair]; var s := c.steps[p.item];
      step == PriorStep(s.id, s.action, s.outcome, s.durationMs, parent)
  }

  lemma {:induction false} PriorStepsAre(parent: GoalId, steps: seq<StepSummary>)
    ensures |PriorSteps(parent, steps)| == |steps|
    ensures forall k :: 0 <= k < |steps| ==> var s := steps[k];
      PriorSteps(parent, steps)[k] == PriorStep(s.id, s.action, s.outcome, s.durationMs, parent)
  {
    if steps != [] {
      PriorStepsAre(parent, steps[1..]);
      assert forall k :: 0 < k < |steps| ==> steps[k] == steps[1..][k - 1];
    }
  }

  lemma {:induction false} AllStepsPlaced(pairs: seq<Pair>, i: nat)
    requires i <= |pairs|
    ensures StepsAt(pairs, Flat(StepSizes(pairs), i), AllSteps(pairs[i..]))
    decreases |pairs| - i
  {
    if i == |pairs| {
      assert pairs[i..] == [];
    } else {
      AllStepsPlaced(pairs, i + 1);
      FromIndex(pairs, i);
      PriorStepsAre(pairs[i].0, pairs[i].1.steps);
      var (mine, rest) := (PriorSteps(pairs[i].0, pairs[i].1.steps), AllSteps(pairs[i + 1..]));
      var (row, places) := (Row(i, StepSizes(pairs)[i]), Flat(StepSizes(pairs), i + 1));
      assert StepsAt(pairs, row, mine);
      hide PriorSteps, AllSteps, Flat;
      StepsAtConcat(pairs, row, places, mine, rest);
      assert Flat(StepSizes(pairs), i) == row + places by {
        FlatStep(StepSizes(pairs), i);
      }
      assert AllSteps(pairs[i..]) == mine + rest by {
        AllStepsStep(pairs, i);
      }
    }
  }

  lemma FlatStep(sizes: Sizes, i: nat)
    requires i < |sizes|
    ensures Flat(sizes, i) == Row(i, sizes[i]) + Flat(sizes, i + 1)
  {
  }

  lemma AllStepsStep(pairs: seq<Pair>, i: nat)
    requires i < |pairs|
    ensures AllSteps(pairs[i..]) == PriorSteps(pairs[i].0, pairs[i].1.steps) + AllSteps(pairs[i + 1..])
  {
    FromIndex(pairs, i);
  }

  lemma StepsAtConcat(pairs: seq<Pair>, p: seq<Place>, q: seq<Place>, a: seq<PriorStep>, b: seq<PriorStep>)
    requires StepsAt(pairs, p, a) && StepsAt(pairs, q, b)
    ensures StepsAt(pairs, p + q, a + b)
  {
    hide StepAt;
  }

  /** The merged plan steps: the first `cap` places of all, parent by parent in merge order. */
  lemma MergedStepsMean(pairs: seq<Pair>, cap: nat) returns (places: seq<Place>)
    ensures InOrder(places) && forall p :: p in places <==> Within(p, StepSizes(pairs))
    ensures StepsAt(pairs, Take(places, cap), Take(AllSteps(pairs), cap))
  {
    places := Flat(StepSizes(pairs), 0);
    FlatFacts(StepSizes(pairs), 0);
    AllStepsPlaced(pairs, 0);
    assert pairs[0..] == pairs;
  }

  // ---- Effects ------------------------------------------------------------------------------------

  function EffectSizes(pairs: seq<Pair>): (sizes: Sizes)
    ensures |sizes| == |pairs| && forall i :: 0 <= i < |pairs| ==> sizes[i] == |pairs[i].1.effects|
  {
    seq(|pairs|, i requires 0 <= i < |pairs| => |pairs[i].1.effects|)
  }

  function EffectAt(pairs: seq<Pair>, p: Place): Effect
    requires Within(p, EffectSizes(pairs))
  {
    pairs[p.pair].1.effects[p.item]
  }

  /** The listed effects are those at the places, with the reference stripped and the parent as origin. */
  ghost predicate EffectsAt(pairs: seq<Pair>, places: seq<Place>, effects: seq<Effect>) {
    |effects| == |places| && forall m :: 0 <= m < |places| ==> Carried(pairs, places[m], effects[m])
  }

  predicate Carried(pairs: seq<Pair>, p: Place, effect: Effect) {
    && Within(p, EffectSizes(pairs))
    && var e := EffectAt(pairs, p);
      effect == Effect(e.kind, Strip(e.ref), e.statement, e.digest, e.confidence, Some(pairs[p.pair].0))
  }

  lemma {:induction false} StampedEffectsAre(parent: GoalId, effects: seq<Effect>)
    ensures |StampedEffects(parent, effects)| == |effects|
    ensures forall k :: 0 <= k < |effects| ==> var e := effects[k];
      StampedEffects(parent, effects)[k] == Effect(e.kind, Strip(e.ref), e.statement, e.digest, e.confidence, Some(parent))
  {
    if effects != [] {
      StampedEffectsAre(parent, effects[1..]);
      assert forall k :: 0 < k < |effects| ==> effects[k] == effects[1..][k - 1];
    }
  }

  lemma EffectsAtConcat(pairs: seq<Pair>, p: seq<Place>, q: seq<Place>, a: seq<Effect>, b: seq<Effect>)
    requires EffectsAt(pairs, p, a) && EffectsAt(pairs, q, b)
    ensures EffectsAt(pairs, p + q, a + b)
  {
    hide Carried;
  }

  lemma {:induction false} AllEffectsPlaced(pairs: seq<Pair>, i: nat)
    requires i <= |pairs|
    ensures EffectsAt(pairs, Flat(EffectSizes(pairs), i), AllEffects(pairs[i..]))
    decreases |pairs| - i
  {
    if i == |pairs| {
      assert pairs[i..] == [];
    } else {
      AllEffectsPlaced(pairs, i + 1);
      StampedEffectsAre(pairs[i].0, pairs[i].1.effects);
      var (mine, rest) := (StampedEffects(pairs[i].0, pairs[i].1.effects), AllEffects(pairs[i + 1..]));
      var (row, places) := (Row(i, EffectSizes(pairs)[i]), Flat(EffectSizes(pairs), i + 1));
      assert EffectsAt(pairs, row, mine);
      hide StampedEffects, AllEffects, Flat;
      EffectsAtConcat(pairs, row, places, mine, rest);
      FlatStep(EffectSizes(pairs), i);
      AllEffectsStep(pairs, i);
    }
  }

  lemma AllEffectsStep(pairs: seq<Pair>, i: nat)
    requires i < |pairs|
    ensures AllEffects(pairs[i..]) == StampedEffects(pairs[i].0, pairs[i].1.effects) + AllEffects(pairs[i + 1..])
  {
    FromIndex(pairs, i);
  }

  /** Nothing earlier carries the reference at `p`, which is not blank. */
  ghost predicate FirstCarrierAt(pairs: seq<Pair>, p: Place) {
    && Within(p, EffectSizes(pairs)) && Strip(EffectAt(pairs, p).ref) != ""
    && forall q :: Within(q, EffectSizes(pairs)) && Earlier(q, p) ==>
      Strip(EffectAt(pairs, q).ref) != Strip(EffectAt(pairs, p).ref)
  }

  /** The places keep-first keeps, of a list of effects standing at `places`. */
  function KeptPlaces(places: seq<Place>, effects: seq<Effect>, seen: set<string>): seq<Place>
    requires |places| == |effects|
    decreases |effects|
  {
    if effects == [] then []
    else if effects[0].ref == "" || effects[0].ref in seen then KeptPlaces(places[1..], effects[1..], seen)
    else [places[0]] + KeptPlaces(places[1..], effects[1..], seen + {effects[0].ref})
  }

  /** `m` is where a new, non-empty reference stands first. */
  ghost predicate NewAt(effects: seq<Effect>, seen: set<string>, m: int) {
    && 0 <= m < |effects| && effects[m].ref != "" && effects[m].ref !in seen
    && forall j :: 0 <= j < m ==> effects[j].ref != effects[m].ref
  }

  /** The place of a new reference is `p`. */
  ghost predicate StandsNew(effects: seq<Effect>, seen: set<string>, places: seq<Place>, p: Place) {
    exists m :: NewAt(effects, seen, m) && m < |places| && places[m] == p
  }

  lemma NewAtOfCons(head: Effect, rest: seq<Effect>, seen: set<string>, m: int)
    requires m > 0
    ensures NewAt([head] + rest, seen, m) <==>
      NewAt(rest, if head.ref == "" || head.ref in seen then seen else seen + {head.ref}, m - 1)
  {
    var all := [head] + rest;
    var seen' := if head.ref == "" || head.ref in seen then seen else seen + {head.ref};
    if NewAt(all, seen, m) {
      assert all[0].ref != all[m].ref && all[m] == rest[m - 1];
      forall j | 0 <= j < m - 1
        ensures rest[j].ref != rest[m - 1].ref
      {
        assert all[j + 1] == rest[j];
      }
      assert NewAt(rest, seen', m - 1);
    }
    if NewAt(rest, seen', m - 1) {
      assert all[m] == rest[m - 1] && all[0] == head && head.ref != all[m].ref && all[m].ref !in seen;
      forall j | 0 <= j < m
        ensures all[j].ref != all[m].ref
      {
        if j > 0 {
          assert all[j] == rest[j - 1];
        }
      }
      assert NewAt(all, seen, m);
    }
  }

  lemma {:induction false} KeptPlacesAre(pairs: seq<Pair>, places: seq<Place>, effects: seq<Effect>, seen: set<string>)
    requires EffectsAt(pairs, places, effects) && InOrder(places)
    ensures var kept := KeptPlaces(places, effects, seen);
      && EffectsAt(pairs, kept, KeepFirst(effects, seen)) && InOrder(kept)
      && forall p :: p in kept <==> StandsNew(effects, seen, places, p)
    decreases |effects|
  {
    if effects == [] {
      assert forall m :: !NewAt(effects, seen, m);
    } else {
      var (head, rest, first, later) := (effects[0], effects[1..], places[0], places[1..]);
      assert effects == [head] + rest && places == [first] + later;
      Uncons(pairs, first, later, head, rest);
      var novel := head.ref != "" && head.ref !in seen;
      var seen' := if novel then seen + {head.ref} else seen;
      KeptPlacesAre(pairs, later, rest, seen');
      var (kept, effects') := (KeptPlaces(later, rest, seen'), KeepFirst(rest, seen'));
      hide *;
      KeptStep(places, effects, seen);
      KeptMembers(first, later, head, rest, seen, kept);
      if novel {
        EffectsAtConcat(pairs, [first], kept, [head], effects');
        FirstInOrder(first, kept);
      }
    }
  }

  lemma Uncons(pairs: seq<Pair>, first: Place, later: seq<Place>, head: Effect, rest: seq<Effect>)
    requires EffectsAt(pairs, [first] + later, [head] + rest) && InOrder([first] + later)
    ensures EffectsAt(pairs, later, rest) && EffectsAt(pairs, [first], [head]) && InOrder(later)
    ensures forall q :: q in later ==> Earlier(first, q)
  {
    hide Carried, Earlier;
    var (places, effects) := ([first] + later, [head] + rest);
    assert places[0] == first && effects[0] == head && Carried(pairs, places[0], effects[0]);
    forall i | 0 <= i < |later|
      ensures Carried(pairs, later[i], rest[i])
    {
      assert Carried(pairs, places[i + 1], effects[i + 1]);
    }
    forall i, j | 0 <= i < j < |later|
      ensures Earlier(later[i], later[j])
    {
      assert Earlier(places[i + 1], places[j + 1]);
    }
    forall q | q in later
      ensures Earlier(first, q)
    {
      var k :| 0 <= k < |later| && later[k] == q;
      assert Earlier(places[0], places[k + 1]);
    }
  }

  lemma KeptStep(places: seq<Place>, effects: seq<Effect>, seen: set<string>)
    requires |places| == |effects| && effects != []
    ensures var novel := effects[0].ref != "" && effects[0].ref !in seen;
      var seen' := if novel then seen + {effects[0].ref} else seen;
      var (kept, effects') := (KeptPlaces(places[1..], effects[1..], seen'), KeepFirst(effects[1..], seen'));
      && KeptPlaces(places, effects, seen) == (if novel then [places[0]] + kept else kept)
      && KeepFirst(effects, seen) == (if novel then [effects[0]] + effects' else effects')
  {
  }

  lemma FirstInOrder(first: Place, kept: seq<Place>)
    requires InOrder(kept) && forall q :: q in kept ==> Earlier(first, q)
    ensures InOrder([first] + kept)
  {
  }

  lemma KeptMembers(
    first: Place, later: seq<Place>, head: Effect, rest: seq<Effect>, seen: set<string>, kept: seq<Place>)
    requires |later| == |rest|
    requires var seen' := if head.ref == "" || head.ref in seen then seen else seen + {head.ref};
      forall p :: p in kept <==> StandsNew(rest, seen', later, p)
    ensures var novel := head.ref != "" && head.ref !in seen;
      forall p :: p in (if novel then [first] + kept else kept) <==> StandsNew([head] + rest, seen, [first] + later, p)
    ensures forall p :: p in kept ==> p in later
  {
    var novel := head.ref != "" && head.ref !in seen;
    var seen' := if novel then seen + {head.ref} else seen;
    forall p
      ensures StandsNew([head] + rest, seen, [first] + later, p)
        <==> (novel && p == first) || StandsNew(rest, seen', later, p)
    {
      NewMember(first, later, head, rest, seen, p);
    }
  }

  lemma NewMember(first: Place, later: seq<Place>, head: Effect, rest: seq<Effect>, seen: set<string>, p: Place)
    requires |later| == |rest|
    ensures var novel := head.ref != "" && head.ref !in seen; var seen' := if novel then seen + {head.ref} else seen;
      StandsNew([head] + rest, seen, [first] + later, p) <==> (novel && p == first) || StandsNew(rest, seen', later, p)
  {
    var (effects, places) := ([head] + rest, [first] + later);
    var novel := head.ref != "" && head.ref !in seen;
    var seen' := if novel then seen + {head.ref} else seen;
    assert effects[0] == head && places[0] == first;
    if m :| NewAt(effects, seen, m) && places[m] == p {
      if m > 0 {
        NewAtOfCons(head, rest, seen, m);
        assert NewAt(rest, seen', m - 1) && later[m - 1] == p;
      }
    }
    if m :| NewAt(rest, seen', m) && m < |later| && later[m] == p {
      NewAtOfCons(head, rest, seen, m + 1);
      assert NewAt(effects, seen, m + 1) && places[m + 1] == p;
    }
    if novel && p == first {
      assert NewAt(effects, seen, 0);
    }
  }

  /**
   * The merged effects: in order of their places, the first carriers of every non-blank reference, cut at the
   * cap, which lets at least one through.
   */
  lemma MergedEffectsMean(pairs: seq<Pair>, cap: nat) returns (places: seq<Place>)
    ensures InOrder(places) && forall p :: p in places <==> FirstCarrierAt(pairs, p)
    ensures var merged := Take(KeepFirst(AllEffects(pairs), {}), EffectLimit(cap));
      EffectsAt(pairs, Take(places, if cap < 1 then 1 else cap), merged)
  {
    var all := Flat(EffectSizes(pairs), 0);
    FlatFacts(EffectSizes(pairs), 0);
    AllEffectsPlaced(pairs, 0);
    assert pairs[0..] == pairs && Flat(EffectSizes(pairs), 0) == all;
    var effects := AllEffects(pairs);
    hide *;
    KeptPlacesAre(pairs, all, effects, {});
    places := KeptPlaces(all, effects, {});
    forall p
      ensures StandsNew(effects, {}, all, p) <==> FirstCarrierAt(pairs, p)
    {
      NewIsFirstCarrier(pairs, all, effects, p);
    }
    TakenEffects(pairs, places, KeepFirst(effects, {}), cap);
  }

  lemma TakenEffects(pairs: seq<Pair>, places: seq<Place>, effects: seq<Effect>, cap: nat)
    requires EffectsAt(pairs, places, effects)
    ensures EffectsAt(pairs, Take(places, if cap < 1 then 1 else cap), Take(effects, EffectLimit(cap)))
  {
    hide Carried;
  }

  lemma NewIsFirstCarrier(pairs: seq<Pair>, all: seq<Place>, effects: seq<Effect>, p: Place)
    requires EffectsAt(pairs, all, effects) && InOrder(all)
    requires forall q :: q in all <==> Within(q, EffectSizes(pairs)) && q.pair >= 0
    ensures StandsNew(effects, {}, all, p) <==> FirstCarrierAt(pairs, p)
  {
    hide Within, EffectSizes;
    if m :| NewAt(effects, {}, m) && m < |all| && all[m] == p {
      NewCarriesFirst(pairs, all, effects, m);
    }
    if FirstCarrierAt(pairs, p) {
      assert p in all;
      var m :| 0 <= m < |all| && all[m] == p;
      FirstIsNew(pairs, all, effects, m);
    }
  }

  lemma NewCarriesFirst(pairs: seq<Pair>, all: seq<Place>, effects: seq<Effect>, m: int)
    requires EffectsAt(pairs, all, effects) && InOrder(all)
    requires forall q :: q in all <==> Within(q, EffectSizes(pairs)) && q.pair >= 0
    requires NewAt(effects, {}, m) && m < |all|
    ensures FirstCarrierAt(pairs, all[m])
  {
    hide Within, EffectSizes, Strip, Earlier;
    var p := all[m];
    assert Carried(pairs, p, effects[m]);
    forall q | Within(q, EffectSizes(pairs)) && Earlier(q, p)
      ensures Strip(EffectAt(pairs, q).ref) != Strip(EffectAt(pairs, p).ref)
    {
      assert q in all;
      var j :| 0 <= j < |all| && all[j] == q;
      assert Carried(pairs, q, effects[j]);
      EarlierIsBefore(all, j, m);
      assert effects[j].ref != effects[m].ref;
    }
  }

  lemma EarlierIsBefore(all: seq<Place>, j: int, m: int)
    requires InOrder(all) && 0 <= j < |all| && 0 <= m < |all| && Earlier(all[j], all[m])
    ensures j < m
  {
  }

  lemma FirstIsNew(pairs: seq<Pair>, all: seq<Place>, effects: seq<Effect>, m: int)
    requires EffectsAt(pairs, all, effects) && InOrder(all) && 0 <= m < |all| && FirstCarrierAt(pairs, all[m])
    ensures NewAt(effects, {}, m)
  {
    hide Within, EffectSizes;
    assert Carried(pairs, all[m], effects[m]);
    forall j | 0 <= j < m
      ensures effects[j].ref != effects[m].ref
    {
      assert Carried(pairs, all[j], effects[j]) && Earlier(all[j], all[m]);
    }
  }
}
