/** Token accounting from worker progress: a per-goal cursor over cumulative counters (service.py). */
module TokenCursor {
  import opened Prelude
  import opened Goals

  /** A payload field as `int(...)` sees it; `Blank` is an empty non-number such as the empty string. */
  datatype Field = Absent | Null | Blank | Number(value: int) | Unreadable

  datatype Payload = Payload(tokensUsed: Field, totalUsed: Field)

  datatype Event = Started | Step(payload: Payload) | Completed

  type Cursor = map<GoalId, nat>

  function Positive(n: int): nat {
    if n < 0 then 0 else n
  }

  predicate IsExplicit(p: Payload) {
    !p.tokensUsed.Absent? && !p.tokensUsed.Null?
  }

  /** `int(payload.get("total_tokens_used") or 0)`; None where the conversion raises. */
  function Cumulative(f: Field): Option<int> {
    match f
    case Number(n) => Some(n)
    case Unreadable => None
    case _ => Some(0)
  }

  /** The tokens one step adds, given the cursor before it. */
  function Delta(prev: nat, p: Payload): nat {
    if IsExplicit(p) then
      if p.tokensUsed.Number? then Positive(p.tokensUsed.value) else 0
    else if p.totalUsed.Absent? || Cumulative(p.totalUsed).None? then 0
    else
      var now := Positive(Cumulative(p.totalUsed).value);
      if now < prev then now else now - prev
  }

  /** Where the step leaves the cursor; None when it does not move it. */
  function Moved(p: Payload): Option<nat> {
    var total := if p.totalUsed.Absent? then None else Cumulative(p.totalUsed);
    if total.None? then None
    else if IsExplicit(p) then (if total.value >= 0 then Some(total.value) else None)
    else Some(Positive(total.value))
  }

  function At(c: Cursor, g: GoalId): nat {
    if g in c then c[g] else 0
  }

  /** One event of goal `g`: the cursor after it and the tokens it adds. */
  function Handle(c: Cursor, g: GoalId, e: Event): (Cursor, nat) {
    match e
    case Started => (c[g := 0], 0)
    case Step(p) => (if Moved(p).Some? then c[g := Moved(p).value] else c, Delta(At(c, g), p))
    case Completed => (c - {g}, 0)
  }

  class TokenMeter {
    var cursor: Cursor

    constructor ()
      ensures cursor == map[]
    {
      cursor := map[];
    }

    method StepTokenDelta(g: GoalId, p: Payload) returns (delta: nat)
      modifies this
      ensures (cursor, delta) == Handle(old(cursor), g, Step(p))
    {
      if !p.tokensUsed.Absent? && !p.tokensUsed.Null? {
        delta := if p.tokensUsed.Number? && p.tokensUsed.value >= 0 then p.tokensUsed.value else 0;
        if !p.totalUsed.Absent? {
          var total := Cumulative(p.totalUsed);
          if total.Some? && total.value >= 0 {
            cursor := cursor[g := total.value];
          }
        }
        return;
      }
      if p.totalUsed.Absent? {
        return 0;
      }
      var total := Cumulative(p.totalUsed);
      if total.None? {
        return 0;
      }
      var now := if total.value < 0 then 0 else total.value;
      var prev := if g in cursor then cursor[g] else 0;
      delta := if now - prev < 0 then now else now - prev;
      cursor := cursor[g := now];
    }

    /** The token side of one stream: attempts restart the cursor, completion drops it and ends the stream. */
    method ConsumeStream(g: GoalId, events: seq<Event>) returns (tokens: nat)
      modifies this
      ensures tokens == Alone(At(old(cursor), g), Consumed(events))
      ensures At(cursor, g) == CursorAfter(At(old(cursor), g), Consumed(events))
      ensures forall h :: h != g ==> At(cursor, h) == At(old(cursor), h)
    {
      tokens := 0;
      assert events[0..] == events;
      for i := 0 to |events|
        invariant tokens + Alone(At(cursor, g), Consumed(events[i..])) == Alone(At(old(cursor), g), Consumed(events))
        invariant CursorAfter(At(cursor, g), Consumed(events[i..])) == CursorAfter(At(old(cursor), g), Consumed(events))
        invariant forall h :: h != g ==> At(cursor, h) == At(old(cursor), h)
      {
        FromIndex(events, i);
        match events[i] {
          case Started =>
            cursor := cursor[g := 0];
          case Step(p) =>
            var delta := StepTokenDelta(g, p);
            tokens := tokens + delta;
          case Completed =>
            cursor := cursor - {g};
            break;
        }
      }
    }
  }

  // ---- Conservation ---------------------------------------------------------------------------

  /** The cursor value a single goal's event leaves behind. */
  function After(prev: nat, e: Event): nat {
    match e
    case Step(p) => if Moved(p).Some? then Moved(p).value else prev
    case _ => 0
  }

  function Gain(prev: nat, e: Event): nat {
    if e.Step? then Delta(prev, e.payload) else 0
  }

  /** What a stream is read for: its events up to the first completion. */
  function Consumed(events: seq<Event>): seq<Event> {
    if events == [] then []
    else if events[0].Completed? then [events[0]]
    else [events[0]] + Consumed(events[1..])
  }

  /** Tokens counted for one goal from its own events. */
  function Alone(prev: nat, events: seq<Event>): nat
    decreases |events|
  {
    if events == [] then 0 else Gain(prev, events[0]) + Alone(After(prev, events[0]), events[1..])
  }

  /** Tokens counted for `g` while the events of all goals interleave. */
  function Spent(c: Cursor, events: seq<(GoalId, Event)>, g: GoalId): nat
    decreases |events|
  {
    if events == [] then 0
    else
      var (next, gain) := Handle(c, events[0].0, events[0].1);
      (if events[0].0 == g then gain else 0) + Spent(next, events[1..], g)
  }

  function Mine(events: seq<(GoalId, Event)>, g: GoalId): seq<Event> {
    if events == [] then []
    else (if events[0].0 == g then [events[0].1] else []) + Mine(events[1..], g)
  }

  /** Goals do not affect each other: each is counted as if it were alone. */
  lemma {:induction false} GoalsAreIndependent(c: Cursor, events: seq<(GoalId, Event)>, g: GoalId)
    ensures Spent(c, events, g) == Alone(At(c, g), Mine(events, g))
    decreases |events|
  {
    if events != [] {
      var (next, gain) := Handle(c, events[0].0, events[0].1);
      GoalsAreIndependent(next, events[1..], g);
      if events[0].0 == g {
        assert Mine(events, g) == [events[0].1] + Mine(events[1..], g);
        assert Mine(events, g)[1..] == Mine(events[1..], g);
        assert At(next, g) == After(At(c, g), events[0].1);
      } else {
        assert Mine(events, g) == Mine(events[1..], g) && At(next, g) == At(c, g);
      }
    }
  }

  /** A step that carries only a readable cumulative counter. */
  function Reading(total: nat): Event {
    Step(Payload(Absent, Number(total)))
  }

  function Readings(totals: seq<nat>): seq<Event> {
    if totals == [] then [] else [Reading(totals[0])] + Readings(totals[1..])
  }

  /** The values of the counter that stand just before a drop, added up. */
  function BeforeDrops(totals: seq<nat>): nat {
    if |totals| < 2 then 0
    else (if totals[1] < totals[0] then totals[0] else 0) + BeforeDrops(totals[1..])
  }

  function Last(totals: seq<nat>): nat {
    if totals == [] then 0 else totals[|totals| - 1]
  }

  /** Counting a list: its first event, then the rest from the cursor it leaves. */
  lemma AloneOfCons(prev: nat, e: Event, rest: seq<Event>)
    ensures Alone(prev, [e] + rest) == Gain(prev, e) + Alone(After(prev, e), rest)
  {
    assert ([e] + rest)[1..] == rest;
  }

  lemma ReadingEffect(prev: nat, total: nat)
    ensures After(prev, Reading(total)) == total
    ensures prev + Gain(prev, Reading(total)) == total + (if total < prev then prev else 0)
  {
  }

  lemma DropsOfCons(prev: nat, totals: seq<nat>)
    requires totals != []
    ensures BeforeDrops([prev] + totals) == (if totals[0] < prev then prev else 0) + BeforeDrops(totals)
    ensures Last([prev] + totals) == Last(totals)
  {
    assert ([prev] + totals)[1..] == totals;
  }

  lemma {:induction false} ReadingsConserve(prev: nat, totals: seq<nat>)
    ensures prev + Alone(prev, Readings(totals)) == Last([prev] + totals) + BeforeDrops([prev] + totals)
    decreases |totals|
  {
    if totals == [] {
      assert [prev] + totals == [prev];
    } else {
      var (first, rest) := (totals[0], totals[1..]);
      assert totals == [first] + rest;
      ReadingsConserve(first, rest);
      AloneOfCons(prev, Reading(first), Readings(rest));
      hide Alone, Gain, After, BeforeDrops, Last, Reading;
      ReadingEffect(prev, first);
      DropsOfCons(prev, totals);
    }
  }

  /** Within one attempt the deltas add up to the last reading plus every reading just before a drop. */
  lemma AttemptConserves(totals: seq<nat>)
    ensures Alone(0, Readings(totals)) == Last(totals) + BeforeDrops(totals)
  {
    ReadingsConserve(0, totals);
    assert ([0] + totals)[1..] == totals;
  }

  /** A counter that never drops is counted exactly once. */
  lemma RisingCounterCountsOnce(totals: seq<nat>)
    requires forall i :: 0 <= i < |totals| - 1 ==> totals[i] <= totals[i + 1]
    ensures Alone(0, Readings(totals)) == Last(totals)
  {
    AttemptConserves(totals);
    RisingNeverDrops(totals);
  }

  lemma {:induction false} RisingNeverDrops(totals: seq<nat>)
    requires forall i :: 0 <= i < |totals| - 1 ==> totals[i] <= totals[i + 1]
    ensures BeforeDrops(totals) == 0
  {
    if |totals| >= 2 {
      forall i | 0 <= i < |totals[1..]| - 1
        ensures totals[1..][i] <= totals[1..][i + 1]
      {
        assert totals[i + 1] <= totals[i + 2];
      }
      RisingNeverDrops(totals[1..]);
    }
  }

  /** Attempt after attempt, each announced by its start. */
  function Attempts(attempts: seq<seq<nat>>): seq<Event> {
    if attempts == [] then [] else [Started] + Readings(attempts[0]) + Attempts(attempts[1..])
  }

  function TotalOf(attempts: seq<seq<nat>>): nat {
    if attempts == [] then 0 else Last(attempts[0]) + BeforeDrops(attempts[0]) + TotalOf(attempts[1..])
  }

  /** Where a list of readings leaves the cursor does not matter to the attempt after the next start. */
  lemma {:induction false} ReadingsThenRest(prev: nat, totals: seq<nat>, rest: seq<Event>)
    requires rest == [] || rest[0] == Started
    ensures Alone(prev, Readings(totals) + rest) == Alone(prev, Readings(totals)) + Alone(0, rest)
    decreases |totals|
  {
    if totals == [] {
      assert Readings(totals) + rest == rest;
      RestartForgets(prev, 0, rest);
    } else {
      var (first, tail) := (Reading(totals[0]), Readings(totals[1..]));
      Assoc([first], tail, rest);
      AloneOfCons(prev, first, tail + rest);
      AloneOfCons(prev, first, tail);
      hide Alone, Gain, After, Reading;
      ReadingEffect(prev, totals[0]);
      ReadingsThenRest(totals[0], totals[1..], rest);
    }
  }

  lemma RestartForgets(a: nat, b: nat, events: seq<Event>)
    requires events == [] || events[0] == Started
    ensures Alone(a, events) == Alone(b, events)
  {
  }

  /** Over all attempts of a goal, whatever the cursor held before, nothing is lost or counted twice. */
  lemma {:induction false} AttemptsAddUp(prev: nat, attempts: seq<seq<nat>>)
    ensures Alone(prev, Attempts(attempts)) == TotalOf(attempts)
    decreases |attempts|
  {
    if attempts != [] {
      var rest := Attempts(attempts[1..]);
      Assoc([Started], Readings(attempts[0]), rest);
      AloneOfCons(prev, Started, Readings(attempts[0]) + rest);
      ReadingsThenRest(0, attempts[0], rest);
      hide Alone, Readings, BeforeDrops, Last;
      AttemptConserves(attempts[0]);
      AttemptsAddUp(0, attempts[1..]);
    }
  }

  /** Steps may report their own delta next to the counter: mixing both kinds still counts once. */
  ghost predicate Consistent(prev: nat, steps: seq<Payload>)
    decreases |steps|
  {
    steps == [] || (
      && steps[0].totalUsed.Number? && steps[0].totalUsed.value >= prev
      && (IsExplicit(steps[0]) ==> steps[0].tokensUsed == Number(steps[0].totalUsed.value - prev))
      && Consistent(steps[0].totalUsed.value, steps[1..]))
  }

  function Shown(p: Payload): int {
    if p.totalUsed.Number? then p.totalUsed.value else 0
  }

  function AsSteps(steps: seq<Payload>): seq<Event> {
    if steps == [] then [] else [Step(steps[0])] + AsSteps(steps[1..])
  }

  lemma {:induction false} MixedReportsCountOnce(prev: nat, steps: seq<Payload>)
    requires Consistent(prev, steps) && steps != []
    ensures prev + Alone(prev, AsSteps(steps)) == Shown(steps[|steps| - 1])
    decreases |steps|
  {
    assert AsSteps(steps)[1..] == AsSteps(steps[1..]);
    if |steps| > 1 {
      MixedReportsCountOnce(steps[0].totalUsed.value, steps[1..]);
    } else {
      assert AsSteps(steps[1..]) == [];
    }
  }

  // ---- One step anywhere in a stream ------------------------------------------------------------

  function CursorAfter(prev: nat, events: seq<Event>): nat
    decreases |events|
  {
    if events == [] then prev else CursorAfter(After(prev, events[0]), events[1..])
  }

  lemma {:induction false} AloneOfConcat(prev: nat, a: seq<Event>, b: seq<Event>)
    ensures Alone(prev, a + b) == Alone(prev, a) + Alone(CursorAfter(prev, a), b)
    decreases |a|
  {
    if a == [] {
      assert a + b == b;
    } else {
      assert (a + b)[1..] == a[1..] + b;
      AloneOfConcat(After(prev, a[0]), a[1..], b);
    }
  }

  lemma StepBetween(prev: nat, a: seq<Event>, p: Payload, b: seq<Event>)
    ensures var cursor := CursorAfter(prev, a);
      Alone(prev, a + ([Step(p)] + b))
        == Alone(prev, a) + Gain(cursor, Step(p)) + Alone(After(cursor, Step(p)), b)
  {
    AloneOfConcat(prev, a, [Step(p)] + b);
    AloneOfCons(CursorAfter(prev, a), Step(p), b);
  }

  /**
   * A step that reports its own tokens adds just these, nothing for a negative or unreadable number. A counter
   * beside them is where counting goes on; an absent, negative or unreadable one changes nothing later.
   */
  lemma OwnTokensCountOnce(prev: nat, a: seq<Event>, p: Payload, b: seq<Event>)
    requires p.tokensUsed.Number? || p.tokensUsed.Blank? || p.tokensUsed.Unreadable?
    ensures var own := if p.tokensUsed.Number? && p.tokensUsed.value > 0 then p.tokensUsed.value else 0;
      && (p.totalUsed.Absent? || p.totalUsed.Unreadable? || (p.totalUsed.Number? && p.totalUsed.value < 0) ==>
          Alone(prev, a + ([Step(p)] + b)) == Alone(prev, a + b) + own)
      && (p.totalUsed.Number? && p.totalUsed.value >= 0 ==>
          Alone(prev, a + ([Step(p)] + b)) == Alone(prev, a) + own + Alone(p.totalUsed.value, b))
      && (p.totalUsed.Null? || p.totalUsed.Blank? ==>
          Alone(prev, a + ([Step(p)] + b)) == Alone(prev, a) + own + Alone(0, b))
  {
    StepBetween(prev, a, p, b);
    AloneOfConcat(prev, a, b);
    hide Alone, CursorAfter;
  }

  /** A step that reports neither, or only an unreadable counter, could as well be missing. */
  lemma SilentStepsDoNothing(prev: nat, a: seq<Event>, p: Payload, b: seq<Event>)
    requires (p.tokensUsed.Absent? || p.tokensUsed.Null?) && (p.totalUsed.Absent? || p.totalUsed.Unreadable?)
    ensures Alone(prev, a + ([Step(p)] + b)) == Alone(prev, a + b)
  {
    StepBetween(prev, a, p, b);
    AloneOfConcat(prev, a, b);
    hide Alone, CursorAfter;
  }

  /** An empty, null or negative counter counts as a reading of zero. */
  lemma EmptyCounterReadsZero(prev: nat, a: seq<Event>, p: Payload, b: seq<Event>)
    requires p.tokensUsed.Absent? || p.tokensUsed.Null?
    requires p.totalUsed.Null? || p.totalUsed.Blank? || (p.totalUsed.Number? && p.totalUsed.value < 0)
    ensures Alone(prev, a + ([Step(p)] + b)) == Alone(prev, a + ([Reading(0)] + b))
  {
    StepBetween(prev, a, p, b);
    StepBetween(prev, a, Payload(Absent, Number(0)), b);
    hide Alone, CursorAfter;
  }

  // ---- The end of a stream ------------------------------------------------------------------------

  ghost predicate NoEnd(events: seq<Event>) {
    forall i :: 0 <= i < |events| ==> !events[i].Completed?
  }

  /** A stream is read up to and including its first completion, and to its end if there is none. */
  lemma {:induction false} ConsumedMeans(a: seq<Event>, b: seq<Event>)
    requires NoEnd(a)
    ensures Consumed(a) == a && Consumed(a + ([Event.Completed] + b)) == a + [Event.Completed]
    decreases |a|
  {
    if a == [] {
      assert a + ([Event.Completed] + b) == [Event.Completed] + b;
    } else {
      assert (a + ([Event.Completed] + b))[1..] == a[1..] + ([Event.Completed] + b);
      assert a == [a[0]] + a[1..];
      ConsumedMeans(a[1..], b);
    }
  }
}
