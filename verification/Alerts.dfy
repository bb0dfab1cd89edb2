/** Which goals a scan reports, and when two job intents share a key (sla/monitor.py, notify/models.py). */
module Alerts {
  import opened Prelude
  import opened Goals
  import opened Notify

  /** The tier's limit is switched on and the goal has been running that long. */
  predicate Reached(w: Watched, c: SlaConfig, t: Tier) {
    var limit := match t case Warning => c.warning case Critical => c.critical case Breached => c.breach;
    limit > 0 && w.elapsed >= limit as real
  }

  /** An open goal with unresolved gaps that reached tier `t` and no higher one. */
  predicate IsOverdue(w: Watched, c: SlaConfig, t: Tier) {
    && w.status !in {Completed, Failed, Cancelled, Validated}
    && (w.unresolved > 0 || w.gaps != [])
    && Reached(w, c, t)
    && (t.Warning? ==> !Reached(w, c, Critical))
    && (!t.Breached? ==> !Reached(w, c, Breached))
  }

  /** Every goal status is watched but the four of a goal that is over or validated. */
  lemma WatchableMeans(s: GoalStatus)
    ensures Watchable(s) <==> s !in {Completed, Failed, Cancelled, Validated}
  {
    match s
    case Pending =>
    case Active =>
    case Completed =>
    case Failed =>
    case Suspended =>
    case Blocked =>
    case Validated =>
    case AwaitingClarification =>
    case Cancelled =>
  }

  lemma OverdueMeans(w: Watched, c: SlaConfig)
    ensures forall t :: Overdue(w, c) == Some(t) <==> IsOverdue(w, c, t)
    ensures Overdue(w, c).None? <==> forall t :: !IsOverdue(w, c, t)
  {
    var r := Overdue(w, c);
    WatchableMeans(w.status);
    assert r.Some? ==> IsOverdue(w, c, r.value);
    forall t | IsOverdue(w, c, t)
      ensures r == Some(t)
    {
      assert t == Warning || t == Critical || t == Breached;
    }
  }

  ghost predicate Ascending(at: seq<nat>) {
    forall i, j :: 0 <= i < j < |at| ==> at[i] < at[j]
  }

  ghost predicate SomeTier(w: Watched, c: SlaConfig) {
    exists t :: IsOverdue(w, c, t)
  }

  /** The goals reported stand at these positions, in order, each under its tier. */
  ghost predicate ReportedAt(goals: seq<Watched>, c: SlaConfig, at: seq<nat>, alerts: seq<Alert>) {
    && Ascending(at) && |alerts| == |at|
    && (forall i: nat :: i in at <==> i < |goals| && SomeTier(goals[i], c))
    && forall m :: 0 <= m < |at| ==> at[m] < |goals| && AlertFor(goals[at[m]], c, alerts[m])
  }

  ghost predicate AlertFor(w: Watched, c: SlaConfig, a: Alert) {
    a.goal == w.id && IsOverdue(w, c, a.tier)
  }

  /** A scan reports exactly the overdue goals, each once and in the order of the list. */
  lemma {:induction false} ScanReportsExactly(goals: seq<Watched>, c: SlaConfig) returns (at: seq<nat>)
    ensures ReportedAt(goals, c, at, Breaches(goals, c))
  {
    if goals == [] {
      return [];
    }
    var n := |goals| - 1;
    at := ScanReportsExactly(goals[..n], c);
    OverdueMeans(goals[n], c);
    var mine := AlertsOf(goals[n], c);
    assert mine != [] <==> SomeTier(goals[n], c);
    assert mine != [] ==> AlertFor(goals[n], c, mine[0]) && |mine| == 1;
    hide AlertFor, SomeTier, AlertsOf;
    var longer := if mine == [] then at else at + [n];
    OneMoreReported(goals, c, at, Breaches(goals[..n], c), mine);
    return longer;
  }

  lemma OneMoreReported(goals: seq<Watched>, c: SlaConfig, at: seq<nat>, alerts: seq<Alert>, mine: seq<Alert>)
    requires goals != [] && ReportedAt(goals[..|goals| - 1], c, at, alerts)
    requires mine != [] <==> SomeTier(goals[|goals| - 1], c)
    requires mine != [] ==> |mine| == 1 && AlertFor(goals[|goals| - 1], c, mine[0])
    ensures ReportedAt(goals, c, if mine == [] then at else at + [|goals| - 1 as nat], alerts + mine)
  {
    hide AlertFor, SomeTier;
    var n := |goals| - 1;
    assert forall i :: 0 <= i < n ==> goals[..n][i] == goals[i];
    if mine == [] {
      assert alerts + mine == alerts;
    } else {
      var longer := at + [n as nat];
      assert forall m :: 0 <= m < |at| ==> at[m] in at;
      forall i: nat
        ensures i in longer <==> i < |goals| && SomeTier(goals[i], c)
      {
        assert i in longer <==> i in at || i == n;
      }
    }
  }

  // ---- Keys of job intents --------------------------------------------------------------------------

  function Generation(kind: string, generation: string): string {
    if generation == "" then kind else generation
  }

  ghost predicate ColonFree(s: string) {
    forall i :: 0 <= i < |s| ==> s[i] != ':'
  }

  lemma FirstColon(a: string, b: string, x: string, y: string)
    requires a + ":" + x == b + ":" + y && ColonFree(a) && ColonFree(b)
    ensures a == b && x == y
  {
    var s := a + ":" + x;
    assert s[|a|] == ':' && s[|b|] == ':';
    assert forall i :: 0 <= i < |a| ==> s[i] == a[i];
    assert forall i :: 0 <= i < |b| ==> s[i] == b[i];
    assert |a| == |b|;
    assert a == s[..|a|] && b == s[..|b|];
    assert x == s[|a| + 1..] && y == s[|b| + 1..];
  }

  /** With no colon in job ids and kinds, two intents share a key exactly when all three parts agree. */
  lemma JobKeyInjectiveIff(
    job: GoalId, kind: string, generation: string, job': GoalId, kind': string, generation': string)
    requires ColonFree(job) && ColonFree(job') && ColonFree(kind) && ColonFree(kind')
    ensures JobKey(job, kind, generation) == JobKey(job', kind', generation') <==>
      job == job' && kind == kind' && Generation(kind, generation) == Generation(kind', generation')
  {
    if JobKey(job, kind, generation) == JobKey(job', kind', generation') {
      var (x, y) := (kind + ":" + Generation(kind, generation), kind' + ":" + Generation(kind', generation'));
      assert JobKey(job, kind, generation) == job + ":" + x && JobKey(job', kind', generation') == job' + ":" + y;
      FirstColon(job, job', x, y);
      FirstColon(kind, kind', Generation(kind, generation), Generation(kind', generation'));
    }
  }

  /** For one job and kind, whatever they contain, the generation alone decides. */
  lemma GenerationsNeverShareAKey(job: GoalId, kind: string, generation: string, generation': string)
    ensures JobKey(job, kind, generation) == JobKey(job, kind, generation') <==>
      Generation(kind, generation) == Generation(kind, generation')
  {
    var n := |job + ":" + kind + ":"|;
    assert JobKey(job, kind, generation)[n..] == Generation(kind, generation);
    assert JobKey(job, kind, generation')[n..] == Generation(kind, generation');
  }

  /** With a colon in a job id two different jobs can share one. */
  lemma ColonsCollide()
    ensures JobKey("a", "job.failed", "job.failed:x") == JobKey("a:job.failed", "job.failed", "x")
  {
  }

  /** The scan asks the store for its alerts, one by one, under their keys. */
  lemma {:induction false} RequestsAreForAlerts(goals: seq<Watched>, readings: seq<Reading>, c: SlaConfig)
    requires |readings| == |goals|
    ensures var (es, alerts) := (Requests(goals, readings, c), Breaches(goals, c));
      && |es| == |alerts|
      && forall m :: 0 <= m < |es| ==> es[m].key == SlaKey(alerts[m].goal, alerts[m].tier)
  {
    if goals != [] {
      var n := |goals| - 1;
      RequestsAreForAlerts(goals[..n], readings[..n], c);
      hide SlaKey, Overdue;
    }
  }

  /** An SLA key spelled out. */
  lemma SlaKeySpelled(g: GoalId)
    ensures SlaKey(g, Warning) == g + ":sla.overdue:" + (g + ":warning")
    ensures SlaKey(g, Critical) == g + ":sla.overdue:" + (g + ":critical")
    ensures SlaKey(g, Breached) == g + ":sla.overdue:" + (g + ":breach")
  {
  }
}
