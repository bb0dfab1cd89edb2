/**
 * At-most-once notifications in a time window, in memory mode (notify/dedup.py, notify/router.py), and the SLA
 * scan that feeds them (sla/monitor.py). Times are monotonic-clock readings.
 */
module Notify {
  import opened Prelude
  import opened Goals

  type Memory = map<string, real>

  /** A zero `ttl` disables expiry. */
  predicate Expired(ttl: nat, ts: real, now: real) {
    ttl > 0 && now - ts >= ttl as real
  }

  predicate Remembers(m: Memory, ttl: nat, key: string, now: real) {
    key in m && !Expired(ttl, m[key], now)
  }

  class NotifyDedupStore {
    const ttl: nat
    var memory: Memory

    constructor (ttlSeconds: int)
      ensures memory == map[] && ttl == if ttlSeconds < 0 then 0 else ttlSeconds
    {
      ttl := if ttlSeconds < 0 then 0 else ttlSeconds;
      memory := map[];
    }

    /** Forgets the key when its entry has expired. */
    method AlreadySent(key: string, now: real) returns (sent: bool)
      modifies this
      ensures sent == Remembers(old(memory), ttl, key, now)
      ensures memory == if sent then old(memory) else old(memory) - {key}
    {
      if key in memory {
        if Expired(ttl, memory[key], now) {
          memory := memory - {key};
        } else {
          return true;
        }
      }
      assert memory == memory - {key};
      return false;
    }

    method MarkSent(key: string, now: real)
      modifies this
      ensures memory == old(memory)[key := now]
    {
      memory := memory[key := now];
    }
  }

  /** One request to notify: when the store was asked, and when it was marked if it had to be. */
  datatype Emission = Emission(key: string, check: real, mark: real)

  function Emit(m: Memory, ttl: nat, e: Emission): (Memory, bool) {
    if Remembers(m, ttl, e.key, e.check) then (m, false) else (m[e.key := e.mark], true)
  }

  /** The memory after a list of requests. */
  function MemoryAfter(m: Memory, ttl: nat, es: seq<Emission>): Memory {
    if es == [] then m else Emit(MemoryAfter(m, ttl, es[..|es| - 1]), ttl, es[|es| - 1]).0
  }

  /** Whether the `i`-th request of the list is dispatched. */
  predicate Sent(m: Memory, ttl: nat, es: seq<Emission>, i: nat)
    requires i < |es|
  {
    Emit(MemoryAfter(m, ttl, es[..i]), ttl, es[i]).1
  }

  function SentCount(m: Memory, ttl: nat, es: seq<Emission>): nat {
    if es == [] then 0
    else
      var past := es[..|es| - 1];
      SentCount(m, ttl, past) + (if Emit(MemoryAfter(m, ttl, past), ttl, es[|es| - 1]).1 then 1 else 0)
  }

  /** Requests one after the other on a clock that never goes back. */
  ghost predicate Sequential(es: seq<Emission>) {
    && (forall i :: 0 <= i < |es| ==> es[i].check <= es[i].mark)
    && (forall i, j :: 0 <= i < j < |es| ==> es[i].mark <= es[j].check)
  }

  /** Request `j` of the list was dispatched under `key`. */
  ghost predicate SentUnder(ttl: nat, es: seq<Emission>, key: string, j: int) {
    0 <= j < |es| && es[j].key == key && Sent(map[], ttl, es, j)
  }

  lemma SentInPrefix(ttl: nat, es: seq<Emission>, n: nat, key: string, j: int)
    requires 0 <= j < n <= |es|
    ensures SentUnder(ttl, es[..n], key, j) <==> SentUnder(ttl, es, key, j)
  {
    assert es[..n][..j] == es[..j];
  }

  /** The store remembers exactly the keys dispatched so far, each with its latest dispatch. */
  ghost predicate Latest(ttl: nat, es: seq<Emission>, key: string) {
    var m := MemoryAfter(map[], ttl, es);
    && (key in m ==> exists j :: SentUnder(ttl, es, key, j) && m[key] == es[j].mark)
    && (forall j :: SentUnder(ttl, es, key, j) ==> key in m && es[j].mark <= m[key])
  }

  lemma {:induction false} MemoryIsLatest(ttl: nat, es: seq<Emission>, key: string)
    requires Sequential(es)
    ensures Latest(ttl, es, key)
    decreases |es|
  {
    if es != [] {
      var n := |es| - 1;
      MemoryIsLatest(ttl, es[..n], key);
      LatestStep(ttl, es, key);
    }
  }

  lemma LatestStep(ttl: nat, es: seq<Emission>, key: string)
    requires es != [] && Sequential(es) && Latest(ttl, es[..|es| - 1], key)
    ensures Latest(ttl, es, key)
  {
    var n := |es| - 1;
    var (before, after) := (MemoryAfter(map[], ttl, es[..n]), MemoryAfter(map[], ttl, es));
    forall j | 0 <= j < n
      ensures SentUnder(ttl, es[..n], key, j) <==> SentUnder(ttl, es, key, j)
    {
      SentInPrefix(ttl, es, n, key, j);
    }
    if SentUnder(ttl, es, key, n) {
      assert after[key] == es[n].mark;
    } else if key in after {
      assert after[key] == before[key];
      var j :| SentUnder(ttl, es[..n], key, j) && before[key] == es[..n][j].mark;
      assert SentUnder(ttl, es, key, j);
    }
  }

  /**
   * Greedy spacing, exactly: a request is dispatched just when every earlier dispatch under its key is at
   * least the window old, and with expiry disabled just when there was none.
   */
  lemma SentIff(ttl: nat, es: seq<Emission>, i: nat)
    requires Sequential(es) && i < |es|
    ensures Sent(map[], ttl, es, i) <==>
      forall j :: j < i && SentUnder(ttl, es, es[i].key, j) ==> ttl > 0 && es[i].check - es[j].mark >= ttl as real
  {
    var (past, key) := (es[..i], es[i].key);
    assert Sequential(past);
    MemoryIsLatest(ttl, past, key);
    var m := MemoryAfter(map[], ttl, past);
    forall j | 0 <= j < i
      ensures SentUnder(ttl, past, key, j) <==> SentUnder(ttl, es, key, j)
    {
      SentInPrefix(ttl, es, i, key, j);
    }
    if key in m {
      var j :| SentUnder(ttl, past, key, j) && m[key] == past[j].mark;
      assert SentUnder(ttl, es, key, j);
    }
  }

  // ---- SLA tiers ------------------------------------------------------------------------------

  datatype Tier = Warning | Critical | Breached

  datatype SlaConfig = SlaConfig(enabled: bool, warning: int, critical: int, breach: int)

  function TierName(t: Tier): string {
    match t
    case Warning => "warning"
    case Critical => "critical"
    case Breached => "breach"
  }

  function ClassifyTier(elapsed: real, c: SlaConfig): Option<Tier> {
    if c.breach > 0 && elapsed >= c.breach as real then Some(Breached)
    else if c.critical > 0 && elapsed >= c.critical as real then Some(Critical)
    else if c.warning > 0 && elapsed >= c.warning as real then Some(Warning)
    else None
  }

  function Rank(t: Option<Tier>): nat {
    match t
    case None => 0
    case Some(Warning) => 1
    case Some(Critical) => 2
    case Some(Breached) => 3
  }

  function Threshold(c: SlaConfig, t: Tier): int {
    match t
    case Warning => c.warning
    case Critical => c.critical
    case Breached => c.breach
  }

  /**
   * For any thresholds, ordered or not: the tier is the highest enabled one whose threshold is reached, so
   * it never falls as time passes.
   */
  lemma TierIsHighestReached(a: real, b: real, c: SlaConfig)
    requires a <= b
    ensures Rank(ClassifyTier(a, c)) <= Rank(ClassifyTier(b, c))
    ensures forall t: Tier ::
      Threshold(c, t) > 0 && a >= Threshold(c, t) as real ==> Rank(Some(t)) <= Rank(ClassifyTier(a, c))
    ensures ClassifyTier(a, c).Some? ==>
      Threshold(c, ClassifyTier(a, c).value) > 0 && a >= Threshold(c, ClassifyTier(a, c).value) as real
  {
    forall t: Tier | Threshold(c, t) > 0 && a >= Threshold(c, t) as real
      ensures Rank(Some(t)) <= Rank(ClassifyTier(a, c))
    {
      match t {
        case Warning =>
        case Critical =>
        case Breached =>
      }
    }
  }

  /** Job id, kind and generation; an empty generation falls back to the kind. */
  function JobKey(job: GoalId, kind: string, generation: string): string {
    job + ":" + kind + ":" + (if generation == "" then kind else generation)
  }

  const SLA_INFIX: string := ":sla.overdue:"

  /** The dedup key of an SLA alert: job id, kind and generation, the last being goal and tier again. */
  function SlaKey(goal: GoalId, t: Tier): string {
    goal + SLA_INFIX + (goal + ":" + TierName(t))
  }

  /** The tier is what follows the last colon of a key. */
  lemma TierFollowsLastColon(g: GoalId, t: Tier)
    ensures var (key, a) := (SlaKey(g, t), |TierName(t)|);
      && |key| == 2 * |g| + |SLA_INFIX| + 1 + a
      && key[|key| - a - 1] == ':' && key[|key| - a..] == TierName(t) && key[..|g|] == g
      && forall k :: |key| - a <= k < |key| ==> key[k] != ':'
  {
    var (key, a) := (SlaKey(g, t), |TierName(t)|);
    assert forall i :: 0 <= i < a ==> TierName(t)[i] != ':';
    forall k | |key| - a <= k < |key|
      ensures key[k] != ':'
    {
      assert key[k] == TierName(t)[k - (|key| - a)];
    }
  }

  lemma LastColonIsUnique(key: string, p: nat, q: nat)
    requires p < |key| && q < |key| && key[p] == ':' && key[q] == ':'
    requires forall k :: p < k < |key| ==> key[k] != ':'
    requires forall k :: q < k < |key| ==> key[k] != ':'
    ensures p == q
  {
  }

  /** Alerts of different goals or tiers never share a key, whatever the goal ids contain. */
  lemma SlaKeyInjective(g: GoalId, t: Tier, h: GoalId, u: Tier)
    requires SlaKey(g, t) == SlaKey(h, u)
    ensures g == h && t == u
  {
    var key := SlaKey(g, t);
    TierFollowsLastColon(g, t);
    TierFollowsLastColon(h, u);
    hide SlaKey;
    LastColonIsUnique(key, |key| - |TierName(t)| - 1, |key| - |TierName(u)| - 1);
    assert TierName(t) == TierName(u) && |g| == |h|;
    assert TierName(t)[0] == TierName(u)[0];
  }

  // ---- Router and scan ------------------------------------------------------------------------

  /** A goal as the scan sees it: its remaining gaps, unresolved count and elapsed seconds. */
  datatype Watched = Watched(id: GoalId, status: GoalStatus, gaps: seq<string>, unresolved: nat, elapsed: real)

  datatype Alert = Alert(goal: GoalId, tier: Tier, threshold: int)

  /** Clock readings around one request. */
  datatype Reading = Reading(check: real, mark: real)

  predicate Watchable(s: GoalStatus) {
    s in {Active, Suspended, Blocked, Pending, AwaitingClarification}
  }

  function Overdue(w: Watched, c: SlaConfig): Option<Tier> {
    if !Watchable(w.status) || (w.unresolved == 0 && w.gaps == []) then None else ClassifyTier(w.elapsed, c)
  }

  function AlertsOf(w: Watched, c: SlaConfig): seq<Alert> {
    match Overdue(w, c)
    case None => []
    case Some(t) => [Alert(w.id, t, Threshold(c, t))]
  }

  /** The breaches of a scan, in the order of the goals. */
  function Breaches(goals: seq<Watched>, c: SlaConfig): seq<Alert> {
    if goals == [] then [] else Breaches(goals[..|goals| - 1], c) + AlertsOf(goals[|goals| - 1], c)
  }

  function Request(a: Alert, r: Reading): Emission {
    Emission(SlaKey(a.goal, a.tier), r.check, r.mark)
  }

  /** What the scan asks of the store, in order; nothing when the router is switched off. */
  function Requests(goals: seq<Watched>, readings: seq<Reading>, c: SlaConfig): seq<Emission>
    requires |readings| == |goals|
  {
    if goals == [] then []
    else
      var n := |goals| - 1;
      Requests(goals[..n], readings[..n], c) + RequestsOf(goals[n], readings[n], c)
  }

  function RequestsOf(w: Watched, r: Reading, c: SlaConfig): seq<Emission> {
    match Overdue(w, c)
    case None => []
    case Some(t) => [Emission(SlaKey(w.id, t), r.check, r.mark)]
  }

  // ---- Scan after scan --------------------------------------------------------------------------

  /** One use of the store: a scan of the goals, or a single request of another part of the daemon. */
  datatype Round = Scanned(goals: seq<Watched>, readings: seq<Reading>) | Asked(key: string, reading: Reading)
  {
    predicate Proper() {
      Scanned? ==> |readings| == |goals|
    }

    /** The clock readings the round takes. */
    function Clock(): seq<Reading> {
      if Scanned? then readings else [reading]
    }
  }

  function RequestsIn(round: Round, c: SlaConfig): seq<Emission>
    requires round.Proper()
  {
    match round
    case Scanned(goals, readings) => Requests(goals, readings, c)
    case Asked(key, r) => [Emission(key, r.check, r.mark)]
  }

  ghost predicate AllProper(rounds: seq<Round>) {
    forall i :: 0 <= i < |rounds| ==> rounds[i].Proper()
  }

  /** The memory after round upon round, each starting from what the one before left. */
  function MemoryAfterRounds(m: Memory, ttl: nat, rounds: seq<Round>, c: SlaConfig): Memory
    requires AllProper(rounds)
  {
    if rounds == [] then m
    else
      var n := |rounds| - 1;
      MemoryAfter(MemoryAfterRounds(m, ttl, rounds[..n], c), ttl, RequestsIn(rounds[n], c))
  }

  /** The requests of all rounds, in one list. */
  function AllRequests(rounds: seq<Round>, c: SlaConfig): seq<Emission>
    requires AllProper(rounds)
  {
    if rounds == [] then []
    else
      var n := |rounds| - 1;
      AllRequests(rounds[..n], c) + RequestsIn(rounds[n], c)
  }

  lemma {:induction false} MemoryComposes(m: Memory, ttl: nat, a: seq<Emission>, b: seq<Emission>)
    ensures MemoryAfter(m, ttl, a + b) == MemoryAfter(MemoryAfter(m, ttl, a), ttl, b)
    decreases |b|
  {
    if b == [] {
      assert a + b == a;
    } else {
      var n := |b| - 1;
      assert (a + b)[..|a| + n] == a + b[..n];
      MemoryComposes(m, ttl, a, b[..n]);
    }
  }

  /** The store cannot tell the rounds from one long list of their requests. */
  lemma {:induction false} RoundsAreOneList(m: Memory, ttl: nat, rounds: seq<Round>, c: SlaConfig)
    requires AllProper(rounds)
    ensures MemoryAfterRounds(m, ttl, rounds, c) == MemoryAfter(m, ttl, AllRequests(rounds, c))
    decreases |rounds|
  {
    if rounds != [] {
      var n := |rounds| - 1;
      RoundsAreOneList(m, ttl, rounds[..n], c);
      MemoryComposes(m, ttl, AllRequests(rounds[..n], c), RequestsIn(rounds[n], c));
    }
  }

  /** Readings one after the other on a clock that never goes back. */
  ghost predicate Forward(readings: seq<Reading>) {
    && (forall i :: 0 <= i < |readings| ==> readings[i].check <= readings[i].mark)
    && (forall i, j :: 0 <= i < j < |readings| ==> readings[i].mark <= readings[j].check)
  }

  function AllReadings(rounds: seq<Round>): seq<Reading> {
    if rounds == [] then [] else AllReadings(rounds[..|rounds| - 1]) + rounds[|rounds| - 1].Clock()
  }

  /** Requests stamped by some of the readings, in the order of those. */
  ghost predicate StampedBy(es: seq<Emission>, readings: seq<Reading>) {
    && (Forward(readings) ==> Sequential(es))
    && forall i :: 0 <= i < |es| ==> Reading(es[i].check, es[i].mark) in readings
  }

  lemma StampedConcat(a: seq<Emission>, b: seq<Emission>, r: seq<Reading>, q: seq<Reading>)
    requires StampedBy(a, r) && StampedBy(b, q)
    ensures StampedBy(a + b, r + q)
  {
    if Forward(r + q) {
      assert forall i :: 0 <= i < |r| ==> (r + q)[i] == r[i];
      assert forall i :: 0 <= i < |q| ==> (r + q)[|r| + i] == q[i];
      forall i, j | 0 <= i < |a| && 0 <= j < |b|
        ensures a[i].mark <= b[j].check
      {
        var x :| 0 <= x < |r| && r[x] == Reading(a[i].check, a[i].mark);
        var y :| 0 <= y < |q| && q[y] == Reading(b[j].check, b[j].mark);
        assert (r + q)[x].mark <= (r + q)[|r| + y].check;
      }
    }
  }

  lemma {:induction false} RequestsStamped(goals: seq<Watched>, readings: seq<Reading>, c: SlaConfig)
    requires |readings| == |goals|
    ensures StampedBy(Requests(goals, readings, c), readings)
  {
    if goals != [] {
      var n := |goals| - 1;
      RequestsStamped(goals[..n], readings[..n], c);
      hide StampedBy;
      assert StampedBy(RequestsOf(goals[n], readings[n], c), [readings[n]]) by {
        OneStamped(goals[n], readings[n], c);
      }
      StampedConcat(
        Requests(goals[..n], readings[..n], c), RequestsOf(goals[n], readings[n], c), readings[..n], [readings[n]]);
      assert readings[..n] + [readings[n]] == readings;
    }
  }

  lemma OneStamped(w: Watched, r: Reading, c: SlaConfig)
    ensures StampedBy(RequestsOf(w, r, c), [r])
  {
    if Forward([r]) {
      assert [r][0].check <= [r][0].mark;
    }
  }

  lemma {:induction false} AllStamped(rounds: seq<Round>, c: SlaConfig)
    requires AllProper(rounds)
    ensures StampedBy(AllRequests(rounds, c), AllReadings(rounds))
    decreases |rounds|
  {
    if rounds != [] {
      var n := |rounds| - 1;
      AllStamped(rounds[..n], c);
      RoundStamped(rounds[n], c);
      StampedConcat(AllRequests(rounds[..n], c), RequestsIn(rounds[n], c), AllReadings(rounds[..n]), rounds[n].Clock());
    }
  }

  lemma RoundStamped(round: Round, c: SlaConfig)
    requires round.Proper()
    ensures StampedBy(RequestsIn(round, c), round.Clock())
  {
    match round
    case Scanned(goals, readings) => RequestsStamped(goals, readings, c);
    case Asked(key, r) =>
      if Forward([r]) {
        assert [r][0].check <= [r][0].mark;
      }
  }

  /**
   * However often goals are scanned, and whatever else asks the store in between: two alerts for one goal and
   * tier lie at least a window apart, and with expiry disabled there is at most one.
   */
  lemma OneAlertPerWindow(ttl: nat, rounds: seq<Round>, c: SlaConfig, i: nat, j: nat, g: GoalId, t: Tier)
    requires AllProper(rounds) && Forward(AllReadings(rounds)) && i < j
    requires SentUnder(ttl, AllRequests(rounds, c), SlaKey(g, t), i)
    requires SentUnder(ttl, AllRequests(rounds, c), SlaKey(g, t), j)
    ensures var es := AllRequests(rounds, c); ttl > 0 && es[j].check - es[i].mark >= ttl as real
  {
    AllStamped(rounds, c);
    SentIff(ttl, AllRequests(rounds, c), j);
  }

  class NotificationRouter {
    const enabled: bool
    const slaEnabled: bool
    const dedup: NotifyDedupStore

    constructor (enabled: bool, slaEnabled: bool, ttlSeconds: int)
      ensures this.enabled == enabled && this.slaEnabled == slaEnabled && dedup.memory == map[]
      ensures fresh(dedup) && dedup.ttl == if ttlSeconds < 0 then 0 else ttlSeconds
    {
      this.enabled, this.slaEnabled := enabled, slaEnabled;
      dedup := new NotifyDedupStore(ttlSeconds);
    }

    /** Check, mark, dispatch; the answer says whether an intent was dispatched. */
    method EmitKey(key: string, r: Reading) returns (sent: bool)
      modifies dedup
      ensures (dedup.memory, sent) == Emit(old(dedup.memory), dedup.ttl, Emission(key, r.check, r.mark))
    {
      var already := dedup.AlreadySent(key, r.check);
      if already {
        return false;
      }
      dedup.MarkSent(key, r.mark);
      assert dedup.memory == old(dedup.memory)[key := r.mark];
      return true;
    }

    /** Job-root intents: child goals and disabled kinds are never asked about. */
    method EmitJobIntent(goal: Goal, kind: string, kindEnabled: bool, generation: string, r: Reading)
      returns (sent: bool)
      modifies dedup
      ensures if enabled && goal.parentId.None? && kindEnabled
        then
          var e := Emission(JobKey(goal.id, kind, generation), r.check, r.mark);
          (dedup.memory, sent) == Emit(old(dedup.memory), dedup.ttl, e)
        else !sent && dedup.memory == old(dedup.memory)
    {
      if !enabled || goal.parentId.Some? || !kindEnabled {
        return false;
      }
      sent := EmitKey(JobKey(goal.id, kind, generation), r);
    }

    method EmitSlaOverdue(a: Alert, r: Reading) returns (sent: bool)
      modifies dedup
      ensures if enabled && slaEnabled then (dedup.memory, sent) == Emit(old(dedup.memory), dedup.ttl, Request(a, r))
        else !sent && dedup.memory == old(dedup.memory)
    {
      if !enabled || !slaEnabled {
        return false;
      }
      sent := EmitKey(SlaKey(a.goal, a.tier), r);
    }
  }

  lemma ScanStep(goals: seq<Watched>, readings: seq<Reading>, i: nat, c: SlaConfig)
    requires |readings| == |goals| && i < |goals|
    ensures Breaches(goals[..i + 1], c) == Breaches(goals[..i], c) + AlertsOf(goals[i], c)
    ensures Requests(goals[..i + 1], readings[..i + 1], c)
      == Requests(goals[..i], readings[..i], c) + RequestsOf(goals[i], readings[i], c)
  {
    assert goals[..i + 1][..i] == goals[..i] && readings[..i + 1][..i] == readings[..i];
  }

  lemma NothingScanned(goals: seq<Watched>, readings: seq<Reading>, start: Memory, ttl: nat, c: SlaConfig)
    requires goals == [] && readings == []
    ensures Breaches(goals, c) == [] && Requests(goals, readings, c) == [] && Tracks(start, ttl, [], start, 0)
  {
  }

  /** The store and the tally after a list of requests. */
  ghost predicate Tracks(start: Memory, ttl: nat, es: seq<Emission>, m: Memory, emitted: nat) {
    m == MemoryAfter(start, ttl, es) && emitted == SentCount(start, ttl, es)
  }

  lemma TracksMeans(start: Memory, ttl: nat, es: seq<Emission>, m: Memory, emitted: nat)
    ensures Tracks(start, ttl, es, m, emitted) <==> m == MemoryAfter(start, ttl, es) && emitted == SentCount(start, ttl, es)
  {
  }

  lemma TracksStep(
    start: Memory, ttl: nat, es: seq<Emission>, m: Memory, emitted: nat, w: Watched, r: Reading, c: SlaConfig)
    requires Tracks(start, ttl, es, m, emitted)
    ensures match Overdue(w, c)
      case None => Tracks(start, ttl, es + RequestsOf(w, r, c), m, emitted)
      case Some(t) =>
        var next := Emit(m, ttl, Request(Alert(w.id, t, Threshold(c, t)), r));
        Tracks(start, ttl, es + RequestsOf(w, r, c), next.0, emitted + if next.1 then 1 else 0)
  {
    match Overdue(w, c)
    case None => assert es + [] == es;
    case Some(t) =>
      var e := Emission(SlaKey(w.id, t), r.check, r.mark);
      assert (es + [e])[..|es|] == es;
  }

  datatype ScanResult = ScanResult(scanned: nat, breaches: seq<Alert>, emitted: nat, skipped: nat)

  class SlaMonitor {
    const config: SlaConfig
    const router: NotificationRouter

    constructor (config: SlaConfig, router: NotificationRouter)
      ensures this.config == config && this.router == router
    {
      this.config, this.router := config, router;
    }

    /**
     * Every overdue goal is reported once, in order; each report is either emitted or skipped; and the
     * emitted ones are exactly the requests the dedup store lets through.
     */
    method Scan(goals: seq<Watched>, readings: seq<Reading>) returns (result: ScanResult)
      requires |readings| == |goals|
      modifies router.dedup
      ensures !config.enabled ==> result == ScanResult(0, [], 0, 0) && router.dedup.memory == old(router.dedup.memory)
      ensures config.enabled ==> result.scanned == |goals| && result.breaches == Breaches(goals, config)
      ensures result.emitted + result.skipped == |result.breaches|
      ensures config.enabled && router.enabled && router.slaEnabled ==>
        var requests := Requests(goals, readings, config);
        && router.dedup.memory == MemoryAfter(old(router.dedup.memory), router.dedup.ttl, requests)
        && result.emitted == SentCount(old(router.dedup.memory), router.dedup.ttl, requests)
      ensures !(router.enabled && router.slaEnabled) ==>
        result.emitted == 0 && router.dedup.memory == old(router.dedup.memory)
    {
      if !config.enabled {
        return ScanResult(0, [], 0, 0);
      }
      ghost var (start, ttl) := (router.dedup.memory, router.dedup.ttl);
      var breaches, emitted, skipped := ScanAll(goals, readings);
      result := ScanResult(|goals|, breaches, emitted, skipped);
      TracksMeans(start, ttl, Requests(goals, readings, config), router.dedup.memory, emitted);
    }

    method ScanAll(goals: seq<Watched>, readings: seq<Reading>)
      returns (breaches: seq<Alert>, emitted: nat, skipped: nat)
      requires |readings| == |goals|
      modifies router.dedup
      ensures breaches == Breaches(goals, config) && emitted + skipped == |breaches|
      ensures if router.enabled && router.slaEnabled
        then
          var requests := Requests(goals, readings, config);
          Tracks(old(router.dedup.memory), router.dedup.ttl, requests, router.dedup.memory, emitted)
        else router.dedup.memory == old(router.dedup.memory) && emitted == 0
    {
      hide *;
      breaches, emitted, skipped := [], 0, 0;
      ghost var (start, ttl, open) := (router.dedup.memory, router.dedup.ttl, router.enabled && router.slaEnabled);
      NothingScanned(goals[..0], readings[..0], start, ttl, config);
      for i := 0 to |goals|
        invariant breaches == Breaches(goals[..i], config) && emitted + skipped == |breaches|
        invariant if open
          then Tracks(start, ttl, Requests(goals[..i], readings[..i], config), router.dedup.memory, emitted)
          else router.dedup.memory == start && emitted == 0
      {
        ghost var (before, count) := (router.dedup.memory, emitted);
        var alert, sent := ScanOne(goals[i], readings[i]);
        ScanStep(goals, readings, i, config);
        if open {
          TracksStep(start, ttl, Requests(goals[..i], readings[..i], config), before, count, goals[i], readings[i], config);
        }
        if alert.Some? {
          breaches := breaches + [alert.value];
          if sent {
            emitted := emitted + 1;
          } else {
            skipped := skipped + 1;
          }
        } else {
          assert breaches + [] == breaches;
        }
      }
      assert goals[..|goals|] == goals && readings[..|goals|] == readings;
    }

    /** One goal: its alert if it is overdue, and whether it went out. */
    method ScanOne(w: Watched, r: Reading) returns (alert: Option<Alert>, sent: bool)
      modifies router.dedup
      ensures AlertsOf(w, config) == if alert.Some? then [alert.value] else []
      ensures match Overdue(w, config)
        case None => alert == None
        case Some(t) => alert == Some(Alert(w.id, t, Threshold(config, t)))
      ensures var (m, open) := (old(router.dedup.memory), router.enabled && router.slaEnabled);
        if alert.Some? && open then (router.dedup.memory, sent) == Emit(m, router.dedup.ttl, Request(alert.value, r))
        else !sent && router.dedup.memory == m
    {
      if !Watchable(w.status) {
        return None, false;
      }
      if w.unresolved == 0 && w.gaps == [] {
        return None, false;
      }
      var tier := ClassifyTier(w.elapsed, config);
      if tier.None? {
        return None, false;
      }
      alert := Some(Alert(w.id, tier.value, Threshold(config, tier.value)));
      sent := router.EmitSlaOverdue(alert.value, r);
    }
  }
}
