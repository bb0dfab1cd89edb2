/** Abstract state of the job-to-loop membership index (job_loop_index.py), in-memory mode. */
module JobIndexModel {
  import opened Prelude
  import opened LoopIds

  type GoalId = string
  type JobId = string

  datatype EntryStatus = Running | Completed | Failed | Cancelled | Interrupted

  datatype Entry = Entry(number: nat, loopId: LoopId, goal: GoalId, attempt: int, status: EntryStatus)

  datatype JobStatus = JobRunning | JobPaused | JobCompleted | JobCancelled | JobFailed

  datatype Record = Record(nextSeq: nat, activeLoops: seq<LoopId>, loops: seq<Entry>, status: JobStatus)

  /** `order` is the insertion order of the dictionary of records. */
  datatype Index = Index(order: seq<JobId>, records: map<JobId, Record>)

  const EMPTY_RECORD := Record(1, [], [], JobRunning)

  function EnsureJob(ix: Index, job: JobId): Index {
    if job in ix.records then ix else Index(ix.order + [job], ix.records[job := EMPTY_RECORD])
  }

  function AddEntry(r: Record, lid: LoopId, goal: GoalId, attempt: int): Record {
    r.(nextSeq := r.nextSeq + 1,
       loops := r.loops + [Entry(r.nextSeq, lid, goal, attempt, Running)],
       activeLoops := if lid in r.activeLoops then r.activeLoops else r.activeLoops + [lid],
       status := JobRunning)
  }

  function RecordStart(ix: Index, job: JobId, lid: LoopId, goal: GoalId, attempt: int): Index {
    var ready := EnsureJob(ix, job);
    ready.(records := ready.records[job := AddEntry(ready.records[job], lid, goal, attempt)])
  }

  /** A job is marked whether or not it was seen before. */
  function MarkStatus(ix: Index, job: JobId, status: JobStatus): Index {
    var ready := EnsureJob(ix, job);
    ready.(records := ready.records[job := ready.records[job].(status := status)])
  }

  /** The last entry of a loop, searched in reverse; optionally only a running one. */
  function LastEntry(loops: seq<Entry>, lid: LoopId, running: bool): (r: Option<nat>)
    ensures r.Some? ==> r.value < |loops| && loops[r.value].loopId == lid
    ensures r.Some? && running ==> loops[r.value].status == Running
    ensures r.None? ==>
      forall i :: 0 <= i < |loops| && loops[i].loopId == lid ==> running && loops[i].status != Running
  {
    if loops == [] then None
    else
      var n := |loops| - 1;
      if loops[n].loopId == lid && (running ==> loops[n].status == Running) then Some(n)
      else LastEntry(loops[..n], lid, running)
  }

  /** The entry `record_end` touches: the last running one of the loop, else its last one. */
  function EntryToEnd(loops: seq<Entry>, lid: LoopId): (r: Option<nat>)
    ensures r.Some? ==> r.value < |loops| && loops[r.value].loopId == lid
    ensures r.None? ==> forall i :: 0 <= i < |loops| ==> loops[i].loopId != lid
  {
    var active := LastEntry(loops, lid, true);
    if active.Some? then active else LastEntry(loops, lid, false)
  }

  function Without(s: seq<LoopId>, lid: LoopId): seq<LoopId> {
    if s == [] then []
    else (if s[0] == lid then [] else [s[0]]) + Without(s[1..], lid)
  }

  function EndEntry(r: Record, lid: LoopId, status: EntryStatus): Option<Record> {
    match EntryToEnd(r.loops, lid)
    case None => None
    case Some(i) =>
      Some(r.(loops := r.loops[i := r.loops[i].(status := status)], activeLoops := Without(r.activeLoops, lid)))
  }

  predicate Holds(r: Record, lid: LoopId) {
    exists i :: 0 <= i < |r.loops| && r.loops[i].loopId == lid
  }

  /** `owner_of`: the first job, in dictionary order, that ever held the loop. */
  function Owner(ix: Index, jobs: seq<JobId>, lid: LoopId): (r: Option<JobId>)
    ensures r.Some? ==> r.value in jobs && r.value in ix.records && Holds(ix.records[r.value], lid)
    ensures r.None? ==> forall j :: j in jobs && j in ix.records ==> !Holds(ix.records[j], lid)
  {
    if jobs == [] then None
    else if jobs[0] in ix.records && Holds(ix.records[jobs[0]], lid) then Some(jobs[0])
    else Owner(ix, jobs[1..], lid)
  }

  function ResolveJob(ix: Index, lid: LoopId, job: Option<JobId>): Option<JobId> {
    if job.Some? && job.value != "" then job else Owner(ix, ix.order, lid)
  }

  /** The flag says whether an entry was found and ended. */
  function RecordEnd(ix: Index, lid: LoopId, status: EntryStatus, job: Option<JobId>): (Index, bool) {
    match ResolveJob(ix, lid, job)
    case None => (ix, false)
    case Some(j) =>
      if j !in ix.records then (ix, false)
      else
        match EndEntry(ix.records[j], lid, status)
        case None => (ix, false)
        case Some(r) => (ix.(records := ix.records[j := r]), true)
  }

  /** Ends the listed loops of one job as interrupted; returns those that were found. */
  function InterruptLoops(ix: Index, job: JobId, lids: seq<LoopId>): (Index, seq<LoopId>)
    decreases |lids|
  {
    if lids == [] then (ix, [])
    else
      var (next, found) := RecordEnd(ix, lids[0], Interrupted, Some(job));
      var (last, rest) := InterruptLoops(next, job, lids[1..]);
      (last, (if found then [lids[0]] else []) + rest)
  }

  function InterruptJobs(ix: Index, jobs: seq<JobId>): (Index, seq<LoopId>)
    decreases |jobs|
  {
    if jobs == [] then (ix, [])
    else
      var active := if jobs[0] in ix.records then ix.records[jobs[0]].activeLoops else [];
      var (next, found) := InterruptLoops(ix, jobs[0], active);
      var (last, rest) := InterruptJobs(next, jobs[1..]);
      (last, found + rest)
  }

  // ---- Consistency ----------------------------------------------------------------------------

  function RunningTail(e: Entry): seq<LoopId> {
    if e.status == Running then [e.loopId] else []
  }

  /** Loop ids of the entries still running, in start order. */
  function RunningIds(loops: seq<Entry>): seq<LoopId> {
    if loops == [] then []
    else RunningIds(loops[..|loops| - 1]) + RunningTail(loops[|loops| - 1])
  }

  ghost predicate Numbered(r: Record) {
    r.nextSeq == |r.loops| + 1 && forall i :: 0 <= i < |r.loops| ==> r.loops[i].number == i + 1
  }

  ghost predicate DistinctLoops(r: Record) {
    forall i, j :: 0 <= i < j < |r.loops| ==> r.loops[i].loopId != r.loops[j].loopId
  }

  ghost predicate RecordInv(r: Record) {
    Numbered(r) && DistinctLoops(r) && r.activeLoops == RunningIds(r.loops)
  }

  ghost predicate Inv(ix: Index) {
    && NoDuplicates(ix.order)
    && (forall j :: j in ix.order <==> j in ix.records)
    && (forall j :: j in ix.records ==> RecordInv(ix.records[j]))
    && OneOwner(ix)
  }

  /** No loop id is held by two jobs. */
  ghost predicate OneOwner(ix: Index) {
    forall j, k, lid ::
      j in ix.records && k in ix.records && Holds(ix.records[j], lid) && Holds(ix.records[k], lid) ==> j == k
  }

  /** No job has ever held the loop. */
  ghost predicate Unseen(ix: Index, lid: LoopId) {
    forall j :: j in ix.records ==> !Holds(ix.records[j], lid)
  }

  ghost predicate IsRunning(r: Record, lid: LoopId, goal: GoalId) {
    exists i :: 0 <= i < |r.loops| && r.loops[i].loopId == lid && r.loops[i].goal == goal && r.loops[i].status == Running
  }

  /** The running entries of all jobs, as (loop id, goal) pairs. */
  ghost predicate Active(ix: Index, x: (LoopId, GoalId)) {
    exists j :: j in ix.records && IsRunning(ix.records[j], x.0, x.1)
  }

  lemma AddEntryKeepsInv(r: Record, lid: LoopId, goal: GoalId, attempt: int)
    requires RecordInv(r) && !Holds(r, lid)
    ensures RecordInv(AddEntry(r, lid, goal, attempt))
    ensures forall l :: Holds(AddEntry(r, lid, goal, attempt), l) <==> Holds(r, l) || l == lid
    ensures forall l, g ::
      IsRunning(AddEntry(r, lid, goal, attempt), l, g) <==> IsRunning(r, l, g) || (l == lid && g == goal)
  {
    var q := AddEntry(r, lid, goal, attempt);
    RunningIdsAreHeld(r.loops);
    assert q.loops[..|q.loops| - 1] == r.loops;
    assert q.loops[|r.loops|].loopId == lid;
    assert forall i :: 0 <= i < |r.loops| ==> q.loops[i] == r.loops[i];
  }

  lemma {:induction false} RunningIdsAreHeld(loops: seq<Entry>)
    ensures forall l :: l in RunningIds(loops) ==> exists i :: 0 <= i < |loops| && loops[i].loopId == l
  {
    if loops != [] {
      var rest := loops[..|loops| - 1];
      RunningIdsAreHeld(rest);
      forall l | l in RunningIds(loops)
        ensures exists i :: 0 <= i < |loops| && loops[i].loopId == l
      {
        if l in RunningIds(rest) {
          var i :| 0 <= i < |rest| && rest[i].loopId == l;
          assert loops[i].loopId == l;
        } else {
          assert loops[|loops| - 1].loopId == l;
        }
      }
    }
  }

  lemma StartKeepsInv(ix: Index, job: JobId, lid: LoopId, goal: GoalId, attempt: int)
    requires Inv(ix) && Unseen(ix, lid)
    ensures Inv(RecordStart(ix, job, lid, goal, attempt))
    ensures forall l :: Unseen(RecordStart(ix, job, lid, goal, attempt), l) <==> Unseen(ix, l) && l != lid
    ensures forall x :: Active(RecordStart(ix, job, lid, goal, attempt), x) <==> Active(ix, x) || x == (lid, goal)
  {
    hide Inv, Unseen, RecordInv, Holds, OneOwner, RecordStart, IsRunning, Active;
    var r := if job in ix.records then ix.records[job] else EMPTY_RECORD;
    var end := RecordStart(ix, job, lid, goal, attempt);
    StartFacts(ix, end, job, r, lid, goal, attempt);
    StartUnseen(ix, end, job, r, lid);
    StartRecords(ix, end, job);
    StartActive(ix, end, job, r, lid, goal);
  }

  /** Starting a loop changes one record, by one running entry. */
  lemma StartFacts(ix: Index, end: Index, job: JobId, r: Record, lid: LoopId, goal: GoalId, attempt: int)
    requires Inv(ix) && Unseen(ix, lid) && end == RecordStart(ix, job, lid, goal, attempt)
    requires r == (if job in ix.records then ix.records[job] else EMPTY_RECORD)
    ensures job in end.records && end.records == ix.records[job := end.records[job]] && RecordInv(end.records[job])
    ensures end.order == if job in ix.records then ix.order else ix.order + [job]
    ensures forall l :: Holds(end.records[job], l) <==> Holds(r, l) || l == lid
    ensures forall l, g :: IsRunning(end.records[job], l, g) <==> IsRunning(r, l, g) || (l == lid && g == goal)
  {
    RecordBefore(ix, job, r, lid);
    hide Inv, RecordInv, Holds, IsRunning, AddEntry, Unseen;
    AddEntryKeepsInv(r, lid, goal, attempt);
    assert end.records[job] == AddEntry(r, lid, goal, attempt);
  }

  /** The record a new loop goes into, existing or empty, is consistent and does not hold the loop. */
  lemma RecordBefore(ix: Index, job: JobId, r: Record, lid: LoopId)
    requires Inv(ix) && Unseen(ix, lid)
    requires r == (if job in ix.records then ix.records[job] else EMPTY_RECORD)
    ensures RecordInv(r) && !Holds(r, lid)
  {
  }

  lemma StartRecords(ix: Index, end: Index, job: JobId)
    requires Inv(ix) && OneOwner(end)
    requires end.order == if job in ix.records then ix.order else ix.order + [job]
    requires job in end.records && end.records == ix.records[job := end.records[job]] && RecordInv(end.records[job])
    ensures Inv(end)
  {
    hide RecordInv, OneOwner;
    if job !in ix.records {
      AppendDistinct(ix.order, job);
    }
  }

  lemma StartUnseen(ix: Index, end: Index, job: JobId, r: Record, lid: LoopId)
    requires Inv(ix) && Unseen(ix, lid)
    requires r == (if job in ix.records then ix.records[job] else EMPTY_RECORD)
    requires job in end.records && end.records == ix.records[job := end.records[job]]
    requires forall l :: Holds(end.records[job], l) <==> Holds(r, l) || l == lid
    ensures forall l :: Unseen(end, l) <==> Unseen(ix, l) && l != lid
    ensures OneOwner(end)
  {
    hide RecordInv;
    assert forall l :: !Holds(EMPTY_RECORD, l);
    hide Holds;
    assert forall j :: j in ix.records && j != job ==> end.records[j] == ix.records[j];
    forall l | Unseen(end, l)
      ensures Unseen(ix, l) && l != lid
    {
      assert !Holds(end.records[job], l);
      assert forall j :: j in ix.records ==> !Holds(end.records[j], l);
    }
  }

  lemma StartActive(ix: Index, end: Index, job: JobId, r: Record, lid: LoopId, goal: GoalId)
    requires r == (if job in ix.records then ix.records[job] else EMPTY_RECORD)
    requires job in end.records && end.records == ix.records[job := end.records[job]]
    requires forall l, g :: IsRunning(end.records[job], l, g) <==> IsRunning(r, l, g) || (l == lid && g == goal)
    ensures forall x :: Active(end, x) <==> Active(ix, x) || x == (lid, goal)
  {
    forall x | Active(ix, x) || x == (lid, goal)
      ensures Active(end, x)
    {
      if x == (lid, goal) {
        assert IsRunning(end.records[job], x.0, x.1);
      } else {
        var j :| j in ix.records && IsRunning(ix.records[j], x.0, x.1);
        assert IsRunning(end.records[j], x.0, x.1);
      }
    }
  }

  lemma {:induction false} RunningIdsAfterEnd(loops: seq<Entry>, i: nat, status: EntryStatus)
    requires i < |loops| && status != Running
    requires forall a, b :: 0 <= a < b < |loops| ==> loops[a].loopId != loops[b].loopId
    ensures RunningIds(loops[i := loops[i].(status := status)]) == Without(RunningIds(loops), loops[i].loopId)
  {
    var n := |loops| - 1;
    assert i < n ==> loops[i].loopId != loops[n].loopId;
    hide RunningIds, Without;
    if i == n {
      EndedLast(loops, status);
    } else {
      RunningIdsAfterEnd(loops[..n], i, status);
      EndedEarlier(loops, i, loops[i].(status := status));
    }
  }

  lemma EndedLast(loops: seq<Entry>, status: EntryStatus)
    requires loops != [] && status != Running
    requires forall a :: 0 <= a < |loops| - 1 ==> loops[a].loopId != loops[|loops| - 1].loopId
    ensures var n := |loops| - 1;
      RunningIds(loops[n := loops[n].(status := status)]) == Without(RunningIds(loops), loops[n].loopId)
  {
    var n := |loops| - 1;
    var (rest, last) := (loops[..n], loops[n]);
    var ended := loops[n := last.(status := status)];
    assert ended[..n] == rest && RunningTail(ended[n]) == [];
    RunningIdsOf(loops);
    RunningIdsOf(ended);
    WithoutOwn(last);
    hide RunningIds, Without;
    RunningIdsAreHeld(rest);
    WithoutOfConcat(RunningIds(rest), RunningTail(last), last.loopId);
    WithoutAbsent(RunningIds(rest), last.loopId);
  }

  lemma EndedEarlier(loops: seq<Entry>, i: nat, e: Entry)
    requires i < |loops| - 1 && e.loopId != loops[|loops| - 1].loopId
    requires RunningIds(loops[..|loops| - 1][i := e]) == Without(RunningIds(loops[..|loops| - 1]), e.loopId)
    ensures RunningIds(loops[i := e]) == Without(RunningIds(loops), e.loopId)
  {
    var n := |loops| - 1;
    var ended := loops[i := e];
    assert ended[..n] == loops[..n][i := e] && ended[n] == loops[n];
    RunningIdsOf(loops);
    RunningIdsOf(ended);
    hide RunningIds, Without;
    WithoutOfConcat(RunningIds(loops[..n]), RunningTail(loops[n]), e.loopId);
    WithoutAbsent(RunningTail(loops[n]), e.loopId);
  }

  lemma RunningIdsOf(loops: seq<Entry>)
    requires loops != []
    ensures RunningIds(loops) == RunningIds(loops[..|loops| - 1]) + RunningTail(loops[|loops| - 1])
  {
  }

  lemma WithoutOwn(e: Entry)
    ensures Without(RunningTail(e), e.loopId) == []
  {
  }

  lemma {:induction false} WithoutOfConcat(s: seq<LoopId>, t: seq<LoopId>, lid: LoopId)
    ensures Without(s + t, lid) == Without(s, lid) + Without(t, lid)
  {
    if s == [] {
      assert s + t == t;
    } else {
      assert (s + t)[1..] == s[1..] + t;
      WithoutOfConcat(s[1..], t, lid);
    }
  }

  lemma {:induction false} WithoutAbsent(s: seq<LoopId>, lid: LoopId)
    requires lid !in s
    ensures Without(s, lid) == s
  {
    if s != [] {
      WithoutAbsent(s[1..], lid);
    }
  }

  lemma EndEntryKeepsInv(r: Record, lid: LoopId, status: EntryStatus)
    requires RecordInv(r) && status != Running
    ensures EndEntry(r, lid, status).Some? <==> Holds(r, lid)
    ensures EndEntry(r, lid, status).Some? ==> var q := EndEntry(r, lid, status).value;
      && RecordInv(q)
      && q.activeLoops == Without(r.activeLoops, lid)
      && (forall l :: Holds(q, l) <==> Holds(r, l))
      && (forall l, g :: IsRunning(q, l, g) <==> IsRunning(r, l, g) && l != lid)
  {
    var found := EntryToEnd(r.loops, lid);
    if found.Some? {
      var i := found.value;
      var q := EndEntry(r, lid, status).value;
      RunningIdsAfterEnd(r.loops, i, status);
      assert Holds(r, lid);
      EndedEntryFacts(r, q, i, lid, status);
    }
  }

  lemma EndedEntryFacts(r: Record, q: Record, i: nat, lid: LoopId, status: EntryStatus)
    requires Numbered(r) && DistinctLoops(r) && i < |r.loops| && r.loops[i].loopId == lid && status != Running
    requires q.nextSeq == r.nextSeq && q.loops == r.loops[i := r.loops[i].(status := status)]
    ensures Numbered(q) && DistinctLoops(q)
    ensures forall l :: Holds(q, l) <==> Holds(r, l)
    ensures forall l, g :: IsRunning(q, l, g) <==> IsRunning(r, l, g) && l != lid
  {
    assert forall k :: 0 <= k < |r.loops| ==> q.loops[k].loopId == r.loops[k].loopId;
    assert forall k :: 0 <= k < |r.loops| && k != i ==> q.loops[k] == r.loops[k] && r.loops[k].loopId != lid;
  }

  lemma ReplaceRecordKeepsInv(ix: Index, j: JobId, q: Record)
    requires Inv(ix) && j in ix.records && RecordInv(q)
    requires forall l :: Holds(q, l) <==> Holds(ix.records[j], l)
    ensures Inv(ix.(records := ix.records[j := q]))
    ensures forall l :: Unseen(ix.(records := ix.records[j := q]), l) <==> Unseen(ix, l)
  {
    var end := ix.(records := ix.records[j := q]);
    assert forall k, l :: k in ix.records ==> (Holds(end.records[k], l) <==> Holds(ix.records[k], l));
  }

  /** Ending a loop under any job hint keeps the index consistent and forgets no loop. */
  lemma EndKeepsInv(ix: Index, lid: LoopId, status: EntryStatus, job: Option<JobId>)
    requires Inv(ix) && status != Running
    ensures Inv(RecordEnd(ix, lid, status, job).0)
    ensures forall l :: Unseen(RecordEnd(ix, lid, status, job).0, l) <==> Unseen(ix, l)
  {
    if RecordEnd(ix, lid, status, job).1 {
      var j := ResolveJob(ix, lid, job).value;
      EndEntryKeepsInv(ix.records[j], lid, status);
      ReplaceRecordKeepsInv(ix, j, EndEntry(ix.records[j], lid, status).value);
    }
  }

  /** Ended by its id alone, exactly that loop stops being active. */
  lemma EndStopsExactly(ix: Index, lid: LoopId, status: EntryStatus)
    requires Inv(ix) && status != Running
    ensures forall x :: Active(RecordEnd(ix, lid, status, None).0, x) <==> Active(ix, x) && x.0 != lid
  {
    var (end, found) := RecordEnd(ix, lid, status, None);
    if found {
      var j := Owner(ix, ix.order, lid).value;
      EndEntryKeepsInv(ix.records[j], lid, status);
      EndActive(ix, end, j, lid);
    } else {
      NothingToEnd(ix, lid, status);
    }
  }

  lemma EndActive(ix: Index, end: Index, j: JobId, lid: LoopId)
    requires Inv(ix) && j in ix.records && Holds(ix.records[j], lid)
    requires end.records.Keys == ix.records.Keys
    requires forall k :: k in ix.records && k != j ==> end.records[k] == ix.records[k]
    requires forall l, g :: IsRunning(end.records[j], l, g) <==> IsRunning(ix.records[j], l, g) && l != lid
    ensures forall x :: Active(end, x) <==> Active(ix, x) && x.0 != lid
  {
    forall x | Active(end, x)
      ensures Active(ix, x) && x.0 != lid
    {
      var k :| k in end.records && IsRunning(end.records[k], x.0, x.1);
      assert IsRunning(ix.records[k], x.0, x.1) && Holds(ix.records[k], x.0);
    }
    forall x | Active(ix, x) && x.0 != lid
      ensures Active(end, x)
    {
      var k :| k in ix.records && IsRunning(ix.records[k], x.0, x.1);
      assert IsRunning(end.records[k], x.0, x.1);
    }
  }

  /** `entry` is one of the job's entries. */
  ghost predicate Recorded(ix: Index, j: JobId, entry: Entry) {
    j in ix.records && entry in ix.records[j].loops
  }

  /** Ending the loop a goal is active under leaves every entry of every other goal as it is. */
  lemma EndTouchesOnlyItsGoal(ix: Index, lid: LoopId, goal: GoalId, status: EntryStatus)
    requires Inv(ix) && Active(ix, (lid, goal)) && status != Running
    ensures var end := RecordEnd(ix, lid, status, None).0;
      forall j, entry: Entry :: entry.goal != goal ==> (Recorded(end, j, entry) <==> Recorded(ix, j, entry))
  {
    var j := OwnerOfActive(ix, lid, goal);
    var r := ix.records[j];
    EntryOfActive(r, lid, goal);
    var i := EntryToEnd(r.loops, lid).value;
    hide Inv, EntryToEnd, Owner, IsRunning, Holds;
    ReplacedEntryOnly(r.loops, i, r.loops[i].(status := status), goal);
    assert RecordEnd(ix, lid, status, None).0.records == ix.records[j := EndEntry(r, lid, status).value];
  }

  lemma OwnerOfActive(ix: Index, lid: LoopId, goal: GoalId) returns (j: JobId)
    requires Inv(ix) && Active(ix, (lid, goal))
    ensures j in ix.records && RecordInv(ix.records[j]) && IsRunning(ix.records[j], lid, goal)
    ensures Owner(ix, ix.order, lid) == Some(j)
  {
    j :| j in ix.records && IsRunning(ix.records[j], lid, goal);
    assert Holds(ix.records[j], lid);
  }

  lemma EntryOfActive(r: Record, lid: LoopId, goal: GoalId)
    requires RecordInv(r) && IsRunning(r, lid, goal)
    ensures var i := EntryToEnd(r.loops, lid); i.Some? && r.loops[i.value].goal == goal
  {
  }

  lemma ReplacedEntryOnly(loops: seq<Entry>, i: nat, e: Entry, goal: GoalId)
    requires i < |loops| && loops[i].goal == goal && e.goal == goal
    ensures forall entry: Entry :: entry.goal != goal ==> (entry in loops[i := e] <==> entry in loops)
  {
    var q := loops[i := e];
    assert forall k :: 0 <= k < |loops| && k != i ==> q[k] == loops[k];
  }

  lemma NothingToEnd(ix: Index, lid: LoopId, status: EntryStatus)
    requires Inv(ix) && status != Running && !RecordEnd(ix, lid, status, None).1
    ensures Unseen(ix, lid) && forall x :: Active(ix, x) ==> x.0 != lid
  {
    var j := Owner(ix, ix.order, lid);
    if j.Some? {
      EndEntryKeepsInv(ix.records[j.value], lid, status);
    }
    hide Inv, Owner, EndEntry, RecordInv;
    forall x | Active(ix, x)
      ensures x.0 != lid
    {
      var k :| k in ix.records && IsRunning(ix.records[k], x.0, x.1);
      assert Holds(ix.records[k], x.0);
    }
  }

  // ---- Restore: interrupting everything still active ------------------------------------------

  /** The active loops of the listed jobs, job by job, in start order. */
  function AllActive(ix: Index, jobs: seq<JobId>): seq<LoopId> {
    if jobs == [] then []
    else (if jobs[0] in ix.records then ix.records[jobs[0]].activeLoops else []) + AllActive(ix, jobs[1..])
  }

  /** The loop's own job resolves to itself, even when its id is the empty string. */
  lemma ResolveHolder(ix: Index, job: JobId, lid: LoopId)
    requires Inv(ix) && job in ix.records && Holds(ix.records[job], lid)
    ensures ResolveJob(ix, lid, Some(job)) == Some(job)
  {
  }

  lemma InterruptOne(ix: Index, job: JobId, lid: LoopId)
    requires Inv(ix) && job in ix.records && lid in ix.records[job].activeLoops
    ensures var (end, found) := RecordEnd(ix, lid, Interrupted, Some(job));
      && Inv(end) && found
      && end.records.Keys == ix.records.Keys && end.order == ix.order
      && end.records[job].activeLoops == Without(ix.records[job].activeLoops, lid)
      && (forall j :: j in ix.records && j != job ==> end.records[j] == ix.records[j])
  {
    var r := ix.records[job];
    RunningIdsAreHeld(r.loops);
    assert Holds(r, lid);
    ResolveHolder(ix, job, lid);
    EndEntryKeepsInv(r, lid, Interrupted);
    EndKeepsInv(ix, lid, Interrupted, Some(job));
  }

  lemma {:induction false} InterruptLoopsExact(ix: Index, job: JobId, lids: seq<LoopId>)
    requires Inv(ix) && job in ix.records && lids == ix.records[job].activeLoops
    ensures var (end, found) := InterruptLoops(ix, job, lids);
      && Inv(end) && found == lids
      && end.records.Keys == ix.records.Keys
      && end.records[job].activeLoops == []
      && (forall j :: j in ix.records && j != job ==> end.records[j] == ix.records[j])
    decreases |lids|
  {
    if lids != [] {
      RunningIdsDistinct(ix.records[job].loops);
      assert lids == [lids[0]] + lids[1..] && lids[0] !in lids[1..];
      InterruptOne(ix, job, lids[0]);
      WithoutAbsent(lids[1..], lids[0]);
      InterruptLoopsExact(RecordEnd(ix, lids[0], Interrupted, Some(job)).0, job, lids[1..]);
    }
  }

  lemma {:induction false} RunningIdsDistinct(loops: seq<Entry>)
    requires forall a, b :: 0 <= a < b < |loops| ==> loops[a].loopId != loops[b].loopId
    ensures NoDuplicates(RunningIds(loops))
  {
    if loops != [] {
      var rest := loops[..|loops| - 1];
      RunningIdsDistinct(rest);
      RunningIdsAreHeld(rest);
      assert loops[|loops| - 1].loopId !in RunningIds(rest);
    }
  }

  lemma {:induction false} InterruptJobsExact(ix: Index, jobs: seq<JobId>)
    requires Inv(ix) && NoDuplicates(jobs) && (forall j :: j in jobs ==> j in ix.records)
    ensures var (end, found) := InterruptJobs(ix, jobs);
      && Inv(end) && found == AllActive(ix, jobs)
      && end.records.Keys == ix.records.Keys
      && (forall j :: j in jobs ==> end.records[j].activeLoops == [])
      && (forall j :: j in ix.records && j !in jobs ==> end.records[j] == ix.records[j])
    decreases |jobs|
  {
    if jobs != [] {
      var rest := jobs[1..];
      assert jobs == [jobs[0]] + rest;
      assert jobs[0] !in rest;
      InterruptLoopsExact(ix, jobs[0], ix.records[jobs[0]].activeLoops);
      var next := InterruptLoops(ix, jobs[0], ix.records[jobs[0]].activeLoops).0;
      InterruptJobsExact(next, rest);
      AllActiveFrame(ix, next, rest);
    }
  }

  lemma {:induction false} AllActiveFrame(ix: Index, next: Index, jobs: seq<JobId>)
    requires forall j :: j in jobs ==> j in ix.records && j in next.records && next.records[j] == ix.records[j]
    ensures AllActive(ix, jobs) == AllActive(next, jobs)
  {
    if jobs != [] {
      AllActiveFrame(ix, next, jobs[1..]);
    }
  }

  /**
   * `interrupt_active_loops` returns exactly the loops that were active, in order, and leaves no running
   * entry in any job.
   */
  lemma InterruptExact(ix: Index)
    requires Inv(ix)
    ensures var (end, found) := InterruptJobs(ix, ix.order);
      && Inv(end) && found == AllActive(ix, ix.order)
      && forall x :: !Active(end, x)
  {
    InterruptJobsExact(ix, ix.order);
    var end := InterruptJobs(ix, ix.order).0;
    forall x
      ensures !Active(end, x)
    {
      if Active(end, x) {
        var j :| j in end.records && IsRunning(end.records[j], x.0, x.1);
        RunningIsListed(end.records[j].loops, x.0);
      }
    }
  }

  lemma {:induction false} RunningIsListed(loops: seq<Entry>, lid: LoopId)
    requires exists i :: 0 <= i < |loops| && loops[i].loopId == lid && loops[i].status == Running
    ensures lid in RunningIds(loops)
  {
    var i :| 0 <= i < |loops| && loops[i].loopId == lid && loops[i].status == Running;
    var rest := loops[..|loops| - 1];
    if i < |rest| {
      assert rest[i] == loops[i];
      RunningIsListed(rest, lid);
    }
  }

  // ---- Whole runs -------------------------------------------------------------------------------

  datatype Op =
    | Start(job: JobId, lid: LoopId, goal: GoalId, attempt: int)
    | End(lid: LoopId, status: EntryStatus, hint: Option<JobId>)
    | Mark(job: JobId, mark: JobStatus)
    | Restore

  function Apply(ix: Index, op: Op): Index {
    match op
    case Start(job, lid, goal, attempt) => RecordStart(ix, job, lid, goal, attempt)
    case End(lid, status, hint) => RecordEnd(ix, lid, status, hint).0
    case Mark(job, status) => MarkStatus(ix, job, status)
    case Restore => InterruptJobs(ix, ix.order).0
  }

  function Run(ix: Index, ops: seq<Op>): Index
    decreases |ops|
  {
    if ops == [] then ix else Run(Apply(ix, ops[0]), ops[1..])
  }

  /** Every start uses a loop id no job has held, and every end a status other than running. */
  ghost predicate WellUsed(ix: Index, ops: seq<Op>)
    decreases |ops|
  {
    ops == [] || (
      && (ops[0].Start? ==> Unseen(ix, ops[0].lid))
      && (ops[0].End? ==> ops[0].status != Running)
      && WellUsed(Apply(ix, ops[0]), ops[1..]))
  }

  /** Numbering, active lists and single ownership hold after every such history. */
  lemma {:induction false} RunKeepsInv(ix: Index, ops: seq<Op>)
    requires Inv(ix) && WellUsed(ix, ops)
    ensures Inv(Run(ix, ops))
    decreases |ops|
  {
    if ops != [] {
      match ops[0] {
        case Start(job, lid, goal, attempt) => StartKeepsInv(ix, job, lid, goal, attempt);
        case End(lid, status, hint) => EndKeepsInv(ix, lid, status, hint);
        case Mark(job, status) => MarkKeepsInv(ix, job, status);
        case Restore => InterruptExact(ix);
      }
      RunKeepsInv(Apply(ix, ops[0]), ops[1..]);
    }
  }

  /** Same entries and numbering, job by job; a job new in `end` has none. */
  ghost predicate SameLoops(ix: Index, end: Index) {
    && ix.records.Keys <= end.records.Keys
    && forall j :: j in end.records ==>
      var r := if j in ix.records then ix.records[j] else EMPTY_RECORD;
      end.records[j] == r.(status := end.records[j].status)
  }

  lemma SameLoopsSameFacts(ix: Index, end: Index)
    requires SameLoops(ix, end)
    ensures forall j, lid ::
      j in end.records && Holds(end.records[j], lid) <==> j in ix.records && Holds(ix.records[j], lid)
    ensures forall lid :: Unseen(end, lid) <==> Unseen(ix, lid)
    ensures OneOwner(ix) ==> OneOwner(end)
  {
    forall j, lid
      ensures j in end.records && Holds(end.records[j], lid) <==> j in ix.records && Holds(ix.records[j], lid)
    {
      if j in ix.records {
        assert end.records[j].loops == ix.records[j].loops;
      }
    }
  }

  lemma SameLoopsSameEntries(ix: Index, end: Index)
    requires SameLoops(ix, end)
    ensures forall j, entry: Entry :: Recorded(end, j, entry) <==> Recorded(ix, j, entry)
    ensures forall x :: Active(end, x) <==> Active(ix, x)
  {
    forall j, lid, goal
      ensures j in end.records && IsRunning(end.records[j], lid, goal)
        <==> j in ix.records && IsRunning(ix.records[j], lid, goal)
    {
      if j in ix.records {
        assert end.records[j].loops == ix.records[j].loops;
      }
    }
  }

  lemma SameLoopsSameRecords(ix: Index, end: Index)
    requires SameLoops(ix, end) && forall j :: j in ix.records ==> RecordInv(ix.records[j])
    ensures forall j :: j in end.records ==> RecordInv(end.records[j])
  {
    forall j | j in end.records
      ensures RecordInv(end.records[j])
    {
      if j in ix.records {
        var (r, q) := (ix.records[j], end.records[j]);
        assert q.loops == r.loops && q.nextSeq == r.nextSeq && q.activeLoops == r.activeLoops;
      }
    }
  }

  /** Marking a job, seen before or not, starts, ends and forgets no loop of any job. */
  lemma MarkKeepsInv(ix: Index, job: JobId, status: JobStatus)
    requires Inv(ix)
    ensures var end := MarkStatus(ix, job, status);
      && Inv(end) && job in end.records && end.records[job].status == status
      && (forall x :: Active(end, x) <==> Active(ix, x))
      && (forall lid :: Unseen(end, lid) <==> Unseen(ix, lid))
      && (forall j, entry: Entry :: Recorded(end, j, entry) <==> Recorded(ix, j, entry))
  {
    var end := MarkStatus(ix, job, status);
    if job !in ix.records {
      AppendDistinct(ix.order, job);
    }
    assert SameLoops(ix, end);
    hide SameLoops, RecordInv, OneOwner, Active, Unseen, Recorded, Holds;
    SameLoopsSameFacts(ix, end);
    SameLoopsSameEntries(ix, end);
    SameLoopsSameRecords(ix, end);
  }

  // ---- Job ids in loop ids --------------------------------------------------------------------

  ghost predicate AllocatedFor(job: JobId, lid: LoopId) {
    exists suffix :: Allocate(job, suffix) == Some(lid)
  }

  /** Every recorded loop id was allocated for the job it is recorded under. */
  ghost predicate Attributed(ix: Index) {
    forall j, lid :: j in ix.records && Holds(ix.records[j], lid) ==> AllocatedFor(j, lid)
  }

  lemma StartKeepsAttributed(ix: Index, job: JobId, lid: LoopId, goal: GoalId, attempt: int)
    requires Inv(ix) && Attributed(ix) && AllocatedFor(job, lid) && Unseen(ix, lid)
    ensures Attributed(RecordStart(ix, job, lid, goal, attempt))
  {
    var r := if job in ix.records then ix.records[job] else EMPTY_RECORD;
    var end := RecordStart(ix, job, lid, goal, attempt);
    StartFacts(ix, end, job, r, lid, goal, attempt);
    hide Inv, RecordInv, Holds, IsRunning, RecordStart, Unseen, AllocatedFor;
    forall j, l | j in end.records && Holds(end.records[j], l)
      ensures AllocatedFor(j, l)
    {
      if j != job || l != lid {
        assert Holds(ix.records[j], l);
      }
    }
  }

  lemma MarkKeepsAttributed(ix: Index, job: JobId, status: JobStatus)
    requires Attributed(ix)
    ensures Attributed(MarkStatus(ix, job, status))
  {
    hide Holds, AllocatedFor;
    SameLoopsSameFacts(ix, MarkStatus(ix, job, status));
  }

  lemma EndKeepsAttributed(ix: Index, lid: LoopId, status: EntryStatus, job: Option<JobId>)
    requires Inv(ix) && Attributed(ix) && status != Running
    ensures Attributed(RecordEnd(ix, lid, status, job).0)
  {
    var (end, found) := RecordEnd(ix, lid, status, job);
    if found {
      EndEntryKeepsInv(ix.records[ResolveJob(ix, lid, job).value], lid, status);
      forall j, l | j in end.records && Holds(end.records[j], l)
        ensures AllocatedFor(j, l)
      {
        assert Holds(ix.records[j], l);
      }
    }
  }

  /** For any recorded loop, the job parsed from its id is its owner exactly for clean, parseable job ids. */
  lemma ParsedJobIsOwner(ix: Index, lid: LoopId)
    requires Inv(ix) && Attributed(ix) && !Unseen(ix, lid)
    ensures var owner := Owner(ix, ix.order, lid);
      owner.Some? && (Parse(lid) == owner <==> Strip(owner.value) == owner.value && Parseable(owner.value))
  {
    var j :| j in ix.records && Holds(ix.records[j], lid);
    var owner := Owner(ix, ix.order, lid);
    assert owner == Some(j);
    var suffix :| Allocate(j, suffix) == Some(lid);
    RoundTrip(j, suffix);
    ParsedIdIsPrefix(j, suffix);
    if Parse(lid) == Some(j) {
      StripGivesBackOnlyPrefixes(j);
    }
  }

  lemma StripGivesBackOnlyPrefixes(s: string)
    ensures s <= Strip(s) ==> Strip(s) == s
  {
    StripShortens(s);
    StripShortens(StripLeft(s));
  }
}
