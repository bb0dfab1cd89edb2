/** What starting, ending and interrupting a loop writes into the job index (job_loop_index.py). */
module JobIndexEffects {
  import opened Prelude
  import opened LoopIds
  import opened JobIndexModel

  /** A start leaves a running entry that names loop, goal and attempt, under the record's next number. */
  lemma StartIsRecorded(ix: Index, job: JobId, lid: LoopId, goal: GoalId, attempt: int) returns (n: nat)
    ensures n == if job in ix.records then ix.records[job].nextSeq else 1
    ensures var end := RecordStart(ix, job, lid, goal, attempt);
      Recorded(end, job, Entry(n, lid, goal, attempt, Running)) && end.records[job].status == JobRunning
  {
    var r := if job in ix.records then ix.records[job] else EMPTY_RECORD;
    n := r.nextSeq;
    var loops := RecordStart(ix, job, lid, goal, attempt).records[job].loops;
    assert loops[|loops| - 1] == Entry(n, lid, goal, attempt, Running);
  }

  /** The job a loop is ended under: the hint if there is one, else the job that holds it. */
  ghost predicate EndsUnder(ix: Index, lid: LoopId, hint: Option<JobId>, job: JobId) {
    job in ix.records && Holds(ix.records[job], lid) && (hint.None? || hint.value == "" || hint.value == job)
  }

  /** Ending a loop writes the given status to its entry and leaves every other entry of every job as it is. */
  lemma EndWritesStatus(ix: Index, lid: LoopId, status: EntryStatus, hint: Option<JobId>, job: JobId)
    requires Inv(ix) && status != Running && EndsUnder(ix, lid, hint, job)
    ensures var (end, found) := RecordEnd(ix, lid, status, hint);
      && found && end.records.Keys == ix.records.Keys
      && (forall j, e: Entry :: e.loopId != lid ==> (Recorded(end, j, e) <==> Recorded(ix, j, e)))
      && (forall e: Entry :: e.loopId == lid && Recorded(ix, job, e) ==> Recorded(end, job, e.(status := status)))
      && (forall j, e: Entry :: e.loopId == lid && Recorded(end, j, e) ==> j == job && e.status == status)
  {
    EndsItsRecord(ix, lid, status, hint, job);
    var end := RecordEnd(ix, lid, status, hint).0;
    HeldByOne(ix, lid, job);
    hide *;
    EndedEntries(ix.records[job], lid, status);
    ReplacedLoops(ix, end, lid, status, job, EndEntry(ix.records[job], lid, status).value);
  }

  lemma ReplacedLoops(ix: Index, end: Index, lid: LoopId, status: EntryStatus, job: JobId, r: Record)
    requires job in ix.records && end == ix.(records := ix.records[job := r])
    requires forall e: Entry :: e.loopId != lid ==> (e in r.loops <==> e in ix.records[job].loops)
    requires forall e: Entry :: e.loopId == lid && e in ix.records[job].loops ==> e.(status := status) in r.loops
    requires forall e: Entry :: e.loopId == lid && e in r.loops ==> e.status == status
    requires forall j, e: Entry :: Recorded(ix, j, e) && e.loopId == lid ==> j == job
    ensures end.records.Keys == ix.records.Keys
    ensures forall j, e: Entry :: e.loopId != lid ==> (Recorded(end, j, e) <==> Recorded(ix, j, e))
    ensures forall e: Entry :: e.loopId == lid && Recorded(ix, job, e) ==> Recorded(end, job, e.(status := status))
    ensures forall j, e: Entry :: e.loopId == lid && Recorded(end, j, e) ==> j == job && e.status == status
  {
    forall j, e: Entry | e.loopId == lid && Recorded(end, j, e)
      ensures j == job && e.status == status
    {
      if j != job {
        assert Recorded(ix, j, e);
      }
    }
  }

  lemma EndsItsRecord(ix: Index, lid: LoopId, status: EntryStatus, hint: Option<JobId>, job: JobId)
    requires Inv(ix) && EndsUnder(ix, lid, hint, job)
    ensures DistinctLoops(ix.records[job]) && EndEntry(ix.records[job], lid, status).Some?
    ensures RecordEnd(ix, lid, status, hint)
      == (ix.(records := ix.records[job := EndEntry(ix.records[job], lid, status).value]), true)
  {
    OwnerIsTheHolder(ix, lid, job);
    assert RecordInv(ix.records[job]);
    hide Inv, Owner;
    EndedEntries(ix.records[job], lid, status);
  }

  lemma HeldByOne(ix: Index, lid: LoopId, job: JobId)
    requires OneOwner(ix) && job in ix.records && Holds(ix.records[job], lid)
    ensures forall j, e: Entry :: Recorded(ix, j, e) && e.loopId == lid ==> j == job
  {
    forall j, e: Entry | Recorded(ix, j, e) && e.loopId == lid
      ensures j == job
    {
      assert Holds(ix.records[j], lid);
    }
  }

  lemma OwnerIsTheHolder(ix: Index, lid: LoopId, job: JobId)
    requires Inv(ix) && job in ix.records && Holds(ix.records[job], lid)
    ensures Owner(ix, ix.order, lid) == Some(job)
  {
  }

  lemma EndedEntries(r: Record, lid: LoopId, status: EntryStatus)
    requires DistinctLoops(r) && Holds(r, lid)
    ensures EndEntry(r, lid, status).Some?
    ensures var loops := EndEntry(r, lid, status).value.loops;
      && (forall e: Entry :: e.loopId != lid ==> (e in loops <==> e in r.loops))
      && (forall e: Entry :: e.loopId == lid && e in r.loops ==> e.(status := status) in loops)
      && (forall e: Entry :: e.loopId == lid && e in loops ==> e.status == status)
  {
    var i := EntryToEnd(r.loops, lid).value;
    var loops := r.loops[i := r.loops[i].(status := status)];
    assert EndEntry(r, lid, status).value.loops == loops;
    forall k | 0 <= k < |r.loops| && k != i
      ensures loops[k] == r.loops[k] && loops[k].loopId != lid
    {
    }
    assert loops[i].loopId == lid && loops[i] in loops;
    forall e: Entry | e.loopId != lid
      ensures e in loops <==> e in r.loops
    {
      if k :| 0 <= k < |r.loops| && r.loops[k] == e {
        assert loops[k] == e;
      }
      if k :| 0 <= k < |loops| && loops[k] == e {
        assert r.loops[k] == e;
      }
    }
  }

  /** A hint that names another job, or a loop nobody holds: nothing is ended. */
  lemma NothingEnded(ix: Index, lid: LoopId, status: EntryStatus, hint: Option<JobId>)
    requires Inv(ix) && forall j :: !EndsUnder(ix, lid, hint, j)
    ensures RecordEnd(ix, lid, status, hint) == (ix, false)
  {
    var job := ResolveJob(ix, lid, hint);
    if job.Some? && job.value in ix.records {
      assert !EndsUnder(ix, lid, hint, job.value);
    }
  }

  // ---- Restart ----------------------------------------------------------------------------------

  /** Some running entries became interrupted; nothing else about the entries changed. */
  ghost predicate Interrupts(a: seq<Entry>, b: seq<Entry>) {
    |a| == |b| && forall i :: 0 <= i < |a| ==> InterruptedOrSame(a[i], b[i])
  }

  predicate InterruptedOrSame(e: Entry, f: Entry) {
    f == e || (e.status == Running && f == e.(status := Interrupted))
  }

  ghost predicate OnlyInterrupts(ix: Index, end: Index) {
    ix.records.Keys == end.records.Keys
    && forall j :: j in ix.records ==> Interrupts(ix.records[j].loops, end.records[j].loops)
  }

  lemma OnlyInterruptsTransitive(a: Index, b: Index, c: Index)
    requires OnlyInterrupts(a, b) && OnlyInterrupts(b, c)
    ensures OnlyInterrupts(a, c)
  {
    forall j | j in a.records
      ensures Interrupts(a.records[j].loops, c.records[j].loops)
    {
      var (x, y, z) := (a.records[j].loops, b.records[j].loops, c.records[j].loops);
      assert Interrupts(x, y) && Interrupts(y, z);
      forall i | 0 <= i < |x|
        ensures InterruptedOrSame(x[i], z[i])
      {
        assert InterruptedOrSame(x[i], y[i]) && InterruptedOrSame(y[i], z[i]);
      }
    }
  }

  lemma ActiveIsRunning(loops: seq<Entry>, lid: LoopId)
    requires lid in RunningIds(loops)
    ensures EntryToEnd(loops, lid).Some? && loops[EntryToEnd(loops, lid).value].status == Running
  {
    var i := RunningAt(loops, lid);
    hide RunningIds;
  }

  lemma {:induction false} RunningAt(loops: seq<Entry>, lid: LoopId) returns (i: nat)
    requires lid in RunningIds(loops)
    ensures i < |loops| && loops[i].loopId == lid && loops[i].status == Running
  {
    var n := |loops| - 1;
    if lid in RunningIds(loops[..n]) {
      i := RunningAt(loops[..n], lid);
    } else {
      i := n;
    }
  }

  lemma InterruptsItsEntry(ix: Index, job: JobId, lid: LoopId)
    requires Inv(ix) && job in ix.records && lid in ix.records[job].activeLoops
    ensures OnlyInterrupts(ix, RecordEnd(ix, lid, Interrupted, Some(job)).0)
  {
    var r := ix.records[job];
    assert RecordInv(r) && DistinctLoops(r);
    hide Inv, RecordEnd, EndEntry, RunningIds, Holds, RecordInv, EndsUnder, Owner;
    ActiveIsRunning(r.loops, lid);
    IsHeld(r, lid);
    UnderItsJob(ix, lid, job);
    EndsItsRecord(ix, lid, Interrupted, Some(job), job);
    EndedOne(r, lid);
  }

  lemma IsHeld(r: Record, lid: LoopId)
    requires EntryToEnd(r.loops, lid).Some?
    ensures Holds(r, lid)
  {
  }

  lemma UnderItsJob(ix: Index, lid: LoopId, job: JobId)
    requires job in ix.records && Holds(ix.records[job], lid)
    ensures EndsUnder(ix, lid, Some(job), job)
  {
  }

  /** One running entry became interrupted. */
  lemma EndedOne(r: Record, lid: LoopId)
    requires EntryToEnd(r.loops, lid).Some? && r.loops[EntryToEnd(r.loops, lid).value].status == Running
    ensures EndEntry(r, lid, Interrupted).Some? && Interrupts(r.loops, EndEntry(r, lid, Interrupted).value.loops)
  {
    hide EntryToEnd;
  }

  lemma {:induction false} LoopsOnlyInterrupt(ix: Index, job: JobId, lids: seq<LoopId>)
    requires Inv(ix) && job in ix.records && lids == ix.records[job].activeLoops
    ensures OnlyInterrupts(ix, InterruptLoops(ix, job, lids).0)
    decreases |lids|
  {
    if lids != [] {
      RunningIdsDistinct(ix.records[job].loops);
      assert lids == [lids[0]] + lids[1..] && lids[0] !in lids[1..];
      hide OnlyInterrupts;
      InterruptOne(ix, job, lids[0]);
      InterruptsItsEntry(ix, job, lids[0]);
      WithoutAbsent(lids[1..], lids[0]);
      var next := RecordEnd(ix, lids[0], Interrupted, Some(job)).0;
      LoopsOnlyInterrupt(next, job, lids[1..]);
      OnlyInterruptsTransitive(ix, next, InterruptLoops(next, job, lids[1..]).0);
    }
  }

  lemma {:induction false} JobsOnlyInterrupt(ix: Index, jobs: seq<JobId>)
    requires Inv(ix) && NoDuplicates(jobs) && forall j :: j in jobs ==> j in ix.records
    ensures OnlyInterrupts(ix, InterruptJobs(ix, jobs).0)
    decreases |jobs|
  {
    if jobs != [] {
      assert jobs == [jobs[0]] + jobs[1..] && jobs[0] !in jobs[1..];
      hide OnlyInterrupts;
      var active := ix.records[jobs[0]].activeLoops;
      InterruptLoopsExact(ix, jobs[0], active);
      LoopsOnlyInterrupt(ix, jobs[0], active);
      var next := InterruptLoops(ix, jobs[0], active).0;
      JobsOnlyInterrupt(next, jobs[1..]);
      OnlyInterruptsTransitive(ix, next, InterruptJobs(next, jobs[1..]).0);
    }
  }

  /** After a restart every entry that was running is interrupted, and every other entry is as it was. */
  lemma RestartInterruptsExactly(ix: Index)
    requires Inv(ix)
    ensures var end := InterruptJobs(ix, ix.order).0;
      && end.records.Keys == ix.records.Keys
      && forall j :: j in ix.records ==> AllInterrupted(ix.records[j].loops, end.records[j].loops)
  {
    hide InterruptJobs, AllInterrupted, Interrupts, Active;
    JobsOnlyInterrupt(ix, ix.order);
    InterruptExact(ix);
    var end := InterruptJobs(ix, ix.order).0;
    forall j | j in ix.records
      ensures AllInterrupted(ix.records[j].loops, end.records[j].loops)
    {
      NoneRunningLeft(end, j);
      RunningAllInterrupted(ix.records[j].loops, end.records[j].loops);
    }
  }

  lemma NoneRunningLeft(end: Index, j: JobId)
    requires j in end.records && forall x :: !Active(end, x)
    ensures forall i :: 0 <= i < |end.records[j].loops| ==> end.records[j].loops[i].status != Running
  {
    var b := end.records[j].loops;
    forall i | 0 <= i < |b|
      ensures b[i].status != Running
    {
      if b[i].status == Running {
        assert IsRunning(end.records[j], b[i].loopId, b[i].goal);
        assert Active(end, (b[i].loopId, b[i].goal));
      }
    }
  }

  lemma RunningAllInterrupted(a: seq<Entry>, b: seq<Entry>)
    requires Interrupts(a, b) && forall i :: 0 <= i < |b| ==> b[i].status != Running
    ensures AllInterrupted(a, b)
  {
    forall i | 0 <= i < |a|
      ensures b[i] == if a[i].status == Running then a[i].(status := Interrupted) else a[i]
    {
      assert InterruptedOrSame(a[i], b[i]);
    }
  }

  ghost predicate AllInterrupted(a: seq<Entry>, b: seq<Entry>) {
    && |a| == |b|
    && forall i :: 0 <= i < |a| ==> b[i] == if a[i].status == Running then a[i].(status := Interrupted) else a[i]
  }
}
