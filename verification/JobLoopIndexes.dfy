/** The job-to-loop index as an object with a record map it updates (job_loop_index.py, in-memory mode). */
module JobLoopIndexes {
  import opened Prelude
  import opened LoopIds
  import opened JobIndexModel

  class JobLoopIndex {
    var order: seq<JobId>
    var records: map<JobId, Record>

    function View(): Index
      reads this
    {
      Index(order, records)
    }

    ghost predicate Valid()
      reads this
    {
      forall j :: j in order <==> j in records
    }

    constructor ()
      ensures Valid() && View() == Index([], map[])
    {
      order, records := [], map[];
    }

    method StartLoop(job: JobId, lid: LoopId, goal: GoalId, attempt: int) returns (entry: Entry)
      requires Valid()
      modifies this
      ensures Valid() && View() == RecordStart(old(View()), job, lid, goal, attempt)
      ensures entry.loopId == lid && entry.goal == goal && entry.status == Running
      ensures Holds(records[job], lid) && entry in records[job].loops
    {
      if job !in records {
        order := order + [job];
        records := records[job := EMPTY_RECORD];
      }
      var record := records[job];
      entry := Entry(record.nextSeq, lid, goal, attempt, Running);
      record := record.(nextSeq := record.nextSeq + 1);
      record := record.(loops := record.loops + [entry]);
      if lid !in record.activeLoops {
        record := record.(activeLoops := record.activeLoops + [lid]);
      }
      record := record.(status := JobRunning);
      assert record.loops[|record.loops| - 1] == entry;
      records := records[job := record];
    }

    method MarkJobStatus(job: JobId, status: JobStatus)
      requires Valid()
      modifies this
      ensures Valid() && View() == MarkStatus(old(View()), job, status)
    {
      if job !in records {
        order := order + [job];
        records := records[job := EMPTY_RECORD];
      }
      records := records[job := records[job].(status := status)];
    }

    method OwnerOf(lid: LoopId) returns (owner: Option<JobId>)
      requires Valid()
      ensures owner == Owner(View(), order, lid)
    {
      for k := 0 to |order|
        invariant Owner(View(), order, lid) == Owner(View(), order[k..], lid)
      {
        assert order[k..][0] == order[k] && order[k..][1..] == order[k + 1..];
        if Holds(records[order[k]], lid) {
          return Some(order[k]);
        }
      }
      return None;
    }

    static method FindLast(loops: seq<Entry>, lid: LoopId, running: bool) returns (found: Option<nat>)
      ensures found == LastEntry(loops, lid, running)
    {
      var n := |loops|;
      assert loops[..n] == loops;
      while n > 0
        invariant 0 <= n <= |loops|
        invariant LastEntry(loops, lid, running) == LastEntry(loops[..n], lid, running)
      {
        assert loops[..n][..n - 1] == loops[..n - 1];
        n := n - 1;
        if loops[n].loopId == lid && (running ==> loops[n].status == Running) {
          return Some(n);
        }
      }
      return None;
    }

    static method DropLoop(s: seq<LoopId>, lid: LoopId) returns (kept: seq<LoopId>)
      ensures kept == Without(s, lid)
    {
      kept := [];
      assert s[0..] == s;
      for k := 0 to |s|
        invariant Without(s, lid) == kept + Without(s[k..], lid)
      {
        ghost var rest := Without(s[k + 1..], lid);
        assert s[k..][0] == s[k] && s[k..][1..] == s[k + 1..];
        assert kept + ([s[k]] + rest) == (kept + [s[k]]) + rest;
        assert kept + ([] + rest) == kept + rest;
        if s[k] != lid {
          kept := kept + [s[k]];
        }
      }
    }

    /** Marks the loop's entry in one record, or finds none. */
    static method EndInRecord(record: Record, lid: LoopId, status: EntryStatus) returns (saved: Option<Record>)
      ensures saved == EndEntry(record, lid, status)
    {
      var entry := FindLast(record.loops, lid, true);
      if entry.None? {
        entry := FindLast(record.loops, lid, false);
      }
      if entry.None? {
        return None;
      }
      var loops := record.loops[entry.value := record.loops[entry.value].(status := status)];
      var kept := DropLoop(record.activeLoops, lid);
      return Some(record.(loops := loops, activeLoops := kept));
    }

    method EndLoop(lid: LoopId, status: EntryStatus, job: Option<JobId>) returns (found: bool)
      requires Valid()
      modifies this
      ensures Valid() && View() == RecordEnd(old(View()), lid, status, job).0
      ensures found == RecordEnd(old(View()), lid, status, job).1
      ensures records.Keys == old(records.Keys) && order == old(order)
    {
      hide EndEntry, Owner;
      var resolved := job;
      if job.None? || job.value == "" {
        resolved := OwnerOf(lid);
      }
      if resolved.None? || resolved.value !in records {
        return false;
      }
      var saved := EndInRecord(records[resolved.value], lid, status);
      if saved.None? {
        return false;
      }
      records := records[resolved.value := saved.value];
      return true;
    }

    method InterruptActiveLoops() returns (interrupted: seq<LoopId>)
      requires Valid()
      modifies this
      ensures Valid() && View() == InterruptJobs(old(View()), old(order)).0
      ensures interrupted == InterruptJobs(old(View()), old(order)).1
    {
      hide InterruptLoops;
      interrupted := [];
      var jobs := order;
      assert jobs[0..] == jobs;
      for k := 0 to |jobs|
        invariant Valid() && order == jobs
        invariant InterruptJobs(View(), jobs[k..]).0 == InterruptJobs(old(View()), jobs).0
        invariant interrupted + InterruptJobs(View(), jobs[k..]).1 == InterruptJobs(old(View()), jobs).1
      {
        assert jobs[k..][0] == jobs[k] && jobs[k..][1..] == jobs[k + 1..];
        assert jobs[k] in records;
        var ended := InterruptJobLoops(jobs[k], records[jobs[k]].activeLoops);
        ghost var rest := InterruptJobs(View(), jobs[k + 1..]).1;
        assert interrupted + (ended + rest) == (interrupted + ended) + rest;
        interrupted := interrupted + ended;
      }
    }

    method InterruptJobLoops(job: JobId, active: seq<LoopId>) returns (ended: seq<LoopId>)
      requires Valid()
      modifies this
      ensures Valid() && order == old(order)
      ensures View() == InterruptLoops(old(View()), job, active).0
      ensures ended == InterruptLoops(old(View()), job, active).1
    {
      ended := [];
      assert active[0..] == active;
      for k := 0 to |active|
        invariant Valid() && order == old(order)
        invariant InterruptLoops(View(), job, active[k..]).0 == InterruptLoops(old(View()), job, active).0
        invariant ended + InterruptLoops(View(), job, active[k..]).1 == InterruptLoops(old(View()), job, active).1
      {
        assert active[k..][0] == active[k] && active[k..][1..] == active[k + 1..];
        var found := EndLoop(active[k], Interrupted, Some(job));
        if found {
          ended := ended + [active[k]];
        }
      }
    }
  }
}
