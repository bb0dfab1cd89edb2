# Verification of the autopilot dispatch core

A Dafny model, with proofs, of the part of the autopilot daemon that decides which goal may run, where, on
which worker, and with what inherited context. `dafny verify dfyconfig.toml` checks all of it.

What the daemon updates in place is a class here (`WorkerSlot`, `WorkerPool`, `WorkspaceReservation`,
`JobLoopIndex`, `GoalDag`, `AutopilotService`, `InMemoryContextStore`, `TokenMeter`, `NotifyDedupStore`,
`NotificationRouter`, `SlaMonitor`), and what it computes in loops is a method with loops. Each method is proved to
end in the state a pure function gives; the theorems are about those functions and about runs of them.

| file | what it covers |
|---|---|
| `Prelude.dfy`, `Ranking.dfy`, `IdOrder.dfy` | options, duplicate-free sequences, stable descending sort, order by creation time and id |
| `LoopIds.dfy` | assignment loop ids and parsing them |
| `PoolModel.dfy`, `PoolOrder.dfy`, `WorkerPools.dfy` | worker slots, sticky affinity, the idle queue and its order, the loop-id index |
| `WorkspaceReservations.dfy` | the workspace overlap gate |
| `JobIndexModel.dfy`, `JobIndexEffects.dfy`, `JobLoopIndexes.dfy` | the job-to-loop index |
| `Goals.dfy`, `GoalDepths.dfy`, `GoalTree.dfy` | goal nodes, claim and removal, job roots, snapshot and token totals |
| `DispatchModel.dfy`, `Reconciling.dfy`, `DispatchRuns.dfy`, `DispatchEffects.dfy` | dispatch, release, reaping, clean-up and scheduling over the joint state, whole runs, and what each step does |
| `Watchdogs.dfy`, `DispatchFailures.dfy`, `AutopilotServices.dfy` | the watchdog pass; concrete failures; the service on the live objects |
| `OrphanGc.dfy`, `HealthRemoval.dfy`, `Removals.dfy` | the orphan collector; removal of suggested goals |
| `Ancestors.dfy`, `AncestorOrder.dfy`, `Transcripts.dfy` | ancestor search, its order, the transcript |
| `Bundles.dfy`, `MergeOrder.dfy`, `FindingOrder.dfy`, `RecencyOrder.dfy` | bounded merges, and what they keep |
| `Projector.dfy`, `BundleMeaning.dfy` | the projected bundle and its validator |
| `StoreModel.dfy`, `StoreRuns.dfy`, `Retention.dfy`, `ContextStores.dfy` | the LRU contribution store with retention, and histories of its operations |
| `TokenCursor.dfy`, `Notify.dfy`, `Alerts.dfy` | token accounting; notification windows and the SLA scan |

## What the proofs found

- A dispatch attempt is not always safe. A candidate from a stale ready list that is already running loses its
  reservation in the rollback, and a blank job id raises between acquiring the workspace and the rollback, which
  also drops the popped slot from the idle queue. `DispatchKeepsInvIff` says exactly which attempts are safe.
- A release that names a loop of another goal breaks the registries; `ConsumerReadsOwnLoop` and
  `CapturedLoopStaysSafe` are why the stream consumer's releases and those of the cancel and pause paths never do, as long as every clean-up
  finds nothing stale.
- A release that names no loop for a running goal leaves it running without its reservation. The engine clears the
  node of a goal it parks for clarification, so cancelling such a goal before its worker has finished does this; its
  slot stays taken until the goal is terminal and a watchdog pass runs (`ParkedGoalIsStranded`).
- A goal sent back and dispatched again stays consistent with the registries, but no guarded release reaches it any
  more: its slot and reservation stay taken until the goal is terminal and a watchdog pass runs, and its index entry
  stays active after that (`SentBackGoalIsNeverReleased`, `ReconcileFreesTerminal`).
- The watchdog's clean-up works outside the released-goal guard. It keeps the registries consistent exactly when the
  guarded releases before it reached every running goal that is gone, terminal or suspended (`PassKeepsInvIff`). They
  miss a goal the engine completed or suspended, whose node it cleared, and one without a workspace. A suspended goal
  then runs on without its reservation. A terminal one's slot is reused while its consumer still holds it, and the
  consumer's own release ends the next goal on that slot, which keeps its reservation (`CleanUpLetsTailEndAnother`).
- The configuration admits merge caps of ten times the bundle validator's, so a projection can raise;
  `NeverRaisesIff` gives the safe configurations.
- A claim checks the conflicts its own goal names, not those that name it: `DispatchKeepsPeaceIff`.
- Job intents of different jobs can share a key when a job id holds a colon (`ColonsCollide`).
- One orphan-collection pass is complete on acyclic links but can strand a goal on a parent cycle, depending on the
  listing order.
- The documentation of the ancestor search says the dispatched goal is excluded. The code lists it when a cycle leads
  back to it, and so does the model.
- The recursive subtree walk behind the removal guard raises RecursionError on a parent cycle
  (`CrossedParentsOverflow`). `apply_health_report` does not catch it; the monitor loop logs it (monitor/monitor.py:585-588),
  and the rest of that report's removals and resets is lost.

## Assumptions

- One call of a service method is one step. Index writes and cancels succeed, and loop ids (uuid4) never repeat.
- Workspaces are normalized absolute paths given as component sequences, after the per-goal default was filled in.
- Slot ids are their spawn numbers, and the dictionary order of slots is that number.
- Times and scores are reals.

## Model

| member | source | states |
|---|---|---|
| LoopIds.RoundTrip | packages/soothe-autopilot/src/soothe_autopilot/workers/pool.py:38-55 | parsing an allocated loop id gives back the stripped job id if and only if that id holds no double underscore and does not end in an underscore |
| LoopIds.ParsedIdIsPrefix | packages/soothe-autopilot/src/soothe_autopilot/workers/pool.py:47-55 | whatever the job id, the parsed id is a prefix of the stripped one |
| LoopIds.StripMeans | packages/soothe-autopilot/src/soothe_autopilot/workers/pool.py:38-44 | stripping cuts off all blanks at both ends and nothing else |
| PoolModel.ChooseExact | packages/soothe-autopilot/src/soothe_autopilot/workers/pool.py:171-190 | an idle slot is reused exactly when one exists, capacity is refused exactly when the pool is full without one, and the queue loses at most the slot that is handed out |
| PoolModel.NoCapacityIff | packages/soothe-autopilot/src/soothe_autopilot/workers/pool.py:171-190 | no worker is handed out if and only if no slot is idle and the pool is full, and then nothing changes |
| PoolModel.PickKeepsInvIff | packages/soothe-autopilot/src/soothe_autopilot/workers/pool.py:171-236 | picking keeps the representation invariant and adds exactly one assignment, except that a blank job id raises after an idle slot has left the queue: kept if and only if the job id is usable or nothing is taken from the queue |
| PoolModel.MarkIdleKeepsInv | packages/soothe-autopilot/src/soothe_autopilot/workers/pool.py:238-249 | marking a loop idle keeps the invariant, ends exactly the assignment of that loop and moves no loop id |
| PoolModel.ReleaseKeepsInv | packages/soothe-autopilot/src/soothe_autopilot/workers/pool.py:251-272 | removing a slot keeps the invariant, ends exactly its assignment and drops exactly its loop id |
| PoolModel.RunKeepsInv | packages/soothe-autopilot/src/soothe_autopilot/workers/pool.py:154-272 | over every run, blank job ids included as long as they take nothing from the queue: at most `max_loops` slots, a duplicate-free queue of exactly the idle slots, a bijective loop-id index, slot ids never reused, dead loop ids never live again, at most sixteen remembered goals a slot |
| PoolModel.StaleLoopIdInert | packages/soothe-autopilot/src/soothe_autopilot/workers/pool.py:197-284 | once a slot was claimed under a new loop id, the old one changes nothing in `mark_idle` or `release_worker` after any later history, through the index or the scan |
| PoolOrder.DependencySlotIsPicked | packages/soothe-autopilot/src/soothe_autopilot/workers/pool.py:176-181 | without a preferred slot, an idle slot that remembers a dependency is picked: the first dependency any idle slot remembers decides, and of the slots that do, none before the one picked |
| PoolOrder.NextGetsItsDependencysSlot | packages/soothe-autopilot/src/soothe_autopilot/workers/pool.py:95-110 | a goal ends on a slot and no slot had run it before: the next goal depending on it alone gets that very slot |
| PoolOrder.RunKeepsIdleOrder | packages/soothe-autopilot/src/soothe_autopilot/workers/pool.py:183-249 | over every history the idle queue stays in the order in which its slots went idle |
| PoolOrder.LongestIdleIsPicked | packages/soothe-autopilot/src/soothe_autopilot/workers/pool.py:183-187 | so from an empty pool, after any history, a goal no idle slot has a dependency of gets the slot that has been idle longest |
| PoolOrder.ReusedSlot | packages/soothe-autopilot/src/soothe_autopilot/workers/pool.py:197-222 | a reused slot runs the goal under the new loop id and keeps what it remembers; no other slot changes |
| PoolOrder.NextNumberIsSpawned | packages/soothe-autopilot/src/soothe_autopilot/workers/pool.py:189-236 | with no slot idle and room left, a slot never used is spawned under the next number and runs the goal |
| PoolOrder.PreferredIsPicked | packages/soothe-autopilot/src/soothe_autopilot/workers/pool.py:171-174 | an idle slot preferred by its id or by its loop is taken |
| PoolOrder.IdledSlot | packages/soothe-autopilot/src/soothe_autopilot/workers/pool.py:95-110 | a slot marked idle runs nothing, appends its goal to the remembered ones, keeps the last sixteen, and records whether the goal succeeded |
| WorkerPools.WorkerSlot.ReleaseToIdle | packages/soothe-autopilot/src/soothe_autopilot/workers/pool.py:95-110 | the slot object goes idle and appends its goal to the remembered ones, dropping the oldest past sixteen; the bound itself is part of the invariant RunKeepsInv proves |
| WorkerPools.WorkerPool.ChooseSlot | packages/soothe-autopilot/src/soothe_autopilot/workers/pool.py:171-190 | the search loops over preferred slot, dependencies and idle queue settle on the slot of the specification and leave its queue |
| WorkerPools.WorkerPool.PickWorker | packages/soothe-autopilot/src/soothe_autopilot/workers/pool.py:154-236 | the mutating pick ends in the state of the specification and hands out the very object stored for the slot; existing objects stay in place and a new one sits under a number never used |
| WorkerPools.WorkerPool.MarkSlotIdle | packages/soothe-autopilot/src/soothe_autopilot/workers/pool.py:238-249 | on the live objects, the effect proved exact for the specification |
| WorkerPools.WorkerPool.ReleaseSlot | packages/soothe-autopilot/src/soothe_autopilot/workers/pool.py:251-272 | on the live objects, the removal proved exact for the specification |
| WorkerPools.WorkerPool.GetByLoopId | packages/soothe-autopilot/src/soothe_autopilot/workers/pool.py:277-284 | index lookup, then linear scan in slot order |
| WorkspaceReservations.StrictOverlapIffSubtreesMeet | packages/soothe-autopilot/src/soothe_autopilot/workers/workspace_reservation.py:60-75 | strict overlap holds if and only if some path lies in both subtrees |
| WorkspaceReservations.WorkspaceReservation.ConflictsWithActive | packages/soothe-autopilot/src/soothe_autopilot/workers/workspace_reservation.py:111-130 | none is reported if and only if no other goal's reservation overlaps; a reported goal really conflicts |
| WorkspaceReservations.WorkspaceReservation.Acquire | packages/soothe-autopilot/src/soothe_autopilot/workers/workspace_reservation.py:132-169 | succeeds exactly when disabled, already held on the same path, or free of conflicts, and stores exactly that path |
| WorkspaceReservations.AcquireIffNoConflict | packages/soothe-autopilot/src/soothe_autopilot/workers/workspace_reservation.py:111-169 | while reservations are exclusive, acquiring succeeds if and only if the conflict query excluding the goal finds none |
| WorkspaceReservations.RunKeepsExclusive | packages/soothe-autopilot/src/soothe_autopilot/workers/workspace_reservation.py:132-174 | over every acquire/release history, distinct goals never hold overlapping workspaces |
| WorkspaceReservations.AcquireMeans | packages/soothe-autopilot/src/soothe_autopilot/workers/workspace_reservation.py:132-169 | while reservations are exclusive, the strict gate lets a goal in if and only if no path lies in its workspace and in another holder's, and then it holds its path |
| JobIndexModel.StartKeepsInv | packages/soothe-autopilot/src/soothe_autopilot/workers/job_loop_index.py:115-140 | recording a fresh loop keeps the index consistent and makes exactly that loop active |
| JobIndexEffects.StartIsRecorded | packages/soothe-autopilot/src/soothe_autopilot/workers/job_loop_index.py:115-140 | a start leaves a running entry under the record's next number that names loop, goal and attempt, and marks the job running |
| JobIndexModel.EndKeepsInv | packages/soothe-autopilot/src/soothe_autopilot/workers/job_loop_index.py:142-175 | ending a loop under any job hint keeps the index consistent and forgets no loop |
| JobIndexModel.EndStopsExactly | packages/soothe-autopilot/src/soothe_autopilot/workers/job_loop_index.py:142-175 | ended by its id alone, exactly that loop stops being active in any job |
| JobIndexModel.EndTouchesOnlyItsGoal | packages/soothe-autopilot/src/soothe_autopilot/workers/job_loop_index.py:142-175 | ending the loop a goal is active under leaves every entry of every other goal as it is |
| JobIndexEffects.EndWritesStatus | packages/soothe-autopilot/src/soothe_autopilot/workers/job_loop_index.py:142-175 | ending a loop under no hint or its own job's writes the given status to its entry and leaves every other entry of every job as it is |
| JobIndexEffects.NothingEnded | packages/soothe-autopilot/src/soothe_autopilot/workers/job_loop_index.py:150-170 | a hint that names another job, or a loop nobody holds: nothing is ended |
| JobIndexModel.InterruptExact | packages/soothe-autopilot/src/soothe_autopilot/workers/job_loop_index.py:187-202 | `interrupt_active_loops` returns exactly the loops that were active, in order, and leaves no active entry in any job |
| JobIndexEffects.RestartInterruptsExactly | packages/soothe-autopilot/src/soothe_autopilot/workers/job_loop_index.py:187-202 | after a restart every entry that was running is interrupted, in place, and every other entry is as it was |
| JobIndexModel.MarkKeepsInv | packages/soothe-autopilot/src/soothe_autopilot/workers/job_loop_index.py:177-185 | marking a job, seen before or not, keeps the index consistent and starts, ends and forgets no loop of any job |
| JobIndexModel.RunKeepsInv | packages/soothe-autopilot/src/soothe_autopilot/workers/job_loop_index.py:115-202 | over every history with fresh loop ids and non-active end statuses, job marks and restores included, entries are numbered 1..n, the active list is exactly the running entries, and no loop has two jobs |
| JobIndexModel.ParsedJobIsOwner | packages/soothe-autopilot/src/soothe_autopilot/workers/job_loop_index.py:101-113 | for any recorded loop, the job parsed from its id is the index's owner if and only if the job id is stripped and survives the round trip |
| JobLoopIndexes.JobLoopIndex.StartLoop | packages/soothe-autopilot/src/soothe_autopilot/workers/job_loop_index.py:115-140 | the record updates, field by field, end in the specified state; the returned entry is stored, running and names loop and goal |
| JobLoopIndexes.JobLoopIndex.EndLoop | packages/soothe-autopilot/src/soothe_autopilot/workers/job_loop_index.py:142-175 | owner lookup and both reverse searches end in the specified state; the answer says whether an entry was found |
| JobLoopIndexes.JobLoopIndex.MarkJobStatus | packages/soothe-autopilot/src/soothe_autopilot/workers/job_loop_index.py:177-185 | the record, created empty if missing, carries the status, which MarkKeepsInv proves harmless |
| JobLoopIndexes.JobLoopIndex.InterruptActiveLoops | packages/soothe-autopilot/src/soothe_autopilot/workers/job_loop_index.py:187-202 | the nested loops compute the interruption that InterruptExact proves exact |
| DispatchModel.PickForFacts | packages/soothe-autopilot/src/soothe_autopilot/service.py:1507-1513 | what a pick for a goal does to the pool: refused exactly when full, else one new assignment on a slot that ran nothing |
| DispatchModel.DispatchKeepsInvIff | packages/soothe-autopilot/src/soothe_autopilot/service.py:1481-1546 | one attempt keeps pool, reservations and index consistent through every exit (skip, gate, no worker, failed claim, started, raised) if and only if it is safe: the goal is not running and, with a free slot, its job id is usable; a goal sent back after its release may be attempted again |
| DispatchEffects.OutcomeIff | packages/soothe-autopilot/src/soothe_autopilot/service.py:1481-1546 | how an attempt ends is decided on the state before: skipped for a coordinator, deferred if another goal's workspace overlaps, no worker if every slot is active and the pool full, raised for a blank job id, vanished if the goal is unknown, not pending, or may not start, dispatched otherwise |
| DispatchEffects.DispatchedMeans | packages/soothe-autopilot/src/soothe_autopilot/service.py:1519-1546 | a dispatched goal was pending with its dependencies over and no active conflict; it is active under the loop that runs it, its other fields and all other goals are as before, it is no longer ready, and a release with the loop on its node is safe |
| DispatchEffects.DispatchedIsRecorded | packages/soothe-autopilot/src/soothe_autopilot/service.py:1504-1546 | its workspace is reserved, its consumer holds the worker that shows its loop, and the index has its running entry with the attempt number |
| DispatchEffects.NotDispatchedMeans | packages/soothe-autopilot/src/soothe_autopilot/service.py:1481-1528 | an attempt that does not dispatch changes no goal, index entry, worker, assignment or other goal's reservation |
| DispatchEffects.VanishedMeans | packages/soothe-autopilot/src/soothe_autopilot/service.py:1519-1527 | after a failed claim the picked slot is idle again under the loop id it drew, and counts as succeeded |
| DispatchEffects.DispatchKeepsPeaceIff | packages/soothe/src/soothe/context/models.py:609-640 | claims check the claimed goal's own conflict list only: from a state where no active goal names another as a conflict, a dispatch keeps that if and only if no active goal names the new one |
| DispatchModel.ReleaseKeepsInvIff | packages/soothe-autopilot/src/soothe_autopilot/service.py:1182-1216 | one release keeps them consistent if and only if the goal was already released, or the loop named is the goal's own, or neither the goal nor that loop is running |
| DispatchEffects.ReleaseMeans | packages/soothe-autopilot/src/soothe_autopilot/service.py:1182-1216 | a goal's first release under its own loop idles that slot with the success flag given, ends its index entry with the status given, drops its reservation, records the goal as released, and touches no other index entry |
| DispatchRuns.ReapingKeepsInv | packages/soothe-autopilot/src/soothe_autopilot/service.py:2574-2583 | removing the idle slots past their timeout keeps the registries consistent and ends no assignment |
| DispatchEffects.ReapedExactly | packages/soothe-autopilot/src/soothe_autopilot/service.py:2574-2583 | the pass removes exactly the idle slots past their timeout and leaves every other slot as it is |
| DispatchRuns.FirstDispatchIsSafe | packages/soothe-autopilot/src/soothe_autopilot/service.py:1481-1546 | a goal id dispatched for the first time under a usable job id is always safe to attempt |
| DispatchRuns.ConsumerReadsOwnLoop | packages/soothe-autopilot/src/soothe_autopilot/service.py:1973-1980 | while its goal runs, a stream consumer reads the goal's own loop id from the live worker, however often slots are reused; a dispatched goal that does not run has been released |
| DispatchRuns.RunKeepsInv | packages/soothe-autopilot/src/soothe_autopilot/service.py:1182-1216 | over every run of safe attempts (re-dispatch included), consumer releases, releases under captured loop ids, reaping, clean-ups that find nothing stale, job marks and arbitrary engine steps the joint invariant holds |
| DispatchRuns.CapturedLoopStaysSafe | packages/soothe-autopilot/src/soothe_autopilot/service.py:1360-1369 | a loop id captured while its goal runs is still safe to release after any further history, also when the engine has cleared the node by then |
| DispatchRuns.MutualExclusion | packages/soothe-autopilot/src/soothe_autopilot/service.py:1481-1546 | active slots, reservations and active index entries name the same goals, one slot per goal, and no path lies in the workspaces of two running goals |
| DispatchRuns.RunsExcludeEachOther | packages/soothe-autopilot/src/soothe_autopilot/service.py:1481-1546 | mutual exclusion from an empty system after any such history, whatever the engine does to its goals and however often a goal is sent back |
| DispatchRuns.FinishTouchesOnlyItsGoal | packages/soothe-autopilot/src/soothe_autopilot/service.py:1973-1980 | in any consistent state, released or not, a consumer's release with whatever id its live worker shows leaves every other goal's assignment, reservation, index entries and worker as they were; the first one removes its own goal from all three registries |
| DispatchRuns.LateReleaseIsHarmless | packages/soothe-autopilot/src/soothe_autopilot/service.py:2105-2110 | the same over whole runs, for the early release and the late second one alike, as long as every clean-up among the steps finds nothing stale; UnguardedTailEndsAnother is what happens otherwise |
| DispatchRuns.RedispatchIsNeverReleased | packages/soothe-autopilot/src/soothe_autopilot/service.py:1197-1199 | dispatched again after its release was recorded, a goal runs and holds its workspace, and no release of it does anything any more |
| DispatchRuns.DispatchedCanBeReleasedIff | packages/soothe-autopilot/src/soothe_autopilot/service.py:1197-1216 | a release can end a new assignment if and only if the goal id had not been released before |
| DispatchRuns.RedispatchedRunsUntilCleanUp | packages/soothe-autopilot/src/soothe_autopilot/service.py:1197-1199 | so its slot and reservation stay taken after any further history of these steps, and the next clean-up ends it if and only if it is terminal by then |
| DispatchRuns.NamelessReleaseStrands | packages/soothe-autopilot/src/soothe_autopilot/service.py:1197-1216 | a release naming no loop for a running goal leaves it running without its reservation, and turns every later guarded release of it into nothing |
| DispatchFailures.ParkedGoalIsStranded | packages/soothe-autopilot/src/soothe_autopilot/service.py:1219-1245 | concrete failure: a goal parked for clarification has no loop id on its node, so cancelling it leaves it running without its reservation, until a clean-up finds it cancelled |
| DispatchRuns.PassStaysUnderLimits | packages/soothe-autopilot/src/soothe_autopilot/service.py:1449-1479 | an uninterrupted scheduling pass never pushes the active workers over `max_loops` or `max_parallel_goals` |
| DispatchEffects.PassDispatchesFirst | packages/soothe-autopilot/src/soothe_autopilot/service.py:1461-1479 | with room under both limits a pass dispatches the first ready goal behind the coordinators, if its workspace is free, its job id usable and it may start, and goes on with the goals after it |
| DispatchEffects.PassEndsAtRefusal | packages/soothe-autopilot/src/soothe_autopilot/service.py:1465-1479 | and it ends at the first refusal |
| DispatchFailures.StaleCandidateLosesReservation | packages/soothe-autopilot/src/soothe_autopilot/service.py:1509-1513 | concrete failure: a stale ready list attempts a running goal again, and the rollback drops the reservation it runs under |
| DispatchFailures.BlankJobKeepsReservation | packages/soothe-autopilot/src/soothe_autopilot/service.py:1504-1508 | concrete failure: a blank job id raises after acquiring, and the reservation stays without a running goal |
| DispatchFailures.SentBackGoalIsNeverReleased | packages/soothe-autopilot/src/soothe_autopilot/service.py:1197-1199 | concrete: dispatched, released, pending again and dispatched once more, a goal runs, holds its workspace, and no release does anything to it |
| Reconciling.ReconcileExact | packages/soothe-autopilot/src/soothe_autopilot/service.py:2682-2721 | from any well-formed pool, a clean-up ends exactly the assignments of terminal goals (and of an empty goal id), drops exactly the reservations of gone, terminal and suspended goals, and touches neither index nor guard |
| Reconciling.ReconcileMeans | packages/soothe-autopilot/src/soothe_autopilot/service.py:2682-2721 | in statuses: reservations of known goals that are not completed, failed, cancelled or suspended survive, and assignments of goals that are not completed, failed or cancelled |
| Reconciling.ReconcileKeepsInvIff | packages/soothe-autopilot/src/soothe_autopilot/service.py:2682-2721 | a clean-up keeps pool, reservations and index consistent if and only if no running goal is gone, terminal or suspended |
| Reconciling.ReconcileFreesTerminal | packages/soothe-autopilot/src/soothe_autopilot/service.py:2699-2720 | after a clean-up a terminal goal holds neither slot nor reservation, however it was stranded; only its index entry stays, and other running goals run on |
| DispatchRuns.UnguardedTailEndsAnother | packages/soothe-autopilot/src/soothe_autopilot/service.py:2105-2110 | when the slot of a goal never released was freed and reused, that goal's consumer reads the other goal's loop, and its release ends that goal, which keeps its reservation |
| DispatchFailures.CleanUpLetsTailEndAnother | packages/soothe-autopilot/src/soothe_autopilot/service.py:2630-2658 | concrete failure: the engine completes a running goal and clears its node, so the pass makes no guarded release and only the clean-up frees the slot; the next goal on the slot is then ended by the first goal's tail |
| Watchdogs.PassKeepsInvIff | packages/soothe-autopilot/src/soothe_autopilot/service.py:2602-2658 | a whole watchdog pass, guarded releases and then the clean-up, keeps the registries consistent if and only if the guarded releases reach every running goal that is gone, terminal or suspended: listed, with a workspace and a loop id on its node, and not released before |
| Watchdogs.PassFreesExactly | packages/soothe-autopilot/src/soothe_autopilot/service.py:2602-2658 | reached or not, after a pass exactly the running goals that are not gone, terminal or suspended hold reservations, and exactly the terminal and the reached ones stopped running |
| Watchdogs.LeakedIsRecorded | packages/soothe-autopilot/src/soothe_autopilot/service.py:2630-2640 | the loop of a leaked goal ends as completed or cancelled like its goal, and as failed if the goal failed or was suspended |
| Watchdogs.PassIsRun | packages/soothe-autopilot/src/soothe_autopilot/service.py:2602-2658 | a pass that reaches all of them is a well-used run of the steps above, so what holds over runs holds with such passes in between |
| AutopilotServices.AutopilotService.TryDispatchGoal | packages/soothe-autopilot/src/soothe_autopilot/service.py:1481-1546 | on the live pool, gate, index and engine objects, the joint state ends as in the step the invariant is proved for |
| AutopilotServices.AutopilotService.ReleaseGoalRuntime | packages/soothe-autopilot/src/soothe_autopilot/service.py:1182-1216 | on the live objects, the guarded release of all three registries |
| AutopilotServices.AutopilotService.FinishStream | packages/soothe-autopilot/src/soothe_autopilot/service.py:2105-2110 | the loop id is read from the mutable worker at release time, and is what ConsumerReadsOwnLoop speaks about |
| AutopilotServices.AutopilotService.ReleaseAssigned | packages/soothe-autopilot/src/soothe_autopilot/service.py:1219-1245 | the release on the cancel paths, with the loop id of the goal's node |
| AutopilotServices.AutopilotService.ReleaseIdleLoops | packages/soothe-autopilot/src/soothe_autopilot/service.py:2574-2583 | the loop over the workers removes exactly the idle slot objects past their timeout, through their current loop ids |
| AutopilotServices.AutopilotService.ReconcileStaleReservations | packages/soothe-autopilot/src/soothe_autopilot/service.py:2682-2721 | the loop over the reservations and the loop over the workers that were active, on the live objects, end in the state ReconcileExact describes |
| AutopilotServices.AutopilotService.ReconcileGoalResources | packages/soothe-autopilot/src/soothe_autopilot/service.py:2602-2658 | guarded releases goal by goal and then the clean-up, on the live objects, end in the state PassFreesExactly describes |
| AutopilotServices.AutopilotService.ScheduleViaWorkerPool | packages/soothe-autopilot/src/soothe_autopilot/service.py:1449-1479 | the pass takes at most the remaining capacity, skips rail roots, stops at the first refusal, and stays under both limits |
| Goals.GoalDag.ClaimGoal | packages/soothe/src/soothe/context/models.py:609-640 | claims exactly when the specification does, in place; DispatchedMeans says in statuses and loops what that is |
| Goals.GoalDag.RemoveGoal | packages/soothe/src/soothe/context/models.py:700-721 | removes exactly a known goal nobody depends on |
| GoalTree.IsDescendantOf | packages/soothe-autopilot/src/soothe_autopilot/service.py:2463-2476 | the upward walk accepts exactly the goals below the ancestor, on dangling and cyclic links too |
| GoalTree.ResolveJobId | packages/soothe-autopilot/src/soothe_autopilot/service.py:1548-1558 | the walk with a seen set reaches the specified root |
| GoalTree.RootFromFacts | packages/soothe-autopilot/src/soothe_autopilot/service.py:1548-1558 | the job root is a known goal at or above the start whose own parent is absent, unknown or on a cycle |
| GoalTree.DagSnapshot | packages/soothe-autopilot/src/soothe_autopilot/service.py:3121-3218 | nodes are exactly the root's subtree, each once, breadth first (shallower goals before deeper ones) and every goal after its known parent; every node has exactly the edge from its parent, the root one only when it lies on a cycle |
| GoalTree.ViewsAgreeIff | packages/soothe-autopilot/src/soothe_autopilot/service.py:2463-2476 | downward and upward views agree on any links, except that for an empty root id they agree if and only if no other goal carries an empty parent id |
| GoalTree.SubtreeTotalTokens | packages/soothe-autopilot/src/soothe_autopilot/service.py:3022-3051 | the total is the sum of tokens over the subtree |
| GoalTree.TokensAgreeWithSnapshot | packages/soothe-autopilot/src/soothe_autopilot/service.py:3022-3051 | hence the sum over the snapshot's nodes in whatever order |
| OrphanGc.GcOrphanedGoals | packages/soothe-autopilot/src/soothe_autopilot/service.py:2796-2848 | the loop with its cache of root readings computes the specified pass, on arbitrary parent links |
| OrphanGc.AcyclicRootsLive | packages/soothe-autopilot/src/soothe_autopilot/service.py:2818-2848 | on acyclic links no job root is itself an orphan |
| OrphanGc.PassIsExact | packages/soothe-autopilot/src/soothe_autopilot/service.py:2818-2848 | then one pass in any order cancels exactly the orphans, counts them, changes no root and no terminal goal, and its cache stays correct while statuses change |
| OrphanGc.AcyclicPassMeans | packages/soothe-autopilot/src/soothe_autopilot/service.py:2818-2848 | on acyclic links, in any order, the pass cancels exactly the open goals with a parent link whose top goal is completed, failed or cancelled, and changes nothing else |
| OrphanGc.CollectedIsComplete | packages/soothe-autopilot/src/soothe_autopilot/service.py:2818-2848 | and afterwards every non-root goal is terminal or under a live job |
| OrphanGc.CompleteInEveryOrderIff | packages/soothe-autopilot/src/soothe_autopilot/service.py:2818-2848 | on arbitrary links a pass is complete in every listing order if and only if no goal it should spare has an orphan for its job root |
| OrphanGc.CycleDefeatsOnePass | packages/soothe-autopilot/src/soothe_autopilot/service.py:2818-2848 | concrete failure: three goals on a parent cycle, listed so that one pass strands a goal |
| HealthRemoval.CollectSubtreeIds | packages/soothe/src/soothe/context/models.py:536-563 | the recursion lists exactly the subtree, each goal once, deepest first with the root last; it ends in RecursionError if and only if a chain as long as the recursion limit leads down from the root |
| HealthRemoval.CycleIsDeep | packages/soothe/src/soothe/context/models.py:536-563 | from a goal on a parent cycle it can only end in that error |
| HealthRemoval.CrossedParentsOverflow | packages/soothe/src/soothe/context/models.py:536-563 | concrete failure: with two cancelled goals that are each other's parent the guard raises, whatever the recursion limit |
| HealthRemoval.MayAutoRemove | packages/soothe-autopilot/src/soothe_autopilot/verify/goal_dag_verifier.py:264-307 | the early returns decide exactly: cancelled or failed, no open goal below it, no open goal depending on it; it raises if and only if a cancelled or failed goal's subtree exhausts the recursion limit |
| HealthRemoval.RemoveAllKeepsOpenWork | packages/soothe-autopilot/src/soothe_autopilot/verify/goal_dag_verifier.py:479-503 | for any list of suggestions only cancelled or failed goals disappear, the rest is untouched, and no open goal loses a hard dependency or a parent ancestor it had |
| HealthRemoval.ApplyRemovals | packages/soothe-autopilot/src/soothe_autopilot/verify/goal_dag_verifier.py:479-503 | the removal loop on the engine's goals computes that result for all suggestions up to exactly the first whose guard raises |
| Removals.RemovalsExact | packages/soothe-autopilot/src/soothe_autopilot/verify/goal_dag_verifier.py:479-503 | the processed suggestions are turns: right after its turn a suggested goal is absent if and only if it was unknown then, or cancelled or failed with only terminal goals below it and no goal depending on it; whatever disappears was suggested and removable at its turn, and all else is as it was |
| Removals.GuardMeans | packages/soothe-autopilot/src/soothe_autopilot/verify/goal_dag_verifier.py:264-307 | the guard in statuses and links: cancelled or failed, nothing open below, nothing open that depends on it |
| Ancestors.Explore | packages/soothe-autopilot/src/soothe_autopilot/dispatch/projector.py:294-318 | the search ends on every graph and its edges are exactly the reachable ids with their parents |
| Ancestors.TopoSort | packages/soothe-autopilot/src/soothe_autopilot/dispatch/projector.py:320-345 | the levels with the cycle-breaking fallback compute the specified order |
| Ancestors.CollectAncestors | packages/soothe-autopilot/src/soothe_autopilot/dispatch/projector.py:281-347 | search, sort and filter together; CollectedByHeightAndAge says in which order the goals come |
| Ancestors.CollectionIsExact | packages/soothe-autopilot/src/soothe_autopilot/dispatch/projector.py:281-347 | the result lists each known goal reachable by one or more links exactly once and nothing else, cyclic graphs included |
| Ancestors.GoalListedIff | packages/soothe-autopilot/src/soothe_autopilot/dispatch/projector.py:281-347 | the dispatched goal is listed if and only if a chain of links leads from it back to itself |
| Ancestors.CycleListsGoal | packages/soothe-autopilot/src/soothe_autopilot/dispatch/projector.py:281-347 | concrete: two goals that depend on and inform each other, where the search lists its own start |
| Ancestors.OrderIgnoresListOrder | packages/soothe-autopilot/src/soothe_autopilot/dispatch/projector.py:320-347 | the order depends on the graph, creation times and ids only, never on the order of the link lists |
| Ancestors.CollectedParentsFirstIff | packages/soothe-autopilot/src/soothe_autopilot/dispatch/projector.py:320-347 | every ancestor comes after all of its own parents if and only if the ancestor graph is acyclic |
| AncestorOrder.CollectedByHeightAndAge | packages/soothe-autopilot/src/soothe_autopilot/dispatch/projector.py:320-347 | on an acyclic ancestor graph x is listed before y if and only if its longest way up is shorter, or as long and x was created earlier, or at the same time and x has the smaller id |
| AncestorOrder.HeightExists | packages/soothe-autopilot/src/soothe_autopilot/dispatch/projector.py:320-347 | on an acyclic graph every ancestor has such a longest way up |
| AncestorOrder.BlockedByCyclesTakesSmallest | packages/soothe-autopilot/src/soothe_autopilot/dispatch/projector.py:330-334 | where every ancestor has parents, the listing starts with the smallest id |
| AncestorOrder.LexLessIff | packages/soothe-autopilot/src/soothe_autopilot/dispatch/projector.py:335-340 | ids compare at their first difference, a prefix being smaller |
| Bundles.MergePlanSteps | packages/soothe-autopilot/src/soothe_autopilot/dispatch/projector.py:151-171 | with its early exit, the first N of the concatenation |
| MergeOrder.MergedStepsMean | packages/soothe-autopilot/src/soothe_autopilot/dispatch/projector.py:151-171 | the plan steps of all parents, parent by parent in merge order, field by field under the parent's id, cut at the cap |
| Bundles.MergeEffects | packages/soothe-autopilot/src/soothe_autopilot/dispatch/projector.py:173-198 | with its early return, the first N (at least one) of keep-first by stripped reference in recency order |
| MergeOrder.MergedEffectsMean | packages/soothe-autopilot/src/soothe_autopilot/dispatch/projector.py:173-198 | in merge order exactly the first carriers of each non-blank stripped reference, with their own fields and their parent as origin, cut at the cap or at one |
| Bundles.KeepFirstIsSound | packages/soothe-autopilot/src/soothe_autopilot/dispatch/projector.py:180-197 | kept effects have distinct non-empty references and each is the first carrier of its own |
| Bundles.KeepFirstIsComplete | packages/soothe-autopilot/src/soothe_autopilot/dispatch/projector.py:180-197 | and no reference is lost |
| Bundles.MergeFindings | packages/soothe-autopilot/src/soothe_autopilot/dispatch/projector.py:200-225 | scoring, stable sort and cut compute what MergedFindingsMean ranks |
| FindingOrder.MergedFindingsMean | packages/soothe-autopilot/src/soothe_autopilot/dispatch/projector.py:200-225 | the merged findings are the first K of one ranking of all findings: by relevance times (2n - i) / 2n for the i-th of n parents in merge order, equal scores in merge order |
| FindingOrder.LeftOutIsWorse | packages/soothe-autopilot/src/soothe_autopilot/dispatch/projector.py:224-225 | no finding left out scores above one that is kept |
| FindingOrder.NewerParentsFindingFirst | packages/soothe-autopilot/src/soothe_autopilot/dispatch/projector.py:206-225 | of two equally and positively relevant findings, the one of the more recently updated parent is never left out while the other is kept |
| Ranking.TopOfRanking | packages/soothe-autopilot/src/soothe_autopilot/dispatch/projector.py:224-225 | that head is a true top-K: nothing left out scores above anything kept, and kept and left out make up the input |
| Ranking.SortDescStable | packages/soothe-autopilot/src/soothe_autopilot/dispatch/projector.py:224-225 | equal scores keep their original order |
| Ranking.SortDescRanks | packages/soothe-autopilot/src/soothe_autopilot/dispatch/projector.py:141-149 | the whole meaning of the stable descending sort: every position once, larger keys first, equal keys in their original order |
| Bundles.MergeToolStats | packages/soothe-autopilot/src/soothe_autopilot/dispatch/projector.py:228-240 | the merged counters hold exactly the names the parents mention, each with its sum, so the totals add up |
| BundleMeaning.OneParentsCounters | packages/soothe-autopilot/src/soothe_autopilot/dispatch/projector.py:228-240 | one parent alone gives its own counters, calls and failures apart |
| BundleMeaning.CountersAdd | packages/soothe-autopilot/src/soothe_autopilot/dispatch/projector.py:228-240 | and more parents add theirs name by name |
| Bundles.BuildPreamblePairs | packages/soothe-autopilot/src/soothe_autopilot/dispatch/projector.py:350-403 | the transcript of the selected candidates |
| Bundles.CapKeepsMostRecent | packages/soothe-autopilot/src/soothe_autopilot/dispatch/projector.py:365-383 | when the cap bites, the survivors are the most recently updated candidates, oldest created first, and each candidate survives or is left out |
| Bundles.TurnsArePairs | packages/soothe-autopilot/src/soothe_autopilot/dispatch/projector.py:391-402 | one user turn and one AI turn per selected ancestor, in order |
| Projector.OrderByRecency | packages/soothe-autopilot/src/soothe_autopilot/dispatch/projector.py:134-149 | the merge order computed over the parent list |
| RecencyOrder.MergeOrderMeans | packages/soothe-autopilot/src/soothe_autopilot/dispatch/projector.py:134-149 | the merge order has every position of the link lists whose parent has a contribution once, most recently updated first, equally recent ones in list order |
| Projector.NewestFirst | packages/soothe-autopilot/src/soothe_autopilot/dispatch/projector.py:141-149 | update times never increase along the order, an unknown parent counting as updated at zero |
| Projector.ExactlyThoseFound | packages/soothe-autopilot/src/soothe_autopilot/dispatch/projector.py:147-149 | exactly the parents that have a contribution, each with its own |
| Projector.LatestParentWins | packages/soothe-autopilot/src/soothe_autopilot/dispatch/projector.py:173-198 | the merged effect of a reference comes from a parent that carries it, at least as recent as every other found parent that does |
| Projector.Project | packages/soothe-autopilot/src/soothe_autopilot/dispatch/projector.py:65-111 | the bundle is the five merges of the recency order plus the transcript, or the error of the validator; the store is asked first for the parents, then for the ancestors still missing |
| BundleMeaning.ProjectionMeans | packages/soothe-autopilot/src/soothe_autopilot/dispatch/projector.py:65-111 | field by field: steps, effects and findings as ranked above, each cut at its own cap, calls and failures in their own counters, and the transcript |
| Transcripts.CompletedExact | packages/soothe-autopilot/src/soothe_autopilot/dispatch/projector.py:270-276 | the second read never replaces what the first returned: it adds exactly the ancestors the first lacks and the store holds by then |
| Transcripts.BuildPreamble | packages/soothe-autopilot/src/soothe_autopilot/dispatch/projector.py:244-278 | search, second read and pairing compute the transcript the two results below describe |
| Transcripts.TranscriptParentsFirst | packages/soothe-autopilot/src/soothe_autopilot/dispatch/projector.py:244-403 | end to end, on an acyclic ancestor graph and below the cap: the transcript tells of exactly the ancestors with a contribution, one turn pair each, parents before children |
| Transcripts.CappedTranscriptParentsFirst | packages/soothe-autopilot/src/soothe_autopilot/dispatch/projector.py:365-403 | when the cap bites, the transcript still tells of parents before children if every parent is older than its child |
| Projector.AcceptedIff | packages/soothe/src/soothe/goal_contracts.py:190-218 | for each input, the validator accepts if and only if the three flat lists, cut at the configured caps, are within the hard caps; the transcript always is |
| Projector.NeverRaisesIff | packages/soothe/src/soothe/config/models.py:611-622 | an admitted configuration can never make a projection raise if and only if each configured cap is within the hard cap |
| StoreModel.StepsKeepInv | packages/soothe-autopilot/src/soothe_autopilot/dispatch/store.py:101-211 | after any history: no duplicate key, data and timestamps for the same keys, size within the cap |
| StoreRuns.HeldIsLastWritten | packages/soothe-autopilot/src/soothe_autopilot/dispatch/store.py:101-161 | after any history of puts, reads, deletes and listings, whatever is held is the value and time of the key's last put, not deleted since |
| StoreModel.OrderIsRecency | packages/soothe-autopilot/src/soothe_autopilot/dispatch/store.py:101-136 | what stands behind a key in the eviction order was put or hit after the key itself |
| StoreRuns.ServedIsSteps | packages/soothe-autopilot/src/soothe_autopilot/dispatch/store.py:101-161 | a history of operations does what the concatenation of their elementary events does, which carries the two results below over from events |
| StoreRuns.WrittenIsHeld | packages/soothe-autopilot/src/soothe_autopilot/dispatch/store.py:101-211 | after any such history, a key put, not deleted and inside its retention window at every operation since is still held with that value as long as fewer than `max_entries` distinct other keys were put or found since its last use |
| Retention.HeldIsRecent | packages/soothe-autopilot/src/soothe_autopilot/dispatch/store.py:101-206 | after any history that ends in a read, a listing or the put of a new key, every held entry was last written within the retention before that time |
| Retention.ReadServes | packages/soothe-autopilot/src/soothe_autopilot/dispatch/store.py:116-123 | a read finds exactly the keys held whose last put is within the retention, and returns that put |
| Retention.ReadKeepsExactlyRecent | packages/soothe-autopilot/src/soothe_autopilot/dispatch/store.py:197-206 | reads and listings drop exactly the entries older than the retention and change no other |
| Retention.NewEntryDropsOnlyOld | packages/soothe-autopilot/src/soothe_autopilot/dispatch/store.py:111-206 | with room for one more, a new entry drops no entry within the retention |
| ContextStores.InMemoryContextStore.EvictIfNeeded | packages/soothe-autopilot/src/soothe_autopilot/dispatch/store.py:182-211 | expiry and the eviction loop reach the specified state |
| ContextStores.InMemoryContextStore.PutContribution | packages/soothe-autopilot/src/soothe_autopilot/dispatch/store.py:101-114 | one put event; a closed store answers false and stays as it is |
| ContextStores.InMemoryContextStore.Get | packages/soothe-autopilot/src/soothe_autopilot/dispatch/store.py:116-123 | expiry, then a touch of the key found |
| ContextStores.InMemoryContextStore.GetMany | packages/soothe-autopilot/src/soothe_autopilot/dispatch/store.py:125-136 | expiry, then touches in list order; the answer holds exactly the listed keys still held |
| ContextStores.InMemoryContextStore.DeleteMany | packages/soothe-autopilot/src/soothe_autopilot/dispatch/store.py:146-155 | exactly the listed keys go, and the count is what disappeared |
| TokenCursor.TokenMeter.StepTokenDelta | packages/soothe-autopilot/src/soothe_autopilot/service.py:1748-1784 | delta and cursor for every combination of absent, null, blank, numeric and unreadable counters |
| TokenCursor.TokenMeter.ConsumeStream | packages/soothe-autopilot/src/soothe_autopilot/service.py:1890-1907 | the tokens of one stream up to its first completion, and no other goal's cursor moves |
| TokenCursor.GoalsAreIndependent | packages/soothe-autopilot/src/soothe_autopilot/service.py:1748-1784 | with events of all goals interleaved, each goal is counted as if it were alone |
| TokenCursor.AttemptConserves | packages/soothe-autopilot/src/soothe_autopilot/service.py:1770-1784 | within one attempt the deltas sum to the last reading plus every reading just before a drop |
| TokenCursor.RisingCounterCountsOnce | packages/soothe-autopilot/src/soothe_autopilot/service.py:1770-1784 | so a counter that never drops is counted exactly once: the deltas sum to its last reading |
| TokenCursor.AttemptsAddUp | packages/soothe-autopilot/src/soothe_autopilot/service.py:1894-1907 | over any number of attempts, whatever the cursor held before, the sums add up |
| TokenCursor.MixedReportsCountOnce | packages/soothe-autopilot/src/soothe_autopilot/service.py:1756-1769 | steps reporting their own delta beside the counter are not counted twice |
| TokenCursor.OwnTokensCountOnce | packages/soothe-autopilot/src/soothe_autopilot/service.py:1755-1769 | anywhere in a stream, a step with its own number adds just that number if positive; a counter beside it is where counting goes on, an absent, negative or unreadable one changes nothing later |
| TokenCursor.SilentStepsDoNothing | packages/soothe-autopilot/src/soothe_autopilot/service.py:1770-1776 | a step with neither, or with an unreadable counter only, could as well be missing |
| TokenCursor.EmptyCounterReadsZero | packages/soothe-autopilot/src/soothe_autopilot/service.py:1772-1784 | an empty, null or negative counter counts as a reading of zero |
| TokenCursor.ConsumedMeans | packages/soothe-autopilot/src/soothe_autopilot/service.py:1890-1907 | a stream is read up to and including its first completion |
| Notify.NotifyDedupStore.AlreadySent | packages/soothe-autopilot/src/soothe_autopilot/notify/dedup.py:46-70 | remembered means stored and not expired; an expired entry is forgotten |
| Notify.NotificationRouter.EmitJobIntent | packages/soothe-autopilot/src/soothe_autopilot/notify/router.py:173-249 | only root goals and enabled kinds are asked about; then check, mark, dispatch |
| Notify.NotificationRouter.EmitSlaOverdue | packages/soothe-autopilot/src/soothe_autopilot/notify/router.py:299-374 | the same sequence under the goal-and-tier key |
| Notify.MemoryIsLatest | packages/soothe-autopilot/src/soothe_autopilot/notify/dedup.py:40-75 | the store remembers exactly the keys dispatched so far, each with its latest dispatch |
| Notify.SentIff | packages/soothe-autopilot/src/soothe_autopilot/notify/dedup.py:40-75 | greedy spacing: a request is dispatched if and only if every earlier dispatch of its key is at least the window old, or with expiry off there was none |
| Notify.SlaKeyInjective | packages/soothe-autopilot/src/soothe_autopilot/notify/models.py:91-94 | alerts of different goals or tiers never share a key, whatever the ids contain |
| Notify.RoundsAreOneList | packages/soothe-autopilot/src/soothe_autopilot/notify/dedup.py:46-75 | scan after scan, each from the memory the one before left, the store ends as after one list of all their requests |
| Notify.OneAlertPerWindow | packages/soothe-autopilot/src/soothe_autopilot/notify/router.py:347-374 | over any sequence of scans, other requests in between included, on a clock that never goes back, two alerts for one goal and tier lie at least a window apart |
| Notify.TierIsHighestReached | packages/soothe-autopilot/src/soothe_autopilot/sla/monitor.py:81-96 | for any thresholds the tier is the highest enabled one reached, so it never falls as time passes |
| Notify.SlaMonitor.Scan | packages/soothe-autopilot/src/soothe_autopilot/sla/monitor.py:116-188 | reports every overdue goal once in order, emitted plus skipped equals the breaches, and emitted counts exactly what the store let through |
| Alerts.ScanReportsExactly | packages/soothe-autopilot/src/soothe_autopilot/sla/monitor.py:116-188 | a scan reports exactly the goals that are not completed, failed, cancelled or validated, have unresolved gaps and reached an enabled limit, each once, in order, under the highest limit reached |
| Alerts.RequestsAreForAlerts | packages/soothe-autopilot/src/soothe_autopilot/sla/monitor.py:170-176 | and asks the store for just these alerts, under their keys |
| Alerts.JobKeyInjectiveIff | packages/soothe-autopilot/src/soothe_autopilot/notify/models.py:91-94 | with no colon in job ids and kinds, two job intents share a key if and only if job, kind and generation agree, an empty generation counting as the kind |
| Alerts.GenerationsNeverShareAKey | packages/soothe-autopilot/src/soothe_autopilot/notify/models.py:91-94 | for one job and kind, whatever they contain, the generation alone decides |
| Alerts.ColonsCollide | packages/soothe-autopilot/src/soothe_autopilot/notify/models.py:91-94 | concrete: with a colon in a job id two different jobs share a key |

## Left out

- Interleaving of event handlers: a candidate list that goes stale between steps is an input of a step, but no two steps overlap, and the limit on active workers is stated for one uninterrupted scheduling pass.
- `reconcile_stale_worker`, which frees the slot of a loop the daemon demoted and puts its goal back to pending.
- Watchdogs.PassKeepsInvIff: states the pass on the registries only; process draining, consumer-task cancellation and worktree recycling are not modelled, and which goals have a workspace of their own is an input.
- A service without a workspace gate, or with the gate disabled: the joint runs assume an enabled gate.
- AutopilotServices.AutopilotService.ReleaseIdleLoops: which slots are past their timeout is an input, and nothing is claimed between two removals.
- AutopilotServices.AutopilotService.TryDispatchGoal: stops where the worker is handed to its stream consumer; the assignment event and the request sent to the runner are not modelled.
- WorkspaceReservations.WorkspaceReservation.ConflictsWithActive: returns some conflicting goal, not the first in insertion order.
- GoalTree.DagSnapshot: models node ids and edges, not the display fields of a node.
- HealthRemoval.ApplyRemovals: models the removal loop only, not the wiring, decomposition and reset phases of a health report, nor the cancel branch, which the guard makes unreachable.
- OrphanGc.GcOrphanedGoals: a cancel that raises, and the worker teardown before each cancel, are not modelled.
- Projector.Project: operator guidance and the prompt hash, which the projector leaves empty, are not modelled.
- Bundles.TurnsArePairs: an AI turn carries only its goal id; its report fields are not modelled.
- Notify.NotificationRouter.EmitJobIntent: title, body and severity are not modelled, and the generation is an input.
- Notify.SlaMonitor.Scan: gap extraction from reports and the wall clock are inputs (remaining gaps, unresolved count, elapsed seconds).
- Goals.GoalDag.ClaimGoal: goal nodes are values in a map; a node object held elsewhere and mutated through that alias is not modelled, nor are start times.
- JobLoopIndexes.JobLoopIndex.StartLoop: timestamps are not modelled.
- WorkerPools.WorkerPool.PickWorker: the runner factory, the slot's timestamps and its active task are not modelled; a preference is either a slot or a loop.
- Persistence backends of the index, the dedup store and the contribution store.
- Locks: every operation of a store, gate or pool is atomic here as it is there.
- Model calls, rails, the event bus, process control, worktrees, channels, the command line and the terminal interface: inputs of the environment or display.
