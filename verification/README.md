# Embla: a verification model

Embla is a userspace init system. A runtime keeps four tables (processes, process groups, a
ready queue with a current slot, and two id counters) in step while processes are spawned, end,
are reparented, dispatched and reaped; on top of it a registry of services is started in
dependency order, supervised with restarts and exponential backoff, and stopped in reverse
order. This project models those parts of Embla in Dafny 4.11 and proves what they keep.

`dafny verify dfyconfig.toml` checks everything.

## How the model is built

Two layers, tied together by contracts.

* The C structs that are updated in place are classes with arrays and counters, and the C
  functions are methods and loops over them: `Process.dfy`, `ProcessManager.dfy`,
  `ProcessGroup.dfy`, `Scheduler.dfy`, `Embla.dfy`, `Service.dfy`, `ServiceRegistry.dfy`,
  `StartOrder.dfy`, `ServiceOrchestrator.dfy`, `ServiceNotify.dfy`. Processes are shared
  references: a group, the process table, the scheduler and a service point at the same record.
* What these methods do is stated on plain values: `ProcessTable.dfy`, `RuntimeSpec.dfy`
  (one state `Sys`), `RestartSpec.dfy` (one record `Svc`), `SupervisionSpec.dfy` (a `Sys` and a
  list of records), `DependencyGraph.dfy`. Their branches are those of the C code; error branches
  that the steps before them rule out in every state are the only ones missing, and are listed
  under "Left out". Each method's contract says that its whole new state is that function of its old
  one, and the deep properties are lemmas about the functions, over all states and all runs:
  `RuntimeInvariants.dfy`, `RuntimeEffects.dfy`, `RunLoop.dfy`, `RuntimeRuns.dfy`, `RestartRuns.dfy`, `SupervisionRuns.dfy`,
  `Startup.dfy`, `StartStop.dfy`.

The host is a parameter everywhere: the answer to a fork (`None`, or a host pid, which is never
0), each poll of the children, whether a signal is accepted, and every clock reading. All of them
are arbitrary, so the statements hold for every order of child events and every failure. A run
takes a finite list of such answers; when the list ends first the run is `Pending`, and the
statements cover that state as well.

Wherever a method asks for more than well-formed tables, it asks for an agreement that is itself
proved to hold from the empty runtime on: `Coherent`, that the four tables agree, which is kept by
everything a caller of the runtime can do, whatever parents it names (`CoherentAlongRuns`); and
`Supervised`, that services and runtime agree, which holds of a fresh runtime and registry
(`CreateSupervisor`) and is kept by registering, starting, ticking, stopping and unregistering.
The queue of a runtime outside `Coherent` may hold processes the table has already freed.
`Invariant` adds ancestry: every parent is older than its child, and the root or live.

## What the proofs found

Where the code does less than its callers may expect, the model keeps the code as it is; a lemma
gives a concrete run and another one the exact condition.

* **The supervisor runs dry.** `service_registry_drain_one_event` marks a process TERMINATED but
  never removes it from the ready queue (`src/service_orchestrator.c:292-308`, unlike
  `src/embla.c:225-240`), and nothing else on that path does. All services together can be
  restarted at most as often as the queue had free slots (`RestartsAreBounded`), and after 16
  service lives the tables are empty and yet every spawn is refused (`SupervisorRunsDry`). A
  spawn succeeds if and only if the host forks and both tables, both id spaces and the queue have
  room (`SpawnKeeps`).
* **A run may abort with everything well.** A process stopped and continued while it is still
  queued is RUNNING already, so its dispatch is refused and `embla_run` returns -1
  (`ContinuedInQueueAborts`). `RunFailsExactly` is the exact condition over whole runs: a run
  fails if and only if the runtime is not STOPPED, its initial dispatch is refused, or some poll
  aborts it (`Aborts`) while processes are still live.
* **An aborted run may be final.** The initial dispatch refuses while somebody is current
  (`src/embla.c:259-267`, `src/scheduler.c:179-182`), and an aborted run leaves its current process,
  if it has one, in place. So after a failed poll with one process current and another queued, every later run
  fails, whatever the host reports (`AbortedRunIsFinal`). A runtime can be started if and only if
  nobody is queued, or nobody is current and the head of the queue is neither RUNNING nor BLOCKED
  (`StartRefused`).
* **A completed run may leave processes behind.** `embla_spawn_child` accepts a terminated parent,
  and such a child is never handed to the root (`OrphanLeaks`). A completed run empties every table
  if and only if at its start every parent was the root or live (`RunKeeps`).
* **A stop can miss.** `service_stop` fails on a process that is already TERMINATED, and the wait
  loop looks before it drains, so an exit drained in the last round before the deadline goes
  unseen and SIGKILL is then refused too: the service stays RUNNING with a dead process
  (`LateExitIsLost`). `StopsExactly` and `WaitSucceedsExactly` say when a stop succeeds.
* **A stop outlives its process.** `service_registry_stop_all` reaps without a tick and leaves
  `stop_requested` set; after the next start the first crash is taken for the old stop
  (`StaleStopFlag`). A first exit is acted on if and only if no stop is on record
  (`FirstExitIsSeen`), however many ticks find the process alive before it.
* **A failed restart is never tried again.** A tick clears the pending flag before it starts the
  service (`src/service_restart.c:49-57`). If that start fails, for one because the ready queue is
  full, the tick answers ERROR and every later one NOTHING: the service stays down for good without
  being marked as failed (`FailedRestartIsFinal`). A due restart is performed if and only if the
  spawn succeeds (`RestartFires`).
* **Starting by hand** while a restart is pending breaks "pending implies stopped", and only then
  (`ManualStartKeepsRecord`).
* **An incomplete rollback that does no harm.** A spawn refused by the ready queue does not undo
  the host group id it may have recorded; in a consistent runtime no group it could leave behind
  is affected (`SpawnKeeps`, `SpawnChildKeeps`: everything but the id counters is as before).
* **Dead error branches.** In a consistent runtime these cannot be taken: the failures of
  `scheduler_remove` on termination, of `process_group_add` on the run path, of reaping a
  terminated process, of the shutdown, and the "internal error" of the dependency search.

## Model

| member | source | states |
|---|---|---|
| Processes.HistoryShape | src/process.c:170-202 | Along every sequence of accepted transitions a process is CREATED only at first, READY second, and never changes once TERMINATED. |
| Processes.Predecessors | src/process.c:170-202 | From which states each state is reached. |
| Processes.Process.Transition | src/process.c:205-220 | Accepts exactly the transitions of the table and leaves the state alone otherwise. |
| Schedulers.SlotIsModular | src/scheduler.c:59-72 | The index `(head + offset) % capacity` is the wrapped offset, for every capacity. |
| Schedulers.Scheduler.Add | src/scheduler.c:74-94 | The ring buffer appends to the sequence it represents, or is full and unchanged; unused slots stay NULL and tail stays head + count modulo the capacity. |
| Schedulers.Scheduler.Remove | src/scheduler.c:96-137 | Empties the current slot, or deletes the first occurrence and keeps the order of the rest, also across the wrap; fails exactly when the process is in neither. |
| Schedulers.Scheduler.CloseGap | src/scheduler.c:118-133 | The shift loop, the NULL behind it and the retreat of tail delete one entry of the represented sequence. |
| Schedulers.Scheduler.Next | src/scheduler.c:139-160 | Pops the front of the sequence. |
| Schedulers.Scheduler.Dispatch | src/scheduler.c:172-203 | Makes the head current and RUNNING, or, when it refuses the transition, sends it to the back. |
| Schedulers.Scheduler.Yield | src/scheduler.c:205-232 | Sends the current process to the back as READY, or changes nothing. |
| Schedulers.StepMovesForward | src/scheduler.c:74-232 | One queue operation never moves a waiting process back, and a dispatch attempt, successful or not, moves it exactly one place forward. |
| Schedulers.NoStarvation | src/scheduler.c:74-232 | In every run with k dispatch attempts a process at position k that nobody removes by hand comes to the head. |
| ProcessManagers.ProcessManager.CreateProcess | src/process_manager.c:67-117 | Appends a CREATED entry under the next pid; fails exactly when the table is full or the pids are used up. |
| ProcessManagers.ProcessManager.FindIndex | src/process_manager.c:119-132 | The first position with that pid, or the count. |
| ProcessManagers.ProcessManager.GetByHostId | src/process_manager.c:153-173 | The first entry with that host pid, terminated or not; none for host pid 0. |
| ProcessManagers.ProcessManager.GetLiveCount | src/process_manager.c:185-205 | The number of entries not TERMINATED. |
| ProcessManagers.ProcessManager.GetChildCount | src/process_manager.c:207-231 | The number of entries with that parent. |
| ProcessManagers.ProcessManager.DestroyProcess | src/process_manager.c:233-261 | Deletes exactly the entry with that pid, the last one filling the hole; pids stay unique. |
| ProcessManagers.ProcessManager.WaitChild | src/process_manager.c:292-316 | The first terminated child of the parent, or none. |
| ProcessManagers.ProcessManager.ReparentChildren | src/process_manager.c:351-390 | Every child of the old parent, and nobody else, gets the new one. |
| ProcessManagers.ProcessManager.RewriteParents | src/process_manager.c:368-389 | The loop rewrites the very field its iterator filters on and still misses no child. |
| ProcessManagers.ChildIterator.Next | src/process_manager.c:431-456 | The next child from the iterator's index on; none left means the index is at the end. |
| ProcessTables.ReparentMovesChildren | src/process_manager.c:351-390 | Reparenting from p to q leaves p without children, q with the sum of both, and all others as they were. |
| ProcessTables.LiveCountIsSize | src/process_manager.c:185-205 | The live count is the number of entries not TERMINATED, each counted once. |
| ProcessTables.ChildCountIsSize | src/process_manager.c:207-231 | The child count is the number of entries with that parent, each counted once. |
| ProcessGroups.ProcessGroup.Add | src/process_group.c:106-138 | Appends a member; fails exactly when the array is full, the group id differs or the process is a member already. |
| ProcessGroups.ProcessGroup.Remove | src/process_group.c:140-163 | Deletes exactly that member by swap, members stay distinct; fails exactly when it is not one. |
| ProcessGroups.ProcessGroup.SetMaxMembers | src/process_group.c:189-202 | Sets the cap and nothing else. |
| ProcessGroups.ProcessGroupManager.CreateGroup | src/process_group_manager.c:75-108 | Appends an empty group under the next id; fails exactly when the table is full or the ids are used up. |
| ProcessGroups.ProcessGroupManager.Get | src/process_group_manager.c:125-144 | The group with that id, or none. |
| ProcessGroups.ProcessGroupManager.DestroyGroup | src/process_group_manager.c:156-192 | Deletes the group if it is there and empty, and otherwise nothing; ids stay unique. |
| RuntimeInvariants.SpawnKeeps | src/embla.c:575-619 | `embla_spawn` succeeds if and only if the host forks and tables, id spaces and ready queue have room; a refusal leaves all but the id counters as before, in the same order; the whole invariant is kept either way. |
| RuntimeInvariants.SpawnChildKeeps | src/embla.c:621-650 | Likewise `embla_spawn_child`, under the group's member cap; the parent invariant needs a live parent. |
| RuntimeInvariants.SpawnIntoKeeps | src/embla.c:465-573 | The shared body keeps bookkeeping, scheduler agreement and ancestry, also for the group created a moment before. |
| RuntimeInvariants.RefusedSpawnRestores | src/embla.c:606-616 | The clean-up after a refused spawn deletes exactly the group the spawn created. |
| RuntimeInvariants.QueueNeverRefuses | src/embla.c:562-570 | While the tables agree the ready queue has room whenever the process table has. |
| RuntimeInvariants.EventKeeps | src/embla.c:149-243 | An event is handled exactly when its process is unknown or its state allows the change; in both cases the tables agree afterwards and nobody loses or finds a parent. |
| RuntimeInvariants.TerminationKeeps | src/embla.c:210-242 | Terminating a live process always succeeds: its children go to the root, so nobody is left without a parent, and its removal from the scheduler cannot fail. |
| RuntimeInvariants.DispatchKeeps | src/scheduler.c:172-203 | Dispatch keeps the tables in agreement and all kinship, refused or not. |
| RuntimeInvariants.YieldKeeps | src/scheduler.c:205-232 | Yield keeps the tables in agreement and all kinship. |
| RuntimeInvariants.ReapFoundKeeps | src/embla.c:742-787 | Reaping a terminated process never fails, deletes exactly its entry, and its group with the last member; the tables agree, and nobody else loses or finds a parent. |
| RuntimeEffects.SpawnChildAdds | src/embla.c:621-650 | A successful child spawn adds a READY entry with the given parent, the parent's group and the forked host pid, last in table, group and queue; the group keeps its host group, and nothing else changes. |
| RuntimeEffects.SpawnRefused | src/embla.c:575-619 | A refused spawn changes nothing but the ids it drew, and exactly which it drew. |
| RuntimeEffects.SpawnChildRefused | src/embla.c:621-650 | A refused child spawn changes nothing but the pid it drew, if it got that far. |
| RuntimeEffects.EventDoes | src/embla.c:149-243 | Exactly what an event changes: state and code of its process; if it ends it, its children's parent and its place in the scheduler; all else is as before. |
| RuntimeEffects.DrainDoes | src/service_orchestrator.c:286-306 | Exactly what a drained event changes: an exit is recorded in its process's entry with the reported code or signal, and nothing else happens. |
| RuntimeEffects.DispatchDoes | src/scheduler.c:172-203 | The head of the queue becomes current and RUNNING, unless it is RUNNING or BLOCKED already: then it goes to the back. |
| RuntimeEffects.YieldDoes | src/scheduler.c:205-232 | A yield succeeds exactly when somebody is current and RUNNING or BLOCKED, because the queue always has room; that process is then READY at the back. |
| RuntimeEffects.ReapDoes | src/embla.c:742-787 | Exactly what a reap changes: the entry, the membership, and the group if it was the last; the other groups stay as they are. |
| RuntimeEffects.ReapChildExactly | src/embla.c:789-818 | Succeeds exactly when the parent has a terminated child, answers the id of the first, and deletes exactly its entry. |
| RuntimeEffects.ReapProcessExactly | src/embla.c:820-842 | Succeeds exactly for a terminated process of the table, and deletes exactly its entry. |
| RuntimeEffects.ReapRootExactly | src/embla.c:95-124 | Never fails, and leaves exactly the processes that are not terminated children of the root. |
| RunLoop.ReapRootDrains | src/embla.c:95-124 | With nothing live, reaping the root's children succeeds, and it empties process table, group table, queue and current slot exactly when everybody had a parent. |
| RunLoop.RunKeeps | src/embla.c:245-338 | Whatever the host reports, `embla_run` keeps the tables in agreement; a completed run leaves every table empty if and only if at its start every parent was the root or live; a run that ended is back in STOPPED because the shutdown cannot fail. |
| RunLoop.AbortsExactly | src/embla.c:275-312 | One poll aborts a run exactly when polling failed, the event is refused, or nobody is current after it and the head of the queue is RUNNING or BLOCKED. |
| RunLoop.RunFailsExactly | src/embla.c:245-338 | A run fails if and only if the runtime is not STOPPED, the initial dispatch is refused, or some poll aborts it after polls that did not and left somebody live. |
| RunLoop.RunCompletesExactly | src/embla.c:269-337 | A run completes if and only if it does not fail and the end of every process live at its start is among the polls, of which it takes at least one. |
| RunLoop.PollTable | src/embla.c:292-312 | A poll that does not abort ends exactly the process whose end it reports; nobody comes or goes. |
| RunLoop.PollDispatches | src/embla.c:302-312 | After a poll that does not abort, the head of the queue is current and RUNNING if the event left nobody current and somebody waiting; otherwise nobody was dispatched. |
| RunLoop.NextInLine | src/embla.c:292-312 | When the current process ends, the one at the head of the queue before the poll is current and RUNNING after it. |
| RunLoop.RunStaysBusy | src/embla.c:245-338 | A run starts by making the head of the queue RUNNING, and while it goes on somebody is current or nobody waits. |
| RuntimeRuns.AbortedRunIsFinal | src/embla.c:259-267 | A concrete aborted run after which every further run fails, whatever the host reports. |
| RuntimeRuns.OrphanLeaks | src/embla.c:621-650 | A concrete run that completes and leaves a process in the tables. |
| RuntimeRuns.OrphanIsReachable | src/embla.c:621-650 | The state that run starts from is reached from the empty runtime by a spawn, an exit and a child spawn. |
| RuntimeRuns.ContinuedInQueueAborts | src/embla.c:201-206 | A concrete run that aborts because a queued process was stopped and continued. |
| RuntimeRuns.TwoReadyIsReachable | src/embla.c:575-619 | The state that run starts from is reached by two spawns from the empty runtime. |
| RuntimeRuns.CoherentAlongRuns | src/embla.c:149-842 | Every sequence of spawns, events, dispatches, yields, reaps, runs and cap changes keeps the tables in agreement, whatever parents the callers name. |
| RuntimeRuns.InvariantAlongRuns | src/embla.c:149-842 | If children are given to live parents only, it keeps ancestry as well. |
| RuntimeRuns.CapAlongRuns | src/embla.c:490-496 | Once a group is within its cap no such sequence that leaves the cap alone takes it above. |
| RuntimeRuns.CapTakesHold | src/process_group.c:189-202 | Setting a cap sets it on that group only, and a group within it is watched from then on. |
| RuntimeRuns.CappedSpawnChangesNothing | src/embla.c:490-496 | A spawn refused by the cap changes no state at all. |
| RuntimeRuns.GroupCountsSum | src/embla.c:742-787 | The group sizes add up to the size of the process table. |
| RuntimeRuns.SpawnTakesRoom | src/embla.c:465-619 | A spawn succeeds exactly when the host forks and there is room, takes at most one unit of it, and never gives any back. |
| RuntimeRuns.SupervisedStartsAreBounded | src/service_orchestrator.c:255-309 | Over every sequence of spawns, drained events and reaps the queue grows by one with each success, so at most 16 succeed. |
| RuntimeRuns.SupervisorRunsDry | src/service_orchestrator.c:255-309 | After 16 service lives nothing is managed and no spawn succeeds. |
| EmblaRuntime.Embla.Spawn | src/embla.c:575-619 | On the shared tables: exactly the specified spawn; agreement and invariant are kept. |
| EmblaRuntime.Embla.SpawnInternal | src/embla.c:465-573 | On the shared tables: exactly the specified body, all refusals included. |
| EmblaRuntime.Embla.Fork | src/embla.c:522-572 | The steps from the fork on, with the rollback of each refusal. |
| EmblaRuntime.Embla.SpawnRollback | src/embla.c:442-463 | Undoes the newest entry and membership and nothing else, in the old order. |
| EmblaRuntime.Embla.SpawnChild | src/embla.c:621-650 | On the shared tables: exactly the specified child spawn; the new process has the given parent, its group and the forked host pid; agreement is kept, and the invariant for a live parent. |
| EmblaRuntime.Embla.HandleChildEvent | src/embla.c:149-243 | On the shared tables: exactly the specified event and its verdict; the process has the state and code the event asks for; agreement and invariant are kept. |
| EmblaRuntime.Embla.HandleEvent | src/embla.c:155-208 | The branches of the handler, for any state of the tables. |
| EmblaRuntime.Embla.HandleExit | src/embla.c:167-187 | Records the exit code or signal, then terminates. |
| EmblaRuntime.Embla.HandleTermination | src/embla.c:210-242 | TERMINATED, orphans to the root, out of the scheduler, in this order with each failure. |
| EmblaRuntime.Embla.Run | src/embla.c:245-338 | The run does what the specification says; while it goes on somebody is current or nobody waits; on completion all tables are empty exactly when every parent was the root or live at its start. |
| EmblaRuntime.Embla.Loop | src/embla.c:269-326 | The loop itself, one poll at a time; it never idles while somebody waits. |
| EmblaRuntime.Embla.LoopOnce | src/embla.c:269-337 | The body of the loop: one poll, then the shutdown once nothing is live. |
| EmblaRuntime.Embla.Shutdown | src/embla.c:126-147 | Reaps the root's children, then STOPPED; refused outside STOPPING. |
| EmblaRuntime.Embla.ReapRootChildren | src/embla.c:95-124 | The loop ends, because each reap shrinks the table, in the specified state. |
| EmblaRuntime.Embla.ReapFoundProcess | src/embla.c:742-787 | Out of the group, out of the table, and the group out when empty. |
| EmblaRuntime.Embla.ReapChild | src/embla.c:789-818 | Reaps the first terminated child and names it. |
| EmblaRuntime.Embla.ReapProcess | src/embla.c:820-842 | Reaps exactly that process, if it is there and terminated. |
| EmblaRuntime.Embla.Dispatch | src/scheduler.c:172-203 | Dispatch seen by the whole runtime: one entry of the table changes with the queue. |
| EmblaRuntime.Embla.Yield | src/scheduler.c:205-232 | Yield seen by the whole runtime. |
| EmblaRuntime.Embla.SignalProcess | src/embla.c:652-740 | A signal goes out exactly to a process with a host pid that is not TERMINATED. |
| EmblaRuntime.Embla.DrainOneEvent | src/service_orchestrator.c:255-309 | Marks an exit in the process table, with the reported code or signal, and touches neither parents nor scheduler. |
| RestartRuns.CounterCounts | src/service_restart.c:113-140 | Between stability resets the counter counts exactly the restartable exits, and no restart is scheduled beyond the maximum. |
| RestartRuns.RestartBound | src/service_restart.c:113-154 | From one reset to the next at most the maximum of restarts is scheduled. |
| RestartRuns.GiveUpExactly | src/service_restart.c:117-154 | A restartable exit is given up on exactly when the allowance, fresh after a stable run, is used up. |
| RestartRuns.AllowanceUsedUp | src/service_restart.c:125-154 | When a service is first given up on, exactly its remaining allowance has been scheduled. |
| RestartRuns.PolicyExactly | src/service_restart.c:62-140 | Over every run: a tick schedules or gives up exactly when it reaps a process nobody asked to stop and the policy wants it back: NEVER does not, ALWAYS does, ON_FAILURE does for a signal or a code other than 0. |
| RestartRuns.LastStartIs | src/service_restart.c:40-60 | Over every run the time of the last start is the reading of the last tick that restarted the service. |
| RestartRuns.StabilityIsMeasured | src/service_restart.c:113-140 | The count begins afresh exactly when a crash is found at least the threshold after the reading taken by the start, and the service is given up on exactly when the count then exceeds the maximum. |
| RestartRuns.RestartFires | src/service_restart.c:40-60 | A pending restart waits until its time, is performed by the first tick from then on if the spawn succeeds, and is dropped if not. |
| RestartRuns.FailedRestartIsFinal | src/service_restart.c:49-57 | A restart whose spawn fails is never tried again, and the service is not marked as failed. |
| RestartRuns.QuietAfterGivingUp | src/service_restart.c:33-155 | After GAVE_UP every tick of every run answers NOTHING and changes nothing. |
| RestartRuns.StopWins | src/service_restart.c:62-82 | After a stop request no tick of any run, under any policy, schedules or performs a restart; the reaping tick answers REAPED_NO_RESTART and clears the flag. |
| RestartRuns.FirstExitIsSeen | src/service_restart.c:74-82 | The first exit after a start, whatever number of ticks found the process alive before, is acted on if and only if no stop is on record. |
| RestartRuns.StaleStopFlag | src/service_restart.c:74-82 | A concrete crash that is swallowed because of an earlier stop. |
| RestartRuns.RecordOkAlongRuns | src/service_restart.c:33-155 | Pending implies stopped, failed implies stopped and not pending, over every run of ticks. |
| RestartRuns.ManualStartKeepsRecord | src/service_lifecycle.c:5-48 | A start by hand keeps that if and only if no restart is pending. |
| RestartRuns.DelaysFollowBackoff | src/service_restart.c:4-31 | Without a reset the j-th scheduled delay is the j-th term base, 2 base, 4 base, ..., exponent clamped at 30, capped at the maximum. |
| RestartRuns.BackoffGrows | src/service_restart.c:4-31 | The backoff never shrinks and never exceeds the maximum. |
| RestartRuns.BackoffDoubles | src/service_restart.c:4-31 | The backoff starts at the base, doubles with each restart up to the clamp, and is cut at the maximum. |
| RestartRuns.RestartsTakeTheirTime | src/service_restart.c:40-60 | With a clock that never goes back, the restarts of a run take at least the sum of their delays. |
| Services.Service.Start | src/service_lifecycle.c:5-48 | Spawns and becomes RUNNING with the new process and the clock reading as its start time, or changes nothing but what a refused spawn changes. |
| Services.Service.Stop | src/service_lifecycle.c:50-75 | Sets the flag also when the signal is refused, and sends SIGTERM only to a process not TERMINATED. |
| Services.Service.Kill | src/service_lifecycle.c:77-97 | Sends SIGKILL only to a process not TERMINATED, and changes no state. |
| Services.Service.Reap | src/service_lifecycle.c:99-155 | Takes over exit data, reaps the process and detaches it; each failure as specified. |
| Services.Service.ComputeDelay | src/service_restart.c:4-31 | The clamped and capped delay of the backoff for the present count. |
| Services.Service.ApplyPolicy | src/service_restart.c:74-154 | Stop flag, policy, stability reset, count, give-up and schedule, as specified. |
| Services.Service.Tick | src/service_restart.c:33-155 | One tick as specified, and what it does to the runtime. |
| Services.Service.TickReap | src/service_restart.c:62-154 | A tick with no restart pending: reap, then the policy. |
| Services.Service.AddDependency | src/service.c:468-499 | Appends a name other than the service's own while there is room. |
| ServiceRegistries.ServiceRegistry.Register | src/service_registry.c:78-104 | Appends; fails exactly when full or the name is taken; names stay unique. |
| ServiceRegistries.ServiceRegistry.Get | src/service_registry.c:106-121 | The service with that name, or none. |
| ServiceRegistries.ServiceRegistry.Unregister | src/service_registry.c:143-169 | Deletes exactly the service with that name, the last one filling the hole. |
| DependencyGraph.StartOrderIsPermutation | src/service_orchestrator.c:143-175 | A start order as long as the registry contains every service. |
| DependencyGraph.OrderedIsAcyclic | src/service_orchestrator.c:100-176 | Where there is a start order all names resolve and nothing depends on itself, over any number of steps. |
| DependencyGraph.GrayHit | src/service_orchestrator.c:71-75 | A gray dependency closes an actual cycle through the gray path. |
| StartOrders.Visit | src/service_orchestrator.c:38-98 | The recursive search ends, and either blackens the service behind all its dependencies or fails for a missing name or a cycle it can show. |
| StartOrders.VisitDependency | src/service_orchestrator.c:52-91 | One dependency: unknown, gray, white or black. |
| StartOrders.ResolveDependency | src/service_orchestrator.c:54-69 | A registered dependency is always found in the local list: the "internal error" branch is dead. |
| StartOrders.ComputeStartOrder | src/service_orchestrator.c:100-176 | Succeeds if and only if every dependency name is registered and the relation is acyclic; then the output is a permutation with every dependency before its dependents. |
| Startup.WalkReachesFixpoint | src/service_orchestrator.c:211-248 | Walking a start order computes the fixpoint: running are those that ran before, and those that spawn with all dependencies running. |
| Startup.FixpointUnique | src/service_orchestrator.c:211-248 | There is only one such fixpoint, so the order chosen does not matter. |
| Startup.ClosedAtEveryStep | src/service_orchestrator.c:211-248 | From an all-stopped graph every running service has all transitive dependencies running, at every step. |
| Startup.BackwardsIsSafe | src/service_orchestrator.c:388-435 | Walking backwards, every transitive dependent still running was already tried in vain. |
| Startup.LeftRunning | src/service_orchestrator.c:388-435 | A shutdown leaves running exactly the services it tried in vain. |
| Startup.StoppedCountIsDrop | src/service_orchestrator.c:425-439 | The number of successful attempts is the drop in running services. |
| StartStop.StartWalkFacts | src/service_orchestrator.c:211-248 | The start loop on runtime and records follows that walk at every step, keeps services and runtime in agreement, and only the host or a full runtime keep a service from spawning. |
| StartStop.WalkStaysClosed | src/service_orchestrator.c:211-248 | From an all-stopped registry the running services are closed under transitive dependencies at every step of the loop. |
| StartStop.StopWalkFacts | src/service_orchestrator.c:386-439 | The stop loop keeps services and runtime in agreement, tries every running service once, last first, and changes no other service. |
| StartStop.StopAllIsSafe | src/service_orchestrator.c:350-440 | Safety of every attempt, the result as the drop in running services, and exactly who is left running. |
| StartStop.RecordsStayOk | src/service_orchestrator.c:442-488 | Start, passes and stop keep "pending implies stopped, failed implies stopped and not pending" for every service, when nothing is pending at the start. |
| StartStop.StartWalkRecords | src/service_orchestrator.c:211-248 | The start loop keeps it when nothing is pending, and leaves nothing pending. |
| StartStop.StartWalkRecord | src/service_orchestrator.c:211-248 | Each service is left alone, or started with the clock reading of its own turn. |
| StartStop.StopWalkRecord | src/service_orchestrator.c:386-439 | Each service that was running is tried: the stop is on record, whether it runs is the outcome, its restart record is as before; every other one is left alone. |
| StartStop.StopWalkRecords | src/service_orchestrator.c:386-439 | The stop loop keeps it as it is. |
| SupervisionSpec.WaitSucceedsExactly | src/service_orchestrator.c:311-348 | Waiting succeeds if and only if some round before the deadline, with no failed poll before it, finds an exit drained in an earlier round. |
| SupervisionSpec.WaitInVain | src/service_orchestrator.c:311-348 | A wait that fails leaves the record alone and the runtime with the polls drained. |
| SupervisionSpec.WaitTakesCodes | src/service_orchestrator.c:316-323 | A wait that succeeds takes over the exit code and signal its process shows in the round that finds it. |
| SupervisionSpec.PolledReport | src/service_orchestrator.c:292-308 | A poll tells of a process either its end, with the reported code or signal, or nothing. |
| SupervisionSpec.StopsExactly | src/service_orchestrator.c:392-434 | Exactly when one attempt stops a service, and exactly which signals it sends to which host process. |
| SupervisionSpec.LateExitIsLost | src/service_orchestrator.c:316-347 | A concrete stop that leaves a service RUNNING though its process obeyed in time. |
| SupervisionRuns.TickOwned | src/service_restart.c:33-155 | The tick of one service keeps all services and the runtime in agreement and changes what no other service's process shows. |
| SupervisionRuns.ExitsReachOwner | src/service_orchestrator.c:460-475 | In every pass each service's one tick finds its process dead if and only if it was dead before or its exit was drained in this pass, with the reported codes, whatever the other ticks did. |
| SupervisionRuns.DrainReport | src/service_orchestrator.c:460-463 | After draining, a process shows exactly the codes reported for it. |
| SupervisionRuns.PolicySeesStatus | src/service_orchestrator.c:460-475 | The policy judges the reported status: a live process with one report of its end shows in its service's tick that code and no signal, or that signal and no code. |
| SupervisionRuns.UnreportedAlongRuns | src/service_orchestrator.c:458-482 | Over whole supervised runs no live process has a code or signal recorded. |
| SupervisionRuns.RecordsRun | src/service_orchestrator.c:458-482 | Over any number of passes each record goes through a run of ticks with its own settings and clock readings, and the agreement holds throughout. |
| SupervisionRuns.RestartsAreBounded | src/service_orchestrator.c:458-482 | All services together are restarted at most as often as the ready queue had free slots. |
| ServiceOrchestrator.CreateSupervisor | src/embla.c:27-93 | A fresh runtime and a fresh registry agree. |
| ServiceOrchestrator.AddService | src/service_registry.c:78-104 | Registering a stopped service keeps the agreement. |
| ServiceOrchestrator.DropService | src/service_registry.c:143-169 | Unregistering any service keeps the agreement of the others. |
| ServiceOrchestrator.DependenciesRunning | src/service_orchestrator.c:217-232 | True exactly when every dependency is registered and RUNNING. |
| ServiceOrchestrator.TryStart | src/service_orchestrator.c:213-247 | One turn of the start loop on registry and runtime. |
| ServiceOrchestrator.StartAll | src/service_orchestrator.c:178-253 | Starts in a start order to the fixpoint and counts; without an order returns -1 and touches nothing. |
| ServiceOrchestrator.StartInOrder | src/service_orchestrator.c:211-252 | The loop of the start. |
| ServiceOrchestrator.WaitForTermination | src/service_orchestrator.c:311-348 | The wait loop as specified: clock, reap, drain. |
| ServiceOrchestrator.StopOne | src/service_orchestrator.c:392-434 | One attempt with its escalation as specified, signals included. |
| ServiceOrchestrator.StopAll | src/service_orchestrator.c:350-440 | Stops in reverse start order as specified; the result, the safety of every attempt and all signals sent. |
| ServiceOrchestrator.StopInOrder | src/service_orchestrator.c:386-439 | The loop of the stop. |
| ServiceOrchestrator.ReapService | src/service_lifecycle.c:99-155 | A reap under supervision keeps the agreement of all services with the runtime. |
| ServiceOrchestrator.TerminatedIsReapable | src/embla.c:820-842 | A terminated entry of the table can always be reaped, and no other. |
| ServiceOrchestrator.TickService | src/service_restart.c:33-155 | A tick under supervision as specified, keeping the agreement of all services with the runtime. |
| ServiceOrchestrator.DrainAll | src/service_orchestrator.c:460-463 | Drains until a poll fails or reports nothing; no record changes. |
| ServiceOrchestrator.SupervisePass | src/service_orchestrator.c:460-475 | One pass: drain, then one tick for each service, in registry order. |
| ServiceOrchestrator.SuperviseUntilShutdown | src/service_orchestrator.c:458-482 | The loop until the shutdown request, pass by pass. |
| ServiceOrchestrator.Supervise | src/service_orchestrator.c:442-488 | Start, supervise and stop: the final runtime, records and result, and the records in order; -1 and nothing touched without a start order. |
| ServiceNotify.ParseIsHomomorphism | src/service_notify.c:56-94 | Parsing two texts joined by a newline is merging what each says: flags add up, the last status wins. |
| ServiceNotify.ParseExactly | src/service_notify.c:19-94 | For every text: READY is set if and only if some line is exactly "READY=1", STOPPING likewise, and the status is v if and only if the last line that starts with "STATUS=" is "STATUS=" and v. |
| ServiceNotify.LinesAreTheText | src/service_notify.c:82-89 | The lines that statement speaks of hold no newline, and joined by newlines they are the text. |
| ServiceNotify.LineExactly | src/service_notify.c:19-54 | What one line changes, judged by the whole line. |
| ServiceNotify.RoundTrip | src/service_notify.c:138-175 | Any concatenation of printed messages parses back to what they mean, for every status without a newline, and only those can be printed. |
| ServiceNotify.Notification.ApplyLineInPlace | src/service_notify.c:19-54 | Cutting the line at its first '=' in the buffer notes READY or STOPPING exactly for the lines "READY=1" and "STOPPING=1", a status exactly for a line that starts with "STATUS=", and leaves the rest of the buffer alone. |
| ServiceNotify.StrTok | src/service_notify.c:82-89 | The tokenizer cuts off the next non-empty line in place and goes on behind it. |
| ServiceNotify.Parse | src/service_notify.c:56-94 | The in-place parser sets a flag exactly when some line is the flag's line, and the status to what follows the last "STATUS=". |

## Left out

- Error branches ruled out in every state by the steps before them: the failure to record a host group id and the refused READY transition of a spawn (`src/embla.c:541-560`), the failure of a setter on a process or of the rusage copy in an event (`src/embla.c:169-187`, `src/embla.c:219-223`), the two failed deletions of a reap (`src/embla.c:767-784`), and the failures of the setters in `src/service_lifecycle.c` and `src/service_restart.c`, which refuse NULL only. For the READY transition and the deletions `Launch`, `DropEntry` and `ReapFoundProcess` assert it.
- System calls and the executor: fork, wait, kill and the clock are parameters, as described above.
- Memory: allocation failure, freeing and NULL arguments; process names, rusage and cpu times.
- Parts of the process manager nobody in the modelled code calls: `process_manager_first`, `process_manager_next` and the iterator index they use, `process_manager_reap_child`, `process_set_group_id`.
- Stop, continue and group signals of the runtime, and a call of `embla_stop` from outside while a run is in progress.
- Logging, process configuration, pipes, sockets and the main program; of a notification only its text is modelled.
- Floating point: delays and times are reals. The restart counter is unbounded.
- A runtime on which `embla_run` and the supervisor are mixed: the two drivers are modelled separately, and the scheduler and parent invariants are claimed for the first only.
- Reuse of a host pid by the host while an entry with it is still in the table: an event goes to the first entry with its host pid, as in the code, and `SupervisionRuns.ExitsReachOwner` speaks of that entry.
- EmblaRuntime.Embla.SpawnRollback: does not record the kill sent to a host process that had been forked already; the record of signals holds those of `embla_terminate` and `embla_kill`.
- RuntimeInvariants.SpawnChildKeeps: keeps the parent invariant for a live parent only, because `embla_spawn_child` does not look at the parent's state.
- ServiceOrchestrator.SuperviseUntilShutdown: takes a finite list of passes; the registry is not changed while the loop is going.
- ServiceOrchestrator.WaitForTermination: takes a finite list of clock readings and stops waiting when they run out.
- ServiceRegistries.ServiceRegistry.Unregister: does not destroy the service.
- Services.Service.AddDependency: names are compared and kept as values, without the copy.
