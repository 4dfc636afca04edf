/** The runtime object: four tables of shared process records, changed step by step. Each
    method is proved to do what RuntimeSpec says, whatever the state. */
module EmblaRuntime {
  import opened Sequences
  import opened Processes
  import opened ProcessTables
  import opened ProcessManagers
  import opened ProcessGroups
  import opened Schedulers
  import opened RuntimeSpec
  import opened RuntimeInvariants
  import opened RuntimeEffects
  import opened RunLoop
  import opened RuntimeRuns

  class Embla {
    const processManager: ProcessManager
    const groupManager: ProcessGroupManager
    const scheduler: Scheduler
    var mode: Mode
    ghost var everCreated: set<Process>
    ghost var Repr: set<object>
    ghost var sent: seq<Sent>  // the signals sent through executor_signal so far

    /** The tables are well formed and share nothing but processes, and a process is
        determined by its id, also when it has left the process table. */
    ghost predicate Valid()
      reads this, groupManager, Repr
      ensures Valid() ==> this in Repr
    {
      && Owned()
      && processManager.Valid() && groupManager.Valid() && scheduler.Valid()
      && GroupsValid()
      && Known() && MembersKnown()
    }

    ghost predicate Owned()
      reads this, groupManager
    {
      && {this, processManager, processManager.processes, groupManager, groupManager.groups,
          scheduler, scheduler.readyQueue} <= Repr
      && everCreated <= Repr
      && (forall g :: g in groupManager.table ==>
            && g in Repr && g.processes in Repr
            && g.processes != processManager.processes && g.processes != scheduler.readyQueue)
      && (forall g, h :: g in groupManager.table && h in groupManager.table && g != h ==> g.processes != h.processes)
      && processManager.processes.Length == PROCESS_MANAGER_INITIAL_CAPACITY
      && groupManager.groups.Length == PROCESS_GROUP_MANAGER_INITIAL_CAPACITY
      && scheduler.readyQueue.Length == SCHEDULER_INITIAL_CAPACITY
      && processManager.processes != scheduler.readyQueue
    }

    ghost predicate GroupsValid()
      reads groupManager, groupManager.table, set g | g in groupManager.table :: g.processes
    {
      forall g :: g in groupManager.table ==> g.Valid() && g.processes.Length == PROCESS_GROUP_INITIAL_CAPACITY
    }

    ghost predicate Known()
      reads `everCreated, processManager, scheduler
    {
      && (forall p, q :: p in everCreated && q in everCreated && p.id == q.id ==> p == q)
      && (forall p :: p in everCreated ==> p.id < processManager.nextPid)
      && (forall p :: p in processManager.table ==> p in everCreated)
      && (forall p :: p in scheduler.queue ==> p in everCreated)
      && (scheduler.current != null ==> scheduler.current in everCreated)
    }

    ghost predicate MembersKnown()
      reads `everCreated, groupManager, groupManager.table
    {
      forall g, p :: g in groupManager.table && p in g.members ==> p in everCreated
    }

    ghost function View(): Sys
      reads this, processManager, processManager.table, groupManager, groupManager.table, scheduler
    {
      Sys(Values(processManager.table), GroupValues(groupManager.table), ReadyIds(),
          processManager.nextPid, groupManager.nextId, mode)
    }

    ghost function ReadyIds(): ReadyState<nat>
      reads scheduler
    {
      ReadyState(Ids(scheduler.queue), if scheduler.current == null then None else Some(scheduler.current.id))
    }

    constructor ()
      ensures Valid() && View() == EMPTY_SYS && fresh(Repr)
    {
      hide ProcessManager.Valid, ProcessGroupManager.Valid, Scheduler.Valid, ProcessGroup.Valid;
      processManager := new ProcessManager();
      groupManager := new ProcessGroupManager();
      scheduler := new Scheduler(SCHEDULER_INITIAL_CAPACITY);
      mode := RuntimeStopped;
      everCreated := {};
      sent := [];
      new;
      Repr := {this, processManager, processManager.processes, groupManager, groupManager.groups,
        scheduler, scheduler.readyQueue};
    }
  
    // ---- single edits of one table, seen by the whole runtime ----

    method NewEntry(parentId: nat, groupId: nat) returns (process: Process?)
      requires Valid()
      modifies processManager, processManager.processes, `everCreated, `Repr
      ensures Valid() && fresh(Repr - old(Repr))
      ensures process == null <==>
        |old(processManager.table)| >= PROCESS_MANAGER_INITIAL_CAPACITY || old(processManager.nextPid) == INVALID_PID
      ensures process == null ==>
        processManager.table == old(processManager.table) && processManager.nextPid == old(processManager.nextPid)
      ensures process != null ==>
        && fresh(process) && process in everCreated
        && process.Value() == Proc(old(processManager.nextPid), parentId, groupId, INVALID_HOST_PID, Created, -1, -1)
        && processManager.table == old(processManager.table) + [process]
        && processManager.nextPid == old(processManager.nextPid) + 1
    {
      hide GroupsValid, ProcessGroupManager.Valid, Scheduler.Valid, View;
      process := processManager.CreateProcess(parentId, groupId);
      if process != null {
        everCreated := everCreated + {process};
        Repr := Repr + {process};
      }
    }

    method CreateEntry(parentId: nat, groupId: nat) returns (process: Process?)
      requires Valid()
      modifies processManager, processManager.processes, `everCreated, `Repr
      ensures Valid() && fresh(Repr - old(Repr))
      ensures process == null <==>
        |old(View().procs)| >= PROCESS_MANAGER_INITIAL_CAPACITY || old(View().nextPid) == INVALID_PID
      ensures process == null ==> View() == old(View()) && processManager.table == old(processManager.table)
      ensures process != null ==>
        && fresh(process) && process in everCreated
        && process.Value() == Proc(old(View().nextPid), parentId, groupId, INVALID_HOST_PID, Created, -1, -1)
        && processManager.table == old(processManager.table) + [process]
        && View() == old(View()).(procs := old(View().procs) + [process.Value()], nextPid := old(View().nextPid) + 1)
    {
      hide Valid;
      ghost var was := processManager.table;
      process := NewEntry(parentId, groupId);
      assert Values(was) == old(Values(processManager.table));
      if process != null { ValuesAppend(was, process); }
    }

    method DropEntry(process: Process)
      requires Valid() && process in processManager.table
      modifies processManager, processManager.processes
      ensures Valid() && processManager.nextPid == old(processManager.nextPid)
      ensures var i := IndexOf(Ids(old(processManager.table)), process.id);
              i < |old(processManager.table)| && processManager.table == SwapRemove(old(processManager.table), i)
    {
      hide GroupsValid, MembersKnown, ProcessGroupManager.Valid, Scheduler.Valid, View;
      ghost var was, i := processManager.table, IndexOf(Ids(processManager.table), process.id);
      IdOfMember(was, process);
      SwapRemoveAt(was, i);
      var destroyed := processManager.DestroyProcess(process.id);
      assert destroyed;
    }

    method DestroyEntry(process: Process)
      requires Valid() && process in processManager.table
      modifies processManager, processManager.processes
      ensures Valid()
      ensures var i := FindPid(old(View().procs), process.id);
              && i < |old(View().procs)|
              && processManager.table == SwapRemove(old(processManager.table), i)
              && View() == old(View()).(procs := SwapRemove(old(View().procs), i))
    {
      hide Valid;
      assert Pids(View().procs) == Ids(processManager.table);
      ghost var was, i := processManager.table, IndexOf(Ids(processManager.table), process.id);
      DropEntry(process);
      assert Values(was) == old(Values(processManager.table));
      ValuesSwapRemove(was, i);
    }

    method AddMember(group: ProcessGroup, ghost g: nat, process: Process) returns (ok: bool)
      requires Valid() && process in everCreated
      requires g < |groupManager.table| && groupManager.table[g] == group
      modifies group`count, group`members, group.processes
      ensures Valid()
      ensures ok == (|old(group.members)| < PROCESS_GROUP_INITIAL_CAPACITY
        && process.groupId == group.id && process !in old(group.members))
      ensures group.members == if ok then old(group.members) + [process] else old(group.members)
      ensures View() == old(View()).(groups := old(View().groups)[g := group.Value()])
    {
      hide Known, ProcessManager.Valid, Scheduler.Valid;
      ghost var v := View();
      assert group in groupManager.table;
      ok := group.Add(process);
      OneGroupChanged(g, v.groups);
    }

    method RemoveMember(group: ProcessGroup, ghost g: nat, process: Process) returns (ok: bool)
      requires Valid()
      requires g < |groupManager.table| && groupManager.table[g] == group
      modifies group`count, group`members, group.processes
      ensures Valid()
      ensures var m := IndexOf(old(group.members), process);
              && ok == (m < |old(group.members)|)
              && group.members == if ok then SwapRemove(old(group.members), m) else old(group.members)
      ensures View() == old(View()).(groups := old(View().groups)[g := group.Value()])
    {
      hide Known, ProcessManager.Valid, Scheduler.Valid;
      ghost var v := View();
      assert group in groupManager.table;
      ok := group.Remove(process);
      OneGroupChanged(g, v.groups);
    }

    method Enqueue(process: Process) returns (ok: bool)
      requires Valid() && process in everCreated
      modifies scheduler, scheduler.readyQueue
      ensures Valid()
      ensures (View(), ok) == (var (ready, added) := AddSpec(old(View().ready), process.id, SCHEDULER_INITIAL_CAPACITY);
                               (old(View()).(ready := ready), added))
    {
      hide GroupsValid, MembersKnown, ProcessGroupManager.Valid, ProcessManager.Valid;
      ghost var q := scheduler.queue;
      ok := scheduler.Add(process);
      assert Ids(q + [process]) == Ids(q) + [process.id];
    }
  
    // ---- spawning ----

    /** The process is the newest entry of the table, so its position is the last. */
    lemma NewestIsLast(process: Process)
      requires Valid() && processManager.table != [] && processManager.table[|processManager.table| - 1] == process
      ensures FindPid(View().procs, process.id) == |View().procs| - 1
      ensures forall i :: 0 <= i < |processManager.table| - 1 ==> processManager.table[i] != process
    {
      var last := |processManager.table| - 1;
      assert Pids(View().procs) == Ids(processManager.table);
      FindPidUnique(View().procs, last);
      DistinctEntries(processManager.table, last);
    }

    lemma GroupValueAt(group: ProcessGroup, g: nat)
      requires g < |groupManager.table| && groupManager.table[g] == group
      ensures |View().groups| == |groupManager.table| && View().groups[g] == group.Value()
      ensures |group.Value().members| == |group.members|
    {
    }

    lemma GroupFacts(group: ProcessGroup, g: nat)
      requires Valid() && g < |groupManager.table| && groupManager.table[g] == group
      ensures group.count == |group.members| <= PROCESS_GROUP_INITIAL_CAPACITY && NoDup(group.members)
      ensures forall p :: p in group.members ==> p in everCreated
      ensures |View().groups| == |groupManager.table| && View().groups[g] == group.Value()
      ensures |View().procs| == |processManager.table|
    {
      assert group in groupManager.table;
    }

    /** Takes the newest process out of its group, if it got that far, and out of the table. */
    method SpawnRollback(group: ProcessGroup, ghost g: nat, process: Process)
      requires Valid()
      requires g < |groupManager.table| && groupManager.table[g] == group
      requires processManager.table != [] && processManager.table[|processManager.table| - 1] == process
      requires process in group.members ==> group.members[|group.members| - 1] == process
      modifies processManager, processManager.processes, group`count, group`members, group.processes
      ensures Valid()
      ensures group.members ==
        if old(process in group.members) then old(group.members[..|group.members| - 1]) else old(group.members)
      ensures processManager.table == old(processManager.table[..|processManager.table| - 1])
      ensures View() == old(View()).(
        procs := old(View().procs[..|View().procs| - 1]),
        groups := old(View().groups)[g := group.Value()])
    {
      hide GroupsValid, Known, MembersKnown, ProcessManager.Valid, ProcessGroupManager.Valid, Scheduler.Valid;
      NewestIsLast(process);
      if process in group.members {
        GroupFacts(group, g);
        IndexOfUnique(group.members, process, |group.members| - 1);
      }
      var _ := RemoveMember(group, g, process);
      DestroyEntry(process);
    }

    method MarkState(process: Process, ghost i: nat, next: ProcessState) returns (ok: bool)
      requires Valid()
      requires i < |processManager.table| && processManager.table[i] == process
      modifies process`state
      ensures Valid()
      ensures (View(), ok) == TransitionSpec(old(View()), i, next)
      ensures process.state == if ok then next else old(process.state)
    {
      hide GroupsValid, Known, MembersKnown, ProcessGroupManager.Valid, Scheduler.Valid;
      DistinctEntries(processManager.table, i);
      ghost var before, was := View(), process.Value();
      ok := process.Transition(next);
      assert process.Value() == was.(state := process.state);
      assert View().procs == before.procs[i := process.Value()];
    }

    /** The host pid of a process just forked ... */
    method RecordHost(process: Process, ghost i: nat, hostId: nat)
      requires Valid()
      requires i < |processManager.table| && processManager.table[i] == process
      modifies process`hostId
      ensures Valid()
      ensures View() == old(View()).(procs := old(View().procs)[i := process.Value()])
      ensures process.hostId == hostId
    {
      hide GroupsValid, Known, MembersKnown, ProcessManager.Valid, ProcessGroupManager.Valid, Scheduler.Valid, NoDup;
      ghost var v := View();
      OthersDiffer(i);
      process.hostId := hostId;
      OneEntryChanged(i, v.procs);
    }

    /** ... and of its group. */
    method RecordGroupHost(group: ProcessGroup, ghost g: nat, hostId: nat)
      requires Valid()
      requires g < |groupManager.table| && groupManager.table[g] == group
      modifies group`hostId
      ensures Valid()
      ensures View() == old(View()).(groups := old(View().groups)[g := group.Value()])
      ensures group.hostId == hostId
    {
      hide Known, ProcessManager.Valid, Scheduler.Valid;
      ghost var v := View();
      group.hostId := hostId;
      OneGroupChanged(g, v.groups);
    }

    method RecordFork(group: ProcessGroup, ghost g: nat, process: Process, ghost i: nat, hostId: nat)
      requires Valid()
      requires i < |processManager.table| && processManager.table[i] == process
      requires g < |groupManager.table| && groupManager.table[g] == group
      modifies process`hostId, group`hostId
      ensures Valid()
      ensures View() == old(View()).(
        procs := old(View().procs)[i := process.Value()],
        groups := old(View().groups)[g := group.Value()])
      ensures process.hostId == hostId
      ensures group.hostId == if old(group.hostId) == INVALID_HOST_PGID then hostId else old(group.hostId)
    {
      hide Valid, View;
      GroupFacts(group, g);
      RecordHost(process, i, hostId);
      if group.hostId == INVALID_HOST_PGID {
        RecordGroupHost(group, g, process.hostId);
      }
    }

    /** The steps after a successful fork: host pid, host group id of a first member, READY, ready queue. */
    method Launch(group: ProcessGroup, ghost g: nat, process: Process, hostId: nat) returns (queued: bool)
      requires Valid() && process in everCreated && process.state == Created
      requires g < |groupManager.table| && groupManager.table[g] == group
      requires processManager.table != [] && processManager.table[|processManager.table| - 1] == process
      modifies process`hostId, process`state, group`hostId, scheduler, scheduler.readyQueue
      ensures Valid()
      ensures queued == (|old(View().ready.queue)| < SCHEDULER_INITIAL_CAPACITY)
      ensures process.Value() == old(process.Value()).(host := hostId, state := Ready)
      ensures group.hostId == if old(group.hostId) == INVALID_HOST_PGID then hostId else old(group.hostId)
      ensures View() == old(View()).(
        procs := old(View().procs)[|old(View().procs)| - 1 := process.Value()],
        groups := old(View().groups)[g := group.Value()],
        ready := AddSpec(old(View().ready), process.id, SCHEDULER_INITIAL_CAPACITY).0)
    {
      hide GroupsValid, Known, MembersKnown, ProcessManager.Valid, ProcessGroupManager.Valid, Scheduler.Valid, Owned;
      hide View;
      ghost var last := |processManager.table| - 1;
      EntryFacts(process, last);
      RecordFork(group, g, process, last, hostId);
      var ready := MarkState(process, last, Ready);
      assert ready;
      queued := Enqueue(process);
    }

    method LaunchOrUndo(group: ProcessGroup, ghost g: nat, process: Process, hostId: nat) returns (queued: bool)
      requires Valid() && process in everCreated && process.state == Created
      requires g < |groupManager.table| && groupManager.table[g] == group
      requires processManager.table != [] && processManager.table[|processManager.table| - 1] == process
      requires group.members != [] && group.members[|group.members| - 1] == process
      modifies process`hostId, process`state, group`hostId, scheduler, scheduler.readyQueue
      modifies processManager, processManager.processes, group`count, group`members, group.processes
      ensures Valid()
      ensures queued == (|old(View().ready.queue)| < SCHEDULER_INITIAL_CAPACITY)
      ensures process.Value() == old(process.Value()).(host := hostId, state := Ready)
      ensures group.Value() == old(group.Value()).(
        host := if old(group.hostId) == INVALID_HOST_PGID then hostId else old(group.hostId),
        members := if queued then old(group.Value().members) else old(group.Value().members[..|group.members| - 1]))
      ensures processManager.table ==
        if queued then old(processManager.table) else old(processManager.table[..|processManager.table| - 1])
      ensures var v := old(View());
        View() == v.(
          procs := if queued then v.procs[|v.procs| - 1 := process.Value()] else v.procs[..|v.procs| - 1],
          groups := v.groups[g := group.Value()],
          ready := AddSpec(v.ready, process.id, SCHEDULER_INITIAL_CAPACITY).0)
    {
      hide GroupsValid, Known, MembersKnown, ProcessManager.Valid, ProcessGroupManager.Valid, Scheduler.Valid,
        ProcessGroup.Valid, View;
      ghost var v := View();
      GroupFacts(group, g);
      queued := Launch(group, g, process, hostId);
      if !queued {
        SpawnRollback(group, g, process);
        assert View().procs == v.procs[..|v.procs| - 1];
      }
    }

    /** `fork` is the host's answer to the fork: nothing, or the pid of the new host process. */
    method SpawnInternal(parentId: nat, groupId: nat, fork: Option<nat>) returns (process: Process?)
      requires Valid()
      modifies Repr
      ensures Valid() && fresh(Repr - old(Repr))
      ensures SpawnInternalSpec(old(View()), parentId, groupId, fork)
           == (View(), if process == null then None else Some(process.id))
      ensures process != null ==>
        && fresh(process) && fork.Some?
        && process.Value() == Proc(old(View().nextPid), parentId, groupId, fork.value, Ready, -1, -1)
      ensures processManager.table == old(processManager.table) + (if process == null then [] else [process])
      ensures sent == old(sent)
    {
      hide GroupsValid, Known, MembersKnown, ProcessManager.Valid, Scheduler.Valid, ProcessGroup.Valid;
      var group := groupManager.Get(groupId);
      assert Gids(View().groups) == GroupIds(groupManager.table);
      if group == null {
        return null;
      }
      ghost var g := IndexOf(GroupIds(groupManager.table), groupId);
      GroupFacts(group, g);
      if group.hasMaxMembers && group.count >= group.maxMembers {
        return null;
      }
      process := SpawnInto(group, g, parentId, fork);
    }

    /** A new entry in the table that is also the newest member of its group. */
    method Enroll(group: ProcessGroup, ghost g: nat, parentId: nat) returns (process: Process?)
      requires Valid()
      requires g < |groupManager.table| && groupManager.table[g] == group
      modifies processManager, processManager.processes, `everCreated, `Repr
      modifies group`count, group`members, group.processes
      ensures Valid() && fresh(Repr - old(Repr))
      ensures process == null ==> processManager.table == old(processManager.table)
      ensures (View(), process != null) == EnrollSpec(old(View()), parentId, g)
      ensures process != null ==>
        && fresh(process) && process in everCreated
        && process.Value() == Proc(old(View().nextPid), parentId, group.id, INVALID_HOST_PID, Created, -1, -1)
        && processManager.table == old(processManager.table) + [process]
        && group.members == old(group.members) + [process]
    {
      hide GroupsValid, Known, MembersKnown, ProcessManager.Valid, ProcessGroupManager.Valid, Scheduler.Valid,
        ProcessGroup.Valid, View, Owned;
      ghost var v0, members := View(), group.members;
      GroupFacts(group, g);
      GroupValueAt(group, g);
      process := CreateEntry(parentId, group.id);
      if process == null {
        return null;
      }
      assert process !in group.members;
      var added := AddMember(group, g, process);
      if !added {
        SpawnRollback(group, g, process);
        assert View().procs == v0.procs && group.members == members;
        assert View().groups == v0.groups;
        return null;
      }
      assert Ids(members + [process]) == Ids(members) + [process.id];
    }

    /** The rest of a spawn, once the group is found and admits a member. */
    method SpawnInto(group: ProcessGroup, ghost g: nat, parentId: nat, fork: Option<nat>) returns (process: Process?)
      requires Valid()
      requires g < |groupManager.table| && groupManager.table[g] == group
      modifies Repr
      ensures Valid() && fresh(Repr - old(Repr))
      ensures groupManager.table == old(groupManager.table)
      ensures SpawnIntoSpec(old(View()), parentId, g, fork)
           == (View(), if process == null then None else Some(process.id))
      ensures process != null ==>
        && fresh(process) && fork.Some?
        && process.Value() == Proc(old(View().nextPid), parentId, group.id, fork.value, Ready, -1, -1)
      ensures processManager.table == old(processManager.table) + (if process == null then [] else [process])
      ensures sent == old(sent)
    {
      hide Valid, ProcessGroup.Valid, View, SpawnIntoSpec, EnrollSpec, ForkSpec;
      GroupValueAt(group, g);
      Footprint(group, g);
      SpawnIntoSteps(View(), parentId, g, fork);
      process := Enroll(group, g, parentId);
      if process == null {
        return null;
      }
      GroupValueAt(group, g);
      EnrolledLast(group, g, process);
      var started := Fork(group, g, process, fork);
      if !started {
        return null;
      }
    }

    lemma EnrolledLast(group: ProcessGroup, g: nat, process: Process)
      requires g < |groupManager.table| && groupManager.table[g] == group
      requires processManager.table != [] && processManager.table[|processManager.table| - 1] == process
      ensures |View().procs| == |processManager.table|
      ensures View().procs[|View().procs| - 1] == process.Value()
    {
    }

    /** What a spawn into a group may touch belongs to the runtime. */
    lemma Footprint(group: ProcessGroup, g: nat)
      requires Valid() && g < |groupManager.table| && groupManager.table[g] == group
      ensures {this, processManager, processManager.processes, scheduler, scheduler.readyQueue} <= Repr
      ensures group in Repr && group.processes in Repr
    {
      assert group in groupManager.table;
    }

    /** The fork of an enrolled process, and what follows its failure or success. */
    method Fork(group: ProcessGroup, ghost g: nat, process: Process, fork: Option<nat>) returns (started: bool)
      requires Valid() && process in everCreated && process.state == Created
      requires g < |groupManager.table| && groupManager.table[g] == group
      requires processManager.table != [] && processManager.table[|processManager.table| - 1] == process
      requires group.members != [] && group.members[|group.members| - 1] == process
      modifies process`hostId, process`state, group`hostId, scheduler, scheduler.readyQueue
      modifies processManager, processManager.processes, group`count, group`members, group.processes
      ensures Valid()
      ensures started ==> fork.Some? && process.Value() == old(process.Value()).(host := fork.value, state := Ready)
      ensures processManager.table
           == if started then old(processManager.table) else old(processManager.table[..|processManager.table| - 1])
      ensures (View(), started) == ForkSpec(old(View()), g, fork)
    {
      hide GroupsValid, Known, MembersKnown, ProcessManager.Valid, ProcessGroupManager.Valid, Scheduler.Valid,
        ProcessGroup.Valid, View, Owned;
      GroupFacts(group, g);
      GroupValueAt(group, g);
      EnrolledLast(group, g, process);
      ghost var members := group.members;
      assert Ids(members[..|members| - 1]) == Ids(members)[..|members| - 1];
      if fork.None? {
        SpawnRollback(group, g, process);
        return false;
      }
      started := LaunchOrUndo(group, g, process, fork.value);
    }

    // ---- creating and destroying groups ----

    method NewGroup() returns (group: ProcessGroup?)
      requires Valid()
      modifies groupManager, groupManager.groups, `Repr
      ensures Valid() && fresh(Repr - old(Repr))
      ensures group == null <==>
        |old(groupManager.table)| >= PROCESS_GROUP_MANAGER_INITIAL_CAPACITY || old(groupManager.nextId) == INVALID_PGID
      ensures group == null ==>
        groupManager.table == old(groupManager.table) && groupManager.nextId == old(groupManager.nextId)
      ensures group != null ==>
        && groupManager.table == old(groupManager.table) + [group]
        && groupManager.nextId == old(groupManager.nextId) + 1
        && fresh(group) && group.Value() == Group(old(groupManager.nextId), INVALID_HOST_PGID, [], None)
    {
      hide Known, ProcessManager.Valid, Scheduler.Valid, View;
      group := groupManager.CreateGroup();
      if group != null {
        Repr := Repr + {group, group.processes};
      }
    }

    method CreateGroup() returns (group: ProcessGroup?)
      requires Valid()
      modifies groupManager, groupManager.groups, `Repr
      ensures Valid() && fresh(Repr - old(Repr))
      ensures var v := old(View());
        if |v.groups| >= PROCESS_GROUP_MANAGER_INITIAL_CAPACITY || v.nextGid == INVALID_PGID then
          group == null && View() == v
        else
          group != null && group.id == v.nextGid && View() == WithEmptyGroup(v)
    {
      hide Valid;
      ghost var was := groupManager.table;
      group := NewGroup();
      assert GroupValues(was) == old(GroupValues(groupManager.table));
      if group != null {
        GroupValuesAppend(was, group);
      }
    }

    method DropGroup(groupId: nat) returns (ok: bool)
      requires Valid()
      modifies groupManager, groupManager.groups
      ensures Valid() && groupManager.nextId == old(groupManager.nextId)
      ensures var g := IndexOf(GroupIds(old(groupManager.table)), groupId);
        && ok == (g < |old(groupManager.table)| && old(groupManager.table)[g].members == [])
        && groupManager.table == if ok then SwapRemove(old(groupManager.table), g) else old(groupManager.table)
    {
      hide Known, ProcessManager.Valid, Scheduler.Valid, ProcessGroup.Valid, View, NoDup, SwapRemove, IndexOf;
      ghost var was, g := groupManager.table, IndexOf(GroupIds(groupManager.table), groupId);
      if g < |was| {
        GroupFacts(was[g], g);
        SwapRemoveAt(was, g);
      }
      ok := groupManager.DestroyGroup(groupId);
    }

    method DestroyGroup(groupId: nat) returns (ok: bool)
      requires Valid()
      modifies groupManager, groupManager.groups
      ensures Valid()
      ensures var g := FindGroup(old(View().groups), groupId);
        ok == (g < |old(View().groups)| && old(View().groups)[g].members == [])
      ensures View() == old(View()).(groups := DestroyGroupSpec(old(View().groups), groupId))
    {
      hide Valid;
      TableGids();
      ghost var was, g := groupManager.table, IndexOf(GroupIds(groupManager.table), groupId);
      ok := DropGroup(groupId);
      assert GroupValues(was) == old(GroupValues(groupManager.table));
      if ok { GroupValuesSwapRemove(was, g); }
    }

    method Spawn(fork: Option<nat>) returns (process: Process?)
      requires Valid()
      modifies Repr
      ensures Valid() && fresh(Repr - old(Repr))
      ensures SpawnSpec(old(View()), fork) == (View(), if process == null then None else Some(process.id))
      ensures fork != Some(INVALID_HOST_PID) && old(Coherent(View())) ==> Coherent(View())
      ensures fork != Some(INVALID_HOST_PID) && old(Invariant(View())) ==> Invariant(View())
      ensures process != null ==>
        && fresh(process) && fork.Some?
        && process.Value() == Proc(old(View().nextPid), ROOT_PID, old(View().nextGid), fork.value, Ready, -1, -1)
      ensures processManager.table == old(processManager.table) + (if process == null then [] else [process])
      ensures sent == old(sent)
    {
      hide GroupsValid, Known, MembersKnown, ProcessManager.Valid, ProcessGroupManager.Valid, Scheduler.Valid, View,
        Coherent, ParentsOlder, ParentsLive;
      if Coherent(View()) && fork != Some(INVALID_HOST_PID) { ApplyKeeps(View(), OpSpawn(fork)); }
      var group := CreateGroup();
      if group == null {
        return null;
      }
      var groupId := group.id;
      process := SpawnInternal(ROOT_PID, groupId, fork);
      if process == null {
        var _ := DestroyGroup(groupId);
      }
    }

    method SpawnChild(parent: Process, fork: Option<nat>) returns (process: Process?)
      requires Valid()
      modifies Repr
      ensures Valid() && fresh(Repr - old(Repr))
      ensures SpawnChildSpec(old(View()), parent.id, parent.groupId, fork)
           == (View(), if process == null then None else Some(process.id))
      ensures fork != Some(INVALID_HOST_PID) && old(Coherent(View())) ==> Coherent(View())
      ensures fork != Some(INVALID_HOST_PID) && old(Invariant(View()) && LivePid(View().procs, parent.id)) ==>
        Invariant(View())
      ensures process != null ==>
        && fresh(process) && fork.Some?
        && process.Value() == Proc(old(View().nextPid), parent.id, parent.groupId, fork.value, Ready, -1, -1)
      ensures processManager.table == old(processManager.table) + (if process == null then [] else [process])
      ensures sent == old(sent)
    {
      hide Valid, View, Bookkeeping, SchedulerAgrees, ParentsOk, SpawnInternalSpec;
      if Coherent(View()) && fork != Some(INVALID_HOST_PID) {
        SpawnChildKeeps(View(), parent.id, parent.groupId, fork);
      }
      var groupId := parent.groupId;
      if groupId == INVALID_PGID {
        return null;
      }
      process := SpawnInternal(parent.id, groupId, fork);
    }

    // ---- reaping ----

    method ReapFoundProcess(process: Process, ghost i: nat) returns (ok: bool)
      requires Valid()
      requires i < |processManager.table| && processManager.table[i] == process
      modifies Repr
      ensures Valid() && Repr == old(Repr) && everCreated == old(everCreated)
      ensures (View(), ok) == ReapFoundSpec(old(View()), i)
      ensures sent == old(sent)
      ensures processManager.table == if ok then SwapRemove(old(processManager.table), i) else old(processManager.table)
    {
      hide GroupsValid, Known, MembersKnown, ProcessManager.Valid, ProcessGroupManager.Valid, Scheduler.Valid,
        ProcessGroup.Valid, View, FindGroup, DestroyGroupSpec, SwapRemove, IndexOf, FindPid;
      ghost var v := View();
      EntryFacts(process, i);
      var groupId := process.groupId;
      var group := groupManager.Get(groupId);
      TableGids();
      if group == null {
        return false;
      }
      ghost var g := FindGroup(v.groups, groupId);
      GroupFacts(group, g);
      var removed := Withdraw(group, g, process, i);
      if !removed {
        return false;
      }
      GroupFacts(group, g);
      EmptiedGroup(v.groups, groupId, View().groups[g].members);
      if group.count == 0 {
        var destroyed := DestroyGroup(groupId);
        assert destroyed;
      }
      return true;
    }

    /** A group is found again after a change to its members, and deleted if that emptied it. */
    lemma EmptiedGroup(groups: seq<Group>, gid: nat, members: seq<nat>)
      requires FindGroup(groups, gid) < |groups|
      ensures var g := FindGroup(groups, gid); var updated := groups[g := groups[g].(members := members)];
        && FindGroup(updated, gid) == g
        && DestroyGroupSpec(updated, gid) == if members == [] then SwapRemove(updated, g) else updated
    {
      var g := FindGroup(groups, gid);
      assert Gids(groups[g := groups[g].(members := members)]) == Gids(groups);
    }

    /** Takes a process out of its group and, if it was there, out of the table. */
    method Withdraw(group: ProcessGroup, ghost g: nat, process: Process, ghost i: nat) returns (removed: bool)
      requires Valid()
      requires i < |processManager.table| && processManager.table[i] == process
      requires g < |groupManager.table| && groupManager.table[g] == group
      modifies processManager, processManager.processes, group`count, group`members, group.processes
      ensures Valid()
      ensures var v := old(View()); var m := IndexOf(v.groups[g].members, process.id);
        && removed == (m < |v.groups[g].members|)
        && View() == if !removed then v else v.(
             procs := SwapRemove(v.procs, i),
             groups := v.groups[g := v.groups[g].(members := SwapRemove(v.groups[g].members, m))])
      ensures processManager.table ==
        if removed then SwapRemove(old(processManager.table), i) else old(processManager.table)
    {
      hide GroupsValid, Known, MembersKnown, ProcessManager.Valid, ProcessGroupManager.Valid, Scheduler.Valid,
        ProcessGroup.Valid, View;
      ghost var v, members := View(), group.members;
      EntryFacts(process, i);
      GroupFacts(group, g);
      MemberPositions(group, g, process);
      removed := RemoveMember(group, g, process);
      if !removed {
        assert View().groups == v.groups;
        return false;
      }
      IdsSwapRemove(members, IndexOf(members, process));
      assert group.Value() == v.groups[g].(members := Ids(group.members));
      DestroyEntry(process);
    }

    method ReapChild(parentId: nat) returns (childId: Option<nat>)
      requires Valid()
      modifies Repr
      ensures Valid() && Repr == old(Repr) && everCreated == old(everCreated)
      ensures (View(), childId) == ReapChildSpec(old(View()), parentId)
      ensures old(Bookkeeping(View())) ==>
        (childId.Some? <==> parentId != INVALID_PID && HasZombie(old(View().procs), parentId))
      ensures old(Coherent(View())) ==> Coherent(View())
      ensures old(Invariant(View())) ==> Invariant(View())
    {
      hide Valid, View, ReapChildSpec, Bookkeeping, HasZombie, Coherent, ParentsOlder, ParentsLive;
      if Bookkeeping(View()) { ReapChildExactly(View(), parentId); }
      if Coherent(View()) { ApplyKeeps(View(), OpReapChild(parentId)); }
      childId := ReapZombie(parentId);
    }

    method ReapZombie(parentId: nat) returns (childId: Option<nat>)
      requires Valid()
      modifies Repr
      ensures Valid() && Repr == old(Repr) && everCreated == old(everCreated)
      ensures (View(), childId) == ReapChildSpec(old(View()), parentId)
    {
      hide GroupsValid, Known, MembersKnown, ProcessManager.Valid, ProcessGroupManager.Valid, Scheduler.Valid,
        ReapFoundSpec, View;
      ViewProcs();
      ghost var i := FindZombie(View().procs, parentId);
      var process := processManager.WaitChild(parentId);
      if process == null {
        return None;
      }
      EntryFacts(process, i);
      var ok := ReapFoundProcess(process, i);
      childId := if ok then Some(process.id) else None;
    }

    method ReapProcess(processId: nat) returns (ok: bool)
      requires Valid()
      modifies Repr
      ensures Valid() && Repr == old(Repr) && everCreated == old(everCreated)
      ensures (View(), ok) == ReapProcessSpec(old(View()), processId)
      ensures old(Coherent(View())) ==> Coherent(View())
      ensures old(Invariant(View())) ==> Invariant(View())
      ensures !ok ==> processManager.table == old(processManager.table)
      ensures ok ==> forall p :: p in processManager.table <==> p in old(processManager.table) && p.id != processId
      ensures sent == old(sent)
    {
      hide Valid, View, ReapProcessSpec, Coherent, ParentsOlder, ParentsLive;
      if Coherent(View()) { ApplyKeeps(View(), OpReapProcess(processId)); }
      ok := ReapById(processId);
    }

    method ReapById(processId: nat) returns (ok: bool)
      requires Valid()
      modifies Repr
      ensures Valid() && Repr == old(Repr) && everCreated == old(everCreated)
      ensures (View(), ok) == ReapProcessSpec(old(View()), processId)
      ensures !ok ==> processManager.table == old(processManager.table)
      ensures ok ==> forall p :: p in processManager.table <==> p in old(processManager.table) && p.id != processId
      ensures sent == old(sent)
    {
      hide GroupsValid, Known, MembersKnown, ProcessManager.Valid, ProcessGroupManager.Valid, Scheduler.Valid,
        ReapFoundSpec, View;
      ViewProcs();
      var process := processManager.Get(processId);
      if process == null {
        return false;
      }
      ghost var i := FindPid(View().procs, processId);
      EntryFacts(process, i);
      if process.state != Terminated {
        return false;
      }
      TableWithout(i);
      ok := ReapFoundProcess(process, i);
    }

    method ReapRootChildren() returns (ok: bool)
      requires Valid()
      modifies Repr
      ensures Valid() && Repr == old(Repr) && everCreated == old(everCreated)
      ensures (View(), ok) == ReapRootSpec(old(View()))
    {
      hide GroupsValid, Known, MembersKnown, ProcessManager.Valid, ProcessGroupManager.Valid, Scheduler.Valid;
      while true
        invariant Valid() && Repr == old(Repr) && everCreated == old(everCreated)
        invariant ReapRootSpec(View()) == ReapRootSpec(old(View()))
        decreases |View().procs|
      {
        var child := processManager.WaitChild(ROOT_PID);
        if child == null {
          return true;
        }
        var reaped := ReapChild(ROOT_PID);
        if reaped.None? {
          return false;
        }
      }
    }

    method Shutdown() returns (ok: bool)
      requires Valid()
      modifies Repr
      ensures Valid() && Repr == old(Repr) && everCreated == old(everCreated)
      ensures (View(), ok) == ShutdownSpec(old(View()))
    {
      hide GroupsValid, Known, MembersKnown, ProcessManager.Valid, ProcessGroupManager.Valid, Scheduler.Valid;
      if mode != RuntimeStopping {
        return false;
      }
      ok := ReapRootChildren();
      if !ok {
        return;
      }
      SetMode(RuntimeStopped);
    }

    method SetMode(next: Mode)
      requires Valid()
      modifies `mode
      ensures Valid() && View() == old(View()).(mode := next)
    {
      hide GroupsValid, Known, MembersKnown, ProcessManager.Valid, ProcessGroupManager.Valid, Scheduler.Valid;
      mode := next;
    }

    // ---- child events ----

    method RecordExit(process: Process, ghost i: nat, status: WaitStatus)
      requires Valid() && (status.Exited? || status.Signaled?)
      requires i < |processManager.table| && processManager.table[i] == process
      modifies process`exitCode, process`termSignal
      ensures Valid()
      ensures View() == old(View()).(procs := old(View().procs)[i :=
        if status.Exited? then old(View().procs)[i].(exitCode := status.code)
        else old(View().procs)[i].(termSignal := status.signal)])
    {
      hide GroupsValid, Known, MembersKnown, ProcessGroupManager.Valid, Scheduler.Valid;
      DistinctEntries(processManager.table, i);
      ghost var v, was := View(), process.Value();
      if status.Exited? {
        process.exitCode := status.code;
      } else {
        process.termSignal := status.signal;
      }
      assert View().procs == v.procs[i := process.Value()];
    }

    method Orphan(parentId: nat) returns (ok: bool)
      requires Valid()
      modifies processManager.table`parentId
      ensures Valid()
      ensures ok == (parentId != INVALID_PID)
      ensures View() ==
        if ok then old(View()).(procs := Reparent(old(View().procs), parentId, ROOT_PID)) else old(View())
    {
      hide GroupsValid, Known, MembersKnown, ProcessManager.Valid, ProcessGroupManager.Valid, Scheduler.Valid;
      ok := processManager.ReparentChildren(parentId, ROOT_PID);
    }

    method RemoveScheduled(process: Process) returns (ok: bool)
      requires Valid()
      modifies scheduler, scheduler.readyQueue
      ensures Valid()
      ensures (scheduler.State(), ok) == RemoveSpec(old(scheduler.State()), process)
    {
      hide GroupsValid, MembersKnown, ProcessGroupManager.Valid, ProcessManager.Valid;
      ghost var q := scheduler.queue;
      ghost var i := IndexOf(q, process);
      if i < |q| { RemoveAtSubset(q, i); }
      ok := scheduler.Remove(process);
    }

    method Dequeue(process: Process) returns (ok: bool)
      requires Valid() && process in everCreated
      modifies scheduler, scheduler.readyQueue
      ensures Valid()
      ensures (View(), ok) == (var (ready, removed) := RemoveSpec(old(View().ready), process.id);
                               (old(View()).(ready := ready), removed))
    {
      QueuePosition(process);
      hide Valid;
      ghost var q := scheduler.queue;
      ghost var i := IndexOf(q, process);
      if i < |q| { IdsRemoveAt(q, i); }
      ok := RemoveScheduled(process);
    }

    /** Searching the scheduler by pointer or by pid is the same. */
    lemma QueuePosition(process: Process)
      requires Valid() && process in everCreated
      ensures IndexOf(scheduler.queue, process) == IndexOf(Ids(scheduler.queue), process.id)
      ensures scheduler.current != null && scheduler.current.id == process.id ==> scheduler.current == process
    {
      SamePosition(scheduler.queue, process, everCreated);
    }

    method HandleChildEvent(hostId: nat, status: WaitStatus) returns (ok: bool)
      requires Valid()
      modifies Repr
      ensures Valid() && Repr == old(Repr) && everCreated == old(everCreated)
      ensures (View(), ok) == EventSpec(old(View()), hostId, status)
      ensures old(Coherent(View())) ==> Coherent(View()) && ok == old(EventAccepted(View(), hostId, status))
      ensures old(Invariant(View())) ==> Invariant(View())
      ensures var i := old(FindHost(View().procs, hostId)); var procs := old(View().procs);
        old(Coherent(View())) && hostId != INVALID_HOST_PID && i < |procs| ==>
          i < |View().procs| && Reported(procs[i], View().procs[i], status)
    {
      hide Valid, View, EventSpec, EventAccepted, Coherent, ParentsOlder, ParentsLive, Reported;
      if Coherent(View()) {
        EventKeeps(View(), hostId, status);
        if hostId != INVALID_HOST_PID && FindHost(View().procs, hostId) < |View().procs| {
          EventReports(View(), hostId, status);
        }
      }
      ok := HandleEvent(hostId, status);
    }

    /** The branches of the event handler. */
    method HandleEvent(hostId: nat, status: WaitStatus) returns (ok: bool)
      requires Valid()
      modifies Repr
      ensures Valid() && Repr == old(Repr) && everCreated == old(everCreated)
      ensures (View(), ok) == EventSpec(old(View()), hostId, status)
    {
      hide GroupsValid, Known, MembersKnown, ProcessManager.Valid, ProcessGroupManager.Valid, Scheduler.Valid,
        TerminatedSpec, TransitionSpec, View;
      ViewProcs();
      var process := processManager.GetByHostId(hostId);
      if process == null {
        return true;
      }
      ghost var i := FindHost(View().procs, hostId);
      EntryFacts(process, i);
      match status
      case Exited(_) | Signaled(_) =>
        ok := HandleExit(process, i, status);
      case StoppedBy =>
        ok := MarkState(process, i, Stopped);
      case ContinuedBy =>
        ok := MarkState(process, i, Running);
      case OtherStatus =>
        ok := true;
    }

    /** An exit or a kill: its code is recorded first. */
    method HandleExit(process: Process, ghost i: nat, status: WaitStatus) returns (ok: bool)
      requires Valid() && (status.Exited? || status.Signaled?)
      requires i < |processManager.table| && processManager.table[i] == process
      modifies Repr
      ensures Valid() && Repr == old(Repr) && everCreated == old(everCreated)
      ensures var v := old(View());
        (View(), ok) == TerminatedSpec(v.(procs := v.procs[i :=
          if status.Exited? then v.procs[i].(exitCode := status.code)
          else v.procs[i].(termSignal := status.signal)]), i)
    {
      hide GroupsValid, Known, MembersKnown, ProcessManager.Valid, ProcessGroupManager.Valid, Scheduler.Valid,
        TerminatedSpec, View;
      EntryFacts(process, i);
      TableInRepr();
      RecordExit(process, i, status);
      ok := HandleTermination(process, i);
    }

    /** The `terminated:` tail of the event handler. */
    method HandleTermination(process: Process, ghost i: nat) returns (ok: bool)
      requires Valid()
      requires i < |processManager.table| && processManager.table[i] == process
      modifies Repr
      ensures Valid() && Repr == old(Repr) && everCreated == old(everCreated)
      ensures processManager.table == old(processManager.table)
      ensures (View(), ok) == TerminatedSpec(old(View()), i)
    {
      hide GroupsValid, Known, MembersKnown, ProcessManager.Valid, ProcessGroupManager.Valid, Scheduler.Valid;
      EntryFacts(process, i);
      ok := MarkState(process, i, Terminated);
      if !ok {
        return false;
      }
      TableInRepr();
      ok := Orphan(process.id);
      if !ok {
        return false;
      }
      ok := Dequeue(process);
    }

    /** The supervisor's own, shorter, handling of one event. */
    method DrainOneEvent(poll: Poll) returns (result: int)
      requires Valid()
      modifies Repr
      ensures Valid() && Repr == old(Repr) && everCreated == old(everCreated)
      ensures result == (match poll case PollFailed => -1 case NoChild => 0 case ChildEvent(_, _) => 1)
      ensures View() == if poll.ChildEvent? then DrainSpec(old(View()), poll.host, poll.status) else old(View())
      ensures poll.ChildEvent? && old(Bookkeeping(View())) ==>
        var i := old(FindHost(View().procs, poll.host)); var procs := old(View().procs);
        poll.host != INVALID_HOST_PID && i < |procs| && Deadly(poll.status) ==>
          i < |View().procs| && Reported(procs[i], View().procs[i], poll.status)
      ensures processManager.table == old(processManager.table) && sent == old(sent)
    {
      hide GroupsValid, Known, MembersKnown, ProcessManager.Valid, ProcessGroupManager.Valid, Scheduler.Valid,
        View, Bookkeeping, Reported, FindHost;
      ViewProcs();
      match poll
      case PollFailed => return -1;
      case NoChild => return 0;
      case ChildEvent(hostId, status) =>
        var process := processManager.GetByHostId(hostId);
        if process == null {
          return 1;
        }
        ghost var i := FindHost(View().procs, hostId);
        EntryFacts(process, i);
        if Bookkeeping(View()) && Deadly(status) { DrainReports(View(), hostId, status); }
        if status.Exited? || status.Signaled? {
          RecordExit(process, i, status);
          var _ := MarkState(process, i, Terminated);
        }
        return 1;
    }

    lemma TableInRepr()
      requires Valid()
      ensures forall p :: p in processManager.table ==> p in Repr
      ensures scheduler in Repr && scheduler.readyQueue in Repr
    {
    }

    // ---- signals ----

    /** `accepted`: would the host take the signal? A process without a host pid gets none. */
    method ExecutorSignal(process: Process, signal: Signal, accepted: bool) returns (ok: bool)
      requires Valid()
      modifies `sent
      ensures Valid() && View() == old(View())
      ensures ok == (process.hostId != INVALID_HOST_PID && accepted)
      ensures sent == old(sent) + (if process.hostId != INVALID_HOST_PID then [Sent(process.hostId, signal)] else [])
    {
      hide GroupsValid, Known, MembersKnown, ProcessManager.Valid, ProcessGroupManager.Valid, Scheduler.Valid;
      if process.hostId == INVALID_HOST_PID {
        return false;
      }
      sent := sent + [Sent(process.hostId, signal)];
      ok := accepted;
    }

    /** `embla_terminate` and `embla_kill` differ in the signal only. */
    method SignalProcess(process: Process, signal: Signal, accepted: bool) returns (ok: bool)
      requires Valid()
      modifies `sent
      ensures Valid() && View() == old(View())
      ensures ok == (process.state != Terminated && process.hostId != INVALID_HOST_PID && accepted)
      ensures sent == old(sent) +
        (if process.state != Terminated && process.hostId != INVALID_HOST_PID
         then [Sent(process.hostId, signal)] else [])
    {
      if process.state == Terminated {
        return false;
      }
      ok := ExecutorSignal(process, signal, accepted);
    }

    // ---- dispatching and the run loop ----

    /** A scheduled process of an agreeing runtime has an entry in the table. */
    lemma ScheduledEntry(process: Process) returns (i: nat)
      requires Valid() && Coherent(View())
      requires process in scheduler.queue || scheduler.current == process
      ensures i < |processManager.table| && processManager.table[i] == process
      ensures FindPid(View().procs, process.id) == i
    {
      var pid := process.id;
      if process in scheduler.queue {
        var k :| 0 <= k < |scheduler.queue| && scheduler.queue[k] == process;
        assert Ids(scheduler.queue)[k] == pid;
      }
      assert LivePid(View().procs, pid);
      i :| 0 <= i < |View().procs| && View().procs[i].id == pid;
      assert processManager.table[i] in processManager.table;
      EntryFacts(processManager.table[i], i);
    }

    /** The table after a change to the state of its entry at `i`. */
    lemma OneEntryChanged(i: nat, before: seq<Proc>)
      requires |before| == |processManager.table| && i < |before|
      requires forall k :: 0 <= k < |before| && k != i ==> processManager.table[k].Value() == before[k]
      ensures Values(processManager.table) == before[i := processManager.table[i].Value()]
    {
    }

    lemma OneGroupChanged(g: nat, before: seq<Group>)
      requires |before| == |groupManager.table| && g < |before|
      requires forall k :: 0 <= k < |before| && k != g ==> groupManager.table[k].Value() == before[k]
      ensures GroupValues(groupManager.table) == before[g := groupManager.table[g].Value()]
    {
    }

    method DispatchHead() returns (ok: bool)
      requires Valid()
      modifies scheduler, scheduler.readyQueue, if scheduler.queue == [] then {} else {scheduler.queue[0]}
      ensures Valid()
      ensures (scheduler.State(), ok)
           == DispatchSpec(old(scheduler.State()),
              old(scheduler.queue != [] && CanTransition(scheduler.queue[0].state, Running)))
      ensures old(scheduler.queue) != [] ==>
        old(scheduler.queue)[0].Value()
        == old(scheduler.queue[0].Value()).(state := if ok then Running else old(scheduler.queue[0].state))
    {
      hide GroupsValid, MembersKnown, ProcessGroupManager.Valid, ProcessManager.Valid;
      ok := scheduler.Dispatch();
    }

    method Dispatch() returns (ok: bool)
      requires Valid() && Coherent(View())
      modifies Repr
      ensures Valid() && Repr == old(Repr) && everCreated == old(everCreated)
      ensures (View(), ok) == DispatchSysSpec(old(View())) && Coherent(View())
      ensures old(Invariant(View())) ==> Invariant(View())
    {
      hide Coherent, ParentsOlder, ParentsLive, Valid;
      ghost var v, q := View(), scheduler.queue;
      DispatchKeeps(v);
      ghost var i := 0;
      TableInRepr();
      if q != [] {
        i := ScheduledEntry(q[0]);
        EntryFacts(q[0], i);
        OthersDiffer(i);
      }
      ok := DispatchHead();
      if q != [] {
        OneEntryChanged(i, v.procs);
        assert View().procs == if ok then SetState(v.procs, q[0].id, Running) else v.procs;
        assert Ids(q[1..]) == Ids(q)[1..];
        assert Ids(q[1..] + [q[0]]) == Ids(q)[1..] + [q[0].id];
      }
    }

    lemma OthersDiffer(i: nat)
      requires Valid() && i < |processManager.table|
      ensures forall k :: 0 <= k < |processManager.table| && k != i ==>
        processManager.table[k] != processManager.table[i]
    {
      DistinctEntries(processManager.table, i);
    }

    method YieldCurrent() returns (ok: bool)
      requires Valid()
      modifies scheduler, scheduler.readyQueue, if scheduler.current == null then {} else {scheduler.current as Process}
      ensures Valid()
      ensures (scheduler.State(), ok)
           == YieldSpec(old(scheduler.State()), SCHEDULER_INITIAL_CAPACITY,
                        old(scheduler.current != null && CanTransition(scheduler.current.state, Ready)))
      ensures old(scheduler.current) != null ==>
        (old(scheduler.current) as Process).Value()
        == old((scheduler.current as Process).Value()).(state := if ok then Ready else old(scheduler.current.state))
    {
      hide GroupsValid, MembersKnown, ProcessGroupManager.Valid, ProcessManager.Valid;
      ok := scheduler.Yield();
    }

    method Yield() returns (ok: bool)
      requires Valid() && Coherent(View())
      modifies Repr
      ensures Valid() && Repr == old(Repr) && everCreated == old(everCreated)
      ensures (View(), ok) == YieldSysSpec(old(View())) && Coherent(View())
      ensures old(Invariant(View())) ==> Invariant(View())
    {
      hide Coherent, ParentsOlder, ParentsLive, Valid;
      ghost var v, q, running := View(), scheduler.queue, scheduler.current;
      YieldKeeps(v);
      ghost var i := 0;
      TableInRepr();
      if running != null {
        i := ScheduledEntry(running);
        EntryFacts(running, i);
        OthersDiffer(i);
      }
      ok := YieldCurrent();
      if running != null {
        OneEntryChanged(i, v.procs);
        assert View().procs == if ok then SetState(v.procs, running.id, Ready) else v.procs;
        assert Ids(q + [running]) == Ids(q) + [running.id];
      }
    }

    /** The body of the run loop up to the live-process test. */
    method HandlePoll(poll: Poll) returns (going: bool)
      requires Valid() && Coherent(View())
      modifies Repr
      ensures Valid() && Repr == old(Repr) && everCreated == old(everCreated)
      ensures (View(), going) == PollSpec(old(View()), poll)
    {
      hide GroupsValid, Known, MembersKnown, ProcessManager.Valid, ProcessGroupManager.Valid, Scheduler.Valid,
        Coherent, ParentsOlder, ParentsLive;
      match poll
      case PollFailed =>
        SetMode(RuntimeStopped);
        return false;
      case NoChild =>
        return true;
      case ChildEvent(hostId, status) =>
        EventKeeps(View(), hostId, status);
        going := HandleChildEvent(hostId, status);
        if !going {
          SetMode(RuntimeStopped);
          return false;
        }
        QueueCount();
        if scheduler.current == null && scheduler.count > 0 {
          going := Dispatch();
          if !going {
            SetMode(RuntimeStopped);
            return false;
          }
        }
    }

    /** `polls` are the host's answers; the run is still going when they run out first. */
    method Run(polls: seq<Poll>) returns (outcome: Outcome)
      requires Valid() && Coherent(View())
      modifies Repr
      ensures Valid() && Repr == old(Repr) && everCreated == old(everCreated)
      ensures (View(), outcome) == RunSpec(old(View()), polls)
      ensures Coherent(View()) && (old(Invariant(View())) ==> Invariant(View()))
      ensures outcome == Pending ==> Busy(View())
      ensures outcome == Completed ==> (AllEmpty(View()) <==> old(ParentsLive(View().procs)))
    {
      hide GroupsValid, Known, MembersKnown, ProcessManager.Valid, ProcessGroupManager.Valid, Scheduler.Valid,
        Coherent, ParentsOlder, ParentsLive, AllEmpty;
      RunKeeps(View(), polls);
      if RunSpec(View(), polls).1 == Pending { RunStaysBusy(View(), polls); }
      if mode != RuntimeStopped {
        return Failed;
      }
      ghost var v := View();
      SetMode(RuntimeRunning);
      ModeIrrelevant(v, RuntimeRunning);
      QueueCount();
      if scheduler.count > 0 {
        DispatchKeeps(View());
        var dispatched := Dispatch();
        if !dispatched {
          SetMode(RuntimeStopped);
          return Failed;
        }
      }
      outcome := Loop(polls);
    }

    method Loop(polls: seq<Poll>) returns (outcome: Outcome)
      requires Valid() && Coherent(View()) && mode == RuntimeRunning
      modifies Repr
      ensures Valid() && Repr == old(Repr) && everCreated == old(everCreated)
      ensures (View(), outcome) == LoopSpec(old(View()), polls)
      ensures outcome == Pending && old(Busy(View())) ==> Busy(View())
    {
      hide GroupsValid, Known, MembersKnown, ProcessManager.Valid, ProcessGroupManager.Valid, Scheduler.Valid,
        Coherent, ParentsOlder, ParentsLive, AllEmpty, Busy, PollSpec, ShutdownSpec, KinshipKept;
      ghost var v := View();
      if Busy(v) && LoopSpec(v, polls).1 == Pending { LoopStaysBusy(v, polls); }
      var i := 0;
      while i < |polls|
        invariant Valid() && Repr == old(Repr) && everCreated == old(everCreated)
        invariant i <= |polls| && Coherent(View()) && mode == RuntimeRunning
        invariant LoopSpec(View(), polls[i..]) == LoopSpec(v, polls)
      {
        assert polls[i..][1..] == polls[i + 1..];
        PollKeeps(View(), polls[i]);
        outcome := LoopOnce(polls[i]);
        if outcome != Pending {
          return;
        }
        i := i + 1;
      }
      return Pending;
    }

    /** The body of the run loop; `Pending` when it goes on. */
    method LoopOnce(poll: Poll) returns (outcome: Outcome)
      requires Valid() && Coherent(View())
      modifies Repr
      ensures Valid() && Repr == old(Repr) && everCreated == old(everCreated)
      ensures var (s, going) := PollSpec(old(View()), poll);
        if !going then View() == s && outcome == Failed
        else if LiveCount(s.procs) == 0 then
          var (s', ok) := ShutdownSpec(s.(mode := RuntimeStopping));
          View() == s' && outcome == if ok then Completed else Failed
        else View() == s && outcome == Pending
    {
      hide GroupsValid, Known, MembersKnown, ProcessManager.Valid, ProcessGroupManager.Valid, Scheduler.Valid,
        Coherent, PollSpec, ShutdownSpec, View;
      var going := HandlePoll(poll);
      if !going {
        return Failed;
      }
      ViewProcs();
      var live := processManager.GetLiveCount();
      if live == 0 {
        SetMode(RuntimeStopping);
        var ok := Shutdown();
        return if ok then Completed else Failed;
      }
      return Pending;
    }

    lemma ViewProcs()
      ensures View().procs == Values(processManager.table) && Pids(View().procs) == Ids(processManager.table)
      ensures View().mode == mode
    {
    }

    lemma QueueCount()
      requires Valid()
      ensures scheduler.count == |View().ready.queue|
    {
    }

    lemma TableWithout(i: nat)
      requires Valid() && i < |processManager.table|
      ensures forall p :: p in SwapRemove(processManager.table, i)
                      <==> p in processManager.table && p.id != processManager.table[i].id
    {
      var t := processManager.table;
      forall j, k | 0 <= j < k < |t| ensures t[j] != t[k] { assert Ids(t)[j] != Ids(t)[k]; }
      SwapRemoveContents(t, i);
      forall p | p in t && p.id == t[i].id ensures p == t[i] {
        var k :| 0 <= k < |t| && t[k] == p;
        IndexOfUnique(Ids(t), p.id, k);
        IndexOfUnique(Ids(t), p.id, i);
      }
    }

    lemma DistinctById(p: Process, q: Process)
      requires Valid() && p in processManager.table && q in processManager.table && p != q
      ensures p.id != q.id
    {
    }

    lemma TableGids()
      ensures Gids(View().groups) == GroupIds(groupManager.table) && |View().groups| == |groupManager.table|
    {
    }

    lemma EntryFacts(process: Process, i: nat)
      requires Valid() && i < |processManager.table| && processManager.table[i] == process
      ensures process in everCreated
      ensures |View().procs| == |processManager.table| && View().procs[i] == process.Value()
      ensures FindPid(View().procs, process.id) == i
    {
      assert Pids(View().procs) == Ids(processManager.table);
      FindPidUnique(View().procs, i);
    }

    /** Searching a group by pointer or by pid is the same. */
    lemma MemberPositions(group: ProcessGroup, g: nat, process: Process)
      requires Valid() && process in everCreated
      requires g < |groupManager.table| && groupManager.table[g] == group
      ensures IndexOf(group.members, process) == IndexOf(Ids(group.members), process.id)
    {
      assert group in groupManager.table;
      SamePosition(group.members, process, everCreated);
    }
  }

  lemma SamePosition(ps: seq<Process>, p: Process, known: set<Process>)
    requires forall x, y :: x in known && y in known && x.id == y.id ==> x == y
    requires p in known && forall x :: x in ps ==> x in known
    ensures IndexOf(ps, p) == IndexOf(Ids(ps), p.id)
  {
    var i := IndexOf(Ids(ps), p.id);
    if i < |ps| { assert ps[i] in ps; }
    var k := IndexOf(ps, p);
    if k < |ps| { assert Ids(ps)[k] == p.id; }
  }

  lemma IdsRemoveAt(ps: seq<Process>, i: nat)
    requires i < |ps|
    ensures Ids(RemoveAt(ps, i)) == RemoveAt(Ids(ps), i)
  {
  }
}
