/** What each operation of the runtime changes, entry by entry, while the tables agree. */
module RuntimeEffects {
  import opened Sequences
  import opened Processes
  import opened ProcessTables
  import opened ProcessManagers
  import opened ProcessGroups
  import opened Schedulers
  import opened RuntimeSpec
  import opened RuntimeInvariants

  // ---- spawning ----

  /** What a child adds: a READY entry with this parent, last in the table, last in its group
      and last in the queue. The host group of the group stays. */
  function WithChild(s: Sys, parent: nat, g: nat, host: nat): Sys
    requires g < |s.groups|
  {
    s.(procs := s.procs + [Proc(s.nextPid, parent, s.groups[g].id, host, Ready, -1, -1)],
       groups := s.groups[g := s.groups[g].(members := s.groups[g].members + [s.nextPid])],
       ready := s.ready.(queue := s.ready.queue + [s.nextPid]),
       nextPid := s.nextPid + 1)
  }

  lemma SpawnChildAdds(s: Sys, parent: nat, gid: nat, fork: Option<nat>)
    requires Bookkeeping(s) && SpawnChildSpec(s, parent, gid, fork).1.Some?
    ensures var g := FindGroup(s.groups, gid);
      && fork.Some? && g < |s.groups| && s.groups[g].id == gid
      && SpawnChildSpec(s, parent, gid, fork) == (WithChild(s, parent, g, fork.value), Some(s.nextPid))
  {
  }

  /** A refused spawn leaves everything as it was but the ids it drew: a group id once there is
      room for a group, a pid once there is room for an entry. They are not given back. */
  lemma SpawnRefused(s: Sys, fork: Option<nat>)
    requires Bookkeeping(s) && fork != Some(INVALID_HOST_PID) && SpawnSpec(s, fork).1.None?
    ensures var grouped := |s.groups| < PROCESS_GROUP_MANAGER_INITIAL_CAPACITY && s.nextGid < INVALID_PGID;
      var entered := grouped && |s.procs| < PROCESS_MANAGER_INITIAL_CAPACITY && s.nextPid < INVALID_PID;
      SpawnSpec(s, fork).0 == s.(
        nextGid := if grouped then s.nextGid + 1 else s.nextGid,
        nextPid := if entered then s.nextPid + 1 else s.nextPid)
  {
    if |s.groups| < PROCESS_GROUP_MANAGER_INITIAL_CAPACITY && s.nextGid < INVALID_PGID {
      EmptyGroupAdded(s);
      assert NoDup(Gids(WithEmptyGroup(s).groups));
      hide Bookkeeping;
      var s1 := WithEmptyGroup(s);
      FindGroupUnique(s1.groups, |s.groups|);
      RefusedSpawnRestores(s, fork);
    }
  }

  lemma SpawnChildRefused(s: Sys, parent: nat, gid: nat, fork: Option<nat>)
    requires Bookkeeping(s) && fork != Some(INVALID_HOST_PID) && SpawnChildSpec(s, parent, gid, fork).1.None?
    ensures var g := FindGroup(s.groups, gid);
      var entered := g < |s.groups| && (s.groups[g].cap.None? || |s.groups[g].members| < s.groups[g].cap.value)
                     && |s.procs| < PROCESS_MANAGER_INITIAL_CAPACITY && s.nextPid < INVALID_PID;
      SpawnChildSpec(s, parent, gid, fork).0 == s.(nextPid := if entered then s.nextPid + 1 else s.nextPid)
  {
    SpawnChildKeeps(s, parent, gid, fork);
    assert forall g :: 0 <= g < |s.groups| ==> 0 < s.groups[g].id < INVALID_PGID;
    hide Bookkeeping;
  }

  // ---- child events ----

  predicate Deadly(status: WaitStatus) {
    status.Exited? || status.Signaled?
  }

  /** The state of a process after an event about it. */
  function StateAfter(state: ProcessState, status: WaitStatus): ProcessState {
    if state == Terminated then Terminated
    else if Deadly(status) then Terminated
    else if status.StoppedBy? && state in {Ready, Running} then Stopped
    else if status.ContinuedBy? && state in {Ready, Stopped} then Running
    else state
  }

  /** The entry after an event about it; a process that ends stays where it is, with its code. */
  predicate Reported(p: Proc, p': Proc, status: WaitStatus) {
    && p'.id == p.id && p'.group == p.group && p'.host == p.host
    && p'.state == StateAfter(p.state, status)
    && p'.exitCode == (if status.Exited? then status.code else p.exitCode)
    && p'.termSignal == (if status.Signaled? then status.signal else p.termSignal)
  }

  /** The scheduler after a live process left it: off the current slot, or out of the queue with
      the order of the rest kept. */
  predicate Left(before: ReadyState<nat>, after: ReadyState<nat>, pid: nat) {
    if before.current == Some(pid) then after == before.(current := None)
    else
      var k := IndexOf(before.queue, pid);
      k < |before.queue| && after == before.(queue := before.queue[..k] + before.queue[k + 1..])
  }

  /** The children of a process that ended go to the root; nobody else's parent changes. */
  predicate Orphaned(before: seq<Proc>, after: seq<Proc>, pid: nat) {
    |after| == |before| && forall k :: 0 <= k < |before| ==>
      after[k].parent == if before[k].parent == pid then ROOT_PID else before[k].parent
  }

  /** All entries but one are the same but for their parents. */
  predicate SameBut(before: seq<Proc>, after: seq<Proc>, i: nat) {
    |after| == |before| && forall k :: 0 <= k < |before| && k != i ==> after[k].(parent := 0) == before[k].(parent := 0)
  }

  lemma TerminatedDoes(s: Sys, i: nat)
    requires i < |s.procs| && Live(s.procs[i]) && CanTransition(s.procs[i].state, Terminated)
    requires var pid := s.procs[i].id; pid != INVALID_PID && (s.ready.current == Some(pid) || pid in s.ready.queue)
    ensures var s' := TerminatedSpec(s, i).0; var pid := s.procs[i].id;
      && s' == s.(procs := s'.procs, ready := s'.ready)
      && Orphaned(s.procs, s'.procs, pid) && SameBut(s.procs, s'.procs, i) && Left(s.ready, s'.ready, pid)
      && s'.procs[i].(parent := 0) == s.procs[i].(parent := 0, state := Terminated)
  {
  }

  /** An event changes the state and the code of the process it is about; if it ends it, the
      children of that process go to the root and it leaves the scheduler. Nothing else changes. */
  lemma EventDoes(s: Sys, host: nat, status: WaitStatus)
    requires Coherent(s)
    ensures var i := FindHost(s.procs, host); var s' := EventSpec(s, host, status).0;
      if host == INVALID_HOST_PID || i == |s.procs| then s' == s
      else
        var pid := s.procs[i].id;
        && s' == s.(procs := s'.procs, ready := s'.ready)
        && SameBut(s.procs, s'.procs, i) && Reported(s.procs[i], s'.procs[i], status)
        && if Deadly(status) && s.procs[i].state != Terminated
           then Orphaned(s.procs, s'.procs, pid) && Left(s.ready, s'.ready, pid)
           else s'.ready == s.ready && forall k :: 0 <= k < |s.procs| ==> s'.procs[k].parent == s.procs[k].parent
  {
    var i := FindHost(s.procs, host);
    if host != INVALID_HOST_PID && i < |s.procs| {
      hide Coherent, Left, Orphaned, TerminatedSpec;
      LiveIsScheduled(s, i);
      if Deadly(status) { EndDoes(s, i, status); }
    }
  }

  function WithCode(p: Proc, status: WaitStatus): Proc
    requires Deadly(status)
  {
    if status.Exited? then p.(exitCode := status.code) else p.(termSignal := status.signal)
  }

  lemma EndDoes(s: Sys, i: nat, status: WaitStatus)
    requires Coherent(s) && i < |s.procs| && Deadly(status)
    ensures var p := WithCode(s.procs[i], status);
      var s1 := s.(procs := s.procs[i := p]); var s' := TerminatedSpec(s1, i).0;
      && SameBut(s.procs, s'.procs, i) && Reported(s.procs[i], s'.procs[i], status)
      && if s.procs[i].state != Terminated
         then s' == s.(procs := s'.procs, ready := s'.ready)
              && Orphaned(s.procs, s'.procs, s.procs[i].id) && Left(s.ready, s'.ready, s.procs[i].id)
         else s' == s1
  {
    hide Coherent, Left, Orphaned;
    LiveIsScheduled(s, i);
    var p := WithCode(s.procs[i], status);
    var s1 := s.(procs := s.procs[i := p]);
    if Live(s.procs[i]) {
      TerminatedDoes(s1, i);
      hide TerminatedSpec;
      OrphanedFrom(s.procs, s1.procs, TerminatedSpec(s1, i).0.procs, s.procs[i].id);
    }
  }

  lemma EventReports(s: Sys, host: nat, status: WaitStatus)
    requires Coherent(s) && host != INVALID_HOST_PID && FindHost(s.procs, host) < |s.procs|
    ensures var i := FindHost(s.procs, host); var procs := EventSpec(s, host, status).0.procs;
      i < |procs| && Reported(s.procs[i], procs[i], status)
  {
    hide Coherent, EventSpec, Reported;
    EventDoes(s, host, status);
  }

  lemma LiveIsScheduled(s: Sys, i: nat)
    requires Coherent(s) && i < |s.procs|
    ensures var pid := s.procs[i].id;
      && pid != INVALID_PID && s.procs[i].state != Created
      && (Live(s.procs[i]) ==> s.ready.current == Some(pid) || pid in s.ready.queue)
  {
    ProcFacts(s);
    LiveAt(s.procs, i);
  }

  lemma OrphanedFrom(a: seq<Proc>, b: seq<Proc>, c: seq<Proc>, pid: nat)
    requires |a| == |b| && (forall k :: 0 <= k < |a| ==> a[k].parent == b[k].parent) && Orphaned(b, c, pid)
    ensures Orphaned(a, c, pid)
  {
  }

  /** The supervisor's handling of an event: the end of a process is recorded in its entry, with
      its code, and nothing else changes. */
  lemma DrainDoes(s: Sys, host: nat, status: WaitStatus)
    requires Bookkeeping(s)
    ensures var i := FindHost(s.procs, host); var s' := DrainSpec(s, host, status);
      if host == INVALID_HOST_PID || i == |s.procs| || !Deadly(status) then s' == s
      else
        && |s'.procs| == |s.procs| && s' == s.(procs := s.procs[i := s'.procs[i]])
        && Reported(s.procs[i], s'.procs[i], status) && s'.procs[i].parent == s.procs[i].parent
  {
    ProcFacts(s);
    hide Bookkeeping;
  }

  lemma DrainReports(s: Sys, host: nat, status: WaitStatus)
    requires Bookkeeping(s) && host != INVALID_HOST_PID && FindHost(s.procs, host) < |s.procs| && Deadly(status)
    ensures var i := FindHost(s.procs, host); var procs := DrainSpec(s, host, status).procs;
      i < |procs| && Reported(s.procs[i], procs[i], status)
  {
    hide Bookkeeping, DrainSpec, Reported;
    DrainDoes(s, host, status);
  }

  // ---- dispatching and yielding ----

  /** A dispatch makes the head of the queue current and RUNNING, unless it is RUNNING or BLOCKED
      already: then it goes to the back. */
  lemma DispatchDoes(s: Sys)
    requires Coherent(s)
    ensures var (s', ok) := DispatchSysSpec(s);
      if s.ready.current.Some? || s.ready.queue == [] then s' == s && !ok
      else
        var head := s.ready.queue[0]; var i := FindPid(s.procs, head);
        && i < |s.procs| && Live(s.procs[i])
        && ok == (s.procs[i].state !in {Running, Blocked})
        && s' == if ok
                 then s.(procs := s.procs[i := s.procs[i].(state := Running)],
                         ready := ReadyState(s.ready.queue[1..], Some(head)))
                 else s.(ready := ReadyState(s.ready.queue[1..] + [head], None))
  {
    if s.ready.current.None? && s.ready.queue != [] {
      HeadIsMember(s.ready.queue);
      ScheduledIsLive(s, s.ready.queue[0]);
      hide Coherent;
    }
  }

  lemma ScheduledIsLive(s: Sys, pid: nat)
    requires Coherent(s) && (pid in s.ready.queue || s.ready.current == Some(pid))
    ensures var i := FindPid(s.procs, pid); i < |s.procs| && Live(s.procs[i]) && s.procs[i].state != Created
  {
    assert LivePid(s.procs, pid);
    var i :| 0 <= i < |s.procs| && s.procs[i].id == pid && Live(s.procs[i]);
    FindPidUnique(s.procs, i);
  }

  /** A yield succeeds exactly when somebody is current and RUNNING or BLOCKED; the queue always
      has room. The process is READY at the back afterwards. */
  lemma YieldDoes(s: Sys)
    requires Coherent(s)
    ensures var (s', ok) := YieldSysSpec(s);
      if s.ready.current.None? then s' == s && !ok
      else
        var pid := s.ready.current.value; var i := FindPid(s.procs, pid);
        && i < |s.procs| && Live(s.procs[i])
        && ok == (s.procs[i].state in {Running, Blocked})
        && s' == if ok
                 then s.(procs := s.procs[i := s.procs[i].(state := Ready)],
                         ready := ReadyState(s.ready.queue + [pid], None))
                 else s
  {
    if s.ready.current.Some? {
      ScheduledIsLive(s, s.ready.current.value);
      SchedulerHasRoom(s);
      assert |s.procs| <= PROCESS_MANAGER_INITIAL_CAPACITY;
      hide Coherent;
    }
  }

  // ---- reaping ----

  /** Reaping a terminated process takes its pid out of its group, or the group out of the table
      if it was the last member; all other groups stay as they are, and everything else. */
  lemma ReapDoes(s: Sys, i: nat)
    requires Bookkeeping(s) && i < |s.procs| && !Live(s.procs[i])
    ensures var (s', ok) := ReapFoundSpec(s, i); var pid := s.procs[i].id;
      var g := FindGroup(s.groups, s.procs[i].group);
      && ok && g < |s.groups| && pid in s.groups[g].members
      && s' == s.(
        procs := SwapRemove(s.procs, i),
        groups := if s.groups[g].members == [pid] then SwapRemove(s.groups, g)
                  else s.groups[g := s.groups[g].(
                    members := SwapRemove(s.groups[g].members, IndexOf(s.groups[g].members, pid)))])
  {
    hide Bookkeeping;
    HasGroup(s, i);
    ReapFoundKeeps(s, i);
    PidFound(s, i);
    LastOut(s.groups, FindGroup(s.groups, s.procs[i].group), s.procs[i].id);
    hide FindGroup, FindPid, IndexOf, SwapRemove;
  }

  lemma PidFound(s: Sys, i: nat)
    requires Bookkeeping(s) && i < |s.procs|
    ensures FindPid(s.procs, s.procs[i].id) == i
  {
    FindPidUnique(s.procs, i);
  }

  lemma HasGroup(s: Sys, i: nat)
    requires Bookkeeping(s) && i < |s.procs|
    ensures var g := FindGroup(s.groups, s.procs[i].group);
      g < |s.groups| && s.procs[i].id in s.groups[g].members
  {
    var g := FindGroup(s.groups, s.procs[i].group);
    assert s.procs[i].group in Gids(s.groups);
    assert Enrolled(s.procs, s.procs[i].id, s.groups[g].id);
  }

  lemma LastOut(groups: seq<Group>, g: nat, pid: nat)
    requires g < |groups| && pid in groups[g].members
    ensures var m := IndexOf(groups[g].members, pid); var members := SwapRemove(groups[g].members, m);
      && (members == [] <==> groups[g].members == [pid])
      && SwapRemove(groups[g := groups[g].(members := members)], g) == SwapRemove(groups, g)
  {
  }

  /** `embla_reap_child` succeeds exactly when the parent has a terminated child, and then
      answers the id of the first one and deletes exactly its entry. */
  lemma ReapChildExactly(s: Sys, parent: nat)
    requires Bookkeeping(s)
    ensures var (s', r) := ReapChildSpec(s, parent);
      && (r.Some? <==> parent != INVALID_PID && HasZombie(s.procs, parent))
      && (r.None? ==> s' == s)
      && forall i: nat :: r.Some? && FirstZombie(s.procs, i, parent) ==>
           r.value == s.procs[i].id && s'.procs == SwapRemove(s.procs, i)
  {
    hide Bookkeeping, ReapFoundSpec, FindZombie;
    var i := FindZombie(s.procs, parent);
    ZombieFound(s.procs, parent);
    if parent != INVALID_PID && i < |s.procs| { ReapFoundKeeps(s, i); }
    hide FirstZombie;
  }

  lemma ZombieFound(procs: seq<Proc>, parent: nat)
    ensures var i := FindZombie(procs, parent);
      && (i < |procs| <==> FirstZombie(procs, i, parent))
      && forall k: nat :: FirstZombie(procs, k, parent) ==> k == i
  {
    hide FindZombie;
    assert forall k: nat :: FirstZombie(procs, k, parent) ==> IsZombieOf(procs[k], parent);
  }

  ghost predicate HasZombie(procs: seq<Proc>, parent: nat) {
    exists i: nat :: FirstZombie(procs, i, parent)
  }

  predicate FirstZombie(procs: seq<Proc>, i: nat, parent: nat) {
    && i < |procs| && procs[i].parent == parent && procs[i].state == Terminated
    && forall k :: 0 <= k < i ==> !(procs[k].parent == parent && procs[k].state == Terminated)
  }

  /** `embla_reap_process` succeeds exactly for a terminated process of the table, and then
      deletes exactly its entry. */
  lemma ReapProcessExactly(s: Sys, pid: nat)
    requires Bookkeeping(s)
    ensures var (s', ok) := ReapProcessSpec(s, pid); var i := FindPid(s.procs, pid);
      && ok == (i < |s.procs| && s.procs[i].state == Terminated)
      && (if ok then s'.procs == SwapRemove(s.procs, i) else s' == s)
  {
    var i := FindPid(s.procs, pid);
    if i < |s.procs| && s.procs[i].state == Terminated { ReapFoundKeeps(s, i); }
    hide Bookkeeping, ReapFoundSpec;
  }

  /** Reaping the root's children never fails, and leaves exactly the processes that are not
      terminated children of the root. */
  lemma {:induction false} ReapRootExactly(s: Sys)
    requires Bookkeeping(s)
    ensures var (s', ok) := ReapRootSpec(s);
      && ok && Bookkeeping(s') && s' == s.(procs := s'.procs, groups := s'.groups)
      && forall p :: p in s'.procs <==> p in s.procs && !(p.parent == ROOT_PID && p.state == Terminated)
    decreases |s.procs|
  {
    hide Bookkeeping, ReapFoundSpec;
    var i := FindZombie(s.procs, ROOT_PID);
    if i < |s.procs| {
      ReapFoundKeeps(s, i);
      var s1 := ReapFoundSpec(s, i).0;
      ReapRootExactly(s1);
      OneEntryGone(s, i);
    } else {
      assert forall p :: p in s.procs ==> !IsZombieOf(p, ROOT_PID);
    }
  }

  lemma OneEntryGone(s: Sys, i: nat)
    requires Bookkeeping(s) && i < |s.procs|
    ensures forall p :: p in SwapRemove(s.procs, i) <==> p in s.procs && p != s.procs[i]
  {
    forall j, k | 0 <= j < k < |s.procs| ensures s.procs[j] != s.procs[k] {
      assert Pids(s.procs)[j] != Pids(s.procs)[k];
    }
    hide Bookkeeping;
    SwapRemoveContents(s.procs, i);
  }
}
