/** The whole-runtime invariant, and that every operation keeps it. */
module RuntimeInvariants {
  import opened Sequences
  import opened Processes
  import opened ProcessTables
  import opened ProcessManagers
  import opened ProcessGroups
  import opened Schedulers
  import opened RuntimeSpec

  /** Is there an entry with this pid in this group? */
  ghost predicate Enrolled(procs: seq<Proc>, pid: nat, gid: nat) {
    exists i :: 0 <= i < |procs| && procs[i].id == pid && procs[i].group == gid
  }

  /** Is there a live entry with this pid? */
  ghost predicate LivePid(procs: seq<Proc>, pid: nat) {
    exists i :: 0 <= i < |procs| && procs[i].id == pid && Live(procs[i])
  }

  /** The process table by itself. */
  ghost predicate ProcsOk(procs: seq<Proc>, nextPid: nat) {
    && |procs| <= PROCESS_MANAGER_INITIAL_CAPACITY
    && 0 < nextPid <= INVALID_PID
    && NoDup(Pids(procs))
    && (forall i :: 0 <= i < |procs| ==>
          0 < procs[i].id < nextPid && procs[i].state != Created && procs[i].host != INVALID_HOST_PID)
  }

  /** The group table by itself: no group is empty and every group has its host group,
      except possibly the one at position `justCreated`, just created by a spawn under way. */
  ghost predicate GroupsOkBut(groups: seq<Group>, nextGid: nat, justCreated: nat) {
    && |groups| <= PROCESS_GROUP_MANAGER_INITIAL_CAPACITY
    && 0 < nextGid <= INVALID_PGID
    && NoDup(Gids(groups))
    && (forall g :: 0 <= g < |groups| ==>
          && 0 < groups[g].id < nextGid
          && NoDup(groups[g].members)
          && (g != justCreated ==> groups[g].host != INVALID_HOST_PGID && groups[g].members != []))
  }

  ghost predicate GroupsOk(groups: seq<Group>, nextGid: nat) {
    GroupsOkBut(groups, nextGid, |groups|)
  }

  /** Membership: pid in group g exactly when the table has that pid with that group id. */
  ghost predicate MembersAgree(procs: seq<Proc>, groups: seq<Group>) {
    && (forall g, pid :: 0 <= g < |groups| ==>
          (pid in groups[g].members <==> Enrolled(procs, pid, groups[g].id)))
    && (forall i :: 0 <= i < |procs| ==> procs[i].group in Gids(groups))
  }

  ghost predicate Bookkeeping(s: Sys) {
    ProcsOk(s.procs, s.nextPid) && GroupsOk(s.groups, s.nextGid) && MembersAgree(s.procs, s.groups)
  }

  /** The live processes, and only they, are in the scheduler, each exactly once. */
  ghost predicate SchedulerAgrees(s: Sys) {
    && NoDup(s.ready.queue)
    && (s.ready.current.Some? ==> s.ready.current.value !in s.ready.queue)
    && forall pid :: pid in s.ready.queue || s.ready.current == Some(pid) <==> LivePid(s.procs, pid)
  }

  /** The four tables agree. Nothing is said of parents: `embla_spawn_child` takes any. */
  ghost predicate Coherent(s: Sys) {
    Bookkeeping(s) && SchedulerAgrees(s)
  }

  ghost predicate HasParent(procs: seq<Proc>, i: nat)
    requires i < |procs|
  {
    procs[i].parent == ROOT_PID || LivePid(procs, procs[i].parent)
  }

  /** Every parent is the root or a live process. */
  ghost predicate ParentsLive(procs: seq<Proc>) {
    forall i :: 0 <= i < |procs| ==> HasParent(procs, i)
  }

  /** Ancestry is well founded. */
  ghost predicate ParentsOlder(procs: seq<Proc>) {
    forall i :: 0 <= i < |procs| ==> procs[i].parent < procs[i].id
  }

  ghost predicate ParentsOk(procs: seq<Proc>) {
    ParentsOlder(procs) && ParentsLive(procs)
  }

  ghost predicate Invariant(s: Sys) {
    Coherent(s) && ParentsOk(s.procs)
  }

  /** A change to the table that leaves nobody without a parent and finds nobody a new one. */
  ghost predicate KinshipKept(before: seq<Proc>, after: seq<Proc>) {
    (ParentsLive(after) <==> ParentsLive(before)) && (ParentsOlder(before) ==> ParentsOlder(after))
  }

  lemma EmptySatisfies()
    ensures Invariant(EMPTY_SYS)
  {
  }

  // ---- how edits of the process table show in Enrolled and LivePid ----

  /** Two tables that differ only in parent, state and exit data. */
  ghost predicate SameIdentity(a: seq<Proc>, b: seq<Proc>) {
    |a| == |b| && forall i :: 0 <= i < |a| ==>
      a[i].id == b[i].id && a[i].group == b[i].group && a[i].host == b[i].host
  }

  lemma SameIdentityKeepsBookkeeping(s: Sys, procs: seq<Proc>)
    requires Bookkeeping(s) && SameIdentity(s.procs, procs)
    requires forall i :: 0 <= i < |procs| ==> procs[i].state != Created
    ensures Bookkeeping(s.(procs := procs))
  {
    assert Pids(procs) == Pids(s.procs);
    forall pid, gid ensures Enrolled(procs, pid, gid) <==> Enrolled(s.procs, pid, gid) {
      if Enrolled(procs, pid, gid) {
        var i :| 0 <= i < |procs| && procs[i].id == pid && procs[i].group == gid;
        assert s.procs[i].id == pid;
      }
      if Enrolled(s.procs, pid, gid) {
        var i :| 0 <= i < |procs| && s.procs[i].id == pid && s.procs[i].group == gid;
        assert procs[i].id == pid;
      }
    }
  }

  lemma FindPidUnique(procs: seq<Proc>, i: nat)
    requires NoDup(Pids(procs)) && i < |procs|
    ensures FindPid(procs, procs[i].id) == i
  {
    IndexOfUnique(Pids(procs), procs[i].id, i);
  }

  lemma FindGroupUnique(groups: seq<Group>, g: nat)
    requires NoDup(Gids(groups)) && g < |groups|
    ensures FindGroup(groups, groups[g].id) == g
  {
    IndexOfUnique(Gids(groups), groups[g].id, g);
  }

  /** With unique pids, liveness of a pid is the state of its one entry. */
  lemma LiveAt(procs: seq<Proc>, i: nat)
    requires NoDup(Pids(procs)) && i < |procs|
    ensures LivePid(procs, procs[i].id) <==> Live(procs[i])
  {
    if LivePid(procs, procs[i].id) {
      var k :| 0 <= k < |procs| && procs[k].id == procs[i].id && Live(procs[k]);
      assert Pids(procs)[k] == Pids(procs)[i];
    }
  }

  lemma LiveAppend(procs: seq<Proc>, p: Proc, pid: nat)
    requires Live(p)
    ensures LivePid(procs + [p], pid) <==> LivePid(procs, pid) || pid == p.id
  {
    var all := procs + [p];
    assert all[|procs|] == p;
    if LivePid(procs, pid) {
      var k :| 0 <= k < |procs| && procs[k].id == pid && Live(procs[k]);
      assert all[k] == procs[k];
    }
  }

  lemma EnrolledAppend(procs: seq<Proc>, p: Proc, pid: nat, gid: nat)
    ensures Enrolled(procs + [p], pid, gid) <==> Enrolled(procs, pid, gid) || (pid == p.id && gid == p.group)
  {
    var all := procs + [p];
    assert all[|procs|] == p;
    if Enrolled(procs, pid, gid) {
      var k :| 0 <= k < |procs| && procs[k].id == pid && procs[k].group == gid;
      assert all[k] == procs[k];
    }
  }

  lemma EnrolledSwapRemove(procs: seq<Proc>, i: nat, pid: nat, gid: nat)
    requires NoDup(Pids(procs)) && i < |procs|
    ensures Enrolled(SwapRemove(procs, i), pid, gid) <==> Enrolled(procs, pid, gid) && pid != procs[i].id
  {
    var r := SwapRemove(procs, i);
    assert Pids(procs)[i] == procs[i].id;
    if Enrolled(procs, pid, gid) && pid != procs[i].id {
      var k :| 0 <= k < |procs| && procs[k].id == pid && procs[k].group == gid;
      if k == |procs| - 1 { assert r[i] == procs[k]; } else { assert r[k] == procs[k]; }
    }
    if Enrolled(r, pid, gid) {
      var k :| 0 <= k < |r| && r[k].id == pid && r[k].group == gid;
      var k' := if k == i then |procs| - 1 else k;
      assert r[k] == procs[k'] && Pids(procs)[k'] != Pids(procs)[i];
    }
  }

  lemma LiveSwapRemove(procs: seq<Proc>, i: nat, pid: nat)
    requires i < |procs| && !Live(procs[i])
    ensures LivePid(SwapRemove(procs, i), pid) <==> LivePid(procs, pid)
  {
    var r := SwapRemove(procs, i);
    if LivePid(procs, pid) {
      var k :| 0 <= k < |procs| && procs[k].id == pid && Live(procs[k]);
      if k == |procs| - 1 { assert r[i] == procs[k]; } else { assert r[k] == procs[k]; }
    }
    if LivePid(r, pid) {
      var k :| 0 <= k < |r| && r[k].id == pid && Live(r[k]);
      assert r[k] == procs[if k == i then |procs| - 1 else k];
    }
  }

  // ---- spawning ----

  /** A member pid belongs to the table, so it is older than the next pid. */
  lemma MemberIsOld(s: Sys, g: nat, pid: nat)
    requires ProcsOk(s.procs, s.nextPid) && MembersAgree(s.procs, s.groups)
    requires g < |s.groups| && pid in s.groups[g].members
    ensures pid < s.nextPid
  {
    assert Enrolled(s.procs, pid, s.groups[g].id);
  }

  /** No group holds more members than the table has processes. */
  lemma MembersFit(s: Sys, g: nat)
    requires ProcsOk(s.procs, s.nextPid) && MembersAgree(s.procs, s.groups)
    requires g < |s.groups| && NoDup(s.groups[g].members)
    ensures |s.groups[g].members| <= |s.procs|
  {
    var pids := Elements(Pids(s.procs));
    ElementsSize(Pids(s.procs));
    forall x | x in s.groups[g].members ensures x in pids {
      assert Enrolled(s.procs, x, s.groups[g].id);
      var i :| 0 <= i < |s.procs| && s.procs[i].id == x;
      assert Pids(s.procs)[i] == x;
    }
    NoDupBound(s.groups[g].members, pids);
  }

  lemma AddProcessKeepsBookkeeping(s: Sys, g: nat, p: Proc, host: nat)
    requires ProcsOk(s.procs, s.nextPid) && GroupsOkBut(s.groups, s.nextGid, g) && MembersAgree(s.procs, s.groups)
    requires g < |s.groups| && |s.procs| < PROCESS_MANAGER_INITIAL_CAPACITY && s.nextPid < INVALID_PID
    requires p.id == s.nextPid && p.group == s.groups[g].id && p.state == Ready
    requires p.host != INVALID_HOST_PID && host != INVALID_HOST_PGID
    ensures var group := s.groups[g].(host := host, members := s.groups[g].members + [p.id]);
            Bookkeeping(s.(procs := s.procs + [p], groups := s.groups[g := group], nextPid := s.nextPid + 1))
  {
    var group := s.groups[g].(host := host, members := s.groups[g].members + [p.id]);
    var procs := s.procs + [p];
    var groups := s.groups[g := group];
    assert Pids(procs) == Pids(s.procs) + [p.id];
    assert Gids(groups) == Gids(s.groups);
    forall pid | pid in s.groups[g].members ensures pid < s.nextPid { MemberIsOld(s, g, pid); }
    NoDupAppend(s.groups[g].members, p.id);
    assert forall k :: 0 <= k < |groups| ==> groups[k] == if k == g then group else s.groups[k];
    forall k, pid | 0 <= k < |groups|
      ensures pid in groups[k].members <==> Enrolled(procs, pid, groups[k].id)
    {
      EnrolledAppend(s.procs, p, pid, groups[k].id);
      if k != g { assert Gids(s.groups)[k] != Gids(s.groups)[g]; }
    }
    assert forall i :: 0 <= i < |procs| ==> procs[i] == if i < |s.procs| then s.procs[i] else p;
  }

  lemma AddProcessKeepsScheduler(s: Sys, p: Proc)
    requires ProcsOk(s.procs, s.nextPid) && SchedulerAgrees(s)
    requires p.id == s.nextPid && Live(p)
    ensures SchedulerAgrees(s.(procs := s.procs + [p], ready := s.ready.(queue := s.ready.queue + [p.id])))
  {
    forall pid ensures LivePid(s.procs + [p], pid) <==> LivePid(s.procs, pid) || pid == p.id {
      LiveAppend(s.procs, p, pid);
    }
    assert !LivePid(s.procs, p.id);
  }

  lemma AddProcessKeepsParents(s: Sys, p: Proc)
    requires ProcsOk(s.procs, s.nextPid) && ParentsOk(s.procs)
    requires p.id == s.nextPid && Live(p)
    requires p.parent == ROOT_PID || LivePid(s.procs, p.parent)
    ensures ParentsOk(s.procs + [p])
  {
    var procs := s.procs + [p];
    forall i | 0 <= i < |procs|
      ensures procs[i].parent < procs[i].id && HasParent(procs, i)
    {
      LiveAppend(s.procs, p, procs[i].parent);
      assert i < |s.procs| ==> procs[i] == s.procs[i] && HasParent(s.procs, i);
    }
  }

  /** When does a spawn into group `gid` succeed? The capacity of the membership array, the
      READY transition and, when the scheduler agrees, the ready queue never refuse. */
  ghost predicate CanSpawnInto(s: Sys, gid: nat, fork: Option<nat>) {
    var g := FindGroup(s.groups, gid);
    && g < |s.groups|
    && !(s.groups[g].cap.Some? && |s.groups[g].members| >= s.groups[g].cap.value)
    && |s.procs| < PROCESS_MANAGER_INITIAL_CAPACITY
    && s.nextPid < INVALID_PID
    && fork.Some?
  }

  ghost predicate QueueHasRoom(s: Sys) {
    |s.ready.queue| < SCHEDULER_INITIAL_CAPACITY
  }

  /** While a table slot is free, the ready queue of an agreeing runtime has room. */
  lemma SchedulerHasRoom(s: Sys)
    requires ProcsOk(s.procs, s.nextPid) && SchedulerAgrees(s)
    ensures |s.ready.queue| <= |s.procs|
    ensures s.ready.current.Some? ==> |s.ready.queue| < |s.procs|
  {
    var pids := Elements(Pids(s.procs));
    ElementsSize(Pids(s.procs));
    var all := s.ready.queue + (if s.ready.current.Some? then [s.ready.current.value] else []);
    forall x | x in all ensures x in pids {
      assert LivePid(s.procs, x);
      var i :| 0 <= i < |s.procs| && s.procs[i].id == x;
      assert Pids(s.procs)[i] == x;
    }
    NoDupBound(all, pids);
  }

  /** What is the same before and after a refused spawn: everything but the id counters. */
  ghost predicate OnlyCountersDiffer(s: Sys, s': Sys) {
    && s' == s.(nextPid := s'.nextPid, nextGid := s'.nextGid)
    && s.nextPid <= s'.nextPid <= s.nextPid + 1
    && s.nextGid <= s'.nextGid <= s.nextGid + 1
  }

  lemma SpawnIntoKeeps(s: Sys, parent: nat, gid: nat, fork: Option<nat>, justCreated: nat)
    requires ProcsOk(s.procs, s.nextPid) && MembersAgree(s.procs, s.groups)
    requires GroupsOkBut(s.groups, s.nextGid, justCreated)
    requires justCreated < |s.groups| ==> s.groups[justCreated].id == gid
    requires fork.Some? ==> fork.value != INVALID_HOST_PID
    ensures var (s', r) := SpawnInternalSpec(s, parent, gid, fork);
            && r.Some? == (CanSpawnInto(s, gid, fork) && QueueHasRoom(s))
            && (r.Some? ==>
                  && r.value == s.nextPid
                  && Bookkeeping(s')
                  && (SchedulerAgrees(s) ==> SchedulerAgrees(s'))
                  && (ParentsOk(s.procs) && (parent == ROOT_PID || LivePid(s.procs, parent)) ==> ParentsOk(s'.procs)))
  {
    var g := FindGroup(s.groups, gid);
    var (s', r) := SpawnInternalSpec(s, parent, gid, fork);
    if g < |s.groups| {
      MembersFit(s, g);
      if justCreated < |s.groups| { FindGroupUnique(s.groups, justCreated); }
      if r.Some? {
        var group := s.groups[g];
        var host := if group.host == INVALID_HOST_PGID then fork.value else group.host;
        var p := Proc(s.nextPid, parent, gid, fork.value, Ready, -1, -1);
        AddProcessKeepsBookkeeping(s, g, p, host);
        if SchedulerAgrees(s) { AddProcessKeepsScheduler(s, p); }
        if ParentsOk(s.procs) && (parent == ROOT_PID || LivePid(s.procs, parent)) { AddProcessKeepsParents(s, p); }
      }
    }
  }

  /** `embla_spawn`: success exactly when the tables have room and the host forks; a refusal
      leaves everything but the id counters as it was, in the same order. */
  lemma SpawnKeeps(s: Sys, fork: Option<nat>)
    requires Bookkeeping(s)
    requires fork.Some? ==> fork.value != INVALID_HOST_PID
    ensures var (s', r) := SpawnSpec(s, fork);
            && (r.Some? <==>
                  && |s.groups| < PROCESS_GROUP_MANAGER_INITIAL_CAPACITY && s.nextGid < INVALID_PGID
                  && |s.procs| < PROCESS_MANAGER_INITIAL_CAPACITY && s.nextPid < INVALID_PID
                  && fork.Some? && QueueHasRoom(s))
            && (r.None? ==> OnlyCountersDiffer(s, s'))
            && Bookkeeping(s')
            && (SchedulerAgrees(s) ==> SchedulerAgrees(s'))
            && (ParentsOk(s.procs) ==> ParentsOk(s'.procs))
  {
    if |s.groups| < PROCESS_GROUP_MANAGER_INITIAL_CAPACITY && s.nextGid != INVALID_PGID {
      var g := |s.groups|;
      var s1 := WithEmptyGroup(s);
      EmptyGroupAdded(s);
      SpawnIntoKeeps(s1, ROOT_PID, s.nextGid, fork, g);
      FindGroupUnique(s1.groups, g);
      if SpawnSpec(s, fork).1.None? { RefusedSpawnRestores(s, fork); }
    }
  }

  function WithEmptyGroup(s: Sys): Sys {
    s.(groups := s.groups + [Group(s.nextGid, INVALID_HOST_PGID, [], None)], nextGid := s.nextGid + 1)
  }

  /** The clean-up of a refused spawn finds its own, still empty, group and deletes it. */
  lemma RefusedSpawnRestores(s: Sys, fork: Option<nat>)
    requires NoDup(Gids(WithEmptyGroup(s).groups))
    requires |s.groups| < PROCESS_GROUP_MANAGER_INITIAL_CAPACITY && s.nextGid != INVALID_PGID
    requires SpawnSpec(s, fork).1.None?
    ensures OnlyCountersDiffer(s, SpawnSpec(s, fork).0)
  {
    var g := |s.groups|;
    var s1 := WithEmptyGroup(s);
    FindGroupUnique(s1.groups, g);
    var s2 := SpawnInternalSpec(s1, ROOT_PID, s.nextGid, fork).0;
    assert Gids(s2.groups) == Gids(s1.groups);
    FindGroupUnique(s2.groups, g);
    assert SwapRemove(s2.groups, g) == s.groups;
  }

  lemma EmptyGroupAdded(s: Sys)
    requires Bookkeeping(s)
    requires |s.groups| < PROCESS_GROUP_MANAGER_INITIAL_CAPACITY && s.nextGid < INVALID_PGID
    ensures GroupsOkBut(WithEmptyGroup(s).groups, s.nextGid + 1, |s.groups|)
    ensures MembersAgree(s.procs, WithEmptyGroup(s).groups)
  {
    var gid := s.nextGid;
    var groups := WithEmptyGroup(s).groups;
    assert Gids(groups) == Gids(s.groups) + [gid];
    assert forall k :: 0 <= k < |s.groups| ==> groups[k] == s.groups[k];
    assert forall k :: 0 <= k < |s.groups| ==> Gids(s.groups)[k] < gid;
    assert forall pid :: !Enrolled(s.procs, pid, gid);
  }

  /** `embla_spawn_child`: likewise, into the parent's group and under its member cap. */
  lemma SpawnChildKeeps(s: Sys, parent: nat, parentGroup: nat, fork: Option<nat>)
    requires Bookkeeping(s)
    requires fork.Some? ==> fork.value != INVALID_HOST_PID
    ensures var (s', r) := SpawnChildSpec(s, parent, parentGroup, fork);
            && (r.Some? <==> CanSpawnInto(s, parentGroup, fork) && QueueHasRoom(s))
            && (r.None? ==> OnlyCountersDiffer(s, s'))
            && Bookkeeping(s')
            && (SchedulerAgrees(s) ==> SchedulerAgrees(s'))
            && (ParentsOk(s.procs) && LivePid(s.procs, parent) ==> ParentsOk(s'.procs))
  {
    if FindGroup(s.groups, INVALID_PGID) < |s.groups| { assert false; }
    if parentGroup != INVALID_PGID {
      SpawnIntoKeeps(s, parent, parentGroup, fork, |s.groups|);
    }
  }

  /** On the run path the ready queue never refuses: whenever the table has a slot, so has it. */
  lemma QueueNeverRefuses(s: Sys)
    requires Coherent(s) && |s.procs| < PROCESS_MANAGER_INITIAL_CAPACITY
    ensures QueueHasRoom(s)
  {
    SchedulerHasRoom(s);
  }

  // ---- child events ----

  /** Exactly when an event is handled: the process is unknown, or its state allows the change. */
  predicate EventAccepted(s: Sys, host: nat, status: WaitStatus) {
    var i := FindHost(s.procs, host);
    host == INVALID_HOST_PID || i == |s.procs| ||
    match status
    case Exited(_) => Live(s.procs[i])
    case Signaled(_) => Live(s.procs[i])
    case StoppedBy => CanTransition(s.procs[i].state, Stopped)
    case ContinuedBy => CanTransition(s.procs[i].state, Running)
    case OtherStatus => true
  }

  /** A rewrite of one entry that keeps its identity, its parent and whether it is live. */
  lemma EditKeeps(s: Sys, i: nat, p: Proc)
    requires Coherent(s) && i < |s.procs|
    requires p == s.procs[i].(state := p.state, exitCode := p.exitCode, termSignal := p.termSignal)
    requires p.state != Created && Live(p) == Live(s.procs[i])
    ensures Coherent(s.(procs := s.procs[i := p])) && KinshipKept(s.procs, s.procs[i := p])
  {
    var procs := s.procs[i := p];
    assert forall k :: 0 <= k < |procs| ==> procs[k].id == s.procs[k].id && procs[k].parent == s.procs[k].parent;
    SameIdentityKeepsBookkeeping(s, procs);
    forall pid ensures LivePid(procs, pid) <==> LivePid(s.procs, pid) {
      if LivePid(procs, pid) {
        var k :| 0 <= k < |procs| && procs[k].id == pid && Live(procs[k]);
        assert s.procs[k].id == pid && Live(s.procs[k]);
      }
      if LivePid(s.procs, pid) {
        var k :| 0 <= k < |procs| && s.procs[k].id == pid && Live(s.procs[k]);
        assert procs[k].id == pid && Live(procs[k]);
      }
    }
    assert forall k :: 0 <= k < |procs| ==> (HasParent(procs, k) <==> HasParent(s.procs, k));
  }

  /** Termination: the orphans go to the root, the process leaves the scheduler, and the
      removal from the scheduler succeeds. */
  lemma TerminationKeeps(s: Sys, i: nat)
    requires Coherent(s) && i < |s.procs|
    ensures var (s', ok) := TerminatedSpec(s, i);
            ok == Live(s.procs[i]) && Coherent(s') && KinshipKept(s.procs, s'.procs) && s'.mode == s.mode
  {
    hide ProcsOk, GroupsOk, MembersAgree, SchedulerAgrees, RemoveSpec, ParentsLive, ParentsOlder;
    ProcFacts(s);
    var pid := s.procs[i].id;
    if Live(s.procs[i]) {
      LiveAt(s.procs, i);
      var s1 := TransitionSpec(s, i, Terminated).0;
      var procs := Reparent(s1.procs, pid, ROOT_PID);
      SameIdentityKeepsBookkeeping(s, procs);
      forall x ensures LivePid(procs, x) <==> LivePid(s.procs, x) && x != pid {
        LiveAfterTermination(s.procs, procs, i, x);
      }
      UnscheduleKeeps(s, procs, pid);
      OrphansKeepKinship(s.procs, procs, pid);
    }
  }

  lemma ProcFacts(s: Sys)
    requires Bookkeeping(s)
    ensures NoDup(Pids(s.procs))
    ensures forall i :: 0 <= i < |s.procs| ==> 0 < s.procs[i].id < INVALID_PID && s.procs[i].state != Created
  {
  }

  /** The scheduler lets go of a live process, and agrees with a table where just that one is not live. */
  lemma UnscheduleKeeps(s: Sys, procs: seq<Proc>, pid: nat)
    requires SchedulerAgrees(s) && LivePid(s.procs, pid)
    requires forall x :: LivePid(procs, x) <==> LivePid(s.procs, x) && x != pid
    ensures var (ready, removed) := RemoveSpec(s.ready, pid);
      removed && SchedulerAgrees(s.(procs := procs, ready := ready))
  {
    hide LivePid;
    var q := s.ready.queue;
    if s.ready.current != Some(pid) {
      RemoveAtContents(q, IndexOf(q, pid));
    }
  }

  /** The children of a live process go to the root as it ends: nobody else's parent goes or comes. */
  lemma OrphansKeepKinship(a: seq<Proc>, b: seq<Proc>, pid: nat)
    requires |a| == |b| && LivePid(a, pid)
    requires forall i :: 0 <= i < |a| ==>
      b[i].id == a[i].id && 0 < a[i].id && b[i].parent == if a[i].parent == pid then ROOT_PID else a[i].parent
    requires forall x :: LivePid(b, x) <==> LivePid(a, x) && x != pid
    ensures KinshipKept(a, b)
  {
    assert forall i :: 0 <= i < |a| ==> (HasParent(b, i) <==> HasParent(a, i));
  }

  lemma LiveAfterTermination(a: seq<Proc>, b: seq<Proc>, i: nat, x: nat)
    requires SameIdentity(a, b) && NoDup(Pids(a)) && i < |a|
    requires forall k :: 0 <= k < |a| ==> b[k].state == if k == i then Terminated else a[k].state
    ensures LivePid(b, x) <==> LivePid(a, x) && x != a[i].id
  {
    assert Pids(a)[i] == a[i].id;
    if LivePid(b, x) {
      var k :| 0 <= k < |b| && b[k].id == x && Live(b[k]);
      assert a[k].id == x && Live(a[k]) && Pids(a)[k] != Pids(a)[i];
    }
    if LivePid(a, x) && x != a[i].id {
      var k :| 0 <= k < |a| && a[k].id == x && Live(a[k]);
      assert b[k].id == x && Live(b[k]);
    }
  }

  lemma EventKeeps(s: Sys, host: nat, status: WaitStatus)
    requires Coherent(s)
    ensures var (s', ok) := EventSpec(s, host, status);
      && ok == EventAccepted(s, host, status) && s'.mode == s.mode
      && Coherent(s') && KinshipKept(s.procs, s'.procs)
  {
    var i := FindHost(s.procs, host);
    if host != INVALID_HOST_PID && i < |s.procs| {
      match status
      case Exited(code) =>
        var p := s.procs[i].(exitCode := code);
        EditKeeps(s, i, p);
        TerminationKeeps(s.(procs := s.procs[i := p]), i);
      case Signaled(signal) =>
        var p := s.procs[i].(termSignal := signal);
        EditKeeps(s, i, p);
        TerminationKeeps(s.(procs := s.procs[i := p]), i);
      case StoppedBy =>
        if CanTransition(s.procs[i].state, Stopped) { EditKeeps(s, i, s.procs[i].(state := Stopped)); }
      case ContinuedBy =>
        if CanTransition(s.procs[i].state, Running) { EditKeeps(s, i, s.procs[i].(state := Running)); }
      case OtherStatus =>
    }
  }

  // ---- dispatching and yielding ----

  /** Only who is in the scheduler matters to the agreement, not in which order. */
  lemma RearrangeKeeps(s: Sys, ready: ReadyState<nat>)
    requires Coherent(s) && NoDup(ready.queue)
    requires ready.current.Some? ==> ready.current.value !in ready.queue
    requires forall x :: (x in ready.queue || ready.current == Some(x)) <==>
                         (x in s.ready.queue || s.ready.current == Some(x))
    ensures Coherent(s.(ready := ready))
  {
  }

  lemma DispatchKeeps(s: Sys)
    requires Coherent(s)
    ensures var s' := DispatchSysSpec(s).0;
      Coherent(s') && KinshipKept(s.procs, s'.procs) && s'.mode == s.mode
  {
    if s.ready.queue != [] && s.ready.current.None? {
      var head, rest := s.ready.queue[0], s.ready.queue[1..];
      assert s.ready.queue == [head] + rest;
      assert head !in rest && NoDup(rest);
      if Accepts(s, head, Running) {
        var ready := ReadyState(rest, Some(head));
        RearrangeKeeps(s, ready);
        var i := FindPid(s.procs, head);
        EditKeeps(s.(ready := ready), i, s.procs[i].(state := Running));
      } else {
        NoDupAppend(rest, head);
        RearrangeKeeps(s, ReadyState(rest + [head], None));
      }
    }
  }

  lemma YieldKeeps(s: Sys)
    requires Coherent(s)
    ensures var s' := YieldSysSpec(s).0;
      Coherent(s') && KinshipKept(s.procs, s'.procs) && s'.mode == s.mode
  {
    if s.ready.current.Some? && YieldSysSpec(s).1 {
      var pid := s.ready.current.value;
      var ready := ReadyState(s.ready.queue + [pid], None);
      NoDupAppend(s.ready.queue, pid);
      RearrangeKeeps(s, ready);
      var i := FindPid(s.procs, pid);
      EditKeeps(s.(ready := ready), i, s.procs[i].(state := Ready));
    }
  }

  // ---- reaping ----

  /** A terminated process can always be reaped; its group goes with its last member. */
  lemma ReapFoundKeeps(s: Sys, i: nat)
    requires Bookkeeping(s) && i < |s.procs| && !Live(s.procs[i])
    ensures var (s', ok) := ReapFoundSpec(s, i);
            && ok
            && s' == s.(procs := SwapRemove(s.procs, i), groups := s'.groups)
            && Bookkeeping(s')
            && (SchedulerAgrees(s) ==> SchedulerAgrees(s'))
            && (ParentsOlder(s.procs) ==> ParentsOlder(s'.procs))
            && (ParentsLive(s.procs) <==> ParentsLive(s'.procs) && HasParent(s.procs, i))
  {
    var p := s.procs[i];
    var g := FindGroup(s.groups, p.group);
    assert p.group in Gids(s.groups);
    assert Enrolled(s.procs, p.id, s.groups[g].id);
    FindPidUnique(s.procs, i);
    ReapKeepsMembers(s, i, g, IndexOf(s.groups[g].members, p.id));
    ReapKeepsProcs(s, i);
  }

  lemma ReapKeepsProcs(s: Sys, i: nat)
    requires ProcsOk(s.procs, s.nextPid) && i < |s.procs| && !Live(s.procs[i])
    ensures var procs := SwapRemove(s.procs, i);
            && ProcsOk(procs, s.nextPid)
            && (SchedulerAgrees(s) ==> SchedulerAgrees(s.(procs := procs)))
            && (ParentsOlder(s.procs) ==> ParentsOlder(procs))
            && (ParentsLive(s.procs) <==> ParentsLive(procs) && HasParent(s.procs, i))
  {
    var procs := SwapRemove(s.procs, i);
    forall pid ensures LivePid(procs, pid) <==> LivePid(s.procs, pid) { LiveSwapRemove(s.procs, i, pid); }
    SwapRemoveContents(Pids(s.procs), i);
    assert Pids(procs) == SwapRemove(Pids(s.procs), i);
    assert forall k :: 0 <= k < |procs| ==> procs[k] == s.procs[if k == i then |s.procs| - 1 else k];
    assert forall k :: 0 <= k < |procs| ==>
      (HasParent(procs, k) <==> HasParent(s.procs, if k == i then |s.procs| - 1 else k));
    if ParentsLive(procs) && HasParent(s.procs, i) {
      forall k | 0 <= k < |s.procs| ensures HasParent(s.procs, k) {
        assert k == i || HasParent(procs, if k == |s.procs| - 1 then i else k);
      }
    }
  }

  lemma ReapKeepsMembers(s: Sys, i: nat, g: nat, m: nat)
    requires Bookkeeping(s) && i < |s.procs| && g < |s.groups| && s.groups[g].id == s.procs[i].group
    requires m < |s.groups[g].members| && s.groups[g].members[m] == s.procs[i].id
    ensures var members := SwapRemove(s.groups[g].members, m);
            var updated := s.groups[g := s.groups[g].(members := members)];
            var groups := if members == [] then SwapRemove(updated, g) else updated;
            GroupsOk(groups, s.nextGid) && MembersAgree(SwapRemove(s.procs, i), groups)
  {
    var members := SwapRemove(s.groups[g].members, m);
    var updated := s.groups[g := s.groups[g].(members := members)];
    var procs := SwapRemove(s.procs, i);
    SwapRemoveContents(s.groups[g].members, m);
    assert Gids(updated) == Gids(s.groups);
    forall k, pid | 0 <= k < |updated|
      ensures pid in updated[k].members <==> Enrolled(procs, pid, updated[k].id)
    {
      EnrolledSwapRemove(s.procs, i, pid, updated[k].id);
      if k != g && pid == s.procs[i].id && pid in s.groups[k].members { SoleGroup(s, i, g, k); }
    }
    forall k | 0 <= k < |procs| ensures procs[k].group in Gids(updated) {
      assert procs[k] == s.procs[if k == i then |s.procs| - 1 else k];
    }
    if members == [] {
      SwapRemoveContents(Gids(updated), g);
      var groups := SwapRemove(updated, g);
      assert Gids(groups) == SwapRemove(Gids(updated), g);
      assert forall k :: 0 <= k < |groups| ==> groups[k] == updated[if k == g then |updated| - 1 else k];
      forall k | 0 <= k < |procs| ensures procs[k].group in Gids(groups) {
        assert Enrolled(procs, procs[k].id, procs[k].group);
        assert procs[k].group != updated[g].id;
      }
    }
  }

  /** A pid is enrolled in one group only. */
  lemma SoleGroup(s: Sys, i: nat, g: nat, k: nat)
    requires Bookkeeping(s) && i < |s.procs| && g < |s.groups| && k < |s.groups|
    requires s.groups[g].id == s.procs[i].group && s.procs[i].id in s.groups[k].members
    ensures k == g
  {
    var j :| 0 <= j < |s.procs| && s.procs[j].id == s.procs[i].id && s.procs[j].group == s.groups[k].id;
    assert Pids(s.procs)[i] == Pids(s.procs)[j];
    assert Gids(s.groups)[g] == Gids(s.groups)[k];
  }

  lemma ReapProcessKeeps(s: Sys, pid: nat)
    requires Bookkeeping(s)
    ensures Bookkeeping(ReapProcessSpec(s, pid).0)
    ensures ReapProcessSpec(s, pid).1 <==>
      FindPid(s.procs, pid) < |s.procs| && s.procs[FindPid(s.procs, pid)].state == Terminated
  {
    var i := FindPid(s.procs, pid);
    if i < |s.procs| && s.procs[i].state == Terminated { ReapFoundKeeps(s, i); }
  }
}
