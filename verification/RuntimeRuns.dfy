/** What holds over whole runs of the runtime: concrete runs of `embla_run`, all sequences of
    operations, and the supervise path. */
module RuntimeRuns {
  import opened Sequences
  import opened Processes
  import opened ProcessTables
  import opened ProcessManagers
  import opened ProcessGroups
  import opened Schedulers
  import opened RuntimeSpec
  import opened RuntimeInvariants
  import opened RunLoop

  // ---- concrete runs ----

  /** Two processes spawned one after the other. */
  const TWO_READY := Sys(
    [Proc(1, 0, 1, 101, Ready, -1, -1), Proc(2, 0, 2, 102, Ready, -1, -1)],
    [Group(1, 101, [1], None), Group(2, 102, [2], None)],
    ReadyState([1, 2], None), 3, 3, RuntimeStopped)

  /** What a successful spawn adds. */
  function Spawned(s: Sys, host: nat): Sys {
    s.(procs := s.procs + [Proc(s.nextPid, ROOT_PID, s.nextGid, host, Ready, -1, -1)],
       groups := s.groups + [Group(s.nextGid, host, [s.nextPid], None)],
       ready := s.ready.(queue := s.ready.queue + [s.nextPid]),
       nextPid := s.nextPid + 1, nextGid := s.nextGid + 1)
  }

  lemma SpawnAdds(s: Sys, host: nat)
    requires NoDup(Gids(WithEmptyGroup(s).groups)) && 1 <= Room(s)
    ensures SpawnSpec(s, Some(host)) == (Spawned(s, host), Some(s.nextPid))
  {
    var s1 := WithEmptyGroup(s);
    var g := |s.groups|;
    FindGroupUnique(s1.groups, g);
    var group := Group(s.nextGid, host, [s.nextPid], None);
    assert s1.groups[g].members + [s.nextPid] == [s.nextPid];
    assert s1.groups[g := group] == s.groups + [group];
  }

  lemma TwoReadyIsReachable()
    ensures TWO_READY == ApplyAll(EMPTY_SYS, [OpSpawn(Some(101)), OpSpawn(Some(102))])
    ensures Invariant(TWO_READY)
  {
    hide SpawnSpec, Coherent, ParentsOlder, ParentsLive;
    var ops := [OpSpawn(Some(101)), OpSpawn(Some(102))];
    SpawnAdds(EMPTY_SYS, 101);
    var one := Spawned(EMPTY_SYS, 101);
    SpawnAdds(one, 102);
    assert Spawned(one, 102) == TWO_READY;
    assert ops[1..] == [OpSpawn(Some(102))] && ops[1..][1..] == [];
    assert ApplyAll(TWO_READY, []) == TWO_READY;
    assert ApplyAll(one, ops[1..]) == TWO_READY;
    EmptySatisfies();
    ApplyKeeps(EMPTY_SYS, ops[0]);
    ApplyKeeps(one, ops[1]);
  }

  /** The state of that run after its first dispatch and after the three events below. */
  function AfterStopContinue(): Sys {
    TWO_READY.(
      procs := [Proc(1, 0, 1, 101, Running, -1, -1), Proc(2, 0, 2, 102, Running, -1, -1)],
      ready := ReadyState([2], Some(1)), mode := RuntimeRunning)
  }

  /** A run can abort though every report is legitimate and a process is alive and well: a
      process stopped and continued while still queued is RUNNING already, so its dispatch,
      when the current process exits, is refused. */
  lemma ContinuedInQueueAborts()
    ensures RunSpec(TWO_READY,
      [ChildEvent(102, StoppedBy), ChildEvent(102, ContinuedBy), ChildEvent(101, Exited(0))]).1 == Failed
  {
    var polls := [ChildEvent(102, StoppedBy), ChildEvent(102, ContinuedBy), ChildEvent(101, Exited(0))];
    var s0 := TWO_READY.(mode := RuntimeRunning);
    var p1, p2 := Proc(1, 0, 1, 101, Running, -1, -1), Proc(2, 0, 2, 102, Ready, -1, -1);
    FindPidUnique(TWO_READY.procs, 0);
    var s1 := DispatchSysSpec(s0).0;
    assert s1 == s0.(procs := [p1, p2], ready := ReadyState([2], Some(1)));
    assert FindHost(s1.procs, 102) == 1;
    var s2 := PollSpec(s1, polls[0]).0;
    assert s2 == s1.(procs := [p1, p2.(state := Stopped)]);
    assert FindHost(s2.procs, 102) == 1;
    var s3 := PollSpec(s2, polls[1]).0;
    assert s3 == AfterStopContinue();
    ExitAborts();
    assert polls[1..][1..] == [polls[2]] && polls[1..][0] == polls[1];
    assert LoopSpec(s3, [polls[2]]).1 == Failed;
    assert LoopSpec(s2, polls[1..]).1 == Failed;
  }

  lemma ExitAborts()
    ensures !PollSpec(AfterStopContinue(), ChildEvent(101, Exited(0))).1
  {
    var s := AfterStopContinue();
    var dead := Proc(1, 0, 1, 101, Terminated, 0, -1);
    assert FindHost(s.procs, 101) == 0;
    var s1 := EventSpec(s, 101, Exited(0)).0;
    assert s1.procs == [dead, s.procs[1]] && s1.ready == ReadyState([2], None);
    FindPidUnique(s1.procs, 1);
  }

  /** A runtime whose run aborted with somebody current and somebody waiting cannot be run
      again: every later run fails at its initial dispatch, whatever the host would report. */
  lemma AbortedRunIsFinal(polls: seq<Poll>)
    ensures var (s, outcome) := RunSpec(TWO_READY, [PollFailed]);
      && outcome == Failed && Invariant(s)
      && s.mode == RuntimeStopped && s.ready == ReadyState([2], Some(1))
      && RunSpec(s, polls) == (s, Failed)
  {
    TwoReadyIsReachable();
    RunKeeps(TWO_READY, [PollFailed]);
    FindPidUnique(TWO_READY.procs, 0);
    var s := StartOf(TWO_READY);
    assert s.ready == ReadyState([2], Some(1)) && s.mode == RuntimeRunning;
    assert LoopSpec(s, [PollFailed]) == (s.(mode := RuntimeStopped), Failed);
    hide Invariant;
    assert RunSpec(TWO_READY, [PollFailed]) == (s.(mode := RuntimeStopped), Failed);
  }

  /** A process ended, then a child was given to it: the tables agree all the same. */
  const WITH_ORPHAN := Sys(
    [Proc(1, 0, 1, 101, Terminated, 0, -1), Proc(2, 1, 1, 102, Ready, -1, -1)],
    [Group(1, 101, [1, 2], None)], ReadyState([2], None), 3, 2, RuntimeStopped)

  lemma OrphanIsReachable()
    ensures WITH_ORPHAN
         == ApplyAll(EMPTY_SYS, [OpSpawn(Some(101)), OpEvent(101, Exited(0)), OpSpawnChild(1, Some(102))])
    ensures Coherent(WITH_ORPHAN) && !ParentsLive(WITH_ORPHAN.procs)
  {
    var ops := [OpSpawn(Some(101)), OpEvent(101, Exited(0)), OpSpawnChild(1, Some(102))];
    SpawnAdds(EMPTY_SYS, 101);
    var s1 := Spawned(EMPTY_SYS, 101);
    var s2 := Apply(s1, ops[1]);
    EventOnOnly(s1);
    var s3 := Apply(s2, ops[2]);
    ChildOfDead(s2);
    hide SpawnSpec, EventSpec, SpawnChildSpec, Coherent;
    assert ops[1..] == [ops[1], ops[2]] && ops[1..][1..] == [ops[2]] && [ops[2]][1..] == [];
    assert ApplyAll(s3, []) == s3;
    assert ApplyAll(s2, [ops[2]]) == s3;
    assert ApplyAll(s1, ops[1..]) == s3;
    EmptySatisfies();
    ApplyKeeps(EMPTY_SYS, ops[0]);
    ApplyKeeps(s1, ops[1]);
    ApplyKeeps(s2, ops[2]);
    assert !HasParent(WITH_ORPHAN.procs, 1);
  }

  const ONE_DEAD := Sys(
    [Proc(1, 0, 1, 101, Terminated, 0, -1)], [Group(1, 101, [1], None)], ReadyState([], None), 2, 2, RuntimeStopped)

  lemma EventOnOnly(s: Sys)
    requires s == Spawned(EMPTY_SYS, 101)
    ensures EventSpec(s, 101, Exited(0)).0 == ONE_DEAD
  {
    assert s.procs == [Proc(1, 0, 1, 101, Ready, -1, -1)] && FindHost(s.procs, 101) == 0;
    assert s.ready.queue == [1];
    var s' := EventSpec(s, 101, Exited(0)).0;
    assert s'.procs == ONE_DEAD.procs;
    assert s'.groups == ONE_DEAD.groups;
    assert s'.ready.queue == [];
  }

  lemma ChildOfDead(s: Sys)
    requires s == ONE_DEAD
    ensures Apply(s, OpSpawnChild(1, Some(102))) == WITH_ORPHAN
  {
    FindPidUnique(s.procs, 0);
    FindGroupUnique(s.groups, 0);
    assert [1] + [2] == [1, 2];
    var group := Group(1, 101, [1, 2], None);
    assert s.groups[0 := group] == [group];
    assert s.procs + [WITH_ORPHAN.procs[1]] == WITH_ORPHAN.procs;
    assert s.ready.queue + [2] == [2];
  }

  /** Its run completes and leaves the child in the tables for good. */
  lemma OrphanLeaks()
    ensures var (s, outcome) := RunSpec(WITH_ORPHAN, [ChildEvent(102, Exited(0))]);
      outcome == Completed && s.procs != []
  {
    var polls := [ChildEvent(102, Exited(0))];
    OrphanIsReachable();
    OrphanRuns();
    hide Coherent, ParentsLive, Aborts, StartRefused, StartOf;
    RunKeeps(WITH_ORPHAN, polls);
    forall k: nat ensures !AbortsAt(StartOf(WITH_ORPHAN), polls, k) {}
    assert polls[0] == ChildEvent(102, Exited(0));
    assert EndsAmong(WITH_ORPHAN.procs, 1, polls);
    assert AllEnd(WITH_ORPHAN.procs, polls);
    hide RunSpec;
    RunCompletesExactly(WITH_ORPHAN, polls);
    var s := RunSpec(WITH_ORPHAN, polls).0;
    if s.procs == [] { RunLeftovers(s); }
  }

  lemma OrphanRuns()
    ensures !StartRefused(WITH_ORPHAN) && !Aborts(StartOf(WITH_ORPHAN), ChildEvent(102, Exited(0)))
    ensures Terminates(WITH_ORPHAN.procs, 1, ChildEvent(102, Exited(0)))
  {
    FindPidUnique(WITH_ORPHAN.procs, 1);
    assert FindHost(WITH_ORPHAN.procs[1..], 102) == 0;
    var s := StartOf(WITH_ORPHAN);
    assert s.procs == [WITH_ORPHAN.procs[0], WITH_ORPHAN.procs[1].(state := Running)];
    assert s.ready == ReadyState([], Some(2));
    assert FindHost(s.procs[1..], 102) == 0;
    EventKeepsQueueEmpty(s, 102, Exited(0));
  }

  lemma EventKeepsQueueEmpty(s: Sys, host: nat, status: WaitStatus)
    requires s.ready.queue == []
    ensures EventSpec(s, host, status).0.ready.queue == []
  {
  }

  lemma RunLeftovers(s: Sys)
    requires Coherent(s) && s.procs == []
    ensures AllEmpty(s)
  {
    NothingScheduled(s);
    if s.groups != [] { GroupHasProcess(s); }
  }

  // ---- arbitrary sequences of operations ----

  datatype Op =
    | OpSpawn(fork: Option<nat>)
    | OpSpawnChild(parent: nat, fork: Option<nat>)
    | OpEvent(host: nat, status: WaitStatus)
    | OpDispatch
    | OpYield
    | OpReapChild(parent: nat)
    | OpReapProcess(pid: nat)
    | OpRun(polls: seq<Poll>)
    | OpSetMaxMembers(gid: nat, max: nat)

  function SetCapSpec(s: Sys, gid: nat, max: nat): Sys {
    var g := FindGroup(s.groups, gid);
    if g == |s.groups| then s else s.(groups := s.groups[g := s.groups[g].(cap := Some(max))])
  }

  function Apply(s: Sys, op: Op): Sys {
    match op
    case OpSpawn(fork) => SpawnSpec(s, fork).0
    case OpSpawnChild(parent, fork) =>
      var i := FindPid(s.procs, parent);
      if i == |s.procs| then s else SpawnChildSpec(s, parent, s.procs[i].group, fork).0
    case OpEvent(host, status) => EventSpec(s, host, status).0
    case OpDispatch => DispatchSysSpec(s).0
    case OpYield => YieldSysSpec(s).0
    case OpReapChild(parent) => ReapChildSpec(s, parent).0
    case OpReapProcess(pid) => ReapProcessSpec(s, pid).0
    case OpRun(polls) => RunSpec(s, polls).0
    case OpSetMaxMembers(gid, max) => SetCapSpec(s, gid, max)
  }

  /** The host never forks pid 0. */
  predicate HostHonest(op: Op) {
    match op
    case OpSpawn(fork) => fork != Some(INVALID_HOST_PID)
    case OpSpawnChild(_, fork) => fork != Some(INVALID_HOST_PID)
    case _ => true
  }

  /** What the code leaves to its callers besides: children are given to live parents only
      (`embla_spawn_child` does not look at the parent's state). */
  ghost predicate Admissible(s: Sys, op: Op) {
    HostHonest(op) && (op.OpSpawnChild? ==> LivePid(s.procs, op.parent))
  }

  function ApplyAll(s: Sys, ops: seq<Op>): Sys
    decreases |ops|
  {
    if ops == [] then s else ApplyAll(Apply(s, ops[0]), ops[1..])
  }

  ghost predicate AllAdmissible(s: Sys, ops: seq<Op>)
    decreases |ops|
  {
    ops != [] ==> Admissible(s, ops[0]) && AllAdmissible(Apply(s, ops[0]), ops[1..])
  }

  predicate AllHonest(ops: seq<Op>) {
    forall k :: 0 <= k < |ops| ==> HostHonest(ops[k])
  }

  lemma SetCapKeeps(s: Sys, gid: nat, max: nat)
    requires Coherent(s)
    ensures Coherent(SetCapSpec(s, gid, max))
  {
    assert Gids(SetCapSpec(s, gid, max).groups) == Gids(s.groups);
  }

  lemma ApplyKeeps(s: Sys, op: Op)
    requires Coherent(s) && HostHonest(op)
    ensures Coherent(Apply(s, op))
    ensures ParentsOk(s.procs) && Admissible(s, op) ==> ParentsOk(Apply(s, op).procs)
  {
    match op
    case OpSpawn(fork) => SpawnKeeps(s, fork);
    case OpSpawnChild(parent, fork) =>
      var i := FindPid(s.procs, parent);
      if i < |s.procs| { SpawnChildKeeps(s, parent, s.procs[i].group, fork); }
    case OpEvent(host, status) => EventKeeps(s, host, status);
    case OpDispatch => DispatchKeeps(s);
    case OpYield => YieldKeeps(s);
    case OpReapChild(parent) =>
      var i := FindZombie(s.procs, parent);
      if i < |s.procs| { ReapFoundKeeps(s, i); }
    case OpReapProcess(pid) =>
      var i := FindPid(s.procs, pid);
      if i < |s.procs| && s.procs[i].state == Terminated { ReapFoundKeeps(s, i); }
    case OpRun(polls) => RunKeeps(s, polls);
    case OpSetMaxMembers(gid, max) => SetCapKeeps(s, gid, max);
  }

  /** The same for reaps and events, without a precondition. */
  lemma OpKeeps(s: Sys, op: Op)
    requires op.OpReapChild? || op.OpReapProcess? || op.OpEvent?
    ensures Coherent(s) ==> Coherent(Apply(s, op))
    ensures Invariant(s) ==> Invariant(Apply(s, op))
  {
    hide Coherent, Apply;
    if Coherent(s) { ApplyKeeps(s, op); }
  }

  /** In every state reachable from the empty runtime the tables agree, whatever parents the
      callers name. */
  lemma {:induction false} CoherentAlongRuns(s: Sys, ops: seq<Op>)
    requires Coherent(s) && AllHonest(ops)
    ensures Coherent(ApplyAll(s, ops))
    decreases |ops|
  {
    hide Coherent;
    if ops != [] {
      ApplyKeeps(s, ops[0]);
      CoherentAlongRuns(Apply(s, ops[0]), ops[1..]);
    }
  }

  /** If they name live ones, ancestry is in order as well. */
  lemma {:induction false} InvariantAlongRuns(s: Sys, ops: seq<Op>)
    requires Invariant(s) && AllAdmissible(s, ops)
    ensures Invariant(ApplyAll(s, ops))
    decreases |ops|
  {
    hide Coherent;
    if ops != [] {
      ApplyKeeps(s, ops[0]);
      InvariantAlongRuns(Apply(s, ops[0]), ops[1..]);
    }
  }

  // ---- the member cap ----

  /** Group `gid`, if it is still in the table, has this cap and is within it; ids are not reused. */
  ghost predicate WithinCap(s: Sys, gid: nat, cap: nat) {
    && gid < s.nextGid
    && forall g :: 0 <= g < |s.groups| && s.groups[g].id == gid ==>
         s.groups[g].cap == Some(cap) && |s.groups[g].members| <= cap
  }

  /** The group tables of two states: every group of the second is one of the first, with
      the same cap and no more members, or has an id the first has not handed out. */
  ghost predicate GroupsShrink(s: Sys, s': Sys) {
    && s.nextGid <= s'.nextGid
    && forall g' :: 0 <= g' < |s'.groups| ==>
         || s.nextGid <= s'.groups[g'].id
         || exists g :: 0 <= g < |s.groups| && Narrower(s'.groups[g'], s.groups[g])
  }

  predicate Narrower(a: Group, b: Group) {
    a.id == b.id && a.cap == b.cap && |a.members| <= |b.members|
  }

  lemma ShrinkKeepsCap(s: Sys, s': Sys, gid: nat, cap: nat)
    requires WithinCap(s, gid, cap) && GroupsShrink(s, s')
    ensures WithinCap(s', gid, cap)
  {
    forall g' | 0 <= g' < |s'.groups| && s'.groups[g'].id == gid
      ensures s'.groups[g'].cap == Some(cap) && |s'.groups[g'].members| <= cap
    {
      var g :| 0 <= g < |s.groups| && Narrower(s'.groups[g'], s.groups[g]);
    }
  }

  lemma SameGroupsShrink(s: Sys, s': Sys)
    requires s'.groups == s.groups && s.nextGid <= s'.nextGid
    ensures GroupsShrink(s, s')
  {
    forall g | 0 <= g < |s.groups| ensures Narrower(s'.groups[g], s.groups[g]) {}
  }

  lemma ShrinkTransitive(a: Sys, b: Sys, c: Sys)
    requires GroupsShrink(a, b) && GroupsShrink(b, c)
    ensures GroupsShrink(a, c)
  {
    forall g' | 0 <= g' < |c.groups| && c.groups[g'].id < a.nextGid
      ensures exists g :: 0 <= g < |a.groups| && Narrower(c.groups[g'], a.groups[g])
    {
      var k :| 0 <= k < |b.groups| && Narrower(c.groups[g'], b.groups[k]);
      var g :| 0 <= g < |a.groups| && Narrower(b.groups[k], a.groups[g]);
      assert Narrower(c.groups[g'], a.groups[g]);
    }
  }

  lemma ReapShrinks(s: Sys, i: nat)
    requires i < |s.procs|
    ensures GroupsShrink(s, ReapFoundSpec(s, i).0)
  {
    var s' := ReapFoundSpec(s, i).0;
    var p := FindGroup(s.groups, s.procs[i].group);
    forall g' | 0 <= g' < |s'.groups|
      ensures exists g :: 0 <= g < |s.groups| && Narrower(s'.groups[g'], s.groups[g])
    {
      var g := if |s'.groups| < |s.groups| && g' == p then |s.groups| - 1 else g';
      assert Narrower(s'.groups[g'], s.groups[g]);
    }
  }

  lemma {:induction false} ReapRootShrinks(s: Sys)
    ensures GroupsShrink(s, ReapRootSpec(s).0)
    decreases |s.procs|
  {
    var i := FindZombie(s.procs, ROOT_PID);
    if i == |s.procs| {
      SameGroupsShrink(s, s);
    } else {
      var (s1, ok) := ReapFoundSpec(s, i);
      ReapShrinks(s, i);
      if ok {
        ReapRootShrinks(s1);
        ShrinkTransitive(s, s1, ReapRootSpec(s1).0);
      }
    }
  }

  lemma EventKeepsGroups(s: Sys, host: nat, status: WaitStatus)
    ensures EventSpec(s, host, status).0.groups == s.groups && EventSpec(s, host, status).0.nextGid == s.nextGid
  {
    var i := FindHost(s.procs, host);
    if host != INVALID_HOST_PID && i < |s.procs| {
      match status
      case Exited(code) => TerminatedKeepsGroups(s.(procs := s.procs[i := s.procs[i].(exitCode := code)]), i);
      case Signaled(signal) => TerminatedKeepsGroups(s.(procs := s.procs[i := s.procs[i].(termSignal := signal)]), i);
      case _ =>
    }
  }

  lemma TerminatedKeepsGroups(s: Sys, i: nat)
    requires i < |s.procs|
    ensures TerminatedSpec(s, i).0.groups == s.groups && TerminatedSpec(s, i).0.nextGid == s.nextGid
  {
  }

  lemma PollKeepsGroups(s: Sys, poll: Poll)
    ensures PollSpec(s, poll).0.groups == s.groups && PollSpec(s, poll).0.nextGid == s.nextGid
  {
    if poll.ChildEvent? { EventKeepsGroups(s, poll.host, poll.status); }
  }

  lemma {:induction false} LoopShrinks(s: Sys, polls: seq<Poll>)
    ensures GroupsShrink(s, LoopSpec(s, polls).0)
    decreases |polls|
  {
    if polls == [] {
      SameGroupsShrink(s, s);
    } else {
      var (s1, going) := PollSpec(s, polls[0]);
      PollKeepsGroups(s, polls[0]);
      SameGroupsShrink(s, s1);
      if going {
        if LiveCount(s1.procs) == 0 {
          var s2 := s1.(mode := RuntimeStopping);
          ReapRootShrinks(s2);
          ShrinkTransitive(s, s2, ReapRootSpec(s2).0);
        } else {
          LoopShrinks(s1, polls[1..]);
          ShrinkTransitive(s, s1, LoopSpec(s1, polls[1..]).0);
        }
      }
    }
  }

  lemma RunShrinks(s: Sys, polls: seq<Poll>)
    ensures GroupsShrink(s, RunSpec(s, polls).0)
  {
    SameGroupsShrink(s, s);
    var s0 := s.(mode := RuntimeRunning);
    if s.mode == RuntimeStopped {
      LoopShrinks(if s.ready.queue == [] then s0 else DispatchSysSpec(s0).0, polls);
    }
  }

  lemma SpawnIntoKeepsCap(s: Sys, parent: nat, gid: nat, fork: Option<nat>, watched: nat, cap: nat)
    requires WithinCap(s, watched, cap)
    ensures WithinCap(SpawnInternalSpec(s, parent, gid, fork).0, watched, cap)
  {
  }

  lemma SpawnKeepsCap(s: Sys, fork: Option<nat>, watched: nat, cap: nat)
    requires Bookkeeping(s) && fork != Some(INVALID_HOST_PID) && WithinCap(s, watched, cap)
    ensures WithinCap(SpawnSpec(s, fork).0, watched, cap)
  {
    SpawnKeeps(s, fork);
    if SpawnSpec(s, fork).1.Some? {
      SpawnIntoKeepsCap(WithEmptyGroup(s), ROOT_PID, s.nextGid, fork, watched, cap);
    }
  }

  lemma ApplyKeepsCap(s: Sys, op: Op, gid: nat, cap: nat)
    requires Bookkeeping(s) && HostHonest(op) && WithinCap(s, gid, cap)
    requires op.OpSetMaxMembers? ==> op.gid != gid
    ensures WithinCap(Apply(s, op), gid, cap)
  {
    match op
    case OpSpawn(fork) => SpawnKeepsCap(s, fork, gid, cap);
    case OpSpawnChild(parent, fork) =>
      var i := FindPid(s.procs, parent);
      if i < |s.procs| { SpawnIntoKeepsCap(s, parent, s.procs[i].group, fork, gid, cap); }
    case OpEvent(host, status) => EventKeepsGroups(s, host, status);
    case OpReapChild(parent) =>
      var i := FindZombie(s.procs, parent);
      if i < |s.procs| { ReapShrinks(s, i); ShrinkKeepsCap(s, ReapFoundSpec(s, i).0, gid, cap); }
    case OpReapProcess(pid) =>
      var i := FindPid(s.procs, pid);
      if i < |s.procs| { ReapShrinks(s, i); ShrinkKeepsCap(s, ReapFoundSpec(s, i).0, gid, cap); }
    case OpRun(polls) => RunShrinks(s, polls); ShrinkKeepsCap(s, RunSpec(s, polls).0, gid, cap);
    case _ =>
  }

  /** Once a group is within a cap set on it, no sequence of operations that leaves the cap
      alone takes it above. */
  lemma {:induction false} CapAlongRuns(s: Sys, ops: seq<Op>, gid: nat, cap: nat)
    requires Coherent(s) && AllHonest(ops) && WithinCap(s, gid, cap)
    requires forall k :: 0 <= k < |ops| && ops[k].OpSetMaxMembers? ==> ops[k].gid != gid
    ensures WithinCap(ApplyAll(s, ops), gid, cap)
    decreases |ops|
  {
    if ops != [] {
      ApplyKeeps(s, ops[0]);
      ApplyKeepsCap(s, ops[0], gid, cap);
      CapAlongRuns(Apply(s, ops[0]), ops[1..], gid, cap);
    }
  }

  /** Setting a cap sets that cap on that group, and changes nothing else. */
  lemma CapTakesHold(s: Sys, gid: nat, max: nat, g: nat)
    requires Bookkeeping(s) && g < |s.groups| && s.groups[g].id == gid
    ensures var s' := Apply(s, OpSetMaxMembers(gid, max));
      && s' == s.(groups := s.groups[g := s.groups[g].(cap := Some(max))])
      && (|s.groups[g].members| <= max ==> WithinCap(s', gid, max))
  {
    FindGroupUnique(s.groups, g);
    forall k | 0 <= k < |s.groups| && s.groups[k].id == gid ensures k == g { FindGroupUnique(s.groups, k); }
  }

  /** A spawn refused by the cap changes nothing at all, not even the pid counter. */
  lemma CappedSpawnChangesNothing(s: Sys, parent: nat, gid: nat, g: nat, fork: Option<nat>)
    requires NoDup(Gids(s.groups)) && g < |s.groups| && s.groups[g].id == gid
    requires s.groups[g].cap.Some? && s.groups[g].cap.value <= |s.groups[g].members|
    ensures SpawnChildSpec(s, parent, gid, fork) == (s, None)
  {
    FindGroupUnique(s.groups, g);
  }

  // ---- conservation ----

  function MemberCount(groups: seq<Group>): nat {
    if groups == [] then 0 else MemberCount(groups[..|groups| - 1]) + |groups[|groups| - 1].members|
  }

  ghost function MemberSet(groups: seq<Group>): set<nat> {
    if groups == [] then {}
    else MemberSet(groups[..|groups| - 1]) + Elements(groups[|groups| - 1].members)
  }

  lemma {:induction false} InMemberSet(groups: seq<Group>, x: nat)
    ensures x in MemberSet(groups) <==> exists g :: 0 <= g < |groups| && x in groups[g].members
  {
    if groups != [] {
      var last := |groups| - 1;
      InMemberSet(groups[..last], x);
      if exists g :: 0 <= g < last && x in groups[g].members {
        var g :| 0 <= g < last && x in groups[g].members;
        assert x in groups[..last][g].members;
      }
      if exists g :: 0 <= g < last && x in groups[..last][g].members {
        var g :| 0 <= g < last && x in groups[..last][g].members;
        assert x in groups[g].members;
      }
    }
  }

  ghost predicate Disjoint(a: seq<nat>, b: seq<nat>) {
    forall x :: x in a ==> x !in b
  }

  /** Member lists that do not overlap have as many members as pids. */
  lemma {:induction false} MemberCountIsSize(groups: seq<Group>)
    requires forall g :: 0 <= g < |groups| ==> NoDup(groups[g].members)
    requires forall g, k :: 0 <= g < k < |groups| ==> Disjoint(groups[g].members, groups[k].members)
    ensures MemberCount(groups) == |MemberSet(groups)|
  {
    if groups != [] {
      var last := |groups| - 1;
      var before := groups[..last];
      MemberCountIsSize(before);
      ElementsSize(groups[last].members);
      forall x | x in MemberSet(before) ensures x !in groups[last].members {
        InMemberSet(before, x);
        var g :| 0 <= g < last && x in before[g].members;
        assert Disjoint(groups[g].members, groups[last].members);
      }
    }
  }

  lemma GroupsDisjoint(s: Sys, g: nat, k: nat)
    requires Bookkeeping(s) && g < k < |s.groups|
    ensures Disjoint(s.groups[g].members, s.groups[k].members)
  {
    forall x | x in s.groups[g].members ensures x !in s.groups[k].members {
      assert Enrolled(s.procs, x, s.groups[g].id);
      var i :| 0 <= i < |s.procs| && s.procs[i].id == x && s.procs[i].group == s.groups[g].id;
      if x in s.groups[k].members { SoleGroup(s, i, g, k); }
    }
  }

  lemma MembersAreThePids(s: Sys)
    requires Bookkeeping(s)
    ensures MemberSet(s.groups) == Elements(Pids(s.procs))
  {
    forall x ensures x in MemberSet(s.groups) <==> x in Pids(s.procs) {
      InMemberSet(s.groups, x);
      if x in Pids(s.procs) {
        var i :| 0 <= i < |s.procs| && Pids(s.procs)[i] == x;
        var g :| 0 <= g < |s.groups| && Gids(s.groups)[g] == s.procs[i].group;
        assert Enrolled(s.procs, x, s.groups[g].id);
      }
      if x in MemberSet(s.groups) {
        var g :| 0 <= g < |s.groups| && x in s.groups[g].members;
        assert Enrolled(s.procs, x, s.groups[g].id);
        var i :| 0 <= i < |s.procs| && s.procs[i].id == x;
        assert Pids(s.procs)[i] == x;
      }
    }
  }

  /** The group sizes add up to the size of the process table. */
  lemma GroupCountsSum(s: Sys)
    requires Bookkeeping(s)
    ensures MemberCount(s.groups) == |s.procs|
  {
    forall g, k | 0 <= g < k < |s.groups| ensures Disjoint(s.groups[g].members, s.groups[k].members) {
      GroupsDisjoint(s, g, k);
    }
    MemberCountIsSize(s.groups);
    MembersAreThePids(s);
    ElementsSize(Pids(s.procs));
  }

  // ---- the supervise path ----

  /** What the supervisor does to the runtime: it spawns, drains events and reaps by pid. */
  datatype SupervisorOp = Launch(fork: Option<nat>) | Drain(host: nat, status: WaitStatus) | Collect(pid: nat)

  function Supervise1(s: Sys, op: SupervisorOp): Sys {
    match op
    case Launch(fork) => SpawnSpec(s, fork).0
    case Drain(host, status) => DrainSpec(s, host, status)
    case Collect(pid) => ReapProcessSpec(s, pid).0
  }

  function SuperviseAll(s: Sys, ops: seq<SupervisorOp>): Sys
    decreases |ops|
  {
    if ops == [] then s else SuperviseAll(Supervise1(s, ops[0]), ops[1..])
  }

  function Launched(s: Sys, ops: seq<SupervisorOp>): nat
    decreases |ops|
  {
    if ops == [] then 0
    else (if ops[0].Launch? && SpawnSpec(s, ops[0].fork).1.Some? then 1 else 0)
         + Launched(Supervise1(s, ops[0]), ops[1..])
  }

  lemma DrainKeeps(s: Sys, host: nat, status: WaitStatus)
    requires Bookkeeping(s)
    ensures Bookkeeping(DrainSpec(s, host, status))
  {
    SameIdentityKeepsBookkeeping(s, DrainSpec(s, host, status).procs);
  }

  lemma Supervise1Keeps(s: Sys, op: SupervisorOp)
    requires Bookkeeping(s) && (op.Launch? ==> op.fork != Some(INVALID_HOST_PID))
    ensures Bookkeeping(Supervise1(s, op))
    ensures |Supervise1(s, op).ready.queue|
         == |s.ready.queue| + (if op.Launch? && SpawnSpec(s, op.fork).1.Some? then 1 else 0)
  {
    match op
    case Launch(fork) => SpawnKeeps(s, fork);
    case Drain(host, status) => DrainKeeps(s, host, status);
    case Collect(pid) =>
      var i := FindPid(s.procs, pid);
      if i < |s.procs| && s.procs[i].state == Terminated { ReapFoundKeeps(s, i); }
  }

  /** The supervisor never takes anything out of the ready queue: over any supervised run the
      queue grows by one with every successful start, so a runtime created empty supports
      at most 16 of them, restarts included, however many processes have been reaped. */
  lemma {:induction false} SupervisedStartsAreBounded(s: Sys, ops: seq<SupervisorOp>)
    requires Bookkeeping(s) && |s.ready.queue| <= SCHEDULER_INITIAL_CAPACITY
    requires forall k :: 0 <= k < |ops| && ops[k].Launch? ==> ops[k].fork != Some(INVALID_HOST_PID)
    ensures Bookkeeping(SuperviseAll(s, ops))
    ensures |SuperviseAll(s, ops).ready.queue| == |s.ready.queue| + Launched(s, ops)
    ensures |s.ready.queue| + Launched(s, ops) <= SCHEDULER_INITIAL_CAPACITY
    decreases |ops|
  {
    if ops != [] {
      Supervise1Keeps(s, ops[0]);
      if ops[0].Launch? { SpawnKeeps(s, ops[0].fork); }
      SupervisedStartsAreBounded(Supervise1(s, ops[0]), ops[1..]);
    }
  }

  /** How many more spawns the tables, the ready queue and the id spaces can take. */
  function Room(s: Sys): int {
    var a: int := PROCESS_GROUP_MANAGER_INITIAL_CAPACITY - |s.groups|;
    var b: int := PROCESS_MANAGER_INITIAL_CAPACITY - |s.procs|;
    var c: int := SCHEDULER_INITIAL_CAPACITY - |s.ready.queue|;
    var d: int := INVALID_PGID - s.nextGid;
    var e: int := INVALID_PID - s.nextPid;
    Least(Least(Least(a, b), Least(c, d)), e)
  }

  function Least(x: int, y: int): int {
    if x < y then x else y
  }

  /** While there is room a spawn succeeds exactly when the host forks, and takes at most one
      unit of room; room never comes back. */
  lemma SpawnTakesRoom(s: Sys, fork: Option<nat>)
    requires Bookkeeping(s) && fork != Some(INVALID_HOST_PID)
    ensures SpawnSpec(s, fork).1.Some? <==> fork.Some? && 1 <= Room(s)
    ensures Room(s) - 1 <= Room(SpawnSpec(s, fork).0) <= Room(s)
  {
    hide SpawnSpec, Bookkeeping;
    SpawnKeeps(s, fork);
    if SpawnSpec(s, fork).1.Some? {
      FreshGid(s);
      SpawnAdds(s, fork.value);
    }
  }

  lemma FreshGid(s: Sys)
    requires Bookkeeping(s)
    ensures NoDup(Gids(WithEmptyGroup(s).groups))
  {
    assert Gids(WithEmptyGroup(s).groups) == Gids(s.groups) + [s.nextGid];
    assert forall k :: 0 <= k < |s.groups| ==> Gids(s.groups)[k] < s.nextGid;
  }

  // ---- a supervisor that has run dry ----

  /** One service life: started, exited, collected. */
  function Life(host: nat, pid: nat): seq<SupervisorOp> {
    [Launch(Some(host)), Drain(host, Exited(0)), Collect(pid)]
  }

  lemma DrainMarks(s: Sys, p: Proc)
    requires s.procs == [p] && p.state == Ready && p.host != INVALID_HOST_PID
    ensures DrainSpec(s, p.host, Exited(0)) == s.(procs := [p.(exitCode := 0, state := Terminated)])
  {
  }

  lemma CollectEmpties(s: Sys, p: Proc, group: Group)
    requires s.procs == [p] && s.groups == [group] && p.state == Terminated && p.group == group.id
    requires group.members == [p.id]
    ensures ReapProcessSpec(s, p.id).0 == s.(procs := [], groups := [])
  {
    FindPidUnique(s.procs, 0);
    FindGroupUnique(s.groups, 0);
    assert SwapRemove([p.id], 0) == [];
  }

  /** With nothing in the tables, a life leaves nothing but its pid in the ready queue. */
  lemma LifeLeavesPid(s: Sys, host: nat)
    requires s.procs == [] && s.groups == [] && host != INVALID_HOST_PID && 1 <= Room(s)
    ensures SuperviseAll(s, Life(host, s.nextPid))
         == s.(ready := s.ready.(queue := s.ready.queue + [s.nextPid]),
              nextPid := s.nextPid + 1, nextGid := s.nextGid + 1)
  {
    hide SpawnSpec, DrainSpec, ReapProcessSpec;
    var ops, pid := Life(host, s.nextPid), s.nextPid;
    SpawnAdds(s, host);
    var s1 := Spawned(s, host);
    DrainMarks(s1, s1.procs[0]);
    var s2 := DrainSpec(s1, host, Exited(0));
    CollectEmpties(s2, s2.procs[0], s2.groups[0]);
    var s3 := ReapProcessSpec(s2, pid).0;
    assert s3.procs == s.procs && s3.groups == s.groups;
    assert ops[1..] == [ops[1], ops[2]] && ops[1..][1..] == [ops[2]] && [ops[2]][1..] == [];
    assert SuperviseAll(s3, []) == s3;
    assert SuperviseAll(s2, [ops[2]]) == s3;
    assert SuperviseAll(s1, ops[1..]) == s3;
  }

  lemma {:induction false} SuperviseConcat(s: Sys, a: seq<SupervisorOp>, b: seq<SupervisorOp>)
    ensures SuperviseAll(s, a + b) == SuperviseAll(SuperviseAll(s, a), b)
    decreases |a|
  {
    if a == [] {
      assert a + b == b;
    } else {
      assert (a + b)[1..] == a[1..] + b;
      SuperviseConcat(Supervise1(s, a[0]), a[1..], b);
    }
  }

  /** `n` service lives, one after the other. */
  function Lives(n: nat): seq<SupervisorOp> {
    if n == 0 then [] else Lives(n - 1) + Life(100 + n, n)
  }

  lemma NoLives()
    ensures SuperviseAll(EMPTY_SYS, []) == EMPTY_SYS
  {
  }

  lemma {:induction false} LivesFillQueue(n: nat)
    requires n <= SCHEDULER_INITIAL_CAPACITY
    ensures var s := SuperviseAll(EMPTY_SYS, Lives(n));
            && s.procs == [] && s.groups == [] && s.nextPid == s.nextGid == n + 1
            && |s.ready.queue| == n
  {
    hide SuperviseAll, Life;
    if n == 0 {
      NoLives();
    } else {
      LivesFillQueue(n - 1);
      SuperviseConcat(EMPTY_SYS, Lives(n - 1), Life(100 + n, n));
      LifeLeavesPid(SuperviseAll(EMPTY_SYS, Lives(n - 1)), 100 + n);
    }
  }

  /** After 16 service lives the runtime manages no process and no group, and yet no spawn
      can ever succeed again. */
  lemma SupervisorRunsDry(fork: Option<nat>)
    requires fork != Some(INVALID_HOST_PID)
    ensures var s := SuperviseAll(EMPTY_SYS, Lives(SCHEDULER_INITIAL_CAPACITY));
            s.procs == [] && s.groups == [] && SpawnSpec(s, fork).1.None?
  {
    hide SuperviseAll, Lives, SpawnSpec;
    LivesFillQueue(SCHEDULER_INITIAL_CAPACITY);
    SpawnKeeps(SuperviseAll(EMPTY_SYS, Lives(SCHEDULER_INITIAL_CAPACITY)), fork);
  }
}
