/** What each operation of the runtime does, on plain values: the process table, the group
    table, the ready queue and the id counters, as one state. A branch of the C code is
    a branch here unless the steps before it rule it out in every state; which of the others
    can be taken is proved in RuntimeInvariants. */
module RuntimeSpec {
  import opened Sequences
  import opened Processes
  import opened ProcessTables
  import opened ProcessManagers
  import opened ProcessGroups
  import opened Schedulers

  datatype Mode = RuntimeStopped | RuntimeRunning | RuntimeStopping

  datatype Sys = Sys(
    procs: seq<Proc>, groups: seq<Group>, ready: ReadyState<nat>,
    nextPid: nat, nextGid: nat, mode: Mode)

  const EMPTY_SYS := Sys([], [], ReadyState([], None), 1, 1, RuntimeStopped)

  /** A status reported by the host for one child. */
  datatype WaitStatus = Exited(code: int) | Signaled(signal: int) | StoppedBy | ContinuedBy | OtherStatus

  function Gids(groups: seq<Group>): (r: seq<nat>)
    ensures |r| == |groups|
    ensures forall i :: 0 <= i < |groups| ==> r[i] == groups[i].id
  {
    seq(|groups|, i requires 0 <= i < |groups| => groups[i].id)
  }

  function FindGroup(groups: seq<Group>, gid: nat): (i: nat)
    ensures i <= |groups|
    ensures i < |groups| ==> groups[i].id == gid
    ensures forall k :: 0 <= k < i ==> groups[k].id != gid
  {
    IndexOf(Gids(groups), gid)
  }

  datatype Signal = Sigterm | Sigkill

  /** One kill(2) call made on a process. */
  datatype Sent = Sent(hostId: nat, signal: Signal)

  // ---- spawning ----

  /** The body shared by both spawns; `fork` is the host's answer (the new host pid). */
  function SpawnInternalSpec(s: Sys, parent: nat, gid: nat, fork: Option<nat>): (Sys, Option<nat>) {
    var g := FindGroup(s.groups, gid);
    if g == |s.groups| then (s, None)
    else if s.groups[g].cap.Some? && |s.groups[g].members| >= s.groups[g].cap.value then (s, None)
    else SpawnIntoSpec(s, parent, g, fork)
  }

  function SpawnIntoSpec(s: Sys, parent: nat, g: nat, fork: Option<nat>): (Sys, Option<nat>)
    requires g < |s.groups|
  {
    var group := s.groups[g];
    if |s.procs| >= PROCESS_MANAGER_INITIAL_CAPACITY || s.nextPid == INVALID_PID then (s, None)
    else
      var pid := s.nextPid;
      var rolledBack := s.(nextPid := pid + 1);
      if |group.members| >= PROCESS_GROUP_INITIAL_CAPACITY || fork.None? then (rolledBack, None)
      else
        // The first member's host pid becomes the host group id; a rollback does not undo this.
        var host := if group.host == INVALID_HOST_PGID then fork.value else group.host;
        if |s.ready.queue| >= SCHEDULER_INITIAL_CAPACITY then
          (rolledBack.(groups := s.groups[g := group.(host := host)]), None)
        else
          (s.(procs := s.procs + [Proc(pid, parent, group.id, fork.value, Ready, -1, -1)],
              groups := s.groups[g := group.(host := host, members := group.members + [pid])],
              ready := s.ready.(queue := s.ready.queue + [pid]),
              nextPid := pid + 1), Some(pid))
  }

  /** The two halves of that body: the new entry that is also the newest member of its group ... */
  function EnrollSpec(s: Sys, parent: nat, g: nat): (Sys, bool)
    requires g < |s.groups|
  {
    var group := s.groups[g];
    if |s.procs| >= PROCESS_MANAGER_INITIAL_CAPACITY || s.nextPid == INVALID_PID then (s, false)
    else if |group.members| >= PROCESS_GROUP_INITIAL_CAPACITY then (s.(nextPid := s.nextPid + 1), false)
    else
      (s.(procs := s.procs + [Proc(s.nextPid, parent, group.id, INVALID_HOST_PID, Created, -1, -1)],
          groups := s.groups[g := group.(members := group.members + [s.nextPid])],
          nextPid := s.nextPid + 1), true)
  }

  /** ... and what the fork makes of them. */
  function ForkSpec(s: Sys, g: nat, fork: Option<nat>): (Sys, bool)
    requires g < |s.groups| && s.procs != [] && s.groups[g].members != []
  {
    var last, group := |s.procs| - 1, s.groups[g];
    var host := if fork.Some? && group.host == INVALID_HOST_PGID then fork.value else group.host;
    if fork.Some? && |s.ready.queue| < SCHEDULER_INITIAL_CAPACITY then
      (s.(procs := s.procs[last := s.procs[last].(host := fork.value, state := Ready)],
          groups := s.groups[g := group.(host := host)],
          ready := s.ready.(queue := s.ready.queue + [s.procs[last].id])), true)
    else
      (s.(procs := s.procs[..last],
          groups := s.groups[g := group.(host := host, members := group.members[..|group.members| - 1])]), false)
  }

  lemma SpawnIntoSteps(s: Sys, parent: nat, g: nat, fork: Option<nat>)
    requires g < |s.groups|
    ensures var (s1, enrolled) := EnrollSpec(s, parent, g);
      if !enrolled then SpawnIntoSpec(s, parent, g, fork) == (s1, None)
      else
        && g < |s1.groups| && s1.procs != [] && s1.groups[g].members != []
        && var (s2, started) := ForkSpec(s1, g, fork);
           SpawnIntoSpec(s, parent, g, fork) == (s2, if started then Some(s.nextPid) else None)
  {
    var group := s.groups[g];
    assert (group.members + [s.nextPid])[..|group.members|] == group.members;
    var entry := Proc(s.nextPid, parent, group.id, INVALID_HOST_PID, Created, -1, -1);
    assert (s.procs + [entry])[..|s.procs|] == s.procs;
    assert forall p :: (s.procs + [entry])[|s.procs| := p] == s.procs + [p];
    var (s1, enrolled) := EnrollSpec(s, parent, g);
    if enrolled {
      var after := ForkSpec(s1, g, fork).0.groups[g];
      assert s1.groups[g := after] == s.groups[g := after];
      assert s.groups[g := group] == s.groups;
    }
  }

  function DestroyGroupSpec(groups: seq<Group>, gid: nat): seq<Group> {
    var g := FindGroup(groups, gid);
    if g < |groups| && groups[g].members == [] then SwapRemove(groups, g) else groups
  }

  function SpawnSpec(s: Sys, fork: Option<nat>): (Sys, Option<nat>) {
    if |s.groups| >= PROCESS_GROUP_MANAGER_INITIAL_CAPACITY || s.nextGid == INVALID_PGID then (s, None)
    else
      var gid := s.nextGid;
      var s1 := s.(groups := s.groups + [Group(gid, INVALID_HOST_PGID, [], None)], nextGid := gid + 1);
      var (s2, pid) := SpawnInternalSpec(s1, ROOT_PID, gid, fork);
      if pid.None? then (s2.(groups := DestroyGroupSpec(s2.groups, gid)), None) else (s2, pid)
  }

  function SpawnChildSpec(s: Sys, parent: nat, parentGroup: nat, fork: Option<nat>): (Sys, Option<nat>) {
    if parentGroup == INVALID_PGID then (s, None) else SpawnInternalSpec(s, parent, parentGroup, fork)
  }

  // ---- child events ----

  function EventSpec(s: Sys, host: nat, status: WaitStatus): (Sys, bool) {
    var i := FindHost(s.procs, host);
    if host == INVALID_HOST_PID || i == |s.procs| then (s, true)
    else match status
      case Exited(code) => TerminatedSpec(s.(procs := s.procs[i := s.procs[i].(exitCode := code)]), i)
      case Signaled(signal) => TerminatedSpec(s.(procs := s.procs[i := s.procs[i].(termSignal := signal)]), i)
      case StoppedBy => TransitionSpec(s, i, Stopped)
      case ContinuedBy => TransitionSpec(s, i, Running)
      case OtherStatus => (s, true)
  }

  function TransitionSpec(s: Sys, i: nat, next: ProcessState): (Sys, bool)
    requires i < |s.procs|
  {
    if CanTransition(s.procs[i].state, next)
    then (s.(procs := s.procs[i := s.procs[i].(state := next)]), true)
    else (s, false)
  }

  function TerminatedSpec(s: Sys, i: nat): (Sys, bool)
    requires i < |s.procs|
  {
    var (s1, ok) := TransitionSpec(s, i, Terminated);
    if !ok then (s1, false)
    else if s.procs[i].id == INVALID_PID then (s1, false)
    else
      var s2 := s1.(procs := Reparent(s1.procs, s.procs[i].id, ROOT_PID));
      var (ready, removed) := RemoveSpec(s2.ready, s.procs[i].id);
      (s2.(ready := ready), removed)
  }

  /** What the supervisor does with one event: no reparenting, no removal from the ready queue. */
  function DrainSpec(s: Sys, host: nat, status: WaitStatus): Sys {
    var i := FindHost(s.procs, host);
    if host == INVALID_HOST_PID || i == |s.procs| then s
    else match status
      case Exited(code) =>
        TransitionSpec(s.(procs := s.procs[i := s.procs[i].(exitCode := code)]), i, Terminated).0
      case Signaled(signal) =>
        TransitionSpec(s.(procs := s.procs[i := s.procs[i].(termSignal := signal)]), i, Terminated).0
      case _ => s
  }

  // ---- dispatching ----

  predicate Accepts(s: Sys, pid: nat, next: ProcessState) {
    var i := FindPid(s.procs, pid);
    i < |s.procs| && CanTransition(s.procs[i].state, next)
  }

  function SetState(procs: seq<Proc>, pid: nat, next: ProcessState): seq<Proc> {
    var i := FindPid(procs, pid);
    if i < |procs| then procs[i := procs[i].(state := next)] else procs
  }

  function DispatchSysSpec(s: Sys): (Sys, bool) {
    if s.ready.queue == [] then (s, false)
    else
      var head := s.ready.queue[0];
      var (ready, ok) := DispatchSpec(s.ready, Accepts(s, head, Running));
      (s.(ready := ready, procs := if ok then SetState(s.procs, head, Running) else s.procs), ok)
  }

  function YieldSysSpec(s: Sys): (Sys, bool) {
    if s.ready.current.None? then (s, false)
    else
      var pid := s.ready.current.value;
      var (ready, ok) := YieldSpec(s.ready, SCHEDULER_INITIAL_CAPACITY, Accepts(s, pid, Ready));
      (s.(ready := ready, procs := if ok then SetState(s.procs, pid, Ready) else s.procs), ok)
  }

  // ---- reaping ----

  function ReapFoundSpec(s: Sys, i: nat): (r: (Sys, bool))
    requires i < |s.procs|
    ensures r.1 ==> |r.0.procs| < |s.procs|
  {
    var p := s.procs[i];
    var g := FindGroup(s.groups, p.group);
    if g == |s.groups| then (s, false)
    else
      var group := s.groups[g];
      var m := IndexOf(group.members, p.id);
      if m == |group.members| then (s, false)
      else
        var members := SwapRemove(group.members, m);
        var groups := s.groups[g := group.(members := members)];
        (s.(procs := SwapRemove(s.procs, FindPid(s.procs, p.id)),
            groups := if members == [] then SwapRemove(groups, g) else groups), true)
  }

  function ReapChildSpec(s: Sys, parent: nat): (Sys, Option<nat>) {
    var i := FindZombie(s.procs, parent);
    if parent == INVALID_PID || i == |s.procs| then (s, None)
    else
      var (s', ok) := ReapFoundSpec(s, i);
      (s', if ok then Some(s.procs[i].id) else None)
  }

  function ReapProcessSpec(s: Sys, pid: nat): (Sys, bool) {
    var i := FindPid(s.procs, pid);
    if i == |s.procs| || s.procs[i].state != Terminated then (s, false) else ReapFoundSpec(s, i)
  }

  function ReapRootSpec(s: Sys): (Sys, bool)
    decreases |s.procs|
  {
    if FindZombie(s.procs, ROOT_PID) == |s.procs| then (s, true)
    else
      var (s', ok) := ReapFoundSpec(s, FindZombie(s.procs, ROOT_PID));
      if ok then ReapRootSpec(s') else (s', false)
  }

  // ---- the run loop ----

  datatype Poll = PollFailed | NoChild | ChildEvent(host: nat, status: WaitStatus)

  /** Is this the report that the process at position `i` ended? Only the first entry with the
      host pid gets it. */
  predicate Terminates(procs: seq<Proc>, i: nat, poll: Poll) {
    && poll.ChildEvent? && (poll.status.Exited? || poll.status.Signaled?)
    && poll.host != INVALID_HOST_PID && FindHost(procs, poll.host) == i
  }

  /** `Pending`: the given answers of the host ran out with the loop still going. */
  datatype Outcome = Completed | Failed | Pending

  function ShutdownSpec(s: Sys): (Sys, bool) {
    if s.mode != RuntimeStopping then (s, false)
    else
      var (s', ok) := ReapRootSpec(s);
      if ok then (s'.(mode := RuntimeStopped), true) else (s', false)
  }

  /** One poll and what follows it, up to the live-process test; false aborts the run. */
  function PollSpec(s: Sys, poll: Poll): (Sys, bool) {
    match poll
    case PollFailed => (s.(mode := RuntimeStopped), false)
    case NoChild => (s, true)
    case ChildEvent(host, status) =>
      var (s1, handled) := EventSpec(s, host, status);
      if !handled then (s1.(mode := RuntimeStopped), false)
      else if s1.ready.current.None? && s1.ready.queue != [] then
        var (s2, dispatched) := DispatchSysSpec(s1);
        if dispatched then (s2, true) else (s2.(mode := RuntimeStopped), false)
      else (s1, true)
  }

  function LoopSpec(s: Sys, polls: seq<Poll>): (Sys, Outcome)
    decreases |polls|
  {
    if polls == [] then (s, Pending)
    else
      var (s1, going) := PollSpec(s, polls[0]);
      if !going then (s1, Failed)
      else if LiveCount(s1.procs) == 0 then
        var (s2, ok) := ShutdownSpec(s1.(mode := RuntimeStopping));
        (s2, if ok then Completed else Failed)
      else LoopSpec(s1, polls[1..])
  }

  function RunSpec(s: Sys, polls: seq<Poll>): (Sys, Outcome) {
    if s.mode != RuntimeStopped then (s, Failed)
    else
      var s0 := s.(mode := RuntimeRunning);
      if s.ready.queue != [] then
        var (s1, dispatched) := DispatchSysSpec(s0);
        if dispatched then LoopSpec(s1, polls) else (s1.(mode := RuntimeStopped), Failed)
      else LoopSpec(s0, polls)
  }
}
