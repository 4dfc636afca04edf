/** The process record and its state machine. */
module Processes {
  import opened Sequences

  datatype ProcessState = Created | Ready | Running | Stopped | Blocked | Terminated

  const ROOT_PID: nat := 0
  const INVALID_PID: nat := 0xFFFF_FFFF
  const INVALID_HOST_PID: nat := 0

  predicate CanTransition(current: ProcessState, next: ProcessState) {
    match current
    case Created => next == Ready
    case Ready => next == Running || next == Stopped || next == Terminated
    case Running => next == Ready || next == Stopped || next == Blocked || next == Terminated
    case Stopped => next == Running || next == Terminated
    case Blocked => next == Ready || next == Terminated
    case Terminated => false
  }

  /** The same table by its columns: from where each state is reached. */
  lemma Predecessors(current: ProcessState, next: ProcessState)
    ensures CanTransition(current, next) <==>
      match next
      case Created => false
      case Ready => current in {Created, Running, Blocked}
      case Running => current in {Ready, Stopped}
      case Stopped => current in {Ready, Running}
      case Blocked => current == Running
      case Terminated => current !in {Created, Terminated}
  {
  }

  /** The value of a process record: what the tables say about one process. */
  datatype Proc = Proc(
    id: nat, parent: nat, group: nat, host: nat,
    state: ProcessState, exitCode: int, termSignal: int)

  predicate Live(p: Proc) {
    p.state != Terminated
  }

  class Process {
    const id: nat
    const groupId: nat
    var parentId: nat
    var hostId: nat
    var state: ProcessState
    var exitCode: int
    var termSignal: int

    constructor (id: nat, parentId: nat, groupId: nat)
      ensures this.id == id && this.groupId == groupId
      ensures Value() == Proc(id, parentId, groupId, INVALID_HOST_PID, Created, -1, -1)
    {
      this.id := id;
      this.groupId := groupId;
      this.parentId := parentId;
      hostId := INVALID_HOST_PID;
      state := Created;
      exitCode := -1;
      termSignal := -1;
    }

    function Value(): Proc
      reads this
    {
      Proc(id, parentId, groupId, hostId, state, exitCode, termSignal)
    }

    method Transition(next: ProcessState) returns (ok: bool)
      modifies `state
      ensures ok == CanTransition(old(state), next)
      ensures state == if ok then next else old(state)
    {
      if !CanTransition(state, next) {
        return false;
      }
      state := next;
      return true;
    }
  }

  /** The identifiers of a list of processes; identifiers never change. */
  ghost function Ids(ps: seq<Process>): (r: seq<nat>)
    ensures |r| == |ps|
    ensures forall i :: 0 <= i < |ps| ==> r[i] == ps[i].id
  {
    seq(|ps|, i requires 0 <= i < |ps| => ps[i].id)
  }

  lemma IdOfMember(ps: seq<Process>, p: Process)
    requires p in ps
    ensures p.id in Ids(ps)
  {
    var k :| 0 <= k < |ps| && ps[k] == p;
    assert Ids(ps)[k] == p.id;
  }

  lemma IdsSwapRemove(ps: seq<Process>, i: nat)
    requires i < |ps|
    ensures Ids(SwapRemove(ps, i)) == SwapRemove(Ids(ps), i)
  {
  }

  /** The present values of a list of processes. */
  ghost function Values(ps: seq<Process>): (r: seq<Proc>)
    reads ps
    ensures |r| == |ps|
    ensures forall i :: 0 <= i < |ps| ==> r[i] == ps[i].Value()
  {
    seq(|ps|, i requires 0 <= i < |ps| reads ps => ps[i].Value())
  }

  lemma ValuesSwapRemove(ps: seq<Process>, i: nat)
    requires i < |ps|
    ensures Values(SwapRemove(ps, i)) == SwapRemove(Values(ps), i)
  {
  }

  lemma ValuesAppend(ps: seq<Process>, p: Process)
    ensures Values(ps + [p]) == Values(ps) + [p.Value()]
  {
  }

  function Pids(procs: seq<Proc>): (r: seq<nat>)
    ensures |r| == |procs|
    ensures forall i :: 0 <= i < |procs| ==> r[i] == procs[i].id
  {
    seq(|procs|, i requires 0 <= i < |procs| => procs[i].id)
  }

  /** The states a process may pass through, one accepted transition at a time. */
  ghost predicate IsHistory(h: seq<ProcessState>) {
    && h != []
    && h[0] == Created
    && forall k :: 0 <= k < |h| - 1 ==> CanTransition(h[k], h[k + 1])
  }

  /** Along every history a process is Created only at the start, has to be Ready before
      anything else, and once Terminated it never changes again. */
  lemma {:induction false} HistoryShape(h: seq<ProcessState>)
    requires IsHistory(h)
    ensures forall k :: 0 < k < |h| ==> h[k] != Created
    ensures 1 < |h| ==> h[1] == Ready
    ensures forall k :: 0 <= k < |h| - 1 ==> h[k] != Terminated
  {
    forall k | 0 < k < |h| ensures h[k] != Created {
      assert CanTransition(h[k - 1], h[k - 1 + 1]);
    }
    if 1 < |h| { assert CanTransition(h[0], h[0 + 1]); }
    forall k | 0 <= k < |h| - 1 ensures h[k] != Terminated {
      assert CanTransition(h[k], h[k + 1]);
    }
  }
}
