/** The ready queue: a circular array that refines a plain first-in first-out sequence
    with deletion from the middle, and the round-robin progress it gives. */
module Schedulers {
  import opened Sequences
  import opened Processes

  const SCHEDULER_INITIAL_CAPACITY: nat := 16

  /** What the scheduler means: who waits, in order, and who has been dispatched. */
  datatype ReadyState<+T> = ReadyState(queue: seq<T>, current: Option<T>)

  function AddSpec<T>(st: ReadyState<T>, x: T, capacity: nat): (ReadyState<T>, bool) {
    if |st.queue| >= capacity then (st, false) else (st.(queue := st.queue + [x]), true)
  }

  function RemoveSpec<T(==)>(st: ReadyState<T>, x: T): (ReadyState<T>, bool) {
    if st.current == Some(x) then (st.(current := None), true)
    else
      var i := IndexOf(st.queue, x);
      if i < |st.queue| then (st.(queue := RemoveAt(st.queue, i)), true) else (st, false)
  }

  function NextSpec<T>(st: ReadyState<T>): ReadyState<T> {
    if st.queue == [] then st else st.(queue := st.queue[1..])
  }

  /** `accepts`: does the process at the head accept the transition to RUNNING? */
  function DispatchSpec<T>(st: ReadyState<T>, accepts: bool): (ReadyState<T>, bool) {
    if st.current.Some? || st.queue == [] then (st, false)
    else if accepts then (ReadyState(st.queue[1..], Some(st.queue[0])), true)
    else (st.(queue := st.queue[1..] + [st.queue[0]]), false)
  }

  /** `accepts`: does the current process accept the transition to READY? */
  function YieldSpec<T>(st: ReadyState<T>, capacity: nat, accepts: bool): (ReadyState<T>, bool) {
    if st.current.None? || |st.queue| >= capacity || !accepts then (st, false)
    else (ReadyState(st.queue + [st.current.value], None), true)
  }

  /** The array index of a queue offset. */
  function Slot(head: nat, offset: nat, capacity: nat): (i: nat)
    requires head < capacity && offset <= capacity
    ensures i < capacity
  {
    if head + offset < capacity then head + offset else head + offset - capacity
  }

  /** The modular form the array accesses use. */
  lemma SlotIsModular(head: nat, offset: nat, capacity: nat)
    requires head < capacity && offset <= capacity
    ensures (head + offset) % capacity == Slot(head, offset, capacity)
  {
    var x := head + offset;
    Remainder(x, capacity, x / capacity, x % capacity);
  }

  lemma Remainder(x: nat, c: nat, quotient: nat, rest: nat)
    requires x == quotient * c + rest && rest < c && x < 2 * c
    ensures rest == if x < c then x else x - c
  {
    if quotient > 0 { Multiples(1, quotient, c); }
    if quotient > 1 { Multiples(2, quotient, c); }
  }

  lemma Multiples(a: nat, b: nat, c: nat)
    requires a <= b
    ensures a * c <= b * c
  {
  }

  class Scheduler {
    const readyQueue: array<Process?>
    var head: nat
    var tail: nat
    var count: nat
    var current: Process?
    ghost var queue: seq<Process>

    ghost predicate Valid()
      reads this, readyQueue
    {
      && head < readyQueue.Length
      && |queue| == count <= readyQueue.Length
      && tail == Slot(head, count, readyQueue.Length)
      && (forall i {:trigger Slot(head, i, readyQueue.Length)} :: 0 <= i < count ==>
            readyQueue[Slot(head, i, readyQueue.Length)] == queue[i])
      && (forall i :: count <= i < readyQueue.Length ==> readyQueue[Slot(head, i, readyQueue.Length)] == null)
    }

    ghost function State(): ReadyState<Process>
      reads this
    {
      ReadyState(queue, if current == null then None else Some(current as Process))
    }

    constructor (capacity: nat)
      requires 0 < capacity
      ensures Valid() && fresh(readyQueue) && readyQueue.Length == capacity
      ensures State() == ReadyState([], None)
    {
      readyQueue := new Process?[capacity](_ => null);
      head, tail, count := 0, 0, 0;
      current := null;
      queue := [];
    }

    method Advance(index: nat) returns (r: nat)
      requires index < readyQueue.Length
      ensures r == if index + 1 == readyQueue.Length then 0 else index + 1
    {
      r := (index + 1) % readyQueue.Length;
    }

    method Retreat(index: nat) returns (r: nat)
      requires index < readyQueue.Length
      ensures r == if index == 0 then readyQueue.Length - 1 else index - 1
    {
      r := (index + readyQueue.Length - 1) % readyQueue.Length;
      assert index > 0 ==> index + readyQueue.Length - 1 == readyQueue.Length + (index - 1);
    }

    method IndexAt(offset: nat) returns (r: nat)
      requires head < readyQueue.Length && offset <= readyQueue.Length
      ensures r == Slot(head, offset, readyQueue.Length)
    {
      SlotIsModular(head, offset, readyQueue.Length);
      r := (head + offset) % readyQueue.Length;
    }

    method Add(process: Process) returns (ok: bool)
      requires Valid()
      modifies this, readyQueue
      ensures Valid()
      ensures (State(), ok) == AddSpec(old(State()), process, readyQueue.Length)
    {
      if count >= readyQueue.Length {
        return false;
      }
      readyQueue[tail] := process;
      tail := Advance(tail);
      count := count + 1;
      queue := queue + [process];
      return true;
    }

    method Remove(process: Process) returns (ok: bool)
      requires Valid()
      modifies this, readyQueue
      ensures Valid()
      ensures (State(), ok) == RemoveSpec(old(State()), process)
    {
      if current == process {
        current := null;
        return true;
      }
      var i := 0;
      while i < count
        invariant Valid() && State() == old(State())
        invariant i <= count
        invariant forall k :: 0 <= k < i ==> queue[k] != process
      {
        var index := IndexAt(i);
        if readyQueue[index] != process {
          i := i + 1;
        } else {
          IndexOfFirst(queue, process, i);
          CloseGap(i);
          return true;
        }
      }
      return false;
    }

    /** The shift of everything behind offset `i` one place forward, across the wrap. */
    method CloseGap(i: nat)
      requires Valid() && i < count
      modifies this`tail, this`count, this`queue, readyQueue
      ensures Valid()
      ensures queue == RemoveAt(old(queue), i)
    {
      ShiftForward(i);
      var lastIndex := IndexAt(count - 1);
      readyQueue[lastIndex] := null;
      tail := Retreat(tail);
      count := count - 1;
      queue := RemoveAt(queue, i);
    }

    method ShiftForward(i: nat)
      requires Valid() && i < count
      modifies readyQueue
      ensures forall k {:trigger Slot(head, k, readyQueue.Length)} :: 0 <= k < readyQueue.Length ==>
        readyQueue[Slot(head, k, readyQueue.Length)]
        == if count <= k then null else if i <= k < count - 1 then queue[k + 1] else queue[k]
    {
      var j := i;
      while j + 1 < count
        invariant i <= j < count
        invariant forall k {:trigger Slot(head, k, readyQueue.Length)} :: 0 <= k < readyQueue.Length ==>
          readyQueue[Slot(head, k, readyQueue.Length)]
          == if count <= k then null else if i <= k < j then queue[k + 1] else queue[k]
      {
        var currentIndex := IndexAt(j);
        var nextIndex := IndexAt(j + 1);
        readyQueue[currentIndex] := readyQueue[nextIndex];
        j := j + 1;
      }
    }

    method Next() returns (process: Process?)
      requires Valid()
      modifies this, readyQueue
      ensures Valid()
      ensures current == old(current)
      ensures (process == null) == (old(queue) == [])
      ensures process != null ==> process == old(queue)[0] && queue == old(queue)[1..]
      ensures process == null ==> queue == old(queue)
    {
      if count == 0 {
        return null;
      }
      assert Slot(head, 0, readyQueue.Length) == head;
      process := readyQueue[head];
      assert process == queue[0];
      readyQueue[head] := null;
      ghost var h := head;
      head := Advance(head);
      count := count - 1;
      queue := queue[1..];
      forall i | 0 <= i < readyQueue.Length - 1
        ensures Slot(head, i, readyQueue.Length) == Slot(h, i + 1, readyQueue.Length)
      {
      }
      assert Slot(head, readyQueue.Length - 1, readyQueue.Length) == h;
    }

    method Dispatch() returns (ok: bool)
      requires Valid()
      modifies this, readyQueue, if queue == [] then {} else {queue[0]}
      ensures Valid()
      ensures (State(), ok)
           == DispatchSpec(old(State()), old(queue != [] && CanTransition(queue[0].state, Running)))
      ensures old(queue) != [] ==>
                old(queue)[0].Value() == old(queue[0].Value()).(state := if ok then Running else old(queue[0].state))
    {
      if current != null {
        return false;
      }
      var process := Next();
      if process == null {
        return false;
      }
      ok := process.Transition(Running);
      if !ok {
        var _ := Add(process);
        return false;
      }
      current := process;
    }

    method Yield() returns (ok: bool)
      requires Valid()
      modifies this, readyQueue, if current == null then {} else {current as Process}
      ensures Valid()
      ensures (State(), ok)
           == YieldSpec(old(State()), readyQueue.Length, old(current != null && CanTransition(current.state, Ready)))
      ensures old(current) != null ==>
        (old(current) as Process).Value()
        == old((current as Process).Value()).(state := if ok then Ready else old(current.state))
    {
      var running := current;
      if running == null {
        return false;
      }
      if count >= readyQueue.Length {
        return false;
      }
      ok := running.Transition(Ready);
      if !ok {
        return false;
      }
      current := null;
      ok := Add(running);
    }
  }

  lemma IndexOfFirst<T>(s: seq<T>, x: T, i: nat)
    requires i < |s| && s[i] == x && forall k :: 0 <= k < i ==> s[k] != x
    ensures IndexOf(s, x) == i
  {
  }

  // ---- Round-robin progress ----

  /** Everything that can happen to the ready queue. */
  datatype QueueOp<T> = AddOp(x: T) | RemoveOp(x: T) | NextOp | DispatchOp(accepts: bool) | YieldOp(accepts: bool)

  function Step<T(==)>(st: ReadyState<T>, op: QueueOp<T>, capacity: nat): ReadyState<T> {
    match op
    case AddOp(x) => AddSpec(st, x, capacity).0
    case RemoveOp(x) => RemoveSpec(st, x).0
    case NextOp => NextSpec(st)
    case DispatchOp(a) => DispatchSpec(st, a).0
    case YieldOp(a) => YieldSpec(st, capacity, a).0
  }

  /** A dispatch attempt that is not refused at once: nobody is current, somebody waits. */
  predicate IsAttempt<T>(st: ReadyState<T>, op: QueueOp<T>) {
    op.DispatchOp? && st.current.None? && st.queue != []
  }

  /** How many steps of the run are dispatch attempts. */
  function Attempts<T(==)>(st: ReadyState<T>, ops: seq<QueueOp<T>>, capacity: nat): nat
    decreases |ops|
  {
    if ops == [] then 0
    else (if IsAttempt(st, ops[0]) then 1 else 0) + Attempts(Step(st, ops[0], capacity), ops[1..], capacity)
  }

  function After<T(==)>(st: ReadyState<T>, ops: seq<QueueOp<T>>, capacity: nat): ReadyState<T>
    decreases |ops|
  {
    if ops == [] then st else After(Step(st, ops[0], capacity), ops[1..], capacity)
  }

  /** One step moves a waiting process forward by one place if it is an attempt, and never back. */
  lemma {:induction false} StepMovesForward<T>(st: ReadyState<T>, op: QueueOp<T>, capacity: nat, p: T)
    requires p in st.queue && st.queue[0] != p && op != RemoveOp(p)
    ensures var st' := Step(st, op, capacity);
            && p in st'.queue
            && IndexOf(st'.queue, p) + (if IsAttempt(st, op) then 1 else 0) <= IndexOf(st.queue, p)
            && (IsAttempt(st, op) ==> IndexOf(st'.queue, p) == IndexOf(st.queue, p) - 1)
  {
    hide IndexOf, RemoveAt;
    var q := st.queue;
    match op
    case AddOp(x) => AppendKeepsPlace(q, x, p);
    case YieldOp(_) => if st.current.Some? { AppendKeepsPlace(q, st.current.value, p); }
    case RemoveOp(x) => if x in q { RemoveKeepsPlace(q, IndexOf(q, x), p); }
    case NextOp => HeadLeaves(q, q[1..], p);
    case DispatchOp(_) =>
      HeadLeaves(q, q[1..], p);
      HeadLeaves(q, q[1..] + [q[0]], p);
  }

  lemma AppendKeepsPlace<T>(q: seq<T>, x: T, p: T)
    requires p in q
    ensures p in q + [x] && IndexOf(q + [x], p) <= IndexOf(q, p)
  {
    assert (q + [x])[IndexOf(q, p)] == p;
  }

  lemma RemoveKeepsPlace<T>(q: seq<T>, i: nat, p: T)
    requires p in q && i < |q| && q[i] != p
    ensures p in RemoveAt(q, i) && IndexOf(RemoveAt(q, i), p) <= IndexOf(q, p)
  {
    hide IndexOf, RemoveAt;
    var k := IndexOf(q, p);
    RemoveAtIndex(q, i, k);
    IndexOfAtMost(RemoveAt(q, i), p, if i < k then k - 1 else k);
  }

  lemma HeadLeaves<T>(q: seq<T>, q': seq<T>, p: T)
    requires p in q && q[0] != p
    requires |q| - 1 <= |q'| && q'[..|q| - 1] == q[1..]
    ensures p in q' && IndexOf(q', p) == IndexOf(q, p) - 1
  {
    var k := IndexOf(q, p);
    forall m | 0 <= m < k ensures q'[m] == q[m + 1] { assert q'[m] == q'[..|q| - 1][m]; }
    assert q'[k - 1] == p;
  }

  lemma IndexOfAtMost<T>(s: seq<T>, x: T, i: nat)
    requires i < |s| && s[i] == x
    ensures x in s && IndexOf(s, x) <= i
  {
  }

  /** No starvation: a process at position k that is not taken out by hand is at the head
      after some prefix of every run holding k dispatch attempts, successful or refused;
      the next attempt is then its own. */
  lemma {:induction false} NoStarvation<T>(st: ReadyState<T>, ops: seq<QueueOp<T>>, capacity: nat, p: T)
    requires p in st.queue && RemoveOp(p) !in ops
    requires IndexOf(st.queue, p) <= Attempts(st, ops, capacity)
    ensures exists n :: 0 <= n <= |ops| && AtHead(After(st, ops[..n], capacity), p)
    decreases |ops|
  {
    if st.queue[0] == p {
      assert ops[..0] == [];
      assert AtHead(After(st, ops[..0], capacity), p);
    } else {
      StepMovesForward(st, ops[0], capacity, p);
      var st' := Step(st, ops[0], capacity);
      NoStarvation(st', ops[1..], capacity, p);
      var n :| 0 <= n <= |ops[1..]| && AtHead(After(st', ops[1..][..n], capacity), p);
      assert ops[..n + 1][1..] == ops[1..][..n];
      assert AtHead(After(st, ops[..n + 1], capacity), p);
    }
  }

  predicate AtHead<T(==)>(st: ReadyState<T>, p: T) {
    st.queue != [] && st.queue[0] == p
  }
}
