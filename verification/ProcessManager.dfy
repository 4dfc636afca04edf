/** The process table: a fixed array of slots, an entry count and a pid counter. */
module ProcessManagers {
  import opened Sequences
  import opened Processes
  import opened ProcessTables

  const PROCESS_MANAGER_INITIAL_CAPACITY: nat := 16

  class ProcessManager {
    const processes: array<Process?>
    var count: nat
    var nextPid: nat
    ghost var table: seq<Process>

    ghost predicate Valid()
      reads this, processes
    {
      && |table| == count <= processes.Length
      && (forall i :: 0 <= i < count ==> processes[i] == table[i])
      && (forall i :: count <= i < processes.Length ==> processes[i] == null)
      && 0 < nextPid <= INVALID_PID
      && NoDup(Ids(table))
      && (forall i :: 0 <= i < count ==> 0 < table[i].id < nextPid)
    }

    constructor ()
      ensures Valid() && fresh(processes) && processes.Length == PROCESS_MANAGER_INITIAL_CAPACITY
      ensures table == [] && nextPid == 1
    {
      processes := new Process?[PROCESS_MANAGER_INITIAL_CAPACITY](_ => null);
      count := 0;
      nextPid := 1;
      table := [];
    }

    method AllocatePid() returns (id: nat)
      requires nextPid <= INVALID_PID
      modifies `nextPid
      ensures id == old(nextPid)
      ensures nextPid == if id == INVALID_PID then id else id + 1
    {
      if nextPid == INVALID_PID {
        return INVALID_PID;
      }
      id := nextPid;
      nextPid := nextPid + 1;
    }

    method CreateProcess(parentId: nat, groupId: nat) returns (process: Process?)
      requires Valid()
      modifies this, processes
      ensures Valid()
      ensures process == null <==> old(count) == processes.Length || old(nextPid) == INVALID_PID
      ensures process == null ==> table == old(table) && nextPid == old(nextPid)
      ensures process != null ==>
        && fresh(process)
        && process.Value() == Proc(old(nextPid), parentId, groupId, INVALID_HOST_PID, Created, -1, -1)
        && table == old(table) + [process]
        && nextPid == old(nextPid) + 1
    {
      if count >= processes.Length {
        return null;
      }
      var id := AllocatePid();
      if id == INVALID_PID {
        return null;
      }
      process := new Process(id, parentId, groupId);
      processes[count] := process;
      count := count + 1;
      table := table + [process];
    }

    method FindIndex(id: nat) returns (i: nat)
      requires Valid()
      ensures i == IndexOf(Ids(table), id)
    {
      i := 0;
      while i < count
        invariant i <= count
        invariant forall k :: 0 <= k < i ==> table[k].id != id
      {
        if processes[i].id == id {
          return i;
        }
        i := i + 1;
      }
    }

    method Get(id: nat) returns (process: Process?)
      requires Valid()
      ensures var i := IndexOf(Ids(table), id);
              process == if i < |table| then table[i] else null
    {
      var index := FindIndex(id);
      return if index < count then processes[index] else null;
    }

    method GetByHostId(hostId: nat) returns (process: Process?)
      requires Valid()
      ensures var i := FindHost(Values(table), hostId);
              process == if hostId != INVALID_HOST_PID && i < |table| then table[i] else null
    {
      if hostId == INVALID_HOST_PID {
        return null;
      }
      for i := 0 to count
        invariant forall k :: 0 <= k < i ==> table[k].hostId != hostId
      {
        if processes[i].hostId == hostId {
          return processes[i];
        }
      }
      return null;
    }

    method GetLiveCount() returns (n: nat)
      requires Valid()
      ensures n == LiveCount(Values(table)) == |LivePositions(Values(table))|
    {
      n := 0;
      ghost var vs := Values(table);
      for i := 0 to count
        invariant n == LiveCount(vs[..i])
      {
        assert vs[..i + 1][..i] == vs[..i];
        if processes[i].state != Terminated {
          n := n + 1;
        }
      }
      assert vs[..count] == vs;
      LiveCountIsSize(vs);
    }

    method GetChildCount(parentId: nat) returns (n: nat)
      requires Valid()
      ensures n == if parentId == INVALID_PID then 0 else ChildCount(Values(table), parentId)
      ensures parentId != INVALID_PID ==> n == |ChildPositions(Values(table), parentId)|
    {
      n := 0;
      if parentId == INVALID_PID {
        return;
      }
      ghost var vs := Values(table);
      for i := 0 to count
        invariant n == ChildCount(vs[..i], parentId)
      {
        assert vs[..i + 1][..i] == vs[..i];
        if processes[i].parentId == parentId {
          n := n + 1;
        }
      }
      assert vs[..count] == vs;
      ChildCountIsSize(vs, parentId);
    }

    /** The last entry moves into the hole. */
    method FillHole(index: nat)
      requires Valid() && index < count
      modifies `count, `table, processes
      ensures Valid() && table == SwapRemove(old(table), index)
    {
      SwapRemoveKeepsIds(table, index, nextPid);
      hide NoDup;
      var last := count - 1;
      processes[index] := processes[last];
      processes[last] := null;
      count := count - 1;
      table := SwapRemove(table, index);
    }

    method DestroyProcess(id: nat) returns (ok: bool)
      requires Valid()
      modifies this, processes
      ensures Valid() && nextPid == old(nextPid)
      ensures var i := IndexOf(Ids(old(table)), id);
              && ok == (i < |old(table)|)
              && table == if ok then SwapRemove(old(table), i) else old(table)
    {
      hide NoDup;
      if id == INVALID_PID {
        assert forall i :: 0 <= i < |table| ==> Ids(table)[i] < nextPid;
        return false;
      }
      var index := FindIndex(id);
      if index == count {
        return false;
      }
      FillHole(index);
      return true;
    }

    method WaitChild(parentId: nat) returns (process: Process?)
      requires Valid()
      ensures var i := FindZombie(Values(table), parentId);
              process == if parentId != INVALID_PID && i < |table| then table[i] else null
    {
      if parentId == INVALID_PID {
        return null;
      }
      for i := 0 to count
        invariant forall k :: 0 <= k < i ==> !IsZombieOf(table[k].Value(), parentId)
      {
        var process := processes[i];
        if process.parentId == parentId && process.state == Terminated {
          return process;
        }
      }
      return null;
    }

    method ReparentChildren(parentId: nat, newParentId: nat) returns (ok: bool)
      requires Valid()
      modifies table`parentId
      ensures ok == (parentId != INVALID_PID)
      ensures Values(table) == if ok then Reparent(old(Values(table)), parentId, newParentId) else old(Values(table))
    {
      if parentId == INVALID_PID {
        return false;
      }
      RewriteParents(parentId, newParentId);
      return true;
    }

    method RewriteParents(parentId: nat, newParentId: nat)
      requires Valid()
      modifies table`parentId
      ensures forall k :: 0 <= k < count ==>
        table[k].parentId == if old(table[k].parentId) == parentId then newParentId else old(table[k].parentId)
    {
      ghost var t := table;
      ghost var was: seq<nat> := seq(|t|, k requires 0 <= k < |t| reads t => t[k].parentId);
      var walk := new ChildIterator(this, parentId);
      var child := walk.Next();
      while child != null
        modifies walk, table`parentId
        invariant walk.manager == this && walk.parentId == parentId && walk.index <= count
        invariant child == null ==> walk.index == count
        invariant child != null ==> 0 < walk.index && child == t[walk.index - 1] && child.parentId == parentId
        invariant forall k :: 0 <= k < (if child == null then count else walk.index - 1) ==>
          t[k].parentId == if was[k] == parentId then newParentId else was[k]
        invariant forall k :: (if child == null then count else walk.index - 1) <= k < count ==>
          t[k].parentId == was[k]
        decreases if child == null then 0 else 1 + count - walk.index
      {
        DistinctEntries(t, walk.index - 1);
        child.parentId := newParentId;
        child := walk.Next();
      }
    }
  }

  /** Walks the entries whose parent is `parentId`, each position at most once. */
  class ChildIterator {
    const manager: ProcessManager
    const parentId: nat
    var index: nat

    constructor (manager: ProcessManager, parentId: nat)
      ensures this.manager == manager && this.parentId == parentId && index == 0
    {
      this.manager := manager;
      this.parentId := parentId;
      index := 0;
    }

    method Next() returns (process: Process?)
      requires manager.Valid()
      requires index <= manager.count
      modifies `index
      ensures old(index) <= index <= manager.count
      ensures process != null ==>
        && old(index) < index && process == manager.table[index - 1] && process.parentId == parentId
        && forall k :: old(index) <= k < index - 1 ==> manager.table[k].parentId != parentId
      ensures process == null ==>
        && index == manager.count
        && forall k :: old(index) <= k < index ==> manager.table[k].parentId != parentId
    {
      while index < manager.count
        invariant old(index) <= index <= manager.count
        invariant forall k :: old(index) <= k < index ==> manager.table[k].parentId != parentId
      {
        process := manager.processes[index];
        index := index + 1;
        if process.parentId == parentId {
          return;
        }
      }
      return null;
    }
  }

  lemma SwapRemoveKeepsIds(ps: seq<Process>, i: nat, bound: nat)
    requires NoDup(Ids(ps)) && i < |ps|
    requires forall k :: 0 <= k < |ps| ==> 0 < ps[k].id < bound
    ensures NoDup(Ids(SwapRemove(ps, i)))
    ensures forall k :: 0 <= k < |ps| - 1 ==> 0 < SwapRemove(ps, i)[k].id < bound
  {
    SwapRemoveContents(Ids(ps), i);
    assert Ids(SwapRemove(ps, i)) == SwapRemove(Ids(ps), i);
  }

  lemma DistinctEntries(ps: seq<Process>, i: nat)
    requires NoDup(Ids(ps)) && i < |ps|
    ensures forall k :: 0 <= k < |ps| && k != i ==> ps[k] != ps[i]
  {
    forall k | 0 <= k < |ps| && k != i ensures ps[k] != ps[i] {
      assert Ids(ps)[k] != Ids(ps)[i];
    }
  }
}
