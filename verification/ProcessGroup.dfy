/** A process group (membership array, host group id, optional member cap) and the table of groups. */
module ProcessGroups {
  import opened Sequences
  import opened Processes

  const PROCESS_GROUP_INITIAL_CAPACITY: nat := 16
  const PROCESS_GROUP_MANAGER_INITIAL_CAPACITY: nat := 16
  const INVALID_PGID: nat := 0xFFFF_FFFF
  const INVALID_HOST_PGID: nat := 0

  /** The value of a group: its members are named by process id. */
  datatype Group = Group(id: nat, host: nat, members: seq<nat>, cap: Option<nat>)

  class ProcessGroup {
    const id: nat
    const processes: array<Process?>
    var hostId: nat
    var count: nat
    var hasMaxMembers: bool
    var maxMembers: nat
    ghost var members: seq<Process>

    ghost predicate Valid()
      reads this, processes
    {
      && |members| == count <= processes.Length
      && (forall i :: 0 <= i < count ==> processes[i] == members[i])
      && (forall i :: count <= i < processes.Length ==> processes[i] == null)
      && NoDup(members)
    }

    ghost function Value(): Group
      reads this
    {
      Group(id, hostId, Ids(members), if hasMaxMembers then Some(maxMembers) else None)
    }

    constructor (id: nat)
      ensures Valid() && fresh(processes) && processes.Length == PROCESS_GROUP_INITIAL_CAPACITY
      ensures this.id == id && members == [] && Value() == Group(id, INVALID_HOST_PGID, [], None)
    {
      this.id := id;
      processes := new Process?[PROCESS_GROUP_INITIAL_CAPACITY](_ => null);
      hostId := INVALID_HOST_PGID;
      count := 0;
      hasMaxMembers := false;
      maxMembers := 0;
      members := [];
    }

    method FindIndex(process: Process) returns (i: nat)
      requires Valid()
      ensures i == IndexOf(members, process)
    {
      i := 0;
      while i < count
        invariant i <= count
        invariant forall k :: 0 <= k < i ==> members[k] != process
      {
        if processes[i] == process {
          return i;
        }
        i := i + 1;
      }
    }

    method Add(process: Process) returns (ok: bool)
      requires Valid()
      modifies `count, `members, processes
      ensures Valid()
      ensures ok == (old(count) < processes.Length && process.groupId == id && process !in old(members))
      ensures members == if ok then old(members) + [process] else old(members)
    {
      if count >= processes.Length {
        return false;
      }
      if process.groupId != id {
        return false;
      }
      var index := FindIndex(process);
      if index < count {
        return false;
      }
      processes[count] := process;
      count := count + 1;
      members := members + [process];
      return true;
    }

    method Remove(process: Process) returns (ok: bool)
      requires Valid()
      modifies `count, `members, processes
      ensures Valid()
      ensures var i := IndexOf(old(members), process);
              && ok == (i < |old(members)|)
              && members == if ok then SwapRemove(old(members), i) else old(members)
    {
      var index := FindIndex(process);
      if index == count {
        return false;
      }
      var last := count - 1;
      processes[index] := processes[last];
      processes[last] := null;
      count := count - 1;
      SwapRemoveContents(members, index);
      members := SwapRemove(members, index);
      return true;
    }

    method SetMaxMembers(max: nat)
      modifies `hasMaxMembers, `maxMembers
      ensures Value() == old(Value()).(cap := Some(max))
    {
      hasMaxMembers := true;
      maxMembers := max;
    }
  }

  ghost function GroupIds(gs: seq<ProcessGroup>): (r: seq<nat>)
    ensures |r| == |gs|
    ensures forall i :: 0 <= i < |gs| ==> r[i] == gs[i].id
  {
    seq(|gs|, i requires 0 <= i < |gs| => gs[i].id)
  }

  ghost function GroupValues(gs: seq<ProcessGroup>): (r: seq<Group>)
    reads gs
    ensures |r| == |gs|
    ensures forall i :: 0 <= i < |gs| ==> r[i] == gs[i].Value()
  {
    seq(|gs|, i requires 0 <= i < |gs| reads gs => gs[i].Value())
  }

  lemma GroupValuesSwapRemove(gs: seq<ProcessGroup>, g: nat)
    requires g < |gs|
    ensures GroupValues(SwapRemove(gs, g)) == SwapRemove(GroupValues(gs), g)
  {
  }

  lemma GroupValuesAppend(gs: seq<ProcessGroup>, group: ProcessGroup)
    ensures GroupValues(gs + [group]) == GroupValues(gs) + [group.Value()]
  {
  }

  class ProcessGroupManager {
    const groups: array<ProcessGroup?>
    var count: nat
    var nextId: nat
    ghost var table: seq<ProcessGroup>

    ghost predicate Valid()
      reads this, groups
    {
      && |table| == count <= groups.Length
      && (forall i :: 0 <= i < count ==> groups[i] == table[i])
      && (forall i :: count <= i < groups.Length ==> groups[i] == null)
      && 0 < nextId <= INVALID_PGID
      && NoDup(GroupIds(table))
      && (forall i :: 0 <= i < count ==> 0 < table[i].id < nextId)
    }

    constructor ()
      ensures Valid() && fresh(groups) && groups.Length == PROCESS_GROUP_MANAGER_INITIAL_CAPACITY
      ensures table == [] && nextId == 1
    {
      groups := new ProcessGroup?[PROCESS_GROUP_MANAGER_INITIAL_CAPACITY](_ => null);
      count := 0;
      nextId := 1;
      table := [];
    }

    method AllocateId() returns (id: nat)
      requires nextId <= INVALID_PGID
      modifies `nextId
      ensures id == old(nextId)
      ensures nextId == if id == INVALID_PGID then id else id + 1
    {
      if nextId == INVALID_PGID {
        return INVALID_PGID;
      }
      id := nextId;
      nextId := nextId + 1;
    }

    method CreateGroup() returns (group: ProcessGroup?)
      requires Valid()
      modifies this, groups
      ensures Valid()
      ensures group == null <==> old(count) == groups.Length || old(nextId) == INVALID_PGID
      ensures group == null ==> table == old(table) && nextId == old(nextId)
      ensures group != null ==>
        && fresh(group) && fresh(group.processes) && group.Valid() && group.members == []
        && group.processes.Length == PROCESS_GROUP_INITIAL_CAPACITY
        && group.Value() == Group(old(nextId), INVALID_HOST_PGID, [], None)
        && table == old(table) + [group]
        && nextId == old(nextId) + 1
    {
      if count >= groups.Length {
        return null;
      }
      var id := AllocateId();
      if id == INVALID_PGID {
        return null;
      }
      group := new ProcessGroup(id);
      groups[count] := group;
      count := count + 1;
      table := table + [group];
    }

    method FindIndex(id: nat) returns (i: nat)
      requires Valid()
      ensures i == IndexOf(GroupIds(table), id)
    {
      i := 0;
      while i < count
        invariant i <= count
        invariant forall k :: 0 <= k < i ==> table[k].id != id
      {
        if groups[i].id == id {
          return i;
        }
        i := i + 1;
      }
    }

    method Get(id: nat) returns (group: ProcessGroup?)
      requires Valid()
      ensures var i := IndexOf(GroupIds(table), id);
              group == if i < |table| then table[i] else null
    {
      if id == INVALID_PGID {
        assert forall i :: 0 <= i < |table| ==> GroupIds(table)[i] < nextId;
        return null;
      }
      var index := FindIndex(id);
      return if index < count then groups[index] else null;
    }

    /** The last group moves into the hole. */
    method FillHole(index: nat)
      requires Valid() && index < count
      modifies `count, `table, groups
      ensures Valid() && table == SwapRemove(old(table), index)
    {
      SwapRemoveKeepsGroupIds(table, index, nextId);
      hide NoDup;
      var last := count - 1;
      groups[index] := groups[last];
      groups[last] := null;
      count := count - 1;
      table := SwapRemove(table, index);
    }

    method DestroyGroup(id: nat) returns (ok: bool)
      requires Valid()
      modifies this, groups
      ensures Valid() && nextId == old(nextId)
      ensures var i := IndexOf(GroupIds(old(table)), id);
              && ok == (i < |old(table)| && old(table)[i].count == 0)
              && table == if ok then SwapRemove(old(table), i) else old(table)
    {
      hide NoDup;
      if id == INVALID_PGID {
        assert forall i :: 0 <= i < |table| ==> GroupIds(table)[i] < nextId;
        return false;
      }
      var index := FindIndex(id);
      if index == count {
        return false;
      }
      var group := groups[index];
      if group.count != 0 {
        return false;
      }
      FillHole(index);
      return true;
    }
  }

  lemma SwapRemoveKeepsGroupIds(gs: seq<ProcessGroup>, i: nat, bound: nat)
    requires NoDup(GroupIds(gs)) && i < |gs|
    requires forall k :: 0 <= k < |gs| ==> 0 < gs[k].id < bound
    ensures NoDup(GroupIds(SwapRemove(gs, i)))
    ensures forall k :: 0 <= k < |gs| - 1 ==> 0 < SwapRemove(gs, i)[k].id < bound
  {
    SwapRemoveContents(GroupIds(gs), i);
    assert GroupIds(SwapRemove(gs, i)) == SwapRemove(GroupIds(gs), i);
  }
}
