/** What the searches and rewrites over the process table mean, on plain values. */
module ProcessTables {
  import opened Sequences
  import opened Processes

  /** Position of the entry with this identifier, `|procs|` when there is none. */
  function FindPid(procs: seq<Proc>, id: nat): (i: nat)
    ensures i <= |procs|
    ensures i < |procs| ==> procs[i].id == id
    ensures forall k :: 0 <= k < i ==> procs[k].id != id
  {
    IndexOf(Pids(procs), id)
  }

  /** First entry carrying this host pid, whatever its state. */
  function FindHost(procs: seq<Proc>, host: nat): (i: nat)
    ensures i <= |procs|
    ensures i < |procs| ==> procs[i].host == host
    ensures forall k :: 0 <= k < i ==> procs[k].host != host
  {
    if procs == [] || procs[0].host == host then 0 else 1 + FindHost(procs[1..], host)
  }

  lemma {:induction false} SameHosts(a: seq<Proc>, b: seq<Proc>, host: nat)
    requires |a| == |b| && forall i :: 0 <= i < |a| ==> a[i].host == b[i].host
    ensures FindHost(a, host) == FindHost(b, host)
  {
    if a != [] { SameHosts(a[1..], b[1..], host); }
  }

  predicate IsZombieOf(p: Proc, parent: nat) {
    p.parent == parent && p.state == Terminated
  }

  /** First terminated child of `parent`. */
  function FindZombie(procs: seq<Proc>, parent: nat): (i: nat)
    ensures i <= |procs|
    ensures i < |procs| ==> IsZombieOf(procs[i], parent)
    ensures forall k :: 0 <= k < i ==> !IsZombieOf(procs[k], parent)
  {
    if procs == [] || IsZombieOf(procs[0], parent) then 0 else 1 + FindZombie(procs[1..], parent)
  }

  function LiveCount(procs: seq<Proc>): (n: nat)
    ensures n == 0 <==> forall k :: 0 <= k < |procs| ==> !Live(procs[k])
  {
    if procs == [] then 0
    else
      var last := |procs| - 1;
      LiveCount(procs[..last]) + (if Live(procs[last]) then 1 else 0)
  }

  function ChildCount(procs: seq<Proc>, parent: nat): nat {
    if procs == [] then 0
    else
      var last := |procs| - 1;
      ChildCount(procs[..last], parent) + (if procs[last].parent == parent then 1 else 0)
  }

  ghost function LivePositions(procs: seq<Proc>): set<nat> {
    set i: nat | i < |procs| && procs[i].state != Terminated
  }

  ghost function ChildPositions(procs: seq<Proc>, parent: nat): set<nat> {
    set i: nat | i < |procs| && procs[i].parent == parent
  }

  /** The counts are the numbers of entries that qualify, each counted once. */
  lemma {:induction false} LiveCountIsSize(procs: seq<Proc>)
    ensures LiveCount(procs) == |LivePositions(procs)|
  {
    if procs != [] {
      var last := |procs| - 1;
      var before := LivePositions(procs[..last]);
      LiveCountIsSize(procs[..last]);
      assert LivePositions(procs) == if Live(procs[last]) then before + {last} else before;
    }
  }

  lemma {:induction false} ChildCountIsSize(procs: seq<Proc>, parent: nat)
    ensures ChildCount(procs, parent) == |ChildPositions(procs, parent)|
  {
    if procs != [] {
      var last := |procs| - 1;
      var before := ChildPositions(procs[..last], parent);
      ChildCountIsSize(procs[..last], parent);
      assert ChildPositions(procs, parent) == if procs[last].parent == parent then before + {last} else before;
    }
  }

  function Adopt(p: Proc, oldParent: nat, newParent: nat): Proc {
    if p.parent == oldParent then p.(parent := newParent) else p
  }

  function Reparent(procs: seq<Proc>, oldParent: nat, newParent: nat): (r: seq<Proc>)
    ensures |r| == |procs|
    ensures forall i :: 0 <= i < |procs| ==> r[i] == Adopt(procs[i], oldParent, newParent)
  {
    seq(|procs|, i requires 0 <= i < |procs| => Adopt(procs[i], oldParent, newParent))
  }

  /** Reparenting empties the old parent and gives the new one the sum of both; nobody
      else gains or loses a child, and the table size is the same. */
  lemma {:induction false} ReparentMovesChildren(procs: seq<Proc>, p: nat, q: nat)
    requires p != q
    ensures ChildCount(Reparent(procs, p, q), p) == 0
    ensures ChildCount(Reparent(procs, p, q), q) == ChildCount(procs, p) + ChildCount(procs, q)
    ensures forall r :: r != p && r != q ==> ChildCount(Reparent(procs, p, q), r) == ChildCount(procs, r)
  {
    if procs != [] {
      var last := |procs| - 1;
      ReparentMovesChildren(procs[..last], p, q);
      assert Reparent(procs, p, q)[..last] == Reparent(procs[..last], p, q);
    }
  }
}
