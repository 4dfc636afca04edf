/** Named dependencies as a graph, independent of any algorithm: what a start order is, and
    when there is one. */
module DependencyGraph {
  import opened Sequences

  datatype Node = Node(name: string, deps: seq<string>)
  type Graph = seq<Node>

  function Names(g: Graph): (r: seq<string>)
    ensures |r| == |g|
    ensures forall i :: 0 <= i < |g| ==> r[i] == g[i].name
  {
    seq(|g|, i requires 0 <= i < |g| => g[i].name)
  }

  /** The node a name refers to, `|g|` when it refers to none. */
  function Lookup(g: Graph, name: string): (i: nat)
    ensures i <= |g|
    ensures i < |g| ==> g[i].name == name
    ensures i == |g| <==> forall k :: 0 <= k < |g| ==> g[k].name != name
  {
    IndexOf(Names(g), name)
  }

  ghost predicate Edge(g: Graph, i: nat, j: nat) {
    i < |g| && j < |g| && exists d :: d in g[i].deps && Lookup(g, d) == j
  }

  /** Every dependency name refers to a node. */
  ghost predicate Resolved(g: Graph) {
    forall i, d :: 0 <= i < |g| && d in g[i].deps ==> Lookup(g, d) < |g|
  }

  ghost predicate IsPath(g: Graph, p: seq<nat>) {
    p != [] && (forall k :: 0 <= k < |p| ==> p[k] < |g|) && forall k :: 0 <= k < |p| - 1 ==> Edge(g, p[k], p[k + 1])
  }

  ghost predicate IsCycle(g: Graph, c: seq<nat>) {
    IsPath(g, c) && 2 <= |c| && c[0] == c[|c| - 1]
  }

  ghost predicate Acyclic(g: Graph) {
    forall c :: !IsCycle(g, c)
  }

  /** `j` is reached from `i` along one or more dependencies. */
  ghost predicate DependsOn(g: Graph, i: nat, j: nat) {
    exists p :: IsPath(g, p) && 2 <= |p| && p[0] == i && p[|p| - 1] == j
  }

  /** All dependencies of the node at position `k` stand before it. */
  ghost predicate DepsBefore(g: Graph, order: seq<nat>, k: nat)
    requires k < |order| && order[k] < |g|
  {
    forall d :: d in g[order[k]].deps ==> Lookup(g, d) < |g| && Lookup(g, d) in order[..k]
  }

  /** Duplicate-free, within the graph, and closed: dependencies come first. */
  ghost predicate PartialOrder(g: Graph, order: seq<nat>) {
    && NoDup(order)
    && (forall k :: 0 <= k < |order| ==> order[k] < |g|)
    && forall k :: 0 <= k < |order| ==> DepsBefore(g, order, k)
  }

  /** A permutation of the nodes with every dependency strictly before its dependent. */
  ghost predicate StartOrder(g: Graph, order: seq<nat>) {
    PartialOrder(g, order) && |order| == |g|
  }

  lemma StartOrderIsPermutation(g: Graph, order: seq<nat>)
    requires StartOrder(g, order)
    ensures forall i: nat :: i < |g| ==> i in order
  {
    ElementsSize(order);
    assert Elements(order) <= Below(|g|);
    SameSize(Elements(order), Below(|g|));
    assert forall i: nat :: i in Below(|g|) ==> i in order;
  }

  ghost function Below(n: nat): (r: set<nat>)
    ensures |r| == n
    ensures forall i: nat :: i in r <==> i < n
  {
    if n == 0 then {} else Below(n - 1) + {n - 1}
  }

  lemma SameSize(a: set<nat>, b: set<nat>)
    requires a <= b && |a| == |b|
    ensures a == b
  {
    assert |b - a| == |b| - |a|;
  }

  /** An edge goes to an earlier position. */
  lemma EdgeGoesBack(g: Graph, order: seq<nat>, i: nat, j: nat)
    requires PartialOrder(g, order) && Edge(g, i, j) && i in order
    ensures j in order && IndexOf(order, j) < IndexOf(order, i)
  {
    var k := IndexOf(order, i);
    var d :| d in g[i].deps && Lookup(g, d) == j;
    assert DepsBefore(g, order, k);
    var m :| 0 <= m < k && order[..k][m] == j;
    IndexOfUnique(order, j, m);
  }

  lemma {:induction false} PathGoesBack(g: Graph, order: seq<nat>, p: seq<nat>)
    requires PartialOrder(g, order) && IsPath(g, p) && p[0] in order
    ensures p[|p| - 1] in order
    ensures IndexOf(order, p[|p| - 1]) + |p| - 1 <= IndexOf(order, p[0])
    decreases |p|
  {
    if 1 < |p| {
      assert Edge(g, p[0], p[0 + 1]);
      EdgeGoesBack(g, order, p[0], p[1]);
      var q := p[1..];
      forall k | 0 <= k < |q| - 1 ensures Edge(g, q[k], q[k + 1]) { assert Edge(g, p[k + 1], p[k + 1 + 1]); }
      PathGoesBack(g, order, q);
    }
  }

  /** Soundness of having an order at all: names resolve and nothing depends on itself. */
  lemma OrderedIsAcyclic(g: Graph, order: seq<nat>)
    requires StartOrder(g, order)
    ensures Resolved(g) && Acyclic(g)
  {
    StartOrderIsPermutation(g, order);
    forall i: nat, d | i < |g| && d in g[i].deps ensures Lookup(g, d) < |g| {
      var k := IndexOf(order, i);
      assert DepsBefore(g, order, k);
    }
    forall c ensures !IsCycle(g, c) {
      if IsCycle(g, c) { PathGoesBack(g, order, c); }
    }
  }

  /** Why there is no start order: an unknown name, or a cycle. */
  datatype Blame = Missing(node: nat, dep: string) | Cycle(path: seq<nat>)

  ghost predicate Justified(g: Graph, b: Blame) {
    match b
    case Missing(i, d) => i < |g| && d in g[i].deps && Lookup(g, d) == |g|
    case Cycle(c) => IsCycle(g, c)
  }

  lemma BlameExcludes(g: Graph, b: Blame)
    requires Justified(g, b)
    ensures !(Resolved(g) && Acyclic(g))
  {
  }

  // ---- the state of a depth-first search ----

  datatype Color = White | Gray | Black

  function Whites(colors: seq<Color>): set<nat> {
    set i: nat | i < |colors| && colors[i] == White
  }

  /** `path` is the gray nodes in the order they were entered, each depending on the next;
      `order` is the black ones, already a closed start order. */
  ghost predicate Searching(g: Graph, colors: seq<Color>, path: seq<nat>, order: seq<nat>) {
    && |colors| == |g|
    && (forall i: nat :: i in path <==> i < |g| && colors[i] == Gray)
    && (forall i: nat :: i in order <==> i < |g| && colors[i] == Black)
    && (path != [] ==> IsPath(g, path))
    && PartialOrder(g, order)
  }

  /** Entering a white node that the last gray one depends on. */
  lemma Enter(g: Graph, colors: seq<Color>, path: seq<nat>, order: seq<nat>, i: nat)
    requires Searching(g, colors, path, order) && i < |g| && colors[i] == White
    requires path != [] ==> Edge(g, path[|path| - 1], i)
    ensures Searching(g, colors[i := Gray], path + [i], order)
    ensures Whites(colors[i := Gray]) < Whites(colors)
  {
    var p := path + [i];
    forall k | 0 <= k < |p| - 1 ensures Edge(g, p[k], p[k + 1]) {
      if k < |path| - 1 { assert Edge(g, path[k], path[k + 1]); }
    }
    assert i in Whites(colors) && i !in Whites(colors[i := Gray]);
  }

  /** Leaving a gray node all of whose dependencies are black. */
  lemma Leave(g: Graph, colors: seq<Color>, path: seq<nat>, order: seq<nat>, i: nat)
    requires Searching(g, colors, path + [i], order) && i !in path
    requires i < |g| && forall d :: d in g[i].deps ==> Lookup(g, d) < |g| && Lookup(g, d) in order
    ensures Searching(g, colors[i := Black], path, order + [i])
    ensures Whites(colors[i := Black]) == Whites(colors)
  {
    var p, o := path + [i], order + [i];
    assert p[|path|] == i && forall k :: 0 <= k < |path| ==> path[k] == p[k];
    assert i in p && colors[i] == Gray;
    assert forall x :: x in p <==> x in path || x == i;
    assert forall x :: x in o <==> x in order || x == i;
    if path != [] {
      forall k | 0 <= k < |path| - 1 ensures Edge(g, path[k], path[k + 1]) {
        assert Edge(g, p[k], p[k + 1]);
      }
    }
    LeaveOrder(g, order, i);
  }

  lemma LeaveOrder(g: Graph, order: seq<nat>, i: nat)
    requires PartialOrder(g, order) && i < |g| && i !in order
    requires forall d :: d in g[i].deps ==> Lookup(g, d) < |g| && Lookup(g, d) in order
    ensures PartialOrder(g, order + [i])
  {
    var o := order + [i];
    forall k | 0 <= k < |o| ensures DepsBefore(g, o, k) {
      assert o[..k] == order[..k];
      if k < |order| { assert DepsBefore(g, order, k); } else { assert order[..k] == order; }
    }
  }

  /** A gray dependency closes a cycle through the gray path. */
  lemma GrayHit(g: Graph, path: seq<nat>, j: nat) returns (cycle: seq<nat>)
    requires IsPath(g, path) && j in path && Edge(g, path[|path| - 1], j)
    ensures IsCycle(g, cycle) && forall x :: x in cycle ==> x in path
  {
    var k := IndexOf(path, j);
    cycle := path[k..] + [j];
    forall m | 0 <= m < |cycle| - 1 ensures Edge(g, cycle[m], cycle[m + 1]) {
      if m < |cycle| - 2 { assert Edge(g, path[k + m], path[k + m + 1]); }
    }
  }
}
