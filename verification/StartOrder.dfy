/** The depth-first search that turns named dependencies into a start order. */
module StartOrders {
  import opened Sequences
  import opened DependencyGraph
  import opened Services
  import opened ServiceRegistries

  ghost function GraphOf(ss: seq<Service>): (g: Graph)
    reads ss
    ensures |g| == |ss|
    ensures forall i :: 0 <= i < |ss| ==> g[i] == Node(ss[i].name, ss[i].dependencies)
  {
    seq(|ss|, i requires 0 <= i < |ss| reads ss => Node(ss[i].name, ss[i].dependencies))
  }

  lemma GraphNames(ss: seq<Service>)
    ensures Names(GraphOf(ss)) == ServiceNames(ss)
  {
  }

  /** Position of a service in the local list, -1 when it is not there. */
  method FindServiceIndex(all: array<Service?>, target: Service) returns (i: int)
    ensures i < 0 ==> target !in all[..]
    ensures 0 <= i ==> i < all.Length && all[i] == target && forall k :: 0 <= k < i ==> all[k] != target
  {
    i := 0;
    while i < all.Length
      invariant 0 <= i <= all.Length
      invariant forall k :: 0 <= k < i ==> all[k] != target
    {
      if all[i] == target {
        return;
      }
      i := i + 1;
    }
    return -1;
  }

  /** Everything the search relies on: the local list is the registry's table, and the
      arrays say what the ghost path and order say. */
  ghost predicate InSearch(
    registry: ServiceRegistry, all: array<Service?>, colors: array<Color>, outOrder: array<Service?>,
    path: seq<nat>, order: seq<nat>)
    reads registry, registry.services, registry.table, all, colors, outOrder
  {
    && registry.Valid()
    && all.Length == |registry.table| && (forall i :: 0 <= i < |registry.table| ==> all[i] == registry.table[i])
    && all != outOrder && registry.services != outOrder
    && Searching(GraphOf(registry.table), colors[..], path, order)
    && |order| <= outOrder.Length && all.Length <= outOrder.Length
    && forall k :: 0 <= k < |order| ==> outOrder[k] == registry.table[order[k]]
  }

  /** A closed duplicate-free order that misses a node is shorter than the graph. */
  lemma OrderHasRoom(g: Graph, order: seq<nat>, i: nat)
    requires PartialOrder(g, order) && i < |g| && i !in order
    ensures |order| < |g|
  {
    var all := order + [i];
    NoDupAppend(order, i);
    NoDupBound(all, Below(|g|));
  }

  lemma DependencyResolved(registry: ServiceRegistry, i: nat, k: nat)
    requires registry.Valid() && i < |registry.table| && k < |registry.table[i].dependencies|
    ensures var g := GraphOf(registry.table); var d := registry.table[i].dependencies[k];
            && d in g[i].deps
            && Lookup(g, d) == IndexOf(ServiceNames(registry.table), d)
            && (Lookup(g, d) < |g| ==> Edge(g, i, Lookup(g, d)))
  {
    GraphNames(registry.table);
  }

  /** The registered service a dependency names and its position. The position is always
      found: a service the registry returns is in the local list. */
  method ResolveDependency(registry: ServiceRegistry, all: array<Service?>, depName: string) returns (depIndex: int)
    requires registry.Valid()
    requires all.Length == |registry.table| && forall i :: 0 <= i < |registry.table| ==> all[i] == registry.table[i]
    ensures var j := IndexOf(ServiceNames(registry.table), depName);
            depIndex == if j < |registry.table| then j else -1
  {
    var dep := registry.Get(depName);
    if dep == null {
      return -1;
    }
    ghost var j := IndexOf(ServiceNames(registry.table), depName);
    depIndex := FindServiceIndex(all, dep);
    DistinctServices(registry, j);
    assert all[..][j] == dep;
  }

  method EnterNode(
    registry: ServiceRegistry, all: array<Service?>, colors: array<Color>, index: nat,
    outOrder: array<Service?>, ghost path: seq<nat>, ghost order: seq<nat>)
    requires InSearch(registry, all, colors, outOrder, path, order)
    requires index < colors.Length && colors[index] == White
    requires path != [] ==> Edge(GraphOf(registry.table), path[|path| - 1], index)
    modifies colors
    ensures InSearch(registry, all, colors, outOrder, path + [index], order)
    ensures Whites(colors[..]) < Whites(old(colors[..]))
  {
    ghost var before := colors[..];
    Enter(GraphOf(registry.table), before, path, order, index);
    colors[index] := Gray;
    assert colors[..] == before[index := Gray];
  }

  method LeaveNode(
    registry: ServiceRegistry, all: array<Service?>, colors: array<Color>, index: nat,
    outOrder: array<Service?>, outIndex: nat, ghost path: seq<nat>, ghost order: seq<nat>)
    returns (newIndex: nat)
    requires InSearch(registry, all, colors, outOrder, path + [index], order) && index !in path && outIndex == |order|
    requires index < |registry.table|
    requires AllPlaced(GraphOf(registry.table), registry.table[index].dependencies, order)
    modifies colors, outOrder
    ensures InSearch(registry, all, colors, outOrder, path, order + [index]) && newIndex == |order| + 1
    ensures Whites(colors[..]) == Whites(old(colors[..]))
  {
    ghost var g, before := GraphOf(registry.table), colors[..];
    assert (path + [index])[|path|] == index;
    OrderHasRoom(g, order, index);
    Leave(g, before, path, order, index);
    colors[index] := Black;
    assert colors[..] == before[index := Black];
    outOrder[outIndex] := all[index];
    newIndex := outIndex + 1;
  }

  lemma SearchFacts(
    registry: ServiceRegistry, all: array<Service?>, colors: array<Color>, outOrder: array<Service?>,
    path: seq<nat>, order: seq<nat>)
    requires InSearch(registry, all, colors, outOrder, path, order)
    ensures registry.Valid() && all.Length == colors.Length == |registry.table| == |GraphOf(registry.table)|
    ensures forall i :: 0 <= i < |registry.table| ==> all[i] == registry.table[i]
    ensures path != [] ==> IsPath(GraphOf(registry.table), path)
    ensures forall i: nat :: i in path <==> i < colors.Length && colors[i] == Gray
    ensures forall i: nat :: i in order <==> i < colors.Length && colors[i] == Black
  {
    assert |colors[..]| == |GraphOf(registry.table)|;
  }

  /** Every one of these names is that of a node already in the order. */
  ghost predicate AllPlaced(g: Graph, deps: seq<string>, order: seq<nat>) {
    forall d :: d in deps ==> Lookup(g, d) < |g| && Lookup(g, d) in order
  }

  lemma NonePlaced(g: Graph, deps: seq<string>, order: seq<nat>)
    requires deps == []
    ensures AllPlaced(g, deps, order)
  {
  }

  lemma OneMorePlaced(g: Graph, deps: seq<string>, i: nat, before: seq<nat>, after: seq<nat>)
    requires i < |deps| && AllPlaced(g, deps[..i], before) && before <= after
    requires Lookup(g, deps[i]) < |g| && Lookup(g, deps[i]) in after
    ensures AllPlaced(g, deps[..i + 1], after)
  {
    assert deps[..i + 1] == deps[..i] + [deps[i]];
    assert forall x :: x in before ==> x in after;
  }

  /** Visits a white node: on success it and all it depends on are black and in the order;
      on failure `blame` is a dependency name nobody has or a cycle. */
  method Visit(
    registry: ServiceRegistry, all: array<Service?>, colors: array<Color>, index: nat,
    outOrder: array<Service?>, outIndex: nat, ghost path: seq<nat>, ghost order: seq<nat>)
    returns (ok: bool, newIndex: nat, ghost newOrder: seq<nat>, ghost blame: Blame)
    requires InSearch(registry, all, colors, outOrder, path, order) && outIndex == |order|
    requires index < colors.Length && colors[index] == White
    requires path != [] ==> Edge(GraphOf(registry.table), path[|path| - 1], index)
    modifies colors, outOrder
    ensures ok ==> InSearch(registry, all, colors, outOrder, path, newOrder) && newIndex == |newOrder|
    ensures ok ==> order <= newOrder && index in newOrder
    ensures ok ==> Whites(colors[..]) < Whites(old(colors[..]))
    ensures !ok ==> Justified(GraphOf(registry.table), blame)
    decreases Whites(colors[..]), 0
  {
    hide InSearch, ServiceRegistry.Valid, Edge, Whites, Acyclic, PartialOrder, DepsBefore, Searching, Justified,
      IsPath, IsCycle, AllPlaced, Lookup, ServiceNames;
    ghost var g, before := GraphOf(registry.table), Whites(colors[..]);
    SearchFacts(registry, all, colors, outOrder, path, order);
    EnterNode(registry, all, colors, index, outOrder, path, order);
    newIndex, newOrder, blame := outIndex, order, Cycle([]);
    var service := all[index];
    ghost var gray := path + [index];
    assert gray[|path|] == index;
    NonePlaced(g, service.dependencies[..0], newOrder);
    var i := 0;
    while i < |service.dependencies|
      invariant i <= |service.dependencies|
      invariant InSearch(registry, all, colors, outOrder, gray, newOrder) && newIndex == |newOrder|
      invariant order <= newOrder
      invariant Whites(colors[..]) < before
      invariant AllPlaced(g, service.dependencies[..i], newOrder)
    {
      ghost var soFar := newOrder;
      var depName := service.dependencies[i];
      ok, newIndex, newOrder, blame :=
        VisitDependency(registry, all, colors, depName, index, i, outOrder, newIndex, gray, newOrder);
      if !ok {
        return;
      }
      OneMorePlaced(g, service.dependencies, i, soFar, newOrder);
      i := i + 1;
    }
    assert service.dependencies[..i] == service.dependencies;
    newIndex := LeaveNode(registry, all, colors, index, outOrder, newIndex, path, newOrder);
    newOrder := newOrder + [index];
    ok := true;
  }

  /** The body of the loop over the dependencies of the last gray node. */
  method VisitDependency(
    registry: ServiceRegistry, all: array<Service?>, colors: array<Color>,
    depName: string, ghost index: nat, ghost i: nat,
    outOrder: array<Service?>, outIndex: nat, ghost gray: seq<nat>, ghost order: seq<nat>)
    returns (ok: bool, newIndex: nat, ghost newOrder: seq<nat>, ghost blame: Blame)
    requires InSearch(registry, all, colors, outOrder, gray, order) && outIndex == |order|
    requires gray != [] && gray[|gray| - 1] == index < |registry.table| && i < |registry.table[index].dependencies|
    requires depName == registry.table[index].dependencies[i]
    modifies colors, outOrder
    ensures ok ==> InSearch(registry, all, colors, outOrder, gray, newOrder) && newIndex == |newOrder|
    ensures ok ==> order <= newOrder
    ensures ok ==> var j := Lookup(GraphOf(registry.table), depName); j < |registry.table| && j in newOrder
    ensures ok ==> Whites(colors[..]) <= Whites(old(colors[..]))
    ensures !ok ==> Justified(GraphOf(registry.table), blame)
    decreases Whites(colors[..]), 1
  {
    hide InSearch, ServiceRegistry.Valid, Edge, Whites, Acyclic, PartialOrder, DepsBefore, Searching;
    newIndex, newOrder, blame := outIndex, order, Cycle([]);
    SearchFacts(registry, all, colors, outOrder, gray, order);
    DependencyResolved(registry, index, i);
    var depIndex := ResolveDependency(registry, all, depName);
    if depIndex < 0 {
      return false, newIndex, newOrder, Missing(index, depName);
    }
    var dep: nat := depIndex;
    if colors[dep] == Gray {
      ghost var cycle := GrayHit(GraphOf(registry.table), gray, dep);
      return false, newIndex, newOrder, Cycle(cycle);
    }
    ok := true;
    if colors[dep] == White {
      ok, newIndex, newOrder, blame := Visit(registry, all, colors, dep, outOrder, newIndex, gray, newOrder);
    }
  }

  lemma DistinctServices(registry: ServiceRegistry, j: nat)
    requires registry.Valid() && j < |registry.table|
    ensures forall k :: 0 <= k < |registry.table| && k != j ==> registry.table[k] != registry.table[j]
  {
    forall k | 0 <= k < |registry.table| && k != j ensures registry.table[k] != registry.table[j] {
      assert ServiceNames(registry.table)[k] != ServiceNames(registry.table)[j];
    }
  }

  /** Fills `outOrder` and returns true exactly when every dependency name is registered and
      nothing depends on itself; then the order is a permutation of the registry with every
      dependency before its dependents. Otherwise there is somebody to blame. */
  method ComputeStartOrder(registry: ServiceRegistry, outOrder: array<Service?>)
    returns (ok: bool, outCount: nat, ghost order: seq<nat>, ghost blame: Blame)
    requires registry.Valid() && |registry.table| <= outOrder.Length && outOrder != registry.services
    modifies outOrder
    ensures ok <==> Resolved(GraphOf(registry.table)) && Acyclic(GraphOf(registry.table))
    ensures ok ==> StartOrder(GraphOf(registry.table), order) && outCount == |order| == |registry.table|
    ensures ok ==> forall k :: 0 <= k < outCount ==> outOrder[k] == registry.table[order[k]]
    ensures !ok ==> Justified(GraphOf(registry.table), blame)
  {
    hide InSearch, Edge, PartialOrder, DepsBefore, Resolved, Acyclic, Justified, IsPath, IsCycle;
    ghost var g := GraphOf(registry.table);
    order, blame := [], Cycle([]);
    var count := registry.count;
    if count == 0 {
      NothingToOrder(g);
      return true, 0, order, blame;
    }
    var all := new Service?[count](_ => null);
    var colors := new Color[count](_ => White);
    var i := 0;
    while i < count
      modifies all, colors
      invariant i <= count
      invariant forall k :: 0 <= k < i ==> all[k] == registry.table[k]
      invariant forall k :: 0 <= k < count ==> colors[k] == White
    {
      all[i] := registry.services[i];
      colors[i] := White;
      i := i + 1;
    }
    NothingVisited(registry, all, colors, outOrder);
    ok, outCount, order, blame := VisitAll(registry, all, colors, outOrder);
    if ok {
      SearchIsOrdered(registry, all, colors, outOrder, order);
      OrderedIsAcyclic(g, order);
    } else {
      BlameExcludes(g, blame);
    }
  }

  /** The loop that starts a search at every node still white. */
  method VisitAll(registry: ServiceRegistry, all: array<Service?>, colors: array<Color>, outOrder: array<Service?>)
    returns (ok: bool, outIndex: nat, ghost order: seq<nat>, ghost blame: Blame)
    requires InSearch(registry, all, colors, outOrder, [], [])
    modifies colors, outOrder
    ensures ok ==> InSearch(registry, all, colors, outOrder, [], order) && outIndex == |order|
    ensures ok ==> forall k: nat :: k < |registry.table| ==> k in order
    ensures !ok ==> Justified(GraphOf(registry.table), blame)
  {
    hide InSearch, Edge, Justified, IsPath, ServiceRegistry.Valid, Searching, Whites;
    order, blame := [], Cycle([]);
    outIndex := 0;
    SearchFacts(registry, all, colors, outOrder, [], order);
    var i := 0;
    while i < colors.Length
      invariant i <= colors.Length == |registry.table|
      invariant InSearch(registry, all, colors, outOrder, [], order) && outIndex == |order|
      invariant forall k: nat :: k < i ==> k in order
    {
      SearchFacts(registry, all, colors, outOrder, [], order);
      if colors[i] == White {
        ghost var soFar := order;
        ok, outIndex, order, blame := Visit(registry, all, colors, i, outOrder, outIndex, [], order);
        if !ok {
          return;
        }
        assert forall x :: x in soFar ==> x in order;
      }
      i := i + 1;
    }
    ok := true;
  }

  /** With every node in it, the closed order is a start order. */
  lemma SearchIsOrdered(registry: ServiceRegistry, all: array<Service?>,
    colors: array<Color>, outOrder: array<Service?>, order: seq<nat>)
    requires InSearch(registry, all, colors, outOrder, [], order)
    requires forall k: nat :: k < |registry.table| ==> k in order
    ensures StartOrder(GraphOf(registry.table), order)
    ensures forall k :: 0 <= k < |order| ==> outOrder[k] == registry.table[order[k]]
  {
    ElementsSize(order);
    assert Elements(order) == Below(|registry.table|);
  }

  lemma NothingToOrder(g: Graph)
    requires g == []
    ensures StartOrder(g, []) && Resolved(g) && Acyclic(g)
  {
    OrderedIsAcyclic(g, []);
  }

  lemma NothingVisited(registry: ServiceRegistry, all: array<Service?>, colors: array<Color>, outOrder: array<Service?>)
    requires registry.Valid() && all.Length == colors.Length == |registry.table| <= outOrder.Length
    requires all != outOrder && registry.services != outOrder
    requires forall k :: 0 <= k < all.Length ==> all[k] == registry.table[k] && colors[k] == White
    ensures InSearch(registry, all, colors, outOrder, [], [])
  {
  }
}
