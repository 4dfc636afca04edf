/** Which services a start-up leaves running, and in which states a shutdown signals, on the
    dependency graph alone. */
module Startup {
  import opened Sequences
  import opened DependencyGraph

  /** Every dependency of node `i` is registered and in `running`. */
  ghost predicate DepsIn(g: Graph, i: nat, running: set<nat>)
    requires i < |g|
  {
    forall d :: d in g[i].deps ==> Lookup(g, d) < |g| && Lookup(g, d) in running
  }

  /** The running nodes after the first `k` nodes of the order have had their turn, from
      `before`, when `spawned` are the nodes whose own start succeeds. */
  ghost function RunningAfter(g: Graph, order: seq<nat>, before: set<nat>, spawned: set<nat>, k: nat): set<nat>
    requires k <= |order| && forall m :: 0 <= m < |order| ==> order[m] < |g|
  {
    if k == 0 then before
    else
      var r := RunningAfter(g, order, before, spawned, k - 1);
      if order[k - 1] in spawned && DepsIn(g, order[k - 1], r) then r + {order[k - 1]} else r
  }

  /** Running are exactly those running before and those whose own start succeeded with all
      their dependencies running. */
  ghost predicate Fixpoint(g: Graph, before: set<nat>, spawned: set<nat>, running: set<nat>) {
    && (forall i :: i in running ==> i in before || i < |g|)
    && forall i: nat :: i < |g| ==> (i in running <==> i in before || (i in spawned && DepsIn(g, i, running)))
  }

  lemma {:induction false} RunningGrows(g: Graph, order: seq<nat>, before: set<nat>, spawned: set<nat>, k: nat, n: nat)
    requires StartOrder(g, order) && k <= n <= |order|
    ensures RunningAfter(g, order, before, spawned, k) <= RunningAfter(g, order, before, spawned, n)
    ensures forall i :: i in RunningAfter(g, order, before, spawned, n) ==>
              i in RunningAfter(g, order, before, spawned, k) || i in order[k..n]
    decreases n
  {
    if k < n {
      RunningGrows(g, order, before, spawned, k, n - 1);
      assert order[k..n] == order[k..n - 1] + [order[n - 1]];
    }
  }

  lemma {:induction false} RunningLocal(g: Graph, order: seq<nat>, before: set<nat>, a: set<nat>, b: set<nat>, k: nat)
    requires k <= |order| && forall m :: 0 <= m < |order| ==> order[m] < |g|
    requires forall m :: 0 <= m < k ==> (order[m] in a <==> order[m] in b)
    ensures RunningAfter(g, order, before, a, k) == RunningAfter(g, order, before, b, k)
  {
    if k > 0 { RunningLocal(g, order, before, a, b, k - 1); }
  }

  /** One more turn, whose node counts as spawned or not. */
  lemma OneMoreTurn(g: Graph, order: seq<nat>, before: set<nat>, spawned: set<nat>, k: nat, good: bool)
    requires StartOrder(g, order) && k < |order| && order[k] !in spawned
    ensures var s := if good then spawned + {order[k]} else spawned;
            var r := RunningAfter(g, order, before, spawned, k);
            RunningAfter(g, order, before, s, k + 1) == if good && DepsIn(g, order[k], r) then r + {order[k]} else r
  {
    var s := if good then spawned + {order[k]} else spawned;
    RunningLocal(g, order, before, spawned, s, k);
  }

  /** When a node has its turn its dependencies have had theirs: what it sees is final. */
  lemma TurnIsFinal(g: Graph, order: seq<nat>, before: set<nat>, spawned: set<nat>, k: nat)
    requires StartOrder(g, order) && k < |order|
    ensures DepsIn(g, order[k], RunningAfter(g, order, before, spawned, k))
       <==> DepsIn(g, order[k], RunningAfter(g, order, before, spawned, |order|))
  {
    RunningGrows(g, order, before, spawned, k, |order|);
    assert DepsBefore(g, order, k);
    forall j | j in order[..k] ensures j !in order[k..|order|] {
      var m :| 0 <= m < k && order[..k][m] == j;
      NotInSlice(order, k, |order|, m);
    }
  }

  lemma InAtItsTurn(g: Graph, order: seq<nat>, before: set<nat>, spawned: set<nat>, k: nat)
    requires StartOrder(g, order) && k < |order|
    ensures var all := RunningAfter(g, order, before, spawned, |order|);
            order[k] in all <==> order[k] in before || (order[k] in spawned && DepsIn(g, order[k], all))
  {
    RunningGrows(g, order, before, spawned, 0, k);
    RunningGrows(g, order, before, spawned, 0, |order|);
    RunningGrows(g, order, before, spawned, k + 1, |order|);
    TurnIsFinal(g, order, before, spawned, k);
    NotInSlice(order, 0, k, k);
    NotInSlice(order, k + 1, |order|, k);
  }

  /** The walk along a start order computes the fixpoint ... */
  lemma WalkReachesFixpoint(g: Graph, order: seq<nat>, before: set<nat>, spawned: set<nat>)
    requires StartOrder(g, order)
    ensures Fixpoint(g, before, spawned, RunningAfter(g, order, before, spawned, |order|))
  {
    StartOrderIsPermutation(g, order);
    forall i: nat | i < |g|
      ensures i in RunningAfter(g, order, before, spawned, |order|)
        <==> i in before || (i in spawned && DepsIn(g, i, RunningAfter(g, order, before, spawned, |order|)))
    {
      InAtItsTurn(g, order, before, spawned, IndexOf(order, i));
    }
    RunningGrows(g, order, before, spawned, 0, |order|);
    assert forall i :: i in order[0..|order|] ==> i < |g|;
  }

  lemma {:induction false} SameUpTo(g: Graph, order: seq<nat>, before: set<nat>, spawned: set<nat>,
    a: set<nat>, b: set<nat>, k: nat)
    requires StartOrder(g, order) && Fixpoint(g, before, spawned, a) && Fixpoint(g, before, spawned, b)
    requires k <= |order|
    ensures forall m :: 0 <= m < k ==> (order[m] in a <==> order[m] in b)
  {
    hide DepsIn, DepsBefore;
    if k > 0 {
      SameUpTo(g, order, before, spawned, a, b, k - 1);
      SameDeps(g, order, a, b, k - 1);
      assert order[k - 1] in a <==> order[k - 1] in b;
    }
  }

  lemma SameDeps(g: Graph, order: seq<nat>, a: set<nat>, b: set<nat>, k: nat)
    requires StartOrder(g, order) && k < |order| && forall m :: 0 <= m < k ==> (order[m] in a <==> order[m] in b)
    ensures DepsIn(g, order[k], a) <==> DepsIn(g, order[k], b)
  {
    assert DepsBefore(g, order, k);
    forall j | j in order[..k] ensures j in a <==> j in b {
      var m :| 0 <= m < k && order[..k][m] == j;
      assert order[m] == j;
    }
  }

  /** ... and there is only one. */
  lemma FixpointUnique(g: Graph, order: seq<nat>, before: set<nat>, spawned: set<nat>, a: set<nat>, b: set<nat>)
    requires StartOrder(g, order) && Fixpoint(g, before, spawned, a) && Fixpoint(g, before, spawned, b)
    requires before <= a && before <= b
    ensures a == b
  {
    SameUpTo(g, order, before, spawned, a, b, |order|);
    StartOrderIsPermutation(g, order);
    forall i: nat ensures i in a <==> i in b {
      if i < |g| {
        assert order[IndexOf(order, i)] == i;
      }
    }
  }

  /** A set of running nodes whose dependencies run contains all transitive dependencies. */
  ghost predicate Closed(g: Graph, running: set<nat>) {
    forall i :: i in running && i < |g| ==> DepsIn(g, i, running)
  }

  lemma {:induction false} ClosedAlongPaths(g: Graph, running: set<nat>, p: seq<nat>)
    requires Closed(g, running) && IsPath(g, p) && p[0] in running
    ensures p[|p| - 1] in running
    decreases |p|
  {
    if 1 < |p| {
      assert Edge(g, p[0], p[0 + 1]);
      var q := p[1..];
      forall k | 0 <= k < |q| - 1 ensures Edge(g, q[k], q[k + 1]) { assert Edge(g, p[k + 1], p[k + 1 + 1]); }
      ClosedAlongPaths(g, running, q);
    }
  }

  /** Started from nothing, whatever runs at any step has all its transitive dependencies running. */
  lemma {:induction false} ClosedAtEveryStep(g: Graph, order: seq<nat>, spawned: set<nat>, k: nat)
    requires StartOrder(g, order) && k <= |order|
    ensures var r := RunningAfter(g, order, {}, spawned, k);
            Closed(g, r) && forall i, j :: i in r && DependsOn(g, i, j) ==> j in r
  {
    var r := RunningAfter(g, order, {}, spawned, k);
    if k > 0 { ClosedAtEveryStep(g, order, spawned, k - 1); }
    forall i, j | i in r && DependsOn(g, i, j) ensures j in r {
      var p :| IsPath(g, p) && 2 <= |p| && p[0] == i && p[|p| - 1] == j;
      ClosedAlongPaths(g, r, p);
    }
  }

  // ---- shutdown ----

  /** One attempt to stop a node. */
  datatype Attempt = Attempt(node: nat, stopped: bool)

  /** The running nodes left after a series of attempts. */
  function RunningBefore(initial: set<nat>, log: seq<Attempt>): set<nat> {
    if log == [] then initial
    else
      var last := log[|log| - 1];
      RunningBefore(initial, log[..|log| - 1]) - (if last.stopped then {last.node} else {})
  }

  /** The attempts made once the nodes from position `k` of the order on have had their turn. */
  ghost predicate Shutdown(g: Graph, order: seq<nat>, initial: set<nat>, log: seq<Attempt>, k: nat) {
    && (forall t :: 0 <= t < |log| ==> log[t].node in RunningBefore(initial, log[..t]))
    && (forall t :: 0 <= t < |log| ==> k <= IndexOf(order, log[t].node) < |order|)
    && (forall t, u :: 0 <= t < u < |log| ==> IndexOf(order, log[u].node) < IndexOf(order, log[t].node))
    && (forall m :: k <= m < |order| && order[m] in initial ==> exists t :: 0 <= t < |log| && log[t].node == order[m])
  }

  /** The node of an attempt comes with every running dependent already tried in vain. */
  ghost predicate SafeAttempt(g: Graph, initial: set<nat>, log: seq<Attempt>, t: nat)
    requires t < |log|
  {
    forall j :: DependsOn(g, j, log[t].node) && j in RunningBefore(initial, log[..t]) ==>
      exists u :: 0 <= u < t && log[u] == Attempt(j, false)
  }

  lemma {:induction false} RunningShrinks(initial: set<nat>, log: seq<Attempt>)
    ensures RunningBefore(initial, log) <= initial
  {
    if log != [] { RunningShrinks(initial, log[..|log| - 1]); }
  }

  lemma {:induction false} StoppedIsGone(initial: set<nat>, log: seq<Attempt>, u: nat)
    requires u < |log|
    ensures log[u].stopped ==> log[u].node !in RunningBefore(initial, log)
    decreases |log|
  {
    var front := log[..|log| - 1];
    if u < |front| {
      StoppedIsGone(initial, front, u);
      assert front[u] == log[u];
    }
  }

  /** A dependent stands later in a start order. */
  lemma DependentComesLater(g: Graph, order: seq<nat>, j: nat, i: nat)
    requires StartOrder(g, order) && DependsOn(g, j, i)
    ensures IndexOf(order, i) < IndexOf(order, j) < |order|
  {
    var p :| IsPath(g, p) && 2 <= |p| && p[0] == j && p[|p| - 1] == i;
    StartOrderIsPermutation(g, order);
    PathGoesBack(g, order, p);
  }

  /** A node that ran at first and stands later than one being tried has been tried before. */
  lemma TriedBefore(g: Graph, order: seq<nat>, initial: set<nat>, log: seq<Attempt>, k: nat, t: nat, j: nat)
    returns (u: nat)
    requires Shutdown(g, order, initial, log, k) && t < |log| && j in initial
    requires IndexOf(order, log[t].node) < IndexOf(order, j) < |order|
    ensures u < t && log[u].node == j
  {
    var m := IndexOf(order, j);
    assert order[m] == j;
    u :| 0 <= u < |log| && log[u].node == order[m];
  }

  /** Walking a start order backwards is safe: whenever a node is tried, every transitive
      dependent still running has already been tried, and could not be stopped. */
  lemma BackwardsIsSafe(g: Graph, order: seq<nat>, initial: set<nat>, log: seq<Attempt>, k: nat, t: nat)
    requires StartOrder(g, order) && Shutdown(g, order, initial, log, k) && t < |log|
    ensures SafeAttempt(g, initial, log, t)
  {
    hide StartOrder, Shutdown, DependsOn, RunningBefore;
    RunningShrinks(initial, log[..t]);
    forall j | DependsOn(g, j, log[t].node) && j in RunningBefore(initial, log[..t])
      ensures exists u :: 0 <= u < t && log[u] == Attempt(j, false)
    {
      DependentComesLater(g, order, j, log[t].node);
      var u := TriedBefore(g, order, initial, log, k, t, j);
      assert log[..t][u] == log[u];
      StoppedIsGone(initial, log[..t], u);
      assert log[u] == Attempt(j, false);
    }
  }

  lemma {:induction false} UntriedStillRuns(initial: set<nat>, log: seq<Attempt>, i: nat)
    requires i in initial && forall t :: 0 <= t < |log| ==> log[t].node != i
    ensures i in RunningBefore(initial, log)
  {
    if log != [] {
      assert forall t :: 0 <= t < |log| - 1 ==> log[..|log| - 1][t] == log[t];
      UntriedStillRuns(initial, log[..|log| - 1], i);
    }
  }

  lemma ShutdownPasses(g: Graph, order: seq<nat>, initial: set<nat>, log: seq<Attempt>, k: nat)
    requires StartOrder(g, order) && k < |order| && Shutdown(g, order, initial, log, k + 1)
    requires order[k] !in RunningBefore(initial, log)
    ensures Shutdown(g, order, initial, log, k)
  {
    IndexOfUnique(order, order[k], k);
    if order[k] in initial { UntriedStillRuns(initial, log, order[k]); }
  }

  lemma ShutdownTries(g: Graph, order: seq<nat>, initial: set<nat>, log: seq<Attempt>, k: nat, stopped: bool)
    requires StartOrder(g, order) && k < |order| && Shutdown(g, order, initial, log, k + 1)
    requires order[k] in RunningBefore(initial, log)
    ensures Shutdown(g, order, initial, log + [Attempt(order[k], stopped)], k)
    ensures RunningBefore(initial, log + [Attempt(order[k], stopped)])
         == RunningBefore(initial, log) - (if stopped then {order[k]} else {})
  {
    hide RunningBefore, StartOrder;
    OrderIsNoDup(g, order);
    IndexOfUnique(order, order[k], k);
    var after := log + [Attempt(order[k], stopped)];
    LogGrows(initial, log, after[|log|]);
    forall t | 0 <= t < |after| ensures after[t].node in RunningBefore(initial, after[..t]) {
      if t < |log| { assert after[..t] == log[..t]; } else { assert after[..t] == log; }
    }
    forall m | k <= m < |order| && order[m] in initial
      ensures exists t :: 0 <= t < |after| && after[t].node == order[m] {
      if m == k { assert after[|log|].node == order[m]; }
      else {
        var t :| 0 <= t < |log| && log[t].node == order[m];
        assert after[t].node == order[m];
      }
    }
  }

  lemma OrderIsNoDup(g: Graph, order: seq<nat>)
    requires StartOrder(g, order)
    ensures NoDup(order)
  {
  }

  lemma LogGrows(initial: set<nat>, log: seq<Attempt>, a: Attempt)
    ensures RunningBefore(initial, log + [a]) == RunningBefore(initial, log) - (if a.stopped then {a.node} else {})
  {
    assert (log + [a])[..|log|] == log;
  }

  /** As many nodes were stopped as the running set lost. */
  function StoppedCount(log: seq<Attempt>): nat {
    if log == [] then 0 else StoppedCount(log[..|log| - 1]) + (if log[|log| - 1].stopped then 1 else 0)
  }

  lemma {:induction false} StoppedCountIsDrop(initial: set<nat>, log: seq<Attempt>)
    requires forall t :: 0 <= t < |log| ==> log[t].node in RunningBefore(initial, log[..t])
    ensures |RunningBefore(initial, log)| == |initial| - StoppedCount(log)
  {
    if log != [] {
      var front := log[..|log| - 1];
      forall t | 0 <= t < |front| ensures front[t].node in RunningBefore(initial, front[..t]) {
        assert front[..t] == log[..t] && front[t] == log[t];
      }
      StoppedCountIsDrop(initial, front);
      assert log[|log| - 1].node in RunningBefore(initial, log[..|log| - 1]);
    }
  }

  lemma {:induction false} InVainStillRuns(initial: set<nat>, log: seq<Attempt>, t: nat)
    requires t < |log| && log[t].node in RunningBefore(initial, log[..t]) && !log[t].stopped
    requires forall u :: t < u < |log| ==> log[u].node != log[t].node
    ensures log[t].node in RunningBefore(initial, log)
  {
    var front := log[..|log| - 1];
    if t < |front| {
      assert front[..t] == log[..t] && forall u :: t <= u < |front| ==> front[u] == log[u];
      InVainStillRuns(initial, front, t);
    } else {
      assert front == log[..t];
    }
  }

  /** A finished shutdown leaves running exactly the nodes it tried in vain. */
  lemma LeftRunning(g: Graph, order: seq<nat>, initial: set<nat>, log: seq<Attempt>)
    requires StartOrder(g, order) && Shutdown(g, order, initial, log, 0) && forall i :: i in initial ==> i < |g|
    ensures forall i :: i in RunningBefore(initial, log) <==> Attempt(i, false) in log
  {
    StartOrderIsPermutation(g, order);
    RunningShrinks(initial, log);
    forall i ensures i in RunningBefore(initial, log) <==> Attempt(i, false) in log {
      if i in RunningBefore(initial, log) {
        var m := IndexOf(order, i);
        var t :| 0 <= t < |log| && log[t].node == order[m];
        StoppedIsGone(initial, log, t);
        assert log[t] == Attempt(i, false);
      }
      if Attempt(i, false) in log {
        var t :| 0 <= t < |log| && log[t] == Attempt(i, false);
        InVainStillRuns(initial, log, t);
      }
    }
  }
}
