/** What starting and stopping all services of a registry achieves: the walks along the start
    order, forwards and backwards, on plain values. */
module StartStop {
  import opened Sequences
  import opened Processes
  import opened RuntimeSpec
  import opened RuntimeInvariants
  import opened RuntimeRuns
  import opened RestartSpec
  import opened RestartRuns
  import opened DependencyGraph
  import opened Startup
  import opened SupervisionSpec
  import opened SupervisionRuns

  // ---- starting ----

  /** The nodes among the first `k` of the order whose own start succeeds, counting a node
      that is not tried as successful when the host would have forked for it. */
  ghost function SpawnedIn(g: Graph, v: Sys, us: seq<Record>, order: seq<nat>,
    inputs: seq<StartInput>, k: nat): set<nat>
    requires |us| == |g| && k <= |order| <= |inputs| && forall m :: 0 <= m < |order| ==> order[m] < |g|
  {
    if k == 0 then {}
    else
      var (v', us') := StartWalk(g, v, us, order, inputs, k - 1);
      var tried := DepsIn(g, order[k - 1], RunningIn(us')) && !us'[order[k - 1]].svc.running;
      var good := if tried then SpawnSpec(v', inputs[k - 1].fork).1.Some? else inputs[k - 1].fork.Some?;
      SpawnedIn(g, v, us, order, inputs, k - 1) + (if good then {order[k - 1]} else {})
  }

  predicate GoodForks(inputs: seq<StartInput>) {
    forall k :: 0 <= k < |inputs| ==> inputs[k].fork != Some(INVALID_HOST_PID)
  }

  /** What the host's answers make of the first `k` turns: a node counts as spawned only if
      the host forked for it, and as not spawned only if it did not or the runtime was full;
      with enough room from the beginning, the host's answer alone decides. */
  ghost predicate SpawnedBy(inputs: seq<StartInput>, order: seq<nat>, spawned: set<nat>,
    k: nat, before: Sys, after: Sys)
    requires k <= |order| <= |inputs|
  {
    && (forall m :: 0 <= m < k && order[m] in spawned ==> inputs[m].fork.Some?)
    && (forall m :: 0 <= m < k && order[m] !in spawned ==> inputs[m].fork.None? || Room(after) < 1)
    && (|order| <= Room(before) ==> forall m :: 0 <= m < k ==> (order[m] in spawned <==> inputs[m].fork.Some?))
    && Room(before) - k <= Room(after) <= Room(before)
  }

  lemma SpawnedMore(
    inputs: seq<StartInput>, order: seq<nat>, spawned: set<nat>, k: nat, before: Sys, at: Sys, after: Sys,
    tried: bool, good: bool)
    requires k < |order| <= |inputs| && NoDup(order) && SpawnedBy(inputs, order, spawned, k, before, at)
    requires Bookkeeping(at) && order[k] !in spawned && inputs[k].fork != Some(INVALID_HOST_PID)
    requires good == if tried then SpawnSpec(at, inputs[k].fork).1.Some? else inputs[k].fork.Some?
    requires after == if tried then SpawnSpec(at, inputs[k].fork).0 else at
    ensures SpawnedBy(inputs, order, if good then spawned + {order[k]} else spawned, k + 1, before, after)
  {
    hide SpawnSpec, Bookkeeping, Room;
    SpawnTakesRoom(at, inputs[k].fork);
  }

  lemma StartTurnOwned(g: Graph, v: Sys, us: seq<Record>, i: nat, input: StartInput)
    requires |us| == |g| && i < |us| && Owned(v, us) && input.fork != Some(INVALID_HOST_PID)
    ensures var (v', us') := StartTurn(g, v, us, i, input);
      var tried := DepsIn(g, i, RunningIn(us)) && !us[i].svc.running;
      && Owned(v', us')
      && v' == (if tried then SpawnSpec(v, input.fork).0 else v)
      && RunningIn(us') == RunningIn(us) + (if tried && SpawnSpec(v, input.fork).1.Some? then {i} else {})
  {
    hide SpawnSpec, DepsIn;
    if DepsIn(g, i, RunningIn(us)) && !us[i].svc.running {
      var (v', pid) := SpawnSpec(v, input.fork);
      SpawnOwned(v, us, i, input.fork, if pid.Some? then StartSpec(us[i].svc, true, input.now).0 else us[i].svc);
      assert pid.None? ==> us[i := Record(us[i].svc, pid)] == us;
    }
  }

  /** The walk computes the run of turns of the dependency graph, keeps the agreement, and
      only the host or a full runtime keep a service from spawning. */
  lemma {:induction false} StartWalkFacts(g: Graph, v: Sys, us: seq<Record>, order: seq<nat>,
    inputs: seq<StartInput>, k: nat)
    requires |us| == |g| && StartOrder(g, order) && k <= |order| <= |inputs| && Owned(v, us) && GoodForks(inputs)
    ensures var (v', us') := StartWalk(g, v, us, order, inputs, k);
      var spawned := SpawnedIn(g, v, us, order, inputs, k);
      && Owned(v', us')
      && RunningIn(us') == RunningAfter(g, order, RunningIn(us), spawned, k)
      && SpawnedBy(inputs, order, spawned, k, v, v')
      && (forall i :: i in spawned ==> i in order[..k])
  {
    hide Owned, SpawnSpec, DepsIn, Room, SpawnedBy, RunningIn, StartTurn;
    OrderIsNoDup(g, order);
    if k > 0 {
      var i := order[k - 1];
      StartWalkFacts(g, v, us, order, inputs, k - 1);
      var (v1, us1) := StartWalk(g, v, us, order, inputs, k - 1);
      var spawned := SpawnedIn(g, v, us, order, inputs, k - 1);
      NotYet(order, spawned, k - 1);
      StartTurnOwned(g, v1, us1, i, inputs[k - 1]);
      StillRunning(us1, i);
      var tried := DepsIn(g, i, RunningIn(us1)) && !us1[i].svc.running;
      var good := if tried then SpawnSpec(v1, inputs[k - 1].fork).1.Some? else inputs[k - 1].fork.Some?;
      OneMoreTurn(g, order, RunningIn(us), spawned, k - 1, good);
      OwnedBooks(v1, us1);
      assert spawned + (if good then {i} else {}) == if good then spawned + {i} else spawned;
      SpawnedMore(inputs, order, spawned, k - 1, v, v1, StartTurn(g, v1, us1, i, inputs[k - 1]).0, tried, good);
      assert order[..k] == order[..k - 1] + [i];
    } else {
      NothingSpawned(inputs, order, v);
    }
  }

  lemma NothingSpawned(inputs: seq<StartInput>, order: seq<nat>, v: Sys)
    requires |order| <= |inputs|
    ensures SpawnedBy(inputs, order, {}, 0, v, v)
  {
  }

  lemma NotYet(order: seq<nat>, done: set<nat>, k: nat)
    requires NoDup(order) && k < |order| && forall i :: i in done ==> i in order[..k]
    ensures order[k] !in done
  {
    NotInSlice(order, 0, k, k);
    assert order[0..k] == order[..k];
  }

  lemma OwnedBooks(v: Sys, us: seq<Record>)
    requires Owned(v, us)
    ensures Bookkeeping(v)
  {
  }

  lemma StillRunning(us: seq<Record>, i: nat)
    requires i < |us|
    ensures us[i].svc.running <==> i in RunningIn(us)
  {
  }

  /** The whole walk leaves running those running before and those that spawned with all their
      dependencies running; who spawned is up to the host and the room in the runtime. */
  ghost predicate Started(g: Graph, v: Sys, us: seq<Record>, order: seq<nat>, inputs: seq<StartInput>)
    requires |us| == |g| && |order| <= |inputs| && forall m :: 0 <= m < |order| ==> order[m] < |g|
  {
    var (v', us') := StartWalk(g, v, us, order, inputs, |order|);
    var spawned := SpawnedIn(g, v, us, order, inputs, |order|);
    && Owned(v', us')
    && Fixpoint(g, RunningIn(us), spawned, RunningIn(us'))
    && SpawnedBy(inputs, order, spawned, |order|, v, v')
  }

  lemma WalkStarts(g: Graph, v: Sys, us: seq<Record>, order: seq<nat>, inputs: seq<StartInput>)
    requires |us| == |g| && StartOrder(g, order) && |order| <= |inputs| && Owned(v, us) && GoodForks(inputs)
    ensures Started(g, v, us, order, inputs)
  {
    hide Owned, SpawnedBy, SpawnedIn, StartWalk, Fixpoint;
    StartWalkFacts(g, v, us, order, inputs, |order|);
    WalkReachesFixpoint(g, order, RunningIn(us), SpawnedIn(g, v, us, order, inputs, |order|));
  }

  /** Started from an all-stopped registry, at every step of the walk every running service has
      all its transitive dependencies running. */
  lemma WalkStaysClosed(g: Graph, v: Sys, us: seq<Record>, order: seq<nat>, inputs: seq<StartInput>, k: nat)
    requires |us| == |g| && StartOrder(g, order) && k <= |order| <= |inputs| && Owned(v, us) && GoodForks(inputs)
    requires RunningIn(us) == {}
    ensures var running := RunningIn(StartWalk(g, v, us, order, inputs, k).1);
      Closed(g, running) && forall i, j :: i in running && DependsOn(g, i, j) ==> j in running
  {
    hide Owned, SpawnedBy, SpawnedIn, StartWalk, RunningIn;
    StartWalkFacts(g, v, us, order, inputs, k);
    ClosedAtEveryStep(g, order, SpawnedIn(g, v, us, order, inputs, k), k);
  }

  // ---- stopping ----

  function Flatten(ss: seq<seq<Sent>>): seq<Sent> {
    if ss == [] then [] else Flatten(ss[..|ss| - 1]) + ss[|ss| - 1]
  }

  lemma FlattenAppend(ss: seq<seq<Sent>>, s: seq<Sent>)
    ensures Flatten(ss + [s]) == Flatten(ss) + s
  {
    assert (ss + [s])[..|ss|] == ss;
  }

  /** A wait keeps the agreement, ends RUNNING exactly when it fails, and touches no stop flag. */
  lemma {:induction false} WaitOwned(v: Sys, us: seq<Record>, i: nat, deadline: real, steps: seq<WaitStep>)
    requires Owned(v, us) && i < |us| && us[i].svc.running
    ensures var (v', u, r) := WaitSpec(v, us[i], deadline, steps);
      && Owned(v', us[i := u])
      && u.svc == us[i].svc.(running := r != 1,
        lastExitCode := u.svc.lastExitCode, lastTermSignal := u.svc.lastTermSignal)
      && (if r == 1 then u.pid.None? else u == us[i])
    decreases |steps|
  {
    hide Owned, ReapProcessSpec, ReportOf, DrainSpec;
    assert us[i := us[i]] == us;
    if steps != [] && steps[0].now < deadline {
      var (v1, u1, r) := ReapRecord(v, us[i]);
      ReapOwned(v, us, i, u1.svc);
      if r == NotReaped && !steps[0].poll.PollFailed? {
        PolledOwned(v, us, steps[0].poll);
        WaitOwned(Polled(v, steps[0].poll), us, i, deadline, steps[1..]);
      }
    }
  }

  /** One attempt: the service keeps its process exactly when it could not be stopped. */
  lemma StopOwned(v: Sys, us: seq<Record>, i: nat, timeout: real, input: StopInput)
    requires Owned(v, us) && i < |us| && us[i].svc.running
    ensures var (v', u, stopped, _) := StopSpec(v, us[i], timeout, input);
      && Owned(v', us[i := u])
      && u.svc == us[i].svc.(stopRequested := true, running := !stopped,
                             lastExitCode := u.svc.lastExitCode, lastTermSignal := u.svc.lastTermSignal)
      && (if stopped then u.pid.None? else u == us[i].(svc := us[i].svc.(stopRequested := true)))
  {
    hide WaitSpec, SignalSpec, Owned;
    var u := us[i].(svc := us[i].svc.(stopRequested := true));
    var us1 := us[i := u];
    FlagOwned(v, us, i);
    var (v1, u1, r1) := WaitSpec(v, u, input.now + timeout, input.waits);
    WaitOwned(v, us1, i, input.now + timeout, input.waits);
    assert us1[i := u1] == us[i := u1];
    if r1 != 1 {
      WaitOwned(v1, us1, i, input.killNow + KILL_WAIT_SECONDS, input.killWaits);
      var u2 := WaitSpec(v1, u1, input.killNow + KILL_WAIT_SECONDS, input.killWaits).1;
      assert us1[i := u2] == us[i := u2];
    }
  }

  lemma FlagOwned(v: Sys, us: seq<Record>, i: nat)
    requires Owned(v, us) && i < |us|
    ensures Owned(v, us[i := us[i].(svc := us[i].svc.(stopRequested := true))])
    ensures us[i].svc.running <==> us[i].pid.Some?
  {
  }

  /** The backward walk keeps the agreement; its attempts are those of a shutdown, and account
      for every service that is no longer running. */
  lemma {:induction false} StopWalkFacts(
    g: Graph, v: Sys, us: seq<Record>, order: seq<nat>, timeout: real, inputs: seq<StopInput>, k: nat)
    requires StartOrder(g, order) && |us| == |g| && k <= |order| <= |inputs| && Owned(v, us)
    ensures var st := StopWalk(v, us, order, timeout, inputs, k);
      && Owned(st.sys, st.records)
      && Shutdown(g, order, RunningIn(us), st.log, k)
      && RunningIn(st.records) == RunningBefore(RunningIn(us), st.log)
      && |st.signals| == |st.log|
    decreases |order| - k
  {
    hide Owned, Shutdown, StopSpec, RunningBefore, StartOrder;
    InGraph(g, order);
    if k == |order| {
      NoAttempts(g, order, RunningIn(us));
    } else {
      StopWalkFacts(g, v, us, order, timeout, inputs, k + 1);
      var st, i := StopWalk(v, us, order, timeout, inputs, k + 1), order[k];
      if st.records[i].svc.running {
        StopOwned(st.sys, st.records, i, timeout, inputs[k]);
        ShutdownTries(g, order, RunningIn(us), st.log, k, StopSpec(st.sys, st.records[i], timeout, inputs[k]).2);
      } else {
        ShutdownPasses(g, order, RunningIn(us), st.log, k);
      }
    }
  }

  lemma InGraph(g: Graph, order: seq<nat>)
    requires StartOrder(g, order)
    ensures NoDup(order) && |order| == |g| && forall m :: 0 <= m < |order| ==> order[m] < |g|
  {
  }

  lemma NoAttempts(g: Graph, order: seq<nat>, initial: set<nat>)
    ensures Shutdown(g, order, initial, [], |order|) && RunningBefore(initial, []) == initial
  {
  }

  // ---- the records ----

  predicate RecordsOk(us: seq<Record>) {
    forall i :: 0 <= i < |us| ==> RecordOk(us[i].svc)
  }

  predicate NothingPending(us: seq<Record>) {
    forall i :: 0 <= i < |us| ==> !us[i].svc.pending
  }

  /** Starting everything keeps the records in order when no restart is pending. */
  lemma {:induction false} StartWalkRecords(
    g: Graph, v: Sys, us: seq<Record>, order: seq<nat>, inputs: seq<StartInput>, k: nat)
    requires |us| == |g| && k <= |order| <= |inputs| && forall m :: 0 <= m < |order| ==> order[m] < |g|
    requires RecordsOk(us) && NothingPending(us)
    ensures var us' := StartWalk(g, v, us, order, inputs, k).1; RecordsOk(us') && NothingPending(us')
  {
    hide SpawnSpec, DepsIn;
    if k > 0 { StartWalkRecords(g, v, us, order, inputs, k - 1); }
  }

  /** Stopping everything keeps them in order as it is. */
  lemma {:induction false} StopWalkRecords(
    g: Graph, v: Sys, us: seq<Record>, order: seq<nat>, timeout: real, inputs: seq<StopInput>, k: nat)
    requires StartOrder(g, order) && |us| == |g| && k <= |order| <= |inputs| && Owned(v, us) && RecordsOk(us)
    ensures RecordsOk(StopWalk(v, us, order, timeout, inputs, k).records)
    decreases |order| - k
  {
    hide Owned, StopSpec, StartOrder, RecordsOk, Shutdown, RunningBefore, RunningIn;
    InGraph(g, order);
    if k < |order| {
      StopWalkRecords(g, v, us, order, timeout, inputs, k + 1);
      StopWalkFacts(g, v, us, order, timeout, inputs, k + 1);
      var st, i := StopWalk(v, us, order, timeout, inputs, k + 1), order[k];
      if st.records[i].svc.running {
        StopOwned(st.sys, st.records, i, timeout, inputs[k]);
        TriedRecord(st.records, i, StopSpec(st.sys, st.records[i], timeout, inputs[k]).1);
      }
    }
  }

  lemma TriedRecord(us: seq<Record>, i: nat, u: Record)
    requires RecordsOk(us) && i < |us| && us[i].svc.running
    requires u.svc.pending == us[i].svc.pending && u.svc.failed == us[i].svc.failed
    ensures RecordsOk(us[i := u])
  {
    assert RecordOk(us[i].svc);
  }

  /** The record of a service just started: its flags, and the reading taken by its start. */
  predicate JustStarted(u: Record, u': Record, now: real) {
    && !u.svc.running && u'.pid.Some?
    && u'.svc == u.svc.(running := true, failed := false, lastStart := now)
  }

  /** What the start loop does to each record: the service at position `m` of the order is left
      alone, or started with the reading of its own turn. */
  lemma {:induction false} StartWalkRecord(
    g: Graph, v: Sys, us: seq<Record>, order: seq<nat>, inputs: seq<StartInput>, k: nat, m: nat)
    requires |us| == |g| && StartOrder(g, order) && k <= |order| <= |inputs| && m < |order|
    ensures var u, u' := us[order[m]], StartWalk(g, v, us, order, inputs, k).1[order[m]];
      u' == u || (m < k && JustStarted(u, u', inputs[m].now))
  {
    hide SpawnSpec, DepsIn, StartOrder;
    InGraph(g, order);
    if k > 0 { StartWalkRecord(g, v, us, order, inputs, k - 1, m); }
  }

  /** The record of a service after an attempt to stop it: the stop is on record, whether it runs
      is the outcome, and its restart record is as before. */
  predicate Tried(u: Record, u': Record, stopped: bool) {
    && u.svc.running && u'.svc.stopRequested && u'.svc.running == !stopped
    && u'.svc.(running := true, stopRequested := false, lastExitCode := 0, lastTermSignal := 0)
       == u.svc.(stopRequested := false, lastExitCode := 0, lastTermSignal := 0)
    && (if stopped then u'.pid.None? else u' == u.(svc := u.svc.(stopRequested := true)))
  }

  /** An attempt on record, with the effect it had. */
  ghost predicate TriedIn(log: seq<Attempt>, i: nat, u: Record, u': Record) {
    exists stopped :: Attempt(i, stopped) in log && Tried(u, u', stopped)
  }

  lemma StopTurnRecord(st: StopState, i: nat, timeout: real, input: StopInput, j: nat)
    requires Owned(st.sys, st.records) && i < |st.records| && j < |st.records|
    ensures var after := StopTurn(st, i, timeout, input);
      && st.log <= after.log
      && if j != i || !st.records[i].svc.running then after.records[j] == st.records[j]
         else TriedIn(after.log, i, st.records[i], after.records[i])
  {
    hide Owned, StopSpec, Tried;
    if st.records[i].svc.running {
      StopTries(st.sys, st.records, i, timeout, input);
      var after, stopped := StopTurn(st, i, timeout, input), StopSpec(st.sys, st.records[i], timeout, input).2;
      assert after.log[|st.log|] == Attempt(i, stopped);
    }
  }

  lemma MoreLog(log: seq<Attempt>, more: seq<Attempt>, i: nat, u: Record, u': Record)
    requires log <= more && TriedIn(log, i, u, u')
    ensures TriedIn(more, i, u, u')
  {
    hide Tried;
    var stopped :| Attempt(i, stopped) in log && Tried(u, u', stopped);
    var t :| 0 <= t < |log| && log[t] == Attempt(i, stopped);
    assert more[t] == Attempt(i, stopped);
  }

  /** What the stop loop does to each record: a service that was running at first is tried, and
      every other one is left alone. */
  lemma {:induction false} StopWalkRecord(
    g: Graph, v: Sys, us: seq<Record>, order: seq<nat>, timeout: real, inputs: seq<StopInput>, k: nat, m: nat)
    requires StartOrder(g, order) && |us| == |g| && k <= |order| <= |inputs| && Owned(v, us) && m < |order|
    ensures var st := StopWalk(v, us, order, timeout, inputs, k); var i := order[m];
      if m < k || !us[i].svc.running then st.records[i] == us[i]
      else TriedIn(st.log, i, us[i], st.records[i])
    decreases |order| - k
  {
    hide Owned, StopTurn, StopWalk, StartOrder, TriedIn, Shutdown, RunningBefore, RunningIn, NoDup;
    InGraph(g, order);
    StopWalkStep(v, us, order, timeout, inputs, k);
    if k < |order| {
      var st, i := StopWalk(v, us, order, timeout, inputs, k + 1), order[m];
      StopWalkRecord(g, v, us, order, timeout, inputs, k + 1, m);
      StopWalkFacts(g, v, us, order, timeout, inputs, k + 1);
      if k != m { DistinctAt(order, k, m); }
      StopTurnRecord(st, order[k], timeout, inputs[k], i);
      if m > k && us[i].svc.running {
        MoreLog(st.log, StopTurn(st, order[k], timeout, inputs[k]).log, i, us[i], st.records[i]);
      }
    }
  }

  lemma StopWalkStep(v: Sys, us: seq<Record>, order: seq<nat>, timeout: real, inputs: seq<StopInput>, k: nat)
    requires k <= |order| <= |inputs| && forall m :: 0 <= m < |order| ==> order[m] < |us|
    ensures StopWalk(v, us, order, timeout, inputs, k)
         == if k == |order| then StopState(v, us, [], [])
            else StopTurn(StopWalk(v, us, order, timeout, inputs, k + 1), order[k], timeout, inputs[k])
  {
    hide StopTurn;
  }

  lemma DistinctAt(order: seq<nat>, k: nat, m: nat)
    requires NoDup(order) && k < |order| && m < |order| && k != m
    ensures order[k] != order[m]
  {
  }

  lemma StopTries(v: Sys, us: seq<Record>, i: nat, timeout: real, input: StopInput)
    requires Owned(v, us) && i < |us| && us[i].svc.running
    ensures var (_, u, stopped, _) := StopSpec(v, us[i], timeout, input); Tried(us[i], u, stopped)
  {
    hide Owned;
    StopOwned(v, us, i, timeout, input);
  }

  /** A whole supervised run keeps every record in order when nothing is pending at its start. */
  lemma RecordsStayOk(
    g: Graph, cfgs: seq<Settings>, v: Sys, us: seq<Record>, up: seq<nat>, starts: seq<StartInput>,
    passes: seq<PassInput>, down: seq<nat>, timeout: real, stops: seq<StopInput>)
    requires |us| == |g| == |cfgs| && StartOrder(g, up) && StartOrder(g, down)
    requires |g| <= |starts| && GoodForks(starts) && GoodPasses(passes, |us|) && |g| <= |stops|
    requires Owned(v, us) && RecordsOk(us) && NothingPending(us)
    ensures var (v1, us1) := StartWalk(g, v, us, up, starts, |up|);
      var (v2, us2) := SuperviseSpec(cfgs, v1, us1, passes);
      RecordsOk(StopWalk(v2, us2, down, timeout, stops, 0).records)
  {
    hide Owned, StartWalk, SuperviseSpec, StopWalk;
    StartWalkFacts(g, v, us, up, starts, |up|);
    StartWalkRecords(g, v, us, up, starts, |up|);
    var (v1, us1) := StartWalk(g, v, us, up, starts, |up|);
    RecordsRun(cfgs, v1, us1, passes);
    var (v2, us2) := SuperviseSpec(cfgs, v1, us1, passes);
    StopWalkRecords(g, v2, us2, down, timeout, stops, 0);
  }

  /** A stop of all services signals safely: whenever a service is tried, every transitive
      dependent still running has already been tried in vain; its result is the drop in the
      number of running services, and the services it leaves running are exactly those it
      tried in vain. */
  lemma StopAllIsSafe(g: Graph, v: Sys, us: seq<Record>, order: seq<nat>, timeout: real, inputs: seq<StopInput>)
    requires StartOrder(g, order) && |us| == |g| && |order| <= |inputs| && Owned(v, us)
    ensures var st := StopWalk(v, us, order, timeout, inputs, 0); var initial := RunningIn(us);
      && (forall t :: 0 <= t < |st.log| ==> SafeAttempt(g, initial, st.log, t))
      && StoppedCount(st.log) == |initial| - |RunningIn(st.records)|
      && (forall i :: i in RunningIn(st.records) <==> Attempt(i, false) in st.log)
  {
    hide Owned, StopWalk, SafeAttempt;
    InGraph(g, order);
    StopWalkFacts(g, v, us, order, timeout, inputs, 0);
    var st, initial := StopWalk(v, us, order, timeout, inputs, 0), RunningIn(us);
    forall t | 0 <= t < |st.log| ensures SafeAttempt(g, initial, st.log, t) {
      BackwardsIsSafe(g, order, initial, st.log, 0, t);
    }
    StoppedCountIsDrop(initial, st.log);
    LeftRunning(g, order, initial, st.log);
  }
}
