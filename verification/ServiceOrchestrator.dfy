/** Starting, supervising and stopping all services of a registry on one runtime. Each method
    is proved to do what SupervisionSpec says. */
module ServiceOrchestrator {
  import opened Sequences
  import opened Processes
  import opened RuntimeSpec
  import opened RuntimeInvariants
  import opened RuntimeRuns
  import opened EmblaRuntime
  import opened RestartSpec
  import opened Services
  import opened ServiceRegistries
  import opened DependencyGraph
  import opened StartOrders
  import opened Startup
  import opened SupervisionSpec
  import opened SupervisionRuns
  import opened StartStop

  function RecordOf(s: Service): Record
    reads s
  {
    Record(s.View(), if s.process == null then None else Some(s.process.id))
  }

  ghost function Records(ss: seq<Service>): (r: seq<Record>)
    reads ss
    ensures |r| == |ss|
    ensures forall i :: 0 <= i < |ss| ==> r[i] == RecordOf(ss[i])
  {
    seq(|ss|, i requires 0 <= i < |ss| reads ss => RecordOf(ss[i]))
  }

  ghost function SettingsOf(ss: seq<Service>): (r: seq<Settings>)
    reads ss
    ensures |r| == |ss|
    ensures forall i :: 0 <= i < |ss| ==> r[i] == ss[i].settings
  {
    seq(|ss|, i requires 0 <= i < |ss| reads ss => ss[i].settings)
  }

  /** The services and the runtime agree: a service is RUNNING exactly when it has a process,
      that process is an entry of the process table, and no two services share one. */
  ghost predicate Supervised(ss: seq<Service>, embla: Embla)
    reads ss, embla, embla.processManager, embla.groupManager, embla.scheduler, embla.Repr
    reads embla.processManager.table, embla.groupManager.table
  {
    && embla.Valid() && Bookkeeping(embla.View())
    && (forall s :: s in ss ==> s !in embla.Repr && s.Attached(embla))
    && (forall s, t :: s in ss && t in ss && s != t && s.process != null ==> s.process != t.process)
  }

  /** What a supervised service shows is what the runtime's table says of its pid. */
  lemma RecordFacts(ss: seq<Service>, service: Service, embla: Embla)
    requires Supervised(ss, embla) && service in ss
    ensures SupervisionRuns.Attached(embla.View(), RecordOf(service))
    ensures service.ProcessReport() == ReportOf(embla.View(), RecordOf(service).pid)
    ensures service.Reapable(embla) == CanReap(embla.View(), RecordOf(service).pid)
    ensures service.process != null ==>
      && HostOf(embla.View(), service.process.id) == service.process.hostId != INVALID_HOST_PID
      && service.Reapable(embla) == (service.process.state == Terminated)
      && forall t :: t in ss && t != service && t.process != null ==> t.process.id != service.process.id
  {
    hide Embla.Valid;
    var process := service.process;
    if process != null {
      var i :| 0 <= i < |embla.processManager.table| && embla.processManager.table[i] == process;
      embla.EntryFacts(process, i);
      assert embla.View().procs[i].host != INVALID_HOST_PID;
      TerminatedIsReapable(embla, process);
      forall t | t in ss && t != service && t.process != null ensures t.process.id != process.id {
        embla.DistinctById(t.process, process);
      }
    }
  }

  lemma SupervisedOwned(registry: ServiceRegistry, embla: Embla)
    requires registry.Valid() && Supervised(registry.table, embla)
    ensures Owned(embla.View(), Records(registry.table))
  {
    hide Embla.Valid, Embla.View, Bookkeeping, ReportOf, CanReap;
    var ss := registry.table;
    forall i | 0 <= i < |ss| ensures SupervisionRuns.Attached(embla.View(), RecordOf(ss[i])) {
      RecordFacts(ss, ss[i], embla);
    }
    forall i, k | 0 <= i < k < |ss| && ss[i].process != null ensures RecordOf(ss[i]).pid != RecordOf(ss[k]).pid {
      DistinctServices(registry, i);
      RecordFacts(ss, ss[i], embla);
    }
  }

  /** A terminated entry of the table can be reaped: the failure branch of a reap is dead. */
  lemma TerminatedIsReapable(embla: Embla, process: Process)
    requires embla.Valid() && Bookkeeping(embla.View()) && process in embla.processManager.table
    ensures ReapProcessSpec(embla.View(), process.id).1 <==> process.state == Terminated
  {
    hide Embla.Valid;
    var i :| 0 <= i < |embla.processManager.table| && embla.processManager.table[i] == process;
    embla.EntryFacts(process, i);
    ReapProcessKeeps(embla.View(), process.id);
  }

  // ---- single operations under supervision ----

  method StartService(ghost ss: seq<Service>, service: Service, embla: Embla, fork: Option<nat>, now: real)
    returns (ok: bool)
    requires Supervised(ss, embla) && service in ss && fork != Some(INVALID_HOST_PID)
    modifies service`process, service`lastStartTime, service`permanentlyFailed, service`state, embla.Repr
    ensures Supervised(ss, embla) && fresh(embla.Repr - old(embla.Repr))
    ensures var v := old(embla.View()); var u := old(RecordOf(service));
      if u.svc.running then
        !ok && embla.View() == v && RecordOf(service) == u
      else
        var (v', pid) := SpawnSpec(v, fork);
        && ok == pid.Some? && embla.View() == v'
        && RecordOf(service) == if ok then Record(StartSpec(u.svc, true, now).0, pid) else u
  {
    hide Embla.Valid, Embla.View, Bookkeeping, SpawnSpec;
    SpawnKeeps(embla.View(), fork);
    ok := service.Start(embla, fork, now);
  }

  method ReapService(ghost ss: seq<Service>, service: Service, embla: Embla) returns (result: int)
    requires Supervised(ss, embla) && service in ss
    modifies service`lastExitCode, service`lastTermSignal, service`process, service`state, embla.Repr
    ensures Supervised(ss, embla) && embla.Repr == old(embla.Repr) && embla.sent == old(embla.sent)
    ensures var (v, u, r) := ReapRecord(old(embla.View()), old(RecordOf(service)));
      embla.View() == v && RecordOf(service) == u
      && result == (match r case ReapFailed => -1 case NotReaped => 0 case Reaped => 1)
  {
    hide Embla.Valid, Embla.View, Bookkeeping, ReapProcessSpec, ReportOf, CanReap;
    RecordFacts(ss, service, embla);
    if service.process != null { ReapProcessKeeps(embla.View(), service.process.id); }
    result := service.Reap(embla);
  }

  method DrainEvent(ghost ss: seq<Service>, embla: Embla, poll: Poll) returns (result: int)
    requires Supervised(ss, embla)
    modifies embla.Repr
    ensures Supervised(ss, embla) && embla.Repr == old(embla.Repr) && embla.sent == old(embla.sent)
    ensures result == (match poll case PollFailed => -1 case NoChild => 0 case ChildEvent(_, _) => 1)
    ensures embla.View() == Polled(old(embla.View()), poll)
    ensures forall s :: s in ss ==> RecordOf(s) == old(RecordOf(s))
  {
    hide Embla.Valid, Embla.View, Bookkeeping, DrainSpec;
    if poll.ChildEvent? { DrainKeeps(embla.View(), poll.host, poll.status); }
    result := embla.DrainOneEvent(poll);
  }

  method TickService(ghost ss: seq<Service>, service: Service, embla: Embla, tick: TickInput)
    returns (result: TickResult)
    requires Supervised(ss, embla) && service in ss && tick.fork != Some(INVALID_HOST_PID)
    modifies service, embla.Repr
    ensures Supervised(ss, embla) && fresh(embla.Repr - old(embla.Repr))
    ensures service.settings == old(service.settings) && service.dependencies == old(service.dependencies)
    ensures (embla.View(), RecordOf(service))
         == TickRecord(service.settings, old(embla.View()), old(RecordOf(service)), tick)
  {
    hide Embla.Valid, Embla.View, Bookkeeping, SpawnSpec, ReapProcessSpec, TickSpec, ReportOf, CanReap;
    RecordFacts(ss, service, embla);
    TickFacts(service.settings, service.View(), EnvAt(embla.View(), RecordOf(service).pid, tick));
    result := service.Tick(embla, tick.now, tick.startedAt, tick.fork);
  }

  /** Which outcomes of a tick leave the service running. */
  lemma TickFacts(cfg: Settings, s: Svc, env: TickEnv)
    ensures var (s', r) := TickSpec(cfg, s, env);
      match r
      case TickRestarted => s'.running
      case TickReapedNoRestart | TickScheduled | TickGaveUp => !s'.running
      case _ => s'.running == s.running
  {
  }

  // ---- the registry ----

  /** Where the registry lives: it and its array are not part of the runtime. */
  ghost predicate Apart(registry: ServiceRegistry, embla: Embla)
    reads embla
  {
    registry !in embla.Repr && registry.services !in embla.Repr
  }

  lemma RegistryFacts(registry: ServiceRegistry)
    requires registry.Valid()
    ensures registry.count == |registry.table| && NoDup(ServiceNames(registry.table))
  {
  }

  lemma OneService(registry: ServiceRegistry, i: nat)
    requires registry.Valid() && i < |registry.table|
    ensures forall k :: 0 <= k < |registry.table| && k != i ==> registry.table[k] != registry.table[i]
    ensures registry.table[i] in registry.table
  {
    DistinctServices(registry, i);
  }

  lemma SupervisedFacts(ss: seq<Service>, embla: Embla)
    requires Supervised(ss, embla)
    ensures embla.Valid() && Bookkeeping(embla.View())
    ensures forall s :: s in ss ==> s !in embla.Repr
  {
  }

  /** The records after only the service at `i` may have changed. */
  lemma OneRecord(ss: seq<Service>, i: nat, before: seq<Record>)
    requires i < |ss| == |before| && forall k :: 0 <= k < |ss| && k != i ==> RecordOf(ss[k]) == before[k]
    ensures Records(ss) == before[i := RecordOf(ss[i])]
    ensures RecordOf(ss[i]) == before[i] ==> Records(ss) == before
  {
  }

  lemma SameDefinitions(ss: seq<Service>, g: Graph, cfgs: seq<Settings>)
    requires |ss| == |g| == |cfgs|
    requires forall k :: 0 <= k < |ss| ==> g[k] == Node(ss[k].name, ss[k].dependencies) && cfgs[k] == ss[k].settings
    ensures GraphOf(ss) == g && SettingsOf(ss) == cfgs
  {
  }

  /** A fresh runtime and a fresh registry agree. */
  method CreateSupervisor() returns (registry: ServiceRegistry, embla: Embla)
    ensures registry.Valid() && Supervised(registry.table, embla) && Apart(registry, embla)
    ensures registry.table == [] && embla.View() == EMPTY_SYS
  {
    embla := new Embla();
    registry := new ServiceRegistry();
    hide Embla.Valid;
    EmptySatisfies();
  }

  /** So they do after a stopped service is registered, or any is unregistered. */
  method AddService(registry: ServiceRegistry, embla: Embla, service: Service) returns (ok: bool)
    requires registry.Valid() && Supervised(registry.table, embla) && Apart(registry, embla)
    requires service.state == ServiceStopped && service.process == null && service !in embla.Repr
    modifies registry, registry.services
    ensures registry.Valid() && Supervised(registry.table, embla) && Apart(registry, embla)
    ensures ok == (|old(registry.table)| < SERVICE_REGISTRY_INITIAL_CAPACITY
                   && service.name !in ServiceNames(old(registry.table)))
    ensures registry.table == if ok then old(registry.table) + [service] else old(registry.table)
  {
    hide Embla.Valid, Embla.View, Bookkeeping, ServiceRegistry.Valid;
    ok := registry.Register(service);
  }

  method DropService(registry: ServiceRegistry, embla: Embla, name: string) returns (ok: bool)
    requires registry.Valid() && Supervised(registry.table, embla) && Apart(registry, embla)
    modifies registry, registry.services
    ensures registry.Valid() && Supervised(registry.table, embla) && Apart(registry, embla)
    ensures ok == (name in ServiceNames(old(registry.table))) && name !in ServiceNames(registry.table)
    ensures forall s :: s in registry.table <==> s in old(registry.table) && s.name != name
  {
    hide Embla.Valid, Embla.View, Bookkeeping, ServiceRegistry.Valid;
    RegistryFacts(registry);
    ghost var was, i := registry.table, IndexOf(ServiceNames(registry.table), name);
    ok := registry.Unregister(name);
    if ok { WithoutName(was, i); } else { NotNamed(was, name); }
  }

  lemma WithoutName(ss: seq<Service>, i: nat)
    requires i < |ss| && NoDup(ServiceNames(ss))
    ensures forall s :: s in SwapRemove(ss, i) <==> s in ss && s.name != ss[i].name
  {
    var names := ServiceNames(ss);
    forall j, k | 0 <= j < k < |ss| ensures ss[j] != ss[k] { assert names[j] != names[k]; }
    SwapRemoveContents(ss, i);
    forall s | s in ss && s.name == ss[i].name ensures s == ss[i] {
      var k :| 0 <= k < |ss| && ss[k] == s;
      assert names[k] == names[i];
    }
  }

  lemma NotNamed(ss: seq<Service>, name: string)
    requires name !in ServiceNames(ss)
    ensures forall s :: s in ss ==> s.name != name
  {
    forall s | s in ss ensures s.name != name {
      var k :| 0 <= k < |ss| && ss[k] == s;
      assert ServiceNames(ss)[k] == s.name;
    }
  }

  /** A fresh buffer with the services in start order. */
  method OrderBuffer(registry: ServiceRegistry)
    returns (ok: bool, outOrder: array<Service?>, orderCount: nat, ghost order: seq<nat>)
    requires registry.Valid()
    ensures fresh(outOrder)
    ensures ok <==> Resolved(GraphOf(registry.table)) && Acyclic(GraphOf(registry.table))
    ensures ok ==>
      StartOrder(GraphOf(registry.table), order) && orderCount == |order| == |registry.table| <= outOrder.Length
    ensures ok ==> forall k :: 0 <= k < orderCount ==>
      order[k] < |registry.table| && outOrder[k] == registry.table[order[k]]
  {
    hide Resolved, Acyclic, PartialOrder;
    RegistryFacts(registry);
    outOrder := new Service?[registry.count](_ => null);
    ghost var blame;
    ok, orderCount, order, blame := ComputeStartOrder(registry, outOrder);
    if ok { InGraph(GraphOf(registry.table), order); }
  }

  // ---- starting everything ----

  /** Are all dependencies of the service registered and RUNNING at this moment? */
  method DependenciesRunning(registry: ServiceRegistry, service: Service, ghost i: nat) returns (all: bool)
    requires registry.Valid() && i < |registry.table| && registry.table[i] == service
    ensures all == DepsIn(GraphOf(registry.table), i, RunningIn(Records(registry.table)))
  {
    ghost var g, running := GraphOf(registry.table), RunningIn(Records(registry.table));
    GraphNames(registry.table);
    for j := 0 to |service.dependencies|
      invariant forall d :: d in service.dependencies[..j] ==> Lookup(g, d) < |g| && Lookup(g, d) in running
    {
      var depName := service.dependencies[j];
      assert depName in g[i].deps;
      assert service.dependencies[..j + 1] == service.dependencies[..j] + [depName];
      var dep := registry.Get(depName);
      if dep == null || dep.state != ServiceRunning {
        return false;
      }
    }
    assert service.dependencies[..|service.dependencies|] == service.dependencies;
    return true;
  }

  /** One turn of the start loop. */
  method TryStart(registry: ServiceRegistry, embla: Embla, service: Service, ghost i: nat, input: StartInput)
    returns (started: bool)
    requires registry.Valid() && Supervised(registry.table, embla) && Apart(registry, embla)
    requires i < |registry.table| && registry.table[i] == service && input.fork != Some(INVALID_HOST_PID)
    modifies service`process, service`lastStartTime, service`permanentlyFailed, service`state, embla.Repr
    ensures registry.Valid() && Supervised(registry.table, embla) && Apart(registry, embla)
    ensures fresh(embla.Repr - old(embla.Repr))
    ensures GraphOf(registry.table) == old(GraphOf(registry.table))
    ensures SettingsOf(registry.table) == old(SettingsOf(registry.table))
    ensures (embla.View(), Records(registry.table))
         == StartTurn(GraphOf(registry.table), old(embla.View()), old(Records(registry.table)), i, input)
    ensures |RunningIn(Records(registry.table))|
      == |RunningIn(old(Records(registry.table)))| + (if started then 1 else 0)
  {
    hide Embla.Valid, Embla.View, Bookkeeping, SpawnSpec, Supervised, DepsIn, ServiceRegistry.Valid, RunningIn;
    OneService(registry, i);
    ghost var us, g, cfgs := Records(registry.table), GraphOf(registry.table), SettingsOf(registry.table);
    var allDepsRunning := DependenciesRunning(registry, service, i);
    if !allDepsRunning {
      return false;
    }
    SupervisedFacts(registry.table, embla);
    started := StartService(registry.table, service, embla, input.fork, input.now);
    OneRecord(registry.table, i, us);
    SameDefinitions(registry.table, g, cfgs);
    CountStarted(us, i, RecordOf(service));
  }

  lemma CountStarted(us: seq<Record>, i: nat, u: Record)
    requires i < |us| && (us[i].svc.running ==> u.svc.running)
    ensures |RunningIn(us[i := u])| == |RunningIn(us)| + (if u.svc.running && !us[i].svc.running then 1 else 0)
  {
    assert RunningIn(us[i := u]) == RunningIn(us) + (if u.svc.running then {i} else {});
  }

  /** Starts in dependency order what can be started. The services running afterwards are
      those running before and those that spawned with all their dependencies running; who
      spawned is up to the host and the room in the runtime. Without a start order nothing
      is touched. */
  method StartAll(registry: ServiceRegistry, embla: Embla, inputs: seq<StartInput>)
    returns (started: int, ghost order: seq<nat>)
    requires registry.Valid() && Supervised(registry.table, embla) && Apart(registry, embla)
    requires |registry.table| <= |inputs| && GoodForks(inputs)
    modifies registry.table, embla.Repr
    ensures registry.Valid() && Supervised(registry.table, embla) && Apart(registry, embla)
    ensures fresh(embla.Repr - old(embla.Repr))
    ensures GraphOf(registry.table) == old(GraphOf(registry.table))
    ensures SettingsOf(registry.table) == old(SettingsOf(registry.table))
    ensures var g := GraphOf(registry.table); var v := old(embla.View()); var us := old(Records(registry.table));
      if Resolved(g) && Acyclic(g) then
        && StartOrder(g, order)
        && (embla.View(), Records(registry.table)) == StartWalk(g, v, us, order, inputs, |order|)
        && Started(g, v, us, order, inputs)
        && 0 <= started == |RunningIn(Records(registry.table))| - |RunningIn(us)|
      else
        started == -1 && embla.View() == v && Records(registry.table) == us
  {
    hide Embla.Valid, Embla.View, Supervised, ServiceRegistry.Valid, Resolved, Acyclic, StartOrder, GoodForks,
      Bookkeeping, StartWalk, Started, RunningIn, Owned;
    RegistryFacts(registry);
    SupervisedOwned(registry, embla);
    ghost var g, v, us := GraphOf(registry.table), embla.View(), Records(registry.table);
    var ok, outOrder, orderCount;
    ok, outOrder, orderCount, order := OrderBuffer(registry);
    if !ok {
      return -1, order;
    }
    InGraph(g, order);
    started := StartInOrder(registry, embla, outOrder, orderCount, order, inputs);
    WalkStarts(g, v, us, order, inputs);
  }

  /** The loop over the computed order. */
  method StartInOrder(
    registry: ServiceRegistry, embla: Embla, outOrder: array<Service?>, orderCount: nat, ghost order: seq<nat>,
    inputs: seq<StartInput>)
    returns (started: int)
    requires registry.Valid() && Supervised(registry.table, embla) && Apart(registry, embla)
    requires outOrder !in embla.Repr
    requires |registry.table| <= |inputs| && GoodForks(inputs)
    requires NoDup(order) && orderCount == |order| == |registry.table| <= outOrder.Length
    requires forall k :: 0 <= k < orderCount ==>
      order[k] < |registry.table| && outOrder[k] == registry.table[order[k]]
    modifies registry.table, embla.Repr
    ensures registry.Valid() && Supervised(registry.table, embla) && Apart(registry, embla)
    ensures fresh(embla.Repr - old(embla.Repr))
    ensures GraphOf(registry.table) == old(GraphOf(registry.table))
    ensures SettingsOf(registry.table) == old(SettingsOf(registry.table))
    ensures (embla.View(), Records(registry.table))
         == StartWalk(GraphOf(registry.table), old(embla.View()), old(Records(registry.table)),
            order, inputs, orderCount)
    ensures 0 <= started == |RunningIn(Records(registry.table))| - |RunningIn(old(Records(registry.table)))|
  {
    hide Embla.Valid, Embla.View, Supervised, ServiceRegistry.Valid, StartTurn, RunningIn, Bookkeeping,
      GraphOf, SettingsOf, Records, NoDup;
    ghost var g, v, us := GraphOf(registry.table), embla.View(), Records(registry.table);
    started := 0;
    var i := 0;
    while i < orderCount
      modifies registry.table, embla.Repr
      invariant i <= orderCount
      invariant registry.Valid() && Supervised(registry.table, embla) && Apart(registry, embla)
      invariant outOrder !in embla.Repr && fresh(embla.Repr - old(embla.Repr))
      invariant GraphOf(registry.table) == g && SettingsOf(registry.table) == old(SettingsOf(registry.table))
      invariant (embla.View(), Records(registry.table)) == StartWalk(g, v, us, order, inputs, i)
      invariant 0 <= started == |RunningIn(Records(registry.table))| - |RunningIn(us)|
    {
      var service := outOrder[i];
      SupervisedFacts(registry.table, embla);
      var startedOne := TryStart(registry, embla, service, order[i], inputs[i]);
      if startedOne {
        started := started + 1;
      }
      i := i + 1;
    }
  }

  // ---- stopping everything ----

  /** The waiting ends with the given readings if none of them reaches the deadline. */
  method WaitForTermination(ghost ss: seq<Service>, service: Service, embla: Embla,
    deadline: real, steps: seq<WaitStep>)
    returns (result: int)
    requires Supervised(ss, embla) && service in ss
    modifies service`lastExitCode, service`lastTermSignal, service`process, service`state, embla.Repr
    ensures Supervised(ss, embla) && embla.Repr == old(embla.Repr) && embla.sent == old(embla.sent)
    ensures (embla.View(), RecordOf(service), result)
      == WaitSpec(old(embla.View()), old(RecordOf(service)), deadline, steps)
  {
    hide Supervised, Embla.Valid, Embla.View, Bookkeeping, ReapRecord, DrainSpec;
    ghost var v, u := embla.View(), RecordOf(service);
    var i := 0;
    while i < |steps| && steps[i].now < deadline
      invariant i <= |steps|
      invariant Supervised(ss, embla) && embla.Repr == old(embla.Repr) && embla.sent == old(embla.sent)
      invariant WaitSpec(embla.View(), RecordOf(service), deadline, steps[i..]) == WaitSpec(v, u, deadline, steps)
    {
      assert steps[i..][1..] == steps[i + 1..];
      SupervisedFacts(ss, embla);
      var reapResult := ReapService(ss, service, embla);
      if reapResult == 1 {
        return 1;
      }
      if reapResult < 0 {
        return -1;
      }
      var drainResult := DrainEvent(ss, embla, steps[i].poll);
      if drainResult < 0 {
        return -1;
      }
      i := i + 1;
    }
    return 0;
  }

  method SignalStop(ghost ss: seq<Service>, service: Service, embla: Embla, accepted: bool) returns (ok: bool)
    requires Supervised(ss, embla) && service in ss && service.state == ServiceRunning
    modifies service`stopRequested, embla`sent
    ensures Supervised(ss, embla) && embla.View() == old(embla.View())
    ensures var u := old(RecordOf(service)); var (signals, taken) := SignalSpec(embla.View(), u.pid, Sigterm, accepted);
      && RecordOf(service) == u.(svc := u.svc.(stopRequested := true))
      && ok == taken && embla.sent == old(embla.sent) + signals
  {
    hide Embla.Valid, Embla.View, Bookkeeping, HostOf, ReportOf;
    RecordFacts(ss, service, embla);
    ok := service.Stop(embla, accepted);
  }

  method SignalKill(ghost ss: seq<Service>, service: Service, embla: Embla, accepted: bool) returns (ok: bool)
    requires Supervised(ss, embla) && service in ss && service.state == ServiceRunning
    modifies embla`sent
    ensures Supervised(ss, embla) && embla.View() == old(embla.View())
    ensures var (signals, taken) := SignalSpec(embla.View(), RecordOf(service).pid, Sigkill, accepted);
      ok == taken && embla.sent == old(embla.sent) + signals
  {
    hide Embla.Valid, Embla.View, Bookkeeping, HostOf, ReportOf;
    RecordFacts(ss, service, embla);
    ok := service.Kill(embla, accepted);
  }

  /** The body of the stop loop for a running service: SIGTERM, wait, and if that was not
      enough SIGKILL and wait. */
  method StopOne(ghost ss: seq<Service>, service: Service, embla: Embla, timeout: real, input: StopInput)
    returns (stopped: bool)
    requires Supervised(ss, embla) && service in ss && service.state == ServiceRunning
    modifies service`stopRequested, service`lastExitCode, service`lastTermSignal, service`process, service`state
    modifies embla.Repr
    ensures Supervised(ss, embla) && embla.Repr == old(embla.Repr)
    ensures var (v, u, done, signals) := StopSpec(old(embla.View()), old(RecordOf(service)), timeout, input);
      embla.View() == v && RecordOf(service) == u && stopped == done && embla.sent == old(embla.sent) + signals
  {
    hide Supervised, Embla.Valid, Embla.View, Bookkeeping, SignalSpec, WaitSpec;
    SupervisedFacts(ss, embla);
    RunningHasProcess(ss, service, embla);
    ghost var v, u := embla.View(), RecordOf(service);
    var asked := SignalStop(ss, service, embla, input.termAccepted);
    if !asked {
      return false;
    }
    ghost var u1 := RecordOf(service);
    var terminated := WaitForTermination(ss, service, embla, input.now + timeout, input.waits);
    if terminated != 1 {
      StillWaiting(v, u1, input.now + timeout, input.waits);
      var killed := SignalKill(ss, service, embla, input.killAccepted);
      if killed {
        terminated := WaitForTermination(ss, service, embla, input.killNow + KILL_WAIT_SECONDS, input.killWaits);
      }
    }
    stopped := terminated == 1;
  }

  lemma RunningHasProcess(ss: seq<Service>, service: Service, embla: Embla)
    requires Supervised(ss, embla) && service in ss && service.state == ServiceRunning
    ensures service.process != null && SupervisionRuns.Attached(embla.View(), RecordOf(service))
  {
    hide Embla.Valid, Bookkeeping;
    RecordFacts(ss, service, embla);
  }

  /** A wait that does not succeed leaves the service RUNNING. */
  lemma StillWaiting(v: Sys, u: Record, deadline: real, steps: seq<WaitStep>)
    requires Bookkeeping(v) && SupervisionRuns.Attached(v, u) && u.svc.running
    requires WaitSpec(v, u, deadline, steps).2 != 1
    ensures WaitSpec(v, u, deadline, steps).1 == u
  {
    WaitInVain(v, u, deadline, steps);
  }

  /** One turn of the stop loop: only a service that is RUNNING is tried. */
  method TryStop(registry: ServiceRegistry, embla: Embla, service: Service, ghost i: nat,
    timeout: real, input: StopInput,
    ghost st: StopState, ghost base: seq<Sent>)
    returns (stopped: bool, ghost after: StopState)
    requires registry.Valid() && Supervised(registry.table, embla) && Apart(registry, embla)
    requires i < |registry.table| && registry.table[i] == service
    requires st.sys == embla.View() && st.records == Records(registry.table)
    requires embla.sent == base + Flatten(st.signals)
    modifies service`stopRequested, service`lastExitCode, service`lastTermSignal, service`process, service`state
    modifies embla.Repr
    ensures registry.Valid() && Supervised(registry.table, embla) && Apart(registry, embla)
    ensures embla.Repr == old(embla.Repr)
    ensures GraphOf(registry.table) == old(GraphOf(registry.table))
    ensures SettingsOf(registry.table) == old(SettingsOf(registry.table))
    ensures after == StopTurn(st, i, timeout, input)
    ensures after.sys == embla.View() && after.records == Records(registry.table)
    ensures StoppedCount(after.log) == StoppedCount(st.log) + (if stopped then 1 else 0)
    ensures embla.sent == base + Flatten(after.signals)
  {
    hide Supervised, Embla.Valid, Embla.View, Bookkeeping, ServiceRegistry.Valid, StopSpec, StopTurn, Flatten,
      StoppedCount;
    StopTurnFacts(st, i, timeout, input);
    after := StopTurn(st, i, timeout, input);
    if service.state != ServiceRunning {
      return false, after;
    }
    OneService(registry, i);
    SupervisedFacts(registry.table, embla);
    ghost var us, g, cfgs := Records(registry.table), GraphOf(registry.table), SettingsOf(registry.table);
    stopped := StopOne(registry.table, service, embla, timeout, input);
    OneRecord(registry.table, i, us);
    SameDefinitions(registry.table, g, cfgs);
  }

  lemma StopTurnFacts(st: StopState, i: nat, timeout: real, input: StopInput)
    requires i < |st.records|
    ensures var after := StopTurn(st, i, timeout, input);
      if !st.records[i].svc.running then after == st
      else
        var (v, u, stopped, sent) := StopSpec(st.sys, st.records[i], timeout, input);
        && after.sys == v && after.records == st.records[i := u]
        && StoppedCount(after.log) == StoppedCount(st.log) + (if stopped then 1 else 0)
        && Flatten(after.signals) == Flatten(st.signals) + sent
  {
    hide StopSpec;
    if st.records[i].svc.running {
      var (_, _, stopped, sent) := StopSpec(st.sys, st.records[i], timeout, input);
      FlattenAppend(st.signals, sent);
      assert (st.log + [Attempt(i, stopped)])[..|st.log|] == st.log;
    }
  }

  /** Stops in reverse start order. */
  method StopAll(registry: ServiceRegistry, embla: Embla, timeout: real, inputs: seq<StopInput>)
    returns (result: int, ghost order: seq<nat>, ghost st: StopState)
    requires registry.Valid() && Supervised(registry.table, embla) && Apart(registry, embla)
    requires |registry.table| <= |inputs|
    modifies registry.table, embla.Repr
    ensures registry.Valid() && Supervised(registry.table, embla) && Apart(registry, embla)
    ensures embla.Repr == old(embla.Repr)
    ensures GraphOf(registry.table) == old(GraphOf(registry.table))
    ensures SettingsOf(registry.table) == old(SettingsOf(registry.table))
    ensures embla.View() == st.sys && Records(registry.table) == st.records
    ensures embla.sent == old(embla.sent) + Flatten(st.signals)
    ensures var g := GraphOf(registry.table); var us := old(Records(registry.table));
      if Resolved(g) && Acyclic(g) then
        && StartOrder(g, order) && st == StopWalk(old(embla.View()), us, order, timeout, inputs, 0)
        && result == |RunningIn(us)| - |RunningIn(st.records)|
        && forall t :: 0 <= t < |st.log| ==> SafeAttempt(g, RunningIn(us), st.log, t)
      else
        result == -1 && st == StopState(old(embla.View()), us, [], [])
  {
    hide Embla.Valid, Embla.View, Supervised, ServiceRegistry.Valid, Resolved, Acyclic, StartOrder, Bookkeeping,
      StopWalk, RunningIn, Owned, SafeAttempt;
    RegistryFacts(registry);
    SupervisedOwned(registry, embla);
    ghost var g, v, us := GraphOf(registry.table), embla.View(), Records(registry.table);
    var ok, outOrder, orderCount;
    ok, outOrder, orderCount, order := OrderBuffer(registry);
    st := StopState(v, us, [], []);
    if !ok {
      return -1, order, st;
    }
    InGraph(g, order);
    StopAllIsSafe(g, v, us, order, timeout, inputs);
    result, st := StopInOrder(registry, embla, outOrder, orderCount, order, timeout, inputs);
  }

  /** The loop over the computed order, from its end. */
  method StopInOrder(
    registry: ServiceRegistry, embla: Embla, outOrder: array<Service?>, orderCount: nat, ghost order: seq<nat>,
    timeout: real, inputs: seq<StopInput>)
    returns (stopped: int, ghost st: StopState)
    requires registry.Valid() && Supervised(registry.table, embla) && Apart(registry, embla)
    requires orderCount == |order| == |registry.table| <= outOrder.Length && |registry.table| <= |inputs|
    requires outOrder !in embla.Repr
    requires forall k :: 0 <= k < orderCount ==>
      order[k] < |registry.table| && outOrder[k] == registry.table[order[k]]
    modifies registry.table, embla.Repr
    ensures registry.Valid() && Supervised(registry.table, embla) && Apart(registry, embla)
    ensures embla.Repr == old(embla.Repr)
    ensures GraphOf(registry.table) == old(GraphOf(registry.table))
    ensures SettingsOf(registry.table) == old(SettingsOf(registry.table))
    ensures st == StopWalk(old(embla.View()), old(Records(registry.table)), order, timeout, inputs, 0)
    ensures embla.View() == st.sys && Records(registry.table) == st.records
    ensures embla.sent == old(embla.sent) + Flatten(st.signals)
    ensures stopped == StoppedCount(st.log)
  {
    hide Embla.Valid, Embla.View, Supervised, ServiceRegistry.Valid, StopTurn, Flatten;
    ghost var v, us, base := embla.View(), Records(registry.table), embla.sent;
    st := StopState(v, us, [], []);
    NoSignals(base);
    stopped := 0;
    var i := orderCount;
    while i > 0
      modifies registry.table, embla.Repr
      invariant 0 <= i <= orderCount
      invariant registry.Valid() && Supervised(registry.table, embla) && Apart(registry, embla)
      invariant embla.Repr == old(embla.Repr)
      invariant GraphOf(registry.table) == old(GraphOf(registry.table))
      invariant SettingsOf(registry.table) == old(SettingsOf(registry.table))
      invariant st == StopWalk(v, us, order, timeout, inputs, i)
      invariant embla.View() == st.sys && Records(registry.table) == st.records
      invariant embla.sent == base + Flatten(st.signals)
      invariant stopped == StoppedCount(st.log)
    {
      i := i - 1;
      var service := outOrder[i];
      var stoppedOne;
      SupervisedFacts(registry.table, embla);
      stoppedOne, st := TryStop(registry, embla, service, order[i], timeout, inputs[i], st, base);
      if stoppedOne {
        stopped := stopped + 1;
      }
    }
  }

  lemma NoSignals(before: seq<Sent>)
    ensures before == before + Flatten([])
  {
  }

  // ---- the supervise loop ----

  method DrainAll(registry: ServiceRegistry, embla: Embla, polls: seq<Poll>)
    requires registry.Valid() && Supervised(registry.table, embla) && Apart(registry, embla)
    modifies embla.Repr
    ensures registry.Valid() && Supervised(registry.table, embla) && Apart(registry, embla)
    ensures embla.Repr == old(embla.Repr)
    ensures embla.View() == DrainPolls(old(embla.View()), polls) && embla.sent == old(embla.sent)
    ensures Records(registry.table) == old(Records(registry.table))
    ensures GraphOf(registry.table) == old(GraphOf(registry.table))
    ensures SettingsOf(registry.table) == old(SettingsOf(registry.table))
  {
    hide Supervised, Embla.Valid, Embla.View, ServiceRegistry.Valid, DrainSpec;
    ghost var v := embla.View();
    var i := 0;
    var more := 1;
    while i < |polls| && more == 1
      invariant i <= |polls|
      invariant registry.Valid() && Supervised(registry.table, embla) && Apart(registry, embla)
      invariant embla.Repr == old(embla.Repr)
      invariant if more == 1 then DrainPolls(embla.View(), polls[i..]) == DrainPolls(v, polls)
        else embla.View() == DrainPolls(v, polls)
      invariant embla.sent == old(embla.sent) && Records(registry.table) == old(Records(registry.table))
      invariant GraphOf(registry.table) == old(GraphOf(registry.table))
      invariant SettingsOf(registry.table) == old(SettingsOf(registry.table))
    {
      assert polls[i..][1..] == polls[i + 1..];
      SupervisedFacts(registry.table, embla);
      more := DrainEvent(registry.table, embla, polls[i]);
      i := i + 1;
    }
  }

  /** The tick of the service at `i`. */
  method TickAt(registry: ServiceRegistry, embla: Embla, i: nat, tick: TickInput)
    requires registry.Valid() && Supervised(registry.table, embla) && Apart(registry, embla)
    requires i < |registry.table| && tick.fork != Some(INVALID_HOST_PID)
    modifies registry.table[i], embla.Repr
    ensures registry.Valid() && Supervised(registry.table, embla) && Apart(registry, embla)
    ensures fresh(embla.Repr - old(embla.Repr))
    ensures GraphOf(registry.table) == old(GraphOf(registry.table))
    ensures SettingsOf(registry.table) == old(SettingsOf(registry.table))
    ensures var us := old(Records(registry.table));
      var (v, u) := TickRecord(registry.table[i].settings, old(embla.View()), us[i], tick);
      embla.View() == v && Records(registry.table) == us[i := u]
  {
    hide Supervised, Embla.Valid, Embla.View, ServiceRegistry.Valid, TickRecord;
    OneService(registry, i);
    SupervisedFacts(registry.table, embla);
    ghost var us, g, cfgs := Records(registry.table), GraphOf(registry.table), SettingsOf(registry.table);
    var service := registry.GetAt(i);
    var _ := TickService(registry.table, service, embla, tick);
    OneRecord(registry.table, i, us);
    SameDefinitions(registry.table, g, cfgs);
  }

  /** One pass: drain the events, then tick every service once. */
  method SupervisePass(registry: ServiceRegistry, embla: Embla, input: PassInput)
    requires registry.Valid() && Supervised(registry.table, embla) && Apart(registry, embla)
    requires |registry.table| <= |input.ticks| && GoodTicks(input.ticks)
    modifies registry.table, embla.Repr
    ensures registry.Valid() && Supervised(registry.table, embla) && Apart(registry, embla)
    ensures fresh(embla.Repr - old(embla.Repr))
    ensures GraphOf(registry.table) == old(GraphOf(registry.table))
    ensures SettingsOf(registry.table) == old(SettingsOf(registry.table))
    ensures (embla.View(), Records(registry.table))
         == PassSpec(SettingsOf(registry.table), old(embla.View()), old(Records(registry.table)), input)
  {
    hide Supervised, Embla.Valid, Embla.View, ServiceRegistry.Valid, TickRecord;
    RegistryFacts(registry);
    ghost var us, cfgs := Records(registry.table), SettingsOf(registry.table);
    DrainAll(registry, embla, input.polls);
    ghost var v := embla.View();
    var i := 0;
    while i < registry.count
      invariant i <= registry.count == |registry.table| && registry.table == old(registry.table)
      invariant registry.Valid() && Supervised(registry.table, embla) && Apart(registry, embla)
      invariant fresh(embla.Repr - old(embla.Repr))
      invariant GraphOf(registry.table) == old(GraphOf(registry.table)) && SettingsOf(registry.table) == cfgs
      invariant (embla.View(), Records(registry.table)) == TickAll(cfgs, v, us, input.ticks, i)
    {
      TickAt(registry, embla, i, input.ticks[i]);
      i := i + 1;
    }
  }

  /** The loop until the shutdown request. */
  method SuperviseUntilShutdown(registry: ServiceRegistry, embla: Embla, passes: seq<PassInput>)
    requires registry.Valid() && Supervised(registry.table, embla) && Apart(registry, embla)
    requires GoodPasses(passes, |registry.table|)
    modifies registry.table, embla.Repr
    ensures registry.Valid() && Supervised(registry.table, embla) && Apart(registry, embla)
    ensures fresh(embla.Repr - old(embla.Repr))
    ensures GraphOf(registry.table) == old(GraphOf(registry.table))
    ensures SettingsOf(registry.table) == old(SettingsOf(registry.table))
    ensures (embla.View(), Records(registry.table))
         == SuperviseSpec(SettingsOf(registry.table), old(embla.View()), old(Records(registry.table)), passes)
  {
    hide Supervised, Embla.Valid, Embla.View, ServiceRegistry.Valid, PassSpec;
    ghost var v, us, cfgs := embla.View(), Records(registry.table), SettingsOf(registry.table);
    var k := 0;
    while k < |passes|
      modifies registry.table, embla.Repr
      invariant k <= |passes|
      invariant registry.Valid() && Supervised(registry.table, embla) && Apart(registry, embla)
      invariant fresh(embla.Repr - old(embla.Repr))
      invariant GraphOf(registry.table) == old(GraphOf(registry.table)) && SettingsOf(registry.table) == cfgs
      invariant (embla.View(), Records(registry.table)) == SuperviseSpec(cfgs, v, us, passes[..k])
    {
      SupervisePass(registry, embla, passes[k]);
      assert passes[..k + 1][..k] == passes[..k];
      k := k + 1;
    }
    assert passes[..k] == passes;
  }

  /** What a whole supervised run meets. */
  datatype SuperviseInput = SuperviseInput(starts: seq<StartInput>, passes: seq<PassInput>, stops: seq<StopInput>)

  /** Start everything, supervise until the shutdown request, stop everything. */
  method Supervise(registry: ServiceRegistry, embla: Embla, timeout: real, input: SuperviseInput)
    returns (result: int, ghost up: seq<nat>, ghost down: seq<nat>)
    requires registry.Valid() && Supervised(registry.table, embla) && Apart(registry, embla)
    requires |registry.table| <= |input.starts| && GoodForks(input.starts)
    requires GoodPasses(input.passes, |registry.table|) && |registry.table| <= |input.stops|
    modifies registry.table, embla.Repr
    ensures registry.Valid() && Supervised(registry.table, embla) && Apart(registry, embla)
    ensures var g := GraphOf(registry.table); var v := old(embla.View()); var us := old(Records(registry.table));
      if Resolved(g) && Acyclic(g) then
        && StartOrder(g, up) && StartOrder(g, down)
        && var (v1, us1) := StartWalk(g, v, us, up, input.starts, |up|);
           var (v2, us2) := SuperviseSpec(SettingsOf(registry.table), v1, us1, input.passes);
           var st := StopWalk(v2, us2, down, timeout, input.stops, 0);
           && Started(g, v, us, up, input.starts)
           && embla.View() == st.sys && Records(registry.table) == st.records
           && result == |RunningIn(us2)| - |RunningIn(st.records)|
           && (RecordsOk(us) && NothingPending(us) ==> RecordsOk(st.records))
      else
        result == -1 && embla.View() == v && Records(registry.table) == us
  {
    hide Supervised, Embla.Valid, Embla.View, ServiceRegistry.Valid, Resolved, Acyclic, PartialOrder, StartWalk,
      SuperviseSpec, StopWalk, RunningIn, Started, SafeAttempt,
      Owned, RecordsOk, NothingPending;
    ghost var g, cfgs := GraphOf(registry.table), SettingsOf(registry.table);
    ghost var v, us := embla.View(), Records(registry.table);
    SupervisedOwned(registry, embla);
    down := [];
    var started;
    started, up := StartAll(registry, embla, input.starts);
    if started < 0 {
      return -1, up, down;
    }
    SuperviseUntilShutdown(registry, embla, input.passes);
    ghost var st;
    result, down, st := StopAll(registry, embla, timeout, input.stops);
    if RecordsOk(us) && NothingPending(us) {
      RecordsStayOk(g, cfgs, v, us, up, input.starts, input.passes, down, timeout, input.stops);
    }
  }
}
