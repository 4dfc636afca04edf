/** A service: a named definition with its restart settings, at most one process, and the
    lifecycle and tick operations that drive it on a runtime. */
module Services {
  import opened Sequences
  import opened Processes
  import opened RuntimeSpec
  import opened RuntimeInvariants
  import opened EmblaRuntime
  import opened RestartSpec

  const SERVICE_MAX_DEPENDENCIES: nat := 16

  datatype ServiceState = ServiceStopped | ServiceRunning

  class Service {
    const name: string
    var state: ServiceState
    var process: Process?
    var lastExitCode: int
    var lastTermSignal: int
    var settings: Settings
    var stopRequested: bool
    var consecutiveRestartCount: int
    var permanentlyFailed: bool
    var restartPending: bool
    var lastStartTime: real
    var restartAllowedAt: real
    var dependencies: seq<string>

    constructor (name: string)
      ensures this.name == name && dependencies == [] && process == null
      ensures View() == Svc(false, -1, -1, false, 0, false, false, 0.0, 0.0)
      ensures settings == Settings(RestartNever, 1.0, 300.0, 60.0, 5)
    {
      this.name := name;
      state := ServiceStopped;
      process := null;
      lastExitCode, lastTermSignal := -1, -1;
      settings := Settings(RestartNever, 1.0, 300.0, 60.0, 5);
      stopRequested, consecutiveRestartCount, permanentlyFailed := false, 0, false;
      restartPending, lastStartTime, restartAllowedAt := false, 0.0, 0.0;
      dependencies := [];
    }

    function View(): Svc
      reads this
    {
      Svc(state == ServiceRunning, lastExitCode, lastTermSignal, stopRequested,
          consecutiveRestartCount, permanentlyFailed, restartPending, lastStartTime, restartAllowedAt)
    }

    /** What a reap finds in the process slot. */
    function ProcessReport(): Report
      reads this, process
    {
      if process == null then Detached
      else if process.state == Terminated then Dead(process.exitCode, process.termSignal)
      else Alive
    }

    /** RUNNING exactly with a process, and that process is an entry of the runtime's table. */
    ghost predicate Attached(embla: Embla)
      reads this, embla.processManager
    {
      && (state == ServiceRunning <==> process != null)
      && (process != null ==> process in embla.processManager.table)
    }

    method AddDependency(dependency: string) returns (ok: bool)
      modifies `dependencies
      ensures ok == (dependency != name && |old(dependencies)| < SERVICE_MAX_DEPENDENCIES)
      ensures dependencies == if ok then old(dependencies) + [dependency] else old(dependencies)
    {
      if dependency == name {
        return false;
      }
      if |dependencies| >= SERVICE_MAX_DEPENDENCIES {
        return false;
      }
      dependencies := dependencies + [dependency];
      return true;
    }

    // ---- lifecycle ----

    method Start(embla: Embla, fork: Option<nat>, now: real) returns (ok: bool)
      requires embla.Valid() && this !in embla.Repr
      modifies `process, `lastStartTime, `permanentlyFailed, `state, embla.Repr
      ensures embla.Valid() && fresh(embla.Repr - old(embla.Repr)) && this !in embla.Repr
      ensures (View(), ok) == StartSpec(old(View()), SpawnSpec(old(embla.View()), fork).1.Some?, now)
      ensures embla.View() ==
        if old(state) == ServiceStopped then SpawnSpec(old(embla.View()), fork).0 else old(embla.View())
      ensures ok ==>
        process != null && fresh(process) && embla.processManager.table == old(embla.processManager.table) + [process]
      ensures ok ==> SpawnSpec(old(embla.View()), fork).1 == Some(process.id)
      ensures ok ==> state == ServiceRunning && lastStartTime == now && !permanentlyFailed
      ensures !ok ==> process == old(process) && embla.processManager.table == old(embla.processManager.table)
      ensures embla.sent == old(embla.sent)
    {
      hide Embla.Valid, Embla.View, SpawnSpec;
      if state != ServiceStopped {
        return false;
      }
      var spawned := embla.Spawn(fork);
      if spawned == null {
        return false;
      }
      process := spawned;
      lastStartTime := now;
      permanentlyFailed := false;
      state := ServiceRunning;
      return true;
    }

    /** The signals that go out when this service is signalled: none unless it runs a process
        that is not terminated. */
    function SignalsTo(signal: Signal): seq<Sent>
      reads this, process
    {
      if state == ServiceRunning && process != null && process.state != Terminated && process.hostId != INVALID_HOST_PID
      then [Sent(process.hostId, signal)] else []
    }

    /** `accepted`: the host's answer to the signal. The flag is set even if no signal goes out. */
    method Stop(embla: Embla, accepted: bool) returns (ok: bool)
      requires embla.Valid() && this !in embla.Repr
      modifies `stopRequested, embla`sent
      ensures embla.Valid() && embla.View() == old(embla.View())
      ensures var asked := old(state) == ServiceRunning && process != null;
        && View() == old(View()).(stopRequested := asked || old(stopRequested))
        && ok == (asked && process.state != Terminated && process.hostId != INVALID_HOST_PID && accepted)
      ensures embla.sent == old(embla.sent) + SignalsTo(Sigterm)
    {
      hide Embla.Valid, Embla.View;
      if state != ServiceRunning {
        return false;
      }
      if process == null {
        return false;
      }
      stopRequested := true;
      ok := embla.SignalProcess(process, Sigterm, accepted);
    }

    method Kill(embla: Embla, accepted: bool) returns (ok: bool)
      requires embla.Valid() && this !in embla.Repr
      modifies embla`sent
      ensures embla.Valid() && embla.View() == old(embla.View())
      ensures ok == (accepted && SignalsTo(Sigkill) != [])
      ensures embla.sent == old(embla.sent) + SignalsTo(Sigkill)
    {
      if state != ServiceRunning {
        return false;
      }
      if process == null {
        return false;
      }
      ok := embla.SignalProcess(process, Sigkill, accepted);
    }

    /** Would the runtime reap this service's process? */
    ghost predicate Reapable(embla: Embla)
      reads this, embla, embla.processManager, embla.processManager.table, embla.groupManager
      reads embla.groupManager.table, embla.scheduler
    {
      process != null && ReapProcessSpec(embla.View(), process.id).1
    }

    method Reap(embla: Embla) returns (result: int)
      requires embla.Valid() && this !in embla.Repr
      modifies `lastExitCode, `lastTermSignal, `process, `state, embla.Repr
      ensures embla.Valid() && embla.Repr == old(embla.Repr)
      ensures var (s, r) := ReapSpec(old(View()), old(ProcessReport()), old(Reapable(embla)));
        View() == s && result == (match r case ReapFailed => -1 case NotReaped => 0 case Reaped => 1)
      ensures process == if result == 1 then null else old(process)
      ensures embla.View() == if old(View()).running && old(ProcessReport()).Dead?
        then ReapProcessSpec(old(embla.View()), (old(process) as Process).id).0 else old(embla.View())
      ensures result != 1 ==> embla.processManager.table == old(embla.processManager.table)
      ensures result == 1 ==>
        && old(process) != null
        && forall p :: p in embla.processManager.table
                       <==> p in old(embla.processManager.table) && p.id != (old(process) as Process).id
      ensures embla.sent == old(embla.sent)
    {
      hide Embla.Valid, Embla.View, ReapProcessSpec;
      if state != ServiceRunning {
        return 0;
      }
      if process == null {
        return -1;
      }
      if process.state != Terminated {
        return 0;
      }
      lastExitCode := process.exitCode;
      lastTermSignal := process.termSignal;
      var processId := process.id;
      var ok := embla.ReapProcess(processId);
      if !ok {
        return -1;
      }
      process := null;
      state := ServiceStopped;
      return 1;
    }

    // ---- restart policy ----

    method ComputeDelay() returns (delay: real)
      ensures delay == DelaySpec(settings, consecutiveRestartCount)
    {
      hide Scaled;
      var exponent := consecutiveRestartCount - 1;
      if exponent < 0 {
        exponent := 0;
      }
      if exponent > MAX_EXPONENT {
        exponent := MAX_EXPONENT;
      }
      delay := Scaled(settings.baseDelay, exponent);
      if delay > settings.maxDelay {
        delay := settings.maxDelay;
      }
    }

    /** What follows a successful reap: the stop flag, the policy, the count, the backoff. */
    method ApplyPolicy(now: real) returns (result: TickResult)
      modifies `stopRequested, `consecutiveRestartCount, `permanentlyFailed, `restartAllowedAt, `restartPending
      ensures (View(), result) == AfterReapSpec(settings, old(View()), now)
    {
      if stopRequested {
        stopRequested := false;
        return TickReapedNoRestart;
      }
      var wasCleanExit := lastTermSignal == -1 && lastExitCode == 0;
      var shouldRestart := match settings.policy
        case RestartAlways => true
        case RestartOnFailure => !wasCleanExit
        case RestartNever => false;
      if !shouldRestart {
        return TickReapedNoRestart;
      }
      if now - lastStartTime >= settings.stability {
        consecutiveRestartCount := 0;
      }
      consecutiveRestartCount := consecutiveRestartCount + 1;
      if consecutiveRestartCount > settings.maxRestarts {
        permanentlyFailed := true;
        return TickGaveUp;
      }
      var delay := ComputeDelay();
      restartAllowedAt := now + delay;
      restartPending := true;
      return TickScheduled;
    }

    /** `now` and `startedAt` are the clock readings, `fork` the host's answer to a spawn. */
    method Tick(embla: Embla, now: real, startedAt: real, fork: Option<nat>) returns (result: TickResult)
      requires embla.Valid() && this !in embla.Repr
      modifies this, embla.Repr
      ensures embla.Valid() && fresh(embla.Repr - old(embla.Repr)) && this !in embla.Repr
      ensures settings == old(settings) && dependencies == old(dependencies)
      ensures (View(), result) == TickSpec(settings, old(View()),
        TickEnv(now, startedAt, SpawnSpec(old(embla.View()), fork).1.Some?, old(ProcessReport()), old(Reapable(embla))))
      ensures embla.View() ==
        if old(View()).pending then
          if now < old(View()).allowedAt || old(View()).running then old(embla.View())
          else SpawnSpec(old(embla.View()), fork).0
        else if old(View()).running && old(ProcessReport()).Dead? then
          ReapProcessSpec(old(embla.View()), (old(process) as Process).id).0
        else old(embla.View())
      ensures Bookkeeping(old(embla.View())) && fork != Some(INVALID_HOST_PID) ==> Bookkeeping(embla.View())
      ensures match result
        case TickRestarted =>
          && process != null && fresh(process)
          && embla.processManager.table == old(embla.processManager.table) + [process]
          && SpawnSpec(old(embla.View()), fork).1 == Some(process.id)
        case TickReapedNoRestart | TickScheduled | TickGaveUp =>
          && process == null && old(process) != null
          && forall p :: p in embla.processManager.table
                         <==> p in old(embla.processManager.table) && p.id != (old(process) as Process).id
        case _ => process == old(process) && embla.processManager.table == old(embla.processManager.table)
    {
      hide Embla.Valid, Embla.View, ReapProcessSpec, SpawnSpec, Reapable, Bookkeeping, AfterReapSpec;
      if restartPending {
        if now < restartAllowedAt {
          return TickWaiting;
        }
        restartPending := false;
        if Bookkeeping(embla.View()) && fork != Some(INVALID_HOST_PID) { SpawnKeeps(embla.View(), fork); }
        var started := Start(embla, fork, startedAt);
        return if started then TickRestarted else TickError;
      }
      result := TickReap(embla, now);
    }

    /** The tick of a service with no restart pending. */
    method TickReap(embla: Embla, now: real) returns (result: TickResult)
      requires embla.Valid() && this !in embla.Repr
      modifies this, embla.Repr
      ensures embla.Valid() && embla.Repr == old(embla.Repr)
      ensures settings == old(settings) && dependencies == old(dependencies)
      ensures var (s, r) := ReapSpec(old(View()), old(ProcessReport()), old(Reapable(embla)));
        (View(), result) == match r
          case ReapFailed => (s, TickError)
          case NotReaped => (s, TickNothing)
          case Reaped => AfterReapSpec(settings, s, now)
      ensures embla.View() == if old(View()).running && old(ProcessReport()).Dead?
        then ReapProcessSpec(old(embla.View()), (old(process) as Process).id).0 else old(embla.View())
      ensures Bookkeeping(old(embla.View())) ==> Bookkeeping(embla.View())
      ensures match result
        case TickReapedNoRestart | TickScheduled | TickGaveUp =>
          && process == null && old(process) != null
          && forall p :: p in embla.processManager.table
                         <==> p in old(embla.processManager.table) && p.id != (old(process) as Process).id
        case TickError | TickNothing =>
          process == old(process) && embla.processManager.table == old(embla.processManager.table)
        case _ => false
    {
      hide Embla.Valid, Embla.View, ReapProcessSpec, Reapable, Bookkeeping, AfterReapSpec;
      if process != null && Bookkeeping(embla.View()) { ReapProcessKeeps(embla.View(), process.id); }
      var reapResult := Reap(embla);
      if reapResult < 0 {
        return TickError;
      }
      if reapResult == 0 {
        return TickNothing;
      }
      AfterReapResult(settings, View(), now);
      result := ApplyPolicy(now);
    }
  }
}
