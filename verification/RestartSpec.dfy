/** What starting, reaping and ticking do to the record of one service, on plain values. */
module RestartSpec {

  datatype RestartPolicy = RestartNever | RestartOnFailure | RestartAlways

  /** The restart settings of a service. */
  datatype Settings = Settings(
    policy: RestartPolicy, baseDelay: real, maxDelay: real, stability: real, maxRestarts: int)

  /** The mutable part of a service record. */
  datatype Svc = Svc(
    running: bool, lastExitCode: int, lastTermSignal: int,
    stopRequested: bool, restartCount: int, failed: bool,
    pending: bool, lastStart: real, allowedAt: real)

  datatype TickResult = TickNothing | TickWaiting | TickRestarted | TickReapedNoRestart
    | TickScheduled | TickGaveUp | TickError

  /** What the service's process slot shows: empty, a process not terminated, or a terminated one. */
  datatype Report = Detached | Alive | Dead(exitCode: int, termSignal: int)

  /** What one tick meets: the two clock readings it may take, whether a spawn would succeed,
      the process, and whether the runtime would reap it. */
  datatype TickEnv = TickEnv(now: real, startedAt: real, spawns: bool, report: Report, reaps: bool)

  function StartSpec(s: Svc, spawns: bool, now: real): (Svc, bool) {
    if s.running || !spawns then (s, false)
    else (s.(running := true, lastStart := now, failed := false), true)
  }

  datatype ReapResult = ReapFailed | NotReaped | Reaped

  function ReapSpec(s: Svc, report: Report, reaps: bool): (Svc, ReapResult) {
    if !s.running then (s, NotReaped)
    else match report
      case Detached => (s, ReapFailed)
      case Alive => (s, NotReaped)
      case Dead(exitCode, termSignal) =>
        var s1 := s.(lastExitCode := exitCode, lastTermSignal := termSignal);
        if reaps then (s1.(running := false), Reaped) else (s1, ReapFailed)
  }

  function Pow2(n: nat): nat {
    if n == 0 then 1 else 2 * Pow2(n - 1)
  }

  const MAX_EXPONENT: nat := 30

  function Exponent(count: int): nat {
    if count - 1 < 0 then 0 else if count - 1 > MAX_EXPONENT then MAX_EXPONENT else count - 1
  }

  /** `base` doubled `exponent` times. */
  function Scaled(base: real, exponent: nat): real {
    base * (Pow2(exponent) as real)
  }

  function DelaySpec(cfg: Settings, count: int): real {
    var delay := Scaled(cfg.baseDelay, Exponent(count));
    if delay > cfg.maxDelay then cfg.maxDelay else delay
  }

  predicate WantsRestart(policy: RestartPolicy, exitCode: int, termSignal: int) {
    match policy
    case RestartAlways => true
    case RestartOnFailure => !(termSignal == -1 && exitCode == 0)
    case RestartNever => false
  }

  /** The part of a tick after a successful reap. */
  function AfterReapSpec(cfg: Settings, s: Svc, now: real): (Svc, TickResult) {
    if s.stopRequested then (s.(stopRequested := false), TickReapedNoRestart)
    else if !WantsRestart(cfg.policy, s.lastExitCode, s.lastTermSignal) then (s, TickReapedNoRestart)
    else
      var settled := if now - s.lastStart >= cfg.stability then 0 else s.restartCount;
      var s1 := s.(restartCount := settled + 1);
      if s1.restartCount > cfg.maxRestarts then (s1.(failed := true), TickGaveUp)
      else (s1.(allowedAt := now + DelaySpec(cfg, s1.restartCount), pending := true), TickScheduled)
  }

  lemma AfterReapResult(cfg: Settings, s: Svc, now: real)
    ensures AfterReapSpec(cfg, s, now).1 in {TickReapedNoRestart, TickScheduled, TickGaveUp}
  {
  }

  function TickSpec(cfg: Settings, s: Svc, env: TickEnv): (Svc, TickResult) {
    if s.pending then
      if env.now < s.allowedAt then (s, TickWaiting)
      else
        var (s1, ok) := StartSpec(s.(pending := false), env.spawns, env.startedAt);
        (s1, if ok then TickRestarted else TickError)
    else
      var (s1, r) := ReapSpec(s, env.report, env.reaps);
      match r
      case ReapFailed => (s1, TickError)
      case NotReaped => (s1, TickNothing)
      case Reaped => AfterReapSpec(cfg, s1, env.now)
  }
}
