/** The restart policy judged over whole runs of ticks. */
module RestartRuns {
  import opened RestartSpec

  /** The state after a run of ticks with fixed settings. */
  function Run(cfg: Settings, s: Svc, envs: seq<TickEnv>): Svc
    decreases |envs|
  {
    if envs == [] then s else Run(cfg, TickSpec(cfg, s, envs[0]).0, envs[1..])
  }

  lemma {:induction false} RunAppend(cfg: Settings, s: Svc, envs: seq<TickEnv>, env: TickEnv)
    ensures Run(cfg, s, envs + [env]) == TickSpec(cfg, Run(cfg, s, envs), env).0
    decreases |envs|
  {
    if envs == [] {
      assert envs + [env] == [env];
    } else {
      assert (envs + [env])[1..] == envs[1..] + [env];
      RunAppend(cfg, TickSpec(cfg, s, envs[0]).0, envs[1..], env);
    }
  }

  function Results(cfg: Settings, s: Svc, envs: seq<TickEnv>): (r: seq<TickResult>)
    ensures |r| == |envs|
    decreases |envs|
  {
    if envs == [] then []
    else [TickSpec(cfg, s, envs[0]).1] + Results(cfg, TickSpec(cfg, s, envs[0]).0, envs[1..])
  }

  function Count(rs: seq<TickResult>, r: TickResult): nat {
    if rs == [] then 0 else (if rs[0] == r then 1 else 0) + Count(rs[1..], r)
  }

  /** Did this tick reap the process, and did it then start the count afresh? */
  predicate Reaps(s: Svc, env: TickEnv) {
    !s.pending && ReapSpec(s, env.report, env.reaps).1 == Reaped
  }

  predicate Restartable(cfg: Settings, s: Svc, env: TickEnv) {
    Reaps(s, env) && !s.stopRequested && WantsRestart(cfg.policy, env.report.exitCode, env.report.termSignal)
  }

  predicate Resets(cfg: Settings, s: Svc, env: TickEnv) {
    Restartable(cfg, s, env) && env.now - s.lastStart >= cfg.stability
  }

  predicate NoResets(cfg: Settings, s: Svc, envs: seq<TickEnv>)
    decreases |envs|
  {
    envs != [] ==> !Resets(cfg, s, envs[0]) && NoResets(cfg, TickSpec(cfg, s, envs[0]).0, envs[1..])
  }

  // ---- the give-up threshold ----

  /** Without a stability reset the counter counts exactly the restartable exits, and no
      restart is scheduled beyond the maximum. */
  lemma {:induction false} CounterCounts(cfg: Settings, s: Svc, envs: seq<TickEnv>)
    requires NoResets(cfg, s, envs)
    ensures var rs := Results(cfg, s, envs);
            && Run(cfg, s, envs).restartCount == s.restartCount + Count(rs, TickScheduled) + Count(rs, TickGaveUp)
            && (Count(rs, TickScheduled) > 0 ==> s.restartCount + Count(rs, TickScheduled) <= cfg.maxRestarts)
    decreases |envs|
  {
    if envs != [] {
      var s1 := TickSpec(cfg, s, envs[0]).0;
      CounterCounts(cfg, s1, envs[1..]);
      var rs := Results(cfg, s, envs);
      assert rs[1..] == Results(cfg, s1, envs[1..]);
    }
  }

  /** From the moment a stability reset starts the count afresh until the next reset, at most
      `maxRestarts` restarts are scheduled, the one of the resetting tick included. */
  lemma RestartBound(cfg: Settings, s: Svc, envs: seq<TickEnv>)
    requires envs != [] && Resets(cfg, s, envs[0]) && 0 <= cfg.maxRestarts
    requires NoResets(cfg, TickSpec(cfg, s, envs[0]).0, envs[1..])
    ensures Count(Results(cfg, s, envs), TickScheduled) <= cfg.maxRestarts
  {
    var s1 := TickSpec(cfg, s, envs[0]).0;
    CounterCounts(cfg, s1, envs[1..]);
    assert Results(cfg, s, envs)[1..] == Results(cfg, s1, envs[1..]);
  }

  /** A restartable exit is given up on exactly when the count, 0 after a stable run, has
      used up the maximum; otherwise a restart is scheduled. */
  lemma GiveUpExactly(cfg: Settings, s: Svc, env: TickEnv)
    requires Restartable(cfg, s, env)
    ensures var used := if Resets(cfg, s, env) then 0 else s.restartCount;
            var r := TickSpec(cfg, s, env).1;
            (r == TickGaveUp <==> used >= cfg.maxRestarts) && (r == TickScheduled <==> used < cfg.maxRestarts)
  {
  }

  /** Between no two resets: by the time a service is given up on, exactly the remaining
      allowance of restarts has been scheduled. */
  lemma {:induction false} AllowanceUsedUp(cfg: Settings, s: Svc, envs: seq<TickEnv>, k: nat)
    requires NoResets(cfg, s, envs) && s.restartCount <= cfg.maxRestarts
    requires k < |envs| && Results(cfg, s, envs)[k] == TickGaveUp
    requires TickGaveUp !in Results(cfg, s, envs)[..k]
    ensures Count(Results(cfg, s, envs)[..k], TickScheduled) == cfg.maxRestarts - s.restartCount
    decreases k
  {
    var s1 := TickSpec(cfg, s, envs[0]).0;
    var rs, rest := Results(cfg, s, envs), Results(cfg, s1, envs[1..]);
    assert rs[1..] == rest;
    if k > 0 {
      assert rs[..k][0] == rs[0];
      assert rs[..k][1..] == rest[..k - 1];
      AllowanceUsedUp(cfg, s1, envs[1..], k - 1);
    }
  }

  /** A service that is neither running nor waiting to restart stays so: every tick answers
      NOTHING and changes nothing, until somebody starts it. */
  lemma {:induction false} Quiet(cfg: Settings, s: Svc, envs: seq<TickEnv>)
    requires !s.running && !s.pending
    ensures Run(cfg, s, envs) == s
    ensures forall k :: 0 <= k < |envs| ==> Results(cfg, s, envs)[k] == TickNothing
    decreases |envs|
  {
    if envs != [] { Quiet(cfg, s, envs[1..]); }
  }

  lemma QuietAfterGivingUp(cfg: Settings, s: Svc, env: TickEnv, envs: seq<TickEnv>)
    requires TickSpec(cfg, s, env).1 == TickGaveUp
    ensures var s1 := TickSpec(cfg, s, env).0;
            && s1.failed && Run(cfg, s1, envs) == s1
            && forall k :: 0 <= k < |envs| ==> Results(cfg, s1, envs)[k] == TickNothing
  {
    Quiet(cfg, TickSpec(cfg, s, env).0, envs);
  }

  // ---- explicit stops ----

  /** An explicit stop wins under every policy: after it no tick of any run schedules,
      performs or gives up on a restart, and the tick that reaps the process reports
      REAPED_NO_RESTART and leaves the service stopped with the flag cleared for good. */
  lemma {:induction false} StopWins(cfg: Settings, s: Svc, envs: seq<TickEnv>)
    requires s.running && s.stopRequested
    ensures var rs := Results(cfg, s, envs);
            && (forall k :: 0 <= k < |envs| ==> rs[k] in {TickNothing, TickWaiting, TickError, TickReapedNoRestart})
            && (forall k :: 0 <= k < |envs| && rs[k] == TickReapedNoRestart ==>
                  forall j :: k < j < |envs| ==> rs[j] == TickNothing)
            && (var s' := Run(cfg, s, envs);
                if TickReapedNoRestart in rs then !s'.running && !s'.stopRequested && !s'.pending
                else s'.running && s'.stopRequested)
            && Run(cfg, s, envs).restartCount == s.restartCount
    decreases |envs|
  {
    if envs != [] {
      var (s1, r) := TickSpec(cfg, s, envs[0]);
      var rs, rest := Results(cfg, s, envs), Results(cfg, s1, envs[1..]);
      assert rs == [r] + rest;
      if r == TickReapedNoRestart {
        Quiet(cfg, s1, envs[1..]);
        assert rs[0] == TickReapedNoRestart;
      } else {
        StopWins(cfg, s1, envs[1..]);
        assert TickReapedNoRestart in rs <==> TickReapedNoRestart in rest;
      }
    }
  }

  /** Ticks that find the process alive answer NOTHING and change nothing. */
  lemma {:induction false} AliveIsQuiet(cfg: Settings, s: Svc, envs: seq<TickEnv>)
    requires s.running && !s.pending && forall k :: 0 <= k < |envs| ==> envs[k].report == Alive
    ensures Run(cfg, s, envs) == s
    ensures forall k :: 0 <= k < |envs| ==> Results(cfg, s, envs)[k] == TickNothing
    decreases |envs|
  {
    if envs != [] { AliveIsQuiet(cfg, s, envs[1..]); }
  }

  /** Does the first exit after a start count, however many ticks found the process alive in
      between? `service_start` does not clear the stop flag and only a tick that reaps does,
      so exactly when no stop is on record. */
  lemma FirstExitIsSeen(cfg: Settings, s: Svc, startedAt: real, envs: seq<TickEnv>, env: TickEnv)
    requires !s.running && !s.pending && env.report.Dead? && env.reaps
    requires forall k :: 0 <= k < |envs| ==> envs[k].report == Alive
    requires WantsRestart(cfg.policy, env.report.exitCode, env.report.termSignal)
    ensures var (s1, ok) := StartSpec(s, true, startedAt);
            ok && (TickSpec(cfg, Run(cfg, s1, envs), env).1 in {TickScheduled, TickGaveUp} <==> !s.stopRequested)
  {
    AliveIsQuiet(cfg, StartSpec(s, true, startedAt).0, envs);
  }

  /** A concrete victim: a service stopped by the orchestrator, which reaps without a tick,
      then started again; its crash is taken for the stop that happened before. */
  lemma StaleStopFlag()
    ensures var cfg := Settings(RestartAlways, 1.0, 300.0, 60.0, 5);
            var stopped := Svc(true, -1, -1, true, 0, false, false, 0.0, 0.0);
            var reaped := ReapSpec(stopped, Dead(-1, 15), true).0;
            var started := StartSpec(reaped, true, 10.0).0;
            TickSpec(cfg, started, TickEnv(11.0, 11.0, true, Dead(1, -1), true)).1 == TickReapedNoRestart
  {
  }

  // ---- the policy ----

  /** Tick `k` of a run is the tick taken in the state its first `k` ticks lead to. */
  lemma {:induction false} TickOfRun(cfg: Settings, s: Svc, envs: seq<TickEnv>, k: nat)
    requires k < |envs|
    ensures TickSpec(cfg, Run(cfg, s, envs[..k]), envs[k])
         == (Run(cfg, s, envs[..k + 1]), Results(cfg, s, envs)[k])
    decreases k
  {
    hide TickSpec;
    var s1 := TickSpec(cfg, s, envs[0]).0;
    if k == 0 {
      assert envs[..1][1..] == [];
    } else {
      TickOfRun(cfg, s1, envs[1..], k - 1);
      assert envs[..k][1..] == envs[1..][..k - 1];
      assert envs[..k + 1][1..] == envs[1..][..k];
    }
  }

  /** Over every run: a tick schedules a restart, or gives up, exactly when it reaps a process
      nobody asked to stop and the policy wants it back: NEVER does not, ALWAYS does, ON_FAILURE
      does for a signal or a code other than 0. */
  lemma PolicyExactly(cfg: Settings, s: Svc, envs: seq<TickEnv>, k: nat)
    requires k < |envs|
    ensures var at, env := Run(cfg, s, envs[..k]), envs[k];
      Results(cfg, s, envs)[k] in {TickScheduled, TickGaveUp} <==>
        && !at.pending && at.running && env.report.Dead? && env.reaps && !at.stopRequested
        && match cfg.policy
           case RestartNever => false
           case RestartAlways => true
           case RestartOnFailure => env.report.termSignal != -1 || env.report.exitCode != 0
  {
    TickOfRun(cfg, s, envs, k);
  }

  // ---- the time of the last start ----

  /** After a run of ticks the time of the last start is the reading of the last tick that
      restarted the service, or, if none did, what it was before. */
  lemma {:induction false} LastStartIs(cfg: Settings, s: Svc, envs: seq<TickEnv>)
    ensures var rs, s' := Results(cfg, s, envs), Run(cfg, s, envs);
      && (TickRestarted !in rs ==> s'.lastStart == s.lastStart)
      && forall k :: 0 <= k < |envs| && rs[k] == TickRestarted && TickRestarted !in rs[k + 1..] ==>
           s'.lastStart == envs[k].startedAt
    decreases |envs|
  {
    if envs != [] {
      var (s1, r) := TickSpec(cfg, s, envs[0]);
      var rs, rest := Results(cfg, s, envs), Results(cfg, s1, envs[1..]);
      LastStartIs(cfg, s1, envs[1..]);
      assert rs == [r] + rest;
      assert r == TickRestarted ==> s1.lastStart == envs[0].startedAt;
      hide TickSpec, Results;
      forall k | 0 <= k < |envs| && rs[k] == TickRestarted && TickRestarted !in rs[k + 1..]
        ensures Run(cfg, s, envs).lastStart == envs[k].startedAt
      {
        assert rs[k + 1..] == rest[k..];
        if k > 0 { assert rest[k - 1] == TickRestarted && rest[k - 1 + 1..] == rest[k..]; }
      }
    }
  }

  /** Stability is measured from the start: the count begins afresh exactly when the crash is
      found at least the threshold after the reading taken by the start, and the service is
      given up on exactly when the count then exceeds the maximum. */
  lemma StabilityIsMeasured(cfg: Settings, s: Svc, startedAt: real, envs: seq<TickEnv>, env: TickEnv)
    requires !s.running && !s.pending && !s.stopRequested && env.report.Dead? && env.reaps
    requires forall k :: 0 <= k < |envs| ==> envs[k].report == Alive
    requires WantsRestart(cfg.policy, env.report.exitCode, env.report.termSignal)
    ensures var s1 := StartSpec(s, true, startedAt).0;
      var (s2, r) := TickSpec(cfg, Run(cfg, s1, envs), env);
      && s2.restartCount == (if env.now - startedAt >= cfg.stability then 0 else s.restartCount) + 1
      && (r == TickGaveUp <==> s2.restartCount > cfg.maxRestarts)
      && (r == TickScheduled <==> s2.restartCount <= cfg.maxRestarts)
  {
    AliveIsQuiet(cfg, StartSpec(s, true, startedAt).0, envs);
  }

  // ---- pending restarts ----

  /** A pending restart waits for its time and no longer: every tick before it answers WAITING
      and changes nothing, and the first tick at or after it restarts the service if the spawn
      succeeds; if not, the restart is dropped. */
  lemma {:induction false} RestartFires(cfg: Settings, s: Svc, envs: seq<TickEnv>, env: TickEnv)
    requires s.pending && !s.running && s.allowedAt <= env.now
    requires forall k :: 0 <= k < |envs| ==> envs[k].now < s.allowedAt
    ensures forall k :: 0 <= k < |envs| ==> Results(cfg, s, envs)[k] == TickWaiting
    ensures Run(cfg, s, envs) == s
    ensures var (s', r) := TickSpec(cfg, s, env);
      if env.spawns
      then && r == TickRestarted
           && s' == s.(pending := false, running := true, failed := false, lastStart := env.startedAt)
      else r == TickError && s' == s.(pending := false)
    decreases |envs|
  {
    if envs != [] { RestartFires(cfg, s, envs[1..], env); }
  }

  /** A restart whose spawn fails is never tried again: the service stays down over every later
      run, without being reported as given up on. */
  lemma FailedRestartIsFinal(cfg: Settings, s: Svc, env: TickEnv, envs: seq<TickEnv>)
    requires s.pending && !s.running && s.allowedAt <= env.now && !env.spawns
    ensures var (s1, r) := TickSpec(cfg, s, env);
      && r == TickError && !s1.running && s1.failed == s.failed && Run(cfg, s1, envs) == s1
      && forall k :: 0 <= k < |envs| ==> Results(cfg, s1, envs)[k] == TickNothing
  {
    Quiet(cfg, TickSpec(cfg, s, env).0, envs);
  }

  // ---- the record invariant ----

  /** A pending restart belongs to a stopped service, a permanent failure to a stopped one
      with nothing pending. */
  predicate RecordOk(s: Svc) {
    (s.pending ==> !s.running) && (s.failed ==> !s.running && !s.pending)
  }

  lemma {:induction false} RecordOkAlongRuns(cfg: Settings, s: Svc, envs: seq<TickEnv>)
    requires RecordOk(s)
    ensures RecordOk(Run(cfg, s, envs))
    decreases |envs|
  {
    if envs != [] { RecordOkAlongRuns(cfg, TickSpec(cfg, s, envs[0]).0, envs[1..]); }
  }

  /** A start by hand keeps the record in order exactly when no restart is pending. */
  lemma ManualStartKeepsRecord(s: Svc, now: real)
    requires RecordOk(s) && !s.running
    ensures RecordOk(StartSpec(s, true, now).0) <==> !s.pending
  {
  }

  // ---- backoff ----

  /** The delays of the restarts a run schedules, in order. */
  function Delays(cfg: Settings, s: Svc, envs: seq<TickEnv>): seq<real>
    decreases |envs|
  {
    if envs == [] then []
    else
      var (s1, r) := TickSpec(cfg, s, envs[0]);
      (if r == TickScheduled then [s1.allowedAt - envs[0].now] else []) + Delays(cfg, s1, envs[1..])
  }

  /** The documented backoff: base, 2*base, 4*base, ... up to the maximum. */
  function Backoff(cfg: Settings, j: nat): real {
    var delay := Scaled(cfg.baseDelay, if j > MAX_EXPONENT then MAX_EXPONENT else j);
    if delay > cfg.maxDelay then cfg.maxDelay else delay
  }

  /** Without a reset the j-th restart scheduled (from 0) on top of `restartCount` earlier
      ones is delayed by the j-th term of the backoff. */
  lemma {:induction false} DelaysFollowBackoff(cfg: Settings, s: Svc, envs: seq<TickEnv>)
    requires NoResets(cfg, s, envs) && 0 <= s.restartCount
    ensures forall j :: 0 <= j < |Delays(cfg, s, envs)| ==>
      Delays(cfg, s, envs)[j] == Backoff(cfg, s.restartCount + j)
    decreases |envs|
  {
    hide Scaled;
    if envs != [] {
      var (s1, r) := TickSpec(cfg, s, envs[0]);
      var rest := Delays(cfg, s1, envs[1..]);
      DelaysFollowBackoff(cfg, s1, envs[1..]);
      if r == TickGaveUp {
        Quiet(cfg, s1, envs[1..]);
        NoDelaysWhenQuiet(cfg, s1, envs[1..]);
      } else if r == TickScheduled {
        assert Delays(cfg, s, envs) == [s1.allowedAt - envs[0].now] + rest;
      }
    }
  }

  /** The backoff starts at the base and doubles up to the clamp, within the maximum. */
  lemma BackoffDoubles(cfg: Settings, j: nat)
    requires 0.0 <= cfg.baseDelay && 0.0 <= cfg.maxDelay
    ensures Backoff(cfg, 0) == Lesser(cfg.baseDelay, cfg.maxDelay)
    ensures j < MAX_EXPONENT ==> Backoff(cfg, j + 1) == Lesser(2.0 * Backoff(cfg, j), cfg.maxDelay)
    ensures j >= MAX_EXPONENT ==> Backoff(cfg, j) == Backoff(cfg, MAX_EXPONENT)
  {
    if j < MAX_EXPONENT {
      ScaledDoubles(cfg.baseDelay, j);
      ScaledMonotone(cfg.baseDelay, 0, j);
      ScaledMonotone(cfg.baseDelay, j, j + 1);
    }
  }

  function Lesser(x: real, y: real): real {
    if x < y then x else y
  }

  lemma ScaledDoubles(base: real, n: nat)
    ensures Scaled(base, 0) == base && Scaled(base, n + 1) == 2.0 * Scaled(base, n)
  {
    var p := Pow2(n) as real;
    assert Pow2(n + 1) as real == 2.0 * p;
    assert base * (2.0 * p) == 2.0 * (base * p);
  }

  lemma {:induction false} NoDelaysWhenQuiet(cfg: Settings, s: Svc, envs: seq<TickEnv>)
    requires !s.running && !s.pending
    ensures Delays(cfg, s, envs) == []
    decreases |envs|
  {
    if envs != [] { NoDelaysWhenQuiet(cfg, s, envs[1..]); }
  }

  lemma {:induction false} Pow2Monotone(a: nat, b: nat)
    requires a <= b
    ensures 1 <= Pow2(a) <= Pow2(b)
    decreases b
  {
    if a < b { Pow2Monotone(a, b - 1); }
    else if a > 0 { Pow2Monotone(a - 1, b - 1); }
  }

  /** The backoff never shrinks and never exceeds the maximum. */
  lemma BackoffGrows(cfg: Settings, i: nat, j: nat)
    requires i <= j && 0.0 <= cfg.baseDelay
    ensures Backoff(cfg, i) <= Backoff(cfg, j) <= cfg.maxDelay
  {
    var a := if i > MAX_EXPONENT then MAX_EXPONENT else i;
    var b := if j > MAX_EXPONENT then MAX_EXPONENT else j;
    hide Scaled;
    ScaledMonotone(cfg.baseDelay, a, b);
  }

  lemma ScaledMonotone(base: real, a: nat, b: nat)
    requires 0.0 <= base && a <= b
    ensures Scaled(base, a) <= Scaled(base, b)
  {
    hide Pow2;
    Pow2Monotone(a, b);
    var gap := (Pow2(b) - Pow2(a)) as real;
    assert Pow2(b) as real == Pow2(a) as real + gap;
    Distributes(base, Pow2(a) as real, gap);
  }

  lemma Distributes(x: real, a: real, b: real)
    requires 0.0 <= x && 0.0 <= b
    ensures x * (a + b) == x * a + x * b && 0.0 <= x * b
  {
  }

  // ---- timing ----

  /** Clock readings never go backwards, from `t` on. */
  predicate ClockFrom(t: real, envs: seq<TickEnv>)
    decreases |envs|
  {
    envs != [] ==> t <= envs[0].now <= envs[0].startedAt && ClockFrom(envs[0].startedAt, envs[1..])
  }

  function LastReading(t: real, envs: seq<TickEnv>): real {
    if envs == [] then t else envs[|envs| - 1].startedAt
  }

  /** The sum of the delays of the restarts a run performs; `d` is the delay of the one pending. */
  function ServedDelays(cfg: Settings, s: Svc, envs: seq<TickEnv>, d: real): real
    decreases |envs|
  {
    if envs == [] then 0.0
    else
      var (s1, r) := TickSpec(cfg, s, envs[0]);
      (if r == TickRestarted then d else 0.0)
      + ServedDelays(cfg, s1, envs[1..], if r == TickScheduled then s1.allowedAt - envs[0].now else d)
  }

  /** No restart is early: the restarts a run performs take at least the sum of their delays. */
  lemma {:induction false} RestartsTakeTheirTime(cfg: Settings, s: Svc, envs: seq<TickEnv>, t: real, d: real)
    requires ClockFrom(t, envs) && (s.pending ==> t + d <= s.allowedAt)
    ensures ServedDelays(cfg, s, envs, d) <= LastReading(t, envs) - t
    decreases |envs|
  {
    if envs != [] {
      var env := envs[0];
      var (s1, r) := TickSpec(cfg, s, env);
      ClockKeeps(env.startedAt, envs[1..]);
      if r == TickScheduled {
        WeakenClock(env.now, env.startedAt, envs[1..]);
        RestartsTakeTheirTime(cfg, s1, envs[1..], env.now, s1.allowedAt - env.now);
      } else if r == TickRestarted {
        RestartsTakeTheirTime(cfg, s1, envs[1..], env.startedAt, d);
      } else {
        WeakenClock(t, env.startedAt, envs[1..]);
        RestartsTakeTheirTime(cfg, s1, envs[1..], t, d);
      }
    }
  }

  lemma {:induction false} ClockKeeps(t: real, envs: seq<TickEnv>)
    requires ClockFrom(t, envs)
    ensures t <= LastReading(t, envs)
    decreases |envs|
  {
    if envs != [] { ClockKeeps(envs[0].startedAt, envs[1..]); }
  }

  lemma WeakenClock(t: real, u: real, envs: seq<TickEnv>)
    requires ClockFrom(u, envs) && t <= u
    ensures ClockFrom(t, envs)
  {
  }
}
