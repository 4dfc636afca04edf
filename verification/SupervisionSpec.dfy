/** What supervising, ticking and stopping services does to the runtime and to the records of
    the services, on plain values, and when a stop succeeds. */
module SupervisionSpec {
  import opened Sequences
  import opened Processes
  import opened ProcessTables
  import opened RuntimeSpec
  import opened RuntimeInvariants
  import opened RuntimeEffects
  import opened RuntimeRuns
  import opened ProcessGroups
  import opened Schedulers
  import opened RestartSpec
  import opened DependencyGraph
  import opened Startup

  /** A service as the supervisor sees it: its record and the pid of its process. */
  datatype Record = Record(svc: Svc, pid: Option<nat>)

  /** What the entry of a process shows. */
  function ReportOf(v: Sys, pid: Option<nat>): Report {
    if pid.None? then Detached
    else
      var i := FindPid(v.procs, pid.value);
      if i == |v.procs| then Detached
      else if v.procs[i].state == Terminated then Dead(v.procs[i].exitCode, v.procs[i].termSignal)
      else Alive
  }

  function CanReap(v: Sys, pid: Option<nat>): bool {
    pid.Some? && ReapProcessSpec(v, pid.value).1
  }

  function ReapRecord(v: Sys, u: Record): (Sys, Record, ReapResult) {
    var report := ReportOf(v, u.pid);
    var (s, r) := ReapSpec(u.svc, report, CanReap(v, u.pid));
    (if u.svc.running && report.Dead? then ReapProcessSpec(v, u.pid.value).0 else v,
     Record(s, if r == Reaped then None else u.pid), r)
  }

  // ---- waiting ----

  /** One round of the wait loop: the clock reading and the host's answer to the poll. */
  datatype WaitStep = WaitStep(now: real, poll: Poll)

  function Polled(v: Sys, poll: Poll): Sys {
    if poll.ChildEvent? then DrainSpec(v, poll.host, poll.status) else v
  }

  /** 1 when the service was reaped before the deadline, 0 when not, -1 when polling failed. */
  function WaitSpec(v: Sys, u: Record, deadline: real, steps: seq<WaitStep>): (Sys, Record, int)
    decreases |steps|
  {
    if steps == [] || steps[0].now >= deadline then (v, u, 0)
    else
      var (v1, u1, r) := ReapRecord(v, u);
      match r
      case Reaped => (v1, u1, 1)
      case ReapFailed => (v1, u1, -1)
      case NotReaped =>
        if steps[0].poll.PollFailed? then (v1, u1, -1)
        else WaitSpec(Polled(v1, steps[0].poll), u1, deadline, steps[1..])
  }

  /** Is this the report that this process ended? Only the first entry with its host pid gets it. */
  predicate Ends(v: Sys, pid: nat, poll: Poll) {
    Terminates(v.procs, FindPid(v.procs, pid), poll)
  }

  /** Has the process ended by round `k`: before the wait, or in one of the rounds before? */
  ghost predicate EndedBy(v: Sys, pid: nat, steps: seq<WaitStep>, k: nat)
    requires k <= |steps|
  {
    ReportOf(v, Some(pid)).Dead? || exists j :: 0 <= j < k && Ends(v, pid, steps[j].poll)
  }

  /** A round before the deadline, reached without a failed poll, that finds the process ended. */
  ghost predicate FoundIn(v: Sys, pid: nat, deadline: real, steps: seq<WaitStep>, k: nat)
    requires k < |steps|
  {
    && (forall j :: 0 <= j <= k ==> steps[j].now < deadline)
    && (forall j :: 0 <= j < k ==> !steps[j].poll.PollFailed?)
    && EndedBy(v, pid, steps, k)
  }

  ghost predicate InTime(v: Sys, pid: nat, deadline: real, steps: seq<WaitStep>) {
    exists k :: 0 <= k < |steps| && FoundIn(v, pid, deadline, steps, k)
  }

  /** Draining an event touches no identity, and terminates exactly the process it is about. */
  lemma PolledFacts(v: Sys, pid: nat, poll: Poll)
    requires Bookkeeping(v) && FindPid(v.procs, pid) < |v.procs|
    ensures var v' := Polled(v, poll);
      && Bookkeeping(v') && FindPid(v'.procs, pid) == FindPid(v.procs, pid)
      && (forall p :: Ends(v', pid, p) == Ends(v, pid, p))
      && (ReportOf(v', Some(pid)).Dead? <==> ReportOf(v, Some(pid)).Dead? || Ends(v, pid, poll))
  {
    if poll.ChildEvent? { DrainKeeps(v, poll.host, poll.status); }
    assert forall i :: 0 <= i < |v.procs| ==> v.procs[i].state != Created;
    hide Bookkeeping;
    var v' := Polled(v, poll);
    PolledTable(v, poll);
    assert Pids(v'.procs) == Pids(v.procs);
    hide Polled, FindHost;
    forall host ensures FindHost(v'.procs, host) == FindHost(v.procs, host) { SameHosts(v.procs, v'.procs, host); }
  }

  /** The table after one poll: at most the first entry with the reported host pid differs. */
  lemma PolledTable(v: Sys, poll: Poll)
    ensures var procs := Polled(v, poll).procs;
      && |procs| == |v.procs|
      && (forall i :: 0 <= i < |procs| ==> procs[i].id == v.procs[i].id && procs[i].host == v.procs[i].host)
      && (forall i :: 0 <= i < |procs| ==>
            procs[i].state ==
              if poll.ChildEvent? && (poll.status.Exited? || poll.status.Signaled?) && poll.host != INVALID_HOST_PID
                 && i == FindHost(v.procs, poll.host) && CanTransition(v.procs[i].state, Terminated)
              then Terminated else v.procs[i].state)
  {
  }

  /** The exit code and the signal recorded for a process. */
  function CodesOf(v: Sys, pid: nat): (int, int) {
    var i := FindPid(v.procs, pid);
    if i < |v.procs| then (v.procs[i].exitCode, v.procs[i].termSignal) else (-1, -1)
  }

  /** What a report adds to them. */
  function Told(codes: (int, int), poll: Poll): (int, int)
    requires poll.ChildEvent?
  {
    match poll.status
    case Exited(code) => (code, codes.1)
    case Signaled(signal) => (codes.0, signal)
    case _ => codes
  }

  /** What a poll tells of a process: its end with the reported code, or nothing. */
  lemma PolledReport(v: Sys, pid: nat, poll: Poll)
    requires Bookkeeping(v) && FindPid(v.procs, pid) < |v.procs|
    ensures var codes := if Ends(v, pid, poll) then Told(CodesOf(v, pid), poll) else CodesOf(v, pid);
      && CodesOf(Polled(v, poll), pid) == codes
      && ReportOf(Polled(v, poll), Some(pid)) ==
           if Ends(v, pid, poll) then Dead(codes.0, codes.1) else ReportOf(v, Some(pid))
  {
    if poll.ChildEvent? { DrainDoes(v, poll.host, poll.status); }
    hide Bookkeeping, DrainSpec;
    assert Pids(Polled(v, poll).procs) == Pids(v.procs);
    var i, h := FindPid(v.procs, pid), if poll.ChildEvent? then FindHost(v.procs, poll.host) else 0;
    if i != h { assert Polled(v, poll).procs[i] == v.procs[i]; }
  }

  /** Waiting succeeds exactly when some round before the deadline finds the process ended:
      the report must have been drained in an earlier round, not in the last one. */
  lemma {:induction false} WaitSucceedsExactly(v: Sys, u: Record, deadline: real, steps: seq<WaitStep>)
    requires Bookkeeping(v) && u.svc.running && u.pid.Some? && FindPid(v.procs, u.pid.value) < |v.procs|
    ensures WaitSpec(v, u, deadline, steps).2 == 1 <==> InTime(v, u.pid.value, deadline, steps)
    decreases |steps|
  {
    hide ReapProcessSpec, Bookkeeping;
    var pid := u.pid.value;
    if steps != [] && steps[0].now < deadline {
      EntryReapable(v, pid);
      if ReportOf(v, u.pid).Dead? {
        assert FoundIn(v, pid, deadline, steps, 0);
      } else if !steps[0].poll.PollFailed? {
        var v' := Polled(v, steps[0].poll);
        PolledFacts(v, pid, steps[0].poll);
        WaitSucceedsExactly(v', u, deadline, steps[1..]);
        LaterRounds(v, v', pid, deadline, steps);
      }
    }
  }

  lemma EntryReapable(v: Sys, pid: nat)
    requires Bookkeeping(v) && FindPid(v.procs, pid) < |v.procs|
    ensures ReapProcessSpec(v, pid).1 == ReportOf(v, Some(pid)).Dead?
    ensures ReportOf(v, Some(pid)).Dead? || ReportOf(v, Some(pid)).Alive?
    ensures v.procs[FindPid(v.procs, pid)].host != INVALID_HOST_PID
  {
    var i := FindPid(v.procs, pid);
    if v.procs[i].state == Terminated { ReapFoundKeeps(v, i); }
  }

  lemma LaterRounds(v: Sys, v': Sys, pid: nat, deadline: real, steps: seq<WaitStep>)
    requires steps != [] && steps[0].now < deadline && !steps[0].poll.PollFailed? && !ReportOf(v, Some(pid)).Dead?
    requires forall p :: Ends(v', pid, p) == Ends(v, pid, p)
    requires ReportOf(v', Some(pid)).Dead? <==> Ends(v, pid, steps[0].poll)
    ensures InTime(v, pid, deadline, steps) <==> InTime(v', pid, deadline, steps[1..])
  {
    hide Ends, ReportOf;
    var rest := steps[1..];
    assert forall j :: 0 <= j < |rest| ==> rest[j] == steps[j + 1];
    if InTime(v, pid, deadline, steps) {
      var k :| 0 <= k < |steps| && FoundIn(v, pid, deadline, steps, k);
      var j :| 0 <= j < k && Ends(v, pid, steps[j].poll);
      assert j > 0 ==> rest[j - 1] == steps[j];
      assert FoundIn(v', pid, deadline, rest, k - 1);
    }
    if InTime(v', pid, deadline, rest) {
      var k :| 0 <= k < |rest| && FoundIn(v', pid, deadline, rest, k);
      if !ReportOf(v', Some(pid)).Dead? {
        var j :| 0 <= j < k && Ends(v', pid, rest[j].poll);
        assert Ends(v, pid, steps[j + 1].poll);
      }
      assert FoundIn(v, pid, deadline, steps, k + 1);
    }
  }

  /** The runtime after the polls of the first `k` rounds. */
  function PolledAll(v: Sys, steps: seq<WaitStep>, k: nat): Sys
    requires k <= |steps|
    decreases k
  {
    if k == 0 then v else PolledAll(Polled(v, steps[0].poll), steps[1..], k - 1)
  }

  /** A wait that succeeds takes over the codes its process shows in the round that finds it. */
  lemma {:induction false} WaitTakesCodes(v: Sys, u: Record, deadline: real, steps: seq<WaitStep>) returns (k: nat)
    requires Bookkeeping(v) && u.svc.running && u.pid.Some? && FindPid(v.procs, u.pid.value) < |v.procs|
    requires WaitSpec(v, u, deadline, steps).2 == 1
    ensures k < |steps| && FoundIn(v, u.pid.value, deadline, steps, k)
    ensures var u' := WaitSpec(v, u, deadline, steps).1;
      (u'.svc.lastExitCode, u'.svc.lastTermSignal) == CodesOf(PolledAll(v, steps, k), u.pid.value)
    decreases |steps|
  {
    hide ReapProcessSpec, Bookkeeping;
    var pid := u.pid.value;
    EntryReapable(v, pid);
    if ReportOf(v, u.pid).Dead? {
      k := 0;
    } else {
      var v' := Polled(v, steps[0].poll);
      PolledFacts(v, pid, steps[0].poll);
      k := WaitTakesCodes(v', u, deadline, steps[1..]);
      FoundLater(v, v', pid, deadline, steps, k);
      k := k + 1;
    }
  }

  lemma FoundLater(v: Sys, v': Sys, pid: nat, deadline: real, steps: seq<WaitStep>, k: nat)
    requires k + 1 < |steps| && steps[0].now < deadline && !steps[0].poll.PollFailed?
    requires forall p :: Ends(v', pid, p) == Ends(v, pid, p)
    requires ReportOf(v', Some(pid)).Dead? ==> ReportOf(v, Some(pid)).Dead? || Ends(v, pid, steps[0].poll)
    requires FoundIn(v', pid, deadline, steps[1..], k)
    ensures FoundIn(v, pid, deadline, steps, k + 1)
  {
    hide Ends, ReportOf;
    var rest := steps[1..];
    assert forall j :: 0 <= j < |rest| ==> rest[j] == steps[j + 1];
    if !ReportOf(v', Some(pid)).Dead? {
      var j :| 0 <= j < k && Ends(v', pid, rest[j].poll);
      assert Ends(v, pid, steps[j + 1].poll);
    }
    forall j | 0 <= j <= k + 1 ensures steps[j].now < deadline { assert j == 0 || steps[j] == rest[j - 1]; }
    forall j | 0 <= j < k + 1 ensures !steps[j].poll.PollFailed? { assert j == 0 || steps[j] == rest[j - 1]; }
  }

  // ---- stopping ----

  const KILL_WAIT_SECONDS: real := 2.0

  /** What one attempt to stop a service meets. */
  datatype StopInput = StopInput(
    termAccepted: bool, now: real, waits: seq<WaitStep>, killAccepted: bool, killNow: real, killWaits: seq<WaitStep>)

  /** The host pid of a process in the table. */
  function HostOf(v: Sys, pid: nat): nat {
    var i := FindPid(v.procs, pid);
    if i < |v.procs| then v.procs[i].host else INVALID_HOST_PID
  }

  /** A signal reaches the host only while the process is not known to have ended. */
  function SignalSpec(v: Sys, pid: Option<nat>, signal: Signal, accepted: bool): (seq<Sent>, bool) {
    if ReportOf(v, pid).Alive? && HostOf(v, pid.value) != INVALID_HOST_PID
    then ([Sent(HostOf(v, pid.value), signal)], accepted) else ([], false)
  }

  /** One attempt to stop a running service: SIGTERM, wait, and if that was not enough SIGKILL
      and wait again. Also the signals that went out. */
  function StopSpec(v: Sys, u: Record, timeout: real, input: StopInput): (Sys, Record, bool, seq<Sent>) {
    if u.pid.None? then (v, u, false, [])
    else
      var asked := u.(svc := u.svc.(stopRequested := true));
      var (term, taken) := SignalSpec(v, u.pid, Sigterm, input.termAccepted);
      if !taken then (v, asked, false, term)
      else
        var (v1, u1, r1) := WaitSpec(v, asked, input.now + timeout, input.waits);
        if r1 == 1 then (v1, u1, true, term)
        else
          var (kill, killed) := SignalSpec(v1, u1.pid, Sigkill, input.killAccepted);
          if !killed then (v1, u1, false, term + kill)
          else
            var (v2, u2, r2) := WaitSpec(v1, u1, input.killNow + KILL_WAIT_SECONDS, input.killWaits);
            (v2, u2, r2 == 1, term + kill)
  }

  /** What the rounds of an unsuccessful wait leave: the polls before the deadline, drained. */
  function Watched(v: Sys, deadline: real, steps: seq<WaitStep>): Sys
    decreases |steps|
  {
    if steps == [] || steps[0].now >= deadline || steps[0].poll.PollFailed? then v
    else Watched(Polled(v, steps[0].poll), deadline, steps[1..])
  }

  /** A wait that does not succeed leaves the record alone and the runtime with its polls drained. */
  lemma {:induction false} WaitInVain(v: Sys, u: Record, deadline: real, steps: seq<WaitStep>)
    requires Bookkeeping(v) && u.svc.running && u.pid.Some? && FindPid(v.procs, u.pid.value) < |v.procs|
    requires WaitSpec(v, u, deadline, steps).2 != 1
    ensures WaitSpec(v, u, deadline, steps).0 == Watched(v, deadline, steps)
    ensures WaitSpec(v, u, deadline, steps).1 == u
    ensures var v' := Watched(v, deadline, steps);
      Bookkeeping(v') && FindPid(v'.procs, u.pid.value) < |v'.procs|
      && HostOf(v', u.pid.value) == HostOf(v, u.pid.value)
    decreases |steps|
  {
    hide ReapProcessSpec, Bookkeeping;
    if steps != [] && steps[0].now < deadline {
      EntryReapable(v, u.pid.value);
      if !steps[0].poll.PollFailed? {
        PolledFacts(v, u.pid.value, steps[0].poll);
        PolledTable(v, steps[0].poll);
        WaitInVain(Polled(v, steps[0].poll), u, deadline, steps[1..]);
      }
    }
  }

  /** Exactly when an attempt stops the service, and exactly which signals it sends. It never
      stops a process that had already ended at its turn, nor one whose end is drained in the
      last round of a wait: those services stay RUNNING, and SIGKILL is not sent either. */
  lemma StopsExactly(v: Sys, u: Record, timeout: real, input: StopInput)
    requires Bookkeeping(v) && u.svc.running && u.pid.Some? && FindPid(v.procs, u.pid.value) < |v.procs|
    ensures var (_, _, stopped, signals) := StopSpec(v, u, timeout, input);
      var pid := u.pid.value;
      var asked := !ReportOf(v, u.pid).Dead? && input.termAccepted;
      var soon := InTime(v, pid, input.now + timeout, input.waits);
      var v1 := Watched(v, input.now + timeout, input.waits);
      var forced := asked && !soon && !ReportOf(v1, u.pid).Dead?;
      && (stopped <==> asked && (soon || (forced && input.killAccepted
                                          && InTime(v1, pid, input.killNow + KILL_WAIT_SECONDS, input.killWaits))))
      && signals == (if ReportOf(v, u.pid).Dead? then [] else [Sent(HostOf(v, pid), Sigterm)])
                    + (if forced then [Sent(HostOf(v, pid), Sigkill)] else [])
  {
    hide InTime, WaitSpec, Watched;
    var pid := u.pid.value;
    EntryReapable(v, pid);
    if ReportOf(v, u.pid).Alive? && input.termAccepted {
      var asked := u.(svc := u.svc.(stopRequested := true));
      WaitSucceedsExactly(v, asked, input.now + timeout, input.waits);
      if !InTime(v, pid, input.now + timeout, input.waits) {
        WaitInVain(v, asked, input.now + timeout, input.waits);
        var v1 := Watched(v, input.now + timeout, input.waits);
        EntryReapable(v1, pid);
        WaitSucceedsExactly(v1, asked, input.killNow + KILL_WAIT_SECONDS, input.killWaits);
      }
    }
  }

  /** A concrete victim: the process obeys SIGTERM well before the deadline, its exit is drained
      in the last round that starts in time, and the service is left RUNNING. */
  lemma LateExitIsLost()
    ensures var p := Proc(1, 0, 1, 101, Ready, -1, -1);
      var v := Sys([p], [Group(1, 101, [1], None)], ReadyState([1], None), 2, 2, RuntimeStopped);
      var u := Record(Svc(true, -1, -1, false, 0, false, false, 0.0, 0.0), Some(1));
      var waits := [WaitStep(4.0, ChildEvent(101, Signaled(15))), WaitStep(6.0, NoChild)];
      var (v', u', stopped, signals) := StopSpec(v, u, 5.0, StopInput(true, 0.0, waits, true, 6.0, []));
      v'.procs[0].state == Terminated && u'.svc.running && !stopped && signals == [Sent(101, Sigterm)]
  {
    var p := Proc(1, 0, 1, 101, Ready, -1, -1);
    var v := Sys([p], [Group(1, 101, [1], None)], ReadyState([1], None), 2, 2, RuntimeStopped);
    var u := Record(Svc(true, -1, -1, true, 0, false, false, 0.0, 0.0), Some(1));
    var waits := [WaitStep(4.0, ChildEvent(101, Signaled(15))), WaitStep(6.0, NoChild)];
    FindPidUnique(v.procs, 0);
    var v' := DrainSpec(v, 101, Signaled(15));
    assert v'.procs == [p.(termSignal := 15, state := Terminated)];
    FindPidUnique(v'.procs, 0);
    assert WaitSpec(v', u, 5.0, waits[1..]) == (v', u, 0);
    assert WaitSpec(v, u, 5.0, waits) == (v', u, 0);
  }

  // ---- all services ----

  function RunningIn(us: seq<Record>): set<nat> {
    set i: nat | i < |us| && us[i].svc.running
  }

  datatype StartInput = StartInput(fork: Option<nat>, now: real)

  /** One turn of the start loop: a stopped service whose dependencies all run is started. */
  ghost function StartTurn(g: Graph, v: Sys, us: seq<Record>, i: nat, input: StartInput): (Sys, seq<Record>)
    requires |us| == |g| && i < |us|
  {
    if !DepsIn(g, i, RunningIn(us)) || us[i].svc.running then (v, us)
    else
      var (v', pid) := SpawnSpec(v, input.fork);
      (v', if pid.Some? then us[i := Record(StartSpec(us[i].svc, true, input.now).0, pid)] else us)
  }

  /** The runtime and the records when the first `k` services of the order have had their turn. */
  ghost function StartWalk(g: Graph, v: Sys, us: seq<Record>, order: seq<nat>, inputs: seq<StartInput>, k: nat)
    : (r: (Sys, seq<Record>))
    requires |us| == |g| && k <= |order| <= |inputs| && forall m :: 0 <= m < |order| ==> order[m] < |g|
    ensures |r.1| == |us|
  {
    if k == 0 then (v, us)
    else
      var (v', us') := StartWalk(g, v, us, order, inputs, k - 1);
      StartTurn(g, v', us', order[k - 1], inputs[k - 1])
  }

  /** How far a shutdown has come: the attempts made and the signals each of them sent. */
  datatype StopState = StopState(sys: Sys, records: seq<Record>, log: seq<Attempt>, signals: seq<seq<Sent>>)

  function StopTurn(st: StopState, i: nat, timeout: real, input: StopInput): (r: StopState)
    requires i < |st.records|
    ensures |r.records| == |st.records|
  {
    if !st.records[i].svc.running then st
    else
      var (v, u, stopped, sent) := StopSpec(st.sys, st.records[i], timeout, input);
      StopState(v, st.records[i := u], st.log + [Attempt(i, stopped)], st.signals + [sent])
  }

  /** When the services from position `k` of the order on have had their turn, last one first. */
  function StopWalk(v: Sys, us: seq<Record>, order: seq<nat>, timeout: real,
    inputs: seq<StopInput>, k: nat): (r: StopState)
    requires k <= |order| <= |inputs| && forall m :: 0 <= m < |order| ==> order[m] < |us|
    ensures |r.records| == |us|
    decreases |order| - k
  {
    if k == |order| then StopState(v, us, [], [])
    else StopTurn(StopWalk(v, us, order, timeout, inputs, k + 1), order[k], timeout, inputs[k])
  }

  // ---- supervising ----

  datatype TickInput = TickInput(now: real, startedAt: real, fork: Option<nat>)

  /** What one pass of the loop meets: the host's answers while draining, and one input for each service. */
  datatype PassInput = PassInput(polls: seq<Poll>, ticks: seq<TickInput>)

  function EnvAt(v: Sys, pid: Option<nat>, tick: TickInput): TickEnv {
    TickEnv(tick.now, tick.startedAt, SpawnSpec(v, tick.fork).1.Some?, ReportOf(v, pid), CanReap(v, pid))
  }

  function TickRecord(cfg: Settings, v: Sys, u: Record, tick: TickInput): (Sys, Record) {
    var (s, r) := TickSpec(cfg, u.svc, EnvAt(v, u.pid, tick));
    var v' := if !u.svc.pending then ReapRecord(v, u).0
              else if tick.now < u.svc.allowedAt || u.svc.running then v
              else SpawnSpec(v, tick.fork).0;
    var pid := match r
      case TickRestarted => SpawnSpec(v, tick.fork).1
      case TickReapedNoRestart | TickScheduled | TickGaveUp => None
      case _ => u.pid;
    (v', Record(s, pid))
  }

  /** Events are drained until a poll fails or reports none. */
  function DrainPolls(v: Sys, polls: seq<Poll>): Sys
    decreases |polls|
  {
    if polls == [] || !polls[0].ChildEvent? then v
    else DrainPolls(DrainSpec(v, polls[0].host, polls[0].status), polls[1..])
  }

  /** When the first `i` services have been ticked. */
  function TickAll(cfgs: seq<Settings>, v: Sys, us: seq<Record>, ticks: seq<TickInput>, i: nat): (r: (Sys, seq<Record>))
    requires |cfgs| == |us| <= |ticks| && i <= |us|
    ensures |r.1| == |us|
  {
    if i == 0 then (v, us)
    else
      var (v1, us1) := TickAll(cfgs, v, us, ticks, i - 1);
      var (v2, u) := TickRecord(cfgs[i - 1], v1, us1[i - 1], ticks[i - 1]);
      (v2, us1[i - 1 := u])
  }

  /** One pass: drain the events, then tick every service once. */
  function PassSpec(cfgs: seq<Settings>, v: Sys, us: seq<Record>, input: PassInput): (r: (Sys, seq<Record>))
    requires |cfgs| == |us| <= |input.ticks|
    ensures |r.1| == |us|
  {
    TickAll(cfgs, DrainPolls(v, input.polls), us, input.ticks, |us|)
  }

  function SuperviseSpec(cfgs: seq<Settings>, v: Sys, us: seq<Record>, passes: seq<PassInput>): (r: (Sys, seq<Record>))
    requires |cfgs| == |us| && forall k :: 0 <= k < |passes| ==> |us| <= |passes[k].ticks|
    ensures |r.1| == |us|
    decreases |passes|
  {
    if passes == [] then (v, us)
    else
      var last := |passes| - 1;
      var (v', us') := SuperviseSpec(cfgs, v, us, passes[..last]);
      PassSpec(cfgs, v', us', passes[last])
  }
}
