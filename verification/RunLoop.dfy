/** `embla_run` as a whole: what every run keeps, when it fails, when it completes, and what it
    leaves behind. */
module RunLoop {
  import opened Sequences
  import opened Processes
  import opened ProcessTables
  import opened Schedulers
  import opened RuntimeSpec
  import opened RuntimeInvariants
  import opened RuntimeEffects

  // ---- embla_run ----

  ghost predicate AllEmpty(s: Sys) {
    s.procs == [] && s.groups == [] && s.ready.queue == [] && s.ready.current.None?
  }

  /** The mode plays no part in the agreement. */
  lemma ModeIrrelevant(s: Sys, mode: Mode)
    requires Coherent(s)
    ensures Coherent(s.(mode := mode))
  {
  }

  /** With nothing live the scheduler holds nobody. */
  lemma NothingScheduled(s: Sys)
    requires SchedulerAgrees(s) && LiveCount(s.procs) == 0
    ensures s.ready == ReadyState([], None)
  {
    assert forall x :: !LivePid(s.procs, x);
    if s.ready.queue != [] { HeadIsMember(s.ready.queue); }
  }

  /** With nothing live, and nobody without a parent, every process is a child of the root. */
  lemma ZombieExists(s: Sys)
    requires ParentsLive(s.procs) && LiveCount(s.procs) == 0 && s.procs != []
    ensures FindZombie(s.procs, ROOT_PID) < |s.procs|
  {
    assert forall x :: !LivePid(s.procs, x);
    assert HasParent(s.procs, 0) && IsZombieOf(s.procs[0], ROOT_PID);
  }

  lemma GroupHasProcess(s: Sys)
    requires Bookkeeping(s) && s.groups != []
    ensures s.procs != []
  {
    HeadIsMember(s.groups[0].members);
    assert Enrolled(s.procs, s.groups[0].members[0], s.groups[0].id);
  }

  /** With nothing live and no terminated child of the root, nothing is left at all, unless
      somebody has no parent. */
  lemma NobodyLeft(s: Sys)
    requires Bookkeeping(s) && ParentsLive(s.procs) && LiveCount(s.procs) == 0
    requires FindZombie(s.procs, ROOT_PID) == |s.procs|
    ensures s.procs == [] && s.groups == []
  {
    if s.procs != [] { ZombieExists(s); }
    if s.groups != [] { GroupHasProcess(s); }
  }

  /** Once nothing is live, reaping the root's children succeeds, and ends with empty tables
      exactly when nobody was left without a parent. */
  lemma {:induction false} ReapRootDrains(s: Sys)
    requires Coherent(s) && LiveCount(s.procs) == 0
    ensures var (s', ok) := ReapRootSpec(s);
      && ok && Coherent(s') && s'.mode == s.mode
      && (AllEmpty(s') <==> ParentsLive(s.procs))
    decreases |s.procs|
  {
    hide Bookkeeping, SchedulerAgrees, ReapFoundSpec, LivePid;
    NothingScheduled(s);
    var i := FindZombie(s.procs, ROOT_PID);
    if i < |s.procs| {
      ReapFoundKeeps(s, i);
      var s1 := ReapFoundSpec(s, i).0;
      NoneLive(s.procs, i);
      ReapRootDrains(s1);
    } else if ParentsLive(s.procs) {
      NobodyLeft(s);
    }
  }

  lemma NoneLive(procs: seq<Proc>, i: nat)
    requires i < |procs| && LiveCount(procs) == 0
    ensures LiveCount(SwapRemove(procs, i)) == 0
  {
    var r := SwapRemove(procs, i);
    assert forall k :: 0 <= k < |r| ==> r[k] == procs[if k == i then |procs| - 1 else k];
  }

  lemma PollKeeps(s: Sys, poll: Poll)
    requires Coherent(s)
    ensures var (s', going) := PollSpec(s, poll);
      && Coherent(s') && KinshipKept(s.procs, s'.procs)
      && (if going then s'.mode == s.mode else s'.mode == RuntimeStopped)
  {
    if poll.ChildEvent? {
      var s1 := EventSpec(s, poll.host, poll.status).0;
      EventKeeps(s, poll.host, poll.status);
      DispatchKeeps(s1);
      hide Coherent, KinshipKept;
      var s2 := DispatchSysSpec(s1).0;
      ModeIrrelevant(s1, RuntimeStopped);
      ModeIrrelevant(s2, RuntimeStopped);
      KinshipTransitive(s.procs, s1.procs, s2.procs);
    } else {
      ModeIrrelevant(s, RuntimeStopped);
    }
  }

  lemma KinshipTransitive(a: seq<Proc>, b: seq<Proc>, c: seq<Proc>)
    ensures KinshipKept(a, b) && KinshipKept(b, c) ==> KinshipKept(a, c)
  {
  }

  lemma {:induction false} LoopKeeps(s: Sys, polls: seq<Poll>)
    requires Coherent(s) && s.mode == RuntimeRunning
    ensures var (s', outcome) := LoopSpec(s, polls);
      && Coherent(s')
      && s'.mode == (if outcome == Pending then RuntimeRunning else RuntimeStopped)
      && (if outcome == Completed then AllEmpty(s') <==> ParentsLive(s.procs) else KinshipKept(s.procs, s'.procs))
    decreases |polls|
  {
    hide Coherent, PollSpec, ParentsOlder;
    if polls != [] {
      var (s1, going) := PollSpec(s, polls[0]);
      PollKeeps(s, polls[0]);
      if going {
        if LiveCount(s1.procs) == 0 {
          ModeIrrelevant(s1, RuntimeStopping);
          ReapRootDrains(s1.(mode := RuntimeStopping));
          ModeIrrelevant(ReapRootSpec(s1.(mode := RuntimeStopping)).0, RuntimeStopped);
        } else {
          LoopKeeps(s1, polls[1..]);
        }
      }
    }
  }

  /** The state in which the loop of a run starts: after the initial dispatch, if there is one. */
  function StartOf(s: Sys): Sys {
    var s0 := s.(mode := RuntimeRunning);
    if s.ready.queue == [] then s0 else DispatchSysSpec(s0).0
  }

  lemma StartKeeps(s: Sys)
    requires Coherent(s)
    ensures Coherent(StartOf(s)) && KinshipKept(s.procs, StartOf(s).procs) && StartOf(s).mode == RuntimeRunning
  {
    var s0 := s.(mode := RuntimeRunning);
    ModeIrrelevant(s, RuntimeRunning);
    DispatchKeeps(s0);
  }

  /** `embla_run`: whatever the host reports, and whether the run completes, aborts or is
      still going, the tables agree; a run that ended is back in the STOPPED mode, because the
      shutdown never fails; and a completed run leaves every table empty exactly when at its
      start every parent was the root or live. */
  lemma RunKeeps(s: Sys, polls: seq<Poll>)
    requires Coherent(s)
    ensures var (s', outcome) := RunSpec(s, polls);
      && Coherent(s')
      && (s.mode == RuntimeStopped ==>
            s'.mode == (if outcome == Pending then RuntimeRunning else RuntimeStopped))
      && (if outcome == Completed then AllEmpty(s') <==> ParentsLive(s.procs) else KinshipKept(s.procs, s'.procs))
    ensures Invariant(s) ==> Invariant(RunSpec(s, polls).0)
  {
    hide DispatchSysSpec, Coherent;
    StartKeeps(s);
    if s.mode == RuntimeStopped {
      LoopKeeps(StartOf(s), polls);
      ModeIrrelevant(StartOf(s), RuntimeStopped);
    }
  }

  // ---- when a run aborts ----

  /** Is the next process to dispatch one that cannot become RUNNING? */
  predicate HeadRefuses(s: Sys) {
    && s.ready.current.None? && s.ready.queue != []
    && var i := FindPid(s.procs, s.ready.queue[0]);
       i < |s.procs| && (s.procs[i].state == Running || s.procs[i].state == Blocked)
  }

  /** Polling failed, the event asks for a change its process's state does not allow, or nobody
      is current after the event and the head of the ready queue is RUNNING or BLOCKED. */
  predicate Aborts(s: Sys, poll: Poll) {
    match poll
    case PollFailed => true
    case NoChild => false
    case ChildEvent(host, status) =>
      !EventAccepted(s, host, status) || HeadRefuses(EventSpec(s, host, status).0)
  }

  /** The head of an agreeing runtime's queue is live, so only these two states refuse. */
  lemma HeadAccepts(s: Sys)
    requires Coherent(s) && s.ready.current.None? && s.ready.queue != []
    ensures Accepts(s, s.ready.queue[0], Running) <==> !HeadRefuses(s)
  {
    hide Coherent;
    QueuedIsLive(s, 0);
  }

  lemma QueuedIsLive(s: Sys, k: nat)
    requires Coherent(s) && k < |s.ready.queue|
    ensures var i := FindPid(s.procs, s.ready.queue[k]);
      i < |s.procs| && Live(s.procs[i]) && s.procs[i].state != Created
  {
    hide GroupsOk, MembersAgree;
    var pid := s.ready.queue[k];
    assert pid in s.ready.queue;
    assert LivePid(s.procs, pid);
    var i :| 0 <= i < |s.procs| && s.procs[i].id == pid && Live(s.procs[i]);
    FindPidUnique(s.procs, i);
  }

  /** One poll aborts the run under exactly this condition. In particular a terminated process
      always leaves the scheduler. */
  lemma AbortsExactly(s: Sys, poll: Poll)
    requires Coherent(s)
    ensures PollSpec(s, poll).1 <==> !Aborts(s, poll)
  {
    if poll.ChildEvent? {
      EventKeeps(s, poll.host, poll.status);
      var s1 := EventSpec(s, poll.host, poll.status).0;
      hide EventSpec, EventAccepted, Coherent;
      if s1.ready.current.None? && s1.ready.queue != [] { HeadAccepts(s1); }
    }
  }

  /** Poll `k` aborts, after `k` polls that did not and left somebody live. */
  predicate AbortsAt(s: Sys, polls: seq<Poll>, k: nat)
    decreases k
  {
    && k < |polls|
    && if k == 0 then Aborts(s, polls[0])
       else
         && !Aborts(s, polls[0])
         && LiveCount(PollSpec(s, polls[0]).0.procs) > 0
         && AbortsAt(PollSpec(s, polls[0]).0, polls[1..], k - 1)
  }

  lemma {:induction false} AbortFails(s: Sys, polls: seq<Poll>, k: nat)
    requires Coherent(s) && AbortsAt(s, polls, k)
    ensures LoopSpec(s, polls).1 == Failed
    decreases k
  {
    hide Coherent, PollSpec, Aborts;
    AbortsExactly(s, polls[0]);
    PollKeeps(s, polls[0]);
    if k > 0 { AbortFails(PollSpec(s, polls[0]).0, polls[1..], k - 1); }
  }

  lemma {:induction false} FailureAborts(s: Sys, polls: seq<Poll>) returns (k: nat)
    requires Coherent(s) && s.mode == RuntimeRunning && LoopSpec(s, polls).1 == Failed
    ensures AbortsAt(s, polls, k)
    decreases |polls|
  {
    hide Coherent, PollSpec, Aborts, ReapRootSpec;
    var (s1, going) := PollSpec(s, polls[0]);
    AbortsExactly(s, polls[0]);
    PollKeeps(s, polls[0]);
    if !going {
      k := 0;
    } else if LiveCount(s1.procs) == 0 {
      ModeIrrelevant(s1, RuntimeStopping);
      ReapRootDrains(s1.(mode := RuntimeStopping));
      assert false;
    } else {
      k := FailureAborts(s1, polls[1..]);
      k := k + 1;
    }
  }

  /** Somebody waits, and either somebody is current already or the first in the queue cannot
      become RUNNING. */
  predicate StartRefused(s: Sys) {
    s.ready.queue != [] && (s.ready.current.Some? || HeadRefuses(s))
  }

  /** A run fails exactly when the runtime is not STOPPED, the initial dispatch is refused, or
      some poll aborts it while processes are still live. */
  lemma RunFailsExactly(s: Sys, polls: seq<Poll>)
    requires Coherent(s)
    ensures RunSpec(s, polls).1 == Failed <==>
      s.mode != RuntimeStopped || StartRefused(s) || exists k: nat :: AbortsAt(StartOf(s), polls, k)
  {
    hide AbortsAt, LoopSpec;
    StartKeeps(s);
    if s.mode == RuntimeStopped {
      if s.ready.queue != [] { StartsExactly(s); }
      if LoopSpec(StartOf(s), polls).1 == Failed {
        var k := FailureAborts(StartOf(s), polls);
      }
      forall k: nat | AbortsAt(StartOf(s), polls, k) ensures LoopSpec(StartOf(s), polls).1 == Failed {
        AbortFails(StartOf(s), polls, k);
      }
    }
  }

  lemma StartsExactly(s: Sys)
    requires Coherent(s) && s.ready.queue != []
    ensures DispatchSysSpec(s.(mode := RuntimeRunning)).1 <==> !StartRefused(s)
  {
    if s.ready.current.None? { HeadAccepts(s); }
  }

  // ---- when a run completes ----

  /** The process table after a poll that did not abort: nobody comes or goes, and exactly the
      process whose end was reported is no longer live. */
  lemma PollTable(s: Sys, poll: Poll)
    requires Coherent(s) && PollSpec(s, poll).1
    ensures var procs := PollSpec(s, poll).0.procs;
      && SameIdentity(s.procs, procs)
      && forall i :: 0 <= i < |procs| ==> (Live(procs[i]) <==> Live(s.procs[i]) && !Terminates(s.procs, i, poll))
  {
    if poll.ChildEvent? {
      EventKeeps(s, poll.host, poll.status);
      EventTable(s, poll.host, poll.status);
      var s1 := EventSpec(s, poll.host, poll.status).0;
      hide EventSpec, EventAccepted, Coherent, LivePid;
      DispatchTable(s1);
    }
  }

  lemma EventTable(s: Sys, host: nat, status: WaitStatus)
    requires Coherent(s) && EventSpec(s, host, status).1
    ensures var procs := EventSpec(s, host, status).0.procs;
      && SameIdentity(s.procs, procs)
      && forall i :: 0 <= i < |procs| ==>
           (Live(procs[i]) <==> Live(s.procs[i]) && !Terminates(s.procs, i, ChildEvent(host, status)))
  {
    var i := FindHost(s.procs, host);
    if host != INVALID_HOST_PID && i < |s.procs| {
      match status
      case Exited(code) => TerminatedTable(s.(procs := s.procs[i := s.procs[i].(exitCode := code)]), i);
      case Signaled(signal) => TerminatedTable(s.(procs := s.procs[i := s.procs[i].(termSignal := signal)]), i);
      case _ =>
    }
    hide TerminatedSpec, Coherent;
  }

  lemma TerminatedTable(s: Sys, i: nat)
    requires i < |s.procs| && TerminatedSpec(s, i).1
    ensures var procs := TerminatedSpec(s, i).0.procs;
      && SameIdentity(s.procs, procs)
      && forall k :: 0 <= k < |procs| ==> (Live(procs[k]) <==> Live(s.procs[k]) && k != i)
  {
  }

  lemma DispatchTable(s: Sys)
    ensures var procs := DispatchSysSpec(s).0.procs;
      SameIdentity(s.procs, procs) && forall i :: 0 <= i < |procs| ==> (Live(procs[i]) <==> Live(s.procs[i]))
  {
  }

  /** The end of every live process is among the polls. */
  ghost predicate AllEnd(procs: seq<Proc>, polls: seq<Poll>) {
    forall i :: 0 <= i < |procs| && Live(procs[i]) ==> EndsAmong(procs, i, polls)
  }

  ghost predicate EndsAmong(procs: seq<Proc>, i: nat, polls: seq<Poll>) {
    exists k :: 0 <= k < |polls| && Terminates(procs, i, polls[k])
  }

  /** One poll on, what is left to end is what the first poll did not end. */
  lemma AllEndStep(a: seq<Proc>, b: seq<Proc>, polls: seq<Poll>)
    requires polls != [] && SameIdentity(a, b)
    requires forall i :: 0 <= i < |a| ==> (Live(b[i]) <==> Live(a[i]) && !Terminates(a, i, polls[0]))
    ensures AllEnd(a, polls) <==> AllEnd(b, polls[1..])
  {
    var rest := polls[1..];
    assert forall k :: 0 <= k < |rest| ==> rest[k] == polls[k + 1];
    forall host ensures FindHost(a, host) == FindHost(b, host) { SameHosts(a, b, host); }
    assert forall i, p :: Terminates(a, i, p) <==> Terminates(b, i, p);
    hide Terminates;
    forall i: nat ensures EndsAmong(a, i, polls) <==> Terminates(a, i, polls[0]) || EndsAmong(b, i, rest) {
      if EndsAmong(a, i, polls) && !Terminates(a, i, polls[0]) {
        var k :| 0 <= k < |polls| && Terminates(a, i, polls[k]);
        assert rest[k - 1] == polls[k];
      }
      if EndsAmong(b, i, rest) {
        var k :| 0 <= k < |rest| && Terminates(b, i, rest[k]);
        assert Terminates(a, i, polls[k + 1]);
      }
    }
  }

  lemma {:induction false} LoopCompletesExactly(s: Sys, polls: seq<Poll>)
    requires Coherent(s) && s.mode == RuntimeRunning && LoopSpec(s, polls).1 != Failed
    ensures LoopSpec(s, polls).1 == Completed <==> polls != [] && AllEnd(s.procs, polls)
    decreases |polls|
  {
    hide Coherent, PollSpec, ReapRootSpec, Terminates;
    if polls != [] {
      var (s1, going) := PollSpec(s, polls[0]);
      PollKeeps(s, polls[0]);
      PollTable(s, polls[0]);
      AllEndStep(s.procs, s1.procs, polls);
      if LiveCount(s1.procs) == 0 {
        ModeIrrelevant(s1, RuntimeStopping);
        ReapRootDrains(s1.(mode := RuntimeStopping));
      } else {
        LoopCompletesExactly(s1, polls[1..]);
      }
    }
  }

  /** Progress: a run completes exactly when it does not fail and the end of every process live
      at its start is among the polls; even with nobody live it takes one poll. */
  lemma RunCompletesExactly(s: Sys, polls: seq<Poll>)
    requires Coherent(s)
    ensures RunSpec(s, polls).1 == Completed <==>
      && s.mode == RuntimeStopped && !StartRefused(s) && (forall k: nat :: !AbortsAt(StartOf(s), polls, k))
      && polls != [] && AllEnd(s.procs, polls)
  {
    hide AbortsAt, LoopSpec, Terminates;
    RunFailsExactly(s, polls);
    StartKeeps(s);
    if RunSpec(s, polls).1 != Failed {
      LoopCompletesExactly(StartOf(s), polls);
      DispatchTable(s.(mode := RuntimeRunning));
      AllEndUnchanged(s.procs, StartOf(s).procs, polls);
    }
  }

  lemma AllEndUnchanged(a: seq<Proc>, b: seq<Proc>, polls: seq<Poll>)
    requires SameIdentity(a, b) && forall i :: 0 <= i < |a| ==> (Live(b[i]) <==> Live(a[i]))
    ensures AllEnd(a, polls) <==> AllEnd(b, polls)
  {
    forall host ensures FindHost(a, host) == FindHost(b, host) { SameHosts(a, b, host); }
    assert forall i, p :: Terminates(a, i, p) <==> Terminates(b, i, p);
    hide Terminates;
    assert forall i: nat :: EndsAmong(a, i, polls) <==> EndsAmong(b, i, polls);
  }

  // ---- a run never idles ----

  /** Somebody is current, or nobody waits. */
  predicate Busy(s: Sys) {
    s.ready.current.Some? || s.ready.queue == []
  }

  /** The head of the queue is current and RUNNING, and the rest of the queue waits on. */
  predicate HeadRuns(s: Sys, s': Sys) {
    && s.ready.queue != []
    && var i := FindPid(s.procs, s.ready.queue[0]);
       && i < |s.procs|
       && s' == s.(procs := s.procs[i := s.procs[i].(state := Running)],
                   ready := ReadyState(s.ready.queue[1..], Some(s.ready.queue[0])))
  }

  /** After a poll that does not abort, the head of the queue has been dispatched if the event
      left nobody current and somebody waiting; otherwise nobody has. */
  lemma PollDispatches(s: Sys, poll: Poll)
    requires Coherent(s) && Busy(s) && !Aborts(s, poll)
    ensures var s1 := if poll.ChildEvent? then EventSpec(s, poll.host, poll.status).0 else s;
      var s' := PollSpec(s, poll).0;
      && Busy(s')
      && if s1.ready.current.None? && s1.ready.queue != [] then HeadRuns(s1, s') else s' == s1
  {
    AbortsExactly(s, poll);
    if poll.ChildEvent? {
      EventKeeps(s, poll.host, poll.status);
      hide EventSpec, Coherent;
      DispatchDoes(EventSpec(s, poll.host, poll.status).0);
    }
  }

  /** When the current process ends, the one that waited longest runs next. */
  lemma NextInLine(s: Sys, poll: Poll)
    requires Coherent(s) && s.ready.current.Some? && !Aborts(s, poll)
    requires Terminates(s.procs, FindPid(s.procs, s.ready.current.value), poll)
    ensures var s' := PollSpec(s, poll).0; var queue := s.ready.queue;
      if queue == [] then s'.ready == s.ready.(current := None)
      else
        && s'.ready == ReadyState(queue[1..], Some(queue[0]))
        && var i := FindPid(s'.procs, queue[0]); i < |s'.procs| && s'.procs[i].state == Running
  {
    hide Coherent, EventSpec, Aborts;
    var pid := s.ready.current.value;
    var s1 := EventSpec(s, poll.host, poll.status).0;
    ScheduledIsLive(s, pid);
    EventDoes(s, poll.host, poll.status);
    assert s1.ready == s.ready.(current := None);
    PollDispatches(s, poll);
    if s.ready.queue != [] {
      var i := FindPid(s1.procs, s.ready.queue[0]);
      assert Pids(PollSpec(s, poll).0.procs) == Pids(s1.procs);
    }
  }

  lemma {:induction false} LoopStaysBusy(s: Sys, polls: seq<Poll>)
    requires Coherent(s) && Busy(s) && LoopSpec(s, polls).1 == Pending
    ensures Busy(LoopSpec(s, polls).0)
    decreases |polls|
  {
    hide Coherent, PollSpec, Aborts, Busy;
    if polls != [] {
      AbortsExactly(s, polls[0]);
      PollDispatches(s, polls[0]);
      PollKeeps(s, polls[0]);
      LoopStaysBusy(PollSpec(s, polls[0]).0, polls[1..]);
    }
  }

  /** A run that is still going never idles: somebody is current or nobody waits. It starts by
      making the head of the queue RUNNING. */
  lemma RunStaysBusy(s: Sys, polls: seq<Poll>)
    requires Coherent(s) && RunSpec(s, polls).1 == Pending
    ensures Busy(RunSpec(s, polls).0)
    ensures s.ready.queue != [] ==> HeadRuns(s.(mode := RuntimeRunning), StartOf(s))
  {
    StartKeeps(s);
    ModeIrrelevant(s, RuntimeRunning);
    hide Coherent, LoopSpec;
    if s.ready.queue != [] { DispatchDoes(s.(mode := RuntimeRunning)); }
    LoopStaysBusy(StartOf(s), polls);
  }
}
