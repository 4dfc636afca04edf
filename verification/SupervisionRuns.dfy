/** What holds over whole supervised runs: who sees an exit, which records a service goes
    through, and how many restarts there can be. */
module SupervisionRuns {
  import opened Sequences
  import opened Processes
  import opened ProcessTables
  import opened Schedulers
  import opened RuntimeSpec
  import opened RuntimeInvariants
  import opened RuntimeEffects
  import opened RuntimeRuns
  import opened RestartSpec
  import opened RestartRuns
  import opened SupervisionSpec

  /** RUNNING exactly with a process, and that process is an entry of the table. */
  ghost predicate Attached(v: Sys, u: Record) {
    (u.svc.running <==> u.pid.Some?) && (u.pid.Some? ==> FindPid(v.procs, u.pid.value) < |v.procs|)
  }

  /** The records and the runtime agree, and no two services share a process. */
  ghost predicate Owned(v: Sys, us: seq<Record>) {
    && Bookkeeping(v)
    && (forall i :: 0 <= i < |us| ==> Attached(v, us[i]))
    && (forall i, k :: 0 <= i < k < |us| && us[i].pid.Some? ==> us[i].pid != us[k].pid)
  }

  lemma OwnedFacts(v: Sys, us: seq<Record>)
    requires Owned(v, us)
    ensures Bookkeeping(v) && forall k :: 0 <= k < |us| ==> Attached(v, us[k])
    ensures forall k :: 0 <= k < |us| && us[k].pid.Some? ==> us[k].pid.value < v.nextPid
  {
    forall k | 0 <= k < |us| && us[k].pid.Some? ensures us[k].pid.value < v.nextPid {
      assert Pids(v.procs)[FindPid(v.procs, us[k].pid.value)] == us[k].pid.value;
    }
  }

  /** A change to one record and to the runtime that keeps the other services' processes. */
  lemma OwnedChange(v: Sys, us: seq<Record>, i: nat, v': Sys, u: Record)
    requires Owned(v, us) && i < |us| && Bookkeeping(v') && Attached(v', u)
    requires forall k :: 0 <= k < |us| && k != i && us[k].pid.Some? ==> FindPid(v'.procs, us[k].pid.value) < |v'.procs|
    requires u.pid.Some? ==> forall k :: 0 <= k < |us| && k != i ==> us[k].pid != u.pid
    ensures Owned(v', us[i := u])
  {
    hide Bookkeeping;
  }

  // ---- one tick and the other services ----

  /** A spawn changes no report, and its process is nobody's yet. */
  lemma SpawnReports(v: Sys, fork: Option<nat>, pid: nat)
    requires Bookkeeping(v) && fork != Some(INVALID_HOST_PID) && FindPid(v.procs, pid) < |v.procs|
    ensures var (v', r) := SpawnSpec(v, fork);
      FindPid(v'.procs, pid) < |v'.procs| && ReportOf(v', Some(pid)) == ReportOf(v, Some(pid))
  {
    hide SpawnSpec, Bookkeeping;
    SpawnKeeps(v, fork);
    if SpawnSpec(v, fork).1.Some? {
      SpawnSucceeds(v, fork);
      FirstInBoth(v.procs, Spawned(v, fork.value).procs, pid);
    }
  }

  lemma FirstInBoth(a: seq<Proc>, b: seq<Proc>, pid: nat)
    requires a <= b && FindPid(a, pid) < |a|
    ensures FindPid(b, pid) == FindPid(a, pid)
  {
    assert forall k :: 0 <= k <= FindPid(a, pid) ==> b[k] == a[k];
  }

  /** What a successful spawn adds, and that the new pid is in the table. */
  lemma SpawnSucceeds(v: Sys, fork: Option<nat>)
    requires Bookkeeping(v) && fork != Some(INVALID_HOST_PID) && SpawnSpec(v, fork).1.Some?
    ensures SpawnSpec(v, fork) == (Spawned(v, fork.value), Some(v.nextPid))
    ensures FindPid(Spawned(v, fork.value).procs, v.nextPid) < |v.procs| + 1
  {
    hide SpawnSpec, Bookkeeping;
    SpawnTakesRoom(v, fork);
    FreshGid(v);
    SpawnAdds(v, fork.value);
    assert Pids(Spawned(v, fork.value).procs)[|v.procs|] == v.nextPid;
  }

  /** A reap changes no report but that of the process reaped. */
  lemma ReapReports(v: Sys, gone: nat, pid: nat)
    requires Bookkeeping(v) && pid != gone && FindPid(v.procs, pid) < |v.procs|
    ensures var v' := ReapProcessSpec(v, gone).0;
      FindPid(v'.procs, pid) < |v'.procs| && ReportOf(v', Some(pid)) == ReportOf(v, Some(pid))
  {
    var g := FindPid(v.procs, gone);
    if g < |v.procs| && v.procs[g].state == Terminated {
      ReapFoundKeeps(v, g);
      var v' := ReapProcessSpec(v, gone).0;
      assert NoDup(Pids(v'.procs));
      hide Bookkeeping, ReapProcessSpec;
      StillThere(v.procs, g, pid);
      FindPidUnique(v'.procs, FindPid(v'.procs, pid));
    }
  }

  lemma StillThere(procs: seq<Proc>, g: nat, pid: nat)
    requires g < |procs| && procs[g].id != pid && FindPid(procs, pid) < |procs|
    requires NoDup(Pids(SwapRemove(procs, g)))
    ensures var r := SwapRemove(procs, g); var i := FindPid(r, pid);
      i < |r| && r[i] == procs[FindPid(procs, pid)]
  {
    var i := FindPid(procs, pid);
    var r, i' := SwapRemove(procs, g), if i == |procs| - 1 then g else i;
    assert r[i'] == procs[i];
    FindPidUnique(r, i');
  }

  lemma SpawnOwned(v: Sys, us: seq<Record>, i: nat, fork: Option<nat>, s: Svc)
    requires Owned(v, us) && i < |us| && !us[i].svc.running && fork != Some(INVALID_HOST_PID)
    requires s.running == SpawnSpec(v, fork).1.Some?
    ensures var (v', r) := SpawnSpec(v, fork);
      && Owned(v', us[i := Record(s, r)])
      && forall k :: 0 <= k < |us| ==> ReportOf(v', us[k].pid) == ReportOf(v, us[k].pid)
  {
    hide SpawnSpec, Bookkeeping, Owned;
    OwnedFacts(v, us);
    SpawnKeeps(v, fork);
    forall k | 0 <= k < |us| && us[k].pid.Some? { SpawnReports(v, fork, us[k].pid.value); }
    if SpawnSpec(v, fork).1.Some? { SpawnSucceeds(v, fork); }
    var (v', r) := SpawnSpec(v, fork);
    OwnedChange(v, us, i, v', Record(s, r));
  }

  lemma ReapOwned(v: Sys, us: seq<Record>, i: nat, s: Svc)
    requires Owned(v, us) && i < |us|
    requires s.running == (us[i].svc.running && !ReapRecord(v, us[i]).2.Reaped?)
    ensures var (v', u, r) := ReapRecord(v, us[i]);
      && (r == Reaped <==> us[i].svc.running && ReportOf(v, us[i].pid).Dead?) && r != ReapFailed
      && Owned(v', us[i := Record(s, u.pid)])
      && forall k :: 0 <= k < |us| && k != i ==> ReportOf(v', us[k].pid) == ReportOf(v, us[k].pid)
  {
    hide Bookkeeping, Owned, ReapProcessSpec;
    OwnedFacts(v, us);
    var (v', u, r) := ReapRecord(v, us[i]);
    if us[i].pid.Some? {
      EntryReapable(v, us[i].pid.value);
      ReapProcessKeeps(v, us[i].pid.value);
      forall k | 0 <= k < |us| && k != i && us[k].pid.Some?
        ensures FindPid(v'.procs, us[k].pid.value) < |v'.procs| && ReportOf(v', us[k].pid) == ReportOf(v, us[k].pid)
      {
        OwnedApart(v, us, i, k);
        ReapReports(v, us[i].pid.value, us[k].pid.value);
      }
    }
    if u.pid.Some? { forall k | 0 <= k < |us| && k != i { OwnedApart(v, us, i, k); } }
    OwnedChange(v, us, i, v', Record(s, u.pid));
  }

  lemma OwnedApart(v: Sys, us: seq<Record>, i: nat, k: nat)
    requires Owned(v, us) && i < |us| && k < |us| && i != k
    ensures us[i].pid.Some? ==> us[i].pid != us[k].pid
  {
    hide Bookkeeping, Attached;
  }

  /** The tick of one service keeps the agreement, and changes no other service's report. */
  lemma TickOwned(cfg: Settings, v: Sys, us: seq<Record>, i: nat, tick: TickInput)
    requires Owned(v, us) && i < |us| && tick.fork != Some(INVALID_HOST_PID)
    ensures var (v', u) := TickRecord(cfg, v, us[i], tick);
      && Owned(v', us[i := u])
      && forall k :: 0 <= k < |us| && k != i ==> ReportOf(v', us[k].pid) == ReportOf(v, us[k].pid)
  {
    hide SpawnSpec, ReapProcessSpec, ReportOf, Bookkeeping, ReapRecord, AfterReapSpec;
    var u := us[i];
    var (s, r) := TickSpec(cfg, u.svc, EnvAt(v, u.pid, tick));
    if u.svc.pending {
      if tick.now >= u.svc.allowedAt && !u.svc.running { SpawnOwned(v, us, i, tick.fork, s); }
    } else {
      TickReaps(cfg, v, u, tick);
      ReapOwned(v, us, i, s);
    }
  }

  /** With nothing pending a tick is a reap, and on a reap the policy. */
  lemma TickReaps(cfg: Settings, v: Sys, u: Record, tick: TickInput)
    requires !u.svc.pending
    ensures var (s, r) := TickSpec(cfg, u.svc, EnvAt(v, u.pid, tick));
      var (v', u', reaped) := ReapRecord(v, u);
      && TickRecord(cfg, v, u, tick) == (v', Record(s, u'.pid))
      && s.running == (u.svc.running && !reaped.Reaped?)
      && (r in {TickReapedNoRestart, TickScheduled, TickGaveUp} <==> reaped.Reaped?) && r != TickRestarted
  {
    hide SpawnSpec, ReapProcessSpec;
  }

  lemma PolledBooks(v: Sys, poll: Poll)
    requires Bookkeeping(v)
    ensures Bookkeeping(Polled(v, poll))
  {
    hide Bookkeeping, DrainSpec;
    if poll.ChildEvent? { DrainKeeps(v, poll.host, poll.status); }
  }

  /** One poll drained keeps the agreement. */
  lemma PolledOwned(v: Sys, us: seq<Record>, poll: Poll)
    requires Owned(v, us)
    ensures Owned(Polled(v, poll), us)
  {
    hide Bookkeeping, Polled, Ends, ReportOf;
    PolledBooks(v, poll);
    PolledTable(v, poll);
    forall i | 0 <= i < |us| && us[i].pid.Some? { PolledFacts(v, us[i].pid.value, poll); }
  }

  // ---- one pass ----

  predicate GoodTicks(ticks: seq<TickInput>) {
    forall i :: 0 <= i < |ticks| ==> ticks[i].fork != Some(INVALID_HOST_PID)
  }

  /** Until its turn a service's record is as it was, and so is what its process shows. */
  lemma {:induction false} TickAllOwned(cfgs: seq<Settings>, v: Sys, us: seq<Record>, ticks: seq<TickInput>, i: nat)
    requires |cfgs| == |us| <= |ticks| && i <= |us| && Owned(v, us) && GoodTicks(ticks)
    ensures var (v', us') := TickAll(cfgs, v, us, ticks, i);
      && Owned(v', us')
      && forall k :: i <= k < |us| ==> us'[k] == us[k] && ReportOf(v', us[k].pid) == ReportOf(v, us[k].pid)
  {
    hide Owned, ReportOf, TickRecord;
    if i > 0 {
      TickAllOwned(cfgs, v, us, ticks, i - 1);
      var (v1, us1) := TickAll(cfgs, v, us, ticks, i - 1);
      TickOwned(cfgs[i - 1], v1, us1, i - 1, ticks[i - 1]);
    }
  }

  /** After its turn a record is not touched again in the pass. */
  lemma {:induction false} TickedOnce(cfgs: seq<Settings>, v: Sys, us: seq<Record>, ticks: seq<TickInput>,
    k: nat, i: nat)
    requires |cfgs| == |us| <= |ticks| && k < i <= |us|
    ensures TickAll(cfgs, v, us, ticks, i).1[k] == TickAll(cfgs, v, us, ticks, k + 1).1[k]
  {
    hide TickRecord;
    if k + 1 < i { TickedOnce(cfgs, v, us, ticks, k, i - 1); }
  }

  /** Is the end of this process among the events drained? */
  ghost predicate Drained(v: Sys, pid: nat, polls: seq<Poll>, j: nat)
    requires j < |polls|
  {
    (forall m :: 0 <= m <= j ==> polls[m].ChildEvent?) && Ends(v, pid, polls[j])
  }

  ghost predicate EndsByDrain(v: Sys, pid: nat, polls: seq<Poll>) {
    ReportOf(v, Some(pid)).Dead? || exists j :: 0 <= j < |polls| && Drained(v, pid, polls, j)
  }

  lemma {:induction false} DrainOwned(v: Sys, us: seq<Record>, polls: seq<Poll>)
    requires Owned(v, us)
    ensures Owned(DrainPolls(v, polls), us)
    ensures forall i :: 0 <= i < |us| && us[i].pid.Some? ==>
      (ReportOf(DrainPolls(v, polls), us[i].pid).Dead? <==> EndsByDrain(v, us[i].pid.value, polls))
    decreases |polls|
  {
    hide Owned, Bookkeeping, DrainSpec, ReportOf, Ends;
    if polls != [] && polls[0].ChildEvent? {
      var v' := DrainSpec(v, polls[0].host, polls[0].status);
      assert v' == Polled(v, polls[0]);
      OwnedFacts(v, us);
      PolledOwned(v, us, polls[0]);
      DrainOwned(v', us, polls[1..]);
      forall i | 0 <= i < |us| && us[i].pid.Some?
        ensures ReportOf(DrainPolls(v, polls), us[i].pid).Dead? <==> EndsByDrain(v, us[i].pid.value, polls)
      {
        PolledFacts(v, us[i].pid.value, polls[0]);
        DrainedLater(v, v', us[i].pid.value, polls);
      }
    }
  }

  lemma DrainedLater(v: Sys, v': Sys, pid: nat, polls: seq<Poll>)
    requires polls != [] && polls[0].ChildEvent? && forall p :: Ends(v', pid, p) == Ends(v, pid, p)
    ensures (exists j :: 0 <= j < |polls| && Drained(v, pid, polls, j))
       <==> Ends(v, pid, polls[0]) || exists j :: 0 <= j < |polls| - 1 && Drained(v', pid, polls[1..], j)
  {
    hide Ends;
    var rest := polls[1..];
    assert forall j :: 0 <= j < |rest| ==> rest[j] == polls[j + 1];
    if exists j :: 0 <= j < |polls| && Drained(v, pid, polls, j) {
      var j :| 0 <= j < |polls| && Drained(v, pid, polls, j);
      if j > 0 { assert rest[j - 1] == polls[j]; assert Drained(v', pid, rest, j - 1); }
    }
    if Ends(v, pid, polls[0]) { assert Drained(v, pid, polls, 0); }
    if exists j :: 0 <= j < |polls| - 1 && Drained(v', pid, rest, j) {
      var j :| 0 <= j < |polls| - 1 && Drained(v', pid, rest, j);
      assert Drained(v, pid, polls, j + 1);
    }
  }

  /** The codes recorded for a process after some events: those of the last reports that it ended. */
  function CodesAfter(v: Sys, pid: nat, polls: seq<Poll>, codes: (int, int)): (int, int)
    decreases |polls|
  {
    if polls == [] || !polls[0].ChildEvent? then codes
    else CodesAfter(v, pid, polls[1..], if Ends(v, pid, polls[0]) then Told(codes, polls[0]) else codes)
  }

  /** What a process shows after some events. */
  ghost function ReportAfter(v: Sys, pid: nat, polls: seq<Poll>): Report {
    if exists j :: 0 <= j < |polls| && Drained(v, pid, polls, j)
    then Dead(CodesAfter(v, pid, polls, CodesOf(v, pid)).0, CodesAfter(v, pid, polls, CodesOf(v, pid)).1)
    else ReportOf(v, Some(pid))
  }

  /** Draining is hearing: the codes shown afterwards are the reported ones. */
  lemma {:induction false} DrainReport(v: Sys, pid: nat, polls: seq<Poll>)
    requires Bookkeeping(v) && FindPid(v.procs, pid) < |v.procs|
    ensures CodesOf(DrainPolls(v, polls), pid) == CodesAfter(v, pid, polls, CodesOf(v, pid))
    ensures ReportOf(DrainPolls(v, polls), Some(pid)) == ReportAfter(v, pid, polls)
    decreases |polls|
  {
    hide Bookkeeping, Polled, DrainSpec, Ends, Told, CodesOf;
    if polls == [] || !polls[0].ChildEvent? {
      NothingDrained(v, pid, polls);
    } else {
      var v' := Polled(v, polls[0]);
      PolledBooks(v, polls[0]);
      PolledTable(v, polls[0]);
      PolledFacts(v, pid, polls[0]);
      PolledReport(v, pid, polls[0]);
      DrainReport(v', pid, polls[1..]);
      DrainedLater(v, v', pid, polls);
      SameEnds(v, v', pid, polls[1..], CodesOf(v', pid));
      PolledIsDrained(v, polls[0]);
      hide ReportOf;
      if !(exists j :: 0 <= j < |polls[1..]| && Drained(v', pid, polls[1..], j)) {
        QuietCodes(v', pid, polls[1..], CodesOf(v', pid));
      }
    }
  }

  lemma PolledIsDrained(v: Sys, poll: Poll)
    requires poll.ChildEvent?
    ensures Polled(v, poll) == DrainSpec(v, poll.host, poll.status)
  {
  }

  lemma NothingDrained(v: Sys, pid: nat, polls: seq<Poll>)
    requires polls == [] || !polls[0].ChildEvent?
    ensures forall j :: 0 <= j < |polls| ==> !Drained(v, pid, polls, j)
  {
  }

  lemma {:induction false} SameEnds(v: Sys, v': Sys, pid: nat, polls: seq<Poll>, codes: (int, int))
    requires forall p :: Ends(v', pid, p) == Ends(v, pid, p)
    ensures CodesAfter(v', pid, polls, codes) == CodesAfter(v, pid, polls, codes)
    decreases |polls|
  {
    hide Ends, Told;
    if polls != [] && polls[0].ChildEvent? {
      SameEnds(v, v', pid, polls[1..], if Ends(v, pid, polls[0]) then Told(codes, polls[0]) else codes);
    }
  }

  lemma {:induction false} QuietCodes(v: Sys, pid: nat, polls: seq<Poll>, codes: (int, int))
    requires forall j :: 0 <= j < |polls| ==> !Drained(v, pid, polls, j)
    ensures CodesAfter(v, pid, polls, codes) == codes
    decreases |polls|
  {
    hide Ends, Told;
    if polls != [] && polls[0].ChildEvent? {
      assert !Drained(v, pid, polls, 0);
      DrainedLater(v, v, pid, polls);
      QuietCodes(v, pid, polls[1..], codes);
    }
  }

  /** With one report that it ended, a process shows exactly what that report says; the other
      code is as before. */
  lemma {:induction false} SoleReport(v: Sys, pid: nat, polls: seq<Poll>, codes: (int, int), j: nat)
    requires j < |polls| && Drained(v, pid, polls, j)
    requires forall m :: 0 <= m < |polls| && m != j ==> !Drained(v, pid, polls, m)
    ensures CodesAfter(v, pid, polls, codes) == Told(codes, polls[j])
    decreases |polls|
  {
    hide Ends, Told;
    var rest := polls[1..];
    assert forall m :: 0 <= m < |rest| ==> rest[m] == polls[m + 1];
    forall m | 0 <= m < |rest| ensures Drained(v, pid, rest, m) <==> Drained(v, pid, polls, m + 1) {
      assert polls[0].ChildEvent?;
      if Drained(v, pid, rest, m) {
        forall i | 0 <= i <= m + 1 ensures polls[i].ChildEvent? { assert i == 0 || polls[i] == rest[i - 1]; }
      }
      if Drained(v, pid, polls, m + 1) {
        forall i | 0 <= i <= m ensures rest[i].ChildEvent? { assert rest[i] == polls[i + 1]; }
      }
    }
    if j == 0 {
      QuietCodes(v, pid, rest, Told(codes, polls[0]));
    } else {
      assert !Drained(v, pid, polls, 0);
      SoleReport(v, pid, rest, codes, j - 1);
    }
  }

  /** What the tick of service `i` meets in a pass. */
  function EnvInPass(cfgs: seq<Settings>, v: Sys, us: seq<Record>, input: PassInput, i: nat): TickEnv
    requires |cfgs| == |us| <= |input.ticks| && i < |us|
  {
    var (v', us') := TickAll(cfgs, DrainPolls(v, input.polls), us, input.ticks, i);
    EnvAt(v', us'[i].pid, input.ticks[i])
  }

  /** A drained exit reaches its owner in the same pass: the one tick each service has sees its
      process dead exactly when it was dead before or its end is among the events drained,
      whatever the ticks of the services before it did; and a dead process can be reaped. */
  lemma ExitsReachOwner(cfgs: seq<Settings>, v: Sys, us: seq<Record>, input: PassInput, i: nat)
    requires |cfgs| == |us| <= |input.ticks| && i < |us| && Owned(v, us) && GoodTicks(input.ticks)
    ensures var env := EnvInPass(cfgs, v, us, input, i);
      && PassSpec(cfgs, v, us, input).1[i].svc == TickSpec(cfgs[i], us[i].svc, env).0
      && (env.report.Dead? <==> us[i].pid.Some? && EndsByDrain(v, us[i].pid.value, input.polls))
      && env.reaps == env.report.Dead?
      && (us[i].pid.Some? ==> env.report == ReportAfter(v, us[i].pid.value, input.polls))
    ensures Owned(PassSpec(cfgs, v, us, input).0, PassSpec(cfgs, v, us, input).1)
  {
    hide TickSpec, SpawnSpec, ReapProcessSpec, Bookkeeping, ReportOf;
    var v0 := DrainPolls(v, input.polls);
    DrainOwned(v, us, input.polls);
    OwnedFacts(v, us);
    if us[i].pid.Some? { DrainReport(v, us[i].pid.value, input.polls); }
    TickAllOwned(cfgs, v0, us, input.ticks, i);
    TickAllOwned(cfgs, v0, us, input.ticks, |us|);
    TickedOnce(cfgs, v0, us, input.ticks, i, |us|);
    ReportedReapable(TickAll(cfgs, v0, us, input.ticks, i).0, us[i]);
  }

  lemma ReportedReapable(v: Sys, u: Record)
    requires Bookkeeping(v) && Attached(v, u)
    ensures CanReap(v, u.pid) == ReportOf(v, u.pid).Dead?
  {
    if u.pid.Some? { EntryReapable(v, u.pid.value); }
  }

  // ---- many passes ----

  /** What the ticks of service `i` meet, one a pass. */
  function EnvsOf(cfgs: seq<Settings>, v: Sys, us: seq<Record>, passes: seq<PassInput>, i: nat): (r: seq<TickEnv>)
    requires |cfgs| == |us| && i < |us| && forall k :: 0 <= k < |passes| ==> |us| <= |passes[k].ticks|
    ensures |r| == |passes|
    ensures forall k :: 0 <= k < |passes| ==>
      r[k].now == passes[k].ticks[i].now && r[k].startedAt == passes[k].ticks[i].startedAt
    decreases |passes|
  {
    if passes == [] then []
    else
      var last := |passes| - 1;
      var (v', us') := SuperviseSpec(cfgs, v, us, passes[..last]);
      EnvsOf(cfgs, v, us, passes[..last], i) + [EnvInPass(cfgs, v', us', passes[last], i)]
  }

  predicate GoodPasses(passes: seq<PassInput>, n: nat) {
    forall k :: 0 <= k < |passes| ==> n <= |passes[k].ticks| && GoodTicks(passes[k].ticks)
  }

  /** Under supervision the record of each service goes through a run of ticks with its own
      settings and the clock readings of the passes, so whatever holds of all such runs holds
      of it; and the records and the runtime agree throughout. */
  lemma {:induction false} RecordsRun(cfgs: seq<Settings>, v: Sys, us: seq<Record>, passes: seq<PassInput>)
    requires |cfgs| == |us| && Owned(v, us) && GoodPasses(passes, |us|)
    ensures var (v', us') := SuperviseSpec(cfgs, v, us, passes);
      && Owned(v', us')
      && (forall i :: 0 <= i < |us| ==> us'[i].svc == Run(cfgs[i], us[i].svc, EnvsOf(cfgs, v, us, passes, i)))
      && (forall i :: 0 <= i < |us| && RecordOk(us[i].svc) ==> RecordOk(us'[i].svc))
    decreases |passes|
  {
    hide Owned, PassSpec, EnvInPass, TickSpec, RecordOk;
    if passes != [] {
      var last := |passes| - 1;
      RecordsRun(cfgs, v, us, passes[..last]);
      var (v1, us1) := SuperviseSpec(cfgs, v, us, passes[..last]);
      forall i | 0 <= i < |us|
        ensures PassSpec(cfgs, v1, us1, passes[last]).1[i].svc
          == Run(cfgs[i], us[i].svc, EnvsOf(cfgs, v, us, passes, i))
      {
        ExitsReachOwner(cfgs, v1, us1, passes[last], i);
        RunAppend(cfgs[i], us[i].svc, EnvsOf(cfgs, v, us, passes[..last], i),
          EnvInPass(cfgs, v1, us1, passes[last], i));
      }
      PassOwned(cfgs, v1, us1, passes[last]);
    }
    forall i | 0 <= i < |us| && RecordOk(us[i].svc) ensures RecordOk(SuperviseSpec(cfgs, v, us, passes).1[i].svc) {
      RecordOkAlongRuns(cfgs[i], us[i].svc, EnvsOf(cfgs, v, us, passes, i));
    }
  }

  lemma PassOwned(cfgs: seq<Settings>, v: Sys, us: seq<Record>, input: PassInput)
    requires |cfgs| == |us| <= |input.ticks| && Owned(v, us) && GoodTicks(input.ticks)
    ensures Owned(PassSpec(cfgs, v, us, input).0, PassSpec(cfgs, v, us, input).1)
  {
    hide Owned, TickAll;
    DrainOwned(v, us, input.polls);
    TickAllOwned(cfgs, DrainPolls(v, input.polls), us, input.ticks, |us|);
  }

  // ---- how many restarts there can be ----

  function RestartsOf(cfg: Settings, v: Sys, u: Record, tick: TickInput): nat {
    if TickSpec(cfg, u.svc, EnvAt(v, u.pid, tick)).1 == TickRestarted then 1 else 0
  }

  function RestartsInTicks(cfgs: seq<Settings>, v: Sys, us: seq<Record>, ticks: seq<TickInput>, i: nat): nat
    requires |cfgs| == |us| <= |ticks| && i <= |us|
  {
    if i == 0 then 0
    else
      var (v', us') := TickAll(cfgs, v, us, ticks, i - 1);
      RestartsInTicks(cfgs, v, us, ticks, i - 1) + RestartsOf(cfgs[i - 1], v', us'[i - 1], ticks[i - 1])
  }

  /** The restarts of all services in all passes. */
  function RestartsIn(cfgs: seq<Settings>, v: Sys, us: seq<Record>, passes: seq<PassInput>): nat
    requires |cfgs| == |us| && forall k :: 0 <= k < |passes| ==> |us| <= |passes[k].ticks|
    decreases |passes|
  {
    if passes == [] then 0
    else
      var last := |passes| - 1;
      var (v', us') := SuperviseSpec(cfgs, v, us, passes[..last]);
      RestartsIn(cfgs, v, us, passes[..last])
      + RestartsInTicks(cfgs, DrainPolls(v', passes[last].polls), us', passes[last].ticks, |us|)
  }

  lemma TickQueues(cfg: Settings, v: Sys, u: Record, tick: TickInput)
    requires Bookkeeping(v) && tick.fork != Some(INVALID_HOST_PID)
    ensures var v' := TickRecord(cfg, v, u, tick).0;
      && |v'.ready.queue| == |v.ready.queue| + RestartsOf(cfg, v, u, tick)
      && (|v.ready.queue| <= SCHEDULER_INITIAL_CAPACITY ==> |v'.ready.queue| <= SCHEDULER_INITIAL_CAPACITY)
  {
    hide SpawnSpec, ReapProcessSpec, Bookkeeping, AfterReapSpec;
    if u.svc.pending {
      SpawnKeeps(v, tick.fork);
      Supervise1Keeps(v, Launch(tick.fork));
    } else {
      TickReaps(cfg, v, u, tick);
      if u.pid.Some? { Supervise1Keeps(v, Collect(u.pid.value)); }
    }
  }

  lemma {:induction false} TicksQueue(cfgs: seq<Settings>, v: Sys, us: seq<Record>, ticks: seq<TickInput>, i: nat)
    requires |cfgs| == |us| <= |ticks| && i <= |us| && Owned(v, us) && GoodTicks(ticks)
    requires |v.ready.queue| <= SCHEDULER_INITIAL_CAPACITY
    ensures var v' := TickAll(cfgs, v, us, ticks, i).0;
      |v'.ready.queue| == |v.ready.queue| + RestartsInTicks(cfgs, v, us, ticks, i) <= SCHEDULER_INITIAL_CAPACITY
  {
    hide Bookkeeping, TickRecord, RestartsOf, Attached;
    if i > 0 {
      TicksQueue(cfgs, v, us, ticks, i - 1);
      TickAllOwned(cfgs, v, us, ticks, i - 1);
      var (v', us') := TickAll(cfgs, v, us, ticks, i - 1);
      TickQueues(cfgs[i - 1], v', us'[i - 1], ticks[i - 1]);
    }
  }

  lemma {:induction false} DrainQueues(v: Sys, polls: seq<Poll>)
    ensures DrainPolls(v, polls).ready == v.ready
    decreases |polls|
  {
    if polls != [] && polls[0].ChildEvent? { DrainQueues(DrainSpec(v, polls[0].host, polls[0].status), polls[1..]); }
  }

  /** However long a registry is supervised, whatever the services and their policies, all
      its services together are restarted at most as often as the ready queue had free slots
      at the beginning, because no pass ever takes anybody out of that queue. */
  lemma {:induction false} RestartsAreBounded(cfgs: seq<Settings>, v: Sys, us: seq<Record>, passes: seq<PassInput>)
    requires |cfgs| == |us| && Owned(v, us) && GoodPasses(passes, |us|)
    requires |v.ready.queue| <= SCHEDULER_INITIAL_CAPACITY
    ensures var v' := SuperviseSpec(cfgs, v, us, passes).0;
      |v'.ready.queue| == |v.ready.queue| + RestartsIn(cfgs, v, us, passes) <= SCHEDULER_INITIAL_CAPACITY
    decreases |passes|
  {
    hide Owned, TickAll, RestartsInTicks;
    if passes != [] {
      var last := |passes| - 1;
      RestartsAreBounded(cfgs, v, us, passes[..last]);
      RecordsRun(cfgs, v, us, passes[..last]);
      var (v1, us1) := SuperviseSpec(cfgs, v, us, passes[..last]);
      DrainOwned(v1, us1, passes[last].polls);
      DrainQueues(v1, passes[last].polls);
      TicksQueue(cfgs, DrainPolls(v1, passes[last].polls), us1, passes[last].ticks, |us|);
    }
  }

  // ---- what a tick is told of an exit ----

  /** No live process has an exit code or a signal recorded yet. */
  predicate Unreported(procs: seq<Proc>) {
    forall i :: 0 <= i < |procs| && procs[i].state != Terminated ==>
      procs[i].exitCode == -1 && procs[i].termSignal == -1
  }

  lemma ReapUnreported(v: Sys, pid: nat)
    requires Bookkeeping(v) && Unreported(v.procs)
    ensures Unreported(ReapProcessSpec(v, pid).0.procs)
  {
    hide Bookkeeping, ReapProcessSpec;
    ReapProcessExactly(v, pid);
    var procs, i := ReapProcessSpec(v, pid).0.procs, FindPid(v.procs, pid);
    if i < |v.procs| { SwapRemoveAt(v.procs, i); }
  }

  lemma TickUnreported(cfg: Settings, v: Sys, u: Record, tick: TickInput)
    requires Bookkeeping(v) && Unreported(v.procs) && tick.fork != Some(INVALID_HOST_PID)
    ensures Unreported(TickRecord(cfg, v, u, tick).0.procs)
  {
    hide SpawnSpec, ReapProcessSpec, Bookkeeping, TickSpec;
    if u.svc.pending {
      SpawnKeeps(v, tick.fork);
      if SpawnSpec(v, tick.fork).1.Some? { SpawnSucceeds(v, tick.fork); }
    } else if u.pid.Some? {
      ReapUnreported(v, u.pid.value);
    }
  }

  lemma {:induction false} TicksUnreported(cfgs: seq<Settings>, v: Sys, us: seq<Record>, ticks: seq<TickInput>, i: nat)
    requires |cfgs| == |us| <= |ticks| && i <= |us| && Owned(v, us) && GoodTicks(ticks) && Unreported(v.procs)
    ensures Unreported(TickAll(cfgs, v, us, ticks, i).0.procs)
  {
    hide TickRecord, Unreported, Owned;
    if i > 0 {
      TicksUnreported(cfgs, v, us, ticks, i - 1);
      TickAllOwned(cfgs, v, us, ticks, i - 1);
      var (v', us') := TickAll(cfgs, v, us, ticks, i - 1);
      OwnedFacts(v', us');
      TickUnreported(cfgs[i - 1], v', us'[i - 1], ticks[i - 1]);
    }
  }

  lemma {:induction false} DrainUnreported(v: Sys, polls: seq<Poll>)
    requires Bookkeeping(v) && Unreported(v.procs)
    ensures Unreported(DrainPolls(v, polls).procs)
    decreases |polls|
  {
    hide Bookkeeping, DrainSpec;
    if polls != [] && polls[0].ChildEvent? {
      DrainDoes(v, polls[0].host, polls[0].status);
      DrainKeeps(v, polls[0].host, polls[0].status);
      DrainUnreported(DrainSpec(v, polls[0].host, polls[0].status), polls[1..]);
    }
  }

  /** It stays so over whole supervised runs. */
  lemma {:induction false} UnreportedAlongRuns(cfgs: seq<Settings>, v: Sys, us: seq<Record>, passes: seq<PassInput>)
    requires |cfgs| == |us| && Owned(v, us) && GoodPasses(passes, |us|) && Unreported(v.procs)
    ensures Unreported(SuperviseSpec(cfgs, v, us, passes).0.procs)
    decreases |passes|
  {
    hide Owned, TickAll, Unreported;
    if passes != [] {
      var last := |passes| - 1;
      UnreportedAlongRuns(cfgs, v, us, passes[..last]);
      RecordsRun(cfgs, v, us, passes[..last]);
      var (v1, us1) := SuperviseSpec(cfgs, v, us, passes[..last]);
      OwnedFacts(v1, us1);
      DrainUnreported(v1, passes[last].polls);
      DrainOwned(v1, us1, passes[last].polls);
      TicksUnreported(cfgs, DrainPolls(v1, passes[last].polls), us1, passes[last].ticks, |us|);
    }
  }

  /** The exit status reported by the host is the one the policy judges: a process alive before
      a pass with one report that it ended shows in its service's tick exactly the reported code
      and no signal, or the reported signal and no code. */
  lemma PolicySeesStatus(cfgs: seq<Settings>, v: Sys, us: seq<Record>, input: PassInput, i: nat, j: nat)
    requires |cfgs| == |us| <= |input.ticks| && i < |us| && Owned(v, us) && GoodTicks(input.ticks)
    requires Unreported(v.procs) && us[i].pid.Some? && ReportOf(v, us[i].pid) == Alive
    requires j < |input.polls| && Drained(v, us[i].pid.value, input.polls, j)
    requires forall m :: 0 <= m < |input.polls| && m != j ==> !Drained(v, us[i].pid.value, input.polls, m)
    ensures EnvInPass(cfgs, v, us, input, i).report ==
      match input.polls[j].status
      case Exited(code) => Dead(code, -1)
      case Signaled(signal) => Dead(-1, signal)
      case _ => Alive
  {
    var pid := us[i].pid.value;
    OwnedFacts(v, us);
    assert CodesOf(v, pid) == (-1, -1);
    assert input.polls[j].status.Exited? || input.polls[j].status.Signaled?;
    hide Owned, Drained, EnvInPass, ReportOf, CodesOf, CodesAfter;
    SoleReport(v, pid, input.polls, (-1, -1), j);
    ExitsReachOwner(cfgs, v, us, input, i);
  }
}
