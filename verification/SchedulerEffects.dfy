// uthreads.cpp: what each call does to each thread, structure by structure, in terms of the call alone;
// and what follows over whole runs for a thread that is blocked, resumed or dispatched.
module SchedulerEffects {
  import opened Common
  import opened SchedulerModel
  import opened SchedulerCoherence
  import opened SchedulerRuns

  // ---- the effect of one call ----

  /** Spawning adds the least free tid, terminating takes its target away, and nothing else changes who is alive. */
  lemma LiveStep(s: State, e: Event, t: int)
    requires CanStep(s, e)
    ensures t in Step(s, e).threads <==>
            || (t in s.threads && e != TerminateCall(t))
            || (e == SpawnCall(false) && s.freeIds != {} && t in s.freeIds && forall f :: f in s.freeIds ==> t <= f)
  {
    if Switches(s, e) {
      var f, to := SwitchedFrom(s, e).0, SwitchedFrom(s, e).1;
      assert t in f.threads <==> t in s.threads && e != TerminateCall(t);
      hide Step, Switches;
      SwitchEffect(f, to);
    } else if e == SpawnCall(false) && s.freeIds != {} && t in s.freeIds && (forall f :: f in s.freeIds ==> t <= f) {
      LeastUnique(s.freeIds, t);
    }
  }

  /** A thread is blocked by blocking it and unblocked by resuming it, whatever else it is doing. */
  lemma BlockedStep(s: State, e: Event, t: int)
    requires Coherent(s) && CanStep(s, e) && t in s.threads && e != TerminateCall(t)
    ensures t in Step(s, e).blocked <==> (t in s.blocked && e != ResumeCall(t)) || (e == BlockCall(t) && t != 0)
  {
    if Switches(s, e) {
      var f, to := SwitchedFrom(s, e).0, SwitchedFrom(s, e).1;
      assert f.blocked == s.blocked && f.running == s.running;
      assert to == Blocked <==> e.BlockCall?;
      assert e.BlockCall? ==> e.tid == s.running && e.tid != 0;
      hide Step, Switches;
      SwitchEffect(f, to);
    } else {
      QuietBlocked(s, e, t);
    }
  }

  lemma QuietBlocked(s: State, e: Event, t: int)
    requires Coherent(s) && CanStep(s, e) && !Switches(s, e) && t in s.threads && e != TerminateCall(t)
    ensures t in Step(s, e).blocked <==> (t in s.blocked && e != ResumeCall(t)) || (e == BlockCall(t) && t != 0)
  {
    assert s.Is(t, s.threads[t].status);
    if e == BlockCall(t) || e == ResumeCall(t) {
      assert !s.Is(t, Terminated);
    } else if e.TerminateCall? {
      assert t != e.tid;
    }
  }

  /** A thread falls asleep by its own call, for at least one quantum, and wakes in the switch at which it is due. */
  lemma AsleepIff(s: State, e: Event, t: int)
    requires Coherent(s) && CanStep(s, e) && t in s.threads && e != TerminateCall(t)
    ensures t in Step(s, e).sleepers <==>
            if t in s.sleepers then !(Switches(s, e) && s.sleepers[t] == 0)
            else e.SleepCall? && t == s.running && t != 0 && e.quantums > 0
    ensures t in Step(s, e).sleepers ==>
              Step(s, e).sleepers[t] + Step(s, e).total
              == s.total + if t in s.sleepers then s.sleepers[t] else e.quantums
  {
    if t in s.sleepers {
      CountdownStep(s, e, t);
    } else if Switches(s, e) {
      StepTotal(s, e);
      var f, to := SwitchedFrom(s, e).0, SwitchedFrom(s, e).1;
      assert t in f.sleepers <==> e.SleepCall? && t == s.running;
      assert t in f.sleepers ==> f.sleepers[t] == e.quantums;
      hide Step;
      SwitchEffect(f, to);
    }
  }

  /** What a coherent thread's status is, by the structures it is in. */
  lemma StatusByPlace(s: State, t: int)
    requires Coherent(s) && t in s.threads
    ensures s.Is(t, Asleep) <==> t in s.sleepers
    ensures s.Is(t, Blocked) <==> t in s.blocked && t !in s.sleepers
    ensures s.Is(t, Ready) <==> t in s.ready
    ensures s.Is(t, Running) || s.Is(t, Main) <==> t == s.running
  {
  }

  // ---- quantums, thread by thread ----

  lemma DispatchCharges(s: State, t: int)
    requires NextTid(s) in s.threads && t in s.threads
    ensures var d := Dispatch(s);
            && t in d.threads
            && d.threads[t].quantums == s.threads[t].quantums + if t == d.running then 1 else 0
  {
  }

  lemma SwitchCharges(s: State, to: Status, t: int)
    requires CanSwitch(s, to) && t in s.threads
    ensures var s' := Switch(s, to);
            && t in s'.threads
            && s'.threads[t].quantums == s.threads[t].quantums + if t == s'.running then 1 else 0
  {
    var p := PutAway(UpdateSleepers(s), to);
    assert t in p.threads && p.threads[t].quantums == s.threads[t].quantums;
    hide UpdateSleepers, Dispatch;
    DispatchCharges(p, t);
  }

  /** A quantum is charged to the thread that starts to run in it, and to no other; a new thread starts with none. */
  lemma QuantumStep(s: State, e: Event, t: int)
    requires IdsPartitioned(s) && CanStep(s, e)
    ensures t in s.threads && e != TerminateCall(t) ==>
              && t in Step(s, e).threads
              && Step(s, e).threads[t].quantums
                 == s.threads[t].quantums + if Switches(s, e) && Step(s, e).running == t then 1 else 0
    ensures t !in s.threads && t in Step(s, e).threads ==> Step(s, e).threads[t].quantums == 0
  {
    LiveStep(s, e, t);
    assert Switches(s, e) ==> !e.SpawnCall?;
    if Switches(s, e) && t in s.threads && e != TerminateCall(t) {
      SwitchingCharges(s, e, t);
    } else if !Switches(s, e) {
      hide Step, Switches, IdsPartitioned;
      QuietCharges(s, e, t);
    }
  }

  lemma SwitchingCharges(s: State, e: Event, t: int)
    requires CanStep(s, e) && Switches(s, e) && t in s.threads && e != TerminateCall(t)
    ensures var s' := Step(s, e);
            && t in s'.threads
            && s'.threads[t].quantums == s.threads[t].quantums + if s'.running == t then 1 else 0
  {
    var f, to := SwitchedFrom(s, e).0, SwitchedFrom(s, e).1;
    assert t in f.threads && f.threads[t].quantums == s.threads[t].quantums;
    hide Step, Switches;
    SwitchCharges(f, to, t);
  }

  lemma QuietCharges(s: State, e: Event, t: int)
    requires IdsPartitioned(s) && CanStep(s, e) && !Switches(s, e)
    ensures t in s.threads && e != TerminateCall(t) ==>
              t in Step(s, e).threads && Step(s, e).threads[t].quantums == s.threads[t].quantums
    ensures t !in s.threads && t in Step(s, e).threads ==> Step(s, e).threads[t].quantums == 0
  {
    assert e.SpawnCall? && s.freeIds != {} ==> Least(s.freeIds) !in s.threads;
    hide IdsPartitioned, CanStep, Least, Find, Without;
    match e {
      case TerminateCall(tid) => assert tid !in s.threads || !s.Is(tid, Running);
      case BlockCall(tid) => assert tid == 0 || tid !in s.threads || !s.Is(tid, Running);
      case _ =>
    }
  }

  // ---- the queue and who runs ----

  /** The sleepers that the switch in this call wakes: those due and not blocked, and the caller of sleep(0). */
  ghost function WokenBy(s: State, e: Event): set<int> {
    (set t | t in s.sleepers && s.sleepers[t] == 0 && t !in s.blocked) + if e == SleepCall(0) then {s.running} else {}
  }

  /** A switch serves the queue, the woken in ascending order behind it, and a preempted thread last. */
  lemma SwitchStep(s: State, e: Event)
    requires Coherent(s) && CanStep(s, e) && Switches(s, e)
    ensures var q := s.ready + Ascending(WokenBy(s, e)) + if e == Tick then [s.running] else [];
            q != [] && Step(s, e).running == q[0] && Step(s, e).ready == q[1..] && Step(s, e).Is(q[0], Running)
  {
    var f, to := SwitchedFrom(s, e).0, SwitchedFrom(s, e).1;
    SwitchedFromWakes(s, e);
    FallbackIsUnreachable(s, e);
    assert to == Ready <==> e == Tick;
    assert f.running == s.running;
    SwitchesFromOther(s, e);
    hide Step, Switches, Coherent, Waking, WokenBy;
    SwitchQueue(f, to);
  }

  lemma SwitchesFromOther(s: State, e: Event)
    requires Coherent(s) && CanStep(s, e) && Switches(s, e)
    ensures e == Tick || s.ready != []
  {
    if e != Tick {
      assert s.running != 0 && s.Is(0, Ready);
      assert 0 in s.ready;
    }
  }

  lemma SwitchedFromSleepers(s: State, e: Event)
    requires Coherent(s) && CanStep(s, e) && Switches(s, e)
    ensures var f := SwitchedFrom(s, e).0;
            f.blocked == s.blocked && f.sleepers == if e.SleepCall? then s.sleepers[s.running := e.quantums] else s.sleepers
  {
    AsleepIffSleeper(s, s.running);
    RunningThreadWaitsForNothing(s);
    hide Step, Switch, Coherent;
  }

  lemma SwitchedFromWakes(s: State, e: Event)
    requires Coherent(s) && CanStep(s, e) && Switches(s, e)
    ensures Waking(SwitchedFrom(s, e).0) == Ascending(WokenBy(s, e))
  {
    SwitchedFromSleepers(s, e);
    AsleepIffSleeper(s, s.running);
    RunningThreadWaitsForNothing(s);
    var f := SwitchedFrom(s, e).0;
    hide Step, CanStep, Switches, SwitchedFrom, Coherent;
    WokenSet(s, f, e);
  }

  lemma WokenSet(s: State, f: State, e: Event)
    requires s.running !in s.sleepers && s.running !in s.blocked && f.blocked == s.blocked
    requires f.sleepers == if e.SleepCall? then s.sleepers[s.running := e.quantums] else s.sleepers
    ensures Expiring(f) - f.blocked == WokenBy(s, e)
  {
    SetsEqual(Expiring(f) - f.blocked, WokenBy(s, e));
  }

  /** A call that does not switch leaves the running thread, and appends to the queue or takes its target out. */
  lemma QuietStep(s: State, e: Event)
    requires Coherent(s) && CanStep(s, e) && !Switches(s, e)
    ensures Step(s, e).running == s.running
    ensures Step(s, e).ready ==
            match e
            case SpawnCall(nullEntry) => if nullEntry || s.freeIds == {} then s.ready else s.ready + [Least(s.freeIds)]
            case TerminateCall(t) => Without(s.ready, t)
            case BlockCall(t) => if t == 0 then s.ready else Without(s.ready, t)
            case ResumeCall(t) => if t in s.blocked && t !in s.sleepers then s.ready + [t] else s.ready
            case _ => s.ready
  {
    match e {
      case ResumeCall(t) =>
        if t in s.threads { StatusByPlace(s, t); }
      case BlockCall(t) =>
        if t !in s.ready { assert Without(s.ready, t) == s.ready; }
        if t in s.threads { StatusByPlace(s, t); }
      case TerminateCall(t) =>
        if t !in s.ready { assert Without(s.ready, t) == s.ready; }
        if t in s.threads { StatusByPlace(s, t); }
      case _ =>
    }
  }

  // ---- results ----

  /** The errors of the interface, and only they, return -1, and then nothing has changed; otherwise 0 or the new tid. */
  lemma FailsIff(s: State, e: Event)
    requires CanStep(s, e)
    ensures match e
            case Tick => true
            case SpawnCall(nullEntry) =>
              var r := Spawn(s, nullEntry);
              if s.freeIds == {} || nullEntry then r == (s, -1)
              else r.1 in s.freeIds && forall f :: f in s.freeIds ==> r.1 <= f
            case TerminateCall(t) => if t in s.threads then Terminate(s, t).1 == 0 else Terminate(s, t) == (s, -1)
            case BlockCall(t) => if t in s.threads && t != 0 then Block(s, t).1 == 0 else Block(s, t) == (s, -1)
            case ResumeCall(t) => if t in s.threads then Resume(s, t).1 == 0 else Resume(s, t) == (s, -1)
            case SleepCall(n) => if s.running != 0 && n >= 0 then Sleep(s, n).1 == 0 else Sleep(s, n) == (s, -1)
  {
  }

  // ---- waiting and being resumed ----

  /**
   * A waiting thread enters the queue, once, exactly in the call that clears its last reason to wait: resuming it
   * when it is not asleep, or the switch at which its sleep is due when it is not blocked. (It may be dispatched at once.)
   */
  lemma LastReasonMakesReady(s: State, e: Event, t: int)
    requires Coherent(s) && CanStep(s, e) && !KillsSleeper(s, e) && e != TerminateCall(t)
    requires t in s.sleepers || t in s.blocked
    ensures var s' := Step(s, e);
            var asleep := t in s.sleepers && !(Switches(s, e) && s.sleepers[t] == 0);
            var blocked := (t in s.blocked && e != ResumeCall(t)) || (e == BlockCall(t) && t != 0);
            && (asleep <==> t in s'.sleepers) && (blocked <==> t in s'.blocked)
            && (t in s'.ready || s'.running == t <==> !asleep && !blocked)
            && multiset(s'.ready)[t] == if !asleep && !blocked && s'.running != t then 1 else 0
  {
    WaitersDoNotRun(s, t);
    BlockedStep(s, e, t);
    AsleepIff(s, e, t);
    LiveStep(s, e, t);
    StepCoheres(s, e);
    hide Step, Switches;
    RunnableIffNotWaiting(Step(s, e), t);
    OccursOnce(Step(s, e).ready, t);
  }

  lemma WaitersDoNotRun(s: State, t: int)
    requires Coherent(s) && (t in s.sleepers || t in s.blocked)
    ensures t in s.threads && t != s.running && t !in s.ready
  {
    assert s.Is(t, Asleep) || s.Is(t, Blocked);
  }

  /** Resuming a blocked thread that is not asleep puts it at the end of the queue, where it stands once. */
  lemma ResumedIsQueued(s: State, t: int)
    requires Coherent(s) && t in s.blocked && t !in s.sleepers
    ensures var s' := Step(s, ResumeCall(t));
            s'.ready == s.ready + [t] && t !in s'.blocked && s'.Is(t, Ready) && multiset(s'.ready)[t] == 1
  {
    WaitersDoNotRun(s, t);
    QuietStep(s, ResumeCall(t));
    LastReasonMakesReady(s, ResumeCall(t), t);
    StatusByPlace(s, t);
  }

  /** Over every run: a blocked thread stays blocked, and is neither queued nor running, until somebody resumes it. */
  lemma {:induction false} BlockedUntilResumed(ss: seq<State>, es: seq<Event>, i: nat, k: nat, t: int)
    requires IsRun(ss, es) && NoSleeperKilled(ss, es) && Coherent(ss[0])
    requires i < k <= |es| && es[i] == BlockCall(t) && t != 0 && t in ss[i].threads
    requires forall j :: i < j < k ==> es[j] != ResumeCall(t) && es[j] != TerminateCall(t)
    ensures t in ss[k].threads && t in ss[k].blocked && t !in ss[k].ready && ss[k].running != t
  {
    hide Step, Coherent, CanStep;
    RunCoheres(ss, es, k - 1);
    RunCoheres(ss, es, k);
    assert Next(ss[k - 1], es[k - 1], ss[k]);
    if i < k - 1 {
      BlockedUntilResumed(ss, es, i, k - 1, t);
    }
    BlockedStep(ss[k - 1], es[k - 1], t);
    WaitersDoNotRun(ss[k], t);
  }

  // ---- quantums over runs ----

  /** How many of the calls i, ..., k - 1 switched to the thread. */
  ghost function Dispatches(ss: seq<State>, es: seq<Event>, t: int, i: nat, k: nat): int
    requires |ss| == |es| + 1 && i <= k <= |es|
    decreases k
  {
    if k == i then 0 else
      Dispatches(ss, es, t, i, k - 1) + if Switches(ss[k - 1], es[k - 1]) && ss[k].running == t then 1 else 0
  }

  /** Over every run, a thread's quantums grow by exactly the number of times it is dispatched. */
  lemma {:induction false} QuantumsCountDispatches(ss: seq<State>, es: seq<Event>, t: int, i: nat, k: nat)
    requires IsRun(ss, es) && IdsPartitioned(ss[0]) && i <= k <= |es| && t in ss[i].threads
    requires forall j :: i <= j < k ==> es[j] != TerminateCall(t)
    ensures t in ss[k].threads && ss[k].threads[t].quantums == ss[i].threads[t].quantums + Dispatches(ss, es, t, i, k)
    decreases k
  {
    hide Step, CanStep, Switches, IdsPartitioned;
    if i < k {
      QuantumsCountDispatches(ss, es, t, i, k - 1);
      IdsStayPartitioned(ss, es, k - 1);
      assert Next(ss[k - 1], es[k - 1], ss[k]);
      QuantumStep(ss[k - 1], es[k - 1], t);
    }
  }
}
