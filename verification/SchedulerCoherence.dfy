// uthreads.cpp: the five structures agree in every reachable state, and the exact call that
// breaks the agreement.
module SchedulerCoherence {
  import opened Common
  import opened SchedulerModel

  ghost predicate Agree(s: State) {
    && IdsPartitioned(s) && ContainersAgree(s)
    && (forall t :: !s.Is(t, Terminated))
  }

  /** Between putting the running thread away and dispatching the next: everybody waits. */
  ghost predicate Parked(s: State) {
    && Agree(s) && s.Is(0, Ready)
    && (forall t :: !s.Is(t, Running) && !s.Is(t, Main))
  }

  /** Only expiring threads change status: to Blocked if they are also blocked, else to Ready. */
  lemma UpdateSleepersStatus(s: State)
    requires ContainersAgree(s)
    ensures ExpiringLive(s)
    ensures forall t :: t in Expiring(s) ==> s.Is(t, Asleep)
    ensures UpdateSleepers(s).threads.Keys == s.threads.Keys
    ensures forall t :: t in UpdateSleepers(s).sleepers <==> t in s.sleepers && t !in Expiring(s)
    ensures forall t :: t in UpdateSleepers(s).sleepers ==> UpdateSleepers(s).sleepers[t] >= 0
    ensures UpdateSleepers(s).freeIds == s.freeIds && UpdateSleepers(s).blocked == s.blocked
    ensures forall t, st :: UpdateSleepers(s).Is(t, st) <==>
                              if t in Expiring(s) then st == (if t in s.blocked then Blocked else Ready) else s.Is(t, st)
  {
    forall t | t in Expiring(s) ensures s.Is(t, Asleep) {
      assert t in s.sleepers;
    }
  }

  lemma UpdateSleepersReady(s: State)
    requires ContainersAgree(s) && ExpiringLive(s)
    ensures var u := UpdateSleepers(s);
            NoDuplicates(u.ready) && forall t :: t in u.ready <==> t in s.ready || (t in Expiring(s) && t !in s.blocked)
  {
    UpdateSleepersStatus(s);
    forall t | t in Waking(s) ensures t !in s.ready {
      assert s.Is(t, Asleep);
    }
    NoDuplicatesAppend(s.ready, Waking(s));
  }

  lemma UpdateSleepersContainers(s: State)
    requires ContainersAgree(s)
    ensures ExpiringLive(s) && ContainersAgree(UpdateSleepers(s))
  {
    UpdateSleepersStatus(s);
    UpdateSleepersReady(s);
    hide UpdateSleepers, Expiring, NoDuplicates;
    var u := UpdateSleepers(s);
    forall t ensures t in u.ready <==> u.Is(t, Ready) {
      assert t in s.ready <==> s.Is(t, Ready);
    }
    forall t ensures t in u.sleepers <==> u.Is(t, Asleep) {
      assert t in s.sleepers <==> s.Is(t, Asleep);
    }
  }

  lemma UpdateSleepersAgrees(s: State)
    requires Agree(s)
    ensures ExpiringLive(s)
    ensures Agree(UpdateSleepers(s))
    ensures forall t, st :: st == Running || st == Main ==> (UpdateSleepers(s).Is(t, st) <==> s.Is(t, st))
    ensures forall t :: s.Is(t, Ready) ==> UpdateSleepers(s).Is(t, Ready)
  {
    UpdateSleepersStatus(s);
    UpdateSleepersContainers(s);
    hide UpdateSleepers, Expiring, ContainersAgree;
  }

  lemma DispatchCoheres(s: State)
    requires Parked(s)
    ensures NextTid(s) in s.threads && Coherent(Dispatch(s))
  {
    assert 0 in s.ready;
    assert s.Is(s.ready[0], Ready);
    var d := Dispatch(s);
    NoDuplicatesTail(s.ready);
    forall t ensures t in d.ready <==> d.Is(t, Ready) {
      assert t in s.ready <==> s.Is(t, Ready);
    }
    assert forall t :: d.Is(t, Main) ==> s.Is(t, Main);
    assert forall t, st :: t != s.ready[0] ==> (d.Is(t, st) <==> s.Is(t, st));
  }

  lemma SwitchCoheres(s: State, to: Status)
    requires Agree(s)
    requires if to == Ready || to == Blocked then OneRuns(s) && (to == Blocked ==> s.running != 0) else Parked(s)
    ensures CanSwitch(s, to) && Coherent(Switch(s, to))
  {
    UpdateSleepersAgrees(s);
    var u := UpdateSleepers(s);
    if to == Ready || to == Blocked {
      assert s.Is(s.running, Running) || s.Is(s.running, Main);
      assert u.Is(s.running, Running) || u.Is(s.running, Main);
      assert s.running != 0 ==> s.Is(0, Ready);
      PutAwayParks(u, to);
    }
    DispatchCoheres(PutAway(u, to));
  }

  lemma PutAwayParks(u: State, to: Status)
    requires Agree(u) && OneRuns(u) && (to == Ready || (to == Blocked && u.running != 0))
    ensures Parked(PutAway(u, to))
  {
    var p := PutAway(u, to);
    assert u.Is(u.running, Running) || u.Is(u.running, Main);
    assert u.running !in u.ready && u.running !in u.sleepers;
    forall t, st | t != u.running ensures p.Is(t, st) <==> u.Is(t, st) {}
    assert p.Is(u.running, to);
    assert forall t :: t in p.ready <==> t in u.ready || (to == Ready && t == u.running);
  }

  lemma InitCoheres()
    ensures Coherent(Init())
  {
  }

  lemma SpawnCoheres(s: State, nullEntry: bool)
    requires Coherent(s)
    ensures Coherent(Spawn(s, nullEntry).0)
  {
    var u, tid := Spawn(s, nullEntry).0, Spawn(s, nullEntry).1;
    if tid != FAILURE {
      assert tid !in s.threads && tid !in s.ready && tid !in s.sleepers && tid !in s.blocked;
      NoDuplicatesAppend(s.ready, [tid]);
      assert u.Is(tid, Ready);
      assert forall t, st :: t != tid ==> (u.Is(t, st) <==> s.Is(t, st));
    }
  }

  lemma BlockReadyCoheres(s: State, tid: int)
    requires Coherent(s) && tid != 0 && s.Is(tid, Ready)
    ensures Coherent(Block(s, tid).0)
  {
    WithoutMember(s.ready, tid);
    hide Without;
    var u := Block(s, tid).0;
    assert forall t, st :: t != tid ==> (u.Is(t, st) <==> s.Is(t, st));
    assert u.Is(tid, Blocked);
  }

  lemma BlockAsleepCoheres(s: State, tid: int)
    requires Coherent(s) && tid != 0 && s.Is(tid, Asleep)
    ensures Coherent(Block(s, tid).0)
  {
    var u := Block(s, tid).0;
    assert forall t, st :: u.Is(t, st) <==> s.Is(t, st);
  }

  lemma BlockCoheres(s: State, tid: int)
    requires Coherent(s)
    ensures CanBlock(s, tid) && Coherent(Block(s, tid).0)
  {
    if tid != 0 && tid in s.threads {
      if s.Is(tid, Running) {
        SwitchCoheres(s, Blocked);
      } else if s.Is(tid, Ready) {
        BlockReadyCoheres(s, tid);
      } else if s.Is(tid, Asleep) {
        BlockAsleepCoheres(s, tid);
      }
    }
  }

  lemma ResumeCoheres(s: State, tid: int)
    requires Coherent(s)
    ensures Coherent(Resume(s, tid).0)
  {
    var u := Resume(s, tid).0;
    assert forall t, st :: t != tid ==> (u.Is(t, st) <==> s.Is(t, st));
    if s.Is(tid, Blocked) {
      assert tid !in s.ready && tid !in s.sleepers;
      NoDuplicatesAppend(s.ready, [tid]);
      assert u.Is(tid, Ready);
    }
  }

  lemma FallAsleepParks(s: State, quantums: nat)
    requires Coherent(s) && s.running != 0
    ensures Parked(FallAsleep(s, quantums))
    ensures FallAsleep(s, quantums).sleepers == s.sleepers[s.running := quantums]
    ensures s.running !in s.sleepers && s.running !in s.blocked
  {
    var u := FallAsleep(s, quantums);
    assert s.Is(s.running, Running) && s.running !in s.sleepers && s.running !in s.ready && s.running !in s.blocked;
    assert forall t, st :: t != s.running ==> (u.Is(t, st) <==> s.Is(t, st));
    assert u.Is(s.running, Asleep);
  }

  lemma SleepCoheres(s: State, quantums: int)
    requires Coherent(s)
    ensures CanSleep(s, quantums) && Coherent(Sleep(s, quantums).0)
  {
    if s.running != 0 && quantums >= 0 {
      FallAsleepParks(s, quantums);
      SwitchCoheres(FallAsleep(s, quantums), Asleep);
    }
  }

  lemma EraseAgrees(s: State, tid: int)
    requires Coherent(s) && tid != 0 && tid in s.threads
    ensures var e := Erase(s, tid);
            && IdsPartitioned(e)
            && (forall t, st :: e.Is(t, st) <==> t != tid && s.Is(t, st))
            && !s.Is(tid, Terminated) && !s.Is(tid, Main)
  {
  }

  lemma EraseRunningParks(s: State, tid: int)
    requires Coherent(s) && tid != 0 && s.Is(tid, Running)
    ensures Parked(Erase(s, tid))
  {
    EraseAgrees(s, tid);
    assert tid !in s.ready && tid !in s.sleepers && tid !in s.blocked;
    assert s.Is(0, Ready);
  }

  lemma TerminateCoheres(s: State, tid: int)
    requires Coherent(s) && tid != 0 && !s.Is(tid, Asleep)
    ensures CanTerminate(s, tid) && Coherent(Terminate(s, tid).0)
  {
    if tid in s.threads {
      EraseAgrees(s, tid);
      if s.Is(tid, Running) {
        EraseRunningParks(s, tid);
        SwitchCoheres(Erase(s, tid), Terminated);
      } else if s.Is(tid, Ready) {
        WithoutMember(s.ready, tid);
        assert forall t, st :: Terminate(s, tid).0.Is(t, st) <==> Erase(s, tid).Is(t, st);
      } else {
        assert s.Is(tid, Blocked) && tid !in s.ready && tid !in s.sleepers;
        assert forall t, st :: Terminate(s, tid).0.Is(t, st) <==> Erase(s, tid).Is(t, st);
      }
    }
  }

  /**
   * Termination keeps the structures in agreement exactly when the victim is not asleep:
   * the switch over its status has no case for a sleeping thread.
   */
  lemma TerminateCoheresIff(s: State, tid: int)
    requires Coherent(s) && tid != 0
    ensures CanTerminate(s, tid)
    ensures Coherent(Terminate(s, tid).0) <==> !s.Is(tid, Asleep)
  {
    if s.Is(tid, Asleep) {
      assert tid in s.sleepers;
      assert !Terminate(s, tid).0.Is(tid, Asleep);
    } else {
      TerminateCoheres(s, tid);
    }
  }

  /** Every step can be taken from a coherent state, and every step but that one leads to one. */
  lemma StepCoheres(s: State, e: Event)
    requires Coherent(s) && e != TerminateCall(0)
    ensures CanStep(s, e)
    ensures Coherent(Step(s, e)) <==> !KillsSleeper(s, e)
  {
    match e
    case Tick => SwitchCoheres(s, Ready);
    case SpawnCall(nullEntry) => SpawnCoheres(s, nullEntry);
    case TerminateCall(tid) => TerminateCoheresIff(s, tid);
    case BlockCall(tid) => BlockCoheres(s, tid);
    case ResumeCall(tid) => ResumeCoheres(s, tid);
    case SleepCall(n) => SleepCoheres(s, n);
  }

  /** The structures agree after every step of every run from the initial state. */
  lemma {:induction false} RunCoheres(ss: seq<State>, es: seq<Event>, i: nat)
    requires IsRun(ss, es) && NoSleeperKilled(ss, es) && i <= |es|
    requires Coherent(ss[0])
    ensures Coherent(ss[i])
  {
    if i > 0 {
      RunCoheres(ss, es, i - 1);
      assert Next(ss[i - 1], es[i - 1], ss[i]) && !KillsSleeper(ss[i - 1], es[i - 1]);
      StepCoheres(ss[i - 1], es[i - 1]);
    }
  }

  /** The condition is exact over runs too: if a sleeping thread is terminated, the state right after it is not coherent. */
  lemma RunCoheresIff(ss: seq<State>, es: seq<Event>)
    requires IsRun(ss, es) && Coherent(ss[0])
    ensures (forall i :: 0 <= i <= |es| ==> Coherent(ss[i])) <==> NoSleeperKilled(ss, es)
  {
    hide Coherent, Step, CanStep, KillsSleeper;
    if NoSleeperKilled(ss, es) {
      forall i | 0 <= i <= |es| ensures Coherent(ss[i]) {
        RunCoheres(ss, es, i);
      }
    }
    if forall i :: 0 <= i <= |es| ==> Coherent(ss[i]) {
      forall i | 0 <= i < |es| ensures !KillsSleeper(ss[i], es[i]) {
        assert Next(ss[i], es[i], ss[i + 1]) && Coherent(ss[i + 1]);
        NoExit(ss[i], es[i]);
        StepCoheres(ss[i], es[i]);
      }
    }
  }

  lemma NoExit(s: State, e: Event)
    requires CanStep(s, e)
    ensures e != TerminateCall(0)
  {
  }

  /** What a thread waits for: it can run exactly when it is neither asleep nor blocked. */
  lemma RunnableIffNotWaiting(s: State, t: int)
    requires Coherent(s) && t in s.threads
    ensures t in s.ready || t == s.running <==> t !in s.sleepers && t !in s.blocked
    ensures !(t in s.ready && t == s.running)
  {
    var st := s.threads[t].status;
    assert s.Is(t, st);
    assert !s.Is(t, Terminated);
  }

  /** Thread 0 always keeps the queue non-empty when a thread is put away, so no switch falls back to it. */
  lemma FallbackIsUnreachable(s: State, e: Event)
    requires Coherent(s)
    ensures e == Tick ==> PutAway(UpdateSleepers(s), Ready).ready != []
    ensures e.BlockCall? && e.tid == s.running != 0 ==> PutAway(UpdateSleepers(s), Blocked).ready != []
    ensures e.TerminateCall? && e.tid == s.running != 0 ==> UpdateSleepers(Erase(s, e.tid)).ready != []
    ensures e.SleepCall? && e.quantums >= 0 && s.running != 0 ==> UpdateSleepers(FallAsleep(s, e.quantums)).ready != []
  {
    if s.running != 0 {
      assert 0 in s.ready;
    }
  }
}
