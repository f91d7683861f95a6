// nim/uthreads.cpp: what each call does to each thread, structure by structure, in terms of the call alone;
// and what follows over whole runs for a thread that locks, is blocked or is dispatched.
module MutexEffects {
  import opened Common
  import opened MutexModel
  import opened MutexRuns

  // ---- the effect of one call ----

  /** Spawning adds the least unused id, terminating takes its target away, and nothing else changes who is alive. */
  lemma LiveStep(s: State, e: Event, t: int)
    requires Coherent(s) && CanStep(s, e)
    ensures t in Step(s, e).quantums <==>
            || (t in s.quantums && !(e.TerminateCall? && e.tid == t))
            || (e == SpawnCall && |s.quantums| < MAX_THREAD_NUM && 1 <= t && t !in s.quantums
                && forall i :: 1 <= i < t ==> i in s.quantums)
  {
    if e == SpawnCall && |s.quantums| < MAX_THREAD_NUM {
      NewIdIsFresh(s);
    }
  }

  /** A thread is blocked by blocking it and unblocked by resuming it, whatever else it waits for. */
  lemma BlockedStep(s: State, e: Event, t: int)
    requires Coherent(s) && CanStep(s, e) && t in s.quantums && !(e.TerminateCall? && e.tid == t)
    ensures t in Step(s, e).blocked <==> (t in s.blocked && e != ResumeCall(t)) || (e == BlockCall(t) && t != 0)
  {
  }

  /** A thread waits from locking a mutex that another thread holds until it is picked as the new holder. */
  lemma WaitersStep(s: State, e: Event, t: int)
    requires Coherent(s) && CanStep(s, e) && t in s.quantums && !(e.TerminateCall? && e.tid == t)
    ensures t in Step(s, e).waiting <==>
            || (t in s.waiting && !(HandsOff(s, e) && e.pick == t))
            || (e == LockCall && s.locked && s.holder != s.running && t == s.running)
    ensures HandsOff(s, e) && s.waiting != {} ==> Holds(Step(s, e), e.pick)
  {
  }

  /** A thread that locks a held mutex waits for the mutex, and for nothing else. */
  lemma LockWaits(s: State)
    requires Coherent(s) && CanStep(s, LockCall) && s.locked && s.holder != s.running
    ensures s.running in Step(s, LockCall).waiting && Step(s, LockCall).blocked == s.blocked
  {
  }

  // ---- quantums, thread by thread ----

  lemma DispatchCharges(s: State, t: int)
    requires CanDispatch(s) && t in s.quantums
    ensures t in Dispatch(s).quantums
    ensures Dispatch(s).quantums[t] == s.quantums[t] + if t == Dispatch(s).running then 1 else 0
  {
  }

  /** A quantum is charged to the thread that starts to run in it, and to no other; a new thread starts with none. */
  lemma QuantumStep(s: State, e: Event, t: int)
    requires Coherent(s) && CanStep(s, e)
    ensures t in s.quantums && !(e.TerminateCall? && e.tid == t) ==>
              && t in Step(s, e).quantums
              && Step(s, e).quantums[t] == s.quantums[t] + if SwitchPoint(s, e).Some? && Step(s, e).running == t then 1 else 0
    ensures t !in s.quantums && t in Step(s, e).quantums ==> Step(s, e).quantums[t] == 0
  {
    if e == SpawnCall && |s.quantums| < MAX_THREAD_NUM {
      NewIdIsFresh(s);
    }
    if SwitchPoint(s, e).Some? && t in s.quantums && !(e.TerminateCall? && e.tid == t) {
      assert t in AtSwitch(s, e).quantums && AtSwitch(s, e).quantums[t] == s.quantums[t];
      DispatchCharges(AtSwitch(s, e), t);
    }
  }

  // ---- the queue and who runs ----

  /** The waiter, if any, that a hand-off in this call puts into the queue: the pick, unless it is blocked. */
  ghost function Queued(s: State, e: Event): seq<int> {
    if HandsOff(s, e) && s.waiting != {} && e.pick !in s.blocked then [e.pick] else []
  }

  /** A hand-off queues its pick before the victim is taken out. */
  lemma RemovedQueue(s: State, tid: int, pick: int)
    requires Coherent(s) && CanStep(s, TerminateCall(tid, pick)) && tid in s.quantums
    ensures Removed(s, tid, pick).ready == Without(s.ready + Queued(s, TerminateCall(tid, pick)), tid)
    ensures tid == s.running ==> Removed(s, tid, pick).ready == s.ready + Queued(s, TerminateCall(tid, pick))
  {
    var h := if Holds(s, tid) then HandOff(s, pick) else s;
    var q := s.ready + Queued(s, TerminateCall(tid, pick));
    assert h.ready == q;
    if tid == s.running {
      assert tid !in q;
      hide Coherent, CanStep, Queued, HandOff;
      AbsentStaysOut(q, tid);
    }
  }

  lemma AbsentStaysOut(q: seq<int>, x: int)
    requires x !in q
    ensures Without(q, x) == q
  {
  }

  /** A switch serves the queue, behind it a waiter that was handed the mutex and a preempted thread. */
  lemma SwitchStep(s: State, e: Event)
    requires Coherent(s) && CanStep(s, e) && SwitchPoint(s, e).Some?
    ensures var q := s.ready + Queued(s, e) + if e == Tick then [s.running] else [];
            q != [] && Step(s, e).running == q[0] && Step(s, e).ready == q[1..]
  {
    if e.TerminateCall? {
      RemovedQueue(s, e.tid, e.pick);
    }
    assert AtSwitch(s, e).ready == s.ready + Queued(s, e) + if e == Tick then [s.running] else [];
    hide AtSwitch, SwitchPoint, Coherent, Queued;
  }

  /** A call that does not switch leaves the running thread, and appends to the queue or takes its target out. */
  lemma QuietStep(s: State, e: Event)
    requires Coherent(s) && CanStep(s, e) && SwitchPoint(s, e).None?
    ensures Step(s, e).running == s.running && Step(s, e).total == s.total
    ensures Step(s, e).ready ==
            match e
            case SpawnCall => if |s.quantums| < MAX_THREAD_NUM then s.ready + [NewId(s)] else s.ready
            case TerminateCall(t, _) => Without(s.ready + Queued(s, e), t)
            case BlockCall(t) => if t == 0 then s.ready else Without(s.ready, t)
            case ResumeCall(t) => if t in s.blocked && t !in s.waiting then s.ready + [t] else s.ready
            case _ => s.ready + Queued(s, e)
  {
    hide Without, Find, NewId;
    match e {
      case TerminateCall(t, pick) =>
        if t in s.quantums {
          RemovedQueue(s, t, pick);
        } else {
          AbsentStaysOut(s.ready, t);
          assert s.ready + Queued(s, e) == s.ready;
        }
      case BlockCall(t) =>
        if t !in s.quantums {
          AbsentStaysOut(s.ready, t);
        }
      case _ =>
    }
  }

  // ---- results ----

  /** Which calls fail, with -1 and nothing changed; the others return 0 or the new id. */
  lemma FailsIff(s: State, e: Event)
    requires CanStep(s, e)
    ensures var fails :=
              match e
              case Tick => false
              case SpawnCall => |s.quantums| >= 100
              case TerminateCall(t, _) => t !in s.quantums
              case BlockCall(t) => t !in s.quantums || t == 0
              case ResumeCall(t) => t !in s.quantums
              case LockCall => s.locked && s.holder == s.running
              case UnlockCall(_) => !s.locked || s.holder != s.running;
            && (fails ==> Returned(s, e) == -1 && Step(s, e) == s)
            && (!fails ==> Returned(s, e) == if e == SpawnCall then NewId(s) else 0)
  {
  }

  // ---- locking over runs ----

  /**
   * Over every run: when the caller of a lock call that returns 0 next runs, it holds the mutex, whether the call
   * found the mutex free or had to wait.
   */
  lemma LockMeansHolding(ss: seq<State>, es: seq<Event>, i: nat, k: nat)
    requires IsRun(ss, es) && Coherent(ss[0]) && i < k <= |es|
    requires es[i] == LockCall && Returned(ss[i], LockCall) == 0
    requires forall j :: i < j < k ==> ss[j].running != ss[i].running
    requires forall j :: i < j < k ==> !(es[j].TerminateCall? && es[j].tid == ss[i].running)
    requires ss[k].running == ss[i].running
    ensures Holds(ss[k], ss[i].running)
  {
    var s, t := ss[i], ss[i].running;
    RunCoheres(ss, es, i);
    assert Next(s, es[i], ss[i + 1]);
    if s.locked {
      LockWaits(s);
      WaiterIsNotRunning(ss, es, i + 1, t);
      LockReturnsWithMutex(ss, es, i + 1, k, t);
    } else {
      FreeMutexIsTaken(s);
    }
  }

  lemma FreeMutexIsTaken(s: State)
    requires Coherent(s) && CanStep(s, LockCall) && !s.locked
    ensures Step(s, LockCall).running == s.running && Holds(Step(s, LockCall), s.running)
  {
  }

  lemma WaiterIsNotRunning(ss: seq<State>, es: seq<Event>, i: nat, t: int)
    requires IsRun(ss, es) && Coherent(ss[0]) && i <= |es| && t in ss[i].waiting
    ensures ss[i].running != t
  {
    RunCoheres(ss, es, i);
  }

  // ---- blocking over runs ----

  lemma BlockedDoesNotRun(s: State, t: int)
    requires Coherent(s) && t in s.blocked
    ensures t in s.quantums && t != s.running && t !in s.ready
  {
  }

  /** Over every run: a blocked thread stays blocked, and is neither queued nor running, until somebody resumes it. */
  lemma {:induction false} BlockedUntilResumed(ss: seq<State>, es: seq<Event>, i: nat, k: nat, t: int)
    requires IsRun(ss, es) && Coherent(ss[0])
    requires i < k <= |es| && es[i] == BlockCall(t) && t != 0 && t in ss[i].quantums
    requires forall j :: i < j < k ==> es[j] != ResumeCall(t) && !(es[j].TerminateCall? && es[j].tid == t)
    ensures t in ss[k].quantums && t in ss[k].blocked && t !in ss[k].ready && ss[k].running != t
  {
    hide Step, Coherent, CanStep;
    RunCoheres(ss, es, k - 1);
    RunCoheres(ss, es, k);
    assert Next(ss[k - 1], es[k - 1], ss[k]);
    if i < k - 1 {
      BlockedUntilResumed(ss, es, i, k - 1, t);
    }
    BlockedStep(ss[k - 1], es[k - 1], t);
    BlockedDoesNotRun(ss[k], t);
  }

  // ---- quantums over runs ----

  /** How many of the calls i, ..., k - 1 switched to the thread. */
  ghost function Dispatches(ss: seq<State>, es: seq<Event>, t: int, i: nat, k: nat): int
    requires |ss| == |es| + 1 && i <= k <= |es|
    decreases k
  {
    if k == i then 0 else
      Dispatches(ss, es, t, i, k - 1) + if SwitchPoint(ss[k - 1], es[k - 1]).Some? && ss[k].running == t then 1 else 0
  }

  /** Over every run, a thread's quantums grow by exactly the number of times it is dispatched. */
  lemma {:induction false} QuantumsCountDispatches(ss: seq<State>, es: seq<Event>, t: int, i: nat, k: nat)
    requires IsRun(ss, es) && Coherent(ss[0]) && i <= k <= |es| && t in ss[i].quantums
    requires forall j :: i <= j < k ==> !(es[j].TerminateCall? && es[j].tid == t)
    ensures t in ss[k].quantums && ss[k].quantums[t] == ss[i].quantums[t] + Dispatches(ss, es, t, i, k)
    decreases k
  {
    hide Step, CanStep, SwitchPoint, Coherent;
    if i < k {
      QuantumsCountDispatches(ss, es, t, i, k - 1);
      RunCoheres(ss, es, k - 1);
      assert Next(ss[k - 1], es[k - 1], ss[k]);
      QuantumStep(ss[k - 1], es[k - 1], t);
    }
  }
}
