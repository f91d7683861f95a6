// nim/uthreads.cpp: mutex safety over all runs, the exact steps that get stuck, hand-off,
// doubly blocked threads, conservation of quantums and id allocation.
module MutexRuns {
  import opened Common
  import opened MutexModel

  // ---- each step keeps the invariant ----

  lemma InitCoheres()
    ensures Coherent(Init())
  {
  }

  lemma AppendReady(s: State, t: int)
    requires NoDuplicates(s.ready) && t !in s.ready
    ensures NoDuplicates(s.ready + [t])
  {
    NoDuplicatesAppend(s.ready, [t]);
  }

  lemma HandOffCoheres(s: State, pick: int)
    requires Coherent(s) && s.locked && (s.waiting != {} ==> LegalPick(s, pick))
    ensures Coherent(HandOff(s, pick))
  {
    if s.waiting == {} {
      assert forall t :: t !in s.waiting;
    } else {
      assert pick in s.quantums && pick != s.running && pick !in s.ready;
      AppendReady(s, pick);
    }
  }

  /** Once the victim has handed its mutex on, removing it leaves everybody else where they were. */
  lemma RemovedPlaces(s: State, tid: int, pick: int)
    requires Coherent(s) && tid in s.quantums && tid != 0
    requires Holds(s, tid) && s.waiting != {} ==> LegalPick(s, pick)
    ensures var r := Removed(s, tid, pick);
            && MutexSafe(r) && NoDuplicates(r.ready) && tid !in r.quantums
            && (forall t :: t in r.quantums <==> t in s.quantums && t != tid)
            && (forall t :: t in r.ready || t in r.blocked || t in r.waiting ==> t in r.quantums)
            && (forall t :: t in r.quantums && t != s.running ==> (t in r.ready <==> t !in r.blocked && t !in r.waiting))
            && (s.running != tid ==> s.running !in r.ready && s.running !in r.blocked && s.running !in r.waiting)
            && r.running == s.running && 0 !in r.blocked && r.total == s.total
  {
    var h := if Holds(s, tid) then HandOff(s, pick) else s;
    if Holds(s, tid) {
      HandOffCoheres(s, pick);
    }
    WithoutMember(h.ready, tid);
    assert Coherent(h) && h.holder != tid;
  }

  lemma DispatchCoheres(s: State)
    requires MutexSafe(s) && NoDuplicates(s.ready) && s.ready != [] && 0 in s.quantums && 0 !in s.blocked
    requires forall t :: t in s.quantums ==> 0 <= t < MAX_THREAD_NUM
    requires forall t :: t in s.ready || t in s.blocked || t in s.waiting ==> t in s.quantums
    requires forall t :: t in s.quantums ==> (t in s.ready <==> t !in s.blocked && t !in s.waiting)
    ensures CanDispatch(s) && Coherent(Dispatch(s))
  {
    assert s.ready[0] in s.ready;
    NoDuplicatesTail(s.ready);
  }

  lemma SwitchCoheres(s: State, e: Event)
    requires Coherent(s) && Legal(s, e) && SwitchPoint(s, e).Some? && !Stuck(s, e)
    ensures CanDispatch(AtSwitch(s, e)) && Coherent(Dispatch(AtSwitch(s, e)))
  {
    var m := AtSwitch(s, e);
    match e {
      case TerminateCall(tid, pick) => RemovedPlaces(s, tid, pick);
      case Tick => AppendReady(s, s.running);
      case BlockCall(_) =>
      case LockCall =>
    }
    hide SwitchPoint, AtSwitch, Removed;
    DispatchCoheres(m);
  }

  lemma SpawnCoheres(s: State)
    requires Coherent(s)
    ensures Coherent(Spawn(s).0)
  {
    if |s.quantums| + 1 <= MAX_THREAD_NUM {
      NewIdIsFresh(s);
      AppendReady(s, NewId(s));
    }
  }

  /** Every legal step that is not stuck leads from a coherent state to a coherent one. */
  lemma StepCoheres(s: State, e: Event)
    requires Coherent(s) && Legal(s, e) && !Stuck(s, e)
    ensures CanStep(s, e) && Coherent(Step(s, e))
  {
    if SwitchPoint(s, e).Some? {
      SwitchCoheres(s, e);
      return;
    }
    match e {
      case Tick =>
      case SpawnCall => SpawnCoheres(s);
      case TerminateCall(tid, pick) => if tid in s.quantums { RemovedPlaces(s, tid, pick); }
      case BlockCall(tid) => WithoutMember(s.ready, tid);
      case ResumeCall(tid) => if tid in s.blocked && tid !in s.waiting { AppendReady(s, tid); }
      case LockCall =>
      case UnlockCall(pick) => if Holds(s, s.running) { HandOffCoheres(s, pick); }
    }
  }

  /** The invariant, and with it mutex safety, holds after every step of every run. */
  lemma {:induction false} RunCoheres(ss: seq<State>, es: seq<Event>, i: nat)
    requires IsRun(ss, es) && Coherent(ss[0]) && i <= |es|
    ensures Coherent(ss[i])
  {
    hide Coherent, CanDispatch;
    if i > 0 {
      RunCoheres(ss, es, i - 1);
      assert Next(ss[i - 1], es[i - 1], ss[i]);
      NotStuckWhenTaken(ss[i - 1], es[i - 1]);
      StepCoheres(ss[i - 1], es[i - 1]);
    }
  }

  lemma NotStuckWhenTaken(s: State, e: Event)
    requires CanStep(s, e)
    ensures Legal(s, e) && !Stuck(s, e)
  {
  }

  // ---- id allocation ----

  /** With fewer than MAX_THREAD_NUM live threads some id from 1 on is unused, so the scan's fallback is not reached. */
  lemma NewIdIsFresh(s: State)
    requires ThreadsPlaced(s) && |s.quantums| + 1 <= MAX_THREAD_NUM
    ensures 1 <= NewId(s) < MAX_THREAD_NUM && NewId(s) !in s.quantums
    ensures forall i :: 1 <= i < NewId(s) ==> i in s.quantums
  {
    if UnusedIds(s) == {} {
      var ids := Range(0, MAX_THREAD_NUM);
      RangeCardinality(0, MAX_THREAD_NUM);
      forall i | i in ids ensures i in s.quantums.Keys {
        assert i != 0 ==> i !in UnusedIds(s);
      }
      SubsetCardinality(ids, s.quantums.Keys);
    }
    forall i | 1 <= i < NewId(s) ensures i in s.quantums {
      assert i !in UnusedIds(s);
    }
  }

  // ---- stuck steps ----

  /** The running thread blocks itself, waits for a mutex that another thread holds, or ends without holding the mutex. */
  ghost predicate RunningThreadLeaves(s: State, e: Event) {
    || (e == BlockCall(s.running) && s.running != 0)
    || (e.LockCall? && s.locked && s.holder != s.running)
    || (e.TerminateCall? && e.tid == s.running && !Holds(s, s.running))
  }

  /** Exactly when a step takes the front of an empty queue: nobody is ready and the running thread leaves. */
  lemma StuckIff(s: State, e: Event)
    requires Coherent(s) && Legal(s, e)
    ensures Stuck(s, e) <==> s.ready == [] && RunningThreadLeaves(s, e)
  {
    match e {
      case TerminateCall(tid, pick) =>
        if tid in s.quantums && tid == s.running {
          WithoutMember(s.ready, tid);
          if Holds(s, tid) {
            MainPullsItThrough(s, tid, pick);
          }
        }
      case _ =>
    }
  }

  /** When the ending thread holds the mutex, somebody is ready afterwards: if nobody else, main is handed the mutex. */
  lemma MainPullsItThrough(s: State, tid: int, pick: int)
    requires Coherent(s) && tid != 0 && tid == s.running && Holds(s, tid)
    requires s.waiting != {} ==> LegalPick(s, pick)
    ensures Removed(s, tid, pick).ready != []
  {
    var h := HandOff(s, pick);
    if 0 in s.ready {
      assert 0 in h.ready;
    } else {
      assert 0 in s.waiting;
      assert pick !in s.blocked && pick in h.ready;
      assert pick != tid;
    }
    WithoutMember(h.ready, tid);
  }

  /** In a stuck step main waits for the mutex, and the thread that holds it is blocked. */
  lemma StuckMeansMainWaitsOnBlockedHolder(s: State, e: Event)
    requires Coherent(s) && Legal(s, e) && Stuck(s, e)
    ensures var m := AtSwitch(s, e);
            0 in m.waiting && m.locked && m.holder in m.blocked
  {
    StuckIff(s, e);
    var m := AtSwitch(s, e);
    if s.running != 0 {
      assert 0 in s.waiting;
    }
  }

  /** Ending a holder that main waits on is never stuck, whether it runs or not. */
  lemma EndingTheHolderIsNeverStuck(s: State, tid: int, pick: int)
    requires Coherent(s) && Legal(s, TerminateCall(tid, pick)) && Holds(s, tid) && 0 in s.waiting
    ensures !Stuck(s, TerminateCall(tid, pick))
  {
    StuckIff(s, TerminateCall(tid, pick));
  }

  /** In every reachable state, exactly when a call is stuck; and then main waits for a mutex whose holder is blocked. */
  lemma ReachableStuckIff(ss: seq<State>, es: seq<Event>, k: nat, e: Event)
    requires IsRun(ss, es) && ss[0] == Init() && k <= |es| && Legal(ss[k], e)
    ensures Stuck(ss[k], e) <==> ss[k].ready == [] && RunningThreadLeaves(ss[k], e)
    ensures Stuck(ss[k], e) ==>
              var m := AtSwitch(ss[k], e);
              0 in m.waiting && m.locked && m.holder in m.blocked
  {
    InitCoheres();
    RunCoheres(ss, es, k);
    hide Coherent, Stuck, Legal, RunningThreadLeaves;
    StuckIff(ss[k], e);
    if Stuck(ss[k], e) {
      StuckMeansMainWaitsOnBlockedHolder(ss[k], e);
    }
  }

  lemma ThreadOneLocks(s1: State, s2: State)
    requires s1 == State(map[0 := 1, 1 := 0], 0, [1], {}, {}, false, NO_THREAD, 1)
    requires s2 == State(map[0 := 1, 1 := 1], 1, [0], {}, {}, false, NO_THREAD, 2)
    ensures Next(Init(), SpawnCall, s1) && Next(s1, Tick, s2) && Next(s2, LockCall, s2.(locked := true, holder := 1))
  {
    FirstId();
  }

  lemma MainWaits(s3: State, s4: State, s5: State)
    requires s3 == State(map[0 := 1, 1 := 1], 1, [0], {}, {}, true, 1, 2)
    requires s4 == State(map[0 := 2, 1 := 1], 0, [1], {}, {}, true, 1, 3)
    requires s5 == State(map[0 := 2, 1 := 2], 1, [], {}, {0}, true, 1, 4)
    ensures Next(s3, Tick, s4) && Next(s4, LockCall, s5)
    ensures Legal(s5, BlockCall(1)) && Stuck(s5, BlockCall(1))
  {
  }

  /** A stuck state can be reached: main waits for the mutex of a thread that then blocks itself. */
  lemma ARunThatGetsStuck() returns (ss: seq<State>, es: seq<Event>, e: Event)
    ensures IsRun(ss, es) && ss[0] == Init() && Legal(ss[|es|], e) && Stuck(ss[|es|], e)
  {
    hide Next, Legal, Stuck, Init;
    var s1 := State(map[0 := 1, 1 := 0], 0, [1], {}, {}, false, NO_THREAD, 1);
    var s2 := State(map[0 := 1, 1 := 1], 1, [0], {}, {}, false, NO_THREAD, 2);
    var s3 := s2.(locked := true, holder := 1);
    var s4 := State(map[0 := 2, 1 := 1], 0, [1], {}, {}, true, 1, 3);
    var s5 := State(map[0 := 2, 1 := 2], 1, [], {}, {0}, true, 1, 4);
    ThreadOneLocks(s1, s2);
    MainWaits(s3, s4, s5);
    e := BlockCall(1);
    ss, es := [Init(), s1, s2, s3, s4, s5], [SpawnCall, Tick, LockCall, Tick, LockCall];
  }

  lemma FirstId()
    ensures NewId(Init()) == 1
  {
    assert 1 in UnusedIds(Init());
    LeastUnique(UnusedIds(Init()), 1);
  }

  // ---- ownership ----

  /**
   * The mutex changes hands in three ways only: a running thread takes it when it is free; its holder
   * releases it or ends, and it goes to a waiter, an unblocked one if there is one; or nobody waits and it becomes free.
   */
  lemma OwnershipStep(s: State, e: Event)
    requires Coherent(s) && CanStep(s, e)
    ensures var s' := Step(s, e);
            if HandsOff(s, e) then
              if s.waiting == {} then !s'.locked
              else s'.locked && s'.holder in s.waiting && s'.holder !in s'.waiting
                   && (s'.holder in s.blocked ==> forall w :: w in s.waiting ==> w in s.blocked)
            else if e.LockCall? && !s.locked then s'.locked && s'.holder == s.running
            else s'.locked == s.locked && s'.holder == s.holder
  {
  }

  lemma QuietKeepsHolder(s: State, e: Event, t: int)
    requires Coherent(s) && CanStep(s, e) && Holds(s, t)
    requires !(e.UnlockCall? && s.running == t) && !(e.TerminateCall? && e.tid == t)
    ensures Holds(Step(s, e), t)
  {
    OwnershipStep(s, e);
  }

  /** Mutual exclusion over runs: from taking the mutex until it unlocks or ends, the holder stays the holder. */
  lemma {:induction false} HolderKeepsMutex(ss: seq<State>, es: seq<Event>, i: nat, k: nat, t: int)
    requires IsRun(ss, es) && Coherent(ss[0]) && i <= k <= |es| && Holds(ss[i], t)
    requires forall j :: i <= j < k ==> !(es[j].UnlockCall? && ss[j].running == t)
                                        && !(es[j].TerminateCall? && es[j].tid == t)
    ensures Holds(ss[k], t)
  {
    hide Coherent, Step, CanStep;
    if i < k {
      HolderKeepsMutex(ss, es, i, k - 1, t);
      RunCoheres(ss, es, k - 1);
      assert Next(ss[k - 1], es[k - 1], ss[k]);
      QuietKeepsHolder(ss[k - 1], es[k - 1], t);
    }
  }

  /** A waiter leaves the waiting set only as the new holder, unless it is terminated. */
  lemma WaiterStep(s: State, e: Event, t: int)
    requires Coherent(s) && CanStep(s, e) && !(e.TerminateCall? && e.tid == t)
    requires t in s.waiting
    ensures t in Step(s, e).waiting || Holds(Step(s, e), t)
  {
  }

  /** So the lock call of a waiter returns to it with the mutex: when it next runs, it is the holder. */
  lemma {:induction false} LockReturnsWithMutex(ss: seq<State>, es: seq<Event>, i: nat, k: nat, t: int)
    requires IsRun(ss, es) && Coherent(ss[0]) && i <= k <= |es| && t in ss[i].waiting
    requires forall j :: i <= j < k ==> !(es[j].TerminateCall? && es[j].tid == t)
    requires forall j :: i <= j < k ==> ss[j].running != t
    ensures t in ss[k].waiting || Holds(ss[k], t)
    ensures ss[k].running == t ==> Holds(ss[k], t)
  {
    hide Step, CanStep;
    RunCoheres(ss, es, k);
    if i < k {
      LockReturnsWithMutex(ss, es, i, k - 1, t);
      RunCoheres(ss, es, k - 1);
      assert Next(ss[k - 1], es[k - 1], ss[k]);
      hide Coherent;
      if t in ss[k - 1].waiting {
        WaiterStep(ss[k - 1], es[k - 1], t);
      } else {
        QuietKeepsHolder(ss[k - 1], es[k - 1], t);
      }
    }
  }

  // ---- bounded waiting ----

  ghost predicate Stops(e: Event, t: int) {
    e == BlockCall(t) || (e.TerminateCall? && e.tid == t)
  }

  /** Before the front is taken no thread that is left alone has moved back. */
  lemma WaitingUntilSwitch(s: State, e: Event, p: nat) returns (p': nat)
    requires CanStep(s, e) && SwitchPoint(s, e).Some? && p < |s.ready| && !Stops(e, s.ready[p])
    ensures p' <= p && p' < |AtSwitch(s, e).ready| && AtSwitch(s, e).ready[p'] == s.ready[p]
  {
    p' := p;
    if e.TerminateCall? {
      var h := if Holds(s, e.tid) then HandOff(s, e.pick) else s;
      assert h.ready[p] == s.ready[p];
      p' := WithoutMovesUp(h.ready, e.tid, p);
    }
  }

  lemma WaitingThroughQuiet(s: State, e: Event, p: nat) returns (p': nat)
    requires p < |s.ready| && !Stops(e, s.ready[p])
    ensures p' <= p && p' < |Quiet(s, e).ready| && Quiet(s, e).ready[p'] == s.ready[p]
  {
    p' := p;
    if e.TerminateCall? && e.tid in s.quantums {
      var h := if Holds(s, e.tid) then HandOff(s, e.pick) else s;
      assert h.ready[p] == s.ready[p];
      p' := WithoutMovesUp(h.ready, e.tid, p);
    } else if e.BlockCall? && e.tid in s.quantums && e.tid != 0 {
      p' := WithoutMovesUp(s.ready, e.tid, p);
    }
  }

  /** Through any step a waiting thread is dispatched if it is first in a switch, and otherwise never moves back. */
  lemma WaitingStep(s: State, e: Event, p: nat)
    requires CanStep(s, e) && p < |s.ready| && !Stops(e, s.ready[p])
    ensures var s' := Step(s, e);
            || (s'.running == s.ready[p] && s'.total == s.total + 1)
            || exists p' :: 0 <= p' <= p && p' < |s'.ready| && s'.ready[p'] == s.ready[p]
                            && p' + s'.total <= p + s.total
  {
    if SwitchPoint(s, e).Some? {
      var p' := WaitingUntilSwitch(s, e, p);
      var m := AtSwitch(s, e);
      assert m.total == s.total;
      hide AtSwitch, SwitchPoint;
      if p' > 0 {
        assert m.ready[1..][p' - 1] == s.ready[p];
      }
    } else {
      var p' := WaitingThroughQuiet(s, e, p);
      QuietTotal(s, e);
    }
  }

  lemma QuietTotal(s: State, e: Event)
    ensures Quiet(s, e).total == s.total
  {
  }

  /**
   * Bounded waiting: a thread at position p when the count is T is dispatched by quantum T + p + 1,
   * unless it is itself blocked or terminated.
   */
  lemma {:induction false} BoundedWaiting(ss: seq<State>, es: seq<Event>, i: nat, p: nat)
    requires IsRun(ss, es) && i <= |es| && p < |ss[i].ready|
    requires forall k :: i <= k < |es| ==> !Stops(es[k], ss[i].ready[p])
    requires ss[|es|].total >= ss[i].total + p + 1
    ensures exists j :: i < j <= |es| && ss[j].running == ss[i].ready[p] && ss[j].total <= ss[i].total + p + 1
    decreases |es| - i
  {
    hide Step, CanStep;
    var s, t := ss[i], ss[i].ready[p];
    assert Next(s, es[i], ss[i + 1]);
    WaitingStep(s, es[i], p);
    if ss[i + 1].running == t && ss[i + 1].total == s.total + 1 {
    } else {
      var p' :| 0 <= p' < |ss[i + 1].ready| && ss[i + 1].ready[p'] == t && p' + ss[i + 1].total <= p + s.total;
      BoundedWaiting(ss, es, i + 1, p');
    }
  }

  lemma QueueIsShort(s: State)
    requires Coherent(s)
    ensures |s.ready| <= MAX_THREAD_NUM - 1
  {
    ElementsCardinality(s.ready);
    var others := Range(0, MAX_THREAD_NUM) - {s.running};
    RangeCardinality(0, MAX_THREAD_NUM);
    SubsetCardinality(Elements(s.ready), others);
  }

  /** So every ready thread that is left alone runs within MAX_THREAD_NUM - 1 switches. */
  lemma ReadyThreadRunsSoon(ss: seq<State>, es: seq<Event>, i: nat, t: int)
    requires IsRun(ss, es) && Coherent(ss[0]) && i <= |es| && t in ss[i].ready
    requires forall k :: i <= k < |es| ==> !Stops(es[k], t)
    requires ss[|es|].total >= ss[i].total + MAX_THREAD_NUM - 1
    ensures exists j :: i < j <= |es| && ss[j].running == t && ss[j].total <= ss[i].total + MAX_THREAD_NUM - 1
  {
    RunCoheres(ss, es, i);
    QueueIsShort(ss[i]);
    hide Coherent;
    var p :| 0 <= p < |ss[i].ready| && ss[i].ready[p] == t;
    BoundedWaiting(ss, es, i, p);
  }

  // ---- threads with two reasons to wait ----

  ghost function Reasons(s: State, t: int): int {
    (if t in s.blocked then 1 else 0) + if t in s.waiting then 1 else 0
  }

  /**
   * A step clears at most one reason of a waiting thread, and the thread enters the ready queue, once,
   * exactly in the step that clears its last one (from which it may be dispatched at once).
   */
  lemma LastReasonMakesReady(s: State, e: Event, t: int)
    requires Coherent(s) && CanStep(s, e) && !(e.TerminateCall? && e.tid == t) && Reasons(s, t) > 0
    ensures var s' := Step(s, e);
            && Reasons(s', t) >= Reasons(s, t) - 1
            && (t in s'.blocked <==> (t in s.blocked && e != ResumeCall(t)) || (e == BlockCall(t) && t != 0))
            && (Reasons(s', t) == 0 <==> t in s'.ready || s'.running == t)
            && multiset(s'.ready)[t] == if Reasons(s', t) == 0 && s'.running != t then 1 else 0
  {
    var s' := Step(s, e);
    StepCoheres(s, e);
    assert t in s.quantums && t != s.running && t !in s.ready;
    assert t in s'.quantums;
    OccursOnce(s'.ready, t);
  }

  // ---- conservation of quantums ----

  function Count(n: int): int {
    n
  }

  ghost function LiveQuantums(s: State): int {
    Sum(s.quantums, Count)
  }

  ghost function Victim(e: Event): Option<int> {
    if e.TerminateCall? then Some(e.tid) else None
  }

  ghost function RetiredBy(s: State, e: Event): int {
    VictimWeight(s.quantums, Count, Victim(e))
  }

  lemma DispatchAddsOne(s: State)
    requires CanDispatch(s)
    ensures LiveQuantums(Dispatch(s)) == LiveQuantums(s) + 1 && Dispatch(s).total == s.total + 1
  {
    var t := s.ready[0];
    assert s.quantums - {t} == Dispatch(s).quantums - {t};
    SumGrowsAt(s.quantums, Dispatch(s).quantums, Count, t);
  }

  lemma QuietConserves(s: State, e: Event)
    requires Coherent(s)
    ensures LiveQuantums(Quiet(s, e)) == Sum(WithoutVictim(s.quantums, Victim(e)), Count)
    ensures Quiet(s, e).total == s.total
  {
    if e.SpawnCall? && |s.quantums| + 1 <= MAX_THREAD_NUM {
      NewIdIsFresh(s);
      var id := NewId(s);
      assert s.quantums - {id} == Quiet(s, e).quantums - {id};
      SumDiffersAt(s.quantums, Quiet(s, e).quantums, Count, id);
    } else {
      assert Quiet(s, e).quantums == WithoutVictim(s.quantums, Victim(e));
    }
  }

  /** Every quantum that starts is charged to the thread it starts; an ended thread takes away just its own. */
  lemma StepConserves(s: State, e: Event)
    requires Coherent(s) && CanStep(s, e)
    ensures LiveQuantums(Step(s, e)) + RetiredBy(s, e) == LiveQuantums(s) + Step(s, e).total - s.total
    ensures Step(s, e).total == s.total + if SwitchPoint(s, e).Some? then 1 else 0
  {
    VictimTakesItsWeight(s.quantums, Count, Victim(e));
    QuietConserves(s, e);
    hide Coherent, Quiet;
    if SwitchPoint(s, e).Some? {
      assert AtSwitch(s, e).quantums == WithoutVictim(s.quantums, Victim(e));
      hide AtSwitch;
      DispatchAddsOne(AtSwitch(s, e));
    }
  }

  ghost function RetiredQuantums(ss: seq<State>, es: seq<Event>, k: nat): int
    requires |ss| == |es| + 1 && k <= |es|
  {
    if k == 0 then 0 else RetiredQuantums(ss, es, k - 1) + RetiredBy(ss[k - 1], es[k - 1])
  }

  lemma InitQuantums()
    ensures LiveQuantums(Init()) == Init().total
  {
    assert Init().quantums - {0} == map[];
    SumRemove(Init().quantums, Count, 0);
  }

  lemma {:induction false} QuantumsConserved(ss: seq<State>, es: seq<Event>, k: nat)
    requires IsRun(ss, es) && ss[0] == Init() && k <= |es|
    ensures ss[k].total == LiveQuantums(ss[k]) + RetiredQuantums(ss, es, k)
  {
    InitCoheres();
    InitQuantums();
    hide Coherent, Step, CanStep, Init, LiveQuantums, RetiredBy;
    if k > 0 {
      QuantumsConserved(ss, es, k - 1);
      RunCoheres(ss, es, k - 1);
      assert Next(ss[k - 1], es[k - 1], ss[k]);
      StepConserves(ss[k - 1], es[k - 1]);
    }
  }
}
