// uthreads.cpp: what holds over whole runs. Bounded waiting, exact sleep windows, conservation of
// quantums, and a run on which terminating a sleeper brings the library down.
module SchedulerRuns {
  import opened Common
  import opened SchedulerModel
  import opened SchedulerCoherence

  // ---- the ready queue across one switch ----

  /**
   * The queue is served from the front; the threads that wake enter in ascending tid order
   * (Waking is Ascending of a set), behind those already waiting and ahead of a preempted thread.
   */
  lemma SwitchQueue(s: State, to: Status)
    requires CanSwitch(s, to)
    ensures var q := s.ready + Waking(s) + if to == Ready then [s.running] else [];
            var s' := Switch(s, to);
            && s'.total == s.total + 1
            && (q != [] ==> s'.running == q[0] && s'.ready == q[1..] && s'.Is(q[0], Running))
            && (q == [] ==> s'.running == 0 && s'.ready == [])
  {
  }

  ghost predicate Stops(e: Event, t: int) {
    e == BlockCall(t) || e == TerminateCall(t)
  }

  ghost predicate Switches(s: State, e: Event) {
    || e == Tick
    || (e.TerminateCall? && s.Is(e.tid, Running))
    || (e.BlockCall? && e.tid != 0 && s.Is(e.tid, Running))
    || (e.SleepCall? && e.quantums >= 0 && s.running != 0)
  }

  /** A step starts at most one quantum, and starts one exactly when it switches threads. */
  lemma StepTotal(s: State, e: Event)
    requires CanStep(s, e)
    ensures Step(s, e).total == if Switches(s, e) then s.total + 1 else s.total
  {
  }

  lemma SwitchTakesFront(s: State, to: Status)
    requires CanSwitch(s, to) && s.ready != []
    ensures Switch(s, to).running == s.ready[0] && s.ready[1..] <= Switch(s, to).ready
  {
    SwitchQueue(s, to);
    var tail := Waking(s) + if to == Ready then [s.running] else [];
    assert (s.ready + tail)[1..] == s.ready[1..] + tail;
  }

  /** The state whose queue a switching step serves, and where its running thread goes. */
  ghost function SwitchedFrom(s: State, e: Event): (State, Status)
    requires CanStep(s, e) && Switches(s, e)
    ensures CanSwitch(SwitchedFrom(s, e).0, SwitchedFrom(s, e).1)
    ensures Step(s, e) == Switch(SwitchedFrom(s, e).0, SwitchedFrom(s, e).1)
    ensures SwitchedFrom(s, e).0.ready == s.ready
  {
    match e
    case Tick => (s, Ready)
    case TerminateCall(tid) => (Erase(s, tid), Terminated)
    case BlockCall(_) => (s, Blocked)
    case SleepCall(n) => (FallAsleep(s, n), Asleep)
  }

  /** A step that does not switch appends to the queue, or takes its own target out of it. */
  lemma QuietStepQueue(s: State, e: Event)
    requires CanStep(s, e) && !Switches(s, e)
    ensures s.ready <= Step(s, e).ready || ((e.BlockCall? || e.TerminateCall?) && Step(s, e).ready == Without(s.ready, e.tid))
  {
  }

  /** Through any step a waiting thread is dispatched if it is first in a switch, and otherwise never moves back. */
  lemma WaitingStep(s: State, e: Event, p: nat)
    requires CanStep(s, e) && p < |s.ready| && !Stops(e, s.ready[p])
    ensures var s' := Step(s, e);
            || (p == 0 && s'.running == s.ready[p] && s'.total == s.total + 1)
            || exists p' :: 0 <= p' <= p && p' < |s'.ready| && s'.ready[p'] == s.ready[p]
                            && p' + s'.total <= p + s.total
  {
    var t, s' := s.ready[p], Step(s, e);
    StepTotal(s, e);
    if Switches(s, e) {
      SwitchTakesFront(SwitchedFrom(s, e).0, SwitchedFrom(s, e).1);
      if p > 0 {
        assert s.ready[1..][p - 1] == t;
        assert s'.ready[p - 1] == t;
      }
      return;
    }
    QuietStepQueue(s, e);
    if s.ready <= s'.ready {
      assert s'.ready[p] == t;
    } else {
      var p' := WithoutMovesUp(s.ready, e.tid, p);
    }
  }

  /**
   * Bounded waiting: a thread at position p when the count is T is dispatched by quantum T + p + 1,
   * unless it is itself blocked or terminated. This needs no agreement of the structures.
   */
  lemma {:induction false} BoundedWaiting(ss: seq<State>, es: seq<Event>, i: nat, p: nat)
    requires IsRun(ss, es) && i <= |es| && p < |ss[i].ready|
    requires forall k :: i <= k < |es| ==> !Stops(es[k], ss[i].ready[p])
    requires ss[|es|].total >= ss[i].total + p + 1
    ensures exists j :: i < j <= |es| && ss[j].running == ss[i].ready[p] && ss[j].total <= ss[i].total + p + 1
    decreases |es| - i
  {
    var s, t := ss[i], ss[i].ready[p];
    assert Next(s, es[i], ss[i + 1]);
    WaitingStep(s, es[i], p);
    if ss[i + 1].running == t && ss[i + 1].total == s.total + 1 {
    } else {
      var p' :| 0 <= p' < |ss[i + 1].ready| && ss[i + 1].ready[p'] == t && p' + ss[i + 1].total <= p + s.total;
      BoundedWaiting(ss, es, i + 1, p');
    }
  }

  lemma QueueIsShort(s: State)
    requires Coherent(s)
    ensures |s.ready| <= MAX_THREAD_NUM - 1
  {
    ElementsCardinality(s.ready);
    var others := Range(0, MAX_THREAD_NUM) - {s.running};
    RangeCardinality(0, MAX_THREAD_NUM);
    forall t | t in Elements(s.ready) ensures t in others {
      assert s.Is(t, Ready);
    }
    SubsetCardinality(Elements(s.ready), others);
  }

  /** So every ready thread that is left alone runs within MAX_THREAD_NUM - 1 switches. */
  lemma ReadyThreadRunsSoon(ss: seq<State>, es: seq<Event>, i: nat, t: int)
    requires IsRun(ss, es) && NoSleeperKilled(ss, es) && Coherent(ss[0])
    requires i <= |es| && t in ss[i].ready
    requires forall k :: i <= k < |es| ==> !Stops(es[k], t)
    requires ss[|es|].total >= ss[i].total + MAX_THREAD_NUM - 1
    ensures exists j :: i < j <= |es| && ss[j].running == t && ss[j].total <= ss[i].total + MAX_THREAD_NUM - 1
  {
    RunCoheres(ss, es, i);
    QueueIsShort(ss[i]);
    var p :| 0 <= p < |ss[i].ready| && ss[i].ready[p] == t;
    BoundedWaiting(ss, es, i, p);
  }

  // ---- sleeping ----

  lemma DispatchEffect(s: State)
    requires NextTid(s) in s.threads
    ensures var d := Dispatch(s);
            d.sleepers == s.sleepers && d.blocked == s.blocked && d.threads.Keys == s.threads.Keys && d.freeIds == s.freeIds
  {
  }

  lemma SwitchEffect(s: State, to: Status)
    requires CanSwitch(s, to)
    ensures Switch(s, to).sleepers == UpdateSleepers(s).sleepers
    ensures Switch(s, to).blocked == s.blocked + (if to == Blocked then {s.running} else {})
    ensures Switch(s, to).threads.Keys == s.threads.Keys && Switch(s, to).freeIds == s.freeIds
  {
    var u := UpdateSleepers(s);
    assert u.threads.Keys == s.threads.Keys && u.blocked == s.blocked && u.freeIds == s.freeIds;
    hide UpdateSleepers, Dispatch;
    var p := PutAway(u, to);
    assert p.threads.Keys == u.threads.Keys && p.sleepers == u.sleepers && p.freeIds == u.freeIds;
    DispatchEffect(p);
  }

  /** One switch counts every sleeper down, and ends the sleeps whose count was 0. */
  lemma SwitchCountsDown(s: State, to: Status, t: int)
    requires Agree(s) && s.Is(t, Asleep) && CanSwitch(s, to) && Coherent(Switch(s, to))
    requires t != s.running || (to != Ready && to != Blocked)
    ensures var s' := Switch(s, to);
            if s.sleepers[t] == 0 then
              t !in s'.sleepers && (if t in s.blocked then s'.Is(t, Blocked) else t in s'.ready || s'.running == t)
            else
              t in s'.sleepers && s'.sleepers[t] == s.sleepers[t] - 1
  {
    SwitchEffect(s, to);
    assert t in s.sleepers;
    if s.sleepers[t] == 0 {
      assert t in Expiring(s);
      RunnableIffNotWaiting(Switch(s, to), t);
    }
  }

  /** A sleeping thread stays asleep with its wake-up quantum fixed, until the switch at which it is due. */
  lemma AsleepStep(s: State, e: Event, t: int)
    requires Coherent(s) && s.Is(t, Asleep) && CanStep(s, e) && !KillsSleeper(s, e)
    ensures var s' := Step(s, e);
            if Switches(s, e) && s.sleepers[t] == 0 then
              && t !in s'.sleepers
              && (if t in s.blocked then s'.Is(t, Blocked) else t in s'.ready || s'.running == t)
            else
              t in s'.sleepers && s'.sleepers[t] + s'.total == s.sleepers[t] + s.total
  {
    assert t in s.sleepers && t != s.running && t !in s.ready;
    StepTotal(s, e);
    if Switches(s, e) {
      var f, to := SwitchedFrom(s, e).0, SwitchedFrom(s, e).1;
      SwitchedFromAgrees(s, e);
      StepCoheres(s, e);
      SwitchCountsDown(f, to, t);
    }
  }

  lemma SwitchedFromAgrees(s: State, e: Event)
    requires Coherent(s) && CanStep(s, e) && Switches(s, e)
    ensures var f := SwitchedFrom(s, e).0;
            && Agree(f) && f.running == s.running && f.blocked == s.blocked
            && (forall t :: s.Is(t, Asleep) ==> f.Is(t, Asleep) && t in s.sleepers && f.sleepers[t] == s.sleepers[t])
  {
    hide Step, Switch;
    if e.SleepCall? {
      FallAsleepParks(s, e.quantums);
    } else if e.TerminateCall? {
      EraseRunningParks(s, e.tid);
    }
  }

  /** The call itself: due after n further quantums, the one that follows not counted. */
  lemma SleepStep(s: State, n: nat)
    requires Coherent(s) && s.running != 0
    ensures CanStep(s, SleepCall(n))
    ensures var s' := Step(s, SleepCall(n));
            && s'.total == s.total + 1
            && (if n == 0 then s.running !in s'.sleepers && (s.running in s'.ready || s'.running == s.running)
                else s.running in s'.sleepers && s'.sleepers[s.running] + s'.total == s.total + n)
  {
    SleepCoheres(s, n);
    assert s.running !in s.sleepers && s.running !in s.blocked;
    SwitchedFromAgrees(s, SleepCall(n));
    StepCoheres(s, SleepCall(n));
    SwitchCountsDown(FallAsleep(s, n), Asleep, s.running);
  }

  lemma RunningThreadWaitsForNothing(s: State)
    requires Coherent(s)
    ensures s.running in s.threads && s.running !in s.blocked && !s.Is(s.running, Asleep)
  {
  }

  lemma AsleepIffSleeper(s: State, t: int)
    requires Coherent(s)
    ensures s.Is(t, Asleep) <==> t in s.sleepers
    ensures s.Is(t, Blocked) ==> t !in s.ready
  {
  }

  /**
   * Exact sleep window: after sleep(n) at quantum T the thread is asleep through quantum T + n, with
   * countdown plus count constant, and the switch to quantum T + n + 1 ends the sleep: into the ready
   * queue (or straight onto the processor), unless it was blocked meanwhile.
   */
  lemma {:induction false} SleepWindow(ss: seq<State>, es: seq<Event>, i: nat, n: nat, k: nat)
    requires IsRun(ss, es) && NoSleeperKilled(ss, es) && Coherent(ss[0])
    requires i < k <= |es| && es[i] == SleepCall(n) && ss[i].running != 0
    ensures var t, due := ss[i].running, ss[i].total + n;
            && ss[k].total > ss[i].total
            && (ss[k].total <= due ==> ss[k].Is(t, Asleep) && t in ss[k].sleepers && ss[k].sleepers[t] + ss[k].total == due)
            && (ss[k].total == due + 1 && ss[k - 1].total == due ==>
                  && !ss[k].Is(t, Asleep)
                  && (if t in ss[k - 1].blocked then ss[k].Is(t, Blocked) && t !in ss[k].ready
                      else t in ss[k].ready || ss[k].running == t))
  {
    hide Step, Coherent, Switches;
    var t, s, e := ss[i].running, ss[k - 1], es[k - 1];
    RunCoheres(ss, es, k - 1);
    RunCoheres(ss, es, k);
    AsleepIffSleeper(ss[k], t);
    assert Next(s, e, ss[k]) && !KillsSleeper(s, e);
    if k - 1 == i {
      SleepStep(s, n);
      RunningThreadWaitsForNothing(s);
    } else {
      SleepWindow(ss, es, i, n, k - 1);
      StepTotal(s, e);
      if s.total <= ss[i].total + n {
        AsleepStep(s, e, t);
      }
    }
  }

  /** A count that grows past a value reaches that value in some step. */
  lemma {:induction false} CountPasses(ss: seq<State>, es: seq<Event>, i: nat, due: int) returns (k: nat)
    requires IsRun(ss, es) && i <= |es| && ss[i].total <= due < ss[|es|].total
    ensures i < k <= |es| && ss[k - 1].total == due && ss[k].total == due + 1
    decreases |es| - i
  {
    hide Step, CanStep, Switches;
    assert Next(ss[i], es[i], ss[i + 1]);
    StepTotal(ss[i], es[i]);
    if ss[i + 1].total == due + 1 {
      k := i + 1;
    } else {
      k := CountPasses(ss, es, i + 1, due);
    }
  }

  lemma {:induction false} NotBlockedUnlessStopped(ss: seq<State>, es: seq<Event>, i: nat, t: int, k: nat)
    requires IsRun(ss, es) && NoSleeperKilled(ss, es) && Coherent(ss[0])
    requires i <= k <= |es| && t in ss[i].threads && t !in ss[i].blocked
    requires forall j :: i <= j < |es| ==> !Stops(es[j], t)
    ensures t in ss[k].threads && t !in ss[k].blocked
  {
    hide Step, Coherent;
    if i < k {
      NotBlockedUnlessStopped(ss, es, i, t, k - 1);
      RunCoheres(ss, es, k - 1);
      assert Next(ss[k - 1], es[k - 1], ss[k]);
      NotBlockedStep(ss[k - 1], es[k - 1], t);
    }
  }

  lemma NotBlockedStep(s: State, e: Event, t: int)
    requires Coherent(s) && CanStep(s, e) && !Stops(e, t) && t in s.threads && t !in s.blocked
    ensures t in Step(s, e).threads && t !in Step(s, e).blocked
  {
    if Switches(s, e) {
      var f, to := SwitchedFrom(s, e).0, SwitchedFrom(s, e).1;
      assert t in f.threads && t !in f.blocked && f.running == s.running;
      assert to == Blocked ==> s.running != t;
      hide Step, Switches, Switch, Coherent;
      SwitchEffect(f, to);
    }
  }

  /** A sleeper that nobody blocks or terminates does not run before its time, and runs within MAX_THREAD_NUM quantums of it. */
  lemma SleeperRunsSoon(ss: seq<State>, es: seq<Event>, i: nat, n: nat)
    requires IsRun(ss, es) && NoSleeperKilled(ss, es) && Coherent(ss[0])
    requires i < |es| && es[i] == SleepCall(n) && ss[i].running != 0
    requires forall j :: i <= j < |es| ==> !Stops(es[j], ss[i].running)
    requires ss[|es|].total >= ss[i].total + n + MAX_THREAD_NUM
    ensures exists j :: i < j <= |es| && ss[j].running == ss[i].running
                        && ss[i].total + n < ss[j].total <= ss[i].total + n + MAX_THREAD_NUM
    ensures forall j :: i < j <= |es| && ss[j].running == ss[i].running ==> ss[j].total > ss[i].total + n
  {
    hide Step, Coherent;
    var t, due := ss[i].running, ss[i].total + n;
    RunCoheres(ss, es, i);
    RunningThreadWaitsForNothing(ss[i]);
    var k := CountPasses(ss, es, i, due);
    NotBlockedUnlessStopped(ss, es, i, t, k - 1);
    SleepWindow(ss, es, i, n, k);
    if ss[k].running != t {
      ReadyThreadRunsSoon(ss, es, k, t);
      var j :| k < j <= |es| && ss[j].running == t && ss[j].total <= ss[k].total + MAX_THREAD_NUM - 1;
      SleepWindow(ss, es, i, n, j);
      RunCoheres(ss, es, j);
      RunningThreadWaitsForNothing(ss[j]);
    }
    forall j | i < j <= |es| && ss[j].running == t ensures ss[j].total > due {
      SleepWindow(ss, es, i, n, j);
      RunCoheres(ss, es, j);
      RunningThreadWaitsForNothing(ss[j]);
    }
  }

  // ---- conservation of quantums ----

  function Quantums(thread: UThread): int {
    thread.quantums
  }

  ghost function LiveQuantums(s: State): int {
    Sum(s.threads, Quantums)
  }

  ghost function Victim(e: Event): Option<int> {
    if e.TerminateCall? then Some(e.tid) else None
  }

  /** The quantums that leave the table with a terminated thread. */
  ghost function RetiredBy(s: State, e: Event): int {
    VictimWeight(s.threads, Quantums, Victim(e))
  }

  ghost predicate SameQuantums(a: map<int, UThread>, b: map<int, UThread>) {
    a.Keys == b.Keys && forall t :: t in a ==> a[t].quantums == b[t].quantums
  }

  lemma {:induction false} SameQuantumsSum(a: map<int, UThread>, b: map<int, UThread>)
    requires SameQuantums(a, b)
    ensures Sum(a, Quantums) == Sum(b, Quantums)
    decreases a.Keys
  {
    if a.Keys != {} {
      var k := Least(a.Keys);
      assert (a - {k}).Keys == a.Keys - {k};
      SameQuantumsSum(a - {k}, b - {k});
    }
  }

  lemma DispatchAddsOne(s: State)
    requires NextTid(s) in s.threads
    ensures LiveQuantums(Dispatch(s)) == LiveQuantums(s) + 1
  {
    var t, d := NextTid(s), Dispatch(s);
    assert s.threads - {t} == d.threads - {t};
    SumGrowsAt(s.threads, d.threads, Quantums, t);
  }

  lemma SwitchAddsOne(s: State, to: Status)
    requires CanSwitch(s, to)
    ensures LiveQuantums(Switch(s, to)) == LiveQuantums(s) + 1
  {
    var p := PutAway(UpdateSleepers(s), to);
    assert SameQuantums(s.threads, p.threads);
    SameQuantumsSum(s.threads, p.threads);
    hide UpdateSleepers;
    DispatchAddsOne(p);
  }

  lemma QuietStepQuantums(s: State, e: Event)
    requires IdsPartitioned(s) && CanStep(s, e) && !Switches(s, e)
    ensures LiveQuantums(Step(s, e)) == Sum(WithoutVictim(s.threads, Victim(e)), Quantums)
  {
    var s' := Step(s, e);
    if e.SpawnCall? && Spawn(s, e.nullEntry).1 != FAILURE {
      var tid := Least(s.freeIds);
      assert s.threads - {tid} == s'.threads - {tid};
      SumDiffersAt(s.threads, s'.threads, Quantums, tid);
    } else {
      assert SameQuantums(s'.threads, WithoutVictim(s.threads, Victim(e)));
      SameQuantumsSum(s'.threads, WithoutVictim(s.threads, Victim(e)));
    }
  }

  /** Every quantum a step starts is charged to the thread it starts; termination takes away just the victim's. */
  lemma StepConserves(s: State, e: Event)
    requires IdsPartitioned(s) && CanStep(s, e)
    ensures LiveQuantums(Step(s, e)) + RetiredBy(s, e) == LiveQuantums(s) + Step(s, e).total - s.total
  {
    hide Switch, Dispatch, UpdateSleepers;
    StepTotal(s, e);
    VictimTakesItsWeight(s.threads, Quantums, Victim(e));
    if Switches(s, e) {
      var f, to := SwitchedFrom(s, e).0, SwitchedFrom(s, e).1;
      assert SameQuantums(f.threads, WithoutVictim(s.threads, Victim(e)));
      SameQuantumsSum(f.threads, WithoutVictim(s.threads, Victim(e)));
      SwitchAddsOne(f, to);
    } else {
      QuietStepQuantums(s, e);
    }
  }

  ghost function RetiredQuantums(ss: seq<State>, es: seq<Event>, k: nat): int
    requires |ss| == |es| + 1 && k <= |es|
  {
    if k == 0 then 0 else RetiredQuantums(ss, es, k - 1) + RetiredBy(ss[k - 1], es[k - 1])
  }

  /** Free and live ids stay a partition in every step, even one that terminates a sleeping thread. */
  lemma StepPartitions(s: State, e: Event)
    requires IdsPartitioned(s) && CanStep(s, e)
    ensures IdsPartitioned(Step(s, e))
  {
    hide Switch, CanSwitch;
    if Switches(s, e) {
      var f, to := SwitchedFrom(s, e).0, SwitchedFrom(s, e).1;
      assert IdsPartitioned(f);
      hide Step;
      SwitchEffect(f, to);
    }
  }

  lemma {:induction false} IdsStayPartitioned(ss: seq<State>, es: seq<Event>, k: nat)
    requires IsRun(ss, es) && IdsPartitioned(ss[0]) && k <= |es|
    ensures IdsPartitioned(ss[k])
  {
    hide Step, CanStep, IdsPartitioned;
    if k > 0 {
      IdsStayPartitioned(ss, es, k - 1);
      assert Next(ss[k - 1], es[k - 1], ss[k]);
      StepPartitions(ss[k - 1], es[k - 1]);
    }
  }

  lemma InitQuantums()
    ensures LiveQuantums(Init()) == Init().total && IdsPartitioned(Init())
  {
    InitCoheres();
    var threads := Init().threads;
    assert threads - {0} == map[];
    SumRemove(threads, Quantums, 0);
  }

  /** On every run, the total equals the quantums of the live threads plus those of the terminated ones. */
  lemma {:induction false} QuantumsConserved(ss: seq<State>, es: seq<Event>, k: nat)
    requires IsRun(ss, es) && ss[0] == Init() && k <= |es|
    ensures ss[k].total == LiveQuantums(ss[k]) + RetiredQuantums(ss, es, k)
  {
    hide Step, CanStep, IdsPartitioned, Init, LiveQuantums, RetiredBy;
    InitQuantums();
    if k > 0 {
      QuantumsConserved(ss, es, k - 1);
      IdsStayPartitioned(ss, es, k - 1);
      assert Next(ss[k - 1], es[k - 1], ss[k]);
      StepConserves(ss[k - 1], es[k - 1]);
    }
  }

  // ---- what terminating a sleeper leads to ----

  /** A countdown whose thread is gone. */
  ghost predicate Stale(s: State, t: int) {
    t !in s.threads && t in s.sleepers && s.sleepers[t] >= 0
  }

  lemma StaleStep(s: State, e: Event, t: int)
    requires Stale(s, t) && CanStep(s, e) && t !in Step(s, e).threads
    ensures var s' := Step(s, e);
            Stale(s', t) && s'.sleepers[t] + s'.total == s.sleepers[t] + s.total
  {
    StepTotal(s, e);
    if Switches(s, e) {
      var f, to := SwitchedFrom(s, e).0, SwitchedFrom(s, e).1;
      assert Stale(f, t) && f.sleepers[t] == s.sleepers[t] && f.total == s.total;
      SwitchEffect(f, to);
      assert t !in Expiring(f);
    }
  }

  /**
   * Terminating a sleeper leaves a stale countdown, and unless the tid is handed out again no run gets
   * past the quantum at which it was due: that switch would read a table entry that is not there.
   */
  lemma {:induction false} StaleCountdownEndsEveryRun(ss: seq<State>, es: seq<Event>, t: int, k: nat)
    requires IsRun(ss, es) && Stale(ss[0], t) && k <= |es|
    requires forall i :: 0 <= i <= |es| ==> t !in ss[i].threads
    ensures Stale(ss[k], t) && ss[k].total + ss[k].sleepers[t] == ss[0].total + ss[0].sleepers[t]
    ensures ss[k].total <= ss[0].total + ss[0].sleepers[t]
  {
    hide Step, CanStep;
    if k > 0 {
      StaleCountdownEndsEveryRun(ss, es, t, k - 1);
      assert Next(ss[k - 1], es[k - 1], ss[k]);
      StaleStep(ss[k - 1], es[k - 1], t);
    }
  }

  lemma KilledSleeperIsStale(s: State, t: int)
    requires Coherent(s) && s.Is(t, Asleep)
    ensures t != 0 && CanTerminate(s, t) && Stale(Terminate(s, t).0, t)
    ensures Terminate(s, t).1 == SUCCESS && Terminate(s, t).0.sleepers == s.sleepers
  {
    assert t in s.sleepers;
  }

  /** Whatever becomes of its tid, a countdown and the count add up to the same through every call, until the switch that ends it. */
  lemma CountdownStep(s: State, e: Event, t: int)
    requires CanStep(s, e) && t in s.sleepers && s.sleepers[t] >= 0
    ensures var s' := Step(s, e);
            if Switches(s, e) && s.sleepers[t] == 0 then t !in s'.sleepers
            else t in s'.sleepers && s'.sleepers[t] >= 0 && s'.sleepers[t] + s'.total == s.sleepers[t] + s.total
  {
    StepTotal(s, e);
    if Switches(s, e) {
      var f, to := SwitchedFrom(s, e).0, SwitchedFrom(s, e).1;
      assert t in f.sleepers && f.sleepers[t] == s.sleepers[t] && f.total == s.total;
      hide Step, Switches;
      SwitchEffect(f, to);
    }
  }

  /** So on every run a countdown expires in the first switch at which it is due. */
  lemma {:induction false} CountdownKept(ss: seq<State>, es: seq<Event>, t: int, i: nat, k: nat)
    requires IsRun(ss, es) && i <= k <= |es| && t in ss[i].sleepers && ss[i].sleepers[t] >= 0
    requires ss[k].total <= ss[i].total + ss[i].sleepers[t]
    ensures t in ss[k].sleepers && ss[k].sleepers[t] + ss[k].total == ss[i].sleepers[t] + ss[i].total
  {
    hide Step, CanStep, Switches;
    if i < k {
      assert Next(ss[k - 1], es[k - 1], ss[k]);
      StepTotal(ss[k - 1], es[k - 1]);
      CountdownKept(ss, es, t, i, k - 1);
      CountdownStep(ss[k - 1], es[k - 1], t);
    }
  }

  /** What the end of an old sleep does to a thread that is queued or running under its tid. */
  lemma OldSleepEnds(s: State, t: int, to: Status)
    requires CanSwitch(s, to) && t in Expiring(s)
    ensures t !in s.blocked && t in s.ready ==> !NoDuplicates(UpdateSleepers(s).ready)
    ensures t !in s.blocked && t == s.running && to == Ready ==> !NoDuplicates(PutAway(UpdateSleepers(s), to).ready)
    ensures t in s.blocked && t in s.ready ==> UpdateSleepers(s).Is(t, Blocked) && t in UpdateSleepers(s).ready
  {
    if t !in s.blocked {
      assert t in Waking(s);
      var q := s.ready + Waking(s);
      var j :| 0 <= j < |Waking(s)| && Waking(s)[j] == t;
      assert q[|s.ready| + j] == t;
      if t in s.ready {
        var i :| 0 <= i < |s.ready| && s.ready[i] == t;
        assert q[i] == t;
      }
      var longer := q + [s.running];
      assert longer[|s.ready| + j] == t && longer[|q|] == s.running;
      assert to == Ready ==> PutAway(UpdateSleepers(s), to).ready == longer;
    }
  }

  /**
   * On every run that starts by terminating a sleeper, the old sleep still ends when it was due. If the tid has
   * been handed out again by then, the new thread is queued a second time if it is queued or gives way to another,
   * and if the victim was blocked as well it stands in the queue as a blocked thread.
   */
  lemma ReusedTidIsQueuedTwice(ss: seq<State>, es: seq<Event>, t: int, k: nat, to: Status)
    requires IsRun(ss, es) && Coherent(ss[0]) && 1 <= k <= |es|
    requires ss[0].Is(t, Asleep) && es[0] == TerminateCall(t)
    requires t in ss[0].sleepers && ss[k].total == ss[0].total + ss[0].sleepers[t]
    requires CanSwitch(ss[k], to)
    ensures var s := ss[k];
            && t in Expiring(s)
            && (t !in s.blocked && t in s.ready ==> !NoDuplicates(UpdateSleepers(s).ready))
            && (t !in s.blocked && t == s.running && to == Ready ==> !NoDuplicates(PutAway(UpdateSleepers(s), to).ready))
            && (t in s.blocked && t in s.ready ==> UpdateSleepers(s).Is(t, Blocked) && t in UpdateSleepers(s).ready)
  {
    CountdownKept(ss, es, t, 0, k);
    hide CanSwitch, UpdateSleepers, PutAway;
    OldSleepEnds(ss[k], t, to);
  }

  /** The tid is handed out again at once if it is less than every free one; here the sleep was due in the next switch. */
  lemma TidComesBack(s: State, t: int)
    requires Coherent(s) && s.Is(t, Asleep) && s.sleepers[t] == 0 && t !in s.blocked
    requires forall f :: f in s.freeIds ==> t < f
    ensures t != 0 && CanTerminate(s, t)
    ensures var u, tid := Spawn(Terminate(s, t).0, false).0, Spawn(Terminate(s, t).0, false).1;
            tid == t && (CanSwitch(u, Ready) ==> !NoDuplicates(PutAway(UpdateSleepers(u), Ready).ready))
  {
    var e := Terminate(s, t).0;
    assert t in s.sleepers;
    assert t in e.freeIds;
    LeastUnique(e.freeIds, t);
    var u := Spawn(e, false).0;
    if CanSwitch(u, Ready) {
      assert t in Expiring(u) && t !in u.blocked && u.ready == e.ready + [t];
      OldSleepEnds(u, t, Ready);
      var p, q := UpdateSleepers(u).ready, PutAway(UpdateSleepers(u), Ready).ready;
      assert q[..|p|] == p;
      var i, j :| 0 <= i < j < |p| && p[i] == p[j];
      assert q[i] == q[j];
    }
  }

  /** In particular a victim that was blocked as well leaves its block behind: the new thread starts out queued and blocked. */
  lemma ReusedTidIsQueuedAndBlocked(s: State, t: int)
    requires Coherent(s) && s.Is(t, Asleep) && t in s.blocked && (forall f :: f in s.freeIds ==> t < f)
    ensures t != 0 && CanTerminate(s, t)
    ensures var u, tid := Spawn(Terminate(s, t).0, false).0, Spawn(Terminate(s, t).0, false).1;
            tid == t && t in u.blocked && t in u.ready && u.Is(t, Ready)
  {
    var e := Terminate(s, t).0;
    assert t in e.freeIds;
    LeastUnique(e.freeIds, t);
  }

  lemma FirstSpawn()
    ensures CanStep(Init(), SpawnCall(false))
    ensures Step(Init(), SpawnCall(false)) ==
            State(map[0 := UThread(Main, 1), 1 := UThread(Ready, 0)], map[], {}, [1], Range(2, MAX_THREAD_NUM), 1, 0)
  {
    LeastUnique(Init().freeIds, 1);
    assert Init().freeIds - {1} == Range(2, MAX_THREAD_NUM);
  }

  lemma TickToFirst(s: State)
    requires s.threads.Keys == {0, 1} && s.sleepers == map[] && s.ready == [1] && s.running == 0
    ensures CanStep(s, Tick)
    ensures var s' := Step(s, Tick);
            s'.threads.Keys == {0, 1} && s'.sleepers == map[] && s'.blocked == s.blocked && s'.ready == [0] && s'.running == 1
  {
    assert Expiring(s) == {};
    SwitchQueue(s, Ready);
    SwitchEffect(s, Ready);
  }

  lemma FirstSleeps(s: State)
    requires s.threads.Keys == {0, 1} && s.sleepers == map[] && s.ready == [0] && s.running == 1
    ensures CanStep(s, SleepCall(1))
    ensures Step(s, SleepCall(1)).sleepers == map[1 := 0] && Step(s, SleepCall(1)).Is(1, Asleep)
  {
    var f := FallAsleep(s, 1);
    assert f.sleepers == map[1 := 1] && Expiring(f) == {};
    SwitchEffect(f, Asleep);
  }

  lemma NextTickFails(s: State)
    requires s.Is(1, Asleep) && s.sleepers == map[1 := 0]
    ensures CanStep(s, TerminateCall(1)) && !CanStep(Step(s, TerminateCall(1)), Tick)
  {
    var s' := Step(s, TerminateCall(1));
    assert 1 in Expiring(s') && 1 !in s'.threads;
  }

  /** Such a run exists: spawn, let the thread sleep for one quantum, terminate it; the next tick fails. */
  lemma ARunThatCannotTick() returns (ss: seq<State>, es: seq<Event>)
    ensures IsRun(ss, es) && ss[0] == Init() && !CanStep(ss[|es|], Tick)
  {
    hide Step, CanStep, Init;
    FirstSpawn();
    var s1 := Step(Init(), SpawnCall(false));
    TickToFirst(s1);
    var s2 := Step(s1, Tick);
    FirstSleeps(s2);
    var s3 := Step(s2, SleepCall(1));
    NextTickFails(s3);
    var s4 := Step(s3, TerminateCall(1));
    ss, es := [Init(), s1, s2, s3, s4], [SpawnCall(false), Tick, SleepCall(1), TerminateCall(1)];
    assert Next(ss[0], es[0], ss[1]) && Next(ss[1], es[1], ss[2]) && Next(ss[2], es[2], ss[3]) && Next(ss[3], es[3], ss[4]);
  }
}
