// uthreads.cpp: the library's globals and the calls that update them in place, each proved to do
// what SchedulerModel says of it.
module SchedulerLibrary {
  import opened Common
  import opened SchedulerModel
  import opened SchedulerCoherence

  class Scheduler {
    var allThreads: map<int, UThread>
    var sleepers: map<int, int>
    var blockedTids: set<int>
    var readyTids: seq<int>
    var freeIds: set<int>
    var totalQuantums: int
    var runningTid: int
    var quantum: int

    ghost function View(): State
      reads this
    {
      State(allThreads, sleepers, blockedTids, readyTids, freeIds, totalQuantums, runningTid)
    }

    /** The globals before uthread_init. */
    constructor ()
      ensures View() == State(map[], map[], {}, [], {}, 0, 0) && quantum == 0
    {
      allThreads, sleepers, blockedTids := map[], map[], {};
      readyTids, freeIds := [], {};
      totalQuantums, runningTid, quantum := 0, 0, 0;
    }

    /** uthread_init; the header allows it to be called once, before anything else. */
    method Init(quantumUsecs: int) returns (result: int)
      requires View() == State(map[], map[], {}, [], {}, 0, 0)
      modifies this
      ensures quantumUsecs <= 0 ==> result == FAILURE && View() == old(View()) && quantum == old(quantum)
      ensures quantumUsecs > 0 ==> result == SUCCESS && View() == SchedulerModel.Init() && quantum == quantumUsecs
      ensures result == SUCCESS ==> Coherent(View()) && totalQuantums == 1 && runningTid == 0 && freeIds == Range(1, 100)
    {
      if quantumUsecs <= 0 {
        return FAILURE;
      }
      allThreads := allThreads[0 := UThread(Main, 1)];
      totalQuantums := 1;
      for i := 1 to MAX_THREAD_NUM
        invariant View() == State(map[0 := UThread(Main, 1)], map[], {}, [], freeIds, 1, 0)
        invariant freeIds == Range(1, i)
      {
        freeIds := freeIds + {i};
      }
      quantum := quantumUsecs;
      InitCoheres();
      return SUCCESS;
    }

    /** Counts every sleeper down, in ascending tid order, and ends the sleeps that reach -1. */
    method UpdateSleepers()
      requires ExpiringLive(View())
      modifies this`allThreads, this`sleepers, this`readyTids
      ensures View() == SchedulerModel.UpdateSleepers(old(View()))
    {
      hide PartlyCounted, PartlyAwake, Expiring, Due, ExpiringLive, Ascending, Least;
      ghost var s := View();
      var pending := sleepers.Keys;
      ghost var done: set<int> := {};
      LoopStarts(s);
      while pending != {}
        invariant forall t :: t in s.sleepers <==> t in done || t in pending
        invariant forall d, p :: d in done && p in pending ==> d < p
        invariant PartlyCounted(s, sleepers, done)
        invariant PartlyAwake(s, allThreads, done)
        invariant readyTids == s.ready + Ascending(Due(s, done))
        decreases pending
      {
        var it := Least(pending);
        pending := pending - {it};
        DueStep(s, done, it);
        CountStep(s, sleepers, done, it);
        AwakeStep(s, allThreads, done, it);
        sleepers := sleepers[it := sleepers[it] - 1];
        if sleepers[it] == -1 {
          if it !in blockedTids {
            allThreads := allThreads[it := allThreads[it].(status := Ready)];
            readyTids := readyTids + [it];
          } else {
            allThreads := allThreads[it := allThreads[it].(status := Blocked)];
          }
          sleepers := sleepers - {it};
        }
        done := done + {it};
      }
      assert forall t :: t in s.sleepers ==> t in done;
      LoopIsDone(s, sleepers, allThreads, done);
    }

    method InsertReadyToRunning()
      requires NextTid(View()) in allThreads
      modifies this`allThreads, this`readyTids, this`runningTid
      ensures View() == SchedulerModel.InsertReadyToRunning(old(View()))
    {
      if readyTids == [] {
        runningTid := 0;
      } else {
        runningTid := readyTids[0];
        readyTids := readyTids[1..];
        allThreads := allThreads[runningTid := allThreads[runningTid].(status := Running)];
      }
    }

    method StartRunning(tid: int)
      requires tid in allThreads
      modifies this`allThreads
      ensures allThreads == old(allThreads)[tid := old(allThreads[tid]).(quantums := old(allThreads[tid]).quantums + 1)]
    {
      var thread := allThreads[tid];
      allThreads := allThreads[tid := thread.(quantums := thread.quantums + 1)];
    }

    method SwitchThreads(to: Status)
      requires CanSwitch(View(), to)
      modifies this`allThreads, this`sleepers, this`readyTids, this`blockedTids, this`runningTid, this`totalQuantums
      ensures View() == Switch(old(View()), to)
    {
      UpdateSleepers();
      match to {
        case Ready =>
          readyTids := readyTids + [runningTid];
          allThreads := allThreads[runningTid := allThreads[runningTid].(status := Ready)];
        case Blocked =>
          blockedTids := blockedTids + {runningTid};
          allThreads := allThreads[runningTid := allThreads[runningTid].(status := Blocked)];
        case _ =>
      }
      assert View() == PutAway(SchedulerModel.UpdateSleepers(old(View())), to);
      InsertReadyToRunning();
      totalQuantums := totalQuantums + 1;
      StartRunning(runningTid);
    }

    /** The alarm: one tick. */
    method TimerHandler()
      requires CanStep(View(), Tick)
      modifies this
      ensures View() == Step(old(View()), Tick)
    {
      SwitchThreads(Ready);
    }

    method Spawn(nullEntry: bool) returns (result: int)
      modifies this
      ensures (View(), result) == SchedulerModel.Spawn(old(View()), nullEntry)
    {
      if freeIds == {} {
        return FAILURE;
      }
      if nullEntry {
        return FAILURE;
      }
      var tid := Least(freeIds);
      freeIds := freeIds - {tid};
      allThreads := allThreads[tid := UThread(Ready, 0)];
      readyTids := readyTids + [tid];
      return tid;
    }

    /** A call with tid 0 ends the process and is not a step. */
    method Terminate(tid: int) returns (result: int)
      requires tid != 0 && CanTerminate(View(), tid)
      modifies this
      ensures (View(), result) == SchedulerModel.Terminate(old(View()), tid)
    {
      if tid !in allThreads {
        return FAILURE;
      }
      freeIds := freeIds + {tid};
      var status := allThreads[tid].status;
      allThreads := allThreads - {tid};
      match status {
        case Running =>
          SwitchThreads(Terminated);
        case Ready =>
          var i := Find(readyTids, tid);
          if i < |readyTids| {
            readyTids := readyTids[..i] + readyTids[i + 1..];
          }
        case Blocked =>
          blockedTids := blockedTids - {tid};
        case _ =>
      }
      return SUCCESS;
    }

    method Block(tid: int) returns (result: int)
      requires CanBlock(View(), tid)
      modifies this
      ensures (View(), result) == SchedulerModel.Block(old(View()), tid)
    {
      if tid == 0 {
        return FAILURE;
      }
      if tid !in allThreads {
        return FAILURE;
      }
      match allThreads[tid].status {
        case Running =>
          SwitchThreads(Blocked);
        case Ready =>
          var i := Find(readyTids, tid);
          if i < |readyTids| {
            readyTids := readyTids[..i] + readyTids[i + 1..];
          }
          blockedTids := blockedTids + {tid};
          allThreads := allThreads[tid := allThreads[tid].(status := Blocked)];
        case Asleep =>
          blockedTids := blockedTids + {tid};
        case _ =>
      }
      return SUCCESS;
    }

    method Resume(tid: int) returns (result: int)
      modifies this
      ensures (View(), result) == SchedulerModel.Resume(old(View()), tid)
    {
      if tid !in allThreads {
        return FAILURE;
      }
      if allThreads[tid].status == Blocked {
        blockedTids := blockedTids - {tid};
        readyTids := readyTids + [tid];
        allThreads := allThreads[tid := allThreads[tid].(status := Ready)];
      }
      if allThreads[tid].status == Asleep {
        blockedTids := blockedTids - {tid};
      }
      return SUCCESS;
    }

    method Sleep(numQuantums: int) returns (result: int)
      requires CanSleep(View(), numQuantums)
      modifies this
      ensures (View(), result) == SchedulerModel.Sleep(old(View()), numQuantums)
    {
      if runningTid == 0 {
        return FAILURE;
      }
      if numQuantums < 0 {
        return FAILURE;
      }
      allThreads := allThreads[runningTid := allThreads[runningTid].(status := Asleep)];
      if runningTid !in sleepers {
        sleepers := sleepers[runningTid := numQuantums];
      }
      SwitchThreads(Asleep);
      return SUCCESS;
    }
  }

  // ---- the loop over the sleepers, partway ----

  ghost predicate PartlyCounted(s: State, sleepers: map<int, int>, done: set<int>) {
    && (forall t :: t in sleepers <==> t in s.sleepers && !(t in done && s.sleepers[t] == 0))
    && (forall t :: t in sleepers ==> sleepers[t] == if t in done then s.sleepers[t] - 1 else s.sleepers[t])
  }

  ghost predicate PartlyAwake(s: State, threads: map<int, UThread>, done: set<int>) {
    && threads.Keys == s.threads.Keys
    && (forall t :: t in threads ==>
                      threads[t] == if t in Expiring(s) && t in done
                                    then s.threads[t].(status := if t in s.blocked then Blocked else Ready)
                                    else s.threads[t])
  }

  /** Those of `done` that go back to the ready queue. */
  ghost function Due(s: State, done: set<int>): set<int> {
    (Expiring(s) * done) - s.blocked
  }

  lemma LoopStarts(s: State)
    ensures PartlyCounted(s, s.sleepers, {}) && PartlyAwake(s, s.threads, {}) && Ascending(Due(s, {})) == []
  {
    assert Due(s, {}) == {};
  }

  /** The next sleeper in ascending order extends the queue exactly when it is due. */
  lemma DueStep(s: State, done: set<int>, it: int)
    requires it in s.sleepers && forall d :: d in done ==> d < it
    ensures it in Expiring(s) <==> s.sleepers[it] == 0
    ensures Ascending(Due(s, done + {it})) ==
            Ascending(Due(s, done)) + if it in Expiring(s) && it !in s.blocked then [it] else []
  {
    if it in Expiring(s) && it !in s.blocked {
      AscendingSnoc(Due(s, done), it);
      assert Due(s, done + {it}) == Due(s, done) + {it};
    } else {
      assert Due(s, done + {it}) == Due(s, done);
    }
  }

  lemma LoopIsDone(s: State, sleepers: map<int, int>, threads: map<int, UThread>, done: set<int>)
    requires ExpiringLive(s) && forall t :: t in s.sleepers ==> t in done
    requires PartlyCounted(s, sleepers, done) && PartlyAwake(s, threads, done)
    ensures sleepers == CountedDown(s.sleepers)
    ensures threads == Awakened(s.threads, Expiring(s), s.blocked)
    ensures Ascending(Due(s, done)) == Waking(s)
  {
    MapsEqual(sleepers, CountedDown(s.sleepers));
    SetsEqual(Due(s, done), Expiring(s) - s.blocked);
    MapsEqual(threads, Awakened(s.threads, Expiring(s), s.blocked));
  }

  lemma CountStep(s: State, sleepers: map<int, int>, done: set<int>, it: int)
    requires PartlyCounted(s, sleepers, done) && it in s.sleepers && it !in done
    ensures it in sleepers && sleepers[it] == s.sleepers[it]
    ensures var counted := sleepers[it := s.sleepers[it] - 1];
            PartlyCounted(s, if s.sleepers[it] == 0 then counted - {it} else counted, done + {it})
  {
  }

  lemma AwakeStep(s: State, threads: map<int, UThread>, done: set<int>, it: int)
    requires ExpiringLive(s) && PartlyAwake(s, threads, done) && it in s.sleepers && it !in done
    ensures if it in Expiring(s) then
              && it in threads
              && var woken := threads[it].(status := if it in s.blocked then Blocked else Ready);
                 PartlyAwake(s, threads[it := woken], done + {it})
            else
              PartlyAwake(s, threads, done + {it})
  {
  }
}
