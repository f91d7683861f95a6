// nim/uthreads.cpp: the globals and the calls that update them in place. The order in which the
// waiters are met is that of an unordered map, so it is left open here.
module MutexLibrary {
  import opened Common
  import opened MutexModel

  class Scheduler {
    var allThreads: map<int, int>       // id to quantums
    var running: int
    var ready: seq<int>
    var blocked: set<int>
    var mutexBlocked: set<int>
    var mutexIsBlocked: bool
    var mutexThread: int
    var totalQuantum: int
    var quantumTime: int

    ghost function View(): State
      reads this
    {
      State(allThreads, running, ready, blocked, mutexBlocked, mutexIsBlocked, mutexThread, totalQuantum)
    }

    /** The globals before uthread_init. */
    constructor ()
      ensures allThreads == map[] && ready == [] && blocked == {} && mutexBlocked == {} && totalQuantum == 0
    {
      allThreads, running, ready, blocked, mutexBlocked := map[], NO_THREAD, [], {}, {};
      mutexIsBlocked, mutexThread, totalQuantum, quantumTime := false, NO_THREAD, 0, 0;
    }

    method Init(quantumUsecs: int) returns (result: int)
      requires allThreads == map[] && ready == [] && blocked == {} && mutexBlocked == {} && totalQuantum == 0
      modifies this
      ensures quantumUsecs <= 0 ==> result == FAIL && View() == old(View())
      ensures quantumUsecs > 0 ==> result == SUCCESS && View() == MutexModel.Init() && quantumTime == quantumUsecs
      ensures result == SUCCESS ==> allThreads == map[0 := 1] && running == 0 && totalQuantum == 1 && !mutexIsBlocked
    {
      if quantumUsecs <= 0 {
        return FAIL;
      }
      mutexIsBlocked := false;
      mutexThread := NO_THREAD;
      allThreads := allThreads[0 := 1];
      running := 0;
      totalQuantum := totalQuantum + 1;
      quantumTime := quantumUsecs;
      return SUCCESS;
    }

    /** Scans for the least unused id; falls back to the last id. */
    method GetId() returns (id: int)
      ensures id == NewId(View())
    {
      for i := 1 to MAX_THREAD_NUM
        invariant forall k :: 1 <= k < i ==> k in allThreads
      {
        if i !in allThreads {
          assert i in UnusedIds(View());
          forall k | k in UnusedIds(View()) ensures i <= k {}
          LeastUnique(UnusedIds(View()), i);
          return i;
        }
      }
      assert forall k :: k !in UnusedIds(View());
      SetsEqual(UnusedIds(View()), {});
      return MAX_THREAD_NUM - 1;
    }

    /** Where the thread stands in the ready queue, or the length of the queue. */
    method FindInReady(id: int) returns (it: nat)
      ensures it == Find(ready, id)
    {
      for i := 0 to |ready|
        invariant forall k :: 0 <= k < i ==> ready[k] != id
      {
        if ready[i] == id {
          return i;
        }
      }
      return |ready|;
    }

    method EraseReady(id: int)
      modifies this`ready
      ensures ready == Without(old(ready), id)
    {
      var i := FindInReady(id);
      if i < |ready| {
        ready := ready[..i] + ready[i + 1..];
      }
    }

    /** freeThread: takes the thread out of every structure. */
    method Free(id: int)
      modifies this
      ensures View() == FreeThread(old(View()), id)
    {
      allThreads := allThreads - {id};
      if id in blocked {
        blocked := blocked - {id};
      }
      assert blocked == old(blocked) - {id};
      EraseReady(id);
      if id in mutexBlocked {
        mutexBlocked := mutexBlocked - {id};
      }
      assert mutexBlocked == old(mutexBlocked) - {id};
    }

    method SwitchThread(moveTo: MoveTo)
      requires CanDispatch(Move(View(), moveTo))
      modifies this
      ensures View() == Dispatch(Move(old(View()), moveTo))
    {
      match moveTo {
        case ToBlocked => blocked := blocked + {running};
        case ToMutexBlocked => mutexBlocked := mutexBlocked + {running};
        case ToReady => ready := ready + [running];
        case Nowhere =>
      }
      running := ready[0];
      ready := ready[1..];
      totalQuantum := totalQuantum + 1;
      allThreads := allThreads[running := allThreads[running] + 1];
    }

    /** Hands the mutex to the first waiter met that is not blocked, or to any waiter if all are. */
    method MutexUnblockRandomThread() returns (ghost pick: int)
      modifies this
      ensures old(mutexBlocked) != {} ==> LegalPick(old(View()), pick)
      ensures View() == HandOff(old(View()), pick)
    {
      ghost var s := View();
      pick := NO_THREAD;
      if mutexBlocked != {} {
        var toSet := NO_THREAD;
        var found := false;
        var unmet := mutexBlocked;
        while unmet != {} && !found
          invariant View() == s && unmet <= mutexBlocked
          invariant found ==> toSet in mutexBlocked && toSet !in blocked
          invariant !found ==> forall w :: w in mutexBlocked && w !in unmet ==> w in blocked
          decreases unmet, !found
        {
          var w := AnyOf(unmet);
          unmet := unmet - {w};
          if w !in blocked {
            toSet, found := w, true;
          }
        }
        if !found {
          toSet := AnyOf(mutexBlocked);
        }
        mutexIsBlocked := true;
        mutexThread := toSet;
        mutexBlocked := mutexBlocked - {toSet};
        if toSet !in blocked {
          ready := ready + [toSet];
        }
        pick := toSet;
      } else {
        mutexIsBlocked := false;
        mutexThread := NO_THREAD;
      }
    }

    method AlarmSigHandler()
      requires CanStep(View(), Tick)
      modifies this
      ensures View() == Step(old(View()), Tick)
    {
      SwitchThread(ToReady);
    }

    method Spawn() returns (result: int)
      modifies this
      ensures View() == Step(old(View()), SpawnCall) && result == Returned(old(View()), SpawnCall)
    {
      if |allThreads| + 1 > MAX_THREAD_NUM {
        return FAIL;
      }
      var id := GetId();
      allThreads := allThreads[id := 0];
      ready := ready + [id];
      return id;
    }

    /** The caller promises not to be stuck whichever waiter the hand-off comes upon. */
    method Terminate(tid: int) returns (result: int, ghost pick: int)
      requires tid != 0
      requires forall p :: Legal(View(), TerminateCall(tid, p)) ==> CanStep(View(), TerminateCall(tid, p))
      modifies this
      ensures CanStep(old(View()), TerminateCall(tid, pick))
      ensures View() == Step(old(View()), TerminateCall(tid, pick))
      ensures result == Returned(old(View()), TerminateCall(tid, pick))
    {
      ghost var s := View();
      pick := NO_THREAD;
      if tid !in allThreads {
        assert Legal(s, TerminateCall(tid, pick));
        return FAIL, pick;
      }
      if mutexIsBlocked && tid == mutexThread {
        pick := MutexUnblockRandomThread();
      }
      assert Legal(s, TerminateCall(tid, pick));
      Free(tid);
      assert View() == Removed(s, tid, pick);
      if tid == running {
        SwitchThread(Nowhere);
      }
      return SUCCESS, pick;
    }

    method Block(tid: int) returns (result: int)
      requires CanStep(View(), BlockCall(tid))
      modifies this
      ensures View() == Step(old(View()), BlockCall(tid)) && result == Returned(old(View()), BlockCall(tid))
    {
      if tid !in allThreads {
        return FAIL;
      }
      if tid == 0 {
        return FAIL;
      }
      if tid in ready {
        EraseReady(tid);
        blocked := blocked + {tid};
      } else if running == tid {
        SwitchThread(ToBlocked);
      } else {
        assert Without(ready, tid) == ready;
        blocked := blocked + {tid};
      }
      return SUCCESS;
    }

    method Resume(tid: int) returns (result: int)
      modifies this
      ensures View() == Step(old(View()), ResumeCall(tid)) && result == Returned(old(View()), ResumeCall(tid))
    {
      if tid !in allThreads {
        return FAIL;
      }
      if tid in blocked {
        if tid !in mutexBlocked {
          ready := ready + [tid];
        }
        blocked := blocked - {tid};
      }
      return SUCCESS;
    }

    method MutexLock() returns (result: int)
      requires CanStep(View(), LockCall)
      modifies this
      ensures View() == Step(old(View()), LockCall) && result == Returned(old(View()), LockCall)
    {
      if mutexIsBlocked {
        if mutexThread == running {
          return FAIL;
        }
        mutexBlocked := mutexBlocked + {running};
        SwitchThread(ToMutexBlocked);
      } else {
        mutexIsBlocked := true;
        mutexThread := running;
      }
      return SUCCESS;
    }

    method MutexUnlock() returns (result: int, ghost pick: int)
      modifies this
      ensures Legal(old(View()), UnlockCall(pick))
      ensures View() == Step(old(View()), UnlockCall(pick)) && result == Returned(old(View()), UnlockCall(pick))
    {
      pick := NO_THREAD;
      if !mutexIsBlocked {
        return FAIL, pick;
      }
      if running != mutexThread {
        return FAIL, pick;
      }
      pick := MutexUnblockRandomThread();
      return SUCCESS, pick;
    }
  }

  /** Some member of the set; which one is left open. */
  method AnyOf<T(==)>(s: set<T>) returns (x: T)
    requires s != {}
    ensures x in s
  {
    x :| x in s;
  }
}
