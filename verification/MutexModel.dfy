// nim/uthreads.cpp: the state of the scheduler with a hand-off mutex, and what each call does to it.
//
// A thread can be blocked and waiting for the mutex at the same time, for independent reasons.
// switchThread takes the front of the ready queue without looking whether there is one: a step
// that would do so on an empty queue is stuck.
module MutexModel {
  import opened Common

  const MAX_THREAD_NUM := 100
  const SUCCESS := 0
  const FAIL := -1
  const NO_THREAD := -1

  /** Where switchThread puts the thread that leaves. */
  datatype MoveTo = ToReady | ToBlocked | ToMutexBlocked | Nowhere

  datatype State = State(
    quantums: map<int, int>,    // of every live thread
    running: int,
    ready: seq<int>,
    blocked: set<int>,
    waiting: set<int>,          // mutexBlocked
    locked: bool,
    holder: int,                // NO_THREAD while the mutex is free
    total: int)

  // ---- switching ----

  ghost function Move(s: State, to: MoveTo): State {
    match to
    case ToBlocked => s.(blocked := s.blocked + {s.running})
    case ToMutexBlocked => s.(waiting := s.waiting + {s.running})
    case ToReady => s.(ready := s.ready + [s.running])
    case Nowhere => s
  }

  ghost predicate CanDispatch(s: State) {
    s.ready != [] && s.ready[0] in s.quantums
  }

  ghost function Dispatch(s: State): State
    requires CanDispatch(s)
  {
    var next := s.ready[0];
    s.(running := next, ready := s.ready[1..], total := s.total + 1,
       quantums := s.quantums[next := s.quantums[next] + 1])
  }

  // ---- the mutex ----

  /** Any waiter may be picked, except that a blocked one is picked only if all are blocked. */
  ghost predicate LegalPick(s: State, pick: int) {
    pick in s.waiting && (pick in s.blocked ==> forall w :: w in s.waiting ==> w in s.blocked)
  }

  /** mutex_unblock_random_thread: ownership goes straight to a waiter, or the mutex becomes free. */
  ghost function HandOff(s: State, pick: int): State {
    if s.waiting == {} then
      s.(locked := false, holder := NO_THREAD)
    else
      s.(locked := true, holder := pick, waiting := s.waiting - {pick},
         ready := if pick in s.blocked then s.ready else s.ready + [pick])
  }

  // ---- the calls ----

  ghost function Init(): State {
    State(map[0 := 1], 0, [], {}, {}, false, NO_THREAD, 1)
  }

  ghost function UnusedIds(s: State): set<int> {
    Range(1, MAX_THREAD_NUM) - s.quantums.Keys
  }

  /** The least id from 1 on that no live thread has; the last id if there is none. */
  ghost function NewId(s: State): int {
    if UnusedIds(s) == {} then MAX_THREAD_NUM - 1 else Least(UnusedIds(s))
  }

  ghost function Spawn(s: State): (State, int) {
    if |s.quantums| + 1 > MAX_THREAD_NUM then (s, FAIL) else
      var id := NewId(s);
      (s.(quantums := s.quantums[id := 0], ready := s.ready + [id]), id)
  }

  ghost function FreeThread(s: State, id: int): State {
    s.(quantums := s.quantums - {id}, blocked := s.blocked - {id}, waiting := s.waiting - {id},
       ready := Without(s.ready, id))
  }

  ghost predicate Holds(s: State, tid: int) {
    s.locked && s.holder == tid
  }

  /** The victim gone from every structure, its mutex handed on. */
  ghost function Removed(s: State, tid: int, pick: int): State {
    FreeThread(if Holds(s, tid) then HandOff(s, pick) else s, tid)
  }

  // ---- steps ----

  /** pick is the waiter that the hand-off in this call, if any, comes upon. */
  datatype Event =
    | Tick
    | SpawnCall
    | TerminateCall(tid: int, pick: int)
    | BlockCall(tid: int)
    | ResumeCall(tid: int)
    | LockCall
    | UnlockCall(pick: int)

  ghost predicate HandsOff(s: State, e: Event) {
    || (e.TerminateCall? && e.tid in s.quantums && Holds(s, e.tid))
    || (e.UnlockCall? && Holds(s, s.running))
  }

  /** Terminating thread 0 ends the process; a hand-off comes upon a waiter it may pick. */
  ghost predicate Legal(s: State, e: Event) {
    && (e.TerminateCall? ==> e.tid != 0)
    && (HandsOff(s, e) && s.waiting != {} ==> LegalPick(s, e.pick))
  }

  /** The state in which a step calls switchThread, and where that puts the running thread; None if it does not. */
  ghost function SwitchPoint(s: State, e: Event): Option<(State, MoveTo)> {
    match e
    case Tick => Some((s, ToReady))
    case TerminateCall(tid, pick) =>
      if tid in s.quantums && tid == s.running then Some((Removed(s, tid, pick), Nowhere)) else None
    case BlockCall(tid) =>
      if tid in s.quantums && tid != 0 && tid !in s.ready && tid == s.running then Some((s, ToBlocked)) else None
    case LockCall => if s.locked && s.holder != s.running then Some((s, ToMutexBlocked)) else None
    case _ => None
  }

  /** The state in which the front of the ready queue is taken. */
  ghost function AtSwitch(s: State, e: Event): State
    requires SwitchPoint(s, e).Some?
  {
    Move(SwitchPoint(s, e).value.0, SwitchPoint(s, e).value.1)
  }

  /** The step takes the front of an empty queue. */
  ghost predicate Stuck(s: State, e: Event) {
    SwitchPoint(s, e).Some? && AtSwitch(s, e).ready == []
  }

  ghost predicate CanStep(s: State, e: Event) {
    Legal(s, e) && (SwitchPoint(s, e).Some? ==> CanDispatch(AtSwitch(s, e)))
  }

  /** What a call that does not switch threads does. */
  ghost function Quiet(s: State, e: Event): State {
    match e
    case Tick => s
    case SpawnCall => Spawn(s).0
    case TerminateCall(tid, pick) => if tid in s.quantums then Removed(s, tid, pick) else s
    case BlockCall(tid) =>
      if tid !in s.quantums || tid == 0 then s
      else s.(ready := Without(s.ready, tid), blocked := s.blocked + {tid})
    case ResumeCall(tid) =>
      if tid !in s.quantums || tid !in s.blocked then s
      else s.(blocked := s.blocked - {tid}, ready := if tid in s.waiting then s.ready else s.ready + [tid])
    case LockCall => if s.locked then s else s.(locked := true, holder := s.running)
    case UnlockCall(pick) => if Holds(s, s.running) then HandOff(s, pick) else s
  }

  ghost function Step(s: State, e: Event): State
    requires CanStep(s, e)
  {
    if SwitchPoint(s, e).Some? then Dispatch(AtSwitch(s, e)) else Quiet(s, e)
  }

  /** What the call returns. */
  ghost function Returned(s: State, e: Event): int {
    match e
    case Tick => SUCCESS
    case SpawnCall => Spawn(s).1
    case TerminateCall(tid, _) => if tid in s.quantums then SUCCESS else FAIL
    case BlockCall(tid) => if tid in s.quantums && tid != 0 then SUCCESS else FAIL
    case ResumeCall(tid) => if tid in s.quantums then SUCCESS else FAIL
    case LockCall => if Holds(s, s.running) then FAIL else SUCCESS
    case UnlockCall(_) => if Holds(s, s.running) then SUCCESS else FAIL
  }

  ghost predicate Next(s: State, e: Event, s': State) {
    CanStep(s, e) && s' == Step(s, e)
  }

  ghost predicate IsRun(ss: seq<State>, es: seq<Event>) {
    && |ss| == |es| + 1
    && (forall i :: 0 <= i < |es| ==> Next(ss[i], es[i], ss[i + 1]))
  }

  // ---- the invariant ----

  ghost predicate ThreadsPlaced(s: State) {
    && 0 in s.quantums && s.running in s.quantums
    && (forall t :: t in s.quantums ==> 0 <= t < MAX_THREAD_NUM)
    && (forall t :: t in s.ready ==> t in s.quantums)
    && (forall t :: t in s.blocked ==> t in s.quantums)
    && (forall t :: t in s.waiting ==> t in s.quantums)
    && 0 !in s.blocked
    && NoDuplicates(s.ready)
    // every live thread runs, is ready, or waits for at least one reason, and no two of these
    && s.running !in s.ready
    && (forall t :: t in s.quantums ==>
                      (t == s.running || t in s.ready <==> t !in s.blocked && t !in s.waiting))
  }

  /** Waiters exist only while the mutex is held; the holder is live and does not wait. */
  ghost predicate MutexSafe(s: State) {
    && (s.locked ==> s.holder in s.quantums && s.holder !in s.waiting)
    && (!s.locked ==> s.holder == NO_THREAD && s.waiting == {})
  }

  ghost predicate Coherent(s: State) {
    ThreadsPlaced(s) && MutexSafe(s)
  }
}
