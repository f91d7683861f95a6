// uthreads.cpp: the state of the preemptive round-robin scheduler and what each call does to it,
// as a function of that state.
//
// A call is one atomic step. Jumping to a thread is the change of `running` together with the
// quantum that starts. The functions keep what the code does even where it looks unintended:
// terminating a sleeping thread leaves its countdown behind, and a switch that finds no ready
// thread falls back to thread 0.
module SchedulerModel {
  import opened Common

  const MAX_THREAD_NUM := 100
  const SUCCESS := 0
  const FAILURE := -1

  datatype Status = Main | Ready | Running | Blocked | Asleep | Terminated

  datatype UThread = UThread(status: Status, quantums: int)

  datatype State = State(
    threads: map<int, UThread>,
    sleepers: map<int, int>,
    blocked: set<int>,
    ready: seq<int>,
    freeIds: set<int>,
    total: int,
    running: int)
  {
    ghost predicate Is(tid: int, status: Status) {
      tid in threads && threads[tid].status == status
    }

    ghost function SetStatus(tid: int, status: Status): State
      requires tid in threads
    {
      this.(threads := threads[tid := threads[tid].(status := status)])
    }
  }

  // ---- switching ----

  /** The sleepers whose countdown drops to -1 in the next switch. */
  ghost function Expiring(s: State): set<int> {
    set t | t in s.sleepers && s.sleepers[t] == 0
  }

  /** The threads that the next switch moves from the sleepers to the ready queue, in that order. */
  ghost function Waking(s: State): seq<int> {
    Ascending(Expiring(s) - s.blocked)
  }

  /** The switch reads the table entry of every thread whose sleep ends. */
  ghost predicate ExpiringLive(s: State) {
    forall t :: t in Expiring(s) ==> t in s.threads
  }

  /** The countdowns after one more quantum, those that expire left out. */
  ghost function CountedDown(sleepers: map<int, int>): (r: map<int, int>)
    ensures forall t :: t in r <==> t in sleepers && sleepers[t] != 0
    ensures forall t :: t in r ==> r[t] == sleepers[t] - 1
    decreases sleepers.Keys
  {
    if sleepers.Keys == {} then map[] else
      var t := Least(sleepers.Keys);
      assert (sleepers - {t}).Keys == sleepers.Keys - {t};
      var rest := CountedDown(sleepers - {t});
      if sleepers[t] == 0 then rest else rest[t := sleepers[t] - 1]
  }

  /** The thread table once the expired sleepers have left their sleep. */
  ghost function Awakened(threads: map<int, UThread>, expired: set<int>, blocked: set<int>): (r: map<int, UThread>)
    requires forall t :: t in expired ==> t in threads
    ensures r.Keys == threads.Keys
    ensures forall t :: t in threads ==>
                          r[t] == if t !in expired then threads[t]
                                  else threads[t].(status := if t in blocked then Blocked else Ready)
    decreases expired
  {
    if expired == {} then threads else
      var t := Least(expired);
      var rest := Awakened(threads, expired - {t}, blocked);
      rest[t := threads[t].(status := if t in blocked then Blocked else Ready)]
  }

  ghost function UpdateSleepers(s: State): State
    requires ExpiringLive(s)
  {
    s.(threads := Awakened(s.threads, Expiring(s), s.blocked),
       sleepers := CountedDown(s.sleepers),
       ready := s.ready + Waking(s))
  }

  /** The tid that runs next: the front of the queue, or thread 0 when the queue is empty. */
  ghost function NextTid(s: State): int {
    if s.ready == [] then 0 else s.ready[0]
  }

  ghost function InsertReadyToRunning(s: State): State
    requires NextTid(s) in s.threads
  {
    if s.ready == [] then
      s.(running := 0)
    else
      s.(running := s.ready[0], ready := s.ready[1..]).SetStatus(s.ready[0], Running)
  }

  /** Lets the next thread start its quantum. */
  ghost function Dispatch(s: State): State
    requires NextTid(s) in s.threads
  {
    var u := InsertReadyToRunning(s);
    var thread := u.threads[u.running];
    u.(total := u.total + 1,
       threads := u.threads[u.running := thread.(quantums := thread.quantums + 1)])
  }

  /** No table entry that a switch reads is missing. */
  ghost predicate CanSwitch(s: State, to: Status) {
    && ExpiringLive(s)
    && NextTid(s) in s.threads && 0 in s.threads
    && (to == Ready || to == Blocked ==> s.running in s.threads)
  }

  /** Where the running thread goes, before the next one is chosen. */
  ghost function PutAway(s: State, to: Status): State
    requires to == Ready || to == Blocked ==> s.running in s.threads
  {
    match to
    case Ready => s.(ready := s.ready + [s.running]).SetStatus(s.running, Ready)
    case Blocked => s.(blocked := s.blocked + {s.running}).SetStatus(s.running, Blocked)
    case _ => s
  }

  ghost function Switch(s: State, to: Status): State
    requires CanSwitch(s, to)
  {
    Dispatch(PutAway(UpdateSleepers(s), to))
  }

  // ---- the calls ----

  ghost function Init(): State {
    State(map[0 := UThread(Main, 1)], map[], {}, [], Range(1, MAX_THREAD_NUM), 1, 0)
  }

  ghost function Spawn(s: State, nullEntry: bool): (State, int) {
    if s.freeIds == {} || nullEntry then (s, FAILURE) else
      var tid := Least(s.freeIds);
      (s.(freeIds := s.freeIds - {tid},
          threads := s.threads[tid := UThread(Ready, 0)],
          ready := s.ready + [tid]), tid)
  }

  /** The state once the table entry of a terminated thread is gone. */
  ghost function Erase(s: State, tid: int): State {
    s.(freeIds := s.freeIds + {tid}, threads := s.threads - {tid})
  }

  ghost predicate CanTerminate(s: State, tid: int) {
    s.Is(tid, Running) ==> CanSwitch(Erase(s, tid), Terminated)
  }

  /** Terminating thread 0 ends the process, so it is not a step. */
  ghost function Terminate(s: State, tid: int): (State, int)
    requires tid != 0 && CanTerminate(s, tid)
  {
    if tid !in s.threads then (s, FAILURE) else
      var e := Erase(s, tid);
      match s.threads[tid].status
      case Running => (Switch(e, Terminated), SUCCESS)
      case Ready => (e.(ready := Without(e.ready, tid)), SUCCESS)
      case Blocked => (e.(blocked := e.blocked - {tid}), SUCCESS)
      case _ => (e, SUCCESS)
  }

  ghost predicate CanBlock(s: State, tid: int) {
    tid != 0 && s.Is(tid, Running) ==> CanSwitch(s, Blocked)
  }

  ghost function Block(s: State, tid: int): (State, int)
    requires CanBlock(s, tid)
  {
    if tid == 0 || tid !in s.threads then (s, FAILURE) else
      match s.threads[tid].status
      case Running => (Switch(s, Blocked), SUCCESS)
      case Ready => (s.(ready := Without(s.ready, tid), blocked := s.blocked + {tid}).SetStatus(tid, Blocked), SUCCESS)
      case Asleep => (s.(blocked := s.blocked + {tid}), SUCCESS)
      case _ => (s, SUCCESS)
  }

  ghost function Resume(s: State, tid: int): (State, int) {
    if tid !in s.threads then (s, FAILURE) else
      match s.threads[tid].status
      case Blocked => (s.(blocked := s.blocked - {tid}, ready := s.ready + [tid]).SetStatus(tid, Ready), SUCCESS)
      case Asleep => (s.(blocked := s.blocked - {tid}), SUCCESS)
      case _ => (s, SUCCESS)
  }

  /** The running thread marked asleep; emplace keeps a countdown that is already there. */
  ghost function FallAsleep(s: State, quantums: int): State
    requires s.running in s.threads
  {
    s.SetStatus(s.running, Asleep).(
      sleepers := if s.running in s.sleepers then s.sleepers else s.sleepers[s.running := quantums])
  }

  ghost predicate CanSleep(s: State, quantums: int) {
    s.running != 0 && quantums >= 0 ==>
      s.running in s.threads && CanSwitch(FallAsleep(s, quantums), Asleep)
  }

  ghost function Sleep(s: State, quantums: int): (State, int)
    requires CanSleep(s, quantums)
  {
    if s.running == 0 || quantums < 0 then (s, FAILURE) else
      (Switch(FallAsleep(s, quantums), Asleep), SUCCESS)
  }

  // ---- runs ----

  datatype Event =
    | Tick
    | SpawnCall(nullEntry: bool)
    | TerminateCall(tid: int)
    | BlockCall(tid: int)
    | ResumeCall(tid: int)
    | SleepCall(quantums: int)

  /** The step reads no missing table entry and does not end the process. */
  ghost predicate CanStep(s: State, e: Event) {
    match e
    case Tick => CanSwitch(s, Ready)
    case SpawnCall(_) => true
    case TerminateCall(tid) => tid != 0 && CanTerminate(s, tid)
    case BlockCall(tid) => CanBlock(s, tid)
    case ResumeCall(_) => true
    case SleepCall(n) => CanSleep(s, n)
  }

  ghost function Step(s: State, e: Event): State
    requires CanStep(s, e)
  {
    match e
    case Tick => Switch(s, Ready)
    case SpawnCall(nullEntry) => Spawn(s, nullEntry).0
    case TerminateCall(tid) => Terminate(s, tid).0
    case BlockCall(tid) => Block(s, tid).0
    case ResumeCall(tid) => Resume(s, tid).0
    case SleepCall(n) => Sleep(s, n).0
  }

  ghost predicate Next(s: State, e: Event, s': State) {
    CanStep(s, e) && s' == Step(s, e)
  }

  /** ss[i] is the state before es[i], and ss[|es|] the state at the end. */
  ghost predicate IsRun(ss: seq<State>, es: seq<Event>) {
    && |ss| == |es| + 1
    && (forall i :: 0 <= i < |es| ==> Next(ss[i], es[i], ss[i + 1]))
  }

  /** The one call after which the structures can disagree: terminating a sleeping thread. */
  ghost predicate KillsSleeper(s: State, e: Event) {
    e.TerminateCall? && s.Is(e.tid, Asleep)
  }

  ghost predicate NoSleeperKilled(ss: seq<State>, es: seq<Event>)
    requires IsRun(ss, es)
  {
    forall i :: 0 <= i < |es| ==> !KillsSleeper(ss[i], es[i])
  }

  // ---- agreement of the structures ----

  /** Free ids and live tids split 0, ..., MAX_THREAD_NUM - 1. */
  ghost predicate IdsPartitioned(s: State) {
    && s.freeIds !! s.threads.Keys
    && (forall t :: t in s.freeIds || t in s.threads <==> 0 <= t < MAX_THREAD_NUM)
  }

  /** Exactly one thread runs, and thread 0 can only be running or ready. */
  ghost predicate OneRuns(s: State) {
    && s.running in s.threads && 0 in s.threads
    && (forall t :: t in s.threads ==>
                      (t == s.running <==> s.Is(t, Running) || s.Is(t, Main)))
    && (forall t :: s.Is(t, Main) ==> t == 0)
    && (s.Is(0, Main) || s.Is(0, Running) || s.Is(0, Ready))
    && (forall t :: !s.Is(t, Terminated))
  }

  /** Each waiting status goes with membership in its container. */
  ghost predicate ContainersAgree(s: State) {
    && (forall t :: t in s.ready <==> s.Is(t, Ready))
    && NoDuplicates(s.ready)
    && (forall t :: t in s.sleepers <==> s.Is(t, Asleep))
    && (forall t :: t in s.sleepers ==> s.sleepers[t] >= 0)
    && (forall t :: s.Is(t, Blocked) ==> t in s.blocked)
    && (forall t :: t in s.blocked ==> s.Is(t, Blocked) || s.Is(t, Asleep))
  }

  ghost predicate Coherent(s: State) {
    IdsPartitioned(s) && OneRuns(s) && ContainersAgree(s)
  }
}
