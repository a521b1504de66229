/** The suspend/resume handshake between the main thread of an HTTP worker and
    its event-loop thread: two flags, a mutex and two condition variables, every
    interleaving of single steps. */
module Handshake {

  datatype Thread = Main | EventLoop

  datatype Mutex = Free | Held(thread: Thread)

  datatype MainPc =
    | Work          // top of the loop: reload work, if a reload was requested, unless the worker stops
    | Clear         // about to clear event_loop_suspended, without the mutex
    | Lock1 | Signal | Unlock1
    | Serve         // handling requests
    | Lock2 | Check | Waiting | Woken | Unlock2
    | Stopped

  datatype LoopPc =
    | Top           // about to test event_loop_suspended, without the mutex
    | LockResume | CheckResume | WaitingResume | WokenResume | SignalAck | UnlockResume
    | Poll          // inside the poll loop
    | Drain         // resuming paused listeners
    | LockSuspend | SetSuspended | SignalSuspended | UnlockSuspend
    | Finished

  /** `observed` records that the main thread has found event_loop_resumed true
      since it last cleared event_loop_suspended. */
  datatype State = State(suspended: bool, resumed: bool, mutex: Mutex, main: MainPc, loop: LoopPc, observed: bool)

  /** One step of a thread; `choice` settles what the flags set from outside and
      the poll calls decide. A wait may also end without a signal. */
  datatype Action = MainStep(choice: bool) | LoopStep(choice: bool) | MainSpurious | LoopSpurious

  function Init(): State {
    State(true, false, Free, Work, Top, false)
  }

  predicate MainCanStep(s: State) {
    match s.main
    case Lock1 => s.mutex.Free?
    case Lock2 => s.mutex.Free?
    case Woken => s.mutex.Free?
    case Waiting => false
    case Stopped => false
    case _ => true
  }

  predicate LoopCanStep(s: State) {
    match s.loop
    case LockResume => s.mutex.Free?
    case WokenResume => s.mutex.Free?
    case LockSuspend => s.mutex.Free?
    case WaitingResume => false
    case Finished => false
    case _ => true
  }

  predicate Enabled(s: State, a: Action) {
    match a
    case MainStep(_) => MainCanStep(s)
    case LoopStep(_) => LoopCanStep(s)
    case MainSpurious => s.main == Waiting
    case LoopSpurious => s.loop == WaitingResume
  }

  function MainNext(s: State, choice: bool): State
    requires MainCanStep(s)
  {
    match s.main
    case Work => s.(main := if choice then Clear else Stopped)
    case Clear => s.(suspended := false, observed := false, main := Lock1)
    case Lock1 => s.(mutex := Held(Main), main := Signal)
    case Signal => s.(loop := if s.loop == WaitingResume then WokenResume else s.loop, main := Unlock1)
    case Unlock1 => s.(mutex := Free, main := Serve)
    case Serve => s.(main := if choice then Lock2 else Work)
    case Lock2 => s.(mutex := Held(Main), main := Check)
    case Check => if s.resumed then s.(observed := true, mutex := Free, main := Waiting) else s.(main := Unlock2)
    case Woken => s.(mutex := Held(Main), main := Check)
    case Unlock2 => s.(mutex := Free, main := Work)
  }

  function LoopNext(s: State, choice: bool): State
    requires LoopCanStep(s)
  {
    match s.loop
    case Top => s.(loop := if s.suspended then LockResume else Poll)
    case LockResume => s.(mutex := Held(EventLoop), loop := CheckResume)
    case CheckResume => if s.suspended then s.(mutex := Free, loop := WaitingResume) else s.(resumed := true, loop := SignalAck)
    case WokenResume => s.(mutex := Held(EventLoop), loop := CheckResume)
    case SignalAck => s.(main := if s.main == Waiting then Woken else s.main, loop := UnlockResume)
    case UnlockResume => s.(mutex := Free, loop := Poll)
    case Poll => s.(loop := if choice then Drain else Poll)
    case Drain => s.(loop := LockSuspend)
    case LockSuspend => s.(mutex := Held(EventLoop), loop := SetSuspended)
    case SetSuspended => s.(resumed := false, suspended := true, loop := SignalSuspended)
    case SignalSuspended => s.(main := if s.main == Waiting then Woken else s.main, loop := UnlockSuspend)
    case UnlockSuspend => s.(mutex := Free, loop := if choice then Top else Finished)
  }

  function Next(s: State, a: Action): State
    requires Enabled(s, a)
  {
    match a
    case MainStep(choice) => MainNext(s, choice)
    case LoopStep(choice) => LoopNext(s, choice)
    case MainSpurious => s.(main := Woken)
    case LoopSpurious => s.(loop := WokenResume)
  }

  // ---- the invariant ----

  predicate MainHolds(pc: MainPc) {
    pc == Signal || pc == Unlock1 || pc == Check || pc == Unlock2
  }

  predicate LoopHolds(pc: LoopPc) {
    pc == CheckResume || pc == SignalAck || pc == UnlockResume || pc == SetSuspended || pc == SignalSuspended || pc == UnlockSuspend
  }

  /** From deciding to poll until announcing suspension. */
  predicate Polling(pc: LoopPc) {
    pc == SignalAck || pc == UnlockResume || pc == Poll || pc == Drain || pc == LockSuspend || pc == SetSuspended
  }

  predicate InWait(pc: MainPc) {
    pc == Check || pc == Waiting || pc == Woken
  }

  predicate WaitEnded(pc: MainPc) {
    pc == Unlock2 || pc == Work || pc == Clear
  }

  ghost predicate Inv(s: State) {
    && (s.mutex == Held(Main) <==> MainHolds(s.main)) && (s.mutex == Held(EventLoop) <==> LoopHolds(s.loop))
    && (Polling(s.loop) ==> !s.suspended)
    && (s.resumed ==> Polling(s.loop))
    // whoever waits will be signalled
    && (s.main == Waiting ==> (s.resumed && s.loop != SignalAck) || s.loop == SignalSuspended)
    && (s.loop == WaitingResume ==> s.suspended || s.main == Lock1 || s.main == Signal)
    // a wait that has seen the loop running ends with the loop suspended
    && (s.observed && InWait(s.main) && !s.resumed ==> s.suspended)
    && (s.observed && WaitEnded(s.main) ==> s.suspended)
    && (s.main == Lock1 || s.main == Signal || s.main == Unlock1 || s.main == Serve || s.main == Lock2 ==> !s.observed)
  }

  lemma MainStepKeeps(s: State, choice: bool)
    requires Inv(s) && MainCanStep(s)
    ensures Inv(MainNext(s, choice))
  {
    assert !(MainHolds(s.main) && LoopHolds(s.loop));
  }

  lemma LoopStepKeeps(s: State, choice: bool)
    requires Inv(s) && LoopCanStep(s)
    ensures Inv(LoopNext(s, choice))
  {
    assert !(MainHolds(s.main) && LoopHolds(s.loop));
  }

  lemma StepKeeps(s: State, a: Action)
    requires Inv(s) && Enabled(s, a)
    ensures Inv(Next(s, a))
  {
    match a {
      case MainStep(choice) => MainStepKeeps(s, choice);
      case LoopStep(choice) => LoopStepKeeps(s, choice);
      case _ =>
    }
  }

  // ---- runs ----

  ghost predicate Step(s: State, t: State) {
    exists a :: Enabled(s, a) && t == Next(s, a)
  }

  ghost predicate StepAt(run: seq<State>, i: nat)
    requires i + 1 < |run|
  {
    Step(run[i], run[i + 1])
  }

  ghost predicate IsPath(run: seq<State>) {
    forall i {:trigger StepAt(run, i)} | 0 <= i < |run| - 1 :: StepAt(run, i)
  }

  ghost predicate IsRun(run: seq<State>) {
    run != [] && run[0] == Init() && IsPath(run)
  }

  lemma {:induction false} RunKeepsInv(run: seq<State>, i: nat)
    requires IsRun(run) && i < |run|
    ensures Inv(run[i])
  {
    if i > 0 {
      RunKeepsInv(run, i - 1);
      assert StepAt(run, i - 1);
      var a :| Enabled(run[i - 1], a) && run[i] == Next(run[i - 1], a);
      StepKeeps(run[i - 1], a);
    }
  }

  lemma OnlyClearingForgets(s: State, t: State)
    requires Step(s, t) && s.observed && WaitEnded(t.main)
    ensures t.observed
  {
  }

  /** In every run, from the end of a wait in which the main thread has found the
      event loop running until it clears the suspension, the event-loop thread is
      suspended and outside its poll loop. */
  lemma {:induction false} ReloadIsExclusive(run: seq<State>, i: nat, j: nat)
    requires IsRun(run) && i <= j < |run|
    requires run[i].main == Unlock2 && run[i].observed
    requires forall k | i <= k <= j :: WaitEnded(run[k].main)
    ensures run[j].observed && run[j].suspended && run[j].loop != Poll
    decreases j
  {
    RunKeepsInv(run, j);
    if i < j {
      ReloadIsExclusive(run, i, j - 1);
      assert StepAt(run, j - 1);
      OnlyClearingForgets(run[j - 1], run[j]);
    }
  }

  /** In no run are both condition waits blocked at once. */
  lemma NeverBothWaiting(run: seq<State>, i: nat)
    requires IsRun(run) && i < |run|
    ensures !(run[i].main == Waiting && run[i].loop == WaitingResume)
  {
    RunKeepsInv(run, i);
  }

  /** A thread that waits although its condition no longer holds has its signal
      still to come: the other thread is about to send it. */
  lemma SignalsAreNotLost(run: seq<State>, i: nat)
    requires IsRun(run) && i < |run|
    ensures run[i].loop == WaitingResume && !run[i].suspended ==> run[i].main == Lock1 || run[i].main == Signal
    ensures run[i].main == Waiting && !run[i].resumed ==> run[i].loop == SignalSuspended
  {
    RunKeepsInv(run, i);
  }

  /** In no run does the acknowledgement of a resumption find anyone to wake. */
  lemma AckWakesNobody(run: seq<State>, i: nat)
    requires IsRun(run) && i < |run| && run[i].loop == SignalAck
    ensures run[i].main != Waiting
  {
    RunKeepsInv(run, i);
  }

  /** A wait that ends without a signal is taken up again, as if nothing had happened,
      when its condition still holds and the mutex is free. */
  lemma SpuriousWakeupIsHarmless(s: State, choice: bool)
    requires s.mutex.Free?
    ensures s.main == Waiting && s.resumed && s.observed ==>
              && Enabled(s, MainSpurious) && MainCanStep(Next(s, MainSpurious))
              && MainCanStep(MainNext(Next(s, MainSpurious), choice))
              && MainNext(MainNext(Next(s, MainSpurious), choice), choice) == s
    ensures s.loop == WaitingResume && s.suspended ==>
              && Enabled(s, LoopSpurious) && LoopCanStep(Next(s, LoopSpurious))
              && LoopCanStep(LoopNext(Next(s, LoopSpurious), choice))
              && LoopNext(LoopNext(Next(s, LoopSpurious), choice), choice) == s
  {
  }

  lemma MutexCases(mutex: Mutex)
    ensures mutex.Free? || mutex == Held(Main) || mutex == Held(EventLoop)
  {
    if mutex.Held? {
      assert mutex.thread == Main || mutex.thread == EventLoop;
    }
  }

  /** Until the main thread stops, one of the two can always take a step. */
  lemma NoDeadlock(run: seq<State>, i: nat)
    requires IsRun(run) && i < |run| && run[i].main != Stopped
    ensures MainCanStep(run[i]) || LoopCanStep(run[i])
  {
    RunKeepsInv(run, i);
    MutexCases(run[i].mutex);
  }

  // ---- exactly when the reload work is exclusive ----

  /** The event-loop thread will not poll before it is resumed. */
  predicate Parked(s: State) {
    s.suspended || s.loop == Drain || s.loop == LockSuspend || s.loop == SetSuspended || s.loop == Finished
  }

  /** A continuation in which the main thread does not clear the suspension. */
  ghost predicate BeforeClear(path: seq<State>) {
    IsPath(path) && forall k | 0 <= k < |path| :: WaitEnded(path[k].main)
  }

  ghost predicate NeverPolls(s: State) {
    forall path: seq<State> | path != [] && path[0] == s && BeforeClear(path) :: path[|path| - 1].loop != Poll
  }

  lemma {:induction false} ParkedStays(path: seq<State>, j: nat)
    requires BeforeClear(path) && j < |path| && Inv(path[0]) && Parked(path[0])
    ensures Inv(path[j]) && Parked(path[j])
  {
    if j > 0 {
      ParkedStays(path, j - 1);
      assert StepAt(path, j - 1);
      var a :| Enabled(path[j - 1], a) && path[j] == Next(path[j - 1], a);
      StepKeeps(path[j - 1], a);
    }
  }

  lemma ExtendPath(path: seq<State>, a: Action)
    requires path != [] && BeforeClear(path) && Enabled(path[|path| - 1], a)
    requires WaitEnded(Next(path[|path| - 1], a).main)
    ensures BeforeClear(path + [Next(path[|path| - 1], a)])
  {
    var last := path[|path| - 1];
    var path' := path + [Next(last, a)];
    forall i | 0 <= i < |path'| - 1 ensures StepAt(path', i) {
      if i < |path| - 1 {
        assert StepAt(path, i);
      } else {
        assert Step(last, Next(last, a));
      }
    }
  }

  /** How many steps of its own the event-loop thread is from polling. */
  function Distance(pc: LoopPc): nat {
    match pc
    case SignalSuspended => 3
    case UnlockSuspend => 2
    case Top => 1
    case LockResume => 4
    case WokenResume => 4
    case CheckResume => 3
    case SignalAck => 2
    case UnlockResume => 1
    case _ => 0
  }

  lemma UnparkedStep(s: State)
    requires Inv(s) && (s.main == Work || s.main == Clear) && !Parked(s) && s.loop != Poll
    ensures LoopCanStep(s)
    ensures var t := LoopNext(s, true);
            Inv(t) && t.main == s.main && !Parked(t) && Distance(t.loop) < Distance(s.loop)
  {
    MutexCases(s.mutex);
    LoopStepKeeps(s, true);
  }

  lemma {:induction false} WalkToPoll(path: seq<State>) returns (longer: seq<State>)
    requires path != [] && BeforeClear(path)
    requires var s := path[|path| - 1]; Inv(s) && (s.main == Work || s.main == Clear) && !Parked(s)
    ensures longer != [] && longer[0] == path[0] && BeforeClear(longer) && longer[|longer| - 1].loop == Poll
    decreases Distance(path[|path| - 1].loop)
  {
    var s := path[|path| - 1];
    if s.loop == Poll {
      return path;
    }
    UnparkedStep(s);
    ExtendPath(path, LoopStep(true));
    longer := WalkToPoll(path + [Next(s, LoopStep(true))]);
  }

  /** A thread that is not parked can reach its poll loop before the suspension is
      cleared, whatever point it is at. */
  lemma UnparkedPolls(s: State)
    requires Inv(s) && WaitEnded(s.main) && !Parked(s)
    ensures !NeverPolls(s)
  {
    var path := [s];
    if s.main == Unlock2 {
      ExtendPath(path, MainStep(true));
      MainStepKeeps(s, true);
      path := path + [Next(s, MainStep(true))];
    }
    var longer := WalkToPoll(path);
  }

  /** In every run and at every moment of the reload work, from the end of a wait or
      straight from serving until the suspension is cleared: the event-loop thread
      stays out of its poll loop in every continuation if and only if it is
      suspended, on its way there, or gone. */
  lemma ExclusiveIffParked(run: seq<State>, i: nat)
    requires IsRun(run) && i < |run| && WaitEnded(run[i].main)
    ensures NeverPolls(run[i]) <==> Parked(run[i])
  {
    RunKeepsInv(run, i);
    if Parked(run[i]) {
      forall path: seq<State> | path != [] && path[0] == run[i] && BeforeClear(path) ensures path[|path| - 1].loop != Poll {
        ParkedStays(path, |path| - 1);
      }
    } else {
      UnparkedPolls(run[i]);
    }
  }

  // ---- two ways in which it is not ----

  /** A run that ends in s. */
  ghost predicate RunTo(run: seq<State>, s: State) {
    IsRun(run) && run[|run| - 1] == s
  }

  ghost predicate NeverWaits(run: seq<State>) {
    forall i | 0 <= i < |run| :: !InWait(run[i].main) && run[i].main != Lock2 && run[i].main != Unlock2
  }

  lemma ExtendRun(run: seq<State>, s: State, a: Action) returns (longer: seq<State>)
    requires RunTo(run, s) && Enabled(s, a)
    ensures longer == run + [Next(s, a)] && RunTo(longer, Next(s, a))
  {
    longer := run + [Next(s, a)];
    forall i | 0 <= i < |longer| - 1 ensures StepAt(longer, i) {
      if i < |run| - 1 {
        assert StepAt(run, i);
      }
    }
  }

  lemma ExtendRunUnwaited(run: seq<State>, s: State, a: Action) returns (longer: seq<State>)
    requires RunTo(run, s) && NeverWaits(run) && Enabled(s, a)
    requires var m := Next(s, a).main; !InWait(m) && m != Lock2 && m != Unlock2
    ensures |longer| > 1 && longer[|longer| - 2] == s && RunTo(longer, Next(s, a)) && NeverWaits(longer)
  {
    longer := ExtendRun(run, s, a);
  }

  /** When the event-loop thread is slow to start, a second reload finds it not yet
      resumed, does not wait, and goes to work while the thread enters its poll loop. */
  lemma SlowStartRace() returns (run: seq<State>)
    ensures IsRun(run) && |run| >= 3 && run[|run| - 1].main == Work && run[|run| - 1].loop == Poll
    ensures run[|run| - 2].main == Work && run[|run| - 3].main == Unlock2
  {
    var m := MainStep(true);
    var s0 := Init();
    var s1 := Next(s0, m);
    var s2 := Next(s1, m);
    var s3 := Next(s2, m);
    var s4 := Next(s3, m);
    var s5 := Next(s4, m);
    var s6 := Next(s5, m);
    var s7 := Next(s6, m);
    var s8 := Next(s7, m);
    var s9 := Next(s8, m);
    var r := ExtendRun([s0], s0, m);
    r := ExtendRun(r, s1, m);
    r := ExtendRun(r, s2, m);
    r := ExtendRun(r, s3, m);
    r := ExtendRun(r, s4, m);
    r := ExtendRun(r, s5, m);
    r := ExtendRun(r, s6, m);
    r := ExtendRun(r, s7, m);
    r := ExtendRun(r, s8, m);
    run := ExtendRun(r, s9, LoopStep(true));
  }

  // Both threads have started, and the event-loop thread has been signalled to resume.
  lemma SignalledRun() returns (run: seq<State>)
    ensures RunTo(run, State(false, false, Free, Serve, WokenResume, false)) && NeverWaits(run)
  {
    var m, l := MainStep(true), LoopStep(true);
    var s0 := Init();
    var s1 := Next(s0, l);
    var s2 := Next(s1, l);
    var s3 := Next(s2, l);
    var s4 := Next(s3, m);
    var s5 := Next(s4, m);
    var s6 := Next(s5, m);
    var s7 := Next(s6, m);
    var r := ExtendRunUnwaited([s0], s0, l);
    r := ExtendRunUnwaited(r, s1, l);
    r := ExtendRunUnwaited(r, s2, l);
    r := ExtendRunUnwaited(r, s3, m);
    r := ExtendRunUnwaited(r, s4, m);
    r := ExtendRunUnwaited(r, s5, m);
    r := ExtendRunUnwaited(r, s6, m);
    run := ExtendRunUnwaited(r, s7, m);
  }

  /** A turn of the serving loop that ends without a reload request skips the wait;
      a request that arrives right after it starts the reload work while the
      event-loop thread, resumed, is polling. */
  lemma SkippedWaitRace() returns (run: seq<State>)
    ensures IsRun(run) && NeverWaits(run) && |run| >= 2
    ensures run[|run| - 2].main == Serve && run[|run| - 1].main == Work
    ensures run[|run| - 1].loop == Poll && run[|run| - 1].resumed
  {
    var l := LoopStep(true);
    var s0 := State(false, false, Free, Serve, WokenResume, false);
    var s1 := Next(s0, l);
    var s2 := Next(s1, l);
    var s3 := Next(s2, l);
    var s4 := Next(s3, l);
    var r := SignalledRun();
    r := ExtendRunUnwaited(r, s0, l);
    r := ExtendRunUnwaited(r, s1, l);
    r := ExtendRunUnwaited(r, s2, l);
    r := ExtendRunUnwaited(r, s3, l);
    run := ExtendRunUnwaited(r, s4, MainStep(false));
  }

  /** A reload as intended: the event loop has been running, the main thread waits for it
      to be suspended, and the work begins with the event loop parked. */
  lemma WaitedReload() returns (run: seq<State>)
    ensures IsRun(run)
    ensures var s := run[|run| - 1];
            s.main == Work && s.observed && s.suspended && !s.resumed && s.loop == Top && s.mutex == Free && Parked(s)
  {
    var m, l := MainStep(true), LoopStep(true);
    var s0 := State(false, false, Free, Serve, WokenResume, false);
    var s1 := Next(s0, l);
    var s2 := Next(s1, l);
    var s3 := Next(s2, l);
    var s4 := Next(s3, l);
    var s5 := Next(s4, m);
    var s6 := Next(s5, m);
    var s7 := Next(s6, m);
    run := SignalledRun();
    run := ExtendRun(run, s0, l);
    run := ExtendRun(run, s1, l);
    run := ExtendRun(run, s2, l);
    run := ExtendRun(run, s3, l);
    run := ExtendRun(run, s4, m);
    run := ExtendRun(run, s5, m);
    run := ExtendRun(run, s6, m);
    assert s7 == State(false, true, Free, Waiting, Poll, true);
    run := SuspendAndWork(run, s7);
  }

  lemma SuspendAndWork(run: seq<State>, s0: State) returns (longer: seq<State>)
    requires RunTo(run, s0) && s0 == State(false, true, Free, Waiting, Poll, true)
    ensures RunTo(longer, State(true, false, Free, Work, Top, true))
  {
    var m, l := MainStep(true), LoopStep(true);
    var s1 := Next(s0, l);
    var s2 := Next(s1, l);
    var s3 := Next(s2, l);
    var s4 := Next(s3, l);
    var s5 := Next(s4, l);
    var s6 := Next(s5, l);
    var s7 := Next(s6, m);
    var s8 := Next(s7, m);
    longer := ExtendRun(run, s0, l);
    longer := ExtendRun(longer, s1, l);
    longer := ExtendRun(longer, s2, l);
    longer := ExtendRun(longer, s3, l);
    longer := ExtendRun(longer, s4, l);
    longer := ExtendRun(longer, s5, l);
    longer := ExtendRun(longer, s6, m);
    longer := ExtendRun(longer, s7, m);
    longer := ExtendRun(longer, s8, m);
  }
}
