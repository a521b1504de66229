/** The two threads of an HTTP worker together: the suspension handshake decides when
    the event loop polls, the poll loop's callbacks pause and resume listeners, and the
    main thread's reload work replaces them. */
module WorkerReload {
  import H = Handshake
  import B = Backpressure

  datatype State = State(h: H.State, w: B.World)

  /** A step of the handshake, a callback inside the poll loop, the handler of the main
      thread, or the replacing of the listeners by its reload work. */
  datatype Move =
    | Thread(step: H.Action) | Callback(event: B.Action) | Handler(event: B.Action) | Replace(listeners: set<B.Listener>)

  predicate Enabled(s: State, m: Move) {
    match m
    case Thread(a) => H.Enabled(s.h, a)
    case Callback(e) => s.h.loop == H.Poll && (e.Readable? || e.Arrive? || e.Deliver?) && B.Enabled(s.w, e)
    case Handler(e) => s.h.main == H.Serve && (e.HandlerReplies? || e.HandlerDrops?) && B.Enabled(s.w, e)
    case Replace(_) => s.h.main == H.Work
  }

  /** Entering the poll loop, and resuming the paused listeners after leaving it. */
  function Moved(w: B.World, from: H.LoopPc, to: H.LoopPc): B.World {
    if from != H.Poll && to == H.Poll then w.(polling := true)
    else if from == H.Drain && to == H.LockSuspend then w.(polling := false, gate := B.Resumed(w.gate))
    else w
  }

  function Next(s: State, m: Move): State
    requires Enabled(s, m)
  {
    match m
    case Thread(a) => var h' := H.Next(s.h, a); State(h', Moved(s.w, s.h.loop, h'.loop))
    case Callback(e) => s.(w := B.Next(s.w, e))
    case Handler(e) => s.(w := B.Next(s.w, e))
    case Replace(ls) => s.(w := B.Next(s.w, B.Reload(ls)))
  }

  predicate Inside(pc: H.LoopPc) {
    pc == H.Poll || pc == H.Drain
  }

  /** The threads are in step and the listeners are consistent. */
  ghost predicate Safe(s: State) {
    H.Inv(s.h) && B.Accounted(s.w) && B.GateOk(s.w) && (s.w.polling <==> Inside(s.h.loop))
  }

  ghost predicate Harmless(s: State, m: Move) {
    && (m.Callback? ==> B.HasRoom(s.w, m.event))
    && (m.Replace? ==> s.w.gate.paused <= m.listeners)
  }

  lemma ThreadStepKeeps(s: State, m: Move)
    requires Safe(s) && Enabled(s, m) && m.Thread?
    ensures Safe(Next(s, m))
  {
    H.StepKeeps(s.h, m.step);
    var to := H.Next(s.h, m.step).loop;
    LoopTurns(s.h, m.step);
    if s.h.loop != H.Poll && to == H.Poll {
      assert Moved(s.w, s.h.loop, to) == B.Next(s.w, B.EnterPoll);
      B.StaysAccountedIff(s.w, B.EnterPoll);
      B.GateStaysOk(s.w, B.EnterPoll);
    } else if s.h.loop == H.Drain && to == H.LockSuspend {
      assert Moved(s.w, s.h.loop, to) == B.Next(s.w, B.LeavePoll);
      B.StaysAccountedIff(s.w, B.LeavePoll);
      B.GateStaysOk(s.w, B.LeavePoll);
    }
  }

  // The poll loop is entered from outside, left into draining, and draining ends outside.
  lemma LoopTurns(h: H.State, a: H.Action)
    requires H.Enabled(h, a)
    ensures var to := H.Next(h, a).loop;
            && (to == H.Poll ==> h.loop == H.Poll || !Inside(h.loop))
            && (to == H.Drain ==> Inside(h.loop))
            && (Inside(h.loop) && !Inside(to) ==> h.loop == H.Drain && to == H.LockSuspend)
  {
  }

  /** A step keeps the threads in step and the listeners consistent if and only if the
      counter has room and no paused listener is disposed of. */
  lemma StaysSafeIff(s: State, m: Move)
    requires Safe(s) && Enabled(s, m)
    ensures Safe(Next(s, m)) <==> Harmless(s, m)
  {
    match m {
      case Thread(_) => ThreadStepKeeps(s, m);
      case Replace(ls) =>
        B.ReloadKeepsGateIff(s.w, ls);
        B.StaysAccountedIff(s.w, B.Reload(ls));
      case Callback(e) => EventStaysSafeIff(s.w, e);
      case Handler(e) => EventStaysSafeIff(s.w, e);
    }
  }

  /** What a move is to the listeners: nothing, or a step of back-pressure on its own. */
  ghost predicate ListenerStep(w: B.World, w': B.World) {
    w' == w || exists e :: B.Enabled(w, e) && w' == B.Next(w, e)
  }

  /** Each machine is kept whole: a move of a thread is its step of the handshake and, on
      entering and leaving the poll loop, the corresponding step of back-pressure; any
      other move is its own step of back-pressure and none of the handshake. */
  lemma StepProjects(s: State, m: Move)
    requires Safe(s) && Enabled(s, m)
    ensures ListenerStep(s.w, Next(s, m).w)
    ensures Next(s, m).h == if m.Thread? then H.Next(s.h, m.step) else s.h
    ensures m.Callback? || m.Handler? ==> Next(s, m).w == B.Next(s.w, m.event)
    ensures m.Replace? ==> Next(s, m).w == B.Next(s.w, B.Reload(m.listeners))
    ensures m.Thread? && Next(s, m).w != s.w ==>
              Next(s, m).w == if Inside(H.Next(s.h, m.step).loop) then B.Next(s.w, B.EnterPoll) else B.Next(s.w, B.LeavePoll)
  {
    if m.Thread? {
      LoopTurns(s.h, m.step);
      assert B.Enabled(s.w, if s.w.polling then B.LeavePoll else B.EnterPoll);
    } else {
      var e := if m.Replace? then B.Reload(m.listeners) else m.event;
      assert B.Enabled(s.w, e);
    }
  }

  lemma EventStaysSafeIff(w: B.World, e: B.Action)
    requires B.Accounted(w) && B.GateOk(w) && B.Enabled(w, e) && !e.Reload? && !e.EnterPoll? && !e.LeavePoll?
    ensures B.Accounted(B.Next(w, e)) && B.GateOk(B.Next(w, e)) <==> B.HasRoom(w, e)
    ensures B.Next(w, e).polling == w.polling
  {
    B.StaysAccountedIff(w, e);
    if B.HasRoom(w, e) {
      assert e.Deliver? ==> |w.replies| > 0;
      B.GateStaysOk(w, e);
    }
  }

  /** Reload work after a wait that saw the event loop running finds no listener paused. */
  lemma ObservedIsUnpaused(s: State)
    requires Safe(s) && H.WaitEnded(s.h.main) && s.h.observed
    ensures s.w.gate.paused == {}
  {
  }

  // ---- runs ----

  ghost predicate StepAt(run: seq<State>, moves: seq<Move>, i: nat)
    requires i < |moves| && i + 1 < |run|
  {
    Enabled(run[i], moves[i]) && run[i + 1] == Next(run[i], moves[i])
  }

  function Start(listeners: set<B.Listener>): State {
    State(H.Init(), B.Start(listeners))
  }

  ghost predicate IsRun(run: seq<State>, moves: seq<Move>) {
    && |run| == |moves| + 1 && run[0] == Start(run[0].w.listeners)
    && forall i {:trigger StepAt(run, moves, i)} | 0 <= i < |moves| :: StepAt(run, moves, i)
  }

  ghost predicate HarmlessUpTo(run: seq<State>, moves: seq<Move>, n: nat)
    requires |run| == |moves| + 1 && n < |run|
  {
    forall i | 0 <= i < n :: Harmless(run[i], moves[i])
  }

  lemma {:induction false} SafeUpTo(run: seq<State>, moves: seq<Move>, n: nat)
    requires IsRun(run, moves) && n < |run| && HarmlessUpTo(run, moves, n)
    ensures Safe(run[n])
  {
    if n > 0 {
      SafeUpTo(run, moves, n - 1);
      assert StepAt(run, moves, n - 1);
      StaysSafeIff(run[n - 1], moves[n - 1]);
    }
  }

  /** Of every run of the two threads: they are in step and the listeners consistent at
      every state if and only if every step was harmless. */
  lemma SafeIffHarmless(run: seq<State>, moves: seq<Move>, n: nat)
    requires IsRun(run, moves) && n < |run|
    ensures (forall i | 0 <= i <= n :: Safe(run[i])) <==> HarmlessUpTo(run, moves, n)
  {
    if HarmlessUpTo(run, moves, n) {
      forall i | 0 <= i <= n ensures Safe(run[i]) {
        SafeUpTo(run, moves, i);
      }
    } else {
      var i :| 0 <= i < n && !Harmless(run[i], moves[i]);
      assert StepAt(run, moves, i);
      if Safe(run[i]) {
        StaysSafeIff(run[i], moves[i]);
      }
    }
  }

  /** The counter has room, and listeners are replaced only after a wait that saw the
      event loop running. */
  ghost predicate Waited(s: State, m: Move) {
    (m.Callback? ==> B.HasRoom(s.w, m.event)) && (m.Replace? ==> s.h.observed)
  }

  lemma WaitedIsHarmless(s: State, m: Move)
    requires Safe(s) && Enabled(s, m) && Waited(s, m)
    ensures Harmless(s, m)
  {
    if m.Replace? {
      ObservedIsUnpaused(s);
    }
  }

  lemma {:induction false} WaitedAreHarmless(run: seq<State>, moves: seq<Move>, n: nat)
    requires IsRun(run, moves) && n < |run|
    requires forall i | 0 <= i < n :: Waited(run[i], moves[i])
    ensures HarmlessUpTo(run, moves, n)
  {
    if n > 0 {
      WaitedAreHarmless(run, moves, n - 1);
      SafeUpTo(run, moves, n - 1);
      assert StepAt(run, moves, n - 1);
      WaitedIsHarmless(run[n - 1], moves[n - 1]);
    }
  }

  /** In every run in which listeners are replaced only after a wait that saw the event
      loop running: the handshake keeps every listener consistent. */
  lemma WaitedReloadsAreSafe(run: seq<State>, moves: seq<Move>, n: nat)
    requires IsRun(run, moves) && n < |run|
    requires forall i | 0 <= i < n :: Waited(run[i], moves[i])
    ensures Safe(run[n])
  {
    WaitedAreHarmless(run, moves, n);
    SafeUpTo(run, moves, n);
  }

  // ---- and without the wait ----

  ghost predicate RunTo(run: seq<State>, moves: seq<Move>, s: State) {
    IsRun(run, moves) && run[|run| - 1] == s
  }

  lemma Extend(run: seq<State>, moves: seq<Move>, s: State, m: Move) returns (longer: seq<State>, more: seq<Move>)
    requires RunTo(run, moves, s) && Enabled(s, m)
    ensures RunTo(longer, more, Next(s, m)) && longer == run + [Next(s, m)] && more == moves + [m]
  {
    longer, more := run + [Next(s, m)], moves + [m];
    forall i | 0 <= i < |more| ensures StepAt(longer, more, i) {
      if i < |moves| {
        assert StepAt(run, moves, i);
      }
    }
  }

  // The event-loop thread waits, the main thread signals it.
  lemma SignalledRun(l: B.Listener) returns (run: seq<State>, moves: seq<Move>)
    ensures RunTo(run, moves, State(H.State(false, false, H.Free, H.Serve, H.WokenResume, false), B.Start({l})))
  {
    var main, loop := Thread(H.MainStep(true)), Thread(H.LoopStep(true));
    var s0 := Start({l});
    var s1 := Next(s0, loop);
    var s2 := Next(s1, loop);
    var s3 := Next(s2, loop);
    var s4 := Next(s3, main);
    var s5 := Next(s4, main);
    var s6 := Next(s5, main);
    var s7 := Next(s6, main);
    run, moves := Extend([s0], [], s0, loop);
    run, moves := Extend(run, moves, s1, loop);
    run, moves := Extend(run, moves, s2, loop);
    run, moves := Extend(run, moves, s3, main);
    run, moves := Extend(run, moves, s4, main);
    run, moves := Extend(run, moves, s5, main);
    run, moves := Extend(run, moves, s6, main);
    run, moves := Extend(run, moves, s7, main);
  }

  // It polls, a request is in flight and its listener is paused.
  lemma PausedRun(l: B.Listener) returns (run: seq<State>, moves: seq<Move>, s: State)
    ensures RunTo(run, moves, s) && s.h == H.State(false, true, H.Free, H.Serve, H.Poll, false)
    ensures s.w.gate.paused == {l}
  {
    var loop := Thread(H.LoopStep(true));
    var s0 := State(H.State(false, false, H.Free, H.Serve, H.WokenResume, false), B.Start({l}));
    var s1 := Next(s0, loop);
    var s2 := Next(s1, loop);
    var s3 := Next(s2, loop);
    var s4 := Next(s3, loop);
    var s5 := Next(s4, Callback(B.Arrive(0, 0x0101)));
    run, moves := SignalledRun(l);
    run, moves := Extend(run, moves, s0, loop);
    run, moves := Extend(run, moves, s1, loop);
    run, moves := Extend(run, moves, s2, loop);
    run, moves := Extend(run, moves, s3, loop);
    run, moves := Extend(run, moves, s4, Callback(B.Arrive(0, 0x0101)));
    run, moves := Extend(run, moves, s5, Callback(B.Readable(l)));
    s := Next(s5, Callback(B.Readable(l)));
  }

  /** A reload request that skips the wait disposes of a paused listener while the event
      loop polls. */
  lemma SkippedWaitStrands(l: B.Listener) returns (run: seq<State>, moves: seq<Move>)
    ensures IsRun(run, moves)
    ensures var s := run[|run| - 1]; s.h.loop == H.Poll && l in s.w.gate.paused && l !in s.w.listeners
  {
    var s;
    run, moves, s := PausedRun(l);
    run, moves := Extend(run, moves, s, Thread(H.MainStep(false)));
    run, moves := Extend(run, moves, Next(s, Thread(H.MainStep(false))), Replace({}));
  }

  /** It is not enough that the event-loop thread will not poll again: it may still have
      its paused listeners to resume. */
  lemma ParkedIsNotEnough(l: B.Listener) returns (run: seq<State>, moves: seq<Move>)
    ensures IsRun(run, moves)
    ensures var s := run[|run| - 1]; H.Parked(s.h) && l in s.w.gate.paused && l !in s.w.listeners
  {
    var s;
    run, moves, s := PausedRun(l);
    var s1 := Next(s, Thread(H.LoopStep(true)));
    var s2 := Next(s1, Thread(H.MainStep(false)));
    run, moves := Extend(run, moves, s, Thread(H.LoopStep(true)));
    run, moves := Extend(run, moves, s1, Thread(H.MainStep(false)));
    run, moves := Extend(run, moves, s2, Replace({}));
  }
}
