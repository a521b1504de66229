/** Back-pressure in the HTTP worker's event loop: while a request is being
    handled, listeners that become readable are paused, and the last reply
    resumes them. */
module Backpressure {

  type Listener = nat
  type Request = nat

  const U64: nat := 0x1_0000_0000_0000_0000

  function Increment(n: nat): nat { (n + 1) % U64 }
  function Decrement(n: nat): nat { (n + U64 - 1) % U64 }

  // ---- replies of the request handler ----

  datatype Variant = ResponseWithBody | ResponseWithoutBody | AbortRequested | ProxyTo | ProxyWithoutUrl | UnknownVariant

  /** What decides the handler's path for one request: `raised` is an error while the
      routes run, which is caught, `late` one between that and the reply, such as in the
      commit, which is not. */
  datatype Handling = Handling(gone: bool, raised: bool, late: bool, websocket: bool, isNull: bool, accepted: bool,
                               variant: Variant)

  datatype Reply = SendInline | Abort | Proxy | UpgradeToWebsocket

  /** The request ends without a reply. */
  predicate Unanswered(h: Handling) {
    h.gone || (!h.raised && (h.late || (!h.websocket && !h.isNull && h.variant.UnknownVariant?)))
  }

  /** The handler queues its replies one branch at a time; a request whose
      connection is gone gets none. */
  method Handle(h: Handling) returns (replies: seq<Reply>)
    ensures |replies| == if Unanswered(h) then 0 else 1
    ensures !Unanswered(h) ==>
              && (replies[0].UpgradeToWebsocket? <==> !h.raised && h.websocket && !h.isNull && h.accepted)
              && (replies[0].Proxy? <==> !h.raised && !h.websocket && !h.isNull && h.variant.ProxyTo?)
              // aborted: a refused upgrade, an outcome that asks for it, a proxy without an address
              && (replies[0].Abort? <==>
                  !h.raised && if h.websocket then h.isNull || !h.accepted
                               else !h.isNull && (h.variant.AbortRequested? || h.variant.ProxyWithoutUrl?))
              // answered here: an error that was caught, no outcome at all, a response
              && (replies[0].SendInline? <==>
                  || h.raised
                  || (!h.websocket && (h.isNull || h.variant.ResponseWithBody? || h.variant.ResponseWithoutBody?)))
  {
    replies := [];
    if h.gone {
      return;
    }
    if h.raised {
      replies := replies + [SendInline];
      return;
    }
    if h.late {
      return;
    }
    if h.websocket {
      if !h.isNull && h.accepted {
        replies := replies + [UpgradeToWebsocket];
      } else {
        replies := replies + [Abort];
      }
    } else if !h.isNull {
      match h.variant {
        case ResponseWithBody => replies := replies + [SendInline];
        case ResponseWithoutBody => replies := replies + [SendInline];
        case AbortRequested => replies := replies + [Abort];
        case ProxyTo => replies := replies + [Proxy];
        case ProxyWithoutUrl => replies := replies + [Abort];
        case UnknownVariant =>
      }
    } else {
      replies := replies + [SendInline];
    }
  }

  // ---- the event loop's own state ----

  datatype Gate = Gate(inFlight: nat, paused: set<Listener>, reading: set<Listener>)

  function Resumed(g: Gate): Gate {
    g.(reading := g.reading + g.paused, paused := {})
  }

  /** A readable listener is paused while a request is in flight. */
  function Accepted(g: Gate, l: Listener): Gate {
    if g.inFlight > 0 then g.(reading := g.reading - {l}, paused := g.paused + {l}) else g
  }

  /** One reply taken off the queue. */
  function Delivered(g: Gate): Gate {
    var g' := g.(inFlight := Decrement(g.inFlight));
    if g'.inFlight == 0 then Resumed(g') else g'
  }

  function DeliveredMany(g: Gate, n: nat): Gate {
    if n == 0 then g else Delivered(DeliveredMany(g, n - 1))
  }

  /** As long as no more replies come than requests are in flight, each counts down one,
      and the listeners are resumed exactly when the last has come. */
  lemma {:induction false} DeliveredManyValue(g: Gate, n: nat)
    requires n <= g.inFlight < U64
    ensures DeliveredMany(g, n) == if 0 < n == g.inFlight then Gate(0, {}, g.reading + g.paused)
                                   else g.(inFlight := g.inFlight - n)
  {
    if n > 0 {
      DeliveredManyValue(g, n - 1);
    }
  }

  class EventLoop {
    var requestsInFlight: nat
    var pausedListeners: set<Listener>
    var readingListeners: set<Listener>

    ghost function State(): Gate
      reads this
    {
      Gate(requestsInFlight, pausedListeners, readingListeners)
    }

    constructor (listeners: set<Listener>)
      ensures State() == Gate(0, {}, listeners)
    {
      requestsInFlight, pausedListeners, readingListeners := 0, {}, listeners;
    }

    method ResumePaused()
      modifies this
      ensures State() == Resumed(old(State()))
    {
      var left := pausedListeners;
      while left != {}
        invariant left <= old(pausedListeners) && pausedListeners == old(pausedListeners)
        invariant requestsInFlight == old(requestsInFlight)
        invariant readingListeners == old(readingListeners) + (old(pausedListeners) - left)
        decreases left
      {
        var l :| l in left;
        readingListeners := readingListeners + {l};
        left := left - {l};
      }
      pausedListeners := {};
    }

    method OnAccept(l: Listener)
      modifies this
      ensures State() == Accepted(old(State()), l)
    {
      if requestsInFlight > 0 {
        readingListeners := readingListeners - {l};
        pausedListeners := pausedListeners + {l};
      }
    }

    /** A request is handed to the handler, unless the worker is busy and the
        protocol lets it be passed on to another worker. */
    method OnRequest(httpVersion: nat) returns (handled: bool)
      modifies this
      ensures handled <==> !(old(requestsInFlight) > 0 && httpVersion >= 0x0200)
      ensures State() == old(State()).(inFlight := if handled then Increment(old(requestsInFlight)) else old(requestsInFlight))
    {
      if requestsInFlight > 0 && httpVersion >= 0x0200 {
        return false;
      }
      requestsInFlight := Increment(requestsInFlight);
      return true;
    }

    /** Takes a batch of replies off the queue. */
    method OnMessages(count: nat)
      modifies this
      ensures State() == DeliveredMany(old(State()), count)
      ensures count < old(requestsInFlight) < U64 ==>
                State() == old(State()).(inFlight := old(requestsInFlight) - count)
      ensures 0 < count == old(requestsInFlight) < U64 ==>
                requestsInFlight == 0 && pausedListeners == {} && readingListeners == old(readingListeners + pausedListeners)
    {
      if count <= requestsInFlight < U64 {
        DeliveredManyValue(State(), count);
      }
      for i := 0 to count
        invariant State() == DeliveredMany(old(State()), i)
      {
        requestsInFlight := Decrement(requestsInFlight);
        if requestsInFlight == 0 {
          ResumePaused();
        }
      }
    }
  }

  // ---- requests, replies and runs ----

  /** Accepted requests are with the handler, or answered with the reply on the
      queue, or lost: finished without a reply. */
  datatype World = World(gate: Gate, listeners: set<Listener>, handling: set<Request>, replies: seq<Request>,
                         lost: set<Request>, polling: bool)

  datatype Action =
    | EnterPoll | LeavePoll | Reload(listeners: set<Listener>)
    | Readable(listener: Listener) | Arrive(request: Request, httpVersion: nat)
    | HandlerReplies(request: Request) | HandlerDrops(request: Request) | Deliver

  predicate Enabled(w: World, a: Action) {
    match a
    case EnterPoll => !w.polling
    case LeavePoll => w.polling
    case Reload(_) => true
    case Readable(l) => w.polling && l in w.gate.reading
    case Arrive(r, _) => w.polling && r !in w.handling && r !in w.replies && r !in w.lost
    case HandlerReplies(r) => r in w.handling
    case HandlerDrops(r) => r in w.handling
    case Deliver => w.polling && w.replies != []
  }

  function Next(w: World, a: Action): World
    requires Enabled(w, a)
  {
    match a
    case EnterPoll => w.(polling := true)
    case LeavePoll => w.(polling := false, gate := Resumed(w.gate))
    case Reload(ls) => w.(listeners := ls, gate := w.gate.(reading := ls - w.gate.paused))
    case Readable(l) => w.(gate := Accepted(w.gate, l))
    case Arrive(r, version) =>
      if w.gate.inFlight > 0 && version >= 0x0200 then w
      else w.(gate := w.gate.(inFlight := Increment(w.gate.inFlight)), handling := w.handling + {r})
    case HandlerReplies(r) => w.(handling := w.handling - {r}, replies := w.replies + [r])
    case HandlerDrops(r) => w.(handling := w.handling - {r}, lost := w.lost + {r})
    case Deliver => w.(gate := Delivered(w.gate), replies := w.replies[1..])
  }

  /** The step that handling a request amounts to. */
  function HandlerStep(r: Request, h: Handling): Action {
    if Unanswered(h) then HandlerDrops(r) else HandlerReplies(r)
  }

  /** Handling a request queues as many replies as the handler made, and loses the
      request exactly when there was none. */
  method HandleRequest(w: World, r: Request, h: Handling) returns (w': World, replies: seq<Reply>)
    requires r in w.handling
    ensures w' == Next(w, HandlerStep(r, h))
    ensures |w'.replies| == |w.replies| + |replies| && r !in w'.handling
    ensures r in w'.lost <==> r in w.lost || replies == []
  {
    replies := Handle(h);
    if replies == [] {
      w' := w.(handling := w.handling - {r}, lost := w.lost + {r});
    } else {
      w' := w.(handling := w.handling - {r}, replies := w.replies + [r]);
    }
  }

  /** The counter is the number of accepted requests not yet answered. */
  ghost predicate Accounted(w: World) {
    && w.gate.inFlight == |w.handling| + |w.replies| + |w.lost| < U64
    && (forall r | r in w.replies :: r !in w.handling && r !in w.lost) && w.handling !! w.lost
  }

  /** A request that is counted does not fill the counter up. */
  predicate HasRoom(w: World, a: Action) {
    a.Arrive? && !(w.gate.inFlight > 0 && a.httpVersion >= 0x0200) ==> w.gate.inFlight + 1 < U64
  }

  /** Every listener is either reading or paused; listeners are paused only while
      the counter is positive, and none is outside the poll loop. */
  ghost predicate GateOk(w: World) {
    && w.gate.paused + w.gate.reading == w.listeners && w.gate.paused !! w.gate.reading
    && (w.gate.paused != {} ==> w.gate.inFlight > 0)
    && (!w.polling ==> w.gate.paused == {})
  }

  lemma ArrivalAccountedIff(w: World, a: Action)
    requires Accounted(w) && Enabled(w, a) && a.Arrive?
    ensures Accounted(Next(w, a)) <==> HasRoom(w, a)
  {
    assert |w.handling + {a.request}| == |w.handling| + 1;
  }

  lemma HandlerAccounted(w: World, a: Action)
    requires Accounted(w) && Enabled(w, a) && (a.HandlerReplies? || a.HandlerDrops?)
    ensures Accounted(Next(w, a))
  {
    assert |w.handling - {a.request}| == |w.handling| - 1;
  }

  lemma LoopAccounted(w: World, a: Action)
    requires Accounted(w) && Enabled(w, a) && !a.Arrive? && !a.HandlerReplies? && !a.HandlerDrops?
    ensures Accounted(Next(w, a))
  {
    if a.Deliver? {
      assert w.replies == [w.replies[0]] + w.replies[1..];
    }
  }

  /** A step keeps the account exactly when the counter has room for it. */
  lemma StaysAccountedIff(w: World, a: Action)
    requires Accounted(w) && Enabled(w, a)
    ensures Accounted(Next(w, a)) <==> HasRoom(w, a)
  {
    if a.Arrive? {
      ArrivalAccountedIff(w, a);
    } else if a.HandlerReplies? || a.HandlerDrops? {
      HandlerAccounted(w, a);
    } else {
      LoopAccounted(w, a);
    }
  }

  /** Replacing the listeners, of which those that are kept go on as they were,
      keeps the gate consistent exactly when every paused one is kept. */
  lemma ReloadKeepsGateIff(w: World, listeners: set<Listener>)
    requires GateOk(w)
    ensures GateOk(Next(w, Reload(listeners))) <==> w.gate.paused <= listeners
  {
    var g := Next(w, Reload(listeners)).gate;
    assert g.paused <= g.paused + g.reading;
  }

  lemma GateStaysOk(w: World, a: Action)
    requires GateOk(w) && Enabled(w, a) && !a.Reload?
    requires w.gate.inFlight < U64 && HasRoom(w, a) && (a.Deliver? ==> w.gate.inFlight > 0)
    ensures GateOk(Next(w, a))
  {
  }

  // ---- runs ----

  ghost predicate StepAt(run: seq<World>, actions: seq<Action>, i: nat)
    requires i < |actions| && i + 1 < |run|
  {
    Enabled(run[i], actions[i]) && run[i + 1] == Next(run[i], actions[i])
  }

  function Start(listeners: set<Listener>): World {
    World(Gate(0, {}, listeners), listeners, {}, [], {}, false)
  }

  ghost predicate IsRun(run: seq<World>, actions: seq<Action>) {
    && |run| == |actions| + 1
    && run[0] == Start(run[0].listeners)
    && forall i {:trigger StepAt(run, actions, i)} | 0 <= i < |actions| :: StepAt(run, actions, i)
  }

  /** Fewer than 2^64 requests are unanswered at any one time up to state n. */
  ghost predicate RoomUpTo(run: seq<World>, actions: seq<Action>, n: nat)
    requires |run| == |actions| + 1 && n < |run|
  {
    forall k | 0 <= k < n :: HasRoom(run[k], actions[k])
  }

  /** In every run with room, the counter is the number of requests being handled,
      answered with the reply still queued, or lost. */
  lemma {:induction false} RunAccounts(run: seq<World>, actions: seq<Action>, i: nat)
    requires IsRun(run, actions) && i < |run| && RoomUpTo(run, actions, i)
    ensures Accounted(run[i])
  {
    if i > 0 {
      RunAccounts(run, actions, i - 1);
      assert StepAt(run, actions, i - 1);
      StaysAccountedIff(run[i - 1], actions[i - 1]);
    }
  }

  /** No reply takes the counter below zero. */
  lemma CounterNeverUnderflows(run: seq<World>, actions: seq<Action>, i: nat)
    requires IsRun(run, actions) && i < |run| && RoomUpTo(run, actions, i) && run[i].replies != []
    ensures run[i].gate.inFlight > 0 && Decrement(run[i].gate.inFlight) == run[i].gate.inFlight - 1
  {
    RunAccounts(run, actions, i);
    assert |run[i].replies| > 0;
  }

  /** Up to state n, no reload disposes of a paused listener. The suspension of the
      poll loop during a reload is meant to ensure this. */
  ghost predicate PausedAreKept(run: seq<World>, actions: seq<Action>, n: nat)
    requires |actions| == |run| - 1 && n < |run|
  {
    forall k | 0 <= k < n && actions[k].Reload? :: run[k].gate.paused <= actions[k].listeners
  }

  lemma {:induction false} GateOkUpTo(run: seq<World>, actions: seq<Action>, n: nat)
    requires IsRun(run, actions) && n < |run| && RoomUpTo(run, actions, n) && PausedAreKept(run, actions, n)
    ensures GateOk(run[n])
  {
    if n > 0 {
      GateOkUpTo(run, actions, n - 1);
      RunAccounts(run, actions, n - 1);
      assert StepAt(run, actions, n - 1);
      var w, a := run[n - 1], actions[n - 1];
      if a.Reload? {
        ReloadKeepsGateIff(w, a.listeners);
      } else {
        assert a.Deliver? ==> |w.replies| > 0;
        GateStaysOk(w, a);
      }
    }
  }

  /** In every run: the gate is consistent at every state if and only if no
      reload disposed of a paused listener. */
  lemma GateOkIff(run: seq<World>, actions: seq<Action>, n: nat)
    requires IsRun(run, actions) && n < |run| && RoomUpTo(run, actions, n)
    ensures (forall i | 0 <= i <= n :: GateOk(run[i])) <==> PausedAreKept(run, actions, n)
  {
    if PausedAreKept(run, actions, n) {
      forall i | 0 <= i <= n ensures GateOk(run[i]) {
        GateOkUpTo(run, actions, i);
      }
    } else {
      var k :| 0 <= k < n && actions[k].Reload? && !(run[k].gate.paused <= actions[k].listeners);
      assert StepAt(run, actions, k);
      if GateOk(run[k]) {
        ReloadKeepsGateIff(run[k], actions[k].listeners);
      }
    }
  }

  /** Outside the poll loop no listener is paused, so exclusion is enough. */
  lemma {:induction false} ExclusionSuffices(run: seq<World>, actions: seq<Action>, n: nat)
    requires IsRun(run, actions) && n < |run| && RoomUpTo(run, actions, n)
    requires forall k | 0 <= k < n && actions[k].Reload? :: !run[k].polling
    ensures PausedAreKept(run, actions, n)
  {
    if n > 0 {
      ExclusionSuffices(run, actions, n - 1);
      GateOkUpTo(run, actions, n - 1);
    }
  }

  /** When reloads dispose of no paused listener: none is left paused when the loop leaves
      its poll loop or the counter is zero, and a listener is never both, nor
      neither, reading and paused. */
  lemma BackpressureIsSafe(run: seq<World>, actions: seq<Action>, i: nat)
    requires IsRun(run, actions) && i < |run| && RoomUpTo(run, actions, i) && PausedAreKept(run, actions, i)
    ensures !run[i].polling || run[i].gate.inFlight == 0 ==> run[i].gate.paused == {} && run[i].gate.reading == run[i].listeners
    ensures forall l | l in run[i].listeners :: l in run[i].gate.reading <==> l !in run[i].gate.paused
  {
    GateOkUpTo(run, actions, i);
  }

  lemma ExtendRun(run: seq<World>, actions: seq<Action>, a: Action)
    returns (longer: seq<World>, more: seq<Action>)
    requires IsRun(run, actions) && Enabled(run[|run| - 1], a)
    ensures IsRun(longer, more) && longer == run + [Next(run[|run| - 1], a)] && more == actions + [a]
  {
    longer, more := run + [Next(run[|run| - 1], a)], actions + [a];
    forall i | 0 <= i < |more| ensures StepAt(longer, more, i) {
      if i < |actions| {
        assert StepAt(run, actions, i);
      }
    }
  }

  /** A reload during polling can leave a listener paused that the worker no longer has. */
  lemma ReloadWhilePollingStrands(l: Listener) returns (run: seq<World>, actions: seq<Action>)
    ensures IsRun(run, actions)
    ensures var w := run[|run| - 1]; l in w.gate.paused && l !in w.listeners
  {
    run, actions := [Start({l})], [];
    run, actions := ExtendRun(run, actions, EnterPoll);
    run, actions := ExtendRun(run, actions, Arrive(0, 0x0101));
    run, actions := ExtendRun(run, actions, Readable(l));
    run, actions := ExtendRun(run, actions, Reload({}));
  }

  // ---- requests that get no reply ----

  // One step after a request was lost: the counter stays up, and a paused listener stays paused.
  lemma LostStays(w: World, a: Action, l: Listener)
    requires Accounted(w) && HasRoom(w, a) && Enabled(w, a) && w.lost != {}
    ensures Next(w, a).lost != {} && Next(w, a).gate.inFlight > 0
    ensures l in w.gate.paused && !a.LeavePoll? ==> l in Next(w, a).gate.paused
  {
  }

  /** A request dropped without a reply is never counted down: for the rest of the
      run the counter stays positive, and a listener that is paused stays paused as
      long as the loop goes on polling. */
  lemma {:induction false} LostRequestKeepsPressure(run: seq<World>, actions: seq<Action>, i: nat, j: nat, l: Listener)
    requires IsRun(run, actions) && i < j < |run| && RoomUpTo(run, actions, j) && run[i].lost != {}
    ensures run[j].lost != {} && run[j].gate.inFlight > 0
    ensures l in run[i].gate.paused && (forall k | i <= k <= j :: run[k].polling) ==> l in run[j].gate.paused
    decreases j
  {
    if i < j - 1 {
      LostRequestKeepsPressure(run, actions, i, j - 1, l);
    }
    RunAccounts(run, actions, j - 1);
    assert StepAt(run, actions, j - 1);
    LostStays(run[j - 1], actions[j - 1], l);
    assert run[j].polling ==> !actions[j - 1].LeavePoll?;
  }

  /** In every run, once nothing is being handled and no reply is queued, the
      pressure is off if and only if no request was ever lost. */
  lemma PressureEndsIff(run: seq<World>, actions: seq<Action>, i: nat)
    requires IsRun(run, actions) && i < |run| && RoomUpTo(run, actions, i)
    requires run[i].handling == {} && run[i].replies == []
    ensures run[i].gate.inFlight == 0 <==> run[i].lost == {}
  {
    RunAccounts(run, actions, i);
  }

  /** One request whose connection goes away while it waits for the handler is enough. */
  lemma OneLostRequest(r: Request) returns (run: seq<World>, actions: seq<Action>)
    ensures IsRun(run, actions)
    ensures var w := run[|run| - 1]; w.handling == {} && w.replies == [] && w.lost == {r} && w.gate.inFlight == 1
  {
    run, actions := [Start({})], [];
    run, actions := ExtendRun(run, actions, EnterPoll);
    run, actions := ExtendRun(run, actions, Arrive(r, 0x0101));
    run, actions := ExtendRun(run, actions, HandlerDrops(r));
  }
}
