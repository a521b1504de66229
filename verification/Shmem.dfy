/** Named shared-memory allocations, reference-counted across backends. */
module Shmem {
  import opened Basics

  const NAMEDATALEN: nat := 64

  datatype Key = Key(moduleId: nat, name: string)

  /** Names are at most one byte shorter than their field. */
  predicate Short(k: Key) {
    |k.name| <= NAMEDATALEN - 1
  }

  type Byte = b: nat | b < 256

  /** A backend's record of an acquisition. Of the name's field only the last byte is
      not written: it is what the memory happened to hold. */
  datatype Rec = Rec(key: Key, last: Byte)

  /** The string comparison of a release: a name that fills its field up to the last
      byte compares equal only when that byte ends it. */
  predicate Names(r: Rec, k: Key) {
    r.key == k && (|k.name| < NAMEDATALEN - 1 || r.last == 0)
  }

  /** The bytewise lookup of an exiting backend: the table's keys have a zero there. */
  predicate Finds(r: Rec, k: Key) {
    r.key == k && r.last == 0
  }

  /** Live allocations and their 32-bit reference counters. */
  type Counters = map<Key, nat>

  const U32: nat := 0x1_0000_0000

  function Increment(n: nat): nat {
    (n + 1) % U32
  }

  function Decrement(n: nat): nat {
    (n + U32 - 1) % U32
  }

  // ---- effect of the operations on the shared table ----

  function Entered(c: Counters, k: Key): Counters {
    c[k := Increment(if k in c then c[k] else 0)]
  }

  function Found(c: Counters, k: Key): Counters {
    if k in c then c[k := Increment(c[k])] else c
  }

  /** The entry is deleted, and its memory freed, when the counter reaches zero. */
  function Released(c: Counters, k: Key): Counters {
    if k !in c then c
    else if Decrement(c[k]) == 0 then c - {k}
    else c[k := Decrement(c[k])]
  }

  /** n decrements of one counter, which is not deleted even at zero. */
  function DecrementBy(c: nat, n: nat): nat {
    if n == 0 then c else Decrement(DecrementBy(c, n - 1))
  }

  // ---- effect on a backend's own list of acquisitions ----

  /** Every record that names k is dropped, however many there are. */
  function WithoutKey(acq: seq<Rec>, k: Key): seq<Rec> {
    if acq == [] then []
    else if Names(acq[0], k) then WithoutKey(acq[1..], k)
    else [acq[0]] + WithoutKey(acq[1..], k)
  }

  function WithoutModule(acq: seq<Rec>, m: nat): seq<Rec> {
    if acq == [] then []
    else if acq[0].key.moduleId == m then WithoutModule(acq[1..], m)
    else [acq[0]] + WithoutModule(acq[1..], m)
  }

  /** The records that name k. */
  function Count(acq: seq<Rec>, k: Key): nat {
    if acq == [] then 0 else (if Names(acq[0], k) then 1 else 0) + Count(acq[1..], k)
  }

  /** The records by which the table finds k. */
  function Findable(acq: seq<Rec>, k: Key): nat {
    if acq == [] then 0 else (if Finds(acq[0], k) then 1 else 0) + Findable(acq[1..], k)
  }

  /** A backend exiting gives back one reference per record of its modules that the
      table finds. */
  function Exited(c: Counters, acq: seq<Rec>, modules: set<nat>): Counters {
    map k | k in c :: if k.moduleId in modules then DecrementBy(c[k], Findable(acq, k)) else c[k]
  }

  // ---- many backends ----

  /** Taking or dropping a reference is one step under the allocation lock, and
      recording it in the backend's own list is a later step. */
  datatype Pc = Ready | Recording(key: Key) | Forgetting(key: Key)

  datatype Backend = Backend(acq: seq<Rec>, pc: Pc)

  datatype World = World(counters: Counters, backends: seq<Backend>)

  datatype Action =
    | Allocate(key: Key) | Lookup(key: Key) | Record(last: Byte) | InitFails
    | Deallocate(key: Key) | Forget
    | Unload(moduleId: nat) | Exit(modules: set<nat>) | Vanish

  predicate Enabled(w: World, b: nat, a: Action)
    requires b < |w.backends|
  {
    var be := w.backends[b];
    match a
    case Allocate(k) => be.pc.Ready? && Short(k)
    case Lookup(k) => be.pc.Ready? && Short(k)
    case Deallocate(k) => be.pc.Ready? && Short(k)
    case Record(_) => be.pc.Recording?
    case InitFails => be.pc.Recording?
    case Forget => be.pc.Forgetting?
    case Vanish => true
    case _ => be.pc.Ready?
  }

  function With(w: World, counters: Counters, b: nat, acq: seq<Rec>, pc: Pc): World
    requires b < |w.backends|
  {
    World(counters, w.backends[b := Backend(acq, pc)])
  }

  function Next(w: World, b: nat, a: Action): World
    requires b < |w.backends| && Enabled(w, b, a)
  {
    var c, be := w.counters, w.backends[b];
    match a
    case Allocate(k) => With(w, Entered(c, k), b, be.acq, Recording(k))
    case Lookup(k) => With(w, Found(c, k), b, be.acq, if k in c then Recording(k) else Ready)
    case Record(last) => With(w, c, b, be.acq + [Rec(be.pc.key, last)], Ready)
    case InitFails => With(w, c, b, be.acq, Ready)
    case Deallocate(k) => With(w, Released(c, k), b, be.acq, if k in c && Count(be.acq, k) > 0 then Forgetting(k) else Ready)
    case Forget => With(w, c, b, WithoutKey(be.acq, be.pc.key), Ready)
    case Unload(m) => With(w, c, b, WithoutModule(be.acq, m), Ready)
    case Exit(modules) => With(w, Exited(c, be.acq, modules), b, [], Ready)
    case Vanish => With(w, c, b, [], Ready)
  }

  /** How many references of k a backend still has to give back, by what its records name. */
  function Owed(be: Backend, k: Key): int {
    Count(be.acq, k) + (if be.pc == Recording(k) then 1 else 0) - (if be.pc == Forgetting(k) then 1 else 0)
  }

  function Total(backends: seq<Backend>, k: Key): int {
    if backends == [] then 0 else Owed(backends[0], k) + Total(backends[1..], k)
  }

  function Refs(c: Counters, k: Key): nat {
    if k in c then c[k] else 0
  }

  ghost predicate GoodBackend(be: Backend) {
    be.pc.Forgetting? ==> Count(be.acq, be.pc.key) > 0
  }

  ghost predicate AllGood(w: World) {
    forall be | be in w.backends :: GoodBackend(be)
  }

  /** A release by a backend of whose records none names the allocation. */
  predicate Stray(w: World, b: nat, a: Action)
    requires b < |w.backends|
  {
    a.Deallocate? && a.key in w.counters && Count(w.backends[b].acq, a.key) == 0
  }

  /** References to k that a step leaves counted although nobody will give them back;
      a stray release gives one of them back. */
  function Leak(w: World, b: nat, a: Action, k: Key): int
    requires b < |w.backends| && Enabled(w, b, a)
  {
    var be := w.backends[b];
    match a
    case Record(last) => if be.pc.key == k && !Names(Rec(k, last), k) then 1 else 0
    case InitFails => if be.pc.key == k then 1 else 0
    case Forget => if be.pc.key == k then Count(be.acq, k) - 1 else 0
    case Unload(m) => if k.moduleId == m then Count(be.acq, k) else 0
    case Exit(modules) => Count(be.acq, k) - if k.moduleId in modules then Findable(be.acq, k) else 0
    case Vanish => Owed(be, k)
    case Deallocate(x) => if Stray(w, b, a) && x == k then -1 else 0
    case _ => 0
  }

  /** The counter of k is what the backends owe and what has leaked. */
  ghost predicate Balanced(w: World, k: Key, leaked: int) {
    Refs(w.counters, k) == Total(w.backends, k) + leaked && leaked >= 0 && Refs(w.counters, k) < U32
  }

  /** The step does not fill a counter up, and a stray release finds more references
      counted than are owed. */
  predicate Careful(w: World, b: nat, a: Action)
    requires b < |w.backends|
  {
    match a
    case Allocate(k) => Refs(w.counters, k) + 1 < U32
    case Lookup(k) => k in w.counters ==> w.counters[k] + 1 < U32
    case Deallocate(k) => Stray(w, b, a) ==> Total(w.backends, k) < w.counters[k]
    case _ => true
  }

  lemma {:induction false} CountAppend(acq: seq<Rec>, x: Rec, k: Key)
    ensures Count(acq + [x], k) == Count(acq, k) + if Names(x, k) then 1 else 0
  {
    if acq != [] {
      assert (acq + [x])[1..] == acq[1..] + [x];
      CountAppend(acq[1..], x, k);
    }
  }

  lemma {:induction false} FindableAppend(acq: seq<Rec>, x: Rec, k: Key)
    ensures Findable(acq + [x], k) == Findable(acq, k) + if Finds(x, k) then 1 else 0
  {
    if acq != [] {
      assert (acq + [x])[1..] == acq[1..] + [x];
      FindableAppend(acq[1..], x, k);
    }
  }

  /** Every record by which the table finds k names it; all that name it are found
      exactly when none of them has a stray last byte. */
  lemma {:induction false} FindableIffClean(acq: seq<Rec>, k: Key)
    ensures Findable(acq, k) <= Count(acq, k)
    ensures Findable(acq, k) == Count(acq, k) <==> forall r | r in acq && Names(r, k) :: r.last == 0
  {
    if acq != [] {
      FindableIffClean(acq[1..], k);
      assert forall r | r in acq :: r == acq[0] || r in acq[1..];
    }
  }

  lemma {:induction false} CountWithoutKey(acq: seq<Rec>, x: Key, k: Key)
    ensures Count(WithoutKey(acq, x), k) == if k == x then 0 else Count(acq, k)
    ensures forall r :: multiset(WithoutKey(acq, x))[r] == if Names(r, x) then 0 else multiset(acq)[r]
  {
    if acq != [] {
      CountWithoutKey(acq[1..], x, k);
      assert acq == [acq[0]] + acq[1..];
      var rest := WithoutKey(acq[1..], x);
      assert !Names(acq[0], x) ==> ([acq[0]] + rest)[1..] == rest;
    }
  }

  lemma {:induction false} WithoutUnnamed(acq: seq<Rec>, k: Key)
    ensures Count(acq, k) == 0 ==> WithoutKey(acq, k) == acq
  {
    if acq != [] {
      WithoutUnnamed(acq[1..], k);
    }
  }

  lemma {:induction false} CountWithoutModule(acq: seq<Rec>, m: nat, k: Key)
    ensures Count(WithoutModule(acq, m), k) == if k.moduleId == m then 0 else Count(acq, k)
    ensures forall r :: multiset(WithoutModule(acq, m))[r] == if r.key.moduleId == m then 0 else multiset(acq)[r]
  {
    if acq != [] {
      CountWithoutModule(acq[1..], m, k);
      assert acq == [acq[0]] + acq[1..];
      var rest := WithoutModule(acq[1..], m);
      assert acq[0].key.moduleId != m ==> ([acq[0]] + rest)[1..] == rest;
    }
  }

  lemma {:induction false} TotalUpdate(bs: seq<Backend>, b: nat, be: Backend, k: Key)
    requires b < |bs|
    ensures Total(bs[b := be], k) == Total(bs, k) - Owed(bs[b], k) + Owed(be, k)
  {
    if b > 0 {
      assert bs[b := be][1..] == bs[1..][b - 1 := be];
      TotalUpdate(bs[1..], b - 1, be, k);
    } else {
      assert bs[b := be][1..] == bs[1..];
    }
  }

  lemma OwedIsNatural(be: Backend, k: Key)
    requires GoodBackend(be)
    ensures Owed(be, k) >= 0
  {
  }

  lemma {:induction false} OwedWithinTotal(bs: seq<Backend>, b: nat, k: Key)
    requires b < |bs| && forall be | be in bs :: GoodBackend(be)
    ensures 0 <= Owed(bs[b], k) <= Total(bs, k)
  {
    assert bs[0] in bs;
    OwedIsNatural(bs[0], k);
    if |bs| > 1 {
      OwedWithinTotal(bs[1..], if b == 0 then 0 else b - 1, k);
    }
    if b > 0 {
      assert bs[1..][b - 1] == bs[b];
    }
  }

  lemma TotalIsNatural(bs: seq<Backend>, k: Key)
    requires forall be | be in bs :: GoodBackend(be)
    ensures Total(bs, k) >= 0
  {
    if bs != [] {
      OwedWithinTotal(bs, 0, k);
    }
  }

  lemma {:induction false} DecrementByIsMinus(c: nat, n: nat)
    requires n <= c < U32
    ensures DecrementBy(c, n) == c - n
  {
    if n > 0 {
      DecrementByIsMinus(c, n - 1);
    }
  }

  // What a step changes of what its backend owes of k, and of the counter, and what it leaks, add up.
  ghost predicate AddsUp(w: World, b: nat, a: Action, k: Key)
    requires b < |w.backends| && Enabled(w, b, a)
  {
    var w' := Next(w, b, a);
    && Refs(w'.counters, k) - Refs(w.counters, k)
       == Owed(w'.backends[b], k) - Owed(w.backends[b], k) + Leak(w, b, a, k)
    && Refs(w'.counters, k) < U32
  }

  lemma RecordStepAddsUp(w: World, b: nat, a: Action, k: Key)
    requires b < |w.backends| && Enabled(w, b, a) && Refs(w.counters, k) < U32
    requires a.Record? || a.InitFails? || a.Forget? || a.Unload? || a.Vanish?
    ensures AddsUp(w, b, a, k)
  {
    var be := w.backends[b];
    match a {
      case Record(last) => CountAppend(be.acq, Rec(be.pc.key, last), k);
      case Forget => CountWithoutKey(be.acq, be.pc.key, k);
      case Unload(m) => CountWithoutModule(be.acq, m, k);
      case _ =>
    }
  }

  lemma ExitAddsUp(w: World, b: nat, a: Action, k: Key)
    requires b < |w.backends| && Enabled(w, b, a) && a.Exit? && Refs(w.counters, k) < U32
    requires Owed(w.backends[b], k) <= Refs(w.counters, k)
    ensures AddsUp(w, b, a, k)
  {
    FindableIffClean(w.backends[b].acq, k);
    DecrementByIsMinus(Refs(w.counters, k), Findable(w.backends[b].acq, k));
  }

  lemma CounterStepAddsUp(w: World, b: nat, a: Action, k: Key)
    requires b < |w.backends| && Enabled(w, b, a) && Refs(w.counters, k) < U32 && Careful(w, b, a)
    requires a.Allocate? || a.Lookup? || a.Deallocate?
    requires a.Deallocate? && a.key in w.counters && a.key == k ==> w.counters[k] > 0
    ensures AddsUp(w, b, a, k)
  {
  }

  // A careful step changes the counter by what it changes of what is owed, and by what it leaks.
  lemma StepBalances(w: World, b: nat, a: Action, k: Key, leaked: int)
    requires AllGood(w) && b < |w.backends| && Enabled(w, b, a) && Balanced(w, k, leaked) && Careful(w, b, a)
    ensures AddsUp(w, b, a, k) && leaked + Leak(w, b, a, k) >= 0
  {
    var be := w.backends[b];
    assert be in w.backends && GoodBackend(be);
    OwedWithinTotal(w.backends, b, k);
    FindableIffClean(be.acq, k);
    if a.Exit? {
      ExitAddsUp(w, b, a, k);
    } else if a.Allocate? || a.Lookup? || a.Deallocate? {
      CounterStepAddsUp(w, b, a, k);
    } else {
      RecordStepAddsUp(w, b, a, k);
    }
  }

  lemma StepStaysGood(w: World, b: nat, a: Action)
    requires AllGood(w) && b < |w.backends| && Enabled(w, b, a)
    ensures AllGood(Next(w, b, a))
  {
    var w' := Next(w, b, a);
    forall be | be in w'.backends ensures GoodBackend(be) {
      var i :| 0 <= i < |w'.backends| && w'.backends[i] == be;
      if i != b {
        assert w.backends[i] in w.backends;
      }
    }
  }

  lemma StepKeeps(w: World, b: nat, a: Action, k: Key, leaked: int)
    requires AllGood(w) && b < |w.backends| && Enabled(w, b, a) && Balanced(w, k, leaked) && Careful(w, b, a)
    ensures Balanced(Next(w, b, a), k, leaked + Leak(w, b, a, k))
  {
    StepBalances(w, b, a, k, leaked);
    TotalUpdate(w.backends, b, Next(w, b, a).backends[b], k);
  }

  // A careless step upsets the balance of its key.
  lemma CarelessStepBreaks(w: World, b: nat, a: Action, leaked: int)
    requires AllGood(w) && b < |w.backends| && Enabled(w, b, a) && !Careful(w, b, a) && Balanced(w, a.key, leaked)
    ensures !Balanced(Next(w, b, a), a.key, leaked + Leak(w, b, a, a.key))
  {
    OwedWithinTotal(w.backends, b, a.key);
    TotalUpdate(w.backends, b, Next(w, b, a).backends[b], a.key);
  }

  /** A stray release neither wraps the counter nor takes it below what is owed if and
      only if the counter was above what is owed, that is, if a reference had leaked. */
  lemma StrayReleaseSafeIff(w: World, k: Key, leaked: int)
    requires AllGood(w) && Balanced(w, k, leaked) && k in w.counters
    ensures Decrement(w.counters[k]) + 1 == w.counters[k] && Total(w.backends, k) <= Refs(Released(w.counters, k), k)
       <==> Total(w.backends, k) < w.counters[k]
    ensures Total(w.backends, k) < w.counters[k] <==> leaked > 0
  {
    TotalIsNatural(w.backends, k);
  }

  // ---- runs ----

  /** A step and the backend that takes it. */
  datatype Move = Move(b: nat, a: Action)

  ghost predicate StepAt(run: seq<World>, moves: seq<Move>, i: nat)
    requires i < |moves| && i + 1 < |run|
  {
    && moves[i].b < |run[i].backends| && Enabled(run[i], moves[i].b, moves[i].a)
    && run[i + 1] == Next(run[i], moves[i].b, moves[i].a)
  }

  /** Runs start with nothing allocated. */
  ghost predicate IsRun(run: seq<World>, moves: seq<Move>) {
    && |run| == |moves| + 1
    && run[0].counters == map[] && (forall be | be in run[0].backends :: be == Backend([], Ready))
    && forall i {:trigger StepAt(run, moves, i)} | 0 <= i < |moves| :: StepAt(run, moves, i)
  }

  /** What has leaked of k by state i. */
  ghost function Leaked(run: seq<World>, moves: seq<Move>, i: nat, k: Key): int
    requires IsRun(run, moves) && i < |run|
  {
    if i == 0 then 0
    else
      assert StepAt(run, moves, i - 1);
      Leaked(run, moves, i - 1, k) + Leak(run[i - 1], moves[i - 1].b, moves[i - 1].a, k)
  }

  ghost predicate BalancedAt(run: seq<World>, moves: seq<Move>, i: nat)
    requires IsRun(run, moves) && i < |run|
  {
    forall k :: Balanced(run[i], k, Leaked(run, moves, i, k))
  }

  ghost predicate CarefulAt(run: seq<World>, moves: seq<Move>, i: nat)
    requires IsRun(run, moves) && i < |moves|
  {
    assert StepAt(run, moves, i);
    Careful(run[i], moves[i].b, moves[i].a)
  }

  ghost predicate CarefulUpTo(run: seq<World>, moves: seq<Move>, n: nat)
    requires IsRun(run, moves) && n < |run|
  {
    forall i {:trigger CarefulAt(run, moves, i)} | 0 <= i < n :: CarefulAt(run, moves, i)
  }

  lemma {:induction false} NothingOwed(bs: seq<Backend>, k: Key)
    requires forall be | be in bs :: be == Backend([], Ready)
    ensures Total(bs, k) == 0
  {
    if bs != [] {
      assert forall be | be in bs[1..] :: be in bs;
      assert bs[0] in bs;
      NothingOwed(bs[1..], k);
    }
  }

  lemma {:induction false} RunStaysGood(run: seq<World>, moves: seq<Move>, i: nat)
    requires IsRun(run, moves) && i < |run|
    ensures AllGood(run[i])
  {
    if i > 0 {
      RunStaysGood(run, moves, i - 1);
      assert StepAt(run, moves, i - 1);
      StepStaysGood(run[i - 1], moves[i - 1].b, moves[i - 1].a);
    }
  }

  /** In every run of careful steps, each counter is exactly what the backends owe and
      what has leaked. */
  lemma {:induction false} RunBalances(run: seq<World>, moves: seq<Move>, i: nat, k: Key)
    requires IsRun(run, moves) && i < |run| && CarefulUpTo(run, moves, i)
    ensures Balanced(run[i], k, Leaked(run, moves, i, k))
  {
    if i == 0 {
      NothingOwed(run[0].backends, k);
    } else {
      RunBalances(run, moves, i - 1, k);
      RunStaysGood(run, moves, i - 1);
      assert StepAt(run, moves, i - 1) && CarefulAt(run, moves, i - 1);
      StepKeeps(run[i - 1], moves[i - 1].b, moves[i - 1].a, k, Leaked(run, moves, i - 1, k));
    }
  }

  /** Of any run whatever: the accounts are exact at every state if and only if every
      step was careful. */
  lemma BalancedIffCareful(run: seq<World>, moves: seq<Move>, n: nat)
    requires IsRun(run, moves) && n < |run|
    ensures (forall i | 0 <= i <= n :: BalancedAt(run, moves, i)) <==> CarefulUpTo(run, moves, n)
  {
    if CarefulUpTo(run, moves, n) {
      forall i, k | 0 <= i <= n ensures Balanced(run[i], k, Leaked(run, moves, i, k)) {
        RunBalances(run, moves, i, k);
      }
    } else {
      var i :| 0 <= i < n && !CarefulAt(run, moves, i);
      if BalancedAt(run, moves, i) {
        CarelessMoveBreaks(run, moves, i);
      }
    }
  }

  lemma CarelessMoveBreaks(run: seq<World>, moves: seq<Move>, i: nat)
    requires IsRun(run, moves) && i < |moves| && !CarefulAt(run, moves, i) && BalancedAt(run, moves, i)
    ensures !BalancedAt(run, moves, i + 1)
  {
    RunStaysGood(run, moves, i);
    assert StepAt(run, moves, i);
    var a := moves[i].a;
    assert Balanced(run[i], a.key, Leaked(run, moves, i, a.key));
    CarelessStepBreaks(run[i], moves[i].b, a, Leaked(run, moves, i, a.key));
    assert !Balanced(run[i + 1], a.key, Leaked(run, moves, i + 1, a.key));
  }

  /** In every careful run, what is not live, and so has been freed, is neither owed by
      any backend nor leaked: the only record that names it is the one whose release
      freed it. */
  lemma FreedOnlyWhenUnused(run: seq<World>, moves: seq<Move>, i: nat, k: Key, c: nat)
    requires IsRun(run, moves) && i < |run| && CarefulUpTo(run, moves, i) && c < |run[i].backends|
    requires k !in run[i].counters
    ensures Owed(run[i].backends[c], k) == 0 && Leaked(run, moves, i, k) == 0
    ensures Count(run[i].backends[c].acq, k) > 0 ==>
              run[i].backends[c].pc == Forgetting(k) && Count(run[i].backends[c].acq, k) == 1
  {
    RunBalances(run, moves, i, k);
    RunStaysGood(run, moves, i);
    OwedWithinTotal(run[i].backends, c, k);
  }

  /** In every careful run, no decrement takes a counter below zero: neither that of a
      deallocation nor those of an exiting backend. */
  lemma NeverUnderflows(run: seq<World>, moves: seq<Move>, i: nat, b: nat, k: Key)
    requires IsRun(run, moves) && i < |run| && CarefulUpTo(run, moves, i)
    requires b < |run[i].backends| && run[i].backends[b].pc.Ready?
    ensures Count(run[i].backends[b].acq, k) <= Refs(run[i].counters, k)
    ensures Count(run[i].backends[b].acq, k) > 0 ==> k in run[i].counters && run[i].counters[k] >= 1
  {
    RunBalances(run, moves, i, k);
    RunStaysGood(run, moves, i);
    OwedWithinTotal(run[i].backends, b, k);
  }

  lemma ExtendRun(run: seq<World>, moves: seq<Move>, b: nat, a: Action)
    returns (longer: seq<World>, more: seq<Move>)
    requires IsRun(run, moves)
    requires var w := run[|run| - 1]; b < |w.backends| && Enabled(w, b, a)
    ensures IsRun(longer, more) && longer == run + [Next(run[|run| - 1], b, a)] && more == moves + [Move(b, a)]
  {
    longer, more := run + [Next(run[|run| - 1], b, a)], moves + [Move(b, a)];
    forall i | 0 <= i < |more| ensures StepAt(longer, more, i) {
      if i < |moves| {
        assert StepAt(run, moves, i);
      }
    }
  }

  /** A run to a stray release that frees what another backend has recorded. */
  lemma StrayReleaseFrees(k: Key) returns (run: seq<World>, moves: seq<Move>)
    requires Short(k)
    ensures IsRun(run, moves)
    ensures var w := run[|run| - 1]; k !in w.counters && |w.backends| == 2 && w.backends[0] == Backend([Rec(k, 0)], Ready)
  {
    run, moves := [World(map[], [Backend([], Ready), Backend([], Ready)])], [];
    run, moves := ExtendRun(run, moves, 0, Allocate(k));
    run, moves := ExtendRun(run, moves, 0, Record(0));
    run, moves := ExtendRun(run, moves, 1, Deallocate(k));
  }

  // One backend allocates and records; the record's last byte is as given.
  lemma RecordedRun(k: Key, last: Byte) returns (run: seq<World>, moves: seq<Move>)
    requires Short(k)
    ensures IsRun(run, moves) && run[|run| - 1].counters == map[k := 1]
    ensures run[|run| - 1].backends == [Backend([Rec(k, last)], Ready)]
    ensures moves == [Move(0, Allocate(k)), Move(0, Record(last))] && run[0] == World(map[], [Backend([], Ready)])
    ensures run[1].counters == map[k := 1]
  {
    run, moves := [World(map[], [Backend([], Ready)])], [];
    run, moves := ExtendRun(run, moves, 0, Allocate(k));
    run, moves := ExtendRun(run, moves, 0, Record(last));
    assert run[1].counters == map[k := 1] && run[2].backends[0].acq == [Rec(k, last)];
    assert run[2].backends == [Backend([Rec(k, last)], Ready)];
  }

  lemma CountsOfOne(k: Key, last: Byte)
    ensures Count([Rec(k, last)], k) == if Names(Rec(k, last), k) then 1 else 0
    ensures Findable([Rec(k, last)], k) == if last == 0 then 1 else 0
  {
    assert [Rec(k, last)][1..] == [];
  }

  /** A run to a stray release that wraps a counter: an exiting backend leaves it at
      zero and live, and the memory can then not be freed. */
  lemma StrayReleaseWraps(k: Key) returns (run: seq<World>, moves: seq<Move>)
    requires Short(k)
    ensures IsRun(run, moves)
    ensures var w := run[|run| - 1]; k in w.counters && w.counters[k] == U32 - 1 && Total(w.backends, k) == 0
  {
    run, moves := RecordedRun(k, 0);
    CountsOfOne(k, 0);
    DecrementByIsMinus(1, 1);
    assert Exited(map[k := 1], [Rec(k, 0)], {k.moduleId}) == map[k := 0];
    run, moves := ExtendRun(run, moves, 0, Exit({k.moduleId}));
    assert run[|run| - 1].counters == map[k := 0];
    run, moves := ExtendRun(run, moves, 0, Deallocate(k));
    NothingOwed(run[|run| - 1].backends, k);
  }

  /** A run to an exit that does not find its own record: the memory stays allocated
      although no backend has a record of it or will ever give it back. */
  lemma ExitMissesItsRecord(k: Key, last: Byte) returns (run: seq<World>, moves: seq<Move>)
    requires Short(k) && last != 0
    ensures IsRun(run, moves) && moves == [Move(0, Allocate(k)), Move(0, Record(last)), Move(0, Exit({k.moduleId}))]
    ensures var w := run[|run| - 1]; w.counters == map[k := 1] && w.backends == [Backend([], Ready)]
  {
    run, moves := RecordedRun(k, last);
    CountsOfOne(k, last);
    assert Exited(map[k := 1], [Rec(k, last)], {k.moduleId}) == map[k := 1];
    run, moves := ExtendRun(run, moves, 0, Exit({k.moduleId}));
  }

  /** A run to a release that does not find its own record, of a name of full length:
      the memory is freed and the record stays. */
  lemma RecordSurvivesItsRelease(k: Key, last: Byte) returns (run: seq<World>, moves: seq<Move>)
    requires |k.name| == NAMEDATALEN - 1 && last != 0
    ensures IsRun(run, moves) && moves == [Move(0, Allocate(k)), Move(0, Record(last)), Move(0, Deallocate(k))]
    ensures CarefulUpTo(run, moves, |run| - 1)
    ensures var w := run[|run| - 1]; k !in w.counters && w.backends == [Backend([Rec(k, last)], Ready)]
  {
    run, moves := RecordedRun(k, last);
    CountsOfOne(k, last);
    ghost var w := run[|run| - 1];
    assert Total(w.backends, k) == 0 by { assert w.backends[1..] == []; }
    run, moves := ExtendRun(run, moves, 0, Deallocate(k));
    assert CarefulAt(run, moves, 0) && CarefulAt(run, moves, 1) && CarefulAt(run, moves, 2);
  }

  /** An exiting backend gives back all it owes of k if and only if it owes nothing, or
      the module is initialised and none of its records has a stray last byte. */
  lemma ExitGivesAllBackIff(w: World, b: nat, modules: set<nat>, k: Key, leaked: int)
    requires AllGood(w) && b < |w.backends| && w.backends[b].pc.Ready? && Balanced(w, k, leaked)
    ensures Refs(Next(w, b, Exit(modules)).counters, k) == Refs(w.counters, k) - Count(w.backends[b].acq, k)
       <==> Count(w.backends[b].acq, k) == 0
            || (k.moduleId in modules && forall r | r in w.backends[b].acq && Names(r, k) :: r.last == 0)
  {
    StepBalances(w, b, Exit(modules), k, leaked);
    FindableIffClean(w.backends[b].acq, k);
  }

  // ---- the operations on memory ----

  type Counter = n: nat | n < U32

  datatype Allocation = Allocation(pointer: nat, size: nat, refcounter: Counter)

  datatype HashAction = Enter | Find | Remove

  datatype Lookup = Missing | Reference(pointer: nat, found: bool, live: bool)

  datatype Error = NameTooLong | ZeroSize

  datatype Result<T> = Ok(value: T) | Err(error: Error)

  function CountersOf(allocations: map<Key, Allocation>): Counters {
    map k | k in allocations :: allocations[k].refcounter
  }

  function AfterAction(c: Counters, key: Key, action: HashAction): Counters {
    match action
    case Enter => Entered(c, key)
    case Find => Found(c, key)
    case Remove => Released(c, key)
  }

  type Allocations = map<Key, Allocation>

  /** No entry but the key's is touched. */
  ghost predicate OthersUntouched(before: Allocations, after: Allocations, key: Key) {
    forall k | k != key :: (k in after <==> k in before) && (k in after && k in before ==> after[k] == before[k])
  }

  /** Entering makes an entry with the address and size given, or takes one more
      reference to the entry there is. */
  ghost predicate AnswersEnter(before: Allocations, key: Key, size: nat, tentative: nat, after: Allocations, answer: Lookup) {
    && key in after
    && after[key] == (if key in before then before[key].(refcounter := (before[key].refcounter + 1) % U32)
                      else Allocation(tentative, size, 1))
    && answer == Reference(after[key].pointer, key in before, true)
  }

  /** Looking up takes one more reference to the entry, if there is one. */
  ghost predicate AnswersFind(before: Allocations, key: Key, after: Allocations, answer: Lookup) {
    if key in before then
      && key in after && after[key] == before[key].(refcounter := (before[key].refcounter + 1) % U32)
      && answer == Reference(before[key].pointer, true, true)
    else key !in after && answer == Missing
  }

  /** Removing gives one reference back, and the entry goes with its last one. */
  ghost predicate AnswersRemove(before: Allocations, key: Key, after: Allocations, answer: Lookup) {
    if key in before then
      && (key in after <==> before[key].refcounter != 1)
      && (key in after ==> after[key] == before[key].(refcounter := (before[key].refcounter - 1) % U32))
      && answer == Reference(before[key].pointer, true, key in after)
    else key !in after && answer == Missing
  }

  /** What one call on the table does and returns. */
  ghost predicate Answers(before: Allocations, call: Call, after: Allocations, answer: Result<Lookup>) {
    if !Short(call.key) || call.size == 0 then answer.Err? && after == before
    else
      && answer.Ok? && OthersUntouched(before, after, call.key)
      && match call.action
         case Enter => AnswersEnter(before, call.key, call.size, call.tentative, after, answer.value)
         case Find => AnswersFind(before, call.key, after, answer.value)
         case Remove => AnswersRemove(before, call.key, after, answer.value)
  }

  // ---- addresses over whole histories of the table ----

  datatype Call = Call(key: Key, size: nat, action: HashAction, tentative: nat)

  /** Some counters of live entries change, as when a backend exits. */
  ghost predicate OnlyCounters(before: Allocations, after: Allocations) {
    && before.Keys == after.Keys
    && forall k | k in before :: after[k].pointer == before[k].pointer && after[k].size == before[k].size
  }

  datatype Event = Called(call: Call, answer: Result<Lookup>) | CountersChanged

  ghost predicate Happened(before: Allocations, e: Event, after: Allocations) {
    match e
    case Called(call, answer) => Answers(before, call, after, answer)
    case CountersChanged => OnlyCounters(before, after)
  }

  ghost predicate HappenedAt(tables: seq<Allocations>, events: seq<Event>, i: nat)
    requires i < |events| && i + 1 < |tables|
  {
    Happened(tables[i], events[i], tables[i + 1])
  }

  ghost predicate IsHistory(tables: seq<Allocations>, events: seq<Event>) {
    && |tables| == |events| + 1
    && forall i {:trigger HappenedAt(tables, events, i)} | 0 <= i < |events| :: HappenedAt(tables, events, i)
  }

  /** In every history, an entry keeps its address and size for as long as it is live. */
  lemma {:induction false} AddressStays(tables: seq<Allocations>, events: seq<Event>, i: nat, j: nat, k: Key)
    requires IsHistory(tables, events) && i <= j < |tables| && forall n | i <= n <= j :: k in tables[n]
    ensures k in tables[i] && k in tables[j]
    ensures tables[j][k].pointer == tables[i][k].pointer && tables[j][k].size == tables[i][k].size
    decreases j
  {
    if i < j {
      AddressStays(tables, events, i, j - 1, k);
      assert HappenedAt(tables, events, j - 1);
    }
  }

  /** The call succeeded in finding or making the entry of k. */
  predicate Obtained(e: Event, k: Key) {
    e.Called? && e.call.key == k && e.answer.Ok? && e.answer.value.Reference?
  }

  /** In every history, whatever is called in between: as long as the entry is live, all
      calls that find or make it return one address, the one its allocation returned. */
  lemma SameAddressForAll(tables: seq<Allocations>, events: seq<Event>, i: nat, j: nat, k: Key)
    requires IsHistory(tables, events) && i < j < |events| && (forall n | i < n <= j :: k in tables[n])
    requires Obtained(events[i], k) && Obtained(events[j], k)
    ensures events[j].answer.value.pointer == events[i].answer.value.pointer
  {
    AddressStays(tables, events, i + 1, j, k);
    assert HappenedAt(tables, events, i) && HappenedAt(tables, events, j);
  }

  /** The memory allocated beforehand is not that of a live entry. */
  ghost predicate FreshMemory(before: Allocations, e: Event) {
    e.Called? && e.call.action.Enter? ==> forall k | k in before :: before[k].pointer != e.call.tentative
  }

  ghost predicate SeparateAddresses(a: Allocations) {
    forall k, l | k in a && l in a && k != l :: a[k].pointer != a[l].pointer
  }

  /** In every history that starts with an empty table and in which the allocator hands
      out unused memory, no two live entries share an address. */
  lemma {:induction false} NoSharedAddress(tables: seq<Allocations>, events: seq<Event>, i: nat)
    requires IsHistory(tables, events) && tables[0] == map[] && i < |tables|
    requires forall n | 0 <= n < i :: FreshMemory(tables[n], events[n])
    ensures SeparateAddresses(tables[i])
  {
    if i > 0 {
      NoSharedAddress(tables, events, i - 1);
      assert HappenedAt(tables, events, i - 1);
      assert FreshMemory(tables[i - 1], events[i - 1]);
    }
  }

  /** Memory is reported for freeing exactly when the last reference is given back, and
      then it is that of the entry, which is gone. */
  lemma FreedIsGone(before: Allocations, call: Call, after: Allocations, answer: Lookup)
    requires Answers(before, call, after, Ok(answer)) && answer.Reference?
    ensures !answer.live <==> call.action.Remove? && call.key in before && before[call.key].refcounter == 1
    ensures !answer.live ==> call.key !in after && answer.pointer == before[call.key].pointer
  {
  }

  /** The table shared by all backends. */
  class SharedTable {
    var allocations: map<Key, Allocation>

    constructor ()
      ensures allocations == map[]
    {
      allocations := map[];
    }

    /** Finds, enters or removes the named allocation and adjusts its reference
        count; `tentative` is memory allocated beforehand in case it is needed. */
    method FindOrAllocateDsa(key: Key, size: nat, action: HashAction, tentative: nat) returns (r: Result<Lookup>)
      modifies this
      ensures r.Err? <==> |key.name| > NAMEDATALEN - 1 || size == 0
      ensures Answers(old(allocations), Call(key, size, action, tentative), allocations, r)
      ensures r.Ok? ==> CountersOf(allocations) == AfterAction(old(CountersOf(allocations)), key, action)
    {
      if |key.name| > NAMEDATALEN - 1 {
        return Err(NameTooLong);
      }
      if size == 0 {
        return Err(ZeroSize);
      }
      var found := key in allocations;
      match action {
        case Enter =>
          if !found {
            allocations := allocations[key := Allocation(tentative, size, 0)];
          }
          var alloc := allocations[key];
          allocations := allocations[key := alloc.(refcounter := Increment(alloc.refcounter))];
          r := Ok(Reference(alloc.pointer, found, true));
        case Find =>
          if found {
            var alloc := allocations[key];
            allocations := allocations[key := alloc.(refcounter := Increment(alloc.refcounter))];
            r := Ok(Reference(alloc.pointer, true, true));
          } else {
            r := Ok(Missing);
          }
        case Remove =>
          if found {
            var alloc := allocations[key].(refcounter := Decrement(allocations[key].refcounter));
            if alloc.refcounter == 0 {
              allocations := allocations - {key};
              r := Ok(Reference(alloc.pointer, true, false));
            } else {
              allocations := allocations[key := alloc];
              r := Ok(Reference(alloc.pointer, true, true));
            }
          } else {
            r := Ok(Missing);
          }
      }
    }
  }

  lemma {:induction false} WithoutKeySnoc(acq: seq<Rec>, x: Rec, k: Key)
    ensures WithoutKey(acq + [x], k) == WithoutKey(acq, k) + if Names(x, k) then [] else [x]
  {
    if acq != [] {
      assert (acq + [x])[1..] == acq[1..] + [x];
      WithoutKeySnoc(acq[1..], x, k);
    }
  }

  lemma {:induction false} WithoutModuleSnoc(acq: seq<Rec>, x: Rec, m: nat)
    ensures WithoutModule(acq + [x], m) == WithoutModule(acq, m) + if x.key.moduleId == m then [] else [x]
  {
    if acq != [] {
      assert (acq + [x])[1..] == acq[1..] + [x];
      WithoutModuleSnoc(acq[1..], x, m);
    }
  }

  /** One backend's record of what it has acquired. */
  class BackendState {
    const shared: SharedTable
    var acquisitions: seq<Rec>

    constructor (shared: SharedTable)
      ensures this.shared == shared && acquisitions == []
    {
      this.shared := shared;
      acquisitions := [];
    }

    /** This backend and the table, as the protocol sees them. */
    ghost function Now(): World
      reads this, shared
    {
      World(CountersOf(shared.allocations), [Backend(acquisitions, Ready)])
    }

    /** Allocates the named memory, or looks it up, and records the acquisition; `last`
        is what the memory of the record holds in the byte that is not written. */
    method FindOrAllocate(key: Key, size: nat, find: bool, tentative: nat, last: Byte) returns (r: Result<Lookup>)
      modifies this, shared
      ensures Answers(old(shared.allocations), Call(key, size, if find then Find else Enter, tentative), shared.allocations, r)
      ensures acquisitions == old(acquisitions) + if r.Ok? && r.value.Reference? then [Rec(key, last)] else []
      // a success is two steps of the protocol: taking the reference and recording it
      ensures r.Ok? && r.value.Reference? ==>
                Now() == Next(Next(old(Now()), 0, if find then Lookup(key) else Allocate(key)), 0, Record(last))
    {
      r := shared.FindOrAllocateDsa(key, size, if find then Find else Enter, tentative);
      if r.Ok? && r.value.Reference? {
        acquisitions := acquisitions + [Rec(key, last)];
      }
    }

    /** Gives one reference back, drops every record that names it, and reports the
        memory to free, if the reference was the last. */
    method Deallocate(key: Key) returns (r: Result<Lookup>)
      modifies this, shared
      ensures Answers(old(shared.allocations), Call(key, 1, Remove, 0), shared.allocations, r)
      ensures acquisitions == if r.Ok? && r.value.Reference? then WithoutKey(old(acquisitions), key) else old(acquisitions)
      // giving the reference back and, where a record names it, dropping the records
      ensures r.Ok? ==> var mid := Next(old(Now()), 0, Action.Deallocate(key));
                        Now() == if mid.backends[0].pc.Forgetting? then Next(mid, 0, Forget) else mid
    {
      r := shared.FindOrAllocateDsa(key, 1, Remove, 0);
      WithoutUnnamed(acquisitions, key);
      if r.Ok? && r.value.Reference? {
        ForgetKey(key);
      }
    }

    method ForgetKey(key: Key)
      modifies this
      ensures acquisitions == WithoutKey(old(acquisitions), key)
    {
      ghost var acq, seen, kept, rest := acquisitions, [], [], acquisitions;
      var i := 0;
      while i < |acquisitions|
        invariant i == |kept| && Passed(acq, acquisitions, seen, kept, rest) && kept == WithoutKey(seen, key)
        decreases |rest|
      {
        PassOn(acq, acquisitions, seen, kept, rest);
        WithoutKeySnoc(seen, rest[0], key);
        if Names(acquisitions[i], key) {
          acquisitions := Erase(acquisitions, i);
        } else {
          kept := kept + [rest[0]];
          i := i + 1;
        }
        seen, rest := seen + [rest[0]], rest[1..];
      }
      assert seen == acq && kept == acquisitions;
    }

    /** Unloading a module drops its records; its references are not given back. */
    method ForgetModule(moduleId: nat)
      modifies this
      ensures acquisitions == WithoutModule(old(acquisitions), moduleId) && Now() == Next(old(Now()), 0, Unload(moduleId))
    {
      ghost var acq, seen, kept, rest := acquisitions, [], [], acquisitions;
      var i := 0;
      while i < |acquisitions|
        invariant i == |kept| && Passed(acq, acquisitions, seen, kept, rest) && kept == WithoutModule(seen, moduleId)
        decreases |rest|
      {
        PassOn(acq, acquisitions, seen, kept, rest);
        WithoutModuleSnoc(seen, rest[0], moduleId);
        if acquisitions[i].key.moduleId == moduleId {
          acquisitions := Erase(acquisitions, i);
        } else {
          kept := kept + [rest[0]];
          i := i + 1;
        }
        seen, rest := seen + [rest[0]], rest[1..];
      }
      assert seen == acq && kept == acquisitions;
    }

    /** Gives back one reference per record of the module that the table finds. */
    method GiveBackModule(moduleId: nat)
      modifies shared
      ensures OnlyCounters(old(shared.allocations), shared.allocations)
      ensures forall k | k in shared.allocations ::
                shared.allocations[k].refcounter ==
                DecrementBy(old(shared.allocations)[k].refcounter, if k.moduleId == moduleId then Findable(acquisitions, k) else 0)
    {
      ghost var c, seen := shared.allocations, [];
      for i := 0 to |acquisitions|
        invariant seen == acquisitions[..i]
        invariant OnlyCounters(c, shared.allocations)
        invariant forall k | k in c ::
                    shared.allocations[k].refcounter ==
                    DecrementBy(c[k].refcounter, if k.moduleId == moduleId then Findable(seen, k) else 0)
      {
        var record := acquisitions[i];
        forall k ensures Findable(seen + [record], k) == Findable(seen, k) + if Finds(record, k) then 1 else 0 {
          FindableAppend(seen, record, k);
        }
        if record.key.moduleId == moduleId && record.last == 0 && record.key in shared.allocations {
          var alloc := shared.allocations[record.key];
          shared.allocations := shared.allocations[record.key := alloc.(refcounter := Decrement(alloc.refcounter))];
        }
        seen := seen + [record];
      }
      assert seen == acquisitions;
    }

    /** An exiting backend gives back one reference per record, of each module it still
        has initialised, that the table finds. */
    method Deinitialize(modules: seq<nat>)
      requires forall i, j | 0 <= i < j < |modules| :: modules[i] != modules[j]
      modifies this, shared
      ensures OnlyCounters(old(shared.allocations), shared.allocations)
      ensures Now() == Next(old(Now()), 0, Exit(set m | m in modules))
    {
      ghost var c, done: set<nat> := CountersOf(shared.allocations), {};
      for j := 0 to |modules|
        invariant acquisitions == old(acquisitions) && done == set m | m in modules[..j]
        invariant OnlyCounters(old(shared.allocations), shared.allocations)
        invariant forall k | k in c ::
                    shared.allocations[k].refcounter == DecrementBy(c[k], if k.moduleId in done then Findable(acquisitions, k) else 0)
      {
        assert modules[j] !in done && modules[..j + 1] == modules[..j] + [modules[j]];
        GiveBackModule(modules[j]);
        done := done + {modules[j]};
      }
      assert modules[..|modules|] == modules;
      acquisitions := [];
    }
  }
}
