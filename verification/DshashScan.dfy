/** The locking protocol of the shared hash table: any number of backends, each
    a sequence of atomic steps, interleaved arbitrarily. A backend may perform
    point operations under one partition lock, grow the table under all of them,
    or run a sequential scan that walks the partitions hand over hand. */
module DshashScan {
  import opened Basics
  import opened DshashIndex

  /** An item, identified by the occasion of its insertion. */
  datatype Id = Id(serial: nat, hash: Hash)

  datatype Mode = Shared | Exclusive

  datatype Phase =
    | Fresh                                            // initialised, no lock taken
    | Locked                                           // partition 0 locked, table size not yet read
    | ReadHead                                         // about to read the head of bucket curbucket
    | Looking(item: Option<Id>)                        // holding next_item_pointer
    | WantLock(partition: nat)                         // curbucket lies in the next partition
    | HoldBoth(partition: nat)
    | Returned(cur: Option<Id>, pnext: Option<Id>)     // between two calls; cur is None once deleted
    | Done                                             // all buckets scanned, lock still held

  datatype Scan = Scan(mode: Mode, phase: Phase, curbucket: nat, nbuckets: nat, curpartition: nat, returned: seq<Id>)

  datatype Pc =
    | Idle
    | Point(partition: nat)
    | Resizing(next: nat, target: nat)                 // about to lock partition `next`
    | Releasing(next: nat)                             // about to unlock partition `next`
    | Scanning(scan: Scan)

  /** A backend: its partition locks, its cached table size, its program counter.
      Every size has one bucket array, freed when the table grows, so the cached
      bucket pointer is good while the cached size is current. A backend that grows the
      table leaves its own cached size to be refreshed at its next operation. */
  datatype Backend = Backend(held: map<nat, Mode>, localSize: SizeLog2, pc: Pc)

  datatype Table = Table(size: SizeLog2, chains: seq<seq<Id>>, born: set<Id>)

  datatype State = State(t: Table, backends: seq<Backend>)

  datatype Action =
    | PointLock(partition: nat, mode: Mode) | Insert(id: Id) | Delete(id: Id) | PointUnlock
    | ResizeBegin | ResizeLock | ResizeSwap(table: Table) | ResizeUnlock
    | SeqInit(mode: Mode) | SeqFirstLock | SeqMeasure | SeqAdvance | SeqLock | SeqUnlock | SeqRead
    | SeqReturn | SeqCall | SeqDeleteCurrent | SeqTerm

  // ---- chains ----

  function Head(chain: seq<Id>): Option<Id> {
    if chain == [] then None else Some(chain[0])
  }

  /** What x's `next` field points to. */
  function After(chain: seq<Id>, x: Id): Option<Id> {
    if chain == [] then None else if chain[0] == x then Head(chain[1..]) else After(chain[1..], x)
  }

  function Remove(chain: seq<Id>, x: Id): seq<Id> {
    if chain == [] then [] else if chain[0] == x then chain[1..] else [chain[0]] + Remove(chain[1..], x)
  }

  /** The part of the chain reached by following links from a pointer. */
  ghost function From(chain: seq<Id>, o: Option<Id>): seq<Id> {
    if o.None? || chain == [] then [] else if chain[0] == o.value then chain else From(chain[1..], o)
  }

  ghost predicate PointsInto(chain: seq<Id>, o: Option<Id>) {
    o.Some? ==> o.value in chain
  }

  lemma {:induction false} FromAfter(chain: seq<Id>, x: Id)
    requires Distinct(chain) && x in chain
    ensures From(chain, Some(x)) == [x] + From(chain, After(chain, x))
    ensures PointsInto(chain, After(chain, x))
    ensures forall y | y in From(chain, Some(x)) :: y in chain
    ensures Distinct(From(chain, Some(x)))
  {
    if chain[0] == x {
      if |chain| > 1 {
        assert chain[1..][0] != chain[0];
        assert From(chain, After(chain, x)) == From(chain[1..], Some(chain[1])) == chain[1..];
      }
    } else {
      FromAfter(chain[1..], x);
      var after := After(chain, x);
      assert after.Some? ==> after.value in chain[1..];
      assert From(chain, after) == From(chain[1..], after);
    }
  }

  lemma {:induction false} RemoveElements(chain: seq<Id>, x: Id)
    requires Distinct(chain)
    ensures Distinct(Remove(chain, x))
    ensures forall y :: y in Remove(chain, x) <==> y in chain && y != x
  {
    if chain != [] {
      RemoveElements(chain[1..], x);
      if chain[0] == x {
        assert x !in chain[1..];
      } else {
        var r := Remove(chain, x);
        assert r[1..] == Remove(chain[1..], x);
        assert chain[0] !in r[1..];
        assert forall j | 0 < j < |r| :: r[j] == r[1..][j - 1];
      }
    }
  }

  /** Deleting the current item keeps the saved next pointer and what it reaches. */
  lemma {:induction false} FromAfterRemoval(chain: seq<Id>, x: Id)
    requires Distinct(chain) && x in chain
    ensures From(Remove(chain, x), After(chain, x)) == From(chain, After(chain, x))
    ensures PointsInto(Remove(chain, x), After(chain, x))
    ensures x !in From(chain, After(chain, x))
  {
    var after, tail := After(chain, x), chain[1..];
    if chain[0] != x {
      FromAfterRemoval(tail, x);
      FromAfter(tail, x);
      assert after.Some? ==> after.value in tail && after.value != chain[0];
      assert Remove(chain, x)[1..] == Remove(tail, x);
    } else if |chain| > 1 {
      assert after == Some(tail[0]) && tail[0] != chain[0];
      assert From(chain, after) == From(tail, after) == tail;
    }
  }

  lemma {:induction false} FromWithin(chain: seq<Id>, o: Option<Id>)
    ensures forall y | y in From(chain, o) :: y in chain
  {
    if o.Some? && chain != [] && chain[0] != o.value {
      FromWithin(chain[1..], o);
    }
  }

  // ---- the table and the locks ----

  ghost predicate GoodBucket(chain: seq<Id>, b: nat, size: SizeLog2, born: set<Id>) {
    Distinct(chain) && forall x | x in chain :: BucketForHash(x.hash, size) == b && x in born
  }

  ghost predicate GoodTable(t: Table) {
    && |t.chains| == NumBuckets(t.size)
    && forall b {:trigger GoodBucket(t.chains[b], b, t.size, t.born)} | 0 <= b < |t.chains| ::
         GoodBucket(t.chains[b], b, t.size, t.born)
  }

  ghost predicate InTable(t: Table, x: Id) {
    x in Chain(t, BucketForHash(x.hash, t.size))
  }

  function Chain(t: Table, k: nat): seq<Id> {
    if k < |t.chains| then t.chains[k] else []
  }

  function WithChain(t: Table, k: nat, chain: seq<Id>): Table {
    if k < |t.chains| then t.(chains := t.chains[k := chain]) else t
  }

  predicate Compatible(b: Backend, p: nat, mode: Mode) {
    p !in b.held || (b.held[p] == Shared && mode == Shared)
  }

  /** Backend b would get lock p in the given mode now. */
  predicate Free(st: State, b: nat, p: nat, mode: Mode) {
    forall c | 0 <= c < |st.backends| && c != b :: Compatible(st.backends[c], p, mode)
  }

  /** The lock a backend has asked for, if its next step is to acquire one. */
  function Awaited(be: Backend): Option<(nat, Mode)> {
    match be.pc
    case Resizing(next, _) => if next < NUM_PARTITIONS then Some((next, Exclusive)) else None
    case Scanning(sc) =>
      (match sc.phase
       case Fresh => Some((0, sc.mode))
       case WantLock(p) => Some((p, sc.mode))
       case _ => None)
    case _ => None
  }

  // ---- steps ----

  predicate IsScan(be: Backend) {
    be.pc.Scanning?
  }

  ghost predicate Enabled(st: State, b: nat, a: Action)
    requires b < |st.backends|
  {
    var be := st.backends[b];
    match a
    case PointLock(p, mode) => be.pc.Idle? && p < NUM_PARTITIONS && Free(st, b, p, mode)
    case Insert(x) =>
      be.pc.Point? && be.held == map[be.pc.partition := Exclusive] && PartitionForHash(x.hash) == be.pc.partition && x !in st.t.born
    case Delete(x) =>
      be.pc.Point? && be.held == map[be.pc.partition := Exclusive] && PartitionForHash(x.hash) == be.pc.partition && InTable(st.t, x)
    case PointUnlock => be.pc.Point?
    case ResizeBegin => be.pc.Idle? && be.localSize < HASH_BITS
    case ResizeLock => be.pc.Resizing? && be.pc.next < NUM_PARTITIONS && Free(st, b, be.pc.next, Exclusive)
    case ResizeSwap(t') =>
      be.pc.Resizing? && be.pc.next == NUM_PARTITIONS && t'.size == be.pc.target && Rehashed(st.t, t')
    case ResizeUnlock => be.pc.Releasing?
    case SeqInit(mode) => be.pc.Idle?
    case SeqFirstLock => IsScan(be) && be.pc.scan.phase.Fresh? && Free(st, b, 0, be.pc.scan.mode)
    case SeqMeasure => IsScan(be) && be.pc.scan.phase.Locked?
    case SeqAdvance => IsScan(be) && be.pc.scan.phase.Looking? && be.pc.scan.phase.item.None?
    case SeqLock => IsScan(be) && be.pc.scan.phase.WantLock? && Free(st, b, be.pc.scan.phase.partition, be.pc.scan.mode)
    case SeqUnlock => IsScan(be) && be.pc.scan.phase.HoldBoth?
    case SeqRead => IsScan(be) && be.pc.scan.phase.ReadHead?
    case SeqReturn => IsScan(be) && be.pc.scan.phase.Looking? && be.pc.scan.phase.item.Some?
    case SeqCall => IsScan(be) && be.pc.scan.phase.Returned?
    case SeqDeleteCurrent =>
      IsScan(be) && be.pc.scan.phase.Returned? && be.pc.scan.phase.cur.Some? && be.pc.scan.mode.Exclusive?
    case SeqTerm => IsScan(be) && (be.pc.scan.phase.Fresh? || be.pc.scan.phase.Returned? || be.pc.scan.phase.Done?)
  }

  /** The outcome of relinking all items into a table of the target size. */
  ghost predicate Rehashed(t: Table, t': Table) {
    && t'.born == t.born
    && GoodTable(t')
    && forall x :: InTable(t', x) <==> InTable(t, x)
  }

  /** The item a step adds or removes. */
  function Touched(be: Backend, a: Action): Id
    requires a.Insert? || a.Delete? || (a.SeqDeleteCurrent? && be.pc.Scanning? && be.pc.scan.phase.Returned? && be.pc.scan.phase.cur.Some?)
  {
    if a.SeqDeleteCurrent? then be.pc.scan.phase.cur.value else a.id
  }

  function WithBackend(st: State, b: nat, be: Backend): State
    requires b < |st.backends|
  {
    st.(backends := st.backends[b := be])
  }

  function AtPhase(be: Backend, phase: Phase): Backend
    requires IsScan(be)
  {
    be.(pc := Scanning(be.pc.scan.(phase := phase)))
  }

  ghost function Next(st: State, b: nat, a: Action): State
    requires b < |st.backends| && Enabled(st, b, a)
  {
    var be := st.backends[b];
    match a
    case PointLock(p, mode) =>
      WithBackend(st, b, be.(held := be.held[p := mode], localSize := st.t.size, pc := Point(p)))
    case Insert(x) =>
      var k := BucketForHash(x.hash, be.localSize);
      st.(t := WithChain(st.t, k, [x] + Chain(st.t, k)).(born := st.t.born + {x}))
    case Delete(x) =>
      var k := BucketForHash(x.hash, be.localSize);
      st.(t := WithChain(st.t, k, Remove(Chain(st.t, k), x)))
    case PointUnlock =>
      WithBackend(st, b, be.(held := be.held - {be.pc.partition}, pc := Idle))
    case ResizeBegin =>
      WithBackend(st, b, be.(pc := Resizing(0, be.localSize + 1)))
    case ResizeLock =>
      if be.pc.next == 0 && st.t.size >= be.pc.target then WithBackend(st, b, be.(pc := Idle))
      else WithBackend(st, b, be.(held := be.held[be.pc.next := Exclusive], pc := Resizing(be.pc.next + 1, be.pc.target)))
    case ResizeSwap(t') =>
      WithBackend(st.(t := t'), b, be.(pc := Releasing(0)))
    case ResizeUnlock =>
      var n := be.pc.next;
      WithBackend(st, b, be.(held := be.held - {n}, pc := if n + 1 < NUM_PARTITIONS then Releasing(n + 1) else Idle))
    case SeqInit(mode) =>
      WithBackend(st, b, be.(pc := Scanning(Scan(mode, Fresh, 0, 0, 0, []))))
    case SeqFirstLock =>
      WithBackend(st, b, AtPhase(be, Locked).(held := be.held[0 := be.pc.scan.mode]))
    case SeqMeasure =>
      WithBackend(st, b, be.(localSize := st.t.size,
                             pc := Scanning(be.pc.scan.(phase := Looking(Head(Chain(st.t, 0))), nbuckets := NumBuckets(st.t.size)))))
    case SeqAdvance =>
      var sc := be.pc.scan;
      var k := sc.curbucket + 1;
      var p := PartitionForBucket(k, be.localSize);
      var phase := if k >= sc.nbuckets then Done else if p != sc.curpartition then WantLock(p) else ReadHead;
      WithBackend(st, b, be.(pc := Scanning(sc.(curbucket := k, phase := phase))))
    case SeqLock =>
      var p := be.pc.scan.phase.partition;
      WithBackend(st, b, AtPhase(be, HoldBoth(p)).(held := be.held[p := be.pc.scan.mode]))
    case SeqUnlock =>
      var sc := be.pc.scan;
      WithBackend(st, b, be.(held := be.held - {sc.curpartition},
                             pc := Scanning(sc.(phase := ReadHead, curpartition := sc.phase.partition))))
    case SeqRead =>
      WithBackend(st, b, AtPhase(be, Looking(Head(Chain(st.t, be.pc.scan.curbucket)))))
    case SeqReturn =>
      var sc := be.pc.scan;
      var x := sc.phase.item.value;
      WithBackend(st, b, be.(pc := Scanning(sc.(phase := Returned(Some(x), After(Chain(st.t, sc.curbucket), x)),
                                                returned := sc.returned + [x]))))
    case SeqCall =>
      WithBackend(st, b, AtPhase(be, Looking(be.pc.scan.phase.pnext)))
    case SeqDeleteCurrent =>
      var x := be.pc.scan.phase.cur.value;
      var k := BucketForHash(x.hash, be.localSize);
      WithBackend(st.(t := WithChain(st.t, k, Remove(Chain(st.t, k), x))), b, AtPhase(be, be.pc.scan.phase.(cur := None)))
    case SeqTerm =>
      WithBackend(st, b, be.(held := if be.pc.scan.phase.Fresh? then be.held else be.held - {be.pc.scan.curpartition}, pc := Idle))
  }

  // ---- the invariant ----

  ghost predicate HoldsRange(held: map<nat, Mode>, lo: nat, hi: nat) {
    && (forall p :: p in held <==> lo <= p < hi)
    && forall p | p in held :: held[p] == Exclusive
  }

  /** x is still to be visited by the scan. */
  ghost predicate Ahead(t: Table, sc: Scan, x: Id) {
    var k := BucketForHash(x.hash, t.size);
    && InTable(t, x)
    && match sc.phase
       case Looking(o) => k > sc.curbucket || (k == sc.curbucket && x in From(Chain(t, k), o))
       case Returned(_, o) => k > sc.curbucket || (k == sc.curbucket && x in From(Chain(t, k), o))
       case Done => false
       case _ => k >= sc.curbucket
  }

  /** The locks a scan holds at each phase: always the current partition's, the
      next one's as well while handing over. */
  ghost predicate ScanLocks(sc: Scan, held: map<nat, Mode>) {
    match sc.phase
    case Fresh => held == map[]
    case HoldBoth(p) => held == map[sc.curpartition := sc.mode, p := sc.mode] && p < NUM_PARTITIONS && sc.curpartition < p
    case WantLock(p) => held == map[sc.curpartition := sc.mode] && sc.curpartition < p < NUM_PARTITIONS
    case _ => held == map[sc.curpartition := sc.mode] && sc.curpartition < NUM_PARTITIONS
  }

  ghost predicate NextSaved(chain: seq<Id>, cur: Option<Id>, pnext: Option<Id>) {
    cur.Some? ==> cur.value in chain && pnext == After(chain, cur.value)
  }

  ghost predicate ScanPosition(t: Table, be: Backend, sc: Scan) {
    match sc.phase
    case Fresh => sc.curbucket == 0 && sc.curpartition == 0
    case Locked => sc.curbucket == 0 && sc.curpartition == 0
    case Done => be.localSize == t.size
    case _ =>
      && be.localSize == t.size && sc.nbuckets == NumBuckets(t.size) && sc.curbucket < sc.nbuckets
      && var p := PartitionForBucket(sc.curbucket, t.size);
         (match sc.phase
          case WantLock(q) => q == p
          case HoldBoth(q) => q == p
          case Looking(o) => sc.curpartition == p && PointsInto(Chain(t, sc.curbucket), o)
          case Returned(c, o) =>
            sc.curpartition == p && PointsInto(Chain(t, sc.curbucket), o) && NextSaved(Chain(t, sc.curbucket), c, o)
          case _ => sc.curpartition == p)
  }

  /** Nothing has been returned twice and nothing returned is still ahead. */
  ghost predicate ScanContents(t: Table, sc: Scan) {
    && Distinct(sc.returned)
    && (sc.phase.Fresh? || sc.phase.Locked? ==> sc.returned == [])
    && forall x | x in sc.returned :: x in t.born && !Ahead(t, sc, x)
  }

  ghost predicate GoodBackend(t: Table, be: Backend) {
    && be.localSize <= t.size
    && match be.pc
       case Idle => be.held == map[]
       case Point(p) => be.localSize == t.size && p < NUM_PARTITIONS && p in be.held && be.held.Keys == {p}
       case Resizing(n, target) =>
         && n <= NUM_PARTITIONS && HoldsRange(be.held, 0, n) && target == be.localSize + 1 <= HASH_BITS
         && (n > 0 ==> be.localSize == t.size)
       case Releasing(n) => n < NUM_PARTITIONS && HoldsRange(be.held, n, NUM_PARTITIONS)
       case Scanning(sc) => ScanLocks(sc, be.held) && ScanPosition(t, be, sc) && ScanContents(t, sc)
  }

  ghost predicate Exclusion(backends: seq<Backend>) {
    forall b, c, p {:trigger p in backends[b].held, p in backends[c].held} |
      0 <= b < |backends| && 0 <= c < |backends| && b != c && p in backends[b].held && p in backends[c].held ::
      backends[b].held[p] == Shared && backends[c].held[p] == Shared
  }

  ghost predicate Inv(st: State) {
    && GoodTable(st.t)
    && Exclusion(st.backends)
    && forall b {:trigger GoodBackend(st.t, st.backends[b])} | 0 <= b < |st.backends| :: GoodBackend(st.t, st.backends[b])
  }
}
