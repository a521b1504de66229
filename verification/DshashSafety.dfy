/** What every interleaving of the hash table's backends keeps, and what a
    sequential scan therefore guarantees. */
module DshashSafety {
  import opened Basics
  import opened DshashIndex
  import opened DshashScan

  // ---- locks ----

  lemma ExclusionAcquire(bs: seq<Backend>, b: nat, be: Backend, p: nat, mode: Mode)
    requires Exclusion(bs) && b < |bs|
    requires forall c | 0 <= c < |bs| && c != b :: Compatible(bs[c], p, mode)
    requires be.held == bs[b].held[p := mode]
    ensures Exclusion(bs[b := be])
  {
  }

  lemma ExclusionShrink(bs: seq<Backend>, b: nat, be: Backend)
    requires Exclusion(bs) && b < |bs|
    requires forall p | p in be.held :: p in bs[b].held && be.held[p] == bs[b].held[p]
    ensures Exclusion(bs[b := be])
  {
  }

  // ---- steps that leave the table alone ----

  lemma AdvanceKeeps(t: Table, be: Backend, be': Backend)
    requires GoodTable(t) && GoodBackend(t, be) && IsScan(be) && be.pc.scan.phase == Looking(None)
    requires var sc := be.pc.scan;
             var k := sc.curbucket + 1;
             var p := PartitionForBucket(k, be.localSize);
             var phase := if k >= sc.nbuckets then Done else if p != sc.curpartition then WantLock(p) else ReadHead;
             be' == be.(pc := Scanning(sc.(curbucket := k, phase := phase)))
    ensures GoodBackend(t, be')
  {
    var sc, sc' := be.pc.scan, be'.pc.scan;
    NextBucketPartition(sc.curbucket, be.localSize);
    PartitionInRange(sc.curbucket + 1, be.localSize);
    assert forall x | Ahead(t, sc', x) :: Ahead(t, sc, x);
  }

  lemma ReturnKeeps(t: Table, be: Backend, x: Id)
    requires GoodTable(t) && GoodBackend(t, be) && IsScan(be) && be.pc.scan.phase == Looking(Some(x))
    ensures var sc := be.pc.scan;
            GoodBackend(t, be.(pc := Scanning(sc.(phase := Returned(Some(x), After(Chain(t, sc.curbucket), x)),
                                                  returned := sc.returned + [x]))))
  {
    var sc := be.pc.scan;
    var chain := Chain(t, sc.curbucket);
    var sc' := sc.(phase := Returned(Some(x), After(chain, x)), returned := sc.returned + [x]);
    assert GoodBucket(t.chains[sc.curbucket], sc.curbucket, t.size, t.born);
    FromAfter(chain, x);
    FromAfterRemoval(chain, x);
    assert Ahead(t, sc, x);
    forall y | y in sc'.returned ensures y in t.born && !Ahead(t, sc', y) {
      if y != x {
        assert y in sc.returned;
      }
    }
  }

  lemma ReadKeeps(t: Table, be: Backend)
    requires GoodTable(t) && GoodBackend(t, be) && IsScan(be)
    requires be.pc.scan.phase.ReadHead?
    ensures GoodBackend(t, AtPhase(be, Looking(Head(Chain(t, be.pc.scan.curbucket)))))
  {
  }

  lemma MeasureKeeps(t: Table, be: Backend)
    requires GoodTable(t) && GoodBackend(t, be) && IsScan(be) && be.pc.scan.phase.Locked?
    ensures GoodBackend(t, be.(localSize := t.size,
                               pc := Scanning(be.pc.scan.(phase := Looking(Head(Chain(t, 0))), nbuckets := NumBuckets(t.size)))))
  {
    ShlSum(1, 0, t.size);
    PartitionBlock(0, 0, t.size);
    ShlSum(1, 0, t.size - PARTITIONS_LOG2);
    ShlZero(t.size - PARTITIONS_LOG2);
  }

  predicate ScanMoves(a: Action) {
    a.SeqMeasure? || a.SeqAdvance? || a.SeqRead? || a.SeqReturn?
  }

  lemma ScanMoveKeeps(st: State, b: nat, a: Action)
    requires Inv(st) && b < |st.backends| && Enabled(st, b, a) && ScanMoves(a)
    ensures GoodBackend(st.t, Next(st, b, a).backends[b])
  {
    var t, be := st.t, st.backends[b];
    assert GoodBackend(t, be);
    match a {
      case SeqMeasure => MeasureKeeps(t, be);
      case SeqAdvance => AdvanceKeeps(t, be, Next(st, b, a).backends[b]);
      case SeqRead => ReadKeeps(t, be);
      case SeqReturn => ReturnKeeps(t, be, be.pc.scan.phase.item.value);
    }
  }

  predicate ChangesTable(a: Action) {
    a.Insert? || a.Delete? || a.SeqDeleteCurrent? || a.ResizeSwap?
  }

  // The acting backend stays good under the steps that only lock and unlock.
  lemma LockStepKeeps(st: State, b: nat, a: Action)
    requires Inv(st) && b < |st.backends| && Enabled(st, b, a) && !ScanMoves(a) && !ChangesTable(a)
    ensures GoodBackend(st.t, Next(st, b, a).backends[b])
  {
    assert GoodBackend(st.t, st.backends[b]);
  }

  lemma {:induction false} ShlZero(n: nat)
    ensures Shl(0, n) == 0
  {
    if n > 0 {
      ShlZero(n - 1);
    }
  }

  lemma LocksKeep(st: State, b: nat, a: Action)
    requires Inv(st) && b < |st.backends| && Enabled(st, b, a)
    ensures Exclusion(Next(st, b, a).backends)
  {
    var be, be' := st.backends[b], Next(st, b, a).backends[b];
    assert GoodBackend(st.t, be);
    match a {
      case PointLock(p, mode) => ExclusionAcquire(st.backends, b, be', p, mode);
      case ResizeLock =>
        if be'.pc.Idle? {
          ExclusionShrink(st.backends, b, be');
        } else {
          ExclusionAcquire(st.backends, b, be', be.pc.next, Exclusive);
        }
      case SeqFirstLock => ExclusionAcquire(st.backends, b, be', 0, be.pc.scan.mode);
      case SeqLock => ExclusionAcquire(st.backends, b, be', be.pc.scan.phase.partition, be.pc.scan.mode);
      case Insert(_) =>
      case Delete(_) =>
      case _ => ExclusionShrink(st.backends, b, be');
    }
  }

  // ---- steps that change one bucket ----

  /** t' differs from t in bucket k only, and an item new there was never inserted before. */
  ghost predicate ChangesOnly(t: Table, t': Table, k: nat) {
    && t'.size == t.size && t.born <= t'.born && |t'.chains| == |t.chains|
    && (forall c | 0 <= c < |t.chains| && c != k :: t'.chains[c] == t.chains[c])
    && (forall x | x in Chain(t', k) && x in t.born :: x in Chain(t, k))
  }

  /** Nobody who holds bucket k's partition lock notices: a scan whose current
      partition is another one keeps its position and what it still owes. */
  lemma OthersKeep(t: Table, t': Table, be: Backend, k: nat)
    requires GoodTable(t) && GoodBackend(t, be) && ChangesOnly(t, t', k)
    requires PartitionForBucket(k, t.size) !in be.held
    ensures GoodBackend(t', be)
  {
  }

  lemma InsertKeeps(t: Table, x: Id, k: nat, t': Table)
    requires GoodTable(t) && x !in t.born && k == BucketForHash(x.hash, t.size) < |t.chains|
    requires t' == WithChain(t, k, [x] + Chain(t, k)).(born := t.born + {x})
    ensures GoodTable(t') && ChangesOnly(t, t', k)
  {
    forall c | 0 <= c < |t'.chains| ensures GoodBucket(t'.chains[c], c, t'.size, t'.born) {
      assert GoodBucket(t.chains[c], c, t.size, t.born);
    }
  }

  lemma DeleteKeeps(t: Table, x: Id, k: nat, t': Table)
    requires GoodTable(t) && k < |t.chains| && t' == WithChain(t, k, Remove(Chain(t, k), x))
    ensures GoodTable(t') && ChangesOnly(t, t', k)
    ensures forall y :: y in Chain(t', k) <==> y in Chain(t, k) && y != x
  {
    assert GoodBucket(t.chains[k], k, t.size, t.born);
    RemoveElements(t.chains[k], x);
    forall c | 0 <= c < |t'.chains| ensures GoodBucket(t'.chains[c], c, t'.size, t'.born) {
      assert GoodBucket(t.chains[c], c, t.size, t.born);
    }
  }

  lemma DeleteCurrentKeeps(t: Table, t': Table, be: Backend, x: Id, k: nat)
    requires GoodTable(t) && GoodBackend(t, be) && IsScan(be)
    requires be.pc.scan.phase.Returned? && be.pc.scan.phase.cur == Some(x)
    requires k == BucketForHash(x.hash, be.localSize) && t' == WithChain(t, k, Remove(Chain(t, k), x))
    ensures k == be.pc.scan.curbucket < |t.chains|
    ensures GoodBackend(t', AtPhase(be, be.pc.scan.phase.(cur := None)))
  {
    var sc := be.pc.scan;
    assert GoodBucket(t.chains[sc.curbucket], sc.curbucket, t.size, t.born);
    DeleteKeeps(t, x, k, t');
    FromAfterRemoval(t.chains[k], x);
    var sc' := sc.(phase := sc.phase.(cur := None));
    forall y | y in sc'.returned ensures y in t'.born && !Ahead(t', sc', y) {
      assert !Ahead(t, sc, y);
      assert InTable(t', y) ==> InTable(t, y);
    }
  }

  lemma OthersAvoid(st: State, b: nat, p: nat)
    requires Exclusion(st.backends) && b < |st.backends|
    requires p in st.backends[b].held && st.backends[b].held[p] == Exclusive
    ensures forall c | 0 <= c < |st.backends| && c != b :: p !in st.backends[c].held
  {
  }

  lemma BucketStepKeeps(st: State, b: nat, a: Action)
    requires Inv(st) && b < |st.backends| && Enabled(st, b, a)
    requires a.Insert? || a.Delete? || a.SeqDeleteCurrent?
    ensures Inv(Next(st, b, a))
  {
    var t, be, st' := st.t, st.backends[b], Next(st, b, a);
    var t' := st'.t;
    assert GoodBackend(t, be);
    var x := Touched(be, a);
    var k := BucketForHash(x.hash, be.localSize);
    var p := PartitionForHash(x.hash);
    PartitionOfBucketIsPartitionOfHash(x.hash, t.size);
    BucketInRange(x.hash, t.size);
    if a.Insert? {
      InsertKeeps(t, x, k, t');
    } else {
      DeleteKeeps(t, x, k, t');
      if a.SeqDeleteCurrent? {
        DeleteCurrentKeeps(t, t', be, x, k);
      }
    }
    OthersAvoid(st, b, p);
    LocksKeep(st, b, a);
    forall c | 0 <= c < |st'.backends| ensures GoodBackend(t', st'.backends[c]) {
      if c != b {
        assert GoodBackend(t, st.backends[c]);
        OthersKeep(t, t', st.backends[c], k);
      }
    }
  }

  // ---- growing the table ----

  lemma LocksInRange(t: Table, be: Backend, q: nat)
    requires GoodBackend(t, be) && q in be.held
    ensures q < NUM_PARTITIONS
  {
  }

  /** In the middle of an operation. */
  ghost predicate Inside(pc: Pc) {
    match pc
    case Idle => false
    case Point(_) => true
    case Resizing(n, _) => n > 0
    case Releasing(_) => true
    case Scanning(sc) => !sc.phase.Fresh?
  }

  lemma InsideHoldsLocks(t: Table, be: Backend)
    requires GoodBackend(t, be)
    ensures Inside(be.pc) ==> be.held != map[]
  {
    if Inside(be.pc) {
      var q := if be.pc.Point? then be.pc.partition
               else if be.pc.Releasing? then be.pc.next
               else if be.pc.Scanning? then be.pc.scan.curpartition else 0;
      assert q in be.held;
    }
  }

  /** A backend about to swap tables holds every partition lock, so no other
      backend holds any, and no scan is under way. */
  lemma SwapIsAlone(st: State, b: nat, c: nat)
    requires Inv(st) && b < |st.backends| && c < |st.backends| && b != c
    requires st.backends[b].pc.Resizing? && st.backends[b].pc.next == NUM_PARTITIONS
    ensures st.backends[c].held == map[]
    ensures st.backends[c].pc.Scanning? ==> st.backends[c].pc.scan.phase.Fresh?
    ensures !st.backends[c].pc.Point? && !st.backends[c].pc.Releasing?
    ensures st.backends[c].pc.Resizing? ==> st.backends[c].pc.next == 0
    ensures st.backends[b].localSize == st.t.size
  {
    assert GoodBackend(st.t, st.backends[b]);
    var be := st.backends[c];
    assert GoodBackend(st.t, be);
    forall p: nat | p < NUM_PARTITIONS ensures p !in be.held {
      assert p in st.backends[b].held;
      OthersAvoid(st, b, p);
    }
    forall q | q in be.held ensures q < NUM_PARTITIONS {
      LocksInRange(st.t, be, q);
    }
    assert be.held == map[];
    InsideHoldsLocks(st.t, be);
  }

  lemma SwapKeeps(st: State, b: nat, a: Action)
    requires Inv(st) && b < |st.backends| && a.ResizeSwap? && Enabled(st, b, a)
    ensures Inv(Next(st, b, a))
  {
    var st' := Next(st, b, a);
    assert GoodBackend(st.t, st.backends[b]);
    LocksKeep(st, b, a);
    forall c | 0 <= c < |st'.backends| ensures GoodBackend(st'.t, st'.backends[c]) {
      if c != b {
        SwapIsAlone(st, b, c);
        assert GoodBackend(st.t, st.backends[c]);
      }
    }
  }

  /** Every step of every backend keeps the invariant. */
  lemma StepKeeps(st: State, b: nat, a: Action)
    requires Inv(st) && b < |st.backends| && Enabled(st, b, a)
    ensures Inv(Next(st, b, a))
  {
    if a.Insert? || a.Delete? || a.SeqDeleteCurrent? {
      BucketStepKeeps(st, b, a);
    } else if a.ResizeSwap? {
      SwapKeeps(st, b, a);
    } else {
      var st' := Next(st, b, a);
      LocksKeep(st, b, a);
      if ScanMoves(a) {
        ScanMoveKeeps(st, b, a);
      } else {
        LockStepKeeps(st, b, a);
      }
      forall c | 0 <= c < |st'.backends| ensures GoodBackend(st'.t, st'.backends[c]) {
        if c != b {
          assert GoodBackend(st.t, st.backends[c]);
        }
      }
    }
  }

  // ---- whole runs ----

  /** A table at rest: consistent, and no backend in the middle of anything. */
  ghost predicate Initial(st: State) {
    && GoodTable(st.t)
    && forall b | 0 <= b < |st.backends| ::
         st.backends[b].pc.Idle? && st.backends[b].held == map[] && st.backends[b].localSize <= st.t.size
  }

  ghost predicate Step(st: State, st': State) {
    exists b: nat, a :: b < |st.backends| && Enabled(st, b, a) && st' == Next(st, b, a)
  }

  ghost predicate IsRun(run: seq<State>) {
    && run != [] && Initial(run[0])
    && forall i {:trigger StepAt(run, i)} | 0 <= i < |run| - 1 :: StepAt(run, i)
  }

  ghost predicate StepAt(run: seq<State>, i: nat)
    requires i + 1 < |run|
  {
    Step(run[i], run[i + 1])
  }

  lemma {:induction false} RunKeepsInv(run: seq<State>, i: nat)
    requires IsRun(run) && i < |run|
    ensures Inv(run[i])
  {
    if i > 0 {
      RunKeepsInv(run, i - 1);
      assert StepAt(run, i - 1);
      var b: nat, a :| b < |run[i - 1].backends| && Enabled(run[i - 1], b, a) && run[i] == Next(run[i - 1], b, a);
      StepKeeps(run[i - 1], b, a);
    }
  }

  /** Backend c is between its first dshash_seq_next and dshash_seq_term. */
  predicate InScan(st: State, c: nat) {
    c < |st.backends| && st.backends[c].pc.Scanning? && !st.backends[c].pc.scan.phase.Fresh?
  }

  /** While scanning, a backend always holds a partition lock in its scan's mode,
      reads the bucket array only while its cached pointer is current, and the
      one lock it may wait for lies above every lock it holds. */
  lemma ScanAlwaysLocked(run: seq<State>, i: nat, c: nat)
    requires IsRun(run) && i < |run| && InScan(run[i], c)
    ensures var be := run[i].backends[c];
            && be.pc.scan.curpartition in be.held && be.held[be.pc.scan.curpartition] == be.pc.scan.mode
            && (!be.pc.scan.phase.Locked? ==> be.localSize == run[i].t.size)
            && forall p | Awaited(be).Some? && p in be.held :: p < Awaited(be).value.0
  {
    RunKeepsInv(run, i);
    assert GoodBackend(run[i].t, run[i].backends[c]);
  }

  /** No step of any backend resizes the table under a scan. */
  lemma ScanFreezesSize(st: State, b: nat, a: Action, c: nat)
    requires Inv(st) && b < |st.backends| && Enabled(st, b, a) && InScan(st, c)
    ensures Next(st, b, a).t.size == st.t.size
  {
    if a.ResizeSwap? {
      assert GoodBackend(st.t, st.backends[b]);
      SwapIsAlone(st, b, c);
      assert false;
    }
  }

  /** From its first lock to its end, a scan sees a table of one size. */
  lemma {:induction false} ScanSeesOneSize(run: seq<State>, i: nat, j: nat, c: nat)
    requires IsRun(run) && i <= j < |run| && forall k | i <= k <= j :: InScan(run[k], c)
    ensures run[j].t.size == run[i].t.size
    decreases j
  {
    if i < j {
      ScanSeesOneSize(run, i, j - 1, c);
      RunKeepsInv(run, j - 1);
      assert StepAt(run, j - 1);
      var b: nat, a :| b < |run[j - 1].backends| && Enabled(run[j - 1], b, a) && run[j] == Next(run[j - 1], b, a);
      ScanFreezesSize(run[j - 1], b, a, c);
    }
  }

  /** An item is in the table at the moment a scan returns it. */
  lemma ReturnedIsInTable(run: seq<State>, i: nat, c: nat)
    requires IsRun(run) && i < |run| && c < |run[i].backends| && Enabled(run[i], c, SeqReturn)
    ensures InTable(run[i].t, run[i].backends[c].pc.scan.phase.item.value)
  {
    RunKeepsInv(run, i);
    var t, sc := run[i].t, run[i].backends[c].pc.scan;
    assert GoodBackend(t, run[i].backends[c]);
    assert GoodBucket(t.chains[sc.curbucket], sc.curbucket, t.size, t.born);
  }

  ghost predicate Covered(t: Table, sc: Scan, x: Id) {
    x in sc.returned || Ahead(t, sc, x)
  }

  lemma {:induction false} FromHead(chain: seq<Id>)
    ensures From(chain, Head(chain)) == chain
  {
  }

  // An item the scan owes is still owed, or returned, after one of the scan's own steps.
  lemma OwnStepCovers(st: State, c: nat, a: Action, x: Id)
    requires Inv(st) && InScan(st, c) && Enabled(st, c, a) && InScan(Next(st, c, a), c)
    requires InTable(Next(st, c, a).t, x) && Covered(st.t, st.backends[c].pc.scan, x)
    ensures Covered(Next(st, c, a).t, Next(st, c, a).backends[c].pc.scan, x)
  {
    var t, be := st.t, st.backends[c];
    var sc := be.pc.scan;
    assert GoodBackend(t, be);
    FromHead(Chain(t, sc.curbucket));
    if sc.curbucket < |t.chains| {
      assert GoodBucket(t.chains[sc.curbucket], sc.curbucket, t.size, t.born);
    }
    match a {
      case SeqReturn => FromAfter(Chain(t, sc.curbucket), sc.phase.item.value);
      case SeqDeleteCurrent =>
        var y := sc.phase.cur.value;
        DeleteCurrentKeeps(t, Next(st, c, a).t, be, y, BucketForHash(y.hash, be.localSize));
        FromAfterRemoval(Chain(t, sc.curbucket), y);
        DeleteKeeps(t, y, sc.curbucket, Next(st, c, a).t);
      case SeqAdvance => BucketInRange(x.hash, t.size);
      case _ =>
    }
  }

  lemma OtherStepCovers(st: State, b: nat, a: Action, c: nat, x: Id)
    requires Inv(st) && b < |st.backends| && b != c && Enabled(st, b, a) && InScan(st, c)
    requires InTable(Next(st, b, a).t, x) && InTable(st.t, x) && Covered(st.t, st.backends[c].pc.scan, x)
    ensures Covered(Next(st, b, a).t, st.backends[c].pc.scan, x)
  {
    var t, be, sc := st.t, st.backends[b], st.backends[c].pc.scan;
    assert GoodBackend(t, be) && GoodBackend(t, st.backends[c]);
    ScanFreezesSize(st, b, a, c);
    if a.Insert? || a.Delete? || a.SeqDeleteCurrent? {
      var y := Touched(be, a);
      PartitionOfBucketIsPartitionOfHash(y.hash, t.size);
      if a.SeqDeleteCurrent? {
        var k := be.pc.scan.curbucket;
        assert GoodBucket(t.chains[k], k, t.size, t.born);
      }
      OthersAvoid(st, b, PartitionForHash(y.hash));
      assert sc.curpartition in st.backends[c].held;
    }
  }

  lemma StepCovers(st: State, st': State, c: nat, x: Id)
    requires Inv(st) && Step(st, st') && InScan(st, c) && InScan(st', c) && InTable(st.t, x) && InTable(st'.t, x)
    requires Covered(st.t, st.backends[c].pc.scan, x)
    ensures Covered(st'.t, st'.backends[c].pc.scan, x)
  {
    var b: nat, a :| b < |st.backends| && Enabled(st, b, a) && st' == Next(st, b, a);
    if b == c {
      OwnStepCovers(st, c, a, x);
    } else {
      OtherStepCovers(st, b, a, c, x);
    }
  }

  /** The items in the table at the first call and still there at the last are
      each covered at every moment in between. */
  lemma {:induction false} RunCovers(run: seq<State>, i: nat, j: nat, c: nat, x: Id)
    requires IsRun(run) && i <= j < |run|
    requires forall k | i <= k <= j :: InScan(run[k], c) && InTable(run[k].t, x)
    requires InScan(run[i], c) && run[i].backends[c].pc.scan.phase.Locked?
    ensures InScan(run[j], c) && Covered(run[j].t, run[j].backends[c].pc.scan, x)
    decreases j
  {
    if i < j {
      RunCovers(run, i, j - 1, c, x);
      RunKeepsInv(run, j - 1);
      assert StepAt(run, j - 1);
      StepCovers(run[j - 1], run[j], c, x);
    } else {
      RunKeepsInv(run, i);
      assert GoodBackend(run[i].t, run[i].backends[c]);
    }
  }

  /** In every run, a scan that has gone from taking its first lock (state i) to
      reporting the end (state j) has returned every item that was in the table
      throughout exactly once, whatever the other backends did and whichever
      items the scanning backend deleted on the way. */
  lemma ScanReturnsExactlyOnce(run: seq<State>, i: nat, j: nat, c: nat, x: Id)
    requires IsRun(run) && i <= j < |run|
    requires forall k | i <= k <= j :: InScan(run[k], c) && InTable(run[k].t, x)
    requires InScan(run[i], c) && run[i].backends[c].pc.scan.phase.Locked?
    requires InScan(run[j], c) && run[j].backends[c].pc.scan.phase.Done?
    ensures multiset(run[j].backends[c].pc.scan.returned)[x] == 1
  {
    RunCovers(run, i, j, c, x);
    RunKeepsInv(run, j);
    assert GoodBackend(run[j].t, run[j].backends[c]);
    DistinctCount(run[j].backends[c].pc.scan.returned, x);
  }

  /** At no moment of any run has a scan returned an item twice. */
  lemma ScanNeverRepeats(run: seq<State>, j: nat, c: nat, x: Id)
    requires IsRun(run) && j < |run| && InScan(run[j], c)
    ensures multiset(run[j].backends[c].pc.scan.returned)[x] <= 1
  {
    RunKeepsInv(run, j);
    assert GoodBackend(run[j].t, run[j].backends[c]);
    DistinctCount(run[j].backends[c].pc.scan.returned, x);
  }

  // ---- progress ----

  function Select(chain: seq<Id>, b: nat, size: SizeLog2): seq<Id> {
    if chain == [] then []
    else (if BucketForHash(chain[0].hash, size) == b then [chain[0]] else []) + Select(chain[1..], b, size)
  }

  lemma {:induction false} SelectElements(chain: seq<Id>, b: nat, size: SizeLog2)
    requires Distinct(chain)
    ensures Distinct(Select(chain, b, size))
    ensures forall x :: x in Select(chain, b, size) <==> x in chain && BucketForHash(x.hash, size) == b
  {
    if chain != [] {
      SelectElements(chain[1..], b, size);
      assert chain[0] !in chain[1..];
      var r := Select(chain, b, size);
      if BucketForHash(chain[0].hash, size) == b {
        assert r == [chain[0]] + Select(chain[1..], b, size);
      } else {
        assert r == Select(chain[1..], b, size);
      }
    }
  }

  function GrownChain(t: Table, size: SizeLog2, k: nat): seq<Id> {
    Select(Chain(t, k / 2), k, size)
  }

  /** Splitting every bucket in two by the newly revealed hash bit. */
  function Grown(t: Table): Table
    requires t.size < HASH_BITS
  {
    var size := t.size + 1;
    Table(size, seq(NumBuckets(size), k requires 0 <= k => GrownChain(t, size, k)), t.born)
  }

  lemma HalfInRange(s: SizeLog2, k: nat)
    requires s < HASH_BITS && k < NumBuckets(s + 1)
    ensures k / 2 < NumBuckets(s)
  {
  }

  lemma GrownBucket(t: Table, k: nat)
    requires GoodTable(t) && t.size < HASH_BITS && k < NumBuckets(t.size + 1)
    ensures GoodBucket(GrownChain(t, t.size + 1, k), k, t.size + 1, t.born)
    ensures forall x :: x in GrownChain(t, t.size + 1, k) <==> x in Chain(t, k / 2) && BucketForHash(x.hash, t.size + 1) == k
  {
    HalfInRange(t.size, k);
    assert GoodBucket(t.chains[k / 2], k / 2, t.size, t.born);
    SelectElements(t.chains[k / 2], k, t.size + 1);
  }

  lemma GrownChainAt(t: Table, k: nat)
    requires t.size < HASH_BITS && k < NumBuckets(t.size + 1)
    ensures |Grown(t).chains| == NumBuckets(t.size + 1) && Grown(t).chains[k] == GrownChain(t, t.size + 1, k)
  {
  }

  lemma GrownHolds(t: Table, x: Id)
    requires GoodTable(t) && t.size < HASH_BITS
    ensures InTable(Grown(t), x) <==> InTable(t, x)
  {
    var k := BucketForHash(x.hash, t.size + 1);
    BucketInRange(x.hash, t.size + 1);
    GrowthSplitsBucket(x.hash, t.size);
    GrownChainAt(t, k);
    GrownBucket(t, k);
  }

  lemma GrownIsGood(t: Table)
    requires GoodTable(t) && t.size < HASH_BITS
    ensures GoodTable(Grown(t))
  {
    var t' := Grown(t);
    forall k | 0 <= k < |t'.chains| ensures GoodBucket(t'.chains[k], k, t'.size, t'.born) {
      GrownChainAt(t, k);
      GrownBucket(t, k);
    }
  }

  /** The table can always grow: splitting the buckets is a rehash. */
  lemma GrownIsRehashed(t: Table)
    requires GoodTable(t) && t.size < HASH_BITS
    ensures Rehashed(t, Grown(t))
  {
    GrownIsGood(t);
    forall x ensures InTable(Grown(t), x) <==> InTable(t, x) {
      GrownHolds(t, x);
    }
  }

  predicate Blocked(st: State, b: nat)
    requires b < |st.backends|
  {
    var w := Awaited(st.backends[b]);
    w.Some? && !Free(st, b, w.value.0, w.value.1)
  }

  /** Locks are awaited in ascending order: whoever waits for a partition holds
      only lower ones. */
  lemma AwaitsAbove(st: State, b: nat, p: nat)
    requires Inv(st) && b < |st.backends| && Awaited(st.backends[b]).Some? && p in st.backends[b].held
    ensures p < Awaited(st.backends[b]).value.0 < NUM_PARTITIONS
  {
    assert GoodBackend(st.t, st.backends[b]);
  }

  // Following the waits-for chain reaches a busy backend that is not blocked.
  lemma FindRunnable(st: State, b: nat) returns (c: nat)
    requires Inv(st) && b < |st.backends| && !st.backends[b].pc.Idle?
    ensures c < |st.backends| && !st.backends[c].pc.Idle? && !Blocked(st, c)
    decreases if Awaited(st.backends[b]).Some? then NUM_PARTITIONS - Awaited(st.backends[b]).value.0 else -1
  {
    if !Blocked(st, b) {
      return b;
    }
    var w := Awaited(st.backends[b]).value;
    var d :| 0 <= d < |st.backends| && d != b && !Compatible(st.backends[d], w.0, w.1);
    assert GoodBackend(st.t, st.backends[b]) && GoodBackend(st.t, st.backends[d]);
    if Awaited(st.backends[d]).Some? {
      AwaitsAbove(st, d, w.0);
    }
    c := FindRunnable(st, d);
  }

  lemma RunnableScanSteps(st: State, c: nat)
    requires c < |st.backends| && st.backends[c].pc.Scanning? && !Blocked(st, c)
    ensures exists a :: Enabled(st, c, a)
  {
    match st.backends[c].pc.scan.phase {
      case Fresh => assert Enabled(st, c, SeqFirstLock);
      case Locked => assert Enabled(st, c, SeqMeasure);
      case ReadHead => assert Enabled(st, c, SeqRead);
      case Looking(o) => assert if o.Some? then Enabled(st, c, SeqReturn) else Enabled(st, c, SeqAdvance);
      case WantLock(_) => assert Enabled(st, c, SeqLock);
      case HoldBoth(_) => assert Enabled(st, c, SeqUnlock);
      case Returned(_, _) => assert Enabled(st, c, SeqTerm);
      case Done => assert Enabled(st, c, SeqTerm);
    }
  }

  lemma RunnableSteps(st: State, c: nat)
    requires Inv(st) && c < |st.backends| && !st.backends[c].pc.Idle? && !Blocked(st, c)
    ensures exists a :: Enabled(st, c, a)
  {
    var be := st.backends[c];
    assert GoodBackend(st.t, be);
    if be.pc.Point? {
      assert Enabled(st, c, PointUnlock);
    } else if be.pc.Releasing? {
      assert Enabled(st, c, ResizeUnlock);
    } else if be.pc.Scanning? {
      RunnableScanSteps(st, c);
    } else if be.pc.next < NUM_PARTITIONS {
      assert Enabled(st, c, ResizeLock);
    } else {
      GrownIsRehashed(st.t);
      assert Enabled(st, c, ResizeSwap(Grown(st.t)));
    }
  }

  /** No reachable state is deadlocked: whenever some backend is busy, some busy
      backend has a step to take, because scans and resizes lock in one order. */
  lemma NoDeadlock(run: seq<State>, i: nat, b: nat)
    requires IsRun(run) && i < |run| && b < |run[i].backends| && !run[i].backends[b].pc.Idle?
    ensures exists c: nat, a :: c < |run[i].backends| && !run[i].backends[c].pc.Idle? && Enabled(run[i], c, a)
  {
    RunKeepsInv(run, i);
    var c := FindRunnable(run[i], b);
    RunnableSteps(run[i], c);
  }
}
