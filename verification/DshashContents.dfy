/** What the steps of the locking protocol do to what the table holds: over single
    steps, over whole operations, and over whole runs. */
module DshashContents {
  import opened Basics
  import opened DshashIndex
  import opened DshashScan
  import opened DshashSafety

  /** The item the step puts into the table. */
  predicate Adds(a: Action, y: Id) {
    a == Insert(y)
  }

  /** The item the step takes out of the table: the one named, or the one the scan has
      returned last. */
  predicate TakesOut(be: Backend, a: Action, y: Id) {
    a == Delete(y) || (a.SeqDeleteCurrent? && IsScan(be) && be.pc.scan.phase.Returned? && be.pc.scan.phase.cur == Some(y))
  }

  /** Of every step of every backend: the table then holds what it held, without the
      item the step takes out and with the one it adds; it grows at a swap, to the
      size wanted, and at no other step. */
  lemma StepContents(st: State, b: nat, a: Action, y: Id)
    requires Inv(st) && b < |st.backends| && Enabled(st, b, a)
    ensures InTable(Next(st, b, a).t, y) <==> Adds(a, y) || (InTable(st.t, y) && !TakesOut(st.backends[b], a, y))
    ensures Next(st, b, a).t.born == if a.Insert? then st.t.born + {a.id} else st.t.born
    ensures Next(st, b, a).t.size == if a.ResizeSwap? then st.backends[b].pc.target else st.t.size
  {
    var t, be := st.t, st.backends[b];
    assert GoodBackend(t, be);
    BucketInRange(y.hash, t.size);
    if a.Insert? || a.Delete? || a.SeqDeleteCurrent? {
      var x := Touched(be, a);
      var k := BucketForHash(x.hash, t.size);
      BucketInRange(x.hash, t.size);
      if !a.Insert? {
        DeleteKeeps(t, x, k, WithChain(t, k, Remove(Chain(t, k), x)));
      }
    }
  }

  // ---- over runs ----

  lemma GoodIsBorn(t: Table, x: Id)
    requires GoodTable(t) && InTable(t, x)
    ensures x in t.born
  {
    var b := BucketForHash(x.hash, t.size);
    assert GoodBucket(t.chains[b], b, t.size, t.born);
  }

  lemma StepKeepsGone(st: State, st': State, x: Id)
    requires Inv(st) && Step(st, st') && x in st.t.born
    ensures x in st'.t.born
    ensures InTable(st'.t, x) ==> InTable(st.t, x)
  {
    var b: nat, a :| b < |st.backends| && Enabled(st, b, a) && st' == Next(st, b, a);
    StepContents(st, b, a, x);
  }

  /** In every run, an item once deleted never comes back: one that is in the table
      later, and had been inserted before, was there all the time. */
  lemma {:induction false} NeverComesBack(run: seq<State>, i: nat, j: nat, x: Id)
    requires IsRun(run) && i <= j < |run| && x in run[i].t.born
    ensures x in run[j].t.born
    ensures InTable(run[j].t, x) ==> forall k | i <= k <= j :: InTable(run[k].t, x)
    decreases j - i
  {
    if i < j {
      RunKeepsInv(run, i);
      assert StepAt(run, i);
      StepKeepsGone(run[i], run[i + 1], x);
      NeverComesBack(run, i + 1, j, x);
    }
  }

  ghost predicate DeletedBy(st: State, st': State, x: Id) {
    exists b: nat, a ::
      b < |st.backends| && Enabled(st, b, a) && st' == Next(st, b, a) && TakesOut(st.backends[b], a, x)
  }

  lemma StepLoses(st: State, st': State, x: Id)
    requires Inv(st) && Step(st, st') && InTable(st.t, x) && !InTable(st'.t, x)
    ensures DeletedBy(st, st', x)
  {
    var b: nat, a :| b < |st.backends| && Enabled(st, b, a) && st' == Next(st, b, a);
    StepContents(st, b, a, x);
  }

  /** In every run, an item leaves the table only by a step that deletes it. */
  lemma {:induction false} LeavesByDeletion(run: seq<State>, i: nat, j: nat, x: Id)
    requires IsRun(run) && i <= j < |run| && InTable(run[i].t, x) && !InTable(run[j].t, x)
    ensures exists k {:trigger run[k]} :: i <= k < j && DeletedBy(run[k], run[k + 1], x)
    decreases j - i
  {
    RunKeepsInv(run, i);
    assert StepAt(run, i);
    if InTable(run[i + 1].t, x) {
      LeavesByDeletion(run, i + 1, j, x);
    } else {
      StepLoses(run[i], run[i + 1], x);
    }
  }

  /** The scan theorem with the weakest hypothesis: an item in the table when the scan
      takes its first lock and when it reports the end has been returned exactly once. */
  lemma ScanReturnsWhatStays(run: seq<State>, i: nat, j: nat, c: nat, x: Id)
    requires IsRun(run) && i <= j < |run| && (forall k | i <= k <= j :: InScan(run[k], c))
    requires InScan(run[i], c) && run[i].backends[c].pc.scan.phase.Locked?
    requires InScan(run[j], c) && run[j].backends[c].pc.scan.phase.Done?
    requires InTable(run[i].t, x) && InTable(run[j].t, x)
    ensures multiset(run[j].backends[c].pc.scan.returned)[x] == 1
  {
    RunKeepsInv(run, i);
    GoodIsBorn(run[i].t, x);
    NeverComesBack(run, i, j, x);
    ScanReturnsExactlyOnce(run, i, j, c, x);
  }

  // ---- a scan that deletes what it returns ----

  /** The scan has an item out that it has not deleted. */
  predicate HoldsItem(st: State, c: nat, x: Id) {
    InScan(st, c) && st.backends[c].pc.scan.phase.Returned? && st.backends[c].pc.scan.phase.cur == Some(x)
  }

  /** From one state to the next the scan does not go on with an item undeleted. */
  ghost predicate DeletesFirst(st: State, st': State, c: nat) {
    forall x | HoldsItem(st, c, x) :: InScan(st', c) && st'.backends[c].pc.scan.phase.Returned?
  }

  /** Everything the scan has returned is deleted, but for the item it has out. */
  ghost predicate DeletedSoFar(st: State, c: nat) {
    InScan(st, c) && forall x | x in st.backends[c].pc.scan.returned :: !InTable(st.t, x) || HoldsItem(st, c, x)
  }

  lemma StepDeletes(st: State, st': State, c: nat, x: Id)
    requires Inv(st) && Step(st, st') && InScan(st, c) && InScan(st', c) && DeletesFirst(st, st', c)
    requires DeletedSoFar(st, c) && x in st'.backends[c].pc.scan.returned
    ensures !InTable(st'.t, x) || HoldsItem(st', c, x)
  {
    var b: nat, a :| b < |st.backends| && Enabled(st, b, a) && st' == Next(st, b, a);
    assert GoodBackend(st.t, st.backends[c]);
    StepContents(st, b, a, x);
  }

  lemma {:induction false} DeletingScan(run: seq<State>, i: nat, j: nat, c: nat)
    requires IsRun(run) && i <= j < |run| && (forall k | i <= k <= j :: InScan(run[k], c))
    requires InScan(run[i], c) && run[i].backends[c].pc.scan.phase.Locked?
    requires forall k | i <= k < j :: DeletesFirst(run[k], run[k + 1], c)
    ensures DeletedSoFar(run[j], c)
    decreases j
  {
    if i < j {
      DeletingScan(run, i, j - 1, c);
      RunKeepsInv(run, j - 1);
      assert StepAt(run, j - 1);
      forall x | x in run[j].backends[c].pc.scan.returned ensures !InTable(run[j].t, x) || HoldsItem(run[j], c, x) {
        StepDeletes(run[j - 1], run[j], c, x);
      }
    } else {
      RunKeepsInv(run, i);
      assert GoodBackend(run[i].t, run[i].backends[c]);
    }
  }

  lemma CountedIsIn(s: seq<Id>, x: Id)
    requires multiset(s)[x] > 0
    ensures x in s
  {
    assert x in multiset(s);
  }

  /** In every run, a scan that deletes each item it returns before it goes on leaves,
      at its end, nothing of what the table held at its start, whatever the other
      backends did meanwhile. */
  lemma DeletingScanEmptiesTheTable(run: seq<State>, i: nat, j: nat, c: nat, x: Id)
    requires IsRun(run) && i <= j < |run| && (forall k | i <= k <= j :: InScan(run[k], c))
    requires InScan(run[i], c) && run[i].backends[c].pc.scan.phase.Locked?
    requires InScan(run[j], c) && run[j].backends[c].pc.scan.phase.Done?
    requires forall k | i <= k < j :: DeletesFirst(run[k], run[k + 1], c)
    ensures InTable(run[i].t, x) ==> !InTable(run[j].t, x)
  {
    DeletingScan(run, i, j, c);
    if InTable(run[i].t, x) && InTable(run[j].t, x) {
      ScanReturnsWhatStays(run, i, j, c, x);
      CountedIsIn(run[j].backends[c].pc.scan.returned, x);
    }
  }

  // ---- whole operations ----

  /** Backend b performs the actions in turn, each of them when it is enabled. */
  ghost predicate Performs(st: State, b: nat, actions: seq<Action>, st': State)
    decreases |actions|
  {
    if actions == [] then st' == st
    else b < |st.backends| && Enabled(st, b, actions[0]) && Performs(Next(st, b, actions[0]), b, actions[1..], st')
  }

  /** The backend is done and holds no lock; no other backend was touched. */
  ghost predicate AtRest(st: State, st': State, b: nat) {
    && b < |st.backends| == |st'.backends| && st'.backends == st.backends[b := st'.backends[b]]
    && st'.backends[b].pc.Idle? && st'.backends[b].held == map[]
  }

  /** A whole insertion, from an idle backend that gets the lock to an idle backend:
      the table then holds the new item and what it held, and nothing else. */
  lemma InsertOperation(st: State, b: nat, x: Id) returns (st': State)
    requires Inv(st) && b < |st.backends| && st.backends[b].pc.Idle? && x !in st.t.born
    requires Free(st, b, PartitionForHash(x.hash), Exclusive)
    ensures Performs(st, b, [PointLock(PartitionForHash(x.hash), Exclusive), Insert(x), PointUnlock], st')
    ensures AtRest(st, st', b) && st'.t.size == st.t.size
    ensures forall y :: InTable(st'.t, y) <==> InTable(st.t, y) || y == x
  {
    var p := PartitionForHash(x.hash);
    HashPartitionInRange(x.hash);
    assert GoodBackend(st.t, st.backends[b]);
    var a0, a1, a2 := PointLock(p, Exclusive), Insert(x), PointUnlock;
    var s1 := Next(st, b, a0);
    StepKeeps(st, b, a0);
    var s2 := Next(s1, b, a1);
    st' := Next(s2, b, a2);
    forall y ensures InTable(st'.t, y) <==> InTable(st.t, y) || y == x {
      StepContents(s1, b, a1, y);
    }
    StepContents(s1, b, a1, x);
    Performs3(st, b, a0, a1, a2);
  }

  /** A whole deletion likewise. */
  lemma DeleteOperation(st: State, b: nat, x: Id) returns (st': State)
    requires Inv(st) && b < |st.backends| && st.backends[b].pc.Idle? && InTable(st.t, x)
    requires Free(st, b, PartitionForHash(x.hash), Exclusive)
    ensures Performs(st, b, [PointLock(PartitionForHash(x.hash), Exclusive), Delete(x), PointUnlock], st')
    ensures AtRest(st, st', b) && st'.t.size == st.t.size
    ensures forall y :: InTable(st'.t, y) <==> InTable(st.t, y) && y != x
  {
    var p := PartitionForHash(x.hash);
    HashPartitionInRange(x.hash);
    assert GoodBackend(st.t, st.backends[b]);
    var a0, a1, a2 := PointLock(p, Exclusive), Delete(x), PointUnlock;
    var s1 := Next(st, b, a0);
    StepKeeps(st, b, a0);
    var s2 := Next(s1, b, a1);
    st' := Next(s2, b, a2);
    forall y ensures InTable(st'.t, y) <==> InTable(st.t, y) && y != x {
      StepContents(s1, b, a1, y);
    }
    StepContents(s1, b, a1, x);
    Performs3(st, b, a0, a1, a2);
  }

  lemma HashPartitionInRange(h: Hash)
    ensures PartitionForHash(h) < NUM_PARTITIONS
  {
    BucketInRange(h, PARTITIONS_LOG2);
    PartitionOfBucketIsPartitionOfHash(h, PARTITIONS_LOG2);
    PartitionInRange(BucketForHash(h, PARTITIONS_LOG2), PARTITIONS_LOG2);
  }

  lemma Performs3(st: State, b: nat, a0: Action, a1: Action, a2: Action)
    requires b < |st.backends| && Enabled(st, b, a0)
    requires var s1 := Next(st, b, a0); b < |s1.backends| && Enabled(s1, b, a1)
    requires var s2 := Next(Next(st, b, a0), b, a1); b < |s2.backends| && Enabled(s2, b, a2)
    ensures Performs(st, b, [a0, a1, a2], Next(Next(Next(st, b, a0), b, a1), b, a2))
  {
    var s1 := Next(st, b, a0);
    var s2 := Next(s1, b, a1);
    var s3 := Next(s2, b, a2);
    assert Performs(s3, b, [], s3);
    assert Performs(s2, b, [a2], s3);
    assert [a1, a2][1..] == [a2];
    assert Performs(s1, b, [a1, a2], s3);
    assert [a0, a1, a2][1..] == [a1, a2];
  }

  // ---- a whole scan ----

  /** What the scan does next: with `deleting`, it deletes each item it has out. */
  function ScanAction(sc: Scan, deleting: bool): Action {
    match sc.phase
    case Fresh => SeqFirstLock
    case Locked => SeqMeasure
    case ReadHead => SeqRead
    case Looking(o) => if o.Some? then SeqReturn else SeqAdvance
    case WantLock(_) => SeqLock
    case HoldBoth(_) => SeqUnlock
    case Returned(cur, _) => if deleting && cur.Some? then SeqDeleteCurrent else SeqCall
    case Done => SeqTerm
  }

  /** Nobody but backend c holds a lock. */
  ghost predicate Alone(st: State, c: nat) {
    forall d | 0 <= d < |st.backends| && d != c :: st.backends[d].held == map[]
  }

  /** The scan owes or has returned every item of the table and, when deleting, has
      deleted what it returned. */
  ghost predicate OnCourse(st: State, c: nat, deleting: bool) {
    && Inv(st) && InScan(st, c) && Alone(st, c)
    && (forall x | InTable(st.t, x) :: Covered(st.t, st.backends[c].pc.scan, x))
    && (deleting ==> st.backends[c].pc.scan.mode.Exclusive? && DeletedSoFar(st, c))
  }

  ghost function StagesLeft(sc: Scan): nat {
    if sc.phase.Locked? then 2 else if sc.phase.Done? then 0 else 1
  }

  ghost function BucketsLeft(sc: Scan): nat {
    if sc.phase.Locked? || sc.phase.Done? || sc.curbucket >= sc.nbuckets then 0 else sc.nbuckets - sc.curbucket
  }

  ghost function PhasesLeft(sc: Scan): nat {
    match sc.phase
    case WantLock(_) => 3
    case HoldBoth(_) => 2
    case ReadHead => 1
    case _ => 0
  }

  ghost function ItemsLeft(t: Table, sc: Scan): nat {
    match sc.phase
    case Looking(o) => 3 * |From(Chain(t, sc.curbucket), o)|
    case Returned(cur, o) => 3 * |From(Chain(t, sc.curbucket), o)| + if cur.Some? then 2 else 1
    case _ => 0
  }

  ghost predicate Nearer(t: Table, sc: Scan, t': Table, sc': Scan) {
    || StagesLeft(sc') < StagesLeft(sc)
    || (StagesLeft(sc') == StagesLeft(sc)
        && (|| BucketsLeft(sc') < BucketsLeft(sc)
            || (BucketsLeft(sc') == BucketsLeft(sc)
                && (|| PhasesLeft(sc') < PhasesLeft(sc)
                    || (PhasesLeft(sc') == PhasesLeft(sc) && ItemsLeft(t', sc') < ItemsLeft(t, sc))))))
  }

  lemma ScanStepNearer(st: State, c: nat, deleting: bool)
    requires OnCourse(st, c, deleting) && !st.backends[c].pc.scan.phase.Done?
    ensures var a := ScanAction(st.backends[c].pc.scan, deleting);
            && Enabled(st, c, a) && InScan(Next(st, c, a), c)
            && Nearer(st.t, st.backends[c].pc.scan, Next(st, c, a).t, Next(st, c, a).backends[c].pc.scan)
  {
    var t, be := st.t, st.backends[c];
    var sc := be.pc.scan;
    assert GoodBackend(t, be);
    if sc.phase.Looking? || sc.phase.Returned? {
      ItemStepNearer(st, c, deleting);
    }
  }

  lemma ItemStepNearer(st: State, c: nat, deleting: bool)
    requires OnCourse(st, c, deleting) && (st.backends[c].pc.scan.phase.Looking? || st.backends[c].pc.scan.phase.Returned?)
    ensures var a := ScanAction(st.backends[c].pc.scan, deleting);
            && Enabled(st, c, a) && InScan(Next(st, c, a), c)
            && Nearer(st.t, st.backends[c].pc.scan, Next(st, c, a).t, Next(st, c, a).backends[c].pc.scan)
  {
    var t, be := st.t, st.backends[c];
    var sc := be.pc.scan;
    assert GoodBackend(t, be);
    var chain := t.chains[sc.curbucket];
    assert GoodBucket(chain, sc.curbucket, t.size, t.born);
    match sc.phase {
      case Looking(o) =>
        if o.Some? {
          FromAfter(chain, o.value);
        }
      case Returned(cur, o) =>
        if cur.Some? {
          FromAfterRemoval(chain, cur.value);
        }
    }
  }

  /** What the scan returns in between, and what is then left, was in the table, and
      what was in the table is still there or returned. */
  ghost predicate TakesFromTable(st: State, st': State, c: nat) {
    && InScan(st, c) && InScan(st', c)
    && (forall x | x in st'.backends[c].pc.scan.returned :: x in st.backends[c].pc.scan.returned || InTable(st.t, x))
    && (forall x | InTable(st'.t, x) :: InTable(st.t, x))
    && (forall x | InTable(st.t, x) || x in st.backends[c].pc.scan.returned ::
          InTable(st'.t, x) || x in st'.backends[c].pc.scan.returned)
  }

  lemma StepTakesFromTable(st: State, c: nat, a: Action, deleting: bool)
    requires OnCourse(st, c, deleting) && Enabled(st, c, a) && InScan(Next(st, c, a), c)
    ensures TakesFromTable(st, Next(st, c, a), c)
  {
    var t, be := st.t, st.backends[c];
    var sc := be.pc.scan;
    assert GoodBackend(t, be);
    if sc.curbucket < |t.chains| {
      assert GoodBucket(t.chains[sc.curbucket], sc.curbucket, t.size, t.born);
    }
    forall x ensures InTable(Next(st, c, a).t, x) <==> InTable(t, x) && !(a.SeqDeleteCurrent? && sc.phase.cur == Some(x)) {
      StepContents(st, c, a, x);
    }
    if a.SeqDeleteCurrent? {
      FromAfterRemoval(t.chains[sc.curbucket], sc.phase.cur.value);
      assert Covered(t, sc, sc.phase.cur.value);
    }
  }

  lemma ScanStepOnCourse(st: State, c: nat, deleting: bool)
    requires OnCourse(st, c, deleting) && !st.backends[c].pc.scan.phase.Done?
    ensures var a := ScanAction(st.backends[c].pc.scan, deleting);
            && Enabled(st, c, a) && OnCourse(Next(st, c, a), c, deleting)
            && Next(st, c, a).backends == st.backends[c := Next(st, c, a).backends[c]]
            && (!deleting ==> Next(st, c, a).t == st.t)
            && TakesFromTable(st, Next(st, c, a), c)
  {
    ScanStepNearer(st, c, deleting);
    var a := ScanAction(st.backends[c].pc.scan, deleting);
    var st' := Next(st, c, a);
    StepKeeps(st, c, a);
    assert Step(st, st');
    StepTakesFromTable(st, c, a, deleting);
    forall x | InTable(st'.t, x) ensures Covered(st'.t, st'.backends[c].pc.scan, x) {
      StepContents(st, c, a, x);
      StepCovers(st, st', c, x);
    }
    if deleting {
      forall x | x in st'.backends[c].pc.scan.returned ensures !InTable(st'.t, x) || HoldsItem(st', c, x) {
        StepDeletes(st, st', c, x);
      }
    }
  }

  lemma ScanToEnd(st: State, c: nat, deleting: bool) returns (actions: seq<Action>, st': State)
    requires OnCourse(st, c, deleting)
    ensures Performs(st, c, actions, st') && OnCourse(st', c, deleting) && st'.backends[c].pc.scan.phase.Done?
    ensures st'.backends == st.backends[c := st'.backends[c]] && (!deleting ==> st'.t == st.t)
    ensures TakesFromTable(st, st', c)
    decreases StagesLeft(st.backends[c].pc.scan), BucketsLeft(st.backends[c].pc.scan),
              PhasesLeft(st.backends[c].pc.scan), ItemsLeft(st.t, st.backends[c].pc.scan)
  {
    if st.backends[c].pc.scan.phase.Done? {
      return [], st;
    }
    ScanStepNearer(st, c, deleting);
    ScanStepOnCourse(st, c, deleting);
    var a, rest := ScanAction(st.backends[c].pc.scan, deleting), [];
    rest, st' := ScanToEnd(Next(st, c, a), c, deleting);
    actions := [a] + rest;
    assert actions[1..] == rest;
  }

  lemma {:induction false} PerformsBoth(st: State, b: nat, first: seq<Action>, mid: State, second: seq<Action>, st': State)
    requires Performs(st, b, first, mid) && Performs(mid, b, second, st')
    ensures Performs(st, b, first + second, st')
    decreases |first|
  {
    if first == [] {
      assert first + second == second;
    } else {
      PerformsBoth(Next(st, b, first[0]), b, first[1..], mid, second, st');
      assert (first + second)[1..] == first[1..] + second;
    }
  }

  lemma PerformsOne(st: State, b: nat, a: Action)
    requires b < |st.backends| && Enabled(st, b, a)
    ensures Performs(st, b, [a], Next(st, b, a))
  {
    assert Performs(Next(st, b, a), b, [a][1..], Next(st, b, a));
  }

  /** A whole scan by a backend that nobody is in the way of: it comes to an end, has
      then returned each item of the table once and nothing else, and ends at rest. When
      it deletes what it returns it leaves the table empty, else as it was. */
  lemma ScanOperation(st: State, b: nat, mode: Mode, deleting: bool) returns (actions: seq<Action>, end: State)
    requires Inv(st) && b < |st.backends| && st.backends[b].pc.Idle? && Alone(st, b) && (deleting ==> mode.Exclusive?)
    ensures Performs(st, b, [SeqInit(mode), SeqFirstLock] + actions, end)
    ensures InScan(end, b) && end.backends[b].pc.scan.phase.Done? && AtRest(st, Next(end, b, SeqTerm), b)
    ensures var returned := end.backends[b].pc.scan.returned;
            Distinct(returned) && forall x :: x in returned <==> InTable(st.t, x)
    ensures if deleting then forall x :: !InTable(end.t, x) else end.t == st.t
  {
    var s2 := ScanBegins(st, b, mode, deleting);
    actions, end := ScanToEnd(s2, b, deleting);
    PerformsBoth(st, b, [SeqInit(mode), SeqFirstLock], s2, actions, end);
    assert GoodBackend(end.t, end.backends[b]);
  }

  lemma ScanBegins(st: State, b: nat, mode: Mode, deleting: bool) returns (st': State)
    requires Inv(st) && b < |st.backends| && st.backends[b].pc.Idle? && Alone(st, b) && (deleting ==> mode.Exclusive?)
    ensures Performs(st, b, [SeqInit(mode), SeqFirstLock], st') && OnCourse(st', b, deleting)
    ensures st'.t == st.t && st'.backends == st.backends[b := st'.backends[b]] && st'.backends[b].pc.scan.returned == []
  {
    assert GoodBackend(st.t, st.backends[b]);
    var s1 := Next(st, b, SeqInit(mode));
    st' := Next(s1, b, SeqFirstLock);
    StepKeeps(st, b, SeqInit(mode));
    StepKeeps(s1, b, SeqFirstLock);
    PerformsOne(st, b, SeqInit(mode));
    PerformsOne(s1, b, SeqFirstLock);
    PerformsBoth(st, b, [SeqInit(mode)], s1, [SeqFirstLock], st');
    assert [SeqInit(mode)] + [SeqFirstLock] == [SeqInit(mode), SeqFirstLock];
  }

  // ---- growing ----

  lemma LocksAll(st: State, b: nat) returns (actions: seq<Action>, st': State)
    requires Inv(st) && b < |st.backends| && Alone(st, b) && st.backends[b].pc.Resizing?
    requires st.backends[b].localSize == st.t.size
    ensures Performs(st, b, actions, st') && Inv(st') && st'.t == st.t
    ensures |st'.backends| == |st.backends| && st'.backends == st.backends[b := st'.backends[b]]
    ensures st'.backends[b].pc == Resizing(NUM_PARTITIONS, st.backends[b].pc.target)
    decreases NUM_PARTITIONS - st.backends[b].pc.next
  {
    assert GoodBackend(st.t, st.backends[b]);
    if st.backends[b].pc.next == NUM_PARTITIONS {
      return [], st;
    }
    StepKeeps(st, b, ResizeLock);
    actions, st' := LocksAll(Next(st, b, ResizeLock), b);
    PerformsOne(st, b, ResizeLock);
    PerformsBoth(st, b, [ResizeLock], Next(st, b, ResizeLock), actions, st');
    actions := [ResizeLock] + actions;
  }

  lemma UnlocksAll(st: State, b: nat) returns (actions: seq<Action>, st': State)
    requires Inv(st) && b < |st.backends| && st.backends[b].pc.Releasing?
    ensures Performs(st, b, actions, st') && AtRest(st, st', b) && st'.t == st.t
    decreases NUM_PARTITIONS - st.backends[b].pc.next
  {
    assert GoodBackend(st.t, st.backends[b]);
    var mid := Next(st, b, ResizeUnlock);
    StepKeeps(st, b, ResizeUnlock);
    PerformsOne(st, b, ResizeUnlock);
    if mid.backends[b].pc.Idle? {
      assert GoodBackend(mid.t, mid.backends[b]);
      return [ResizeUnlock], mid;
    }
    actions, st' := UnlocksAll(mid, b);
    PerformsBoth(st, b, [ResizeUnlock], mid, actions, st');
    actions := [ResizeUnlock] + actions;
  }

  /** A whole growth by a backend that nobody is in the way of: from a size it knows to
      be current, the table becomes the rehashed one of the next size, and the backend
      ends at rest. */
  lemma ResizeOperation(st: State, b: nat, t': Table) returns (actions: seq<Action>, st': State)
    requires Inv(st) && b < |st.backends| && st.backends[b].pc.Idle? && Alone(st, b)
    requires st.backends[b].localSize == st.t.size < HASH_BITS
    requires t'.size == st.t.size + 1 && Rehashed(st.t, t')
    ensures Performs(st, b, [ResizeBegin] + actions, st') && AtRest(st, st', b) && st'.t == t'
  {
    var s1 := Next(st, b, ResizeBegin);
    StepKeeps(st, b, ResizeBegin);
    PerformsOne(st, b, ResizeBegin);
    var locks, s2 := LocksAll(s1, b);
    StepContents(s2, b, ResizeSwap(t'), Id(0, 0));
    var s3 := Next(s2, b, ResizeSwap(t'));
    StepKeeps(s2, b, ResizeSwap(t'));
    PerformsOne(s2, b, ResizeSwap(t'));
    var unlocks;
    unlocks, st' := UnlocksAll(s3, b);
    PerformsBoth(s2, b, [ResizeSwap(t')], s3, unlocks, st');
    PerformsBoth(s1, b, locks, s2, [ResizeSwap(t')] + unlocks, st');
    actions := locks + ([ResizeSwap(t')] + unlocks);
    PerformsBoth(st, b, [ResizeBegin], s1, actions, st');
  }

  /** A backend that finds the table grown already lets go of its first lock and leaves
      the table alone. */
  lemma LateResizeOperation(st: State, b: nat)
    requires Inv(st) && b < |st.backends| && st.backends[b].pc.Idle? && Free(st, b, 0, Exclusive)
    requires st.backends[b].localSize < st.t.size
    ensures exists st' :: Performs(st, b, [ResizeBegin, ResizeLock], st') && AtRest(st, st', b) && st'.t == st.t
  {
    assert GoodBackend(st.t, st.backends[b]);
    var s1 := Next(st, b, ResizeBegin);
    PerformsOne(st, b, ResizeBegin);
    PerformsOne(s1, b, ResizeLock);
    PerformsBoth(st, b, [ResizeBegin], s1, [ResizeLock], Next(s1, b, ResizeLock));
    assert [ResizeBegin] + [ResizeLock] == [ResizeBegin, ResizeLock];
  }
}
