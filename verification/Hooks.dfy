/** The hook array of one hook type. A "wrap" hook occupies two entries, one at
    each end of the array at the time it was registered; the later call of the
    pair finds the context left by the earlier one through `stateIndex`. */
module Hooks {
  import opened Basics

  type ModuleId = nat

  /** handle is None for the built-in default hooks, which are never unloaded. */
  datatype Entry = Entry(handle: Option<ModuleId>, fn: nat, name: string, stateIndex: int)

  // ---- registration ----

  function Bumped(s: seq<Entry>): seq<Entry> {
    seq(|s|, i requires 0 <= i < |s| => s[i].(stateIndex := s[i].stateIndex + 1))
  }

  /** A plain hook goes last and refers to itself; a wrap hook also goes first,
      referring to its other half, and everything in between moves up by one. */
  function Registered(s: seq<Entry>, hook: Entry, wrap: bool): seq<Entry> {
    if wrap
    then [hook.(stateIndex := |s| + 1)] + Bumped(s) + [hook.(stateIndex := |s| + 1)]
    else s + [hook.(stateIndex := |s|)]
  }

  /** The two entries are the same hook, whatever their state indices. */
  predicate SameHook(a: Entry, b: Entry) {
    a.handle == b.handle && a.fn == b.fn && a.name == b.name
  }

  /** Entry by entry: the last entry, and for a wrap the first as well, is the hook, and
      each entry there was is still there, at its place or one later. */
  ghost predicate AddedTo(s: seq<Entry>, hook: Entry, wrap: bool, s': seq<Entry>) {
    var lift := if wrap then 1 else 0;
    && |s'| == |s| + 1 + lift
    && SameHook(s'[|s'| - 1], hook) && s'[|s'| - 1].stateIndex == |s'| - 1
    && (wrap ==> SameHook(s'[0], hook) && s'[0].stateIndex == |s'| - 1)
    && forall i | 0 <= i < |s| :: SameHook(s'[i + lift], s[i]) && s'[i + lift].stateIndex == s[i].stateIndex + lift
  }

  lemma RegisteredAdds(s: seq<Entry>, hook: Entry, wrap: bool)
    ensures AddedTo(s, hook, wrap, Registered(s, hook, wrap))
  {
  }

  function RegisteredOwners(owners: seq<nat>, owner: nat, wrap: bool): seq<nat> {
    if wrap then [owner] + owners + [owner] else owners + [owner]
  }

  ghost predicate EntryPaired(s: seq<Entry>, owners: seq<nat>, i: nat)
    requires i < |s| == |owners|
  {
    && i <= s[i].stateIndex < |s|
    && owners[s[i].stateIndex] == owners[i]
  }

  ghost predicate SamePair(s: seq<Entry>, owners: seq<nat>, i: nat, k: nat)
    requires i < |s| == |owners| && k < |s|
  {
    i < k && owners[i] == owners[k] ==>
      s[i].stateIndex == k && s[k].stateIndex == k && s[i].handle == s[k].handle && s[i].fn == s[k].fn
  }

  /** owners[i] is the registration entry i came from. Every state index is in
      range, at or after its own entry and inside the same registration, and the
      two entries of a wrap registration both refer to the second. */
  ghost predicate Paired(s: seq<Entry>, owners: seq<nat>) {
    && |s| == |owners|
    && (forall i {:trigger EntryPaired(s, owners, i)} | 0 <= i < |s| :: EntryPaired(s, owners, i))
    && (forall i, k {:trigger SamePair(s, owners, i, k)} | 0 <= i < |s| && 0 <= k < |s| :: SamePair(s, owners, i, k))
  }

  /** Registration, plain or wrap, keeps every earlier pair and adds the new one. */
  lemma RegisteredKeepsPairing(s: seq<Entry>, owners: seq<nat>, hook: Entry, owner: nat, wrap: bool)
    requires Paired(s, owners) && owner !in owners
    ensures Paired(Registered(s, hook, wrap), RegisteredOwners(owners, owner, wrap))
  {
    var s', owners' := Registered(s, hook, wrap), RegisteredOwners(owners, owner, wrap);
    var lift := if wrap then 1 else 0;
    forall i | 0 <= i < |s'| ensures EntryPaired(s', owners', i) {
      if lift <= i < |s| + lift {
        assert EntryPaired(s, owners, i - lift);
      }
    }
    forall i, k | 0 <= i < |s'| && 0 <= k < |s'| ensures SamePair(s', owners', i, k) {
      if lift <= i < |s| + lift && lift <= k < |s| + lift {
        assert SamePair(s, owners, i - lift, k - lift);
      }
    }
  }

  // ---- unloading ----

  predicate Gone(e: Entry, loaded: set<ModuleId>) {
    e.handle.Some? && e.handle.value !in loaded
  }

  /** One removal: later entries move down, lowering the state indices that are
      at or after their own position; earlier entries are not touched. */
  ghost predicate RemovedAt(s: seq<Entry>, i: nat, r: seq<Entry>)
    requires i < |s|
  {
    |r| == |s| - 1 && forall k {:trigger ShiftedTo(s, i, r, k)} | 0 <= k < |r| :: ShiftedTo(s, i, r, k)
  }

  ghost predicate ShiftedTo(s: seq<Entry>, i: nat, r: seq<Entry>, k: int) {
    0 <= k < |r| && k + 1 < |s| && r[k] == if k < i then s[k] else Lowered(s[k + 1], k + 1)
  }

  function Lowered(e: Entry, position: int): Entry {
    if e.stateIndex >= position then e.(stateIndex := e.stateIndex - 1) else e
  }

  /** The positions of the entries that stay. */
  function Kept(s: seq<Entry>, loaded: set<ModuleId>): (kept: seq<nat>)
    ensures forall p | 0 <= p < |kept| :: kept[p] < |s|
  {
    if s == [] then []
    else
      var front := s[..|s| - 1];
      if Gone(s[|s| - 1], loaded) then Kept(front, loaded) else Kept(front, loaded) + [|s| - 1]
  }

  /** What unloading leaves: the kept entries in order, each with its state index
      at the same distance from its own position as before. */
  function Reorganized(s: seq<Entry>, loaded: set<ModuleId>): seq<Entry> {
    var kept := Kept(s, loaded);
    seq(|kept|, p requires 0 <= p < |kept| => s[kept[p]].(stateIndex := p + (s[kept[p]].stateIndex - kept[p])))
  }

  /** Entry by entry: what is left are the hooks of the kept positions, in their order. */
  ghost predicate HoldsKept(s: seq<Entry>, loaded: set<ModuleId>, s': seq<Entry>) {
    |s'| == |Kept(s, loaded)| && forall p | 0 <= p < |s'| :: SameHook(s'[p], s[Kept(s, loaded)[p]])
  }

  lemma ReorganizedHoldsKept(s: seq<Entry>, loaded: set<ModuleId>)
    ensures HoldsKept(s, loaded, Reorganized(s, loaded))
  {
  }

  function OwnersOf(owners: seq<nat>, kept: seq<nat>): seq<nat>
    requires forall p | 0 <= p < |kept| :: kept[p] < |owners|
  {
    seq(|kept|, p requires 0 <= p < |kept| => owners[kept[p]])
  }

  ghost predicate Increasing(k: seq<nat>) {
    forall p, q :: 0 <= p < q < |k| ==> k[p] < k[q]
  }

  lemma {:induction false} KeptIsFilter(s: seq<Entry>, loaded: set<ModuleId>)
    ensures Increasing(Kept(s, loaded))
    ensures forall i :: i in Kept(s, loaded) <==> 0 <= i < |s| && !Gone(s[i], loaded)
    ensures forall i :: i in Kept(s, loaded) <==> 0 <= i < |s| && (s[i].handle.Some? ==> s[i].handle.value in loaded)
  {
    if s != [] {
      var front := s[..|s| - 1];
      KeptIsFilter(front, loaded);
      var kept0, kept := Kept(front, loaded), Kept(s, loaded);
      forall i ensures i in kept <==> 0 <= i < |s| && !Gone(s[i], loaded) {
        assert i in kept0 <==> 0 <= i < |front| && !Gone(front[i], loaded);
      }
    }
  }

  /** Kept positions p and q are as far apart as the originals exactly when
      nothing between the originals was dropped. */
  lemma DistanceKept(s: seq<Entry>, loaded: set<ModuleId>, p: nat, q: nat)
    requires p <= q < |Kept(s, loaded)|
    ensures var kept := Kept(s, loaded);
            && kept[p] + (q - p) <= kept[q]
            && (kept[p] + (q - p) == kept[q] <==> forall m | kept[p] <= m <= kept[q] :: !Gone(s[m], loaded))
    decreases q - p
  {
    var kept := Kept(s, loaded);
    KeptIsFilter(s, loaded);
    assert kept[p] in kept && kept[q] in kept;
    if p < q {
      DistanceKept(s, loaded, p, q - 1);
      assert kept[q - 1] in kept && kept[q - 1] < kept[q];
      forall m | kept[q - 1] < m < kept[q] ensures Gone(s[m], loaded) {
        NotBetween(kept, q, m);
      }
      if kept[q] > kept[q - 1] + 1 {
        assert Gone(s[kept[q - 1] + 1], loaded);
      }
    }
  }

  lemma NotBetween(kept: seq<nat>, q: nat, m: nat)
    requires Increasing(kept) && 0 < q < |kept| && kept[q - 1] < m < kept[q]
    ensures m !in kept
  {
  }

  /** No wrap hook that stays encloses an entry that goes. */
  ghost predicate NoSurvivorEncloses(s: seq<Entry>, loaded: set<ModuleId>) {
    forall i, m | 0 <= i < m < |s| && m < s[i].stateIndex :: Gone(s[m], loaded) ==> Gone(s[i], loaded)
  }

  lemma PartnerIsKept(s: seq<Entry>, owners: seq<nat>, loaded: set<ModuleId>, p: nat) returns (q: nat)
    requires Paired(s, owners) && p < |Kept(s, loaded)|
    ensures p <= q < |Kept(s, loaded)| && Kept(s, loaded)[p] < |s|
    ensures Kept(s, loaded)[q] == s[Kept(s, loaded)[p]].stateIndex
  {
    var kept := Kept(s, loaded);
    KeptIsFilter(s, loaded);
    assert kept[p] in kept;
    var i := kept[p];
    var k := s[i].stateIndex;
    assert EntryPaired(s, owners, i) && SamePair(s, owners, i, k);
    assert k in kept;
    q :| 0 <= q < |kept| && kept[q] == k;
  }

  lemma EntryStaysPaired(s: seq<Entry>, owners: seq<nat>, loaded: set<ModuleId>, p: nat)
    requires Paired(s, owners) && NoSurvivorEncloses(s, loaded) && p < |Kept(s, loaded)|
    ensures EntryPaired(Reorganized(s, loaded), OwnersOf(owners, Kept(s, loaded)), p)
  {
    var kept := Kept(s, loaded);
    var q := PartnerIsKept(s, owners, loaded, p);
    DistanceKept(s, loaded, p, q);
    KeptIsFilter(s, loaded);
    assert kept[p] in kept && kept[q] in kept && EntryPaired(s, owners, kept[p]);
  }

  lemma PairStaysTogether(s: seq<Entry>, owners: seq<nat>, loaded: set<ModuleId>, p: nat, r: nat)
    requires Paired(s, owners) && NoSurvivorEncloses(s, loaded) && p < |Kept(s, loaded)| && r < |Kept(s, loaded)|
    ensures SamePair(Reorganized(s, loaded), OwnersOf(owners, Kept(s, loaded)), p, r)
  {
    var kept := Kept(s, loaded);
    if p < r && owners[kept[p]] == owners[kept[r]] {
      KeptIsFilter(s, loaded);
      assert SamePair(s, owners, kept[p], kept[r]);
      DistanceKept(s, loaded, p, r);
      assert kept[p] in kept && kept[r] in kept;
    }
  }

  lemma EnclosureKeepsPairing(s: seq<Entry>, owners: seq<nat>, loaded: set<ModuleId>)
    requires Paired(s, owners) && NoSurvivorEncloses(s, loaded)
    ensures Paired(Reorganized(s, loaded), OwnersOf(owners, Kept(s, loaded)))
  {
    var s', owners' := Reorganized(s, loaded), OwnersOf(owners, Kept(s, loaded));
    forall p | 0 <= p < |s'| ensures EntryPaired(s', owners', p) {
      EntryStaysPaired(s, owners, loaded, p);
    }
    forall p, r | 0 <= p < |s'| && 0 <= r < |s'| ensures SamePair(s', owners', p, r) {
      PairStaysTogether(s, owners, loaded, p, r);
    }
  }

  lemma PairingNeedsEnclosure(s: seq<Entry>, owners: seq<nat>, loaded: set<ModuleId>)
    requires Paired(s, owners)
    requires Paired(Reorganized(s, loaded), OwnersOf(owners, Kept(s, loaded)))
    ensures NoSurvivorEncloses(s, loaded)
  {
    var kept := Kept(s, loaded);
    var s', owners' := Reorganized(s, loaded), OwnersOf(owners, kept);
    KeptIsFilter(s, loaded);
    forall i, m | 0 <= i < m < |s| && m < s[i].stateIndex && Gone(s[m], loaded) ensures Gone(s[i], loaded) {
      if !Gone(s[i], loaded) {
        assert i in kept;
        var p :| 0 <= p < |kept| && kept[p] == i;
        var q := PartnerIsKept(s, owners, loaded, p);
        assert EntryPaired(s, owners, i) && SamePair(s', owners', p, q);
        DistanceKept(s, loaded, p, q);
        assert false;
      }
    }
  }

  /** Unloading keeps the pairing exactly when no surviving wrap hook encloses a
      removed entry. */
  lemma ReorganizeKeepsPairingIff(s: seq<Entry>, owners: seq<nat>, loaded: set<ModuleId>)
    requires Paired(s, owners)
    ensures Paired(Reorganized(s, loaded), OwnersOf(owners, Kept(s, loaded))) <==> NoSurvivorEncloses(s, loaded)
  {
    KeptIsFilter(s, loaded);
    if NoSurvivorEncloses(s, loaded) {
      EnclosureKeepsPairing(s, owners, loaded);
    } else if Paired(Reorganized(s, loaded), OwnersOf(owners, Kept(s, loaded))) {
      PairingNeedsEnclosure(s, owners, loaded);
    }
  }

  /** A module wraps a hook another module registered first; unloading the inner
      module leaves the wrap's state index past the end of the array. */
  lemma UnloadingAnInnerHookBreaksTheWrap(inner: Entry, outer: Entry)
    requires inner.handle == Some(2) && outer.handle == Some(1)
    ensures var r := Reorganized(Registered(Registered([], inner, false), outer, true), {1});
            |r| == 2 && r[0].stateIndex == 2
  {
    var s := Registered(Registered([], inner, false), outer, true);
    assert s == [outer.(stateIndex := 2), inner.(stateIndex := 1), outer.(stateIndex := 2)];
    assert s[..2][..1] == [s[0]] && s[..2][..1][..0] == [];
    assert Kept(s[..2][..1], {1}) == [0];
    assert Kept(s[..2], {1}) == [0];
  }

  // ---- the array ----

  /** What a hook function leaves in its handle: a context for its partner, the
      value returned so far, and whether the iteration should go on. */
  datatype Outcome = Outcome(ctx: nat, ret: nat, finish: bool)

  /** One call: the entry, its module and function, and the context and value it is given. */
  datatype Call = Call(index: nat, handle: Option<ModuleId>, fn: nat, ctx: nat, ret: nat)

  const NULL: nat := 0

  datatype Slot = Unset | Written(ctx: nat)

  ghost predicate AtOrAfter(s: seq<Entry>) {
    forall i | 0 <= i < |s| :: s[i].stateIndex >= i
  }

  function Moved(e: Entry, from: nat, to: nat): Entry {
    e.(stateIndex := to + (e.stateIndex - from))
  }

  /** Where the entry at p was: a kept one, or one not yet examined. */
  function Origin(kept: seq<nat>, m: nat, p: nat): int {
    if p < |kept| then kept[p] else p - |kept| + m
  }

  ghost predicate PlacedAt(s: seq<Entry>, kept: seq<nat>, m: nat, now: seq<Entry>, p: nat) {
    var from := Origin(kept, m, p);
    0 <= from < |s| && p < |now| && now[p] == Moved(s[from], from, p)
  }

  /** The array when the removal loop has examined the first m entries: those
      kept so far, then the unexamined ones, all moved down to close the gaps. */
  ghost predicate Progress(s: seq<Entry>, kept: seq<nat>, m: nat, now: seq<Entry>) {
    && |kept| <= m <= |s|
    && |now| == |kept| + (|s| - m)
    && forall p: nat {:trigger PlacedAt(s, kept, m, now, p)} | p < |now| :: PlacedAt(s, kept, m, now, p)
  }

  lemma ProgressStart(s: seq<Entry>)
    ensures Progress(s, [], 0, s)
  {
  }

  lemma ProgressAt(s: seq<Entry>, kept: seq<nat>, m: nat, now: seq<Entry>)
    requires Progress(s, kept, m, now) && |kept| < |now|
    ensures m < |s| && now[|kept|] == Moved(s[m], m, |kept|)
  {
    assert PlacedAt(s, kept, m, now, |kept|);
  }

  lemma ProgressKeep(s: seq<Entry>, kept: seq<nat>, m: nat, now: seq<Entry>)
    requires Progress(s, kept, m, now) && m < |s|
    ensures Progress(s, kept + [m], m + 1, now)
  {
    var kept', m' := kept + [m], m + 1;
    forall p: nat | p < |now| ensures PlacedAt(s, kept', m', now, p) {
      assert PlacedAt(s, kept, m, now, p) && Origin(kept', m', p) == Origin(kept, m, p);
    }
  }

  lemma ProgressDrop(s: seq<Entry>, kept: seq<nat>, m: nat, now: seq<Entry>, now': seq<Entry>)
    requires Progress(s, kept, m, now) && m < |s| && AtOrAfter(s)
    requires |kept| < |now| && RemovedAt(now, |kept|, now')
    ensures Progress(s, kept, m + 1, now')
  {
    var m' := m + 1;
    forall p: nat | p < |now'| ensures PlacedAt(s, kept, m', now', p) {
      assert ShiftedTo(now, |kept|, now', p);
      if p < |kept| {
        assert PlacedAt(s, kept, m, now, p);
      } else {
        assert PlacedAt(s, kept, m, now, p + 1);
      }
    }
  }

  lemma KeptNext(s: seq<Entry>, loaded: set<ModuleId>, m: nat)
    requires m < |s|
    ensures Kept(s[..m + 1], loaded) == if Gone(s[m], loaded) then Kept(s[..m], loaded) else Kept(s[..m], loaded) + [m]
  {
    assert s[..m + 1][..m] == s[..m];
  }

  /** One turn of the removal loop. */
  lemma ProgressNext(s: seq<Entry>, loaded: set<ModuleId>, kept: seq<nat>, m: nat, now: seq<Entry>, now': seq<Entry>)
    requires Progress(s, kept, m, now) && |kept| < |now| && AtOrAfter(s) && kept == Kept(s[..m], loaded)
    requires if Gone(now[|kept|], loaded) then RemovedAt(now, |kept|, now') else now' == now
    ensures m < |s| && Progress(s, Kept(s[..m + 1], loaded), m + 1, now')
    ensures |Kept(s[..m + 1], loaded)| == |kept| + if Gone(now[|kept|], loaded) then 0 else 1
  {
    ProgressAt(s, kept, m, now);
    KeptNext(s, loaded, m);
    if Gone(now[|kept|], loaded) {
      ProgressDrop(s, kept, m, now, now');
    } else {
      ProgressKeep(s, kept, m, now);
    }
  }

  lemma ProgressEnd(s: seq<Entry>, loaded: set<ModuleId>, kept: seq<nat>, now: seq<Entry>)
    requires Progress(s, kept, |s|, now) && AtOrAfter(s) && kept == Kept(s, loaded)
    ensures now == Reorganized(s, loaded) && AtOrAfter(now)
  {
    forall p: nat | p < |now| ensures now[p] == Reorganized(s, loaded)[p] && now[p].stateIndex >= p {
      assert PlacedAt(s, kept, |s|, now, p);
    }
  }

  /** What the call of entry i must be given: the context its wrap partner left,
      or none, and the value the previous call returned. */
  function ExpectedCall(s: seq<Entry>, outcomes: nat -> Outcome, i: nat): Call
    requires i < |s|
  {
    Call(i, s[i].handle, s[i].fn,
         if s[i].stateIndex > i then outcomes(s[i].stateIndex).ctx else NULL,
         if i == |s| - 1 then NULL else outcomes(i + 1).ret)
  }

  /** The call of entry i, the calls being made from the last entry to the first. */
  ghost predicate CalledRightly(s: seq<Entry>, outcomes: nat -> Outcome, trace: seq<Call>, i: nat) {
    && i < |s| && i <= s[i].stateIndex < |s| && |s| - 1 - i < |trace|
    && trace[|s| - 1 - i] == ExpectedCall(s, outcomes, i)
  }

  /** The calls of the entries after i are made, as they should be. */
  ghost predicate CalledAfter(s: seq<Entry>, outcomes: nat -> Outcome, trace: seq<Call>, i: int) {
    && -1 <= i < |s| && |trace| == |s| - 1 - i
    && forall j: nat | i < j < |s| :: CalledRightly(s, outcomes, trace, j)
  }

  lemma OneMoreCall(s: seq<Entry>, outcomes: nat -> Outcome, trace: seq<Call>, i: nat)
    requires CalledAfter(s, outcomes, trace, i) && i < |s| && i <= s[i].stateIndex < |s|
    ensures CalledAfter(s, outcomes, trace + [ExpectedCall(s, outcomes, i)], i - 1)
  {
    var trace' := trace + [ExpectedCall(s, outcomes, i)];
    forall j: nat | i - 1 < j < |s| ensures CalledRightly(s, outcomes, trace', j) {
      if j > i {
        assert CalledRightly(s, outcomes, trace, j);
      }
    }
  }

  /** What calling the hooks of an array amounts to. */
  ghost predicate Iterated(s: seq<Entry>, outcomes: nat -> Outcome, retval: nat, trace: seq<Call>) {
    var first := |s| - |trace|;
    && first >= 0
    // a wrap's second call gets exactly the context its first call, already made, left
    && CalledAfter(s, outcomes, trace, first - 1)
    && (retval == if trace == [] then NULL else outcomes(first).ret)
    // the calls stop at the first hook that asks to finish
    && (forall i | first < i < |s| :: !outcomes(i).finish)
    && (first > 0 ==> trace != [] && outcomes(first).finish)
  }

  /** After a registration the new hook's function is called first, without a context and
      with no value yet. For a wrap it is also called last, with the context its first call
      left and the value of the call before, unless an earlier call asked to finish. */
  lemma NewestIsCalledFirst(s: seq<Entry>, hook: Entry, wrap: bool, s': seq<Entry>, outcomes: nat -> Outcome, retval: nat,
                            trace: seq<Call>)
    requires AddedTo(s, hook, wrap, s') && Iterated(s', outcomes, retval, trace)
    ensures trace != [] && trace[0] == Call(|s'| - 1, hook.handle, hook.fn, NULL, NULL)
    ensures wrap && |trace| == |s'| ==>
              trace[|s'| - 1] == Call(0, hook.handle, hook.fn, outcomes(|s'| - 1).ctx, outcomes(1).ret)
    ensures |trace| < |s'| <==> exists i :: 0 < i < |s'| && outcomes(i).finish
  {
    assert CalledRightly(s', outcomes, trace, |s'| - 1);
    if wrap && |trace| == |s'| {
      assert CalledRightly(s', outcomes, trace, 0);
    }
  }

  /** Every call of an iteration is of the function of its entry, from the last entry
      down, each once, with its partner's context and the value of the call before. */
  lemma CallsAreOfTheEntries(s: seq<Entry>, outcomes: nat -> Outcome, retval: nat, trace: seq<Call>, n: nat)
    requires Iterated(s, outcomes, retval, trace) && n < |trace|
    ensures var i := |s| - 1 - n;
            && trace[n].index == i && trace[n].handle == s[i].handle && trace[n].fn == s[i].fn
            && i <= s[i].stateIndex && (trace[n].ctx == if s[i].stateIndex == i then NULL else outcomes(s[i].stateIndex).ctx)
            && (trace[n].ret == if n == 0 then NULL else outcomes(i + 1).ret)
  {
    assert CalledRightly(s, outcomes, trace, |s| - 1 - n);
  }

  ghost predicate StatesInside(s: seq<Entry>) {
    forall i | 0 <= i < |s| :: i <= s[i].stateIndex < |s|
  }

  /** In a paired array every state index is that of the entry or of a later one. */
  lemma PairedStatesInside(s: seq<Entry>, owners: seq<nat>)
    requires Paired(s, owners)
    ensures StatesInside(s)
  {
    forall i | 0 <= i < |s| ensures i <= s[i].stateIndex < |s| {
      assert EntryPaired(s, owners, i);
    }
  }

  lemma PairedAtOrAfter(s: seq<Entry>, owners: seq<nat>)
    requires Paired(s, owners)
    ensures AtOrAfter(s)
  {
    forall i | 0 <= i < |s| ensures s[i].stateIndex >= i {
      assert EntryPaired(s, owners, i);
    }
  }

  lemma RegisteredFacts(s: seq<Entry>, owners: seq<nat>, hook: Entry, n: nat, wrap: bool)
    requires Paired(s, owners) && forall o | o in owners :: o < n
    ensures AddedTo(s, hook, wrap, Registered(s, hook, wrap))
    ensures Paired(Registered(s, hook, wrap), RegisteredOwners(owners, n, wrap)) && AtOrAfter(Registered(s, hook, wrap))
    ensures forall o | o in RegisteredOwners(owners, n, wrap) :: o < n + 1
  {
    RegisteredAdds(s, hook, wrap);
    RegisteredKeepsPairing(s, owners, hook, n, wrap);
    PairedAtOrAfter(Registered(s, hook, wrap), RegisteredOwners(owners, n, wrap));
  }

  class HookArray {
    var entryPoints: array<Entry>
    var count: nat
    ghost var owners: seq<nat>   // which registration each entry came from
    ghost var registrations: nat

    ghost predicate Valid()
      reads this, entryPoints
    {
      count <= entryPoints.Length && AtOrAfter(Contents())
    }

    ghost function Contents(): seq<Entry>
      reads this, entryPoints
    {
      if count <= entryPoints.Length then entryPoints[..count] else []
    }

    ghost predicate ValidPairs()
      reads this, entryPoints
    {
      Valid() && Paired(Contents(), owners) && forall o | o in owners :: o < registrations
    }

    constructor ()
      ensures ValidPairs() && Contents() == [] && fresh(entryPoints)
    {
      entryPoints := new Entry[0];
      count := 0;
      owners := [];
      registrations := 0;
    }

    method Register(hook: Entry, wrap: bool)
      requires ValidPairs()
      modifies this, entryPoints
      ensures ValidPairs() && fresh(entryPoints)
      ensures AddedTo(old(Contents()), hook, wrap, Contents())
      ensures Contents() == Registered(old(Contents()), hook, wrap)
      ensures owners == RegisteredOwners(old(owners), old(registrations), wrap)
    {
      ghost var s, o, n := Contents(), owners, registrations;
      RegisteredFacts(s, o, hook, n, wrap);
      var grown := GrownArray(hook, wrap);
      entryPoints, count := grown, grown.Length;
      owners, registrations := RegisteredOwners(o, n, wrap), n + 1;
      assert entryPoints[..count] == grown[..];
    }

    /** The array with the hook put in, for a wrap at both ends. */
    method GrownArray(hook: Entry, wrap: bool) returns (grown: array<Entry>)
      requires count <= entryPoints.Length
      modifies entryPoints
      ensures fresh(grown) && grown[..] == Registered(old(entryPoints[..count]), hook, wrap)
    {
      var n := count;
      ghost var s := entryPoints[..n];
      if wrap {
        BumpStateIndices();
        grown := new Entry[n + 2];
        forall i | 0 <= i < n {
          grown[i + 1] := entryPoints[i];
        }
        grown[0] := hook.(stateIndex := n + 1);
        grown[n + 1] := hook.(stateIndex := n + 1);
      } else {
        grown := new Entry[n + 1];
        forall i | 0 <= i < n {
          grown[i] := entryPoints[i];
        }
        grown[n] := hook.(stateIndex := n);
      }
      assert |Registered(s, hook, wrap)| == grown.Length;
    }

    method BumpStateIndices()
      requires count <= entryPoints.Length
      modifies entryPoints
      ensures forall i | 0 <= i < count ::
                entryPoints[i] == old(entryPoints[i]).(stateIndex := old(entryPoints[i]).stateIndex + 1)
    {
      for i := 0 to count
        invariant forall k | 0 <= k < i ::
                    entryPoints[k] == old(entryPoints[k]).(stateIndex := old(entryPoints[k]).stateIndex + 1)
        invariant forall k | i <= k < count :: entryPoints[k] == old(entryPoints[k])
      {
        entryPoints[i] := entryPoints[i].(stateIndex := entryPoints[i].stateIndex + 1);
      }
    }

    /** Copies every entry after i one place down. */
    method ShiftDown(i: nat)
      requires i < count <= entryPoints.Length
      modifies entryPoints, this`count
      ensures count == old(count) - 1
      ensures RemovedAt(old(entryPoints[..count]), i, entryPoints[..count])
    {
      ghost var s := entryPoints[..count];
      for j := i + 1 to count
        invariant count == old(count)
        invariant forall k | 0 <= k < i :: entryPoints[k] == s[k]
        invariant forall k {:trigger entryPoints[k]} | i <= k < j - 1 :: entryPoints[k] == Lowered(s[k + 1], k + 1)
        invariant forall k | j <= k < count :: entryPoints[k] == s[k]
      {
        if entryPoints[j].stateIndex >= j {
          entryPoints[j] := entryPoints[j].(stateIndex := entryPoints[j].stateIndex - 1);
        }
        entryPoints[j - 1] := entryPoints[j];
      }
      count := count - 1;
      ghost var r := entryPoints[..count];
      forall k | 0 <= k < count ensures ShiftedTo(s, i, r, k) {
        assert r[k] == entryPoints[k];
      }
    }

    /** Removes, in place, the entries of modules that are no longer loaded. */
    method Reorganize(loaded: set<ModuleId>)
      requires Valid()
      modifies this`count, entryPoints
      ensures Valid() && HoldsKept(old(Contents()), loaded, Contents())
      ensures Contents() == Reorganized(old(Contents()), loaded)
    {
      ghost var s := Contents();
      ProgressStart(s);
      ghost var m, kept: seq<nat> := 0, [];   // entries examined, and which of them stay
      var i: int := 0;
      while i < count
        invariant count <= entryPoints.Length && i == |kept|
        invariant Progress(s, kept, m, entryPoints[..count])
        invariant kept == Kept(s[..m], loaded)
        decreases |s| - m
      {
        ghost var now := entryPoints[..count];
        assert now[i] == entryPoints[i];
        if Gone(entryPoints[i], loaded) {
          ShiftDown(i);
          i := i - 1;
        }
        ProgressNext(s, loaded, kept, m, now, entryPoints[..count]);
        i, m := i + 1, m + 1;
        kept := Kept(s[..m], loaded);
      }
      assert s[..m] == s;
      ProgressEnd(s, loaded, kept, entryPoints[..count]);
      ReorganizedHoldsKept(s, loaded);
    }

    /** Unloading a module purges its hooks; the wrap pairs of the hooks that stay
        are intact exactly when none of them enclosed a purged entry. */
    method PurgeHooks(loaded: set<ModuleId>)
      requires ValidPairs()
      modifies this`count, this`owners, entryPoints
      ensures Valid() && HoldsKept(old(Contents()), loaded, Contents())
      ensures ValidPairs() <==> NoSurvivorEncloses(old(Contents()), loaded)
    {
      ReorganizeKeepsPairingIff(Contents(), owners, loaded);
      ghost var kept := Kept(Contents(), loaded);
      assert forall p | 0 <= p < |kept| :: owners[kept[p]] in owners;
      Reorganize(loaded);
      owners := OwnersOf(owners, kept);
    }

    /** Calls the hooks from the last entry to the first. `outcomes(i)` is what
        entry i's function does; the trace records what each call was given. */
    method Iterate(outcomes: nat -> Outcome) returns (retval: nat, trace: seq<Call>)
      requires Valid() && StatesInside(Contents())
      ensures Iterated(Contents(), outcomes, retval, trace)
    {
      ghost var s := Contents();
      var ctxs := new Slot[count](_ => Unset);
      retval := NULL;
      trace := [];
      var i := count - 1;
      while i >= 0
        invariant -1 <= i < count && CalledAfter(s, outcomes, trace, i)
        invariant forall j | i < j < count :: ctxs[j] == Written(outcomes(j).ctx) && !outcomes(j).finish
        invariant retval == if i == count - 1 then NULL else outcomes(i + 1).ret
      {
        var hook := entryPoints[i];
        ctxs[i] := Written(NULL);
        assert hook == s[i];
        OneMoreCall(s, outcomes, trace, i);
        trace := trace + [Call(i, hook.handle, hook.fn, ctxs[hook.stateIndex].ctx, retval)];
        var outcome := outcomes(i);
        retval := outcome.ret;
        ctxs[i] := Written(outcome.ctx);
        if outcome.finish {
          return;
        }
        i := i - 1;
      }
    }
  }
}
