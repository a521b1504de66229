/** The pointer table seen as the table of the locking protocol: inserting, deleting
    and growing in place are the protocol's steps. */
module DshashRefinement {
  import opened Basics
  import opened DshashIndex
  import S = DshashScan
  import T = DshashTable

  /** The occasion on which the item at an address was inserted. */
  type Labels = map<T.Ptr, nat>

  function IdOf<K>(entries: T.Entries<K>, labels: Labels, p: T.Ptr): S.Id {
    S.Id(if p in labels then labels[p] else 0, if p in entries then entries[p].hash else 0)
  }

  function IdsOf<K>(entries: T.Entries<K>, labels: Labels, chain: seq<T.Ptr>): seq<S.Id> {
    seq(|chain|, i requires 0 <= i < |chain| => IdOf(entries, labels, chain[i]))
  }

  function Abstract<K>(entries: T.Entries<K>, labels: Labels, chains: seq<seq<T.Ptr>>, s: SizeLog2,
                       born: set<S.Id>): S.Table {
    S.Table(s, seq(|chains|, b requires 0 <= b < |chains| => IdsOf(entries, labels, chains[b])), born)
  }

  /** Different items have different identities, all of them used up. */
  ghost predicate Labelled<K>(entries: T.Entries<K>, labels: Labels, born: set<S.Id>) {
    && labels.Keys == entries.Keys
    && (forall p | p in entries :: IdOf(entries, labels, p) in born)
    && forall p, q | p in entries && q in entries && IdOf(entries, labels, p) == IdOf(entries, labels, q) :: p == q
  }

  ghost predicate AllDistinct(chains: seq<seq<T.Ptr>>) {
    forall b | 0 <= b < |chains| :: Distinct(chains[b])
  }

  lemma BucketIsGood<K>(entries: T.Entries<K>, labels: Labels, chains: seq<seq<T.Ptr>>, s: SizeLog2, born: set<S.Id>, b: nat)
    requires T.Placed(entries, chains, s, entries.Keys) && Labelled(entries, labels, born) && AllDistinct(chains)
    requires b < |chains|
    ensures S.GoodBucket(IdsOf(entries, labels, chains[b]), b, s, born)
  {
    var chain, ids := chains[b], IdsOf(entries, labels, chains[b]);
    assert T.Fits(entries, chain, b, s, entries.Keys) && Distinct(chain);
    forall i | 0 <= i < |ids| ensures BucketForHash(ids[i].hash, s) == b && ids[i] in born {
      assert chain[i] in chain;
    }
    forall i, j | 0 <= i < j < |ids| ensures ids[i] != ids[j] {
      assert chain[i] in chain && chain[j] in chain && chain[i] != chain[j];
    }
  }

  lemma AbstractIsGood<K>(entries: T.Entries<K>, labels: Labels, chains: seq<seq<T.Ptr>>, s: SizeLog2, born: set<S.Id>)
    requires T.Placed(entries, chains, s, entries.Keys) && Labelled(entries, labels, born) && AllDistinct(chains)
    ensures S.GoodTable(Abstract(entries, labels, chains, s, born))
  {
    var t := Abstract(entries, labels, chains, s, born);
    forall b | 0 <= b < |t.chains| ensures S.GoodBucket(t.chains[b], b, t.size, t.born) {
      BucketIsGood(entries, labels, chains, s, born, b);
    }
  }

  // ---- growing ----

  ghost predicate Holds<K>(entries: T.Entries<K>, labels: Labels, x: S.Id) {
    exists p :: p in entries && IdOf(entries, labels, p) == x
  }

  /** What the abstract table holds is what the arena holds, at any size. */
  lemma HoldsTheArena<K>(entries: T.Entries<K>, labels: Labels, chains: seq<seq<T.Ptr>>, s: SizeLog2, born: set<S.Id>, x: S.Id)
    requires T.Placed(entries, chains, s, entries.Keys)
    ensures S.InTable(Abstract(entries, labels, chains, s, born), x) <==> Holds(entries, labels, x)
  {
    var b := BucketForHash(x.hash, s);
    BucketInRange(x.hash, s);
    var chain, ids := chains[b], IdsOf(entries, labels, chains[b]);
    assert T.Fits(entries, chain, b, s, entries.Keys);
    if x in ids {
      var i :| 0 <= i < |ids| && ids[i] == x;
      assert chain[i] in chain;
    }
    if p :| p in entries && IdOf(entries, labels, p) == x {
      assert T.InItsBucket(entries, chains, s, p);
      var i :| 0 <= i < |chain| && chain[i] == p;
      assert ids[i] == x;
    }
  }

  /** Two placements of the same items are rehashes of each other. */
  lemma PlacementsAreRehashes<K>(entries: T.Entries<K>, labels: Labels, born: set<S.Id>, chains: seq<seq<T.Ptr>>, s: SizeLog2,
                                 chains': seq<seq<T.Ptr>>, s': SizeLog2)
    requires T.Placed(entries, chains, s, entries.Keys) && Labelled(entries, labels, born)
    requires T.Placed(entries, chains', s', entries.Keys) && AllDistinct(chains')
    ensures S.Rehashed(Abstract(entries, labels, chains, s, born), Abstract(entries, labels, chains', s', born))
  {
    var t, t' := Abstract(entries, labels, chains, s, born), Abstract(entries, labels, chains', s', born);
    AbstractIsGood(entries, labels, chains', s', born);
    forall x ensures S.InTable(t', x) <==> S.InTable(t, x) {
      HoldsTheArena(entries, labels, chains, s, born, x);
      HoldsTheArena(entries, labels, chains', s', born, x);
    }
  }

  lemma ValidIsDistinct<K>(t: T.Table<K>)
    requires t.Valid()
    ensures AllDistinct(t.chains)
  {
    forall b | 0 <= b < |t.chains| ensures Distinct(t.chains[b]) {
      assert T.Chain(t.next, t.buckets[b], t.chains[b]);
    }
  }

  /** Growing the pointer table is the protocol's swap to a rehashed table. */
  method ResizeIsAStep<K(==)>(t: T.Table<K>, ghost labels: Labels, ghost st: S.State, ghost b: nat)
    requires t.Valid() && t.sizeLog2 < HASH_BITS && Labelled(t.entries, labels, st.t.born)
    requires st.t == Abstract(t.entries, labels, t.chains, t.sizeLog2, st.t.born)
    requires b < |st.backends| && st.backends[b].pc == S.Resizing(NUM_PARTITIONS, t.sizeLog2 + 1)
    modifies t
    ensures t.Valid() && t.sizeLog2 == old(t.sizeLog2) + 1 && Labelled(t.entries, labels, st.t.born)
    ensures var t' := Abstract(t.entries, labels, t.chains, t.sizeLog2, st.t.born);
            S.Rehashed(st.t, t') && S.Enabled(st, b, S.ResizeSwap(t')) && S.Next(st, b, S.ResizeSwap(t')).t == t'
  {
    ghost var chains, s := t.chains, t.sizeLog2;
    t.Resize(t.sizeLog2 + 1);
    ValidIsDistinct(t);
    PlacementsAreRehashes(t.entries, labels, st.t.born, chains, s, t.chains, t.sizeLog2);
  }

  // ---- inserting ----

  lemma IdsOfFrame<K>(entries: T.Entries<K>, labels: Labels, entries': T.Entries<K>, labels': Labels, chain: seq<T.Ptr>)
    requires forall p | p in chain :: IdOf(entries, labels, p) == IdOf(entries', labels', p)
    ensures IdsOf(entries, labels, chain) == IdsOf(entries', labels', chain)
  {
    forall i | 0 <= i < |chain| ensures IdOf(entries, labels, chain[i]) == IdOf(entries', labels', chain[i]) {
      assert chain[i] in chain;
    }
  }

  lemma InsertStaysLabelled<K>(entries: T.Entries<K>, labels: Labels, born: set<S.Id>, p: T.Ptr, e: T.Entry<K>, n: nat)
    requires Labelled(entries, labels, born) && p !in entries && S.Id(n, e.hash) !in born
    ensures Labelled(entries[p := e], labels[p := n], born + {S.Id(n, e.hash)})
  {
    var entries', labels' := entries[p := e], labels[p := n];
    forall q | q in entries' ensures IdOf(entries', labels', q) == (if q == p then S.Id(n, e.hash) else IdOf(entries, labels, q)) {
    }
  }

  lemma InsertInBucket<K>(entries: T.Entries<K>, labels: Labels, chains: seq<seq<T.Ptr>>, s: SizeLog2,
                          p: T.Ptr, e: T.Entry<K>, n: nat, c: nat)
    requires T.Placed(entries, chains, s, entries.Keys) && p !in entries && c < |chains|
    ensures IdsOf(entries[p := e], labels[p := n], chains[c]) == IdsOf(entries, labels, chains[c])
    ensures IdsOf(entries[p := e], labels[p := n], [p] + chains[c]) == [S.Id(n, e.hash)] + IdsOf(entries, labels, chains[c])
  {
    assert T.Fits(entries, chains[c], c, s, entries.Keys);
    IdsOfFrame(entries, labels, entries[p := e], labels[p := n], chains[c]);
  }

  lemma InsertAbstracts<K>(entries: T.Entries<K>, labels: Labels, born: set<S.Id>, chains: seq<seq<T.Ptr>>, s: SizeLog2,
                           p: T.Ptr, e: T.Entry<K>, n: nat)
    requires T.Placed(entries, chains, s, entries.Keys) && Labelled(entries, labels, born)
    requires p !in entries && S.Id(n, e.hash) !in born
    ensures var x, b := S.Id(n, e.hash), BucketForHash(e.hash, s);
            var t := Abstract(entries, labels, chains, s, born);
            && b < |chains| && Labelled(entries[p := e], labels[p := n], born + {x})
            && Abstract(entries[p := e], labels[p := n], chains[b := [p] + chains[b]], s, born + {x})
               == S.WithChain(t, b, [x] + S.Chain(t, b)).(born := born + {x})
  {
    var b := BucketForHash(e.hash, s);
    BucketInRange(e.hash, s);
    InsertStaysLabelled(entries, labels, born, p, e, n);
    forall c | 0 <= c < |chains|
      ensures IdsOf(entries[p := e], labels[p := n], chains[c]) == IdsOf(entries, labels, chains[c])
    {
      InsertInBucket(entries, labels, chains, s, p, e, n, c);
    }
    InsertInBucket(entries, labels, chains, s, p, e, n, b);
  }

  /** Inserting into the pointer table is the protocol's insertion step. */
  method InsertIsAStep<K(==)>(t: T.Table<K>, key: K, p: T.Ptr, ghost labels: Labels, ghost st: S.State, ghost b: nat, ghost n: nat)
    returns (ghost labels': Labels)
    requires t.Valid() && p != T.NIL && p !in t.entries && Labelled(t.entries, labels, st.t.born)
    requires st.t == Abstract(t.entries, labels, t.chains, t.sizeLog2, st.t.born)
    requires b < |st.backends| && st.backends[b].localSize == t.sizeLog2
    requires S.Enabled(st, b, S.Insert(S.Id(n, t.hashKey(key))))
    modifies t
    ensures t.Valid() && S.Next(st, b, S.Insert(S.Id(n, t.hashKey(key)))).t
                      == Abstract(t.entries, labels', t.chains, t.sizeLog2, st.t.born + {S.Id(n, t.hashKey(key))})
    ensures Labelled(t.entries, labels', st.t.born + {S.Id(n, t.hashKey(key))})
  {
    InsertAbstracts(t.entries, labels, st.t.born, t.chains, t.sizeLog2, p, T.Entry(t.hashKey(key), key), n);
    labels' := labels[p := n];
    t.Insert(key, p);
  }

  // ---- deleting ----

  lemma {:induction false} RemoveKth(ids: seq<S.Id>, k: nat)
    requires Distinct(ids) && k < |ids|
    ensures S.Remove(ids, ids[k]) == ids[..k] + ids[k + 1..]
  {
    if k > 0 {
      RemoveKth(ids[1..], k - 1);
    }
  }

  lemma DeleteAbstracts<K>(entries: T.Entries<K>, labels: Labels, born: set<S.Id>, chains: seq<seq<T.Ptr>>, s: SizeLog2,
                           chains': seq<seq<T.Ptr>>, b: nat, k: nat, p: T.Ptr)
    requires T.Placed(entries, chains, s, entries.Keys) && Labelled(entries, labels, born) && AllDistinct(chains)
    requires T.RemovedAt(chains, chains', b, k, p)
    ensures Labelled(entries - {p}, labels - {p}, born)
    ensures var t := Abstract(entries, labels, chains, s, born);
            Abstract(entries - {p}, labels - {p}, chains', s, born)
            == S.WithChain(t, b, S.Remove(S.Chain(t, b), IdOf(entries, labels, p)))
  {
    DeleteStaysLabelled(entries, labels, born, p);
    forall c | 0 <= c < |chains|
      ensures IdsOf(entries - {p}, labels - {p}, chains'[c])
           == (if c == b then S.Remove(IdsOf(entries, labels, chains[b]), IdOf(entries, labels, p))
               else IdsOf(entries, labels, chains[c]))
    {
      DeleteInBucket(entries, labels, born, chains, s, b, k, p, c);
    }
  }

  lemma DeleteStaysLabelled<K>(entries: T.Entries<K>, labels: Labels, born: set<S.Id>, p: T.Ptr)
    requires Labelled(entries, labels, born)
    ensures Labelled(entries - {p}, labels - {p}, born)
  {
    forall q | q in entries - {p} ensures IdOf(entries - {p}, labels - {p}, q) == IdOf(entries, labels, q) {
    }
  }

  lemma DeleteInBucket<K>(entries: T.Entries<K>, labels: Labels, born: set<S.Id>, chains: seq<seq<T.Ptr>>, s: SizeLog2,
                          b: nat, k: nat, p: T.Ptr, c: nat)
    requires T.Placed(entries, chains, s, entries.Keys) && Labelled(entries, labels, born) && AllDistinct(chains)
    requires b < |chains| && k < |chains[b]| && chains[b][k] == p && c < |chains|
    ensures IdsOf(entries - {p}, labels - {p}, if c == b then T.Without(chains[b], k) else chains[c])
         == (if c == b then S.Remove(IdsOf(entries, labels, chains[b]), IdOf(entries, labels, p))
             else IdsOf(entries, labels, chains[c]))
  {
    var left := if c == b then T.Without(chains[b], k) else chains[c];
    OthersStay(entries, chains, s, b, k, p, c);
    IdsOfFrame(entries, labels, entries - {p}, labels - {p}, left);
    if c == b {
      BucketIsGood(entries, labels, chains, s, born, b);
      IdsWithout(entries, labels, chains[b], k);
    }
  }

  lemma IdsWithout<K>(entries: T.Entries<K>, labels: Labels, chain: seq<T.Ptr>, k: nat)
    requires k < |chain| && Distinct(IdsOf(entries, labels, chain))
    ensures IdsOf(entries, labels, T.Without(chain, k)) == S.Remove(IdsOf(entries, labels, chain), IdOf(entries, labels, chain[k]))
  {
    var ids := IdsOf(entries, labels, chain);
    RemoveKth(ids, k);
    assert IdsOf(entries, labels, T.Without(chain, k)) == ids[..k] + ids[k + 1..];
  }

  lemma OthersStay<K>(entries: T.Entries<K>, chains: seq<seq<T.Ptr>>, s: SizeLog2, b: nat, k: nat, p: T.Ptr, c: nat)
    requires T.Placed(entries, chains, s, entries.Keys) && AllDistinct(chains)
    requires b < |chains| && k < |chains[b]| && chains[b][k] == p && c < |chains|
    ensures p !in (if c == b then T.Without(chains[b], k) else chains[c])
  {
    assert T.Fits(entries, chains[b], b, s, entries.Keys) && T.Fits(entries, chains[c], c, s, entries.Keys);
    T.WithoutElements(chains[b], k);
  }

  /** Deleting an item of the pointer table is the protocol's deletion step. */
  method DeleteIsAStep<K(==)>(t: T.Table<K>, p: T.Ptr, ghost labels: Labels, ghost st: S.State, ghost b: nat)
    returns (ghost labels': Labels)
    requires t.Valid() && p in t.entries && Labelled(t.entries, labels, st.t.born)
    requires st.t == Abstract(t.entries, labels, t.chains, t.sizeLog2, st.t.born)
    requires b < |st.backends| && st.backends[b].localSize == t.sizeLog2
    requires S.Enabled(st, b, S.Delete(IdOf(t.entries, labels, p)))
    modifies t
    ensures t.Valid() && Labelled(t.entries, labels', st.t.born)
    ensures S.Next(st, b, S.Delete(old(IdOf(t.entries, labels, p)))).t
         == Abstract(t.entries, labels', t.chains, t.sizeLog2, st.t.born)
  {
    ghost var entries, chains := t.entries, t.chains;
    ValidIsDistinct(t);
    labels' := labels - {p};
    ghost var k := t.DeleteItem(p);
    DeleteAbstracts(entries, labels, st.t.born, chains, t.sizeLog2, t.chains, BucketForHash(entries[p].hash, t.sizeLog2), k, p);
  }

  /** Deleting the current item of a scan is the protocol's step of that name. */
  method DeleteCurrentIsAStep<K(==)>(t: T.Table<K>, p: T.Ptr, ghost labels: Labels, ghost st: S.State, ghost b: nat)
    returns (ghost labels': Labels)
    requires t.Valid() && p in t.entries && Labelled(t.entries, labels, st.t.born)
    requires st.t == Abstract(t.entries, labels, t.chains, t.sizeLog2, st.t.born)
    requires b < |st.backends| && st.backends[b].localSize == t.sizeLog2 && S.Enabled(st, b, S.SeqDeleteCurrent)
    requires st.backends[b].pc.scan.phase.cur == Some(IdOf(t.entries, labels, p))
    modifies t
    ensures t.Valid() && t.entries == old(t.entries) - {p} && Labelled(t.entries, labels', st.t.born)
    ensures S.Next(st, b, S.SeqDeleteCurrent).t == Abstract(t.entries, labels', t.chains, t.sizeLog2, st.t.born)
  {
    ghost var entries, chains := t.entries, t.chains;
    ValidIsDistinct(t);
    labels' := labels - {p};
    ghost var k := t.DeleteItem(p);
    DeleteAbstracts(entries, labels, st.t.born, chains, t.sizeLog2, t.chains, BucketForHash(entries[p].hash, t.sizeLog2), k, p);
  }
}
