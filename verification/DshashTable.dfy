/** The hash table's memory: items chained through `next` pointers in a shared
    arena, one chain per bucket, edited in place. The arena is kept as two maps
    over item addresses, the links and the rest of each item. */
module DshashTable {
  import opened Basics
  import opened DshashIndex

  type Ptr = nat
  const NIL: Ptr := 0

  datatype Entry<K> = Entry(hash: Hash, key: K)
  type Links = map<Ptr, Ptr>
  type Entries<K> = map<Ptr, Entry<K>>

  /** Following `next` from head visits exactly `chain` and then ends. */
  ghost predicate Linked(next: Links, head: Ptr, chain: seq<Ptr>)
    decreases |chain|
  {
    if chain == [] then head == NIL
    else head == chain[0] && head != NIL && head in next && Linked(next, next[head], chain[1..])
  }

  ghost predicate Chain(next: Links, head: Ptr, chain: seq<Ptr>) {
    Linked(next, head, chain) && Distinct(chain)
  }

  ghost predicate Fits<K>(entries: Entries<K>, chain: seq<Ptr>, b: nat, s: SizeLog2, items: set<Ptr>) {
    forall p | p in chain :: p in items && p in entries && BucketForHash(entries[p].hash, s) == b
  }

  ghost predicate InItsBucket<K>(entries: Entries<K>, chains: seq<seq<Ptr>>, s: SizeLog2, p: Ptr) {
    && p in entries
    && BucketForHash(entries[p].hash, s) < |chains|
    && p in chains[BucketForHash(entries[p].hash, s)]
  }

  /** The chains hold the given items, each in the bucket its hash selects at
      size s, and nothing else. */
  ghost predicate Placed<K>(entries: Entries<K>, chains: seq<seq<Ptr>>, s: SizeLog2, items: set<Ptr>) {
    && |chains| == NumBuckets(s)
    && (forall b {:trigger Fits(entries, chains[b], b, s, items)} | 0 <= b < |chains| ::
          Fits(entries, chains[b], b, s, items))
    && (forall p {:trigger InItsBucket(entries, chains, s, p)} | p in items :: InItsBucket(entries, chains, s, p))
  }

  ghost predicate AllChained(next: Links, heads: seq<Ptr>, chains: seq<seq<Ptr>>, from: nat) {
    && |heads| == |chains|
    && forall b {:trigger Chain(next, heads[b], chains[b])} | from <= b < |chains| :: Chain(next, heads[b], chains[b])
  }

  ghost function PartitionItems<K>(entries: Entries<K>, q: nat): set<Ptr> {
    set p | p in entries && PartitionForHash(entries[p].hash) == q
  }

  ghost predicate Counted<K>(entries: Entries<K>, counts: seq<nat>) {
    && |counts| == NUM_PARTITIONS
    && forall q | 0 <= q < NUM_PARTITIONS :: counts[q] == |PartitionItems(entries, q)|
  }

  lemma {:induction false} LinkedFrame(next: Links, next': Links, head: Ptr, chain: seq<Ptr>)
    requires Linked(next, head, chain)
    requires forall p | p in chain && p in next :: p in next' && next'[p] == next[p]
    ensures Linked(next', head, chain)
    decreases |chain|
  {
    if chain != [] {
      LinkedFrame(next, next', next[head], chain[1..]);
    }
  }

  lemma {:induction false} LinkedInArena(next: Links, head: Ptr, chain: seq<Ptr>)
    requires Linked(next, head, chain)
    ensures forall p | p in chain :: p in next && p != NIL
    decreases |chain|
  {
    if chain != [] {
      LinkedInArena(next, next[head], chain[1..]);
    }
  }

  ghost function Without(chain: seq<Ptr>, k: nat): seq<Ptr>
    requires k < |chain|
  {
    chain[..k] + chain[k + 1..]
  }

  /** Pointing the k-th item's predecessor past it unlinks exactly that item. */
  lemma {:induction false} Bypass(next: Links, next': Links, head: Ptr, chain: seq<Ptr>, k: nat)
    requires Chain(next, head, chain)
    requires 0 < k < |chain| && chain[k] in next
    requires forall p | p in chain && p in next && p != chain[k - 1] && p != chain[k] ::
               p in next' && next'[p] == next[p]
    requires chain[k - 1] in next' && next'[chain[k - 1]] == next[chain[k]]
    ensures Linked(next', head, Without(chain, k))
    decreases k
  {
    var tail := chain[1..];
    assert Without(chain, k)[1..] == Without(tail, k - 1);
    if k == 1 {
      assert Without(tail, 0) == tail[1..];
      assert Linked(next, next[head], tail);
      LinkedFrame(next, next', next[chain[1]], tail[1..]);
    } else {
      assert tail[k - 2] == chain[k - 1] && tail[k - 1] == chain[k];
      Bypass(next, next', next[head], tail, k - 1);
    }
  }

  lemma WithoutElements(chain: seq<Ptr>, k: nat)
    requires k < |chain| && Distinct(chain)
    ensures forall p :: p in Without(chain, k) <==> p in chain && p != chain[k]
  {
  }

  /** Unlinking an item of bucket b leaves every other item where it was. */
  lemma PlacedAfterUnlink<K>(entries: Entries<K>, chains: seq<seq<Ptr>>, s: SizeLog2, b: nat, k: nat)
    requires Placed(entries, chains, s, entries.Keys) && b < |chains| && k < |chains[b]| && Distinct(chains[b])
    ensures var rest := entries - {chains[b][k]};
            Placed(rest, chains[b := Without(chains[b], k)], s, rest.Keys)
  {
    var item := chains[b][k];
    var chains', rest := chains[b := Without(chains[b], k)], entries - {item};
    WithoutElements(chains[b], k);
    assert Fits(entries, chains[b], b, s, entries.Keys) && item in chains[b];
    forall c | 0 <= c < |chains'| ensures Fits(rest, chains'[c], c, s, rest.Keys) {
      assert Fits(entries, chains[c], c, s, entries.Keys);
    }
    forall p | p in rest ensures InItsBucket(rest, chains', s, p) {
      assert InItsBucket(entries, chains, s, p);
    }
  }

  lemma PlacedAfterPush<K>(entries: Entries<K>, entries': Entries<K>, chains: seq<seq<Ptr>>, s: SizeLog2,
                           items: set<Ptr>, p: Ptr, b: nat)
    requires Placed(entries, chains, s, items)
    requires p in entries' && p !in items && b == BucketForHash(entries'[p].hash, s) < |chains|
    requires forall x | x in items && x in entries :: x in entries' && entries'[x] == entries[x]
    ensures Placed(entries', chains[b := [p] + chains[b]], s, items + {p})
  {
    var chains' := chains[b := [p] + chains[b]];
    forall c | 0 <= c < |chains'| ensures Fits(entries', chains'[c], c, s, items + {p}) {
      assert Fits(entries, chains[c], c, s, items);
    }
    forall x | x in items + {p} ensures InItsBucket(entries', chains', s, x) {
      if x != p {
        assert InItsBucket(entries, chains, s, x);
      }
    }
  }

  /** Linking p, which is on no chain, in front of bucket b's chain. */
  lemma ChainedAfterPush(next: Links, next': Links, heads: seq<Ptr>, chains: seq<seq<Ptr>>, p: Ptr, b: nat)
    requires AllChained(next, heads, chains, 0) && b < |chains|
    requires p != NIL && next' == next[p := heads[b]]
    requires forall c | 0 <= c < |chains| :: p !in chains[c]
    ensures AllChained(next', heads[b := p], chains[b := [p] + chains[b]], 0)
  {
    var heads', chains' := heads[b := p], chains[b := [p] + chains[b]];
    forall c | 0 <= c < |chains'| ensures Chain(next', heads'[c], chains'[c]) {
      assert Chain(next, heads[c], chains[c]);
      LinkedFrame(next, next', heads[c], chains[c]);
      if c == b {
        assert ([p] + chains[b])[1..] == chains[b];
      }
    }
  }

  // Chains that avoid p do not notice a change to p's link.
  lemma ChainedFrame(next: Links, next': Links, heads: seq<Ptr>, chains: seq<seq<Ptr>>, from: nat, p: Ptr)
    requires AllChained(next, heads, chains, from)
    requires forall x | x in next && x != p :: x in next' && next'[x] == next[x]
    requires forall c | from <= c < |chains| :: p !in chains[c]
    ensures AllChained(next', heads, chains, from)
  {
    forall c | from <= c < |chains| ensures Chain(next', heads[c], chains[c]) {
      assert Chain(next, heads[c], chains[c]);
      LinkedFrame(next, next', heads[c], chains[c]);
    }
  }

  /** The links after the k-th item of bucket b is taken out: its predecessor's
      link, or the bucket head when it has none, now points past it. */
  ghost function LinksWithout(next: Links, prev: Ptr, item: Ptr): Links
    requires item in next
  {
    if prev == NIL then next - {item} else (next - {item})[prev := next[item]]
  }

  lemma ChainedAfterUnlink(next: Links, heads: seq<Ptr>, chains: seq<seq<Ptr>>, b: nat, k: nat, prev: Ptr, item: Ptr)
    requires AllChained(next, heads, chains, 0) && b < |chains| && k < |chains[b]|
    requires item == chains[b][k] && prev == if k == 0 then NIL else chains[b][k - 1]
    requires forall c, x | 0 <= c < |chains| && c != b && x in chains[c] :: x !in chains[b]
    ensures item in next && (prev == NIL <==> k == 0)
    ensures k > 0 ==> prev in next && prev != item
    ensures AllChained(LinksWithout(next, prev, item), if prev == NIL then heads[b := next[item]] else heads,
                       chains[b := Without(chains[b], k)], 0)
  {
    var chain := chains[b];
    assert Chain(next, heads[b], chain);
    LinkedInArena(next, heads[b], chain);
    assert k > 0 ==> chain[k - 1] in chain && chain[k - 1] != chain[k];
    var next' := LinksWithout(next, prev, item);
    var heads' := if prev == NIL then heads[b := next[item]] else heads;
    if prev == NIL {
      assert Without(chain, 0) == chain[1..];
      LinkedFrame(next, next', next[item], chain[1..]);
    } else {
      Bypass(next, next', heads[b], chain, k);
    }
    var chains' := chains[b := Without(chain, k)];
    forall c | 0 <= c < |chains'| ensures Chain(next', heads'[c], chains'[c]) {
      assert Chain(next, heads[c], chains[c]);
      if c != b {
        assert forall x | x in chains[c] :: x !in chain;
        LinkedFrame(next, next', heads[c], chains[c]);
      }
    }
  }

  /** The inner loop of `resize` at old bucket i: `rest` is what is left of that
      bucket's chain, the old buckets after it are intact, and the items in
      `moved` hang off the new buckets. */
  ghost predicate Moving<K>(next: Links, entries: Entries<K>, heads: seq<Ptr>, chains: seq<seq<Ptr>>, s: SizeLog2,
                            newHeads: seq<Ptr>, newChains: seq<seq<Ptr>>, s': SizeLog2,
                            i: nat, p: Ptr, rest: seq<Ptr>, moved: set<Ptr>) {
    && next.Keys == entries.Keys && moved <= entries.Keys
    && AllChained(next, newHeads, newChains, 0) && Placed(entries, newChains, s', moved)
    && AllChained(next, heads, chains, i + 1) && Placed(entries, chains, s, entries.Keys)
    && Chain(next, p, rest) && i < |chains| && (forall x | x in rest :: x in chains[i])
    && (forall x | x in entries :: x in moved <==> BucketForHash(entries[x].hash, s) <= i && x !in rest)
  }

  /** Between old buckets: exactly the items of the buckets before i are moved. */
  ghost predicate MovedBelow<K>(next: Links, entries: Entries<K>, heads: seq<Ptr>, chains: seq<seq<Ptr>>, s: SizeLog2,
                                newHeads: seq<Ptr>, newChains: seq<seq<Ptr>>, s': SizeLog2,
                                i: nat, moved: set<Ptr>) {
    && next.Keys == entries.Keys && moved <= entries.Keys
    && AllChained(next, newHeads, newChains, 0) && Placed(entries, newChains, s', moved)
    && AllChained(next, heads, chains, i) && Placed(entries, chains, s, entries.Keys)
    && (forall x | x in entries :: x in moved <==> BucketForHash(entries[x].hash, s) < i)
  }

  lemma StartBucket<K>(next: Links, entries: Entries<K>, heads: seq<Ptr>, chains: seq<seq<Ptr>>, s: SizeLog2,
                       newHeads: seq<Ptr>, newChains: seq<seq<Ptr>>, s': SizeLog2, i: nat, moved: set<Ptr>)
    requires MovedBelow(next, entries, heads, chains, s, newHeads, newChains, s', i, moved) && i < |chains|
    ensures Moving(next, entries, heads, chains, s, newHeads, newChains, s', i, heads[i], chains[i], moved)
  {
    assert Chain(next, heads[i], chains[i]) && Fits(entries, chains[i], i, s, entries.Keys);
    assert forall x | x in entries :: InItsBucket(entries, chains, s, x);
  }

  lemma AllMoved<K>(next: Links, entries: Entries<K>, heads: seq<Ptr>, chains: seq<seq<Ptr>>, s: SizeLog2,
                    newHeads: seq<Ptr>, newChains: seq<seq<Ptr>>, s': SizeLog2, moved: set<Ptr>)
    requires MovedBelow(next, entries, heads, chains, s, newHeads, newChains, s', NumBuckets(s), moved)
    ensures moved == entries.Keys
  {
    forall x | x in entries ensures x in moved {
      BucketInRange(entries[x].hash, s);
    }
  }

  /** One turn of that loop keeps the state, with p moved to its new bucket. */
  lemma MoveOne<K>(next: Links, entries: Entries<K>, heads: seq<Ptr>, chains: seq<seq<Ptr>>, s: SizeLog2,
                   newHeads: seq<Ptr>, newChains: seq<seq<Ptr>>, s': SizeLog2,
                   i: nat, p: Ptr, rest: seq<Ptr>, moved: set<Ptr>, b: nat)
    requires Moving(next, entries, heads, chains, s, newHeads, newChains, s', i, p, rest, moved)
    requires rest != [] && p in entries && b == BucketForHash(entries[p].hash, s') < |newChains|
    ensures Moving(next[p := newHeads[b]], entries, heads, chains, s,
                   newHeads[b := p], newChains[b := [p] + newChains[b]], s',
                   i, next[p], rest[1..], moved + {p})
  {
    var next' := next[p := newHeads[b]];
    assert Fits(entries, chains[i], i, s, entries.Keys) && p in rest;
    assert rest == [p] + rest[1..];
    forall c | 0 <= c < |newChains| ensures p !in newChains[c] {
      assert Fits(entries, newChains[c], c, s', moved);
    }
    forall c | i + 1 <= c < |chains| ensures p !in chains[c] {
      assert Fits(entries, chains[c], c, s, entries.Keys);
    }
    ChainedAfterPush(next, next', newHeads, newChains, p, b);
    PlacedAfterPush(entries, entries, newChains, s', moved, p, b);
    ChainedFrame(next, next', heads, chains, i + 1, p);
    LinkedFrame(next, next', next[p], rest[1..]);
  }

  /** Adding one item adds one to the count of its hash's partition and to no other. */
  lemma CountsAfterAdding<K>(entries: Entries<K>, p: Ptr, e: Entry<K>, q: nat)
    requires p !in entries
    ensures |PartitionItems(entries[p := e], q)|
         == |PartitionItems(entries, q)| + if q == PartitionForHash(e.hash) then 1 else 0
  {
    if q == PartitionForHash(e.hash) {
      assert PartitionItems(entries[p := e], q) == PartitionItems(entries, q) + {p};
    } else {
      assert PartitionItems(entries[p := e], q) == PartitionItems(entries, q);
    }
  }

  lemma CountedAfterAdding<K>(entries: Entries<K>, p: Ptr, e: Entry<K>, counts: seq<nat>, q: nat)
    requires Counted(entries, counts) && p !in entries && q == PartitionForHash(e.hash) < NUM_PARTITIONS
    ensures Counted(entries[p := e], counts[q := counts[q] + 1])
  {
    var entries' := entries[p := e];
    forall r | 0 <= r < NUM_PARTITIONS ensures counts[q := counts[q] + 1][r] == |PartitionItems(entries', r)| {
      CountsAfterAdding(entries, p, e, r);
    }
  }

  lemma CountedAfterRemoving<K>(entries: Entries<K>, p: Ptr, counts: seq<nat>, q: nat)
    requires Counted(entries, counts) && p in entries && q == PartitionForHash(entries[p].hash) < NUM_PARTITIONS
    ensures counts[q] > 0
    ensures Counted(entries - {p}, counts[q := counts[q] - 1])
  {
    var rest := entries - {p};
    assert rest[p := entries[p]] == entries;
    CountsAfterAdding(rest, p, entries[p], q);
    forall r | 0 <= r < NUM_PARTITIONS ensures counts[q := counts[q] - 1][r] == |PartitionItems(rest, r)| {
      CountsAfterAdding(rest, p, entries[p], r);
    }
  }

  /** An item stays in its partition whatever the table's size, and doubling the
      table sends it to one of the two buckets its old bucket splits into. */
  lemma ResizeKeepsPartition<K>(entries: Entries<K>, chains: seq<seq<Ptr>>, s: SizeLog2,
                                chains': seq<seq<Ptr>>, s': SizeLog2, p: Ptr, b: nat, b': nat)
    requires Placed(entries, chains, s, entries.Keys) && Placed(entries, chains', s', entries.Keys)
    requires b < |chains| && p in chains[b] && b' < |chains'| && p in chains'[b']
    ensures PartitionForBucket(b, s) == PartitionForBucket(b', s')
    ensures s' == s + 1 ==> b' == 2 * b || b' == 2 * b + 1
  {
    assert Fits(entries, chains[b], b, s, entries.Keys) && Fits(entries, chains'[b'], b', s', entries.Keys);
    PartitionOfBucketIsPartitionOfHash(entries[p].hash, s);
    PartitionOfBucketIsPartitionOfHash(entries[p].hash, s');
    if s' == s + 1 {
      GrowthSplitsBucket(entries[p].hash, s);
    }
  }

  /** The chains differ in bucket b only, where the k-th item, the given one, is gone. */
  ghost predicate RemovedAt(chains: seq<seq<Ptr>>, chains': seq<seq<Ptr>>, b: nat, k: nat, item: Ptr) {
    b < |chains| && k < |chains[b]| && chains[b][k] == item && chains' == chains[b := Without(chains[b], k)]
  }

  class Table<K(==)> {
    const hashKey: K -> Hash
    var next: Links
    var entries: Entries<K>
    var sizeLog2: SizeLog2
    var buckets: seq<Ptr>
    var counts: seq<nat>       // items per lock partition
    ghost var chains: seq<seq<Ptr>>

    ghost predicate ValidChains()
      reads this
    {
      && next.Keys == entries.Keys
      && AllChained(next, buckets, chains, 0)
      && Placed(entries, chains, sizeLog2, entries.Keys)
      && forall p | p in entries :: entries[p].hash == hashKey(entries[p].key)
    }

    ghost predicate Valid()
      reads this
    {
      ValidChains() && Counted(entries, counts)
    }

    constructor (hashKey: K -> Hash)
      ensures Valid() && entries == map[] && sizeLog2 == PARTITIONS_LOG2 && this.hashKey == hashKey
    {
      this.hashKey := hashKey;
      next, entries := map[], map[];
      sizeLog2 := PARTITIONS_LOG2;
      buckets := seq(NumBuckets(PARTITIONS_LOG2), _ => NIL);
      counts := seq(NUM_PARTITIONS, _ => 0);
      chains := seq(NumBuckets(PARTITIONS_LOG2), _ => []);
      new;
      forall q | 0 <= q < NUM_PARTITIONS ensures counts[q] == |PartitionItems(entries, q)| {
        assert PartitionItems(entries, q) == {};
      }
    }

    /** Walks a chain for the first item holding the key. */
    method FindInBucket(key: K, head: Ptr, ghost chain: seq<Ptr>) returns (item: Ptr)
      requires Linked(next, head, chain) && next.Keys == entries.Keys
      ensures item == NIL ==> forall p | p in chain && p in entries :: entries[p].key != key
      ensures item != NIL ==> item in chain && item in entries && entries[item].key == key
    {
      LinkedInArena(next, head, chain);
      item := head;
      ghost var k := 0;
      while item != NIL
        invariant k <= |chain| && Linked(next, item, chain[k..])
        invariant forall j | 0 <= j < k :: entries[chain[j]].key != key
        decreases |chain| - k
      {
        if entries[item].key == key {
          return;
        }
        assert chain[k..][1..] == chain[k + 1..];
        item := next[item];
        k := k + 1;
      }
    }

    /** Lookup by key is decided by the table's entries alone. */
    method Find(key: K) returns (item: Ptr)
      requires Valid()
      ensures item == NIL ==> forall p | p in entries :: entries[p].key != key
      ensures item != NIL ==> item in entries && entries[item].key == key
    {
      BucketInRange(hashKey(key), sizeLog2);
      var b := BucketForHash(hashKey(key), sizeLog2);
      assert Chain(next, buckets[b], chains[b]);
      item := FindInBucket(key, buckets[b], chains[b]);
      forall p | item == NIL && p in entries ensures entries[p].key != key {
        assert InItsBucket(entries, chains, sizeLog2, p);
      }
    }

    /** Links an item in front of the given bucket head. */
    method InsertItemIntoBucket(p: Ptr, bucket: Ptr) returns (head: Ptr)
      modifies this`next
      ensures head == p && next == old(next)[p := bucket]
    {
      next := next[p := bucket];
      head := p;
    }

    /** Makes a newly allocated item for the key and links it into the key's
        bucket; `p` is the address the allocator returned. */
    method InsertIntoBucket(key: K, p: Ptr, b: nat)
      requires ValidChains() && b == BucketForHash(hashKey(key), sizeLog2)
      requires p != NIL && p !in entries
      modifies this`next, this`entries, this`buckets, this`chains
      ensures ValidChains()
      ensures entries == old(entries)[p := Entry(hashKey(key), key)]
      ensures b < |old(chains)| && chains == old(chains)[b := [p] + old(chains)[b]]
    {
      BucketInRange(hashKey(key), sizeLog2);
      entries := entries[p := Entry(hashKey(key), key)];
      var head := InsertItemIntoBucket(p, buckets[b]);
      forall c | 0 <= c < |chains| ensures p !in chains[c] {
        assert Fits(old(entries), chains[c], c, sizeLog2, old(entries).Keys);
      }
      ChainedAfterPush(old(next), next, buckets, chains, p, b);
      PlacedAfterPush(old(entries), entries, chains, sizeLog2, old(entries).Keys, p, b);
      assert old(entries).Keys + {p} == entries.Keys;
      buckets, chains := buckets[b := head], chains[b := [p] + chains[b]];
    }

    /** Insertion with the caller's bookkeeping: the partition's count goes up by one. */
    method Insert(key: K, p: Ptr)
      requires Valid()
      requires p != NIL && p !in entries
      modifies this`next, this`entries, this`buckets, this`counts, this`chains
      ensures Valid()
      ensures entries == old(entries)[p := Entry(hashKey(key), key)]
      ensures var b := BucketForHash(hashKey(key), sizeLog2);
              b < |old(chains)| && chains == old(chains)[b := [p] + old(chains)[b]]
    {
      var h := hashKey(key);
      var b, q := BucketForHash(h, sizeLog2), PartitionForHash(h);
      BucketInRange(h, sizeLog2);
      PartitionOfBucketIsPartitionOfHash(h, sizeLog2);
      PartitionInRange(b, sizeLog2);
      CountedAfterAdding(entries, p, Entry(h, key), counts, q);
      InsertIntoBucket(key, p, b);
      counts := counts[q := counts[q] + 1];
    }

    /** Frees the k-th item of bucket b after redirecting the link to it: the
        bucket head when there is no predecessor, else the predecessor's next. */
    method Unlink(b: nat, prev: Ptr, item: Ptr, ghost k: nat)
      requires ValidChains() && b < |chains|
      requires k < |chains[b]| && chains[b][k] == item
      requires prev == if k == 0 then NIL else chains[b][k - 1]
      modifies this`next, this`entries, this`buckets, this`chains
      ensures ValidChains()
      ensures entries == old(entries) - {item}
      ensures chains == old(chains)[b := Without(old(chains)[b], k)]
    {
      forall c, x | 0 <= c < |chains| && c != b && x in chains[c] ensures x !in chains[b] {
        assert Fits(entries, chains[c], c, sizeLog2, entries.Keys);
        assert Fits(entries, chains[b], b, sizeLog2, entries.Keys);
      }
      assert Chain(next, buckets[b], chains[b]);
      ChainedAfterUnlink(next, buckets, chains, b, k, prev, item);
      PlacedAfterUnlink(entries, chains, sizeLog2, b, k);
      var after := next[item];
      next := next - {item};
      entries := entries - {item};
      if prev == NIL {
        buckets := buckets[b := after];
      } else {
        next := next[prev := after];
      }
      chains := chains[b := Without(chains[b], k)];
    }

    /** Removes the given item from bucket b, if it is there. */
    method DeleteItemFromBucket(item: Ptr, b: nat) returns (deleted: bool, ghost k: nat)
      requires ValidChains() && b < |chains|
      modifies this`next, this`entries, this`buckets, this`chains
      ensures ValidChains()
      ensures deleted <==> item in old(chains[b])
      ensures deleted ==> entries == old(entries) - {item}
      ensures deleted ==> RemovedAt(old(chains), chains, b, k, item)
      ensures !deleted ==> unchanged(this)
    {
      ghost var chain := chains[b];
      k := 0;
      assert Chain(next, buckets[b], chain);
      var prev, cur := NIL, buckets[b];
      while cur != NIL
        invariant k <= |chain| && Linked(next, cur, chain[k..])
        invariant unchanged(this)
        invariant prev == if k == 0 then NIL else chain[k - 1]
        invariant item !in chain[..k]
        decreases |chain| - k
      {
        if cur == item {
          Unlink(b, prev, item, k);
          deleted := true;
          return;
        }
        assert chain[k..][1..] == chain[k + 1..];
        prev, cur := cur, next[cur];
        k := k + 1;
      }
      assert chain[..k] == chain;
      deleted := false;
    }

    /** Removes the first item of bucket b that holds the key, if there is one. */
    method DeleteKeyFromBucket(key: K, b: nat) returns (deleted: bool, ghost item: Ptr, ghost k: nat)
      requires ValidChains() && b < |chains|
      modifies this`next, this`entries, this`buckets, this`chains
      ensures ValidChains()
      ensures deleted ==> item in old(chains[b]) && item in old(entries) && old(entries)[item].key == key
      ensures deleted ==> entries == old(entries) - {item} && RemovedAt(old(chains), chains, b, k, item)
      ensures deleted ==> forall j | 0 <= j < k && old(chains)[b][j] in old(entries) :: old(entries)[old(chains)[b][j]].key != key
      ensures !deleted ==> unchanged(this) && forall p | p in chains[b] && p in entries :: entries[p].key != key
    {
      ghost var chain := chains[b];
      k := 0;
      assert Chain(next, buckets[b], chain);
      LinkedInArena(next, buckets[b], chain);
      var prev, cur := NIL, buckets[b];
      item := NIL;
      while cur != NIL
        invariant k <= |chain| && Linked(next, cur, chain[k..])
        invariant unchanged(this)
        invariant prev == if k == 0 then NIL else chain[k - 1]
        invariant forall j | 0 <= j < k :: entries[chain[j]].key != key
        decreases |chain| - k
      {
        if entries[cur].key == key {
          assert chain[k] == cur;
          item := cur;
          Unlink(b, prev, cur, k);
          deleted := true;
          return;
        }
        assert chain[k..][1..] == chain[k + 1..];
        prev, cur := cur, next[cur];
        k := k + 1;
      }
      deleted := false;
    }

    /** Deletes an item of the table that the caller has a pointer to; its
        partition's count goes down by one and never below zero. */
    method DeleteItem(item: Ptr) returns (ghost k: nat)
      requires Valid() && item in entries
      modifies this`next, this`entries, this`buckets, this`chains, this`counts
      ensures Valid()
      ensures entries == old(entries) - {item}
      ensures RemovedAt(old(chains), chains, BucketForHash(old(entries)[item].hash, sizeLog2), k, item)
    {
      var h := entries[item].hash;
      BucketInRange(h, sizeLog2);
      PartitionOfBucketIsPartitionOfHash(h, sizeLog2);
      var b, q := BucketForHash(h, sizeLog2), PartitionForHash(h);
      PartitionInRange(b, sizeLog2);
      CountedAfterRemoving(entries, item, counts, q);
      assert InItsBucket(entries, chains, sizeLog2, item);
      var deleted;
      deleted, k := DeleteItemFromBucket(item, b);
      counts := counts[q := counts[q] - 1];
    }

    /** Grows the table to 2^newSizeLog2 buckets by relinking every item in place;
        nothing is done when the table already has that size. */
    method Resize(newSizeLog2: SizeLog2)
      requires Valid()
      modifies this`next, this`buckets, this`chains, this`sizeLog2
      ensures Valid()
      ensures sizeLog2 == if old(sizeLog2) < newSizeLog2 then newSizeLog2 else old(sizeLog2)
      ensures old(sizeLog2) >= newSizeLog2 ==> unchanged(this)
    {
      if sizeLog2 >= newSizeLog2 {
        return;
      }
      var newBuckets: seq<Ptr> := seq(NumBuckets(newSizeLog2), _ => NIL);
      ghost var newChains: seq<seq<Ptr>> := seq(NumBuckets(newSizeLog2), _ => []);
      ghost var moved: set<Ptr> := {};
      for i := 0 to NumBuckets(sizeLog2)
        invariant unchanged(this`buckets, this`chains, this`sizeLog2)
        invariant MovedBelow(next, entries, buckets, chains, sizeLog2, newBuckets, newChains, newSizeLog2, i, moved)
      {
        var p: Ptr := buckets[i];
        ghost var rest := chains[i];
        StartBucket(next, entries, buckets, chains, sizeLog2, newBuckets, newChains, newSizeLog2, i, moved);
        while p != NIL
          invariant unchanged(this`buckets, this`chains, this`sizeLog2)
          invariant Moving(next, entries, buckets, chains, sizeLog2, newBuckets, newChains, newSizeLog2,
                           i, p, rest, moved)
          decreases |rest|
        {
          var after := next[p];
          BucketInRange(entries[p].hash, newSizeLog2);
          var b := BucketForHash(entries[p].hash, newSizeLog2);
          MoveOne(next, entries, buckets, chains, sizeLog2, newBuckets, newChains, newSizeLog2, i, p, rest, moved, b);
          var head := InsertItemIntoBucket(p, newBuckets[b]);
          newBuckets, newChains := newBuckets[b := head], newChains[b := [p] + newChains[b]];
          rest, moved := rest[1..], moved + {p};
          p := after;
        }
      }
      AllMoved(next, entries, buckets, chains, sizeLog2, newBuckets, newChains, newSizeLog2, moved);
      buckets, chains, sizeLog2 := newBuckets, newChains, newSizeLog2;
    }
  }
}
