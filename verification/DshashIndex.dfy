/** Index arithmetic of the partitioned hash table: which bucket and which lock
    partition a 32-bit hash selects at a table size of 2^sizeLog2 buckets. */
module DshashIndex {

  const PARTITIONS_LOG2: nat := 7
  const NUM_PARTITIONS: nat := 128
  const HASH_BITS: nat := 32

  type Hash = h: nat | h < 0x1_0000_0000

  /** The sizes at which the bucket shift is defined: at least one bucket per
      partition, at most one bucket per hash value. */
  type SizeLog2 = s: nat | PARTITIONS_LOG2 <= s <= HASH_BITS witness PARTITIONS_LOG2

  /** x << n, on unbounded naturals. */
  function Shl(x: nat, n: nat): nat {
    if n == 0 then x else 2 * Shl(x, n - 1)
  }

  /** x >> n. */
  function Shr(x: nat, n: nat): nat {
    if n == 0 then x else Shr(x / 2, n - 1)
  }

  function NumBuckets(s: SizeLog2): nat {
    Shl(1, s)
  }

  function PartitionForHash(h: Hash): nat {
    Shr(h, HASH_BITS - PARTITIONS_LOG2)
  }

  function BucketForHash(h: Hash, s: SizeLog2): nat {
    Shr(h, HASH_BITS - s)
  }

  function FirstBucketOfPartition(p: nat, s: SizeLog2): nat {
    Shl(p, s - PARTITIONS_LOG2)
  }

  function PartitionForBucket(b: nat, s: SizeLog2): nat {
    Shr(b, s - PARTITIONS_LOG2)
  }

  lemma {:induction false} ShrShr(x: nat, a: nat, b: nat)
    ensures Shr(Shr(x, a), b) == Shr(x, a + b)
  {
    if a > 0 {
      ShrShr(x / 2, a - 1, b);
    }
  }

  lemma {:induction false} ShlShl(x: nat, a: nat, b: nat)
    ensures Shl(Shl(x, a), b) == Shl(x, a + b)
  {
    if b > 0 {
      ShlShl(x, a, b - 1);
    }
  }

  /** Shifting right lands below m exactly for the numbers below m shifted left. */
  lemma {:induction false} ShrBelow(x: nat, n: nat, m: nat)
    ensures Shr(x, n) < m <==> x < Shl(m, n)
  {
    if n > 0 {
      ShrBelow(x / 2, n - 1, m);
    }
  }

  lemma {:induction false} ShlSum(x: nat, y: nat, n: nat)
    ensures Shl(x + y, n) == Shl(x, n) + Shl(y, n)
    ensures x > 0 ==> Shl(x, n) > 0
  {
    if n > 0 {
      ShlSum(x, y, n - 1);
    }
  }

  lemma ShlValues()
    ensures Shl(1, PARTITIONS_LOG2) == NUM_PARTITIONS
    ensures Shl(1, HASH_BITS) == 0x1_0000_0000
  {
    assert Shl(1, 7) == 128;
    assert Shl(128, 7) == 16384;
    assert Shl(16384, 7) == 0x20_0000;
    assert Shl(0x20_0000, 7) == 0x1000_0000;
    assert Shl(0x1000_0000, 4) == 0x1_0000_0000;
    ShlShl(1, 7, 7);
    ShlShl(1, 14, 7);
    ShlShl(1, 21, 7);
    ShlShl(1, 28, 4);
  }

  /** At every size, the partition of a hash's bucket is the partition of the
      hash itself, so the lock chosen from the hash alone covers the bucket. */
  lemma PartitionOfBucketIsPartitionOfHash(h: Hash, s: SizeLog2)
    ensures PartitionForBucket(BucketForHash(h, s), s) == PartitionForHash(h)
  {
    ShrShr(h, HASH_BITS - s, s - PARTITIONS_LOG2);
  }

  lemma BucketInRange(h: Hash, s: SizeLog2)
    ensures BucketForHash(h, s) < NumBuckets(s)
  {
    ShlValues();
    ShlShl(1, s, HASH_BITS - s);
    ShrBelow(h, HASH_BITS - s, NumBuckets(s));
  }

  /** The hashes of a bucket are one contiguous block, beginning at the bucket's number
      followed by zero bits: the bucket is the hash's highest bits. */
  lemma BucketBlock(h: Hash, b: nat, s: SizeLog2)
    ensures BucketForHash(h, s) == b <==> Shl(b, HASH_BITS - s) <= h < Shl(b + 1, HASH_BITS - s)
  {
    ShrBelow(h, HASH_BITS - s, b);
    ShrBelow(h, HASH_BITS - s, b + 1);
  }

  /** Growing by one splits every bucket: a hash moves from bucket b to 2b or
      2b+1 and to no other. */
  lemma GrowthSplitsBucket(h: Hash, s: SizeLog2)
    requires s < HASH_BITS
    ensures BucketForHash(h, s + 1) / 2 == BucketForHash(h, s)
  {
    ShrShr(h, HASH_BITS - s - 1, 1);
    assert Shr(BucketForHash(h, s + 1), 1) == BucketForHash(h, s + 1) / 2;
  }

  /** The buckets of partition p are exactly the contiguous block starting at
      FirstBucketOfPartition(p), one block per partition. */
  lemma PartitionBlock(b: nat, p: nat, s: SizeLog2)
    ensures PartitionForBucket(b, s) == p
       <==> FirstBucketOfPartition(p, s) <= b < FirstBucketOfPartition(p + 1, s)
  {
    ShrBelow(b, s - PARTITIONS_LOG2, p);
    ShrBelow(b, s - PARTITIONS_LOG2, p + 1);
  }

  lemma PartitionInRange(b: nat, s: SizeLog2)
    ensures b < NumBuckets(s) <==> PartitionForBucket(b, s) < NUM_PARTITIONS
  {
    ShlValues();
    ShlShl(1, PARTITIONS_LOG2, s - PARTITIONS_LOG2);
    ShrBelow(b, s - PARTITIONS_LOG2, NUM_PARTITIONS);
  }

  /** Walking the buckets upwards never moves to a lower partition, and moves up
      by at most one at a time. */
  lemma NextBucketPartition(b: nat, s: SizeLog2)
    ensures var p := PartitionForBucket(b, s);
            PartitionForBucket(b + 1, s) == p || PartitionForBucket(b + 1, s) == p + 1
  {
    var p := PartitionForBucket(b, s);
    PartitionBlock(b, p, s);
    PartitionBlock(b + 1, p, s);
    PartitionBlock(b + 1, p + 1, s);
    ShlSum(p + 1, 1, s - PARTITIONS_LOG2);
    ShlSum(1, 0, s - PARTITIONS_LOG2);
  }
}
