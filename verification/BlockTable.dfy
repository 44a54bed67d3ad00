/**
 The growing bucket table of the copying buffer.  Its meaning is a map: `Get`
 gives the block at an offset, and the lemmas below are the laws of a map.
 */
module BlockTables {
  import opened Wrappers
  import opened WordBits
  import opened StreamBytes
  import opened DataBlocks

  /** N_BUCKETS. */
  function NBuckets(nbits: nat): (n: nat)
    ensures n > 0
  {
    Pow2(nbits)
  }

  /** `x & (2^n - 1)`: the low `n` binary digits of `x`. */
  function LowBits(x: nat, n: nat): (r: nat)
    ensures r < Pow2(n)
  {
    if n == 0 then 0 else x % 2 + 2 * LowBits(x / 2, n - 1)
  }

  /** BUCKNO: the low `nbits` bits of the block's number. */
  function BuckNo(nbits: nat, off: nat): (i: nat)
    ensures i < NBuckets(nbits)
  {
    LowBits(off / DB_DATA_SIZE, nbits)
  }

  type Bucket = seq<Block>

  /** The block at offset `off` in one bucket. */
  function Lookup(bucket: Bucket, off: nat): Option<Block> {
    if bucket == [] then None
    else
      var first := Lookup(bucket[..|bucket| - 1], off);
      var last := bucket[|bucket| - 1];
      if first.None? && last.off == off then Some(last) else first
  }

  /** The block at offset `off`, looked for where it hashes. */
  ghost function Get(buckets: seq<Bucket>, nbits: nat, off: nat): Option<Block>
    requires |buckets| == NBuckets(nbits)
  {
    Lookup(buckets[BuckNo(nbits, off)], off)
  }

  /** Every block of bucket `i` is well formed, hashes here and is alone at its offset. */
  ghost predicate BucketOk(bucket: Bucket, i: nat, nbits: nat) {
    bucket == [] ||
    var init, last := bucket[..|bucket| - 1], bucket[|bucket| - 1];
    && BucketOk(init, i, nbits)
    && last.Valid()
    && last.off % DB_DATA_SIZE == 0
    && BuckNo(nbits, last.off) == i
    && Lookup(init, last.off).None?
  }

  /** The first `n` of the buckets are in order. */
  ghost predicate BucketsOk(buckets: seq<Bucket>, nbits: nat, n: nat) {
    && n <= |buckets| == NBuckets(nbits)
    && (n == 0 || (BucketsOk(buckets, nbits, n - 1) && BucketOk(buckets[n - 1], n - 1, nbits)))
  }

  /** All buckets are in order. */
  ghost predicate TableOk(buckets: seq<Bucket>, nbits: nat) {
    BucketsOk(buckets, nbits, NBuckets(nbits))
  }

  /** Number of blocks in the table. */
  ghost function Size(buckets: seq<Bucket>): nat {
    if buckets == [] then 0 else Size(buckets[..|buckets| - 1]) + |buckets[|buckets| - 1]|
  }

  // ---------- One bucket ----------

  lemma {:induction false} LookupFound(bucket: Bucket, i: nat, nbits: nat, off: nat)
    requires BucketOk(bucket, i, nbits) && Lookup(bucket, off).Some?
    ensures var b := Lookup(bucket, off).value;
            && b.Valid() && b.off == off && off % DB_DATA_SIZE == 0 && BuckNo(nbits, off) == i
  {
    if Lookup(bucket[..|bucket| - 1], off).Some? {
      LookupFound(bucket[..|bucket| - 1], i, nbits, off);
    }
  }

  lemma LookupAppend(bucket: Bucket, b: Block, off: nat)
    ensures Lookup(bucket + [b], off) ==
            if Lookup(bucket, off).None? && b.off == off then Some(b) else Lookup(bucket, off)
  {
  }

  lemma BucketOkAppend(bucket: Bucket, b: Block, i: nat, nbits: nat)
    requires BucketOk(bucket, i, nbits)
    requires b.Valid() && b.off % DB_DATA_SIZE == 0 && BuckNo(nbits, b.off) == i && Lookup(bucket, b.off).None?
    ensures BucketOk(bucket + [b], i, nbits)
  {
  }

  /** The block at position `j` is the one that a search for its offset finds. */
  lemma {:induction false} LookupAt(bucket: Bucket, i: nat, nbits: nat, j: nat)
    requires BucketOk(bucket, i, nbits) && j < |bucket|
    ensures Lookup(bucket, bucket[j].off) == Some(bucket[j])
  {
    var init := bucket[..|bucket| - 1];
    if j < |init| {
      assert bucket[j] == init[j];
      LookupAt(init, i, nbits, j);
    }
  }

  /** A block with the same offset in the same place. */
  lemma {:induction false} ReplaceInBucket(bucket: Bucket, i: nat, nbits: nat, j: nat, b: Block, off: nat)
    requires BucketOk(bucket, i, nbits) && j < |bucket|
    requires b.Valid() && b.off == bucket[j].off
    ensures BucketOk(bucket[j := b], i, nbits)
    ensures Lookup(bucket[j := b], off) == if off == b.off then Some(b) else Lookup(bucket, off)
  {
    var init := bucket[..|bucket| - 1];
    if j < |init| {
      assert bucket[j := b][..|init|] == init[j := b];
      ReplaceInBucket(init, i, nbits, j, b, off);
      ReplaceInBucket(init, i, nbits, j, b, bucket[|init|].off);
      LookupAt(init, i, nbits, j);
    } else {
      assert bucket[j := b][..|init|] == init;
    }
  }

  lemma {:induction false} RemoveFromBucket(bucket: Bucket, i: nat, nbits: nat, j: nat, off: nat)
    requires BucketOk(bucket, i, nbits) && j < |bucket|
    ensures BucketOk(bucket[..j] + bucket[j + 1..], i, nbits)
    ensures Lookup(bucket[..j] + bucket[j + 1..], off) == if off == bucket[j].off then None else Lookup(bucket, off)
  {
    var init, last := bucket[..|bucket| - 1], bucket[|bucket| - 1];
    if j < |init| {
      assert bucket[..j] + bucket[j + 1..] == init[..j] + init[j + 1..] + [last];
      RemoveFromBucket(init, i, nbits, j, off);
      RemoveFromBucket(init, i, nbits, j, last.off);
      LookupAt(init, i, nbits, j);
      LookupAppend(init[..j] + init[j + 1..], last, off);
      BucketOkAppend(init[..j] + init[j + 1..], last, i, nbits);
    } else {
      assert bucket[..j] + bucket[j + 1..] == init;
    }
  }

  // ---------- All buckets ----------

  lemma {:induction false} BucketsOkAt(buckets: seq<Bucket>, nbits: nat, n: nat, i: nat)
    requires i < n <= |buckets| && BucketsOk(buckets, nbits, n)
    ensures BucketOk(buckets[i], i, nbits)
  {
    if i < n - 1 {
      BucketsOkAt(buckets, nbits, n - 1, i);
    }
  }

  lemma {:induction false} BucketsOkFrom(buckets: seq<Bucket>, nbits: nat, n: nat)
    requires n <= |buckets| == NBuckets(nbits)
    requires forall i | 0 <= i < n :: BucketOk(buckets[i], i, nbits)
    ensures BucketsOk(buckets, nbits, n)
  {
    if n > 0 {
      BucketsOkFrom(buckets, nbits, n - 1);
    }
  }

  lemma {:induction false} SizeUpdate(buckets: seq<Bucket>, i: nat, bucket: Bucket)
    requires i < |buckets|
    ensures Size(buckets[i := bucket]) == Size(buckets) - |buckets[i]| + |bucket|
  {
    var init := buckets[..|buckets| - 1];
    if i < |init| {
      assert buckets[i := bucket][..|init|] == init[i := bucket];
      SizeUpdate(init, i, bucket);
    } else {
      assert buckets[i := bucket][..|init|] == init;
    }
  }

  /** One bucket is exchanged for another that is in order. */
  lemma SetBucket(buckets: seq<Bucket>, nbits: nat, i: nat, bucket: Bucket)
    requires TableOk(buckets, nbits) && i < |buckets|
    requires BucketOk(bucket, i, nbits)
    ensures TableOk(buckets[i := bucket], nbits)
    ensures Size(buckets[i := bucket]) == Size(buckets) - |buckets[i]| + |bucket|
  {
    var after := buckets[i := bucket];
    forall n | 0 <= n < |after|
      ensures BucketOk(after[n], n, nbits)
    {
      BucketsOkAt(buckets, nbits, |buckets|, n);
    }
    BucketsOkFrom(after, nbits, |after|);
    SizeUpdate(buckets, i, bucket);
  }

  /** Law of a map: what is found is the block at that offset. */
  lemma GetFound(buckets: seq<Bucket>, nbits: nat, off: nat)
    requires TableOk(buckets, nbits)
    ensures Get(buckets, nbits, off).Some? ==>
              var b := Get(buckets, nbits, off).value; b.Valid() && b.off == off && off % DB_DATA_SIZE == 0
  {
    var i := BuckNo(nbits, off);
    BucketsOkAt(buckets, nbits, |buckets|, i);
    if Lookup(buckets[i], off).Some? {
      LookupFound(buckets[i], i, nbits, off);
    }
  }

  /** The table after a block has been appended to the bucket where it hashes. */
  ghost function Added(buckets: seq<Bucket>, nbits: nat, b: Block): seq<Bucket>
    requires |buckets| == NBuckets(nbits)
  {
    var i := BuckNo(nbits, b.off);
    buckets[i := buckets[i] + [b]]
  }

  /** Law of a map: adding. */
  lemma GetAdded(buckets: seq<Bucket>, nbits: nat, b: Block, off: nat)
    requires TableOk(buckets, nbits)
    requires b.Valid() && b.off % DB_DATA_SIZE == 0 && Get(buckets, nbits, b.off).None?
    ensures TableOk(Added(buckets, nbits, b), nbits)
    ensures Size(Added(buckets, nbits, b)) == Size(buckets) + 1
    ensures Get(Added(buckets, nbits, b), nbits, off) == if off == b.off then Some(b) else Get(buckets, nbits, off)
  {
    var i := BuckNo(nbits, b.off);
    BucketsOkAt(buckets, nbits, |buckets|, i);
    BucketOkAppend(buckets[i], b, i, nbits);
    SetBucket(buckets, nbits, i, buckets[i] + [b]);
    LookupAppend(buckets[i], b, off);
  }

  /** Law of a map: replacing the block at an offset. */
  lemma GetReplaced(buckets: seq<Bucket>, nbits: nat, i: nat, j: nat, b: Block, off: nat)
    requires TableOk(buckets, nbits)
    requires i < |buckets| && j < |buckets[i]| && b.Valid() && b.off == buckets[i][j].off
    ensures TableOk(buckets[i := buckets[i][j := b]], nbits)
    ensures Size(buckets[i := buckets[i][j := b]]) == Size(buckets)
    ensures Get(buckets[i := buckets[i][j := b]], nbits, off) ==
            if off == b.off then Some(b) else Get(buckets, nbits, off)
  {
    BucketsOkAt(buckets, nbits, |buckets|, i);
    LookupAt(buckets[i], i, nbits, j);
    LookupFound(buckets[i], i, nbits, b.off);
    ReplaceInBucket(buckets[i], i, nbits, j, b, off);
    SetBucket(buckets, nbits, i, buckets[i][j := b]);
  }

  /** Law of a map: removing. */
  lemma GetRemoved(buckets: seq<Bucket>, nbits: nat, i: nat, j: nat, off: nat)
    requires TableOk(buckets, nbits)
    requires i < |buckets| && j < |buckets[i]|
    ensures TableOk(buckets[i := buckets[i][..j] + buckets[i][j + 1..]], nbits)
    ensures Size(buckets[i := buckets[i][..j] + buckets[i][j + 1..]]) == Size(buckets) - 1
    ensures Get(buckets[i := buckets[i][..j] + buckets[i][j + 1..]], nbits, off) ==
            if off == buckets[i][j].off then None else Get(buckets, nbits, off)
  {
    BucketsOkAt(buckets, nbits, |buckets|, i);
    LookupAt(buckets[i], i, nbits, j);
    LookupFound(buckets[i], i, nbits, buckets[i][j].off);
    RemoveFromBucket(buckets[i], i, nbits, j, off);
    SetBucket(buckets, nbits, i, buckets[i][..j] + buckets[i][j + 1..]);
  }

  // ---------- Doubling ----------

  /** Which half of a split bucket a block goes to. */
  function HalfOf(nbits: nat, off: nat): (idx: nat)
    ensures idx < 2
  {
    Shr(BuckNo(nbits + 1, off), nbits) % 2
  }

  lemma {:induction false} LowBitsSplit(x: nat, n: nat)
    ensures LowBits(x, n + 1) == LowBits(x, n) + if Bit(x, n) then Pow2(n) else 0
  {
    if n > 0 {
      LowBitsSplit(x / 2, n - 1);
    }
  }

  lemma {:induction false} ShrTopDigit(y: nat, n: nat)
    requires y < Pow2(n + 1)
    ensures Shr(y, n) == if y < Pow2(n) then 0 else 1
  {
    if n > 0 {
      ShrTopDigit(y / 2, n - 1);
    }
  }

  /** Doubling the bucket count splits each bucket in two by one more bit. */
  lemma BuckNoSplit(nbits: nat, off: nat)
    ensures BuckNo(nbits + 1, off) ==
            BuckNo(nbits, off) + if HalfOf(nbits, off) == 0 then 0 else NBuckets(nbits)
  {
    LowBitsSplit(off / DB_DATA_SIZE, nbits);
    ShrTopDigit(BuckNo(nbits + 1, off), nbits);
  }

  /** The blocks of `bucket` that go to half `idx`, in order. */
  ghost function Half(bucket: Bucket, nbits: nat, idx: nat): Bucket {
    if bucket == [] then []
    else
      var init, last := bucket[..|bucket| - 1], bucket[|bucket| - 1];
      Half(init, nbits, idx) + if HalfOf(nbits, last.off) == idx then [last] else []
  }

  /** No block is lost or duplicated, and each goes to the one correct half. */
  lemma {:induction false} LookupHalf(bucket: Bucket, nbits: nat, idx: nat, off: nat)
    ensures Lookup(Half(bucket, nbits, idx), off) == if HalfOf(nbits, off) == idx then Lookup(bucket, off) else None
  {
    if bucket != [] {
      var init, last := bucket[..|bucket| - 1], bucket[|bucket| - 1];
      LookupHalf(init, nbits, idx, off);
      LookupAppend(Half(init, nbits, idx), last, off);
      assert Half(init, nbits, idx) + [] == Half(init, nbits, idx);
    }
  }

  lemma {:induction false} HalfSizes(bucket: Bucket, nbits: nat)
    ensures |Half(bucket, nbits, 0)| + |Half(bucket, nbits, 1)| == |bucket|
  {
    if bucket != [] {
      HalfSizes(bucket[..|bucket| - 1], nbits);
    }
  }

  lemma {:induction false} HalfOk(bucket: Bucket, i: nat, nbits: nat, idx: nat, j: nat)
    requires BucketOk(bucket, i, nbits)
    requires idx < 2 && j == if idx == 0 then i else i + NBuckets(nbits)
    ensures BucketOk(Half(bucket, nbits, idx), j, nbits + 1)
  {
    if bucket != [] {
      var init, last := bucket[..|bucket| - 1], bucket[|bucket| - 1];
      HalfOk(init, i, nbits, idx, j);
      BuckNoSplit(nbits, last.off);
      LookupHalf(init, nbits, idx, last.off);
      if HalfOf(nbits, last.off) == idx {
        BucketOkAppend(Half(init, nbits, idx), last, j, nbits + 1);
      } else {
        assert Half(init, nbits, idx) + [] == Half(init, nbits, idx);
      }
    }
  }

  /** The halves of the first `n` buckets. */
  ghost function Halves(buckets: seq<Bucket>, nbits: nat, idx: nat): (h: seq<Bucket>)
    ensures |h| == |buckets|
    ensures forall i | 0 <= i < |h| :: h[i] == Half(buckets[i], nbits, idx)
  {
    if buckets == [] then []
    else Halves(buckets[..|buckets| - 1], nbits, idx) + [Half(buckets[|buckets| - 1], nbits, idx)]
  }

  /** The buckets after doubling: bucket `i` becomes buckets `i` and `i + n`. */
  ghost function Doubled(buckets: seq<Bucket>, nbits: nat): seq<Bucket> {
    Halves(buckets, nbits, 0) + Halves(buckets, nbits, 1)
  }

  lemma {:induction false} SizeConcat(a: seq<Bucket>, b: seq<Bucket>)
    ensures Size(a + b) == Size(a) + Size(b)
  {
    if b == [] {
      assert a + b == a;
    } else {
      assert (a + b)[..|a + b| - 1] == a + b[..|b| - 1];
      SizeConcat(a, b[..|b| - 1]);
    }
  }

  lemma {:induction false} HalvesSize(buckets: seq<Bucket>, nbits: nat)
    ensures Size(Halves(buckets, nbits, 0)) + Size(Halves(buckets, nbits, 1)) == Size(buckets)
  {
    if buckets != [] {
      var init, last := buckets[..|buckets| - 1], buckets[|buckets| - 1];
      HalvesSize(init, nbits);
      HalfSizes(last, nbits);
      SizeConcat(Halves(init, nbits, 0), [Half(last, nbits, 0)]);
      SizeConcat(Halves(init, nbits, 1), [Half(last, nbits, 1)]);
      assert Size([Half(last, nbits, 0)]) == |Half(last, nbits, 0)|;
      assert Size([Half(last, nbits, 1)]) == |Half(last, nbits, 1)|;
    }
  }

  lemma DoubledOk(buckets: seq<Bucket>, nbits: nat)
    requires TableOk(buckets, nbits)
    ensures TableOk(Doubled(buckets, nbits), nbits + 1)
    ensures Size(Doubled(buckets, nbits)) == Size(buckets)
  {
    var wide, n := Doubled(buckets, nbits), |buckets|;
    forall i | 0 <= i < |wide|
      ensures BucketOk(wide[i], i, nbits + 1)
    {
      var from := if i < n then i else i - n;
      BucketsOkAt(buckets, nbits, n, from);
      HalfOk(buckets[from], from, nbits, if i < n then 0 else 1, i);
    }
    BucketsOkFrom(wide, nbits + 1, |wide|);
    SizeConcat(Halves(buckets, nbits, 0), Halves(buckets, nbits, 1));
    HalvesSize(buckets, nbits);
  }

  /** Law of a map: doubling the number of buckets changes nothing. */
  lemma GetDoubled(buckets: seq<Bucket>, nbits: nat, off: nat)
    requires |buckets| == NBuckets(nbits)
    ensures |Doubled(buckets, nbits)| == NBuckets(nbits + 1)
    ensures Get(Doubled(buckets, nbits), nbits + 1, off) == Get(buckets, nbits, off)
  {
    BuckNoSplit(nbits, off);
    LookupHalf(buckets[BuckNo(nbits, off)], nbits, HalfOf(nbits, off), off);
  }

  // ---------- Stored bytes ----------

  /** Offset of the block that holds stream offset `o`. */
  function KeyOf(o: nat): (k: nat)
    ensures k <= o < k + DB_DATA_SIZE && k % DB_DATA_SIZE == 0
  {
    o - o % DB_DATA_SIZE
  }

  lemma KeyUnique(o: nat, k: nat)
    requires k % DB_DATA_SIZE == 0 && k <= o < k + DB_DATA_SIZE
    ensures KeyOf(o) == k
  {
  }

  ghost predicate HasByte(buckets: seq<Bucket>, nbits: nat, o: nat)
    requires |buckets| == NBuckets(nbits)
  {
    var b := Get(buckets, nbits, KeyOf(o));
    b.Some? && b.value.Has(o)
  }

  /** The bytes held by the blocks of a table, by stream offset. */
  ghost function BytesIn(buckets: seq<Bucket>, nbits: nat): Bytes
    requires |buckets| == NBuckets(nbits)
  {
    imap o: nat | HasByte(buckets, nbits, o) :: Get(buckets, nbits, KeyOf(o)).value.ByteAt(o)
  }

  /** Offsets at which a table has a block. */
  ghost function KeysIn(buckets: seq<Bucket>, nbits: nat): iset<nat>
    requires |buckets| == NBuckets(nbits)
  {
    iset k: nat | Get(buckets, nbits, k).Some?
  }

  lemma KeysDoubled(buckets: seq<Bucket>, nbits: nat)
    requires |buckets| == NBuckets(nbits)
    ensures |Doubled(buckets, nbits)| == NBuckets(nbits + 1)
    ensures KeysIn(Doubled(buckets, nbits), nbits + 1) == KeysIn(buckets, nbits)
  {
    GetDoubled(buckets, nbits, 0);
    forall k: nat
      ensures Get(Doubled(buckets, nbits), nbits + 1, k) == Get(buckets, nbits, k)
    {
      GetDoubled(buckets, nbits, k);
    }
  }

  lemma KeysAdded(buckets: seq<Bucket>, nbits: nat, b: Block)
    requires TableOk(buckets, nbits)
    requires b.Valid() && b.off % DB_DATA_SIZE == 0 && Get(buckets, nbits, b.off).None?
    ensures KeysIn(Added(buckets, nbits, b), nbits) == KeysIn(buckets, nbits) + iset{b.off}
  {
  }

  lemma KeysRemoved(buckets: seq<Bucket>, nbits: nat, i: nat, j: nat)
    requires TableOk(buckets, nbits)
    requires i < |buckets| && j < |buckets[i]|
    ensures KeysIn(buckets[i := buckets[i][..j] + buckets[i][j + 1..]], nbits) ==
            KeysIn(buckets, nbits) - iset{buckets[i][j].off}
  {
    var after := buckets[i := buckets[i][..j] + buckets[i][j + 1..]];
    forall k: nat
      ensures Get(after, nbits, k).Some? <==> Get(buckets, nbits, k).Some? && k != buckets[i][j].off
    {
      GetRemoved(buckets, nbits, i, j, k);
    }
  }

  lemma BytesDoubled(buckets: seq<Bucket>, nbits: nat)
    requires |buckets| == NBuckets(nbits)
    ensures |Doubled(buckets, nbits)| == NBuckets(nbits + 1)
    ensures BytesIn(Doubled(buckets, nbits), nbits + 1) == BytesIn(buckets, nbits)
  {
    GetDoubled(buckets, nbits, 0);
    forall o: nat
      ensures Get(Doubled(buckets, nbits), nbits + 1, KeyOf(o)) == Get(buckets, nbits, KeyOf(o))
    {
      GetDoubled(buckets, nbits, KeyOf(o));
    }
  }

  /** Doubling keeps the table in order and changes nothing that it means. */
  lemma DoubledSame(buckets: seq<Bucket>, nbits: nat, wide: seq<Bucket>, wideBits: nat)
    requires TableOk(buckets, nbits)
    requires wide == Doubled(buckets, nbits) && wideBits == nbits + 1
    ensures TableOk(wide, wideBits) && Size(wide) == Size(buckets)
    ensures BytesIn(wide, wideBits) == BytesIn(buckets, nbits)
    ensures KeysIn(wide, wideBits) == KeysIn(buckets, nbits)
  {
    DoubledOk(buckets, nbits);
    BytesDoubled(buckets, nbits);
    KeysDoubled(buckets, nbits);
  }

  lemma BytesAdded(buckets: seq<Bucket>, nbits: nat, k: nat)
    requires TableOk(buckets, nbits)
    requires k % DB_DATA_SIZE == 0 && Get(buckets, nbits, k).None?
    ensures TableOk(Added(buckets, nbits, EmptyBlock(k)), nbits)
    ensures BytesIn(Added(buckets, nbits, EmptyBlock(k)), nbits) == BytesIn(buckets, nbits)
  {
    var b := EmptyBlock(k);
    GetAdded(buckets, nbits, b, 0);
    forall o: nat
      ensures HasByte(Added(buckets, nbits, b), nbits, o) <==> HasByte(buckets, nbits, o)
      ensures HasByte(buckets, nbits, o) ==>
                Get(Added(buckets, nbits, b), nbits, KeyOf(o)) == Get(buckets, nbits, KeyOf(o))
    {
      GetAdded(buckets, nbits, b, KeyOf(o));
    }
  }

  /** Block `b` of the table is exchanged for `c`, the result of writing to it. */
  ghost predicate BlockWritten(buckets: seq<Bucket>, nbits: nat, i: nat, j: nat, b: Block, c: Block, after: seq<Bucket>,
                               at: nat, bytes: seq<byte>)
  {
    && TableOk(buckets, nbits)
    && Get(buckets, nbits, b.off) == Some(b)
    && Writes(b, c, at, bytes)
    && i < |buckets| && j < |buckets[i]| && buckets[i][j] == b
    && after == buckets[i := buckets[i][j := c]]
  }

  lemma GetWritten(buckets: seq<Bucket>, nbits: nat, i: nat, j: nat, b: Block, c: Block, after: seq<Bucket>,
                   at: nat, bytes: seq<byte>, off: nat)
    requires BlockWritten(buckets, nbits, i, j, b, c, after, at, bytes)
    ensures b.Valid() && c.Valid()
    ensures TableOk(after, nbits) && Size(after) == Size(buckets)
    ensures Get(after, nbits, off) == if off == c.off then Some(c) else Get(buckets, nbits, off)
  {
    GetFound(buckets, nbits, b.off);
    WroteAt(b, c, at, bytes, b.off);
    GetReplaced(buckets, nbits, i, j, c, off);
  }

  lemma ByteWritten(buckets: seq<Bucket>, nbits: nat, i: nat, j: nat, b: Block, c: Block, after: seq<Bucket>,
                    at: nat, bytes: seq<byte>, start: nat, o: nat)
    requires BlockWritten(buckets, nbits, i, j, b, c, after, at, bytes)
    requires start == b.off + at
    ensures TableOk(after, nbits)
    ensures HasByte(after, nbits, o) <==> HasByte(buckets, nbits, o) || start <= o < start + |bytes|
    ensures HasByte(after, nbits, o) ==>
              Get(after, nbits, KeyOf(o)).value.ByteAt(o) ==
              if start <= o < start + |bytes| then bytes[o - start]
              else Get(buckets, nbits, KeyOf(o)).value.ByteAt(o)
  {
    GetWritten(buckets, nbits, i, j, b, c, after, at, bytes, KeyOf(o));
    GetFound(buckets, nbits, b.off);
    if b.off <= o < b.off + DB_DATA_SIZE {
      KeyUnique(o, b.off);
      WroteAt(b, c, at, bytes, o);
    }
  }

  /** Writing to one block writes to the stream, and to nothing else. */
  lemma BytesWritten(buckets: seq<Bucket>, nbits: nat, i: nat, j: nat, b: Block, c: Block, after: seq<Bucket>,
                     at: nat, bytes: seq<byte>, start: nat)
    requires BlockWritten(buckets, nbits, i, j, b, c, after, at, bytes)
    requires start == b.off + at
    ensures TableOk(after, nbits)
    ensures BytesIn(after, nbits) == Overlay(BytesIn(buckets, nbits), start, bytes)
  {
    GetWritten(buckets, nbits, i, j, b, c, after, at, bytes, 0);
    forall o: nat
      ensures HasByte(after, nbits, o) <==> HasByte(buckets, nbits, o) || start <= o < start + |bytes|
      ensures HasByte(after, nbits, o) ==>
                Get(after, nbits, KeyOf(o)).value.ByteAt(o) ==
                if start <= o < start + |bytes| then bytes[o - start]
                else Get(buckets, nbits, KeyOf(o)).value.ByteAt(o)
    {
      ByteWritten(buckets, nbits, i, j, b, c, after, at, bytes, start, o);
    }
  }

  lemma KeysWritten(buckets: seq<Bucket>, nbits: nat, i: nat, j: nat, b: Block, c: Block, after: seq<Bucket>,
                    at: nat, bytes: seq<byte>)
    requires BlockWritten(buckets, nbits, i, j, b, c, after, at, bytes)
    ensures TableOk(after, nbits) && Size(after) == Size(buckets)
    ensures KeysIn(after, nbits) == KeysIn(buckets, nbits)
  {
    GetWritten(buckets, nbits, i, j, b, c, after, at, bytes, 0);
    forall k: nat
      ensures Get(after, nbits, k).Some? <==> Get(buckets, nbits, k).Some?
    {
      GetWritten(buckets, nbits, i, j, b, c, after, at, bytes, k);
    }
  }

  /** `m` without the bytes of the block at `k`. */
  ghost function WithoutBlock(m: Bytes, k: nat): Bytes {
    imap o: nat | o in m && !(k <= o < k + DB_DATA_SIZE) :: m[o]
  }

  lemma BytesRemoved(buckets: seq<Bucket>, nbits: nat, i: nat, j: nat)
    requires TableOk(buckets, nbits)
    requires i < |buckets| && j < |buckets[i]|
    ensures var after := buckets[i := buckets[i][..j] + buckets[i][j + 1..]];
            && TableOk(after, nbits)
            && BytesIn(after, nbits) == WithoutBlock(BytesIn(buckets, nbits), buckets[i][j].off)
  {
    var b := buckets[i][j];
    var after := buckets[i := buckets[i][..j] + buckets[i][j + 1..]];
    BucketsOkAt(buckets, nbits, |buckets|, i);
    LookupAt(buckets[i], i, nbits, j);
    LookupFound(buckets[i], i, nbits, b.off);
    GetRemoved(buckets, nbits, i, j, 0);
    forall o: nat
      ensures HasByte(after, nbits, o) <==> HasByte(buckets, nbits, o) && !(b.off <= o < b.off + DB_DATA_SIZE)
      ensures HasByte(after, nbits, o) ==> Get(after, nbits, KeyOf(o)) == Get(buckets, nbits, KeyOf(o))
    {
      GetRemoved(buckets, nbits, i, j, KeyOf(o));
      if b.off <= o < b.off + DB_DATA_SIZE {
        KeyUnique(o, b.off);
      }
    }
  }

  // ---------- The empty table ----------

  ghost function NoBuckets(n: nat): (bs: seq<Bucket>)
    ensures |bs| == n && forall i | 0 <= i < n :: bs[i] == []
  {
    if n == 0 then [] else NoBuckets(n - 1) + [[]]
  }

  lemma {:induction false} NoBucketsSize(n: nat)
    ensures Size(NoBuckets(n)) == 0
  {
    if n > 0 {
      NoBucketsSize(n - 1);
    }
  }

  lemma EmptyTable(buckets: seq<Bucket>, nbits: nat)
    requires |buckets| == NBuckets(nbits) && forall i | 0 <= i < |buckets| :: buckets[i] == []
    ensures TableOk(buckets, nbits) && Size(buckets) == 0
    ensures BytesIn(buckets, nbits) == imap[]
    ensures KeysIn(buckets, nbits) == iset{}
  {
    BucketsOkFrom(buckets, nbits, |buckets|);
    assert buckets == NoBuckets(|buckets|);
    NoBucketsSize(|buckets|);
    forall k: nat
      ensures Get(buckets, nbits, k).None?
    {
    }
  }

  /** A table without blocks holds no byte. */
  lemma {:induction false} SizeZero(buckets: seq<Bucket>, i: nat)
    requires Size(buckets) == 0 && i < |buckets|
    ensures buckets[i] == []
  {
    var init := buckets[..|buckets| - 1];
    if i < |init| {
      assert init[i] == buckets[i];
      SizeZero(init, i);
    }
  }

  // ---------- The table is finite ----------

  ghost function BucketBound(bucket: Bucket): nat {
    if bucket == [] then 0
    else
      var rest, last := BucketBound(bucket[..|bucket| - 1]), bucket[|bucket| - 1].off + DB_DATA_SIZE;
      if rest < last then last else rest
  }

  /** No block reaches beyond this offset. */
  ghost function Bound(buckets: seq<Bucket>): nat {
    if buckets == [] then 0
    else
      var rest, last := Bound(buckets[..|buckets| - 1]), BucketBound(buckets[|buckets| - 1]);
      if rest < last then last else rest
  }

  lemma {:induction false} LookupBelowBound(bucket: Bucket, off: nat)
    requires Lookup(bucket, off).Some?
    ensures off + DB_DATA_SIZE <= BucketBound(bucket)
  {
    if Lookup(bucket[..|bucket| - 1], off).Some? {
      LookupBelowBound(bucket[..|bucket| - 1], off);
    }
  }

  lemma {:induction false} BucketBelowBound(buckets: seq<Bucket>, i: nat)
    requires i < |buckets|
    ensures BucketBound(buckets[i]) <= Bound(buckets)
  {
    var init := buckets[..|buckets| - 1];
    if i < |init| {
      assert init[i] == buckets[i];
      BucketBelowBound(init, i);
    }
  }

  lemma StoredBelowBound(buckets: seq<Bucket>, nbits: nat, o: nat)
    requires TableOk(buckets, nbits) && o in BytesIn(buckets, nbits)
    ensures o < Bound(buckets)
  {
    LookupBelowBound(buckets[BuckNo(nbits, KeyOf(o))], KeyOf(o));
    BucketBelowBound(buckets, BuckNo(nbits, KeyOf(o)));
  }

  /** The block of a stored byte is in the table. */
  lemma StoredInBlock(buckets: seq<Bucket>, nbits: nat, o: nat)
    requires |buckets| == NBuckets(nbits) && o in BytesIn(buckets, nbits)
    ensures KeyOf(o) in KeysIn(buckets, nbits)
  {
  }

  /** A table without blocks has no offset. */
  lemma NoBlocksNoKeys(buckets: seq<Bucket>, nbits: nat)
    requires TableOk(buckets, nbits) && Size(buckets) == 0
    ensures KeysIn(buckets, nbits) == iset{}
    ensures BytesIn(buckets, nbits) == imap[]
  {
    forall k: nat
      ensures Get(buckets, nbits, k).None?
    {
      SizeZero(buckets, BuckNo(nbits, k));
    }
  }
}
