/** The copying buffer: incoming bytes live in blocks kept in a hash. */
module DataInHash {
  import opened Wrappers
  import opened WordBits
  import opened StreamBytes
  import opened DataBlocks
  import opened BlockTables

  /** A memory allocation, which may fail at any time unless there is plenty of memory. */
  method TryAllocate(plenty: bool) returns (ok: bool)
    ensures plenty ==> ok
  {
    ok := *;
    ok := ok || plenty;
  }

  /** How many of `size` bytes at `off` go to the block of `off`. */
  function BlockShare(off: nat, size: nat): nat {
    var room := DB_DATA_SIZE - off % DB_DATA_SIZE;
    if size > room then room else size
  }

  /** The block that a write of `size` bytes at `start` visits last. */
  function LastKey(start: nat, size: nat): nat {
    if size == 0 then KeyOf(start) else KeyOf(start + size - 1)
  }

  /** The block offset after that. */
  function NextKey(start: nat, size: nat): nat {
    LastKey(start, size) + DB_DATA_SIZE
  }

  /** After a block has had its share, either nothing is left or the next block is due. */
  lemma SpanStep(off: nat, size: nat, n: nat, off': nat, size': nat, next: nat)
    requires n == BlockShare(off, size) && off' == off + n && size' == size - n
    requires next == KeyOf(off) + DB_DATA_SIZE
    ensures next % DB_DATA_SIZE == 0
    ensures size' == 0 ==> NextKey(off, size) == next
    ensures size' > 0 ==> n > 0 && KeyOf(off') == next && NextKey(off', size') == NextKey(off, size)
  {
  }

  lemma LastKeyWritten(start: nat, size: nat, end: nat, next: nat)
    requires end == start + size && next == NextKey(start, size)
    ensures DB_DATA_SIZE <= next && next - DB_DATA_SIZE <= end <= next
    ensures next - DB_DATA_SIZE in KeyRange(KeyOf(start), next)
  {
  }

  /** Block offsets in [lo, hi). */
  ghost function KeyRange(lo: nat, hi: nat): iset<nat> {
    iset k: nat | lo <= k < hi && k % DB_DATA_SIZE == 0
  }

  lemma KeyRangeNone(keys: iset<nat>, k: nat)
    ensures keys + KeyRange(k, k) == keys
  {
  }

  lemma KeyRangeNext(keys: iset<nat>, lo: nat, k: nat, next: nat)
    requires lo <= k && k % DB_DATA_SIZE == 0 && next == k + DB_DATA_SIZE
    ensures keys + KeyRange(lo, k) + iset{k} == keys + KeyRange(lo, next)
  {
  }

  /** A new block starts before the end of the `size` bytes that were written, or there if they were none. */
  ghost predicate KeysGrown(keys: iset<nat>, keys': iset<nat>, size: nat, end: nat) {
    forall k | k in keys' :: k in keys || k < end || (k == end && size == 0)
  }

  lemma KeysGrownTo(keys: iset<nat>, lo: nat, hi: nat, keys': iset<nat>, size: nat, end: nat)
    requires keys' == keys + KeyRange(lo, hi) && hi <= end
    ensures KeysGrown(keys, keys', size, end)
  {
  }

  lemma KeysGrownBy(keys: iset<nat>, keys': iset<nat>, start: nat, size: nat, next: nat, end: nat)
    requires next == NextKey(start, size) && end == start + size
    requires keys' == keys + KeyRange(KeyOf(start), next)
    ensures KeysGrown(keys, keys', size, end)
  {
    var last := LastKey(start, size);
    forall k | k in keys' && k !in keys
      ensures k < end || (k == end && size == 0)
    {
      KeysApart(k, last, next);
    }
  }

  lemma KeysApart(k: nat, last: nat, next: nat)
    requires k % DB_DATA_SIZE == 0 && last % DB_DATA_SIZE == 0 && next == last + DB_DATA_SIZE && k < next
    ensures k <= last
  {
  }

  /** How many bytes of a frame are at or after the read offset. */
  function Fresh(frame: DataFrame, readOffset: nat): nat {
    if readOffset <= frame.End() then |TailFrom(frame, readOffset)| else 0
  }

  /**
   What an insertion takes as a sign of bytes past the final size `end`: a byte
   in the rest of the last block, or a block at `next`, even one without bytes.
   */
  ghost predicate BytesPast(m: Bytes, keys: iset<nat>, end: nat, next: nat) {
    next in keys || AnyByte(m, end, next)
  }

  ghost predicate AnyByte(m: Bytes, from: nat, to: nat) {
    exists o :: o in m && from <= o < to
  }

  /** A byte is stored when the block of its offset marks it. */
  lemma ByteInBlock(bs: seq<Bucket>, nb: nat, block: Block, o: nat, p: nat)
    requires TableOk(bs, nb) && Get(bs, nb, block.off) == Some(block) && block.Valid()
    requires block.off % DB_DATA_SIZE == 0 && p < DB_DATA_SIZE && o == block.off + p
    ensures o in BytesIn(bs, nb) <==> Marked(block.valid, p)
    ensures o in BytesIn(bs, nb) ==> BytesIn(bs, nb)[o] == block.data[p]
  {
    KeyUnique(o, block.off);
    assert o in BytesIn(bs, nb) <==> HasByte(bs, nb, o);
  }

  lemma HasBytesPast(bs: seq<Bucket>, nb: nat, block: Block, p: nat, end: nat, next: nat)
    requires TableOk(bs, nb) && Get(bs, nb, block.off) == Some(block) && block.Valid()
    requires block.off % DB_DATA_SIZE == 0 && next == block.off + DB_DATA_SIZE && end == block.off + p
    ensures block.HasFrom(p) <==> AnyByte(BytesIn(bs, nb), end, next)
  {
    if q: nat :| p <= q < DB_DATA_SIZE && Marked(block.valid, q) {
      ByteInBlock(bs, nb, block, block.off + q, q);
    }
    if o :| o in BytesIn(bs, nb) && end <= o < next {
      ByteInBlock(bs, nb, block, o, o - block.off);
    }
  }

  /** The bytes of a run end at a gap or at the end of a block. */
  ghost predicate RunEnds(m: Bytes, from: nat, bytes: seq<byte>) {
    var end := from + |bytes|;
    end !in m || end % DB_DATA_SIZE == 0
  }

  lemma BlockEndAligned(k: nat, end: nat)
    requires k % DB_DATA_SIZE == 0 && end == k + DB_DATA_SIZE
    ensures end % DB_DATA_SIZE == 0
  {
  }

  /** A maximal run of bits in a block is a run of stored bytes. */
  lemma RunIsStored(bs: seq<Bucket>, nb: nat, block: Block, p: nat, n: nat, o: nat, run: seq<byte>)
    requires TableOk(bs, nb) && Get(bs, nb, block.off) == Some(block) && block.Valid()
    requires block.off % DB_DATA_SIZE == 0 && o == block.off + p
    requires p + n <= DB_DATA_SIZE && RunOf(block.valid, p, n)
    requires run == block.data[p..p + n]
    ensures StoredRun(BytesIn(bs, nb), o, run)
  {
    forall x: nat
      ensures StoredByte(BytesIn(bs, nb), o, run, x)
    {
      if o <= x < o + |run| {
        var q := x - block.off;
        assert Marked(block.valid, q) && run[x - o] == block.data[q];
        ByteInBlock(bs, nb, block, x, q);
      }
    }
  }

  lemma RunEndsThere(bs: seq<Bucket>, nb: nat, block: Block, p: nat, o: nat, run: seq<byte>)
    requires TableOk(bs, nb) && Get(bs, nb, block.off) == Some(block) && block.Valid()
    requires block.off % DB_DATA_SIZE == 0 && o + |run| == block.off + p
    requires p <= DB_DATA_SIZE && !Marked(block.valid, p)
    ensures RunEnds(BytesIn(bs, nb), o, run)
  {
    var end := o + |run|;
    if p < DB_DATA_SIZE {
      ByteInBlock(bs, nb, block, end, p);
    } else {
      BlockEndAligned(block.off, end);
    }
  }

  /**
   What a frame handed out at `readOffset` says about a buffer with bytes `m`.
   The FIN flag of a frame with bytes is the test that the code makes.
   */
  ghost predicate FrameAt(m: Bytes, finSet: bool, finOff: nat, readOffset: nat, v: FrameView) {
    && v.offset == KeyOf(readOffset)
    && v.size == v.readOff + |v.unread| <= DB_DATA_SIZE
    && StoredRun(m, readOffset, v.unread)
    && if readOffset in m then
         && v.unread != [] && RunEnds(m, readOffset, v.unread)
         && v.fin == (finSet && v.readOff + v.size == finOff)
       else
         v.unread == [] && v.fin && finSet && readOffset == finOff
  }

  /** The valid bytes of `block` from position `offset` on, if there is one at all. */
  method ReadRun(bs: seq<Bucket>, nb: nat, block: Block, offset: nat, o: nat) returns (marked: bool, run: seq<byte>)
    requires TableOk(bs, nb) && Get(bs, nb, block.off) == Some(block)
    requires block.off == KeyOf(o) && offset == o - block.off
    ensures marked <==> o in BytesIn(bs, nb)
    ensures marked ==> run != [] && offset + |run| <= DB_DATA_SIZE
    ensures marked ==> StoredRun(BytesIn(bs, nb), o, run) && RunEnds(BytesIn(bs, nb), o, run)
  {
    GetFound(bs, nb, block.off);
    var word, bit := offset / 64, offset % 64;
    TestBit(block.valid[word], bit);
    ByteInBlock(bs, nb, block, o, offset);
    marked, run := And(block.valid[word], One(bit)) != 0, [];
    if marked {
      var n := NAvailBytes(block, word, bit);
      var size := offset + n;
      run := block.data[offset..size];
      RunIsStored(bs, nb, block, offset, n, o, run);
      RunEndsThere(bs, nb, block, size, o, run);
    }
  }

  /** Dropping a block without bytes from `pos` on loses nothing from `pos` on. */
  lemma FromWithoutBlock(m: Bytes, k: nat, pos: nat)
    requires k <= pos <= k + DB_DATA_SIZE
    requires !AnyByte(m, pos, k + DB_DATA_SIZE)
    ensures From(WithoutBlock(m, k), pos) == From(m, pos)
  {
  }

  /** Number of binary digits (my_log2). */
  function Digits(n: nat): nat {
    if n == 0 then 0 else 1 + Digits(n / 2)
  }

  lemma {:induction false} DigitsBound(n: nat)
    ensures n < Pow2(Digits(n))
  {
    if n > 0 {
      DigitsBound(n / 2);
    }
  }

  class HashDataIn {
    var finSet: bool
    var finOff: nat
    var buckets: seq<Bucket>
    var nbits: nat
    var count: nat
    /** Offset of the block of the most recent frame handed out. */
    var lastBlock: Option<nat>
    var switchImpl: bool

    ghost predicate Valid()
      reads this
    {
      TableOk(buckets, nbits) && count == Size(buckets)
    }

    /** The bytes held, by stream offset: the abstract value of this buffer. */
    ghost function Stored(): Bytes
      reads this
      requires Valid()
    {
      BytesIn(buckets, nbits)
    }

    ghost function Keys(): iset<nat>
      reads this
      requires Valid()
    {
      KeysIn(buckets, nbits)
    }

    /** An empty buffer, with buckets to spare for `byteage` bytes. */
    constructor (byteage: nat)
      ensures Valid() && Stored() == imap[] && Keys() == iset{}
      ensures !finSet && lastBlock == None && !switchImpl
      ensures byteage / DB_DATA_SIZE < NBuckets(nbits) / 4
    {
      finSet, finOff, lastBlock, switchImpl, count := false, 0, None, false, 0;
      var n := if byteage >= DB_DATA_SIZE then Digits(byteage / DB_DATA_SIZE) + 2 else 3;
      nbits := n;
      buckets := seq(NBuckets(n), _ => []);
      new;
      EmptyTable(buckets, nbits);
      DigitsBound(byteage / DB_DATA_SIZE);
      assert Pow2(nbits) == 4 * Pow2(nbits - 2);
    }

    // ---------- The bucket table ----------

    /** Installs a table that is in order. */
    method SetTable(newBuckets: seq<Bucket>, newNbits: nat, newCount: nat)
      requires TableOk(newBuckets, newNbits)
      requires newCount == Size(newBuckets)
      modifies `buckets, `nbits, `count
      ensures buckets == newBuckets && nbits == newNbits && count == newCount
      ensures Valid()
      ensures Stored() == BytesIn(newBuckets, newNbits) && Keys() == KeysIn(newBuckets, newNbits)
    {
      buckets, nbits, count := newBuckets, newNbits, newCount;
    }

    /** Doubles the number of buckets. */
    method Grow(plenty: bool) returns (ok: bool)
      requires Valid()
      modifies `buckets, `nbits, `count
      ensures Valid()
      ensures plenty ==> ok
      ensures ok ==> nbits == old(nbits) + 1 && buckets == Doubled(old(buckets), old(nbits))
      ensures !ok ==> buckets == old(buckets) && nbits == old(nbits)
      ensures Stored() == old(Stored()) && Keys() == old(Keys()) && count == old(count)
    {
      var memory := TryAllocate(plenty);
      if !memory {
        return false;
      }
      var bs, nb, wideBits := buckets, nbits, nbits + 1;
      var wide := SplitAll();
      DoubledSame(bs, nb, wide, wideBits);
      SetTable(wide, wideBits, count);
      ok := true;
    }

    method SplitAll() returns (newBuckets: seq<Bucket>)
      requires |buckets| == NBuckets(nbits)
      ensures newBuckets == Doubled(buckets, nbits)
    {
      var lower: seq<Bucket>, upper: seq<Bucket> := [], [];
      var n := 0;
      while n < NBuckets(nbits)
        invariant n == |lower| == |upper| <= |buckets|
        invariant lower == Halves(buckets[..n], nbits, 0)
        invariant upper == Halves(buckets[..n], nbits, 1)
      {
        var zero, one := SplitBucket(buckets[n]);
        assert buckets[..n + 1][..n] == buckets[..n];
        lower, upper := lower + [zero], upper + [one];
        n := n + 1;
      }
      assert buckets[..n] == buckets;
      newBuckets := lower + upper;
    }

    /** Deals the blocks of one bucket out to its two successors. */
    method SplitBucket(bucket: Bucket) returns (zero: Bucket, one: Bucket)
      ensures zero == Half(bucket, nbits, 0) && one == Half(bucket, nbits, 1)
    {
      zero, one := [], [];
      var j := 0;
      while j < |bucket|
        invariant j <= |bucket|
        invariant zero == Half(bucket[..j], nbits, 0) && one == Half(bucket[..j], nbits, 1)
      {
        assert bucket[..j + 1][..j] == bucket[..j];
        if HalfOf(nbits, bucket[j].off) == 0 {
          zero := zero + [bucket[j]];
        } else {
          one := one + [bucket[j]];
        }
        j := j + 1;
      }
      assert bucket[..|bucket|] == bucket;
    }

    /** Adds a block with no valid byte where there is none, first growing a full table. */
    method Insert(off: nat, plenty: bool) returns (ok: bool)
      requires Valid()
      requires off % DB_DATA_SIZE == 0 && off !in Keys()
      modifies `buckets, `nbits, `count
      ensures Valid()
      ensures plenty ==> ok
      ensures Stored() == old(Stored())
      ensures Keys() == if ok then old(Keys()) + iset{off} else old(Keys())
      ensures ok && 2 * old(count) <= NBuckets(old(nbits)) && old(nbits) > 0 ==> 2 * count <= NBuckets(nbits)
    {
      if count >= NBuckets(nbits) / 2 {
        var grown := Grow(plenty);
        if !grown {
          return false;
        }
      }
      Append(EmptyBlock(off));
      ok := true;
    }

    method Append(block: Block)
      requires Valid()
      requires block == EmptyBlock(block.off) && block.off % DB_DATA_SIZE == 0 && block.off !in Keys()
      modifies `buckets, `nbits, `count
      ensures Valid()
      ensures Stored() == old(Stored()) && Keys() == old(Keys()) + iset{block.off}
      ensures count == old(count) + 1 && nbits == old(nbits)
    {
      var i := BuckNo(nbits, block.off);
      GetAdded(buckets, nbits, block, 0);
      BytesAdded(buckets, nbits, block.off);
      KeysAdded(buckets, nbits, block);
      SetTable(buckets[i := buckets[i] + [block]], nbits, count + 1);
    }

    /** Position in its bucket of the block at `off`, or -1. */
    method Find(off: nat) returns (j: int)
      requires Valid()
      ensures j == -1 <==> off !in Keys()
      ensures j != -1 ==>
                && 0 <= j < |buckets[BuckNo(nbits, off)]|
                && buckets[BuckNo(nbits, off)][j].off == off
                && Get(buckets, nbits, off) == Some(buckets[BuckNo(nbits, off)][j])
    {
      var bucket := buckets[BuckNo(nbits, off)];
      BucketsOkAt(buckets, nbits, |buckets|, BuckNo(nbits, off));
      j := 0;
      while j < |bucket|
        invariant 0 <= j <= |bucket|
        invariant Lookup(bucket[..j], off).None?
      {
        if bucket[j].off == off {
          LookupAt(bucket, BuckNo(nbits, off), nbits, j);
          return;
        }
        assert bucket[..j + 1][..j] == bucket[..j];
        j := j + 1;
      }
      assert bucket[..j] == bucket;
      j := -1;
    }

    method Remove(off: nat)
      requires Valid()
      requires off in Keys()
      modifies `buckets, `nbits, `count
      ensures Valid() && count == old(count) - 1
      ensures Stored() == WithoutBlock(old(Stored()), off)
      ensures Keys() == old(Keys()) - iset{off}
    {
      var i := BuckNo(nbits, off);
      var j := Find(off);
      BytesRemoved(buckets, nbits, i, j);
      KeysRemoved(buckets, nbits, i, j);
      GetRemoved(buckets, nbits, i, j, 0);
      SetTable(buckets[i := buckets[i][..j] + buckets[i][j + 1..]], nbits, count - 1);
    }

    // ---------- Stored bytes ----------

    /** Makes sure that there is a block at `key`; a new one has no valid byte. */
    method FindOrAdd(key: nat, plenty: bool) returns (ok: bool)
      requires Valid()
      requires key % DB_DATA_SIZE == 0
      modifies `buckets, `nbits, `count
      ensures Valid()
      ensures plenty ==> ok
      ensures Stored() == old(Stored())
      ensures Keys() == if ok then old(Keys()) + iset{key} else old(Keys())
    {
      var j := Find(key);
      if j != -1 {
        assert old(Keys()) + iset{key} == old(Keys());
        return true;
      }
      var memory := TryAllocate(plenty);
      if !memory {
        return false;
      }
      ok := Insert(key, plenty);
    }

    /** Writes to the block at `key` and to no other. */
    method WriteTo(key: nat, blockOff: nat, start: nat, bytes: seq<byte>) returns (n: nat)
      requires Valid()
      requires key in Keys()
      requires blockOff < DB_DATA_SIZE && start == key + blockOff
      modifies `buckets, `nbits, `count
      ensures Valid()
      ensures n == if |bytes| > DB_DATA_SIZE - blockOff then DB_DATA_SIZE - blockOff else |bytes|
      ensures Stored() == Overlay(old(Stored()), start, bytes[..n])
      ensures Keys() == old(Keys())
    {
      var bs, nb, i := buckets, nbits, BuckNo(nbits, key);
      var j := Find(key);
      var block := bs[i][j];
      GetFound(bs, nb, key);
      var after;
      after, n := BlockWrite(block, blockOff, bytes);
      var bs' := bs[i := bs[i][j := after]];
      ghost var written := bytes[..n];
      BytesWritten(bs, nb, i, j, block, after, bs', blockOff, written, start);
      KeysWritten(bs, nb, i, j, block, after, bs', blockOff, written);
      SetTable(bs', nb, count);
    }

    /** Writes the part of `bytes` that belongs to the block of `off`. */
    method WriteBlock(off: nat, bytes: seq<byte>, plenty: bool) returns (ok: bool, n: nat)
      requires Valid()
      modifies `buckets, `nbits, `count
      ensures Valid()
      ensures plenty ==> ok
      ensures ok ==> n == BlockShare(off, |bytes|)
      ensures ok ==> Stored() == Overlay(old(Stored()), off, bytes[..n])
      ensures ok ==> Keys() == old(Keys()) + iset{KeyOf(off)}
      ensures !ok ==> Stored() == old(Stored()) && Keys() == old(Keys())
    {
      var key := KeyOf(off);
      ok := FindOrAdd(key, plenty);
      if !ok {
        return false, 0;
      }
      n := WriteTo(key, off % DB_DATA_SIZE, off, bytes);
    }

    /**
     Writes `bytes` at `start`, block by block.  At least one block is visited,
     even for no bytes.  On success `next` is the offset after the last block.
     */
    method WriteSpan(start: nat, bytes: seq<byte>, plenty: bool)
      returns (ok: bool, next: nat, ghost written: seq<byte>)
      requires Valid()
      modifies `buckets, `nbits, `count
      ensures Valid()
      ensures plenty ==> ok
      ensures written <= bytes && Stored() == Overlay(old(Stored()), start, written)
      ensures ok ==> written == bytes
      ensures ok ==> next == NextKey(start, |bytes|)
      ensures ok ==> Keys() == old(Keys()) + KeyRange(KeyOf(start), next)
      ensures !ok ==> KeysGrown(old(Keys()), Keys(), |bytes|, start + |bytes|)
    {
      ghost var m, keys, first, goal := Stored(), Keys(), KeyOf(start), NextKey(start, |bytes|);
      written := [];
      OverlayNothing(m, start);
      KeyRangeNone(keys, first);
      var off, rest := start, bytes;
      next := KeyOf(start);
      var more := true;
      while more
        invariant Valid()
        invariant written + rest == bytes && off == start + |written|
        invariant Stored() == Overlay(m, start, written)
        invariant Keys() == keys + KeyRange(first, next)
        invariant first <= next && next % DB_DATA_SIZE == 0
        invariant goal == if more then NextKey(off, |rest|) else next
        invariant more ==> KeyOf(off) == next
        invariant !more ==> rest == []
        decreases more, |rest|
      {
        var n;
        ok, n := WriteBlock(off, rest, plenty);
        if !ok {
          KeysGrownTo(keys, first, next, Keys(), |bytes|, start + |bytes|);
          return false, 0, written;
        }
        ghost var part, key, size := rest[..n], next, |rest|;
        var rest', off' := rest[n..], off + n;
        var size' := |rest'|;
        MoveFirst(written, rest, n, part, rest', bytes);
        OverlayAppend(m, start, written, part, off);
        next := next + DB_DATA_SIZE;
        KeyRangeNext(keys, first, key, next);
        SpanStep(off, size, n, off', size', next);
        written := written + part;
        more := size' > 0;
        rest, off := rest', off';
      }
      assert written == bytes;
      ok := true;
    }

    // ---------- The buffer interface ----------

    /** A frame that the buffer refuses without looking at its bytes. */
    ghost predicate Refused(frame: DataFrame, readOffset: nat)
      reads this
    {
      || frame.End() < readOffset
      || (finSet && ((frame.fin && frame.End() != finOff) || frame.End() > finOff))
    }

    /**
     Stores the part of `frame` at or after the read offset.  `oom` says whether
     an allocation failed; then only the bytes `written` have been stored.
     */
    method InsertDataFrame(frame: DataFrame, readOffset: nat, plenty: bool)
      returns (ins: InsFrame, oom: bool, ghost written: seq<byte>)
      requires Valid()
      modifies `buckets, `nbits, `count, `finSet, `finOff
      ensures Valid()
      ensures plenty ==> !oom
      ensures old(Refused(frame, readOffset)) ==>
                && !oom && Stored() == old(Stored()) && Keys() == old(Keys())
                && ins == if frame.End() < readOffset && !frame.fin then InsDup else InsErr
      ensures !old(Refused(frame, readOffset)) ==>
                && written <= TailFrom(frame, readOffset)
                && Stored() == Overlay(old(Stored()), StartFrom(frame, readOffset), written)
      ensures oom ==> ins == InsErr && !old(Refused(frame, readOffset))
      ensures !oom && !old(Refused(frame, readOffset)) ==>
                var start, tail := StartFrom(frame, readOffset), TailFrom(frame, readOffset);
                var next := NextKey(start, |tail|);
                && written == tail
                && Keys() == old(Keys()) + KeyRange(KeyOf(start), next)
                && ins == if frame.fin && BytesPast(Stored(), Keys(), frame.End(), next) then InsErr else InsOk
      ensures KeysGrown(old(Keys()), Keys(), Fresh(frame, readOffset), frame.End())
      ensures if ins == InsOk && frame.fin then finSet && finOff == frame.End()
              else finSet == old(finSet) && finOff == old(finOff)
    {
      ins, oom, written := InsErr, false, [];
      var end := frame.End();
      if end < readOffset {
        ins := if frame.fin then InsErr else InsDup;
        return;
      }
      if finSet && ((frame.fin && end != finOff) || end > finOff) {
        return;
      }
      var start, tail := StartFrom(frame, readOffset), TailFrom(frame, readOffset);
      var ok, next;
      ok, next, written := WriteSpan(start, tail, plenty);
      if !ok {
        oom := true;
        return;
      }
      KeysGrownBy(old(Keys()), Keys(), start, |tail|, next, end);
      ins := InsOk;
      if frame.fin {
        LastKeyWritten(start, |tail|, end, next);
        var past := PastFin(end, next);
        if past {
          ins := InsErr;
          return;
        }
        finSet, finOff := true, end;
      }
    }

    /** Looks for bytes past `end` in the block before `next`, and for a block at `next`. */
    method PastFin(end: nat, next: nat) returns (past: bool)
      requires Valid()
      requires DB_DATA_SIZE <= next && next - DB_DATA_SIZE in Keys()
      requires next - DB_DATA_SIZE <= end <= next
      ensures past <==> BytesPast(Stored(), Keys(), end, next)
    {
      var bs, nb, key := buckets, nbits, next - DB_DATA_SIZE;
      var j := Find(key);
      var block := bs[BuckNo(nb, key)][j];
      GetFound(bs, nb, key);
      var p := end - key;
      HasBytesPast(bs, nb, block, p, end, next);
      var has := HasBytesAfter(block, p);
      var k := Find(next);
      past := has || k != -1;
    }

    /** Where the frame is to be found again when the reader is done with it. */
    ghost predicate FrameFrom(readOffset: nat, v: FrameView)
      reads this
      requires Valid()
    {
      if v.offset in Keys() then lastBlock == Some(v.offset) && v.readOff == readOffset - v.offset
      else lastBlock == None && v.readOff == 0
    }

    /**
     The frame at the read offset: the valid bytes from there to the first gap or
     to the end of the block, or a frame without bytes at the final size.
     */
    method GetFrame(readOffset: nat) returns (view: Option<FrameView>)
      requires Valid()
      modifies `lastBlock
      ensures Valid()
      ensures view.Some? <==> readOffset in Stored() || (finSet && readOffset == finOff)
      ensures view.Some? ==> FrameAt(Stored(), finSet, finOff, readOffset, view.value) && FrameFrom(readOffset, view.value)
      ensures finSet && readOffset == finOff && readOffset !in Stored() ==>
                view.Some? && view.value.fin && view.value.unread == []
      ensures view.None? ==> lastBlock == old(lastBlock)
    {
      var bs, nb, key := buckets, nbits, KeyOf(readOffset);
      var j := Find(key);
      if j == -1 {
        assert readOffset !in Stored();
        if finSet && readOffset == finOff {
          lastBlock := None;
          return Some(FrameView(key, 0, 0, [], true));
        }
        return None;
      }
      view := SetupDataFrame(readOffset, key, bs[BuckNo(nb, key)][j]);
    }

    /** A block is readable when it has a byte at the read offset or FIN is there. */
    method SetupDataFrame(readOffset: nat, key: nat, block: Block) returns (view: Option<FrameView>)
      requires Valid()
      requires key == KeyOf(readOffset) && key == block.off && Get(buckets, nbits, key) == Some(block)
      modifies `lastBlock
      ensures Valid()
      ensures view.Some? <==> readOffset in Stored() || (finSet && readOffset == finOff)
      ensures view.Some? ==> FrameAt(Stored(), finSet, finOff, readOffset, view.value) && FrameFrom(readOffset, view.value)
      ensures view.None? ==> lastBlock == old(lastBlock)
    {
      var bs, nb, offset := buckets, nbits, readOffset - key;
      ghost var m := Stored();
      var marked, run := ReadRun(bs, nb, block, offset, readOffset);
      if marked {
        var size := offset + |run|;
        var v := FrameView(key, offset, size, run, finSet && offset + size == finOff);
        assert FrameAt(m, finSet, finOff, readOffset, v);
        lastBlock, view := Some(key), Some(v);
      } else if finSet && readOffset == finOff {
        var v := FrameView(key, offset, offset, [], true);
        assert FrameAt(m, finSet, finOff, readOffset, v);
        lastBlock, view := Some(key), Some(v);
      } else {
        view := None;
      }
    }

    /** The block of the last frame has nothing left from `pos` on. */
    ghost predicate ReadUp(pos: nat)
      reads this
      requires Valid()
    {
      lastBlock.Some? && !AnyByte(Stored(), pos, lastBlock.value + DB_DATA_SIZE)
    }

    /**
     Called when the reader has read the frame up to position `readOff` of its
     block.  The block goes when nothing in it is left to read.
     */
    method FrameDone(readOff: nat, pos: nat)
      requires Valid()
      requires lastBlock.Some? ==>
                 lastBlock.value in Keys() && readOff <= DB_DATA_SIZE && pos == lastBlock.value + readOff
      modifies `buckets, `nbits, `count, `switchImpl
      ensures Valid()
      ensures From(Stored(), pos) == From(old(Stored()), pos)
      ensures forall o | o in Stored() :: o in old(Stored()) && Stored()[o] == old(Stored())[o]
      ensures Keys() == if old(ReadUp(pos)) then old(Keys()) - iset{lastBlock.value} else old(Keys())
      ensures switchImpl == (old(switchImpl) || (old(ReadUp(pos)) && count == 0 && !finSet))
      ensures finSet == old(finSet) && finOff == old(finOff)
    {
      if lastBlock.Some? {
        var key := lastBlock.value;
        var drop := NothingLeft(key, readOff, pos);
        if drop {
          FromWithoutBlock(Stored(), key, pos);
          Remove(key);
          if count == 0 && !finSet {
            switchImpl := true;
          }
        }
      }
    }

    /** Whether the block at `key` has nothing left from its position `readOff` on. */
    method NothingLeft(key: nat, readOff: nat, pos: nat) returns (nothing: bool)
      requires Valid() && key in Keys() && readOff <= DB_DATA_SIZE && pos == key + readOff
      ensures nothing <==> !AnyByte(Stored(), pos, key + DB_DATA_SIZE)
    {
      if readOff == DB_DATA_SIZE {
        return true;
      }
      var bs, nb := buckets, nbits;
      var j := Find(key);
      var block := bs[BuckNo(nb, key)][j];
      GetFound(bs, nb, key);
      ghost var next := key + DB_DATA_SIZE;
      HasBytesPast(bs, nb, block, readOff, pos, next);
      var has := HasBytesAfter(block, readOff);
      nothing := !has;
    }

    /** Length of the run of stored bytes at the read offset. */
    method ReadableBytes(readOffset: nat) returns (n: nat)
      requires Valid()
      modifies `lastBlock
      ensures Valid()
      ensures MaximalStored(Stored(), readOffset, n)
    {
      var off := readOffset;
      ghost var bs, nb := buckets, nbits;
      ghost var m, limit := BytesIn(bs, nb), Bound(bs);
      var more := true;
      while more
        invariant buckets == bs && nbits == nb
        invariant readOffset <= off
        invariant RunTo(m, readOffset, off)
        invariant !more ==> off !in m
        decreases more, limit - off
      {
        var view := GetFrame(off);
        if view.Some? && view.value.size - view.value.readOff > 0 {
          var run := view.value.unread;
          var off' := off + |run|;
          ExtendRunTo(m, readOffset, off, run, off');
          StoredBelowBound(bs, nb, off);
          off := off';
        } else {
          more := false;
        }
      }
      n := off - readOffset;
    }
  }

  /** Nothing is found past a frame that changes bytes and blocks like this. */
  ghost predicate Goes(frame: DataFrame, readOffset: nat, m: Bytes, keys: iset<nat>, m': Bytes, keys': iset<nat>)
    requires readOffset <= frame.End()
  {
    var start, tail := StartFrom(frame, readOffset), TailFrom(frame, readOffset);
    var next := NextKey(start, |tail|);
    && m' == Overlay(m, start, tail) && keys' == keys + KeyRange(KeyOf(start), next)
    && (frame.fin ==> !BytesPast(m', keys', frame.End(), next))
  }

  /** Such a frame is stored, unless it is at odds with the final size or there is no memory. */
  method Put(h: HashDataIn, frame: DataFrame, readOffset: nat, plenty: bool, ghost m: Bytes, ghost keys: iset<nat>)
    returns (ins: InsFrame, oom: bool)
    requires h.Valid() && readOffset <= frame.End() && Goes(frame, readOffset, h.Stored(), h.Keys(), m, keys)
    modifies h
    ensures h.Valid() && h.lastBlock == old(h.lastBlock) && h.switchImpl == old(h.switchImpl)
    ensures (plenty ==> !oom) && (oom ==> ins == InsErr)
    ensures !oom ==> ins == if old(h.Refused(frame, readOffset)) then InsErr else InsOk
    ensures ins == InsOk ==> h.Stored() == m && h.Keys() == keys
    ensures if ins == InsOk && frame.fin then h.finSet && h.finOff == frame.End()
            else h.finSet == old(h.finSet) && h.finOff == old(h.finOff)
  {
    ghost var refused := h.Refused(frame, readOffset);
    ghost var written;
    ins, oom, written := h.InsertDataFrame(frame, readOffset, plenty);
    if !refused && !oom {
      assert h.Stored() == m && h.Keys() == keys;
    }
  }

  // ---------- The FIN flag of a frame with bytes ----------

  /** `n` bytes are stored at `readOffset` before a gap or the end of the block. */
  ghost predicate ClippedRun(m: Bytes, readOffset: nat, n: nat) {
    && RunTo(m, readOffset, readOffset + n)
    && readOffset + n <= KeyOf(readOffset) + DB_DATA_SIZE
    && (readOffset + n !in m || readOffset + n == KeyOf(readOffset) + DB_DATA_SIZE)
  }

  /** The frame handed out has just these bytes. */
  lemma FrameIsClipped(m: Bytes, finSet: bool, finOff: nat, readOffset: nat, n: nat, v: FrameView)
    requires ClippedRun(m, readOffset, n) && readOffset in m && FrameAt(m, finSet, finOff, readOffset, v)
    requires v.readOff == readOffset - v.offset
    ensures |v.unread| == n
  {
    var k, end := KeyOf(readOffset), readOffset + |v.unread|;
    assert StoredByte(m, readOffset, v.unread, readOffset + n);
    KeyUnique(end - 1, k);
  }

  /**
   A buffer that knows its final size and holds nothing past it, and `n` bytes ready at
   the read offset.  The flag of the frame handed out says that the frame ends the stream
   exactly when the read offset is zero, or neither the end of these bytes is the final size
   nor the sum that the code tests.
   */
  lemma FinFlagExact(m: Bytes, finOff: nat, readOffset: nat, n: nat, v: FrameView)
    requires forall o | o in m :: o < finOff
    requires ClippedRun(m, readOffset, n) && readOffset in m
    requires FrameAt(m, true, finOff, readOffset, v) && v.readOff == readOffset - v.offset
    ensures (v.fin <==> readOffset + n == finOff) <==>
            || readOffset == 0
            || (readOffset + n != finOff && 2 * (readOffset - KeyOf(readOffset)) + n != finOff)
    ensures v.fin && readOffset + n != finOff ==> KeyOf(readOffset) == 0 && 0 < readOffset
    ensures v.fin && readOffset + n == finOff ==> readOffset == 0
  {
    FrameIsClipped(m, true, finOff, readOffset, n, v);
    var last := readOffset + n - 1;
    assert StoredByte(m, readOffset, v.unread, last);
  }

  /** The frame handed out ends the stream, or the stream ends within two blocks. */
  lemma WrongFinIsEarly(m: Bytes, finOff: nat, readOffset: nat, v: FrameView)
    requires forall o | o in m :: o < finOff
    requires FrameAt(m, true, finOff, readOffset, v) && v.fin
    requires v.unread != [] ==> v.readOff == readOffset - v.offset
    ensures readOffset + |v.unread| == finOff || 3 <= finOff < 2 * DB_DATA_SIZE
  {
    if v.unread != [] {
      var last := readOffset + |v.unread| - 1;
      assert StoredByte(m, readOffset, v.unread, last);
    }
  }

  /**
   And the bound is sharp: for every length from 3 to 7231 there are a read offset and a
   number of bytes stored from the start of the stream for which any frame handed out claims
   to end the stream, although bytes are missing.
   */
  lemma EarlyFinEverywhere(length: nat) returns (readOffset: nat, stored: nat)
    requires 3 <= length < 2 * DB_DATA_SIZE
    ensures 0 < readOffset < stored < length && stored <= DB_DATA_SIZE
    ensures forall data: seq<byte>, v: FrameView |
              && |data| == stored && FrameAt(Overlay(imap[], 0, data), true, length, readOffset, v)
              && v.readOff == readOffset - v.offset ::
              v.fin && readOffset + |v.unread| == stored
  {
    readOffset := (length - 1) / 2;
    stored := length - readOffset;
    var ro, n := readOffset, stored - readOffset;
    assert KeyOf(ro) == 0 by { KeyUnique(ro, 0); }
    forall data: seq<byte>, v: FrameView |
        && |data| == stored && FrameAt(Overlay(imap[], 0, data), true, length, ro, v)
        && v.readOff == ro - v.offset
      ensures v.fin && ro + |v.unread| == stored
    {
      var m := Overlay(imap[], 0, data);
      assert ClippedRun(m, ro, n) && ro in m;
      FrameIsClipped(m, true, length, ro, n, v);
    }
  }

  /**
   Bytes 0 to 5 and 8 to 9 of a ten-byte stream are stored.  Whatever frame is
   handed out at offset 4 claims to end the stream, although byte 8 is yet to come.
   */
  lemma PrematureFin(v: FrameView, m: Bytes)
    requires m == Overlay(Overlay(imap[], 0, [0, 1, 2, 3, 4, 5]), 8, [8, 9])
    requires FrameAt(m, true, 10, 4, v) && v.readOff == 4
    ensures v.fin && v.unread == [4, 5]
    ensures 8 in m
  {
    assert 4 in m && 5 in m && 6 !in m;
    assert StoredByte(m, 4, v.unread, 4) && StoredByte(m, 4, v.unread, 5) && StoredByte(m, 4, v.unread, 6);
  }

  lemma BothGo(first: DataFrame, last: DataFrame, keys: iset<nat>, m: Bytes, keys': iset<nat>, m': Bytes)
    requires first == DataFrame(0, [0, 1, 2, 3, 4, 5], false) && last == DataFrame(8, [8, 9], true)
    requires keys == KeyRange(KeyOf(0), NextKey(0, 6)) && m == Overlay(imap[], 0, first.data)
    requires keys' == keys + KeyRange(KeyOf(8), NextKey(8, 2)) && m' == Overlay(m, 8, last.data)
    ensures Goes(first, 0, imap[], iset{}, m, keys) && Goes(last, 0, m, keys, m', keys')
  {
    assert iset{} + keys == keys;
  }

  /** The buffer after the two frames that bring these bytes. */
  method TwoFrames() returns (h: HashDataIn)
    ensures fresh(h) && h.Valid() && h.finSet && h.finOff == 10
    ensures h.Stored() == Overlay(Overlay(imap[], 0, [0, 1, 2, 3, 4, 5]), 8, [8, 9])
  {
    var first, last := DataFrame(0, [0, 1, 2, 3, 4, 5], false), DataFrame(8, [8, 9], true);
    h := new HashDataIn(0);
    ghost var m, keys := Overlay(imap[], 0, first.data), KeyRange(KeyOf(0), NextKey(0, 6));
    ghost var m', keys' := Overlay(m, 8, last.data), keys + KeyRange(KeyOf(8), NextKey(8, 2));
    BothGo(first, last, keys, m, keys', m');
    var _, _ := Put(h, first, 0, true, m, keys);
    var _, _ := Put(h, last, 0, true, m', keys');
  }

  /** A frame that does not end the ten bytes says that it does. */
  method EarlyFin() returns (view: Option<FrameView>)
    ensures view.Some? && view.value.fin && view.value.unread == [4, 5]
  {
    var h := TwoFrames();
    ghost var m := h.Stored();
    view := h.GetFrame(4);
    assert 4 in m;
    PrematureFin(view.value, m);
  }

  /**
   A frame without bytes at a block boundary leaves an empty block there.  A frame
   that then ends the stream at that offset is refused, although no byte past
   the final size is stored.
   */
  lemma SpuriousFinError(data: seq<byte>, m: Bytes, keys: iset<nat>)
    requires |data| == 16
    requires m == Overlay(imap[], 3600, data)
    requires keys == iset{} + KeyRange(KeyOf(3616), NextKey(3616, 0)) + KeyRange(KeyOf(3600), NextKey(3600, 16))
    ensures BytesPast(m, keys, 3616, NextKey(3600, 16))
    ensures forall o | o in m :: o < 3616
  {
    assert KeyOf(3616) == 3616 && NextKey(3616, 0) == 7232 && NextKey(3600, 16) == 3616;
    assert 3616 in KeyRange(KeyOf(3616), NextKey(3616, 0));
  }
}
