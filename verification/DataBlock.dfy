/** One block of the copying buffer, with a validity bit for each byte. */
module DataBlocks {
  import opened WordBits
  import opened StreamBytes

  /** Number of words in the validity bitset. */
  const N_DB_SETS := 57
  /** Payload of a block that fills 4096 bytes with 64-bit pointers. */
  const DB_DATA_SIZE := 3616

  /** Position `p` is set in the bitset `s`. */
  predicate Marked(s: seq<Word>, p: nat)
    requires p < 64 * |s|
  {
    Bit(s[p / 64], p % 64)
  }

  /** The upper half of the last word stands for no byte. */
  ghost predicate UnusedClear(s: seq<Word>)
    requires |s| == N_DB_SETS
  {
    forall p: nat | DB_DATA_SIZE <= p < 64 * N_DB_SETS :: !Marked(s, p)
  }

  /** `t` is `s` with exactly the positions in [lo, hi) added. */
  ghost predicate MarksAdded(s: seq<Word>, t: seq<Word>, lo: nat, hi: nat) {
    && |s| == |t|
    && forall p: nat | p < 64 * |s| :: Marked(t, p) <==> Marked(s, p) || lo <= p < hi
  }

  /** Bits [bit, bit + n) of a word, as the first partial word of a write needs. */
  function HeadMask(bit: nat, n: nat): Word
    requires 0 < bit < 64 && bit + n <= 64
  {
    And(Not(One(bit) - 1), Or(One(bit + n - 1), One(bit + n - 1) - 1))
  }

  lemma HeadMaskBit(bit: nat, n: nat, i: nat)
    requires 0 < bit < 64 && bit + n <= 64 && i < 64
    ensures Bit(HeadMask(bit, n), i) <==> bit <= i < bit + n
  {
    var last := bit + n - 1;
    AndBit(Not(One(bit) - 1), Or(One(last), One(last) - 1), i);
    NotBit(One(bit) - 1, i);
    LowMaskBit(bit, i);
    OrDigitsBit(One(last), One(last) - 1, i);
    Pow2Bit(last, i);
    LowMaskBit(last, i);
  }

  lemma OrIntoWord(s: seq<Word>, w: nat, mask: Word, lo: nat, hi: nat)
    requires w < |s|
    requires forall i: nat | i < 64 :: Bit(mask, i) <==> lo <= i < hi
    requires hi <= 64
    ensures MarksAdded(s, s[w := Or(s[w], mask)], 64 * w + lo, 64 * w + hi)
  {
    var t: seq<Word> := s[w := Or(s[w], mask)];
    forall p: nat | p < 64 * |s|
      ensures Marked(t, p) <==> Marked(s, p) || 64 * w + lo <= p < 64 * w + hi
    {
      if p / 64 == w {
        OrDigitsBit(s[w], mask, p % 64);
      }
    }
  }

  lemma FillWords(s: seq<Word>, t: seq<Word>, w: nat, n: nat)
    requires |s| == |t| && w + n <= |s|
    requires forall k | 0 <= k < |s| :: t[k] == if w <= k < w + n then ALL_ONES else s[k]
    ensures MarksAdded(s, t, 64 * w, 64 * (w + n))
  {
    forall p: nat | p < 64 * |s|
      ensures Marked(t, p) <==> Marked(s, p) || 64 * w <= p < 64 * (w + n)
    {
      AllOnesBit(p % 64);
    }
  }

  lemma FirstWordHasBits(s: seq<Word>, p: nat)
    requires p < 64 * |s|
    ensures Shr(s[p / 64], p % 64) != 0 <==> exists q: nat :: p <= q < 64 * (p / 64 + 1) && Marked(s, q)
  {
    var w, bit := s[p / 64], p % 64;
    if Shr(w, bit) != 0 {
      var i := Ctz(Shr(w, bit));
      CtzIsFirstBit(Shr(w, bit));
      ShrBit(w, bit, i);
      if i + bit >= 64 {
        WordBitsAbove63Clear(w, i + bit);
        assert false;
      }
      assert (p + i) / 64 == p / 64 && (p + i) % 64 == bit + i;
      assert Marked(s, p + i);
    } else {
      forall q: nat | p <= q < 64 * (p / 64 + 1)
        ensures !Marked(s, q)
      {
        ShrBit(w, bit, q - p);
        ZeroBit(q - p);
        assert q / 64 == p / 64 && q % 64 == bit + (q - p);
      }
    }
  }

  lemma WordHasBits(s: seq<Word>, w: nat)
    requires w < |s|
    ensures s[w] != 0 <==> exists q: nat :: 64 * w <= q < 64 * (w + 1) && Marked(s, q)
  {
    FirstWordHasBits(s, 64 * w);
  }

  /** Positions [p, p + n) are all set. */
  ghost predicate RunOf(s: seq<Word>, p: nat, n: nat)
    requires p + n <= 64 * |s|
  {
    forall q: nat | p <= q < p + n :: Marked(s, q)
  }

  /** A run that starts at `p` and cannot be made longer. */
  ghost predicate MaximalRun(s: seq<Word>, p: nat, n: nat) {
    && p + n <= 64 * |s|
    && RunOf(s, p, n)
    && (p + n < 64 * |s| ==> !Marked(s, p + n))
  }

  lemma PartBit(w: Word, bit: nat, i: nat)
    requires bit <= i < bit + 64
    ensures Bit(Not(Shr(w, bit)), i - bit) <==> !Bit(w, i)
  {
    NotBit(Shr(w, bit), i - bit);
    ShrBit(w, bit, i - bit);
  }

  /** Length of the run of set bits at `bit`, as the complement of `w >> bit` shows it. */
  function BitRun(w: Word, bit: nat): nat
    requires bit < 64
  {
    var part := Not(Shr(w, bit));
    if part == 0 then 64 else Ctz(part)
  }

  lemma BitRunIsMaximal(w: Word, bit: nat)
    requires bit < 64
    ensures BitRun(w, bit) <= 64 - bit
    ensures forall i: nat | bit <= i < bit + BitRun(w, bit) :: Bit(w, i)
    ensures bit + BitRun(w, bit) < 64 ==> !Bit(w, bit + BitRun(w, bit))
    ensures BitRun(w, bit) == 64 ==> w == ALL_ONES
  {
    var part := Not(Shr(w, bit));
    var n := BitRun(w, bit);
    if bit > 0 {
      WordBitsAbove63Clear(w, 64);
      PartBit(w, bit, 64);
    }
    if part == 0 {
      ZeroBit(64 - bit);
      assert bit == 0;
    } else {
      CtzIsFirstBit(part);
      if n >= 64 {
        WordBitsAbove63Clear(part, n);
        assert false;
      }
      PartBit(w, bit, bit + n);
    }
    forall i: nat | bit <= i < bit + n
      ensures Bit(w, i)
    {
      PartBit(w, bit, i);
      ZeroBit(i - bit);
    }
  }

  lemma StartRun(s: seq<Word>, w: nat, bit: nat)
    requires w < |s| && bit < 64
    ensures BitRun(s[w], bit) <= 64 - bit
    ensures BitRun(s[w], bit) < 64 - bit ==> MaximalRun(s, 64 * w + bit, BitRun(s[w], bit))
    ensures RunOf(s, 64 * w + bit, BitRun(s[w], bit))
  {
    var n := BitRun(s[w], bit);
    BitRunIsMaximal(s[w], bit);
    forall q: nat | 64 * w + bit <= q < 64 * w + bit + n
      ensures Marked(s, q)
    {
      assert q / 64 == w && q % 64 == q - 64 * w;
    }
  }

  /** A run up to a word boundary goes on with the low bits of the next word. */
  lemma ExtendRun(s: seq<Word>, p: nat, n: nat)
    requires p + n < 64 * |s| && (p + n) % 64 == 0
    requires RunOf(s, p, n)
    requires s[(p + n) / 64] != ALL_ONES
    ensures MaximalRun(s, p, n + BitRun(s[(p + n) / 64], 0))
  {
    var w := (p + n) / 64;
    var start, m := 64 * w, BitRun(s[w], 0);
    BitRunIsMaximal(s[w], 0);
    assert start == p + n;
    forall q: nat | start <= q < start + m
      ensures Marked(s, q)
    {
      assert q / 64 == w && q % 64 == q - start;
    }
    assert !Marked(s, start + m) by {
      assert (start + m) / 64 == w && (start + m) % 64 == m;
    }
  }

  lemma ExtendRunByWord(s: seq<Word>, p: nat, n: nat)
    requires p + n < 64 * |s| && (p + n) % 64 == 0
    requires RunOf(s, p, n)
    requires s[(p + n) / 64] == ALL_ONES
    ensures RunOf(s, p, n + 64)
  {
    forall q: nat | p + n <= q < p + n + 64
      ensures Marked(s, q)
    {
      AllOnesBit(q % 64);
    }
  }

  /** A run ends inside the block, because the unused bits are clear. */
  lemma RunStaysInBlock(s: seq<Word>, p: nat, n: nat)
    requires |s| == N_DB_SETS && UnusedClear(s)
    requires p < DB_DATA_SIZE && MaximalRun(s, p, n)
    ensures p + n <= DB_DATA_SIZE
  {
    assert !Marked(s, DB_DATA_SIZE);
  }

  /** `memcpy` of `bytes` to position `at` of `c`. */
  function CopyIn(c: seq<byte>, at: nat, bytes: seq<byte>): (d: seq<byte>)
    requires at + |bytes| <= |c|
    ensures CopiedAt(c, d, at, bytes)
  {
    c[..at] + bytes + c[at + |bytes|..]
  }

  /** `d` is `c` with `bytes` copied to `at`. */
  ghost predicate CopiedAt(c: seq<byte>, d: seq<byte>, at: nat, bytes: seq<byte>) {
    && |c| == |d|
    && at + |bytes| <= |c|
    && forall p | 0 <= p < |c| :: d[p] == if at <= p < at + |bytes| then bytes[p - at] else c[p]
  }

  /** Bitset `s` and data `c` become `t` and `d` when `bytes` are written at `at`. */
  ghost predicate Wrote(s: seq<Word>, c: seq<byte>, t: seq<Word>, d: seq<byte>, at: nat, bytes: seq<byte>) {
    && MarksAdded(s, t, at, at + |bytes|)
    && CopiedAt(c, d, at, bytes)
  }

  /** A block of bytes at stream offset `off`, one bit for each valid byte. */
  datatype Block = Block(off: nat, valid: seq<Word>, data: seq<byte>) {

    ghost predicate Valid() {
      && |valid| == N_DB_SETS
      && |data| == DB_DATA_SIZE
      && UnusedClear(valid)
    }

    /** Whether the byte at stream offset `o` is valid here. */
    ghost predicate Has(o: nat) {
      Valid() && off <= o < off + DB_DATA_SIZE && Marked(valid, o - off)
    }

    /** Some byte at or after position `p` is valid. */
    ghost predicate HasFrom(p: nat)
      requires Valid()
    {
      exists q: nat :: p <= q < DB_DATA_SIZE && Marked(valid, q)
    }

    ghost function ByteAt(o: nat): byte
      requires Has(o)
    {
      data[o - off]
    }
  }

  /** A block with no valid byte. */
  function EmptyBlock(off: nat): (b: Block)
    ensures b.off == off && b.Valid()
    ensures forall p: nat | p < DB_DATA_SIZE :: !Marked(b.valid, p)
  {
    var b := Block(off, seq(N_DB_SETS, _ => 0), seq(DB_DATA_SIZE, _ => 0));
    assert forall p: nat | p < 64 * N_DB_SETS :: !Marked(b.valid, p) by {
      forall p: nat | p < 64 * N_DB_SETS ensures !Marked(b.valid, p) { ZeroBit(p % 64); }
    }
    b
  }

  /** What a write does to the byte at stream offset `o`. */
  lemma WroteAt(b: Block, c: Block, at: nat, bytes: seq<byte>, o: nat)
    requires b.Valid() && Writes(b, c, at, bytes)
    requires b.off <= o < b.off + DB_DATA_SIZE
    ensures c.Valid()
    ensures c.Has(o) <==> b.Has(o) || b.off + at <= o < b.off + at + |bytes|
    ensures c.Has(o) ==>
              c.ByteAt(o) == if b.off + at <= o < b.off + at + |bytes| then bytes[o - b.off - at] else b.ByteAt(o)
  {
  }

  /** Block `c` is block `b` after `bytes` have been written at `at`. */
  ghost predicate Writes(b: Block, c: Block, at: nat, bytes: seq<byte>) {
    c.off == b.off && Wrote(b.valid, b.data, c.valid, c.data, at, bytes)
  }

  lemma WritesNothing(b: Block, at: nat)
    requires at <= |b.data|
    ensures Writes(b, b, at, [])
  {
  }

  lemma WritesMore(b: Block, c: Block, d: Block, at: nat, first: seq<byte>, next: nat, second: seq<byte>,
                   bytes: seq<byte>)
    requires Writes(b, c, at, first) && Writes(c, d, next, second)
    requires next == at + |first| && bytes == first + second
    ensures Writes(b, d, at, bytes)
  {
  }

  // ---------- Writing ----------

  /** Writes as much of `bytes` as fits between `blockOff` and the end of the block. */
  method BlockWrite(block: Block, blockOff: nat, bytes: seq<byte>) returns (after: Block, n: nat)
    requires block.Valid()
    requires blockOff < DB_DATA_SIZE
    ensures n == if |bytes| > DB_DATA_SIZE - blockOff then DB_DATA_SIZE - blockOff else |bytes|
    ensures Writes(block, after, blockOff, bytes[..n])
  {
    n := |bytes|;
    if n > DB_DATA_SIZE - blockOff {
      n := DB_DATA_SIZE - blockOff;
    }
    after := WriteWordwise(block, blockOff / 64, blockOff % 64, blockOff, bytes[..n]);
  }

  /** Writes at bit `bit` of word `word`: a partial first word, then aligned ones. */
  method WriteWordwise(block: Block, word: nat, bit: nat, at: nat, bytes: seq<byte>) returns (after: Block)
    requires |block.valid| == N_DB_SETS && |block.data| == DB_DATA_SIZE
    requires bit < 64 && at == 64 * word + bit && at < DB_DATA_SIZE && at + |bytes| <= DB_DATA_SIZE
    ensures Writes(block, after, at, bytes)
  {
    if bit == 0 {
      after := WriteAligned(block, word, at, bytes);
      return;
    }
    var n := if 64 - bit > |bytes| then |bytes| else 64 - bit;
    var first, rest := bytes[..n], bytes[n..];
    assert bytes == first + rest;
    after := WriteHead(block, word, bit, at, first);
    if n < |bytes| {
      var mid, next := after, at + n;
      after := WriteAligned(mid, word + 1, next, rest);
      WritesMore(block, mid, after, at, first, next, rest, bytes);
    } else {
      assert first == bytes;
    }
  }

  /** A write that starts on a word boundary: whole words, then a partial last one. */
  method WriteAligned(block: Block, word: nat, at: nat, bytes: seq<byte>) returns (after: Block)
    requires |block.valid| == N_DB_SETS && |block.data| == DB_DATA_SIZE
    requires at == 64 * word && at + |bytes| <= DB_DATA_SIZE
    ensures Writes(block, after, at, bytes)
  {
    var fullSets := |bytes| / 64;
    var n := fullSets * 64;
    var first, rest := bytes[..n], bytes[n..];
    assert bytes == first + rest;
    after := block;
    if fullSets != 0 {
      after := WriteWords(block, word, fullSets, at, first);
    } else {
      WritesNothing(block, at);
      assert first == [];
    }
    if n < |bytes| {
      var mid, next := after, at + n;
      after := WriteTail(mid, word + fullSets, next, rest);
      WritesMore(block, mid, after, at, first, next, rest, bytes);
    } else {
      assert first == bytes;
    }
  }

  /** The first word of a write that does not start on a word boundary. */
  method WriteHead(block: Block, word: nat, bit: nat, at: nat, bytes: seq<byte>) returns (after: Block)
    requires |block.valid| == N_DB_SETS && |block.data| == DB_DATA_SIZE
    requires 0 < bit < 64 && bit + |bytes| <= 64
    requires at == 64 * word + bit && word < N_DB_SETS && at + |bytes| <= DB_DATA_SIZE
    ensures Writes(block, after, at, bytes)
  {
    var mask := HeadMask(bit, |bytes|);
    forall i: nat | i < 64
      ensures Bit(mask, i) <==> bit <= i < bit + |bytes|
    {
      HeadMaskBit(bit, |bytes|, i);
    }
    OrIntoWord(block.valid, word, mask, bit, bit + |bytes|);
    after := block.(valid := block.valid[word := Or(block.valid[word], mask)],
                    data := CopyIn(block.data, at, bytes));
  }

  /** `n` whole words. */
  method WriteWords(block: Block, word: nat, n: nat, at: nat, bytes: seq<byte>) returns (after: Block)
    requires |block.valid| == N_DB_SETS && |block.data| == DB_DATA_SIZE
    requires |bytes| == 64 * n && at == 64 * word && at + |bytes| <= DB_DATA_SIZE
    ensures Writes(block, after, at, bytes)
  {
    var words := block.valid[..word] + seq(n, _ => ALL_ONES) + block.valid[word + n..];
    FillWords(block.valid, words, word, n);
    after := block.(valid := words, data := CopyIn(block.data, at, bytes));
  }

  /** The last word of a write that does not end on a word boundary. */
  method WriteTail(block: Block, word: nat, at: nat, bytes: seq<byte>) returns (after: Block)
    requires |block.valid| == N_DB_SETS && |block.data| == DB_DATA_SIZE
    requires 0 < |bytes| < 64 && at == 64 * word && at + |bytes| <= DB_DATA_SIZE
    ensures Writes(block, after, at, bytes)
  {
    var mask := One(|bytes|) - 1;
    forall i: nat | i < 64
      ensures Bit(mask, i) <==> 0 <= i < |bytes|
    {
      LowMaskBit(|bytes|, i);
    }
    OrIntoWord(block.valid, word, mask, 0, |bytes|);
    after := block.(valid := block.valid[word := Or(block.valid[word], mask)],
                    data := CopyIn(block.data, at, bytes));
  }

  // ---------- Reading ----------

  /** Whether any byte at or after position `p` is valid. */
  method HasBytesAfter(block: Block, p: nat) returns (has: bool)
    requires block.Valid()
    requires p <= DB_DATA_SIZE
    ensures has <==> block.HasFrom(p)
  {
    var word, bit := p / 64, p % 64;
    var count := if Shr(block.valid[word], bit) != 0 then 1 else 0;
    FirstWordHasBits(block.valid, p);
    word := word + 1;
    while word < N_DB_SETS
      invariant p / 64 < word <= N_DB_SETS
      invariant count > 0 <==> exists q: nat :: p <= q < 64 * word && Marked(block.valid, q)
    {
      WordHasBits(block.valid, word);
      count := count + if block.valid[word] != 0 then 1 else 0;
      word := word + 1;
    }
    has := count > 0;
  }

  /** Length of the run of valid bytes that starts at bit `bit` of word `word`. */
  method NAvailBytes(block: Block, word: nat, bit: nat) returns (count: nat)
    requires block.Valid()
    requires bit < 64 && 64 * word + bit < DB_DATA_SIZE
    ensures 64 * word + bit + count <= DB_DATA_SIZE
    ensures MaximalRun(block.valid, 64 * word + bit, count)
  {
    ghost var p := 64 * word + bit;
    StartRun(block.valid, word, bit);
    count := BitRun(block.valid[word], bit);
    if count < 64 - bit {
      RunStaysInBlock(block.valid, p, count);
      return;
    }
    var w := word + 1;
    while w < N_DB_SETS && block.valid[w] == ALL_ONES
      invariant word < w <= N_DB_SETS
      invariant p + count == 64 * w
      invariant RunOf(block.valid, p, count)
      decreases N_DB_SETS - w
    {
      ExtendRunByWord(block.valid, p, count);
      count := count + 64;
      w := w + 1;
    }
    if w < N_DB_SETS {
      ExtendRun(block.valid, p, count);
      count := count + BitRun(block.valid[w], 0);
    }
    RunStaysInBlock(block.valid, p, count);
  }
}
