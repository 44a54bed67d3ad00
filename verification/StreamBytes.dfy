/**
 What an incoming stream buffer means: the ordered byte-stream abstraction of
 section 2.2 of RFC 9000.  A buffer stands for the bytes received so far, by
 stream offset, and for the final size if that is known.
 */
module StreamBytes {

  newtype byte = b: int | 0 <= b < 256

  /** Bytes known so far, by stream offset. */
  type Bytes = imap<nat, byte>

  /** A STREAM frame: `data` at `offset`, and whether the stream ends with it. */
  datatype DataFrame = DataFrame(offset: nat, data: seq<byte>, fin: bool) {
    function End(): nat {
      offset + |data|
    }
  }

  /** What a buffer hands to the reader: the bytes that have not been read yet. */
  datatype FrameView = FrameView(offset: nat, readOff: nat, size: nat, unread: seq<byte>, fin: bool)

  /** If `o` falls on `bytes` placed at `from`, it is stored with that value. */
  ghost predicate StoredByte(m: Bytes, from: nat, bytes: seq<byte>, o: nat) {
    from <= o < from + |bytes| ==> o in m && m[o] == bytes[o - from]
  }

  /** `bytes` are the stored bytes from `from` on. */
  ghost predicate StoredRun(m: Bytes, from: nat, bytes: seq<byte>) {
    forall o: nat :: StoredByte(m, from, bytes, o)
  }

  /** Outcome of an insertion (enum ins_frame). */
  datatype InsFrame = InsOk | InsErr | InsDup | InsOverlap

  /** `m` after `data` has been written at `off`, new bytes winning. */
  ghost function Overlay(m: Bytes, off: nat, data: seq<byte>): Bytes {
    imap o: nat | o in m || off <= o < off + |data| ::
      if off <= o < off + |data| then data[o - off] else m[o]
  }

  /** Every stored byte is the byte of the stream `s` at that offset. */
  ghost predicate Agrees(m: Bytes, s: seq<byte>) {
    forall o | o in m :: o < |s| && m[o] == s[o]
  }

  /** `frame` carries a piece of the stream `s`. */
  ghost predicate SliceOf(frame: DataFrame, s: seq<byte>) {
    frame.End() <= |s| && frame.data == s[frame.offset..frame.End()]
  }

  /** Every byte of [from, to) is stored. */
  ghost predicate RunTo(m: Bytes, from: nat, to: nat) {
    forall o: nat | from <= o < to :: o in m
  }

  /** Exactly `n` bytes can be read at `from` before a gap. */
  ghost predicate MaximalStored(m: Bytes, from: nat, n: nat) {
    RunTo(m, from, from + n) && from + n !in m
  }

  lemma ExtendRunTo(m: Bytes, from: nat, to: nat, run: seq<byte>, to': nat)
    requires RunTo(m, from, to) && StoredRun(m, to, run) && to' == to + |run|
    ensures RunTo(m, from, to')
  {
    forall o: nat | from <= o < to'
      ensures o in m
    {
      assert StoredByte(m, to, run, o);
    }
  }

  lemma StoredPrefix(m: Bytes, from: nat, bytes: seq<byte>, n: nat, part: seq<byte>)
    requires StoredRun(m, from, bytes) && n <= |bytes| && part == bytes[..n]
    ensures StoredRun(m, from, part)
  {
    forall o: nat
      ensures StoredByte(m, from, part, o)
    {
      assert StoredByte(m, from, bytes, o);
    }
  }

  /** Bytes at or after `from`. */
  ghost function From(m: Bytes, from: nat): Bytes {
    imap o: nat | o in m && from <= o :: m[o]
  }

  lemma Assoc(a: seq<byte>, b: seq<byte>, c: seq<byte>)
    ensures (a + b) + c == a + (b + c)
  {
  }

  lemma MoveFirst(written: seq<byte>, rest: seq<byte>, n: nat, part: seq<byte>, rest': seq<byte>, bytes: seq<byte>)
    requires written + rest == bytes && n <= |rest| && part == rest[..n] && rest' == rest[n..]
    ensures (written + part) + rest' == bytes
  {
  }

  lemma OverlayNothing(m: Bytes, off: nat)
    ensures Overlay(m, off, []) == m
  {
  }

  lemma OverlayAppend(m: Bytes, off: nat, a: seq<byte>, b: seq<byte>, next: nat)
    requires next == off + |a|
    ensures Overlay(Overlay(m, off, a), next, b) == Overlay(m, off, a + b)
  {
  }

  /** The part of a frame at or after the read offset. */
  function TailFrom(frame: DataFrame, readOffset: nat): seq<byte>
    requires readOffset <= frame.End()
  {
    if frame.offset < readOffset then frame.data[readOffset - frame.offset..] else frame.data
  }

  function StartFrom(frame: DataFrame, readOffset: nat): nat {
    if frame.offset < readOffset then readOffset else frame.offset
  }
}
