/** The receiving side of a stream: one of two buffers, and the read offset. */
module IncomingStreams {
  import opened Wrappers
  import opened StreamBytes
  import opened DataBlocks
  import opened BlockTables
  import opened DataInHash
  import opened FrameLists
  import opened DataInNocopy

  /** `frame` has the byte at `o`. */
  ghost predicate Covers(frame: DataFrame, o: nat) {
    frame.offset <= o < frame.End()
  }

  /** Every byte of `m'` comes from `m` or from `frame`. */
  ghost predicate NothingMadeUp(m: Bytes, m': Bytes, frame: DataFrame) {
    forall o | o in m' ::
      || (o in m && m'[o] == m[o])
      || (Covers(frame, o) && m'[o] == frame.data[o - frame.offset])
  }

  /** From the read offset on, `m'` has what `m` and `frame` have. */
  ghost predicate TakenIn(m: Bytes, m': Bytes, frame: DataFrame, readOffset: nat) {
    forall o: nat | readOffset <= o :: o in m' <==> o in m || Covers(frame, o)
  }

  ghost predicate Within(m': Bytes, m: Bytes) {
    forall o | o in m' :: o in m && m[o] == m'[o]
  }

  ghost predicate BytesAfter(m: Bytes, end: nat) {
    exists o :: o in m && end <= o
  }

  /** `frame` is at odds with the final size, or with what has been read. */
  ghost predicate FinalSizeError(final: Option<nat>, frame: DataFrame, readOffset: nat) {
    || (frame.fin && frame.End() < readOffset)
    || (final.Some? && (frame.End() > final.value || (frame.fin && frame.End() != final.value)))
  }

  /** A frame that has to be refused: FIN is in what has been read, or there is another final size. */
  ghost predicate MustRefuse(final: Option<nat>, frame: DataFrame, readOffset: nat) {
    || (frame.fin && frame.End() < readOffset)
    || (final.Some? && readOffset <= frame.End()
        && (frame.End() > final.value || (frame.fin && frame.End() != final.value)))
  }

  /** What may be taken for bytes past the end of a frame that has been written. */
  lemma PastReason(m: Bytes, keys: iset<nat>, frame: DataFrame, readOffset: nat)
    requires readOffset <= frame.End()
    requires BytesPast(m, keys, frame.End(), NextKey(StartFrom(frame, readOffset), |TailFrom(frame, readOffset)|))
    ensures || BytesAfter(m, frame.End())
            || (exists k :: k in keys && frame.End() < k)
            || (frame.End() in keys && readOffset < frame.End() && frame.data != [])
  {
    var start, size := StartFrom(frame, readOffset), |TailFrom(frame, readOffset)|;
    LastKeyWritten(start, size, frame.End(), NextKey(start, size));
  }

  lemma OverlayTakesIn(m: Bytes, m': Bytes, frame: DataFrame, readOffset: nat)
    requires m' == Overlay(m, frame.offset, frame.data)
    ensures NothingMadeUp(m, m', frame) && TakenIn(m, m', frame, readOffset)
  {
  }

  lemma TailTakesIn(m: Bytes, m': Bytes, frame: DataFrame, readOffset: nat, written: seq<byte>)
    requires readOffset <= frame.End() && written <= TailFrom(frame, readOffset)
    requires m' == Overlay(m, StartFrom(frame, readOffset), written)
    ensures NothingMadeUp(m, m', frame)
    ensures written == TailFrom(frame, readOffset) ==> TakenIn(m, m', frame, readOffset)
  {
  }

  /** The first try changes nothing, the switch only drops what has been read. */
  lemma RetryTakesIn(m: Bytes, m1: Bytes, m2: Bytes, m3: Bytes, frame: DataFrame, readOffset: nat)
    requires m1 == m && m2 == From(m1, readOffset) && NothingMadeUp(m2, m3, frame)
    ensures NothingMadeUp(m, m3, frame)
    ensures TakenIn(m2, m3, frame, readOffset) ==> TakenIn(m, m3, frame, readOffset)
  {
  }

  /** So does a switch after the insertion. */
  lemma SwitchKeeps(m: Bytes, m1: Bytes, m2: Bytes, frame: DataFrame, readOffset: nat)
    requires NothingMadeUp(m, m1, frame) && Within(m2, m1)
    ensures NothingMadeUp(m, m2, frame)
    ensures TakenIn(m, m1, frame, readOffset) && From(m2, readOffset) == From(m1, readOffset) ==> TakenIn(m, m2, frame, readOffset)
  {
    if TakenIn(m, m1, frame, readOffset) && From(m2, readOffset) == From(m1, readOffset) {
      forall o: nat | readOffset <= o
        ensures o in m2 <==> o in m || Covers(frame, o)
      {
        assert o in m2 <==> o in From(m2, readOffset);
        assert o in m1 <==> o in From(m1, readOffset);
      }
    }
  }

  /** Two reads in a row, the second from what the first left. */
  lemma RunsJoin(m: Bytes, m': Bytes, from: nat, a: seq<byte>, next: nat, b: seq<byte>, both: seq<byte>)
    requires StoredRun(m, from, a) && next == from + |a| && Within(m', m) && StoredRun(m', next, b) && both == a + b
    ensures StoredRun(m, from, both)
  {
    forall o: nat
      ensures StoredByte(m, from, both, o)
    {
      if from <= o < next {
        assert StoredByte(m, from, a, o);
      } else if next <= o < from + |both| {
        assert StoredByte(m', next, b, o);
      }
    }
  }

  lemma WithinJoin(m: Bytes, m1: Bytes, m2: Bytes, from: nat, next: nat)
    requires Within(m1, m) && Within(m2, m1) && from <= next
    ensures Within(m2, m)
    ensures From(m1, from) == From(m, from) && From(m2, next) == From(m1, next) ==> From(m2, next) == From(m, next)
  {
    if From(m1, from) == From(m, from) && From(m2, next) == From(m1, next) {
      forall o: nat | next <= o
        ensures (o in m2 <==> o in m) && (o in m2 ==> m2[o] == m[o])
      {
        assert o in m2 <==> o in From(m2, next);
        assert o in m1 <==> o in From(m1, from);
        assert o in m1 <==> o in From(m1, next);
        assert o in m <==> o in From(m, from);
      }
    }
  }

  /** `bytes` were read from `from` on, and `m'` is what is left. */
  ghost predicate WasRead(m: Bytes, m': Bytes, from: nat, readOffset: nat, bytes: seq<byte>) {
    StoredRun(m, from, bytes) && readOffset == from + |bytes| && Within(m', m)
  }

  lemma ReadJoin(m: Bytes, m1: Bytes, m2: Bytes, from: nat, a: seq<byte>, next: nat, b: seq<byte>, both: seq<byte>, end: nat)
    requires WasRead(m, m1, from, next, a) && WasRead(m1, m2, next, end, b) && both == a + b
    ensures WasRead(m, m2, from, end, both)
    ensures From(m1, next) == From(m, next) && From(m2, end) == From(m1, end) ==> From(m2, end) == From(m, end)
  {
    RunsJoin(m, m1, from, a, next, b, both);
    WithinJoin(m, m1, m2, next, end);
  }

  /**
   A reader at `readOffset` has been told that the stream ends there: it does, unless the
   hash said so of a short stream.
   */
  ghost predicate EndsAt(m: Bytes, final: Option<nat>, readOffset: nat, hashed: bool) {
    && final.Some?
    && (!BytesAfter(m, final.value) ==> readOffset == final.value || (hashed && 3 <= final.value < 2 * DB_DATA_SIZE))
  }

  lemma EndsAtKept(m: Bytes, m': Bytes, final: Option<nat>, readOffset: nat, hashed: bool)
    requires EndsAt(m', final, readOffset, hashed) && Within(m', m)
    ensures EndsAt(m, final, readOffset, hashed)
  {
  }

  ghost predicate Bounded(m: Bytes, limit: nat) {
    forall o | o in m :: o < limit
  }

  lemma RunBelow(m: Bytes, limit: nat, from: nat, bytes: seq<byte>)
    requires Bounded(m, limit) && StoredRun(m, from, bytes) && bytes != []
    ensures from + |bytes| <= limit
  {
    assert StoredByte(m, from, bytes, from + |bytes| - 1);
  }

  /** What one turn of the read loop came to. */
  datatype Turn = NoFrame | Short | EndOfStream | More | Failed(oom: bool)

  /** The reader's callback takes as many of the bytes offered as it likes, and a greedy one all. */
  method Readf(bytes: seq<byte>, greedy: bool) returns (n: nat)
    ensures n <= |bytes| && (greedy ==> n == |bytes|)
  {
    var k: int := *;
    n := if 0 <= k <= |bytes| && !greedy then k else |bytes|;
  }

  lemma FinIsEnd(m: Bytes, finSet: bool, finOff: nat, readOffset: nat, v: FrameView)
    requires !BytesAfter(m, finOff) && v.fin && FrameAt(m, finSet, finOff, readOffset, v)
    requires v.unread != [] ==> v.readOff == readOffset - v.offset
    ensures finSet && EndsAt(m, Some(finOff), readOffset + |v.unread|, true)
  {
    WrongFinIsEarly(m, finOff, readOffset, v);
  }

  class IncomingStream {
    /** The buffer in use; neither after a failed switch. */
    var nocopy: NocopyDataIn?
    var hash: HashDataIn?
    const autoswitch: bool
    const ietf: bool
    var readOffset: nat
    var finRecvd: bool
    var finOff: nat
    var finReached: bool

    /** What holds right after a buffer operation. */
    ghost predicate Live()
      reads `nocopy, `hash, `readOffset, nocopy, hash
    {
      && (nocopy == null || hash == null)
      && (nocopy != null ==> nocopy.Valid(readOffset))
      && (hash != null ==> hash.Valid() && (autoswitch && hash.switchImpl ==> hash.count == 0 && !hash.finSet))
    }

    ghost predicate Valid()
      reads this, nocopy, hash
    {
      && Live()
      && (nocopy != null && nocopy.finReached ==> finReached)
      && (hash != null && autoswitch ==> !hash.switchImpl)
    }

    /** The bytes held, by stream offset. */
    ghost function Stored(): Bytes
      reads `nocopy, `hash, `readOffset, nocopy, hash
      requires Live()
    {
      if nocopy != null then nocopy.Stored() else if hash != null then hash.Stored() else imap[]
    }

    /** The final size, if the buffer knows it. */
    ghost function Final(): Option<nat>
      reads `nocopy, `hash, nocopy, hash
    {
      if nocopy != null && nocopy.finSet then Some(nocopy.finOff)
      else if hash != null && hash.finSet then Some(hash.finOff)
      else None
    }

    /** Goes down when a frame without bytes is done. */
    ghost function FrameCount(): nat
      reads `nocopy, nocopy
    {
      if nocopy != null then |nocopy.frames| + 1 else 0
    }

    ghost predicate Broken()
      reads `nocopy, `hash
    {
      nocopy == null && hash == null
    }

    constructor (useHash: bool, autoswitch: bool, ietf: bool)
      ensures Valid() && Stored() == imap[] && Final() == None && readOffset == 0
      ensures !finRecvd && !finReached && !Broken()
      ensures forall end: nat :: !Overrun(end) && Clear(end)
      ensures (hash != null <==> useHash) && this.autoswitch == autoswitch
      ensures (nocopy != null ==> fresh(nocopy)) && (hash != null ==> fresh(hash))
    {
      this.autoswitch, this.ietf := autoswitch, ietf;
      readOffset, finRecvd, finOff, finReached := 0, false, 0, false;
      if useHash {
        nocopy := null;
        hash := new HashDataIn(0);
      } else {
        nocopy := new NocopyDataIn();
        hash := null;
      }
    }

    // ---------- Switching ----------

    /** Replaces the list by a hash. */
    method ToHash(plenty: bool) returns (ok: bool, oom: bool)
      requires Live() && nocopy != null
      modifies `nocopy, `hash
      ensures Live() && nocopy == null && (hash != null ==> fresh(hash) && !hash.switchImpl)
      ensures ok <==> hash != null
      ensures plenty ==> !oom
      ensures ok ==> Stored() == From(old(Stored()), readOffset)
      ensures ok ==> Final() == if HasFin(old(nocopy.frames)) then old(Final()) else None
      ensures !ok && !oom ==> HasFin(old(nocopy.frames)) && EndsPast(old(nocopy.frames), old(nocopy.finOff))
      ensures !ok ==> Stored() == imap[]
      ensures forall end: nat :: Overrun(end) ==> old(Overrun(end))
      ensures forall end: nat :: old(Clear(end)) ==> Clear(end)
    {
      var h;
      h, oom := nocopy.SwitchImpl(readOffset, plenty);
      ghost var frames := nocopy.frames;
      forall end: nat | h != null && exists k :: k in h.Keys() && end < k
        ensures EndsPast(frames, end)
      {
        var k :| k in h.Keys() && end < k;
        assert k <= LastEnd(frames);
        assert frames != [] && frames[|frames| - 1].End() > end;
      }
      forall end: nat | h != null && exists k :: k in h.Keys() && end <= k
        ensures EndsPast(frames, end) || SomeEmpty(frames) || end <= readOffset
      {
        var k :| k in h.Keys() && end <= k;
        if k < LastEnd(frames) {
          assert frames[|frames| - 1].End() > end;
        }
      }
      nocopy, hash := null, h;
      ok := h != null;
    }

    /** Replaces the hash, which has no block and no final size, by a list. */
    method ToList(plenty: bool) returns (ok: bool)
      requires Live() && hash != null && hash.count == 0 && !hash.finSet
      modifies `nocopy, `hash
      ensures Live() && hash == null && (nocopy != null ==> fresh(nocopy) && !nocopy.finReached && !nocopy.switchImpl && nocopy.frames == [])
      ensures ok <==> nocopy != null
      ensures plenty ==> ok
      ensures Stored() == imap[] == old(Stored())
      ensures Final() == None
    {
      NoBlocksNoKeys(hash.buckets, hash.nbits);
      var memory := TryAllocate(plenty);
      ok := memory;
      nocopy, hash := null, null;
      if ok {
        nocopy := new NocopyDataIn();
      }
    }

    /** Follows the buffer's advice to switch. */
    method MaybeSwitch(plenty: bool) returns (ok: bool, oom: bool)
      requires Live()
      modifies `nocopy, `hash
      ensures Live() && (autoswitch && hash != null ==> !hash.switchImpl)
      ensures plenty ==> !oom
      ensures nocopy != null ==> (nocopy == old(nocopy) || fresh(nocopy)) && (nocopy.finReached ==> nocopy == old(nocopy))
      ensures hash != null ==> hash == old(hash) || fresh(hash)
      ensures old(Broken()) ==> ok && Broken()
      ensures !old(Broken()) ==> (ok <==> !Broken())
      ensures !ok && !oom ==> old(Overran())
      ensures forall end: nat :: Overrun(end) ==> old(Overrun(end))
      ensures forall end: nat :: old(Clear(end)) ==> Clear(end)
      ensures Within(Stored(), old(Stored()))
      ensures ok ==> From(Stored(), readOffset) == From(old(Stored()), readOffset)
      ensures ok && !(old(nocopy) != null && old(nocopy.finReached)) ==> Final() == old(Final())
      ensures Final() == old(Final()) || Final() == None
      ensures FrameCount() <= old(FrameCount()) || (old(hash) != null && Stored() == imap[] && Final() == None)
      ensures !autoswitch ==> nocopy == old(nocopy) && hash == old(hash)
      ensures autoswitch && old(nocopy != null && nocopy.switchImpl) ==> nocopy == null
      ensures autoswitch && nocopy != null ==> !nocopy.switchImpl && (nocopy == old(nocopy) || nocopy.frames == [])
      ensures autoswitch && old(hash != null && hash.switchImpl) ==> hash == null
    {
      ok, oom := true, false;
      if autoswitch {
        if nocopy != null && nocopy.switchImpl {
          ok, oom := ToHash(plenty);
        } else if hash != null && hash.switchImpl {
          ok := ToList(plenty);
          oom := !ok;
        }
      }
    }

    // ---------- Receiving ----------

    /** Some block starts at or after `end`, maybe without bytes. */
    ghost predicate BlockAfter(end: nat)
      reads `nocopy, `hash, `readOffset, nocopy, hash
      requires Live()
    {
      hash != null && exists k :: k in hash.Keys() && end <= k
    }

    ghost predicate HasEmpty()
      reads `nocopy, nocopy
    {
      nocopy != null && SomeEmpty(nocopy.frames)
    }

    /** There is nothing past `end`, no empty frame, and a block at `end` only when all before it was read. */
    ghost predicate Clear(end: nat)
      reads `nocopy, `hash, `readOffset, nocopy, hash
      requires Live()
    {
      !HasEmpty() && !Overrun(end) && (BlockAfter(end) ==> end <= readOffset)
    }

    /** Something of `frame` was read or is stored, or it cannot be told for lack of bytes. */
    ghost predicate Touched(frame: DataFrame)
      reads `nocopy, `hash, `readOffset, nocopy, hash
      requires Live()
    {
      frame.data == [] || HasEmpty() || frame.offset < readOffset || exists o :: o in Stored() && Covers(frame, o)
    }

    /** What the hash takes for bytes past a frame with FIN: bytes, or a block even if it has none. */
    ghost predicate PastEnd(frame: DataFrame)
      reads `nocopy, `hash, `readOffset, nocopy, hash
      requires Live()
    {
      || BytesAfter(Stored(), frame.End())
      || Overrun(frame.End())
      || (BlockAfter(frame.End()) && readOffset < frame.End() && frame.data != [])
    }

    /** A list that has taken a frame in advises a switch if it is too slow; one that has not is as before. */
    ghost predicate Advised(taken: bool, frames: Frames)
      reads `nocopy, nocopy
    {
      nocopy != null ==> if taken then nocopy.TooSlow() ==> nocopy.switchImpl else nocopy.frames == frames
    }

    /** The frames of the list, if there is one. */
    ghost function ListFrames(): Frames
      reads `nocopy, nocopy
    {
      if nocopy != null then nocopy.frames else []
    }

    /** Hands `frame` to the buffer in use. */
    method InsertFrame(frame: DataFrame, plenty: bool) returns (ins: InsFrame, oom: bool)
      requires Live() && (hash != null && autoswitch ==> !hash.switchImpl)
      modifies nocopy, hash
      ensures Live() && (hash != null && autoswitch ==> !hash.switchImpl)
      ensures plenty ==> !oom
      ensures nocopy != null ==> nocopy.finReached == old(nocopy.finReached)
      ensures NothingMadeUp(old(Stored()), Stored(), frame)
      ensures ins == InsOk || ins == InsDup ==> TakenIn(old(Stored()), Stored(), frame, readOffset)
      ensures Final() == if ins == InsOk && frame.fin then Some(frame.End()) else old(Final())
      ensures (ins == InsOk || ins == InsDup) && frame.fin ==> Final() == Some(frame.End())
      ensures old(Final()).Some? ==> Final() == old(Final())
      ensures old(MustRefuse(Final(), frame, readOffset)) ==> ins == InsErr
      ensures ins == InsErr && !oom ==>
                || old(Broken())
                || FinalSizeError(old(Final()), frame, readOffset)
                || (frame.fin && PastEnd(frame))
      ensures ins == InsOverlap ==> nocopy != null && nocopy.frames == old(nocopy.frames) && !nocopy.finReached
      ensures ins == InsOverlap ==> old(Touched(frame))
      ensures oom || Broken() ==> ins == InsErr
      ensures ins == InsOk && nocopy != null ==> !nocopy.finReached
      ensures Advised(ins == InsOk, old(ListFrames()))
      ensures forall end: nat :: Overrun(end) ==> old(Overrun(end)) || frame.End() > end
      ensures forall end: nat :: old(Clear(end)) && frame.data != [] && frame.End() <= end ==> Clear(end)
    {
      oom := false;
      if nocopy != null {
        ins := InsertToList(frame);
      } else if hash != null {
        ins, oom := InsertToHash(frame, plenty);
      } else {
        ins := InsErr;
      }
    }

    /** Some frame of the list ends after `end`, or some block starts there, maybe without bytes. */
    ghost predicate Overrun(end: nat)
      reads `nocopy, `hash, `readOffset, nocopy, hash
      requires Live()
    {
      || (nocopy != null && EndsPast(nocopy.frames, end))
      || (hash != null && exists k :: k in hash.Keys() && end < k)
    }

    /** There is something after the final size. */
    ghost predicate Overran()
      reads `nocopy, `hash, `readOffset, nocopy, hash
      requires Live()
    {
      Final().Some? && Overrun(Final().value)
    }

    method InsertToList(frame: DataFrame) returns (ins: InsFrame)
      requires nocopy != null && hash == null && nocopy.Valid(readOffset)
      modifies nocopy
      ensures nocopy.Valid(readOffset) && nocopy.finReached == old(nocopy.finReached)
      ensures NothingMadeUp(old(nocopy.Stored()), nocopy.Stored(), frame)
      ensures ins == InsOk || ins == InsDup ==> TakenIn(old(nocopy.Stored()), nocopy.Stored(), frame, readOffset)
      ensures Final() == if ins == InsOk && frame.fin then Some(frame.End()) else old(Final())
      ensures (ins == InsOk || ins == InsDup) && frame.fin ==> Final() == Some(frame.End())
      ensures old(Final()).Some? ==> Final() == old(Final())
      ensures old(MustRefuse(Final(), frame, readOffset)) ==> ins == InsErr
      ensures ins == InsErr ==> FinalSizeError(old(Final()), frame, readOffset)
      ensures ins == InsOverlap ==> nocopy.frames == old(nocopy.frames) && !nocopy.finReached
      ensures ins == InsOk ==> !nocopy.finReached
      ensures Advised(ins == InsOk, old(nocopy.frames))
      ensures forall end: nat :: EndsPast(nocopy.frames, end) ==> old(EndsPast(nocopy.frames, end)) || frame.End() > end
      ensures SomeEmpty(nocopy.frames) ==> old(SomeEmpty(nocopy.frames)) || frame.data == []
      ensures ins == InsOverlap && frame.data != [] && !SomeEmpty(nocopy.frames) ==>
                frame.offset < readOffset || exists o :: o in nocopy.Stored() && Covers(frame, o)
    {
      ghost var m, before := nocopy.Stored(), nocopy.frames;
      ghost var pos;
      ins, pos := nocopy.InsertFrame(frame, readOffset);
      if ins == InsOk {
        ghost var f := StreamFrame(frame, 0);
        InsertedEnds(before, nocopy.frames, pos, f);
        OverlayTakesIn(m, nocopy.Stored(), frame, readOffset);
      } else {
        assert NothingMadeUp(m, m, frame);
        if ins == InsOverlap && frame.data != [] && !SomeEmpty(before) {
          TouchesSomething(before, frame, readOffset);
        }
      }
    }

    method InsertToHash(frame: DataFrame, plenty: bool) returns (ins: InsFrame, oom: bool)
      requires nocopy == null && hash != null && hash.Valid()
      modifies hash
      ensures hash.Valid() && hash.switchImpl == old(hash.switchImpl)
      ensures plenty ==> !oom
      ensures NothingMadeUp(old(hash.Stored()), hash.Stored(), frame)
      ensures ins == InsOk || ins == InsDup ==> TakenIn(old(hash.Stored()), hash.Stored(), frame, readOffset)
      ensures Final() == if ins == InsOk && frame.fin then Some(frame.End()) else old(Final())
      ensures ins == InsDup ==> !frame.fin
      ensures old(Final()).Some? ==> Final() == old(Final())
      ensures old(MustRefuse(Final(), frame, readOffset)) ==> ins == InsErr
      ensures ins == InsErr && !oom ==>
                || FinalSizeError(old(Final()), frame, readOffset)
                || (frame.fin && BytesAfter(hash.Stored(), frame.End()))
                || (frame.fin && exists k :: k in hash.Keys() && frame.End() < k)
                || (frame.fin && frame.End() in hash.Keys() && readOffset < frame.End() && frame.data != [])
      ensures ins != InsOverlap && (oom ==> ins == InsErr)
      ensures KeysGrown(old(hash.Keys()), hash.Keys(), Fresh(frame, readOffset), frame.End())
    {
      ghost var m, refused := hash.Stored(), hash.Refused(frame, readOffset);
      ghost var written;
      ins, oom, written := hash.InsertDataFrame(frame, readOffset, plenty);
      if refused {
        assert NothingMadeUp(m, m, frame);
      } else {
        TailTakesIn(m, hash.Stored(), frame, readOffset, written);
        if ins == InsErr && !oom {
          PastReason(hash.Stored(), hash.Keys(), frame, readOffset);
        }
      }
    }

    /** Inserts a frame, switching to the hash if it overlaps what is in the list. */
    method InsertOrSwitch(frame: DataFrame, plenty: bool) returns (ins: InsFrame, oom: bool)
      requires Valid()
      modifies `nocopy, `hash, nocopy, hash
      ensures Valid()
      ensures plenty ==> !oom
      ensures nocopy != null ==> nocopy == old(nocopy) && (ins == InsOk ==> !nocopy.finReached)
      ensures hash != null ==> hash == old(hash) || fresh(hash)
      ensures NothingMadeUp(old(Stored()), Stored(), frame)
      ensures ins == InsOk || ins == InsDup ==> TakenIn(old(Stored()), Stored(), frame, readOffset)
      ensures ins == InsOk && frame.fin ==> Final() == Some(frame.End())
      ensures ins == InsDup && frame.fin ==> Final() == Some(frame.End())
      ensures !(ins == InsOk && frame.fin) && !Broken() ==> Final() == old(Final())
      ensures old(Final()).Some? && !Broken() ==> Final() == old(Final())
      ensures old(MustRefuse(Final(), frame, readOffset)) ==> ins == InsErr
      ensures ins == InsErr && !oom ==>
                || old(Broken())
                || FinalSizeError(old(Final()), frame, readOffset)
                || old(Overran())
                || (frame.fin && PastEnd(frame))
      ensures ins != InsOverlap
      ensures Advised(ins == InsOk, old(ListFrames()))
      ensures old(hash) == null && hash != null ==> old(Touched(frame))
      ensures old(hash) != null ==> hash == old(hash) && nocopy == null
      ensures ins == InsOk || ins == InsDup ==> !Broken()
      ensures forall end: nat :: Overrun(end) ==> old(Overrun(end)) || frame.End() > end
      ensures forall end: nat :: old(Clear(end)) && frame.data != [] && frame.End() <= end ==> Clear(end)
    {
      ghost var m := Stored();
      ins, oom := InsertFrame(frame, plenty);
      if ins == InsOverlap {
        ghost var m1 := Stored();
        var ok;
        ok, oom := ToHash(plenty);
        if !ok {
          ins := InsErr;
          return;
        }
        ghost var m2 := Stored();
        ins, oom := InsertFrame(frame, plenty);
        ghost var m3 := Stored();
        RetryTakesIn(m, m1, m2, m3, frame, readOffset);
      }
    }

    /** The final size that the stream has noted is not the end of `frame`, which has FIN. */
    ghost predicate NewFinalSize(frame: DataFrame)
      reads `finRecvd, `finOff
    {
      ietf && frame.fin && finRecvd && finOff != frame.End()
    }

    /**
     Receives a STREAM frame; `withinLimit` is the answer of flow control.  A frame
     that is not accepted may still have left bytes behind.
     */
    method FrameIn(frame: DataFrame, withinLimit: bool, plenty: bool) returns (ok: bool, oom: bool)
      requires Valid()
      modifies `nocopy, `hash, `finRecvd, `finOff, nocopy, hash
      ensures Valid()
      ensures plenty ==> !oom
      ensures nocopy != null ==> nocopy == old(nocopy) || fresh(nocopy)
      ensures hash != null ==> hash == old(hash) || fresh(hash)
      ensures !autoswitch && old(hash) == null && hash != null ==> old(Touched(frame))
      ensures !autoswitch && old(hash) != null ==> hash != null
      ensures NothingMadeUp(old(Stored()), Stored(), frame)
      ensures ok ==> !Broken() && TakenIn(old(Stored()), Stored(), frame, readOffset)
      ensures ok && frame.fin ==> Final() == Some(frame.End())
      ensures old(MustRefuse(Final(), frame, readOffset) || NewFinalSize(frame)) ==> !ok
      ensures !frame.fin && !Broken() ==> Final() == old(Final())
      ensures old(Final()).Some? && !Broken() ==> Final() == old(Final())
      ensures Final() == old(Final()) || Final() == None || (frame.fin && Final() == Some(frame.End()))
      ensures !ok && !oom && withinLimit ==>
                || old(Broken())
                || old(NewFinalSize(frame))
                || FinalSizeError(old(Final()), frame, readOffset)
                || old(Overran())
                || (frame.fin && old(Overrun(frame.End())))
                || (frame.fin && PastEnd(frame))
      ensures autoswitch && ok && nocopy != null && nocopy.frames != old(ListFrames()) ==> !nocopy.TooSlow() && !nocopy.switchImpl
      ensures old(finRecvd) ==> finRecvd && (ietf ==> finOff == old(finOff))
      ensures finRecvd ==> (old(finRecvd) && finOff == old(finOff)) || (frame.fin && finOff == frame.End())
      ensures forall end: nat :: Overrun(end) ==> old(Overrun(end)) || frame.End() > end
      ensures forall end: nat :: old(Clear(end)) && frame.data != [] && frame.End() <= end ==> Clear(end)
    {
      if frame.fin && ietf && finRecvd && finOff != frame.End() {
        return false, false;
      }
      ok, oom := Accept(frame, withinLimit, plenty);
    }

    /** The same for a frame that brings no other final size than the one noted. */
    method Accept(frame: DataFrame, withinLimit: bool, plenty: bool) returns (ok: bool, oom: bool)
      requires Valid() && !NewFinalSize(frame)
      modifies `nocopy, `hash, `finRecvd, `finOff, nocopy, hash
      ensures Valid()
      ensures plenty ==> !oom
      ensures nocopy != null ==> nocopy == old(nocopy) || fresh(nocopy)
      ensures hash != null ==> hash == old(hash) || fresh(hash)
      ensures !autoswitch && old(hash) == null && hash != null ==> old(Touched(frame))
      ensures !autoswitch && old(hash) != null ==> hash != null
      ensures NothingMadeUp(old(Stored()), Stored(), frame)
      ensures ok ==> !Broken() && TakenIn(old(Stored()), Stored(), frame, readOffset)
      ensures ok && frame.fin ==> Final() == Some(frame.End())
      ensures old(MustRefuse(Final(), frame, readOffset)) ==> !ok
      ensures !frame.fin && !Broken() ==> Final() == old(Final())
      ensures old(Final()).Some? && !Broken() ==> Final() == old(Final())
      ensures Final() == old(Final()) || Final() == None || (frame.fin && Final() == Some(frame.End()))
      ensures !ok && !oom && withinLimit ==>
                || old(Broken())
                || FinalSizeError(old(Final()), frame, readOffset)
                || old(Overran())
                || (frame.fin && old(Overrun(frame.End())))
                || (frame.fin && PastEnd(frame))
      ensures autoswitch && ok && nocopy != null && nocopy.frames != old(ListFrames()) ==> !nocopy.TooSlow() && !nocopy.switchImpl
      ensures old(finRecvd) ==> finRecvd && (ietf ==> finOff == old(finOff))
      ensures finRecvd ==> (old(finRecvd) && finOff == old(finOff)) || (frame.fin && finOff == frame.End())
      ensures forall end: nat :: Overrun(end) ==> old(Overrun(end)) || frame.End() > end
      ensures forall end: nat :: old(Clear(end)) && frame.data != [] && frame.End() <= end ==> Clear(end)
    {
      ghost var m := Stored();
      var ins;
      ins, oom := InsertOrSwitch(frame, plenty);
      if ins == InsOk {
        ok, oom := Settle(frame, withinLimit, plenty, m);
      } else {
        ok := ins == InsDup;
      }
    }

    /** What follows an insertion of `frame` into a buffer that held `m`. */
    method Settle(frame: DataFrame, withinLimit: bool, plenty: bool, ghost m: Bytes) returns (ok: bool, oom: bool)
      requires Valid() && !Broken() && (nocopy != null ==> !nocopy.finReached)
      requires NothingMadeUp(m, Stored(), frame) && TakenIn(m, Stored(), frame, readOffset)
      modifies `nocopy, `hash, `finRecvd, `finOff
      ensures Valid()
      ensures plenty ==> !oom
      ensures nocopy != null ==> nocopy == old(nocopy) || fresh(nocopy)
      ensures hash != null ==> hash == old(hash) || fresh(hash)
      ensures !autoswitch ==> nocopy == old(nocopy) && hash == old(hash)
      ensures autoswitch && ok && nocopy != null ==> !nocopy.switchImpl && (nocopy == old(nocopy) || nocopy.frames == [])
      ensures NothingMadeUp(m, Stored(), frame)
      ensures ok ==> !Broken() && TakenIn(m, Stored(), frame, readOffset)
      ensures Final() == if Broken() then None else old(Final())
      ensures !ok && !oom && withinLimit ==> old(Overran())
      ensures if withinLimit && frame.fin then finRecvd && finOff == frame.End()
              else finRecvd == old(finRecvd) && finOff == old(finOff)
      ensures forall end: nat :: Overrun(end) ==> old(Overrun(end))
      ensures forall end: nat :: old(Clear(end)) ==> Clear(end)
    {
      if !withinLimit {
        return false, false;
      }
      NoteFin(frame);
      assert Valid() && Stored() == old(Stored()) && Final() == old(Final());
      ok, oom := SwitchAfter(frame, plenty, m);
    }

    /** The stream notes its final size. */
    method NoteFin(frame: DataFrame)
      modifies `finRecvd, `finOff
      ensures if frame.fin then finRecvd && finOff == frame.End() else finRecvd == old(finRecvd) && finOff == old(finOff)
    {
      if frame.fin {
        finRecvd, finOff := true, frame.End();
      }
    }

    /** The switch that an insertion may bring. */
    method SwitchAfter(frame: DataFrame, plenty: bool, ghost m: Bytes) returns (ok: bool, oom: bool)
      requires Valid() && !Broken() && (nocopy != null ==> !nocopy.finReached)
      requires NothingMadeUp(m, Stored(), frame) && TakenIn(m, Stored(), frame, readOffset)
      modifies `nocopy, `hash
      ensures Valid() && (plenty ==> !oom)
      ensures nocopy != null ==> nocopy == old(nocopy) || fresh(nocopy)
      ensures hash != null ==> hash == old(hash) || fresh(hash)
      ensures !autoswitch ==> nocopy == old(nocopy) && hash == old(hash)
      ensures autoswitch && ok && nocopy != null ==> !nocopy.switchImpl && (nocopy == old(nocopy) || nocopy.frames == [])
      ensures NothingMadeUp(m, Stored(), frame)
      ensures ok ==> !Broken() && TakenIn(m, Stored(), frame, readOffset)
      ensures Final() == if Broken() then None else old(Final())
      ensures !ok && !oom ==> old(Overran())
      ensures forall end: nat :: Overrun(end) ==> old(Overrun(end))
      ensures forall end: nat :: old(Clear(end)) ==> Clear(end)
    {
      ghost var m1 := Stored();
      ok, oom := MaybeSwitch(plenty);
      ghost var m2 := Stored();
      SwitchKeeps(m, m1, m2, frame, readOffset);
    }

    // ---------- Reading ----------

    /** `view` is what the buffer in use has at the read offset. */
    ghost predicate Offered(view: FrameView)
      reads `nocopy, `hash, `readOffset, nocopy, hash
      requires Live()
    {
      if nocopy != null then
        && nocopy.frames != [] && nocopy.frames[0].ROff() == readOffset
        && view.unread == nocopy.frames[0].frame.data[nocopy.frames[0].readOff..]
        && view.fin == nocopy.frames[0].frame.fin
        && nocopy.frames[0].readOff + |view.unread| == nocopy.frames[0].Size()
      else
        hash != null && FrameAt(hash.Stored(), hash.finSet, hash.finOff, readOffset, view) && hash.FrameFrom(readOffset, view)
    }

    /** The frame at the read offset. */
    method GetFrame() returns (view: Option<FrameView>)
      requires Valid()
      modifies hash
      ensures Valid() && Stored() == old(Stored()) && Final() == old(Final())
      ensures view.Some? ==> Offered(view.value) && StoredRun(Stored(), readOffset, view.value.unread)
      ensures view.Some? && view.value.unread == [] && !view.value.fin ==> nocopy != null
      ensures forall end: nat :: Overrun(end) ==> old(Overrun(end))
      ensures forall end: nat :: old(Clear(end)) ==> Clear(end)
      ensures view.Some? && view.value.fin ==> EndsAt(Stored(), Final(), readOffset + |view.value.unread|, hash != null)
      ensures view.None? ==> readOffset !in Stored() && (finReached || Final() != Some(readOffset))
    {
      if nocopy != null {
        view := nocopy.GetFrame(readOffset);
      } else if hash != null {
        view := HashFrame();
      } else {
        view := None;
      }
    }

    method HashFrame() returns (view: Option<FrameView>)
      requires hash != null && hash.Valid()
      modifies hash`lastBlock
      ensures hash.Valid() && hash.Stored() == old(hash.Stored()) && hash.Keys() == old(hash.Keys())
      ensures view.Some? ==>
                FrameAt(hash.Stored(), hash.finSet, hash.finOff, readOffset, view.value) && hash.FrameFrom(readOffset, view.value)
      ensures view.Some? && view.value.unread == [] ==> view.value.fin
      ensures view.Some? && view.value.fin ==>
                hash.finSet && EndsAt(hash.Stored(), Some(hash.finOff), readOffset + |view.value.unread|, true)
      ensures view.None? ==> readOffset !in hash.Stored() && !(hash.finSet && hash.finOff == readOffset)
    {
      view := hash.GetFrame(readOffset);
      if view.Some? && view.value.fin && !BytesAfter(hash.Stored(), hash.finOff) {
        if view.value.unread != [] {
          StoredInBlock(hash.buckets, hash.nbits, readOffset);
        }
        FinIsEnd(hash.Stored(), hash.finSet, hash.finOff, readOffset, view.value);
      }
    }

    /** The reader has taken `n` bytes of the frame. */
    method Advance(view: FrameView, n: nat)
      requires Valid() && Offered(view) && n <= |view.unread|
      modifies `readOffset, nocopy
      ensures Valid() && readOffset == old(readOffset) + n
      ensures Stored() == old(Stored()) && Final() == old(Final()) && FrameCount() == old(FrameCount())
      ensures forall end: nat :: Overrun(end) ==> old(Overrun(end))
      ensures forall end: nat :: old(Clear(end)) ==> Clear(end)
      ensures nocopy != null ==>
                && nocopy.finReached == old(nocopy.finReached)
                && nocopy.frames != [] && nocopy.frames[0].ROff() == readOffset && nocopy.frames[0].frame.fin == view.fin
                && (n == |view.unread| ==> nocopy.frames[0].readOff == nocopy.frames[0].Size())
    {
      var ro := readOffset;
      var after := ro + n;
      if nocopy != null {
        nocopy.Advance(ro, n, after);
      }
      readOffset := after;
    }

    /** The reader has taken all bytes of the frame. */
    method FrameDone(view: FrameView)
      requires Valid() && AllTaken(view)
      modifies nocopy, hash
      ensures Live()
      ensures From(Stored(), readOffset) == From(old(Stored()), readOffset) && Within(Stored(), old(Stored()))
      ensures Final() == old(Final())
      ensures nocopy != null ==> FrameCount() < old(FrameCount()) && nocopy.finReached == (old(nocopy.finReached) || view.fin)
      ensures forall end: nat :: Overrun(end) ==> old(Overrun(end))
      ensures forall end: nat :: old(Clear(end)) ==> Clear(end)
    {
      if nocopy != null {
        ListDone();
      } else if hash != null {
        hash.FrameDone(view.size, readOffset);
      }
    }

    method ListDone()
      requires nocopy != null && nocopy.Valid(readOffset)
      requires nocopy.frames != [] && nocopy.frames[0].ROff() == readOffset && nocopy.frames[0].readOff == nocopy.frames[0].Size()
      modifies nocopy
      ensures nocopy.Valid(readOffset) && nocopy.finSet == old(nocopy.finSet) && nocopy.finOff == old(nocopy.finOff)
      ensures From(nocopy.Stored(), readOffset) == From(old(nocopy.Stored()), readOffset)
      ensures Within(nocopy.Stored(), old(nocopy.Stored()))
      ensures nocopy.finReached == (old(nocopy.finReached) || old(nocopy.frames[0]).frame.fin)
      ensures |nocopy.frames| < |old(nocopy.frames)|
      ensures forall end: nat :: EndsPast(nocopy.frames, end) ==> EndsPast(old(nocopy.frames), end)
      ensures SomeEmpty(nocopy.frames) ==> SomeEmpty(old(nocopy.frames))
    {
      ghost var frames := nocopy.frames;
      RemovedEnds(frames, frames[1..]);
      nocopy.FrameDone(readOffset);
    }

    /** One turn of the read loop. */
    method ReadFrame(greedy: bool, plenty: bool) returns (turn: Turn, bytes: seq<byte>)
      requires Valid()
      modifies `nocopy, `hash, `readOffset, `finReached, nocopy, hash
      ensures Valid()
      ensures (greedy ==> turn != Short) && (plenty && turn.Failed? ==> !turn.oom)
      ensures nocopy != null ==> nocopy == old(nocopy) || fresh(nocopy)
      ensures hash != null ==> hash == old(hash) || fresh(hash)
      ensures !autoswitch ==> nocopy == old(nocopy) && hash == old(hash)
      ensures WasRead(old(Stored()), Stored(), old(readOffset), readOffset, bytes)
      ensures turn.Failed? ==> Broken()
      ensures Broken() ==> turn.Failed? || old(Broken())
      ensures turn.Failed? && !turn.oom ==> old(Overran())
      ensures old(Broken()) ==> turn == NoFrame && Broken()
      ensures !turn.Failed? ==> From(Stored(), readOffset) == From(old(Stored()), readOffset)
      ensures !turn.Failed? && turn != EndOfStream && !finReached ==> Final() == old(Final())
      ensures Final() == old(Final()) || Final() == None
      ensures finReached == (old(finReached) || turn == EndOfStream)
      ensures turn == EndOfStream ==> EndsAt(old(Stored()), old(Final()), readOffset, old(hash) != null)
      ensures turn == NoFrame ==>
                bytes == [] && readOffset !in Stored() && (finReached || Final() != Some(readOffset))
      ensures turn == More && bytes == [] ==> FrameCount() < old(FrameCount())
      ensures forall end: nat :: Overrun(end) ==> old(Overrun(end))
      ensures forall end: nat :: old(Clear(end)) ==> Clear(end)
    {
      var offered, n := Offer(greedy);
      if offered.None? {
        return NoFrame, [];
      }
      var view := offered.value;
      bytes := view.unread[..n];
      if n < |view.unread| {
        return Short, bytes;
      }
      turn := Finish(view, plenty);
    }

    /** Shows the reader the frame at the read offset, of which it takes `n` bytes. */
    method Offer(greedy: bool) returns (offered: Option<FrameView>, n: nat)
      requires Valid()
      modifies `readOffset, nocopy, hash
      ensures Valid() && Stored() == old(Stored()) && Final() == old(Final()) && FrameCount() == old(FrameCount())
      ensures offered.None? ==>
                readOffset == old(readOffset) && readOffset !in Stored() && (finReached || Final() != Some(readOffset))
      ensures Broken() ==> offered.None?
      ensures offered.Some? ==>
                && n <= |offered.value.unread|
                && (greedy ==> n == |offered.value.unread|)
                && WasRead(old(Stored()), Stored(), old(readOffset), readOffset, offered.value.unread[..n])
                && (n == |offered.value.unread| ==> AllTaken(offered.value))
                && (offered.value.unread == [] && !offered.value.fin ==> nocopy != null)
                && (offered.value.fin && n == |offered.value.unread| ==> EndsAt(Stored(), Final(), readOffset, hash != null))
      ensures forall end: nat :: Overrun(end) ==> old(Overrun(end))
      ensures forall end: nat :: old(Clear(end)) ==> Clear(end)
    {
      offered := GetFrame();
      n := 0;
      if offered.Some? {
        ghost var m, ro, all := Stored(), readOffset, offered.value.unread;
        n := Serve(offered.value, greedy);
        ghost var taken := all[..n];
        StoredPrefix(m, ro, all, n, taken);
      }
    }

    /** The reader takes what it likes of a frame. */
    method Serve(view: FrameView, greedy: bool) returns (n: nat)
      requires Valid() && Offered(view)
      modifies `readOffset, nocopy
      ensures Valid() && Stored() == old(Stored()) && Final() == old(Final()) && FrameCount() == old(FrameCount())
      ensures n <= |view.unread| && (greedy ==> n == |view.unread|) && readOffset == old(readOffset) + n
      ensures n == |view.unread| ==> AllTaken(view)
      ensures forall end: nat :: Overrun(end) ==> old(Overrun(end))
      ensures forall end: nat :: old(Clear(end)) ==> Clear(end)
    {
      n := Readf(view.unread, greedy);
      LastBlockIs(view);
      Advance(view, n);
    }

    /** The reader is at the end of the frame that was handed out last. */
    ghost predicate AllTaken(view: FrameView)
      reads `nocopy, `hash, `readOffset, nocopy, hash
      requires Live()
    {
      && (nocopy != null ==>
            && nocopy.frames != [] && nocopy.frames[0].ROff() == readOffset && nocopy.frames[0].frame.fin == view.fin
            && nocopy.frames[0].readOff == nocopy.frames[0].Size())
      && (hash != null && hash.lastBlock.Some? ==>
            && hash.lastBlock.value in hash.Keys() && view.size <= DB_DATA_SIZE
            && readOffset == hash.lastBlock.value + view.size)
    }

    /** Where the last block is when all of `view` has been read. */
    lemma LastBlockIs(view: FrameView)
      requires Valid() && Offered(view)
      ensures hash != null && hash.lastBlock.Some? ==>
                && hash.lastBlock.value in hash.Keys() && view.size <= DB_DATA_SIZE
                && readOffset + |view.unread| == hash.lastBlock.value + view.size
    {
    }

    /** The end of a turn in which the whole frame was read. */
    method Finish(view: FrameView, plenty: bool) returns (turn: Turn)
      requires Valid() && !Broken() && AllTaken(view)
      modifies `nocopy, `hash, `finReached, nocopy, hash
      ensures Valid()
      ensures plenty && turn.Failed? ==> !turn.oom
      ensures nocopy != null ==> nocopy == old(nocopy) || fresh(nocopy)
      ensures hash != null ==> hash == old(hash) || fresh(hash)
      ensures !autoswitch ==> nocopy == old(nocopy) && hash == old(hash)
      ensures Within(Stored(), old(Stored()))
      ensures turn.Failed? <==> Broken()
      ensures turn.Failed? && !turn.oom ==> old(Overran())
      ensures !turn.Failed? ==>
                && turn == (if view.fin then EndOfStream else More)
                && From(Stored(), readOffset) == From(old(Stored()), readOffset)
      ensures finReached == (old(finReached) || turn == EndOfStream)
      ensures turn == More && !finReached ==> Final() == old(Final())
      ensures Final() == old(Final()) || Final() == None
      ensures old(nocopy) != null ==> FrameCount() < old(FrameCount())
      ensures forall end: nat :: Overrun(end) ==> old(Overrun(end))
      ensures forall end: nat :: old(Clear(end)) ==> Clear(end)
    {
      var ok, oom := Release(view, plenty);
      assert readOffset == old(readOffset) && finReached == old(finReached);
      if !ok {
        return Failed(oom);
      }
      turn := More;
      if view.fin {
        finReached := true;
        turn := EndOfStream;
      }
    }

    /** Gives the frame back, and follows the buffer's advice to switch. */
    method Release(view: FrameView, plenty: bool) returns (ok: bool, oom: bool)
      requires Valid() && !Broken() && AllTaken(view)
      modifies `nocopy, `hash, nocopy, hash
      ensures Live() && (autoswitch && hash != null ==> !hash.switchImpl) && (plenty ==> !oom)
      ensures nocopy != null ==>
                (nocopy == old(nocopy) || fresh(nocopy)) && (nocopy.finReached ==> old(finReached) || view.fin)
      ensures hash != null ==> hash == old(hash) || fresh(hash)
      ensures !autoswitch ==> nocopy == old(nocopy) && hash == old(hash)
      ensures Within(Stored(), old(Stored()))
      ensures ok <==> !Broken()
      ensures !ok && !oom ==> old(Overran())
      ensures ok ==> From(Stored(), readOffset) == From(old(Stored()), readOffset)
      ensures ok && !view.fin && !finReached ==> Final() == old(Final())
      ensures Final() == old(Final()) || Final() == None
      ensures old(nocopy) != null ==> FrameCount() < old(FrameCount())
      ensures forall end: nat :: Overrun(end) ==> old(Overrun(end))
      ensures forall end: nat :: old(Clear(end)) ==> Clear(end)
    {
      FrameDone(view);
      ok, oom := MaybeSwitch(plenty);
    }

    /** There are finitely many bytes. */
    lemma Limit() returns (limit: nat)
      requires Live()
      ensures Bounded(Stored(), limit)
    {
      limit := 0;
      if nocopy != null {
        limit := LastEnd(nocopy.frames);
        forall o | o in Stored()
          ensures o < limit
        {
          BytesBelowEnd(nocopy.frames, o);
        }
      } else if hash != null {
        limit := Bound(hash.buckets);
        forall o | o in Stored()
          ensures o < limit
        {
          StoredBelowBound(hash.buckets, hash.nbits, o);
        }
      }
    }

    /**
     Hands bytes to the reader until there are none, the stream ends, or the reader
     has taken less than it was offered.
     */
    method Read(greedy: bool, plenty: bool) returns (last: Turn, bytes: seq<byte>)
      requires Valid()
      modifies `nocopy, `hash, `readOffset, `finReached, nocopy, hash
      ensures Valid()
      ensures (greedy ==> last != Short) && (plenty && last.Failed? ==> !last.oom)
      ensures nocopy != null ==> nocopy == old(nocopy) || fresh(nocopy)
      ensures hash != null ==> hash == old(hash) || fresh(hash)
      ensures !autoswitch ==> nocopy == old(nocopy) && hash == old(hash)
      ensures WasRead(old(Stored()), Stored(), old(readOffset), readOffset, bytes)
      ensures last.Failed? ==> Broken()
      ensures Broken() ==> last.Failed? || old(Broken())
      ensures last.Failed? && !last.oom ==> old(Overran())
      ensures !last.Failed? ==> From(Stored(), readOffset) == From(old(Stored()), readOffset)
      ensures !last.Failed? && !finReached ==> Final() == old(Final())
      ensures Final() == old(Final()) || Final() == None
      ensures finReached == (old(finReached) || last == EndOfStream)
      ensures last == EndOfStream && !old(finReached) ==> EndsAt(old(Stored()), old(Final()), readOffset, old(hash) != null || autoswitch)
      ensures last == NoFrame ==> readOffset !in Stored() && (finReached || Final() != Some(readOffset))
      ensures last != More
      ensures forall end: nat :: Overrun(end) ==> old(Overrun(end))
      ensures forall end: nat :: old(Clear(end)) ==> Clear(end)
    {
      ghost var m, from, known := Stored(), readOffset, Final();
      ghost var limit := Limit();
      bytes, last := [], More;
      while last == More
        invariant Valid()
        invariant nocopy != null ==> nocopy == old(nocopy) || fresh(nocopy)
        invariant hash != null ==> hash == old(hash) || fresh(hash)
        invariant !autoswitch ==> nocopy == old(nocopy) && hash == old(hash)
        invariant WasRead(m, Stored(), from, readOffset, bytes)
        invariant (greedy ==> last != Short) && (plenty && last.Failed? ==> !last.oom)
        invariant last.Failed? ==> Broken()
        invariant Broken() ==> last.Failed? || old(Broken())
        invariant last.Failed? && !last.oom ==> old(Overran())
        invariant old(Broken()) ==> Broken()
        invariant !last.Failed? ==> From(Stored(), readOffset) == From(m, readOffset)
        invariant !last.Failed? && !finReached ==> Final() == old(Final())
        invariant Final() == old(Final()) || Final() == None
        invariant finReached == (old(finReached) || last == EndOfStream)
        invariant last == EndOfStream && !old(finReached) ==> EndsAt(m, known, readOffset, old(hash) != null || autoswitch)
        invariant last == NoFrame ==> readOffset !in Stored() && (finReached || Final() != Some(readOffset))
        invariant forall end: nat :: Overrun(end) ==> old(Overrun(end))
        invariant forall end: nat :: old(Clear(end)) ==> Clear(end)
        decreases last == More, limit - readOffset, FrameCount()
      {
        last, bytes := ReadMore(greedy, plenty, bytes, m, from, limit);
      }
    }

    /** One turn of the read loop, after which `bytes'` have been read of `m` from `from` on. */
    method ReadMore(greedy: bool, plenty: bool, bytes: seq<byte>, ghost m: Bytes, ghost from: nat, ghost limit: nat)
      returns (turn: Turn, bytes': seq<byte>)
      requires Valid() && WasRead(m, Stored(), from, readOffset, bytes) && Bounded(m, limit)
      modifies `nocopy, `hash, `readOffset, `finReached, nocopy, hash
      ensures Valid()
      ensures (greedy ==> turn != Short) && (plenty && turn.Failed? ==> !turn.oom)
      ensures nocopy != null ==> nocopy == old(nocopy) || fresh(nocopy)
      ensures hash != null ==> hash == old(hash) || fresh(hash)
      ensures !autoswitch ==> nocopy == old(nocopy) && hash == old(hash)
      ensures WasRead(m, Stored(), from, readOffset, bytes')
      ensures turn.Failed? ==> Broken()
      ensures Broken() ==> turn.Failed? || old(Broken())
      ensures turn.Failed? && !turn.oom ==> old(Overran())
      ensures old(Broken()) ==> turn == NoFrame && Broken()
      ensures !turn.Failed? && From(old(Stored()), old(readOffset)) == From(m, old(readOffset)) ==>
                From(Stored(), readOffset) == From(m, readOffset)
      ensures !turn.Failed? && turn != EndOfStream && !finReached ==> Final() == old(Final())
      ensures Final() == old(Final()) || Final() == None
      ensures finReached == (old(finReached) || turn == EndOfStream)
      ensures turn == EndOfStream ==> EndsAt(m, old(Final()), readOffset, old(hash) != null)
      ensures turn == NoFrame ==> readOffset !in Stored() && (finReached || Final() != Some(readOffset))
      ensures turn == More && readOffset == old(readOffset) ==> FrameCount() < old(FrameCount())
      ensures old(readOffset) <= readOffset && (old(readOffset) < readOffset ==> readOffset <= limit)
      ensures forall end: nat :: Overrun(end) ==> old(Overrun(end))
      ensures forall end: nat :: old(Clear(end)) ==> Clear(end)
    {
      ghost var m1, ro, known, hashed := Stored(), readOffset, Final(), hash != null;
      var more;
      turn, more := ReadFrame(greedy, plenty);
      ghost var m2, next := Stored(), readOffset;
      bytes' := bytes + more;
      ReadJoin(m, m1, m2, from, bytes, ro, more, bytes', next);
      if turn == EndOfStream {
        EndsAtKept(m, m1, known, next, hashed);
      }
      if more != [] {
        RunBelow(m, limit, from, bytes');
      }
    }
  }
}
