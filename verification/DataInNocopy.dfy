/** The buffer that does not copy: received frames stay in a sorted list. */
module DataInNocopy {
  import opened Wrappers
  import opened StreamBytes
  import opened FrameLists
  import opened DataBlocks
  import opened BlockTables
  import opened DataInHash

  const EFF_CHECK_THRESH_LOW := 10
  const EFF_CHECK_THRESH_HIGH := 1000
  const EFF_FAR_TRAVERSE_COUNT := 4
  const EFF_MAX_HOLES := 5
  const EFF_TINY_FRAME_SZ := 64

  // ---------- What the list keeps ----------

  /** Nothing unread is before the read offset, and only the first frame is partly read. */
  ghost predicate ReadUpTo(frames: Frames, readOffset: nat) {
    forall i | 0 <= i < |frames| :: ReadTo(frames[i], readOffset, i == 0)
  }

  ghost predicate ReadTo(f: StreamFrame, readOffset: nat, first: bool) {
    && f.readOff <= f.Size()
    && readOffset <= f.ROff()
    && (f.readOff > 0 ==> first && f.ROff() == readOffset)
  }

  /** All frames with FIN end at the one final size. */
  ghost predicate FinsAgree(frames: Frames, finSet: bool, finOff: nat) {
    forall i | 0 <= i < |frames| :: frames[i].frame.fin ==> finSet && frames[i].End() == finOff
  }

  ghost predicate HasFin(frames: Frames) {
    exists i | 0 <= i < |frames| :: frames[i].frame.fin
  }

  /** The running counters are exact. */
  ghost predicate Counted(frames: Frames, nFrames: nat, nHoles: nat, byteage: nat) {
    Ordered(frames) && nFrames == |frames| && nHoles == Holes(frames) && byteage == TotalSize(frames)
  }

  /** What the buffer knows about the final size; until FIN is read, a frame has it. */
  ghost predicate FinKnown(frames: Frames, finSet: bool, finOff: nat, finReached: bool) {
    && FinsAgree(frames, finSet, finOff)
    && (finReached ==> finSet)
    && (finSet && !finReached ==> HasFin(frames))
  }

  /** All that a list and its counters keep. */
  ghost predicate ListOk(frames: Frames, nFrames: nat, nHoles: nat, byteage: nat, finSet: bool, finOff: nat, finReached: bool,
                         readOffset: nat)
  {
    && Counted(frames, nFrames, nHoles, byteage)
    && ReadUpTo(frames, readOffset)
    && FinKnown(frames, finSet, finOff, finReached)
    && (finReached ==> finOff <= readOffset)
  }

  /** A list with these counters costs too much: it is long, or has many holes, small frames or far insertions. */
  ghost predicate Slow(nFrames: nat, nHoles: nat, byteage: nat, consFar: nat) {
    || nFrames > 1000
    || (nFrames > 10 && (nHoles > 5 || byteage < 64 * nFrames || consFar > 4))
  }

  /** How many insertions in a row had at least half of the `n` frames behind them, of which there were `behind`. */
  ghost function FarAfter(consFar: nat, n: nat, behind: nat): nat {
    if n <= 10 then 0 else if n > 1000 then consFar else if behind >= n / 2 then consFar + 1 else 0
  }

  /** Some frame ends past `end`. */
  ghost predicate EndsPast(frames: Frames, end: nat) {
    exists i | 0 <= i < |frames| :: frames[i].End() > end
  }

  /** `frame` lies in front of `f` or behind it. */
  ghost predicate Apart(frame: DataFrame, f: StreamFrame) {
    || (f.End() <= frame.offset && !(f.Off() == frame.offset && f.Size() == |frame.data|))
    || (frame.End() <= f.Off() && frame.offset < f.Off())
  }

  /** The list can take in `frame`: it has no byte that was read or is stored. */
  ghost predicate Fits(frames: Frames, frame: DataFrame, readOffset: nat) {
    readOffset <= frame.offset && forall i | 0 <= i < |frames| :: Apart(frame, frames[i])
  }

  /** Every byte of `frame` from the read offset on is stored. */
  ghost predicate BytesKnown(m: Bytes, frame: DataFrame, readOffset: nat) {
    forall o: nat | frame.offset <= o < frame.End() && readOffset <= o :: o in m
  }

  /** Where the list cannot take in a frame, something of it was read or is stored. */
  lemma TouchesSomething(frames: Frames, frame: DataFrame, readOffset: nat)
    requires Ordered(frames) && !Fits(frames, frame, readOffset) && frame.data != [] && !SomeEmpty(frames)
    ensures frame.offset < readOffset || exists o :: o in BytesOf(frames) && frame.offset <= o < frame.End()
  {
    if readOffset <= frame.offset {
      var i :| 0 <= i < |frames| && !Apart(frame, frames[i]);
      var o := if frames[i].Off() < frame.offset then frame.offset else frames[i].Off();
      BytesAt(frames, i, o);
    }
  }

  // ---------- Where a frame goes ----------

  /** `pos` divides the frames that start at or before `off` from the others. */
  ghost predicate Divides(frames: Frames, off: nat, pos: nat) {
    && pos <= |frames|
    && (pos > 0 ==> frames[pos - 1].Off() <= off)
    && (pos < |frames| ==> off < frames[pos].Off())
  }

  lemma BeforeDivide(frames: Frames, off: nat, pos: nat, i: nat)
    requires Ordered(frames) && Divides(frames, off, pos) && i < pos
    ensures frames[i].Off() <= off
    ensures i < pos - 1 ==> frames[i].End() <= frames[pos - 1].Off()
  {
    if i < pos - 1 {
      OrderedPair(frames, i, pos - 1);
    }
  }

  lemma AfterDivide(frames: Frames, off: nat, pos: nat, i: nat)
    requires Ordered(frames) && Divides(frames, off, pos) && pos <= i < |frames|
    ensures off < frames[i].Off()
    ensures i > pos ==> frames[pos].End() <= frames[i].Off()
  {
    if i > pos {
      OrderedPair(frames, pos, i);
    }
  }

  /** Looking at the two neighbours is enough. */
  lemma NeighboursSuffice(frames: Frames, frame: DataFrame, pos: nat, i: nat)
    requires Ordered(frames) && Divides(frames, frame.offset, pos) && i < |frames|
    requires pos > 0 ==> Apart(frame, frames[pos - 1])
    requires pos < |frames| ==> Apart(frame, frames[pos])
    ensures Apart(frame, frames[i])
  {
    if i < pos {
      BeforeDivide(frames, frame.offset, pos, i);
    } else {
      AfterDivide(frames, frame.offset, pos, i);
    }
  }

  /** A frame behind another one is not before the read offset. */
  lemma BehindIsUnread(frames: Frames, readOffset: nat, i: nat, off: nat)
    requires ReadUpTo(frames, readOffset) && i < |frames| && frames[i].End() <= off
    ensures readOffset <= off
  {
  }

  lemma SameBytesKnown(frames: Frames, readOffset: nat, i: nat, frame: DataFrame)
    requires Ordered(frames) && i < |frames|
    requires frames[i].Off() == frame.offset && frames[i].Size() == |frame.data|
    ensures BytesKnown(BytesOf(frames), frame, readOffset)
  {
    forall o: nat | frame.offset <= o < frame.End() && readOffset <= o
      ensures o in BytesOf(frames)
    {
      BytesAt(frames, i, o);
    }
  }

  lemma InsertedReadUpTo(before: Frames, after: Frames, pos: nat, f: StreamFrame, readOffset: nat)
    requires ReadUpTo(before, readOffset) && Inserted(before, after, pos, f)
    requires f.readOff == 0 && readOffset <= f.Off()
    requires pos == 0 && before != [] ==> f.Off() < before[0].Off()
    ensures ReadUpTo(after, readOffset)
  {
  }

  lemma InsertedFins(before: Frames, after: Frames, pos: nat, f: StreamFrame,
                     finSet: bool, finOff: nat, finReached: bool, finSet': bool, finOff': nat)
    requires FinKnown(before, finSet, finOff, finReached) && Inserted(before, after, pos, f)
    requires f.frame.fin ==> finSet' && finOff' == f.End() && (finSet ==> finOff == f.End())
    requires !f.frame.fin ==> finSet' == finSet && finOff' == finOff
    ensures FinKnown(after, finSet', finOff', finReached)
  {
    forall i | 0 <= i < |after|
      ensures after[i].frame.fin ==> finSet' && after[i].End() == finOff'
    {
      assert i < pos ==> after[i] == before[i];
      assert i > pos ==> after[i] == before[i - 1];
    }
    assert after[pos] == f;
    if HasFin(before) {
      var i: nat :| i < |before| && before[i].frame.fin;
      assert after[if i < pos then i else i + 1].frame.fin;
    }
  }

  /** Number of holes after `f` has been put in at `pos`, as the code counts. */
  function HolesWith(before: Frames, pos: nat, f: StreamFrame, nHoles: nat): int
    requires pos <= |before|
  {
    if pos > 0 then
      var n := nHoles + Gap(before[pos - 1], f);
      if pos < |before| then n + Gap(f, before[pos]) - 1 else n
    else if pos < |before| then nHoles + Gap(f, before[pos])
    else nHoles
  }

  lemma InsertedCounted(before: Frames, after: Frames, pos: nat, f: StreamFrame,
                        nFrames: nat, nHoles: nat, byteage: nat, n': nat, h': int, b': nat)
    requires Counted(before, nFrames, nHoles, byteage) && Inserted(before, after, pos, f)
    requires pos > 0 ==> before[pos - 1].End() <= f.Off()
    requires pos < |before| ==> f.End() <= before[pos].Off() && f.Off() < before[pos].Off()
    requires n' == nFrames + 1 && h' == HolesWith(before, pos, f, nHoles) && b' == byteage + f.Size()
    ensures h' >= 0 && Counted(after, n', h', b')
  {
    InsertedOrdered(before, after, pos, f);
    InsertedHoles(before, after, pos, f);
    InsertedTotal(before, after, pos, f);
  }

  lemma InsertedEnds(before: Frames, after: Frames, pos: nat, f: StreamFrame)
    requires Inserted(before, after, pos, f)
    ensures forall end: nat :: EndsPast(after, end) ==> EndsPast(before, end) || f.End() > end
    ensures SomeEmpty(after) ==> SomeEmpty(before) || f.Size() == 0
  {
    forall i | 0 <= i < |after|
      ensures after[i] == f || exists k | 0 <= k < |before| :: before[k] == after[i]
    {
      assert i < pos ==> before[i] == after[i];
      assert i > pos ==> before[i - 1] == after[i];
    }
  }

  lemma RemovedEnds(frames: Frames, rest: Frames)
    requires frames != [] && rest == frames[1..]
    ensures forall end: nat :: EndsPast(rest, end) ==> EndsPast(frames, end)
    ensures SomeEmpty(rest) ==> SomeEmpty(frames)
  {
    forall i | 0 <= i < |rest|
      ensures rest[i] == frames[i + 1]
    {
    }
  }

  lemma LinkKeeps(before: Frames, after: Frames, pos: nat, f: StreamFrame, readOffset: nat,
                  nFrames: nat, nHoles: nat, byteage: nat, n': nat, h': int, b': nat)
    requires Counted(before, nFrames, nHoles, byteage) && ReadUpTo(before, readOffset)
    requires Inserted(before, after, pos, f) && f.readOff == 0
    requires Divides(before, f.Off(), pos) && Fits(before, f.frame, readOffset)
    requires n' == nFrames + 1 && h' == HolesWith(before, pos, f, nHoles) && b' == byteage + f.Size()
    ensures h' >= 0 && Counted(after, n', h', b') && ReadUpTo(after, readOffset)
    ensures BytesOf(after) == Overlay(BytesOf(before), f.Off(), f.frame.data)
  {
    assert pos > 0 ==> Apart(f.frame, before[pos - 1]);
    assert pos < |before| ==> Apart(f.frame, before[pos]);
    InsertedCounted(before, after, pos, f, nFrames, nHoles, byteage, n', h', b');
    InsertedBytes(before, after, pos, f);
    InsertedReadUpTo(before, after, pos, f, readOffset);
  }

  // ---------- Dropping the first frame ----------

  lemma RemovedReadUpTo(frames: Frames, rest: Frames, readOffset: nat)
    requires ReadUpTo(frames, readOffset) && frames != [] && rest == frames[1..]
    ensures ReadUpTo(rest, readOffset)
  {
  }

  lemma RemovedFins(frames: Frames, rest: Frames, finSet: bool, finOff: nat, finReached: bool, finReached': bool)
    requires FinKnown(frames, finSet, finOff, finReached) && frames != [] && rest == frames[1..]
    requires finReached' == (finReached || frames[0].frame.fin)
    ensures FinKnown(rest, finSet, finOff, finReached')
  {
  }

  lemma DoneKeeps(frames: Frames, rest: Frames, readOffset: nat, nFrames: nat, nHoles: nat, byteage: nat,
                  n': int, h': int, b': int)
    requires Counted(frames, nFrames, nHoles, byteage) && ReadUpTo(frames, readOffset)
    requires frames != [] && frames[0].End() <= readOffset && rest == frames[1..]
    requires n' == nFrames - 1 && h' == nHoles - (if rest != [] then Gap(frames[0], rest[0]) else 0)
    requires b' == byteage - frames[0].Size()
    ensures n' >= 0 && h' >= 0 && b' >= 0 && Counted(rest, n', h', b') && ReadUpTo(rest, readOffset)
    ensures From(BytesOf(rest), readOffset) == From(BytesOf(frames), readOffset)
    ensures forall o | o in BytesOf(rest) :: o in BytesOf(frames) && BytesOf(frames)[o] == BytesOf(rest)[o]
  {
    RemovedCounters(frames, rest);
    RemovedBytes(frames, rest, readOffset);
    RemovedSubset(frames, rest);
    RemovedReadUpTo(frames, rest, readOffset);
  }

  // ---------- Reading ----------

  /** At a gap after frame `i - 1`, or before all frames, nothing is stored. */
  lemma NothingAtGap(frames: Frames, readOffset: nat, i: nat, off: nat)
    requires Ordered(frames) && ReadUpTo(frames, readOffset) && i <= |frames|
    requires if i == 0 then off == readOffset else off == frames[i - 1].End()
    requires i < |frames| ==> off < frames[i].ROff()
    ensures off !in BytesOf(frames)
  {
    if off in BytesOf(frames) {
      var j := BytesFrom(frames, off);
      assert ReadTo(frames[j], readOffset, j == 0);
      if j < i - 1 {
        OrderedPair(frames, j, i - 1);
      } else if i < j {
        assert ReadTo(frames[i], readOffset, i == 0);
        OrderedPair(frames, i, j);
      }
      assert false;
    }
  }

  lemma UnreadStored(frames: Frames, i: nat, off: nat, run: seq<byte>)
    requires Ordered(frames) && i < |frames| && frames[i].readOff <= frames[i].Size()
    requires off == frames[i].ROff() && run == frames[i].frame.data[frames[i].readOff..]
    ensures StoredRun(BytesOf(frames), off, run)
  {
    forall o: nat
      ensures StoredByte(BytesOf(frames), off, run, o)
    {
      if off <= o < off + |run| {
        BytesAt(frames, i, o);
      }
    }
  }

  /** If FIN is in the list at the read offset, the first frame is there too. */
  lemma FinIsFirst(frames: Frames, readOffset: nat, finSet: bool, finOff: nat)
    requires Ordered(frames) && ReadUpTo(frames, readOffset) && FinsAgree(frames, finSet, finOff)
    requires HasFin(frames) && finOff == readOffset
    ensures frames[0].ROff() == readOffset
  {
    var j: nat :| j < |frames| && frames[j].frame.fin;
    assert ReadTo(frames[j], readOffset, j == 0);
    assert ReadTo(frames[0], readOffset, true);
    if j > 0 {
      OrderedPair(frames, 0, j);
    }
  }

  // ---------- Moving to the hash ----------

  /** Dropping what was read before or after writing a frame is the same. */
  lemma OverlayFrom(m: Bytes, frame: DataFrame, readOffset: nat)
    requires readOffset <= frame.End()
    ensures Overlay(From(m, readOffset), StartFrom(frame, readOffset), TailFrom(frame, readOffset))
         == From(Overlay(m, frame.offset, frame.data), readOffset)
  {
    var start, tail := StartFrom(frame, readOffset), TailFrom(frame, readOffset);
    var a, b := Overlay(From(m, readOffset), start, tail), From(Overlay(m, frame.offset, frame.data), readOffset);
    forall o: nat
      ensures SameAt(a, b, o)
    {
      assert start <= o < start + |tail| ==> frame.offset <= o < frame.End() && tail[o - start] == frame.data[o - frame.offset];
    }
    SameEverywhere(a, b);
  }

  lemma {:induction false} BytesBelowEnd(frames: Frames, o: nat)
    requires Ordered(frames) && o in BytesOf(frames)
    ensures o < frames[|frames| - 1].End()
  {
    var i := BytesFrom(frames, o);
    if i < |frames| - 1 {
      OrderedPair(frames, i, |frames| - 1);
    }
  }

  ghost predicate KeysUpTo(keys: iset<nat>, end: nat) {
    forall k | k in keys :: k <= end
  }

  lemma KeyRangeUpTo(keys: iset<nat>, keys': iset<nat>, start: nat, size: nat, low: nat, end: nat)
    requires KeysUpTo(keys, low) && low <= end && end == start + size
    requires keys' == keys + KeyRange(KeyOf(start), NextKey(start, size))
    ensures KeysUpTo(keys', end) && KeysGrown(keys, keys', size, end)
  {
    KeysGrownBy(keys, keys', start, size, NextKey(start, size), end);
  }

  ghost predicate SomeEmpty(frames: Frames) {
    exists i | 0 <= i < |frames| :: frames[i].Size() == 0
  }

  /** A block starts before the end of the frames, unless a frame is empty or all has been read. */
  ghost predicate KeysInside(keys: iset<nat>, frames: Frames, readOffset: nat) {
    forall k | k in keys :: k < LastEnd(frames) || SomeEmpty(frames) || k <= readOffset
  }

  lemma KeysInsideMore(keys: iset<nat>, part: Frames, f: StreamFrame, part': Frames, keys': iset<nat>, size: nat, readOffset: nat)
    requires KeysInside(keys, part, readOffset) && part' == part + [f] && LastEnd(part) <= f.Off()
    requires readOffset <= f.End() && size == |TailFrom(f.frame, readOffset)| && KeysGrown(keys, keys', size, f.End())
    ensures KeysInside(keys', part', readOffset)
  {
    assert part'[|part|] == f;
    assert SomeEmpty(part) ==> SomeEmpty(part') by {
      if SomeEmpty(part) {
        var i :| 0 <= i < |part| && part[i].Size() == 0;
        assert part'[i].Size() == 0;
      }
    }
  }

  /** Written in order, a frame with FIN never looks as if there were bytes past it. */
  lemma NothingPast(m: Bytes, keys: iset<nat>, keys': iset<nat>, start: nat, size: nat, low: nat, end: nat, next: nat)
    requires KeysUpTo(keys, low) && low <= start && end == start + size && next == NextKey(start, size)
    requires keys' == keys + KeyRange(KeyOf(start), next)
    requires forall o | o in m :: o < end
    ensures !BytesPast(m, keys', end, next)
  {
  }

  function LastEnd(frames: Frames): nat {
    if frames == [] then 0 else frames[|frames| - 1].End()
  }

  /** A copying buffer with these contents has taken over `part` of a list. */
  ghost predicate Moved(part: Frames, readOffset: nat, finOff: nat, m: Bytes, keys: iset<nat>, set': bool, off': nat) {
    && m == From(BytesOf(part), readOffset)
    && set' == HasFin(part)
    && (set' ==> off' == finOff && !EndsPast(part, finOff))
    && KeysUpTo(keys, LastEnd(part)) && KeysInside(keys, part, readOffset)
  }

  lemma AddedBytes(part: Frames, f: StreamFrame, part': Frames, readOffset: nat, m: Bytes, m': Bytes)
    requires part' == part + [f] && m == From(BytesOf(part), readOffset) && readOffset <= f.End()
    requires m' == Overlay(m, StartFrom(f.frame, readOffset), TailFrom(f.frame, readOffset))
    ensures m' == From(BytesOf(part'), readOffset)
  {
    OverlayFrom(BytesOf(part), f.frame, readOffset);
    assert part'[..|part|] == part;
  }

  lemma AddedFin(part: Frames, f: StreamFrame, part': Frames, finOff: nat)
    requires part' == part + [f]
    ensures HasFin(part') <==> HasFin(part) || f.frame.fin
    ensures EndsPast(part', finOff) <==> EndsPast(part, finOff) || f.End() > finOff
  {
    assert part'[|part|] == f;
    if i: nat :| i < |part| && part[i].frame.fin {
      assert part'[i].frame.fin;
    }
    if i: nat :| i < |part| && part[i].End() > finOff {
      assert part'[i].End() > finOff;
    }
  }

  /** The frames in front of a frame with FIN end before the final size. */
  lemma NoneEndsPast(part: Frames, finOff: nat)
    requires Ordered(part) && LastEnd(part) <= finOff
    ensures !EndsPast(part, finOff)
  {
  }

  lemma MovedNothing(readOffset: nat, finOff: nat, off': nat)
    ensures Moved([], readOffset, finOff, imap[], iset{}, false, off')
  {
  }

  lemma PrefixNext(frames: Frames, i: nat, part: Frames, part': Frames)
    requires i < |frames| && part == frames[..i] && part' == frames[..i + 1]
    ensures part' == part + [frames[i]]
  {
  }

  lemma {:induction false} PrefixOrdered(frames: Frames, i: nat, part: Frames)
    requires Ordered(frames) && i <= |frames| && part == frames[..i]
    ensures Ordered(part)
  {
    if i < |frames| {
      var init := frames[..|frames| - 1];
      assert part == init[..i];
      PrefixOrdered(init, i, part);
    } else {
      assert part == frames;
    }
  }

  lemma FramesUpTo(frames: Frames, i: nat, part: Frames, part': Frames)
    requires Ordered(frames) && i < |frames| && part == frames[..i] && part' == frames[..i + 1]
    ensures Ordered(part) && Ordered(part') && part' == part + [frames[i]] && LastEnd(part) <= frames[i].Off()
  {
    PrefixOrdered(frames, i, part);
    PrefixOrdered(frames, i + 1, part');
    PrefixNext(frames, i, part, part');
    if i > 0 {
      OrderedPair(frames, i - 1, i);
    }
  }

  lemma FinIn(frames: Frames, i: nat, part: Frames)
    requires i <= |frames| && part == frames[..i]
    ensures HasFin(part) ==> HasFin(frames)
    ensures forall end: nat :: EndsPast(part, end) ==> EndsPast(frames, end)
  {
  }

  /** A frame is refused by the new buffer exactly when it ends past a FIN that was moved before. */
  lemma MoveAllowed(part: Frames, f: StreamFrame, part': Frames, finOff: nat)
    requires Ordered(part) && part' == part + [f] && LastEnd(part) <= f.Off() && (f.frame.fin ==> f.End() == finOff)
    requires HasFin(part) ==> !EndsPast(part, finOff)
    ensures HasFin(part') && EndsPast(part', finOff) <==> HasFin(part) && f.End() > finOff
  {
    AddedFin(part, f, part', finOff);
    if f.frame.fin {
      NoneEndsPast(part, finOff);
    }
  }

  /** The bytes and the blocks after one more frame has been moved. */
  lemma MovedNext(part: Frames, f: StreamFrame, part': Frames, readOffset: nat, m: Bytes, keys: iset<nat>,
                  m': Bytes, keys': iset<nat>, start: nat, tail: seq<byte>, next: nat)
    requires Ordered(part') && part' == part + [f] && LastEnd(part) <= f.Off() && readOffset <= f.End()
    requires m == From(BytesOf(part), readOffset) && KeysUpTo(keys, LastEnd(part)) && KeysInside(keys, part, readOffset)
    requires start == StartFrom(f.frame, readOffset) && tail == TailFrom(f.frame, readOffset)
    requires next == NextKey(start, |tail|)
    requires m' == Overlay(m, start, tail) && keys' == keys + KeyRange(KeyOf(start), next)
    ensures m' == From(BytesOf(part'), readOffset) && KeysUpTo(keys', LastEnd(part')) && KeysInside(keys', part', readOffset)
    ensures Goes(f.frame, readOffset, m, keys, m', keys')
  {
    var low, end, size := LastEnd(part), f.End(), |tail|;
    AddedBytes(part, f, part', readOffset, m, m');
    KeyRangeUpTo(keys, keys', start, size, low, end);
    KeysInsideMore(keys, part, f, part', keys', size, readOffset);
    forall o | o in m'
      ensures o < end
    {
      BytesBelowEnd(part', o);
    }
    NothingPast(m', keys, keys', start, size, low, end, next);
  }

  lemma MovedFin(part: Frames, f: StreamFrame, part': Frames, finOff: nat, set0: bool, off0: nat, set': bool, off': nat)
    requires part' == part + [f] && (f.frame.fin ==> f.End() == finOff) && !(HasFin(part') && EndsPast(part', finOff))
    requires set0 == HasFin(part) && (set0 ==> off0 == finOff)
    requires set' == (f.frame.fin || set0) && off' == if f.frame.fin then f.End() else off0
    ensures set' == HasFin(part') && (set' ==> off' == finOff && !EndsPast(part', finOff))
  {
    AddedFin(part, f, part', finOff);
  }

  /** Moves one frame. */
  method MoveFrame(h: HashDataIn, ghost part: Frames, f: StreamFrame, ghost part': Frames, readOffset: nat,
                   ghost finOff: nat, plenty: bool)
    returns (moved: bool, oom: bool)
    requires h.Valid() && Moved(part, readOffset, finOff, h.Stored(), h.Keys(), h.finSet, h.finOff)
    requires Ordered(part) && Ordered(part') && part' == part + [f] && LastEnd(part) <= f.Off()
    requires readOffset <= f.End() && (f.frame.fin ==> f.End() == finOff)
    modifies h
    ensures h.Valid() && h.lastBlock == old(h.lastBlock) && h.switchImpl == old(h.switchImpl)
    ensures (oom ==> !moved) && (plenty ==> !oom)
    ensures !oom ==> (moved <==> !(HasFin(part') && EndsPast(part', finOff)))
    ensures moved ==> Moved(part', readOffset, finOff, h.Stored(), h.Keys(), h.finSet, h.finOff)
  {
    var frame := f.frame;
    ghost var m, keys, set0, off0 := h.Stored(), h.Keys(), h.finSet, h.finOff;
    ghost var start, tail := StartFrom(frame, readOffset), TailFrom(frame, readOffset);
    ghost var next := NextKey(start, |tail|);
    ghost var m', keys' := Overlay(m, start, tail), keys + KeyRange(KeyOf(start), next);
    MoveAllowed(part, f, part', finOff);
    MovedNext(part, f, part', readOffset, m, keys, m', keys', start, tail, next);
    var ins;
    ins, oom := Put(h, frame, readOffset, plenty, m', keys');
    moved := ins != InsErr;
    if moved {
      MovedFin(part, f, part', finOff, set0, off0, h.finSet, h.finOff);
    }
  }

  /** Moves all frames, up to one that is refused. */
  method MoveAll(h: HashDataIn, frames: Frames, readOffset: nat, ghost finOff: nat, plenty: bool)
    returns (moved: bool, oom: bool)
    requires h.Valid() && Moved([], readOffset, finOff, h.Stored(), h.Keys(), h.finSet, h.finOff)
    requires Ordered(frames) && ReadUpTo(frames, readOffset)
    requires exists set' :: FinsAgree(frames, set', finOff)
    modifies h
    ensures h.Valid() && h.lastBlock == old(h.lastBlock) && h.switchImpl == old(h.switchImpl)
    ensures (oom ==> !moved) && (plenty ==> !oom)
    ensures !oom ==> (moved <==> !(HasFin(frames) && EndsPast(frames, finOff)))
    ensures moved ==> Moved(frames, readOffset, finOff, h.Stored(), h.Keys(), h.finSet, h.finOff)
  {
    assert frames[..0] == [];
    moved, oom := true, false;
    var i := 0;
    while i < |frames|
      invariant i <= |frames| && !oom && h.Valid()
      invariant Moved(frames[..i], readOffset, finOff, h.Stored(), h.Keys(), h.finSet, h.finOff)
      invariant h.lastBlock == old(h.lastBlock) && h.switchImpl == old(h.switchImpl)
    {
      ghost var part, part' := frames[..i], frames[..i + 1];
      FramesUpTo(frames, i, part, part');
      assert ReadTo(frames[i], readOffset, i == 0);
      moved, oom := MoveFrame(h, part, frames[i], part', readOffset, finOff, plenty);
      if !moved {
        FinIn(frames, i + 1, part');
        return;
      }
      i := i + 1;
    }
    assert frames[..i] == frames;
    moved := true;
  }

  class NocopyDataIn {
    var frames: Frames
    var byteage: nat
    var finOff: nat
    var nFrames: nat
    var nHoles: nat
    var consFar: nat
    var finSet: bool
    var finReached: bool
    var switchImpl: bool

    ghost predicate Valid(readOffset: nat)
      reads this
    {
      ListOk(frames, nFrames, nHoles, byteage, finSet, finOff, finReached, readOffset)
    }

    ghost function Stored(): Bytes
      reads this
    {
      BytesOf(frames)
    }

    constructor ()
      ensures Valid(0) && frames == [] && Stored() == imap[]
      ensures forall ro: nat :: Valid(ro)
      ensures !finSet && !finReached && !switchImpl
    {
      frames, byteage, finOff, nFrames, nHoles, consFar := [], 0, 0, 0, 0, 0;
      finSet, finReached, switchImpl := false, false, false;
    }

    /** A frame that the buffer refuses or ignores without looking at its bytes. */
    ghost predicate Refused(frame: DataFrame, readOffset: nat)
      reads this
    {
      || frame.End() < readOffset
      || (finSet && ((frame.fin && frame.End() != finOff) || frame.End() > finOff))
    }

    /** A frame without unread bytes that tells nothing new about the final size. */
    ghost predicate Old(frame: DataFrame, readOffset: nat)
      reads this
    {
      frame.End() == readOffset && (finSet || !frame.fin)
    }

    /** Nothing is lost by dropping `frame`: its bytes and its FIN are known. */
    ghost predicate Known(frame: DataFrame, readOffset: nat)
      reads this
    {
      BytesKnown(BytesOf(frames), frame, readOffset) && (frame.fin ==> finSet && finOff == frame.End())
    }

    /** The same bytes are in the list as one frame, with FIN if `frame` has it. */
    ghost predicate HasCopy(frame: DataFrame)
      reads this
    {
      |frame.data| > 0 &&
      exists i | 0 <= i < |frames| ::
        frames[i].Off() == frame.offset && frames[i].Size() == |frame.data| && (frame.fin ==> frames[i].frame.fin)
    }

    /**
     The place of a frame at `off`, looking from the end of the list, and the number
     of frames passed on the way.
     */
    method FindPosition(off: nat) returns (pos: nat, count: nat)
      ensures Divides(frames, off, pos)
      ensures count == |frames| - pos
    {
      var prev, next := -1, |frames| - 1;
      if next >= 0 && off < frames[next].Off() {
        count := 1;
        prev := next - 1;
        while prev >= 0 && off < frames[next].Off()
          invariant 0 <= next < |frames| && prev == next - 1
          invariant off < frames[next].Off()
          invariant count == |frames| - next
        {
          if off >= frames[prev].Off() {
            break;
          }
          count := count + 1;
          next, prev := prev, prev - 1;
        }
      } else {
        count := 0;
      }
      if prev < 0 && next >= 0 && off >= frames[next].Off() {
        prev := next;
      }
      pos := prev + 1;
    }

    /** What the neighbours at `pos` say to a frame that is neither refused nor old. */
    method CheckNeighbours(frame: DataFrame, readOffset: nat, pos: nat) returns (ins: InsFrame)
      requires Valid(readOffset) && Divides(frames, frame.offset, pos)
      requires !Refused(frame, readOffset) && !Old(frame, readOffset)
      ensures ins == InsOk <==> Fits(frames, frame, readOffset)
      ensures ins == InsDup ==> Known(frame, readOffset)
      ensures ins == InsOverlap ==> !HasCopy(frame)
      ensures ins != InsErr
    {
      if frames == [] {
        ins := CheckAlone(frame, readOffset);
        return;
      }
      var end := frame.End();
      if pos > 0 {
        var prev := frames[pos - 1];
        if prev.Off() == frame.offset && prev.Size() == |frame.data| {
          assert !Apart(frame, prev);
          SameBytesKnown(frames, readOffset, pos - 1, frame);
          if !prev.frame.fin && frame.fin {
            NoCopy(frame, pos);
            return InsOverlap;
          }
          return InsDup;
        }
        if prev.End() > frame.offset {
          assert !Apart(frame, prev);
          NoCopy(frame, pos);
          return InsOverlap;
        }
        BehindIsUnread(frames, readOffset, pos - 1, frame.offset);
      }
      if pos < |frames| {
        var next := frames[pos];
        if end > next.Off() {
          assert !Apart(frame, next);
          NoCopy(frame, pos);
          return InsOverlap;
        } else if readOffset > frame.offset {
          NoCopy(frame, pos);
          return InsOverlap;
        }
      }
      forall i | 0 <= i < |frames|
        ensures Apart(frame, frames[i])
      {
        NeighboursSuffice(frames, frame, pos, i);
      }
      ins := InsOk;
    }

    lemma NoCopy(frame: DataFrame, pos: nat)
      requires Ordered(frames) && Divides(frames, frame.offset, pos)
      requires pos > 0 && frames[pos - 1].Off() == frame.offset && frames[pos - 1].Size() == |frame.data| ==>
                 frame.fin && !frames[pos - 1].frame.fin
      ensures !HasCopy(frame)
    {
      SameFrameIsPrev(frame, pos);
    }

    /** What a list without frames says. */
    method CheckAlone(frame: DataFrame, readOffset: nat) returns (ins: InsFrame)
      requires Valid(readOffset) && frames == []
      requires !Refused(frame, readOffset) && !Old(frame, readOffset)
      ensures ins == InsOk <==> Fits(frames, frame, readOffset)
      ensures ins == InsDup ==> Known(frame, readOffset)
      ensures ins == InsOverlap ==> !HasCopy(frame)
      ensures ins != InsErr
    {
      if readOffset == frame.End() {
        if |frame.data| > 0 {
          return if frame.fin && !(finReached && readOffset == finOff) then InsOverlap else InsDup;
        } else if !frame.fin || (finReached && readOffset == finOff) {
          return InsDup;
        }
      } else if readOffset > frame.offset {
        return InsOverlap;
      }
      ins := InsOk;
    }

    /** A frame with the same bytes as a new one can only be the left neighbour. */
    lemma SameFrameIsPrev(frame: DataFrame, pos: nat)
      requires Ordered(frames) && Divides(frames, frame.offset, pos)
      ensures |frame.data| > 0 ==>
                forall i | 0 <= i < |frames| && frames[i].Off() == frame.offset && frames[i].Size() == |frame.data|
                  :: i == pos - 1
    {
      forall i | 0 <= i < |frames| && frames[i].Off() == frame.offset && frames[i].Size() == |frame.data| > 0
        ensures i == pos - 1
      {
        if i < pos {
          BeforeDivide(frames, frame.offset, pos, i);
        } else {
          AfterDivide(frames, frame.offset, pos, i);
        }
      }
    }

    /** Puts a frame in its place and keeps the counters. */
    method Link(frame: DataFrame, readOffset: nat, pos: nat)
      requires Valid(readOffset) && Divides(frames, frame.offset, pos)
      requires !Refused(frame, readOffset) && Fits(frames, frame, readOffset)
      modifies `frames, `byteage, `nFrames, `nHoles, `finSet, `finOff
      ensures Valid(readOffset)
      ensures Inserted(old(frames), frames, pos, StreamFrame(frame, 0))
      ensures Stored() == Overlay(old(Stored()), frame.offset, frame.data)
      ensures finSet == (old(finSet) || frame.fin)
      ensures finOff == if frame.fin then frame.End() else old(finOff)
    {
      var known, end := finSet, finOff;
      if frame.fin {
        known, end := true, frame.End();
      }
      var after, holes, bytes := PutIn(frame, readOffset, pos, known, end);
      SetList(after, nFrames + 1, holes, bytes, known, end, readOffset);
    }

    /** The list with a frame put in its place, and the counters for it. */
    method PutIn(frame: DataFrame, readOffset: nat, pos: nat, ghost known: bool, ghost end: nat)
      returns (after: Frames, holes: nat, bytes: nat)
      requires Valid(readOffset) && Divides(frames, frame.offset, pos)
      requires !Refused(frame, readOffset) && Fits(frames, frame, readOffset)
      requires known == (finSet || frame.fin) && end == if frame.fin then frame.End() else finOff
      ensures Inserted(frames, after, pos, StreamFrame(frame, 0))
      ensures BytesOf(after) == Overlay(Stored(), frame.offset, frame.data)
      ensures ListOk(after, nFrames + 1, holes, bytes, known, end, finReached, readOffset)
    {
      var before, f := frames, StreamFrame(frame, 0);
      after := before[..pos] + [f] + before[pos..];
      var counted := CountHoles(pos, f);
      ghost var n0, h0, b0, set0, off0, reached := nFrames, nHoles, byteage, finSet, finOff, finReached;
      bytes := byteage + f.Size();
      LinkKeeps(before, after, pos, f, readOffset, n0, h0, b0, n0 + 1, counted, bytes);
      InsertedFins(before, after, pos, f, set0, off0, reached, known, end);
      holes := counted;
    }

    /** Installs a list that is in order. */
    method SetList(after: Frames, n: nat, holes: nat, bytes: nat, known: bool, end: nat, ghost readOffset: nat)
      requires ListOk(after, n, holes, bytes, known, end, finReached, readOffset)
      modifies `frames, `byteage, `nFrames, `nHoles, `finSet, `finOff
      ensures Valid(readOffset) && frames == after && finSet == known && finOff == end
    {
      frames, nFrames, nHoles, byteage, finSet, finOff := after, n, holes, bytes, known, end;
    }

    /** The number of holes when `f` has been put in at `pos`. */
    method CountHoles(pos: nat, f: StreamFrame) returns (holes: int)
      requires pos <= |frames|
      ensures holes == HolesWith(frames, pos, f, nHoles)
    {
      holes := nHoles;
      if pos > 0 {
        holes := holes + Gap(frames[pos - 1], f);
        if pos < |frames| {
          holes := holes + Gap(f, frames[pos]);
          holes := holes - 1;
        }
      } else if pos < |frames| {
        holes := holes + Gap(f, frames[pos]);
      }
    }

    ghost predicate TooSlow()
      reads `nFrames, `nHoles, `byteage, `consFar
    {
      Slow(nFrames, nHoles, byteage, consFar)
    }

    /** Whether the list has become too slow to be worth keeping. */
    method CheckEfficiency(count: nat) returns (alert: bool)
      modifies `consFar
      ensures consFar == FarAfter(old(consFar), nFrames, count)
      ensures alert <==> TooSlow()
    {
      if nFrames <= EFF_CHECK_THRESH_LOW {
        consFar := 0;
        return false;
      }
      if nFrames > EFF_CHECK_THRESH_HIGH {
        return true;
      }
      if count >= nFrames / 2 {
        consFar := consFar + 1;
        if consFar > EFF_FAR_TRAVERSE_COUNT {
          return true;
        }
      } else {
        consFar := 0;
      }
      if nHoles > EFF_MAX_HOLES {
        return true;
      }
      return byteage / EFF_TINY_FRAME_SZ < nFrames;
    }

    /** What becomes of `frame`; if it can be taken in, where it goes and how far that is from the end. */
    method Classify(frame: DataFrame, readOffset: nat) returns (ins: InsFrame, pos: nat, count: nat)
      requires Valid(readOffset)
      ensures ins == InsErr <==> Refused(frame, readOffset) && !(frame.End() < readOffset && !frame.fin)
      ensures ins == InsOk <==>
              !Refused(frame, readOffset) && !Old(frame, readOffset) && Fits(frames, frame, readOffset)
      ensures ins == InsOk ==> Divides(frames, frame.offset, pos) && count == |frames| - pos
      ensures ins == InsDup ==> Known(frame, readOffset)
      ensures ins == InsOverlap ==> !Refused(frame, readOffset) && !Old(frame, readOffset) && !HasCopy(frame)
    {
      pos, count := 0, 0;
      var end := frame.End();
      if readOffset > end {
        ins := if frame.fin then InsErr else InsDup;
        return;
      }
      if finSet {
        if frame.fin && end != finOff {
          ins := InsErr;
          return;
        }
        if end > finOff {
          ins := InsErr;
          return;
        }
        if readOffset == end {
          ins := InsDup;
          return;
        }
      } else if readOffset == end && !frame.fin {
        ins := InsDup;
        return;
      }
      pos, count := FindPosition(frame.offset);
      ins := CheckNeighbours(frame, readOffset, pos);
    }

    /**
     Takes a frame in, at position `pos`, finds it known already, refuses it, or finds that it overlaps
     what is there, which this buffer cannot handle.  A switch is advised exactly when a frame
     was taken in after which the list is too slow.
     */
    method InsertFrame(frame: DataFrame, readOffset: nat) returns (ins: InsFrame, ghost pos: nat)
      requires Valid(readOffset)
      modifies this
      ensures Valid(readOffset)
      ensures ins == InsErr <==> old(Refused(frame, readOffset)) && !(frame.End() < readOffset && !frame.fin)
      ensures ins == InsOk <==>
              old(!Refused(frame, readOffset) && !Old(frame, readOffset) && Fits(frames, frame, readOffset))
      ensures ins == InsOk ==> Stored() == Overlay(old(Stored()), frame.offset, frame.data)
      ensures ins == InsDup ==> old(Known(frame, readOffset))
      ensures ins == InsOverlap ==> old(!Refused(frame, readOffset) && !Old(frame, readOffset) && !HasCopy(frame))
      ensures ins == InsOk ==>
                && old(Divides(frames, frame.offset, pos)) && Inserted(old(frames), frames, pos, StreamFrame(frame, 0))
                && consFar == FarAfter(old(consFar), |frames|, |old(frames)| - pos)
      ensures ins != InsOk ==> frames == old(frames) && consFar == old(consFar)
      ensures switchImpl == (old(switchImpl) || (ins == InsOk && TooSlow()))
      ensures finSet == (old(finSet) || (ins == InsOk && frame.fin))
      ensures finOff == if ins == InsOk && frame.fin then frame.End() else old(finOff)
      ensures finReached == old(finReached)
    {
      var at, count;
      ins, at, count := Classify(frame, readOffset);
      pos := at;
      if ins == InsOk {
        LinkAndCheck(frame, readOffset, at, count);
      }
    }

    /** Puts a frame in its place, and advises to switch if the list has become too slow. */
    method LinkAndCheck(frame: DataFrame, readOffset: nat, pos: nat, count: nat)
      requires Valid(readOffset) && Divides(frames, frame.offset, pos) && count == |frames| - pos
      requires !Refused(frame, readOffset) && Fits(frames, frame, readOffset)
      modifies `frames, `byteage, `nFrames, `nHoles, `finSet, `finOff, `consFar, `switchImpl
      ensures Valid(readOffset)
      ensures Inserted(old(frames), frames, pos, StreamFrame(frame, 0))
      ensures Stored() == Overlay(old(Stored()), frame.offset, frame.data)
      ensures finSet == (old(finSet) || frame.fin)
      ensures finOff == if frame.fin then frame.End() else old(finOff)
      ensures consFar == FarAfter(old(consFar), nFrames, count)
      ensures switchImpl == (old(switchImpl) || TooSlow())
    {
      Link(frame, readOffset, pos);
      var alert := CheckEfficiency(count);
      if alert {
        switchImpl := true;
      }
    }

    /** The first frame, if it is at the read offset. */
    method GetFrame(readOffset: nat) returns (view: Option<FrameView>)
      requires Valid(readOffset)
      ensures view.Some? <==> frames != [] && frames[0].ROff() == readOffset
      ensures view.None? ==> readOffset !in Stored() && !(finSet && !finReached && readOffset == finOff)
      ensures view.Some? ==>
                && view.value.offset + view.value.readOff == readOffset
                && view.value.size == view.value.readOff + |view.value.unread|
                && view.value.unread == frames[0].frame.data[frames[0].readOff..]
                && view.value.readOff == frames[0].readOff
                && StoredRun(Stored(), readOffset, view.value.unread)
                && view.value.fin == frames[0].frame.fin
      ensures view.Some? && view.value.fin ==> finSet && readOffset + |view.value.unread| == finOff
    {
      ghost var fs := frames;
      assert frames != [] ==> ReadTo(frames[0], readOffset, true);
      if frames != [] && frames[0].Off() + frames[0].readOff == readOffset {
        var f := frames[0];
        var unread := f.frame.data[f.readOff..];
        UnreadStored(fs, 0, readOffset, unread);
        view := Some(FrameView(f.Off(), f.readOff, f.Size(), unread, f.frame.fin));
      } else {
        NothingAtGap(fs, readOffset, 0, readOffset);
        if finSet && !finReached && readOffset == finOff {
          FinIsFirst(fs, readOffset, finSet, finOff);
        }
        view := None;
      }
    }

    /** The reader takes `n` bytes of the first frame. */
    method Advance(readOffset: nat, n: nat, after: nat)
      requires Valid(readOffset)
      requires frames != [] && frames[0].ROff() == readOffset && frames[0].readOff + n <= frames[0].Size()
      requires after == readOffset + n
      modifies `frames
      ensures Valid(after)
      ensures |frames| == |old(frames)| && frames[0] == old(frames[0]).(readOff := old(frames[0]).readOff + n)
      ensures Stored() == old(Stored())
      ensures forall end: nat :: EndsPast(frames, end) ==> EndsPast(old(frames), end)
      ensures SomeEmpty(frames) ==> SomeEmpty(old(frames))
    {
      var before := frames;
      var frames' := before[0 := before[0].(readOff := before[0].readOff + n)];
      ReadOffIrrelevant(before, frames');
      forall i | 0 <= i < |frames'|
        ensures ReadTo(frames'[i], after, i == 0)
      {
        assert ReadTo(before[i], readOffset, i == 0);
        if i > 0 {
          OrderedPair(before, 0, i);
        }
      }
      if HasFin(before) {
        var i: nat :| i < |before| && before[i].frame.fin;
        assert frames'[i].frame.fin;
      }
      assert forall i | 0 <= i < |before| :: before[i].End() == frames'[i].End() && before[i].Size() == frames'[i].Size();
      frames := frames';
    }

    /** Drops the first frame, which has been read. */
    method FrameDone(readOffset: nat)
      requires Valid(readOffset)
      requires frames != [] && frames[0].ROff() == readOffset && frames[0].readOff == frames[0].Size()
      modifies `frames, `byteage, `nFrames, `nHoles, `finReached
      ensures Valid(readOffset)
      ensures frames == old(frames)[1..]
      ensures From(Stored(), readOffset) == From(old(Stored()), readOffset)
      ensures forall o | o in Stored() :: o in old(Stored()) && old(Stored())[o] == Stored()[o]
      ensures finReached == (old(finReached) || old(frames[0]).frame.fin)
      ensures finSet == old(finSet) && finOff == old(finOff)
    {
      var before, frame, rest := frames, frames[0], frames[1..];
      var reached, holes := finReached, nHoles as int;
      if rest != [] {
        holes := holes - Gap(frame, rest[0]);
      }
      if frame.frame.fin {
        reached := true;
      }
      var n0, h0, b0, known, end, was := nFrames, nHoles, byteage, finSet, finOff, finReached;
      var n, bytes := n0 - 1, b0 - frame.Size();
      DoneKeeps(before, rest, readOffset, n0, h0, b0, n, holes, bytes);
      RemovedFins(before, rest, known, end, was, reached);
      assert ListOk(rest, n, holes, bytes, known, end, reached, readOffset);
      frames, nFrames, nHoles, byteage, finReached := rest, n, holes, bytes, reached;
    }

    /** Length of the run of stored bytes at the read offset. */
    method ReadableBytes(readOffset: nat) returns (n: nat)
      requires Valid(readOffset)
      ensures MaximalStored(Stored(), readOffset, n)
    {
      var fs, off, i := frames, readOffset, 0;
      ghost var m, gap := BytesOf(fs), false;
      while i < |fs|
        invariant i <= |fs| && readOffset <= off
        invariant RunTo(m, readOffset, off)
        invariant !gap ==> if i == 0 then off == readOffset else off == fs[i - 1].End()
        invariant gap ==> 0 < i && off < fs[i - 1].ROff() && off !in m
      {
        var f := fs[i];
        assert ReadTo(f, readOffset, i == 0);
        if i > 0 {
          assert ReadTo(fs[i - 1], readOffset, i - 1 == 0);
          OrderedPair(fs, i - 1, i);
        }
        if f.ROff() == off {
          var end := off + (f.End() - f.ROff());
          ghost var run := f.frame.data[f.readOff..];
          UnreadStored(fs, i, off, run);
          ExtendRunTo(m, readOffset, off, run, end);
          off := end;
        } else {
          if !gap {
            NothingAtGap(fs, readOffset, i, off);
          }
          gap := true;
          if off > readOffset {
            break;
          }
        }
        i := i + 1;
      }
      if !gap {
        NothingAtGap(fs, readOffset, i, off);
      }
      n := off - readOffset;
    }

    /**
     Moves all frames to a new copying buffer, which stands for the same stream from
     the read offset on.  Apart from memory, all that can go wrong is a frame past
     the final size.
     */
    method SwitchImpl(readOffset: nat, plenty: bool) returns (hash: HashDataIn?, oom: bool)
      requires Valid(readOffset)
      ensures (oom ==> hash == null) && (plenty ==> !oom)
      ensures !oom ==> (hash == null <==> HasFin(frames) && EndsPast(frames, finOff))
      ensures hash != null ==>
                && fresh(hash) && hash.Valid()
                && hash.Stored() == From(Stored(), readOffset)
                && hash.finSet == HasFin(frames)
                && (hash.finSet ==> hash.finOff == finOff)
                && hash.lastBlock == None && !hash.switchImpl
                && KeysUpTo(hash.Keys(), LastEnd(frames)) && KeysInside(hash.Keys(), frames, readOffset)
    {
      var memory := TryAllocate(plenty);
      if !memory {
        return null, true;
      }
      var fs := frames;
      var h := new HashDataIn(byteage);
      MovedNothing(readOffset, finOff, h.finOff);
      var moved;
      moved, oom := MoveAll(h, fs, readOffset, finOff, plenty);
      hash := if moved then h else null;
    }
  }
}
