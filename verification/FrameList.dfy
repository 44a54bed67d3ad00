/** The sorted list of received frames of the buffer that does not copy. */
module FrameLists {
  import opened StreamBytes

  /** A received frame and how much of it has been read. */
  datatype StreamFrame = StreamFrame(frame: DataFrame, readOff: nat) {
    function Off(): nat { frame.offset }
    function Size(): nat { |frame.data| }
    function End(): nat { frame.End() }
    /** Stream offset of the first byte that has not been read. */
    function ROff(): nat { frame.offset + readOff }
  }

  type Frames = seq<StreamFrame>

  /** Frames are sorted and do not overlap. */
  ghost predicate Ordered(frames: Frames) {
    |frames| <= 1 ||
    (Ordered(frames[..|frames| - 1]) && frames[|frames| - 2].End() <= frames[|frames| - 1].Off())
  }

  function Gap(a: StreamFrame, b: StreamFrame): nat {
    if a.End() != b.Off() then 1 else 0
  }

  /** Number of neighbours with a gap between them. */
  ghost function Holes(frames: Frames): nat {
    if |frames| <= 1 then 0
    else Holes(frames[..|frames| - 1]) + Gap(frames[|frames| - 2], frames[|frames| - 1])
  }

  /** Number of bytes in the frames, read or not. */
  ghost function TotalSize(frames: Frames): nat {
    if frames == [] then 0 else TotalSize(frames[..|frames| - 1]) + frames[|frames| - 1].Size()
  }

  /** The bytes of the frames, by stream offset. */
  ghost function BytesOf(frames: Frames): Bytes {
    if frames == [] then imap[]
    else
      var last := frames[|frames| - 1];
      Overlay(BytesOf(frames[..|frames| - 1]), last.Off(), last.frame.data)
  }

  /** The positions of frames that do not start where the one before ends. */
  ghost function Breaks(frames: Frames): set<nat> {
    set i: nat | i < |frames| && BreakAt(frames, i)
  }

  ghost predicate BreakAt(frames: Frames, i: nat) {
    0 < i < |frames| && frames[i - 1].End() != frames[i].Off()
  }

  lemma BreaksMore(frames: Frames, init: Frames, n: nat)
    requires |frames| == n + 1 && init == frames[..n]
    ensures n !in Breaks(init)
    ensures Breaks(frames) == if BreakAt(frames, n) then Breaks(init) + {n} else Breaks(init)
  {
    forall i: nat ensures i in Breaks(frames) <==> i in Breaks(init) || (i == n && BreakAt(frames, n)) {
      if i < n {
        assert frames[i] == init[i];
      }
      assert i in Breaks(frames) <==> BreakAt(frames, i);
    }
  }

  /** There are as many holes as such positions. */
  lemma {:induction false} HolesAreBreaks(frames: Frames)
    ensures Holes(frames) == |Breaks(frames)|
  {
    if |frames| <= 1 {
      assert Breaks(frames) == {};
    } else {
      var n := |frames| - 1;
      var init := frames[..n];
      HolesAreBreaks(init);
      BreaksMore(frames, init, n);
    }
  }

  // ---------- Order ----------

  lemma {:induction false} OrderedPair(frames: Frames, i: nat, j: nat)
    requires Ordered(frames) && i < j < |frames|
    ensures frames[i].End() <= frames[j].Off()
  {
    var init := frames[..|frames| - 1];
    if j < |init| {
      assert frames[i] == init[i] && frames[j] == init[j];
      OrderedPair(init, i, j);
    } else if i < j - 1 {
      assert frames[i] == init[i] && frames[j - 1] == init[j - 1];
      OrderedPair(init, i, j - 1);
    }
  }

  lemma {:induction false} OrderedConcat(a: Frames, b: Frames)
    requires Ordered(a) && Ordered(b)
    requires a != [] && b != [] ==> a[|a| - 1].End() <= b[0].Off()
    ensures Ordered(a + b)
  {
    if b == [] {
      assert a + b == a;
    } else if a == [] {
      assert a + b == b;
    } else {
      var init := b[..|b| - 1];
      assert (a + b)[..|a + b| - 1] == a + init;
      OrderedConcat(a, init);
    }
  }

  lemma {:induction false} OrderedParts(a: Frames, b: Frames)
    requires Ordered(a + b)
    ensures Ordered(a) && Ordered(b)
  {
    if b == [] {
      assert a + b == a;
    } else {
      var init := b[..|b| - 1];
      assert (a + b)[..|a + b| - 1] == a + init;
      if |a + b| > 1 {
        OrderedParts(a, init);
      }
    }
  }

  // ---------- Counters ----------

  lemma {:induction false} HolesConcat(a: Frames, b: Frames)
    ensures Holes(a + b) == Holes(a) + Holes(b) + if a == [] || b == [] then 0 else Gap(a[|a| - 1], b[0])
  {
    if b == [] {
      assert a + b == a;
    } else if a == [] {
      assert a + b == b;
    } else {
      var init := b[..|b| - 1];
      assert (a + b)[..|a + b| - 1] == a + init;
      HolesConcat(a, init);
    }
  }

  lemma {:induction false} TotalConcat(a: Frames, b: Frames)
    ensures TotalSize(a + b) == TotalSize(a) + TotalSize(b)
  {
    if b == [] {
      assert a + b == a;
    } else {
      var init := b[..|b| - 1];
      assert (a + b)[..|a + b| - 1] == a + init;
      TotalConcat(a, init);
    }
  }

  /** `after` is `before` with `f` put in at position `pos`. */
  ghost predicate Inserted(before: Frames, after: Frames, pos: nat, f: StreamFrame) {
    pos <= |before| && after == before[..pos] + [f] + before[pos..]
  }

  lemma InsertedOrdered(before: Frames, after: Frames, pos: nat, f: StreamFrame)
    requires Ordered(before) && Inserted(before, after, pos, f)
    requires pos > 0 ==> before[pos - 1].End() <= f.Off()
    requires pos < |before| ==> f.End() <= before[pos].Off()
    ensures Ordered(after)
  {
    var a, one, b := before[..pos], [f], before[pos..];
    assert before == a + b;
    OrderedParts(a, b);
    assert Ordered(one);
    OrderedConcat(a, one);
    var af := a + one;
    assert after == af + b;
    OrderedConcat(af, b);
  }

  lemma InsertedTotal(before: Frames, after: Frames, pos: nat, f: StreamFrame)
    requires Inserted(before, after, pos, f)
    ensures TotalSize(after) == TotalSize(before) + f.Size()
  {
    var a, one, b := before[..pos], [f], before[pos..];
    assert before == a + b;
    TotalConcat(a, b);
    TotalConcat(a, one);
    var af := a + one;
    assert after == af + b;
    TotalConcat(af, b);
    assert TotalSize(one) == f.Size() by { assert one[..0] == []; }
  }

  /**
   What an insertion does to the number of holes.  Between two neighbours it
   takes away a hole that is always there.
   */
  lemma InsertedHoles(before: Frames, after: Frames, pos: nat, f: StreamFrame)
    requires Inserted(before, after, pos, f)
    requires pos > 0 ==> before[pos - 1].End() <= f.Off()
    requires pos < |before| ==> f.Off() < before[pos].Off()
    ensures Holes(after) == Holes(before)
                            + (if pos > 0 then Gap(before[pos - 1], f) else 0)
                            + (if pos < |before| then Gap(f, before[pos]) else 0)
                            - (if 0 < pos < |before| then 1 else 0)
  {
    var a, one, b := before[..pos], [f], before[pos..];
    assert before == a + b;
    HolesConcat(a, b);
    HolesConcat(a, one);
    var af := a + one;
    assert after == af + b;
    HolesConcat(af, b);
    assert Holes(one) == 0;
  }

  lemma RemovedCounters(frames: Frames, rest: Frames)
    requires Ordered(frames) && frames != [] && rest == frames[1..]
    ensures Ordered(rest)
    ensures TotalSize(frames) == TotalSize(rest) + frames[0].Size()
    ensures Holes(frames) == Holes(rest) + if |frames| > 1 then Gap(frames[0], frames[1]) else 0
  {
    var one := [frames[0]];
    assert frames == one + rest;
    OrderedParts(one, rest);
    HolesConcat(one, rest);
    TotalConcat(one, rest);
    assert TotalSize(one) == frames[0].Size() by { assert one[..0] == []; }
  }

  // ---------- Bytes ----------

  /** A stored byte comes from one of the frames. */
  lemma {:induction false} BytesFrom(frames: Frames, o: nat) returns (i: nat)
    requires o in BytesOf(frames)
    ensures i < |frames| && frames[i].Off() <= o < frames[i].End()
    ensures BytesOf(frames)[o] == frames[i].frame.data[o - frames[i].Off()]
  {
    var init, last := frames[..|frames| - 1], frames[|frames| - 1];
    if last.Off() <= o < last.End() {
      i := |frames| - 1;
    } else {
      i := BytesFrom(init, o);
    }
  }

  /** A byte of a frame is stored. */
  lemma {:induction false} BytesAt(frames: Frames, i: nat, o: nat)
    requires Ordered(frames) && i < |frames| && frames[i].Off() <= o < frames[i].End()
    ensures o in BytesOf(frames) && BytesOf(frames)[o] == frames[i].frame.data[o - frames[i].Off()]
  {
    var init := frames[..|frames| - 1];
    if i < |init| {
      OrderedPair(frames, i, |init|);
      assert init[i] == frames[i];
      BytesAt(init, i, o);
    }
  }

  /** `a` and `b` agree at `o`. */
  ghost predicate SameAt(a: Bytes, b: Bytes, o: nat) {
    (o in a <==> o in b) && (o in a ==> a[o] == b[o])
  }

  /** A frame of the list stores its bytes also after the list has been rebuilt. */
  lemma ByteKept(from: Frames, i: nat, to: Frames, j: nat, o: nat)
    requires Ordered(to) && i < |from| && j < |to| && from[i] == to[j]
    requires from[i].Off() <= o < from[i].End()
    ensures o in BytesOf(to) && BytesOf(to)[o] == from[i].frame.data[o - from[i].Off()]
  {
    BytesAt(to, j, o);
  }

  /** Where the frame at `i` is after the insertion. */
  lemma InsertedIndex(before: Frames, after: Frames, pos: nat, f: StreamFrame, i: nat) returns (j: nat)
    requires Inserted(before, after, pos, f) && i < |before|
    ensures j < |after| && after[j] == before[i]
  {
    j := if i < pos then i else i + 1;
  }

  /** Where the frame at `j` was before the insertion, unless it is the new one. */
  lemma InsertedOrigin(before: Frames, after: Frames, pos: nat, f: StreamFrame, j: nat) returns (i: nat)
    requires Inserted(before, after, pos, f) && j < |after| && after[j] != f
    ensures i < |before| && before[i] == after[j]
  {
    i := if j < pos then j else j - 1;
  }

  lemma InsertedKeeps(before: Frames, after: Frames, pos: nat, f: StreamFrame, o: nat)
    requires Ordered(after) && Inserted(before, after, pos, f) && o in BytesOf(before)
    ensures o in BytesOf(after) && BytesOf(after)[o] == BytesOf(before)[o]
  {
    var i := BytesFrom(before, o);
    var j := InsertedIndex(before, after, pos, f, i);
    ByteKept(before, i, after, j, o);
  }

  lemma InsertedNoMore(before: Frames, after: Frames, pos: nat, f: StreamFrame, o: nat)
    requires Ordered(before) && Inserted(before, after, pos, f) && o in BytesOf(after)
    requires !(f.Off() <= o < f.End())
    ensures o in BytesOf(before)
  {
    var j := BytesFrom(after, o);
    var i := InsertedOrigin(before, after, pos, f, j);
    ByteKept(after, j, before, i, o);
  }

  lemma OverlayAt(m: Bytes, m': Bytes, f: StreamFrame, o: nat)
    requires f.Off() <= o < f.End() ==> o in m' && m'[o] == f.frame.data[o - f.Off()]
    requires !(f.Off() <= o < f.End()) ==> SameAt(m, m', o)
    ensures SameAt(m', Overlay(m, f.Off(), f.frame.data), o)
  {
  }

  lemma InsertedByte(before: Frames, after: Frames, pos: nat, f: StreamFrame, o: nat)
    requires Ordered(before) && Ordered(after) && Inserted(before, after, pos, f)
    ensures SameAt(BytesOf(after), Overlay(BytesOf(before), f.Off(), f.frame.data), o)
  {
    var m, m' := BytesOf(before), BytesOf(after);
    var inside := f.Off() <= o < f.End();
    assert inside ==> o in m' && m'[o] == f.frame.data[o - f.Off()] by {
      if inside {
        BytesAt(after, pos, o);
      }
    }
    assert !inside && o in m ==> o in m' && m'[o] == m[o] by {
      if o in m && !inside {
        InsertedKeeps(before, after, pos, f, o);
      }
    }
    assert !inside && o in m' ==> o in m by {
      if !inside && o in m' {
        InsertedNoMore(before, after, pos, f, o);
      }
    }
    OverlayAt(m, m', f, o);
  }

  /** Putting in a frame stores its bytes. */
  lemma InsertedBytes(before: Frames, after: Frames, pos: nat, f: StreamFrame)
    requires Ordered(before) && Ordered(after) && Inserted(before, after, pos, f)
    ensures BytesOf(after) == Overlay(BytesOf(before), f.Off(), f.frame.data)
  {
    var a, b := BytesOf(after), Overlay(BytesOf(before), f.Off(), f.frame.data);
    forall o: nat
      ensures SameAt(a, b, o)
    {
      InsertedByte(before, after, pos, f, o);
    }
    SameEverywhere(a, b);
  }

  lemma SameEverywhere(a: Bytes, b: Bytes)
    requires forall o: nat :: SameAt(a, b, o)
    ensures a == b
  {
    forall o: nat
      ensures (o in a <==> o in b) && (o in a ==> a[o] == b[o])
    {
      assert SameAt(a, b, o);
    }
  }

  /** The first frame aside, a byte is in the list if and only if it is in the rest. */
  lemma RemovedByte(frames: Frames, rest: Frames, o: nat)
    requires Ordered(frames) && frames != [] && rest == frames[1..]
    requires !(frames[0].Off() <= o < frames[0].End())
    ensures SameAt(BytesOf(rest), BytesOf(frames), o)
  {
    if o in BytesOf(rest) {
      RemovedStored(frames, rest, o);
    }
    if o in BytesOf(frames) {
      RemovedCounters(frames, rest);
      var i := BytesFrom(frames, o);
      BytesAt(rest, i - 1, o);
    }
  }

  lemma RemovedStored(frames: Frames, rest: Frames, o: nat)
    requires Ordered(frames) && frames != [] && rest == frames[1..] && o in BytesOf(rest)
    ensures o in BytesOf(frames) && BytesOf(frames)[o] == BytesOf(rest)[o]
  {
    var i := BytesFrom(rest, o);
    BytesAt(frames, i + 1, o);
  }

  /** Dropping the first frame, which ends at or before `from`, loses nothing from there on. */
  lemma RemovedBytes(frames: Frames, rest: Frames, from: nat)
    requires Ordered(frames) && frames != [] && frames[0].End() <= from && rest == frames[1..]
    ensures From(BytesOf(rest), from) == From(BytesOf(frames), from)
  {
    var a, b := BytesOf(rest), BytesOf(frames);
    forall o: nat | from <= o
      ensures (o in a <==> o in b) && (o in a ==> a[o] == b[o])
    {
      RemovedByte(frames, rest, o);
    }
  }

  /** What is left comes from before. */
  lemma RemovedSubset(frames: Frames, rest: Frames)
    requires Ordered(frames) && frames != [] && rest == frames[1..]
    ensures forall o | o in BytesOf(rest) :: o in BytesOf(frames) && BytesOf(frames)[o] == BytesOf(rest)[o]
  {
    forall o | o in BytesOf(rest)
      ensures o in BytesOf(frames) && BytesOf(frames)[o] == BytesOf(rest)[o]
    {
      RemovedStored(frames, rest, o);
    }
  }

  /** Reading does not change what is stored. */
  lemma {:induction false} ReadOffIrrelevant(a: Frames, b: Frames)
    requires |a| == |b| && forall i | 0 <= i < |a| :: a[i].frame == b[i].frame
    ensures BytesOf(a) == BytesOf(b) && Holes(a) == Holes(b) && TotalSize(a) == TotalSize(b)
    ensures Ordered(a) <==> Ordered(b)
  {
    if |a| > 0 {
      ReadOffIrrelevant(a[..|a| - 1], b[..|b| - 1]);
    }
  }
}
