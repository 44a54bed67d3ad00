/** Whole frames: what they consume, and which header blocks come out. */
module FrameRuns {
  import opened Wrappers
  import opened StreamBytes
  import opened FrameMachine

  ghost predicate AtStart(m: Machine) {
    m.phase == InHeader && m.got == []
  }

  /** A frame as it is on the wire: a header of nine bytes and its payload. */
  datatype Frame = Frame(head: seq<byte>, payload: seq<byte>) {
    ghost predicate Valid() {
      |head| == 9 && |payload| == ParseHeader(head).length
    }
    ghost function H(): Header
      requires |head| == 9
    {
      ParseHeader(head)
    }
    ghost function Bytes(): seq<byte> { head + payload }
  }

  /** All bytes of a phase at once. */
  lemma PhaseFolds(cfg: Config, m: Machine, b: seq<byte>)
    requires m.phase != Dead && m.got == [] && |b| == Want(m) && b != []
    ensures Fold(cfg, m, b) == Complete(cfg, m, Kept(m.phase, b))
  {
    FoldAll(cfg, m, b);
    assert m.got + Kept(m.phase, b) == Kept(m.phase, b);
  }

  // ---------- Consumption ----------

  /** Payload bytes that the phase and those after it still take. */
  ghost function Remaining(m: Machine): nat {
    match m.phase
    case InHeader => 0
    case InPesw(h) => h.length
    case InFragment(h) => FragmentLength(h, m.ctx.prefix) + m.ctx.prefix.padLength
    case InPadding(h) => m.ctx.prefix.padLength
    case InContinuation(h) => h.length
    case InSettings(_, left) => left
    case InPriority(_) => 5
    case InSkip(h) => h.length
    case Dead => 0
  }

  ghost predicate Within(m: Machine) {
    && m.got == []
    && match m.phase
       case InPesw(h) => 0 < h.PeswSize() <= h.length
       case InFragment(h) => FragmentLength(h, m.ctx.prefix) > 0
       case InPadding(h) => m.ctx.prefix.padLength > 0
       case InContinuation(h) => h.length > 0
       case InSettings(_, left) => left > 0 && left % 6 == 0
       case InSkip(h) => h.length > 0
       case _ => true
  }

  /** The header of a frame announces as many bytes as its phases take. */
  lemma PreparedWithin(cfg: Config, ctx: Context, h: Header)
    ensures var m := Prepare(cfg, ctx, h).m; Within(m) && (m.phase == Dead || Remaining(m) == h.length)
  {
  }

  lemma CompletedWithin(cfg: Config, m: Machine, b: seq<byte>)
    requires Within(m) && m.phase != Dead && m.phase != InHeader && |b| == Want(m)
    ensures var m' := Complete(cfg, m, b).m;
            Within(m') && (m'.phase == Dead || Remaining(m') + |b| == Remaining(m))
  {
  }

  lemma {:induction false} PayloadConsumed(cfg: Config, m: Machine, payload: seq<byte>)
    requires Within(m) && (m.phase == Dead || |payload| == Remaining(m))
    ensures var m' := Fold(cfg, m, payload).m; AtStart(m') || m'.phase == Dead
    decreases |payload|
  {
    if m.phase == Dead {
      FoldDead(cfg, m, payload);
    } else if m.phase != InHeader {
      var w := Want(m);
      var a, b := payload[..w], payload[w..];
      assert payload == a + b;
      PhaseFolds(cfg, m, a);
      FoldConcat(cfg, m, a, b);
      CompletedWithin(cfg, m, Kept(m.phase, a));
      var m' := Fold(cfg, m, a).m;
      PayloadConsumed(cfg, m', b);
    }
  }

  /** Before the last byte of the payload the machine is not ready for another frame. */
  lemma {:induction false} PayloadNeeded(cfg: Config, m: Machine, part: seq<byte>)
    requires Within(m) && (m.phase == Dead || |part| < Remaining(m))
    ensures !AtStart(Fold(cfg, m, part).m)
    decreases |part|
  {
    if m.phase == Dead {
      FoldDead(cfg, m, part);
    } else if |part| < Want(m) {
      FoldPart(cfg, m, part);
    } else {
      var w := Want(m);
      var a, b := part[..w], part[w..];
      assert part == a + b;
      PhaseFolds(cfg, m, a);
      FoldConcat(cfg, m, a, b);
      CompletedWithin(cfg, m, Kept(m.phase, a));
      var m' := Fold(cfg, m, a).m;
      PayloadNeeded(cfg, m', b);
    }
  }

  lemma PartOf(a: seq<byte>, b: seq<byte>, ab: seq<byte>, k: nat)
    requires ab == a + b && |a| <= k <= |ab|
    ensures ab[..k] == a + b[..k - |a|]
  {
  }

  /**
   A frame takes its nine bytes and its payload and no more and no less, unless it is an
   error: the machine is ready for another frame after them and not before.
   */
  lemma FrameConsumed(cfg: Config, m: Machine, frame: Frame)
    requires AtStart(m) && frame.Valid()
    ensures var m' := Fold(cfg, m, frame.Bytes()).m; AtStart(m') || m'.phase == Dead
    ensures forall k | 0 < k < |frame.Bytes()| :: !AtStart(Fold(cfg, m, frame.Bytes()[..k]).m)
  {
    var head, payload := frame.head, frame.payload;
    PhaseFolds(cfg, m, head);
    FoldConcat(cfg, m, head, payload);
    PreparedWithin(cfg, m.ctx, frame.H());
    var m1 := Fold(cfg, m, head).m;
    PayloadConsumed(cfg, m1, payload);
    forall k | 0 < k < |frame.Bytes()|
      ensures !AtStart(Fold(cfg, m, frame.Bytes()[..k]).m)
    {
      if k < 9 {
        assert frame.Bytes()[..k] == head[..k];
        FoldPart(cfg, m, head[..k]);
      } else {
        var part := payload[..k - 9];
        PartOf(head, payload, frame.Bytes(), k);
        FoldConcat(cfg, m, head, part);
        PayloadNeeded(cfg, m1, part);
      }
    }
  }

  // ---------- Header blocks ----------

  /** The prefix of a frame that opens a block, as it is after it has been read. */
  ghost function PrefixOf(ctx: Context, frame: Frame): Pesw
    requires frame.Valid() && frame.H().PeswSize() <= frame.H().length
  {
    var h := frame.H();
    if h.PeswSize() > 0 then ParsePesw(h, FreshPesw(ctx, h), frame.payload[..h.PeswSize()]) else FreshPesw(ctx, h)
  }

  /** A frame that the reader takes as the start of a header block. */
  ghost predicate Starting(cfg: Config, ctx: Context, frame: Frame) {
    && frame.Valid() && frame.H().OpensBlock() && !ctx.Expecting()
    && (frame.H().kind == PUSH_PROMISE ==> !cfg.server)
    && (cfg.maxHeaders > 0 ==> frame.H().length <= cfg.maxHeaders)
    && frame.H().PeswSize() + PadOf(ctx, frame) <= frame.H().length
  }

  /** The same with a fragment that is not empty. */
  ghost predicate Opening(cfg: Config, ctx: Context, frame: Frame) {
    Starting(cfg, ctx, frame) && frame.H().PeswSize() + PadOf(ctx, frame) < frame.H().length
  }

  ghost function PadOf(ctx: Context, frame: Frame): nat
    requires frame.Valid()
  {
    if frame.H().PeswSize() <= frame.H().length then PrefixOf(ctx, frame).padLength else 0
  }

  ghost function FragmentOf(ctx: Context, frame: Frame): seq<byte>
    requires frame.Valid() && frame.H().PeswSize() + PadOf(ctx, frame) <= frame.H().length
  {
    frame.payload[frame.H().PeswSize()..frame.H().length - PadOf(ctx, frame)]
  }

  ghost function Opened(ctx: Context, frame: Frame): Context
    requires frame.Valid() && frame.H().PeswSize() <= frame.H().length
  {
    ctx.(prev := Some(frame.H()), skipping := false, push := frame.H().kind == PUSH_PROMISE, prefix := PrefixOf(ctx, frame))
  }

  /** The machine behind the prefix of a frame that opens a block. */
  lemma PrefixFolds(cfg: Config, m: Machine, frame: Frame, start: seq<byte>)
    requires AtStart(m) && Starting(cfg, m.ctx, frame) && start == frame.head + frame.payload[..frame.H().PeswSize()]
    ensures Fold(cfg, m, start) == AfterPesw(Opened(m.ctx, frame), frame.H())
  {
    var h, pesw := frame.H(), frame.payload[..frame.H().PeswSize()];
    PhaseFolds(cfg, m, frame.head);
    var m1, o := Fold(cfg, m, frame.head).m, AfterPesw(Opened(m.ctx, frame), h);
    if pesw != [] {
      PhaseFolds(cfg, m1, pesw);
      FoldAfter(cfg, m, frame.head, m1, pesw, o, start);
    } else {
      assert start == frame.head;
    }
  }

  lemma PaddingFolds(cfg: Config, ctx: Context, h: Header, pad: seq<byte>)
    requires |pad| == ctx.prefix.padLength
    ensures var next := if ctx.prefix.padLength > 0 then InPadding(h) else InHeader;
            Fold(cfg, Machine(ctx, next, []), pad) == Out(Machine(ctx, InHeader, []), [])
  {
    if pad != [] {
      PhaseFolds(cfg, Machine(ctx, InPadding(h), []), pad);
    }
  }

  /** What the fragment leads to. */
  ghost function AfterFragment(c: Context, h: Header, fragment: seq<byte>): Out {
    if h.EndHeaders()
    then Out(Machine(c.(block := None, blockSize := |fragment|), InHeader, []), [BlockEvent(c, h, fragment)])
    else Out(Machine(c.(block := Some(fragment), blockSize := |fragment|), InHeader, []), [])
  }

  lemma FragmentFolds(cfg: Config, c: Context, h: Header, fragment: seq<byte>, rest: seq<byte>)
    requires |fragment| == FragmentLength(h, c.prefix) > 0 && |rest| == c.prefix.padLength
    ensures Fold(cfg, Machine(c.(block := None, blockSize := 0), InFragment(h), []), fragment + rest)
         == AfterFragment(c, h, fragment)
  {
    var m1 := Machine(c.(block := None, blockSize := 0), InFragment(h), []);
    PhaseFolds(cfg, m1, fragment);
    var o := Complete(cfg, m1, fragment);
    SameEvent(c, m1.ctx, h, fragment);
    PaddingFolds(cfg, o.m.ctx, h, rest);
    FoldConcat(cfg, m1, fragment, rest);
    assert o.events + [] == o.events;
  }

  lemma FoldAfter(cfg: Config, m: Machine, a: seq<byte>, m1: Machine, b: seq<byte>, o: Out, ab: seq<byte>)
    requires Fold(cfg, m, a) == Out(m1, []) && Fold(cfg, m1, b) == o && ab == a + b
    ensures Fold(cfg, m, ab) == o
  {
    FoldConcat(cfg, m, a, b);
    assert [] + o.events == o.events;
  }

  lemma SplitBytes(head: seq<byte>, payload: seq<byte>, p: nat, q: nat)
    requires p <= q <= |payload|
    ensures head + payload == (head + payload[..p]) + (payload[p..q] + payload[q..])
  {
  }

  lemma OpeningShape(cfg: Config, ctx: Context, frame: Frame, c: Context, h: Header, p: nat, q: nat)
    requires Opening(cfg, ctx, frame) && c == Opened(ctx, frame) && h == frame.H()
    requires p == h.PeswSize() && q == h.length - PadOf(ctx, frame)
    ensures p < q <= |frame.payload| && FragmentLength(h, c.prefix) == q - p && c.prefix.padLength == |frame.payload| - q
    ensures AfterPesw(c, h) == Out(Machine(c.(block := None, blockSize := 0), InFragment(h), []), [])
  {
  }

  lemma OpeningParts(cfg: Config, m: Machine, frame: Frame, c: Context, h: Header, start: seq<byte>, fragment: seq<byte>,
                     rest: seq<byte>, bytes: seq<byte>, m1: Machine, o: Out)
    requires AtStart(m) && Starting(cfg, m.ctx, frame) && c == Opened(m.ctx, frame) && h == frame.H()
    requires start == frame.head + frame.payload[..h.PeswSize()] && bytes == start + (fragment + rest)
    requires |fragment| == FragmentLength(h, c.prefix) > 0 && |rest| == c.prefix.padLength
    requires m1 == Machine(c.(block := None, blockSize := 0), InFragment(h), []) && AfterPesw(c, h) == Out(m1, [])
    requires o == AfterFragment(c, h, fragment)
    ensures Fold(cfg, m, bytes) == o
  {
    PrefixFolds(cfg, m, frame, start);
    FragmentFolds(cfg, c, h, fragment, rest);
    FoldAfter(cfg, m, start, m1, fragment + rest, o, bytes);
  }

  /** A frame that opens a block: its fragment is kept, or passed on if the block ends here. */
  lemma OpeningFolds(cfg: Config, m: Machine, frame: Frame)
    requires AtStart(m) && Opening(cfg, m.ctx, frame)
    ensures Fold(cfg, m, frame.Bytes()) == AfterFragment(Opened(m.ctx, frame), frame.H(), FragmentOf(m.ctx, frame))
  {
    var h, c, bytes := frame.H(), Opened(m.ctx, frame), frame.Bytes();
    var p, q, payload := h.PeswSize(), h.length - PadOf(m.ctx, frame), frame.payload;
    OpeningShape(cfg, m.ctx, frame, c, h, p, q);
    var start, fragment, rest := frame.head + payload[..p], payload[p..q], payload[q..];
    var m1, o := Machine(c.(block := None, blockSize := 0), InFragment(h), []), AfterFragment(c, h, fragment);
    SplitBytes(frame.head, payload, p, q);
    OpeningParts(cfg, m, frame, c, h, start, fragment, rest, bytes, m1, o);
  }

  /** A CONTINUATION that goes on with the block `x`. */
  ghost predicate Continuing(cfg: Config, ctx: Context, x: seq<byte>, frame: Frame) {
    && frame.Valid() && frame.H().kind == CONTINUATION && frame.payload != []
    && ctx.Expecting() && !ctx.skipping && frame.H().streamId == ctx.prev.value.streamId
    && Held(ctx) == x && ctx.blockSize == |x|
    && (cfg.maxHeaders > 0 ==> |x| + |frame.payload| <= cfg.maxHeaders)
  }

  /** The header of a CONTINUATION. */
  lemma ContinuationHead(cfg: Config, m: Machine, x: seq<byte>, frame: Frame, m1: Machine)
    requires AtStart(m) && Continuing(cfg, m.ctx, x, frame)
    requires m1 == Machine(m.ctx.(prev := Some(frame.H()), skipping := false, block := Some(x), blockSize := |x| + |frame.payload|),
                           InContinuation(frame.H()), [])
    ensures Fold(cfg, m, frame.head) == Out(m1, [])
  {
    PhaseFolds(cfg, m, frame.head);
  }

  lemma ContinuationFolds(cfg: Config, m: Machine, x: seq<byte>, frame: Frame, y: seq<byte>)
    requires AtStart(m) && Continuing(cfg, m.ctx, x, frame) && y == x + frame.payload
    ensures Fold(cfg, m, frame.Bytes()) ==
            AfterFragment(m.ctx.(prev := Some(frame.H()), skipping := false), frame.H(), y)
  {
    var h := frame.H();
    var c := m.ctx.(prev := Some(h), skipping := false);
    var m1 := Machine(c.(block := Some(x), blockSize := |x| + |frame.payload|), InContinuation(h), []);
    ContinuationHead(cfg, m, x, frame, m1);
    PhaseFolds(cfg, m1, frame.payload);
    SameEvent(c, m1.ctx, h, y);
    FoldAfter(cfg, m, frame.head, m1, frame.payload, AfterFragment(c, h, y), frame.Bytes());
  }

  /**
   A frame whose fragment is empty passes nothing on, even if it ends its block: an empty
   header block is never decoded.
   */
  lemma EmptyFragmentIsSilent(cfg: Config, m: Machine, frame: Frame)
    requires AtStart(m) && Starting(cfg, m.ctx, frame) && !Opening(cfg, m.ctx, frame)
    ensures Fold(cfg, m, frame.Bytes()) == Out(Machine(AfterEmpty(Opened(m.ctx, frame), frame.H()), InHeader, []), [])
  {
    var h, p, n := frame.H(), frame.H().PeswSize(), |frame.payload|;
    var start, pad := frame.head + frame.payload[..p], frame.payload[p..n] + frame.payload[n..];
    PrefixFolds(cfg, m, frame, start);
    SplitBytes(frame.head, frame.payload, p, n);
    var c := Opened(m.ctx, frame);
    SilentAfter(cfg, c, h, pad);
    var o := AfterPesw(c, h);
    FoldAfter(cfg, m, start, o.m, pad, Fold(cfg, o.m, pad), frame.Bytes());
  }

  /** Padding alone leaves the size of the block before, a frame that is all prefix does not. */
  ghost function AfterEmpty(c: Context, h: Header): Context {
    if h.length > h.PeswSize() then c else c.(block := None, blockSize := 0)
  }

  lemma SilentAfter(cfg: Config, c: Context, h: Header, pad: seq<byte>)
    requires h.PeswSize() + c.prefix.padLength == h.length && |pad| == c.prefix.padLength
    ensures Fold(cfg, AfterPesw(c, h).m, pad) == Out(Machine(AfterEmpty(c, h), InHeader, []), [])
  {
    if pad != [] {
      PhaseFolds(cfg, AfterPesw(c, h).m, pad);
    }
  }

  // ---------- Runs of frames ----------

  ghost function BytesOf(frames: seq<Frame>): seq<byte> {
    if frames == [] then [] else frames[0].Bytes() + BytesOf(frames[1..])
  }

  ghost function PayloadsOf(frames: seq<Frame>): seq<byte> {
    if frames == [] then [] else frames[0].payload + PayloadsOf(frames[1..])
  }

  /** CONTINUATION frames of one stream, not empty, of which only the last ends the block. */
  ghost predicate Continuations(frames: seq<Frame>, streamId: nat) {
    frames != [] &&
    forall i | 0 <= i < |frames| ::
      && frames[i].Valid() && frames[i].payload != []
      && frames[i].H().kind == CONTINUATION && frames[i].H().streamId == streamId
      && (frames[i].H().EndHeaders() <==> i == |frames| - 1)
  }

  lemma ContinuationsTail(frames: seq<Frame>, streamId: nat, more: seq<Frame>)
    requires Continuations(frames, streamId) && more == frames[1..]
    ensures frames[0].H().EndHeaders() <==> more == []
    ensures more != [] ==> Continuations(more, streamId) && more[|more| - 1] == frames[|frames| - 1]
    ensures BytesOf(frames) == frames[0].Bytes() + BytesOf(more)
    ensures PayloadsOf(frames) == frames[0].payload + PayloadsOf(more)
  {
  }

  /** The block `block` has been passed on with header `h`. */
  ghost predicate Passed(o: Out, ctx: Context, h: Header, block: seq<byte>) {
    AtStart(o.m) && o.m.ctx.block == None && o.events == [BlockEvent(ctx, h, block)]
  }

  ghost predicate Open(m: Machine, x: seq<byte>, streamId: nat) {
    && AtStart(m) && m.ctx.Expecting() && !m.ctx.skipping && m.ctx.prev.value.streamId == streamId
    && Held(m.ctx) == x && m.ctx.blockSize == |x|
  }

  /** One CONTINUATION: the block goes on, or is passed on. */
  lemma OneContinuation(cfg: Config, m: Machine, x: seq<byte>, frame: Frame, y: seq<byte>, streamId: nat, m1: Machine)
    requires Open(m, x, streamId) && Continuing(cfg, m.ctx, x, frame) && y == x + frame.payload
    requires m1 == Fold(cfg, m, frame.Bytes()).m
    ensures if frame.H().EndHeaders() then Passed(Fold(cfg, m, frame.Bytes()), m.ctx, frame.H(), y)
            else && Fold(cfg, m, frame.Bytes()).events == [] && Open(m1, y, streamId)
                 && m1.ctx.push == m.ctx.push && m1.ctx.prefix == m.ctx.prefix
  {
    ContinuationFolds(cfg, m, x, frame, y);
    assert y + Zeros(0) == y;
    SameEvent(m.ctx, m.ctx.(prev := Some(frame.H()), skipping := false), frame.H(), y);
  }

  /** A block that has become too large has been refused. */
  ghost predicate Refused(o: Out, streamId: nat) {
    AtStart(o.m) && o.m.ctx.block == None && o.events == [OnError(streamId, BadHeader)]
  }

  /** The rest of a block that was refused is skipped. */
  ghost predicate Skipping(m: Machine, streamId: nat) {
    && AtStart(m) && m.ctx.Expecting() && m.ctx.skipping && m.ctx.prev.value.streamId == streamId && m.ctx.block == None
  }

  ghost predicate ContinuationOf(frame: Frame, streamId: nat) {
    && frame.Valid() && frame.payload != [] && frame.H().kind == CONTINUATION && frame.H().streamId == streamId
  }

  /** A frame that is skipped. */
  lemma SkipFolds(cfg: Config, m: Machine, c: Context, frame: Frame, events: seq<Event>)
    requires frame.Valid() && frame.payload != []
    requires Fold(cfg, m, frame.head) == Out(Machine(c, InSkip(frame.H()), []), events)
    ensures Fold(cfg, m, frame.Bytes()) == Out(Machine(c, InHeader, []), events)
  {
    var m1 := Machine(c, InSkip(frame.H()), []);
    PhaseFolds(cfg, m1, frame.payload);
    FoldConcat(cfg, m, frame.head, frame.payload);
    assert events + [] == events;
  }

  lemma OneSkipped(cfg: Config, m: Machine, frame: Frame, streamId: nat, o: Out)
    requires Skipping(m, streamId) && ContinuationOf(frame, streamId) && o == Fold(cfg, m, frame.Bytes())
    ensures o.events == [] && AtStart(o.m) && o.m.ctx.block == None
    ensures !frame.H().EndHeaders() ==> Skipping(o.m, streamId)
  {
    var c := m.ctx.(prev := Some(frame.H()), skipping := true);
    PhaseFolds(cfg, m, frame.head);
    SkipFolds(cfg, m, c, frame, []);
  }

  lemma {:induction false} AllSkipped(cfg: Config, m: Machine, frames: seq<Frame>, streamId: nat, bytes: seq<byte>)
    requires Skipping(m, streamId) && Continuations(frames, streamId) && bytes == BytesOf(frames)
    ensures Fold(cfg, m, bytes).events == [] && AtStart(Fold(cfg, m, bytes).m) && Fold(cfg, m, bytes).m.ctx.block == None
    decreases |frames|
  {
    var frame, more := frames[0], frames[1..];
    var o, bytes' := Fold(cfg, m, frame.Bytes()), BytesOf(more);
    ContinuationsTail(frames, streamId, more);
    OneSkipped(cfg, m, frame, streamId, o);
    if more == [] {
      assert bytes == frame.Bytes();
    } else {
      AllSkipped(cfg, o.m, more, streamId, bytes');
      FoldAfter(cfg, m, frame.Bytes(), o.m, bytes', Fold(cfg, o.m, bytes'), bytes);
    }
  }

  /** The CONTINUATION that makes the block too large. */
  lemma OneTooMany(cfg: Config, m: Machine, x: seq<byte>, frame: Frame, streamId: nat, o: Out)
    requires Open(m, x, streamId) && ContinuationOf(frame, streamId)
    requires cfg.maxHeaders > 0 && |x| + |frame.payload| > cfg.maxHeaders && o == Fold(cfg, m, frame.Bytes())
    ensures Refused(o, streamId)
    ensures !frame.H().EndHeaders() ==> Skipping(o.m, streamId)
  {
    var c := m.ctx.(prev := Some(frame.H()), skipping := true, block := None, blockSize := |x| + |frame.payload|);
    PhaseFolds(cfg, m, frame.head);
    SkipFolds(cfg, m, c, frame, [OnError(streamId, BadHeader)]);
  }

  /** What becomes of a block: it is passed on, or it is refused for its size. */
  ghost predicate Outcome(cfg: Config, o: Out, ctx: Context, h: Header, block: seq<byte>) {
    if cfg.maxHeaders > 0 && |block| > cfg.maxHeaders then Refused(o, h.streamId) else Passed(o, ctx, h, block)
  }

  /** The block is passed on once, when its last CONTINUATION is complete, or it is refused. */
  lemma {:induction false} ContinuationsFold(cfg: Config, m: Machine, x: seq<byte>, frames: seq<Frame>, streamId: nat,
                                             bytes: seq<byte>, payloads: seq<byte>)
    requires Open(m, x, streamId) && Continuations(frames, streamId)
    requires bytes == BytesOf(frames) && payloads == PayloadsOf(frames)
    ensures Outcome(cfg, Fold(cfg, m, bytes), m.ctx, frames[|frames| - 1].H(), x + payloads)
    decreases |frames|
  {
    var frame, more := frames[0], frames[1..];
    var y, o, bytes', payloads' := x + frame.payload, Fold(cfg, m, frame.Bytes()), BytesOf(more), PayloadsOf(more);
    ContinuationsTail(frames, streamId, more);
    assert ContinuationOf(frame, streamId);
    if cfg.maxHeaders > 0 && |y| > cfg.maxHeaders {
      OneTooMany(cfg, m, x, frame, streamId, o);
      RefusedInAll(cfg, m, frames, frame, more, streamId, o, bytes, bytes');
    } else {
      OneContinuation(cfg, m, x, frame, y, streamId, o.m);
      if more == [] {
        assert bytes == frame.Bytes() && payloads == frame.payload;
      } else {
        Assoc(x, frame.payload, payloads');
        ContinuationsFold(cfg, o.m, y, more, streamId, bytes', payloads');
        FoldAfter(cfg, m, frame.Bytes(), o.m, bytes', Fold(cfg, o.m, bytes'), bytes);
        SameEvent(o.m.ctx, m.ctx, frames[|frames| - 1].H(), x + payloads);
      }
    }
  }

  /** After the refusal nothing more is said. */
  lemma RefusedInAll(cfg: Config, m: Machine, frames: seq<Frame>, frame: Frame, more: seq<Frame>, streamId: nat, o: Out,
                     bytes: seq<byte>, rest: seq<byte>)
    requires Continuations(frames, streamId) && frame == frames[0] && more == frames[1..]
    requires bytes == BytesOf(frames) && rest == BytesOf(more) && o == Fold(cfg, m, frame.Bytes())
    requires Refused(o, streamId) && (!frame.H().EndHeaders() ==> Skipping(o.m, streamId))
    ensures Refused(Fold(cfg, m, bytes), streamId)
  {
    ContinuationsTail(frames, streamId, more);
    if more == [] {
      assert bytes == frame.Bytes();
    } else {
      AllSkipped(cfg, o.m, more, streamId, rest);
      FoldConcat(cfg, m, frame.Bytes(), rest);
      assert o.events + [] == o.events;
    }
  }

  /**
   A header block in one HEADERS or PUSH_PROMISE frame and any number of CONTINUATIONs is
   passed on once, and is the fragment followed by all their payloads; or it is refused, if
   that is more than the limit.  Whether the stream ends is taken from the last frame, not from
   the first.
   */
  lemma BlockAssembled(cfg: Config, m: Machine, first: Frame, frames: seq<Frame>)
    requires AtStart(m) && Opening(cfg, m.ctx, first) && !first.H().EndHeaders()
    requires Continuations(frames, first.H().streamId)
    ensures var o := Fold(cfg, m, first.Bytes() + BytesOf(frames));
            var block, last := FragmentOf(m.ctx, first) + PayloadsOf(frames), frames[|frames| - 1].H();
            && Outcome(cfg, o, Opened(m.ctx, first), last, block)
            && (cfg.maxHeaders == 0 || |block| <= cfg.maxHeaders ==>
                  && |o.events| == 1 && o.events[0].OnBlock? && o.events[0].block == block
                  && o.events[0].push == (first.H().kind == PUSH_PROMISE) && o.events[0].streamId == first.H().streamId
                  && o.events[0].endStream == last.EndStream())
  {
    OpeningFolds(cfg, m, first);
    var c, x := Opened(m.ctx, first), FragmentOf(m.ctx, first);
    var m1 := AfterFragment(c, first.H(), x).m;
    var bytes, payloads, last := BytesOf(frames), PayloadsOf(frames), frames[|frames| - 1].H();
    assert x + Zeros(0) == x;
    ContinuationsFold(cfg, m1, x, frames, first.H().streamId, bytes, payloads);
    var o := Fold(cfg, m1, bytes);
    FoldAfter(cfg, m, first.Bytes(), m1, bytes, o, first.Bytes() + bytes);
    SameEvent(m1.ctx, c, last, x + payloads);
  }

  /** How many bytes of an earlier block are counted again after a frame without a fragment. */
  ghost function Stale(ctx: Context, h: Header): nat {
    if h.length > h.PeswSize() then ctx.blockSize else 0
  }

  /** The one thing that happens is that `block` is passed on. */
  ghost predicate PassesOn(o: Out, block: seq<byte>) {
    |o.events| == 1 && o.events[0].OnBlock? && o.events[0].block == block
  }

  /**
   A header block that starts with an empty fragment, and whose payloads are within the limit: it
   is passed on as the payloads of its CONTINUATIONs exactly when nothing of an earlier block is
   counted again.  Otherwise as many bytes that were never received come first, or the block is
   refused because they make it too large.
   */
  lemma StaleAssembled(cfg: Config, m: Machine, first: Frame, frames: seq<Frame>)
    requires AtStart(m) && Tidy(m) && Starting(cfg, m.ctx, first) && !Opening(cfg, m.ctx, first) && !first.H().EndHeaders()
    requires Continuations(frames, first.H().streamId)
    ensures var o := Fold(cfg, m, first.Bytes() + BytesOf(frames));
            var stale, payloads := Stale(m.ctx, first.H()), PayloadsOf(frames);
            && AtStart(o.m)
            && (if cfg.maxHeaders > 0 && stale + |payloads| > cfg.maxHeaders then o.events == [OnError(first.H().streamId, BadHeader)]
                else PassesOn(o, Zeros(stale) + payloads))
            && (cfg.maxHeaders == 0 || |payloads| <= cfg.maxHeaders ==> (PassesOn(o, payloads) <==> stale == 0))
  {
    EmptyFragmentIsSilent(cfg, m, first);
    var c, x := AfterEmpty(Opened(m.ctx, first), first.H()), Zeros(Stale(m.ctx, first.H()));
    var m1 := Machine(c, InHeader, []);
    assert Held(c) == x by { assert [] + x == x; }
    var bytes, payloads, last := BytesOf(frames), PayloadsOf(frames), frames[|frames| - 1].H();
    ContinuationsFold(cfg, m1, x, frames, first.H().streamId, bytes, payloads);
    var o := Fold(cfg, m1, bytes);
    FoldAfter(cfg, m, first.Bytes(), m1, bytes, o, first.Bytes() + bytes);
    assert |x + payloads| == |x| + |payloads|;
    assert x == [] ==> x + payloads == payloads;
  }

  /** The header of a frame whose numbers all fit one byte. */
  lemma SmallHeader(head: seq<byte>, length: byte, kind: byte, flags: byte, id: byte)
    requires head == [0, 0, length, kind, flags, 0, 0, 0, id]
    ensures ParseHeader(head) == Header(length as nat, kind as nat, flags as nat, id as nat)
  {
    var l, n := head[..3], head[5..9];
    assert l == [0, 0, length] && n == [0, 0, 0, id];
    assert l[..2] == [0, 0] && l[..2][..1] == [0] && l[..2][..1][..0] == [];
    assert Be(l[..2][..1]) == 0 && Be(l[..2]) == 0;
    assert n[..3] == [0, 0, 0] && n[..3][..2] == [0, 0] && n[..3][..2][..1] == [0];
    assert Be(n[..3][..2][..1]) == 0 && Be(n[..3][..2]) == 0 && Be(n[..3]) == 0;
  }

  lemma OpensWhole(cfg: Config, ctx: Context, whole: Frame)
    requires cfg == Config(true, 0) && whole == Frame([0, 0, 1, 1, 4, 0, 0, 0, 1], [130]) && !ctx.Expecting()
    ensures Opening(cfg, ctx, whole) && whole.H().EndHeaders() && |FragmentOf(ctx, whole)| == 1
  {
    SmallHeader(whole.head, 1, 1, 4, 1);
  }

  /** A block in one frame. */
  lemma WholeBlock(cfg: Config, m: Machine, whole: Frame, o: Out)
    requires AtStart(m) && Opening(cfg, m.ctx, whole) && whole.H().EndHeaders() && o == Fold(cfg, m, whole.Bytes())
    ensures AtStart(o.m) && !o.m.ctx.Expecting() && o.m.ctx.blockSize == |FragmentOf(m.ctx, whole)| && |o.events| == 1
  {
    OpeningFolds(cfg, m, whole);
  }

  lemma PaddingOnly(cfg: Config, ctx: Context, empty: Frame)
    requires cfg == Config(true, 0) && empty == Frame([0, 0, 2, 1, 8, 0, 0, 0, 3], [1, 0]) && !ctx.Expecting()
    ensures Starting(cfg, ctx, empty) && !Opening(cfg, ctx, empty) && !empty.H().EndHeaders() && empty.H().streamId == 3
    ensures Stale(ctx, empty.H()) == ctx.blockSize
  {
    SmallHeader(empty.head, 2, 1, 8, 3);
    assert PadOf(ctx, empty) == 1;
  }

  lemma OneByteMore(rest: Frame, frames: seq<Frame>)
    requires rest == Frame([0, 0, 1, 9, 4, 0, 0, 0, 3], [131]) && frames == [rest]
    ensures Continuations(frames, 3) && BytesOf(frames) == rest.Bytes() && PayloadsOf(frames) == [131]
  {
    SmallHeader(rest.head, 1, 9, 4, 3);
    assert frames[1..] == [];
    assert rest.Bytes() + [] == rest.Bytes() && rest.payload + [] == rest.payload;
  }

  /**
   Three frames of one client: a header block of one byte, the start of another with padding
   and no fragment, and its CONTINUATION with one byte.  The second block is passed on with a
   byte in front that was never received.
   */
  lemma StaleByte(cfg: Config, whole: Frame, empty: Frame, rest: Frame)
    requires cfg == Config(true, 0)
    requires whole == Frame([0, 0, 1, 1, 4, 0, 0, 0, 1], [130])
    requires empty == Frame([0, 0, 2, 1, 8, 0, 0, 0, 3], [1, 0])
    requires rest == Frame([0, 0, 1, 9, 4, 0, 0, 0, 3], [131])
    ensures var o := Fold(cfg, NEW_MACHINE, whole.Bytes() + (empty.Bytes() + rest.Bytes()));
            |o.events| == 2 && o.events[1].OnBlock? && o.events[1].block == [0, 131]
  {
    var o1, frames, more := Fold(cfg, NEW_MACHINE, whole.Bytes()), [rest], empty.Bytes() + rest.Bytes();
    OpensWhole(cfg, NEW_MACHINE.ctx, whole);
    WholeBlock(cfg, NEW_MACHINE, whole, o1);
    AlwaysTidy(cfg, whole.Bytes());
    PaddingOnly(cfg, o1.m.ctx, empty);
    OneByteMore(rest, frames);
    StaleAssembled(cfg, o1.m, empty, frames);
    assert Zeros(1) + [131] == [0, 131];
    FoldConcat(cfg, NEW_MACHINE, whole.Bytes(), more);
  }

  /**
   HEADERS with END_STREAM and a CONTINUATION, of which only the first frame can say that the
   stream ends (section 6.2 of RFC 7540): the block is passed on without it.
   */
  lemma EndStreamLost(cfg: Config, first: Frame, rest: Frame)
    requires cfg == Config(true, 0)
    requires first == Frame([0, 0, 1, 1, 1, 0, 0, 0, 3], [130])
    requires rest == Frame([0, 0, 1, 9, 4, 0, 0, 0, 3], [131])
    ensures first.H().EndStream()
    ensures var o := Fold(cfg, NEW_MACHINE, first.Bytes() + rest.Bytes());
            |o.events| == 1 && o.events[0].OnBlock? && !o.events[0].endStream
  {
    var frames := [rest];
    SmallHeader(first.head, 1, 1, 1, 3);
    OneByteMore(rest, frames);
    SmallHeader(rest.head, 1, 9, 4, 3);
    BlockAssembled(cfg, NEW_MACHINE, first, frames);
  }
}
