/** Reading HTTP/2 frames one byte at a time: what the frame reader is to do. */
module FrameMachine {
  import opened Wrappers
  import opened StreamBytes

  const HEADERS := 1
  const PRIORITY := 2
  const SETTINGS := 4
  const PUSH_PROMISE := 5
  const CONTINUATION := 9

  /** Section 4.1 of RFC 7540. */
  datatype Header = Header(length: nat, kind: nat, flags: nat, streamId: nat) {
    predicate EndStream() { flags % 2 == 1 }
    predicate EndHeaders() { (flags / 4) % 2 == 1 }
    predicate Padded() { (flags / 8) % 2 == 1 }
    predicate HasPriority() { (flags / 32) % 2 == 1 }

    predicate OpensBlock() { kind == HEADERS || kind == PUSH_PROMISE }
    predicate InBlock() { OpensBlock() || kind == CONTINUATION }

    /** Bytes of a frame that opens a block before its fragment. */
    function PeswSize(): nat {
      if kind == PUSH_PROMISE then if Padded() then 5 else 4
      else (if Padded() then 1 else 0) + (if HasPriority() then 5 else 0)
    }
  }

  /** Big-endian number. */
  function Be(b: seq<byte>): nat {
    if b == [] then 0 else 256 * Be(b[..|b| - 1]) + b[|b| - 1] as nat
  }

  /** A stream number without its reserved bit. */
  function StreamIdOf(b: seq<byte>): nat
    requires |b| == 4
  {
    Be(b) % 0x8000_0000
  }

  function ParseHeader(b: seq<byte>): Header
    requires |b| == 9
  {
    Header(Be(b[..3]), b[3] as nat, b[4] as nat, StreamIdOf(b[5..9]))
  }

  datatype ErrorCode =
    | BadHeader | OtherError | InvalidFrameSize | NonzeroStreamId | ZeroStreamId | SelfDepStream
    | UnexpectedPush | ExpectedContin

  /** Calls to the owner of the reader.  `OnBlock` is a header block ready to be decoded. */
  datatype Event =
    | OnError(streamId: nat, code: ErrorCode)
    | OnSetting(id: nat, value: nat)
    | OnPriority(streamId: nat, exclusive: bool, dependsOn: nat, weight: nat)
    | OnBlock(push: bool, streamId: nat, endStream: bool, prefix: Pesw, block: seq<byte>)

  /** What precedes the fragment: padding, and priority or the promised stream. */
  datatype Pesw = Pesw(padLength: nat, exclusive: int, otherStreamId: nat, weight: nat)

  datatype Config = Config(server: bool, maxHeaders: nat)

  /** What is kept from frame to frame.  `skipping` is about the last frame. */
  datatype Context = Context(prev: Option<Header>, skipping: bool, push: bool, prefix: Pesw, block: Option<seq<byte>>, blockSize: nat) {
    /** A header block is open. */
    predicate Expecting() { prev.Some? && prev.value.InBlock() && !prev.value.EndHeaders() }
  }

  datatype Phase =
    | InHeader
    | InPesw(h: Header)
    | InFragment(h: Header)
    | InPadding(h: Header)
    | InContinuation(h: Header)
    | InSettings(h: Header, left: nat)
    | InPriority(h: Header)
    | InSkip(h: Header)
    | Dead

  datatype Machine = Machine(ctx: Context, phase: Phase, got: seq<byte>)

  datatype Out = Out(m: Machine, events: seq<Event>)

  /** A reader that has failed; its owner gives up. */
  const DEAD_MACHINE := Machine(Context(None, false, false, Pesw(0, -1, 0, 0), None, 0), Dead, [])

  /** A new reader. */
  const NEW_MACHINE := Machine(Context(None, true, false, Pesw(0, 0, 0, 0), None, 0), InHeader, [])

  function Stop(events: seq<Event>): Out {
    Out(DEAD_MACHINE, events)
  }

  function Go(ctx: Context, phase: Phase, events: seq<Event>): Out {
    Out(Machine(ctx, phase, []), events)
  }

  /** Bytes to read in this phase. */
  function Want(m: Machine): nat {
    match m.phase
    case InHeader => 9
    case InPesw(h) => h.PeswSize()
    case InFragment(h) => FragmentLength(h, m.ctx.prefix)
    case InPadding(h) => m.ctx.prefix.padLength
    case InContinuation(h) => h.length
    case InSettings(_, _) => 6
    case InPriority(_) => 5
    case InSkip(h) => h.length
    case Dead => 0
  }

  function FragmentLength(h: Header, p: Pesw): nat {
    if h.PeswSize() + p.padLength <= h.length then h.length - h.PeswSize() - p.padLength else 0
  }

  function Zeros(n: nat): (r: seq<byte>)
    ensures |r| == n
  {
    seq(n, _ => 0)
  }

  /** A frame without bytes to skip is an error once the reader looks for them. */
  function Skip(ctx: Context, h: Header, events: seq<Event>): Out {
    var c := ctx.(prev := Some(h), skipping := true);
    if h.length == 0 then Stop(events) else Go(c, InSkip(h), events)
  }

  function TooLarge(ctx: Context, h: Header): Out {
    Skip(ctx, h, [OnError(h.streamId, BadHeader)])
  }

  /** The prefix of a new block before it has been read. */
  function FreshPesw(ctx: Context, h: Header): Pesw {
    var p := if h.Padded() then ctx.prefix else ctx.prefix.(padLength := 0);
    if h.kind == HEADERS && !h.HasPriority() then p.(exclusive := -1, otherStreamId := 0, weight := 0) else p
  }

  /** Behind the prefix: the fragment, only padding, or nothing. */
  function AfterPesw(ctx: Context, h: Header): Out {
    if FragmentLength(h, ctx.prefix) > 0 then Go(ctx.(block := None, blockSize := 0), InFragment(h), [])
    else if h.length > h.PeswSize() then Go(ctx, InPadding(h), [])
    else Go(ctx.(block := None, blockSize := 0), InHeader, [])
  }

  function OpenBlock(cfg: Config, ctx: Context, h: Header): Out {
    if cfg.maxHeaders > 0 && h.length > cfg.maxHeaders then TooLarge(ctx, h)
    else
      var c := ctx.(prev := Some(h), skipping := false, push := h.kind == PUSH_PROMISE, prefix := FreshPesw(ctx, h));
      if h.PeswSize() > h.length then Stop([])
      else if h.PeswSize() > 0 then Go(c, InPesw(h), [])
      else AfterPesw(c, h)
  }

  /** The block so far; memory that was counted but never written is zero. */
  function Held(ctx: Context): seq<byte> {
    var past := if ctx.block.Some? then ctx.block.value else [];
    past + Zeros(if |past| < ctx.blockSize then ctx.blockSize - |past| else 0)
  }

  function Continue(cfg: Config, ctx: Context, h: Header): Out {
    if !ctx.Expecting() || h.streamId != ctx.prev.value.streamId then Stop([])
    else if ctx.skipping then Skip(ctx, h, [])
    else
      var size := ctx.blockSize + h.length;
      if cfg.maxHeaders > 0 && size > cfg.maxHeaders then TooLarge(ctx.(block := None, blockSize := size), h)
      else
        var c := ctx.(prev := Some(h), skipping := false, block := Some(Held(ctx)), blockSize := size);
        if h.length == 0 then Stop([]) else Go(c, InContinuation(h), [])
  }

  /** What follows from a frame header. */
  function Prepare(cfg: Config, ctx: Context, h: Header): Out {
    if h.kind != CONTINUATION && ctx.Expecting() then Stop([OnError(h.streamId, ExpectedContin)])
    else if h.kind == HEADERS then OpenBlock(cfg, ctx, h)
    else if h.kind == PUSH_PROMISE then
      if cfg.server then Stop([OnError(h.streamId, UnexpectedPush)]) else OpenBlock(cfg, ctx, h)
    else if h.kind == CONTINUATION then Continue(cfg, ctx, h)
    else if h.kind == SETTINGS then
      if h.length == 0 || h.length % 6 != 0 then Stop([OnError(h.streamId, InvalidFrameSize)])
      else if h.streamId != 0 then Stop([OnError(h.streamId, NonzeroStreamId)])
      else Go(ctx.(prev := Some(h), skipping := false), InSettings(h, h.length), [])
    else if h.kind == PRIORITY then
      if h.length != 5 then Stop([OnError(h.streamId, InvalidFrameSize)])
      else if h.streamId == 0 then Stop([OnError(h.streamId, ZeroStreamId)])
      else Go(ctx.(prev := Some(h), skipping := false), InPriority(h), [])
    else Skip(ctx, h, [])
  }

  /** Reads the prefix of HEADERS or PUSH_PROMISE (sections 6.2 and 6.6 of RFC 7540). */
  function ParsePesw(h: Header, was: Pesw, b: seq<byte>): Pesw
    requires |b| == h.PeswSize()
  {
    var pad := if h.Padded() && b != [] then b[0] as nat else was.padLength;
    var rest := if h.Padded() && b != [] then b[1..] else b;
    if h.kind == PUSH_PROMISE && |rest| == 4 then was.(padLength := pad, otherStreamId := StreamIdOf(rest))
    else if h.HasPriority() && |rest| == 5 then
      Pesw(pad, rest[0] as int / 128, StreamIdOf(rest[..4]), 1 + rest[4] as nat)
    else was.(padLength := pad)
  }

  function SettingOf(b: seq<byte>): Event
    requires |b| == 6
  {
    OnSetting(Be(b[..2]), Be(b[2..6]))
  }

  function PriorityOf(id: nat, b: seq<byte>): Event
    requires |b| == 5
  {
    var dep := StreamIdOf(b[..4]);
    if dep == id then OnError(id, SelfDepStream) else OnPriority(id, b[0] as nat >= 128, dep, 1 + b[4] as nat)
  }

  function BlockEvent(ctx: Context, h: Header, block: seq<byte>): Event {
    OnBlock(ctx.push, h.streamId, h.EndStream(), if ctx.push then ctx.prefix.(exclusive := 0, weight := 0) else ctx.prefix, block)
  }

  /** A call with a block depends only on the prefix that was read. */
  lemma SameEvent(a: Context, b: Context, h: Header, block: seq<byte>)
    requires a.push == b.push && a.prefix == b.prefix
    ensures BlockEvent(a, h, block) == BlockEvent(b, h, block)
  {
  }

  /** What follows from `b`, all bytes of the phase. */
  function Complete(cfg: Config, m: Machine, b: seq<byte>): Out
    requires |b| == Want(m) && m.phase != Dead
  {
    var ctx := m.ctx;
    match m.phase
    case InHeader => Prepare(cfg, ctx, ParseHeader(b))
    case InPesw(h) =>
      var p := ParsePesw(h, ctx.prefix, b);
      var c := ctx.(prefix := p);
      if h.PeswSize() + p.padLength > h.length then Stop([]) else AfterPesw(c, h)
    case InFragment(h) =>
      var next := if ctx.prefix.padLength > 0 then InPadding(h) else InHeader;
      if h.EndHeaders() then Go(ctx.(block := None, blockSize := |b|), next, [BlockEvent(ctx, h, b)])
      else Go(ctx.(block := Some(b), blockSize := |b|), next, [])
    case InPadding(h) => Go(ctx, InHeader, [])
    case InContinuation(h) =>
      var block := (if ctx.block.Some? then ctx.block.value else []) + b;
      if h.EndHeaders() then Go(ctx.(block := None), InHeader, [BlockEvent(ctx, h, block)])
      else Go(ctx.(block := Some(block)), InHeader, [])
    case InSettings(h, left) =>
      var next := if left > 6 then InSettings(h, left - 6) else InHeader;
      Go(ctx, next, [SettingOf(b)])
    case InPriority(h) => Go(ctx, InHeader, [PriorityOf(h.streamId, b)])
    case InSkip(h) => Go(ctx, InHeader, [])
  }

  /** Padding and frames that are skipped are not kept. */
  function Kept(phase: Phase, bytes: seq<byte>): (r: seq<byte>)
    ensures |r| == |bytes|
  {
    if phase.InPadding? || phase.InSkip? then Zeros(|bytes|) else bytes
  }

  /** One byte. */
  function Feed(cfg: Config, m: Machine, b: byte): Out {
    if m.phase == Dead || |m.got| >= Want(m) then Out(m, [])
    else
      var got := m.got + Kept(m.phase, [b]);
      if |got| < Want(m) then Out(m.(got := got), []) else Complete(cfg, m, got)
  }

  function FoldWith(step: (Machine, byte) -> Out, m: Machine, bytes: seq<byte>): Out {
    if bytes == [] then Out(m, [])
    else
      var before := FoldWith(step, m, bytes[..|bytes| - 1]);
      var last := step(before.m, bytes[|bytes| - 1]);
      Out(last.m, before.events + last.events)
  }

  lemma {:induction false} FoldWithConcat(step: (Machine, byte) -> Out, m: Machine, a: seq<byte>, b: seq<byte>)
    ensures var x := FoldWith(step, m, a); var y := FoldWith(step, x.m, b);
            FoldWith(step, m, a + b) == Out(y.m, x.events + y.events)
  {
    var x := FoldWith(step, m, a);
    if b == [] {
      assert a + b == a;
      assert x.events + [] == x.events;
    } else {
      var init := b[..|b| - 1];
      assert (a + b)[..|a + b| - 1] == a + init;
      FoldWithConcat(step, m, a, init);
      var y := FoldWith(step, x.m, init);
      var z := step(y.m, b[|b| - 1]);
      assert (x.events + y.events) + z.events == x.events + (y.events + z.events);
    }
  }

  function Stepper(cfg: Config): (Machine, byte) -> Out {
    (m, b) => Feed(cfg, m, b)
  }

  /** Byte after byte. */
  function Fold(cfg: Config, m: Machine, bytes: seq<byte>): Out {
    FoldWith(Stepper(cfg), m, bytes)
  }

  /** Cutting the input makes no difference. */
  lemma FoldConcat(cfg: Config, m: Machine, a: seq<byte>, b: seq<byte>)
    ensures var x := Fold(cfg, m, a); var y := Fold(cfg, x.m, b);
            Fold(cfg, m, a + b) == Out(y.m, x.events + y.events)
  {
    FoldWithConcat(Stepper(cfg), m, a, b);
  }

  lemma KeptMore(phase: Phase, got: seq<byte>, init: seq<byte>, last: byte, bytes: seq<byte>)
    requires bytes == init + [last]
    ensures (got + Kept(phase, init)) + Kept(phase, [last]) == got + Kept(phase, bytes)
  {
  }

  /** Bytes that do not complete the phase are kept. */
  lemma {:induction false} FoldPart(cfg: Config, m: Machine, bytes: seq<byte>)
    requires m.phase != Dead && |m.got| + |bytes| < Want(m)
    ensures Fold(cfg, m, bytes) == Out(m.(got := m.got + Kept(m.phase, bytes)), [])
  {
    if bytes == [] {
      assert m.got + Kept(m.phase, bytes) == m.got;
    } else {
      var init := bytes[..|bytes| - 1];
      FoldPart(cfg, m, init);
      KeptMore(m.phase, m.got, init, bytes[|bytes| - 1], bytes);
      var none: seq<Event> := [];
      assert none + none == none;
    }
  }

  /** Bytes that complete it take effect, however they come. */
  lemma FoldAll(cfg: Config, m: Machine, bytes: seq<byte>)
    requires m.phase != Dead && |m.got| + |bytes| == Want(m) && bytes != []
    ensures Fold(cfg, m, bytes) == Complete(cfg, m, m.got + Kept(m.phase, bytes))
  {
    var init, last := bytes[..|bytes| - 1], bytes[|bytes| - 1];
    FoldPart(cfg, m, init);
    KeptMore(m.phase, m.got, init, last, bytes);
    var before, got := m.(got := m.got + Kept(m.phase, init)), m.got + Kept(m.phase, bytes);
    SameComplete(cfg, before, m, got);
    var o := Complete(cfg, m, got);
    assert [] + o.events == o.events;
  }

  lemma SameComplete(cfg: Config, a: Machine, b: Machine, got: seq<byte>)
    requires a.ctx == b.ctx && a.phase == b.phase && a.phase != Dead && |got| == Want(a)
    ensures Complete(cfg, a, got) == Complete(cfg, b, got)
  {
  }

  lemma {:induction false} FoldDead(cfg: Config, m: Machine, bytes: seq<byte>)
    requires m.phase == Dead
    ensures Fold(cfg, m, bytes) == Out(m, [])
  {
    if bytes != [] {
      FoldDead(cfg, m, bytes[..|bytes| - 1]);
      var none: seq<Event> := [];
      assert none + none == none;
    }
  }

  // ---------- Header blocks that are kept ----------

  /** A block is kept only while it is open. */
  ghost predicate Tidy(m: Machine) {
    match m.phase
    case InHeader => m.ctx.block.Some? ==> m.ctx.Expecting() && !m.ctx.skipping
    case InPesw(h) => m.ctx.block.None? && m.ctx.prev == Some(h) && h.OpensBlock() && !m.ctx.skipping
    case InFragment(h) => m.ctx.block.None? && m.ctx.prev == Some(h) && h.OpensBlock() && !m.ctx.skipping
    case InPadding(h) =>
      m.ctx.prev == Some(h) && h.OpensBlock() && !m.ctx.skipping && (m.ctx.block.Some? ==> !h.EndHeaders())
    case InContinuation(h) => m.ctx.prev == Some(h) && h.kind == CONTINUATION && !m.ctx.skipping
    case InSettings(_, _) => m.ctx.block.None?
    case InPriority(_) => m.ctx.block.None?
    case InSkip(_) => m.ctx.block.None?
    case Dead => true
  }

  lemma PreparedTidy(cfg: Config, ctx: Context, h: Header)
    requires ctx.block.Some? ==> ctx.Expecting() && !ctx.skipping
    ensures Tidy(Prepare(cfg, ctx, h).m)
  {
  }

  lemma FedTidy(cfg: Config, m: Machine, b: byte)
    requires Tidy(m)
    ensures Tidy(Feed(cfg, m, b).m)
  {
    var got := m.got + Kept(m.phase, [b]);
    if m.phase == InHeader && |got| == 9 {
      PreparedTidy(cfg, m.ctx, ParseHeader(got));
    }
  }

  /** After any input: a reader that is not in the middle of a block keeps none. */
  lemma {:induction false} AlwaysTidy(cfg: Config, input: seq<byte>)
    ensures Tidy(Fold(cfg, NEW_MACHINE, input).m)
  {
    if input != [] {
      var init, last := input[..|input| - 1], input[|input| - 1];
      AlwaysTidy(cfg, init);
      FedTidy(cfg, Fold(cfg, NEW_MACHINE, init).m, last);
    }
  }
}
