/** What comes out of frames that are printed as sections 4.1, 6.2, 6.3, 6.5 and 6.6 of RFC 7540 say. */
module FrameLaws {
  import opened Wrappers
  import opened StreamBytes
  import opened FrameMachine
  import opened FrameRuns

  // ---------- Numbers ----------

  /** `n` in `k` bytes, the high byte first. */
  ghost function PrintBe(n: nat, k: nat): (r: seq<byte>)
    ensures |r| == k
  {
    if k == 0 then [] else PrintBe(n / 256, k - 1) + [(n % 256) as byte]
  }

  ghost predicate FitsIn(n: nat, k: nat) {
    if k == 0 then n == 0 else FitsIn(n / 256, k - 1)
  }

  /** The reader's numbers are the printed ones. */
  lemma {:induction false} BeReads(n: nat, k: nat)
    requires FitsIn(n, k)
    ensures Be(PrintBe(n, k)) == n
  {
    if k > 0 {
      BeReads(n / 256, k - 1);
      assert PrintBe(n, k)[..k - 1] == PrintBe(n / 256, k - 1);
    }
  }

  lemma Fitting(n: nat)
    ensures n < 0x1_0000 ==> FitsIn(n, 2)
    ensures n < 0x100_0000 ==> FitsIn(n, 3)
    ensures n < 0x1_0000_0000 ==> FitsIn(n, 4)
  {
    assert n / 256 / 256 == n / 0x1_0000;
    assert n / 256 / 256 / 256 == n / 0x100_0000;
    assert n / 256 / 256 / 256 / 256 == n / 0x1_0000_0000;
  }

  /** A number of 31 bits with one bit in front. */
  ghost function PrintStream(bit: bool, id: nat): (r: seq<byte>)
    ensures |r| == 4
  {
    PrintBe((if bit then 0x8000_0000 else 0) + id, 4)
  }

  lemma StreamReads(bit: bool, id: nat)
    requires id < 0x8000_0000
    ensures StreamIdOf(PrintStream(bit, id)) == id && (PrintStream(bit, id)[0] as nat >= 128 <==> bit)
  {
    var n := (if bit then 0x8000_0000 else 0) + id;
    Fitting(n);
    BeReads(n, 4);
    FirstByte(n);
    assert n % 0x8000_0000 == id && (n / 0x100_0000 >= 128 <==> bit);
  }

  lemma FirstByte(n: nat)
    requires n < 0x1_0000_0000
    ensures PrintBe(n, 4)[0] as nat == n / 0x100_0000
  {
    var n1, n2, n3 := n / 256, n / 256 / 256, n / 256 / 256 / 256;
    assert n3 == n / 0x100_0000;
    assert PrintBe(n3, 1) == [(n3 % 256) as byte];
    assert PrintBe(n2, 2)[0] == PrintBe(n3, 1)[0];
    assert PrintBe(n1, 3)[0] == PrintBe(n2, 2)[0];
  }

  // ---------- Headers ----------

  ghost function PrintHeader(h: Header, reserved: bool): (r: seq<byte>)
    requires h.kind < 256 && h.flags < 256
    ensures |r| == 9
  {
    PrintBe(h.length, 3) + [h.kind as byte, h.flags as byte] + PrintStream(reserved, h.streamId)
  }

  ghost predicate Printable(h: Header) {
    h.length < 0x100_0000 && h.kind < 256 && h.flags < 256 && h.streamId < 0x8000_0000
  }

  lemma HeaderReads(h: Header, reserved: bool)
    requires Printable(h)
    ensures ParseHeader(PrintHeader(h, reserved)) == h
  {
    var head, length, id := PrintHeader(h, reserved), PrintBe(h.length, 3), PrintStream(reserved, h.streamId);
    assert head[..3] == length && head[5..9] == id;
    Fitting(h.length);
    BeReads(h.length, 3);
    StreamReads(reserved, h.streamId);
  }

  /** A header leads where the machine goes from its fields. */
  lemma HeadFolds(cfg: Config, m: Machine, h: Header, reserved: bool, o: Out)
    requires AtStart(m) && Printable(h) && o == Prepare(cfg, m.ctx, h)
    ensures Fold(cfg, m, PrintHeader(h, reserved)) == o
  {
    HeaderReads(h, reserved);
    PhaseFolds(cfg, m, PrintHeader(h, reserved));
  }

  /** The flags that the reader knows, and the others. */
  datatype Flags = Flags(endStream: bool, endHeaders: bool, padded: bool, priority: bool, second: bool, fifth: bool, high: nat) {
    ghost function Value(): nat {
      Bit(endStream) + 2 * Bit(second) + 4 * Bit(endHeaders) + 8 * Bit(padded) + 16 * Bit(fifth) + 32 * Bit(priority) + 64 * high
    }
  }

  ghost function Bit(on: bool): (r: nat)
    ensures r <= 1
  {
    if on then 1 else 0
  }

  lemma LowBit(on: bool, rest: nat, n: nat)
    requires n == Bit(on) + 2 * rest
    ensures n / 2 == rest && (n % 2 == 1 <==> on)
  {
  }

  lemma Halvings(n: nat, n1: nat, n2: nat, n3: nat, n4: nat, n5: nat)
    requires n1 == n / 2 && n2 == n1 / 2 && n3 == n2 / 2 && n4 == n3 / 2 && n5 == n4 / 2
    ensures n / 4 == n2 && n / 8 == n3 && n / 32 == n5
  {
  }

  lemma FlagsRead(f: Flags, h: Header)
    requires f.high < 4 && h.flags == f.Value()
    ensures h.flags < 256
    ensures h.EndStream() == f.endStream && h.EndHeaders() == f.endHeaders
    ensures h.Padded() == f.padded && h.HasPriority() == f.priority
  {
    var n6 := f.high;
    var n5 := Bit(f.priority) + 2 * n6;
    var n4 := Bit(f.fifth) + 2 * n5;
    var n3 := Bit(f.padded) + 2 * n4;
    var n2 := Bit(f.endHeaders) + 2 * n3;
    var n1 := Bit(f.second) + 2 * n2;
    LowBit(f.endStream, n1, h.flags);
    LowBit(f.second, n2, n1);
    LowBit(f.endHeaders, n3, n2);
    LowBit(f.padded, n4, n3);
    LowBit(f.fifth, n5, n4);
    LowBit(f.priority, n6, n5);
    Halvings(h.flags, n1, n2, n3, n4, n5);
  }

  // ---------- SETTINGS ----------

  datatype Setting = Setting(id: nat, value: nat)

  ghost predicate Settable(s: Setting) {
    s.id < 0x1_0000 && s.value < 0x1_0000_0000
  }

  ghost function PrintSettings(list: seq<Setting>): (r: seq<byte>)
    ensures |r| == 6 * |list|
  {
    if list == [] then [] else PrintBe(list[0].id, 2) + PrintBe(list[0].value, 4) + PrintSettings(list[1..])
  }

  ghost function CallsFor(list: seq<Setting>): seq<Event> {
    if list == [] then [] else [OnSetting(list[0].id, list[0].value)] + CallsFor(list[1..])
  }

  lemma SettingReads(s: Setting, b: seq<byte>)
    requires Settable(s) && b == PrintBe(s.id, 2) + PrintBe(s.value, 4)
    ensures SettingOf(b) == OnSetting(s.id, s.value)
  {
    assert b[..2] == PrintBe(s.id, 2) && b[2..6] == PrintBe(s.value, 4);
    Fitting(s.id);
    Fitting(s.value);
    BeReads(s.id, 2);
    BeReads(s.value, 4);
  }

  lemma OneSetting(cfg: Config, ctx: Context, h: Header, s: Setting, left: nat, b: seq<byte>)
    requires Settable(s) && b == PrintBe(s.id, 2) + PrintBe(s.value, 4) && left >= 6
    ensures Fold(cfg, Machine(ctx, InSettings(h, left), []), b) ==
            Out(Machine(ctx, if left > 6 then InSettings(h, left - 6) else InHeader, []), [OnSetting(s.id, s.value)])
  {
    PhaseFolds(cfg, Machine(ctx, InSettings(h, left), []), b);
    SettingReads(s, b);
  }

  lemma {:induction false} SettingsFold(cfg: Config, ctx: Context, h: Header, list: seq<Setting>, bytes: seq<byte>)
    requires list != [] && (forall i | 0 <= i < |list| :: Settable(list[i])) && bytes == PrintSettings(list)
    ensures Fold(cfg, Machine(ctx, InSettings(h, 6 * |list|), []), bytes) == Out(Machine(ctx, InHeader, []), CallsFor(list))
    decreases |list|
  {
    var m, s, more := Machine(ctx, InSettings(h, 6 * |list|), []), list[0], list[1..];
    var one, rest := PrintBe(s.id, 2) + PrintBe(s.value, 4), PrintSettings(more);
    OneSetting(cfg, ctx, h, s, 6 * |list|, one);
    if more == [] {
      assert bytes == one && CallsFor(list) == [OnSetting(s.id, s.value)];
    } else {
      SettingsFold(cfg, ctx, h, more, rest);
      FoldConcat(cfg, m, one, rest);
      assert bytes == one + rest;
    }
  }

  lemma SettingsPrepared(cfg: Config, ctx: Context, h: Header, n: nat)
    requires !ctx.Expecting() && h.kind == SETTINGS && h.streamId == 0 && n > 0 && h.length == 6 * n
    ensures Prepare(cfg, ctx, h) == Out(Machine(ctx.(prev := Some(h), skipping := false), InSettings(h, h.length), []), [])
  {
    assert h.length % 6 == 0;
  }

  /** A SETTINGS frame brings its settings, each once and in order. */
  lemma SettingsRead(cfg: Config, m: Machine, list: seq<Setting>, flags: nat, reserved: bool, h: Header, bytes: seq<byte>)
    requires AtStart(m) && !m.ctx.Expecting()
    requires list != [] && 6 * |list| < 0x100_0000 && (forall i | 0 <= i < |list| :: Settable(list[i]))
    requires flags < 256 && h == Header(6 * |list|, SETTINGS, flags, 0)
    requires bytes == PrintHeader(h, reserved) + PrintSettings(list)
    ensures Fold(cfg, m, bytes) == Out(Machine(m.ctx.(prev := Some(h), skipping := false), InHeader, []), CallsFor(list))
  {
    var head, payload, c := PrintHeader(h, reserved), PrintSettings(list), m.ctx.(prev := Some(h), skipping := false);
    var m1, o := Machine(c, InSettings(h, 6 * |list|), []), Out(Machine(c, InHeader, []), CallsFor(list));
    SettingsPrepared(cfg, m.ctx, h, |list|);
    HeadFolds(cfg, m, h, reserved, Out(m1, []));
    SettingsFold(cfg, c, h, list, payload);
    FoldAfter(cfg, m, head, m1, payload, o, bytes);
  }

  // ---------- PRIORITY ----------

  /** What a stream depends on, and how strongly. */
  datatype Dependency = Dependency(exclusive: bool, streamId: nat, weight: nat) {
    ghost predicate Valid() { streamId < 0x8000_0000 && 1 <= weight <= 256 }
    ghost function Bytes(): (r: seq<byte>)
      requires Valid()
      ensures |r| == 5
    {
      PrintStream(exclusive, streamId) + [(weight - 1) as byte]
    }
  }

  lemma DependencyReads(d: Dependency, b: seq<byte>)
    requires d.Valid() && b == d.Bytes()
    ensures StreamIdOf(b[..4]) == d.streamId && 1 + b[4] as nat == d.weight
    ensures b[0] as int / 128 == if d.exclusive then 1 else 0
  {
    var id := PrintStream(d.exclusive, d.streamId);
    assert b[..4] == id && b[0] == id[0];
    StreamReads(d.exclusive, d.streamId);
  }

  /** A PRIORITY frame brings its dependency, unless that is the stream itself. */
  lemma PriorityRead(cfg: Config, m: Machine, d: Dependency, flags: nat, id: nat, reserved: bool, h: Header, bytes: seq<byte>)
    requires AtStart(m) && !m.ctx.Expecting() && d.Valid() && flags < 256 && 0 < id < 0x8000_0000
    requires h == Header(5, PRIORITY, flags, id) && bytes == PrintHeader(h, reserved) + d.Bytes()
    ensures Fold(cfg, m, bytes).events ==
            [if d.streamId == id then OnError(id, SelfDepStream) else OnPriority(id, d.exclusive, d.streamId, d.weight)]
  {
    var head, payload, c := PrintHeader(h, reserved), d.Bytes(), m.ctx.(prev := Some(h), skipping := false);
    var m1, o := Machine(c, InPriority(h), []), Out(Machine(c, InHeader, []), [PriorityOf(id, payload)]);
    PriorityPrepared(cfg, m.ctx, h);
    HeadFolds(cfg, m, h, reserved, Out(m1, []));
    DependencyFolds(cfg, c, h, payload);
    DependencyEvent(d, id, payload);
    FoldAfter(cfg, m, head, m1, payload, o, bytes);
  }

  lemma PriorityPrepared(cfg: Config, ctx: Context, h: Header)
    requires !ctx.Expecting() && h.kind == PRIORITY && h.streamId > 0 && h.length == 5
    ensures Prepare(cfg, ctx, h) == Out(Machine(ctx.(prev := Some(h), skipping := false), InPriority(h), []), [])
  {
  }

  lemma DependencyEvent(d: Dependency, id: nat, b: seq<byte>)
    requires d.Valid() && b == d.Bytes()
    ensures PriorityOf(id, b) ==
            if d.streamId == id then OnError(id, SelfDepStream) else OnPriority(id, d.exclusive, d.streamId, d.weight)
  {
    DependencyReads(d, b);
  }

  lemma DependencyFolds(cfg: Config, c: Context, h: Header, b: seq<byte>)
    requires |b| == 5
    ensures Fold(cfg, Machine(c, InPriority(h), []), b) == Out(Machine(c, InHeader, []), [PriorityOf(h.streamId, b)])
  {
    PhaseFolds(cfg, Machine(c, InPriority(h), []), b);
  }

  // ---------- Header blocks in one frame ----------

  ghost function PadByte(padding: Option<byte>): seq<byte> {
    if padding.Some? then [padding.value] else []
  }

  ghost function PadSize(padding: Option<byte>): nat {
    if padding.Some? then padding.value as nat else 0
  }

  /** Section 6.2 of RFC 7540; the padding is any bytes. */
  ghost function HeadersPayload(padding: Option<byte>, dependency: Option<Dependency>, fragment: seq<byte>, pad: seq<byte>): seq<byte>
    requires dependency.Some? ==> dependency.value.Valid()
  {
    PadByte(padding) + (if dependency.Some? then dependency.value.Bytes() else []) + fragment + pad
  }

  /** Section 6.6 of RFC 7540. */
  ghost function PromisePayload(padding: Option<byte>, reserved: bool, promised: nat, fragment: seq<byte>, pad: seq<byte>): seq<byte> {
    PadByte(padding) + PrintStream(reserved, promised) + fragment + pad
  }

  /** What is said with the block of a HEADERS frame. */
  ghost function HeadersPrefix(padding: Option<byte>, dependency: Option<Dependency>): Pesw {
    match dependency
    case None => Pesw(PadSize(padding), -1, 0, 0)
    case Some(d) => Pesw(PadSize(padding), if d.exclusive then 1 else 0, d.streamId, d.weight)
  }

  lemma HeadersPrefixReads(h: Header, was: Pesw, padding: Option<byte>, dependency: Option<Dependency>, b: seq<byte>)
    requires h.kind == HEADERS && h.Padded() == padding.Some? && h.HasPriority() == dependency.Some?
    requires dependency.Some? ==> dependency.value.Valid()
    requires b == PadByte(padding) + if dependency.Some? then dependency.value.Bytes() else []
    requires !h.Padded() ==> was.padLength == 0
    requires !h.HasPriority() ==> was.exclusive == -1 && was.otherStreamId == 0 && was.weight == 0
    ensures |b| == h.PeswSize() && ParsePesw(h, was, b) == HeadersPrefix(padding, dependency)
  {
    var rest := if dependency.Some? then dependency.value.Bytes() else [];
    if padding.Some? {
      assert b[1..] == rest;
    } else {
      assert b == rest;
    }
    if dependency.Some? {
      DependencyReads(dependency.value, rest);
    }
  }

  lemma PromisePrefixReads(h: Header, was: Pesw, padding: Option<byte>, reserved: bool, promised: nat, b: seq<byte>)
    requires h.kind == PUSH_PROMISE && h.Padded() == padding.Some? && promised < 0x8000_0000
    requires b == PadByte(padding) + PrintStream(reserved, promised) && (!h.Padded() ==> was.padLength == 0)
    ensures |b| == h.PeswSize()
    ensures ParsePesw(h, was, b).padLength == PadSize(padding) && ParsePesw(h, was, b).otherStreamId == promised
  {
    var rest := PrintStream(reserved, promised);
    if padding.Some? {
      assert b[1..] == rest;
    } else {
      assert b == rest;
    }
    StreamReads(reserved, promised);
  }

  /** A frame that starts a block and is cut into prefix, fragment and padding. */
  lemma CutsOpen(cfg: Config, m: Machine, frame: Frame, prefix: seq<byte>, fragment: seq<byte>, pad: seq<byte>, p: Pesw)
    requires AtStart(m) && !m.ctx.Expecting() && frame.Valid() && frame.H().OpensBlock() && fragment != []
    requires frame.payload == prefix + fragment + pad && |prefix| == frame.H().PeswSize() && |pad| == p.padLength
    requires p == if prefix == [] then FreshPesw(m.ctx, frame.H()) else ParsePesw(frame.H(), FreshPesw(m.ctx, frame.H()), prefix)
    requires frame.H().kind == PUSH_PROMISE ==> !cfg.server
    requires cfg.maxHeaders > 0 ==> frame.H().length <= cfg.maxHeaders
    ensures Opening(cfg, m.ctx, frame) && FragmentOf(m.ctx, frame) == fragment
    ensures Opened(m.ctx, frame).prefix == p
  {
    assert frame.payload[..|prefix|] == prefix;
    assert frame.payload[|prefix|..|prefix| + |fragment|] == fragment;
  }

  /** A HEADERS frame that is a whole header block brings what was put into it. */
  lemma HeadersRead(cfg: Config, m: Machine, padding: Option<byte>, dependency: Option<Dependency>, fragment: seq<byte>,
                    pad: seq<byte>, flags: Flags, id: nat, reserved: bool, h: Header, frame: Frame)
    requires AtStart(m) && !m.ctx.Expecting() && fragment != [] && (dependency.Some? ==> dependency.value.Valid())
    requires |pad| == PadSize(padding) && flags.high < 4 && flags.endHeaders
    requires flags.padded == padding.Some? && flags.priority == dependency.Some?
    requires h == Header(|frame.payload|, HEADERS, flags.Value(), id) && Printable(h)
    requires frame == Frame(PrintHeader(h, reserved), HeadersPayload(padding, dependency, fragment, pad))
    requires cfg.maxHeaders > 0 ==> h.length <= cfg.maxHeaders
    ensures Fold(cfg, m, frame.Bytes()).events ==
            [OnBlock(false, id, flags.endStream, HeadersPrefix(padding, dependency), fragment)]
  {
    HeaderReads(h, reserved);
    FlagsRead(flags, h);
    var prefix := PadByte(padding) + if dependency.Some? then dependency.value.Bytes() else [];
    HeadersPrefixReads(h, FreshPesw(m.ctx, h), padding, dependency, prefix);
    CutsOpen(cfg, m, frame, prefix, fragment, pad, HeadersPrefix(padding, dependency));
    OpeningFolds(cfg, m, frame);
  }

  /** A PUSH_PROMISE frame that is a whole header block brings what was put into it. */
  lemma PromiseRead(cfg: Config, m: Machine, padding: Option<byte>, promised: nat, bit: bool, fragment: seq<byte>,
                    pad: seq<byte>, flags: Flags, id: nat, reserved: bool, h: Header, frame: Frame)
    requires AtStart(m) && !m.ctx.Expecting() && fragment != [] && promised < 0x8000_0000 && !cfg.server
    requires |pad| == PadSize(padding) && flags.high < 4 && flags.endHeaders && flags.padded == padding.Some?
    requires h == Header(|frame.payload|, PUSH_PROMISE, flags.Value(), id) && Printable(h)
    requires frame == Frame(PrintHeader(h, reserved), PromisePayload(padding, bit, promised, fragment, pad))
    requires cfg.maxHeaders > 0 ==> h.length <= cfg.maxHeaders
    ensures Fold(cfg, m, frame.Bytes()).events ==
            [OnBlock(true, id, flags.endStream, Pesw(PadSize(padding), 0, promised, 0), fragment)]
  {
    HeaderReads(h, reserved);
    FlagsRead(flags, h);
    var prefix, was := PadByte(padding) + PrintStream(bit, promised), FreshPesw(m.ctx, h);
    PromisePrefixReads(h, was, padding, bit, promised, prefix);
    CutsOpen(cfg, m, frame, prefix, fragment, pad, ParsePesw(h, was, prefix));
    OpeningFolds(cfg, m, frame);
  }
}
