/** The HTTP/2 frame reader, which takes whatever a short read brings. */
module FrameReaders {
  import opened Wrappers
  import opened StreamBytes
  import opened FrameMachine

  datatype ReaderType = RSkip | RHeaders | RPushPromise | RContin | RSettings | RPriority

  /** State of HEADERS and PUSH_PROMISE; `prefix` is parsed when `pesw` is complete. */
  datatype HeadersState = HeadersState(push: bool, prefix: Pesw, peswSize: nat, pesw: seq<byte>, nread: nat)

  /** The fields of the reader. */
  datatype Fields = Fields(
    header: seq<byte>, kind: ReaderType, payloadLength: nat, hs: HeadersState, small: seq<byte>, skipped: nat,
    block: Option<seq<byte>>, blockSize: nat, prev: Option<Header>, failed: bool)
  {
    /** What is kept from frame to frame. */
    function Ctx(): Context {
      Context(prev, kind == RSkip, hs.push, hs.prefix, block, blockSize)
    }
    predicate Opens() { kind == RHeaders || kind == RPushPromise }
    function FragmentSize(): int { payloadLength - hs.peswSize - hs.prefix.padLength }
  }

  /** The byte machine that the fields stand for. */
  ghost function AbsOf(f: Fields): Machine {
    var ctx := f.Ctx();
    if f.failed then DEAD_MACHINE
    else if |f.header| != 9 then Machine(ctx, InHeader, f.header)
    else
      var h := ParseHeader(f.header);
      match f.kind
      case RHeaders => AbsOpening(f, h)
      case RPushPromise => AbsOpening(f, h)
      case RContin =>
        if f.payloadLength == 0 || f.block.None? || f.hs.nread > |f.block.value| then DEAD_MACHINE
        else
          var at := |f.block.value| - f.hs.nread;
          Machine(ctx.(block := Some(f.block.value[..at])), InContinuation(h), f.block.value[at..])
      case RSettings => Machine(ctx, InSettings(h, f.payloadLength), f.small)
      case RPriority => Machine(ctx, InPriority(h), f.small)
      case RSkip => if f.payloadLength == 0 then DEAD_MACHINE else Machine(ctx, InSkip(h), Zeros(f.skipped))
  }

  ghost function AbsOpening(f: Fields, h: Header): Machine {
    var ctx := f.Ctx();
    if |f.hs.pesw| < f.hs.peswSize then Machine(ctx, InPesw(h), f.hs.pesw)
    else if f.hs.nread < f.FragmentSize() then
      Machine(ctx.(block := None, blockSize := 0), InFragment(h), if f.block.Some? then f.block.value else [])
    else if f.payloadLength > f.hs.peswSize then
      Machine(ctx, InPadding(h), Zeros(if f.FragmentSize() <= f.hs.nread then f.hs.nread - f.FragmentSize() else 0))
    else Machine(ctx.(block := None, blockSize := 0), InHeader, [])
  }

  // ---------- What the fields keep to ----------

  ghost predicate Sane(f: Fields) {
    && |f.header| <= 9
    && f.hs.prefix.padLength < 256
    && (f.failed || if |f.header| < 9 then SaneBetween(f) else SaneWithin(f, ParseHeader(f.header)))
  }

  /** Between frames there is a header block only if one is open. */
  ghost predicate SaneBetween(f: Fields) {
    f.block.Some? ==> f.Ctx().Expecting() && f.kind != RSkip && |f.block.value| == f.blockSize
  }

  ghost predicate SaneWithin(f: Fields, h: Header) {
    && f.prev == Some(h)
    && match f.kind
       case RHeaders => h.kind == HEADERS && SaneOpening(f, h)
       case RPushPromise => h.kind == PUSH_PROMISE && SaneOpening(f, h)
       case RContin =>
         && h.kind == CONTINUATION && f.payloadLength == h.length
         && f.block.Some? && f.hs.nread <= |f.block.value| && f.blockSize == |f.block.value| - f.hs.nread + h.length
         && (h.length > 0 ==> f.hs.nread < h.length)
       case RSettings =>
         0 < f.payloadLength && f.payloadLength % 6 == 0 && |f.small| < 6 && f.block.None? && !h.InBlock()
       case RPriority => f.payloadLength == h.length && |f.small| < 5 && f.block.None? && !h.InBlock()
       case RSkip => f.payloadLength == h.length && f.skipped <= h.length && (h.length > 0 ==> f.skipped < h.length) && f.block.None?
  }

  ghost predicate SaneOpening(f: Fields, h: Header) {
    && f.payloadLength == h.length && f.hs.push == (h.kind == PUSH_PROMISE)
    && f.hs.peswSize == h.PeswSize() <= h.length && |f.hs.pesw| <= f.hs.peswSize
    && if |f.hs.pesw| < f.hs.peswSize then f.hs.nread == 0 && f.block.None?
       else SaneFragment(f, h)
  }

  ghost predicate SaneFragment(f: Fields, h: Header) {
    && f.FragmentSize() >= 0
    && (f.hs.nread < h.length - f.hs.peswSize || (h.length == f.hs.peswSize && f.hs.nread == 0))
    && (f.hs.nread < f.FragmentSize() ==>
          if f.hs.nread == 0 then f.block.None?
          else f.block.Some? && |f.block.value| == f.hs.nread && f.blockSize == f.FragmentSize())
    && (f.hs.nread >= f.FragmentSize() && f.block.Some? ==> !h.EndHeaders() && |f.block.value| == f.blockSize)
  }

  // ---------- Reads ----------

  /** What one read is to come to. */
  ghost predicate Refines(cfg: Config, f: Fields, f': Fields, bytes: seq<byte>, events: seq<Event>) {
    Fold(cfg, AbsOf(f), bytes) == Out(AbsOf(f'), events)
  }

  /** A read that brings fewer bytes than wanted. */
  lemma PartRead(cfg: Config, f: Fields, f': Fields, bytes: seq<byte>)
    requires AbsOf(f).phase != Dead && |AbsOf(f).got| + |bytes| < Want(AbsOf(f))
    requires AbsOf(f') == AbsOf(f).(got := AbsOf(f).got + Kept(AbsOf(f).phase, bytes))
    ensures Refines(cfg, f, f', bytes, [])
  {
    FoldPart(cfg, AbsOf(f), bytes);
  }

  /** A read that brings all of them. */
  lemma WholeRead(cfg: Config, f: Fields, f': Fields, bytes: seq<byte>, events: seq<Event>)
    requires AbsOf(f).phase != Dead && bytes != [] && |AbsOf(f).got| + |bytes| == Want(AbsOf(f))
    requires Complete(cfg, AbsOf(f), AbsOf(f).got + Kept(AbsOf(f).phase, bytes)) == Out(AbsOf(f'), events)
    ensures Refines(cfg, f, f', bytes, events)
  {
    FoldAll(cfg, AbsOf(f), bytes);
  }

  lemma PaddingRead(cfg: Config, f: Fields, n: nat, bytes: seq<byte>, f': Fields)
    requires Sane(f) && !f.failed && |f.header| == 9 && f.Opens() && |f.hs.pesw| == f.hs.peswSize
    requires f.FragmentSize() <= f.hs.nread && f.hs.peswSize < f.payloadLength
    requires 0 < |bytes| && n == f.hs.nread + |bytes| <= f.payloadLength - f.hs.peswSize
    requires f' == (if n == f.payloadLength - f.hs.peswSize then f.(hs := f.hs.(nread := n), header := [])
                    else f.(hs := f.hs.(nread := n)))
    ensures Sane(f') && Refines(cfg, f, f', bytes, [])
  {
    if n == f.payloadLength - f.hs.peswSize {
      WholeRead(cfg, f, f', bytes, []);
    } else {
      assert Zeros(f.hs.nread - f.FragmentSize()) + Zeros(|bytes|) == Zeros(n - f.FragmentSize());
      PartRead(cfg, f, f', bytes);
    }
  }

  lemma SettingsRead(cfg: Config, f: Fields, b: seq<byte>, bytes: seq<byte>, f': Fields, events: seq<Event>)
    requires Sane(f) && !f.failed && |f.header| == 9 && f.kind == RSettings
    requires 0 < |bytes| && b == f.small + bytes && |b| <= 6
    requires if |b| < 6 then f' == f.(small := b) && events == []
             else && events == [SettingOf(b)]
                  && f' == (if f.payloadLength == 6 then f.(payloadLength := 0, small := b, header := [])
                            else f.(payloadLength := f.payloadLength - 6, small := []))
    ensures Sane(f') && Refines(cfg, f, f', bytes, events)
  {
    if |b| == 6 {
      WholeRead(cfg, f, f', bytes, events);
    } else {
      PartRead(cfg, f, f', bytes);
    }
  }

  lemma PriorityRead(cfg: Config, f: Fields, b: seq<byte>, bytes: seq<byte>, f': Fields, events: seq<Event>)
    requires Sane(f) && !f.failed && |f.header| == 9 && f.kind == RPriority
    requires 0 < |bytes| && b == f.small + bytes && |b| <= 5
    requires if |b| < 5 then f' == f.(small := b) && events == []
             else events == [PriorityOf(ParseHeader(f.header).streamId, b)] && f' == f.(small := b, header := [])
    ensures Sane(f') && Refines(cfg, f, f', bytes, events)
  {
    if |b| == 5 {
      WholeRead(cfg, f, f', bytes, events);
    } else {
      PartRead(cfg, f, f', bytes);
    }
  }

  /** The fragment of a frame that opens a block. */
  lemma FragmentRead(cfg: Config, f: Fields, b: seq<byte>, bytes: seq<byte>, f': Fields, events: seq<Event>)
    requires Sane(f) && !f.failed && |f.header| == 9 && f.Opens() && |f.hs.pesw| == f.hs.peswSize
    requires f.hs.nread < f.FragmentSize() && 0 < |bytes|
    requires b == (if f.block.Some? then f.block.value else []) + bytes && |b| <= f.FragmentSize()
    requires var h := ParseHeader(f.header);
             var done := |b| == f.FragmentSize() && h.EndHeaders();
             var block := if done then None else Some(b);
             var rest := f.(hs := f.hs.(nread := f.hs.nread + |bytes|), block := block, blockSize := f.FragmentSize());
             && events == (if done then [BlockEvent(f.Ctx(), h, b)] else [])
             && f' == if |b| == f.payloadLength - f.hs.peswSize then rest.(header := []) else rest
    ensures Sane(f') && Refines(cfg, f, f', bytes, events)
  {
    assert |b| == f.hs.nread + |bytes|;
    if |b| == f.FragmentSize() {
      var h := ParseHeader(f.header);
      SameEvent(f.Ctx(), AbsOf(f).ctx, h, b);
      WholeRead(cfg, f, f', bytes, events);
    } else {
      PartRead(cfg, f, f', bytes);
    }
  }

  lemma ContinRead(cfg: Config, f: Fields, b: seq<byte>, bytes: seq<byte>, f': Fields, events: seq<Event>)
    requires Sane(f) && !f.failed && |f.header| == 9 && f.kind == RContin && 0 < |bytes| <= f.payloadLength - f.hs.nread
    requires b == f.block.value + bytes
    requires var h := ParseHeader(f.header);
             var more := f.(hs := f.hs.(nread := f.hs.nread + |bytes|), block := Some(b));
             if f.hs.nread + |bytes| < f.payloadLength then f' == more && events == []
             else if h.EndHeaders() then f' == more.(block := None, header := []) && events == [BlockEvent(f.Ctx(), h, b)]
             else f' == more.(header := []) && events == []
    ensures Sane(f') && Refines(cfg, f, f', bytes, events)
  {
    var past, at := f.block.value, |f.block.value| - f.hs.nread;
    assert b[at..] == past[at..] + bytes && b[..at] == past[..at];
    if f.hs.nread + |bytes| == f.payloadLength {
      assert past[..at] + (past[at..] + bytes) == b;
      SameEvent(f.Ctx(), AbsOf(f).ctx, ParseHeader(f.header), b);
      WholeRead(cfg, f, f', bytes, events);
    } else {
      PartRead(cfg, f, f', bytes);
    }
  }

  /** The bytes before the fragment. */
  lemma PeswRead(cfg: Config, f: Fields, b: seq<byte>, bytes: seq<byte>, f': Fields)
    requires Sane(f) && !f.failed && |f.header| == 9 && f.Opens() && |f.hs.pesw| < f.hs.peswSize
    requires 0 < |bytes| && b == f.hs.pesw + bytes && |b| <= f.hs.peswSize
    requires if |b| < f.hs.peswSize then f' == f.(hs := f.hs.(pesw := b))
             else
               var p := ParsePesw(ParseHeader(f.header), f.hs.prefix, b);
               f' == f.(hs := f.hs.(pesw := b, prefix := p), failed := f.hs.peswSize + p.padLength > f.payloadLength)
    ensures Sane(f') && Refines(cfg, f, f', bytes, [])
  {
    if |b| == f.hs.peswSize {
      WholeRead(cfg, f, f', bytes, []);
    } else {
      PartRead(cfg, f, f', bytes);
    }
  }

  class FrameReader {
    const cfg: Config
    var header: seq<byte>
    var kind: ReaderType
    var payloadLength: nat
    var hs: HeadersState
    /** A setting or the contents of PRIORITY. */
    var small: seq<byte>
    var skipped: nat
    var block: Option<seq<byte>>
    var blockSize: nat
    var prev: Option<Header>
    /** Set once a call has failed; the owner does not call again. */
    var failed: bool
    /** Calls to the owner so far. */
    var events: seq<Event>

    function View(): Fields
      reads this
    {
      Fields(header, kind, payloadLength, hs, small, skipped, block, blockSize, prev, failed)
    }

    ghost predicate Valid()
      reads this
    {
      Sane(View())
    }

    constructor (server: bool, maxHeaders: nat)
      ensures Valid() && !failed && events == [] && cfg == Config(server, maxHeaders)
      ensures AbsOf(View()) == NEW_MACHINE
    {
      cfg := Config(server, maxHeaders);
      header, kind, payloadLength := [], RSkip, 0;
      hs := HeadersState(false, Pesw(0, 0, 0, 0), 0, [], 0);
      small, skipped, block, blockSize, prev, failed, events := [], 0, None, 0, None, false, [];
    }

    /** The stream gives at least one byte of those asked for; asked for none, it gives none. */
    method Pull(wanted: nat, avail: seq<byte>) returns (n: nat)
      requires avail != []
      ensures n <= |avail| && n <= wanted && (n == 0 <==> wanted == 0)
    {
      var most := if wanted < |avail| then wanted else |avail|;
      var k: int := *;
      n := if 0 < k <= most then k else most;
    }

    // ---------- Payload that is not kept ----------

    method SkipPayload(avail: seq<byte>) returns (ok: bool, used: nat)
      requires Valid() && !failed && |header| == 9 && kind == RSkip && avail != []
      modifies `skipped, `header, `failed
      ensures Valid() && used <= |avail| && ok == !failed
      ensures Refines(cfg, old(View()), View(), avail[..used], [])
      ensures ok ==> used > 0
    {
      ghost var f := View();
      var left := payloadLength - skipped;
      used := Pull(if left > 256 then 256 else left, avail);
      ghost var bytes := avail[..used];
      if used == 0 {
        failed := true;
        FoldDead(cfg, AbsOf(f), bytes);
        return false, 0;
      }
      skipped := skipped + used;
      if skipped == payloadLength {
        header := [];
        WholeRead(cfg, f, View(), bytes, []);
      } else {
        assert Zeros(f.skipped) + Zeros(used) == Zeros(skipped);
        PartRead(cfg, f, View(), bytes);
      }
      ok := true;
    }

    method SkipHeadersPadding(avail: seq<byte>) returns (used: nat)
      requires Valid() && !failed && |header| == 9 && View().Opens() && avail != []
      requires |hs.pesw| == hs.peswSize && View().FragmentSize() <= hs.nread && hs.peswSize < payloadLength
      modifies `hs, `header
      ensures Valid() && 0 < used <= |avail|
      ensures Refines(cfg, old(View()), View(), avail[..used], [])
    {
      ghost var f := View();
      var all := payloadLength - hs.peswSize;
      var wanted := all - hs.nread;
      assert wanted <= 256;
      used := Pull(wanted, avail);
      hs := hs.(nread := hs.nread + used);
      ghost var n := hs.nread;
      if hs.nread == all {
        header := [];
      }
      PaddingRead(cfg, f, n, avail[..used], View());
    }

    // ---------- SETTINGS and PRIORITY ----------

    /** `more` are the calls to the owner that this call made. */
    ghost predicate Called(before: seq<Event>, more: seq<Event>)
      reads `events
    {
      events == before + more
    }

    method ReadSettings(avail: seq<byte>) returns (used: nat, ghost more: seq<Event>)
      requires Valid() && !failed && |header| == 9 && kind == RSettings && avail != []
      modifies `small, `payloadLength, `header, `events
      ensures Valid() && 0 < used <= |avail| && Called(old(events), more)
      ensures Refines(cfg, old(View()), View(), avail[..used], more)
    {
      ghost var f := View();
      more := [];
      used := Pull(6 - |small|, avail);
      small := small + avail[..used];
      ghost var b := small;
      if |small| == 6 {
        var setting := SettingOf(small);
        more := [setting];
        events := events + [setting];
        payloadLength := payloadLength - 6;
        if payloadLength == 0 {
          header := [];
        } else {
          small := [];
        }
      }
      SettingsRead(cfg, f, b, avail[..used], View(), more);
    }

    method ReadPriority(avail: seq<byte>) returns (used: nat, ghost more: seq<Event>)
      requires Valid() && !failed && |header| == 9 && kind == RPriority && avail != []
      modifies `small, `header, `events
      ensures Valid() && 0 < used <= |avail| && Called(old(events), more)
      ensures Refines(cfg, old(View()), View(), avail[..used], more)
    {
      ghost var f := View();
      more := [];
      used := Pull(5 - |small|, avail);
      small := small + avail[..used];
      ghost var b := small;
      if |small| == 5 {
        var event := PriorityOf(ParseHeader(header).streamId, small);
        more := [event];
        events := events + [event];
        header := [];
      }
      PriorityRead(cfg, f, b, avail[..used], View(), more);
    }

    // ---------- Header blocks ----------

    method ReadHeadersBlockFragment(avail: seq<byte>) returns (used: nat, ghost more: seq<Event>)
      requires Valid() && !failed && |header| == 9 && View().Opens() && avail != []
      requires |hs.pesw| == hs.peswSize && hs.nread < View().FragmentSize()
      modifies `hs, `block, `blockSize, `header, `events
      ensures Valid() && 0 < used <= |avail| && Called(old(events), more)
      ensures Refines(cfg, old(View()), View(), avail[..used], more)
    {
      ghost var f := View();
      more := [];
      var size, h := payloadLength - hs.peswSize - hs.prefix.padLength, ParseHeader(header);
      used := Pull(size - hs.nread, avail);
      var taken := avail[..used];
      var got, n := (if block.Some? then block.value else []) + taken, hs.nread + used;
      var event, done := BlockEvent(View().Ctx(), h, got), n == size && h.EndHeaders();
      var calls, rest := if done then [event] else [], if done then None else Some(got);
      more := calls;
      Keep(calls, rest, n, size, n == payloadLength - hs.peswSize);
      ghost var f', options := View(), cfg;
      FragmentRead(options, f, got, taken, f', calls);
    }

    /** Calls the owner, and keeps the header block or frees it; `ends` says whether the frame ends. */
    method Keep(calls: seq<Event>, newBlock: Option<seq<byte>>, n: nat, size: nat, ends: bool)
      modifies `events, `block, `hs, `blockSize, `header
      ensures events == old(events) + calls
      ensures var rest := old(View()).(hs := old(hs).(nread := n), block := newBlock, blockSize := size);
              View() == if ends then rest.(header := []) else rest
    {
      events, block, hs, blockSize := events + calls, newBlock, hs.(nread := n), size;
      if ends {
        header := [];
      }
    }

    method ReadContin(avail: seq<byte>) returns (ok: bool, used: nat, ghost more: seq<Event>)
      requires Valid() && !failed && |header| == 9 && kind == RContin && avail != []
      modifies `hs, `block, `blockSize, `header, `events, `failed
      ensures Valid() && used <= |avail| && Called(old(events), more) && ok == !failed
      ensures Refines(cfg, old(View()), View(), avail[..used], more)
      ensures ok ==> used > 0
    {
      ghost var f := View();
      more := [];
      if payloadLength == 0 {
        failed := true;
        FoldDead(cfg, AbsOf(f), avail[..0]);
        return false, 0, [];
      }
      used := Pull(payloadLength - hs.nread, avail);
      var got, n := block.value + avail[..used], hs.nread + used;
      var h := ParseHeader(header);
      var event, done := BlockEvent(View().Ctx(), h, got), n == payloadLength && h.EndHeaders();
      more := if done then [event] else [];
      Keep(if done then [event] else [], if done then None else Some(got), n, blockSize, n == payloadLength);
      ContinRead(cfg, f, got, avail[..used], View(), more);
      ok := true;
    }

    method ReadPesw(avail: seq<byte>) returns (ok: bool, used: nat)
      requires Valid() && !failed && |header| == 9 && View().Opens() && avail != []
      requires |hs.pesw| < hs.peswSize
      modifies `hs, `failed
      ensures Valid() && 0 < used <= |avail| && ok == !failed
      ensures Refines(cfg, old(View()), View(), avail[..used], [])
    {
      ghost var f := View();
      used := Pull(hs.peswSize - |hs.pesw|, avail);
      hs := hs.(pesw := hs.pesw + avail[..used]);
      ghost var b := hs.pesw;
      if |hs.pesw| == hs.peswSize {
        hs := hs.(prefix := ParsePesw(ParseHeader(header), hs.prefix, hs.pesw));
        if hs.peswSize + hs.prefix.padLength > payloadLength {
          failed := true;
        }
      }
      PeswRead(cfg, f, b, avail[..used], View());
      ok := !failed;
    }

    // ---------- Frame headers ----------

    /** A frame header is complete, and what it is to lead to has not been set up. */
    ghost predicate AtHeader(h: Header)
      reads this
    {
      |header| == 9 && h == ParseHeader(header) && !failed && hs.prefix.padLength < 256 && SaneBetween(View())
    }

    method Fail(calls: seq<Event>)
      requires |header| <= 9 && hs.prefix.padLength < 256
      modifies `failed, `events
      ensures Valid() && failed && events == old(events) + calls && Out(AbsOf(View()), calls) == Stop(calls)
    {
      failed, events := true, events + calls;
    }

    method StartSkip(h: Header, calls: seq<Event>)
      requires AtHeader(h) && block.None?
      modifies `kind, `skipped, `payloadLength, `prev, `events
      ensures Valid() && !failed && events == old(events) + calls
      ensures Out(AbsOf(View()), calls) == Skip(old(View().Ctx()), h, calls)
    {
      payloadLength := h.length;
      skipped, kind, prev := 0, RSkip, Some(h);
      events := events + calls;
    }

    method StartBlock(h: Header) returns (ok: bool, ghost more: seq<Event>)
      requires AtHeader(h) && !View().Ctx().Expecting() && h.OpensBlock()
      modifies this
      ensures Valid() && ok == !failed && Called(old(events), more)
      ensures Out(AbsOf(View()), more) == OpenBlock(cfg, old(View().Ctx()), h)
    {
      if cfg.maxHeaders > 0 && h.length > cfg.maxHeaders {
        var calls := [OnError(h.streamId, BadHeader)];
        more := calls;
        StartSkip(h, calls);
        return true, more;
      }
      more := [];
      if h.PeswSize() > h.length {
        Fail([]);
        return false, more;
      }
      SetUpBlock(h, FreshPesw(View().Ctx(), h));
      assert events == old(events) + more;
      ok := true;
    }

    method SetUpBlock(h: Header, prefix: Pesw)
      requires AtHeader(h) && block.None? && h.OpensBlock() && h.PeswSize() <= h.length && prefix == FreshPesw(View().Ctx(), h)
      modifies `hs, `kind, `payloadLength, `prev
      ensures Valid() && !failed
      ensures var c := old(View().Ctx()).(prev := Some(h), skipping := false, push := h.kind == PUSH_PROMISE, prefix := prefix);
              AbsOf(View()) == if h.PeswSize() > 0 then Machine(c, InPesw(h), []) else AfterPesw(c, h).m
    {
      hs := HeadersState(h.kind == PUSH_PROMISE, prefix, h.PeswSize(), [], 0);
      payloadLength, prev := h.length, Some(h);
      kind := if h.kind == HEADERS then RHeaders else RPushPromise;
    }

    method ContinueBlock(h: Header) returns (ok: bool, ghost more: seq<Event>)
      requires AtHeader(h) && h.kind == CONTINUATION
      modifies this
      ensures Valid() && ok == !failed && Called(old(events), more)
      ensures Out(AbsOf(View()), more) == Continue(cfg, old(View().Ctx()), h)
    {
      more := [];
      if !View().Ctx().Expecting() || h.streamId != prev.value.streamId {
        Fail([]);
        return false, more;
      }
      if kind == RSkip {
        StartSkip(h, []);
        return true, more;
      }
      var size := blockSize + h.length;
      if cfg.maxHeaders > 0 && size > cfg.maxHeaders {
        var calls := [OnError(h.streamId, BadHeader)];
        more := calls;
        block, blockSize := None, size;
        StartSkip(h, calls);
        return true, more;
      }
      SetUpContinuation(h, size);
      assert events == old(events) + more;
      ok := true;
    }

    method SetUpContinuation(h: Header, size: nat)
      requires AtHeader(h) && h.kind == CONTINUATION && View().Ctx().Expecting() && kind != RSkip && size == blockSize + h.length
      modifies `hs, `kind, `payloadLength, `prev, `block, `blockSize
      ensures Valid() && !failed
      ensures var ctx := old(View().Ctx());
              var c := ctx.(prev := Some(h), skipping := false, block := Some(Held(ctx)), blockSize := size);
              AbsOf(View()) == if h.length == 0 then DEAD_MACHINE else Machine(c, InContinuation(h), [])
    {
      var full := Held(View().Ctx());
      block, blockSize := Some(full), size;
      hs, kind, payloadLength, prev := hs.(nread := 0), RContin, h.length, Some(h);
      assert full[..|full|] == full && full[|full|..] == [];
    }

    /** Sets up the reader for the payload of the frame whose header is complete. */
    method PrepareForPayload(h: Header) returns (ok: bool, ghost more: seq<Event>)
      requires AtHeader(h)
      modifies this
      ensures Valid() && ok == !failed && Called(old(events), more)
      ensures Out(AbsOf(View()), more) == Prepare(cfg, old(View().Ctx()), h)
    {
      more := [];
      var error: Option<ErrorCode> := None;
      if h.kind != CONTINUATION && View().Ctx().Expecting() {
        error := Some(ExpectedContin);
      } else if h.kind == HEADERS {
        ok, more := StartBlock(h);
      } else if h.kind == PUSH_PROMISE {
        if cfg.server {
          error := Some(UnexpectedPush);
        } else {
          ok, more := StartBlock(h);
        }
      } else if h.kind == CONTINUATION {
        ok, more := ContinueBlock(h);
      } else if h.kind == SETTINGS {
        if h.length == 0 || h.length % 6 != 0 {
          error := Some(InvalidFrameSize);
        } else if h.streamId != 0 {
          error := Some(NonzeroStreamId);
        } else {
          StartSmall(h, RSettings);
          ok := true;
        }
      } else if h.kind == PRIORITY {
        if h.length != 5 {
          error := Some(InvalidFrameSize);
        } else if h.streamId == 0 {
          error := Some(ZeroStreamId);
        } else {
          StartSmall(h, RPriority);
          ok := true;
        }
      } else {
        StartSkip(h, []);
        ok := true;
      }
      if error.Some? {
        var calls := [OnError(h.streamId, error.value)];
        more := calls;
        Fail(calls);
        ok := false;
      }
    }

    method StartSmall(h: Header, newKind: ReaderType)
      requires AtHeader(h) && block.None?
      requires if newKind == RSettings then h.kind == SETTINGS && h.length > 0 && h.length % 6 == 0
               else newKind == RPriority && h.kind == PRIORITY && h.length == 5
      modifies `kind, `small, `payloadLength, `prev
      ensures Valid() && !failed
      ensures AbsOf(View()) == Machine(old(View().Ctx()).(prev := Some(h), skipping := false),
                                       if newKind == RSettings then InSettings(h, h.length) else InPriority(h), [])
    {
      kind, small, payloadLength, prev := newKind, [], h.length, Some(h);
    }

    method ReadHttpFrameHeader(avail: seq<byte>) returns (ok: bool, used: nat, ghost more: seq<Event>)
      requires Valid() && !failed && |header| < 9 && avail != []
      modifies this
      ensures Valid() && 0 < used <= |avail| && ok == !failed && Called(old(events), more)
      ensures Refines(cfg, old(View()), View(), avail[..used], more)
    {
      ghost var f := View();
      more := [];
      used := Pull(9 - |header|, avail);
      header := header + avail[..used];
      if |header| == 9 {
        ok, more := PrepareForPayload(ParseHeader(header));
        WholeRead(cfg, f, View(), avail[..used], more);
      } else {
        PartRead(cfg, f, View(), avail[..used]);
        ok := true;
      }
    }

    // ---------- One call ----------

    /** Nothing is left to read of a frame that opens a block. */
    ghost predicate Empty()
      reads this
    {
      |header| == 9 && View().Opens() && |hs.pesw| == hs.peswSize == payloadLength
    }

    method ReadHeaders(avail: seq<byte>) returns (ok: bool, used: nat, ghost more: seq<Event>)
      requires Valid() && !failed && |header| == 9 && View().Opens() && avail != []
      modifies this
      ensures Valid() && used <= |avail| && ok == !failed && Called(old(events), more)
      ensures Refines(cfg, old(View()), View(), avail[..used], more)
      ensures ok && used == 0 ==> header == []
    {
      more := [];
      ok := true;
      if |hs.pesw| < hs.peswSize {
        ok, used := ReadPesw(avail);
      } else if hs.nread < payloadLength - hs.peswSize - hs.prefix.padLength {
        used, more := ReadHeadersBlockFragment(avail);
      } else if payloadLength - hs.peswSize > 0 {
        used := SkipHeadersPadding(avail);
      } else {
        used := 0;
        FinishEmpty();
        assert avail[..0] == [];
      }
    }

    method FinishEmpty()
      requires Valid() && !failed && Empty()
      modifies `block, `blockSize, `header
      ensures Valid() && header == [] && AbsOf(View()) == AbsOf(old(View()))
    {
      block, blockSize, header := None, 0, [];
    }

    method ReadPayload(avail: seq<byte>) returns (ok: bool, used: nat, ghost more: seq<Event>)
      requires Valid() && !failed && |header| == 9 && avail != []
      modifies this
      ensures Valid() && used <= |avail| && ok == !failed && Called(old(events), more)
      ensures Refines(cfg, old(View()), View(), avail[..used], more)
      ensures ok && used == 0 ==> header == []
    {
      more := [];
      ok := true;
      if kind == RHeaders || kind == RPushPromise {
        ok, used, more := ReadHeaders(avail);
      } else if kind == RContin {
        ok, used, more := ReadContin(avail);
      } else if kind == RSettings {
        used, more := ReadSettings(avail);
      } else if kind == RPriority {
        used, more := ReadPriority(avail);
      } else {
        ok, used := SkipPayload(avail);
      }
    }

    /**
     One call.  However many bytes it takes, it does what the machine does with them
     one at a time.
     */
    method Read(avail: seq<byte>) returns (ok: bool, used: nat, ghost more: seq<Event>)
      requires Valid() && !failed && avail != []
      modifies this
      ensures Valid() && used <= |avail| && ok == !failed && Called(old(events), more)
      ensures Refines(cfg, old(View()), View(), avail[..used], more)
      ensures ok && used == 0 ==> header == [] && |old(header)| == 9
    {
      if |header| < 9 {
        ok, used, more := ReadHttpFrameHeader(avail);
      } else {
        ok, used, more := ReadPayload(avail);
      }
    }
  }

  /** A reader with fields `f` has read `bytes` and called its owner as the machine does. */
  ghost predicate ReadSoFar(cfg: Config, start: Machine, bytes: seq<byte>, f: Fields, events: seq<Event>) {
    Fold(cfg, start, bytes) == Out(AbsOf(f), events)
  }

  lemma ReadOn(cfg: Config, start: Machine, a: seq<byte>, f: Fields, calls: seq<Event>,
               b: seq<byte>, f': Fields, more: seq<Event>, both: seq<byte>, all: seq<Event>)
    requires ReadSoFar(cfg, start, a, f, calls) && Refines(cfg, f, f', b, more) && both == a + b && all == calls + more
    ensures ReadSoFar(cfg, start, both, f', all)
  {
    FoldConcat(cfg, start, a, b);
  }

  /** What comes after an error changes nothing. */
  lemma ReadInVain(cfg: Config, start: Machine, a: seq<byte>, f: Fields, calls: seq<Event>, rest: seq<byte>, input: seq<byte>)
    requires ReadSoFar(cfg, start, a, f, calls) && f.failed && input == a + rest
    ensures ReadSoFar(cfg, start, input, f, calls)
  {
    FoldDead(cfg, AbsOf(f), rest);
    FoldConcat(cfg, start, a, rest);
    assert calls + [] == calls;
  }

  /**
   Feeds input to a new reader, in short reads of any size.  The calls to the owner
   depend only on the input.
   */
  method Drive(server: bool, maxHeaders: nat, input: seq<byte>) returns (events: seq<Event>, ok: bool)
    ensures var out := Fold(Config(server, maxHeaders), NEW_MACHINE, input);
            events == out.events && (!ok ==> out.m.phase == Dead)
  {
    var reader := new FrameReader(server, maxHeaders);
    ghost var cfg, start := reader.cfg, NEW_MACHINE;
    var i := 0;
    ok := true;
    ghost var past: seq<byte> := [];
    while ok && i < |input|
      invariant i <= |input| && past == input[..i]
      invariant fresh(reader) && reader.Valid() && ok == !reader.failed && reader.cfg == cfg
      invariant ReadSoFar(cfg, start, past, reader.View(), reader.events)
      decreases ok, |input| - i, if |reader.header| == 9 then 1 else 0
    {
      var avail := input[i..];
      ghost var f, calls, before := reader.View(), reader.events, past;
      var used;
      ghost var more;
      ok, used, more := reader.Read(avail);
      ghost var bytes := avail[..used];
      past := before + bytes;
      ReadOn(cfg, start, before, f, calls, bytes, reader.View(), more, past, reader.events);
      i := i + used;
    }
    events := reader.events;
    if !ok {
      ghost var rest := input[i..];
      ReadInVain(cfg, start, past, reader.View(), events, rest, input);
    } else {
      assert past == input;
    }
  }
}
