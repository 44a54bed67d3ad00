/** Whole runs of an incoming stream: any frames in any order, any reads in between. */
module StreamRuns {
  import opened Wrappers
  import opened StreamBytes
  import opened DataBlocks
  import opened BlockTables
  import opened IncomingStreams

  /** A frame arrives, with the answer of flow control; or a reader comes, who may take all there is. */
  datatype Event =
    | Arrival(frame: DataFrame, withinLimit: bool)
    | Reading(greedy: bool)

  /** Every frame is a piece of `s`. */
  ghost predicate Slices(events: seq<Event>, s: seq<byte>) {
    forall i | 0 <= i < |events| && events[i].Arrival? :: SliceOf(events[i].frame, s)
  }

  /** Every FIN is at the end of `s`. */
  ghost predicate OneFinalSize(events: seq<Event>, s: seq<byte>) {
    forall i | 0 <= i < |events| && events[i].Arrival? && events[i].frame.fin :: events[i].frame.End() == |s|
  }

  /** The peer keeps to the limits that it was given. */
  ghost predicate WithinLimits(events: seq<Event>) {
    forall i | 0 <= i < |events| && events[i].Arrival? :: events[i].withinLimit
  }

  ghost predicate NoEmpty(events: seq<Event>) {
    forall i | 0 <= i < |events| && events[i].Arrival? :: events[i].frame.data != []
  }

  ghost predicate Separate(f: DataFrame, g: DataFrame) {
    f.End() <= g.offset || g.End() <= f.offset
  }

  /** No byte comes twice. */
  ghost predicate Disjoint(events: seq<Event>) {
    && NoEmpty(events)
    && forall i, j | 0 <= i < j < |events| && events[i].Arrival? && events[j].Arrival? ::
         Separate(events[i].frame, events[j].frame)
  }

  /**
   What a stream may ask of its peer: one final size, limits kept, and no empty frame if the
   stream exactly fills its last block.
   */
  ghost predicate Conforming(events: seq<Event>, s: seq<byte>) {
    OneFinalSize(events, s) && WithinLimits(events) && Sound(events, s)
  }

  ghost predicate Sound(events: seq<Event>, s: seq<byte>) {
    |s| % DB_DATA_SIZE != 0 || |s| == 0 || NoEmpty(events)
  }

  ghost predicate Arrived(events: seq<Event>, o: nat) {
    exists i | 0 <= i < |events| && events[i].Arrival? :: Covers(events[i].frame, o)
  }

  ghost predicate FinArrived(events: seq<Event>) {
    exists i | 0 <= i < |events| && events[i].Arrival? :: events[i].frame.fin
  }

  /** All of `s` and its final size. */
  ghost predicate AllArrived(events: seq<Event>, s: seq<byte>) {
    FinArrived(events) && forall o: nat | o < |s| :: Arrived(events, o)
  }

  /** The last thing that happened is that a reader came who takes all there is. */
  ghost predicate ReadToEnd(events: seq<Event>) {
    events != [] && events[|events| - 1] == Reading(true)
  }

  /** How a stream was set up: its first buffer, and whether it may change it on advice. */
  datatype Setup = Setup(useHash: bool, autoswitch: bool)

  /** What a run has come to, as values. */
  datatype State = State(m: Bytes, final: Option<nat>, noted: Option<nat>, overrun: bool, clear: bool, broken: bool, hashed: bool,
                         readOffset: nat, finished: bool, delivered: seq<byte>, accepted: bool)

  ghost function StateOf(stream: IncomingStream, s: seq<byte>, delivered: seq<byte>, accepted: bool): State
    reads stream, stream.nocopy, stream.hash
    requires stream.Valid()
  {
    State(stream.Stored(), stream.Final(), if stream.finRecvd then Some(stream.finOff) else None,
          stream.Overrun(|s|), stream.Clear(|s|), stream.Broken(), stream.hash != null,
          stream.readOffset, stream.finReached, delivered, accepted)
  }

  /** What holds after the events so far. */
  ghost predicate InStep(st: State, setup: Setup, events: seq<Event>, s: seq<byte>) {
    && st.readOffset <= |s|
    && st.delivered == s[..st.readOffset]
    && Agrees(st.m, s)
    && (forall o | 0 <= o < st.readOffset :: Arrived(events, o))
    && (forall o | o in st.m :: Arrived(events, o))
    && (st.accepted ==> forall o: nat | st.readOffset <= o && Arrived(events, o) :: o in st.m)
    && !st.overrun
    && (NoEmpty(events) ==> st.clear)
    && (st.accepted ==> !st.broken)
    && (st.final.Some? || st.finished ==> FinArrived(events))
    && (Disjoint(events) && !setup.useHash && !setup.autoswitch ==> !st.hashed)
    && (OneFinalSize(events, s) ==> FinInStep(st, setup, events, s))
  }

  ghost predicate FinInStep(st: State, setup: Setup, events: seq<Event>, s: seq<byte>) {
    && (st.final.Some? ==> st.final.value == |s|)
    && (st.noted.Some? ==> st.noted.value == |s|)
    && (st.finished ==> st.readOffset == |s| || (3 <= |s| < 2 * DB_DATA_SIZE && (st.hashed || setup.autoswitch)))
    && (st.accepted && !st.finished && FinArrived(events) ==> st.final.Some?)
  }

  // ---------- One more event ----------

  lemma ArrivedMore(events: seq<Event>, e: Event, more: seq<Event>)
    requires more == events + [e]
    ensures forall o: nat :: Arrived(more, o) <==> Arrived(events, o) || (e.Arrival? && Covers(e.frame, o))
    ensures FinArrived(more) <==> FinArrived(events) || (e.Arrival? && e.frame.fin)
  {
    assert more[|events|] == e;
    forall o: nat
      ensures Arrived(more, o) <==> Arrived(events, o) || (e.Arrival? && Covers(e.frame, o))
    {
      if i :| 0 <= i < |events| && events[i].Arrival? && Covers(events[i].frame, o) {
        assert more[i] == events[i];
      }
    }
    if i :| 0 <= i < |events| && events[i].Arrival? && events[i].frame.fin {
      assert more[i] == events[i];
    }
  }

  lemma OneFinalSizeLess(events: seq<Event>, e: Event, more: seq<Event>, s: seq<byte>)
    requires more == events + [e] && OneFinalSize(more, s)
    ensures OneFinalSize(events, s)
    ensures e.Arrival? && e.frame.fin ==> e.frame.End() == |s|
  {
    assert more[|events|] == e;
    forall i | 0 <= i < |events| && events[i].Arrival? && events[i].frame.fin
      ensures events[i].frame.End() == |s|
    {
      assert more[i] == events[i];
    }
  }

  lemma SoundLess(events: seq<Event>, e: Event, more: seq<Event>, s: seq<byte>)
    requires more == events + [e]
    ensures NoEmpty(more) ==> NoEmpty(events) && (e.Arrival? ==> e.frame.data != [])
    ensures Sound(more, s) ==> Sound(events, s)
    ensures WithinLimits(more) ==> WithinLimits(events) && (e.Arrival? ==> e.withinLimit)
  {
    assert more[|events|] == e;
    assert forall i | 0 <= i < |events| :: more[i] == events[i];
  }

  /** A byte that comes now has not come before. */
  lemma DisjointLess(events: seq<Event>, e: Event, more: seq<Event>)
    requires more == events + [e] && Disjoint(more)
    ensures Disjoint(events)
    ensures e.Arrival? ==> forall o: nat | Covers(e.frame, o) :: !Arrived(events, o)
  {
    SoundLess(events, e, more, []);
    assert more[|events|] == e;
    assert forall i | 0 <= i < |events| :: more[i] == events[i];
    if e.Arrival? {
      forall i | 0 <= i < |events| && events[i].Arrival?
        ensures Separate(events[i].frame, e.frame)
      {
        assert Separate(more[i].frame, more[|events|].frame);
      }
    }
  }

  /** Bytes that come from `m` or from a slice of `s` agree with `s`. */
  lemma ArrivalAgrees(m: Bytes, m': Bytes, frame: DataFrame, s: seq<byte>)
    requires Agrees(m, s) && SliceOf(frame, s) && NothingMadeUp(m, m', frame)
    ensures Agrees(m', s)
  {
  }

  /** What a stream does with a frame, accepted or not. */
  ghost predicate ArrivalStep(st: State, st': State, autoswitch: bool, frame: DataFrame, s: seq<byte>, ok: bool) {
    && NothingMadeUp(st.m, st'.m, frame)
    && (ok ==> TakenIn(st.m, st'.m, frame, st.readOffset))
    && (ok && frame.fin ==> st'.final == Some(frame.End()))
    && (ok && st.final.Some? ==> st'.final == st.final)
    && (st'.final == st.final || st'.final == None || (frame.fin && st'.final == Some(frame.End())))
    && (st'.noted == st.noted || (frame.fin && st'.noted == Some(frame.End())))
    && (st'.overrun ==> st.overrun || frame.End() > |s|)
    && (st.clear && frame.data != [] && frame.End() <= |s| ==> st'.clear)
    && (ok ==> !st'.broken)
    && (!autoswitch && st.hashed ==> st'.hashed)
    && (!autoswitch && !st.hashed && st'.hashed ==>
          frame.data == [] || !st.clear || frame.offset < st.readOffset || exists o :: o in st.m && Covers(frame, o))
    && st'.readOffset == st.readOffset && st'.finished == st.finished && st'.delivered == st.delivered
    && st'.accepted == (st.accepted && ok)
  }

  lemma ArrivalKeeps(st: State, st': State, setup: Setup, events: seq<Event>, e: Event, more: seq<Event>, s: seq<byte>, ok: bool)
    requires InStep(st, setup, events, s) && e.Arrival? && SliceOf(e.frame, s) && more == events + [e]
    requires ArrivalStep(st, st', setup.autoswitch, e.frame, s, ok)
    ensures InStep(st', setup, more, s)
  {
    ArrivedMore(events, e, more);
    ArrivalAgrees(st.m, st'.m, e.frame, s);
    SoundLess(events, e, more, s);
    if Disjoint(more) {
      DisjointLess(events, e, more);
      assert e.frame.data != [] ==> Covers(e.frame, e.frame.offset);
    }
    if OneFinalSize(more, s) {
      OneFinalSizeLess(events, e, more, s);
    }
  }

  /** Bytes read from bytes that agree with `s` are the next bytes of `s`. */
  lemma ReadIsPrefix(m: Bytes, from: nat, bytes: seq<byte>, end: nat, s: seq<byte>)
    requires Agrees(m, s) && StoredRun(m, from, bytes) && end == from + |bytes| && from <= |s|
    ensures end <= |s| && s[..from] + bytes == s[..end]
    ensures forall o | from <= o < end :: o in m
  {
    forall o | from <= o < end
      ensures o in m && o < |s| && bytes[o - from] == s[o]
    {
      assert StoredByte(m, from, bytes, o);
    }
    if bytes != [] {
      assert end - 1 in m;
    }
  }

  /** What a reader does to a stream whose end has not been reported. */
  ghost predicate ReadStep(st: State, st': State, autoswitch: bool, bytes: seq<byte>, last: Turn) {
    && WasRead(st.m, st'.m, st.readOffset, st'.readOffset, bytes)
    && (!last.Failed? ==> From(st'.m, st'.readOffset) == From(st.m, st'.readOffset))
    && (!last.Failed? && !st'.finished ==> st'.final == st.final)
    && (st'.final == st.final || st'.final == None)
    && !st.finished && st'.finished == (last == EndOfStream)
    && (st'.finished ==> EndsAt(st.m, st.final, st'.readOffset, st.hashed || autoswitch))
    && st'.noted == st.noted && (st'.overrun ==> st.overrun) && (st'.broken ==> last.Failed? || st.broken)
    && (st.clear ==> st'.clear) && (!autoswitch ==> st'.hashed == st.hashed)
    && st'.delivered == st.delivered + bytes
    && st'.accepted == (st.accepted && !last.Failed?)
  }

  lemma ReadKeeps(st: State, st': State, setup: Setup, events: seq<Event>, e: Event, more: seq<Event>, s: seq<byte>,
                  bytes: seq<byte>, last: Turn)
    requires InStep(st, setup, events, s) && e.Reading? && more == events + [e]
    requires ReadStep(st, st', setup.autoswitch, bytes, last)
    ensures InStep(st', setup, more, s)
  {
    ArrivedMore(events, e, more);
    SoundLess(events, e, more, s);
    ReadIsPrefix(st.m, st.readOffset, bytes, st'.readOffset, s);
    if st'.accepted {
      forall o: nat | st'.readOffset <= o && Arrived(more, o)
        ensures o in st'.m
      {
        assert o in st.m;
        assert o in From(st.m, st'.readOffset);
      }
    }
    if Disjoint(more) {
      DisjointLess(events, e, more);
    }
    if OneFinalSize(more, s) {
      OneFinalSizeLess(events, e, more, s);
    }
  }

  lemma NothingKeeps(st: State, setup: Setup, events: seq<Event>, e: Event, more: seq<Event>, s: seq<byte>)
    requires InStep(st, setup, events, s) && e.Reading? && more == events + [e]
    ensures InStep(st, setup, more, s)
  {
    ArrivedMore(events, e, more);
    SoundLess(events, e, more, s);
    if Disjoint(more) {
      DisjointLess(events, e, more);
    }
    if OneFinalSize(more, s) {
      OneFinalSizeLess(events, e, more, s);
    }
  }

  // ---------- Runs ----------

  /** No reason to refuse a piece of `s` before its bytes have been written. */
  lemma NothingAgainst(stream: IncomingStream, frame: DataFrame, s: seq<byte>)
    requires stream.Valid() && !stream.Broken() && stream.readOffset <= |s| && !stream.Overrun(|s|)
    requires stream.Final().Some? ==> stream.Final().value == |s|
    requires stream.finRecvd ==> stream.finOff == |s|
    requires SliceOf(frame, s) && (frame.fin ==> frame.End() == |s|)
    ensures !Against(stream, frame)
  {
  }

  /** No reason to refuse a FIN after its bytes have been written. */
  lemma NothingAfter(stream: IncomingStream, frame: DataFrame, s: seq<byte>)
    requires stream.Valid() && Agrees(stream.Stored(), s) && !stream.Overrun(|s|) && frame.End() == |s|
    requires |s| % DB_DATA_SIZE != 0 || |s| == 0 || stream.Clear(|s|)
    ensures !stream.PastEnd(frame)
  {
    if stream.BlockAfter(|s|) {
      var k :| k in stream.hash.Keys() && |s| <= k;
      GetFound(stream.hash.buckets, stream.hash.nbits, k);
    }
  }

  method Receive(stream: IncomingStream, frame: DataFrame, withinLimit: bool, plenty: bool,
                 ghost delivered: seq<byte>, ghost accepted: bool, ghost s: seq<byte>)
    returns (ok: bool, oom: bool)
    requires stream.Valid()
    modifies stream, stream.nocopy, stream.hash
    ensures stream.Valid() && (plenty ==> !oom)
    ensures stream.nocopy != null ==> stream.nocopy == old(stream.nocopy) || fresh(stream.nocopy)
    ensures stream.hash != null ==> stream.hash == old(stream.hash) || fresh(stream.hash)
    ensures ArrivalStep(old(StateOf(stream, s, delivered, accepted)), StateOf(stream, s, delivered, accepted && ok),
                        stream.autoswitch, frame, s, ok)
    ensures !ok && !oom && withinLimit ==>
              old(stream.Broken() || Against(stream, frame)) || (frame.fin && stream.PastEnd(frame))
  {
    ok, oom := stream.FrameIn(frame, withinLimit, plenty);
  }

  /** A reason to refuse `frame` before its bytes have been written. */
  ghost predicate Against(stream: IncomingStream, frame: DataFrame)
    reads stream, stream.nocopy, stream.hash
    requires stream.Valid()
  {
    || stream.NewFinalSize(frame)
    || FinalSizeError(stream.Final(), frame, stream.readOffset)
    || stream.Overran()
    || (frame.fin && stream.Overrun(frame.End()))
  }

  method Arrive(stream: IncomingStream, e: Event, delivered: seq<byte>, accepted: bool, plenty: bool,
                ghost setup: Setup, ghost events: seq<Event>, ghost more: seq<Event>, ghost s: seq<byte>)
    returns (accepted': bool)
    requires stream.Valid() && InStep(StateOf(stream, s, delivered, accepted), setup, events, s)
    requires e.Arrival? && SliceOf(e.frame, s) && more == events + [e] && setup.autoswitch == stream.autoswitch
    modifies stream, stream.nocopy, stream.hash
    ensures stream.Valid() && InStep(StateOf(stream, s, delivered, accepted'), setup, more, s)
    ensures stream.nocopy != null ==> stream.nocopy == old(stream.nocopy) || fresh(stream.nocopy)
    ensures stream.hash != null ==> stream.hash == old(stream.hash) || fresh(stream.hash)
    ensures plenty && Conforming(more, s) && accepted ==> accepted'
  {
    ghost var st := StateOf(stream, s, delivered, accepted);
    ghost var sound := Conforming(more, s) && accepted;
    if sound {
      OneFinalSizeLess(events, e, more, s);
      SoundLess(events, e, more, s);
      NothingAgainst(stream, e.frame, s);
    }
    var ok, oom := Receive(stream, e.frame, e.withinLimit, plenty, delivered, accepted, s);
    accepted' := accepted && ok;
    ghost var st' := StateOf(stream, s, delivered, accepted');
    ArrivalKeeps(st, st', setup, events, e, more, s, ok);
    if sound && e.frame.fin {
      NothingAfter(stream, e.frame, s);
    }
  }

  method Take(stream: IncomingStream, e: Event, delivered: seq<byte>, accepted: bool, plenty: bool,
              ghost setup: Setup, ghost events: seq<Event>, ghost more: seq<Event>, ghost s: seq<byte>)
    returns (delivered': seq<byte>, accepted': bool)
    requires stream.Valid() && InStep(StateOf(stream, s, delivered, accepted), setup, events, s)
    requires e.Reading? && more == events + [e] && setup.autoswitch == stream.autoswitch
    modifies stream, stream.nocopy, stream.hash
    ensures stream.Valid() && InStep(StateOf(stream, s, delivered', accepted'), setup, more, s)
    ensures stream.nocopy != null ==> stream.nocopy == old(stream.nocopy) || fresh(stream.nocopy)
    ensures stream.hash != null ==> stream.hash == old(stream.hash) || fresh(stream.hash)
    ensures plenty && Conforming(more, s) && accepted ==> accepted'
    ensures accepted' && e.greedy && !stream.finReached ==> AtRest(stream)
  {
    ghost var st := StateOf(stream, s, delivered, accepted);
    if stream.finReached {
      NothingKeeps(st, setup, events, e, more, s);
      return delivered, accepted;
    }
    if Conforming(more, s) {
      OneFinalSizeLess(events, e, more, s);
    }
    var last, bytes := Consume(stream, e.greedy, plenty, delivered, accepted, s);
    delivered', accepted' := delivered + bytes, accepted && !last.Failed?;
    ghost var st' := StateOf(stream, s, delivered', accepted');
    ReadKeeps(st, st', setup, events, e, more, s, bytes, last);
  }

  method Consume(stream: IncomingStream, greedy: bool, plenty: bool, ghost delivered: seq<byte>, ghost accepted: bool, ghost s: seq<byte>)
    returns (last: Turn, bytes: seq<byte>)
    requires stream.Valid() && !stream.finReached
    modifies stream, stream.nocopy, stream.hash
    ensures stream.Valid()
    ensures stream.nocopy != null ==> stream.nocopy == old(stream.nocopy) || fresh(stream.nocopy)
    ensures stream.hash != null ==> stream.hash == old(stream.hash) || fresh(stream.hash)
    ensures ReadStep(old(StateOf(stream, s, delivered, accepted)),
                     StateOf(stream, s, delivered + bytes, accepted && !last.Failed?), stream.autoswitch, bytes, last)
    ensures plenty && last.Failed? ==> old(stream.Overran())
    ensures greedy && !last.Failed? && !stream.finReached ==> AtRest(stream)
  {
    last, bytes := stream.Read(greedy, plenty);
  }

  /** There is nothing to read, neither a byte nor the end. */
  ghost predicate AtRest(stream: IncomingStream)
    reads stream, stream.nocopy, stream.hash
    requires stream.Valid()
  {
    stream.readOffset !in stream.Stored() && stream.Final() != Some(stream.readOffset)
  }

  method Step(stream: IncomingStream, e: Event, delivered: seq<byte>, accepted: bool, plenty: bool,
              ghost setup: Setup, ghost events: seq<Event>, ghost more: seq<Event>, ghost s: seq<byte>)
    returns (delivered': seq<byte>, accepted': bool)
    requires stream.Valid() && InStep(StateOf(stream, s, delivered, accepted), setup, events, s)
    requires (e.Arrival? ==> SliceOf(e.frame, s)) && more == events + [e] && setup.autoswitch == stream.autoswitch
    requires plenty && Conforming(events, s) ==> accepted
    modifies stream, stream.nocopy, stream.hash
    ensures stream.Valid() && InStep(StateOf(stream, s, delivered', accepted'), setup, more, s)
    ensures stream.nocopy != null ==> stream.nocopy == old(stream.nocopy) || fresh(stream.nocopy)
    ensures stream.hash != null ==> stream.hash == old(stream.hash) || fresh(stream.hash)
    ensures plenty && Conforming(more, s) ==> accepted'
    ensures accepted' && e == Reading(true) && !stream.finReached ==> AtRest(stream)
  {
    if Conforming(more, s) {
      ConformingLess(events, e, more, s);
    }
    if e.Arrival? {
      accepted' := Arrive(stream, e, delivered, accepted, plenty, setup, events, more, s);
      delivered' := delivered;
    } else {
      delivered', accepted' := Take(stream, e, delivered, accepted, plenty, setup, events, more, s);
    }
  }

  /** At a gap in what arrived, or at the end, a reader that was given all there is stands still. */
  lemma Drained(st: State, setup: Setup, events: seq<Event>, s: seq<byte>)
    requires InStep(st, setup, events, s) && st.accepted && OneFinalSize(events, s)
    requires !st.finished ==> st.readOffset !in st.m && st.final != Some(st.readOffset)
    ensures !st.finished ==> !Arrived(events, |st.delivered|)
    ensures AllArrived(events, s) ==> st.finished
  {
  }

  lemma ConformingLess(events: seq<Event>, e: Event, more: seq<Event>, s: seq<byte>)
    requires more == events + [e] && Conforming(more, s)
    ensures Conforming(events, s)
  {
    OneFinalSizeLess(events, e, more, s);
    SoundLess(events, e, more, s);
  }

  /** What the invariant says of the outcome. */
  lemma Achieved(st: State, setup: Setup, events: seq<Event>, s: seq<byte>)
    requires InStep(st, setup, events, s)
    requires st.accepted && ReadToEnd(events) && !st.finished ==> st.readOffset !in st.m && st.final != Some(st.readOffset)
    ensures st.delivered <= s && forall o: nat | o < |st.delivered| :: Arrived(events, o)
    ensures st.finished ==> FinArrived(events)
    ensures OneFinalSize(events, s) && st.finished ==> st.delivered == s || 3 <= |s| < 2 * DB_DATA_SIZE
    ensures OneFinalSize(events, s) && st.finished && Disjoint(events) && !setup.useHash && !setup.autoswitch ==> st.delivered == s
    ensures st.accepted && OneFinalSize(events, s) && ReadToEnd(events) ==>
              (st.finished || !Arrived(events, |st.delivered|)) && (AllArrived(events, s) ==> st.finished)
  {
    if st.accepted && OneFinalSize(events, s) && ReadToEnd(events) {
      Drained(st, setup, events, s);
    }
  }

  /**
   Any stream, any frames that carry pieces of it, in any order and with any repetition and
   overlap, any readers in between, and any switch between the two buffers.  `accepted` says
   whether every frame was accepted and no read failed.
   */
  method Run(useHash: bool, autoswitch: bool, ietf: bool, plenty: bool, events: seq<Event>, ghost s: seq<byte>)
    returns (delivered: seq<byte>, finished: bool, accepted: bool)
    requires Slices(events, s)
    ensures delivered <= s
    ensures forall o: nat | o < |delivered| :: Arrived(events, o)
    ensures finished ==> FinArrived(events)
    ensures OneFinalSize(events, s) && finished ==> delivered == s || 3 <= |s| < 2 * DB_DATA_SIZE
    ensures OneFinalSize(events, s) && finished && Disjoint(events) && !useHash && !autoswitch ==> delivered == s
    ensures plenty && Conforming(events, s) ==> accepted
    ensures accepted && OneFinalSize(events, s) && ReadToEnd(events) && !finished ==> !Arrived(events, |delivered|)
    ensures accepted && OneFinalSize(events, s) && ReadToEnd(events) && AllArrived(events, s) ==> finished
  {
    var stream := new IncomingStream(useHash, autoswitch, ietf);
    ghost var setup := Setup(useHash, autoswitch);
    delivered, accepted := RunAll(stream, plenty, events, setup, s);
    finished := stream.finReached;
    Achieved(StateOf(stream, s, delivered, accepted), setup, events, s);
  }

  lemma NextEvent(events: seq<Event>, i: nat)
    requires i <= |events|
    ensures i < |events| ==> events[..i + 1] == events[..i] + [events[i]]
    ensures events[..|events|] == events
  {
  }

  /** The same with a given stream that is new. */
  method RunAll(stream: IncomingStream, plenty: bool, events: seq<Event>, ghost setup: Setup, ghost s: seq<byte>)
    returns (delivered: seq<byte>, accepted: bool)
    requires Slices(events, s) && setup.autoswitch == stream.autoswitch
    requires stream.Valid() && InStep(StateOf(stream, s, [], true), setup, [], s)
    modifies stream, stream.nocopy, stream.hash
    ensures stream.Valid() && InStep(StateOf(stream, s, delivered, accepted), setup, events, s)
    ensures plenty && Conforming(events, s) ==> accepted
    ensures accepted && ReadToEnd(events) && !stream.finReached ==> AtRest(stream)
  {
    delivered, accepted := [], true;
    var i := 0;
    ghost var past: seq<Event> := [];
    while i < |events|
      invariant i <= |events| && past == events[..i]
      invariant stream.Valid()
      invariant stream.nocopy != null ==> stream.nocopy == old(stream.nocopy) || fresh(stream.nocopy)
      invariant stream.hash != null ==> stream.hash == old(stream.hash) || fresh(stream.hash)
      invariant InStep(StateOf(stream, s, delivered, accepted), setup, past, s)
      invariant plenty && Conforming(past, s) ==> accepted
      invariant accepted && ReadToEnd(past) && !stream.finReached ==> AtRest(stream)
    {
      ghost var before := past;
      past := events[..i + 1];
      delivered, accepted := StepAt(stream, plenty, events, i, delivered, accepted, setup, before, past, s);
      i := i + 1;
    }
    assert past == events by { NextEvent(events, i); }
  }

  /** Takes in the event at `i`. */
  method StepAt(stream: IncomingStream, plenty: bool, events: seq<Event>, i: nat, delivered: seq<byte>, accepted: bool,
                ghost setup: Setup, ghost past: seq<Event>, ghost more: seq<Event>, ghost s: seq<byte>)
    returns (delivered': seq<byte>, accepted': bool)
    requires Slices(events, s) && i < |events| && past == events[..i] && more == events[..i + 1]
    requires stream.Valid() && InStep(StateOf(stream, s, delivered, accepted), setup, past, s)
    requires setup.autoswitch == stream.autoswitch && (plenty && Conforming(past, s) ==> accepted)
    modifies stream, stream.nocopy, stream.hash
    ensures stream.Valid() && InStep(StateOf(stream, s, delivered', accepted'), setup, more, s)
    ensures stream.nocopy != null ==> stream.nocopy == old(stream.nocopy) || fresh(stream.nocopy)
    ensures stream.hash != null ==> stream.hash == old(stream.hash) || fresh(stream.hash)
    ensures plenty && Conforming(more, s) ==> accepted'
    ensures accepted' && ReadToEnd(more) && !stream.finReached ==> AtRest(stream)
  {
    var e := events[i];
    NextEvent(events, i);
    delivered', accepted' := Step(stream, e, delivered, accepted, plenty, setup, past, more, s);
  }
}
