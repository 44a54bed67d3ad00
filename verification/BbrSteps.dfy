/** What one acknowledgement does to the state of the BBR controller. */
module BbrSteps {
  import opened Wrappers
  import opened Arith
  import opened WindowedMax
  import opened BandwidthSampler
  import opened BbrRules

  /** Packet numbers are below 2^62; this one stands for none. */
  const INVALID_PACKNO := 0xFFFF_FFFF_FFFF_FFFF
  const TWO_64 := 0x1_0000_0000_0000_0000

  predicate IsValidPackno(packno: nat) {
    packno < 0x4000_0000_0000_0000
  }

  /** Options, which nothing in the controller sets. */
  datatype Options = Options(
    probeRttDisabledIfAppLimited: bool, probeRttSkippedIfSimilarRtt: bool, drainToTarget: bool, expireAckAggInStartup: bool,
    probeRttBasedOnBdp: bool, slowerStartup: bool, enableAckAggInStartup: bool, rateBasedStartup: bool)

  /**
   What is known of the path: rounds, the bandwidth filter, whether any and whether the last sample was free of limits by the
   application, the minimum RTT, recovery, and the aggregation of acknowledgements.
   */
  datatype Model = Model(
    round: nat, roundEnd: nat, bandwidth: MinMax, free: bool, limited: bool,
    rtt: nat, rttStamp: nat, rttSince: nat, limitedSince: bool,
    recovery: Recovery, endRecovery: nat, ackHeight: MinMax, epochBytes: nat, epochStart: nat)

  /** Mode and gains, the gain cycle, PROBE_RTT, and full bandwidth. */
  datatype Modes = Modes(
    mode: Mode, gain: real, cwndGain: real, offset: nat, cycleStart: nat, exitAt: nat, passed: bool, quiescence: bool,
    full: bool, lastBandwidth: nat, stalled: nat)

  datatype Windows = Windows(rate: nat, cwnd: nat, recoveryWindow: nat)

  /** What one acknowledgement has brought so far. */
  datatype AckState = AckState(
    samples: seq<BwSample>, time: nat, maxPackno: nat, ackedBytes: nat, lostBytes: nat,
    totalAckedBefore: nat, inFlight: nat, hasLosses: bool)

  /** What the end of an acknowledgement is given. */
  datatype Given = Given(
    ack: AckState, lastSent: nat, bytes: nat, inFlight: nat, rttStats: nat, young: bool, lossExit: bool, options: Options)

  const NEW_MODEL := Model(0, 0, Init(10), false, false, 0, 0, 0, false, NotInRecovery, 0, Init(10), 0, 0)
  const NEW_MODES := Modes(Startup, 2.885, 2.885, 0, 0, 0, false, false, false, 0, 0)

  ghost predicate ModesOk(s: Modes, o: Options) {
    GainsOk(s.mode, s.full, s.gain, s.cwndGain, s.offset, o.drainToTarget)
  }

  ghost predicate FlowOk(m: Model, s: Modes, w: Windows, o: Options) {
    WindowsOk(w.cwnd, m.recovery, w.recoveryWindow, s.mode, o.rateBasedStartup)
  }

  ghost predicate BandwidthOk(m: Model, s: Modes) {
    SamplesOk(m.free, m.limited, m.bandwidth.Get(), s.lastBandwidth)
  }

  // ---------- Reading the state ----------

  function MinRtt(m: Model, rttStats: nat): (r: nat)
    ensures r == if m.rtt > 0 then m.rtt else if rttStats > 0 then rttStats else 25000
  {
    if m.rtt > 0 then m.rtt else if rttStats > 0 then rttStats else 25000
  }

  function TargetCwnd(m: Model, rttStats: nat, gain: real): (r: nat)
    ensures r >= MIN_CWND
  {
    var bdp := MinRtt(m, rttStats) * (m.bandwidth.Get() / 8) / 1000000;
    var target := Scaled(bdp, gain);
    var window := if target == 0 then Scaled(INIT_CWND, gain) else target;
    if window > MIN_CWND then window else MIN_CWND
  }

  lemma TargetIs(m: Model, rttStats: nat, gain: real)
    requires gain >= 0.0
    ensures IsTarget(TargetCwnd(m, rttStats, gain), gain, MinRtt(m, rttStats), m.bandwidth.Get())
  {
    var bdp := MinRtt(m, rttStats) * (m.bandwidth.Get() / 8) / 1000000;
    var target := Scaled(bdp, gain);
    var whole := if target == 0 then Scaled(INIT_CWND, gain) else target;
    ScaledIs(bdp, gain);
    ScaledIs(INIT_CWND, gain);
    assert IsBdp(bdp, MinRtt(m, rttStats), m.bandwidth.Get());
    assert IsScaledBdp(whole, gain, bdp);
  }

  function ProbeRttCwnd(m: Model, rttStats: nat, o: Options): (r: nat)
    ensures r == if o.probeRttBasedOnBdp then TargetCwnd(m, rttStats, 0.75) else MIN_CWND
  {
    if o.probeRttBasedOnBdp then TargetCwnd(m, rttStats, MODERATE_PROBE_RTT_MULTIPLIER) else MIN_CWND
  }

  /** Little enough is in flight for PROBE_RTT. */
  predicate LowInFlight(m: Model, rttStats: nat, inFlight: nat, o: Options): (low: bool)
    ensures !o.probeRttBasedOnBdp ==> (low <==> inFlight < 4 * 1460 + 1452)
  {
    inFlight < ProbeRttCwnd(m, rttStats, o) + MAX_OUTGOING_PACKET_SIZE
  }

  /** No more is in flight than the bandwidth asks for. */
  ghost predicate Drained(m: Model, rttStats: nat, inFlight: nat) {
    inFlight <= TargetCwnd(m, rttStats, 1.0)
  }

  // ---------- What an acknowledgement begins ----------

  /** It begins a round: it is for a packet that was sent after the last round began. */
  ghost predicate BeginsRound(m: Model, ack: AckState) {
    ack.ackedBytes > 0 && (ack.maxPackno > m.roundEnd || m.roundEnd >= 0x4000_0000_0000_0000)
  }

  ghost predicate BeginsRecovery(m: Model, ack: AckState) {
    ack.ackedBytes > 0 && ack.hasLosses && m.recovery == NotInRecovery
  }

  /** The samples of an acknowledgement with acknowledged bytes. */
  ghost function NewSamples(ack: AckState): seq<BwSample> {
    if ack.ackedBytes > 0 then ack.samples else []
  }

  /** The least RTT of these samples. */
  ghost function Least(ack: AckState): nat {
    LeastRtt(NewSamples(ack))
  }

  /** There is a sample, and the minimum RTT is too old. */
  ghost predicate Due(m: Model, ack: AckState) {
    Least(ack) != MAX_TIME && m.rtt != 0 && ack.time > m.rttStamp + MIN_RTT_EXPIRY
  }

  /** The minimum RTT is looked at again: there is a smaller one, or none yet, or it is too old. */
  ghost predicate Looked(m: Model, ack: AckState) {
    Due(m, ack) || (Least(ack) != MAX_TIME && (Least(ack) < m.rtt || m.rtt == 0))
  }

  /** The minimum RTT stays although it is too old, given the least RTT since the last PROBE_RTT. */
  ghost predicate ExtendsExpiry(m: Model, since: nat, o: Options) {
    || (m.limitedSince && o.probeRttDisabledIfAppLimited)
    || (m.limitedSince && o.probeRttSkippedIfSimilarRtt && !((since as real) > (m.rtt as real) * SIMILAR_MIN_RTT_THRESHOLD))
  }

  ghost predicate Kept(m: Model, ack: AckState, o: Options) {
    ExtendsExpiry(m, Min(m.rttSince, Least(ack)), o)
  }

  ghost predicate Expires(m: Model, ack: AckState, o: Options) {
    Due(m, ack) && !Kept(m, ack, o)
  }

  /** PROBE_RTT is asked for, or goes on. */
  ghost predicate Probes(m: Model, s: Modes, x: Given) {
    s.mode == ProbeRtt || (Expires(m, x.ack, x.options) && !s.quiescence)
  }

  ghost function LeastRtt(samples: seq<BwSample>): nat {
    if samples == [] then MAX_TIME
    else
      var least, s := LeastRtt(samples[..|samples| - 1]), samples[|samples| - 1];
      if least == MAX_TIME || s.rtt < least then s.rtt else least
  }

  lemma {:induction false} LeastRttIs(samples: seq<BwSample>)
    requires forall i | 0 <= i < |samples| :: samples[i].rtt < MAX_TIME
    ensures forall i | 0 <= i < |samples| :: LeastRtt(samples) <= samples[i].rtt
    ensures samples != [] ==> exists i | 0 <= i < |samples| :: samples[i].rtt == LeastRtt(samples)
    ensures samples == [] <==> LeastRtt(samples) == MAX_TIME
  {
    if samples != [] {
      var init, n := samples[..|samples| - 1], |samples| - 1;
      LeastRttIs(init);
      assert forall i | 0 <= i < n :: init[i] == samples[i];
      if LeastRtt(samples) == samples[n].rtt {
        assert samples[n].rtt == LeastRtt(samples);
      } else {
        var i :| 0 <= i < n && init[i].rtt == LeastRtt(init);
        assert samples[i].rtt == LeastRtt(samples);
      }
    }
  }

  lemma LeastMore(past: seq<BwSample>, s: BwSample, more: seq<BwSample>, least: nat)
    requires more == past + [s] && least == LeastRtt(past)
    ensures LeastRtt(more) == if least == MAX_TIME || s.rtt < least then s.rtt else least
  {
    assert more[..|more| - 1] == past;
  }

  lemma FilterMore(past: seq<BwSample>, round: nat, m0: MinMax, free0: bool, limited0: bool, m: MinMax, free: bool, limited: bool,
                   s: BwSample, more: seq<BwSample>, m': MinMax, free': bool, limited': bool)
    requires (m, free, limited) == FilterAfter(past, round, m0, free0, limited0) && more == past + [s]
    requires m' == (if Counts(m, s) then m.UpdateMax(round, s.bandwidth) else m)
    requires free' == (free || !s.isAppLimited) && limited' == s.isAppLimited
    ensures (m', free', limited') == FilterAfter(more, round, m0, free0, limited0)
  {
    assert more[..|more| - 1] == past;
    assert more[|past|] == s;
    if i :| 0 <= i < |past| && !past[i].isAppLimited {
      assert !more[i].isAppLimited;
    }
  }

  /** Bytes that the bandwidth lets expect since the start of an epoch, in numbers of 64 bits. */
  function Expected(bw: nat, now: nat, start: nat): nat {
    (bw * ((now - start) % TWO_64)) % TWO_64
  }

  lemma ExpectedIs(bw: nat, now: nat, start: nat)
    requires start <= now && bw * (now - start) < TWO_64
    ensures Expected(bw, now, start) == bw * (now - start)
  {
    if bw > 0 {
      TimesMono(1, bw, now - start);
    }
  }

  // ---------- What becomes of the state ----------

  /** Rounds and the end of the round: a round begins, or recovery does, which makes the round end with what was sent last. */
  ghost function NextRound(begins: bool, recovers: bool, lastSent: nat, round: nat, end: nat): (nat, nat) {
    (round + (if begins then 1 else 0), if begins || recovers then lastSent else end)
  }

  /** The filter, to which all samples go in this round, and what is known of samples that the application did not limit. */
  ghost function FilterAfter(samples: seq<BwSample>, round: nat, m: MinMax, free: bool, limited: bool): (MinMax, bool, bool) {
    (Fed(m, round, samples),
     free || exists i | 0 <= i < |samples| :: !samples[i].isAppLimited,
     if samples == [] then limited else samples[|samples| - 1].isAppLimited)
  }

  /**
   Whether the minimum RTT has expired, what it becomes, and the least RTT and a limit by the application since:
   it becomes the least RTT measured, unless it need not be looked at, or is too old and kept.
   */
  ghost function RttAfter(least: nat, looked: bool, due: bool, kept: bool, rtt: nat, since: nat, limited: bool): (bool, nat, nat, bool) {
    (due && !kept,
     if looked && !(due && kept) then least else rtt,
     if looked then MAX_TIME else if least == MAX_TIME then since else Min(since, least),
     limited && !looked)
  }

  /** Recovery, and the packet that ends it: it starts with a loss and ends with a packet sent after the last loss. */
  ghost function RecoveryAfter(acked: bool, losses: bool, begins: bool, packno: nat, lastSent: nat, rec: Recovery, end: nat): (Recovery, nat) {
    (if !acked then rec
     else if rec == NotInRecovery then (if losses then Conservation else NotInRecovery)
     else if !losses && packno > end then NotInRecovery
     else if begins then Growth
     else rec,
     if acked && losses then lastSent else end)
  }

  /**
   Bytes acknowledged beyond what was expected, and the bytes and the start of the epoch: an epoch ends when no more
   has come than was expected.
   */
  ghost function AggregationAfter(acked: bool, bytes: nat, now: nat, expected: nat, sum: nat, start: nat): (nat, nat, nat) {
    if !acked then (0, sum, start)
    else if sum <= expected then (0, bytes, now)
    else (sum + bytes - expected, sum + bytes, start)
  }

  /** The greatest excess of the last rounds, which may be forgotten when the bandwidth has grown. */
  ghost function HeightAfter(height: MinMax, round: nat, excess: nat, forget: bool): MinMax {
    var h := if excess > 0 then height.UpdateMax(round, excess) else height;
    if forget then h.Reset(Sample(round, 0)) else h
  }

  /**
   Full bandwidth, the bandwidth to beat, and rounds without growth: at the start of a round in STARTUP the
   bandwidth has grown by a quarter, or it has not, for the third time or with a loss that counts.
   */
  ghost function FullAfter(begins: bool, limited: bool, bw: nat, lossCounts: bool, full: bool, last: nat, stalled: nat): (bool, nat, nat) {
    if !begins || full || limited then (full, last, stalled)
    else if bw >= last * 5 / 4 then (false, bw, 0)
    else (stalled + 1 >= STARTUP_ROUNDS_WITHOUT_GROWTH || lossCounts, last, stalled + 1)
  }

  /** The bandwidth has grown at the start of a round. */
  ghost predicate Grew(begins: bool, limited: bool, bw: nat, full: bool, last: nat) {
    begins && !full && !limited && bw >= last * 5 / 4
  }

  /** STARTUP is left with full bandwidth, and DRAIN when the queue is drained. */
  ghost function NextMode(mode: Mode, full': bool, drained: bool): Mode {
    if mode == ProbeBw || mode == ProbeRtt then mode
    else if mode == Startup && !full' then Startup
    else if drained then ProbeBw
    else Drain
  }

  /**
   Mode, end of PROBE_RTT and whether a round has passed in it: PROBE_RTT is entered when the minimum RTT has
   expired, its end is set once little is in flight, and it is left when that time has come and a round has passed.
   */
  ghost function ModeAfter(next: Mode, exitAt: nat, passed: bool, full: bool, probe: bool, low: bool, begins: bool, now: nat): (Mode, nat, bool) {
    if next == ProbeRtt && exitAt != 0 then
      (if now >= exitAt && (passed || begins) then (if full then ProbeBw else Startup) else ProbeRtt, exitAt, passed || begins)
    else if next == ProbeRtt || probe then
      (ProbeRtt, if low then now + PROBE_RTT_TIME else 0, passed && !low)
    else (next, exitAt, passed)
  }

  /** A high gain has to fill the pipe first, a low gain ends when the queue is drained. */
  ghost predicate MovesOn(gain: real, losses: bool, filled: bool, drained: bool, passed: bool) {
    if gain > 1.0 && !losses && !filled then false
    else if gain < 1.0 && drained then true
    else passed
  }

  /** Offset, start and gain of a cycle that may move on by one; a low gain may be held. */
  ghost function CycleAfter(moves: bool, hold: bool, now: nat, gain: real, offset: nat, start: nat): (nat, nat, real) {
    if !moves then (offset, start, gain)
    else
      var next := (offset + 1) % GAIN_CYCLE_LENGTH;
      (next, now, if hold && gain < 1.0 && PacingGain(next) == 1.0 then gain else PacingGain(next))
  }

  /** The gain cycle moves on in PROBE_BW, and starts anew when that is entered, anywhere but at the low gain. */
  ghost predicate CycleTaken(mode: Mode, next: Mode, mode': Mode, moved: (nat, nat, real), now: nat,
                             offset: nat, start: nat, gain': real, offset': nat, start': nat)
  {
    if mode == ProbeBw then
      offset' == moved.0 && start' == moved.1 && (mode' == ProbeBw ==> gain' == moved.2)
    else if next == ProbeBw || mode' == ProbeBw then
      offset' != 1 && start' == now && (mode' == ProbeBw ==> gain' == PacingGain(offset'))
    else
      offset' == offset && start' == start
  }

  /** The pacing rate: without full bandwidth it only goes up, but for the first RTT and a slower startup after losses. */
  ghost function RateAfter(bw: nat, gain: real, full: bool, rtt: nat, slow: bool, rate: nat): nat {
    if bw == 0 then rate
    else if full then Scaled(bw, gain)
    else if rate == 0 && rtt != 0 then Rate(INIT_CWND, rtt)
    else if slow then Scaled(bw, STARTUP_AFTER_LOSS_GAIN)
    else Max(rate, Scaled(bw, gain))
  }

  /** The window grows towards the target, within its limits; before full bandwidth it does not shrink. */
  ghost function WindowAfter(mode: Mode, full: bool, target: nat, bytes: nat, young: bool, cwnd: nat): nat {
    if mode == ProbeRtt then cwnd
    else if full then Min(Max(Min(target, cwnd + bytes), MIN_CWND), MAX_CWND)
    else if cwnd < target || young then Min(cwnd + bytes, MAX_CWND)
    else cwnd
  }

  /** The recovery window goes down with losses and up again while it grows, and lets out what is acknowledged. */
  ghost function RecoveryWindowAfter(counts: bool, growth: bool, bytes: nat, lost: nat, inFlight: nat, window: nat): nat {
    if !counts then window
    else if window == 0 then Max(MIN_CWND, inFlight + bytes)
    else
      var less := if window >= lost then window - lost else MAX_SEGMENT_SIZE;
      Max(less + (if growth then bytes else 0), Max(inFlight + bytes, MIN_CWND))
  }

  /** A cycle begins anywhere but at the low gain. */
  ghost predicate CycleBegins(s: Modes, now: nat) {
    s.offset != 1 && s.cycleStart == now && s.gain == PacingGain(s.offset)
  }

  ghost predicate EntersProbeBw(s: Modes, s': Modes, now: nat) {
    && s' == s.(mode := ProbeBw, cwndGain := CWND_GAIN, gain := s'.gain, offset := s'.offset, cycleStart := s'.cycleStart)
    && CycleBegins(s', now) && (s'.gain == 1.25 || s'.gain == 1.0)
  }

  /** Full bandwidth, gain cycle and the modes other than PROBE_RTT. */
  ghost predicate GainsTaken(m: Model, s: Modes, x: Given, begins: bool, m': Model, s': Modes) {
    && m' == Forgotten(m, x.options.expireAckAggInStartup && Grew(begins, m.limited, m.bandwidth.Get(), s.full, s.lastBandwidth))
    && s' == s.(mode := s'.mode, gain := s'.gain, cwndGain := s'.cwndGain, offset := s'.offset, cycleStart := s'.cycleStart,
                full := s'.full, lastBandwidth := s'.lastBandwidth, stalled := s'.stalled)
    && (s'.full, s'.lastBandwidth, s'.stalled) ==
       FullAfter(begins, m.limited, m.bandwidth.Get(), x.lossExit && m.recovery != NotInRecovery, s.full, s.lastBandwidth, s.stalled)
    && s'.mode == NextMode(s.mode, s'.full, Drained(m', x.rttStats, x.inFlight))
    && CycleTaken(s.mode, s'.mode, s'.mode, Moved(m', s, x), x.ack.time, s.offset, s.cycleStart, s'.gain, s'.offset, s'.cycleStart)
  }

  /** STARTUP or DRAIN may be left. */
  ghost predicate ExitTaken(s: Modes, s': Modes, drained: bool, now: nat) {
    && s' == s.(mode := NextMode(s.mode, s.full, drained), gain := s'.gain, cwndGain := s'.cwndGain, offset := s'.offset,
                cycleStart := s'.cycleStart)
    && (s.mode == ProbeBw || s.mode == ProbeRtt ==> s' == s)
    && if s'.mode == ProbeBw && s.mode != ProbeBw then CycleBegins(s', now)
       else s'.offset == s.offset && s'.cycleStart == s.cycleStart
  }

  /** Full bandwidth may be reached when a round begins; growth may make old excesses forgotten. */
  ghost predicate FullChecked(m: Model, s: Modes, begins: bool, lossExit: bool, o: Options, m': Model, s': Modes) {
    && s' == s.(full := s'.full, lastBandwidth := s'.lastBandwidth, stalled := s'.stalled)
    && (s'.full, s'.lastBandwidth, s'.stalled) ==
       FullAfter(begins, m.limited, m.bandwidth.Get(), lossExit && m.recovery != NotInRecovery, s.full, s.lastBandwidth, s.stalled)
    && m' == Forgotten(m, o.expireAckAggInStartup && Grew(begins, m.limited, m.bandwidth.Get(), s.full, s.lastBandwidth))
  }

  lemma GainsTogether(m: Model, s: Modes, x: Given, begins: bool, s1: Modes, m': Model, s2: Modes, s': Modes)
    requires s1 == s.(offset := s1.offset, cycleStart := s1.cycleStart, gain := s1.gain)
    requires if s.mode == ProbeBw then (s1.offset, s1.cycleStart, s1.gain) == Moved(m, s, x) else s1 == s
    requires FullChecked(m, s1, begins, x.lossExit, x.options, m', s2)
    requires ExitTaken(s2, s', Drained(m', x.rttStats, x.inFlight), x.ack.time)
    ensures GainsTaken(m, s, x, begins, m', s')
  {
    SameMoved(m, m', s, x);
  }

  /** Old excesses do not matter for the gain cycle, nor does the age of the minimum RTT. */
  lemma SameMoved(m: Model, m': Model, s: Modes, x: Given)
    requires m' == m.(ackHeight := m'.ackHeight, rttStamp := m'.rttStamp)
    ensures Moved(m', s, x) == Moved(m, s, x) && forall gain :: TargetCwnd(m', x.rttStats, gain) == TargetCwnd(m, x.rttStats, gain)
  {
  }

  ghost function ProbeEntered(s: Modes, expired: bool): Modes {
    if expired && !s.quiescence && s.mode != ProbeRtt then s.(mode := ProbeRtt, gain := 1.0, exitAt := 0) else s
  }

  /** The same with the answer to whether the minimum RTT has expired. */
  ghost predicate ProbeChanged(s: Modes, s': Modes, low: bool, expired: bool, begins: bool, now: nat) {
    !s'.quiescence && ProbeTaken(s.(quiescence := false), s', low, expired && !s.quiescence, begins, now)
  }

  lemma ProbedTogether(s: Modes, expired: bool, s1: Modes, s2: Modes, s': Modes, low: bool, begins: bool, now: nat)
    requires s1 == ProbeEntered(s, expired) && s' == s2.(quiescence := false)
    requires if s1.mode == ProbeRtt then ProbeTaken(s1, s2, low, false, begins, now) else s2 == s1
    ensures ProbeChanged(s, s', low, expired, begins, now)
  {
  }

  lemma ChangedTogether(m: Model, m0: Model, s0: Modes, x: Given, m1: Model, s1: Modes, m': Model, s': Modes,
                        expired: bool, begins: bool, low: bool)
    requires expired == Expires(m, x.ack, x.options) && begins == BeginsRound(m, x.ack)
    requires low == LowInFlight(m', x.rttStats, x.inFlight, x.options)
    requires GainsTaken(m0, s0, x, begins, m1, s1) && ProbeChanged(s1, s', low, expired, begins, x.ack.time)
    requires m' == Stamped(m1, s1.mode == ProbeRtt && s'.mode != ProbeRtt, x.ack.time)
    ensures ModesTaken(m, s0, x, m', s') && ModelLeft(m, m0, s0, x, m', s')
  {
    var now, next, moved := x.ack.time, NextMode(s0.mode, s'.full, Drained(m', x.rttStats, x.inFlight)), Moved(m', s0, x);
    SameMoved(m1, m', s0, x);
    SameDrained(m1, m', x);
    ProbeLeaves(s1, s', low, expired, begins, now);
    GainsLeave(m0, s0, x, begins, m1, s1);
    assert next == s1.mode;
    LeftTogether(m, m0, s0, x, m1, s1, m', s', begins);
    CycledTogether(s0.mode, s1, s', moved, s0.offset, s0.cycleStart, now);
    assert CycleTaken(s0.mode, next, s'.mode, moved, now, s0.offset, s0.cycleStart, s'.gain, s'.offset, s'.cycleStart);
  }

  lemma SameDrained(m: Model, m': Model, x: Given)
    requires m' == m.(rttStamp := m'.rttStamp)
    ensures Drained(m', x.rttStats, x.inFlight) == Drained(m, x.rttStats, x.inFlight)
  {
  }

  /** PROBE_RTT does not touch full bandwidth. */
  lemma ProbeLeaves(s: Modes, s': Modes, low: bool, expired: bool, begins: bool, now: nat)
    requires ProbeChanged(s, s', low, expired, begins, now)
    ensures s'.full == s.full && s'.lastBandwidth == s.lastBandwidth && s'.stalled == s.stalled && !s'.quiescence
    ensures (s'.mode, s'.exitAt, s'.passed) == ModeAfter(s.mode, s.exitAt, s.passed, s.full, expired && !s.quiescence, low, begins, now)
    ensures s'.mode == s.mode ==> s'.gain == s.gain
    ensures s'.mode == ProbeBw ==> s.mode == ProbeBw || s.mode == ProbeRtt
    ensures if s'.mode == ProbeBw && s.mode == ProbeRtt then CycleBegins(s', now)
            else s'.offset == s.offset && s'.cycleStart == s.cycleStart
  {
  }

  /** The other changes do not touch PROBE_RTT. */
  lemma GainsLeave(m: Model, s: Modes, x: Given, begins: bool, m': Model, s': Modes)
    requires GainsTaken(m, s, x, begins, m', s')
    ensures s'.exitAt == s.exitAt && s'.passed == s.passed && s'.quiescence == s.quiescence
    ensures m'.limited == m.limited && m'.bandwidth == m.bandwidth && m'.recovery == m.recovery
    ensures (s'.mode == ProbeRtt <==> s.mode == ProbeRtt) && (s.mode == ProbeBw ==> s'.mode == ProbeBw)
  {
  }

  lemma LeftTogether(m: Model, m0: Model, s0: Modes, x: Given, m1: Model, s1: Modes, m': Model, s': Modes, begins: bool)
    requires begins == BeginsRound(m, x.ack) && GainsTaken(m0, s0, x, begins, m1, s1)
    requires m' == Stamped(m1, s1.mode == ProbeRtt && s'.mode != ProbeRtt, x.ack.time)
    ensures ModelLeft(m, m0, s0, x, m', s')
  {
  }

  lemma CycledTogether(mode0: Mode, s1: Modes, s': Modes, moved: (nat, nat, real), offset: nat, start: nat, now: nat)
    requires CycleTaken(mode0, s1.mode, s1.mode, moved, now, offset, start, s1.gain, s1.offset, s1.cycleStart)
    requires s1.mode == ProbeRtt <==> mode0 == ProbeRtt
    requires (s1.mode == ProbeBw || mode0 != ProbeBw) && (s'.mode == s1.mode ==> s'.gain == s1.gain)
    requires s'.mode == ProbeBw ==> s1.mode == ProbeBw || s1.mode == ProbeRtt
    requires if s'.mode == ProbeBw && s1.mode == ProbeRtt then CycleBegins(s', now)
             else s'.offset == s1.offset && s'.cycleStart == s1.cycleStart
    ensures CycleTaken(mode0, s1.mode, s'.mode, moved, now, offset, start, s'.gain, s'.offset, s'.cycleStart)
  {
  }

  /** PROBE_RTT is entered, goes on or is left. */
  ghost predicate ProbeTaken(s: Modes, s': Modes, low: bool, probe: bool, begins: bool, now: nat) {
    && s' == s.(mode := s'.mode, gain := s'.gain, cwndGain := s'.cwndGain, offset := s'.offset, cycleStart := s'.cycleStart,
                exitAt := s'.exitAt, passed := s'.passed)
    && (s'.mode, s'.exitAt, s'.passed) == ModeAfter(s.mode, s.exitAt, s.passed, s.full, probe, low, begins, now)
    && (s'.mode == s.mode ==> s'.gain == s.gain)
    && if s'.mode == ProbeBw && s.mode == ProbeRtt then CycleBegins(s', now)
       else s'.offset == s.offset && s'.cycleStart == s.cycleStart
  }

  // ---------- All of it ----------

  /** The minimum RTT follows from the model and the acknowledgement. */
  ghost predicate RttReviewed(m: Model, ack: AckState, o: Options, expired: bool, m': Model) {
    && (expired, m'.rtt, m'.rttSince, m'.limitedSince) ==
       RttAfter(Least(ack), Looked(m, ack), Due(m, ack), Kept(m, ack, o), m.rtt, m.rttSince, m.limitedSince)
    && m'.rttStamp == if Looked(m, ack) then ack.time else m.rttStamp
  }

  /** The model after what an acknowledgement has brought; `excess` is what came beyond expectation. */
  ghost predicate ModelGathered(m: Model, x: Given, m': Model, excess: nat) {
    var ack, acked, begins := x.ack, x.ack.ackedBytes > 0, BeginsRound(m, x.ack);
    && (m'.round, m'.roundEnd) == NextRound(begins, BeginsRecovery(m, ack), x.lastSent, m.round, m.roundEnd)
    && (m'.bandwidth, m'.free, m'.limited) == FilterAfter(NewSamples(ack), m'.round, m.bandwidth, m.free, m.limited)
    && (Expires(m, ack, x.options), m'.rtt, m'.rttSince, m'.limitedSince) ==
       RttAfter(Least(ack), Looked(m, ack), Due(m, ack), Kept(m, ack, x.options), m.rtt, m.rttSince, m.limitedSince)
    && m'.rttStamp == (if Looked(m, ack) then ack.time else m.rttStamp)
    && (m'.recovery, m'.endRecovery) ==
       RecoveryAfter(acked, ack.hasLosses, begins, ack.maxPackno, x.lastSent, m.recovery, m.endRecovery)
    && (excess, m'.epochBytes, m'.epochStart) ==
       AggregationAfter(acked, x.bytes, ack.time, Expected(m'.bandwidth.Get(), ack.time, m.epochStart), m.epochBytes, m.epochStart)
    && m'.ackHeight == HeightAfter(m.ackHeight, m'.round, excess, false)
  }

  ghost predicate RoundTaken(m: Model, begins: bool, lastSent: nat, m': Model) {
    && m' == m.(round := m'.round, roundEnd := m'.roundEnd)
    && (m'.round, m'.roundEnd) == NextRound(begins, false, lastSent, m.round, m.roundEnd)
  }

  ghost predicate SamplesTaken(m: Model, ack: AckState, o: Options, expired: bool, m': Model) {
    && m' == m.(bandwidth := m'.bandwidth, free := m'.free, limited := m'.limited, rtt := m'.rtt, rttStamp := m'.rttStamp,
                rttSince := m'.rttSince, limitedSince := m'.limitedSince)
    && (m'.bandwidth, m'.free, m'.limited) == FilterAfter(ack.samples, m.round, m.bandwidth, m.free, m.limited)
    && RttReviewed(m, ack, o, expired, m')
  }

  ghost predicate RecoveryTaken(m: Model, ack: AckState, begins: bool, lastSent: nat, m': Model) {
    && m' == m.(recovery := m'.recovery, endRecovery := m'.endRecovery,
                roundEnd := if m.recovery == NotInRecovery && ack.hasLosses then lastSent else m.roundEnd)
    && (m'.recovery, m'.endRecovery) == RecoveryAfter(true, ack.hasLosses, begins, ack.maxPackno, lastSent, m.recovery, m.endRecovery)
  }

  ghost predicate AggregationTaken(m: Model, bytes: nat, now: nat, excess: nat, m': Model) {
    && m' == m.(ackHeight := HeightAfter(m.ackHeight, m.round, excess, false), epochBytes := m'.epochBytes,
                epochStart := m'.epochStart)
    && (excess, m'.epochBytes, m'.epochStart) ==
       AggregationAfter(true, bytes, now, Expected(m.bandwidth.Get(), now, m.epochStart), m.epochBytes, m.epochStart)
  }

  lemma GatheredTogether(m: Model, x: Given, begins: bool, m1: Model, expired: bool, m2: Model, m3: Model, excess: nat, m': Model)
    requires x.ack.ackedBytes > 0 && begins == BeginsRound(m, x.ack)
    requires RoundTaken(m, begins, x.lastSent, m1) && SamplesTaken(m1, x.ack, x.options, expired, m2)
    requires RecoveryTaken(m2, x.ack, begins, x.lastSent, m3) && AggregationTaken(m3, x.bytes, x.ack.time, excess, m')
    ensures ModelGathered(m, x, m', excess) && expired == Expires(m, x.ack, x.options)
  {
  }

  /** Old excesses are forgotten. */
  ghost function Forgotten(m: Model, forget: bool): Model {
    if forget then m.(ackHeight := m.ackHeight.Reset(Sample(m.round, 0))) else m
  }

  /** PROBE_RTT has been left, which makes the minimum RTT young again. */
  ghost function Stamped(m: Model, left: bool, now: nat): Model {
    if left then m.(rttStamp := now) else m
  }

  /** The model after an acknowledgement. */
  ghost predicate ModelTaken(m: Model, s: Modes, x: Given, m': Model, s': Modes, excess: nat) {
    var ack, begins, left := x.ack, BeginsRound(m, x.ack), s.mode == ProbeRtt && s'.mode != ProbeRtt;
    && ModelGathered(m, x, m'.(rttStamp := if Looked(m, ack) then ack.time else m.rttStamp,
                               ackHeight := HeightAfter(m.ackHeight, m'.round, excess, false)), excess)
    && m'.rttStamp == (if Looked(m, ack) || left then ack.time else m.rttStamp)
    && m'.ackHeight == HeightAfter(m.ackHeight, m'.round, excess,
         x.options.expireAckAggInStartup && Grew(begins, m'.limited, m'.bandwidth.Get(), s.full, s.lastBandwidth))
  }

  /** What the modes leave of the gathered model `m1`. */
  ghost predicate ModelLeft(m: Model, m1: Model, s: Modes, x: Given, m': Model, s': Modes) {
    m' == Stamped(Forgotten(m1, x.options.expireAckAggInStartup
                    && Grew(BeginsRound(m, x.ack), m1.limited, m1.bandwidth.Get(), s.full, s.lastBandwidth)),
                  s.mode == ProbeRtt && s'.mode != ProbeRtt, x.ack.time)
  }

  lemma TakenTogether(m: Model, s: Modes, x: Given, m1: Model, m': Model, s': Modes, excess: nat)
    requires ModelGathered(m, x, m1, excess) && ModelLeft(m, m1, s, x, m', s')
    ensures ModelTaken(m, s, x, m', s', excess)
  {
    assert m1 == m'.(rttStamp := if Looked(m, x.ack) then x.ack.time else m.rttStamp,
                     ackHeight := HeightAfter(m.ackHeight, m'.round, excess, false));
  }

  /** Mode, gain cycle, PROBE_RTT and full bandwidth after an acknowledgement, with the model that it made. */
  ghost predicate ModesTaken(m: Model, s: Modes, x: Given, m': Model, s': Modes) {
    var begins, now := BeginsRound(m, x.ack), x.ack.time;
    var next := NextMode(s.mode, s'.full, Drained(m', x.rttStats, x.inFlight));
    && !s'.quiescence
    && (s'.full, s'.lastBandwidth, s'.stalled) ==
       FullAfter(begins, m'.limited, m'.bandwidth.Get(), x.lossExit && m'.recovery != NotInRecovery, s.full, s.lastBandwidth, s.stalled)
    && (s'.mode, s'.exitAt, s'.passed) ==
       ModeAfter(next, s.exitAt, s.passed, s'.full, Expires(m, x.ack, x.options) && !s.quiescence,
                 LowInFlight(m', x.rttStats, x.inFlight, x.options), begins, now)
    && CycleTaken(s.mode, next, s'.mode, Moved(m', s, x), now, s.offset, s.cycleStart, s'.gain, s'.offset, s'.cycleStart)
  }

  /** The gain cycle moves on. */
  ghost predicate Moving(m': Model, s: Modes, x: Given) {
    MovesOn(s.gain, x.ack.hasLosses, x.ack.inFlight >= TargetCwnd(m', x.rttStats, s.gain), Drained(m', x.rttStats, x.inFlight),
            x.ack.time < s.cycleStart || x.ack.time - s.cycleStart > MinRtt(m', x.rttStats))
  }

  /** Offset, start and gain of the cycle then. */
  ghost function Moved(m': Model, s: Modes, x: Given): (nat, nat, real) {
    CycleAfter(Moving(m', s, x), x.options.drainToTarget && !Drained(m', x.rttStats, x.inFlight), x.ack.time,
               s.gain, s.offset, s.cycleStart)
  }

  /** Pacing rate and windows after an acknowledgement, with the model and the modes that it made. */
  ghost predicate WindowsTaken(m: Model, w: Windows, x: Given, m': Model, s': Modes, w': Windows, excess: nat) {
    && w'.rate == RateAfter(m'.bandwidth.Get(), s'.gain, s'.full, x.rttStats,
                            m'.endRecovery != 0 && x.options.slowerStartup && m'.free, w.rate)
    && w'.cwnd == WindowAfter(s'.mode, s'.full, AimedAt(m', s', x, excess), x.bytes, x.young, w.cwnd)
    && w'.recoveryWindow ==
       RecoveryWindowAfter(WindowCounts(m'.recovery, s'.mode, x.options.rateBasedStartup), m'.recovery == Growth,
                           x.bytes, x.ack.lostBytes, x.inFlight, if BeginsRecovery(m, x.ack) then 0 else w.recoveryWindow)
  }

  /** The window that is aimed at, with what came beyond expectation. */
  ghost function AimedAt(m': Model, s': Modes, x: Given, excess: nat): nat {
    TargetCwnd(m', x.rttStats, s'.cwndGain)
    + if s'.full then m'.ackHeight.Get() else if x.options.enableAckAggInStartup then excess else 0
  }

  /** All this is in order. */
  lemma TakenInOrder(mode: Mode, gain: real, cwndGain: real, full: bool, exitAt: nat, passed: bool, offset: nat, start: nat,
                     mode': Mode, gain': real, cwndGain': real, full': bool, exitAt': nat, passed': bool, offset': nat, start': nat,
                     drained: bool, probe: bool, low: bool, begins: bool, moves: bool, hold: bool, now: nat, drainToTarget: bool)
    requires GainsOk(mode, full, gain, cwndGain, offset, drainToTarget)
    requires GainsOk(mode', full', gain', cwndGain', offset', drainToTarget) && (full ==> full')
    requires (mode', exitAt', passed') == ModeAfter(NextMode(mode, full', drained), exitAt, passed, full', probe, low, begins, now)
    requires CycleTaken(mode, NextMode(mode, full', drained), mode', CycleAfter(moves, hold, now, gain, offset, start), now,
                        offset, start, gain', offset', start')
    ensures ModeStep(mode, gain, full, mode', gain', full')
    ensures ProbeStep(mode, exitAt, passed, mode', exitAt', passed', low, begins, now)
  {
  }

  lemma ModesInOrder(m: Model, s: Modes, x: Given, m': Model, s': Modes)
    requires ModesTaken(m, s, x, m', s') && ModesOk(s, x.options) && ModesOk(s', x.options)
    ensures ModeStep(s.mode, s.gain, s.full, s'.mode, s'.gain, s'.full) && (s.full ==> s'.full)
    ensures ProbeStep(s.mode, s.exitAt, s.passed, s'.mode, s'.exitAt, s'.passed, LowInFlight(m', x.rttStats, x.inFlight, x.options),
                      BeginsRound(m, x.ack), x.ack.time)
  {
    var drained, low := Drained(m', x.rttStats, x.inFlight), LowInFlight(m', x.rttStats, x.inFlight, x.options);
    var probe, begins := Expires(m, x.ack, x.options) && !s.quiescence, BeginsRound(m, x.ack);
    TakenInOrder(s.mode, s.gain, s.cwndGain, s.full, s.exitAt, s.passed, s.offset, s.cycleStart,
                 s'.mode, s'.gain, s'.cwndGain, s'.full, s'.exitAt, s'.passed, s'.offset, s'.cycleStart,
                 drained, probe, low, begins, Moving(m', s, x), x.options.drainToTarget && !drained, x.ack.time, x.options.drainToTarget);
  }

  // ---------- The log ----------

  ghost predicate HistoryOk(log: seq<Record>, s: Modes, o: Options) {
    && LogOk(log) && Shows(log, s.mode, s.gain, s.full) && ProbeOk(log, s.mode, s.exitAt, s.passed)
    && WindowsShown(log, o.rateBasedStartup, o.probeRttBasedOnBdp)
  }

  /** The filter and the round are what the log makes them. */
  ghost predicate FilteredOk(log: seq<Record>, m: Model) {
    m.bandwidth == FilterOf(log) && m.round == Rounds(log)
  }

  lemma Recorded(log: seq<Record>, m: Model, s: Modes, x: Given, m': Model, s': Modes, excess: nat, r: Record, log': seq<Record>)
    requires HistoryOk(log, s, x.options) && FilteredOk(log, m) && ModesOk(s, x.options) && ModesOk(s', x.options)
    requires ModelTaken(m, s, x, m', s', excess) && ModesTaken(m, s, x, m', s')
    requires r.Acked? && r.time == x.ack.time && r.mode == s'.mode && r.gain == s'.gain && r.full == s'.full
    requires r.low == LowInFlight(m', x.rttStats, x.inFlight, x.options) && r.roundStart == BeginsRound(m, x.ack)
    requires r.round == m'.round && r.samples == NewSamples(x.ack) && log' == log + [r]
    requires IsWindow(r.window, r.flow, r.mode, x.options.rateBasedStartup, x.options.probeRttBasedOnBdp)
    ensures HistoryOk(log', s', x.options) && FilteredOk(log', m')
  {
    ModesInOrder(m, s, x, m', s');
    StepRecorded(log, s.mode, s.gain, s.full, s.exitAt, s.passed, r, log', s'.exitAt, s'.passed);
    ShownMore(log, r, log', x.options.rateBasedStartup, x.options.probeRttBasedOnBdp);
  }

  lemma NewIsOk(o: Options)
    ensures BandwidthOk(NEW_MODEL, NEW_MODES) && ModesOk(NEW_MODES, o) && FlowOk(NEW_MODEL, NEW_MODES, Windows(0, 32 * 1460, 0), o)
    ensures HistoryOk([], NEW_MODES, o) && FilteredOk([], NEW_MODEL)
  {
  }
}
