/** What every run of the BBR controller keeps to, as statements about values. */
module BbrRules {
  import opened WindowedMax
  import opened BandwidthSampler

  datatype Mode = Startup | Drain | ProbeBw | ProbeRtt
  datatype Recovery = NotInRecovery | Conservation | Growth

  const MAX_TIME := 0xFFFF_FFFF_FFFF_FFFF
  const DEFAULT_TCP_MSS := 1460
  const INIT_CWND := 32 * DEFAULT_TCP_MSS
  const MIN_CWND := 4 * DEFAULT_TCP_MSS
  const MAX_CWND := 2000 * DEFAULT_TCP_MSS
  const MAX_SEGMENT_SIZE := DEFAULT_TCP_MSS
  const MAX_OUTGOING_PACKET_SIZE := 1452
  const HIGH_GAIN: real := 2.885
  const DRAIN_GAIN: real := 1.0 / 2.885
  const CWND_GAIN: real := 2.0
  const MODERATE_PROBE_RTT_MULTIPLIER: real := 0.75
  const STARTUP_AFTER_LOSS_GAIN: real := 1.5
  const SIMILAR_MIN_RTT_THRESHOLD: real := 1.125
  const MIN_RTT_EXPIRY := 10 * 1000 * 1000
  const PROBE_RTT_TIME := 200 * 1000
  const STARTUP_ROUNDS_WITHOUT_GROWTH := 3
  const GAIN_CYCLE_LENGTH := 8

  function PacingGain(offset: nat): real {
    if offset == 0 then 1.25 else if offset == 1 then 0.75 else 1.0
  }

  /** The gains of a cycle: one high, one low, and one on average. */
  lemma CycleBalanced()
    ensures PacingGain(0) == 1.25 && PacingGain(1) == 0.75 && forall k | 2 <= k < GAIN_CYCLE_LENGTH :: PacingGain(k) == 1.0
    ensures PacingGain(0) + PacingGain(1) + PacingGain(2) + PacingGain(3)
          + PacingGain(4) + PacingGain(5) + PacingGain(6) + PacingGain(7) == GAIN_CYCLE_LENGTH as real
  {
  }

  /** `n` times `gain`, cut down to a whole number. */
  function Scaled(n: nat, gain: real): nat {
    var x := (gain * (n as real)).Floor;
    if x < 0 then 0 else x
  }

  lemma ScaledIs(n: nat, gain: real)
    requires gain >= 0.0
    ensures IsWhole(Scaled(n, gain), gain * (n as real))
  {
  }

  /** `r` is `x` without its fraction. */
  ghost predicate IsWhole(r: nat, x: real) {
    r as real <= x < r as real + 1.0
  }

  function Max(a: nat, b: nat): nat { if a > b then a else b }

  /**
   `r` is the target for a window: the bytes that `bw` bits per second bring in `rtt`
   microseconds, times the gain; or the initial window times the gain if that comes to nothing; and not
   less than the least window.
   */
  ghost predicate IsTarget(r: nat, gain: real, rtt: nat, bw: nat) {
    exists bdp: nat, whole: nat :: IsBdp(bdp, rtt, bw) && IsScaledBdp(whole, gain, bdp) && r == Max(whole, MIN_CWND)
  }

  ghost predicate IsBdp(bdp: nat, rtt: nat, bw: nat) {
    bdp * 1000000 <= rtt * (bw / 8) < (bdp + 1) * 1000000
  }

  ghost predicate IsScaledBdp(whole: nat, gain: real, bdp: nat) {
    IsWhole(whole, gain * (if gain * (bdp as real) >= 1.0 then bdp else INIT_CWND) as real)
  }

  // ---------- Windows ----------

  /** During recovery the recovery window counts, except in a startup paced by rate. */
  ghost predicate WindowCounts(recovery: Recovery, mode: Mode, rateBasedStartup: bool) {
    recovery != NotInRecovery && !(rateBasedStartup && mode == Startup)
  }

  ghost predicate WindowsOk(cwnd: nat, recovery: Recovery, window: nat, mode: Mode, rateBasedStartup: bool) {
    && MIN_CWND <= cwnd <= MAX_CWND
    && (WindowCounts(recovery, mode, rateBasedStartup) ==> MIN_CWND <= window)
  }

  /** The three that the window of a sender is taken from. */
  datatype Flow = Flow(cwnd: nat, recovery: Recovery, recoveryWindow: nat)

  /**
   In PROBE_RTT the window is four packets, or taken from the bandwidth; during recovery it is the
   lesser of the two windows; and otherwise the congestion window.
   */
  ghost predicate IsWindow(r: nat, flow: Flow, mode: Mode, rateBasedStartup: bool, basedOnBdp: bool) {
    if mode == ProbeRtt then r >= MIN_CWND && (!basedOnBdp ==> r == MIN_CWND)
    else if WindowCounts(flow.recovery, mode, rateBasedStartup) then
      r <= flow.cwnd && r <= flow.recoveryWindow && (r == flow.cwnd || r == flow.recoveryWindow)
    else r == flow.cwnd
  }

  // ---------- Bandwidth samples ----------

  /** A sample that the application limited counts only if it is greater than what is shown. */
  ghost predicate Counts(m: MinMax, s: BwSample) {
    !s.isAppLimited || s.bandwidth > m.Get()
  }

  /** The bandwidth filter after some samples of one round. */
  ghost function Fed(m: MinMax, round: nat, samples: seq<BwSample>): MinMax {
    if samples == [] then m
    else
      var before, s := Fed(m, round, samples[..|samples| - 1]), samples[|samples| - 1];
      if Counts(before, s) then before.UpdateMax(round, s.bandwidth) else before
  }

  /** The samples that count, with their round. */
  ghost function CountedIn(m: MinMax, round: nat, samples: seq<BwSample>): seq<Sample> {
    if samples == [] then []
    else
      var init, s := samples[..|samples| - 1], samples[|samples| - 1];
      CountedIn(m, round, init) + if Counts(Fed(m, round, init), s) then [Sample(round, s.bandwidth)] else []
  }

  /** Without a sample that the application did not limit, no bandwidth counts yet. */
  ghost predicate SamplesOk(hasNonAppLimited: bool, lastAppLimited: bool, maxBandwidth: nat, bwAtLastRound: nat) {
    !hasNonAppLimited ==> bwAtLastRound == 0 && (lastAppLimited || maxBandwidth == 0)
  }

  // ---------- Modes and gains ----------

  ghost predicate GainsOk(mode: Mode, full: bool, pacing: real, cwndGain: real, offset: nat, drainToTarget: bool) {
    && offset < GAIN_CYCLE_LENGTH
    && match mode
       case Startup => !full && pacing == HIGH_GAIN && cwndGain == HIGH_GAIN
       case Drain => full && pacing == DRAIN_GAIN && cwndGain == HIGH_GAIN
       case ProbeBw => full && cwndGain == CWND_GAIN && CycleGain(pacing, offset, drainToTarget)
       case ProbeRtt => pacing == 1.0
  }

  /** The gain of the cycle, or still the low gain if the queue has to be drained first. */
  ghost predicate CycleGain(pacing: real, offset: nat, drainToTarget: bool) {
    pacing == PacingGain(offset) || (drainToTarget && pacing == 0.75 && PacingGain(offset) == 1.0)
  }

  // ---------- History ----------

  /**
   One acknowledgement, as it left the controller, or a new start.  `low` says whether little was
   in flight, `roundStart` whether it began a round, `window` is the window that senders see, `round` is
   the round it was in, and `samples` are the samples that it brought.
   */
  datatype Record =
    | Acked(time: nat, mode: Mode, gain: real, full: bool, low: bool, roundStart: bool, window: nat, flow: Flow,
            round: nat, samples: seq<BwSample>)
    | Restarted

  ghost predicate Probing(r: Record) {
    r.Acked? && r.mode == ProbeRtt
  }

  /** PROBE_RTT has lasted since record `j`, at which little was in flight. */
  ghost predicate LowSince(log: seq<Record>, j: nat) {
    j < |log| && log[j].Acked? && log[j].low && forall k | j <= k < |log| :: Probing(log[k])
  }

  ghost predicate RoundAfter(log: seq<Record>, j: nat) {
    exists k | j < k < |log| :: log[k].Acked? && log[k].roundStart
  }

  /** The end of PROBE_RTT is due 200 ms after little was in flight. */
  ghost predicate Scheduled(log: seq<Record>, exitAt: nat, roundPassed: bool) {
    exists j: nat :: LowSince(log, j) && exitAt == log[j].time + PROBE_RTT_TIME && (roundPassed ==> RoundAfter(log, j))
  }

  /** Leaving PROBE_RTT with `r` is in order: time and a round have passed. */
  ghost predicate MayLeave(log: seq<Record>, r: Record)
    requires r.Acked?
  {
    exists j: nat :: LowSince(log, j) && r.time >= log[j].time + PROBE_RTT_TIME && (r.roundStart || RoundAfter(log, j))
  }

  /** Rounds since the last restart. */
  ghost function Rounds(log: seq<Record>): nat {
    if log == [] || log[|log| - 1].Restarted? then 0 else log[|log| - 1].round
  }

  /** The bandwidth filter after what the log shows. */
  ghost function FilterOf(log: seq<Record>): MinMax {
    if log == [] || log[|log| - 1].Restarted? then Init(10)
    else
      var r := log[|log| - 1];
      Fed(FilterOf(log[..|log| - 1]), r.round, r.samples)
  }

  /** What may follow what. */
  ghost predicate MayFollow(log: seq<Record>, r: Record) {
    r.Acked? ==>
      && r.round == Rounds(log) + (if r.roundStart then 1 else 0)
      && (r.mode == Drain || r.mode == ProbeBw ==> r.full)
      && (r.mode == Startup ==> !r.full)
      && (r.mode == ProbeBw && r.gain == 0.75 ==>
            log != [] && var p := log[|log| - 1]; p.Acked? && p.mode == ProbeBw && (p.gain == 0.75 || p.gain == 1.25))
      && (log != [] && log[|log| - 1].Acked? ==>
            var p := log[|log| - 1];
            && (p.full ==> r.full)
            && (p.mode == Drain ==> r.mode != Startup)
            && (p.mode == ProbeBw ==> r.mode == ProbeBw || r.mode == ProbeRtt)
            && (p.mode == ProbeRtt && r.mode != ProbeRtt ==> r.mode != Drain && MayLeave(log, r)))
  }

  ghost predicate LogOk(log: seq<Record>) {
    log == [] || (LogOk(log[..|log| - 1]) && MayFollow(log[..|log| - 1], log[|log| - 1]))
  }

  /** The last record shows the state that the controller is in. */
  ghost predicate Shows(log: seq<Record>, mode: Mode, gain: real, full: bool) {
    if log == [] || log[|log| - 1].Restarted? then mode == Startup
    else log[|log| - 1].mode == mode && log[|log| - 1].gain == gain && log[|log| - 1].full == full
  }

  ghost predicate ProbeOk(log: seq<Record>, mode: Mode, exitAt: nat, roundPassed: bool) {
    mode == ProbeRtt && exitAt != 0 ==> Scheduled(log, exitAt, roundPassed)
  }

  /** Every record shows the window that belongs to its state. */
  ghost predicate WindowsShown(log: seq<Record>, rateBasedStartup: bool, basedOnBdp: bool) {
    forall i | 0 <= i < |log| && log[i].Acked? :: IsWindow(log[i].window, log[i].flow, log[i].mode, rateBasedStartup, basedOnBdp)
  }

  lemma ShownMore(log: seq<Record>, r: Record, log': seq<Record>, rateBasedStartup: bool, basedOnBdp: bool)
    requires WindowsShown(log, rateBasedStartup, basedOnBdp) && log' == log + [r]
    requires r.Acked? ==> IsWindow(r.window, r.flow, r.mode, rateBasedStartup, basedOnBdp)
    ensures WindowsShown(log', rateBasedStartup, basedOnBdp)
    ensures r.Acked? ==> FilterOf(log') == Fed(FilterOf(log), r.round, r.samples) && Rounds(log') == r.round
    ensures r.Restarted? ==> FilterOf(log') == Init(10) && Rounds(log') == 0
  {
    assert log'[..|log|] == log;
  }

  lemma LogExtended(log: seq<Record>, r: Record, log': seq<Record>)
    requires LogOk(log) && MayFollow(log, r) && log' == log + [r]
    ensures LogOk(log')
  {
  }

  lemma RestartRecorded(log: seq<Record>, log': seq<Record>, gain: real, full: bool, exitAt: nat, passed: bool)
    requires LogOk(log) && log' == log + [Restarted]
    ensures LogOk(log') && Shows(log', Startup, gain, full) && ProbeOk(log', Startup, exitAt, passed)
  {
  }

  lemma LowStill(log: seq<Record>, j: nat, r: Record, log': seq<Record>)
    requires LowSince(log, j) && Probing(r) && log' == log + [r]
    ensures LowSince(log', j) && log'[j] == log[j]
    ensures RoundAfter(log, j) || r.roundStart ==> RoundAfter(log', j)
  {
    if RoundAfter(log, j) {
      var k :| j < k < |log| && log[k].Acked? && log[k].roundStart;
      assert log'[k] == log[k];
    }
    assert log'[|log|] == r;
  }

  lemma ScheduledStill(log: seq<Record>, r: Record, log': seq<Record>, exitAt: nat, passed: bool, passed': bool)
    requires Scheduled(log, exitAt, passed) && Probing(r) && log' == log + [r]
    requires passed' ==> passed || r.roundStart
    ensures Scheduled(log', exitAt, passed')
  {
    var j: nat :| LowSince(log, j) && exitAt == log[j].time + PROBE_RTT_TIME && (passed ==> RoundAfter(log, j));
    LowStill(log, j, r, log');
  }

  lemma ScheduledNow(log: seq<Record>, r: Record, log': seq<Record>, exitAt: nat)
    requires Probing(r) && r.low && log' == log + [r] && exitAt == r.time + PROBE_RTT_TIME
    ensures Scheduled(log', exitAt, false)
  {
    assert LowSince(log', |log|);
  }

  lemma LeavesInOrder(log: seq<Record>, exitAt: nat, passed: bool, r: Record)
    requires Scheduled(log, exitAt, passed) && r.Acked? && r.time >= exitAt && (passed || r.roundStart)
    ensures MayLeave(log, r)
  {
  }

  /** Read off the whole log: PROBE_RTT is left only in order. */
  lemma {:induction false} LeftInOrder(log: seq<Record>, i: nat)
    requires LogOk(log) && i + 1 < |log| && Probing(log[i]) && log[i + 1].Acked? && log[i + 1].mode != ProbeRtt
    ensures MayLeave(log[..i + 1], log[i + 1])
  {
    if i + 2 < |log| {
      var init := log[..|log| - 1];
      assert init[..i + 1] == log[..i + 1];
      LeftInOrder(init, i);
    }
  }

  /** The low gain comes only after the high gain, in the same stay. */
  lemma {:induction false} LowGainAfterHigh(log: seq<Record>, i: nat) returns (j: nat)
    requires LogOk(log) && i < |log| && log[i].Acked? && log[i].mode == ProbeBw && log[i].gain == 0.75
    ensures j < i && log[j].Acked? && log[j].gain == 1.25
    ensures forall k | j <= k <= i :: log[k].Acked? && log[k].mode == ProbeBw
    ensures forall k | j < k <= i :: log[k].gain == 0.75
  {
    var init, last := log[..|log| - 1], log[|log| - 1];
    if i < |log| - 1 {
      j := LowGainAfterHigh(init, i);
    } else {
      var p := init[|init| - 1];
      if p.gain == 1.25 {
        j := i - 1;
      } else {
        j := LowGainAfterHigh(init, i - 1);
      }
    }
  }

  /** Once full bandwidth was reached, STARTUP does not come back without a restart. */
  lemma {:induction false} FullForGood(log: seq<Record>, i: nat, j: nat)
    requires LogOk(log) && i <= j < |log| && log[i].Acked? && log[i].full
    requires forall k | i <= k <= j :: log[k].Acked?
    ensures log[j].full && log[j].mode != Startup
  {
    var init := log[..|log| - 1];
    if j < |log| - 1 {
      FullForGood(init, i, j);
    } else if i < j {
      FullForGood(init, i, j - 1);
    }
  }

  /** What one acknowledgement does to PROBE_RTT and its end. */
  ghost predicate ProbeStep(mode: Mode, exitAt: nat, passed: bool, mode': Mode, exitAt': nat, passed': bool,
                            low: bool, roundStart: bool, now: nat)
  {
    if mode' == ProbeRtt then
      || exitAt' == 0
      || (low && exitAt' == now + PROBE_RTT_TIME && !passed')
      || (mode == ProbeRtt && exitAt' == exitAt && exitAt != 0 && (passed' ==> passed || roundStart))
    else
      mode == ProbeRtt ==>
        exitAt != 0 && now >= exitAt && (passed || roundStart) && (mode' == ProbeBw || mode' == Startup)
  }

  /** What one acknowledgement does to the mode and the gain. */
  ghost predicate ModeStep(mode: Mode, gain: real, full: bool, mode': Mode, gain': real, full': bool) {
    && (mode' == Drain || mode' == ProbeBw ==> full') && (mode' == Startup ==> !full')
    && (full ==> full') && (mode == Drain ==> mode' != Startup)
    && (mode == ProbeBw ==> mode' == ProbeBw || mode' == ProbeRtt)
    && (mode' == ProbeBw && gain' == 0.75 ==> mode == ProbeBw && (gain == 0.75 || gain == 1.25))
  }

  /** A step of the controller may follow, and the log goes on to show its state. */
  lemma StepRecorded(log: seq<Record>, mode: Mode, gain: real, full: bool, exitAt: nat, passed: bool,
                     r: Record, log': seq<Record>, exitAt': nat, passed': bool)
    requires LogOk(log) && Shows(log, mode, gain, full) && ProbeOk(log, mode, exitAt, passed)
    requires r.Acked? && log' == log + [r]
    requires ProbeStep(mode, exitAt, passed, r.mode, exitAt', passed', r.low, r.roundStart, r.time)
    requires ModeStep(mode, gain, full, r.mode, r.gain, r.full)
    requires r.round == Rounds(log) + if r.roundStart then 1 else 0
    ensures LogOk(log') && Shows(log', r.mode, r.gain, r.full) && ProbeOk(log', r.mode, exitAt', passed')
  {
    if mode == ProbeRtt && r.mode != ProbeRtt {
      LeavesInOrder(log, exitAt, passed, r);
    }
    assert MayFollow(log, r);
    LogExtended(log, r, log');
    if r.mode == ProbeRtt && exitAt' != 0 {
      if r.low && exitAt' == r.time + PROBE_RTT_TIME && !passed' {
        ScheduledNow(log, r, log', exitAt');
      } else {
        ScheduledStill(log, r, log', exitAt, passed, passed');
      }
    }
  }
}
