/** The BBR congestion controller. */
module BbrController {
  import opened Wrappers
  import opened WindowedMax
  import opened BandwidthSampler
  import opened BbrRules
  import opened BbrSteps

  class Bbr {
    const sampler: BwSampler
    const options: Options

    var model: Model
    var modes: Modes
    var windows: Windows
    var inAck: bool
    var ack: AckState
    var lastSentPackno: nat
    var exitStartupOnLoss: bool
    var flexibleAppLimited: bool

    /** The connection's own minimum RTT, zero if there is none yet. */
    var rttStatsMin: nat

    ghost var log: seq<Record>

    ghost predicate History()
      reads `log, `modes
    {
      HistoryOk(log, modes, options)
    }

    /** The filter and the round are what the log makes them. */
    ghost predicate Filtered()
      reads `log, `model
    {
      FilteredOk(log, model)
    }

    ghost predicate Sound()
      reads `model, `modes, `windows
    {
      BandwidthOk(model, modes) && ModesOk(modes, options) && FlowOk(model, modes, windows, options)
    }

    ghost predicate Valid()
      reads this, sampler
    {
      && sampler.Valid() && Sound() && History() && Filtered()
      && (inAck ==> ack.totalAckedBefore <= sampler.totalAcked)
    }

    // ---------- Reads ----------

    function GetMinRtt(): (r: nat)
      reads `model, `rttStatsMin
      ensures r > 0
    {
      MinRtt(model, rttStatsMin)
    }

    function GetTargetCwnd(gain: real): (r: nat)
      reads `model, `rttStatsMin
      ensures r >= MIN_CWND
    {
      TargetCwnd(model, rttStatsMin, gain)
    }

    predicate InRecovery()
      reads `model
    {
      model.recovery != NotInRecovery
    }

    /** The congestion window that senders see: it is within the limits, and the one that the state asks for. */
    function GetCwnd(): (r: nat)
      reads `model, `modes, `windows, `rttStatsMin
      requires FlowOk(model, modes, windows, options)
      ensures r >= MIN_CWND
      ensures r <= MAX_CWND || (modes.mode == ProbeRtt && options.probeRttBasedOnBdp)
      ensures IsWindow(r, Flow(windows.cwnd, model.recovery, windows.recoveryWindow), modes.mode, options.rateBasedStartup,
                       options.probeRttBasedOnBdp)
      ensures modes.mode == ProbeRtt && options.probeRttBasedOnBdp ==> r == GetTargetCwnd(0.75)
    {
      if modes.mode == ProbeRtt then ProbeRttCwnd(model, rttStatsMin, options)
      else if InRecovery() && !(options.rateBasedStartup && modes.mode == Startup) then
        if windows.cwnd < windows.recoveryWindow then windows.cwnd else windows.recoveryWindow
      else windows.cwnd
    }

    predicate ShouldExtendMinRttExpiry(): (r: bool)
      reads `model
      ensures r == ExtendsExpiry(model, model.rttSince, options)
    {
      if model.limitedSince && options.probeRttDisabledIfAppLimited then true
      else
        var increased := (model.rttSince as real) > (model.rtt as real) * SIMILAR_MIN_RTT_THRESHOLD;
        model.limitedSince && options.probeRttSkippedIfSimilarRtt && !increased
    }

    predicate IsPipeSufficientlyFull(inFlight: nat)
      reads `model, `modes, `rttStatsMin
    {
      if modes.mode == Startup then inFlight >= GetTargetCwnd(1.5)
      else if modes.gain > 1.0 then inFlight >= GetTargetCwnd(modes.gain)
      else inFlight >= GetTargetCwnd(1.1)
    }

    // ---------- Starting ----------

    constructor (options: Options)
      ensures Valid() && fresh(sampler) && this.options == options && !inAck && log == []
      ensures sampler.Seen() == View(0, 0, 0, (0, 0, 0), 0, 0, true, map[])
      ensures model == NEW_MODEL && modes == NEW_MODES && windows == Windows(0, 32 * 1460, 0)
    {
      this.options := options;
      sampler := new BwSampler();
      inAck, lastSentPackno, rttStatsMin := false, 0, 0;
      ack := AckState([], 0, 0, 0, 0, 0, 0, false);
      model, modes, windows, log := NEW_MODEL, NEW_MODES, Windows(0, INIT_CWND, 0), [];
      exitStartupOnLoss, flexibleAppLimited := false, false;
      new;
      Init();
      NewIsOk(options);
    }

    /** Sets everything but the recovery state, the packet numbers and the acknowledgement under way. */
    method Init()
      modifies `model, `modes, `windows, `exitStartupOnLoss, `flexibleAppLimited
      ensures model == NEW_MODEL.(recovery := old(model).recovery, endRecovery := old(model).endRecovery,
                                  roundEnd := old(model).roundEnd, rttSince := old(model).rttSince,
                                  limitedSince := old(model).limitedSince)
      ensures modes == NEW_MODES && windows == Windows(0, 32 * 1460, old(windows).recoveryWindow)
      ensures !exitStartupOnLoss && !flexibleAppLimited
    {
      modes := modes.(mode := Startup);
      model := model.(round := 0, bandwidth := WindowedMax.Init(10), ackHeight := WindowedMax.Init(10),
                      epochBytes := 0, epochStart := 0, rtt := 0, rttStamp := 0);
      windows := windows.(cwnd := INIT_CWND, rate := 0);
      exitStartupOnLoss, flexibleAppLimited := false, false;
      modes := modes.(offset := 0, cycleStart := 0, full := false, stalled := 0, lastBandwidth := 0,
                      quiescence := false, exitAt := 0, passed := false);
      model := model.(limited := false, free := false);
      modes := modes.(gain := HIGH_GAIN, cwndGain := HIGH_GAIN);
    }

    method Reinit()
      requires Valid()
      modifies `model, `modes, `windows, `exitStartupOnLoss, `flexibleAppLimited, `log
      ensures Valid() && log == old(log) + [Restarted]
      ensures model == NEW_MODEL.(recovery := old(model).recovery, endRecovery := old(model).endRecovery,
                                  roundEnd := old(model).roundEnd, rttSince := old(model).rttSince,
                                  limitedSince := old(model).limitedSince)
      ensures modes == NEW_MODES && windows == Windows(0, 32 * 1460, old(windows).recoveryWindow)
    {
      Init();
      ghost var before, after := log, log + [Restarted];
      RestartRecorded(before, after, modes.gain, modes.full, modes.exitAt, modes.passed);
      ShownMore(before, Restarted, after, options.rateBasedStartup, options.probeRttBasedOnBdp);
      log := after;
    }

    // ---------- Packets ----------

    /** The application limits the sender. */
    ghost predicate Limits(inFlight: nat)
      reads `model, `modes, `windows, `rttStatsMin, `flexibleAppLimited
      requires FlowOk(model, modes, windows, options)
    {
      inFlight < GetCwnd() && !(flexibleAppLimited && IsPipeSufficientlyFull(inFlight))
    }

    method AppLimited(inFlight: nat)
      requires Valid()
      modifies `model, sampler
      ensures Valid() && model == old(model).(limitedSince := old(model).limitedSince || old(Limits(inFlight)))
      ensures if old(Limits(inFlight)) then LimitedStep(old(sampler.Seen()), sampler.Seen())
              else sampler.Seen() == old(sampler.Seen())
    {
      if inFlight >= GetCwnd() {
        return;
      }
      if flexibleAppLimited && IsPipeSufficientlyFull(inFlight) {
        return;
      }
      model := model.(limitedSince := true);
      sampler.AppLimited();
    }

    /** `mid` is what the sampler knows before the application may turn out to limit the sender. */
    method Sent(p: Packet, inFlight: nat, appLimited: bool, memory: bool) returns (oom: bool, ghost mid: View)
      requires Valid()
      modifies `lastSentPackno, `model, sampler
      ensures Valid() && lastSentPackno == p.packno
      ensures if p.mini then mid == old(sampler.Seen()) else SentStep(old(sampler.Seen()), mid, p, inFlight, memory)
      ensures model == old(model).(limitedSince := old(model).limitedSince || (appLimited && old(Limits(inFlight))))
      ensures if appLimited && old(Limits(inFlight)) then LimitedStep(mid, sampler.Seen()) else sampler.Seen() == mid
      ensures oom <==> !p.mini && p.retx && p.id !in old(sampler.states) && !memory
    {
      oom := false;
      if !p.mini {
        oom := sampler.PacketSent(p, inFlight, memory);
      }
      mid := sampler.Seen();
      lastSentPackno := p.packno;
      if appLimited {
        AppLimited(inFlight);
      }
    }

    method Lost(p: Packet, size: nat)
      requires Valid()
      modifies `ack, sampler
      ensures Valid() && ack == old(ack).(hasLosses := true, lostBytes := old(ack).lostBytes + size)
      ensures LostStep(old(sampler.Seen()), sampler.Seen(), p)
    {
      sampler.PacketLost(p);
      ack := ack.(hasLosses := true, lostBytes := ack.lostBytes + size);
    }

    method BeginAck(time: nat, inFlight: nat)
      requires Valid() && !inAck
      modifies `inAck, `ack
      ensures Valid() && inAck && ack == AckState([], time, INVALID_PACKNO, 0, 0, sampler.totalAcked, inFlight, false)
    {
      inAck := true;
      ack := AckState([], time, INVALID_PACKNO, 0, 0, sampler.totalAcked, inFlight, false);
    }

    method Ack(p: Packet, size: nat) returns (ghost sample: Option<BwSample>)
      requires Valid() && inAck && p.sent <= ack.time
      modifies `ack, sampler
      ensures Valid() && AckedStep(old(sampler.Seen()), sampler.Seen(), p, ack.time, sample)
      ensures ack == old(ack).(samples := old(ack).samples + if sample.Some? then [sample.value] else [],
                               maxPackno := ack.maxPackno, ackedBytes := old(ack).ackedBytes + size)
      ensures ack.maxPackno ==
              if IsValidPackno(old(ack).maxPackno) && p.packno <= old(ack).maxPackno then old(ack).maxPackno else p.packno
    {
      var s := sampler.PacketAcked(p, ack.time);
      sample := s;
      var samples := ack.samples + if s.Some? then [s.value] else [];
      var maxPackno := if !IsValidPackno(ack.maxPackno) || p.packno > ack.maxPackno then p.packno else ack.maxPackno;
      ack := ack.(samples := samples, maxPackno := maxPackno, ackedBytes := ack.ackedBytes + size);
    }

    // ---------- The end of an acknowledgement: the model ----------

    /** A packet that was sent after the last round began starts another. */
    method UpdateRound() returns (roundStart: bool)
      requires ack.ackedBytes > 0
      modifies `model
      ensures roundStart == BeginsRound(old(model), ack)
      ensures RoundTaken(old(model), roundStart, lastSentPackno, model)
    {
      roundStart := ack.maxPackno > model.roundEnd || !IsValidPackno(model.roundEnd);
      if roundStart {
        model := model.(round := model.round + 1, roundEnd := lastSentPackno);
      }
    }

    /** Takes the samples in; says whether the minimum RTT has expired. */
    method UpdateBandwidthAndMinRtt() returns (expired: bool)
      requires BandwidthOk(model, modes) && ack.ackedBytes > 0
      modifies `model
      ensures BandwidthOk(model, modes)
      ensures SamplesTaken(old(model), ack, options, expired, model)
    {
      var least := TakeSamples();
      expired := ReviewMinRtt(least);
    }

    method ReviewMinRtt(least: nat) returns (expired: bool)
      requires least == Least(ack)
      modifies `model
      ensures model == old(model).(rtt := model.rtt, rttStamp := model.rttStamp, rttSince := model.rttSince,
                                   limitedSince := model.limitedSince)
      ensures RttReviewed(old(model), ack, options, expired, model)
    {
      if least == MAX_TIME {
        return false;
      }
      model := model.(rttSince := Min(model.rttSince, least));
      expired := model.rtt != 0 && ack.time > model.rttStamp + MIN_RTT_EXPIRY;
      if expired || least < model.rtt || model.rtt == 0 {
        if expired && ShouldExtendMinRttExpiry() {
          expired := false;
        } else {
          model := model.(rtt := least);
        }
        model := model.(rttStamp := ack.time, rttSince := MAX_TIME, limitedSince := false);
      }
    }

    /** Feeds the bandwidth filter and finds the least RTT. */
    method TakeSamples() returns (least: nat)
      requires BandwidthOk(model, modes)
      modifies `model
      ensures BandwidthOk(model, modes) && least == LeastRtt(ack.samples)
      ensures model == old(model).(bandwidth := model.bandwidth, free := model.free, limited := model.limited)
      ensures (model.bandwidth, model.free, model.limited) ==
              FilterAfter(ack.samples, model.round, old(model).bandwidth, old(model).free, old(model).limited)
    {
      least := MAX_TIME;
      var samples, i := ack.samples, 0;
      ghost var m0, past := model, samples[..0];
      while i < |samples|
        invariant i <= |samples| && past == samples[..i] && BandwidthOk(model, modes)
        invariant model == m0.(bandwidth := model.bandwidth, free := model.free, limited := model.limited)
        invariant (model.bandwidth, model.free, model.limited) == FilterAfter(past, m0.round, m0.bandwidth, m0.free, m0.limited)
        invariant least == LeastRtt(past)
      {
        var sample := samples[i];
        ghost var before, m, least0 := past, model, least;
        TakeSample(sample);
        if least == MAX_TIME || sample.rtt < least {
          least := sample.rtt;
        }
        i := i + 1;
        past := samples[..i];
        FilterMore(before, m0.round, m0.bandwidth, m0.free, m0.limited, m.bandwidth, m.free, m.limited, sample, past,
                   model.bandwidth, model.free, model.limited);
        LeastMore(before, sample, past, least0);
      }
      assert past == samples;
    }

    method TakeSample(sample: BwSample)
      requires BandwidthOk(model, modes)
      modifies `model
      ensures BandwidthOk(model, modes)
      ensures var m := old(model);
              model == m.(limited := sample.isAppLimited, free := m.free || !sample.isAppLimited,
                          bandwidth := if Counts(m.bandwidth, sample) then m.bandwidth.UpdateMax(m.round, sample.bandwidth)
                                       else m.bandwidth)
    {
      if sample.isAppLimited {
        model := model.(limited := true);
      } else {
        model := model.(limited := false, free := true);
      }
      if !sample.isAppLimited || sample.bandwidth > model.bandwidth.Get() {
        model := model.(bandwidth := model.bandwidth.UpdateMax(model.round, sample.bandwidth));
      }
    }

    method UpdateRecoveryState(roundStart: bool)
      modifies `model, `windows
      ensures RecoveryTaken(old(model), ack, roundStart, lastSentPackno, model)
      ensures windows == if old(model).recovery == NotInRecovery && ack.hasLosses then old(windows).(recoveryWindow := 0)
                         else old(windows)
    {
      if ack.hasLosses {
        model := model.(endRecovery := lastSentPackno);
      }
      if model.recovery == NotInRecovery {
        if ack.hasLosses {
          model := model.(recovery := Conservation, roundEnd := lastSentPackno);
          windows := windows.(recoveryWindow := 0);
        }
      } else {
        if model.recovery == Conservation && roundStart {
          model := model.(recovery := Growth);
        }
        if !ack.hasLosses && ack.maxPackno > model.endRecovery {
          model := model.(recovery := NotInRecovery);
        }
      }
    }

    /** Counts what has come beyond what the bandwidth lets expect. */
    method UpdateAckAggregation(bytesAcked: nat) returns (excess: nat)
      modifies `model
      ensures AggregationTaken(old(model), bytesAcked, ack.time, excess, model)
    {
      var expected := Expected(model.bandwidth.Get(), ack.time, model.epochStart);
      if model.epochBytes <= expected {
        model := model.(epochBytes := bytesAcked, epochStart := ack.time);
        return 0;
      }
      model := model.(epochBytes := model.epochBytes + bytesAcked);
      excess := model.epochBytes - expected;
      model := model.(ackHeight := model.ackHeight.UpdateMax(model.round, excess));
    }

    /** Takes in what an acknowledgement brings. */
    method UpdateModel(bytesAcked: nat, ghost x: Given) returns (roundStart: bool, expired: bool, excess: nat)
      requires BandwidthOk(model, modes) && x == GivenNow(bytesAcked, x.inFlight)
      modifies `model, `windows
      ensures BandwidthOk(model, modes) && ModelGathered(old(model), x, model, excess)
      ensures roundStart == BeginsRound(old(model), ack) && expired == Expires(old(model), ack, options)
      ensures windows == old(windows).(recoveryWindow := if BeginsRecovery(old(model), ack) then 0 else old(windows).recoveryWindow)
    {
      roundStart, expired, excess := false, false, 0;
      if ack.ackedBytes > 0 {
        roundStart, expired, excess := Gather(bytesAcked, x);
      }
    }

    method Gather(bytesAcked: nat, ghost x: Given) returns (roundStart: bool, expired: bool, excess: nat)
      requires BandwidthOk(model, modes) && x == GivenNow(bytesAcked, x.inFlight) && ack.ackedBytes > 0
      modifies `model, `windows
      ensures BandwidthOk(model, modes) && ModelGathered(old(model), x, model, excess)
      ensures roundStart == BeginsRound(old(model), ack) && expired == Expires(old(model), ack, options)
      ensures windows == old(windows).(recoveryWindow := if BeginsRecovery(old(model), ack) then 0 else old(windows).recoveryWindow)
    {
      ghost var m := model;
      roundStart := UpdateRound();
      ghost var m1 := model;
      expired := UpdateBandwidthAndMinRtt();
      ghost var m2 := model;
      UpdateRecoveryState(roundStart);
      ghost var m3 := model;
      excess := UpdateAckAggregation(bytesAcked);
      GatheredTogether(m, x, roundStart, m1, expired, m2, m3, excess, model);
    }

    /** What the end of the acknowledgement under way is given. */
    ghost function GivenNow(bytesAcked: nat, inFlight: nat): Given
      reads `ack, `lastSentPackno, `rttStatsMin, `exitStartupOnLoss, sampler
    {
      Given(ack, lastSentPackno, bytesAcked, inFlight, rttStatsMin, sampler.totalAcked < INIT_CWND, exitStartupOnLoss, options)
    }

    // ---------- The end of an acknowledgement: the mode ----------

    /** Moves on in the gain cycle. */
    method UpdateGainCyclePhase(inFlight: nat, ghost x: Given)
      requires modes.mode == ProbeBw && ModesOk(modes, options) && x == GivenNow(x.bytes, inFlight)
      modifies `modes
      ensures ModesOk(modes, options)
      ensures modes == old(modes).(offset := modes.offset, cycleStart := modes.cycleStart, gain := modes.gain)
      ensures (modes.offset, modes.cycleStart, modes.gain) == Moved(model, old(modes), x)
    {
      var now := ack.time;
      var advance := now < modes.cycleStart || now - modes.cycleStart > GetMinRtt();
      if modes.gain > 1.0 && !ack.hasLosses && ack.inFlight < GetTargetCwnd(modes.gain) {
        advance := false;
      }
      if modes.gain < 1.0 && inFlight <= GetTargetCwnd(1.0) {
        advance := true;
      }
      assert advance == Moving(model, modes, x);
      if advance {
        modes := modes.(offset := (modes.offset + 1) % GAIN_CYCLE_LENGTH, cycleStart := now);
        if options.drainToTarget && modes.gain < 1.0 && PacingGain(modes.offset) == 1.0 && inFlight > GetTargetCwnd(1.0) {
          return;
        }
        modes := modes.(gain := PacingGain(modes.offset));
      }
    }

    /**
     Full bandwidth is reached after three rounds without enough growth.  By then there
     has been a sample that the application did not limit.
     */
    method CheckIfFullBwReached()
      requires BandwidthOk(model, modes) && !modes.full
      modifies `model, `modes
      ensures BandwidthOk(model, modes) && (modes.full ==> model.free)
      ensures FullChecked(old(model), old(modes), true, exitStartupOnLoss, options, model, modes)
    {
      if model.limited {
        return;
      }
      var target := modes.lastBandwidth * 5 / 4;
      var bw := model.bandwidth.Get();
      if bw >= target {
        modes := modes.(lastBandwidth := bw, stalled := 0);
        if options.expireAckAggInStartup {
          model := model.(ackHeight := model.ackHeight.Reset(Sample(model.round, 0)));
        }
        return;
      }
      modes := modes.(stalled := modes.stalled + 1);
      if modes.stalled >= STARTUP_ROUNDS_WITHOUT_GROWTH || (exitStartupOnLoss && InRecovery()) {
        assert model.free;
        modes := modes.(full := true);
      }
    }

    /** Starts the gain cycle anywhere but at the low gain. */
    method EnterProbeBw(now: nat)
      requires modes.full
      modifies `modes
      ensures ModesOk(modes, options) && EntersProbeBw(old(modes), modes, now)
    {
      var rand: int := *;
      modes := modes.(mode := ProbeBw, cwndGain := CWND_GAIN);
      modes := modes.(offset := (rand % 256) % (GAIN_CYCLE_LENGTH - 1));
      if modes.offset >= 1 {
        modes := modes.(offset := modes.offset + 1);
      }
      modes := modes.(cycleStart := now, gain := PacingGain(modes.offset));
    }

    /** Gains that match the mode, but for a STARTUP that has just reached full bandwidth. */
    ghost predicate GainsBut()
      reads `modes
    {
      ModesOk(modes.(full := modes.full && modes.mode != Startup), options)
    }

    method MaybeExitStartupOrDrain(inFlight: nat)
      requires GainsBut()
      modifies `modes
      ensures ModesOk(modes, options)
      ensures ExitTaken(old(modes), modes, Drained(model, rttStatsMin, inFlight), ack.time)
    {
      if modes.mode == Startup && modes.full {
        modes := modes.(mode := Drain, gain := DRAIN_GAIN, cwndGain := HIGH_GAIN);
      }
      if modes.mode == Drain && inFlight <= GetTargetCwnd(1.0) {
        EnterProbeBw(ack.time);
      }
    }

    /**
     PROBE_RTT starts when the minimum RTT has expired.  Its end is set 200 ms after little
     was in flight, and it has to wait for a round to pass.
     */
    method MaybeEnterOrExitProbeRtt(roundStart: bool, expired: bool, inFlight: nat)
      requires ModesOk(modes, options) && sampler.Valid()
      modifies `modes, `model, sampler
      ensures ModesOk(modes, options) && sampler.Valid()
      ensures ProbeChanged(old(modes), modes, LowInFlight(model, rttStatsMin, inFlight, options), expired, roundStart, ack.time)
      ensures model == Stamped(old(model), old(modes).mode == ProbeRtt && modes.mode != ProbeRtt, ack.time)
      ensures if old(modes).mode == ProbeRtt || (expired && !old(modes).quiescence)
              then LimitedStep(old(sampler.Seen()), sampler.Seen()) else sampler.Seen() == old(sampler.Seen())
    {
      ghost var s := modes;
      MaybeEnterProbeRtt(expired);
      ghost var s1 := modes;
      Probe(roundStart, inFlight);
      ghost var s2 := modes;
      modes := modes.(quiescence := false);
      ProbedTogether(s, expired, s1, s2, modes, LowInFlight(model, rttStatsMin, inFlight, options), roundStart, ack.time);
    }

    method MaybeEnterProbeRtt(expired: bool)
      requires ModesOk(modes, options)
      modifies `modes
      ensures ModesOk(modes, options) && modes == ProbeEntered(old(modes), expired)
    {
      if expired && !modes.quiescence && modes.mode != ProbeRtt {
        modes := modes.(mode := ProbeRtt, gain := 1.0, exitAt := 0);
      }
    }

    method Probe(roundStart: bool, inFlight: nat)
      requires ModesOk(modes, options) && sampler.Valid()
      modifies `modes, `model, sampler
      ensures ModesOk(modes, options) && sampler.Valid()
      ensures if old(modes).mode == ProbeRtt
              then ProbeTaken(old(modes), modes, LowInFlight(model, rttStatsMin, inFlight, options), false,
                              roundStart, ack.time)
              else modes == old(modes)
      ensures model == Stamped(old(model), old(modes).mode == ProbeRtt && modes.mode != ProbeRtt, ack.time)
      ensures if old(modes).mode == ProbeRtt then LimitedStep(old(sampler.Seen()), sampler.Seen())
              else sampler.Seen() == old(sampler.Seen())
    {
      if modes.mode == ProbeRtt {
        sampler.AppLimited();
        StayInProbeRtt(roundStart, inFlight);
      }
    }

    method StayInProbeRtt(roundStart: bool, inFlight: nat)
      requires modes.mode == ProbeRtt && ModesOk(modes, options)
      modifies `modes, `model
      ensures ModesOk(modes, options)
      ensures ProbeTaken(old(modes), modes, LowInFlight(model, rttStatsMin, inFlight, options), false,
                         roundStart, ack.time)
      ensures model == old(model).(rttStamp := if modes.mode != ProbeRtt then ack.time else old(model).rttStamp)
    {
      if modes.exitAt == 0 {
        if LowInFlight(model, rttStatsMin, inFlight, options) {
          modes := modes.(exitAt := ack.time + PROBE_RTT_TIME, passed := false);
        }
      } else {
        if roundStart {
          modes := modes.(passed := true);
        }
        if ack.time >= modes.exitAt && modes.passed {
          LeaveProbeRtt();
        }
      }
    }

    method LeaveProbeRtt()
      requires ModesOk(modes, options)
      modifies `modes, `model
      ensures ModesOk(modes, options) && model == old(model).(rttStamp := ack.time)
      ensures if modes.full then EntersProbeBw(old(modes), modes, ack.time)
              else modes == old(modes).(mode := Startup, gain := HIGH_GAIN, cwndGain := HIGH_GAIN)
    {
      model := model.(rttStamp := ack.time);
      if !modes.full {
        modes := modes.(mode := Startup, gain := HIGH_GAIN, cwndGain := HIGH_GAIN);
      } else {
        EnterProbeBw(ack.time);
      }
    }

    /** All that changes the mode in one acknowledgement, with the model `m` before it. */
    method ChangeModes(roundStart: bool, expired: bool, inFlight: nat, ghost m: Model, ghost x: Given)
      requires ModesOk(modes, options) && BandwidthOk(model, modes) && sampler.Valid()
      requires x == GivenNow(x.bytes, inFlight)
      requires roundStart == BeginsRound(m, ack) && expired == Expires(m, ack, options)
      modifies `modes, `model, sampler
      ensures ModesOk(modes, options) && BandwidthOk(model, modes) && sampler.Valid()
      ensures ModesTaken(m, old(modes), x, model, modes) && ModelLeft(m, old(model), old(modes), x, model, modes)
      ensures if Probes(m, old(modes), x) then LimitedStep(old(sampler.Seen()), sampler.Seen())
              else sampler.Seen() == old(sampler.Seen())
    {
      ghost var m0, s0 := model, modes;
      ChangeGains(roundStart, inFlight, x);
      ghost var m1, s1 := model, modes;
      MaybeEnterOrExitProbeRtt(roundStart, expired, inFlight);
      ghost var m', s', low := model, modes, LowInFlight(model, rttStatsMin, inFlight, options);
      ChangedTogether(m, m0, s0, x, m1, s1, m', s', expired, roundStart, low);
    }

    /** All that changes the mode but PROBE_RTT. */
    method ChangeGains(roundStart: bool, inFlight: nat, ghost x: Given)
      requires ModesOk(modes, options) && BandwidthOk(model, modes) && x == GivenNow(x.bytes, inFlight)
      modifies `modes, `model
      ensures ModesOk(modes, options) && BandwidthOk(model, modes)
      ensures GainsTaken(old(model), old(modes), x, roundStart, model, modes)
    {
      ghost var m, s := model, modes;
      MaybeUpdateGainCycle(inFlight, x);
      ghost var s1 := modes;
      MaybeCheckFullBw(roundStart);
      ghost var m2, s2 := model, modes;
      MaybeExitStartupOrDrain(inFlight);
      GainsTogether(m, s, x, roundStart, s1, m2, s2, modes);
    }

    method MaybeUpdateGainCycle(inFlight: nat, ghost x: Given)
      requires ModesOk(modes, options) && x == GivenNow(x.bytes, inFlight)
      modifies `modes
      ensures ModesOk(modes, options)
      ensures modes == old(modes).(offset := modes.offset, cycleStart := modes.cycleStart, gain := modes.gain)
      ensures if old(modes).mode == ProbeBw then (modes.offset, modes.cycleStart, modes.gain) == Moved(model, old(modes), x)
              else modes == old(modes)
    {
      if modes.mode == ProbeBw {
        UpdateGainCyclePhase(inFlight, x);
      }
    }

    method MaybeCheckFullBw(roundStart: bool)
      requires ModesOk(modes, options) && BandwidthOk(model, modes)
      modifies `modes, `model
      ensures GainsBut() && BandwidthOk(model, modes)
      ensures FullChecked(old(model), old(modes), roundStart, exitStartupOnLoss, options, model, modes)
    {
      if roundStart && !modes.full {
        CheckIfFullBwReached();
      }
    }

    // ---------- The end of an acknowledgement: pacing rate and windows ----------

    /** Before full bandwidth is reached the pacing rate does not go down, but for a slower startup after losses. */
    method CalculatePacingRate()
      modifies `windows
      ensures windows == old(windows).(rate := RateAfter(model.bandwidth.Get(), modes.gain, modes.full, rttStatsMin,
                                         model.endRecovery != 0 && options.slowerStartup && model.free, old(windows).rate))
      ensures !modes.full && !options.slowerStartup ==> windows.rate >= old(windows).rate
    {
      var bw := model.bandwidth.Get();
      if bw == 0 {
        return;
      }
      var target := Scaled(bw, modes.gain);
      if modes.full {
        windows := windows.(rate := target);
        return;
      }
      if windows.rate == 0 && rttStatsMin != 0 {
        windows := windows.(rate := Rate(INIT_CWND, rttStatsMin));
        return;
      }
      var everLost := model.endRecovery != 0;
      if everLost && options.slowerStartup && model.free {
        windows := windows.(rate := Scaled(bw, STARTUP_AFTER_LOSS_GAIN));
        return;
      }
      if windows.rate < target {
        windows := windows.(rate := target);
      }
    }

    /**
     The window grows by no more than the bytes acknowledged, within its limits, and
     does not shrink before full bandwidth is reached.
     */
    method CalculateCwnd(bytesAcked: nat, excess: nat, ghost x: Given)
      requires MIN_CWND <= windows.cwnd <= MAX_CWND && x == GivenNow(bytesAcked, x.inFlight)
      modifies `windows
      ensures windows == old(windows).(cwnd := WindowAfter(modes.mode, modes.full, AimedAt(model, modes, x, excess), bytesAcked,
                                                           sampler.totalAcked < INIT_CWND, old(windows).cwnd))
      ensures MIN_CWND <= windows.cwnd <= MAX_CWND && windows.cwnd <= old(windows).cwnd + bytesAcked
      ensures !modes.full ==> windows.cwnd >= old(windows).cwnd
    {
      if modes.mode == ProbeRtt {
        return;
      }
      var target := GetTargetCwnd(modes.cwndGain);
      if modes.full {
        target := target + model.ackHeight.Get();
      } else if options.enableAckAggInStartup {
        target := target + excess;
      }
      if modes.full {
        windows := windows.(cwnd := Min(target, windows.cwnd + bytesAcked));
      } else if windows.cwnd < target || sampler.totalAcked < INIT_CWND {
        windows := windows.(cwnd := windows.cwnd + bytesAcked);
      }
      if windows.cwnd < MIN_CWND {
        windows := windows.(cwnd := MIN_CWND);
      } else if windows.cwnd > MAX_CWND {
        windows := windows.(cwnd := MAX_CWND);
      }
    }

    /** A recovery window that counts allows at least what is in flight, and the least window. */
    method CalculateRecoveryWindow(bytesAcked: nat, bytesLost: nat, inFlight: nat)
      modifies `windows
      ensures var counts := WindowCounts(model.recovery, modes.mode, options.rateBasedStartup);
              && windows == old(windows).(recoveryWindow := RecoveryWindowAfter(counts, model.recovery == Growth, bytesAcked,
                                            bytesLost, inFlight, old(windows).recoveryWindow))
              && (counts ==> windows.recoveryWindow >= MIN_CWND && windows.recoveryWindow >= inFlight + bytesAcked)
    {
      if options.rateBasedStartup && modes.mode == Startup {
        return;
      }
      if model.recovery == NotInRecovery {
        return;
      }
      var window := windows.recoveryWindow;
      if window == 0 {
        windows := windows.(recoveryWindow := Max(MIN_CWND, inFlight + bytesAcked));
        return;
      }
      if window >= bytesLost {
        window := window - bytesLost;
      } else {
        window := MAX_SEGMENT_SIZE;
      }
      if model.recovery == Growth {
        window := window + bytesAcked;
      }
      window := Max(window, inFlight + bytesAcked);
      windows := windows.(recoveryWindow := Max(window, MIN_CWND));
    }

    /** The pacing rate and the windows follow the model; `m` is the one before and `w` the windows. */
    method UpdateWindows(bytesAcked: nat, excess: nat, inFlight: nat, ghost m: Model, ghost w: Windows, ghost x: Given)
      requires MIN_CWND <= windows.cwnd <= MAX_CWND && x == GivenNow(bytesAcked, inFlight)
      requires windows == w.(recoveryWindow := if BeginsRecovery(m, ack) then 0 else w.recoveryWindow)
      modifies `windows
      ensures FlowOk(model, modes, windows, options) && WindowsTaken(m, w, x, model, modes, windows, excess)
      ensures windows.cwnd <= w.cwnd + bytesAcked && (!modes.full ==> windows.cwnd >= w.cwnd)
    {
      CalculatePacingRate();
      CalculateCwnd(bytesAcked, excess, x);
      CalculateRecoveryWindow(bytesAcked, ack.lostBytes, inFlight);
    }

    // ---------- The end of an acknowledgement ----------

    /**
     The acknowledgement is complete.  Everything follows from the state before, the acknowledgement and what is
     in flight, but for the offset at which a gain cycle begins; `excess` is what came beyond expectation.
     */
    method EndAck(inFlight: nat) returns (ghost excess: nat)
      requires Valid() && inAck
      modifies `inAck, `model, `modes, `windows, `log, sampler
      ensures Valid() && !inAck
      ensures ModelTaken(old(model), old(modes), old(Ending(inFlight)), model, modes, excess)
      ensures ModesTaken(old(model), old(modes), old(Ending(inFlight)), model, modes)
      ensures WindowsTaken(old(model), old(windows), old(Ending(inFlight)), model, modes, windows, excess)
      ensures if Probes(old(model), old(modes), old(Ending(inFlight))) then LimitedStep(old(sampler.Seen()), sampler.Seen())
              else sampler.Seen() == old(sampler.Seen())
      ensures log == old(log) + [RecordNow(LowInFlight(model, rttStatsMin, inFlight, options), BeginsRound(old(model), ack))]
      ensures windows.cwnd <= old(windows).cwnd + (sampler.totalAcked - ack.totalAckedBefore)
      ensures old(modes).full ==> modes.full
      ensures !modes.full ==> windows.cwnd >= old(windows).cwnd
    {
      ghost var x, m, s := Ending(inFlight), model, modes;
      inAck := false;
      var bytesAcked := sampler.totalAcked - ack.totalAckedBefore;
      var extra := Digest(bytesAcked, inFlight, x);
      excess := extra;
      Record(m, s, x, extra);
    }

    /** Model, modes and windows follow. */
    method Digest(bytesAcked: nat, inFlight: nat, ghost x: Given) returns (excess: nat)
      requires Sound() && sampler.Valid() && x == GivenNow(bytesAcked, inFlight)
      modifies `model, `modes, `windows, sampler
      ensures Sound() && sampler.Valid()
      ensures ModelTaken(old(model), old(modes), x, model, modes, excess)
      ensures ModesTaken(old(model), old(modes), x, model, modes)
      ensures WindowsTaken(old(model), old(windows), x, model, modes, windows, excess)
      ensures if Probes(old(model), old(modes), x) then LimitedStep(old(sampler.Seen()), sampler.Seen())
              else sampler.Seen() == old(sampler.Seen())
      ensures windows.cwnd <= old(windows).cwnd + bytesAcked && (!modes.full ==> windows.cwnd >= old(windows).cwnd)
    {
      ghost var m, s, w := model, modes, windows;
      var roundStart, expired, extra := UpdateModel(bytesAcked, x);
      ghost var gathered := model;
      ChangeModes(roundStart, expired, inFlight, m, x);
      UpdateWindows(bytesAcked, extra, inFlight, m, w, x);
      excess := extra;
      TakenTogether(m, s, x, gathered, model, modes, extra);
    }

    /** What the end of an acknowledgement is given, with the bytes that it acknowledged. */
    ghost function Ending(inFlight: nat): Given
      reads `ack, `lastSentPackno, `rttStatsMin, `exitStartupOnLoss, sampler
      requires ack.totalAckedBefore <= sampler.totalAcked
    {
      GivenNow(sampler.totalAcked - ack.totalAckedBefore, inFlight)
    }

    /** The state, as the log shows it. */
    ghost function RecordNow(low: bool, roundStart: bool): Record
      reads `model, `modes, `windows, `ack, `rttStatsMin
      requires FlowOk(model, modes, windows, options)
    {
      Acked(ack.time, modes.mode, modes.gain, modes.full, low, roundStart, GetCwnd(),
            Flow(windows.cwnd, model.recovery, windows.recoveryWindow), model.round, NewSamples(ack))
    }

    /** Puts the state on the log, after a step from the state given. */
    ghost method Record(m: Model, s: Modes, x: Given, excess: nat)
      requires HistoryOk(log, s, options) && FilteredOk(log, m) && x.ack == ack && x.rttStats == rttStatsMin && x.options == options
      requires ModesOk(s, options) && ModesOk(modes, options) && FlowOk(model, modes, windows, options)
      requires ModelTaken(m, s, x, model, modes, excess) && ModesTaken(m, s, x, model, modes)
      modifies `log
      ensures History() && Filtered()
      ensures log == old(log) + [RecordNow(LowInFlight(model, rttStatsMin, x.inFlight, options), BeginsRound(m, ack))]
    {
      ghost var before, r := log, RecordNow(LowInFlight(model, rttStatsMin, x.inFlight, options), BeginsRound(m, ack));
      ghost var after := before + [r];
      Recorded(before, m, s, x, model, modes, excess, r, after);
      log := after;
    }
  }

  // ---------- Runs ----------

  datatype Event =
    | SentEvent(packet: Packet, inFlight: nat, appLimited: bool, memory: bool)
    | BeginAckEvent(time: nat, inFlight: nat)
    | AckEvent(packet: Packet, size: nat)
    | LostEvent(packet: Packet, size: nat)
    | EndAckEvent(inFlight: nat)
    | ReinitEvent
    | RttEvent(minRtt: nat)

  /** Acknowledgements come in brackets, and no packet is acknowledged before it is sent. */
  ghost predicate Bracketed(events: seq<Event>, inAck: bool, time: nat) {
    events == [] ||
    match events[0]
    case BeginAckEvent(t, _) => !inAck && Bracketed(events[1..], true, t)
    case AckEvent(p, _) => inAck && p.sent <= time && Bracketed(events[1..], inAck, time)
    case EndAckEvent(_) => inAck && Bracketed(events[1..], false, time)
    case _ => Bracketed(events[1..], inAck, time)
  }

  /** The time of the last acknowledgement that began. */
  ghost function TimeAfter(events: seq<Event>, t: nat): nat {
    if events == [] then t
    else if events[|events| - 1].BeginAckEvent? then events[|events| - 1].time
    else TimeAfter(events[..|events| - 1], t)
  }

  /** The samples since the last acknowledgement began. */
  ghost function Gathered(events: seq<Event>, samples: seq<Option<BwSample>>): seq<BwSample>
    requires |events| == |samples|
  {
    if events == [] || events[|events| - 1].BeginAckEvent? then []
    else
      var n := |events| - 1;
      Gathered(events[..n], samples[..n]) + if samples[n].Some? then [samples[n].value] else []
  }

  /** The bytes acknowledged since then. */
  ghost function BytesGathered(events: seq<Event>): nat {
    if events == [] || events[|events| - 1].BeginAckEvent? then 0
    else BytesGathered(events[..|events| - 1]) + if events[|events| - 1].AckEvent? then events[|events| - 1].size else 0
  }

  /** The samples that an acknowledgement brings to the controller: none without acknowledged bytes. */
  ghost function Brought(events: seq<Event>, samples: seq<Option<BwSample>>): seq<BwSample>
    requires |events| == |samples|
  {
    if BytesGathered(events) > 0 then Gathered(events, samples) else []
  }

  /** What the log has to show of one event: the time of an acknowledgement, or a restart. */
  ghost function MarkFor(e: Event, time: nat): seq<Option<nat>> {
    match e
    case EndAckEvent(_) => [Some(time)]
    case ReinitEvent => [None]
    case _ => []
  }

  ghost function MarksFor(events: seq<Event>, t: nat): seq<Option<nat>> {
    if events == [] then []
    else
      var init := events[..|events| - 1];
      MarksFor(init, t) + MarkFor(events[|events| - 1], TimeAfter(init, t))
  }

  ghost function MarkOf(r: Record): Option<nat> {
    if r.Acked? then Some(r.time) else None
  }

  /** The log shows these marks, one record each. */
  ghost predicate Marked(log: seq<Record>, marks: seq<Option<nat>>) {
    |log| == |marks| && forall i | 0 <= i < |log| :: MarkOf(log[i]) == marks[i]
  }

  /** The record of an acknowledgement shows the window after it and the samples that it brought. */
  ghost predicate RecordShows(log: seq<Record>, k: nat, window: nat, brought: seq<BwSample>) {
    k < |log| && log[k].Acked? && log[k].window == window && log[k].samples == brought
  }

  ghost predicate RecordsLogged(log: seq<Record>, events: seq<Event>, t: nat, windows: seq<nat>, samples: seq<Option<BwSample>>)
    requires |windows| == |samples| == |events|
  {
    forall i | 0 <= i < |events| && events[i].EndAckEvent? ::
      RecordShows(log, |MarksFor(events[..i], t)|, windows[i], Brought(events[..i], samples[..i]))
  }

  /** What one event adds to the log. */
  ghost predicate Logged(log: seq<Record>, log': seq<Record>, e: Event, time: nat) {
    match e
    case EndAckEvent(_) => |log'| == |log| + 1 && log'[..|log|] == log && log'[|log|].Acked? && log'[|log|].time == time
    case ReinitEvent => log' == log + [Restarted]
    case _ => log' == log
  }

  /** A packet is sent, and the application may turn out to limit the sender. */
  ghost predicate SentVia(v: View, mid: View, v': View, e: Event)
    requires e.SentEvent?
  {
    && (if e.packet.mini then mid == v else SentStep(v, mid, e.packet, e.inFlight, e.memory))
    && (v' == mid || (e.appLimited && LimitedStep(mid, v')))
  }

  /** What one event does to the sampler, and which sample it brings. */
  ghost predicate SamplerMoves(v: View, v': View, e: Event, time: nat, sample: Option<BwSample>) {
    && (!e.AckEvent? ==> sample == None)
    && match e
       case SentEvent(_, _, _, _) => exists mid :: SentVia(v, mid, v', e)
       case AckEvent(p, _) => AckedStep(v, v', p, time, sample)
       case LostEvent(p, _) => LostStep(v, v', p)
       case EndAckEvent(_) => v' == v || LimitedStep(v, v')
       case _ => v' == v
  }

  /** What one event does to the acknowledgement under way. */
  ghost predicate AckMoves(samples: seq<BwSample>, bytes: nat, samples': seq<BwSample>, bytes': nat, e: Event, sample: Option<BwSample>) {
    if e.BeginAckEvent? then samples' == [] && bytes' == 0
    else
      && samples' == samples + (if sample.Some? then [sample.value] else [])
      && bytes' == bytes + if e.AckEvent? then e.size else 0
  }

  /** Whether an acknowledgement is under way after an event. */
  ghost function InAckAfter(e: Event, inAck: bool): bool {
    if e.BeginAckEvent? then true else if e.EndAckEvent? then false else inAck
  }

  ghost predicate InBracket(e: Event, inAck: bool, time: nat) {
    match e
    case BeginAckEvent(_, _) => !inAck
    case AckEvent(p, _) => inAck && p.sent <= time
    case EndAckEvent(_) => inAck
    case _ => true
  }

  /** What happens to a packet. */
  method StepPacket(bbr: Bbr, e: Event) returns (ghost sample: Option<BwSample>)
    requires bbr.Valid() && InBracket(e, bbr.inAck, bbr.ack.time) && (e.SentEvent? || e.AckEvent? || e.LostEvent?)
    modifies bbr, bbr.sampler
    ensures bbr.Valid() && bbr.inAck == old(bbr.inAck) && bbr.ack.time == old(bbr.ack.time) && bbr.log == old(bbr.log)
    ensures SamplerMoves(old(bbr.sampler.Seen()), bbr.sampler.Seen(), e, old(bbr.ack.time), sample)
    ensures AckMoves(old(bbr.ack.samples), old(bbr.ack.ackedBytes), bbr.ack.samples, bbr.ack.ackedBytes, e, sample)
  {
    sample := None;
    match e {
      case SentEvent(p, inFlight, appLimited, memory) =>
        ghost var v := bbr.sampler.Seen();
        var oom;
        ghost var mid;
        oom, mid := bbr.Sent(p, inFlight, appLimited, memory);
        assert SentVia(v, mid, bbr.sampler.Seen(), e);
      case AckEvent(p, size) =>
        sample := bbr.Ack(p, size);
      case LostEvent(p, size) =>
        bbr.Lost(p, size);
    }
  }

  /** What happens otherwise. */
  method StepOther(bbr: Bbr, e: Event) returns (ghost sample: Option<BwSample>)
    requires bbr.Valid() && InBracket(e, bbr.inAck, bbr.ack.time) && !(e.SentEvent? || e.AckEvent? || e.LostEvent?)
    modifies bbr, bbr.sampler
    ensures bbr.Valid()
    ensures bbr.inAck == InAckAfter(e, old(bbr.inAck))
    ensures bbr.ack.time == if e.BeginAckEvent? then e.time else old(bbr.ack.time)
    ensures Logged(old(bbr.log), bbr.log, e, old(bbr.ack.time))
    ensures e.EndAckEvent? ==> RecordShows(bbr.log, |old(bbr.log)|, bbr.GetCwnd(), NewSamples(old(bbr.ack)))
    ensures SamplerMoves(old(bbr.sampler.Seen()), bbr.sampler.Seen(), e, old(bbr.ack.time), sample)
    ensures AckMoves(old(bbr.ack.samples), old(bbr.ack.ackedBytes), bbr.ack.samples, bbr.ack.ackedBytes, e, sample)
  {
    sample := None;
    match e {
      case BeginAckEvent(time, inFlight) =>
        bbr.BeginAck(time, inFlight);
      case EndAckEvent(inFlight) =>
        ghost var _ := bbr.EndAck(inFlight);
      case ReinitEvent =>
        bbr.Reinit();
      case RttEvent(minRtt) =>
        bbr.rttStatsMin := minRtt;
    }
  }

  method Step(bbr: Bbr, e: Event) returns (ghost sample: Option<BwSample>)
    requires bbr.Valid() && InBracket(e, bbr.inAck, bbr.ack.time)
    modifies bbr, bbr.sampler
    ensures bbr.Valid()
    ensures bbr.inAck == InAckAfter(e, old(bbr.inAck))
    ensures bbr.ack.time == if e.BeginAckEvent? then e.time else old(bbr.ack.time)
    ensures Logged(old(bbr.log), bbr.log, e, old(bbr.ack.time))
    ensures e.EndAckEvent? ==> RecordShows(bbr.log, |old(bbr.log)|, bbr.GetCwnd(), NewSamples(old(bbr.ack)))
    ensures SamplerMoves(old(bbr.sampler.Seen()), bbr.sampler.Seen(), e, old(bbr.ack.time), sample)
    ensures AckMoves(old(bbr.ack.samples), old(bbr.ack.ackedBytes), bbr.ack.samples, bbr.ack.ackedBytes, e, sample)
  {
    if e.SentEvent? || e.AckEvent? || e.LostEvent? {
      sample := StepPacket(bbr, e);
    } else {
      sample := StepOther(bbr, e);
    }
  }

  lemma BracketedMore(events: seq<Event>, e: Event, rest: seq<Event>, inAck: bool, time: nat)
    requires events == [e] + rest && Bracketed(events, inAck, time)
    ensures InBracket(e, inAck, time) && Bracketed(rest, InAckAfter(e, inAck), if e.BeginAckEvent? then e.time else time)
  {
    assert events[1..] == rest;
  }

  /** The samples come from these steps of the sampler. */
  ghost predicate Sampled(views: seq<View>, events: seq<Event>, t: nat, samples: seq<Option<BwSample>>) {
    && |views| == |events| + 1 && |samples| == |events|
    && forall i | 0 <= i < |events| :: SamplerMoves(views[i], views[i + 1], events[i], TimeAfter(events[..i], t), samples[i])
  }

  /** What the log, the windows and the samples show of the events so far. */
  ghost predicate Tracks(log: seq<Record>, windows: seq<nat>, samples: seq<Option<BwSample>>, events: seq<Event>, t: nat) {
    && |windows| == |samples| == |events|
    && Marked(log, MarksFor(events, t))
    && RecordsLogged(log, events, t, windows, samples)
  }

  lemma MarksMore(events: seq<Event>, t: nat, e: Event, more: seq<Event>, time: nat)
    requires more == events + [e] && time == TimeAfter(events, t)
    ensures MarksFor(more, t) == MarksFor(events, t) + MarkFor(e, time)
    ensures TimeAfter(more, t) == if e.BeginAckEvent? then e.time else time
  {
    assert more[..|more| - 1] == events;
  }

  lemma MarkedMore(log: seq<Record>, marks: seq<Option<nat>>, log': seq<Record>, e: Event, time: nat, marks': seq<Option<nat>>)
    requires Marked(log, marks) && Logged(log, log', e, time) && marks' == marks + MarkFor(e, time)
    ensures Marked(log', marks')
    ensures |log| <= |log'| && forall i | 0 <= i < |log| :: log'[i] == log[i]
  {
    assert forall i | 0 <= i < |log| :: log'[i] == log[i] by {
      assert log'[..|log|] == log;
    }
  }

  lemma RecordsMore(log: seq<Record>, windows: seq<nat>, samples: seq<Option<BwSample>>, events: seq<Event>, t: nat,
                    e: Event, more: seq<Event>, log': seq<Record>, w: nat, windows': seq<nat>, s: Option<BwSample>,
                    samples': seq<Option<BwSample>>)
    requires |windows| == |samples| == |events| && RecordsLogged(log, events, t, windows, samples)
    requires more == events + [e] && windows' == windows + [w] && samples' == samples + [s] && |log| == |MarksFor(events, t)|
    requires |log| <= |log'| && forall i | 0 <= i < |log| :: log'[i] == log[i]
    requires e.EndAckEvent? ==> RecordShows(log', |log|, w, Brought(events, samples))
    ensures RecordsLogged(log', more, t, windows', samples')
  {
    forall i | 0 <= i < |more| && more[i].EndAckEvent?
      ensures RecordShows(log', |MarksFor(more[..i], t)|, windows'[i], Brought(more[..i], samples'[..i]))
    {
      if i < |events| {
        assert more[..i] == events[..i] && more[i] == events[i] && samples'[..i] == samples[..i];
      } else {
        assert more[..i] == events && samples'[..i] == samples;
      }
    }
  }

  lemma TracksMore(log: seq<Record>, windows: seq<nat>, samples: seq<Option<BwSample>>, events: seq<Event>, t: nat,
                   e: Event, more: seq<Event>, log': seq<Record>, w: nat, windows': seq<nat>, s: Option<BwSample>,
                   samples': seq<Option<BwSample>>, time: nat)
    requires Tracks(log, windows, samples, events, t) && more == events + [e] && windows' == windows + [w] && samples' == samples + [s]
    requires time == TimeAfter(events, t) && Logged(log, log', e, time)
    requires e.EndAckEvent? ==> RecordShows(log', |log|, w, Brought(events, samples))
    ensures Tracks(log', windows', samples', more, t)
    ensures TimeAfter(more, t) == if e.BeginAckEvent? then e.time else time
  {
    MarksMore(events, t, e, more, time);
    MarkedMore(log, MarksFor(events, t), log', e, time, MarksFor(more, t));
    RecordsMore(log, windows, samples, events, t, e, more, log', w, windows', s, samples');
  }

  /** The acknowledgement under way has what was gathered since it began. */
  ghost predicate Gathers(inAck: bool, samples: seq<BwSample>, bytes: nat, events: seq<Event>, all: seq<Option<BwSample>>) {
    inAck ==> |all| == |events| && samples == Gathered(events, all) && bytes == BytesGathered(events)
  }

  lemma GathersMore(inAck: bool, samples: seq<BwSample>, bytes: nat, events: seq<Event>, all: seq<Option<BwSample>>,
                    inAck': bool, samples': seq<BwSample>, bytes': nat, e: Event, s: Option<BwSample>,
                    more: seq<Event>, all': seq<Option<BwSample>>)
    requires Gathers(inAck, samples, bytes, events, all) && AckMoves(samples, bytes, samples', bytes', e, s)
    requires more == events + [e] && all' == all + [s] && |all| == |events| && (inAck' ==> inAck || e.BeginAckEvent?)
    ensures Gathers(inAck', samples', bytes', more, all')
  {
    assert more[..|events|] == events && all'[..|events|] == all;
  }

  lemma SampledMore(views: seq<View>, events: seq<Event>, t: nat, samples: seq<Option<BwSample>>, e: Event, more: seq<Event>,
                    v: View, v': View, views': seq<View>, s: Option<BwSample>, samples': seq<Option<BwSample>>)
    requires Sampled(views, events, t, samples) && more == events + [e] && views' == views + [v'] && samples' == samples + [s]
    requires v == views[|events|] && SamplerMoves(v, v', e, TimeAfter(events, t), s)
    ensures Sampled(views', more, t, samples')
  {
    forall i | 0 <= i < |more|
      ensures SamplerMoves(views'[i], views'[i + 1], more[i], TimeAfter(more[..i], t), samples'[i])
    {
      if i < |events| {
        assert more[..i] == events[..i] && more[i] == events[i];
      } else {
        assert more[..i] == events;
      }
    }
  }

  /** The windows that senders saw are within the limits. */
  ghost predicate WithinLimits(windows: seq<nat>, basedOnBdp: bool) {
    forall i | 0 <= i < |windows| :: MIN_CWND <= windows[i] && (basedOnBdp || windows[i] <= MAX_CWND)
  }

  lemma NextEvent(events: seq<Event>, i: nat)
    requires i <= |events|
    ensures i < |events| ==> events[i..] == [events[i]] + events[i + 1..] && events[..i + 1] == events[..i] + [events[i]]
    ensures events[..0] == [] && events[0..] == events && events[..|events|] == events
  {
  }

  /** What holds of a run after `i` of its events. */
  ghost predicate Underway(events: seq<Event>, i: nat, inAck: bool, ack: AckState, log: seq<Record>, windows: seq<nat>,
                           samples: seq<Option<BwSample>>, views: seq<View>, v0: View, v: View, t: nat, basedOnBdp: bool, cwnd: nat)
  {
    && (i > 0 && i == |windows| ==> windows[i - 1] == cwnd)
    && i == |windows| <= |events| && |views| == i + 1 && views[0] == v0 && views[i] == v && Bracketed(events[i..], inAck, ack.time)
    && ack.time == TimeAfter(events[..i], t) && Tracks(log, windows, samples, events[..i], t)
    && Gathers(inAck, ack.samples, ack.ackedBytes, events[..i], samples)
    && Sampled(views, events[..i], t, samples)
    && WithinLimits(windows, basedOnBdp)
  }

  lemma NothingYet(events: seq<Event>, ack: AckState, v: View, basedOnBdp: bool, cwnd: nat)
    requires Bracketed(events, false, ack.time)
    ensures Underway(events, 0, false, ack, [], [], [], [v], v, v, ack.time, basedOnBdp, cwnd)
  {
    NextEvent(events, 0);
  }

  lemma UnderwayMore(events: seq<Event>, i: nat, inAck: bool, ack: AckState, log: seq<Record>, windows: seq<nat>,
                     samples: seq<Option<BwSample>>, views: seq<View>, v0: View, v: View, t: nat, basedOnBdp: bool, cwnd: nat,
                     e: Event, s: Option<BwSample>, inAck': bool, ack': AckState, log': seq<Record>, windows': seq<nat>,
                     samples': seq<Option<BwSample>>, views': seq<View>, v': View, w: nat)
    requires i < |events| && e == events[i]
    requires Underway(events, i, inAck, ack, log, windows, samples, views, v0, v, t, basedOnBdp, cwnd)
    requires inAck' == InAckAfter(e, inAck) && ack'.time == (if e.BeginAckEvent? then e.time else ack.time)
    requires Logged(log, log', e, ack.time) && (e.EndAckEvent? ==> RecordShows(log', |log|, w, NewSamples(ack)))
    requires SamplerMoves(v, v', e, ack.time, s)
    requires AckMoves(ack.samples, ack.ackedBytes, ack'.samples, ack'.ackedBytes, e, s)
    requires windows' == windows + [w] && samples' == samples + [s] && views' == views + [v']
    requires MIN_CWND <= w && (!basedOnBdp ==> w <= MAX_CWND)
    ensures Underway(events, i + 1, inAck', ack', log', windows', samples', views', v0, v', t, basedOnBdp, w)
  {
    var past, rest, more := events[..i], events[i + 1..], events[..i + 1];
    NextEvent(events, i);
    BracketedMore(events[i..], e, rest, inAck, ack.time);
    TracksMore(log, windows, samples, past, t, e, more, log', w, windows', s, samples', ack.time);
    GathersMore(inAck, ack.samples, ack.ackedBytes, past, samples, inAck', ack'.samples, ack'.ackedBytes, e, s, more, samples');
    SampledMore(views, past, t, samples, e, more, v, v', views', s, samples');
  }

  lemma UnderwayBracketed(events: seq<Event>, i: nat, inAck: bool, time: nat)
    requires i < |events| && Bracketed(events[i..], inAck, time)
    ensures InBracket(events[i], inAck, time)
  {
  }

  /** Takes in the event at `i`, and adds the window after it. */
  method StepAt(bbr: Bbr, events: seq<Event>, i: nat, windows: seq<nat>, ghost samples: seq<Option<BwSample>>,
                ghost views: seq<View>, ghost v0: View, ghost t: nat)
    returns (windows': seq<nat>, ghost samples': seq<Option<BwSample>>, ghost views': seq<View>)
    requires bbr.Valid() && i < |events|
    requires Underway(events, i, bbr.inAck, bbr.ack, bbr.log, windows, samples, views, v0, bbr.sampler.Seen(), t,
                      bbr.options.probeRttBasedOnBdp, bbr.GetCwnd())
    modifies bbr, bbr.sampler
    ensures bbr.Valid()
    ensures Underway(events, i + 1, bbr.inAck, bbr.ack, bbr.log, windows', samples', views', v0, bbr.sampler.Seen(), t,
                     bbr.options.probeRttBasedOnBdp, bbr.GetCwnd())
  {
    var e := events[i];
    ghost var log, ack, inAck, v, cwnd := bbr.log, bbr.ack, bbr.inAck, bbr.sampler.Seen(), bbr.GetCwnd();
    ghost var basedOnBdp := bbr.options.probeRttBasedOnBdp;
    UnderwayBracketed(events, i, inAck, ack.time);
    ghost var s := Step(bbr, e);
    var w := bbr.GetCwnd();
    ghost var log', ack', inAck', v' := bbr.log, bbr.ack, bbr.inAck, bbr.sampler.Seen();
    windows' := windows + [w];
    samples', views' := samples + [s], views + [v'];
    UnderwayMore(events, i, inAck, ack, log, windows, samples, views, v0, v, t, basedOnBdp, cwnd,
                 e, s, inAck', ack', log', windows', samples', views', v', w);
  }

  /**
   Any run, with any options.  The windows that senders see are within the limits, but for
   PROBE_RTT with a window taken from the bandwidth; the log shows every acknowledgement, with its samples, and every
   restart; every change of mode in it is in order, and every window belongs to its state; and the bandwidth filter is
   the one that the samples in the log make.  `views` are what the sampler knew from event to event.
   */
  method Run(bbr: Bbr, events: seq<Event>)
    returns (windows: seq<nat>, ghost samples: seq<Option<BwSample>>, ghost views: seq<View>)
    requires bbr.Valid() && !bbr.inAck && bbr.log == [] && Bracketed(events, false, bbr.ack.time)
    modifies bbr, bbr.sampler
    ensures bbr.Valid()
    ensures |windows| == |events| && (windows != [] ==> windows[|windows| - 1] == bbr.GetCwnd())
    ensures forall i | 0 <= i < |windows| :: MIN_CWND <= windows[i]
    ensures !bbr.options.probeRttBasedOnBdp ==> forall i | 0 <= i < |windows| :: windows[i] <= MAX_CWND
    ensures LogOk(bbr.log) && Tracks(bbr.log, windows, samples, events, old(bbr.ack.time))
    ensures WindowsShown(bbr.log, bbr.options.rateBasedStartup, bbr.options.probeRttBasedOnBdp)
    ensures bbr.model.bandwidth == FilterOf(bbr.log) && bbr.model.round == Rounds(bbr.log)
    ensures Sampled(views, events, old(bbr.ack.time), samples)
    ensures views[0] == old(bbr.sampler.Seen()) && views[|events|] == bbr.sampler.Seen()
  {
    ghost var t := bbr.ack.time;
    windows, samples, views := RunAll(bbr, events);
    assert events[..|events|] == events;
  }

  method RunAll(bbr: Bbr, events: seq<Event>)
    returns (windows: seq<nat>, ghost samples: seq<Option<BwSample>>, ghost views: seq<View>)
    requires bbr.Valid() && !bbr.inAck && bbr.log == [] && Bracketed(events, false, bbr.ack.time)
    modifies bbr, bbr.sampler
    ensures bbr.Valid()
    ensures Underway(events, |events|, bbr.inAck, bbr.ack, bbr.log, windows, samples, views, old(bbr.sampler.Seen()),
                     bbr.sampler.Seen(), old(bbr.ack.time), bbr.options.probeRttBasedOnBdp, bbr.GetCwnd())
  {
    windows := [];
    var i := 0;
    ghost var t, v0, ack, basedOnBdp := bbr.ack.time, bbr.sampler.Seen(), bbr.ack, bbr.options.probeRttBasedOnBdp;
    samples, views := [], [v0];
    NothingYet(events, ack, v0, basedOnBdp, bbr.GetCwnd());
    while i < |events|
      invariant i <= |events| && bbr.Valid()
      invariant Underway(events, i, bbr.inAck, bbr.ack, bbr.log, windows, samples, views, v0, bbr.sampler.Seen(), t, basedOnBdp,
                         bbr.GetCwnd())
    {
      windows, samples, views := StepAt(bbr, events, i, windows, samples, views, v0, t);
      i := i + 1;
    }
  }
}
