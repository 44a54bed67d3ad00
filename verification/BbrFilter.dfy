/** The bandwidth filter of a run: a windowed maximum over the samples of all its acknowledgements. */
module BbrFilter {
  import opened WindowedMax
  import opened BandwidthSampler
  import opened BbrRules

  /** The samples that count since the last restart, with their rounds. */
  ghost function CountedOf(log: seq<Record>): seq<Sample> {
    if log == [] || log[|log| - 1].Restarted? then []
    else
      var init, r := log[..|log| - 1], log[|log| - 1];
      CountedOf(init) + CountedIn(FilterOf(init), r.round, r.samples)
  }

  lemma FilterOne(window: nat, log: seq<Sample>, x: Sample, more: seq<Sample>)
    requires more == log + [x]
    ensures Filter(window, more) == Filter(window, log).UpdateMax(x.time, x.value)
  {
    assert more[..|more| - 1] == log;
  }

  lemma {:induction false} FedIsFilter(past: seq<Sample>, round: nat, samples: seq<BwSample>, m: MinMax)
    requires m == Filter(10, past)
    ensures Fed(m, round, samples) == Filter(10, past + CountedIn(m, round, samples))
  {
    if samples == [] {
      assert past + [] == past;
    } else {
      var init, s := samples[..|samples| - 1], samples[|samples| - 1];
      FedIsFilter(past, round, init, m);
      var before, counted := past + CountedIn(m, round, init), CountedIn(m, round, samples);
      if Counts(Fed(m, round, init), s) {
        var x := Sample(round, s.bandwidth);
        assert past + counted == before + [x];
        FilterOne(10, before, x, before + [x]);
      } else {
        assert past + counted == before;
      }
    }
  }

  /** What the log makes of the filter is the windowed maximum, over ten rounds, of the samples that count. */
  lemma {:induction false} FilterIsWindowed(log: seq<Record>)
    ensures FilterOf(log) == Filter(10, CountedOf(log))
  {
    if log != [] && log[|log| - 1].Acked? {
      var init, r := log[..|log| - 1], log[|log| - 1];
      FilterIsWindowed(init);
      FedIsFilter(CountedOf(init), r.round, r.samples, FilterOf(init));
    }
  }

  lemma {:induction false} CountedInRound(m: MinMax, round: nat, samples: seq<BwSample>, k: nat) returns (j: nat)
    requires k < |CountedIn(m, round, samples)|
    ensures j < |samples| && CountedIn(m, round, samples)[k] == Sample(round, samples[j].bandwidth)
  {
    var init := samples[..|samples| - 1];
    if k < |CountedIn(m, round, init)| {
      j := CountedInRound(m, round, init, k);
    } else {
      j := |samples| - 1;
    }
  }

  /** Record `i` is an acknowledgement since the last restart. */
  ghost predicate Since(log: seq<Record>, i: nat) {
    i < |log| && forall l | i <= l < |log| :: log[l].Acked?
  }

  /** Every one that counts is a sample of an acknowledgement since the last restart, in its round. */
  lemma {:induction false} CountedFrom(log: seq<Record>, k: nat) returns (i: nat, j: nat)
    requires k < |CountedOf(log)|
    ensures Since(log, i) && j < |log[i].samples| && CountedOf(log)[k] == Sample(log[i].round, log[i].samples[j].bandwidth)
  {
    var init, r := log[..|log| - 1], log[|log| - 1];
    var n := |CountedOf(init)|;
    if k < n {
      i, j := CountedFrom(init, k);
      assert forall l | i <= l < |init| :: init[l] == log[l];
    } else {
      i := |log| - 1;
      j := CountedInRound(FilterOf(init), r.round, r.samples, k - n);
    }
  }

  /** Rounds go up. */
  lemma {:induction false} RoundsGoUp(log: seq<Record>, k: nat)
    requires LogOk(log) && k < |CountedOf(log)|
    ensures CountedOf(log)[k].time <= Rounds(log)
  {
    var init, r := log[..|log| - 1], log[|log| - 1];
    var n := |CountedOf(init)|;
    if k < n {
      RoundsGoUp(init, k);
    } else {
      var _ := CountedInRound(FilterOf(init), r.round, r.samples, k - n);
    }
  }

  lemma {:induction false} CountedMonotone(log: seq<Record>)
    requires LogOk(log)
    ensures Monotone(CountedOf(log))
  {
    if log != [] && log[|log| - 1].Acked? {
      var init, r, all := log[..|log| - 1], log[|log| - 1], CountedOf(log);
      var n := |CountedOf(init)|;
      CountedMonotone(init);
      forall a, b | 0 <= a <= b < |all|
        ensures all[a].time <= all[b].time
      {
        if b < n {
          assert CountedOf(init)[a].time <= CountedOf(init)[b].time;
        } else {
          var _ := CountedInRound(FilterOf(init), r.round, r.samples, b - n);
          RoundsGoUp(log, a);
        }
      }
    }
  }

  /**
   What the filter shows after any run is the bandwidth of a sample of an acknowledgement since the last restart, not more
   than ten rounds before the last sample that counts.
   */
  lemma ShownIsSample(log: seq<Record>) returns (i: nat, j: nat)
    requires LogOk(log) && CountedOf(log) != []
    ensures Measured(10, CountedOf(log), FilterOf(log))
    ensures Since(log, i) && j < |log[i].samples| && log[i].samples[j].bandwidth == FilterOf(log).Get()
    ensures CountedOf(log)[|CountedOf(log)| - 1].time - 10 <= log[i].round
  {
    var all, m := CountedOf(log), FilterOf(log);
    FilterIsWindowed(log);
    CountedMonotone(log);
    FilterIsMeasured(10, all);
    var k :| 0 <= k < |all| && all[k] == m.s0;
    i, j := CountedFrom(log, k);
  }

  /** It is the maximum of the window under the condition of the windowed maximum. */
  lemma ShownIsMaximum(log: seq<Record>)
    requires LogOk(log) && CountedOf(log) != []
    ensures var all, m := CountedOf(log), FilterOf(log);
            IsMaximum(10, all, m.Get()) <==>
            forall k | 0 <= k < |all| && InWindow(10, all, k) && all[k].time <= m.s0.time :: all[k].value <= m.Get()
  {
    FilterIsWindowed(log);
    CountedMonotone(log);
    MaximumExactly(10, CountedOf(log), FilterOf(log));
  }

  /** The choices are in order, and none is later than now. */
  lemma FilterSorted(past: seq<Sample>, now: nat)
    requires Monotone(past) && forall k | 0 <= k < |past| :: past[k].time <= now
    ensures Sorted(Filter(10, past), now) && Filter(10, past).window == 10
  {
    if past != [] {
      FilterIsMeasured(10, past);
      LeaderIsPast(past, Filter(10, past).s2, now);
    }
  }

  /** After some samples of a round the filter shows no less than those of them that count. */
  lemma {:induction false} FedShows(m: MinMax, round: nat, samples: seq<BwSample>)
    requires Sorted(m, round) && m.window == 10
    ensures var m', counted := Fed(m, round, samples), CountedIn(m, round, samples);
            && Sorted(m', round) && m'.window == 10
            && (counted != [] ==> round - m'.s0.time <= 10)
            && forall k | 0 <= k < |counted| :: counted[k].value <= m'.Get()
  {
    if samples != [] {
      var init, s := samples[..|samples| - 1], samples[|samples| - 1];
      var m1, m2, before := Fed(m, round, init), Fed(m, round, samples), CountedIn(m, round, init);
      FedShows(m, round, init);
      if Counts(m1, s) {
        OneShows(m1, Sample(round, s.bandwidth), m2, before != []);
      } else {
        assert CountedIn(m, round, samples) == before;
      }
    }
  }

  lemma OneShows(m: MinMax, x: Sample, m': MinMax, recent: bool)
    requires Sorted(m, x.time) && m.window == 10 && m' == m.UpdateMax(x.time, x.value) && (recent ==> x.time - m.s0.time <= 10)
    ensures Sorted(m', x.time) && m'.window == 10 && x.time - m'.s0.time <= 10 && x.value <= m'.Get()
    ensures recent ==> m.Get() <= m'.Get()
  {
    UpdateShape(m, x, m', iset s: Sample | s.time <= x.time);
    FirstChoice(m, x, m');
  }

  /** What the filter shows is no less than any sample that counts of the last acknowledgement. */
  lemma NewSamplesShown(log: seq<Record>, k: nat)
    requires LogOk(log) && log != [] && log[|log| - 1].Acked?
    requires var r, before := log[|log| - 1], FilterOf(log[..|log| - 1]); k < |CountedIn(before, r.round, r.samples)|
    ensures var r, before := log[|log| - 1], FilterOf(log[..|log| - 1]);
            CountedIn(before, r.round, r.samples)[k].value <= FilterOf(log).Get()
  {
    var init, r := log[..|log| - 1], log[|log| - 1];
    FilterIsWindowed(init);
    CountedMonotone(init);
    forall l | 0 <= l < |CountedOf(init)|
      ensures CountedOf(init)[l].time <= r.round
    {
      RoundsGoUp(init, l);
    }
    FilterSorted(CountedOf(init), r.round);
    FedShows(FilterOf(init), r.round, r.samples);
  }
}
