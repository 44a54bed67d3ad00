/** The windowed maximum of Kathleen Nichols: three samples instead of the whole window. */
module WindowedMax {

  datatype Sample = Sample(time: nat, value: nat)

  /** Best, second best and third best sample. */
  datatype MinMax = MinMax(window: nat, s0: Sample, s1: Sample, s2: Sample) {
    function Get(): nat { s0.value }

    function Reset(s: Sample): MinMax { MinMax(window, s, s, s) }

    function Expire(s: Sample): MinMax {
      var once := MinMax(window, s1, s2, s);
      if s.time - once.s0.time > window then MinMax(window, once.s1, once.s2, s) else once
    }

    /** As time advances, replaces choices that have become too old. */
    function SubwinUpdate(s: Sample): MinMax {
      var dt := s.time - s0.time;
      if dt > window then Expire(s)
      else if s1.time == s0.time && dt > window / 4 then MinMax(window, s0, s, s)
      else if s2.time == s1.time && dt > window / 2 then MinMax(window, s0, s1, s)
      else this
    }

    function UpdateMax(now: nat, value: nat): MinMax {
      var s := Sample(now, value);
      if s0.value == 0 || value >= s0.value || now - s2.time > window then Reset(s)
      else if value >= s1.value then MinMax(window, s0, s, s).SubwinUpdate(s)
      else if value >= s2.value then MinMax(window, s0, s1, s).SubwinUpdate(s)
      else SubwinUpdate(s)
    }
  }

  function Init(window: nat): MinMax {
    MinMax(window, Sample(0, 0), Sample(0, 0), Sample(0, 0))
  }

  /** The filter after a sequence of measurements. */
  function Filter(window: nat, log: seq<Sample>): MinMax {
    if log == [] then Init(window)
    else
      var last := log[|log| - 1];
      Filter(window, log[..|log| - 1]).UpdateMax(last.time, last.value)
  }

  /** Times do not go back. */
  ghost predicate Monotone(log: seq<Sample>) {
    forall i, j | 0 <= i <= j < |log| :: log[i].time <= log[j].time
  }

  /** `s` was measured, and nothing measured later is greater. */
  ghost predicate Leads(log: seq<Sample>, s: Sample) {
    exists i | 0 <= i < |log| :: log[i] == s && forall j | i <= j < |log| :: log[j].value <= s.value
  }

  /** What the three choices keep to. */
  ghost predicate Choices(log: seq<Sample>, m: MinMax) {
    && Leads(log, m.s0) && Leads(log, m.s1) && Leads(log, m.s2)
    && m.s0.time <= m.s1.time <= m.s2.time
    && m.s2.value <= m.s1.value <= m.s0.value
  }

  lemma LeadsStill(log: seq<Sample>, s: Sample, x: Sample, more: seq<Sample>)
    requires Leads(log, s) && more == log + [x] && x.value <= s.value
    ensures Leads(more, s)
  {
    var i :| 0 <= i < |log| && log[i] == s && forall j | i <= j < |log| :: log[j].value <= s.value;
    assert more[i] == s;
    assert forall j | i <= j < |more| :: more[j].value <= s.value;
  }

  lemma LastLeads(log: seq<Sample>, x: Sample, more: seq<Sample>)
    requires more == log + [x]
    ensures Leads(more, x)
  {
    assert more[|log|] == x;
  }

  lemma LeaderIsPast(log: seq<Sample>, s: Sample, now: nat)
    requires Leads(log, s) && forall i | 0 <= i < |log| :: log[i].time <= now
    ensures s.time <= now
  {
  }

  /** The new choices are old ones, not smaller than the new measurement, or the new one. */
  lemma UpdateShape(m: MinMax, x: Sample, m': MinMax, good: iset<Sample>)
    requires m' == m.UpdateMax(x.time, x.value) && x in good
    requires x.value <= m.s0.value ==> m.s0 in good
    requires x.value <= m.s1.value ==> m.s1 in good
    requires x.value <= m.s2.value ==> m.s2 in good
    requires m.s0.time <= m.s1.time <= m.s2.time <= x.time
    requires m.s2.value <= m.s1.value <= m.s0.value
    ensures m'.s0 in good && m'.s1 in good && m'.s2 in good
    ensures m'.s0.time <= m'.s1.time <= m'.s2.time
    ensures m'.s2.value <= m'.s1.value <= m'.s0.value
    ensures x.time - m'.s0.time <= m.window && m'.window == m.window && x.value <= m'.Get()
  {
  }

  /** Sorted by time and by value. */
  ghost predicate Sorted(m: MinMax, now: nat) {
    m.s0.time <= m.s1.time <= m.s2.time <= now && m.s2.value <= m.s1.value <= m.s0.value
  }

  /** `s` is still in the window and exceeds the new measurement. */
  ghost predicate Lasts(m: MinMax, s: Sample, x: Sample) {
    x.time - m.window <= s.time && s.value > x.value
  }

  /** The first choice becomes the first of the three that lasts, and the new measurement if none does. */
  lemma FirstChoice(m: MinMax, x: Sample, m': MinMax)
    requires Sorted(m, x.time) && m' == m.UpdateMax(x.time, x.value)
    ensures m'.s0 == if Lasts(m, m.s0, x) then m.s0 else if Lasts(m, m.s1, x) then m.s1 else if Lasts(m, m.s2, x) then m.s2 else x
  {
  }

  /**
   While the first choice lasts, the second is replaced by a measurement not smaller, or once a
   quarter of the window has passed if it is as old as the first; and the third likewise, or once
   half the window has passed if it is as old as the second.  So a second choice comes from behind the
   first quarter and a third from behind the first half.
   */
  lemma OtherChoices(m: MinMax, x: Sample, m': MinMax)
    requires Sorted(m, x.time) && m' == m.UpdateMax(x.time, x.value) && Lasts(m, m.s0, x)
    ensures var dt := x.time - m.s0.time;
            var second := x.value >= m.s1.value || (m.s1.time == m.s0.time && 4 * dt > m.window);
            && m'.s1 == (if second then x else m.s1)
            && m'.s2 == (if second || x.value >= m.s2.value || (m.s2.time == m.s1.time && 2 * dt > m.window) then x else m.s2)
            && (4 * dt > m.window ==> m'.s1.time > m'.s0.time)
            && (2 * dt > m.window ==> m'.s2.time > m'.s1.time || m'.s1.time == x.time)
  {
  }

  lemma UpdateKeeps(log: seq<Sample>, m: MinMax, x: Sample, more: seq<Sample>, m': MinMax)
    requires Choices(log, m) && more == log + [x] && m' == m.UpdateMax(x.time, x.value)
    requires forall i | 0 <= i < |log| :: log[i].time <= x.time
    ensures Choices(more, m')
    ensures x.time - m'.s0.time <= m.window && m'.window == m.window && x.value <= m'.Get()
  {
    var good := iset s | Leads(more, s);
    assert x in good by { LastLeads(log, x, more); }
    assert x.value <= m.s0.value ==> m.s0 in good by { if x.value <= m.s0.value { LeadsStill(log, m.s0, x, more); } }
    assert x.value <= m.s1.value ==> m.s1 in good by { if x.value <= m.s1.value { LeadsStill(log, m.s1, x, more); } }
    assert x.value <= m.s2.value ==> m.s2 in good by { if x.value <= m.s2.value { LeadsStill(log, m.s2, x, more); } }
    LeaderIsPast(log, m.s2, x.time);
    UpdateShape(m, x, m', good);
  }

  /**
   After every measurement the filter shows a value that was really measured, within
   the window, that nothing measured since exceeds.
   */
  lemma {:induction false} FilterIsMeasured(window: nat, log: seq<Sample>)
    requires Monotone(log) && log != []
    ensures Measured(window, log, Filter(window, log))
  {
    var init, last := log[..|log| - 1], log[|log| - 1];
    var m, m' := Filter(window, init), Filter(window, log);
    assert log == init + [last] && m' == m.UpdateMax(last.time, last.value);
    if init == [] {
      LastLeads(init, last, log);
    } else {
      FilterIsMeasured(window, init);
      UpdateKeeps(init, m, last, log, m');
      LeaderIsPast(log, m'.s0, last.time);
    }
  }

  /** What `m` shows was measured within the window, is at least the last value, and nothing since exceeds it. */
  ghost predicate Measured(window: nat, log: seq<Sample>, m: MinMax)
    requires log != []
  {
    var last := log[|log| - 1];
    && Choices(log, m) && m.window == window
    && last.time - window <= m.s0.time <= last.time
    && last.value <= m.Get()
  }

  // ---------- When the filter shows the maximum ----------

  /** Sample `i` lies in the window that ends with the last sample. */
  ghost predicate InWindow(window: nat, log: seq<Sample>, i: nat)
    requires i < |log|
  {
    log[|log| - 1].time - window <= log[i].time
  }

  /** `v` is the maximum of the window. */
  ghost predicate IsMaximum(window: nat, log: seq<Sample>, v: nat) {
    && (exists i | 0 <= i < |log| :: InWindow(window, log, i) && log[i].value == v)
    && (forall i | 0 <= i < |log| && InWindow(window, log, i) :: log[i].value <= v)
  }

  /**
   The filter shows the maximum of the window if and only if no sample of the window that
   was taken no later than its first choice exceeds that choice.
   */
  lemma MaximumExactly(window: nat, log: seq<Sample>, m: MinMax)
    requires Monotone(log) && log != [] && m == Filter(window, log)
    ensures IsMaximum(window, log, m.Get()) <==>
            forall i | 0 <= i < |log| && InWindow(window, log, i) && log[i].time <= m.s0.time :: log[i].value <= m.Get()
  {
    FilterIsMeasured(window, log);
    var k :| 0 <= k < |log| && log[k] == m.s0 && forall j | k <= j < |log| :: log[j].value <= m.s0.value;
    assert InWindow(window, log, k);
    forall i | 0 <= i < |log| && log[i].time > m.s0.time
      ensures log[i].value <= m.Get()
    {
      assert k <= i;
    }
  }

  /** The maximum is lost only when the first choice has become too old. */
  lemma MaximumKept(window: nat, log: seq<Sample>, m: MinMax, x: Sample, more: seq<Sample>, m': MinMax)
    requires Monotone(more) && log != [] && more == log + [x]
    requires m == Filter(window, log) && m' == Filter(window, more)
    requires IsMaximum(window, log, m.Get()) && x.time - m.s0.time <= window
    ensures IsMaximum(window, more, m'.Get())
  {
    assert Monotone(log) by {
      assert forall i | 0 <= i < |log| :: more[i] == log[i];
    }
    assert more[..|log|] == log && more[|log|] == x;
    FilterIsMeasured(window, log);
    KeepsOrTakes(m, x, m.UpdateMax(x.time, x.value));
    forall i | 0 <= i < |more| && InWindow(window, more, i)
      ensures more[i].value <= m'.Get()
    {
      if i < |log| {
        assert log[|log| - 1].time <= x.time by {
          assert more[|log| - 1].time <= more[|log|].time;
        }
        assert InWindow(window, log, i);
      }
    }
    if m'.s0 == x {
      assert InWindow(window, more, |log|);
    } else {
      var k :| 0 <= k < |log| && log[k] == m.s0 && forall j | k <= j < |log| :: log[j].value <= m.s0.value;
      assert more[k] == m.s0 && InWindow(window, more, k);
    }
  }

  /** While the first choice is in the window, it stays or gives way to a value not smaller. */
  lemma KeepsOrTakes(m: MinMax, x: Sample, m': MinMax)
    requires m' == m.UpdateMax(x.time, x.value) && x.time - m.s0.time <= m.window
    requires m.s0.time <= m.s1.time <= m.s2.time <= x.time
    ensures (m'.s0 == x && (x.value >= m.s0.value || m.s0.value == 0)) || (m'.s0 == m.s0 && x.value < m.s0.value)
  {
  }

  /**
   It can be lost: 50 was measured in the window, which ends with 30, but the filter
   shows 40.
   */
  lemma MaximumMissed(log: seq<Sample>)
    requires log == [Sample(0, 100), Sample(1, 50), Sample(3, 40), Sample(11, 30)]
    ensures Monotone(log) && Filter(10, log).Get() == 40
    ensures InWindow(10, log, 1) && log[1].value == 50 && !IsMaximum(10, log, Filter(10, log).Get())
  {
    var l1, l2, l3 := log[..1], log[..2], log[..3];
    assert l1[..0] == [] && l2[..1] == l1 && l3[..2] == l2;
    var first, third := Sample(0, 100), Sample(3, 40);
    assert Filter(10, l1) == MinMax(10, first, first, first);
    assert Filter(10, l2) == MinMax(10, first, first, first);
    assert Filter(10, l3) == MinMax(10, first, third, third);
    assert Filter(10, log) == MinMax(10, third, third, Sample(11, 30));
    assert InWindow(10, log, 1);
  }

  /**
   Samples of the same time as the first choice count too: nothing older than the choice
   is left in the window, but of two samples of one time it is the second and smaller one.
   */
  lemma MaximumMissedInSameRound(log: seq<Sample>)
    requires log == [Sample(0, 9), Sample(2, 8), Sample(5, 7), Sample(5, 6), Sample(7, 1)]
    ensures Monotone(log) && Filter(4, log).s0 == Sample(5, 6) && !IsMaximum(4, log, 6)
    ensures forall i | 0 <= i < |log| && InWindow(4, log, i) && log[i].time < 5 :: log[i].value <= 6
  {
    var l1, l2, l3, l4 := log[..1], log[..2], log[..3], log[..4];
    assert l1[..0] == [] && l2[..1] == l1 && l3[..2] == l2 && l4[..3] == l3;
    assert Filter(4, l1) == MinMax(4, log[0], log[0], log[0]);
    assert Filter(4, l2) == MinMax(4, log[0], log[1], log[1]);
    assert Filter(4, l3) == MinMax(4, log[1], log[1], log[2]);
    assert Filter(4, l4) == MinMax(4, log[1], log[3], log[3]);
    assert Filter(4, log) == MinMax(4, log[3], log[3], log[4]);
    assert InWindow(4, log, 2);
  }
}
