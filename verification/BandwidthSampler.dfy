/** The bandwidth sampler: byte totals, and one record for every packet that is on its way. */
module BandwidthSampler {
  import opened Wrappers
  import opened Arith

  /** An outgoing packet; `size` is its size at the time of the call, `retx` whether it counts. */
  datatype Packet = Packet(id: nat, packno: nat, sent: nat, size: nat, retx: bool, mini: bool)

  /** What a packet remembers of the sampler at the time it was sent. */
  datatype BwpState = BwpState(
    totalBytesSent: nat, totalBytesAcked: nat, totalBytesLost: nat, isAppLimited: bool,
    sentAtLastAck: nat, lastAckSentTime: nat, lastAckAckTime: nat, packetSize: nat)

  datatype BwSample = BwSample(bandwidth: nat, rtt: nat, isAppLimited: bool)

  /** Bits per second. */
  function Rate(bytes: nat, usecs: nat): nat
    requires usecs > 0
  {
    bytes * 8000000 / usecs
  }

  /** A rate is never above the bytes over the time, and less than one below. */
  lemma RateBounds(bytes: nat, usecs: nat, r: nat)
    requires usecs > 0 && r == Rate(bytes, usecs)
    ensures r * usecs <= bytes * 8000000 < (r + 1) * usecs
  {
  }

  function Min(a: nat, b: nat): nat { if a < b then a else b }

  /**
   What a sample says about a packet sent at `sent` with the record `st`: the slower of
   the rate of sending up to it and the rate of acknowledging up to its own acknowledgement.
   */
  ghost predicate Measures(s: BwSample, sent: nat, st: BwpState, totalAcked: nat, ackTime: nat)
    requires st.totalBytesAcked <= totalAcked && st.sentAtLastAck <= st.totalBytesSent
  {
    && sent <= ackTime && s.rtt == ackTime - sent && s.isAppLimited == st.isAppLimited
    && st.lastAckAckTime < ackTime
    && var acked := Rate(totalAcked - st.totalBytesAcked, ackTime - st.lastAckAckTime);
       s.bandwidth ==
         if st.lastAckSentTime < sent
         then Min(Rate(st.totalBytesSent - st.sentAtLastAck, sent - st.lastAckSentTime), acked)
         else acked
  }

  /** A sample never claims more than was acknowledged, or sent, in its time. */
  lemma SampleIsDelivered(s: BwSample, sent: nat, st: BwpState, totalAcked: nat, ackTime: nat)
    requires st.totalBytesAcked <= totalAcked && st.sentAtLastAck <= st.totalBytesSent
    requires Measures(s, sent, st, totalAcked, ackTime)
    ensures s.bandwidth * (ackTime - st.lastAckAckTime) <= (totalAcked - st.totalBytesAcked) * 8000000
    ensures st.lastAckSentTime < sent ==>
              s.bandwidth * (sent - st.lastAckSentTime) <= (st.totalBytesSent - st.sentAtLastAck) * 8000000
  {
    var acked, t := totalAcked - st.totalBytesAcked, ackTime - st.lastAckAckTime;
    var r := Rate(acked, t);
    RateBounds(acked, t, r);
    TimesMono(s.bandwidth, r, t);
    if st.lastAckSentTime < sent {
      var bytes, u := st.totalBytesSent - st.sentAtLastAck, sent - st.lastAckSentTime;
      var q := Rate(bytes, u);
      RateBounds(bytes, u, q);
      TimesMono(s.bandwidth, q, u);
    }
  }

  /** No difference is negative and no divisor zero. */
  method Measure(sent: nat, st: BwpState, totalAcked: nat, ackTime: nat) returns (ok: bool, sample: Option<BwSample>)
    requires sent <= ackTime && st.totalBytesAcked <= totalAcked && st.sentAtLastAck <= st.totalBytesSent
    ensures sample.Some? <==> st.lastAckSentTime != 0 && st.lastAckAckTime < ackTime
    ensures sample.Some? ==> Measures(sample.value, sent, st, totalAcked, ackTime)
  {
    if st.lastAckSentTime == 0 {
      return true, None;
    }
    var sendRate: Option<nat> := None;
    if sent > st.lastAckSentTime {
      sendRate := Some(Rate(st.totalBytesSent - st.sentAtLastAck, sent - st.lastAckSentTime));
    }
    if ackTime <= st.lastAckAckTime {
      return false, None;
    }
    var ackRate := Rate(totalAcked - st.totalBytesAcked, ackTime - st.lastAckAckTime);
    var bandwidth := if sendRate.Some? && sendRate.value < ackRate then sendRate.value else ackRate;
    return true, Some(BwSample(bandwidth, ackTime - sent, st.isAppLimited));
  }

  // ---------- Sizes of the packets on their way ----------

  type States = map<nat, BwpState>

  ghost function Outstanding(states: States): nat {
    if states == map[] then 0
    else
      var k :| k in states;
      states[k].packetSize + Outstanding(states - {k})
  }

  lemma {:induction false} OutstandingWithout(states: States, k: nat)
    requires k in states
    ensures Outstanding(states) == states[k].packetSize + Outstanding(states - {k})
    decreases |states|
  {
    var j :| j in states && Outstanding(states) == states[j].packetSize + Outstanding(states - {j});
    if j != k {
      var m := states - {j};
      OutstandingWithout(m, k);
      var n := states - {k};
      assert n - {j} == m - {k};
      OutstandingWithout(n, j);
    }
  }

  lemma OutstandingWith(states: States, k: nat, st: BwpState, states': States)
    requires k !in states && states' == states[k := st]
    ensures Outstanding(states') == Outstanding(states) + st.packetSize
  {
    OutstandingWithout(states', k);
    assert states' - {k} == states;
  }

  /** Records do not run ahead of the totals. */
  ghost predicate Past(states: States, sent: nat, acked: nat, lost: nat) {
    forall p | p in states :: PastOne(states[p], sent, acked, lost)
  }

  ghost predicate PastOne(st: BwpState, sent: nat, acked: nat, lost: nat) {
    st.sentAtLastAck <= st.totalBytesSent <= sent && st.totalBytesAcked <= acked && st.totalBytesLost <= lost
  }

  lemma PastKept(states: States, sent: nat, acked: nat, lost: nat, states': States, sent': nat, acked': nat, lost': nat)
    requires Past(states, sent, acked, lost) && sent <= sent' && acked <= acked' && lost <= lost'
    requires forall p | p in states' ::
               if p in states then states'[p] == states[p] else PastOne(states'[p], sent', acked', lost')
    ensures Past(states', sent', acked', lost')
  {
  }

  // ---------- Steps ----------

  /**
   What the sampler knows: the totals, total sent, sending time and time of the last acknowledgement,
   the last packet, the end of the phase that the application limited, and the records.
   */
  datatype View = View(totalSent: nat, totalAcked: nat, totalLost: nat, lastAck: (nat, nat, nat), lastSentPackno: nat,
                       phaseEnd: nat, appLimited: bool, states: States)

  /** A packet is counted unless it has a record or does not count, and gets a record if there is memory. */
  ghost predicate SentStep(v: View, v': View, p: Packet, inFlight: nat, memory: bool) {
    var counted := p.id !in v.states && p.retx;
    && v'.totalSent == v.totalSent + (if counted then p.size else 0)
    && v'.totalAcked == v.totalAcked && v'.totalLost == v.totalLost
    && v'.lastAck == (if counted && inFlight == 0 then (v'.totalSent, p.sent, p.sent) else v.lastAck)
    && v'.lastSentPackno == (if p.id in v.states then v.lastSentPackno else p.packno)
    && v'.phaseEnd == v.phaseEnd && v'.appLimited == v.appLimited
    && v'.states == if counted && memory then v.states[p.id := RecordFor(v', p)] else v.states
  }

  ghost function RecordFor(v: View, p: Packet): BwpState {
    BwpState(v.totalSent, v.totalAcked, v.totalLost, v.appLimited, v.lastAck.0, v.lastAck.1, v.lastAck.2, p.size)
  }

  /**
   The record of an acknowledged packet goes.  There is a sample if an acknowledgement
   had come in before the packet was sent, and time has passed since.
   */
  ghost predicate AckedStep(v: View, v': View, p: Packet, ackTime: nat, sample: Option<BwSample>) {
    if p.id !in v.states then v' == v && sample == None
    else
      var st := v.states[p.id];
      && v' == v.(totalAcked := v.totalAcked + p.size, lastAck := (st.totalBytesSent, p.sent, ackTime),
                  appLimited := v.appLimited && p.packno <= v.phaseEnd, states := v.states - {p.id})
      && st.totalBytesAcked + p.size <= v'.totalAcked && st.sentAtLastAck <= st.totalBytesSent
      && (sample.Some? <==> st.lastAckSentTime != 0 && st.lastAckAckTime < ackTime)
      && (sample.Some? ==> Measures(sample.value, p.sent, st, v'.totalAcked, ackTime))
  }

  /** The record of a lost packet goes. */
  ghost predicate LostStep(v: View, v': View, p: Packet) {
    v' == if p.id in v.states
          then v.(totalLost := v.totalLost + v.states[p.id].packetSize, states := v.states - {p.id})
          else v
  }

  /** The application limits the sender until what was sent last is acknowledged. */
  ghost predicate LimitedStep(v: View, v': View) {
    v' == v.(appLimited := true, phaseEnd := v.lastSentPackno)
  }

  class BwSampler {
    var totalSent: nat
    var totalAcked: nat
    var totalLost: nat
    var lastAckedTotalSent: nat
    var lastAckedSentTime: nat
    var lastAckedPacketTime: nat
    var lastSentPackno: nat
    var endOfAppLimitedPhase: nat
    var appLimited: bool
    var aborted: bool
    var warned: bool
    /** The records, by packet. */
    var states: States
    /** Bytes of packets that were sent when there was no memory for a record. */
    ghost var leaked: nat
    /** By how much packets were larger when acknowledged than when sent. */
    ghost var drift: int

    /** Every byte sent is acknowledged, lost or on its way. */
    ghost predicate Conserved()
      reads this
    {
      totalSent + drift == totalAcked + totalLost + Outstanding(states) + leaked
    }

    ghost function Seen(): View
      reads this
    {
      View(totalSent, totalAcked, totalLost, (lastAckedTotalSent, lastAckedSentTime, lastAckedPacketTime), lastSentPackno,
           endOfAppLimitedPhase, appLimited, states)
    }

    ghost predicate Valid()
      reads this
    {
      Conserved() && lastAckedTotalSent <= totalSent && Past(states, totalSent, totalAcked, totalLost)
    }

    constructor ()
      ensures Valid() && Seen() == View(0, 0, 0, (0, 0, 0), 0, 0, true, map[])
      ensures drift == 0 && leaked == 0
    {
      totalSent, totalAcked, totalLost := 0, 0, 0;
      lastAckedTotalSent, lastAckedSentTime, lastAckedPacketTime := 0, 0, 0;
      lastSentPackno, endOfAppLimitedPhase, appLimited, aborted, warned := 0, 0, true, false, false;
      states, leaked, drift := map[], 0, 0;
    }

    method AppLimited()
      requires Valid()
      modifies `appLimited, `endOfAppLimitedPhase
      ensures Valid() && LimitedStep(old(Seen()), Seen())
    {
      appLimited := true;
      endOfAppLimitedPhase := lastSentPackno;
    }

    /** `memory` is the answer of the allocator; `oom` says whether there was none for a record. */
    method PacketSent(p: Packet, inFlight: nat, memory: bool) returns (oom: bool)
      requires Valid()
      modifies this
      ensures Valid()
      ensures SentStep(old(Seen()), Seen(), p, inFlight, memory)
      ensures oom <==> p.id !in old(states) && p.retx && !memory
      ensures leaked == old(leaked) + (if oom then p.size else 0) && drift == old(drift)
      ensures oom ==> aborted
    {
      oom := false;
      if p.id in states {
        warned := true;
        return;
      }
      lastSentPackno := p.packno;
      if !p.retx {
        return;
      }
      Count(p, inFlight);
      oom := Remember(p, memory);
    }

    /** Counts the bytes of a packet; with nothing in flight the measurements start anew. */
    method Count(p: Packet, inFlight: nat)
      requires Valid()
      modifies `totalSent, `lastAckedTotalSent, `lastAckedSentTime, `lastAckedPacketTime
      ensures lastAckedTotalSent <= totalSent == old(totalSent) + p.size && Past(states, totalSent, totalAcked, totalLost)
      ensures if inFlight == 0 then lastAckedTotalSent == totalSent && lastAckedSentTime == lastAckedPacketTime == p.sent
              else lastAckedTotalSent == old(lastAckedTotalSent) && lastAckedSentTime == old(lastAckedSentTime)
                   && lastAckedPacketTime == old(lastAckedPacketTime)
    {
      ghost var sentBefore := totalSent;
      totalSent := totalSent + p.size;
      if inFlight == 0 {
        lastAckedPacketTime := p.sent;
        lastAckedTotalSent := totalSent;
        lastAckedSentTime := p.sent;
      }
      PastKept(states, sentBefore, totalAcked, totalLost, states, totalSent, totalAcked, totalLost);
    }

    /** Keeps a record of a packet whose bytes have just been counted, if there is memory. */
    method Remember(p: Packet, memory: bool) returns (oom: bool)
      requires p.id !in states && lastAckedTotalSent <= totalSent && Past(states, totalSent, totalAcked, totalLost)
      requires totalSent + drift == totalAcked + totalLost + Outstanding(states) + leaked + p.size
      modifies `aborted, `leaked, `states
      ensures Valid() && oom == !memory
      ensures leaked == old(leaked) + if oom then p.size else 0
      ensures if oom then states == old(states) && aborted
              else p.id in states && states - {p.id} == old(states)
                   && states[p.id] == BwpState(totalSent, totalAcked, totalLost, appLimited,
                                               lastAckedTotalSent, lastAckedSentTime, lastAckedPacketTime, p.size)
    {
      oom := !memory;
      if oom {
        aborted := true;
        leaked := leaked + p.size;
        return;
      }
      var st := BwpState(totalSent, totalAcked, totalLost, appLimited,
                         lastAckedTotalSent, lastAckedSentTime, lastAckedPacketTime, p.size);
      ghost var before := states;
      states := states[p.id := st];
      OutstandingWith(before, p.id, st, states);
      assert states - {p.id} == before;
      PastKept(before, totalSent, totalAcked, totalLost, states, totalSent, totalAcked, totalLost);
    }

    method PacketLost(p: Packet)
      requires Valid()
      modifies `totalLost, `states
      ensures Valid()
      ensures LostStep(old(Seen()), Seen(), p)
    {
      if p.id !in states {
        return;
      }
      ghost var before, lost := states, totalLost;
      totalLost := totalLost + states[p.id].packetSize;
      OutstandingWithout(states, p.id);
      states := states - {p.id};
      PastKept(before, totalSent, totalAcked, lost, states, totalSent, totalAcked, totalLost);
    }

    /** Takes a packet that is acknowledged out of those on their way. */
    method PacketAcked(p: Packet, ackTime: nat) returns (sample: Option<BwSample>)
      requires Valid()
      requires p.id in states ==> p.sent <= ackTime
      modifies this
      ensures Valid()
      ensures AckedStep(old(Seen()), Seen(), p, ackTime, sample)
      ensures leaked == old(leaked)
      ensures drift == old(drift) + if p.id in old(states) then p.size - old(states)[p.id].packetSize else 0
    {
      if p.id !in states {
        return None;
      }
      var st := states[p.id];
      assert PastOne(st, totalSent, totalAcked, totalLost);
      Release(p, st, ackTime);
      var ok;
      ok, sample := Measure(p.sent, st, totalAcked, ackTime);
      if !ok {
        warned := true;
      }
    }

    /** Accounts for an acknowledged packet and drops its record. */
    method Release(p: Packet, st: BwpState, ackTime: nat)
      requires Valid() && p.id in states && st == states[p.id]
      modifies `totalAcked, `lastAckedTotalSent, `lastAckedSentTime, `lastAckedPacketTime, `appLimited, `states, `drift
      ensures Valid()
      ensures totalAcked == old(totalAcked) + p.size && states == old(states) - {p.id}
      ensures drift == old(drift) + p.size - st.packetSize
      ensures appLimited <==> old(appLimited) && p.packno <= endOfAppLimitedPhase
      ensures lastAckedTotalSent == st.totalBytesSent && lastAckedSentTime == p.sent && lastAckedPacketTime == ackTime
    {
      ghost var before, acked := states, totalAcked;
      assert PastOne(st, totalSent, totalAcked, totalLost);
      OutstandingWithout(states, p.id);
      totalAcked := totalAcked + p.size;
      lastAckedTotalSent := st.totalBytesSent;
      lastAckedSentTime := p.sent;
      lastAckedPacketTime := ackTime;
      if appLimited && p.packno > endOfAppLimitedPhase {
        appLimited := false;
      }
      states := states - {p.id};
      drift := drift + p.size - st.packetSize;
      PastKept(before, totalSent, acked, totalLost, states, totalSent, totalAcked, totalLost);
    }
  }
}
