/** When bytes were last sent, and what an acknowledgement reports: the send time kept with a packet in flight is
    that of the last step that put its bytes on the network. */
module Timing {
  import opened Common
  import opened EndToEnd
  import opened Flight
  import opened Guarantees
  import opened Handouts
  import opened Messages
  import opened Ranges
  import opened SendDiscipline
  import opened Transport
  import SS = SendStream
  import Snd = SendState

  /** Last send times by position. */
  type Times = map<int, nat>

  ghost function Stamp(times: Times, offset: nat, data: Bytes, now: nat): Times {
    times + map p: int | offset <= p < offset + |data| && Range(offset, |data|).Holds(p) :: now
  }

  ghost function Stamped(times: Times, out: SS.Handout, now: nat): Times {
    if out.Packet? then Stamp(times, out.offset, out.data, now) else times
  }

  /** Every packet in flight has the last send time of each of its bytes. */
  ghost predicate Timed(fl: FlightMap, times: Times) {
    forall k, p :: k in fl && k.Holds(p) ==> p in times && times[p] == fl[k].sentTime
  }

  // ---------- One stream ----------

  /** A packet sent now over positions that no other packet has. */
  lemma {:induction false} TimedPut(fl: FlightMap, times: Times, k: Range, info: SS.SendInfo, now: nat)
    requires Timed(fl, times) && info.sentTime == now && |info.data| == k.len
    requires 0 < k.len ==> forall j :: j in fl && j != k && 0 < j.len ==> Apart(j, k)
    ensures Timed(fl[k := info], Stamp(times, k.offset, info.data, now))
  {
  }

  lemma {:induction false} StampNothing(times: Times, offset: nat, now: nat)
    ensures Stamp(times, offset, [], now) == times
  {
  }

  lemma {:induction false} EarlierApart(s: SS.Stream, h: History, k: Range)
    requires StreamInv(s, h) && s.sentOffset <= k.offset
    ensures forall j :: j in s.inFlight.vals && 0 < j.len ==> Apart(j, k)
  {
    forall j | j in s.inFlight.vals && 0 < j.len ensures Apart(j, k) {
      assert PacketOk(j, s.inFlight.vals[j], s.sentOffset, h.all);
    }
  }

  lemma {:induction false} SendTimed(s: SS.Stream, h: History, times: Times, room: nat, now: nat)
    requires StreamInv(s, h) && room < U16 && Timed(s.inFlight.vals, times)
    ensures var (s', out) := SS.Send(s, room, now); Timed(s'.inFlight.vals, Stamped(times, out, now))
  {
    hide StreamInv, SS.Send, Timed, Stamp;
    SendIsNext(s, h, room, now);
    var (s', out) := SS.Send(s, room, now);
    if out.Packet? {
      var k := Range(s.sentOffset, |out.data|);
      EarlierApart(s, h, k);
      TimedPut(s.inFlight.vals, times, k, SS.SendInfo(out.data, now, 1, s.pingRequest), now);
      if out.data == [] {
        StampNothing(times, k.offset, now);
        StampNothing(times, out.offset, now);
      }
    }
  }

  lemma {:induction false} TimedFewer(fl: FlightMap, times: Times, k: Range)
    requires Timed(fl, times)
    ensures Timed(fl - {k}, times)
  {
  }

  lemma {:induction false} OldestApart(s: SS.Stream, h: History)
    requires StreamInv(s, h) && SS.HasOldest(s) && 0 < s.inFlight.keys[0].len
    ensures var k := s.inFlight.keys[0]; forall j :: j in s.inFlight.vals && j != k && 0 < j.len ==> Apart(j, k)
  {
    LiveApart(s.inFlight.vals, s.sentOffset, h, s.inFlight.keys[0]);
  }

  /** The right part of a cut packet keeps the time of the whole, the left part was sent now. */
  lemma {:induction false} TimedCut(m: SS.InFlight, times: Times, k: Range, room: nat, now: nat, m': SS.InFlight)
    requires m.keys != [] && k in m.vals && room < k.len == |m.vals[k].data|
    requires Timed(m.vals, times) && CutInTwo(m, k, room, now, m')
    requires forall j :: j in m.vals && j != k && 0 < j.len ==> Apart(j, k)
    ensures Timed(m'.vals, Stamp(times, k.offset, m.vals[k].data[..room], now))
  {
    var left, right := Range(k.offset, room), Range(k.offset + room, k.len - room);
    var times' := Stamp(times, k.offset, m.vals[k].data[..room], now);
    forall j, p | j in m'.vals && j.Holds(p) ensures p in times' && times'[p] == m'.vals[j].sentTime {
      if j == right {
        assert k.Holds(p) && !left.Holds(p);
      } else if j != left {
        assert j in m.vals && j != k && m'.vals[j] == m.vals[j];
      }
    }
  }

  lemma {:induction false} RetransmitTimed(s: SS.Stream, h: History, times: Times, room: nat, rto: nat, now: nat)
    requires StreamInv(s, h) && room < U16 && Timed(s.inFlight.vals, times)
    ensures var (s', out) := SS.Retransmit(s, room, rto, now); Timed(s'.inFlight.vals, Stamped(times, out, now))
  {
    hide StreamInv, SS.Retransmit, Timed, Stamp, CutInTwo, TimedOut;
    RetransmitIsAgain(s, h, room, rto, now);
    var (s', out) := SS.Retransmit(s, room, rto, now);
    if TimedOut(s, rto, now) {
      var k, info := s.inFlight.keys[0], SS.Oldest(s);
      if info.isPing {
        TimedFewer(s.inFlight.vals, times, k);
      } else if k.len == 0 {
        TimedPut(s.inFlight.vals, times, k, SS.SendInfo(info.data, now, info.sentNr + 1, false), now);
      } else {
        OldestApart(s, h);
        if k.len <= room {
          TimedPut(s.inFlight.vals, times, k, SS.SendInfo(info.data, now, info.sentNr + 1, false), now);
        } else {
          TimedCut(s.inFlight, times, k, room, now, s'.inFlight);
          assert info.data[..room] == out.data;
        }
      }
    }
  }

  // ---------- Every run ----------

  /** The send times after a step. */
  ghost function StampStep(times: Times, z: System, step: Step, sid: nat): Times {
    if !Enabled(z, step) then times
    else
      match step
      case Send(x, t, ack, mtu, now) =>
        if x == sid then Stamped(times, Snd.ReadyToSend(z.snd, sid, t, ack, mtu, now).1, now) else times
      case Retransmit(x, t, ack, mtu, rto, now) =>
        if x == sid then Stamped(times, Snd.ReadyToRetransmit(z.snd, sid, ack, mtu, rto, t, now).1, now) else times
      case _ => times
  }

  /** When each byte of a stream was last handed to the network in a run. */
  ghost function LastSent(sndCapacity: nat, rcvCapacity: nat, run: seq<Step>, sid: nat): Times {
    if run == [] then map[]
    else
      var before := run[..|run| - 1];
      StampStep(LastSent(sndCapacity, rcvCapacity, before, sid), Reached(sndCapacity, rcvCapacity, before),
                run[|run| - 1], sid)
  }

  lemma {:induction false} StepTimed(z: System, times: Times, step: Step, sid: nat)
    requires Inv(z) && Timed(Snd.StreamOf(z.snd, sid).inFlight.vals, times)
    ensures Timed(Snd.StreamOf(Next(z, step).snd, sid).inFlight.vals, StampStep(times, z, step, sid))
  {
    hide Inv, Timed, SS.Send, SS.Retransmit, Stamped, MtuFits, MaxData, StreamInv;
    var s := Snd.StreamOf(z.snd, sid);
    assert ChannelInv(ChannelOf(z, sid)) by { ChannelIsSound(z, sid); }
    if !Enabled(z, step) {
    } else if step.Send? && step.sid == sid {
      StreamSends(z, sid, step.t, step.piggyback, step.mtu, step.now);
      SendTimed(s, HistOf(z, sid), times, MaxData(step.t, step.piggyback, s.sentOffset, step.mtu), step.now);
    } else if step.Retransmit? && step.sid == sid {
      var offset := Snd.OldestOffset(s);
      RoomIsSmall(step.t, step.piggyback, offset, step.mtu);
      StreamRepeats(z, sid, step.t, step.piggyback, step.mtu, step.rto, step.now);
      RetransmitTimed(s, HistOf(z, sid), times, MaxData(step.t, step.piggyback, offset, step.mtu), step.rto, step.now);
    } else if step.AckArrives? && step.ack.streamId == sid {
      TimedFewer(s.inFlight.vals, times, KeyRange(step.ack.offset, step.ack.len));
    }
  }

  lemma {:induction false} ChannelIsSound(z: System, sid: nat)
    requires Inv(z)
    ensures ChannelInv(ChannelOf(z, sid))
  {
    assert ChannelOf(z, sid) in Sound();
  }

  lemma {:induction false} RunTimed(sndCapacity: nat, rcvCapacity: nat, run: seq<Step>, sid: nat)
    ensures Timed(Snd.StreamOf(Reached(sndCapacity, rcvCapacity, run).snd, sid).inFlight.vals,
                  LastSent(sndCapacity, rcvCapacity, run, sid))
  {
    hide Next, Inv, StampStep;
    if run == [] {
    } else {
      var before := run[..|run| - 1];
      RunTimed(sndCapacity, rcvCapacity, before, sid);
      ReachableInv(sndCapacity, rcvCapacity, before);
      StepTimed(Reached(sndCapacity, rcvCapacity, before), LastSent(sndCapacity, rcvCapacity, before, sid),
                run[|run| - 1], sid);
    }
  }

  /** What an acknowledgement of a range does and reports: no stream; or a range that is not in flight, and nothing
      changes; or exactly that packet is released, and the time is when its bytes were last sent. */
  ghost predicate Acknowledges(st: Snd.State, times: Times, ack: Ack,
                               st': Snd.State, status: Snd.AckStatus, time: nat)
  {
    var sid, k := ack.streamId, Range(ack.offset, ack.len);
    var fl, fl' := Snd.StreamOf(st, sid).inFlight.vals, Snd.StreamOf(st', sid).inFlight.vals;
    && (status.AckNoStream? <==> sid !in st.streams)
    && (status.AckOk? <==> sid in st.streams && k in fl)
    && (status.AckDup? <==> sid in st.streams && k !in fl)
    && (!status.AckOk? ==> st' == st)
    && (status.AckOk? ==>
          && fl' == fl - {k} && st'.size == st.size - k.len
          && forall p :: k.Holds(p) ==> p in times && times[p] == time)
    && (forall x: nat :: x != sid ==> Snd.StreamOf(st', x) == Snd.StreamOf(st, x))
  }

  lemma {:induction false} AcknowledgedExactly(st: Snd.State, h: History, times: Times, ack: Ack)
    requires ack.offset < U48 && ack.len < U16
    requires StreamInv(Snd.StreamOf(st, ack.streamId), h) && Timed(Snd.StreamOf(st, ack.streamId).inFlight.vals, times)
    ensures var (st', status, time) := Snd.AcknowledgeRange(st, ack); Acknowledges(st, times, ack, st', status, time)
  {
    var fl, k := Snd.StreamOf(st, ack.streamId).inFlight.vals, Range(ack.offset, ack.len);
    if k in fl { assert PacketOk(k, fl[k], Snd.StreamOf(st, ack.streamId).sentOffset, h.all); }
  }

  /** In every run, for every acknowledgement that fits its fields. */
  lemma {:induction false} AcksExactly(sndCapacity: nat, rcvCapacity: nat, run: seq<Step>, ack: Ack)
    requires ack.offset < U48 && ack.len < U16
    ensures var st := Reached(sndCapacity, rcvCapacity, run).snd;
            var (st', status, time) := Snd.AcknowledgeRange(st, ack);
            Acknowledges(st, LastSent(sndCapacity, rcvCapacity, run, ack.streamId), ack, st', status, time)
  {
    hide Snd.AcknowledgeRange, Acknowledges, Timed, Reached, StreamInv;
    var z := Reached(sndCapacity, rcvCapacity, run);
    ReachedSound(sndCapacity, rcvCapacity, run, ack.streamId);
    RunTimed(sndCapacity, rcvCapacity, run, ack.streamId);
    AcknowledgedExactly(z.snd, HistOf(z, ack.streamId), LastSent(sndCapacity, rcvCapacity, run, ack.streamId), ack);
  }
}
