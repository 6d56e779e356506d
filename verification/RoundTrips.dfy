/** Hearing a frame, for every run of two connections: which packet its acknowledgement releases, which round trip the
    controller is told, what the receiver owes in return, and what a closing mark does. */
module RoundTrips {
  import opened Common
  import opened Connection
  import opened Duplex
  import opened Exchange
  import opened Messages
  import opened Ranges
  import opened SendDiscipline
  import opened Timing
  import opened Wire
  import A = Acknowledging
  import C = Controller
  import Closing
  import EndToEnd
  import Flight
  import G = Guarantees
  import RA = Reassembly
  import Rcv = RcvState
  import RcvStream
  import RcvWindow
  import SS = SendStream
  import Snd = SendState
  import T = Transport

  // ---------- When bytes were last sent ----------

  ghost function StampFrame(times: Times, frame: Option<Frame>, now: nat): Times {
    if frame.Some? then Stamp(times, frame.value.header.streamOffset, BytesOf(frame.value.data), now) else times
  }

  /** The send times of a stream after an action at its own end. */
  ghost function StampAct(times: Times, e: End, act: Action, sid: nat): Times {
    if act.Flush? && Enabled(e, act) && act.how.sid == sid then StampFrame(times, Act(e, act).1, act.how.now) else times
  }

  /** When each byte that an end wrote to a stream was last put on the wire. */
  ghost function SentTimes(c: Capacities, run: seq<Step>, atA: bool, sid: nat): Times {
    if run == [] then map[]
    else
      var before, step := run[..|run| - 1], run[|run| - 1];
      var times := SentTimes(c, before, atA, sid);
      if step.AtA? == atA then StampAct(times, EndOf(Reached(c, before), atA), step.act, sid) else times
  }

  /** An opening packet has no bytes. */
  lemma {:induction false} NoBytes(t: MsgType, ack: Option<Ack>, offset: nat, mtu: nat)
    ensures t.InitSnd? ==> MaxData(t, ack, offset, mtu) == 0
  {
  }

  lemma {:induction false} StampSent(times: Times, how: Flushing, ack: Option<Ack>, out: SS.Handout)
    requires out.Packet? && (how.t.InitSnd? ==> out.data == [])
    ensures StampFrame(times, Some(SentAs(how.t, PacketOut(how.sid, ack, out))), how.now)
            == Stamped(times, out, how.now)
  {
    if how.t.InitSnd? {
      StampNothing(times, 0, how.now);
      StampNothing(times, out.offset, how.now);
    }
  }

  lemma {:induction false} StampAlone(times: Times, how: Flushing, snd: Snd.State, ack: Option<Ack>)
    ensures StampFrame(times, Some(SentAs(how.t, AckOut(snd, how.sid, ack))), how.now) == times
  {
    StampNothing(times, 0, how.now);
  }

  lemma {:induction false} FlushTimed(st: Snd.State, h: Flight.History, times: Times, ack: Option<Ack>, how: Flushing)
    requires StreamInv(Snd.StreamOf(st, how.sid), h) && MtuHolds(how.t, how.mtu)
    requires Timed(Snd.StreamOf(st, how.sid).inFlight.vals, times)
    ensures var (st', frame) := FlushOut(st, ack, how);
            Timed(Snd.StreamOf(st', how.sid).inFlight.vals, StampFrame(times, frame, how.now))
  {
    hide StreamInv, Snd.ReadyToSend, Snd.ReadyToRetransmit, MaxData, MtuHolds, MtuFits, FullyAcked, SS.Send,
         SS.Retransmit, Timed, Stamp, StampFrame, SentAs, PacketOut, AckOut, Stamped;
    var (st', frame) := FlushOut(st, ack, how);
    StampAlone(times, how, st', ack);
    assert StampFrame(times, None, how.now) == times by { StampNone(times, how.now); }
    if !how.paced && !how.windowFull {
      var s := Snd.StreamOf(st, how.sid);
      var room := MaxData(how.t, ack, Snd.OldestOffset(s), how.mtu);
      var (st1, again) := Snd.ReadyToRetransmit(st, how.sid, ack, how.mtu, how.rto, how.t, how.now);
      StreamOps(st, ack, how);
      NoBytes(how.t, ack, Snd.OldestOffset(s), how.mtu);
      RetransmitTimed(s, h, times, room, how.rto, how.now);
      RetransmitKeeps(s, h, room, how.rto, how.now);
      if again.Packet? {
        StampSent(times, how, ack, again);
      } else {
        StampedNothing(times, again, how.now);
        if again.NoPacket? && how.maySend {
          var s1 := Snd.StreamOf(st1, how.sid);
          var out := Snd.ReadyToSend(st1, how.sid, how.t, ack, how.mtu, how.now).1;
          StreamOps(st1, ack, how);
          NoBytes(how.t, ack, s1.sentOffset, how.mtu);
          SendTimed(s1, h, times, MaxData(how.t, ack, s1.sentOffset, how.mtu), how.now);
          SendKeeps(s1, h, MaxData(how.t, ack, s1.sentOffset, how.mtu), how.now);
          if out.Packet? { StampSent(times, how, ack, out); } else { StampedNothing(times, out, how.now); }
        }
      }
    }
  }

  lemma StampNone(times: Times, now: nat)
    ensures StampFrame(times, None, now) == times
  {
  }

  lemma StampedNothing(times: Times, out: SS.Handout, now: nat)
    requires !out.Packet?
    ensures Stamped(times, out, now) == times
  {
  }

  lemma {:induction false} OthersUntouched(st: Snd.State, ack: Option<Ack>, how: Flushing, sid: nat)
    requires sid != how.sid
    ensures Snd.StreamOf(FlushOut(st, ack, how).0, sid) == Snd.StreamOf(st, sid)
  {
    hide SS.Send, SS.Retransmit, MaxData, FullyAcked;
  }

  /** What hearing a frame leaves in flight. */
  lemma {:induction false} HearTimed(e: End, f: Frame, now: nat, times: Times, sid: nat)
    requires Timed(Snd.StreamOf(e.conn.snd, sid).inFlight.vals, times)
    ensures Timed(Snd.StreamOf(Heard(e, f, now).snd, sid).inFlight.vals, times)
  {
    hide Heard, Timed;
    HeardSnd(e, f, now);
    if f.header.ack.Some? {
      var a := f.header.ack.value;
      TimedFewer(Snd.StreamOf(e.conn.snd, sid).inFlight.vals, times, KeyRange(a.offset, a.len));
    }
  }

  lemma {:induction false} ActTimed(e: End, h: Flight.History, times: Times, act: Action, sid: nat)
    requires Enabled(e, act) && Timed(Snd.StreamOf(e.conn.snd, sid).inFlight.vals, times)
    requires StreamInv(Snd.StreamOf(e.conn.snd, sid), h)
    ensures Timed(Snd.StreamOf(Act(e, act).0.conn.snd, sid).inFlight.vals, StampAct(times, e, act, sid))
  {
    hide Heard, Timed, FlushOut, StreamInv, MtuHolds, StampFrame, Popped;
    match act
    case Flush(how) =>
      if how.sid == sid {
        FlushTimed(e.conn.snd, h, times, Popped(e.conn.rcv), how);
      } else {
        OthersUntouched(e.conn.snd, Popped(e.conn.rcv), how, sid);
      }
    case Hear(f, now) => HearTimed(e, f, now, times, sid);
    case _ =>
  }

  lemma {:induction false} RunTimedAt(c: Capacities, run: seq<Step>, atA: bool, sid: nat)
    ensures Timed(Snd.StreamOf(EndOf(Reached(c, run), atA).conn.snd, sid).inFlight.vals, SentTimes(c, run, atA, sid))
  {
    hide Act, Enabled, StreamInv, StampAct, Timed;
    if run == [] {
      NothingTimed();
    } else {
      var before, step := run[..|run| - 1], run[|run| - 1];
      var e, times := EndOf(Reached(c, before), atA), SentTimes(c, before, atA, sid);
      RunTimedAt(c, before, atA, sid);
      var h := EndSound(c, before, atA, sid);
      if step.AtA? == atA {
        if Enabled(e, step.act) { ActTimed(e, h, times, step.act, sid); } else { NotStamped(e, times, step.act, sid); }
      } else {
        OtherEndActs(Reached(c, before), step, atA);
      }
    }
  }

  lemma NothingTimed()
    ensures Timed(SS.EMPTY_STREAM.inFlight.vals, map[])
  {
  }

  lemma NotStamped(e: End, times: Times, act: Action, sid: nat)
    requires !Enabled(e, act)
    ensures StampAct(times, e, act, sid) == times
  {
  }

  lemma {:induction false} OtherEndActs(d: Pair, step: Step, atA: bool)
    requires step.AtA? != atA
    ensures EndOf(Next(d, step), atA).conn == EndOf(d, atA).conn
  {
    hide Act, Enabled;
  }

  // ---------- The acknowledgement in a frame ----------

  /** What an acknowledgement tells the controller: nothing when there is no such stream; a duplicate when the range is
      not in flight; nothing for an empty packet; else the time since its bytes were last sent. */
  function Told(m: C.Measure, known: bool, sentAt: Option<nat>, len: nat, now: nat): Option<C.Measure> {
    if !known then Some(m)
    else if sentAt.None? then Some(C.DuplicateAck(m))
    else if len == 0 || now <= sentAt.value then Some(m)
    else C.Update(m, now - sentAt.value, len, now)
  }

  lemma {:induction false} SampleExactly(st: Snd.State, times: Times, a: Ack, p: PayloadHeader, m: C.Measure, now: nat)
    requires var (st', status, time) := Snd.AcknowledgeRange(st, a); Acknowledges(st, times, a, st', status, time)
    requires p.ack.Some? && Snd.AcknowledgeRange(st, p.ack.value) == Snd.AcknowledgeRange(st, a)
    requires p.ack.value.len == a.len
    ensures var k := Range(a.offset, a.len);
            k in Snd.StreamOf(st, a.streamId).inFlight.vals && 0 < k.len ==> a.offset in times
    ensures var k := Range(a.offset, a.len);
            var inFlight := k in Snd.StreamOf(st, a.streamId).inFlight.vals;
            var sentAt := if !inFlight then None else if a.len == 0 then Some(0) else Some(times[a.offset]);
            MeasureAfter(m, st, p, now) == Told(m, a.streamId in st.streams, sentAt, a.len, now)
  {
    hide Snd.AcknowledgeRange;
    var k := Range(a.offset, a.len);
    if k in Snd.StreamOf(st, a.streamId).inFlight.vals && 0 < a.len { assert k.Holds(a.offset); }
  }

  /** In every run, a frame that is heard with an acknowledgement takes exactly the named packet out of flight, and the
      controller is told the time since the last flush that sent its bytes. */
  lemma {:induction false} HearsAck(c: Capacities, run: seq<Step>, atA: bool, f: Frame, m: C.Measure, now: nat)
    requires f in EndOf(Reached(c, run), atA).inbox && f.header.ack.Some?
    ensures var e, a := EndOf(Reached(c, run), atA), f.header.ack.value;
            var k, times := Range(a.offset, a.len), SentTimes(c, run, atA, a.streamId);
            var fl := Snd.StreamOf(e.conn.snd, a.streamId).inFlight.vals;
            && Snd.StreamOf(Heard(e, f, now).snd, a.streamId).inFlight.vals == fl - {k}
            && (k in fl && 0 < k.len ==> a.offset in times)
            && var sentAt := if k !in fl then None else if k.len == 0 then Some(0) else Some(times[a.offset]);
               MeasureAfter(m, e.conn.snd, Arrives(f.header, f.data).header, now)
               == Told(m, a.streamId in e.conn.snd.streams, sentAt, k.len, now)
  {
    hide Reached, Heard, Timed, StreamInv, MeasureAfter, Told, Snd.AcknowledgeRange, Rcv.AllStored, RcvWindow.Encode,
         RcvWindow.Decode;
    var e, a := EndOf(Reached(c, run), atA), f.header.ack.value;
    var times := SentTimes(c, run, atA, a.streamId);
    RunOnWire(c, run);
    var h := EndSound(c, run, atA, a.streamId);
    RunTimedAt(c, run, atA, a.streamId);
    AcknowledgedExactly(e.conn.snd, h, times, a);
    SameAck(e.conn.snd, a);
    SameAck(e.conn.snd, Rounded(a));
    SampleExactly(e.conn.snd, times, a, Arrives(f.header, f.data).header, m, now);
    HeardSnd(e, f, now);
  }

  // ---------- The data in a frame ----------

  /** A frame with data under way to an end is a data frame of the one-way system that ends there. */
  lemma {:induction false} OnTheWay(c: Capacities, run: seq<Step>, atA: bool, f: Frame) returns (z: T.System)
    requires f in EndOf(Reached(c, run), atA).inbox
    ensures EndToEnd.Inv(z) && z.rcv == EndOf(Reached(c, run), atA).conn.rcv && DataKnown(f, z.net)
  {
    hide G.Reached, Reached, EndToEnd.Inv;
    var ab, ba := RunMirrored(c, run);
    G.ReachedSound(c.sndA, c.rcvB, ab, 0);
    EndToEnd.ReachableInv(c.sndA, c.rcvB, ab);
    EndToEnd.ReachableInv(c.sndB, c.rcvA, ba);
    z := if atA then G.Reached(c.sndB, c.rcvA, ba) else G.Reached(c.sndA, c.rcvB, ab);
    assert EndToEnd.Inv(z) by { SystemInv(c, ab, ba); }
  }

  lemma {:induction false} SystemInv(c: Capacities, ab: seq<T.Step>, ba: seq<T.Step>)
    ensures EndToEnd.Inv(G.Reached(c.sndA, c.rcvB, ab)) && EndToEnd.Inv(G.Reached(c.sndB, c.rcvA, ba))
  {
    EndToEnd.ReachableInv(c.sndA, c.rcvB, ab);
    EndToEnd.ReachableInv(c.sndB, c.rcvA, ba);
  }

  /** What is owed for a frame: one acknowledgement for its data unless they are refused, for a ping and for a closing
      mark; none for an acknowledgement alone. */
  function OwedFor(rcv: Rcv.State, f: Frame): seq<Ack> {
    var p, n := f.header, |BytesOf(f.data)|;
    if (0 < n && rcv.size + n <= rcv.capacity) || (n == 0 && !AckOnly(p, f.data))
    then [Ack(p.streamId, p.streamOffset, n, 0)] else []
  }

  /** In every run, hearing a frame adds to the waiting acknowledgements exactly what is owed for it, and to what the
      receiver has exactly its bytes unless they are refused. */
  lemma {:induction false} HearsData(c: Capacities, run: seq<Step>, atA: bool, f: Frame, now: nat)
    requires f in EndOf(Reached(c, run), atA).inbox
    ensures var e, sid := EndOf(Reached(c, run), atA), f.header.streamId;
            var rcv, rcv' := e.conn.rcv, Heard(e, f, now).rcv; var k := Range(f.header.streamOffset, |BytesOf(f.data)|);
            && rcv'.ackList == rcv.ackList + OwedFor(rcv, f)
            && forall p :: RA.Has(Rcv.StreamOf(rcv', sid), p) <==>
                 RA.Has(Rcv.StreamOf(rcv, sid), p) || (rcv.size + k.len <= rcv.capacity && k.Holds(p))
  {
    hide Reached, Heard, Rcv.InsertData, EndToEnd.Inv, T.Next;
    var e, p := EndOf(Reached(c, run), atA), f.header;
    HeardRcv(e, f, now);
    if BytesOf(f.data) != [] {
      var z := OnTheWay(c, run, atA, f);
      var frame := T.DataFrame(p.streamId, p.streamOffset, f.data.value, p.isClose);
      A.ArrivalHas(z, frame, now);
      A.ArrivalAcknowledges(z, frame, now);
      Arrived(z, frame, now);
    } else {
      SameHas(Rcv.StreamOf(e.conn.rcv, p.streamId), p.streamOffset);
      assert e.conn.rcv.ackList + [] == e.conn.rcv.ackList;
    }
  }

  lemma {:induction false} Arrived(z: T.System, f: T.Frame, now: nat)
    requires f in z.net && f.DataFrame? && f.data != []
    ensures var rcv := Rcv.InsertData(z.rcv, f.sid, f.offset, f.data, now).0;
            T.Next(z, T.DataArrives(f, now)).rcv == if f.isClose then Rcv.CloseStream(rcv, f.sid, f.offset) else rcv
    ensures A.Owes(z, T.DataArrives(f, now)) ==
            if z.rcv.size + |f.data| <= z.rcv.capacity then [Ack(f.sid, f.offset, |f.data|, 0)] else []
  {
    hide Rcv.InsertData;
  }

  lemma {:induction false} SameHas(s: RcvStream.Stream, offset: nat)
    ensures forall p :: RA.Has(RcvStream.Close(s, offset), p) <==> RA.Has(s, p)
  {
    assert RcvStream.Close(s, offset).segments == s.segments;
  }

  // ---------- The closing mark in a frame ----------

  lemma {:induction false} AckKeepsEnd(st: Snd.State, h: Flight.History, p: PayloadHeader)
    requires StreamInv(Snd.StreamOf(st, p.streamId), h)
    ensures var st' := if p.ack.Some? then Snd.AcknowledgeRange(st, p.ack.value).0 else st;
            var s, s' := Snd.StreamOf(st, p.streamId), Snd.StreamOf(st', p.streamId);
            s'.closeAt == s.closeAt && s'.sentOffset + |s'.queued| == |h.all|
  {
  }

  lemma {:induction false} ClosesOut(e: End, h: Flight.History, f: Frame, now: nat)
    requires StreamInv(Snd.StreamOf(e.conn.snd, f.header.streamId), h)
    ensures var p := f.header; var closeAt := Snd.StreamOf(e.conn.snd, p.streamId).closeAt;
            Snd.StreamOf(Heard(e, f, now).snd, p.streamId).closeAt
            == if closeAt.None? && p.isClose then Some(|h.all|) else closeAt
  {
    hide Heard, StreamInv, Snd.AcknowledgeRange;
    HeardSnd(e, f, now);
    AckKeepsEnd(e.conn.snd, h, f.header);
  }

  lemma {:induction false} ClosesIn(e: End, f: Frame, now: nat)
    ensures var p := f.header; var closeAt := Rcv.StreamOf(e.conn.rcv, p.streamId).closeAt;
            Rcv.StreamOf(Heard(e, f, now).rcv, p.streamId).closeAt
            == if closeAt.None? && p.isClose then Some(p.streamOffset) else closeAt
  {
    hide Heard, RcvStream.Insert;
    var p := f.header;
    HeardRcv(e, f, now);
    Closing.InsertKeepsMark(Rcv.StreamOf(e.conn.rcv, p.streamId), p.streamOffset, BytesOf(f.data), now);
  }

  /** In every run, hearing a frame closes its stream in both directions exactly when the frame is marked: the sending
      side at what was written, the receiving side at the frame's offset; the first close counts. */
  lemma {:induction false} HearsClose(c: Capacities, run: seq<Step>, atA: bool, f: Frame, now: nat)
    ensures var e, sid := EndOf(Reached(c, run), atA), f.header.streamId; var conn' := Heard(e, f, now);
            var out, into := Snd.StreamOf(e.conn.snd, sid).closeAt, Rcv.StreamOf(e.conn.rcv, sid).closeAt;
            && Snd.StreamOf(conn'.snd, sid).closeAt
               == (if out.None? && f.header.isClose then Some(|Of(e.wrote, sid)|) else out)
            && Rcv.StreamOf(conn'.rcv, sid).closeAt
               == (if into.None? && f.header.isClose then Some(f.header.streamOffset) else into)
  {
    hide Reached, Heard, StreamInv, Rcv.AllStored;
    var e := EndOf(Reached(c, run), atA);
    var h := EndSound(c, run, atA, f.header.streamId);
    ClosesOut(e, h, f, now);
    ClosesIn(e, f, now);
  }
}
