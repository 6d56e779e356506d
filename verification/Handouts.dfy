/** Exactly what the send buffer hands out and when, said by the stream's past and in plain numbers: for new
    data, pings and closing marks, for retransmissions and for acknowledgements. */
module Handouts {
  import opened Common
  import opened EndToEnd
  import opened Flight
  import opened Guarantees
  import opened Messages
  import opened Ranges
  import opened SendDiscipline
  import opened Transport
  import OM = OrderedMap
  import SS = SendStream
  import Snd = SendState

  // ---------- Sending ----------

  /** A stream after a packet was put in flight for the first time. */
  function Sent(s: SS.Stream, k: Range, data: Bytes, now: nat, isPing: bool): SS.Stream {
    s.(inFlight := OM.Put(s.inFlight, k, SS.SendInfo(data, now, 1, isPing)))
  }

  /** What a stream with past `all` sends when there is room for `room` bytes: a ping that was asked for; else its
      next bytes; else, once it is closed, an empty packet at its end; else nothing. A packet is marked as the
      last exactly when it ends a closed stream. */
  ghost predicate SendsNext(s: SS.Stream, all: Bytes, room: nat, now: nat, s': SS.Stream, out: SS.Handout) {
    var sent, closed := s.sentOffset, s.closeAt.Some?;
    var end := sent + Min(room, |all| - sent);
    && sent <= |all|
    && (out.NoPacket? <==> !s.pingRequest && sent == |all| && !closed)
    && (out.NoPacket? ==> s' == s)
    && (s.pingRequest ==>
          out == SS.Packet([], 0, false) && s' == Sent(s, Range(sent, 0), [], now, true).(pingRequest := false))
    && (!s.pingRequest && sent == |all| && closed ==>
          out == SS.Packet([], |all|, true) && s' == Sent(s, Range(|all|, 0), [], now, false))
    && (!s.pingRequest && sent < |all| ==>
          && sent <= end <= |all|
          && out == SS.Packet(all[sent..end], sent, closed && end == |all|)
          && s' == Sent(s, Range(sent, end - sent), all[sent..end], now, false)
                   .(queued := all[end..], sentOffset := end))
  }

  lemma {:induction false} SendIsNext(s: SS.Stream, h: History, room: nat, now: nat)
    requires StreamInv(s, h) && room < U16
    ensures SendsNext(s, h.all, room, now, SS.Send(s, room, now).0, SS.Send(s, room, now).1)
  {
    hide FlightInv;
    if !s.pingRequest && s.queued != [] { SendIsNextData(s, h.all, room, now); }
  }

  lemma {:induction false} SendIsNextData(s: SS.Stream, all: Bytes, room: nat, now: nat)
    requires QueueOk(s, all) && room < U16 && !s.pingRequest && s.queued != []
    ensures SendsNext(s, all, room, now, SS.Send(s, room, now).0, SS.Send(s, room, now).1)
  {
    var n := Min(room, |s.queued|);
    assert s.queued[..n] == all[s.sentOffset..s.sentOffset + n];
    assert s.queued[n..] == all[s.sentOffset + n..];
  }

  lemma NothingToSend(room: nat, now: nat)
    ensures SS.Send(SS.EMPTY_STREAM, room, now) == (SS.EMPTY_STREAM, SS.NoPacket)
  {
  }

  /** A send of the system is that of its stream. */
  lemma {:induction false} StreamSends(z: System, sid: nat, t: MsgType, ack: Option<Ack>, mtu: nat, now: nat)
    requires MtuFits(t, ack, Snd.StreamOf(z.snd, sid).sentOffset, mtu)
    ensures var z' := Next(z, Send(sid, t, ack, mtu, now)); var s := Snd.StreamOf(z.snd, sid);
            var out, room := Snd.ReadyToSend(z.snd, sid, t, ack, mtu, now).1, MaxData(t, ack, s.sentOffset, mtu);
            && 0 <= room < U16 && (Snd.StreamOf(z'.snd, sid), out) == SS.Send(s, room, now)
            && z'.net == z.net + if out.Packet? then {DataFrame(sid, out.offset, out.data, out.isClose)} else {}
  {
    hide SS.Send, MtuFits, MaxData;
    var s := Snd.StreamOf(z.snd, sid);
    RoomIsSmall(t, ack, s.sentOffset, mtu);
    NothingToSend(MaxData(t, ack, s.sentOffset, mtu), now);
  }

  /** In every run a stream that is asked to send does exactly that, and the frame is on the network. */
  lemma {:induction false} SendsExactly(sndCapacity: nat, rcvCapacity: nat, run: seq<Step>,
                                        sid: nat, t: MsgType, ack: Option<Ack>, mtu: nat, now: nat)
    requires var s := Snd.StreamOf(Reached(sndCapacity, rcvCapacity, run).snd, sid); MtuFits(t, ack, s.sentOffset, mtu)
    ensures var z := Reached(sndCapacity, rcvCapacity, run); var z' := Next(z, Send(sid, t, ack, mtu, now));
            var s, s' := Snd.StreamOf(z.snd, sid), Snd.StreamOf(z'.snd, sid);
            var out, room := Snd.ReadyToSend(z.snd, sid, t, ack, mtu, now).1, MaxData(t, ack, s.sentOffset, mtu);
            && 0 <= room && SendsNext(s, HistOf(z, sid).all, room, now, s', out)
            && z'.net == z.net + if out.Packet? then {DataFrame(sid, out.offset, out.data, out.isClose)} else {}
  {
    hide StreamInv, SS.Send, MtuFits, MaxData, SendsNext, Next, Snd.ReadyToSend;
    var z := Reached(sndCapacity, rcvCapacity, run);
    var s := Snd.StreamOf(z.snd, sid);
    ReachedSound(sndCapacity, rcvCapacity, run, sid);
    StreamSends(z, sid, t, ack, mtu, now);
    SendIsNext(s, HistOf(z, sid), MaxData(t, ack, s.sentOffset, mtu), now);
  }

  // ---------- Sending again ----------

  /** The back-off does not run out of 64 bits. */
  predicate BackoffFits(s: SS.Stream, rto: nat) {
    SS.HasOldest(s) ==>
      var nr := SS.Oldest(s).sentNr;
      2 <= nr <= 5 ==> SS.Doubled(rto, nr - 2) * 200 < U64
  }

  /** The oldest packet may be sent again, and the time since it was last sent, in 64 bits, exceeds the timeout
      doubled for each earlier repetition. */
  predicate Overdue(s: SS.Stream, rto: nat, now: nat) {
    SS.HasOldest(s) &&
    var info := SS.Oldest(s);
    1 <= info.sentNr <= 5 && (now - info.sentTime) % U64 > SS.Doubled(rto, info.sentNr - 1)
  }

  /** The in-flight packets once the first is cut in two: the left part was sent again, and is last; the right
      part has the place, the time and the count of the whole. */
  ghost predicate CutInTwo(m: SS.InFlight, k: Range, room: nat, now: nat, m': SS.InFlight)
    requires m.keys != [] && k in m.vals && room < k.len == |m.vals[k].data|
  {
    var info := m.vals[k];
    var left, right := Range(k.offset, room), Range(k.offset + room, k.len - room);
    && m'.vals == (m.vals - {k})[left := SS.SendInfo(info.data[..room], now, info.sentNr + 1, false)]
                                [right := SS.SendInfo(info.data[room..], info.sentTime, info.sentNr, false)]
    && m'.keys == m.keys[0 := right] + (if left in m.vals then [] else [left])
  }

  lemma {:induction false} CutKeys(m: SS.InFlight, k: Range, l: Range, r: Range, li: SS.SendInfo, ri: SS.SendInfo)
    requires m.keys != [] && m.keys[0] == k && k in m.vals && l != k && (r == k || (r !in m.vals && r != l))
    ensures OM.Replace(OM.Put(OM.Put(m, l, li), k, ri), k, r, ri).keys
            == m.keys[0 := r] + (if l in m.vals then [] else [l])
  {
    var m2 := OM.Put(OM.Put(m, l, li), k, ri);
    assert m2.keys[0] == k && OM.IndexOf(m2.keys, k) == 0;
  }

  lemma {:induction false} CutVals(m: SS.InFlight, k: Range, l: Range, r: Range, li: SS.SendInfo, ri: SS.SendInfo)
    requires k in m.vals && l != k
    ensures (m.vals[l := li] - {k})[r := ri] == (m.vals - {k})[l := li][r := ri]
  {
    assert m.vals[l := li] - {k} == (m.vals - {k})[l := li];
  }

  lemma {:induction false} CutShape(s: SS.Stream, room: nat, now: nat)
    requires SS.HasOldest(s) && !SS.Oldest(s).isPing
    requires var k := s.inFlight.keys[0];
             && k.len == |SS.Oldest(s).data| && room < k.len < U16 && k.End() <= U48
             && (room > 0 ==> Range(k.offset + room, k.len - room) !in s.inFlight.vals)
    ensures CutInTwo(s.inFlight, s.inFlight.keys[0], room, now, SS.Split(s, room, now).0.inFlight)
  {
    hide OM.Put, OM.Replace;
    var m, k, info := s.inFlight, s.inFlight.keys[0], SS.Oldest(s);
    var l, r := Range(k.offset, room), Range(k.offset + room, k.len - room);
    var li, ri := SS.LeftInfo(info, room, now), SS.RightInfo(info, room);
    assert KeyRange(k.offset, room) == l && KeyRange(k.offset + room, |ri.data|) == r;
    SplitVals(m, k, l, r, li, ri);
    CutKeys(m, k, l, r, li, ri);
    CutVals(m, k, l, r, li, ri);
  }

  lemma {:induction false} CutExactly(s: SS.Stream, h: History, room: nat, now: nat)
    requires StreamInv(s, h) && SS.HasOldest(s) && SS.Oldest(s).sentNr <= 5 && room < s.inFlight.keys[0].len
    ensures var k := s.inFlight.keys[0];
            && k in s.inFlight.vals && k.len == |s.inFlight.vals[k].data|
            && CutInTwo(s.inFlight, k, room, now, SS.Split(s, room, now).0.inFlight)
  {
    hide FlightInv, OM.WellFormed, SS.Split, SplitMap, CutInTwo;
    OldestOk(s, h);
    SplitFlight(s.inFlight.vals, s.sentOffset, h, s.inFlight.keys[0], room, now);
    CutShape(s, room, now);
  }

  /** What a stream with past `all` does when asked to send again what is due: nothing unless the oldest packet is;
      a ping that is due is given up; any other packet goes out whole if there is room, else cut. After six
      transmissions it gives up. */
  ghost predicate SendsAgain(s: SS.Stream, all: Bytes, room: nat, due: bool, now: nat, s': SS.Stream, out: SS.Handout) {
    && (out.RetriesExhausted? <==> SS.HasOldest(s) && SS.Oldest(s).sentNr == 6)
    && (out.Packet? <==> due && SS.HasOldest(s) && !SS.Oldest(s).isPing)
    && !out.Panics?
    && (!due ==> s' == s)
    && (due ==>
          && SS.HasOldest(s)
          && var k, info := s.inFlight.keys[0], SS.Oldest(s);
          && k.End() <= |all| && info.data == all[k.offset..k.End()]
          && if info.isPing then s' == s.(inFlight := OM.Remove(s.inFlight, k))
             else if k.len <= room then
               && out == SS.Packet(all[k.offset..k.End()], k.offset, s.closeAt.Some? && k.End() == |all|)
               && s' == s.(inFlight := OM.Put(s.inFlight, k, SS.SendInfo(info.data, now, info.sentNr + 1, false)))
             else
               && out == SS.Packet(all[k.offset..k.offset + room], k.offset, false)
               && s' == s.(inFlight := s'.inFlight)
               && CutInTwo(s.inFlight, k, room, now, s'.inFlight))
  }

  /** The test the source makes. */
  predicate TimedOut(s: SS.Stream, rto: nat, now: nat) {
    SS.HasOldest(s) && 1 <= SS.Oldest(s).sentNr <= 5 && SS.Expired(SS.Oldest(s), rto, now)
  }

  lemma {:induction false} OverdueIsTimedOut(s: SS.Stream, rto: nat, now: nat)
    requires BackoffFits(s, rto)
    ensures Overdue(s, rto, now) <==> TimedOut(s, rto, now)
  {
    if SS.HasOldest(s) && 1 <= SS.Oldest(s).sentNr { SS.BackoffDoublesIff(rto, SS.Oldest(s).sentNr); }
  }

  lemma {:induction false} RetransmitIsAgain(s: SS.Stream, h: History, room: nat, rto: nat, now: nat)
    requires StreamInv(s, h) && room < U16
    ensures var (s', out) := SS.Retransmit(s, room, rto, now);
            SendsAgain(s, h.all, room, TimedOut(s, rto, now), now, s', out)
  {
    hide FlightInv, OM.WellFormed, SS.Backoff, SS.Expired, CutInTwo;
    if SS.HasOldest(s) {
      OldestOk(s, h);
      if TimedOut(s, rto, now) && room < s.inFlight.keys[0].len { CutExactly(s, h, room, now); }
    }
  }

  /** A retransmission of the system is that of its stream. */
  lemma {:induction false} StreamRepeats(z: System, sid: nat, t: MsgType, ack: Option<Ack>, mtu: nat, rto: nat,
                                         now: nat)
    requires MtuFits(t, ack, Snd.OldestOffset(Snd.StreamOf(z.snd, sid)), mtu)
    ensures var z' := Next(z, Retransmit(sid, t, ack, mtu, rto, now)); var s := Snd.StreamOf(z.snd, sid);
            var out := Snd.ReadyToRetransmit(z.snd, sid, ack, mtu, rto, t, now).1;
            && (Snd.StreamOf(z'.snd, sid), out) == SS.Retransmit(s, MaxData(t, ack, Snd.OldestOffset(s), mtu), rto, now)
            && z'.net == z.net + if out.Packet? then {DataFrame(sid, out.offset, out.data, out.isClose)} else {}
  {
    hide SS.Retransmit, MtuFits, MaxData;
    NothingToRepeat(MaxData(t, ack, Snd.OldestOffset(Snd.StreamOf(z.snd, sid)), mtu), rto, now);
  }

  lemma NothingToRepeat(room: int, rto: nat, now: nat)
    ensures SS.Retransmit(SS.EMPTY_STREAM, room, rto, now) == (SS.EMPTY_STREAM, SS.NoPacket)
  {
  }

  /** In every run a stream that is asked to send again does so exactly when its oldest packet is overdue, as long
      as the back-off fits 64 bits; and the frame is on the network. */
  lemma {:induction false} SendsAgainExactly(sndCapacity: nat, rcvCapacity: nat, run: seq<Step>, sid: nat,
                                             t: MsgType, ack: Option<Ack>, mtu: nat, rto: nat, now: nat)
    requires var s := Snd.StreamOf(Reached(sndCapacity, rcvCapacity, run).snd, sid);
             MtuFits(t, ack, Snd.OldestOffset(s), mtu) && BackoffFits(s, rto)
    ensures var z := Reached(sndCapacity, rcvCapacity, run); var z' := Next(z, Retransmit(sid, t, ack, mtu, rto, now));
            var s, s' := Snd.StreamOf(z.snd, sid), Snd.StreamOf(z'.snd, sid);
            var out := Snd.ReadyToRetransmit(z.snd, sid, ack, mtu, rto, t, now).1;
            var room := MaxData(t, ack, Snd.OldestOffset(s), mtu);
            && 0 <= room && SendsAgain(s, HistOf(z, sid).all, room, Overdue(s, rto, now), now, s', out)
            && z'.net == z.net + if out.Packet? then {DataFrame(sid, out.offset, out.data, out.isClose)} else {}
  {
    hide StreamInv, SS.Retransmit, MtuFits, MaxData, TimedOut, Overdue, BackoffFits, SendsAgain, Next,
         Snd.ReadyToRetransmit, Snd.OldestOffset;
    var z := Reached(sndCapacity, rcvCapacity, run);
    var s := Snd.StreamOf(z.snd, sid);
    RoomIsSmall(t, ack, Snd.OldestOffset(s), mtu);
    ReachedSound(sndCapacity, rcvCapacity, run, sid);
    OverdueIsTimedOut(s, rto, now);
    RetransmitIsAgain(s, HistOf(z, sid), MaxData(t, ack, Snd.OldestOffset(s), mtu), rto, now);
    StreamRepeats(z, sid, t, ack, mtu, rto, now);
  }
}
