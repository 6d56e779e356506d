/** What a flush puts on the wire and what hearing a frame does, for every run of two connections: said by what the
    applications wrote, by what the buffers store and by when bytes were sent. */
module Exchange {
  import opened Common
  import opened Connection
  import opened Duplex
  import opened Handouts
  import opened Messages
  import opened SendDiscipline
  import opened Wire
  import EndToEnd
  import Flight
  import G = Guarantees
  import Rcv = RcvState
  import RcvWindow
  import SS = SendStream
  import Snd = SendState
  import T = Transport

  function EndOf(d: Pair, atA: bool): End { if atA then d.a else d.b }

  function RcvCapacity(c: Capacities, atA: bool): nat { if atA then c.rcvA else c.rcvB }

  /** Both buffers of an end, in every run: each stream keeps the sender's discipline over what was written, and
      the receiver counts what it stores. */
  lemma {:induction false} EndSound(c: Capacities, run: seq<Step>, atA: bool, sid: nat) returns (h: Flight.History)
    ensures var e := EndOf(Reached(c, run), atA);
            && StreamInv(Snd.StreamOf(e.conn.snd, sid), h) && h.all == Of(e.wrote, sid)
            && e.conn.rcv.size == Rcv.AllStored(e.conn.rcv) <= e.conn.rcv.capacity == RcvCapacity(c, atA)
  {
    hide G.Reached, Reached, StreamInv, Rcv.AllStored;
    var ab, ba := RunMirrored(c, run);
    var d := Reached(c, run);
    var zab, zba := G.Reached(c.sndA, c.rcvB, ab), G.Reached(c.sndB, c.rcvA, ba);
    G.ReachedSound(c.sndA, c.rcvB, ab, sid);
    G.ReachedSound(c.sndB, c.rcvA, ba, sid);
    G.BuffersConserved(c.sndA, c.rcvB, ab);
    G.BuffersConserved(c.sndB, c.rcvA, ba);
    h := T.HistOf(if atA then zab else zba, sid);
    assert T.HistOf(zab, sid).all == Of(d.a.wrote, sid) && T.HistOf(zba, sid).all == Of(d.b.wrote, sid);
  }

  // ---------- Flushing ----------

  /** The acknowledgement that waited longest, with the room that is left in the receive buffer. */
  ghost function Waiting(rcv: Rcv.State): Option<Ack> {
    if rcv.ackList == [] then None
    else Some(rcv.ackList[0].(rcvWnd := (rcv.capacity - Rcv.AllStored(rcv)) % U64))
  }

  /** The frame a flush is to send for a stream to which `all` was written. Nothing while pacing, nor after six
      transmissions. An overdue packet, as much of it as there is room for; else a ping that was asked for; else the
      next bytes; else the mark that the stream is closed; and the acknowledgement with any of these, or alone. */
  ghost function Expected(s: SS.Stream, all: Bytes, ack: Option<Ack>, how: Flushing, done: bool): Option<Frame>
    requires s.sentOffset <= |all|
    requires Overdue(s, how.rto, how.now) ==> s.inFlight.keys[0].End() <= |all|
    requires MtuHolds(how.t, how.mtu)
  {
    var closed, alone := s.closeAt.Some?, Frame(PayloadHeader(done, ack, how.sid, 0), None);
    if how.paced || (!how.windowFull && SS.HasOldest(s) && SS.Oldest(s).sentNr == 6) then None
    else if how.windowFull then (if ack.Some? then Some(alone) else None)
    else if Overdue(s, how.rto, how.now) && !SS.Oldest(s).isPing then
      var k := s.inFlight.keys[0];
      HoldsFits(how.t, how.mtu, ack, k.offset);
      var end := k.offset + Min(MaxData(how.t, ack, k.offset, how.mtu), k.len);
      Some(Frame(PayloadHeader(closed && end == |all|, ack, how.sid, k.offset), Some(all[k.offset..end])))
    else if !how.maySend then (if ack.Some? then Some(alone) else None)
    else if s.pingRequest then Some(Frame(PayloadHeader(false, ack, how.sid, 0), Some([])))
    else if s.sentOffset < |all| then
      HoldsFits(how.t, how.mtu, ack, s.sentOffset);
      var end := s.sentOffset + Min(MaxData(how.t, ack, s.sentOffset, how.mtu), |all| - s.sentOffset);
      Some(Frame(PayloadHeader(closed && end == |all|, ack, how.sid, s.sentOffset), Some(all[s.sentOffset..end])))
    else if closed then Some(Frame(PayloadHeader(true, ack, how.sid, |all|), Some([])))
    else if ack.Some? || how.initPending then Some(alone)
    else None
  }

  lemma {:induction false} OverdueInside(s: SS.Stream, h: Flight.History)
    requires StreamInv(s, h)
    ensures s.sentOffset <= |h.all| && (SS.HasOldest(s) ==> s.inFlight.keys[0].End() <= |h.all|)
  {
    if SS.HasOldest(s) { OldestOk(s, h); }
  }

  /** The buffer's two operations are those of the stream. */
  lemma {:induction false} StreamOps(st: Snd.State, ack: Option<Ack>, how: Flushing)
    requires MtuHolds(how.t, how.mtu)
    ensures var s := Snd.StreamOf(st, how.sid); var room := MaxData(how.t, ack, Snd.OldestOffset(s), how.mtu);
            var (st', out) := Snd.ReadyToRetransmit(st, how.sid, ack, how.mtu, how.rto, how.t, how.now);
            0 <= room < U16 && (Snd.StreamOf(st', how.sid), out) == SS.Retransmit(s, room, how.rto, how.now)
    ensures var s := Snd.StreamOf(st, how.sid); var room := MaxData(how.t, ack, s.sentOffset, how.mtu);
            var (st', out) := Snd.ReadyToSend(st, how.sid, how.t, ack, how.mtu, how.now);
            0 <= room < U16 && (Snd.StreamOf(st', how.sid), out) == SS.Send(s, room, how.now)
  {
    hide SS.Retransmit, SS.Send, MtuFits, MaxData, MtuHolds;
    var s := Snd.StreamOf(st, how.sid);
    HoldsFits(how.t, how.mtu, ack, Snd.OldestOffset(s));
    HoldsFits(how.t, how.mtu, ack, s.sentOffset);
    EndToEnd.RoomIsSmall(how.t, ack, Snd.OldestOffset(s), how.mtu);
    EndToEnd.RoomIsSmall(how.t, ack, s.sentOffset, how.mtu);
    NothingToRepeat(MaxData(how.t, ack, Snd.OldestOffset(s), how.mtu), how.rto, how.now);
    NothingToSend(MaxData(how.t, ack, s.sentOffset, how.mtu), how.now);
  }

  /** What is sent again, if anything. */
  lemma {:induction false} RepeatExpected(s: SS.Stream, h: Flight.History, ack: Option<Ack>, how: Flushing, done: bool)
    requires StreamInv(s, h) && MtuHolds(how.t, how.mtu) && BackoffFits(s, how.rto) && !how.paced && !how.windowFull
    requires s.sentOffset <= |h.all| && (SS.HasOldest(s) ==> s.inFlight.keys[0].End() <= |h.all|)
    ensures var room := MaxData(how.t, ack, Snd.OldestOffset(s), how.mtu);
            0 <= room < U16
            && var (s', out) := SS.Retransmit(s, room, how.rto, how.now);
            && !out.Panics? && (out.RetriesExhausted? ==> Expected(s, h.all, ack, how, done) == None)
            && (out.Packet? ==> Expected(s, h.all, ack, how, done) == Some(PacketOut(how.sid, ack, out)))
            && (out.NoPacket? ==>
                  && StreamInv(s', h) && s' == s.(inFlight := s'.inFlight)
                  && !(Overdue(s, how.rto, how.now) && !SS.Oldest(s).isPing)
                  && !(SS.HasOldest(s) && SS.Oldest(s).sentNr == 6))
  {
    hide StreamInv, SS.Retransmit, TimedOut, CutInTwo, MaxData, MtuHolds, MtuFits, Overdue, BackoffFits;
    var offset := Snd.OldestOffset(s);
    HoldsFits(how.t, how.mtu, ack, offset);
    EndToEnd.RoomIsSmall(how.t, ack, offset, how.mtu);
    var room := MaxData(how.t, ack, offset, how.mtu);
    OverdueIsTimedOut(s, how.rto, how.now);
    RetransmitIsAgain(s, h, room, how.rto, how.now);
    RetransmitKeeps(s, h, room, how.rto, how.now);
  }

  /** What is sent otherwise. */
  lemma {:induction false} SendExpected(s: SS.Stream, s1: SS.Stream, h: Flight.History, ack: Option<Ack>,
                                        how: Flushing, done: bool)
    requires StreamInv(s1, h) && MtuHolds(how.t, how.mtu) && !how.paced && !how.windowFull && how.maySend
    requires s1 == s.(inFlight := s1.inFlight) && s.sentOffset <= |h.all|
    requires SS.HasOldest(s) ==> s.inFlight.keys[0].End() <= |h.all| && SS.Oldest(s).sentNr != 6
    requires !(Overdue(s, how.rto, how.now) && !SS.Oldest(s).isPing)
    ensures var room := MaxData(how.t, ack, s.sentOffset, how.mtu);
            0 <= room < U16
            && var out := SS.Send(s1, room, how.now).1;
            && (out.Packet? || out.NoPacket?)
            && (out.Packet? ==> Expected(s, h.all, ack, how, done) == Some(PacketOut(how.sid, ack, out)))
            && var alone := Frame(PayloadHeader(done, ack, how.sid, 0), None);
               (out.NoPacket? ==>
                  Expected(s, h.all, ack, how, done) == if ack.Some? || how.initPending then Some(alone) else None)
  {
    hide StreamInv, SS.Send, MaxData, MtuHolds, MtuFits, Overdue;
    HoldsFits(how.t, how.mtu, ack, s.sentOffset);
    EndToEnd.RoomIsSmall(how.t, ack, s.sentOffset, how.mtu);
    SendIsNext(s1, h, MaxData(how.t, ack, s.sentOffset, how.mtu), how.now);
  }

  lemma {:induction false} FlushIsExpected(st: Snd.State, h: Flight.History, ack: Option<Ack>, how: Flushing)
    requires StreamInv(Snd.StreamOf(st, how.sid), h) && MtuHolds(how.t, how.mtu)
    requires BackoffFits(Snd.StreamOf(st, how.sid), how.rto)
    ensures var s := Snd.StreamOf(st, how.sid); var (st', frame) := FlushOut(st, ack, how);
            && s.sentOffset <= |h.all| && (SS.HasOldest(s) ==> s.inFlight.keys[0].End() <= |h.all|)
            && var expected := Expected(s, h.all, ack, how, FullyAcked(st', how.sid));
               frame == if how.t.InitSnd? && expected.Some? then Some(OPENING) else expected
  {
    hide StreamInv, Snd.ReadyToSend, Snd.ReadyToRetransmit, MaxData, MtuHolds, MtuFits, FullyAcked, BackoffFits,
         SS.Send, SS.Retransmit;
    var s := Snd.StreamOf(st, how.sid);
    OverdueInside(s, h);
    if !how.paced && !how.windowFull {
      var (st1, again) := Snd.ReadyToRetransmit(st, how.sid, ack, how.mtu, how.rto, how.t, how.now);
      var done := FullyAcked(FlushOut(st, ack, how).0, how.sid);
      StreamOps(st, ack, how);
      RepeatExpected(s, h, ack, how, done);
      if again.NoPacket? && how.maySend {
        StreamOps(st1, ack, how);
        SendExpected(s, Snd.StreamOf(st1, how.sid), h, ack, how, done);
      }
    }
  }

  /** In every run, as long as the back-off fits 64 bits, a flush sends exactly what is expected of it for what was
      written, with the acknowledgement that waited longest and the room left in the receive buffer; and takes that
      acknowledgement off the list. */
  lemma {:induction false} FlushExactly(c: Capacities, run: seq<Step>, atA: bool, how: Flushing)
    requires MtuHolds(how.t, how.mtu) && how.sid < U32
    requires BackoffFits(Snd.StreamOf(EndOf(Reached(c, run), atA).conn.snd, how.sid), how.rto)
    ensures var e := EndOf(Reached(c, run), atA); var s, all := Snd.StreamOf(e.conn.snd, how.sid), Of(e.wrote, how.sid);
            var (e', frame) := Act(e, Flush(how));
            && e'.conn.rcv == e.conn.rcv.(ackList := if e.conn.rcv.ackList == [] then [] else e.conn.rcv.ackList[1..])
            && s.sentOffset <= |all| && (SS.HasOldest(s) ==> s.inFlight.keys[0].End() <= |all|)
            && var expected := Expected(s, all, Waiting(e.conn.rcv), how, FullyAcked(e'.conn.snd, how.sid));
               frame == if how.t.InitSnd? && expected.Some? then Some(OPENING) else expected
  {
    hide StreamInv, Reached, FlushOut, FullyAcked, MtuHolds, BackoffFits, Expected, Rcv.AllStored;
    var e := EndOf(Reached(c, run), atA);
    var h := EndSound(c, run, atA, how.sid);
    FlushIsExpected(e.conn.snd, h, Popped(e.conn.rcv), how);
    assert Popped(e.conn.rcv) == Waiting(e.conn.rcv);
  }

  /** In every run, an acknowledgement announces the room that is left, and what arrives of it after the rounding on
      the wire is at most that room, exactly unless there are 1 to 127 bytes of it. */
  lemma {:induction false} WindowIsRoom(c: Capacities, run: seq<Step>, atA: bool, how: Flushing)
    requires MtuHolds(how.t, how.mtu) && how.sid < U32 && RcvCapacity(c, atA) < U64
    ensures var e := EndOf(Reached(c, run), atA); var frame := Act(e, Flush(how)).1;
            frame.Some? && frame.value.header.ack.Some? ==>
              var room := RcvCapacity(c, atA) - Rcv.AllStored(e.conn.rcv);
              && 0 <= room && frame.value.header.ack.value.rcvWnd == room
              && var arrived := Arrives(frame.value.header, frame.value.data).header.ack.value.rcvWnd;
                 arrived <= room <==> room == 0 || 128 <= room
  {
    hide StreamInv, Reached, FlushOut, MtuHolds, Rcv.AllStored, RcvWindow.Encode, RcvWindow.Decode;
    var e := EndOf(Reached(c, run), atA);
    var h := EndSound(c, run, atA, how.sid);
    FlushCarries(e.conn.snd, Popped(e.conn.rcv), how);
    RcvWindow.NeverOverstatedIff(RcvCapacity(c, atA) - Rcv.AllStored(e.conn.rcv));
  }

  /** A flush sends the acknowledgement that waited longest exactly unless it is paced, its stream has run out of
      retries, or the packet is the opening one; in those cases the acknowledgement is dropped. */
  lemma {:induction false} AckSentIff(c: Capacities, run: seq<Step>, atA: bool, how: Flushing)
    requires MtuHolds(how.t, how.mtu) && how.sid < U32
    requires BackoffFits(Snd.StreamOf(EndOf(Reached(c, run), atA).conn.snd, how.sid), how.rto)
    requires EndOf(Reached(c, run), atA).conn.rcv.ackList != []
    ensures var e := EndOf(Reached(c, run), atA); var s := Snd.StreamOf(e.conn.snd, how.sid);
            var frame := Act(e, Flush(how)).1;
            frame.Some? && frame.value.header.ack == Waiting(e.conn.rcv) <==>
              !how.paced && !how.t.InitSnd? && (how.windowFull || !(SS.HasOldest(s) && SS.Oldest(s).sentNr == 6))
  {
    hide StreamInv, Reached, FlushOut, FullyAcked, MtuHolds, BackoffFits, Rcv.AllStored, Act, Overdue;
    FlushExactly(c, run, atA, how);
  }
}
