/** The invariant of the joined system, and what follows for every run. */
module EndToEnd {
  import opened Common
  import opened Flight
  import opened Messages
  import opened Ranges
  import opened Reassembly
  import opened SendDiscipline
  import opened Transport
  import RS = RcvStream
  import Rcv = RcvState
  import SS = SendStream
  import Snd = SendState

  /** Both ends of one stream with its past. */
  datatype Channel = Channel(s: SS.Stream, h: History, r: RS.Stream, delivered: Bytes)

  ghost function ChannelOf(z: System, sid: nat): Channel {
    Channel(Snd.StreamOf(z.snd, sid), HistOf(z, sid), Rcv.StreamOf(z.rcv, sid), DeliveredOf(z, sid))
  }

  /** Every position of the range has been read or is stored. */
  ghost predicate HasRange(r: RS.Stream, a: Range) {
    forall p :: a.Holds(p) ==> Has(r, p)
  }

  /** Stored segments are ranges the sender handed out, whole. */
  ghost predicate FromLog(m: RS.Segments, log: seq<Range>) {
    forall k :: k in m ==> At(k, m[k]) in log
  }

  ghost predicate AckedHeld(acked: set<Range>, r: RS.Stream) {
    forall a :: a in acked ==> HasRange(r, a)
  }

  ghost predicate ReceiverInv(r: RS.Stream, delivered: Bytes, h: History) {
    && PrefixInv(r, delivered, h.all)
    && Proper(r.segments)
    && FromLog(r.segments, h.log)
    && AckedHeld(h.acked, r)
  }

  ghost predicate ChannelInv(c: Channel) {
    StreamInv(c.s, c.h) && ReceiverInv(c.r, c.delivered, c.h)
  }

  /** The channels that meet the invariant. */
  ghost function Sound(): iset<Channel> {
    iset c: Channel | ChannelInv(c)
  }

  /** A frame on the network carries a handed-out range with the stream's bytes, and is marked as
      the last only when it ends where the closed stream ends; or it acknowledges a range that the
      receiver has. */
  ghost predicate FrameOk(z: System, f: Frame) {
    match f
    case DataFrame(sid, offset, data, isClose) =>
      var h := HistOf(z, sid);
      && (data != [] ==> |data| < U16 && Range(offset, |data|) in h.log && Truthful(Range(offset, |data|), data, h.all))
      && (isClose ==> Snd.StreamOf(z.snd, sid).closeAt.Some? && offset + |data| == |h.all|)
    case AckFrame(a) => AckHeld(z, a)
  }

  ghost predicate AckHeld(z: System, a: Ack) {
    0 < a.len ==>
      a.offset < U48 && a.len < U16 && HasRange(Rcv.StreamOf(z.rcv, a.streamId), Range(a.offset, a.len))
  }

  ghost predicate FramesOk(z: System) {
    forall f :: f in z.net ==> FrameOk(z, f)
  }

  ghost predicate AcksHeld(z: System) {
    forall i :: 0 <= i < |z.rcv.ackList| ==> AckHeld(z, z.rcv.ackList[i])
  }

  ghost predicate ChannelsInv(z: System) {
    forall sid: nat :: ChannelOf(z, sid) in Sound()
  }

  ghost predicate Inv(z: System) {
    && ChannelsInv(z)
    && FramesOk(z)
    && AcksHeld(z)
    && Snd.Accounted(z.snd)
    && Rcv.Accounted(z.rcv)
  }

  // ---------- What a step may change ----------

  /** The past only grows, and what the receiver has it keeps. */
  ghost predicate Grows(c: Channel, c': Channel) {
    && c.h.all <= c'.h.all
    && c.h.log <= c'.h.log
    && (forall p :: Has(c.r, p) ==> Has(c'.r, p))
    && (c.s.closeAt.Some? ==> c'.s.closeAt == c.s.closeAt && c'.h.all == c.h.all)
  }

  ghost predicate AllGrow(z: System, z': System) {
    forall sid: nat :: Grows(ChannelOf(z, sid), ChannelOf(z', sid))
  }

  lemma {:induction false} FrameStays(z: System, z': System, f: Frame)
    requires AllGrow(z, z') && FrameOk(z, f)
    ensures FrameOk(z', f)
  {
    match f
    case DataFrame(sid, offset, data, _) =>
      assert Grows(ChannelOf(z, sid), ChannelOf(z', sid));
      if data != [] {
        var r := Range(offset, |data|);
        var h, h' := HistOf(z, sid), HistOf(z', sid);
        assert r in h.log && h.log == h'.log[..|h.log|];
        assert h.all == h'.all[..|h.all|];
        assert h.all[r.offset..r.End()] == h'.all[r.offset..r.End()];
      }
    case AckFrame(a) => AckStays(z, z', a);
  }

  lemma {:induction false} AckStays(z: System, z': System, a: Ack)
    requires AllGrow(z, z') && AckHeld(z, a)
    ensures AckHeld(z', a)
  {
    assert Grows(ChannelOf(z, a.streamId), ChannelOf(z', a.streamId));
  }

  /** Only stream `sid` changed between z and z'. */
  ghost predicate OnlyTouches(z: System, z': System, sid: nat) {
    forall o: nat :: o != sid ==> ChannelOf(z', o) == ChannelOf(z, o)
  }

  /** A step on one stream keeps the invariant when the stream's new channel c' is sound, only
      proper frames and acknowledgements are added, and both sizes are kept. */
  lemma {:induction false} Assemble(z: System, z': System, sid: nat, c': Channel, newFrames: set<Frame>,
                                    newAcks: seq<Ack>)
    requires Inv(z) && OnlyTouches(z, z', sid) && ChannelOf(z', sid) == c'
    requires c' in Sound() && Grows(ChannelOf(z, sid), c')
    requires z'.net <= z.net + newFrames && forall f :: f in newFrames ==> FrameOk(z', f)
    requires z'.rcv.ackList == z.rcv.ackList + newAcks && forall i :: 0 <= i < |newAcks| ==> AckHeld(z', newAcks[i])
    requires Snd.Accounted(z'.snd) && Rcv.Accounted(z'.rcv)
    ensures Inv(z')
  {
    Lift(z, z', sid);
    forall f | f in z'.net ensures FrameOk(z', f) {
      if f !in newFrames { FrameStays(z, z', f); }
    }
    forall i | 0 <= i < |z'.rcv.ackList| ensures AckHeld(z', z'.rcv.ackList[i]) {
      if i < |z.rcv.ackList| { AckStays(z, z', z.rcv.ackList[i]); }
    }
  }

  lemma {:induction false} Lift(z: System, z': System, sid: nat)
    requires ChannelsInv(z) && OnlyTouches(z, z', sid)
    requires ChannelOf(z', sid) in Sound() && Grows(ChannelOf(z, sid), ChannelOf(z', sid))
    ensures ChannelsInv(z') && AllGrow(z, z')
  {
    forall o: nat ensures ChannelOf(z', o) in Sound() && Grows(ChannelOf(z, o), ChannelOf(z', o)) {
      if o != sid {
        assert ChannelOf(z', o) == ChannelOf(z, o);
        assert ChannelOf(z, o) in Sound();
      }
    }
  }

  /** A step at the sender, seen from the channels. */
  lemma {:induction false} SenderTouches(z: System, z': System, sid: nat, s': SS.Stream, h': History)
    requires z'.rcv == z.rcv && z'.delivered == z.delivered
    requires z'.snd.streams == z.snd.streams[sid := s']
             || (z'.snd.streams == z.snd.streams && s' == Snd.StreamOf(z.snd, sid))
    requires z'.hist == z.hist[sid := h'] || (z'.hist == z.hist && h' == HistOf(z, sid))
    ensures OnlyTouches(z, z', sid)
    ensures ChannelOf(z', sid) == ChannelOf(z, sid).(s := s', h := h')
  {
    forall o: nat | o != sid ensures ChannelOf(z', o) == ChannelOf(z, o) {
      assert Snd.StreamOf(z'.snd, o) == Snd.StreamOf(z.snd, o) && HistOf(z', o) == HistOf(z, o);
    }
  }

  /** A step at the receiver, seen from the channels. */
  lemma {:induction false} ReceiverTouches(z: System, z': System, sid: nat, r': RS.Stream, d': Bytes)
    requires z'.snd == z.snd && z'.hist == z.hist
    requires z'.rcv.streams == z.rcv.streams[sid := r']
             || (z'.rcv.streams == z.rcv.streams && r' == Rcv.StreamOf(z.rcv, sid))
    requires z'.delivered == z.delivered[sid := d'] || (z'.delivered == z.delivered && d' == DeliveredOf(z, sid))
    ensures OnlyTouches(z, z', sid)
    ensures ChannelOf(z', sid) == ChannelOf(z, sid).(r := r', delivered := d')
  {
    forall o: nat | o != sid ensures ChannelOf(z', o) == ChannelOf(z, o) {
      assert Rcv.StreamOf(z'.rcv, o) == Rcv.StreamOf(z.rcv, o) && DeliveredOf(z', o) == DeliveredOf(z, o);
    }
  }

  /** `Assemble` for a step at the sender. */
  lemma {:induction false} SenderStep(z: System, z': System, sid: nat, s': SS.Stream, h': History, frames: set<Frame>)
    requires Inv(z) && z'.rcv == z.rcv && z'.delivered == z.delivered
    requires z'.snd.streams == z.snd.streams[sid := s']
             || (z'.snd.streams == z.snd.streams && s' == Snd.StreamOf(z.snd, sid))
    requires z'.hist == z.hist[sid := h'] || (z'.hist == z.hist && h' == HistOf(z, sid))
    requires var c := ChannelOf(z, sid); c.(s := s', h := h') in Sound() && Grows(c, c.(s := s', h := h'))
    requires z'.net <= z.net + frames && forall f :: f in frames ==> FrameOk(z', f)
    requires Snd.Accounted(z'.snd)
    ensures Inv(z')
  {
    hide FrameOk, Grows, Sound, Snd.Accounted, Rcv.Accounted;
    SenderTouches(z, z', sid, s', h');
    Assemble(z, z', sid, ChannelOf(z, sid).(s := s', h := h'), frames, []);
  }

  /** `Assemble` for a step at the receiver. */
  lemma {:induction false} ReceiverStep(z: System, z': System, sid: nat, r': RS.Stream, d': Bytes, acks: seq<Ack>)
    requires Inv(z) && z'.snd == z.snd && z'.hist == z.hist && z'.net == z.net
    requires z'.rcv.streams == z.rcv.streams[sid := r']
             || (z'.rcv.streams == z.rcv.streams && r' == Rcv.StreamOf(z.rcv, sid))
    requires z'.delivered == z.delivered[sid := d'] || (z'.delivered == z.delivered && d' == DeliveredOf(z, sid))
    requires var c := ChannelOf(z, sid); var c' := c.(r := r', delivered := d'); c' in Sound() && Grows(c, c')
    requires z'.rcv.ackList == z.rcv.ackList + acks && forall i :: 0 <= i < |acks| ==> AckHeld(z', acks[i])
    requires Rcv.Accounted(z'.rcv)
    ensures Inv(z')
  {
    ReceiverTouches(z, z', sid, r', d');
    Assemble(z, z', sid, ChannelOf(z, sid).(r := r', delivered := d'), {}, acks);
  }

  // ---------- Receiver side of one stream ----------

  /** A longer past changes nothing for the receiver. */
  lemma {:induction false} ReceiverMore(r: RS.Stream, delivered: Bytes, h: History, h': History)
    requires ReceiverInv(r, delivered, h)
    requires h.all <= h'.all && h.log <= h'.log && h'.acked == h.acked
    ensures ReceiverInv(r, delivered, h')
  {
    assert h.all == h'.all[..|h.all|] && h.log == h'.log[..|h.log|];
    forall k | k in r.segments
      ensures Truthful(At(k, r.segments[k]), r.segments[k].data, h'.all) && At(k, r.segments[k]) in h'.log
    {
      var a := At(k, r.segments[k]);
      assert h.all[a.offset..a.End()] == h'.all[a.offset..a.End()];
    }
  }

  /** Any two ranges ever handed out are nested or apart. */
  lemma {:induction false} LogNests(s: SS.Stream, h: History, a: Range, b: Range)
    requires StreamInv(s, h) && a in h.log && b in h.log
    ensures NestedOrApart(a, b) && 0 < a.len
  {
    var i :| 0 <= i < |h.log| && h.log[i] == a;
    var j :| 0 <= j < |h.log| && h.log[j] == b;
    if i < j { assert NestedOrApart(h.log[i], h.log[j]); }
    if j < i { assert NestedOrApart(h.log[j], h.log[i]); }
  }

  lemma {:induction false} NothingCrosses(c: Channel, a: Range)
    requires ChannelInv(c) && a in c.h.log
    ensures NoCrossing(c.r.segments, a)
  {
    forall k | k in c.r.segments ensures NestedOrApart(At(k, c.r.segments[k]), a) {
      LogNests(c.s, c.h, At(k, c.r.segments[k]), a);
    }
  }

  /** A handed-out range arrives: no integrity panic, it is then held in full, nothing held before is
      lost, and the size follows. */
  lemma {:induction false} ArrivalKeeps(c: Channel, offset: nat, data: Bytes, now: nat)
    requires ChannelInv(c) && 0 < |data|
    requires Range(offset, |data|) in c.h.log && Truthful(Range(offset, |data|), data, c.h.all)
    ensures var o := RS.Insert(c.r, offset, data, now);
            && !o.status.Panic? && !o.status.BufferFull?
            && ReceiverInv(o.stream, c.delivered, c.h)
            && HasRange(o.stream, Range(offset, |data|))
            && (forall p :: Has(c.r, p) ==> Has(o.stream, p))
            && o.growth == StoredBytes(o.stream.segments) - StoredBytes(c.r.segments) && o.growth <= |data|
  {
    NothingCrosses(c, Range(offset, |data|));
    InsertNeverPanics(c.r, offset, data, now, c.h.all);
    InsertAddsExactly(c.r, offset, data, now);
    InsertGrowth(c.r, offset, data, now);
    InsertTruthful(c.r, offset, data, now, c.h.all);
    InsertNoCrossing(c.r, offset, data, now);
    var r' := RS.Insert(c.r, offset, data, now).stream;
    assert FromLog(r'.segments, c.h.log) by {
      forall k | k in r'.segments ensures At(k, r'.segments[k]) in c.h.log {
        if k == offset && r'.segments[k] == RS.Seg(data, now) { assert At(k, r'.segments[k]) == Range(offset, |data|); }
      }
    }
  }

  lemma {:induction false} ReadKeeps(c: Channel)
    requires ChannelInv(c)
    ensures var (r', seg) := RS.Read(c.r);
            && ReceiverInv(r', Delivered(c.delivered, seg), c.h)
            && (forall p :: Has(c.r, p) ==> Has(r', p))
  {
    ReadKeepsPrefix(c.r, c.delivered, c.h.all);
    ReadKeepsAll(c.r);
  }

  // ---------- One stream through each step ----------

  lemma {:induction false} WriteChannel(c: Channel, chunk: Bytes)
    requires c in Sound() && c.s.closeAt.None? && |c.h.all| + |chunk| < U48
    ensures var c' := c.(s := c.s.(queued := c.s.queued + chunk), h := c.h.(all := c.h.all + chunk));
            c' in Sound() && Grows(c, c') && Held(c'.s) == Held(c.s) + |chunk|
  {
    QueueKeeps(c.s, c.h, chunk);
    ReceiverMore(c.r, c.delivered, c.h, c.h.(all := c.h.all + chunk));
  }

  lemma {:induction false} LoggedGrows(h: History, out: SS.Handout)
    ensures var h' := Logged(h, out); h'.all == h.all && h'.acked == h.acked && h.log <= h'.log
  {
  }

  lemma {:induction false} HandOutChannel(c: Channel, s': SS.Stream, out: SS.Handout)
    requires c in Sound() && StreamInv(s', Logged(c.h, out)) && s'.closeAt == c.s.closeAt
    ensures var c' := c.(s := s', h := Logged(c.h, out)); c' in Sound() && Grows(c, c')
  {
    LoggedGrows(c.h, out);
    ReceiverMore(c.r, c.delivered, c.h, Logged(c.h, out));
  }

  lemma {:induction false} SenderFlagsChannel(c: Channel)
    requires c in Sound()
    ensures c.(s := c.s.(pingRequest := true)) in Sound() && Held(c.s.(pingRequest := true)) == Held(c.s)
    ensures c.(s := SS.Close(c.s)) in Sound() && Held(SS.Close(c.s)) == Held(c.s)
  {
    CloseKeeps(c.s, c.h);
  }

  lemma {:induction false} AckChannel(c: Channel, offset: nat, len: nat)
    requires c in Sound()
    requires 0 < len ==> offset < U48 && len < U16 && HasRange(c.r, Range(offset, len))
    ensures var k := KeyRange(offset, len);
            var c' := c.(s := SS.Acknowledge(c.s, offset, len), h := Acked(c.s, c.h, k));
            && c' in Sound() && Grows(c, c')
            && Held(c'.s) == Held(c.s) - (if k in c.s.inFlight.vals then k.len else 0)
            && (k in c.s.inFlight.vals ==> |c.s.inFlight.vals[k].data| == k.len)
  {
    hide StreamInv, Held, PrefixInv;
    AcknowledgeKeeps(c.s, c.h, offset, len);
    assert ReceiverInv(c.r, c.delivered, Acked(c.s, c.h, KeyRange(offset, len)));
  }

  lemma {:induction false} ArriveChannel(c: Channel, offset: nat, data: Bytes, now: nat)
    requires c in Sound() && 0 < |data|
    requires Range(offset, |data|) in c.h.log && Truthful(Range(offset, |data|), data, c.h.all)
    ensures var o := RS.Insert(c.r, offset, data, now); var c' := c.(r := o.stream);
            && c' in Sound() && Grows(c, c') && HasRange(c'.r, Range(offset, |data|))
            && o.growth == StoredBytes(o.stream.segments) - StoredBytes(c.r.segments) && o.growth <= |data|
            && offset + |data| < U48
  {
    ArrivalKeeps(c, offset, data, now);
    LogInside(c.s, c.h, Range(offset, |data|));
  }

  lemma {:induction false} LogInside(s: SS.Stream, h: History, a: Range)
    requires StreamInv(s, h) && a in h.log
    ensures a.End() <= |h.all| < U48
  {
    var i :| 0 <= i < |h.log| && h.log[i] == a;
  }

  lemma {:induction false} ReceiverCloseChannel(c: Channel, offset: nat)
    requires c in Sound()
    ensures var c' := c.(r := RS.Close(c.r, offset)); c' in Sound() && Grows(c, c')
  {
    assert forall p :: Has(c.r, p) <==> Has(RS.Close(c.r, offset), p);
  }

  lemma {:induction false} ReadChannel(c: Channel)
    requires c in Sound()
    ensures var (r', seg) := RS.Read(c.r); var c' := c.(r := r', delivered := Delivered(c.delivered, seg));
            c' in Sound() && Grows(c, c')
  {
    ReadKeeps(c);
  }

  // ---------- Every step keeps the invariant ----------

  lemma {:induction false} WriteInv(z: System, sid: nat, data: Bytes)
    requires Inv(z) && Snd.StreamOf(z.snd, sid).closeAt.None? && |HistOf(z, sid).all| + |data| < U48
    ensures Inv(DoWrite(z, sid, data))
  {
    hide FrameOk, Grows, Sound, Rcv.Accounted, StreamInv, Held, Snd.HeldBytes;
    var c, z' := ChannelOf(z, sid), DoWrite(z, sid, data);
    var chunk := data[..Snd.QueueData(z.snd, sid, data).1];
    WriteChannel(c, chunk);
    var s', h' := c.s.(queued := c.s.queued + chunk), c.h.(all := c.h.all + chunk);
    Snd.QueueTakesPrefix(z.snd, sid, data);
    assert chunk == [] ==> s' == c.s;
    SenderStep(z, z', sid, s', h', {});
  }

  /** A change of one send stream that keeps its discipline and its bytes. */
  lemma {:induction false} HandOutInv(z: System, sid: nat, s': SS.Stream, out: SS.Handout)
    requires Inv(z)
    requires var c := ChannelOf(z, sid);
             && StreamInv(s', Logged(c.h, out)) && Held(s') == Held(c.s) && s'.closeAt == c.s.closeAt
             && HandoutOk(c.s, c.h.all, out)
    requires out.Packet? ==> |out.data| < U16
    ensures Inv(HandOut(z, sid, z.snd.(streams := z.snd.streams[sid := s']), out))
  {
    hide StreamInv, Held, Truthful, AckHeld, Snd.HeldBytes, Rcv.Accounted, Sound;
    var c, z' := ChannelOf(z, sid), HandOut(z, sid, z.snd.(streams := z.snd.streams[sid := s']), out);
    HandOutChannel(c, s', out);
    Snd.AccountedUpdate(z.snd, z'.snd, sid, s');
    var frames := if out.Packet? then {DataFrame(sid, out.offset, out.data, out.isClose)} else {};
    assert HistOf(z', sid) == Logged(c.h, out);
    SenderStep(z, z', sid, s', Logged(c.h, out), frames);
  }

  lemma {:induction false} NothingHappened(z: System, sid: nat)
    requires Inv(z)
    ensures Inv(HandOut(z, sid, z.snd, SS.NoPacket))
  {
    SenderStep(z, HandOut(z, sid, z.snd, SS.NoPacket), sid, Snd.StreamOf(z.snd, sid), HistOf(z, sid), {});
  }

  lemma {:induction false} RoomIsSmall(t: MsgType, ack: Option<Ack>, offset: nat, mtu: nat)
    requires MtuFits(t, ack, offset, mtu)
    ensures 0 <= MaxData(t, ack, offset, mtu) < U16
  {
  }

  lemma {:induction false} SendInv(z: System, sid: nat, t: MsgType, ack: Option<Ack>, mtu: nat, now: nat)
    requires Inv(z) && MtuFits(t, ack, Snd.StreamOf(z.snd, sid).sentOffset, mtu)
    ensures var (snd', out) := Snd.ReadyToSend(z.snd, sid, t, ack, mtu, now); Inv(HandOut(z, sid, snd', out))
  {
    hide StreamInv, SS.Send, Held, MtuFits, MaxData, HandOut, ReceiverInv, FramesOk, AcksHeld;
    var c := ChannelOf(z, sid);
    assert c in Sound();
    if sid in z.snd.streams {
      var maxData := MaxData(t, ack, c.s.sentOffset, mtu);
      RoomIsSmall(t, ack, c.s.sentOffset, mtu);
      SendKeeps(c.s, c.h, maxData, now);
      HandOutInv(z, sid, SS.Send(c.s, maxData, now).0, SS.Send(c.s, maxData, now).1);
    } else {
      NothingHappened(z, sid);
    }
  }

  lemma {:induction false} RetransmitInv(z: System, sid: nat, t: MsgType, ack: Option<Ack>, mtu: nat, rto: nat,
                                         now: nat)
    requires Inv(z) && MtuFits(t, ack, Snd.OldestOffset(Snd.StreamOf(z.snd, sid)), mtu)
    ensures var (snd', out) := Snd.ReadyToRetransmit(z.snd, sid, ack, mtu, rto, t, now); Inv(HandOut(z, sid, snd', out))
  {
    hide StreamInv, SS.Retransmit, Held, MtuFits, MaxData, HandOut, ReceiverInv, FramesOk, AcksHeld;
    var c := ChannelOf(z, sid);
    assert c in Sound();
    if sid in z.snd.streams {
      var maxData := MaxData(t, ack, Snd.OldestOffset(c.s), mtu);
      RoomIsSmall(t, ack, Snd.OldestOffset(c.s), mtu);
      RetransmitKeeps(c.s, c.h, maxData, rto, now);
      HandOutInv(z, sid, SS.Retransmit(c.s, maxData, rto, now).0, SS.Retransmit(c.s, maxData, rto, now).1);
    } else {
      NothingHappened(z, sid);
    }
  }

  lemma {:induction false} PingInv(z: System, sid: nat)
    requires Inv(z)
    ensures Inv(DoPing(z, sid))
  {
    var c, z' := ChannelOf(z, sid), DoPing(z, sid);
    SenderFlagsChannel(c);
    Snd.AccountedUpdate(z.snd, z'.snd, sid, c.s.(pingRequest := true));
    SenderStep(z, z', sid, c.s.(pingRequest := true), c.h, {});
  }

  lemma {:induction false} CloseInv(z: System, sid: nat)
    requires Inv(z)
    ensures Inv(DoClose(z, sid))
  {
    var c, z' := ChannelOf(z, sid), DoClose(z, sid);
    SenderFlagsChannel(c);
    Snd.AccountedUpdate(z.snd, z'.snd, sid, SS.Close(c.s));
    SenderStep(z, z', sid, SS.Close(c.s), c.h, {});
  }

  lemma {:induction false} AckInv(z: System, ack: Ack)
    requires Inv(z) && AckFrame(ack) in z.net
    ensures Inv(DoAck(z, ack))
  {
    hide Grows, Sound, Rcv.Accounted, Held, Snd.HeldBytes;
    var sid, k := ack.streamId, KeyRange(ack.offset, ack.len);
    var c, z' := ChannelOf(z, sid), DoAck(z, ack);
    assert FrameOk(z, AckFrame(ack));
    AckChannel(c, ack.offset, ack.len);
    var s' := SS.Acknowledge(c.s, ack.offset, ack.len);
    if sid in z.snd.streams && k in c.s.inFlight.vals {
      Snd.AccountedUpdate(z.snd, z'.snd, sid, s');
    }
    SenderStep(z, z', sid, s', Acked(c.s, c.h, k), {});
  }

  lemma {:induction false} EmptyArriveInv(z: System, sid: nat, offset: nat)
    requires Inv(z)
    ensures Inv(DoArrive(z, sid, offset, [], 0))
  {
    var z' := DoArrive(z, sid, offset, [], 0);
    ReceiverStep(z, z', sid, Rcv.StreamOf(z.rcv, sid), DeliveredOf(z, sid), [Rcv.AckFor(sid, offset, 0)]);
  }

  lemma {:induction false} ArriveInv(z: System, f: Frame, now: nat)
    requires Inv(z) && f in z.net && f.DataFrame? && f.data != []
    ensures Inv(DoArrive(z, f.sid, f.offset, f.data, now))
  {
    hide Grows, Sound, Snd.Accounted, RS.Insert, Truthful, StoredBytes, Rcv.AllStored;
    var c, z' := ChannelOf(z, f.sid), DoArrive(z, f.sid, f.offset, f.data, now);
    assert FrameOk(z, f);
    if z.rcv.size + |f.data| > z.rcv.capacity {
      Rcv.AccountedUpdate(z.rcv, z'.rcv, f.sid, c.r);
      ReceiverStep(z, z', f.sid, c.r, c.delivered, []);
    } else {
      ArriveChannel(c, f.offset, f.data, now);
      var r' := RS.Insert(c.r, f.offset, f.data, now).stream;
      Rcv.AccountedUpdate(z.rcv, z'.rcv, f.sid, r');
      assert Rcv.StreamOf(z'.rcv, f.sid) == r';
      ReceiverStep(z, z', f.sid, r', c.delivered, [Rcv.AckFor(f.sid, f.offset, |f.data|)]);
    }
  }

  lemma {:induction false} ReceiverCloseInv(z: System, sid: nat, offset: nat)
    requires Inv(z)
    ensures Inv(DoReceiverClose(z, sid, offset))
  {
    var c, z' := ChannelOf(z, sid), DoReceiverClose(z, sid, offset);
    ReceiverCloseChannel(c, offset);
    Rcv.AccountedUpdate(z.rcv, z'.rcv, sid, RS.Close(c.r, offset));
    ReceiverStep(z, z', sid, RS.Close(c.r, offset), c.delivered, []);
  }

  lemma {:induction false} TakeAckInv(z: System)
    requires Inv(z)
    ensures Inv(DoTakeAck(z))
  {
    hide Sound, Snd.Accounted;
    if z.rcv.ackList != [] {
      var a, z' := z.rcv.ackList[0], DoTakeAck(z);
      assert AckHeld(z, a);
      forall sid: nat ensures ChannelOf(z', sid) == ChannelOf(z, sid) {}
      assert ChannelsInv(z') && AllGrow(z, z');
      forall f | f in z'.net ensures FrameOk(z', f) {
        if f == AckFrame(a) { AckStays(z, z', a); } else { FrameStays(z, z', f); }
      }
      forall i | 0 <= i < |z'.rcv.ackList| ensures AckHeld(z', z'.rcv.ackList[i]) {
        assert AckHeld(z, z.rcv.ackList[i + 1]);
        AckStays(z, z', z.rcv.ackList[i + 1]);
      }
    }
  }

  lemma {:induction false} ReadInv(z: System, sid: nat)
    requires Inv(z)
    ensures Inv(DoRead(z, sid))
  {
    hide FrameOk, Grows, Sound, Snd.Accounted, AckHeld, StoredBytes, Rcv.AllStored;
    var c, z' := ChannelOf(z, sid), DoRead(z, sid);
    if sid in z.rcv.streams {
      var (r', seg) := RS.Read(c.r);
      ReadChannel(c);
      ReadKeepsAll(c.r);
      Rcv.AccountedUpdate(z.rcv, z'.rcv, sid, r');
      ReceiverStep(z, z', sid, r', Delivered(c.delivered, seg), []);
    } else {
      ReceiverStep(z, z', sid, c.r, c.delivered, []);
    }
  }

  lemma {:induction false} NextInv(z: System, step: Step)
    requires Inv(z)
    ensures Inv(Next(z, step))
  {
    if Enabled(z, step) {
      match step
      case Write(sid, data) => WriteInv(z, sid, data);
      case Ping(sid) => PingInv(z, sid);
      case CloseStream(sid) => CloseInv(z, sid);
      case Send(sid, t, ack, mtu, now) => SendInv(z, sid, t, ack, mtu, now);
      case Retransmit(sid, t, ack, mtu, rto, now) => RetransmitInv(z, sid, t, ack, mtu, rto, now);
      case DataArrives(f, now) =>
        if f.data == [] { EmptyArriveInv(z, f.sid, f.offset); } else { ArriveInv(z, f, now); }
        ReceiverCloseInv(DoArrive(z, f.sid, f.offset, f.data, now), f.sid, f.offset);
      case EmptyArrives(sid, offset) => EmptyArriveInv(z, sid, offset);
      case MarkArrives(sid, offset) => ReceiverCloseInv(z, sid, offset);
      case TakeAck => TakeAckInv(z);
      case AckArrives(ack) => AckInv(z, ack);
      case Read(sid) => ReadInv(z, sid);
    }
  }

  lemma {:induction false} InitInv(sndCapacity: nat, rcvCapacity: nat)
    ensures Inv(Init(sndCapacity, rcvCapacity))
  {
    var z := Init(sndCapacity, rcvCapacity);
    EmptyStreamInv();
    forall sid: nat ensures ChannelOf(z, sid) in Sound() {
      assert ChannelOf(z, sid) == Channel(SS.EMPTY_STREAM, History([], [], {}), RS.EMPTY_STREAM, []);
    }
    assert Snd.HeldPerStream(map[]) == map[];
    assert Rcv.StoredPerStream(map[]) == map[];
  }

  lemma {:induction false} ReachableInv(sndCapacity: nat, rcvCapacity: nat, run: seq<Step>)
    ensures Inv(Exec(Init(sndCapacity, rcvCapacity), run))
  {
    if run == [] {
      InitInv(sndCapacity, rcvCapacity);
    } else {
      ReachableInv(sndCapacity, rcvCapacity, run[..|run| - 1]);
      NextInv(Exec(Init(sndCapacity, rcvCapacity), run[..|run| - 1]), run[|run| - 1]);
    }
  }
}
