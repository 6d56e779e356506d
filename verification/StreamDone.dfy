/** What the source's test for a fully acknowledged stream tells. It compares where the first packet in flight starts
    with where the stream was closed. That is right as long as no packet is split; after a split it can answer yes
    although a byte never arrived. */
module StreamDone {
  import opened Common
  import Delivery
  import opened EndToEnd
  import opened Flight
  import opened Guarantees
  import opened Handouts
  import opened Messages
  import opened Partition
  import opened Progress
  import opened Ranges
  import opened Reassembly
  import opened SendDiscipline
  import opened Timing
  import opened Transport
  import Cn = Connection
  import OM = OrderedMap
  import RS = RcvStream
  import Rcv = RcvState
  import SS = SendStream
  import Snd = SendState

  /** A retransmission that cuts the oldest packet of a stream. */
  ghost predicate Splits(z: System, step: Step, sid: nat) {
    && Enabled(z, step) && step.Retransmit? && step.sid == sid
    && var s := Snd.StreamOf(z.snd, sid);
       var out := Snd.ReadyToRetransmit(z.snd, sid, step.piggyback, step.mtu, step.rto, step.t, step.now).1;
       out.Packet? && SS.HasOldest(s) && |out.data| < |SS.Oldest(s).data|
  }

  ghost predicate NeverSplit(sndCapacity: nat, rcvCapacity: nat, run: seq<Step>, sid: nat) {
    forall i :: 0 <= i < |run| ==> !Splits(Reached(sndCapacity, rcvCapacity, run[..i]), run[i], sid)
  }

  /** Packets in flight are in the order of their offsets. */
  ghost predicate InOrder(keys: seq<Range>) {
    forall i, j :: 0 <= i < j < |keys| ==> keys[i].offset <= keys[j].offset
  }

  lemma {:induction false} WithoutInOrder(keys: seq<Range>, k: Range)
    requires InOrder(keys)
    ensures InOrder(OM.Without(keys, k))
  {
  }

  lemma {:induction false} AppendInOrder(m: SS.InFlight, k: Range, info: SS.SendInfo)
    requires InOrder(m.keys) && forall i :: 0 <= i < |m.keys| ==> m.keys[i].offset <= k.offset
    ensures InOrder(OM.Put(m, k, info).keys)
  {
  }

  lemma {:induction false} KeysBefore(s: SS.Stream, h: History)
    requires StreamInv(s, h)
    ensures forall i :: 0 <= i < |s.inFlight.keys| ==> s.inFlight.keys[i].offset <= s.sentOffset
  {
    forall i | 0 <= i < |s.inFlight.keys| ensures s.inFlight.keys[i].offset <= s.sentOffset {
      var k := s.inFlight.keys[i];
      assert k in s.inFlight.keys;
      assert PacketOk(k, s.inFlight.vals[k], s.sentOffset, h.all);
    }
  }

  lemma {:induction false} SendInOrder(s: SS.Stream, h: History, room: nat, now: nat)
    requires StreamInv(s, h) && room < U16 && InOrder(s.inFlight.keys)
    ensures InOrder(SS.Send(s, room, now).0.inFlight.keys)
  {
    hide StreamInv, SS.Send, InOrder;
    SendIsNext(s, h, room, now);
    KeysBefore(s, h);
    var (s', out) := SS.Send(s, room, now);
    if out.Packet? {
      var k := Range(s.sentOffset, |out.data|);
      AppendInOrder(s.inFlight, k, SS.SendInfo(out.data, now, 1, s.pingRequest));
    }
  }

  lemma {:induction false} RetransmitInOrder(s: SS.Stream, h: History, room: nat, rto: nat, now: nat)
    requires StreamInv(s, h) && room < U16 && InOrder(s.inFlight.keys)
    requires var out := SS.Retransmit(s, room, rto, now).1;
             out.Packet? && SS.HasOldest(s) ==> |SS.Oldest(s).data| <= |out.data|
    ensures InOrder(SS.Retransmit(s, room, rto, now).0.inFlight.keys)
  {
    hide StreamInv, SS.Retransmit, CutInTwo, TimedOut, InOrder;
    RetransmitIsAgain(s, h, room, rto, now);
    if TimedOut(s, rto, now) { WithoutInOrder(s.inFlight.keys, s.inFlight.keys[0]); }
  }

  lemma {:induction false} StepInOrder(z: System, step: Step, sid: nat)
    requires Inv(z) && InOrder(Snd.StreamOf(z.snd, sid).inFlight.keys) && !Splits(z, step, sid)
    ensures InOrder(Snd.StreamOf(Next(z, step).snd, sid).inFlight.keys)
  {
    hide Inv, InOrder, SS.Send, SS.Retransmit, MtuFits, MaxData, StreamInv;
    var s := Snd.StreamOf(z.snd, sid);
    assert ChannelInv(ChannelOf(z, sid)) by { ChannelIsSound(z, sid); }
    if !Enabled(z, step) {
    } else if step.Send? && step.sid == sid {
      StreamSends(z, sid, step.t, step.piggyback, step.mtu, step.now);
      SendInOrder(s, HistOf(z, sid), MaxData(step.t, step.piggyback, s.sentOffset, step.mtu), step.now);
    } else if step.Retransmit? && step.sid == sid {
      var offset := Snd.OldestOffset(s);
      RoomIsSmall(step.t, step.piggyback, offset, step.mtu);
      StreamRepeats(z, sid, step.t, step.piggyback, step.mtu, step.rto, step.now);
      RetransmitInOrder(s, HistOf(z, sid), MaxData(step.t, step.piggyback, offset, step.mtu), step.rto, step.now);
    } else if step.AckArrives? && step.ack.streamId == sid {
      WithoutInOrder(s.inFlight.keys, KeyRange(step.ack.offset, step.ack.len));
    }
  }

  lemma {:induction false} RunInOrder(sndCapacity: nat, rcvCapacity: nat, run: seq<Step>, sid: nat)
    requires NeverSplit(sndCapacity, rcvCapacity, run, sid)
    ensures InOrder(Snd.StreamOf(Reached(sndCapacity, rcvCapacity, run).snd, sid).inFlight.keys)
  {
    hide Next, Inv, Splits;
    if run == [] {
    } else {
      var n := |run| - 1;
      var before := run[..n];
      forall i | 0 <= i < n ensures !Splits(Reached(sndCapacity, rcvCapacity, before[..i]), before[i], sid) {
        assert before[..i] == run[..i] && before[i] == run[i];
      }
      RunInOrder(sndCapacity, rcvCapacity, before, sid);
      ReachableInv(sndCapacity, rcvCapacity, before);
      StepInOrder(Reached(sndCapacity, rcvCapacity, before), run[n], sid);
    }
  }

  /** Everything written was acknowledged, and no empty packet is in flight below the end. */
  ghost predicate AllAcknowledged(s: SS.Stream, h: History) {
    && (forall p :: 0 <= p < |h.all| ==> Tiled(h.acked, p))
    && (forall k :: k in s.inFlight.vals ==> |h.all| <= k.offset)
  }

  lemma {:induction false} DoneIff(s: SS.Stream, h: History)
    requires StreamInv(s, h) && InOrder(s.inFlight.keys)
    ensures |h.all| <= (if s.inFlight.keys == [] then s.sentOffset else s.inFlight.keys[0].offset)
            <==> AllAcknowledged(s, h)
  {
    var fl, n := s.inFlight.vals, |h.all|;
    if AllAcknowledged(s, h) {
      if s.inFlight.keys != [] {
        assert s.inFlight.keys[0] in fl;
      } else if 0 < n {
        assert Tiled(h.acked, n - 1);
        var r :| r in h.acked && r.Holds(n - 1);
        assert r in Parts(fl, h);
      }
    }
    if n <= (if s.inFlight.keys == [] then s.sentOffset else s.inFlight.keys[0].offset) {
      NothingBelow(s, h);
    }
  }

  lemma {:induction false} NothingBelow(s: SS.Stream, h: History)
    requires StreamInv(s, h) && InOrder(s.inFlight.keys)
    requires |h.all| <= if s.inFlight.keys == [] then s.sentOffset else s.inFlight.keys[0].offset
    ensures AllAcknowledged(s, h)
  {
    var fl, n := s.inFlight.vals, |h.all|;
    forall k | k in fl ensures n <= k.offset && k.len == 0 {
      assert k in s.inFlight.keys;
      var i :| 0 <= i < |s.inFlight.keys| && s.inFlight.keys[i] == k;
      assert PacketOk(k, fl[k], s.sentOffset, h.all);
    }
    assert s.sentOffset == n;
    assert Live(fl) == {};
    assert Parts(fl, h) == h.acked;
  }

  /** In every run in which no packet of a stream was split, the test answers yes exactly when the stream is closed,
      every byte written was acknowledged, and no empty packet is in flight below the end. */
  lemma {:induction false} FullyAckedIff(sndCapacity: nat, rcvCapacity: nat, run: seq<Step>, sid: nat)
    requires NeverSplit(sndCapacity, rcvCapacity, run, sid)
    ensures var z := Reached(sndCapacity, rcvCapacity, run); var s := Snd.StreamOf(z.snd, sid);
            Cn.FullyAcked(z.snd, sid) <==> s.closeAt.Some? && AllAcknowledged(s, HistOf(z, sid))
  {
    hide FlightInv, OM.WellFormed, Reached, NeverSplit, InOrder, AllAcknowledged;
    var z := Reached(sndCapacity, rcvCapacity, run);
    ReachedSound(sndCapacity, rcvCapacity, run, sid);
    RunInOrder(sndCapacity, rcvCapacity, run, sid);
    DoneIff(Snd.StreamOf(z.snd, sid), HistOf(z, sid));
  }

  // ---------- A split deceives the test ----------

  /** Two bytes and a closing mark are sent; the packet is sent again in front of an acknowledgement, which leaves
      room for one byte, so it is cut; then its right part is sent again, and that alone gets through. */
  ghost function EarlySteps(a: byte, b: byte): seq<Step> {
    var ack := Some(Ack(0, 0, 0, 0));
    [Write(0, [a, b]), CloseStream(0), Send(0, Data, None, 50, 0), Send(0, Data, None, 50, 0),
     Retransmit(0, Data, ack, 50, 0, 1), Retransmit(0, Data, ack, 50, 0, 1),
     DataArrives(DataFrame(0, 1, [b], true), 0), TakeAck, AckArrives(Ack(0, 1, 1, 0))]
  }

  ghost function Marked(a: byte, b: byte): SS.Stream {
    var vals := map[Range(0, 2) := SS.SendInfo([a, b], 0, 1, false), Range(2, 0) := SS.SendInfo([], 0, 1, false)];
    SS.Stream(OM.OMap([Range(0, 2), Range(2, 0)], vals), [], 2, false, Some(2))
  }

  lemma {:induction false} SentAndMarked(a: byte, b: byte)
    ensures var s := SS.EMPTY_STREAM.(queued := [a, b], closeAt := Some(2));
            var (s1, out1) := SS.Send(s, 11, 0); var (s2, out2) := SS.Send(s1, 11, 0);
            s2 == Marked(a, b) && s1.sentOffset == 2 && out1.Packet? && out2.Packet?
  {
    var s := SS.EMPTY_STREAM.(queued := [a, b], closeAt := Some(2));
    assert [a, b][..2] == [a, b] && [a, b][2..] == [];
    var s1 := SS.Send(s, 11, 0).0;
    assert s1.inFlight == OM.OMap([Range(0, 2)], map[Range(0, 2) := SS.SendInfo([a, b], 0, 1, false)]);
  }

  ghost function Cut(a: byte, b: byte, info: SS.SendInfo): SS.Stream {
    var vals := map[Range(1, 1) := info, Range(2, 0) := SS.SendInfo([], 0, 1, false),
                    Range(0, 1) := SS.SendInfo([a], 1, 2, false)];
    SS.Stream(OM.OMap([Range(1, 1), Range(2, 0), Range(0, 1)], vals), [], 2, false, Some(2))
  }

  lemma {:induction false} CutOnce(a: byte, b: byte)
    ensures SS.Retransmit(Marked(a, b), 1, 0, 1)
            == (Cut(a, b, SS.SendInfo([b], 0, 1, false)), SS.Packet([a], 0, false))
  {
    hide SS.Split, SS.Resend;
    var s := Marked(a, b);
    assert SS.HasOldest(s) && SS.Oldest(s) == SS.SendInfo([a, b], 0, 1, false);
    assert SS.Backoff(0, 1) == 0 && SS.Elapsed(1, 0) == 1;
    CutParts(a, b);
  }

  lemma {:induction false} CutParts(a: byte, b: byte)
    ensures SS.Split(Marked(a, b), 1, 1) == (Cut(a, b, SS.SendInfo([b], 0, 1, false)), SS.Packet([a], 0, false))
  {
    var s := Marked(a, b);
    var k, info := Range(0, 2), SS.SendInfo([a, b], 0, 1, false);
    assert SS.Oldest(s) == info && info.data[..1] == [a] && info.data[1..] == [b];
    CutShape(s, 1, 1);
    var s' := SS.Split(s, 1, 1).0;
    assert s.inFlight.keys[0 := Range(1, 1)] + [Range(0, 1)] == [Range(1, 1), Range(2, 0), Range(0, 1)];
    assert s'.inFlight == Cut(a, b, SS.SendInfo([b], 0, 1, false)).inFlight;
  }

  lemma {:induction false} RightAgain(a: byte, b: byte)
    ensures SS.Retransmit(Cut(a, b, SS.SendInfo([b], 0, 1, false)), 1, 0, 1)
            == (Cut(a, b, SS.SendInfo([b], 1, 2, false)), SS.Packet([b], 1, true))
  {
    hide SS.Split;
    var s := Cut(a, b, SS.SendInfo([b], 0, 1, false));
    assert SS.HasOldest(s) && SS.Oldest(s) == SS.SendInfo([b], 0, 1, false);
    assert SS.Backoff(0, 1) == 0 && SS.Elapsed(1, 0) == 1;
    var info := SS.SendInfo([b], 1, 2, false);
    assert SS.Retransmit(s, 1, 0, 1) == SS.Resend(s, 1);
    assert s.inFlight.vals[Range(1, 1) := info] == Cut(a, b, info).inFlight.vals;
  }

  lemma {:induction false} RightReleased(a: byte, b: byte)
    ensures var s := SS.Acknowledge(Cut(a, b, SS.SendInfo([b], 1, 2, false)), 1, 1);
            && s.inFlight.keys == [Range(2, 0), Range(0, 1)] && s.closeAt == Some(2)
            && Range(0, 1) in s.inFlight.vals
  {
    var s := Cut(a, b, SS.SendInfo([b], 1, 2, false));
    assert s.inFlight.keys[0] == Range(1, 1);
    assert OM.IndexOf(s.inFlight.keys, Range(1, 1)) == 0;
  }

  lemma RoomInBoth(offset: nat)
    requires offset <= 2
    ensures MtuFits(Data, None, offset, 50) && MaxData(Data, None, offset, 50) == 11
    ensures var ack := Some(Ack(0, 0, 0, 0)); MtuFits(Data, ack, offset, 50) && MaxData(Data, ack, offset, 50) == 1
  {
  }

  lemma {:induction false} ExecPrefix(z: System, run: seq<Step>, i: nat)
    requires i < |run|
    ensures Exec(z, run[..i + 1]) == Next(Exec(z, run[..i]), run[i])
  {
    hide Next;
    assert run[..i + 1][..i] == run[..i];
  }

  ghost function After(a: byte, b: byte, i: nat): System
    requires i <= 9
  {
    Reached(100, 100, EarlySteps(a, b)[..i])
  }

  lemma {:induction false} SendsKeepReceiver(z: System, step: Step)
    requires step.Send? || step.Retransmit?
    ensures Next(z, step).rcv == z.rcv && HistOf(Next(z, step), 0).all == HistOf(z, 0).all
  {
    hide SS.Send, SS.Retransmit, MtuFits, MaxData;
  }

  lemma {:induction false} SendTwice(z: System, s: SS.Stream, step: Step)
    requires step == Send(0, Data, None, 50, 0) && Snd.StreamOf(z.snd, 0) == s && s.sentOffset == 0
    requires SS.Send(s, 11, 0).0.sentOffset == 2
    ensures var z' := Next(Next(z, step), step);
            && Snd.StreamOf(z'.snd, 0) == SS.Send(SS.Send(s, 11, 0).0, 11, 0).0
            && z'.rcv == z.rcv && HistOf(z', 0).all == HistOf(z, 0).all
  {
    hide SS.Send, MtuFits, MaxData, Next;
    RoomInBoth(0);
    RoomInBoth(2);
    StreamSends(z, 0, Data, None, 50, 0);
    SendsKeepReceiver(z, step);
    StreamSends(Next(z, step), 0, Data, None, 50, 0);
    SendsKeepReceiver(Next(z, step), step);
  }

  lemma {:induction false} FirstTwo(a: byte, b: byte)
    ensures var z := After(a, b, 2);
            && Snd.StreamOf(z.snd, 0) == SS.EMPTY_STREAM.(queued := [a, b], closeAt := Some(2))
            && z.rcv == Rcv.Init(100) && HistOf(z, 0).all == [a, b]
  {
    var run, init := EarlySteps(a, b), Init(100, 100);
    ExecPrefix(init, run, 0);
    assert run[..0] == [];
    Written(100, a, b);
    ExecPrefix(init, run, 1);
  }

  lemma {:induction false} FirstFour(a: byte, b: byte)
    ensures var z := After(a, b, 4);
            Snd.StreamOf(z.snd, 0) == Marked(a, b) && z.rcv == Rcv.Init(100) && HistOf(z, 0).all == [a, b]
  {
    hide SS.Send, MtuFits, MaxData, Next, Marked;
    var run, init := EarlySteps(a, b), Init(100, 100);
    FirstTwo(a, b);
    SentAndMarked(a, b);
    SendTwice(After(a, b, 2), SS.EMPTY_STREAM.(queued := [a, b], closeAt := Some(2)), run[2]);
    ExecPrefix(init, run, 2);
    ExecPrefix(init, run, 3);
  }

  lemma {:induction false} NextTwo(a: byte, b: byte)
    ensures var z := After(a, b, 6);
            && Snd.StreamOf(z.snd, 0) == Cut(a, b, SS.SendInfo([b], 1, 2, false)) && z.rcv == Rcv.Init(100)
            && HistOf(z, 0).all == [a, b] && DataFrame(0, 1, [b], true) in z.net
  {
    hide SS.Retransmit, MtuFits, MaxData, Next, Marked, Cut;
    var run, init, ack := EarlySteps(a, b), Init(100, 100), Some(Ack(0, 0, 0, 0));
    FirstFour(a, b);
    var z4, z5 := After(a, b, 4), After(a, b, 5);
    ExecPrefix(init, run, 4);
    ExecPrefix(init, run, 5);
    RoomInBoth(0);
    RoomInBoth(1);
    OldestFirst(a, b);
    StreamRepeats(z4, 0, Data, ack, 50, 0, 1);
    SendsKeepReceiver(z4, run[4]);
    CutOnce(a, b);
    StreamRepeats(z5, 0, Data, ack, 50, 0, 1);
    SendsKeepReceiver(z5, run[5]);
    RightAgain(a, b);
  }

  lemma OldestFirst(a: byte, b: byte)
    ensures Snd.OldestOffset(Marked(a, b)) == 0
    ensures forall info :: Snd.OldestOffset(Cut(a, b, info)) == 1
  {
  }

  lemma {:induction false} AloneArrives(z: System, b: byte)
    requires z.rcv == Rcv.Init(100) && DataFrame(0, 1, [b], true) in z.net
    ensures var z' := Next(z, DataArrives(DataFrame(0, 1, [b], true), 0));
            && z'.snd == z.snd && z'.hist == z.hist && z'.rcv.ackList == [Ack(0, 1, 1, 0)]
            && Rcv.StreamOf(z'.rcv, 0) == RS.Stream(map[1 := RS.Seg([b], 0)], 0, Some(1))
  {
    hide RS.Insert;
    Delivery.InsertAlone(RS.EMPTY_STREAM, 1, [b], 0);
  }

  lemma {:induction false} RightArrives(a: byte, b: byte)
    ensures var z := After(a, b, 8);
            && Snd.StreamOf(z.snd, 0) == Cut(a, b, SS.SendInfo([b], 1, 2, false))
            && Rcv.StreamOf(z.rcv, 0) == RS.Stream(map[1 := RS.Seg([b], 0)], 0, Some(1))
            && HistOf(z, 0).all == [a, b] && AckFrame(Ack(0, 1, 1, 0)) in z.net
  {
    hide Next, Cut;
    var run, init := EarlySteps(a, b), Init(100, 100);
    NextTwo(a, b);
    AloneArrives(After(a, b, 6), b);
    ExecPrefix(init, run, 6);
    ExecPrefix(init, run, 7);
    OneTaken(After(a, b, 7));
  }

  lemma {:induction false} OneTaken(z: System)
    requires |z.rcv.ackList| == 1
    ensures var z' := Next(z, TakeAck);
            && z'.snd == z.snd && z'.hist == z.hist && z'.rcv.streams == z.rcv.streams
            && AckFrame(z.rcv.ackList[0]) in z'.net
  {
  }

  /** There is a run after which the test answers yes for a stream of two bytes of which the first never arrived. */
  lemma {:induction false} SplitDeceives(a: byte, b: byte)
    ensures var z := Reached(100, 100, EarlySteps(a, b));
            && Cn.FullyAcked(z.snd, 0) && HistOf(z, 0).all == [a, b]
            && !Has(Rcv.StreamOf(z.rcv, 0), 0) && InFlightAt(Snd.StreamOf(z.snd, 0), 0)
  {
    hide Cut;
    var run := EarlySteps(a, b);
    RightArrives(a, b);
    ExecPrefix(Init(100, 100), run, 8);
    assert run[..9] == run;
    RightReleased(a, b);
    StillCut(a, b);
    var z := Reached(100, 100, run);
    assert Range(0, 1).Holds(0);
  }

  lemma StillCut(a: byte, b: byte)
    ensures KeyRange(1, 1) in Cut(a, b, SS.SendInfo([b], 1, 2, false)).inFlight.vals
  {
  }
}
