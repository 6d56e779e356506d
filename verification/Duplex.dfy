/** Two connections talking to each other: data both ways, acknowledgements riding on data, closes that close
    both directions. Every run of it is, for each direction, a run of the one-way system. */
module Duplex {
  import opened Common
  import opened Connection
  import opened Messages
  import opened SendDiscipline
  import opened Wire
  import D = Datagrams
  import Flight
  import G = Guarantees
  import RA = Reassembly
  import Rcv = RcvState
  import RcvStream
  import SS = SendStream
  import Snd = SendState
  import T = Transport

  /** One end, the frames sent to it so far, and what its application has written and read. */
  datatype End = End(conn: Conn, inbox: set<Frame>, wrote: map<nat, Bytes>, read: map<nat, Bytes>)

  datatype Pair = Pair(a: End, b: End)

  datatype Action =
    | Write(sid: nat, data: Bytes)
    | Ping(sid: nat)
    | Close(sid: nat)
    | Flush(how: Flushing)
    | Hear(frame: Frame, now: nat)
    | Fetch(sid: nat)

  function Of(m: map<nat, Bytes>, sid: nat): Bytes {
    if sid in m then m[sid] else []
  }

  function NewEnd(sndCapacity: nat, rcvCapacity: nat): End {
    End(Connection.Init(sndCapacity, rcvCapacity), {}, map[], map[])
  }

  /** A write stops at a closed stream and at the end of the offset space; headers fit the MTU and stream ids
      32 bits; only frames that were sent are heard. */
  ghost predicate Enabled(e: End, act: Action) {
    match act
    case Write(sid, data) =>
      && Snd.StreamOf(e.conn.snd, sid).closeAt.None? && e.conn.snd.size <= e.conn.snd.capacity
      && |Of(e.wrote, sid)| + |data| < U48
    case Flush(how) => MtuHolds(how.t, how.mtu) && how.sid < U32
    case Hear(f, _) => f in e.inbox
    case _ => true
  }

  ghost function Heard(e: End, f: Frame, now: nat): Conn {
    var got := Arrives(f.header, f.data);
    Receive(e.conn, got.header, got.data, now)
  }

  /** What an action does at its own end, and the frame it sends. */
  ghost function Act(e: End, act: Action): (End, Option<Frame>)
    requires Enabled(e, act)
  {
    match act
    case Write(sid, data) =>
      var (snd, n, _) := Snd.QueueData(e.conn.snd, sid, data);
      (e.(conn := e.conn.(snd := snd), wrote := e.wrote[sid := Of(e.wrote, sid) + data[..n]]), None)
    case Ping(sid) => (e.(conn := e.conn.(snd := Snd.QueuePing(e.conn.snd, sid))), None)
    case Close(sid) => (e.(conn := e.conn.(snd := Snd.CloseStream(e.conn.snd, sid))), None)
    case Flush(how) =>
      var (conn, frame) := Connection.Flush(e.conn, how);
      (e.(conn := conn), frame)
    case Hear(f, now) => (e.(conn := Heard(e, f, now)), None)
    case Fetch(sid) =>
      var (rcv, seg) := Rcv.RemoveOldestInOrder(e.conn.rcv, sid);
      (e.(conn := e.conn.(rcv := rcv), read := e.read[sid := RA.Delivered(Of(e.read, sid), seg)]), None)
  }

  function Post(e: End, frame: Option<Frame>): End {
    if frame.Some? then e.(inbox := e.inbox + {frame.value}) else e
  }

  datatype Step = AtA(act: Action) | AtB(act: Action)

  /** One step; one that is not enabled does nothing. */
  ghost function Next(d: Pair, step: Step): Pair {
    match step
    case AtA(act) =>
      if !Enabled(d.a, act) then d
      else var (e, frame) := Act(d.a, act); Pair(e, Post(d.b, frame))
    case AtB(act) =>
      if !Enabled(d.b, act) then d
      else var (e, frame) := Act(d.b, act); Pair(Post(d.a, frame), e)
  }

  ghost function Run(d: Pair, run: seq<Step>): Pair {
    if run == [] then d else Next(Run(d, run[..|run| - 1]), run[|run| - 1])
  }

  // ---------- One direction ----------

  /** An acknowledgement without its window. */
  function Bare(a: Ack): Ack { a.(rcvWnd := 0) }

  ghost predicate DataKnown(f: Frame, net: set<T.Frame>) {
    BytesOf(f.data) != [] ==>
      T.DataFrame(f.header.streamId, f.header.streamOffset, BytesOf(f.data), f.header.isClose) in net
  }

  ghost predicate AckKnown(f: Frame, net: set<T.Frame>) {
    f.header.ack.Some? ==> T.AckFrame(Bare(f.header.ack.value)) in net
  }

  /** The one-way system z is what goes from `out` to `into`: the one's send buffer, the other's receive
      buffer, the frames with data one way and the acknowledgements the other, and the same past. */
  ghost predicate Mirrors(out: End, into: End, z: T.System) {
    && z.snd == out.conn.snd && z.rcv == into.conn.rcv
    && (forall sid: nat :: T.HistOf(z, sid).all == Of(out.wrote, sid))
    && (forall sid: nat :: T.DeliveredOf(z, sid) == Of(into.read, sid))
    && (forall f :: f in into.inbox ==> DataKnown(f, z.net))
    && (forall f :: f in out.inbox ==> AckKnown(f, z.net))
    && (forall i :: 0 <= i < |z.rcv.ackList| ==> z.rcv.ackList[i].rcvWnd == 0)
  }

  /** The steps of the one-way system that an action at its sending end stands for. */
  ghost function OutSteps(out: End, act: Action): seq<T.Step>
    requires Enabled(out, act)
  {
    match act
    case Write(sid, data) => [T.Write(sid, data)]
    case Ping(sid) => [T.Ping(sid)]
    case Close(sid) => [T.CloseStream(sid)]
    case Flush(how) => if how.paced || how.windowFull then [] else FlushSteps(out.conn.snd, Popped(out.conn.rcv), how)
    case Hear(f, _) =>
      (if f.header.ack.Some? then [T.AckArrives(Bare(f.header.ack.value))] else [])
      + (if f.header.isClose then [T.CloseStream(f.header.streamId)] else [])
    case Fetch(_) => []
  }

  ghost function FlushSteps(snd: Snd.State, ack: Option<Ack>, how: Flushing): seq<T.Step> {
    var again := Snd.ReadyToRetransmit(snd, how.sid, ack, how.mtu, how.rto, how.t, how.now).1;
    [T.Retransmit(how.sid, how.t, ack, how.mtu, how.rto, how.now)]
    + (if again.NoPacket? && how.maySend then [T.Send(how.sid, how.t, ack, how.mtu, how.now)] else [])
  }

  /** And those for an action at its receiving end. */
  ghost function InSteps(into: End, act: Action): seq<T.Step> {
    match act
    case Flush(_) => [T.TakeAck]
    case Fetch(sid) => [T.Read(sid)]
    case Hear(f, now) =>
      var p := f.header;
      if BytesOf(f.data) != [] then
        [T.DataArrives(T.DataFrame(p.streamId, p.streamOffset, f.data.value, p.isClose), now)]
      else if AckOnly(p, f.data) then []
      else
        [T.EmptyArrives(p.streamId, p.streamOffset)] +
        if p.isClose then [T.MarkArrives(p.streamId, p.streamOffset)] else []
    case _ => []
  }

  lemma {:induction false} ExecOne(z: T.System, s: T.Step)
    ensures T.Exec(z, [s]) == T.Next(z, s)
  {
    hide T.Next;
    assert [s][..0] == [];
  }

  lemma {:induction false} ExecTwo(z: T.System, s: T.Step, t: T.Step)
    ensures T.Exec(z, [s] + [t]) == T.Next(T.Next(z, s), t)
  {
    hide T.Next;
    ExecOne(z, s);
    assert ([s] + [t])[..1] == [s];
  }

  /** The past and the network of z' extend those of z, and neither end's application did anything. */
  ghost predicate Extends(z: T.System, z': T.System) {
    && z.net <= z'.net && z'.delivered == z.delivered
    && (forall sid: nat :: T.HistOf(z', sid).all == T.HistOf(z, sid).all)
  }

  lemma {:induction false} MirrorsMore(out: End, into: End, z: T.System, out': End, into': End, z': T.System)
    requires Mirrors(out, into, z) && Extends(z, z')
    requires z'.snd == out'.conn.snd && z'.rcv == into'.conn.rcv && out'.wrote == out.wrote && into'.read == into.read
    requires forall f :: f in into'.inbox && f !in into.inbox ==> DataKnown(f, z'.net)
    requires forall f :: f in out'.inbox && f !in out.inbox ==> AckKnown(f, z'.net)
    requires forall i :: 0 <= i < |z'.rcv.ackList| ==> z'.rcv.ackList[i].rcvWnd == 0
    ensures Mirrors(out', into', z')
  {
  }

  // ---------- The sending end acts ----------

  lemma {:induction false} WriteMirrored(out: End, into: End, z: T.System, sid: nat, data: Bytes)
    requires Mirrors(out, into, z) && Enabled(out, Write(sid, data))
    ensures Mirrors(Act(out, Write(sid, data)).0, into, T.Next(z, T.Write(sid, data)))
  {
    assert T.HistOf(z, sid).all == Of(out.wrote, sid);
    var z', out' := T.Next(z, T.Write(sid, data)), Act(out, Write(sid, data)).0;
    assert z' == T.DoWrite(z, sid, data);
    forall x: nat ensures T.HistOf(z', x).all == Of(out'.wrote, x) { assert T.HistOf(z, x).all == Of(out.wrote, x); }
  }

  lemma {:induction false} HandOutExtends(z: T.System, sid: nat, snd: Snd.State, out: SS.Handout)
    ensures Extends(z, T.HandOut(z, sid, snd, out))
    ensures out.Packet? ==> T.DataFrame(sid, out.offset, out.data, out.isClose) in T.HandOut(z, sid, snd, out).net
  {
  }

  lemma {:induction false} RetransmitMirrored(z: T.System, ack: Option<Ack>, how: Flushing)
    requires MtuHolds(how.t, how.mtu)
    ensures MtuFits(how.t, ack, Snd.OldestOffset(Snd.StreamOf(z.snd, how.sid)), how.mtu)
    ensures var (snd, again) := Snd.ReadyToRetransmit(z.snd, how.sid, ack, how.mtu, how.rto, how.t, how.now);
            var z' := T.Next(z, T.Retransmit(how.sid, how.t, ack, how.mtu, how.rto, how.now));
            && z'.snd == snd && z'.rcv == z.rcv && Extends(z, z')
            && (again.Packet? ==> DataKnown(PacketOut(how.sid, ack, again), z'.net))
  {
    hide Snd.ReadyToRetransmit, MtuFits, MtuHolds;
    HoldsFits(how.t, how.mtu, ack, Snd.OldestOffset(Snd.StreamOf(z.snd, how.sid)));
    var (snd, again) := Snd.ReadyToRetransmit(z.snd, how.sid, ack, how.mtu, how.rto, how.t, how.now);
    HandOutExtends(z, how.sid, snd, again);
  }

  lemma {:induction false} SendMirrored(z: T.System, ack: Option<Ack>, how: Flushing)
    requires MtuHolds(how.t, how.mtu)
    ensures MtuFits(how.t, ack, Snd.StreamOf(z.snd, how.sid).sentOffset, how.mtu)
    ensures var (snd, out) := Snd.ReadyToSend(z.snd, how.sid, how.t, ack, how.mtu, how.now);
            var z' := T.Next(z, T.Send(how.sid, how.t, ack, how.mtu, how.now));
            && z'.snd == snd && z'.rcv == z.rcv && Extends(z, z')
            && (out.Packet? ==> DataKnown(PacketOut(how.sid, ack, out), z'.net))
  {
    hide Snd.ReadyToSend, MtuFits, MtuHolds;
    HoldsFits(how.t, how.mtu, ack, Snd.StreamOf(z.snd, how.sid).sentOffset);
    var (snd, out) := Snd.ReadyToSend(z.snd, how.sid, how.t, ack, how.mtu, how.now);
    HandOutExtends(z, how.sid, snd, out);
  }

  lemma {:induction false} FlushOutMirrored(z: T.System, ack: Option<Ack>, how: Flushing)
    requires MtuHolds(how.t, how.mtu)
    ensures var (snd, frame) := FlushOut(z.snd, ack, how);
            var z' := T.Exec(z, if how.paced || how.windowFull then [] else FlushSteps(z.snd, ack, how));
            && z'.snd == snd && z'.rcv == z.rcv && Extends(z, z') && (frame.Some? ==> DataKnown(frame.value, z'.net))
  {
    hide T.Next, Snd.ReadyToSend, Snd.ReadyToRetransmit, MtuFits, MtuHolds, FullyAcked;
    if !how.paced && !how.windowFull {
      RetransmitMirrored(z, ack, how);
      var s1 := T.Retransmit(how.sid, how.t, ack, how.mtu, how.rto, how.now);
      var z1 := T.Next(z, s1);
      var again := Snd.ReadyToRetransmit(z.snd, how.sid, ack, how.mtu, how.rto, how.t, how.now).1;
      if again.NoPacket? && how.maySend {
        SendMirrored(z1, ack, how);
        ExecTwo(z, s1, T.Send(how.sid, how.t, ack, how.mtu, how.now));
      } else {
        ExecOne(z, s1);
        assert [s1] + [] == [s1];
      }
    }
  }

  /** An acknowledgement means the same with and without its window. */
  lemma {:induction false} SameAck(st: Snd.State, a: Ack)
    ensures Snd.AcknowledgeRange(st, a) == Snd.AcknowledgeRange(st, Bare(a))
    ensures forall w: nat :: Bare(a.(rcvWnd := w)) == Bare(a)
  {
  }

  lemma {:induction false} AckMirrored(z: T.System, a: Ack)
    requires T.AckFrame(Bare(a)) in z.net
    ensures var z' := T.Next(z, T.AckArrives(Bare(a)));
            z'.snd == Snd.AcknowledgeRange(z.snd, a).0 && z'.rcv == z.rcv && Extends(z, z')
  {
    hide Snd.AcknowledgeRange;
    SameAck(z.snd, a);
  }

  lemma {:induction false} CloseMirrored(z: T.System, sid: nat)
    ensures var z' := T.Next(z, T.CloseStream(sid));
            z'.snd == Snd.CloseStream(z.snd, sid) && z'.rcv == z.rcv && Extends(z, z')
  {
  }

  /** What hearing a frame does to the send buffer. */
  lemma {:induction false} HeardSnd(e: End, f: Frame, now: nat)
    ensures var ack := f.header.ack;
            var snd := if ack.Some? then Snd.AcknowledgeRange(e.conn.snd, ack.value).0 else e.conn.snd;
            Heard(e, f, now).snd == if f.header.isClose then Snd.CloseStream(snd, f.header.streamId) else snd
  {
    hide Snd.AcknowledgeRange, Store;
    if f.header.ack.Some? {
      var a := f.header.ack.value;
      SameAck(e.conn.snd, a);
      SameAck(e.conn.snd, Rounded(a));
    }
  }

  lemma {:induction false} HearOutMirrored(z: T.System, e: End, f: Frame, now: nat)
    requires z.snd == e.conn.snd && AckKnown(f, z.net)
    ensures var z' := T.Exec(z, OutSteps(e.(inbox := e.inbox + {f}), Hear(f, now)));
            z'.snd == Heard(e, f, now).snd && z'.rcv == z.rcv && Extends(z, z')
  {
    hide T.Next, Snd.AcknowledgeRange, Snd.CloseStream, Heard;
    HeardSnd(e, f, now);
    var close := T.CloseStream(f.header.streamId);
    if f.header.ack.Some? {
      var ack := T.AckArrives(Bare(f.header.ack.value));
      AckMirrored(z, f.header.ack.value);
      if f.header.isClose {
        CloseMirrored(T.Next(z, ack), f.header.streamId);
        ExecTwo(z, ack, close);
      } else {
        ExecOne(z, ack);
        assert [ack] + [] == [ack];
      }
    } else if f.header.isClose {
      CloseMirrored(z, f.header.streamId);
      ExecOne(z, close);
      assert [] + [close] == [close];
    }
  }

  /** An action at the sending end is its steps of the one-way system. */
  lemma {:induction false} OutMirrored(out: End, into: End, z: T.System, act: Action)
    requires Mirrors(out, into, z) && Enabled(out, act)
    ensures var (out', frame) := Act(out, act); Mirrors(out', Post(into, frame), T.Exec(z, OutSteps(out, act)))
  {
    hide T.Next, FlushOut, FlushSteps, Heard, Popped, Snd.QueuePing, Snd.CloseStream, MtuHolds, DataKnown, AckKnown;
    var (out', frame) := Act(out, act);
    var z' := T.Exec(z, OutSteps(out, act));
    match act
    case Write(sid, data) =>
      WriteMirrored(out, into, z, sid, data);
      ExecOne(z, T.Write(sid, data));
    case Ping(sid) =>
      PingMirrored(z, sid);
      ExecOne(z, T.Ping(sid));
      MirrorsMore(out, into, z, out', into, z');
    case Close(sid) =>
      CloseMirrored(z, sid);
      ExecOne(z, T.CloseStream(sid));
      MirrorsMore(out, into, z, out', into, z');
    case Flush(how) =>
      FlushOutMirrored(z, Popped(out.conn.rcv), how);
      MirrorsMore(out, into, z, out', Post(into, frame), z');
    case Hear(f, now) =>
      HearOutMirrored(z, out, f, now);
      assert out.(inbox := out.inbox + {f}) == out;
      MirrorsMore(out, into, z, out', into, z');
    case Fetch(_) =>
      MirrorsMore(out, into, z, out', into, z');
  }

  lemma {:induction false} PingMirrored(z: T.System, sid: nat)
    ensures var z' := T.Next(z, T.Ping(sid)); z'.snd == Snd.QueuePing(z.snd, sid) && z'.rcv == z.rcv && Extends(z, z')
  {
  }

  // ---------- The receiving end acts ----------

  ghost predicate NoWindows(rcv: Rcv.State) {
    forall i :: 0 <= i < |rcv.ackList| ==> rcv.ackList[i].rcvWnd == 0
  }

  lemma {:induction false} TakeAckMirrored(z: T.System)
    requires NoWindows(z.rcv)
    ensures var z' := T.Next(z, T.TakeAck);
            && z'.snd == z.snd && z'.rcv == Rcv.GetSndAck(z.rcv).0 && Extends(z, z') && NoWindows(z'.rcv)
            && (Popped(z.rcv).Some? ==> T.AckFrame(Bare(Popped(z.rcv).value)) in z'.net)
  {
    if z.rcv.ackList != [] { assert Bare(Popped(z.rcv).value) == z.rcv.ackList[0]; }
  }

  /** Whatever a flush sends carries the acknowledgement it took, or none. */
  lemma {:induction false} FlushCarries(snd: Snd.State, ack: Option<Ack>, how: Flushing)
    ensures var frame := FlushOut(snd, ack, how).1; frame.Some? ==> frame.value.header.ack in {ack, None}
  {
    hide Snd.ReadyToSend, Snd.ReadyToRetransmit, FullyAcked;
  }

  lemma {:induction false} DataMirrored(z: T.System, p: PayloadHeader, data: Bytes, now: nat)
    requires data != [] && T.DataFrame(p.streamId, p.streamOffset, data, p.isClose) in z.net && NoWindows(z.rcv)
    ensures var z' := T.Next(z, T.DataArrives(T.DataFrame(p.streamId, p.streamOffset, data, p.isClose), now));
            var rcv := Rcv.InsertData(z.rcv, p.streamId, p.streamOffset, data, now).0;
            && z'.snd == z.snd
            && z'.rcv == (if p.isClose then Rcv.CloseStream(rcv, p.streamId, p.streamOffset) else rcv)
            && Extends(z, z') && NoWindows(z'.rcv)
  {
    hide RcvStream.Insert;
  }

  lemma {:induction false} EmptyMirrored(z: T.System, sid: nat, offset: nat)
    requires NoWindows(z.rcv)
    ensures var z' := T.Next(z, T.EmptyArrives(sid, offset));
            z'.snd == z.snd && z'.rcv == Rcv.EmptyInsert(z.rcv, sid, offset) && Extends(z, z') && NoWindows(z'.rcv)
  {
  }

  lemma {:induction false} MarkMirrored(z: T.System, sid: nat, offset: nat)
    requires NoWindows(z.rcv)
    ensures var z' := T.Next(z, T.MarkArrives(sid, offset));
            z'.snd == z.snd && z'.rcv == Rcv.CloseStream(z.rcv, sid, offset) && Extends(z, z') && NoWindows(z'.rcv)
  {
  }

  /** What hearing a frame does to the receive buffer: the wire changes nothing that matters to it. */
  lemma {:induction false} HeardRcv(e: End, f: Frame, now: nat)
    ensures var p := f.header;
            Heard(e, f, now).rcv ==
            if BytesOf(f.data) != [] then
              var rcv := Rcv.InsertData(e.conn.rcv, p.streamId, p.streamOffset, f.data.value, now).0;
              if p.isClose then Rcv.CloseStream(rcv, p.streamId, p.streamOffset) else rcv
            else if AckOnly(p, f.data) then e.conn.rcv
            else
              var rcv := Rcv.EmptyInsert(e.conn.rcv, p.streamId, p.streamOffset);
              if p.isClose then Rcv.CloseStream(rcv, p.streamId, p.streamOffset) else rcv
  {
    hide Rcv.InsertData, Rcv.EmptyInsert, Rcv.CloseStream, Snd.AcknowledgeRange, Snd.CloseStream, Rounded;
  }

  lemma {:induction false} HearInMirrored(z: T.System, e: End, f: Frame, now: nat)
    requires z.rcv == e.conn.rcv && DataKnown(f, z.net) && NoWindows(z.rcv)
    ensures var z' := T.Exec(z, InSteps(e, Hear(f, now)));
            z'.snd == z.snd && z'.rcv == Heard(e, f, now).rcv && Extends(z, z') && NoWindows(z'.rcv)
  {
    hide T.Next, Heard, Rcv.InsertData, Rcv.EmptyInsert, Rcv.CloseStream, NoWindows;
    HeardRcv(e, f, now);
    var p := f.header;
    if BytesOf(f.data) != [] {
      DataMirrored(z, p, f.data.value, now);
      ExecOne(z, T.DataArrives(T.DataFrame(p.streamId, p.streamOffset, f.data.value, p.isClose), now));
    } else if !AckOnly(p, f.data) {
      var s := T.EmptyArrives(p.streamId, p.streamOffset);
      EmptyMirrored(z, p.streamId, p.streamOffset);
      if p.isClose {
        MarkMirrored(T.Next(z, s), p.streamId, p.streamOffset);
        ExecTwo(z, s, T.MarkArrives(p.streamId, p.streamOffset));
      } else {
        ExecOne(z, s);
        assert [s] + [] == [s];
      }
    }
  }

  lemma {:induction false} FetchMirrored(out: End, into: End, z: T.System, sid: nat)
    requires Mirrors(out, into, z)
    ensures Mirrors(out, Act(into, Fetch(sid)).0, T.Next(z, T.Read(sid)))
  {
    hide RcvStream.Read;
    var z', into' := T.Next(z, T.Read(sid)), Act(into, Fetch(sid)).0;
    forall x: nat ensures T.DeliveredOf(z', x) == Of(into'.read, x) { assert T.DeliveredOf(z, x) == Of(into.read, x); }
    forall x: nat ensures T.HistOf(z', x).all == Of(out.wrote, x) { assert T.HistOf(z, x).all == Of(out.wrote, x); }
  }

  /** An action at the receiving end is its steps of the one-way system. */
  lemma {:induction false} InMirrored(out: End, into: End, z: T.System, act: Action)
    requires Mirrors(out, into, z) && Enabled(into, act)
    ensures var (into', frame) := Act(into, act); Mirrors(Post(out, frame), into', T.Exec(z, InSteps(into, act)))
  {
    hide T.Next, FlushOut, Heard, Popped, Rcv.GetSndAck, MtuHolds, DataKnown, Snd.QueueData;
    var (into', frame) := Act(into, act);
    var z' := T.Exec(z, InSteps(into, act));
    assert NoWindows(z.rcv);
    match act
    case Flush(how) =>
      TakeAckMirrored(z);
      ExecOne(z, T.TakeAck);
      FlushCarries(into.conn.snd, Popped(into.conn.rcv), how);
      MirrorsMore(out, into, z, Post(out, frame), into', z');
    case Hear(f, now) =>
      HearInMirrored(z, into, f, now);
      MirrorsMore(out, into, z, out, into', z');
    case Fetch(sid) =>
      FetchMirrored(out, into, z, sid);
      ExecOne(z, T.Read(sid));
    case _ =>
      MirrorsMore(out, into, z, out, into', z');
  }

  // ---------- Whole runs ----------

  /** Capacities of the two ends' buffers. */
  datatype Capacities = Capacities(sndA: nat, rcvA: nat, sndB: nat, rcvB: nat)

  ghost function Reached(c: Capacities, run: seq<Step>): Pair {
    Run(Pair(NewEnd(c.sndA, c.rcvA), NewEnd(c.sndB, c.rcvB)), run)
  }

  /** Every run of the two connections is, in each direction, a run of the one-way system. */
  lemma {:induction false} RunMirrored(c: Capacities, run: seq<Step>) returns (ab: seq<T.Step>, ba: seq<T.Step>)
    ensures var d := Reached(c, run);
            Mirrors(d.a, d.b, G.Reached(c.sndA, c.rcvB, ab)) && Mirrors(d.b, d.a, G.Reached(c.sndB, c.rcvA, ba))
  {
    hide T.Next, Act, Mirrors, Enabled, OutSteps, InSteps;
    if run == [] {
      ab, ba := [], [];
      StartMirrored(c.sndA, c.rcvA, c.sndB, c.rcvB);
      StartMirrored(c.sndB, c.rcvB, c.sndA, c.rcvA);
    } else {
      ab, ba := RunMirrored(c, run[..|run| - 1]);
      var d := Reached(c, run[..|run| - 1]);
      var zab, zba := G.Reached(c.sndA, c.rcvB, ab), G.Reached(c.sndB, c.rcvA, ba);
      match run[|run| - 1]
      case AtA(act) =>
        if Enabled(d.a, act) {
          OutMirrored(d.a, d.b, zab, act);
          InMirrored(d.b, d.a, zba, act);
          G.ExecAppend(T.Init(c.sndA, c.rcvB), ab, OutSteps(d.a, act));
          G.ExecAppend(T.Init(c.sndB, c.rcvA), ba, InSteps(d.a, act));
          ab, ba := ab + OutSteps(d.a, act), ba + InSteps(d.a, act);
        }
      case AtB(act) =>
        if Enabled(d.b, act) {
          OutMirrored(d.b, d.a, zba, act);
          InMirrored(d.a, d.b, zab, act);
          G.ExecAppend(T.Init(c.sndB, c.rcvA), ba, OutSteps(d.b, act));
          G.ExecAppend(T.Init(c.sndA, c.rcvB), ab, InSteps(d.b, act));
          ab, ba := ab + InSteps(d.b, act), ba + OutSteps(d.b, act);
        }
    }
  }

  lemma {:induction false} StartMirrored(snd: nat, rcv: nat, snd': nat, rcv': nat)
    ensures Mirrors(NewEnd(snd, rcv), NewEnd(snd', rcv'), T.Init(snd, rcv'))
  {
  }

  /** What one application has read is, on every stream and in both directions, the start of what the other
      has written; and both ends' buffers count exactly what they hold, within capacity. */
  ghost predicate Faithful(out: End, into: End) {
    && (forall sid: nat :: var next := Rcv.StreamOf(into.conn.rcv, sid).next;
          next <= |Of(out.wrote, sid)| && Of(into.read, sid) == Of(out.wrote, sid)[..next])
    && out.conn.snd.size == Snd.HeldBytes(out.conn.snd) <= out.conn.snd.capacity
    && into.conn.rcv.size == Rcv.AllStored(into.conn.rcv) <= into.conn.rcv.capacity
  }

  lemma {:induction false} OneWayFaithful(snd: nat, rcv: nat, steps: seq<T.Step>, out: End, into: End)
    requires Mirrors(out, into, G.Reached(snd, rcv, steps))
    ensures Faithful(out, into)
  {
    hide G.Reached;
    var z := G.Reached(snd, rcv, steps);
    G.BuffersConserved(snd, rcv, steps);
    forall sid: nat
      ensures var next := Rcv.StreamOf(into.conn.rcv, sid).next;
              next <= |Of(out.wrote, sid)| && Of(into.read, sid) == Of(out.wrote, sid)[..next]
    {
      G.PrefixSafety(snd, rcv, steps, sid);
      assert T.HistOf(z, sid).all == Of(out.wrote, sid) && T.DeliveredOf(z, sid) == Of(into.read, sid);
    }
  }

  lemma {:induction false} BothWaysFaithful(c: Capacities, run: seq<Step>)
    ensures var d := Reached(c, run); Faithful(d.a, d.b) && Faithful(d.b, d.a)
  {
    hide G.Reached, Mirrors, Faithful, Reached;
    var ab, ba := RunMirrored(c, run);
    var d := Reached(c, run);
    OneWayFaithful(c.sndA, c.rcvB, ab, d.a, d.b);
    OneWayFaithful(c.sndB, c.rcvA, ba, d.b, d.a);
  }

  /** No frame heard at either end trips a data-integrity panic. */
  lemma {:induction false} NoPanics(c: Capacities, run: seq<Step>, f: Frame, now: nat)
    requires BytesOf(f.data) != []
    ensures var d, p := Reached(c, run), f.header;
            && (f in d.a.inbox ==>
                  !Rcv.InsertData(d.a.conn.rcv, p.streamId, p.streamOffset, f.data.value, now).1.Panic?)
            && (f in d.b.inbox ==>
                  !Rcv.InsertData(d.b.conn.rcv, p.streamId, p.streamOffset, f.data.value, now).1.Panic?)
  {
    hide G.Reached, Reached, Rcv.InsertData;
    var ab, ba := RunMirrored(c, run);
    var d, p := Reached(c, run), f.header;
    var frame := T.DataFrame(p.streamId, p.streamOffset, f.data.value, p.isClose);
    if f in d.b.inbox {
      assert DataKnown(f, G.Reached(c.sndA, c.rcvB, ab).net);
      G.NoPanic(c.sndA, c.rcvB, ab, frame, now);
    }
    if f in d.a.inbox {
      assert DataKnown(f, G.Reached(c.sndB, c.rcvA, ba).net);
      G.NoPanic(c.sndB, c.rcvA, ba, frame, now);
    }
  }

  /** Every byte written at one end is queued or in flight there, or stored or read at the other. */
  lemma {:induction false} NothingLost(c: Capacities, run: seq<Step>, sid: nat, p: nat)
    ensures var d := Reached(c, run);
            && (p < |Of(d.a.wrote, sid)| ==> Somewhere(d.a, d.b, sid, p))
            && (p < |Of(d.b.wrote, sid)| ==> Somewhere(d.b, d.a, sid, p))
  {
    hide G.Reached, Mirrors, Reached, Somewhere;
    var ab, ba := RunMirrored(c, run);
    var d := Reached(c, run);
    if p < |Of(d.a.wrote, sid)| { OneWayNothingLost(c.sndA, c.rcvB, ab, d.a, d.b, sid, p); }
    if p < |Of(d.b.wrote, sid)| { OneWayNothingLost(c.sndB, c.rcvA, ba, d.b, d.a, sid, p); }
  }

  ghost predicate Somewhere(out: End, into: End, sid: nat, p: nat) {
    var s := Snd.StreamOf(out.conn.snd, sid);
    s.sentOffset <= p || G.InFlightAt(s, p) || RA.Has(Rcv.StreamOf(into.conn.rcv, sid), p)
  }

  lemma {:induction false} OneWayNothingLost(snd: nat, rcv: nat, steps: seq<T.Step>, out: End, into: End, sid: nat,
                                             p: nat)
    requires Mirrors(out, into, G.Reached(snd, rcv, steps)) && p < |Of(out.wrote, sid)|
    ensures Somewhere(out, into, sid, p)
  {
    hide G.Reached;
    assert T.HistOf(G.Reached(snd, rcv, steps), sid).all == Of(out.wrote, sid);
    G.NoLoss(snd, rcv, steps, sid, p);
  }

  // ---------- On the wire ----------

  /** Every frame sent to this end and every acknowledgement waiting fit the fields of the wire format. */
  ghost predicate OnWire(e: End) {
    && (forall f :: f in e.inbox ==> HeaderFits(f.header))
    && (forall i :: 0 <= i < |e.conn.rcv.ackList| ==> AckFits(e.conn.rcv.ackList[i]))
  }

  lemma {:induction false} SendOffsetFits(st: Snd.State, sid: nat, t: MsgType, ack: Option<Ack>, mtu: nat, now: nat)
    ensures var out := Snd.ReadyToSend(st, sid, t, ack, mtu, now).1; out.Packet? ==> out.offset < U48
  {
  }

  lemma {:induction false} RetransmitOffsetFits(st: Snd.State, h: Flight.History, sid: nat,
                                                t: MsgType, ack: Option<Ack>, mtu: nat, rto: nat, now: nat)
    requires StreamInv(Snd.StreamOf(st, sid), h)
    ensures var out := Snd.ReadyToRetransmit(st, sid, ack, mtu, rto, t, now).1; out.Packet? ==> out.offset < U48
  {
    var s := Snd.StreamOf(st, sid);
    if s.inFlight.keys != [] { OldestOk(s, h); }
    D.RetransmitRoom(s, MaxData(t, ack, Snd.OldestOffset(s), mtu), rto, now);
  }

  lemma {:induction false} FlushFitsWire(snd: Snd.State, h: Flight.History, ack: Option<Ack>, how: Flushing)
    requires how.sid < U32 && StreamInv(Snd.StreamOf(snd, how.sid), h)
    requires ack.Some? ==> AckFits(ack.value)
    ensures var frame := FlushOut(snd, ack, how).1; frame.Some? ==> HeaderFits(frame.value.header)
  {
    hide Snd.ReadyToSend, Snd.ReadyToRetransmit, FullyAcked, StreamInv, AckFits;
    RetransmitOffsetFits(snd, h, how.sid, how.t, ack, how.mtu, how.rto, how.now);
    var snd1 := Snd.ReadyToRetransmit(snd, how.sid, ack, how.mtu, how.rto, how.t, how.now).0;
    SendOffsetFits(snd1, how.sid, how.t, ack, how.mtu, how.now);
  }

  lemma {:induction false} HearFitsWire(e: End, f: Frame, now: nat)
    requires OnWire(e) && f in e.inbox
    ensures OnWire(e.(conn := Heard(e, f, now)))
  {
    hide Heard, RcvStream.Insert;
    HeardRcv(e, f, now);
    assert HeaderFits(f.header);
  }

  /** What an end does keeps its frames and acknowledgements within the wire format, and so is what it sends. */
  lemma {:induction false} ActFitsWire(e: End, h: map<nat, Flight.History>, act: Action)
    requires OnWire(e) && Enabled(e, act)
    requires act.Flush? ==> act.how.sid in h && StreamInv(Snd.StreamOf(e.conn.snd, act.how.sid), h[act.how.sid])
    ensures var (e', frame) := Act(e, act); OnWire(e') && (frame.Some? ==> HeaderFits(frame.value.header))
  {
    hide Heard, FlushOut, StreamInv, MtuHolds, Snd.QueueData;
    match act
    case Flush(how) => FlushFitsWire(e.conn.snd, h[how.sid], Popped(e.conn.rcv), how);
    case Hear(f, now) => HearFitsWire(e, f, now);
    case _ =>
  }

  lemma {:induction false} StreamsSound(c: Capacities, run: seq<Step>, sid: nat)
    returns (ha: Flight.History, hb: Flight.History)
    ensures var d := Reached(c, run);
            StreamInv(Snd.StreamOf(d.a.conn.snd, sid), ha) && StreamInv(Snd.StreamOf(d.b.conn.snd, sid), hb)
  {
    hide G.Reached, Reached, StreamInv;
    var ab, ba := RunMirrored(c, run);
    G.ReachedSound(c.sndA, c.rcvB, ab, sid);
    G.ReachedSound(c.sndB, c.rcvA, ba, sid);
    ha, hb := T.HistOf(G.Reached(c.sndA, c.rcvB, ab), sid), T.HistOf(G.Reached(c.sndB, c.rcvA, ba), sid);
  }

  lemma {:induction false} RunOnWire(c: Capacities, run: seq<Step>)
    ensures OnWire(Reached(c, run).a) && OnWire(Reached(c, run).b)
  {
    hide Act, Enabled, StreamInv, OnWire;
    if run == [] {
      NothingOnWire(c.sndA, c.rcvA);
      NothingOnWire(c.sndB, c.rcvB);
    } else {
      var d, step := Reached(c, run[..|run| - 1]), run[|run| - 1];
      RunOnWire(c, run[..|run| - 1]);
      var sid := if step.act.Flush? then step.act.how.sid else 0;
      var ha, hb := StreamsSound(c, run[..|run| - 1], sid);
      if step.AtA? && Enabled(d.a, step.act) {
        ActFitsWire(d.a, map[sid := ha], step.act);
        PostOnWire(d.b, Act(d.a, step.act).1);
      } else if step.AtB? && Enabled(d.b, step.act) {
        ActFitsWire(d.b, map[sid := hb], step.act);
        PostOnWire(d.a, Act(d.b, step.act).1);
      }
    }
  }

  lemma {:induction false} NothingOnWire(snd: nat, rcv: nat)
    ensures OnWire(NewEnd(snd, rcv))
  {
  }

  lemma {:induction false} PostOnWire(e: End, frame: Option<Frame>)
    requires OnWire(e) && (frame.Some? ==> HeaderFits(frame.value.header))
    ensures OnWire(Post(e, frame))
  {
  }

  /** Packets in flight are never that long. */
  lemma {:induction false} OldestSmall(s: SS.Stream, h: Flight.History, maxData: int)
    requires StreamInv(s, h)
    ensures !D.Oversized(s, maxData)
  {
  }

  /** In every run, whatever either end's next flush sends, encoded and sealed, fits the MTU. */
  lemma {:induction false} FlushesFit<K>(c: Capacities, run: seq<Step>, how: Flushing, v: D.Envelope<K>)
    requires D.Proper(v) && v.t == how.t && v.mtu == how.mtu && MtuHolds(how.t, how.mtu)
    ensures var d := Reached(c, run);
            var fa := FlushOut(d.a.conn.snd, Popped(d.a.conn.rcv), how).1;
            var fb := FlushOut(d.b.conn.snd, Popped(d.b.conn.rcv), how).1;
            (fa.Some? ==> D.WithinMtu(v, fa.value)) && (fb.Some? ==> D.WithinMtu(v, fb.value))
  {
    hide Reached, FlushOut, StreamInv, MtuHolds, D.WithinMtu, D.Oversized, Popped;
    var d := Reached(c, run);
    var ha, hb := StreamsSound(c, run, how.sid);
    forall n ensures !D.Oversized(Snd.StreamOf(d.a.conn.snd, how.sid), n) {
      OldestSmall(Snd.StreamOf(d.a.conn.snd, how.sid), ha, n);
    }
    forall n ensures !D.Oversized(Snd.StreamOf(d.b.conn.snd, how.sid), n) {
      OldestSmall(Snd.StreamOf(d.b.conn.snd, how.sid), hb, n);
    }
    D.FlushFitsIff(v, d.a.conn.snd, Popped(d.a.conn.rcv), how);
    D.FlushFitsIff(v, d.b.conn.snd, Popped(d.b.conn.rcv), how);
  }

  /** In every run, any frame on its way to an end, once encoded, sealed and sent as a datagram, is read there
      as what `Hear` takes it for: the model's frames are the wire's. The opening packet, which has keys and no
      payload, stands in the model for the empty payload its receiver makes of it. */
  lemma {:induction false} FramesAreTheWires<K>(c: Capacities, run: seq<Step>, f: Frame, v: D.Envelope<K>, epoch: nat,
                                                noise: nat)
    requires f in Reached(c, run).a.inbox || f in Reached(c, run).b.inbox
    requires D.Proper(v) && D.Build(v, f.header, f.data).Some?
    requires v.c.epoch < U48 && v.c.sn < U48 && epoch + 1 < U48 && -1 <= v.c.epoch - epoch <= 1
    ensures D.Receive(v.t, v.key, !v.isSender, epoch, D.Build(v, f.header, f.data).value, noise)
            == D.Received.Received(Arrives(f.header, f.data))
  {
    RunOnWire(c, run);
    D.BuiltArrives(v, f.header, f.data, epoch, noise);
  }

  /** Whatever a flush sends as the opening packet is that empty payload, and arrives as it. */
  lemma {:induction false} OpeningIsEmpty(snd: Snd.State, ack: Option<Ack>, how: Flushing)
    requires how.t.InitSnd?
    ensures var frame := FlushOut(snd, ack, how).1; frame.Some? ==> frame.value == OPENING
    ensures Arrives(OPENING.header, OPENING.data) == OPENING
  {
    hide Snd.ReadyToSend, Snd.ReadyToRetransmit, FullyAcked;
  }
}
