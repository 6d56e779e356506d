/** Sender and receiver joined by a network that may drop, repeat and reorder. Everything
    ever sent stays available for delivery, any number of times and in any order; a frame
    that is never delivered is a dropped one. */
module Transport {
  import opened Common
  import opened Flight
  import opened Messages
  import opened Ranges
  import opened Reassembly
  import opened SendDiscipline
  import Rcv = RcvState
  import SS = SendStream
  import Snd = SendState

  datatype Frame =
    | DataFrame(sid: nat, offset: nat, data: Bytes, isClose: bool)
    | AckFrame(ack: Ack)

  /** `hist` and `delivered` record the past of each stream: bytes queued, ranges handed out,
      ranges acknowledged, bytes read. */
  datatype System = System(
    snd: Snd.State,
    rcv: Rcv.State,
    net: set<Frame>,
    hist: map<nat, History>,
    delivered: map<nat, Bytes>)

  datatype Step =
    | Write(sid: nat, data: Bytes)
    | Ping(sid: nat)
    | CloseStream(sid: nat)
    | Send(sid: nat, t: MsgType, piggyback: Option<Ack>, mtu: nat, now: nat)
    | Retransmit(sid: nat, t: MsgType, piggyback: Option<Ack>, mtu: nat, rto: nat, now: nat)
    | DataArrives(frame: Frame, now: nat)
    | EmptyArrives(sid: nat, offset: nat)
    | MarkArrives(sid: nat, offset: nat)
    | TakeAck
    | AckArrives(ack: Ack)
    | Read(sid: nat)

  function Init(sndCapacity: nat, rcvCapacity: nat): System {
    System(Snd.Init(sndCapacity), Rcv.Init(rcvCapacity), {}, map[], map[])
  }

  function HistOf(z: System, sid: nat): History {
    if sid in z.hist then z.hist[sid] else History([], [], {})
  }

  function DeliveredOf(z: System, sid: nat): Bytes {
    if sid in z.delivered then z.delivered[sid] else []
  }

  /** What a step asks for: the writer stops at a closed stream and at the end of the offset
      space, headers fit the MTU, and only frames that were sent arrive. */
  ghost predicate Enabled(z: System, step: Step) {
    match step
    case Write(sid, data) =>
      && Snd.StreamOf(z.snd, sid).closeAt.None?
      && z.snd.size <= z.snd.capacity
      && |HistOf(z, sid).all| + |data| < U48
    case Send(sid, t, ack, mtu, _) => MtuFits(t, ack, Snd.StreamOf(z.snd, sid).sentOffset, mtu)
    case Retransmit(sid, t, ack, mtu, _, _) =>
      MtuFits(t, ack, Snd.OldestOffset(Snd.StreamOf(z.snd, sid)), mtu)
    case DataArrives(frame, _) => frame in z.net && frame.DataFrame?
    case AckArrives(ack) => AckFrame(ack) in z.net
    case _ => true
  }

  ghost function Emit(net: set<Frame>, sid: nat, out: SS.Handout): set<Frame> {
    if out.Packet? then net + {DataFrame(sid, out.offset, out.data, out.isClose)} else net
  }

  ghost function DoWrite(z: System, sid: nat, data: Bytes): System
    requires z.snd.size <= z.snd.capacity
  {
    var (snd', n, status) := Snd.QueueData(z.snd, sid, data);
    var h := HistOf(z, sid);
    z.(snd := snd', hist := z.hist[sid := h.(all := h.all + data[..n])])
  }

  ghost function DoPing(z: System, sid: nat): System {
    z.(snd := Snd.QueuePing(z.snd, sid))
  }

  ghost function DoClose(z: System, sid: nat): System {
    z.(snd := Snd.CloseStream(z.snd, sid))
  }

  /** The sender moves to `snd'` and hands `out` to the network. */
  ghost function HandOut(z: System, sid: nat, snd': Snd.State, out: SS.Handout): System {
    z.(snd := snd', net := Emit(z.net, sid, out), hist := z.hist[sid := Logged(HistOf(z, sid), out)])
  }

  /** `Conn.decode` on a frame with data, or with none. */
  ghost function DoArrive(z: System, sid: nat, offset: nat, data: Bytes, now: nat): System {
    z.(rcv := if data == [] then Rcv.EmptyInsert(z.rcv, sid, offset)
              else Rcv.InsertData(z.rcv, sid, offset, data, now).0)
  }

  ghost function DoReceiverClose(z: System, sid: nat, offset: nat): System {
    z.(rcv := Rcv.CloseStream(z.rcv, sid, offset))
  }

  ghost function DoTakeAck(z: System): System {
    var (rcv', ack) := Rcv.GetSndAck(z.rcv);
    z.(rcv := rcv', net := if ack.Some? then z.net + {AckFrame(ack.value)} else z.net)
  }

  ghost function DoAck(z: System, ack: Ack): System {
    var s := Snd.StreamOf(z.snd, ack.streamId);
    z.(snd := Snd.AcknowledgeRange(z.snd, ack).0,
       hist := z.hist[ack.streamId := Acked(s, HistOf(z, ack.streamId), KeyRange(ack.offset, ack.len))])
  }

  ghost function DoRead(z: System, sid: nat): System {
    var (rcv', r) := Rcv.RemoveOldestInOrder(z.rcv, sid);
    z.(rcv := rcv', delivered := z.delivered[sid := Delivered(DeliveredOf(z, sid), r)])
  }

  /** One step; a step that is not enabled does nothing. */
  ghost function Next(z: System, step: Step): System {
    if !Enabled(z, step) then z
    else
      match step
      case Write(sid, data) => DoWrite(z, sid, data)
      case Ping(sid) => DoPing(z, sid)
      case CloseStream(sid) => DoClose(z, sid)
      case Send(sid, t, ack, mtu, now) =>
        var (snd', out) := Snd.ReadyToSend(z.snd, sid, t, ack, mtu, now);
        HandOut(z, sid, snd', out)
      case Retransmit(sid, t, ack, mtu, rto, now) =>
        var (snd', out) := Snd.ReadyToRetransmit(z.snd, sid, ack, mtu, rto, t, now);
        HandOut(z, sid, snd', out)
      case DataArrives(f, now) =>
        var z' := DoArrive(z, f.sid, f.offset, f.data, now);
        if f.isClose then DoReceiverClose(z', f.sid, f.offset) else z'
      case EmptyArrives(sid, offset) => DoArrive(z, sid, offset, [], 0)
      case MarkArrives(sid, offset) => DoReceiverClose(z, sid, offset)
      case TakeAck => DoTakeAck(z)
      case AckArrives(ack) => DoAck(z, ack)
      case Read(sid) => DoRead(z, sid)
  }

  ghost function Exec(z: System, run: seq<Step>): System {
    if run == [] then z else Next(Exec(z, run[..|run| - 1]), run[|run| - 1])
  }
}
