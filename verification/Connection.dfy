/** A connection: its two buffers, what a payload from the peer does to them, and what a flush sends. */
module Connection {
  import opened Common
  import C = Controller
  import opened Messages
  import opened Wire
  import Rcv = RcvState
  import SS = SendStream
  import Snd = SendState

  datatype Conn = Conn(snd: Snd.State, rcv: Rcv.State)

  function Init(sndCapacity: nat, rcvCapacity: nat): Conn {
    Conn(Snd.Init(sndCapacity), Rcv.Init(rcvCapacity))
  }

  // ---------- Receiving ----------

  /** A payload inserts its data; an empty one is still acknowledged when it is a ping or a close. */
  ghost function Store(rcv: Rcv.State, p: PayloadHeader, data: UserData, now: nat): Rcv.State {
    if BytesOf(data) != [] then Rcv.InsertData(rcv, p.streamId, p.streamOffset, data.value, now).0
    else if p.isClose || data.Some? then Rcv.EmptyInsert(rcv, p.streamId, p.streamOffset)
    else rcv
  }

  /** `Conn.decode`: acknowledgement to the send buffer, data to the receive buffer, a close to both. */
  ghost function Receive(c: Conn, p: PayloadHeader, data: UserData, now: nat): Conn {
    var snd := if p.ack.Some? then Snd.AcknowledgeRange(c.snd, p.ack.value).0 else c.snd;
    var rcv := Store(c.rcv, p, data, now);
    if p.isClose then Conn(Snd.CloseStream(snd, p.streamId), Rcv.CloseStream(rcv, p.streamId, p.streamOffset))
    else Conn(snd, rcv)
  }

  // ---------- Sending ----------

  /** Room for the largest headers of a message type. */
  predicate MtuHolds(t: MsgType, mtu: nat) {
    && mtu < U16
    && (!t.InitSnd? ==> CryptoHeaderSize(t) + FOOTER_SIZE + FILL_LEN_SIZE + ProtoOverhead(true, true, false) <= mtu)
  }

  lemma HoldsFits(t: MsgType, mtu: nat, ack: Option<Ack>, offset: nat)
    requires MtuHolds(t, mtu)
    ensures MtuFits(t, ack, offset, mtu)
  {
  }

  /** What a flush of one stream depends on besides the buffers: message type, clock, pacing, the peer's
      window, whether the handshake allows new data, and whether the first packet is still to be sent. */
  datatype Flushing = Flushing(sid: nat, t: MsgType, mtu: nat, rto: nat, now: nat,
                               paced: bool, windowFull: bool, maySend: bool, initPending: bool)

  function FullyAcked(st: Snd.State, sid: nat): bool {
    var closeAt := Snd.StreamOf(st, sid).closeAt;
    closeAt.Some? && Snd.OffsetAcked(st, sid) >= closeAt.value
  }

  /** `writeAck`: no data, and a close once the closed stream is fully acknowledged. */
  function AckOut(snd: Snd.State, sid: nat, ack: Option<Ack>): Frame {
    Frame(PayloadHeader(FullyAcked(snd, sid), ack, sid, 0), None)
  }

  /** `sendPacket`. */
  function PacketOut(sid: nat, ack: Option<Ack>, out: SS.Handout): Frame
    requires out.Packet?
  {
    Frame(PayloadHeader(out.isClose, ack, sid, out.offset), Some(out.data))
  }

  // What the peer makes of the packet that opens a connection with keys only: an empty payload for stream 0.
  const OPENING := Frame(PayloadHeader(false, None, 0, 0), Some([]))

  /** What a frame becomes when it goes out as a message of type t. */
  function SentAs(t: MsgType, frame: Frame): Frame {
    if t.InitSnd? then OPENING else frame
  }

  /** The acknowledgement a flush takes along, with the window that is left. */
  function Popped(rcv: Rcv.State): Option<Ack> {
    var ack := Rcv.GetSndAck(rcv).1;
    if ack.Some? then Some(ack.value.(rcvWnd := (rcv.capacity - rcv.size) % U64)) else None
  }

  /** What a flush does to the send buffer, and the frame it sends. */
  function FlushOut(snd: Snd.State, ack: Option<Ack>, f: Flushing): (Snd.State, Option<Frame>)
  {
    if f.paced then (snd, None)
    else if f.windowFull then (snd, if ack.Some? then Some(SentAs(f.t, AckOut(snd, f.sid, ack))) else None)
    else
      var (snd1, again) := Snd.ReadyToRetransmit(snd, f.sid, ack, f.mtu, f.rto, f.t, f.now);
      if again.RetriesExhausted? || again.Panics? then (snd1, None)
      else if again.Packet? then (snd1, Some(SentAs(f.t, PacketOut(f.sid, ack, again))))
      else if !f.maySend then (snd1, if ack.Some? then Some(SentAs(f.t, AckOut(snd1, f.sid, ack))) else None)
      else
        var (snd2, out) := Snd.ReadyToSend(snd1, f.sid, f.t, ack, f.mtu, f.now);
        if out.Packet? then (snd2, Some(SentAs(f.t, PacketOut(f.sid, ack, out))))
        else (snd2, if ack.Some? || f.initPending then Some(SentAs(f.t, AckOut(snd2, f.sid, ack))) else None)
  }

  /** Whether a flush sends a packet again, which the controller takes for a loss. */
  predicate Resends(snd: Snd.State, ack: Option<Ack>, f: Flushing) {
    && !f.paced && !f.windowFull
    && Snd.ReadyToRetransmit(snd, f.sid, ack, f.mtu, f.rto, f.t, f.now).1.Packet?
  }

  /** `Conn.Flush`. */
  function Flush(c: Conn, f: Flushing): (Conn, Option<Frame>) {
    var (snd, frame) := FlushOut(c.snd, Popped(c.rcv), f);
    (Conn(snd, Rcv.GetSndAck(c.rcv).0), frame)
  }

  // ---------- The controller ----------

  /** What the acknowledgement in a payload tells the controller: a round trip when it is the first for its
      range, a duplicate when the range is unknown. `None` is a division by zero. */
  function MeasureAfter(m: C.Measure, snd: Snd.State, p: PayloadHeader, now: nat): Option<C.Measure> {
    if p.ack.None? then Some(m)
    else
      var (_, status, sentTime) := Snd.AcknowledgeRange(snd, p.ack.value);
      match status
      case AckOk => if now > sentTime then C.Update(m, now - sentTime, p.ack.value.len, now) else Some(m)
      case AckDup => Some(C.DuplicateAck(m))
      case AckNoStream => Some(m)
  }

  /** The smallest round trip never becomes zero. */
  lemma StaysPositive(m: C.Measure, rtt: nat, acked: nat, now: nat)
    requires 0 < m.rttMin
    ensures C.Update(m, rtt, acked, now).Some? && 0 < C.Update(m, rtt, acked, now).value.rttMin
  {
  }

  lemma NothingMeasured(m: C.Measure, snd: Snd.State, p: PayloadHeader, now: nat)
    requires p.ack.None?
    ensures MeasureAfter(m, snd, p, now) == Some(m)
  {
  }
}
