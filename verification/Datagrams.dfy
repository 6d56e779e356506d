/** From the bytes the send buffer hands out to the datagram on the wire and back. */
module Datagrams {
  import opened Common
  import opened Messages
  import opened Nonce
  import opened Sealing
  import opened Wire
  import Cn = Connection
  import SS = SendStream
  import Snd = SendState

  type PubKey = k: Bytes | |k| == PUB_KEY_SIZE witness seq(PUB_KEY_SIZE, _ => 0)

  function TypeNumber(t: MsgType): nat {
    match t
    case InitSnd => 0
    case InitRcv => 1
    case InitCryptoSnd => 2
    case InitCryptoRcv => 3
    case Data => 4
  }

  /** The plain part in front: type, then connection and keys as far as the type has them. */
  function HeaderOf(t: MsgType, connId: nat, ep: PubKey, id: PubKey): (b: Bytes)
    ensures |b| == CryptoHeaderSize(t)
  {
    [TypeNumber(t) * 32] +
    match t
    case InitSnd => ep + id
    case InitRcv => LE(8, connId) + ep + id
    case InitCryptoSnd => ep + id
    case InitCryptoRcv => LE(8, connId) + ep
    case Data => LE(8, connId)
  }

  /** The connection a packet belongs to: the eight bytes behind the type, whatever they are. */
  function ConnIdAt(b: Bytes): nat
    requires |b| >= HEADER_SIZE + CONN_ID_SIZE
  {
    UnLE(b[HEADER_SIZE..HEADER_SIZE + CONN_ID_SIZE])
  }

  /** The name of a connection: the first bytes of the initiator's ephemeral key. */
  function NameOf(ep: PubKey): nat {
    UnLE(ep[..CONN_ID_SIZE])
  }

  /** Type and keys are read back from where they were put, and every packet of a connection, from either
      end, names it by the initiator's key. */
  lemma {:induction false} HeaderReadsBack(t: MsgType, initiator: PubKey, ep: PubKey, id: PubKey)
    requires t.InitSnd? || t.InitCryptoSnd? ==> ep == initiator
    ensures var b := HeaderOf(t, NameOf(initiator), ep, id);
            && b[0] / 32 == TypeNumber(t) && b[0] % 32 == 0 && ConnIdAt(b) == NameOf(initiator)
            && (t.InitSnd? || t.InitCryptoSnd? ==> b[1..33] == ep && b[33..65] == id)
            && (t.InitRcv? ==> b[9..41] == ep && b[41..73] == id)
            && (t.InitCryptoRcv? ==> b[9..41] == ep)
  {
    hide LE;
    var name := NameOf(initiator);
    var b := HeaderOf(t, name, ep, id);
    LEOfUnLE(initiator[..CONN_ID_SIZE]);
    assert LE(8, name) == initiator[..CONN_ID_SIZE];
    assert b[1..9] == initiator[..CONN_ID_SIZE];
  }

  /** The packet that opens a connection without data: keys, filled up to the MTU. */
  function InitialPacket(ep: PubKey, id: PubKey, mtu: nat): (b: Bytes)
    requires CryptoHeaderSize(InitSnd) <= mtu
    ensures |b| == mtu
  {
    HeaderOf(InitSnd, 0, ep, id) + Zeros(mtu - CryptoHeaderSize(InitSnd))
  }

  /** Who seals, under which number and header, for which MTU. */
  datatype Envelope<K> = Envelope(t: MsgType, key: K, isSender: bool, c: Counter, header: Bytes, mtu: nat)

  predicate Proper<K>(v: Envelope<K>) {
    !v.t.InitSnd? && |v.header| == CryptoHeaderSize(v.t) && v.mtu < U16
  }

  function Plain(t: MsgType, p: PayloadHeader, data: UserData, mtu: nat): Option<Bytes> {
    if t.InitCryptoSnd? then Pad(Encode(p, data), mtu) else Some(Encode(p, data))
  }

  function Build<K>(v: Envelope<K>, p: PayloadHeader, data: UserData): Option<Datagram<K>> {
    var plain := Plain(v.t, p, data, v.mtu);
    if plain.None? then None else Some(Seal(v.key, v.isSender, v.c, v.header, plain.value))
  }

  /** What the other end makes of a datagram; `Panics` is a slice out of range. */
  datatype Received = Received(frame: Frame) | Rejected | Panics

  function ReadPayload(payload: Bytes): Received {
    var frame := Decode(payload);
    if frame.None? then Rejected else Received(frame.value)
  }

  function Receive<K(==)>(t: MsgType, key: K, isSender: bool, epoch: nat, d: Datagram<K>, noise: nat): Received {
    var got := Decrypt(key, isSender, epoch, d, noise);
    if got.None? then Rejected
    else if !t.InitCryptoSnd? then ReadPayload(got.value.plain)
    else
      match Unpad(got.value.plain)
      case Stripped(payload) => ReadPayload(payload)
      case Overrun => Panics
  }

  // ---------- Size ----------

  /** Data no longer than the room reckoned for an offset gives a datagram within the MTU at that or any
      smaller offset; the first packet with data is exactly as long as the MTU. */
  lemma {:induction false} BuildFits<K>(v: Envelope<K>, p: PayloadHeader, data: UserData, offset: nat)
    requires Proper(v) && MtuFits(v.t, p.ack, offset, v.mtu) && p.streamOffset <= offset
    requires |BytesOf(data)| <= MaxData(v.t, p.ack, offset, v.mtu)
    ensures Build(v, p, data).Some?
    ensures var n := Size(Build(v, p, data).value); n <= v.mtu && (v.t.InitCryptoSnd? ==> n == v.mtu)
  {
    hide Encode;
    EncodedLength(p, data);
  }

  ghost predicate WithinMtu<K>(v: Envelope<K>, f: Frame) {
    var d := Build(v, f.header, f.data);
    d.Some? && Size(d.value) <= v.mtu && (v.t.InitCryptoSnd? ==> Size(d.value) == v.mtu)
  }

  /** Data that no 16-bit length can name never fits. */
  lemma {:induction false} HugeNeverFits<K>(v: Envelope<K>, f: Frame)
    requires Proper(v) && |BytesOf(f.data)| >= U16
    ensures !WithinMtu(v, f)
  {
    hide Encode;
    EncodedLength(f.header, f.data);
  }

  /** What a stream hands out carries at most the room and an offset not beyond the one it reckoned with. */
  lemma {:induction false} SendRoom(s: SS.Stream, maxData: nat, now: nat)
    ensures var out := SS.Send(s, maxData, now).1; out.Packet? ==> |out.data| <= maxData && out.offset <= s.sentOffset
  {
    WrapAtMost(s.sentOffset, U48);
  }

  lemma {:induction false} WrapAtMost(x: nat, m: nat)
    requires 0 < m
    ensures Wrap(x, m) <= x
  {
    if x < m {
    } else {
      WrapAtMost(x - m, m);
    }
  }

  /** The oldest packet in flight is so long that 16 bits make it look within the room. */
  predicate Oversized(s: SS.Stream, maxData: int) {
    SS.HasOldest(s) && U16 <= |SS.Oldest(s).data| && Wrap(|SS.Oldest(s).data|, U16) <= maxData
  }

  /** A packet handed out again is that of the stream's oldest offset; it is within the room unless oversized,
      and then too long for any room. */
  lemma {:induction false} RetransmitRoom(s: SS.Stream, maxData: int, rto: nat, now: nat)
    ensures var out := SS.Retransmit(s, maxData, rto, now).1;
            && (out.Packet? ==> out.offset <= Snd.OldestOffset(s))
            && (out.Packet? && 0 <= maxData < U16 ==>
                  if Oversized(s, maxData) then U16 <= |out.data| else |out.data| <= maxData)
  {
  }

  /** Every packet that `ReadyToSend` hands out fits its datagram. */
  lemma {:induction false} SendFits<K>(v: Envelope<K>, st: Snd.State, sid: nat, ack: Option<Ack>, now: nat)
    requires Proper(v) && MtuFits(v.t, ack, Snd.StreamOf(st, sid).sentOffset, v.mtu)
    ensures var out := Snd.ReadyToSend(st, sid, v.t, ack, v.mtu, now).1;
            out.Packet? ==> WithinMtu(v, Cn.PacketOut(sid, ack, out))
  {
    hide SS.Send;
    var s := Snd.StreamOf(st, sid);
    var maxData := MaxData(v.t, ack, s.sentOffset, v.mtu);
    SendRoom(s, maxData, now);
    var out := Snd.ReadyToSend(st, sid, v.t, ack, v.mtu, now).1;
    if out.Packet? {
      var f := Cn.PacketOut(sid, ack, out);
      BuildFits(v, f.header, f.data, s.sentOffset);
    }
  }

  /** So does a packet that `ReadyToRetransmit` hands out, whole or split, exactly when the packet in flight is
      not oversized. */
  lemma {:induction false} RetransmitFitsIff<K>(v: Envelope<K>, st: Snd.State, sid: nat, ack: Option<Ack>, rto: nat,
                                                now: nat)
    requires Proper(v) && MtuFits(v.t, ack, Snd.OldestOffset(Snd.StreamOf(st, sid)), v.mtu)
    ensures var s := Snd.StreamOf(st, sid); var out := Snd.ReadyToRetransmit(st, sid, ack, v.mtu, rto, v.t, now).1;
            out.Packet? ==> (WithinMtu(v, Cn.PacketOut(sid, ack, out))
                             <==> !Oversized(s, MaxData(v.t, ack, Snd.OldestOffset(s), v.mtu)))
  {
    hide SS.Retransmit, WithinMtu, Oversized;
    var s := Snd.StreamOf(st, sid);
    var maxData := MaxData(v.t, ack, Snd.OldestOffset(s), v.mtu);
    RetransmitRoom(s, maxData, rto, now);
    var out := Snd.ReadyToRetransmit(st, sid, ack, v.mtu, rto, v.t, now).1;
    if out.Packet? {
      var f := Cn.PacketOut(sid, ack, out);
      if Oversized(s, maxData) { HugeNeverFits(v, f); } else { RoomFits(v, f, Snd.OldestOffset(s)); }
    }
  }

  lemma {:induction false} RoomFits<K>(v: Envelope<K>, f: Frame, offset: nat)
    requires Proper(v) && MtuFits(v.t, f.header.ack, offset, v.mtu) && f.header.streamOffset <= offset
    requires |BytesOf(f.data)| <= MaxData(v.t, f.header.ack, offset, v.mtu)
    ensures WithinMtu(v, f)
  {
    BuildFits(v, f.header, f.data, offset);
  }

  /** An acknowledgement without data, or a bare closing mark, fits too. */
  lemma {:induction false} AckFitsMtu<K>(v: Envelope<K>, isClose: bool, ack: Option<Ack>, sid: nat)
    requires Proper(v) && MtuFits(v.t, ack, 0, v.mtu)
    ensures WithinMtu(v, Frame(PayloadHeader(isClose, ack, sid, 0), None))
  {
    BuildFits(v, PayloadHeader(isClose, ack, sid, 0), None, 0);
  }

  /** A flush gets to retransmission, and the oldest packet in flight is due, and is not a ping. */
  predicate Due(s: SS.Stream, f: Cn.Flushing) {
    && !f.paced && !f.windowFull && SS.HasOldest(s)
    && var info := SS.Oldest(s);
       1 <= info.sentNr <= SS.MAX_RETRY && SS.Expired(info, f.rto, f.now) && !info.isPing
  }

  /** An oversized packet that is due goes out whole; one that is not due leaves what a flush sends alone. */
  lemma {:induction false} OversizedGoesOut(snd: Snd.State, ack: Option<Ack>, f: Cn.Flushing)
    requires MtuFits(f.t, ack, Snd.OldestOffset(Snd.StreamOf(snd, f.sid)), f.mtu)
    requires Oversized(Snd.StreamOf(snd, f.sid), MaxData(f.t, ack, Snd.OldestOffset(Snd.StreamOf(snd, f.sid)), f.mtu))
    ensures Due(Snd.StreamOf(snd, f.sid), f) <==> Cn.Resends(snd, ack, f)
  {
    hide SS.Backoff, SS.Elapsed, SS.Split;
  }

  /** Whatever a flush sends fits its datagram, exactly unless an oversized packet is due. */
  lemma {:induction false} FlushFitsIff<K>(v: Envelope<K>, snd: Snd.State, ack: Option<Ack>, f: Cn.Flushing)
    requires Proper(v) && v.t == f.t && v.mtu == f.mtu && Cn.MtuHolds(f.t, f.mtu)
    ensures var s, frame := Snd.StreamOf(snd, f.sid), Cn.FlushOut(snd, ack, f).1;
            frame.Some? ==> (WithinMtu(v, frame.value)
                             <==> !(Due(s, f) && Oversized(s, MaxData(f.t, ack, Snd.OldestOffset(s), f.mtu))))
  {
    hide Snd.ReadyToSend, Snd.ReadyToRetransmit, MtuFits, Cn.MtuHolds, Cn.FullyAcked, WithinMtu, Oversized, Due;
    var s := Snd.StreamOf(snd, f.sid);
    Cn.HoldsFits(f.t, f.mtu, ack, 0);
    AckFitsMtu(v, false, ack, f.sid);
    AckFitsMtu(v, true, ack, f.sid);
    Cn.HoldsFits(f.t, f.mtu, ack, Snd.OldestOffset(s));
    RetransmitFitsIff(v, snd, f.sid, ack, f.rto, f.now);
    if Oversized(s, MaxData(f.t, ack, Snd.OldestOffset(s), f.mtu)) { OversizedGoesOut(snd, ack, f); }
    var snd1 := Snd.ReadyToRetransmit(snd, f.sid, ack, f.mtu, f.rto, f.t, f.now).0;
    Cn.HoldsFits(f.t, f.mtu, ack, Snd.StreamOf(snd1, f.sid).sentOffset);
    SendFits(v, snd1, f.sid, ack, f.now);
  }

  // ---------- Arrival ----------

  /** What one end builds the other reads: header, acknowledgement and data arrive as the wire format says,
      filling removed, when the receiver is at most one epoch away. */
  lemma {:induction false} BuiltArrives<K>(v: Envelope<K>, p: PayloadHeader, data: UserData, epoch: nat, noise: nat)
    requires Proper(v) && HeaderFits(p) && Build(v, p, data).Some?
    requires v.c.epoch < U48 && v.c.sn < U48 && epoch + 1 < U48 && -1 <= v.c.epoch - epoch <= 1
    ensures Receive(v.t, v.key, !v.isSender, epoch, Build(v, p, data).value, noise) == Received(Arrives(p, data))
  {
    hide Encode, Decode, Seal, Pad, Unpad, Decrypt, Arrives, HeaderFits;
    var plain := Plain(v.t, p, data, v.mtu).value;
    OpensExactly(v.key, !v.isSender, v.c, v.header, plain, epoch, noise);
    RoundTrip(p, data);
    if v.t.InitCryptoSnd? { UnpadPad(Encode(p, data), v.mtu); }
  }

  /** Whatever is sealed for an end at most one epoch away, reading it slices out of range exactly when it is an
      initial packet with data that is shorter than the filling it announces. */
  lemma {:induction false} OverrunIff<K>(t: MsgType, key: K, isSender: bool, c: Counter, header: Bytes, plain: Bytes,
                                         epoch: nat, noise: nat)
    requires c.epoch < U48 && c.sn < U48 && epoch + 1 < U48 && -1 <= c.epoch - epoch <= 1
    ensures Receive(t, key, isSender, epoch, Seal(key, !isSender, c, header, plain), noise).Panics?
            <==> t.InitCryptoSnd? && (|plain| < FILL_LEN_SIZE || |plain| < FILL_LEN_SIZE + UnLE(plain[..FILL_LEN_SIZE]))
  {
    hide Decode, Seal, Decrypt, UnLE;
    OpensExactly(key, isSender, c, header, plain, epoch, noise);
  }
}
