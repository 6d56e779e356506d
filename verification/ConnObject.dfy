/** A connection as the program keeps it: its two buffers and its controller as objects. */
module ConnObject {
  import opened Common
  import opened Messages
  import opened Wire
  import C = Controller
  import RB = ReceiveBuffer
  import Rcv = RcvState
  import SB = SendBuffer
  import Snd = SendState
  import V = Connection

  class Conn {
    const snd: SB.SendBuffer
    const rcv: RB.ReceiveBuffer
    const measure: C.Measurements
    var rcvWnd: nat

    ghost predicate Valid()
      reads this, snd, snd.view.repr, rcv, rcv.view.repr, measure
    {
      && snd.Valid() && rcv.Valid() && 0 < measure.rttMin
      && snd.view.repr !! rcv.view.repr && measure !in snd.view.repr && measure !in rcv.view.repr
      && snd !in rcv.view.repr && rcv !in snd.view.repr && this !in snd.view.repr && this !in rcv.view.repr
    }

    ghost function Value(): V.Conn
      reads snd, rcv
    {
      V.Conn(snd.State(), rcv.State())
    }

    constructor (sndCapacity: nat, rcvCapacity: nat)
      ensures Valid() && Value() == V.Init(sndCapacity, rcvCapacity) && measure.Value() == C.FRESH
              && rcvWnd == rcvCapacity
    {
      snd := new SB.SendBuffer(sndCapacity);
      rcv := new RB.ReceiveBuffer(rcvCapacity);
      measure := new C.Measurements();
      rcvWnd := rcvCapacity;
    }

    /** Hands the acknowledgement to the send buffer and what it tells to the controller. */
    method DecodeAck(ack: Ack, now: nat)
      requires Valid()
      modifies this, snd, snd.view.repr, measure
      ensures Valid() && fresh(snd.view.repr - old(snd.view.repr)) && rcvWnd == ack.rcvWnd
      ensures snd.State() == Snd.AcknowledgeRange(old(snd.State()), ack).0 && rcv.State() == old(rcv.State())
      ensures forall p: PayloadHeader :: p.ack == Some(ack) ==>
                Some(measure.Value()) == V.MeasureAfter(old(measure.Value()), old(snd.State()), p, now)
    {
      hide SB.AllStand, RB.AllStand, Snd.AcknowledgeRange, C.Update;
      var status, sentTime := snd.AcknowledgeRange(ack);
      if status.AckDup? {
        measure.OnDuplicateAck();
      }
      rcvWnd := ack.rcvWnd;
      if now > sentTime && status.AckOk? {
        V.StaysPositive(measure.Value(), now - sentTime, ack.len, now);
        measure.UpdateMeasurements(now - sentTime, ack.len, now);
      }
    }

    /** Hands data to the receive buffer; a ping or a close without data is acknowledged only. */
    method DecodeData(p: PayloadHeader, data: UserData, now: nat)
      requires Valid()
      modifies rcv, rcv.view.repr
      ensures Valid() && fresh(rcv.view.repr - old(rcv.view.repr))
      ensures rcv.State() == V.Store(old(rcv.State()), p, data, now) && snd.State() == old(snd.State())
    {
      hide SB.AllStand, RB.AllStand, Rcv.InsertData;
      if |BytesOf(data)| > 0 {
        var _ := rcv.Insert(p.streamId, p.streamOffset, now, data.value);
      } else if p.isClose || data.Some? {
        rcv.EmptyInsert(p.streamId, p.streamOffset);
      }
    }

    method Decode(p: PayloadHeader, data: UserData, now: nat)
      requires Valid()
      modifies this, snd, snd.view.repr, rcv, rcv.view.repr, measure
      ensures Valid() && fresh(snd.view.repr - old(snd.view.repr)) && fresh(rcv.view.repr - old(rcv.view.repr))
      ensures Value() == V.Receive(old(Value()), p, data, now)
      ensures Some(measure.Value()) == V.MeasureAfter(old(measure.Value()), old(snd.State()), p, now)
      ensures rcvWnd == if p.ack.Some? then p.ack.value.rcvWnd else old(rcvWnd)
    {
      hide SB.AllStand, RB.AllStand, Rcv.InsertData, Snd.AcknowledgeRange, V.Store, V.MeasureAfter;
      if p.ack.Some? {
        DecodeAck(p.ack.value, now);
      } else {
        V.NothingMeasured(measure.Value(), snd.State(), p, now);
      }
      DecodeData(p, data, now);
      if p.isClose {
        rcv.Close(p.streamId, p.streamOffset);
        snd.Close(p.streamId);
      }
    }

    /** A close once the closed stream is fully acknowledged. */
    method FullyAcked(sid: nat) returns (r: bool)
      requires Valid()
      ensures r == V.FullyAcked(snd.State(), sid)
    {
      hide SB.AllStand, RB.AllStand, Snd.OffsetAcked;
      var closeAt := snd.GetOffsetClosedAt(sid);
      if closeAt.None? {
        return false;
      }
      var acked := snd.GetOffsetAcked(sid);
      r := acked >= closeAt.value;
    }

    method WriteAck(sid: nat, ack: Option<Ack>) returns (frame: Frame)
      requires Valid()
      ensures frame == V.AckOut(snd.State(), sid, ack)
    {
      hide SB.AllStand, RB.AllStand;
      var isClose := FullyAcked(sid);
      frame := Frame(PayloadHeader(isClose, ack, sid, 0), None);
    }

    /** Retransmission first, then new data, then the acknowledgement alone. */
    method FlushOut(ack: Option<Ack>, f: V.Flushing) returns (frame: Option<Frame>)
      requires Valid()
      modifies snd, snd.view.repr, measure
      ensures Valid() && fresh(snd.view.repr - old(snd.view.repr)) && rcv.State() == old(rcv.State())
      ensures (snd.State(), frame) == V.FlushOut(old(snd.State()), ack, f)
      ensures measure.Value() ==
              if V.Resends(old(snd.State()), ack, f) then C.PacketLoss(old(measure.Value())) else old(measure.Value())
    {
      hide SB.AllStand, RB.AllStand, Snd.ReadyToSend, Snd.ReadyToRetransmit, V.FullyAcked;
      frame := None;
      if f.paced {
        return;
      }
      if f.windowFull {
        if ack.Some? {
          var alone := WriteAck(f.sid, ack);
          frame := Some(V.SentAs(f.t, alone));
        }
        return;
      }
      var again := snd.ReadyToRetransmit(f.sid, ack, f.mtu, f.rto, f.t, f.now);
      if again.RetriesExhausted? || again.Panics? {
        return;
      }
      if again.Packet? {
        measure.OnPacketLoss();
        return Some(V.SentAs(f.t, V.PacketOut(f.sid, ack, again)));
      }
      if f.maySend {
        var out := snd.ReadyToSend(f.sid, f.t, ack, f.mtu, f.now);
        if out.Packet? {
          return Some(V.SentAs(f.t, V.PacketOut(f.sid, ack, out)));
        }
        if ack.Some? || f.initPending {
          var alone := WriteAck(f.sid, ack);
          return Some(V.SentAs(f.t, alone));
        }
      }
      if ack.Some? {
        var alone := WriteAck(f.sid, ack);
        frame := Some(V.SentAs(f.t, alone));
      }
    }

    method Flush(f: V.Flushing) returns (frame: Option<Frame>)
      requires Valid()
      modifies snd, snd.view.repr, rcv, measure
      ensures Valid() && fresh(snd.view.repr - old(snd.view.repr))
      ensures (Value(), frame) == V.Flush(old(Value()), f)
      ensures measure.Value() ==
              if V.Resends(old(snd.State()), V.Popped(old(rcv.State())), f) then C.PacketLoss(old(measure.Value()))
              else old(measure.Value())
    {
      hide SB.AllStand, RB.AllStand, V.FlushOut, V.Resends, C.PacketLoss;
      var ack := rcv.GetSndAck();
      if ack.Some? {
        ack := Some(ack.value.(rcvWnd := (rcv.capacity - rcv.size) % U64));
      }
      frame := FlushOut(ack, f);
    }
  }
}
