/** What arrives is acknowledged, new or not, in the order of arrival; and the acknowledgement, once it is back,
    takes the packet out of flight. */
module Acknowledging {
  import opened Common
  import opened EndToEnd
  import opened Flight
  import opened Guarantees
  import opened Messages
  import opened Progress
  import opened Ranges
  import opened Reassembly
  import opened SendDiscipline
  import opened Timing
  import opened Transport
  import RS = RcvStream
  import Rcv = RcvState
  import SS = SendStream
  import Snd = SendState

  /** The acknowledgement of a range, before a window is put on it. */
  function AckOf(sid: nat, offset: nat, len: nat): Ack { Ack(sid, offset, len, 0) }

  /** What a step owes the sender: one acknowledgement for every frame that arrives and is not refused for want of
      room, whether its bytes are new or not. */
  ghost function Owes(z: System, step: Step): seq<Ack> {
    if !Enabled(z, step) then []
    else
      match step
      case DataArrives(f, _) =>
        if f.data == [] || z.rcv.size + |f.data| <= z.rcv.capacity then [AckOf(f.sid, f.offset, |f.data|)] else []
      case EmptyArrives(sid, offset) => [AckOf(sid, offset, 0)]
      case _ => []
  }

  ghost function Takes(z: System, step: Step): seq<Ack> {
    var ack := Rcv.GetSndAck(z.rcv).1;
    if step.TakeAck? && ack.Some? then [ack.value] else []
  }

  ghost function Owed(sndCapacity: nat, rcvCapacity: nat, run: seq<Step>): seq<Ack> {
    if run == [] then []
    else
      var before := run[..|run| - 1];
      Owed(sndCapacity, rcvCapacity, before) + Owes(Reached(sndCapacity, rcvCapacity, before), run[|run| - 1])
  }

  ghost function Taken(sndCapacity: nat, rcvCapacity: nat, run: seq<Step>): seq<Ack> {
    if run == [] then []
    else
      var before := run[..|run| - 1];
      Taken(sndCapacity, rcvCapacity, before) + Takes(Reached(sndCapacity, rcvCapacity, before), run[|run| - 1])
  }

  /** Each step appends what it owes and takes from the front. */
  lemma {:induction false} StepAcknowledges(z: System, step: Step)
    requires Inv(z)
    ensures Takes(z, step) + Next(z, step).rcv.ackList == z.rcv.ackList + Owes(z, step)
  {
    hide Inv, RS.Insert, RS.Read, SS.Send, SS.Retransmit;
    if Enabled(z, step) && step.DataArrives? {
      ArrivalAcknowledges(z, step.frame, step.now);
      assert [] + Next(z, step).rcv.ackList == Next(z, step).rcv.ackList;
    } else if step.TakeAck? && z.rcv.ackList != [] {
      assert [z.rcv.ackList[0]] + z.rcv.ackList[1..] == z.rcv.ackList;
      assert z.rcv.ackList + [] == z.rcv.ackList;
    } else {
      assert Takes(z, step) == [];
      assert [] + Next(z, step).rcv.ackList == Next(z, step).rcv.ackList;
      assert z.rcv.ackList + [] == z.rcv.ackList;
    }
  }

  lemma {:induction false} ArrivalAcknowledges(z: System, f: Frame, now: nat)
    requires Inv(z) && f in z.net && f.DataFrame?
    ensures Next(z, DataArrives(f, now)).rcv.ackList == z.rcv.ackList + Owes(z, DataArrives(f, now))
  {
    hide RS.Insert, Truthful;
    assert FrameOk(z, f);
    assert z.rcv.ackList + [] == z.rcv.ackList;
  }

  /** In every run the acknowledgements sent, followed by those waiting, are those owed, in the order in which the
      frames arrived. */
  lemma {:induction false} FirstInFirstOut(sndCapacity: nat, rcvCapacity: nat, run: seq<Step>)
    ensures Taken(sndCapacity, rcvCapacity, run) + Reached(sndCapacity, rcvCapacity, run).rcv.ackList
            == Owed(sndCapacity, rcvCapacity, run)
  {
    hide Next, Inv, Owes, Takes;
    if run == [] {
    } else {
      var before, step := run[..|run| - 1], run[|run| - 1];
      var z := Reached(sndCapacity, rcvCapacity, before);
      FirstInFirstOut(sndCapacity, rcvCapacity, before);
      ReachableInv(sndCapacity, rcvCapacity, before);
      StepAcknowledges(z, step);
      var taken, waiting := Taken(sndCapacity, rcvCapacity, before), Next(z, step).rcv.ackList;
      assert (taken + Takes(z, step)) + waiting == taken + (Takes(z, step) + waiting);
      assert taken + (z.rcv.ackList + Owes(z, step)) == (taken + z.rcv.ackList) + Owes(z, step);
    }
  }

  /** In every run a frame that arrives is acknowledged exactly when it is not refused: the acknowledgement that
      then waits last names its stream, its offset and its length. */
  lemma {:induction false} ArrivalAcknowledgedIff(sndCapacity: nat, rcvCapacity: nat, run: seq<Step>, f: Frame,
                                                  now: nat)
    requires f in Reached(sndCapacity, rcvCapacity, run).net && f.DataFrame?
    ensures var z := Reached(sndCapacity, rcvCapacity, run); var acks := Next(z, DataArrives(f, now)).rcv.ackList;
            acks == if f.data == [] || z.rcv.size + |f.data| <= z.rcv.capacity
                    then z.rcv.ackList + [Ack(f.sid, f.offset, |f.data|, 0)] else z.rcv.ackList
  {
    hide Next, Inv;
    ReachableInv(sndCapacity, rcvCapacity, run);
    ArrivalAcknowledges(Reached(sndCapacity, rcvCapacity, run), f, now);
  }

  lemma {:induction false} ArrivalHas(z: System, f: Frame, now: nat)
    requires Inv(z) && f in z.net && f.DataFrame?
    ensures var r, r' := Rcv.StreamOf(z.rcv, f.sid), Rcv.StreamOf(Next(z, DataArrives(f, now)).rcv, f.sid);
            && r'.next == r.next
            && forall p :: Has(r', p) <==>
                 Has(r, p) || (z.rcv.size + |f.data| <= z.rcv.capacity && Range(f.offset, |f.data|).Holds(p))
  {
    hide Inv, RS.Insert, Truthful, Next, StreamInv;
    var c := ChannelOf(z, f.sid);
    FrameSound(z, f, f.sid);
    StreamAfter(z, f, now, f.sid);
    if f.data != [] {
      NothingCrosses(c, Range(f.offset, |f.data|));
      InsertNeverPanics(c.r, f.offset, f.data, now, c.h.all);
      InsertAddsExactly(c.r, f.offset, f.data, now);
    }
  }

  /** In every run, after a frame has arrived, the receiver has exactly the bytes it had and, unless the frame was
      refused, those of the frame; and nothing more was read. */
  lemma {:induction false} ArrivalAddsExactly(sndCapacity: nat, rcvCapacity: nat, run: seq<Step>, f: Frame, now: nat)
    requires f in Reached(sndCapacity, rcvCapacity, run).net && f.DataFrame?
    ensures var z := Reached(sndCapacity, rcvCapacity, run);
            var r, r' := Rcv.StreamOf(z.rcv, f.sid), Rcv.StreamOf(Next(z, DataArrives(f, now)).rcv, f.sid);
            && r'.next == r.next
            && forall p :: Has(r', p) <==>
                 Has(r, p) || (z.rcv.size + |f.data| <= z.rcv.capacity && Range(f.offset, |f.data|).Holds(p))
  {
    hide Next, Inv;
    ReachableInv(sndCapacity, rcvCapacity, run);
    ArrivalHas(Reached(sndCapacity, rcvCapacity, run), f, now);
  }

  // ---------- Back at the sender ----------

  ghost function TakeAll(n: nat): seq<Step> {
    if n == 0 then [] else TakeAll(n - 1) + [TakeAck]
  }

  /** Taking the waiting acknowledgements puts all of them on the network and changes nothing at the sender. */
  lemma {:induction false} AllTaken(z: System, n: nat)
    requires n <= |z.rcv.ackList|
    ensures var z' := Exec(z, TakeAll(n));
            && z'.snd == z.snd && z'.hist == z.hist && z'.rcv.ackList == z.rcv.ackList[n..]
            && forall i :: 0 <= i < n ==> AckFrame(z.rcv.ackList[i]) in z'.net
  {
    if n == 0 {
    } else {
      AllTaken(z, n - 1);
      var steps := TakeAll(n);
      assert steps[..|steps| - 1] == TakeAll(n - 1);
    }
  }

  lemma {:induction false} ArrivalLeavesSender(z: System, f: Frame, now: nat)
    requires f in z.net && f.DataFrame?
    ensures var z' := Next(z, DataArrives(f, now)); z'.snd == z.snd && z'.hist == z.hist
  {
    hide RS.Insert;
  }

  lemma {:induction false} AckReleases(z: System, ack: Ack)
    requires AckFrame(ack) in z.net && ack.offset < U48 && ack.len < U16
    requires Range(ack.offset, ack.len) in Snd.StreamOf(z.snd, ack.streamId).inFlight.vals
    ensures var z', k := Next(z, AckArrives(ack)), Range(ack.offset, ack.len);
            && k !in Snd.StreamOf(z'.snd, ack.streamId).inFlight.vals
            && (0 < k.len ==> k in HistOf(z', ack.streamId).acked)
  {
  }

  /** In every run, when a frame of a packet still in flight arrives and is not refused, new or duplicate, data or
      closing mark, and the acknowledgements waiting then go back, that packet leaves flight. */
  lemma {:induction false} RoundTripReleases(sndCapacity: nat, rcvCapacity: nat, run: seq<Step>, f: Frame, now: nat)
    requires var z := Reached(sndCapacity, rcvCapacity, run);
             && f in z.net && f.DataFrame? && (f.data == [] || z.rcv.size + |f.data| <= z.rcv.capacity)
             && Range(f.offset, |f.data|) in Snd.StreamOf(z.snd, f.sid).inFlight.vals
    ensures var z := Reached(sndCapacity, rcvCapacity, run);
            var back := TakeAll(|z.rcv.ackList| + 1) + [AckArrives(Ack(f.sid, f.offset, |f.data|, 0))];
            var z' := Reached(sndCapacity, rcvCapacity, run + ([DataArrives(f, now)] + back));
            && Range(f.offset, |f.data|) !in Snd.StreamOf(z'.snd, f.sid).inFlight.vals
            && (f.data != [] ==> Range(f.offset, |f.data|) in HistOf(z', f.sid).acked)
  {
    hide Next, Inv, Truthful;
    var z, n := Reached(sndCapacity, rcvCapacity, run), |Reached(sndCapacity, rcvCapacity, run).rcv.ackList| + 1;
    var arrive, ack := DataArrives(f, now), Ack(f.sid, f.offset, |f.data|, 0);
    var z1 := Next(z, arrive);
    ReachableInv(sndCapacity, rcvCapacity, run);
    FlightFits(z, f.sid, Range(f.offset, |f.data|));
    ArrivalAcknowledgedIff(sndCapacity, rcvCapacity, run, f, now);
    ArrivalLeavesSender(z, f, now);
    AllTaken(z1, n);
    var z2 := Exec(z1, TakeAll(n));
    assert z1.rcv.ackList[n - 1] == ack;
    AckReleases(z2, ack);
    ExecAppend(Init(sndCapacity, rcvCapacity), run, [arrive] + (TakeAll(n) + [AckArrives(ack)]));
    ExecAppend(z, [arrive], TakeAll(n) + [AckArrives(ack)]);
    ExecAppend(z1, TakeAll(n), [AckArrives(ack)]);
    ExecOnce(z, arrive);
    ExecOnce(z2, AckArrives(ack));
  }

  lemma {:induction false} ExecOnce(z: System, s: Step)
    ensures Exec(z, [s]) == Next(z, s)
  {
    hide Next;
    assert [s][..0] == [];
  }

  lemma {:induction false} FlightFits(z: System, sid: nat, k: Range)
    requires Inv(z) && k in Snd.StreamOf(z.snd, sid).inFlight.vals
    ensures k.End() < U48 && k.len < U16
  {
    var s := Snd.StreamOf(z.snd, sid);
    ChannelIsSound(z, sid);
    assert PacketOk(k, s.inFlight.vals[k], s.sentOffset, HistOf(z, sid).all);
  }
}
