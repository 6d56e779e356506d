/** What the transport promises, for every capacity and every run: any interleaving of writes,
    pings, closes, sends, retransmissions, arrivals in any order and number, acknowledgements
    and reads. */
module Guarantees {
  import opened Common
  import opened EndToEnd
  import opened Flight
  import opened Messages
  import opened Partition
  import opened Ranges
  import opened Reassembly
  import opened Transport
  import Rcv = RcvState
  import SS = SendStream
  import Snd = SendState

  ghost function Reached(sndCapacity: nat, rcvCapacity: nat, run: seq<Step>): System {
    Exec(Init(sndCapacity, rcvCapacity), run)
  }

  lemma {:induction false} ReachedSound(sndCapacity: nat, rcvCapacity: nat, run: seq<Step>, sid: nat)
    ensures ChannelInv(ChannelOf(Reached(sndCapacity, rcvCapacity, run), sid))
  {
    ReachableInv(sndCapacity, rcvCapacity, run);
    assert ChannelOf(Reached(sndCapacity, rcvCapacity, run), sid) in Sound();
  }

  /** What the application has read of a stream is the start of what was written to it. */
  lemma {:induction false} PrefixSafety(sndCapacity: nat, rcvCapacity: nat, run: seq<Step>, sid: nat)
    ensures var z := Reached(sndCapacity, rcvCapacity, run);
            var next, all := Rcv.StreamOf(z.rcv, sid).next, HistOf(z, sid).all;
            next <= |all| && DeliveredOf(z, sid) == all[..next]
  {
    ReachedSound(sndCapacity, rcvCapacity, run, sid);
  }

  /** No frame that arrives trips a data-integrity panic. */
  lemma {:induction false} NoPanic(sndCapacity: nat, rcvCapacity: nat, run: seq<Step>, f: Frame, now: nat)
    requires f in Reached(sndCapacity, rcvCapacity, run).net && f.DataFrame? && f.data != []
    ensures var z := Reached(sndCapacity, rcvCapacity, run);
            !Rcv.InsertData(z.rcv, f.sid, f.offset, f.data, now).1.Panic?
  {
    var z := Reached(sndCapacity, rcvCapacity, run);
    ReachableInv(sndCapacity, rcvCapacity, run);
    ReachedSound(sndCapacity, rcvCapacity, run, f.sid);
    assert FrameOk(z, f);
    ArrivalKeeps(ChannelOf(z, f.sid), f.offset, f.data, now);
  }

  ghost predicate InFlightAt(s: SS.Stream, p: int) {
    exists k: Range :: k in s.inFlight.vals && k.Holds(p)
  }

  /** Every byte written is still queued, in flight, stored at the receiver, or read. */
  lemma {:induction false} NoLoss(sndCapacity: nat, rcvCapacity: nat, run: seq<Step>, sid: nat, p: nat)
    requires p < |HistOf(Reached(sndCapacity, rcvCapacity, run), sid).all|
    ensures var z := Reached(sndCapacity, rcvCapacity, run); var s := Snd.StreamOf(z.snd, sid);
            s.sentOffset <= p || InFlightAt(s, p) || Has(Rcv.StreamOf(z.rcv, sid), p)
  {
    var c := ChannelOf(Reached(sndCapacity, rcvCapacity, run), sid);
    ReachedSound(sndCapacity, rcvCapacity, run, sid);
    if p < c.s.sentOffset {
      assert Tiled(Parts(c.s.inFlight.vals, c.h), p);
      var r :| r in Parts(c.s.inFlight.vals, c.h) && r.Holds(p);
      if r in c.h.acked { assert HasRange(c.r, r); }
    }
  }

  /** An acknowledgement never releases a byte that the receiver lacks. */
  lemma {:induction false} AckReleasesOnlyHeld(sndCapacity: nat, rcvCapacity: nat, run: seq<Step>, ack: Ack, p: nat)
    requires AckFrame(ack) in Reached(sndCapacity, rcvCapacity, run).net
    requires InFlightAt(Snd.StreamOf(Reached(sndCapacity, rcvCapacity, run).snd, ack.streamId), p)
    requires var z' := Next(Reached(sndCapacity, rcvCapacity, run), AckArrives(ack));
             !InFlightAt(Snd.StreamOf(z'.snd, ack.streamId), p)
    ensures Has(Rcv.StreamOf(Reached(sndCapacity, rcvCapacity, run).rcv, ack.streamId), p)
  {
    var z := Reached(sndCapacity, rcvCapacity, run);
    ReachableInv(sndCapacity, rcvCapacity, run);
    assert FrameOk(z, AckFrame(ack));
    var s := Snd.StreamOf(z.snd, ack.streamId);
    var k :| k in s.inFlight.vals && k.Holds(p);
    assert k == KeyRange(ack.offset, ack.len);
  }

  lemma {:induction false} FramesStay(z: System, run: seq<Step>)
    ensures z.net <= Exec(z, run).net
  {
    if run == [] {
    } else {
      FramesStay(z, run[..|run| - 1]);
      StepKeepsFrames(Exec(z, run[..|run| - 1]), run[|run| - 1]);
    }
  }

  lemma {:induction false} StepKeepsFrames(z: System, step: Step)
    ensures z.net <= Next(z, step).net
  {
  }

  lemma {:induction false} ExecAppend(z: System, run: seq<Step>, more: seq<Step>)
    ensures Exec(z, run + more) == Exec(Exec(z, run), more)
  {
    if more == [] {
      assert run + more == run;
    } else {
      var all := run + more;
      assert all[..|all| - 1] == run + more[..|more| - 1];
      ExecAppend(z, run, more[..|more| - 1]);
    }
  }

  /** A byte once acknowledged stays stored or read at the receiver, whatever happens later. */
  lemma {:induction false} AckedNeverDropped(sndCapacity: nat, rcvCapacity: nat, run: seq<Step>, more: seq<Step>,
                                             ack: Ack, p: nat)
    requires AckFrame(ack) in Reached(sndCapacity, rcvCapacity, run).net && ack.offset <= p < ack.offset + ack.len
    ensures Has(Rcv.StreamOf(Reached(sndCapacity, rcvCapacity, run + more).rcv, ack.streamId), p)
  {
    var z, z' := Reached(sndCapacity, rcvCapacity, run), Reached(sndCapacity, rcvCapacity, run + more);
    ExecAppend(Init(sndCapacity, rcvCapacity), run, more);
    FramesStay(z, more);
    ReachableInv(sndCapacity, rcvCapacity, run + more);
    assert FrameOk(z', AckFrame(ack));
    assert Range(ack.offset, ack.len).Holds(p);
  }

  /** Two ranges ever handed out for a stream are nested or apart; the packets in flight and the
      acknowledged ranges tile what was sent; and a frame carries the stream's bytes. */
  lemma {:induction false} RangeDiscipline(sndCapacity: nat, rcvCapacity: nat, run: seq<Step>, sid: nat)
    ensures var z := Reached(sndCapacity, rcvCapacity, run); var s, h := Snd.StreamOf(z.snd, sid), HistOf(z, sid);
            && (forall i, j :: 0 <= i < j < |h.log| ==> NestedOrApart(h.log[i], h.log[j]))
            && Tiles(Live(s.inFlight.vals) + h.acked, s.sentOffset) && Live(s.inFlight.vals) !! h.acked
            && (forall f :: f in z.net && f.DataFrame? && f.sid == sid && f.data != [] ==>
                  Range(f.offset, |f.data|) in h.log && Truthful(Range(f.offset, |f.data|), f.data, h.all))
  {
    var z := Reached(sndCapacity, rcvCapacity, run);
    ReachableInv(sndCapacity, rcvCapacity, run);
    ReachedSound(sndCapacity, rcvCapacity, run, sid);
    forall f | f in z.net ensures FrameOk(z, f) {}
  }

  /** A frame marked as the last of a stream ends exactly where the closed stream ends. */
  lemma {:induction false} CloseMarksEnd(sndCapacity: nat, rcvCapacity: nat, run: seq<Step>, f: Frame)
    requires f in Reached(sndCapacity, rcvCapacity, run).net && f.DataFrame? && f.isClose
    ensures var z := Reached(sndCapacity, rcvCapacity, run);
            Snd.StreamOf(z.snd, f.sid).closeAt == Some(f.offset + |f.data|)
            && f.offset + |f.data| == |HistOf(z, f.sid).all|
  {
    var z := Reached(sndCapacity, rcvCapacity, run);
    ReachableInv(sndCapacity, rcvCapacity, run);
    ReachedSound(sndCapacity, rcvCapacity, run, f.sid);
    assert FrameOk(z, f);
  }

  /** Each byte of a packet in flight was handed out exactly `sentNr` times, no byte more than six
      times, and the handouts of a stream, repeats included, are at most six per byte sent. */
  lemma {:induction false} HandoutBound(sndCapacity: nat, rcvCapacity: nat, run: seq<Step>, sid: nat)
    ensures var z := Reached(sndCapacity, rcvCapacity, run); var s, h := Snd.StreamOf(z.snd, sid), HistOf(z, sid);
            && (forall k: Range, p :: k in s.inFlight.vals && k.Holds(p) ==>
                  Count(h.log, p) == s.inFlight.vals[k].sentNr)
            && (forall p :: Count(h.log, p) <= 6)
            && LogBytes(h.log) <= 6 * s.sentOffset && |h.log| <= LogBytes(h.log)
  {
    ReachedSound(sndCapacity, rcvCapacity, run, sid);
    LogIsShort(HistOf(Reached(sndCapacity, rcvCapacity, run), sid).log);
  }

  lemma {:induction false} LogIsShort(log: seq<Range>)
    requires forall i :: 0 <= i < |log| ==> 0 < log[i].len
    ensures |log| <= LogBytes(log)
  {
    if log == [] {
    } else {
      LogIsShort(log[..|log| - 1]);
    }
  }

  /** Both buffers count exactly the bytes they hold, over all streams, within capacity. */
  lemma {:induction false} BuffersConserved(sndCapacity: nat, rcvCapacity: nat, run: seq<Step>)
    ensures var z := Reached(sndCapacity, rcvCapacity, run);
            && z.snd.size == Snd.HeldBytes(z.snd) <= z.snd.capacity == sndCapacity
            && z.rcv.size == Rcv.AllStored(z.rcv) <= z.rcv.capacity == rcvCapacity
  {
    ReachableInv(sndCapacity, rcvCapacity, run);
    CapacitiesStay(Init(sndCapacity, rcvCapacity), run);
  }

  lemma {:induction false} CapacitiesStay(z: System, run: seq<Step>)
    ensures Exec(z, run).snd.capacity == z.snd.capacity && Exec(z, run).rcv.capacity == z.rcv.capacity
  {
    if run == [] {
    } else {
      CapacitiesStay(z, run[..|run| - 1]);
      StepKeepsCapacities(Exec(z, run[..|run| - 1]), run[|run| - 1]);
    }
  }

  lemma {:induction false} StepKeepsCapacities(z: System, step: Step)
    ensures Next(z, step).snd.capacity == z.snd.capacity && Next(z, step).rcv.capacity == z.rcv.capacity
  {
  }
}
