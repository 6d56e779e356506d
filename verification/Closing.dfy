/** Closes and pings: that they get to the peer, that the first close counts, and what the source's test for a
    fully acknowledged stream tells. */
module Closing {
  import opened Common
  import opened EndToEnd
  import opened Guarantees
  import opened Handouts
  import opened Messages
  import opened Ranges
  import opened SendDiscipline
  import opened Transport
  import RS = RcvStream
  import Rcv = RcvState
  import SS = SendStream
  import Snd = SendState

  // ---------- A close gets through ----------

  const LARGE_MTU := 65535

  lemma LargeFits(offset: nat)
    ensures MtuFits(Data, None, offset, LARGE_MTU) && 0 < MaxData(Data, None, offset, LARGE_MTU)
  {
  }

  lemma {:induction false} OneMore(z: System, run: seq<Step>, step: Step)
    ensures Exec(z, run + [step]) == Next(Exec(z, run), step)
  {
    hide Next;
    assert (run + [step])[..|run|] == run;
  }

  /** After every run in which a stream was closed, going on sending puts a frame on the network that is marked as
      the last of the stream. */
  lemma {:induction false} CloseIsSent(sndCapacity: nat, rcvCapacity: nat, run: seq<Step>, sid: nat)
    returns (more: seq<Step>, f: Frame)
    requires Snd.StreamOf(Reached(sndCapacity, rcvCapacity, run).snd, sid).closeAt.Some?
    ensures f in Reached(sndCapacity, rcvCapacity, run + more).net && f.DataFrame? && f.sid == sid && f.isClose
    decreases var s := Snd.StreamOf(Reached(sndCapacity, rcvCapacity, run).snd, sid);
              |s.queued| + if s.pingRequest then 1 else 0
  {
    hide Next, StreamInv, Snd.ReadyToSend, MtuFits, MaxData;
    var z := Reached(sndCapacity, rcvCapacity, run);
    var s := Snd.StreamOf(z.snd, sid);
    var step := Send(sid, Data, None, LARGE_MTU, 0);
    var z', out := Next(z, step), Snd.ReadyToSend(z.snd, sid, Data, None, LARGE_MTU, 0).1;
    LargeFits(s.sentOffset);
    SendsExactly(sndCapacity, rcvCapacity, run, sid, Data, None, LARGE_MTU, 0);
    OneMore(Init(sndCapacity, rcvCapacity), run, step);
    if out.isClose {
      more, f := [step], DataFrame(sid, out.offset, out.data, true);
    } else {
      QueueIsRest(sndCapacity, rcvCapacity, run, sid);
      var rest;
      rest, f := CloseIsSent(sndCapacity, rcvCapacity, run + [step], sid);
      more := [step] + rest;
      assert run + more == run + [step] + rest;
    }
  }

  lemma {:induction false} QueueIsRest(sndCapacity: nat, rcvCapacity: nat, run: seq<Step>, sid: nat)
    ensures var z := Reached(sndCapacity, rcvCapacity, run); var s, all := Snd.StreamOf(z.snd, sid), HistOf(z, sid).all;
            s.sentOffset <= |all| && s.queued == all[s.sentOffset..]
  {
    ReachedSound(sndCapacity, rcvCapacity, run, sid);
  }

  /** And when it arrives, the receiver knows. */
  lemma {:induction false} CloseArrives(sndCapacity: nat, rcvCapacity: nat, run: seq<Step>, f: Frame, now: nat)
    requires f in Reached(sndCapacity, rcvCapacity, run).net && f.DataFrame? && f.isClose
    ensures Rcv.StreamOf(Reached(sndCapacity, rcvCapacity, run + [DataArrives(f, now)]).rcv, f.sid).closeAt.Some?
  {
    hide RS.Insert;
    OneMore(Init(sndCapacity, rcvCapacity), run, DataArrives(f, now));
  }

  // ---------- The first close counts ----------

  /** In every run a close ends an open stream at what was written to it, and leaves a closed one as it is. */
  lemma {:induction false} ClosesAtEnd(sndCapacity: nat, rcvCapacity: nat, run: seq<Step>, sid: nat)
    ensures var z := Reached(sndCapacity, rcvCapacity, run); var z' := Next(z, CloseStream(sid));
            var closeAt, closeAt' := Snd.StreamOf(z.snd, sid).closeAt, Snd.StreamOf(z'.snd, sid).closeAt;
            closeAt' == if closeAt.Some? then closeAt else Some(|HistOf(z, sid).all|)
  {
    ReachedSound(sndCapacity, rcvCapacity, run, sid);
  }

  lemma {:induction false} StepStaysClosed(z: System, step: Step, sid: nat)
    requires Inv(z) && Snd.StreamOf(z.snd, sid).closeAt.Some?
    ensures Snd.StreamOf(Next(z, step).snd, sid).closeAt == Snd.StreamOf(z.snd, sid).closeAt
    ensures HistOf(Next(z, step), sid).all == HistOf(z, sid).all
  {
    hide Inv, RS.Insert, RS.Read, MtuFits, MaxData;
  }

  /** A closed stream stays closed there, and nothing more is written to it. */
  lemma {:induction false} StaysClosed(sndCapacity: nat, rcvCapacity: nat, run: seq<Step>, more: seq<Step>, sid: nat)
    requires Snd.StreamOf(Reached(sndCapacity, rcvCapacity, run).snd, sid).closeAt.Some?
    ensures var z, z' := Reached(sndCapacity, rcvCapacity, run), Reached(sndCapacity, rcvCapacity, run + more);
            && Snd.StreamOf(z'.snd, sid).closeAt == Snd.StreamOf(z.snd, sid).closeAt == Some(|HistOf(z, sid).all|)
            && HistOf(z', sid).all == HistOf(z, sid).all
  {
    hide Next, Inv, StreamInv;
    if more == [] {
      assert run + more == run;
      EndsAtAll(sndCapacity, rcvCapacity, run, sid);
    } else {
      var all, before := run + more, more[..|more| - 1];
      assert all[..|all| - 1] == run + before;
      StaysClosed(sndCapacity, rcvCapacity, run, before, sid);
      ReachableInv(sndCapacity, rcvCapacity, run + before);
      StepStaysClosed(Reached(sndCapacity, rcvCapacity, run + before), all[|all| - 1], sid);
    }
  }

  lemma {:induction false} EndsAtAll(sndCapacity: nat, rcvCapacity: nat, run: seq<Step>, sid: nat)
    requires Snd.StreamOf(Reached(sndCapacity, rcvCapacity, run).snd, sid).closeAt.Some?
    ensures var z := Reached(sndCapacity, rcvCapacity, run);
            Snd.StreamOf(z.snd, sid).closeAt == Some(|HistOf(z, sid).all|)
  {
    ReachedSound(sndCapacity, rcvCapacity, run, sid);
  }

  /** The offset at which a step marks a stream as closed at the receiver. */
  ghost function Marks(z: System, step: Step, sid: nat): Option<nat> {
    if !Enabled(z, step) then None
    else
      match step
      case DataArrives(f, _) => if f.sid == sid && f.isClose then Some(f.offset) else None
      case MarkArrives(x, offset) => if x == sid then Some(offset) else None
      case _ => None
  }

  ghost function FirstMark(sndCapacity: nat, rcvCapacity: nat, run: seq<Step>, sid: nat): Option<nat> {
    if run == [] then None
    else
      var before := run[..|run| - 1];
      var first := FirstMark(sndCapacity, rcvCapacity, before, sid);
      if first.Some? then first else Marks(Reached(sndCapacity, rcvCapacity, before), run[|run| - 1], sid)
  }

  lemma {:induction false} InsertKeepsMark(s: RS.Stream, offset: nat, data: Bytes, now: nat)
    ensures RS.Insert(s, offset, data, now).stream.closeAt == s.closeAt
  {
    hide RS.TrimBelow, RS.TrimAbove;
  }

  lemma {:induction false} ArrivalMarks(z: System, f: Frame, now: nat, sid: nat)
    requires f in z.net && f.DataFrame?
    ensures var closeAt := Rcv.StreamOf(z.rcv, sid).closeAt; var z' := Next(z, DataArrives(f, now));
            Rcv.StreamOf(z'.rcv, sid).closeAt ==
            if closeAt.Some? then closeAt else if f.sid == sid && f.isClose then Some(f.offset) else None
  {
    hide RS.Insert;
    InsertKeepsMark(Rcv.StreamOf(z.rcv, sid), f.offset, f.data, now);
  }

  lemma {:induction false} StepMarks(z: System, step: Step, sid: nat)
    ensures var closeAt := Rcv.StreamOf(z.rcv, sid).closeAt;
            Rcv.StreamOf(Next(z, step).rcv, sid).closeAt == if closeAt.Some? then closeAt else Marks(z, step, sid)
  {
    hide SS.Send, SS.Retransmit, DoArrive;
    if Enabled(z, step) && step.DataArrives? {
      ArrivalMarks(z, step.frame, step.now, sid);
    } else if step.EmptyArrives? {
      EmptyLeavesStreams(z, step);
    }
  }

  lemma {:induction false} EmptyLeavesStreams(z: System, step: Step)
    requires step.EmptyArrives?
    ensures Next(z, step).rcv.streams == z.rcv.streams
  {
  }

  /** In every run a stream is closed at the receiver exactly where the first mark that arrived says. */
  lemma {:induction false} FirstMarkCounts(sndCapacity: nat, rcvCapacity: nat, run: seq<Step>, sid: nat)
    ensures Rcv.StreamOf(Reached(sndCapacity, rcvCapacity, run).rcv, sid).closeAt
            == FirstMark(sndCapacity, rcvCapacity, run, sid)
  {
    hide Next, Marks;
    if run == [] {
    } else {
      FirstMarkCounts(sndCapacity, rcvCapacity, run[..|run| - 1], sid);
      StepMarks(Reached(sndCapacity, rcvCapacity, run[..|run| - 1]), run[|run| - 1], sid);
    }
  }

  // ---------- A ping goes out ----------

  /** After every run, a ping that is asked for goes out with the next send, empty and unmarked, and is tracked. */
  lemma {:induction false} PingGoesOut(sndCapacity: nat, rcvCapacity: nat, run: seq<Step>,
                                       sid: nat, t: MsgType, ack: Option<Ack>, mtu: nat, now: nat)
    requires var s := Snd.StreamOf(Reached(sndCapacity, rcvCapacity, run).snd, sid); MtuFits(t, ack, s.sentOffset, mtu)
    ensures var z' := Reached(sndCapacity, rcvCapacity, run + [Ping(sid)] + [Send(sid, t, ack, mtu, now)]);
            var s' := Snd.StreamOf(z'.snd, sid); var k := Range(s'.sentOffset, 0);
            && DataFrame(sid, 0, [], false) in z'.net && !s'.pingRequest
            && k in s'.inFlight.vals && s'.inFlight.vals[k] == SS.SendInfo([], now, 1, true)
  {
    hide Next, MtuFits, Snd.ReadyToSend, MaxData;
    var z := Reached(sndCapacity, rcvCapacity, run);
    OneMore(Init(sndCapacity, rcvCapacity), run, Ping(sid));
    Asked(z, sid);
    SendsExactly(sndCapacity, rcvCapacity, run + [Ping(sid)], sid, t, ack, mtu, now);
    OneMore(Init(sndCapacity, rcvCapacity), run + [Ping(sid)], Send(sid, t, ack, mtu, now));
  }

  lemma {:induction false} Asked(z: System, sid: nat)
    ensures Snd.StreamOf(Next(z, Ping(sid)).snd, sid) == Snd.StreamOf(z.snd, sid).(pingRequest := true)
  {
  }
}
