/** The other way in which delivery stops for good: the receive buffer is filled by bytes ahead of a gap and
    refuses the bytes that would close it. */
module FullBuffer {
  import opened Common
  import opened Delivery
  import opened EndToEnd
  import opened Flight
  import opened Guarantees
  import opened MapTotals
  import opened Messages
  import opened Progress
  import opened Ranges
  import opened Reassembly
  import opened SendDiscipline
  import opened Transport
  import RS = RcvStream
  import Rcv = RcvState
  import SS = SendStream

  // ---------- Stuck for good ----------

  /** There is no room left, and no stream has its next byte. */
  ghost predicate Stuck(z: System) {
    z.rcv.size == z.rcv.capacity && forall sid: nat :: !RS.Readable(Rcv.StreamOf(z.rcv, sid))
  }

  lemma {:induction false} Refused(z: System, f: Frame, now: nat)
    requires z.rcv.size == z.rcv.capacity && f in z.net && f.DataFrame?
    ensures var z' := Next(z, DataArrives(f, now)); z'.rcv.size == z.rcv.size && z'.rcv.capacity == z.rcv.capacity
  {
    hide RS.Insert;
  }

  lemma EmptyAsIs(z: System, step: Step)
    requires step.EmptyArrives?
    ensures Next(z, step) == z.(rcv := Rcv.EmptyInsert(z.rcv, step.sid, step.offset))
  {
  }

  /** A full buffer that cannot be read stays as it is. */
  lemma {:induction false} NothingMoves(z: System, step: Step, sid: nat)
    requires z.rcv.size == z.rcv.capacity && (step.Read? ==> !RS.Readable(Rcv.StreamOf(z.rcv, step.sid)))
    ensures var z' := Next(z, step); var s, s' := Rcv.StreamOf(z.rcv, sid), Rcv.StreamOf(z'.rcv, sid);
            && z'.rcv.size == z.rcv.size && z'.rcv.capacity == z.rcv.capacity
            && s'.segments == s.segments && s'.next == s.next
            && DeliveredOf(z', sid) == DeliveredOf(z, sid)
  {
    hide RS.Insert, RS.Readable, SS.Send, SS.Retransmit, DoArrive;
    if Enabled(z, step) && step.DataArrives? {
      Refused(z, step.frame, step.now);
      StreamAfter(z, step.frame, step.now, sid);
    } else if step.EmptyArrives? {
      EmptyAsIs(z, step);
    }
  }

  lemma {:induction false} StepStaysStuck(z: System, step: Step, sid: nat)
    requires Stuck(z)
    ensures Stuck(Next(z, step)) && DeliveredOf(Next(z, step), sid) == DeliveredOf(z, sid)
  {
    hide Next, RS.Readable;
    var z' := Next(z, step);
    NothingMoves(z, step, sid);
    forall x: nat ensures !RS.Readable(Rcv.StreamOf(z'.rcv, x)) {
      assert !RS.Readable(Rcv.StreamOf(z.rcv, x));
      NothingMoves(z, step, x);
      SameReadable(Rcv.StreamOf(z.rcv, x), Rcv.StreamOf(z'.rcv, x));
    }
  }

  lemma {:induction false} SameReadable(s: RS.Stream, s': RS.Stream)
    ensures s'.segments == s.segments && s'.next == s.next ==> (RS.Readable(s) <==> RS.Readable(s'))
  {
  }

  /** Once stuck, nothing is delivered on any stream in any continuation of any run. */
  lemma {:induction false} StaysStuck(sndCapacity: nat, rcvCapacity: nat, run: seq<Step>, more: seq<Step>, sid: nat)
    requires Stuck(Reached(sndCapacity, rcvCapacity, run))
    ensures var z, z' := Reached(sndCapacity, rcvCapacity, run), Reached(sndCapacity, rcvCapacity, run + more);
            Stuck(z') && DeliveredOf(z', sid) == DeliveredOf(z, sid)
  {
    hide Next, Stuck;
    if more == [] {
      assert run + more == run;
    } else {
      var all, before := run + more, more[..|more| - 1];
      assert all[..|all| - 1] == run + before;
      StaysStuck(sndCapacity, rcvCapacity, run, before, sid);
      StepStaysStuck(Reached(sndCapacity, rcvCapacity, run + before), all[|all| - 1], sid);
    }
  }

  // ---------- Exactly when the missing packet gets through ----------

  /** In a stream whose packets were not cut, a packet that arrives is there already, or nothing is stored where
      it goes. */
  lemma {:induction false} ThereOrFresh(c: Channel, offset: nat, data: Bytes, now: nat)
    requires c in Sound() && NeverCut(c.h.log) && data != [] && c.r.next < offset + |data|
    requires Range(offset, |data|) in c.h.log && Truthful(Range(offset, |data|), data, c.h.all)
    ensures var m := c.r.segments; var r' := RS.Insert(c.r, offset, data, now).stream;
            if Stores(m, offset) then r' == c.r && offset in m && m[offset].data == data
            else offset !in m && r' == c.r.(segments := m[offset := RS.Seg(data, now)])
  {
    hide StreamInv;
    var m := c.r.segments;
    var i := LogHas(c.h.log, Range(offset, |data|));
    forall k | k in m ensures 0 < |m[k].data| && EqualOrApart(At(k, m[k]), Range(offset, |data|)) {
      var j := LogHas(c.h.log, At(k, m[k]));
    }
    if offset in m {
      assert InSegment(m, offset, offset);
    } else {
      if k :| k in m && InSegment(m, k, offset) { assert false; }
      InsertFresh(c.r, offset, data, now);
    }
  }

  lemma {:induction false} ReadsOut(s: RS.Stream)
    requires forall k :: k in s.segments ==> s.next <= k
    ensures RS.Read(s).1 == if s.next in s.segments then Some(s.segments[s.next]) else None
  {
  }

  lemma {:induction false} ReadDelivers(z: System, sid: nat)
    ensures DeliveredOf(Next(z, Read(sid)), sid) == Delivered(DeliveredOf(z, sid), RS.Read(Rcv.StreamOf(z.rcv, sid)).1)
  {
    ReadsOut(RS.EMPTY_STREAM);
  }

  lemma {:induction false} RunTwo(z: System, s1: Step, s2: Step)
    ensures Transport.Exec(z, [s1, s2]) == Next(Next(z, s1), s2)
  {
    hide Next;
    assert [s1][..0] == [] && [s1, s2][..1] == [s1];
    assert Transport.Exec(z, [s1]) == Next(z, s1);
  }

  lemma {:induction false} StartIsStored(s: RS.Stream)
    ensures Proper(s.segments) && s.next in s.segments ==> Stores(s.segments, s.next)
  {
    if Proper(s.segments) && s.next in s.segments { assert InSegment(s.segments, s.next, s.next); }
  }

  /** In every run in which no packet of a stream was cut, when the packet at the read position arrives, its
      bytes can be read next if and only if they are stored already or there is room for them. */
  lemma {:induction false} NextPacketDeliveredIff(sndCapacity: nat, rcvCapacity: nat, run: seq<Step>, f: Frame,
                                                  now: nat)
    requires var z := Reached(sndCapacity, rcvCapacity, run);
             && f in z.net && f.DataFrame? && f.data != [] && f.offset == Rcv.StreamOf(z.rcv, f.sid).next
             && NeverCut(HistOf(z, f.sid).log)
    ensures var z, z' := Reached(sndCapacity, rcvCapacity, run),
                         Reached(sndCapacity, rcvCapacity, run + [DataArrives(f, now), Read(f.sid)]);
            var r := Rcv.StreamOf(z.rcv, f.sid);
            DeliveredOf(z', f.sid) == DeliveredOf(z, f.sid) + f.data
            <==> Stores(r.segments, r.next) || z.rcv.size + |f.data| <= z.rcv.capacity
  {
    hide Next, Inv, NeverCut, RS.Insert, RS.Read, Truthful, Stores, StreamInv;
    var z := Reached(sndCapacity, rcvCapacity, run);
    ReachableInv(sndCapacity, rcvCapacity, run);
    RunSettled(sndCapacity, rcvCapacity, run, f.sid);
    ExecAppend(Init(sndCapacity, rcvCapacity), run, [DataArrives(f, now), Read(f.sid)]);
    RunTwo(z, DataArrives(f, now), Read(f.sid));
    FrameSound(z, f, f.sid);
    ThereOrFresh(ChannelOf(z, f.sid), f.offset, f.data, now);
    StreamAfter(z, f, now, f.sid);
    var z1 := Next(z, DataArrives(f, now));
    ReadDelivers(z1, f.sid);
    ReadsOut(Rcv.StreamOf(z1.rcv, f.sid));
    StartIsStored(Rcv.StreamOf(z.rcv, f.sid));
  }

  // ---------- Exactly when it can ever get through ----------

  /** A stream lacks the packet at its read position and stores so much that there is never room for it. */
  ghost predicate Dammed(z: System, sid: nat, gap: Range, stored: nat) {
    var r := Rcv.StreamOf(z.rcv, sid);
    && r.next == gap.offset && 0 < gap.len && gap in HistOf(z, sid).log
    && !Stores(r.segments, r.next) && stored <= StoredBytes(r.segments) && z.rcv.capacity < stored + gap.len
  }

  /** A stream's bytes are among those the buffer counts. */
  lemma {:induction false} StoredIsCounted(st: Rcv.State, sid: nat)
    requires Rcv.Accounted(st)
    ensures StoredBytes(Rcv.StreamOf(st, sid).segments) <= st.size
  {
    if sid in st.streams {
      TotalWithout(Rcv.StoredPerStream(st.streams), sid);
    } else {
      Rcv.NothingStored();
    }
  }

  lemma {:induction false} StoresMore(m: RS.Segments, offset: nat, seg: RS.Seg, p: int)
    requires offset !in m && Stores(m[offset := seg], p)
    ensures Stores(m, p) || Range(offset, |seg.data|).Holds(p)
  {
    var m' := m[offset := seg];
    var k :| k in m' && InSegment(m', k, p);
    if k != offset { assert InSegment(m, k, p); }
  }

  /** Another packet of a dammed stream leaves the gap open and takes nothing out. */
  lemma {:induction false} OtherPacket(c: Channel, gap: Range, offset: nat, data: Bytes, now: nat)
    requires c in Sound() && NeverCut(c.h.log) && gap in c.h.log && 0 < gap.len && data != []
    requires c.r.next == gap.offset && !Stores(c.r.segments, c.r.next)
    requires Range(offset, |data|) in c.h.log && Truthful(Range(offset, |data|), data, c.h.all)
    requires Range(offset, |data|) != gap
    ensures var r' := RS.Insert(c.r, offset, data, now).stream;
            && r'.next == c.r.next && !Stores(r'.segments, r'.next)
            && StoredBytes(c.r.segments) <= StoredBytes(r'.segments)
  {
    hide Truthful, StoredBytes, Sound, RS.Insert;
    var m, next := c.r.segments, c.r.next;
    var i := LogHas(c.h.log, gap);
    var j := LogHas(c.h.log, Range(offset, |data|));
    assert EqualOrApart(c.h.log[i], c.h.log[j]);
    if offset + |data| <= next {
      ReadBefore(c.r, offset, data, now);
    } else {
      ThereOrFresh(c, offset, data, now);
      if !Stores(m, offset) {
        StoredUpdate(m, offset, RS.Seg(data, now));
        if Stores(m[offset := RS.Seg(data, now)], next) { StoresMore(m, offset, RS.Seg(data, now), next); }
      }
    }
  }

  lemma {:induction false} ReadBefore(s: RS.Stream, offset: nat, data: Bytes, now: nat)
    requires offset + |data| <= s.next
    ensures RS.Insert(s, offset, data, now).stream == s
  {
  }

  lemma {:induction false} ArrivalDammed(z: System, f: Frame, now: nat, sid: nat, gap: Range, stored: nat)
    requires Inv(z) && Dammed(z, sid, gap, stored) && NeverCut(HistOf(z, sid).log) && f in z.net && f.DataFrame?
    ensures var z' := Next(z, DataArrives(f, now));
            Dammed(z', sid, gap, stored) && DeliveredOf(z', sid) == DeliveredOf(z, sid)
  {
    hide Inv, RS.Insert, Next, NeverCut, Truthful, Stores, StoredBytes, Sound;
    FrameSound(z, f, sid);
    StoredIsCounted(z.rcv, sid) by { Books(z); }
    StreamAfter(z, f, now, sid);
    CapacityStays(z, DataArrives(f, now));
    if f.sid == sid && f.data != [] && Range(f.offset, |f.data|) != gap {
      OtherPacket(ChannelOf(z, sid), gap, f.offset, f.data, now);
    }
  }

  lemma {:induction false} Books(z: System)
    requires Inv(z)
    ensures Rcv.Accounted(z.rcv)
  {
  }

  lemma {:induction false} CapacityStays(z: System, step: Step)
    ensures Next(z, step).rcv.capacity == z.rcv.capacity
  {
    hide RS.Insert, RS.Read, SS.Send, SS.Retransmit;
  }

  lemma {:induction false} NothingToRead(c: Channel)
    requires c in Sound() && !Stores(c.r.segments, c.r.next)
    ensures RS.Read(c.r) == (c.r, None)
  {
    hide StreamInv, Truthful;
    StartIsStored(c.r);
  }

  lemma {:induction false} StepDammed(z: System, step: Step, sid: nat, gap: Range, stored: nat)
    requires Inv(z) && Dammed(z, sid, gap, stored) && NeverCut(HistOf(z, sid).log)
    ensures var z' := Next(z, step); Dammed(z', sid, gap, stored) && DeliveredOf(z', sid) == DeliveredOf(z, sid)
  {
    hide Inv, RS.Insert, RS.Read, SS.Send, SS.Retransmit, NeverCut, Truthful, Stores, StoredBytes, Sound;
    LogGrows(z, step, sid);
    ChannelSound(z, sid);
    NothingToRead(ChannelOf(z, sid));
    if Enabled(z, step) && step.DataArrives? {
      ArrivalDammed(z, step.frame, step.now, sid, gap, stored);
    } else {
      var r, r' := Rcv.StreamOf(z.rcv, sid), Rcv.StreamOf(Next(z, step).rcv, sid);
      assert r'.segments == r.segments && r'.next == r.next;
    }
  }

  /** A dammed stream delivers nothing in any continuation that cuts none of its packets. */
  lemma {:induction false} StaysDammed(sndCapacity: nat, rcvCapacity: nat, run: seq<Step>, more: seq<Step>,
                                       sid: nat, gap: Range, stored: nat)
    requires Dammed(Reached(sndCapacity, rcvCapacity, run), sid, gap, stored)
    requires NeverCut(HistOf(Reached(sndCapacity, rcvCapacity, run + more), sid).log)
    ensures var z, z' := Reached(sndCapacity, rcvCapacity, run), Reached(sndCapacity, rcvCapacity, run + more);
            Dammed(z', sid, gap, stored) && DeliveredOf(z', sid) == DeliveredOf(z, sid)
  {
    hide Next, Dammed, Inv, NeverCut;
    if more == [] {
      assert run + more == run;
    } else {
      var all, before := run + more, more[..|more| - 1];
      assert all[..|all| - 1] == run + before;
      var z := Reached(sndCapacity, rcvCapacity, run + before);
      ReachableInv(sndCapacity, rcvCapacity, run + before);
      LogGrows(z, all[|all| - 1], sid);
      PrefixNeverCut(HistOf(z, sid).log, HistOf(Next(z, all[|all| - 1]), sid).log);
      StaysDammed(sndCapacity, rcvCapacity, run, before, sid, gap, stored);
      StepDammed(z, all[|all| - 1], sid, gap, stored);
    }
  }

  /** A continuation that cuts no packet of a stream and delivers more of it. */
  ghost predicate GetsOn(sndCapacity: nat, rcvCapacity: nat, run: seq<Step>, more: seq<Step>, sid: nat) {
    var z, z' := Reached(sndCapacity, rcvCapacity, run), Reached(sndCapacity, rcvCapacity, run + more);
    NeverCut(HistOf(z', sid).log) && DeliveredOf(z', sid) != DeliveredOf(z, sid)
  }

  /** In every run in which no packet of a stream was cut and no other stream stores anything, when the packet at
      the read position is missing, some continuation without a cut delivers more of the stream if and only if
      there is room for that packet now. */
  lemma {:induction false} GapClosesIff(sndCapacity: nat, rcvCapacity: nat, run: seq<Step>, f: Frame)
    requires f.DataFrame? && f.data != []
    requires var z := Reached(sndCapacity, rcvCapacity, run); var r := Rcv.StreamOf(z.rcv, f.sid);
             && f in z.net && f.offset == r.next && !Stores(r.segments, r.next)
             && NeverCut(HistOf(z, f.sid).log) && z.rcv.size == StoredBytes(r.segments)
    ensures var z := Reached(sndCapacity, rcvCapacity, run);
            (exists more :: GetsOn(sndCapacity, rcvCapacity, run, more, f.sid))
            <==> z.rcv.size + |f.data| <= z.rcv.capacity
  {
    hide Next, Inv, NeverCut, Truthful, Stores, StoredBytes, Sound;
    var z, sid := Reached(sndCapacity, rcvCapacity, run), f.sid;
    var steps := [DataArrives(f, 0), Read(sid)];
    ReachableInv(sndCapacity, rcvCapacity, run);
    FrameSound(z, f, sid);
    if z.rcv.size + |f.data| <= z.rcv.capacity {
      NextPacketDeliveredIff(sndCapacity, rcvCapacity, run, f, 0);
      ExecAppend(Init(sndCapacity, rcvCapacity), run, steps);
      RunTwo(z, steps[0], steps[1]);
      StreamAfter(z, f, 0, sid);
      ReadKeepsHistory(Next(z, steps[0]), sid);
      assert GetsOn(sndCapacity, rcvCapacity, run, steps, sid);
    } else if more :| GetsOn(sndCapacity, rcvCapacity, run, more, sid) {
      StaysDammed(sndCapacity, rcvCapacity, run, more, sid, Range(f.offset, |f.data|), z.rcv.size);
    }
  }

  lemma {:induction false} ReadKeepsHistory(z: System, sid: nat)
    ensures HistOf(Next(z, Read(sid)), sid) == HistOf(z, sid)
  {
  }

  // ---------- A run that gets stuck ----------

  /** Two packets of one byte are sent to a receiver with room for one, and the second arrives. */
  ghost function AheadSteps(a: byte, b: byte): seq<Step> {
    [Write(0, [a, b]), Send(0, Data, None, 40, 0), Send(0, Data, None, 40, 0)]
  }

  lemma RoomForOne()
    ensures MtuFits(Data, None, 0, 40) && MaxData(Data, None, 0, 40) == 1
    ensures MtuFits(Data, None, 1, 40) && MaxData(Data, None, 1, 40) == 1
  {
  }

  ghost function FirstSent(a: byte, b: byte): SS.Stream {
    SS.Track(SS.EMPTY_STREAM, 0, [a], 0, false).(queued := [b], sentOffset := 1)
  }

  lemma {:induction false} OneAtATime(a: byte, b: byte)
    ensures SS.Send(SS.EMPTY_STREAM.(queued := [a, b]), 1, 0) == (FirstSent(a, b), SS.Packet([a], 0, false))
    ensures SS.Send(FirstSent(a, b), 1, 0).1 == SS.Packet([b], 1, false)
  {
    assert [a, b][..1] == [a] && [a, b][1..] == [b] && [b][..1] == [b];
  }

  lemma {:induction false} TwoOnTheWire(a: byte, b: byte)
    ensures var z := Reached(100, 1, AheadSteps(a, b));
            && z.rcv == Rcv.Init(1) && z.delivered == map[] && HistOf(z, 0).log == [Range(0, 1), Range(1, 1)]
            && DataFrame(0, 0, [a], false) in z.net && DataFrame(0, 1, [b], false) in z.net
  {
    hide SS.Send, SS.Retransmit, FirstSent;
    var run := AheadSteps(a, b);
    ExecThree(Init(100, 1), run[0], run[1], run[2]);
    Written(1, a, b);
    RoomForOne();
    OneAtATime(a, b);
    var z1 := Next(Init(100, 1), run[0]);
    var z2 := Next(z1, run[1]);
    assert z2.snd.streams[0] == FirstSent(a, b) && HistOf(z2, 0).log == [Range(0, 1)];
    assert FirstSent(a, b).sentOffset == 1 by { SentOne(a, b); }
  }

  lemma SentOne(a: byte, b: byte)
    ensures FirstSent(a, b).sentOffset == 1
  {
  }

  lemma {:induction false} FilledByTheSecond(z: System, b: byte)
    requires z.rcv == Rcv.Init(1) && z.delivered == map[] && DataFrame(0, 1, [b], false) in z.net
    ensures var z' := Next(z, DataArrives(DataFrame(0, 1, [b], false), 0));
            Stuck(z') && z'.delivered == map[] && z'.hist == z.hist && z'.net == z.net
  {
    hide RS.Insert;
    var z' := Next(z, DataArrives(DataFrame(0, 1, [b], false), 0));
    InsertAlone(RS.EMPTY_STREAM, 1, [b], 0);
    GrowsByAll(RS.EMPTY_STREAM, 1, [b], 0);
    assert Rcv.StreamOf(z'.rcv, 0) == RS.Stream(map[1 := RS.Seg([b], 0)], 0, None);
    forall x: nat ensures !RS.Readable(Rcv.StreamOf(z'.rcv, x)) {
    }
  }

  /** There is a run that cut no packet, with the missing packet at hand to arrive any number of times, after
      which no continuation whatever delivers a byte. */
  lemma {:induction false} FullBufferCanStall(a: byte, b: byte, more: seq<Step>)
    ensures var run := AheadSteps(a, b) + [DataArrives(DataFrame(0, 1, [b], false), 0)];
            var z, z' := Reached(100, 1, run), Reached(100, 1, run + more);
            && NeverCut(HistOf(z, 0).log) && DataFrame(0, 0, [a], false) in z.net && DeliveredOf(z', 0) == []
  {
    hide Next, Inv, Stuck;
    var last := DataArrives(DataFrame(0, 1, [b], false), 0);
    var run := AheadSteps(a, b) + [last];
    assert run[..|run| - 1] == AheadSteps(a, b);
    TwoOnTheWire(a, b);
    FilledByTheSecond(Reached(100, 1, AheadSteps(a, b)), b);
    StaysStuck(100, 1, run, more, 0);
  }
}
