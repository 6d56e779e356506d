/** When delivery goes on: in every run of the joined system that never cut a packet of a stream, a stored
    next byte can be read. Once a cut packet's original arrives late, the stream can stall for good. */
module Progress {
  import opened Common
  import opened Delivery
  import opened EndToEnd
  import opened Flight
  import opened Guarantees
  import opened Messages
  import opened Ranges
  import opened Reassembly
  import opened SendDiscipline
  import opened SortedKeys
  import opened Transport
  import RS = RcvStream
  import Rcv = RcvState
  import SS = SendStream
  import Snd = SendState

  /** The ranges handed out for a stream are pairwise equal or apart: no packet was cut. */
  ghost predicate NeverCut(log: seq<Range>) {
    forall i, j :: 0 <= i < |log| && 0 <= j < |log| ==> EqualOrApart(log[i], log[j])
  }

  ghost predicate HandedOut(log: seq<Range>, p: int) {
    exists i :: 0 <= i < |log| && log[i].Holds(p)
  }

  /** The read position is on a packet boundary, what was read was handed out, and all that is stored lies
      ahead. */
  ghost predicate OnBoundary(c: Channel) {
    && (forall i :: 0 <= i < |c.h.log| ==> c.h.log[i].End() <= c.r.next || c.r.next <= c.h.log[i].offset)
    && (forall p :: 0 <= p < c.r.next ==> HandedOut(c.h.log, p))
    && (forall k :: k in c.r.segments ==> c.r.next <= k)
  }

  /** A longer record with no cut leaves the read position on a boundary. */
  lemma {:induction false} MoreHandedOut(c: Channel, c': Channel)
    requires OnBoundary(c) && c'.r == c.r && c.h.log <= c'.h.log && NeverCut(c'.h.log)
    ensures OnBoundary(c')
  {
    var log, log', next := c.h.log, c'.h.log, c.r.next;
    forall p | 0 <= p < next ensures HandedOut(log', p) {
      assert HandedOut(log, p);
      var i :| 0 <= i < |log| && log[i].Holds(p);
      assert log'[i] == log[i];
    }
    forall j | 0 <= j < |log'| ensures log'[j].End() <= next || next <= log'[j].offset {
      if log'[j].offset < next {
        assert HandedOut(log, next - 1);
        var i :| 0 <= i < |log| && log[i].Holds(next - 1);
        assert log'[i] == log[i] && EqualOrApart(log'[i], log'[j]);
      }
    }
  }

  lemma {:induction false} LogHas(log: seq<Range>, r: Range) returns (i: nat)
    requires r in log
    ensures i < |log| && log[i] == r
  {
    i :| 0 <= i < |log| && log[i] == r;
  }

  /** A packet that arrives is stored at its own offset, not below the read position. */
  lemma {:induction false} ArrivalOnBoundary(c: Channel, offset: nat, data: Bytes, now: nat)
    requires c in Sound() && OnBoundary(c) && data != [] && Range(offset, |data|) in c.h.log
    requires Truthful(Range(offset, |data|), data, c.h.all)
    ensures OnBoundary(c.(r := RS.Insert(c.r, offset, data, now).stream))
  {
    hide RS.Insert, StreamInv, Truthful;
    var r := Range(offset, |data|);
    NothingCrosses(c, r);
    InsertNeverPanics(c.r, offset, data, now, c.h.all);
    InsertNoCrossing(c.r, offset, data, now);
    InsertAddsExactly(c.r, offset, data, now);
    var i := LogHas(c.h.log, r);
    var o := RS.Insert(c.r, offset, data, now);
    if o.status.Ok? && offset < c.r.next { ReadAlready(c.r, offset, data, now); }
  }

  lemma {:induction false} ReadAlready(s: RS.Stream, offset: nat, data: Bytes, now: nat)
    requires offset + |data| <= s.next
    ensures RS.Insert(s, offset, data, now).status.Duplicate?
  {
  }

  lemma {:induction false} ReadOnBoundary(c: Channel)
    requires c in Sound() && OnBoundary(c) && NeverCut(c.h.log)
    ensures OnBoundary(c.(r := RS.Read(c.r).0))
  {
    hide StreamInv, Truthful;
    if RS.Readable(c.r) {
      var m, next, log := c.r.segments, c.r.next, c.h.log;
      var r := At(next, m[next]);
      var i := LogHas(log, r);
      forall p | 0 <= p < r.End() ensures HandedOut(log, p) {
        if p >= next { assert log[i].Holds(p); }
      }
      forall k | k in m && k != next ensures r.End() <= k {
        var j := LogHas(log, At(k, m[k]));
        assert EqualOrApart(log[i], log[j]);
        assert 0 < log[j].len;
      }
      forall j | 0 <= j < |log| ensures log[j].End() <= r.End() || r.End() <= log[j].offset {
        assert EqualOrApart(log[i], log[j]);
      }
    }
  }

  // ---------- Every step of the system ----------

  ghost predicate Settled(z: System, sid: nat) {
    OnBoundary(ChannelOf(z, sid))
  }

  lemma {:induction false} DataArrivesSettled(z: System, f: Frame, now: nat, sid: nat)
    requires Inv(z) && Settled(z, sid) && f in z.net && f.DataFrame?
    ensures Settled(Next(z, DataArrives(f, now)), sid)
  {
    hide Inv, RS.Insert, OnBoundary, Truthful, Next;
    FrameSound(z, f, sid);
    if f.sid == sid && f.data != [] {
      ArrivalOnBoundary(ChannelOf(z, sid), f.offset, f.data, now);
    }
    StreamAfter(z, f, now, sid);
    var c, c' := ChannelOf(z, sid), ChannelOf(Next(z, DataArrives(f, now)), sid);
    SameBoundary(c.(r := Arriving(z, f, now, sid)), c');
  }

  /** What a data frame makes of a stream's segments. */
  ghost function Arriving(z: System, f: Frame, now: nat, sid: nat): RS.Stream
    requires f.DataFrame?
  {
    var r := Rcv.StreamOf(z.rcv, sid);
    if f.sid == sid && f.data != [] && z.rcv.size + |f.data| <= z.rcv.capacity
    then RS.Insert(r, f.offset, f.data, now).stream else r
  }

  lemma {:induction false} StreamAfter(z: System, f: Frame, now: nat, sid: nat)
    requires f in z.net && f.DataFrame?
    ensures var z', r := Next(z, DataArrives(f, now)), Arriving(z, f, now, sid);
            && HistOf(z', sid) == HistOf(z, sid) && DeliveredOf(z', sid) == DeliveredOf(z, sid)
            && Rcv.StreamOf(z'.rcv, sid).segments == r.segments && Rcv.StreamOf(z'.rcv, sid).next == r.next
  {
    hide RS.Insert;
  }

  lemma {:induction false} SameBoundary(c: Channel, c': Channel)
    requires c'.h.log == c.h.log && c'.r.segments == c.r.segments && c'.r.next == c.r.next
    ensures OnBoundary(c) ==> OnBoundary(c')
  {
  }

  lemma {:induction false} FrameSound(z: System, f: Frame, sid: nat)
    requires Inv(z) && f in z.net && f.DataFrame?
    ensures ChannelOf(z, sid) in Sound()
    ensures f.data != [] ==> Range(f.offset, |f.data|) in HistOf(z, f.sid).log
                             && Truthful(Range(f.offset, |f.data|), f.data, HistOf(z, f.sid).all)
  {
    assert FrameOk(z, f);
  }

  lemma {:induction false} NextSettled(z: System, step: Step, sid: nat)
    requires Inv(z) && Settled(z, sid) && NeverCut(HistOf(Next(z, step), sid).log)
    ensures Settled(Next(z, step), sid)
  {
    hide OnBoundary, Inv, RS.Insert, RS.Read, NeverCut, Truthful, SS.Send, SS.Retransmit;
    var z' := Next(z, step);
    var c, c' := ChannelOf(z, sid), ChannelOf(z', sid);
    if Enabled(z, step) && step.DataArrives? {
      DataArrivesSettled(z, step.frame, step.now, sid);
    } else if Enabled(z, step) && step.Read? {
      if step.sid == sid && sid in z.rcv.streams {
        ChannelSound(z, sid);
        ReadOnBoundary(c);
        SameBoundary(c.(r := RS.Read(c.r).0), c');
      } else {
        SameBoundary(c, c');
      }
    } else {
      assert c'.r.segments == c.r.segments && c'.r.next == c.r.next && c.h.log <= c'.h.log;
      MoreHandedOut(c, c'.(r := c.r));
      SameBoundary(c'.(r := c.r), c');
    }
  }

  lemma {:induction false} ChannelSound(z: System, sid: nat)
    requires Inv(z)
    ensures ChannelOf(z, sid) in Sound()
  {
  }

  lemma {:induction false} RunSettled(sndCapacity: nat, rcvCapacity: nat, run: seq<Step>, sid: nat)
    requires NeverCut(HistOf(Reached(sndCapacity, rcvCapacity, run), sid).log)
    ensures Settled(Reached(sndCapacity, rcvCapacity, run), sid)
  {
    hide Next, Inv, NeverCut;
    if run == [] {
    } else {
      var before := run[..|run| - 1];
      var z := Reached(sndCapacity, rcvCapacity, before);
      ReachableInv(sndCapacity, rcvCapacity, before);
      LogGrows(z, run[|run| - 1], sid);
      PrefixNeverCut(HistOf(z, sid).log, HistOf(Next(z, run[|run| - 1]), sid).log);
      RunSettled(sndCapacity, rcvCapacity, before, sid);
      NextSettled(z, run[|run| - 1], sid);
    }
  }

  lemma {:induction false} LogGrows(z: System, step: Step, sid: nat)
    ensures HistOf(z, sid).log <= HistOf(Next(z, step), sid).log
  {
    hide SS.Send, SS.Retransmit, RS.Insert, RS.Read;
  }

  lemma {:induction false} PrefixNeverCut(log: seq<Range>, log': seq<Range>)
    requires log <= log' && NeverCut(log')
    ensures NeverCut(log)
  {
    forall i, j | 0 <= i < |log| && 0 <= j < |log| ensures EqualOrApart(log[i], log[j]) {
      assert log[i] == log'[i] && log[j] == log'[j];
    }
  }

  /** In every run in which no packet of a stream was cut, nothing is stored below the read position, and the
      next byte can be read as soon as it is stored. */
  lemma {:induction false} UncutMakesProgress(sndCapacity: nat, rcvCapacity: nat, run: seq<Step>, sid: nat)
    requires NeverCut(HistOf(Reached(sndCapacity, rcvCapacity, run), sid).log)
    ensures var r := Rcv.StreamOf(Reached(sndCapacity, rcvCapacity, run).rcv, sid);
            !Blocked(r) && (Stores(r.segments, r.next) <==> RS.Read(r).1.Some?)
  {
    hide Reached, StreamInv, NeverCut, Truthful, Inv;
    RunSettled(sndCapacity, rcvCapacity, run, sid);
    var z := Reached(sndCapacity, rcvCapacity, run);
    var r := Rcv.StreamOf(z.rcv, sid);
    ReachedSound(sndCapacity, rcvCapacity, run, sid);
    DeliversIff(r);
    if r.next in r.segments {
      assert 0 < |r.segments[r.next].data|;
      assert InSegment(r.segments, r.next, r.next);
    }
  }

  ghost function Reads(sid: nat, n: nat): seq<Step> {
    if n == 0 then [] else [Read(sid)] + Reads(sid, n - 1)
  }

  lemma {:induction false} ReadAddsNothing(s: RS.Stream)
    requires RS.Readable(s)
    ensures forall p :: Has(RS.Read(s).0, p) ==> Has(s, p)
    ensures |RS.Read(s).0.segments| < |s.segments|
  {
    var s', m := RS.Read(s).0, s.segments;
    assert m.Keys == s'.segments.Keys + {s.next};
    forall p | Has(s', p) ensures Has(s, p) {
      if s.next <= p < s'.next {
        assert InSegment(m, s.next, p);
      } else if s'.next <= p {
        var k :| k in s'.segments && InSegment(s'.segments, k, p);
        assert InSegment(m, k, p);
      }
    }
  }

  /** Only a stream that exists can be read. */
  lemma MinKeyThere(s: RS.Stream)
    requires RS.Readable(s)
    ensures s != RS.EMPTY_STREAM
  {
  }

  lemma {:induction false} AfterRead(z: System, sid: nat)
    requires RS.Readable(Rcv.StreamOf(z.rcv, sid))
    ensures var z' := Next(z, Read(sid));
            HistOf(z', sid) == HistOf(z, sid) && Rcv.StreamOf(z'.rcv, sid) == RS.Read(Rcv.StreamOf(z.rcv, sid)).0
  {
    MinKeyThere(Rcv.StreamOf(z.rcv, sid));
  }

  lemma {:induction false} ReadsIfReadable(s: RS.Stream)
    ensures RS.Read(s).1.Some? <==> RS.Readable(s)
  {
  }

  /** In every run in which no packet of a stream was cut, reading on delivers exactly the bytes written before
      the first position that the receiver lacks. */
  lemma {:induction false} UncutDeliversAll(sndCapacity: nat, rcvCapacity: nat, run: seq<Step>, sid: nat)
    returns (n: nat)
    requires NeverCut(HistOf(Reached(sndCapacity, rcvCapacity, run), sid).log)
    ensures var z, z' := Reached(sndCapacity, rcvCapacity, run), Reached(sndCapacity, rcvCapacity, run + Reads(sid, n));
            var r, d := Rcv.StreamOf(z.rcv, sid), DeliveredOf(z', sid);
            d <= HistOf(z, sid).all && (forall p :: 0 <= p < |d| ==> Has(r, p)) && !Has(r, |d|)
    decreases |Rcv.StreamOf(Reached(sndCapacity, rcvCapacity, run).rcv, sid).segments|
  {
    hide Next, NeverCut, RS.Read, RS.Readable, Stores;
    var z := Reached(sndCapacity, rcvCapacity, run);
    var r := Rcv.StreamOf(z.rcv, sid);
    UncutMakesProgress(sndCapacity, rcvCapacity, run, sid);
    if !Stores(r.segments, r.next) {
      n := 0;
      assert run + Reads(sid, 0) == run;
      PrefixSafety(sndCapacity, rcvCapacity, run, sid);
    } else {
      var next := run + [Read(sid)];
      assert next[..|next| - 1] == run;
      ReadsIfReadable(r);
      AfterRead(z, sid);
      ReadAddsNothing(r);
      ReadKeepsAll(r);
      var k := UncutDeliversAll(sndCapacity, rcvCapacity, next, sid);
      n := k + 1;
      assert run + Reads(sid, n) == next + Reads(sid, k);
    }
  }

  // ---------- Blocked streams stay blocked ----------

  /** A blocked stream of the system stays blocked, and nothing more of it is delivered. */
  lemma {:induction false} StepStaysBlocked(z: System, step: Step, sid: nat)
    requires Inv(z) && Blocked(Rcv.StreamOf(z.rcv, sid))
    ensures Blocked(Rcv.StreamOf(Next(z, step).rcv, sid)) && DeliveredOf(Next(z, step), sid) == DeliveredOf(z, sid)
  {
    hide Inv, RS.Insert, RS.Read, SS.Send, SS.Retransmit, Truthful, Blocked;
    var z' := Next(z, step);
    var s, s' := Rcv.StreamOf(z.rcv, sid), Rcv.StreamOf(z'.rcv, sid);
    if Enabled(z, step) && step.DataArrives? {
      ArrivalStaysBlocked(z, step.frame, step.now, sid);
    } else if Enabled(z, step) && step.Read? && step.sid == sid {
      ReadsNothing(s);
    } else {
      SameBlocked(s, s');
    }
  }

  lemma {:induction false} ReadsNothing(s: RS.Stream)
    requires Blocked(s)
    ensures RS.Read(s) == (s, None)
  {
    DeliversIff(s);
  }

  lemma {:induction false} SameBlocked(s: RS.Stream, s': RS.Stream)
    requires s'.segments == s.segments && s'.next == s.next
    ensures Blocked(s) ==> Blocked(s')
  {
  }

  lemma {:induction false} ArrivalStaysBlocked(z: System, f: Frame, now: nat, sid: nat)
    requires Inv(z) && Blocked(Rcv.StreamOf(z.rcv, sid)) && f in z.net && f.DataFrame?
    ensures var z' := Next(z, DataArrives(f, now));
            Blocked(Rcv.StreamOf(z'.rcv, sid)) && DeliveredOf(z', sid) == DeliveredOf(z, sid)
  {
    hide Inv, RS.Insert, Next, Blocked, Truthful, StreamInv;
    var s := Rcv.StreamOf(z.rcv, sid);
    FrameSound(z, f, sid);
    if f.sid == sid && f.data != [] {
      InsertStaysBlocked(s, f.offset, f.data, now, HistOf(z, sid).all);
    }
    StreamAfter(z, f, now, sid);
    SameBlocked(Arriving(z, f, now, sid), Rcv.StreamOf(Next(z, DataArrives(f, now)).rcv, sid));
  }

  lemma {:induction false} StaysBlocked(sndCapacity: nat, rcvCapacity: nat, run: seq<Step>, more: seq<Step>, sid: nat)
    requires Blocked(Rcv.StreamOf(Reached(sndCapacity, rcvCapacity, run).rcv, sid))
    ensures var z, z' := Reached(sndCapacity, rcvCapacity, run), Reached(sndCapacity, rcvCapacity, run + more);
            Blocked(Rcv.StreamOf(z'.rcv, sid)) && DeliveredOf(z', sid) == DeliveredOf(z, sid)
  {
    hide Next, Inv, Blocked;
    if more == [] {
      assert run + more == run;
    } else {
      var all, before := run + more, more[..|more| - 1];
      assert all[..|all| - 1] == run + before;
      StaysBlocked(sndCapacity, rcvCapacity, run, before, sid);
      ReachableInv(sndCapacity, rcvCapacity, run + before);
      StepStaysBlocked(Reached(sndCapacity, rcvCapacity, run + before), all[|all| - 1], sid);
    }
  }

  // ---------- Exactly when a stream is blocked ----------

  /** The steps that block a stream: data that is not refused arrives with a range that straddles the read
      position, or a segment is read inside which another one starts. */
  ghost predicate Blocks(z: System, step: Step, sid: nat) {
    var r := Rcv.StreamOf(z.rcv, sid);
    && Enabled(z, step)
    && match step
       case DataArrives(f, _) =>
         f.sid == sid && z.rcv.size + |f.data| <= z.rcv.capacity && f.offset < r.next < f.offset + |f.data|
       case Read(x) =>
         x == sid && RS.Readable(r) && exists k :: k in r.segments && r.next < k < r.next + |r.segments[r.next].data|
       case _ => false
  }

  lemma {:induction false} ArrivalBlocksIff(z: System, f: Frame, now: nat, sid: nat)
    requires Inv(z) && !Blocked(Rcv.StreamOf(z.rcv, sid)) && f in z.net && f.DataFrame?
    ensures Blocked(Rcv.StreamOf(Next(z, DataArrives(f, now)).rcv, sid)) <==> Blocks(z, DataArrives(f, now), sid)
  {
    hide Inv, RS.Insert, Next, Blocked, Truthful, StreamInv;
    var s := Rcv.StreamOf(z.rcv, sid);
    FrameSound(z, f, sid);
    if f.sid == sid && f.data != [] {
      InsertBlocksIff(s, f.offset, f.data, now, HistOf(z, sid).all);
    }
    StreamAfter(z, f, now, sid);
    var r, s' := Arriving(z, f, now, sid), Rcv.StreamOf(Next(z, DataArrives(f, now)).rcv, sid);
    SameBlocked(r, s');
    SameBlocked(s', r);
  }

  lemma {:induction false} ReadingBlocksIff(z: System, sid: nat)
    requires !Blocked(Rcv.StreamOf(z.rcv, sid))
    ensures Blocked(Rcv.StreamOf(Next(z, Read(sid)).rcv, sid)) <==> Blocks(z, Read(sid), sid)
  {
    hide Blocked;
    var s := Rcv.StreamOf(z.rcv, sid);
    if RS.Readable(s) {
      MinKeyThere(s);
      ReadBlocksIff(s);
    }
  }

  lemma {:induction false} StepBlocksIff(z: System, step: Step, sid: nat)
    requires Inv(z) && !Blocked(Rcv.StreamOf(z.rcv, sid))
    ensures Blocked(Rcv.StreamOf(Next(z, step).rcv, sid)) <==> Blocks(z, step, sid)
  {
    hide Inv, RS.Insert, RS.Read, SS.Send, SS.Retransmit, Truthful, Blocked;
    if Enabled(z, step) && step.DataArrives? {
      ArrivalBlocksIff(z, step.frame, step.now, sid);
    } else if step.Read? && step.sid == sid {
      ReadingBlocksIff(z, sid);
    } else {
      SameBlocked(Rcv.StreamOf(Next(z, step).rcv, sid), Rcv.StreamOf(z.rcv, sid));
    }
  }

  lemma {:induction false} NothingBlockedAtFirst(sndCapacity: nat, rcvCapacity: nat, sid: nat)
    ensures !Blocked(Rcv.StreamOf(Reached(sndCapacity, rcvCapacity, []).rcv, sid))
  {
  }

  /** In every run, a stream ends up blocked, delivering nothing in any continuation, exactly when some step
      of the run blocked it. */
  lemma {:induction false} BlockedIff(sndCapacity: nat, rcvCapacity: nat, run: seq<Step>, sid: nat)
    ensures Blocked(Rcv.StreamOf(Reached(sndCapacity, rcvCapacity, run).rcv, sid))
            <==> exists i :: 0 <= i < |run| && Blocks(Reached(sndCapacity, rcvCapacity, run[..i]), run[i], sid)
  {
    hide Next, Inv, Blocked, Blocks;
    if run == [] {
      NothingBlockedAtFirst(sndCapacity, rcvCapacity, sid);
    } else {
      var n := |run| - 1;
      var before := run[..n];
      var z := Reached(sndCapacity, rcvCapacity, before);
      BlockedIff(sndCapacity, rcvCapacity, before, sid);
      ReachableInv(sndCapacity, rcvCapacity, before);
      forall i | 0 <= i < n ensures run[..i] == before[..i] && run[i] == before[i] {
      }
      if Blocked(Rcv.StreamOf(z.rcv, sid)) {
        StepStaysBlocked(z, run[n], sid);
        var i :| 0 <= i < n && Blocks(Reached(sndCapacity, rcvCapacity, before[..i]), before[i], sid);
        assert Blocks(Reached(sndCapacity, rcvCapacity, run[..i]), run[i], sid);
      } else {
        StepBlocksIff(z, run[n], sid);
      }
    }
  }

  /** In every run in which the next byte of a stream is stored, it can be read now unless, and only unless,
      some step of the run blocked the stream. */
  lemma {:induction false} StalledIff(sndCapacity: nat, rcvCapacity: nat, run: seq<Step>, sid: nat)
    requires var r := Rcv.StreamOf(Reached(sndCapacity, rcvCapacity, run).rcv, sid); Stores(r.segments, r.next)
    ensures RS.Read(Rcv.StreamOf(Reached(sndCapacity, rcvCapacity, run).rcv, sid)).1.None?
            <==> exists i :: 0 <= i < |run| && Blocks(Reached(sndCapacity, rcvCapacity, run[..i]), run[i], sid)
  {
    hide Reached, Blocks;
    var r := Rcv.StreamOf(Reached(sndCapacity, rcvCapacity, run).rcv, sid);
    BlockedIff(sndCapacity, rcvCapacity, run, sid);
    DeliversIff(r);
    var k :| k in r.segments && InSegment(r.segments, k, r.next);
    assert k < r.next ==> Blocked(r);
  }

  // ---------- A run that stalls ----------

  /** A packet of two bytes is sent; sent again with an acknowledgement in front there is room for one byte,
      and it is cut. */
  ghost function CutSteps(a: byte, b: byte): seq<Step> {
    [Write(0, [a, b]), Send(0, Data, None, 50, 0), Retransmit(0, Data, Some(Ack(0, 0, 0, 0)), 50, 0, 1)]
  }

  lemma {:induction false} ExecThree(z: System, s1: Step, s2: Step, s3: Step)
    ensures Transport.Exec(z, [s1, s2, s3]) == Next(Next(Next(z, s1), s2), s3)
  {
    hide Next;
    assert [s1][..0] == [] && [s1, s2][..1] == [s1] && [s1, s2, s3][..2] == [s1, s2];
    assert Transport.Exec(z, [s1]) == Next(z, s1);
    assert Transport.Exec(z, [s1, s2]) == Next(Transport.Exec(z, [s1]), s2);
  }

  lemma {:induction false} Written(rcvCapacity: nat, a: byte, b: byte)
    ensures Next(Init(100, rcvCapacity), Write(0, [a, b])) ==
            System(Snd.State(map[0 := SS.EMPTY_STREAM.(queued := [a, b])], 100, 2), Rcv.Init(rcvCapacity), {},
                   map[0 := History([a, b], [], {})], map[])
  {
    var data: Bytes := [a, b];
    assert Snd.Accepted(Snd.Init(100), data) == data[..2] == data;
    assert [] + data == data;
    var h := HistOf(Init(100, rcvCapacity), 0);
    assert h.all + data[..2] == data;
  }

  ghost function InFlightOf(a: byte, b: byte): SS.Stream {
    SS.EMPTY_STREAM.(inFlight := SS.Track(SS.EMPTY_STREAM, 0, [a, b], 0, false).inFlight, sentOffset := 2)
  }

  lemma {:induction false} SentWhole(a: byte, b: byte)
    ensures SS.Send(SS.EMPTY_STREAM.(queued := [a, b]), 11, 0) == (InFlightOf(a, b), SS.Packet([a, b], 0, false))
  {
    assert [a, b][..2] == [a, b];
    assert [a, b][2..] == [];
  }

  lemma {:induction false} SentInParts(a: byte, b: byte)
    ensures SS.Retransmit(InFlightOf(a, b), 1, 0, 1).1 == SS.Packet([a], 0, false)
  {
    hide SS.Split;
    var s := InFlightOf(a, b);
    var key := Range(0, 2);
    assert s.inFlight.keys == [key] && s.inFlight.vals == map[key := SS.SendInfo([a, b], 0, 1, false)];
    assert SS.HasOldest(s) && SS.Oldest(s) == SS.SendInfo([a, b], 0, 1, false);
    assert SS.Backoff(0, 1) == 0 && SS.Elapsed(1, 0) == 1;
    SplitHandsOut(s);
    assert [a, b][..1] == [a];
  }

  lemma SplitHandsOut(s: SS.Stream)
    requires SS.HasOldest(s) && 1 < |SS.Oldest(s).data|
    ensures SS.Split(s, 1, 1).1 == SS.Packet(SS.Oldest(s).data[..1], s.inFlight.keys[0].offset, false)
  {
  }

  lemma RoomFor()
    ensures MtuFits(Data, None, 0, 50) && MaxData(Data, None, 0, 50) == 11
    ensures var ack := Some(Ack(0, 0, 0, 0)); MtuFits(Data, ack, 0, 50) && MaxData(Data, ack, 0, 50) == 1
  {
  }

  lemma {:induction false} BothOnTheWire(a: byte, b: byte)
    ensures var z := Reached(100, 100, CutSteps(a, b));
            && z.rcv == Rcv.Init(100) && z.delivered == map[] && HistOf(z, 0).all == [a, b]
            && DataFrame(0, 0, [a, b], false) in z.net && DataFrame(0, 0, [a], false) in z.net
  {
    hide SS.Send, SS.Retransmit, InFlightOf;
    var run := CutSteps(a, b);
    ExecThree(Init(100, 100), run[0], run[1], run[2]);
    Written(100, a, b);
    RoomFor();
    SentWhole(a, b);
    SentInParts(a, b);
    var z1 := Next(Init(100, 100), run[0]);
    var z2 := Next(z1, run[1]);
    assert z2.snd.streams[0] == InFlightOf(a, b) && DataFrame(0, 0, [a, b], false) in z2.net;
    assert Snd.OldestOffset(InFlightOf(a, b)) == 0 by { OldestIsFirst(a, b); }
  }

  lemma OldestIsFirst(a: byte, b: byte)
    ensures Snd.OldestOffset(InFlightOf(a, b)) == 0
  {
  }

  /** The left part arrives, is read, and then the original arrives. */
  ghost function LateSteps(a: byte, b: byte): seq<Step> {
    [DataArrives(DataFrame(0, 0, [a], false), 0), Read(0), DataArrives(DataFrame(0, 0, [a, b], false), 0)]
  }

  lemma {:induction false} LateOriginal(z: System, a: byte, b: byte)
    requires z.rcv == Rcv.Init(100) && z.delivered == map[]
    requires DataFrame(0, 0, [a, b], false) in z.net && DataFrame(0, 0, [a], false) in z.net
    ensures var z' := Transport.Exec(z, LateSteps(a, b)); var r := Rcv.StreamOf(z'.rcv, 0);
            && r == RS.Stream(map[0 := RS.Seg([a, b], 0)], 1, None) && DeliveredOf(z', 0) == [a]
            && z'.hist == z.hist
  {
    hide RS.Insert, RS.Read;
    var run := LateSteps(a, b);
    ExecThree(z, run[0], run[1], run[2]);
    var r0, r1 := RS.EMPTY_STREAM, RS.Stream(map[0 := RS.Seg([a], 0)], 0, None);
    InsertAlone(r0, 0, [a], 0);
    GrowsByAll(r0, 0, [a], 0);
    var z1 := Next(z, run[0]);
    assert Rcv.StreamOf(z1.rcv, 0) == r1 && 0 in z1.rcv.streams && z1.rcv.size == 1;
    ReadAlone(r1, RS.Seg([a], 0));
    var r2 := RS.Stream(map[], 1, None);
    var z2 := Next(z1, run[1]);
    assert Rcv.StreamOf(z2.rcv, 0) == r2 && DeliveredOf(z2, 0) == [a] && z2.rcv.size == 0;
    InsertAlone(r2, 0, [a, b], 0);
  }

  lemma {:induction false} GrowsByAll(s: RS.Stream, offset: nat, data: Bytes, now: nat)
    requires s.segments == map[] && s.next < offset + |data|
    ensures RS.Insert(s, offset, data, now).growth == |data|
  {
    assert PrevKey(s.segments, offset).None? && NextKey(s.segments, offset).None?;
  }

  /** There is a run after which every byte written is read or stored at the receiver, and yet no
      continuation whatever delivers the last one. */
  lemma {:induction false} CutPacketsCanStall(a: byte, b: byte, more: seq<Step>)
    ensures var run := CutSteps(a, b) + LateSteps(a, b);
            var z, z' := Reached(100, 100, run), Reached(100, 100, run + more); var r := Rcv.StreamOf(z.rcv, 0);
            && HistOf(z, 0).all == [a, b] && Has(r, 0) && Has(r, 1)
            && DeliveredOf(z', 0) == [a]
  {
    hide Next, Inv;
    var run := CutSteps(a, b) + LateSteps(a, b);
    var z := Reached(100, 100, CutSteps(a, b));
    BothOnTheWire(a, b);
    LateOriginal(z, a, b);
    ExecAppend(Init(100, 100), CutSteps(a, b), LateSteps(a, b));
    var r := Rcv.StreamOf(Reached(100, 100, run).rcv, 0);
    assert 0 in r.segments && 0 < r.next;
    assert InSegment(r.segments, 0, 1);
    StaysBlocked(100, 100, run, more, 0);
  }
}
