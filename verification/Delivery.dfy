/** Whole runs of one receive stream: any order of arriving segments and reads. */
module Delivery {
  import opened Common
  import opened Flight
  import opened Partition
  import opened Ranges
  import opened RcvStream
  import opened Reassembly
  import opened SortedKeys

  datatype Event = Arrive(offset: nat, data: Bytes, now: nat) | Fetch

  datatype State = State(stream: Stream, delivered: Bytes)

  const START := State(EMPTY_STREAM, [])

  ghost function Step(z: State, e: Event): State {
    match e
    case Arrive(offset, data, now) =>
      if data == [] then z else z.(stream := Insert(z.stream, offset, data, now).stream)
    case Fetch =>
      var (s', r) := Read(z.stream);
      State(s', Delivered(z.delivered, r))
  }

  ghost function Exec(z: State, run: seq<Event>): State {
    if run == [] then z else Step(Exec(z, run[..|run| - 1]), run[|run| - 1])
  }

  ghost predicate EventTruthful(e: Event, all: Bytes) {
    e.Arrive? ==> Truthful(Range(e.offset, |e.data|), e.data, all)
  }

  ghost predicate RunTruthful(run: seq<Event>, all: Bytes) {
    forall i :: 0 <= i < |run| ==> EventTruthful(run[i], all)
  }

  /** Whatever ranges arrive, if their bytes are true then what was read is the start of the
      stream, once and in order. */
  lemma {:induction false} DeliversPrefix(run: seq<Event>, all: Bytes)
    requires RunTruthful(run, all)
    ensures var z := Exec(START, run); PrefixInv(z.stream, z.delivered, all)
  {
    if run == [] {
    } else {
      var prior, e := run[..|run| - 1], run[|run| - 1];
      DeliversPrefix(prior, all);
      var z := Exec(START, prior);
      assert EventTruthful(e, all);
      if e.Arrive? {
        InsertTruthful(z.stream, e.offset, e.data, e.now, all);
      } else {
        ReadKeepsPrefix(z.stream, z.delivered, all);
      }
    }
  }

  // ---------- When delivery stops for good ----------

  /** A segment is stored below the read position. */
  ghost predicate Blocked(s: Stream) {
    exists k :: k in s.segments && k < s.next
  }

  /** Reading delivers exactly when the next byte starts a stored segment and nothing is stored
      below it. */
  lemma {:induction false} DeliversIff(s: Stream)
    ensures Read(s).1.Some? <==> s.next in s.segments && !Blocked(s)
  {
  }

  lemma {:induction false} InsertStaysBlocked(s: Stream, offset: nat, data: Bytes, now: nat, all: Bytes)
    requires Blocked(s) && AllTruthful(s.segments, all) && Truthful(Range(offset, |data|), data, all)
    ensures Blocked(Insert(s, offset, data, now).stream)
  {
    var m, o := s.segments, Insert(s, offset, data, now);
    var b :| b in m && b < s.next;
    if offset + |data| > s.next && offset !in m {
      TrimBelowTruthful(m, offset, data, all);
      var t, p := TrimBelow(m, offset, data), PrevKey(m, offset);
      if t.Keep? {
        TrimAboveTruthful(m, offset, t.offset, t.data, all);
        var m' := o.stream.segments;
        if b !in m' {
          assert NextKey(m, offset) == Some(b);
          if t.offset != offset {
            assert p.value in m' && p.value < s.next;
          } else {
            assert offset in m';
          }
        }
      }
    } else if offset in m {
      assert b in o.stream.segments;
    }
  }

  /** Once blocked, a stream delivers nothing more, whatever arrives. */
  lemma {:induction false} BlockedForever(z: State, run: seq<Event>, all: Bytes)
    requires Blocked(z.stream) && AllTruthful(z.stream.segments, all) && RunTruthful(run, all)
    ensures var z' := Exec(z, run);
            && z'.delivered == z.delivered && z'.stream.next == z.stream.next
            && Blocked(z'.stream) && AllTruthful(z'.stream.segments, all)
  {
    if run == [] {
    } else {
      var prior, e := run[..|run| - 1], run[|run| - 1];
      BlockedForever(z, prior, all);
      var z1 := Exec(z, prior);
      assert EventTruthful(e, all);
      if e.Arrive? {
        InsertStaysBlocked(z1.stream, e.offset, e.data, e.now, all);
        InsertTruthful(z1.stream, e.offset, e.data, e.now, all);
      } else {
        DeliversIff(z1.stream);
      }
    }
  }

  /** True bytes that arrive block the stream exactly when their range straddles the read position. */
  lemma {:induction false} InsertBlocksIff(s: Stream, offset: nat, data: Bytes, now: nat, all: Bytes)
    requires !Blocked(s) && AllTruthful(s.segments, all) && Truthful(Range(offset, |data|), data, all)
    ensures Blocked(Insert(s, offset, data, now).stream) <==> offset < s.next < offset + |data|
  {
    hide Truthful, AllTruthful;
    var m, m' := s.segments, Insert(s, offset, data, now).stream.segments;
    if offset + |data| <= s.next || offset in m {
    } else if offset < s.next {
      assert PrevKey(m, offset).None?;
      assert TrimBelow(m, offset, data) == Keep(offset, data);
      TrimAboveTruthful(m, offset, offset, data, all);
      assert offset in m';
    } else {
      TrimBelowTruthful(m, offset, data, all);
      var t := TrimBelow(m, offset, data);
      assert forall k :: k in m' ==> k in m || (t.Keep? && k == t.offset);
    }
  }

  /** A read blocks the stream exactly when another segment starts inside the one delivered. */
  lemma {:induction false} ReadBlocksIff(s: Stream)
    requires Readable(s)
    ensures Blocked(Read(s).0) <==>
            exists k :: k in s.segments && s.next < k < s.next + |s.segments[s.next].data|
  {
    var s' := Read(s).0;
    if k :| k in s.segments && s.next < k < s.next + |s.segments[s.next].data| {
      assert k in s'.segments;
    }
  }

  lemma {:induction false} InsertAlone(s: Stream, offset: nat, data: Bytes, now: nat)
    requires s.segments == map[] && s.next < offset + |data|
    ensures Insert(s, offset, data, now).stream == s.(segments := map[offset := Seg(data, now)])
  {
    assert PrevKey(s.segments, offset).None? && NextKey(s.segments, offset).None?;
    assert s.segments[offset := Seg(data, now)] == map[offset := Seg(data, now)];
  }

  lemma {:induction false} ReadAlone(s: Stream, seg: Seg)
    requires s.segments == map[s.next as int := seg]
    ensures Read(s) == (s.(segments := map[], next := s.next + |seg.data|), Some(seg))
  {
    assert MinKey(s.segments) == Some(s.next);
    assert s.segments - {s.next} == map[];
  }

  lemma {:induction false} ExecMore(z: State, run: seq<Event>, e: Event)
    ensures Exec(z, run + [e]) == Step(Exec(z, run), e)
  {
    assert (run + [e])[..|run|] == run;
  }

  /** A packet is cut after its first bytes, the left part is read, and then the original arrives
      late: from then on the remaining bytes, though stored, are never delivered. */
  lemma {:induction false} LateOriginalStalls(all: Bytes, cut: nat, run: seq<Event>)
    requires 0 < cut < |all| && RunTruthful(run, all)
    ensures var z := Exec(START, [Arrive(0, all[..cut], 0), Fetch, Arrive(0, all, 0)]);
            && (forall p :: 0 <= p < |all| ==> Has(z.stream, p))
            && Exec(z, run).delivered == all[..cut]
  {
    var e1, e2, e3 := Arrive(0, all[..cut], 0), Fetch, Arrive(0, all, 0);
    ExecMore(START, [], e1);
    ExecMore(START, [e1], e2);
    ExecMore(START, [e1, e2], e3);
    assert [] + [e1] == [e1] && [e1] + [e2] == [e1, e2] && [e1, e2] + [e3] == [e1, e2, e3];
    InsertAlone(EMPTY_STREAM, 0, all[..cut], 0);
    var z1 := State(Stream(map[0 := Seg(all[..cut], 0)], 0, None), []);
    assert Exec(START, [e1]) == z1;
    ReadAlone(z1.stream, Seg(all[..cut], 0));
    var z2 := State(Stream(map[], cut, None), all[..cut]);
    assert Exec(START, [e1, e2]) == z2;
    InsertAlone(z2.stream, 0, all, 0);
    var z := Exec(START, [e1, e2, e3]);
    assert 0 in z.stream.segments && 0 < z.stream.next;
    assert AllTruthful(z.stream.segments, all);
    forall p | 0 <= p < |all| ensures Has(z.stream, p) { assert InSegment(z.stream.segments, 0, p); }
    BlockedForever(z, run, all);
  }

  // ---------- Complete delivery when no packet was cut ----------

  ghost predicate EqualOrApart(a: Range, b: Range) {
    a == b || Apart(a, b)
  }

  ghost function Arrived(run: seq<Event>): set<Range> {
    set e | e in run && e.Arrive? && e.data != [] :: Range(e.offset, |e.data|)
  }

  ghost predicate Uncut(rs: set<Range>) {
    && (forall r :: r in rs ==> 0 < r.len)
    && (forall a, b :: a in rs && b in rs ==> EqualOrApart(a, b))
  }

  /** Every range that arrived is read or stored as it came; every segment is one of them and not
      below the read position; everything read came from them. */
  ghost predicate WholeInv(s: Stream, rs: set<Range>) {
    && (forall r :: r in rs ==> r.End() <= s.next || (r.offset in s.segments && |s.segments[r.offset].data| == r.len))
    && (forall k :: k in s.segments ==> s.next <= k && At(k, s.segments[k]) in rs)
    && (forall p :: 0 <= p < s.next ==> ReadFrom(rs, s.next, p))
  }

  ghost predicate ReadFrom(rs: set<Range>, next: nat, p: int) {
    exists r :: r in rs && r.Holds(p) && r.End() <= next
  }

  lemma {:induction false} ReadFromMore(rs: set<Range>, next: nat, more: set<Range>, next': nat, p: int)
    requires ReadFrom(rs, next, p) && next <= next'
    ensures ReadFrom(rs + more, next', p)
  {
    var r :| r in rs && r.Holds(p) && r.End() <= next;
    assert r in rs + more;
  }

  /** A range that starts below the read position has been read. */
  lemma {:induction false} NotBelow(rs: set<Range>, next: nat, r: Range)
    requires Uncut(rs + {r}) && ReadFrom(rs, next, r.offset)
    ensures r.End() <= next
  {
    var a :| a in rs && a.Holds(r.offset) && a.End() <= next;
    assert a in rs + {r} && r in rs + {r};
    assert EqualOrApart(a, r) && 0 < r.len;
  }

  lemma {:induction false} InsertWhole(s: Stream, rs: set<Range>, offset: nat, data: Bytes, now: nat)
    requires WholeInv(s, rs) && Uncut(rs + {Range(offset, |data|)})
    ensures WholeInv(Insert(s, offset, data, now).stream, rs + {Range(offset, |data|)})
  {
    var m, r := s.segments, Range(offset, |data|);
    forall p | 0 <= p < s.next ensures ReadFrom(rs + {r}, s.next, p) { ReadFromMore(rs, s.next, {r}, s.next, p); }
    if r.End() > s.next {
      if offset < s.next { NotBelow(rs, s.next, r); }
      forall k | k in m ensures EqualOrApart(At(k, m[k]), r) && 0 < |m[k].data| { assert At(k, m[k]) in rs + {r}; }
      if offset in m {
        assert At(offset, m[offset]) == r;
      } else {
        InsertFresh(s, offset, data, now);
        assert m[offset := Seg(data, now)][offset] == Seg(data, now);
      }
    }
  }

  lemma {:induction false} InsertFresh(s: Stream, offset: nat, data: Bytes, now: nat)
    requires s.next < offset + |data| && offset !in s.segments && 0 < |data|
    requires forall k :: k in s.segments ==>
               0 <= k && Apart(At(k, s.segments[k]), Range(offset, |data|)) && 0 < |s.segments[k].data|
    ensures Insert(s, offset, data, now).stream == s.(segments := s.segments[offset := Seg(data, now)])
  {
    var m := s.segments;
    var p, n := PrevKey(m, offset), NextKey(m, offset);
    if p.Some? { assert Apart(At(p.value, m[p.value]), Range(offset, |data|)); }
    if n.Some? { assert Apart(At(n.value, m[n.value]), Range(offset, |data|)); }
  }

  lemma {:induction false} ReadWhole(s: Stream, rs: set<Range>)
    requires WholeInv(s, rs) && Uncut(rs)
    ensures WholeInv(Read(s).0, rs)
  {
    if Readable(s) {
      var s', len := Read(s).0, |s.segments[s.next].data|;
      var head := Range(s.next, len);
      assert At(s.next, s.segments[s.next]) == head && head in rs;
      forall p | 0 <= p < s'.next ensures ReadFrom(rs, s'.next, p) {
        if p < s.next {
          ReadFromMore(rs, s.next, {}, s'.next, p);
          assert rs + {} == rs;
        } else {
          assert head.Holds(p);
        }
      }
      forall k | k in s'.segments ensures s'.next <= k { assert EqualOrApart(At(k, s.segments[k]), head); }
    }
  }

  lemma {:induction false} ArrivedAfter(prior: seq<Event>, e: Event)
    ensures Arrived(prior + [e]) ==
            if e.Arrive? && e.data != [] then Arrived(prior) + {Range(e.offset, |e.data|)} else Arrived(prior)
  {
  }

  lemma {:induction false} RunWhole(run: seq<Event>)
    requires Uncut(Arrived(run))
    ensures WholeInv(Exec(START, run).stream, Arrived(run))
  {
    if run == [] {
    } else {
      var prior, e := run[..|run| - 1], run[|run| - 1];
      assert run == prior + [e];
      ArrivedAfter(prior, e);
      RunWhole(prior);
      var z := Exec(START, prior);
      if e.Arrive? && e.data != [] {
        InsertWhole(z.stream, Arrived(prior), e.offset, e.data, e.now);
      } else if e.Fetch? {
        ReadWhole(z.stream, Arrived(prior));
      }
    }
  }

  /** Reads until nothing more is delivered. */
  ghost function Drain(z: State): State
    decreases |z.stream.segments|
  {
    if Readable(z.stream) then
      assert z.stream.next in z.stream.segments;
      assert |z.stream.segments - {z.stream.next}| == |z.stream.segments| - 1;
      Drain(Step(z, Fetch))
    else z
  }

  lemma {:induction false} DrainKeeps(z: State, rs: set<Range>, all: Bytes)
    requires WholeInv(z.stream, rs) && Uncut(rs) && PrefixInv(z.stream, z.delivered, all)
    ensures var z' := Drain(z);
            WholeInv(z'.stream, rs) && PrefixInv(z'.stream, z'.delivered, all) && !Readable(z'.stream)
    decreases |z.stream.segments|
  {
    if !Readable(z.stream) {
    } else {
      assert z.stream.next in z.stream.segments;
      assert |z.stream.segments - {z.stream.next}| == |z.stream.segments| - 1;
      ReadWhole(z.stream, rs);
      ReadKeepsPrefix(z.stream, z.delivered, all);
      DrainKeeps(Step(z, Fetch), rs, all);
    }
  }

  /** g is the first position that no range holds. */
  ghost predicate FirstGap(rs: set<Range>, g: int) {
    && 0 <= g
    && (forall p :: 0 <= p < g ==> Tiled(rs, p))
    && (forall r :: r in rs ==> !r.Holds(g))
  }

  lemma {:induction false} DrainedToGap(s: Stream, rs: set<Range>)
    requires WholeInv(s, rs) && !Readable(s)
    ensures FirstGap(rs, s.next)
  {
    forall p | 0 <= p < s.next ensures Tiled(rs, p) {
      assert ReadFrom(rs, s.next, p);
    }
    assert s.next in s.segments ==> MinKey(s.segments) == Some(s.next);
  }

  /** When the ranges that arrive are pairwise equal or apart, then in any order, with any
      repetitions and any reads in between, draining delivers exactly the bytes up to the first
      gap, and nothing was ever stored below the read position. */
  lemma {:induction false} CompleteDelivery(run: seq<Event>, all: Bytes)
    requires RunTruthful(run, all) && Uncut(Arrived(run))
    ensures !Blocked(Exec(START, run).stream)
    ensures var z := Drain(Exec(START, run));
            z.stream.next <= |all| && z.delivered == all[..z.stream.next] && FirstGap(Arrived(run), z.stream.next)
  {
    RunWhole(run);
    DeliversPrefix(run, all);
    DrainKeeps(Exec(START, run), Arrived(run), all);
    DrainedToGap(Drain(Exec(START, run)).stream, Arrived(run));
  }
}
