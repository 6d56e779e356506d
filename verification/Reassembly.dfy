/** What the receive buffer keeps true of one stream. */
module Reassembly {
  import opened Common
  import opened Flight
  import opened MapTotals
  import opened Ranges
  import opened RcvStream
  import opened SortedKeys

  ghost function At(k: int, seg: Seg): Range {
    Range(if k < 0 then 0 else k, |seg.data|)
  }

  /** Segments start inside the stream and none is empty. */
  ghost predicate Proper(m: Segments) {
    forall k :: k in m ==> 0 <= k && 0 < |m[k].data|
  }

  ghost predicate AllTruthful(m: Segments, all: Bytes) {
    forall k :: k in m ==> 0 <= k && Truthful(At(k, m[k]), m[k].data, all)
  }

  /** Position p has been read or is stored. */
  ghost predicate Has(s: Stream, p: int) {
    p < s.next || Stores(s.segments, p)
  }

  ghost predicate Stores(m: Segments, p: int) {
    exists k :: k in m && InSegment(m, k, p)
  }

  ghost predicate InSegment(m: Segments, k: int, p: int)
    requires k in m
  {
    k <= p < k + |m[k].data|
  }

  ghost function Lengths(m: Segments): map<int, nat> {
    map k | k in m :: |m[k].data|
  }

  /** Bytes stored, counting a byte once for each segment that holds it. */
  ghost function StoredBytes(m: Segments): nat {
    Total(Lengths(m))
  }

  lemma {:induction false} StoredUpdate(m: Segments, k: int, seg: Seg)
    ensures StoredBytes(m[k := seg]) == StoredBytes(m) - (if k in m then |m[k].data| else 0) + |seg.data|
  {
    assert Lengths(m[k := seg]) == Lengths(m)[k := |seg.data|];
    TotalUpdate(Lengths(m), k, |seg.data|);
  }

  lemma {:induction false} StoredRemove(m: Segments, k: int)
    requires k in m
    ensures StoredBytes(m - {k}) == StoredBytes(m) - |m[k].data|
  {
    assert Lengths(m - {k}) == Lengths(m) - {k};
    TotalWithout(Lengths(m), k);
  }

  // ---------- Truthful data: nothing false is ever stored or delivered ----------

  lemma {:induction false} PartTruthful(at: nat, data: Bytes, i: nat, j: nat, all: Bytes)
    requires Truthful(Range(at, |data|), data, all) && i <= j <= |data|
    ensures data[i..j] == all[at + i..at + j]
  {
    assert forall p :: i <= p < j ==> data[p] == all[at + p];
  }

  lemma {:induction false} TrimBelowTruthful(m: Segments, offset: nat, data: Bytes, all: Bytes)
    requires AllTruthful(m, all) && Truthful(Range(offset, |data|), data, all)
    ensures var t := TrimBelow(m, offset, data);
            && !t.Clash?
            && (t.Keep? ==> && 0 <= t.offset && t.offset + |t.data| == offset + |data|
                            && Truthful(Range(t.offset, |t.data|), t.data, all))
  {
    var p := PrevKey(m, offset);
    if p.Some? && offset < p.value + |m[p.value].data| < offset + |data| {
      var prevEnd := p.value + |m[p.value].data|;
      assert m[p.value].data[offset - p.value..] == all[offset..prevEnd];
      assert data[..prevEnd - offset] == all[offset..prevEnd];
      assert data[prevEnd - offset..] == all[prevEnd..offset + |data|];
    }
  }

  lemma {:induction false} TrimAboveTruthful(m: Segments, offset: nat, at: nat, data: Bytes, all: Bytes)
    requires AllTruthful(m, all) && Truthful(Range(at, |data|), data, all) && offset <= at
    ensures var f := TrimAbove(m, offset, at, data);
            && AllTruthful(f.segments, all)
            && (f.Misfit? ==> NextKey(m, offset).Some? && NextKey(m, offset).value < at)
            && (f.Fit? ==> Truthful(Range(at, |f.data|), f.data, all))
  {
    hide NextKey;
    var k := NextKey(m, offset);
    if k.Some? && at <= k.value < at + |data| {
      var n, d, end := k.value, m[k.value].data, at + |data|;
      if end >= n + |d| {
        PartTruthful(at, data, n - at, n - at + |d|, all);
      } else {
        PartTruthful(at, data, n - at, |data|, all);
        PartTruthful(n, d, 0, end - n, all);
        PartTruthful(at, data, 0, n - at, all);
      }
    }
  }

  /** Inserting true bytes, whatever range they have, leaves only true bytes stored. */
  lemma {:induction false} InsertTruthful(s: Stream, offset: nat, data: Bytes, now: nat, all: Bytes)
    requires AllTruthful(s.segments, all) && Truthful(Range(offset, |data|), data, all)
    ensures AllTruthful(Insert(s, offset, data, now).stream.segments, all)
    ensures Insert(s, offset, data, now).stream.next == s.next
  {
    TrimBelowTruthful(s.segments, offset, data, all);
    var t := TrimBelow(s.segments, offset, data);
    if t.Keep? {
      assert offset <= t.offset;
      TrimAboveTruthful(s.segments, offset, t.offset, t.data, all);
    }
  }

  /** What has been read is the start of the stream, byte for byte. */
  ghost predicate PrefixInv(s: Stream, delivered: Bytes, all: Bytes) {
    && s.next <= |all|
    && delivered == all[..s.next]
    && AllTruthful(s.segments, all)
  }

  ghost function Delivered(delivered: Bytes, r: Option<Seg>): Bytes {
    if r.Some? then delivered + r.value.data else delivered
  }

  lemma {:induction false} ReadKeepsPrefix(s: Stream, delivered: Bytes, all: Bytes)
    requires PrefixInv(s, delivered, all)
    ensures PrefixInv(Read(s).0, Delivered(delivered, Read(s).1), all)
  {
    if Readable(s) {
      var d := s.segments[s.next].data;
      assert all[..s.next + |d|] == all[..s.next] + all[s.next..s.next + |d|];
    }
  }

  // ---------- Ranges that do not cross: nothing received is ever lost ----------

  /** No stored segment crosses r. */
  ghost predicate NoCrossing(m: Segments, r: Range) {
    forall k :: k in m ==> NestedOrApart(At(k, m[k]), r)
  }

  /** The incoming range is already read, or inside one stored segment. */
  ghost predicate Known(s: Stream, r: Range) {
    r.End() <= s.next || exists k :: k in s.segments && Within(r, At(k, s.segments[k]))
  }

  /** The two ways `Insert` ends when nothing crosses: nothing new, or the range is stored whole in
      place of at most one segment that it covers. */
  ghost predicate StoredWhole(m: Segments, r: Range, seg: Seg, m': Segments) {
    || m' == m[r.offset := seg]
    || exists n :: n in m && n != r.offset && Within(At(n, m[n]), r) && m' == (m - {n})[r.offset := seg]
  }

  lemma {:induction false} InsertNoCrossing(s: Stream, offset: nat, data: Bytes, now: nat)
    requires Proper(s.segments) && 0 < |data| && NoCrossing(s.segments, Range(offset, |data|))
    requires !Insert(s, offset, data, now).status.Panic?
    ensures var r, o := Range(offset, |data|), Insert(s, offset, data, now);
            && (o.status.Duplicate? ==> o.stream == s && o.growth == 0 && Known(s, r))
            && (o.status.Ok? ==> StoredWhole(s.segments, r, Seg(data, now), o.stream.segments)
                                 && o.stream == s.(segments := o.stream.segments)
                                 && (offset in s.segments ==> |s.segments[offset].data| < |data|))
            && !o.status.BufferFull?
  {
    var m, r := s.segments, Range(offset, |data|);
    if offset + |data| > s.next && offset !in m {
      var p, n := PrevKey(m, offset), NextKey(m, offset);
      if p.Some? { assert NestedOrApart(At(p.value, m[p.value]), r); }
      if n.Some? { assert NestedOrApart(At(n.value, m[n.value]), r); }
      var t := TrimBelow(m, offset, data);
      if t.Covered? {
        assert Within(r, At(p.value, m[p.value]));
      } else {
        assert t == Keep(offset, data);
        if n.Some? && n.value < offset + |data| {
          assert Within(At(n.value, m[n.value]), r);
        }
      }
    } else if offset in m && |data| <= |m[offset].data| {
      assert Within(r, At(offset, m[offset]));
    }
  }

  /** True bytes whose range crosses nothing stored never trip an integrity check. */
  lemma {:induction false} InsertNeverPanics(s: Stream, offset: nat, data: Bytes, now: nat, all: Bytes)
    requires Proper(s.segments) && 0 < |data| && NoCrossing(s.segments, Range(offset, |data|))
    requires AllTruthful(s.segments, all) && Truthful(Range(offset, |data|), data, all)
    ensures !Insert(s, offset, data, now).status.Panic?
  {
    var m := s.segments;
    TrimBelowTruthful(m, offset, data, all);
    var p := PrevKey(m, offset);
    if p.Some? { assert NestedOrApart(At(p.value, m[p.value]), Range(offset, |data|)); }
    var t := TrimBelow(m, offset, data);
    if t.Keep? && offset !in m {
      TrimAboveTruthful(m, offset, t.offset, t.data, all);
    }
  }

  lemma {:induction false} StoredWholeStores(m: Segments, r: Range, seg: Seg, m': Segments)
    requires Proper(m) && 0 < r.len == |seg.data| && StoredWhole(m, r, seg, m')
    requires r.offset in m ==> |m[r.offset].data| < r.len
    ensures Proper(m')
    ensures forall p :: Stores(m', p) <==> Stores(m, p) || r.Holds(p)
  {
    assert m'[r.offset] == seg;
    forall p | Stores(m', p) ensures Stores(m, p) || r.Holds(p) {
      var k :| k in m' && InSegment(m', k, p);
      if k != r.offset { assert k in m && InSegment(m, k, p); }
    }
    forall p | r.Holds(p) ensures Stores(m', p) {
      assert InSegment(m', r.offset, p);
    }
    forall p | Stores(m, p) ensures Stores(m', p) {
      var k :| k in m && InSegment(m, k, p);
      if k in m' && k != r.offset {
        assert InSegment(m', k, p);
      } else {
        assert InSegment(m', r.offset, p);
      }
    }
  }

  /** Without crossings, a segment that is not refused is afterwards read or stored in full, nothing
      stored or read before is lost, and nothing else appears. */
  lemma {:induction false} InsertAddsExactly(s: Stream, offset: nat, data: Bytes, now: nat)
    requires Proper(s.segments) && 0 < |data| && NoCrossing(s.segments, Range(offset, |data|))
    requires !Insert(s, offset, data, now).status.Panic?
    ensures var r, s' := Range(offset, |data|), Insert(s, offset, data, now).stream;
            && Proper(s'.segments) && s'.next == s.next
            && (forall p :: Has(s', p) <==> Has(s, p) || r.Holds(p))
            && (forall k :: k in s'.segments ==>
                  || (k in s.segments && s'.segments[k] == s.segments[k])
                  || (k == offset && s'.segments[k] == Seg(data, now)))
  {
    InsertNoCrossing(s, offset, data, now);
    var r, o := Range(offset, |data|), Insert(s, offset, data, now);
    if o.status.Ok? {
      StoredWholeStores(s.segments, r, Seg(data, now), o.stream.segments);
    } else if r.End() > s.next {
      var k :| k in s.segments && Within(r, At(k, s.segments[k]));
      forall p | r.Holds(p) ensures Stores(s.segments, p) {
        assert InSegment(s.segments, k, p);
      }
    }
  }

  /** Without crossings, the buffer's size follows the bytes stored. */
  lemma {:induction false} InsertGrowth(s: Stream, offset: nat, data: Bytes, now: nat)
    requires Proper(s.segments) && 0 < |data| && NoCrossing(s.segments, Range(offset, |data|))
    requires !Insert(s, offset, data, now).status.Panic?
    ensures var o := Insert(s, offset, data, now);
            o.growth == StoredBytes(o.stream.segments) - StoredBytes(s.segments) && o.growth <= |data|
  {
    var m, o := s.segments, Insert(s, offset, data, now);
    if o.status.Ok? {
      var p, n := PrevKey(m, offset), NextKey(m, offset);
      if p.Some? { assert NestedOrApart(At(p.value, m[p.value]), Range(offset, |data|)); }
      if n.Some? { assert NestedOrApart(At(n.value, m[n.value]), Range(offset, |data|)); }
      if offset in m {
        StoredUpdate(m, offset, Seg(data, now));
      } else if n.Some? && n.value < offset + |data| {
        StoredRemove(m, n.value);
        StoredUpdate(m - {n.value}, offset, Seg(data, now));
      } else {
        StoredUpdate(m, offset, Seg(data, now));
      }
    }
  }

  /** Reading moves bytes from stored to read and loses none. */
  lemma {:induction false} ReadKeepsAll(s: Stream)
    ensures forall p :: Has(s, p) ==> Has(Read(s).0, p)
    ensures Readable(s) ==> s.next in s.segments
    ensures Readable(s) ==> StoredBytes(Read(s).0.segments) == StoredBytes(s.segments) - |s.segments[s.next].data|
    ensures Proper(s.segments) ==> Proper(Read(s).0.segments)
  {
    if Readable(s) {
      var s' := Read(s).0;
      StoredRemove(s.segments, s.next);
      forall p | Has(s, p) ensures Has(s', p) {
        if p >= s'.next {
          var k :| k in s.segments && InSegment(s.segments, k, p);
          assert InSegment(s'.segments, k, p);
        }
      }
    }
  }
}
