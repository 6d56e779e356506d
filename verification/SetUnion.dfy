/** When `Insert` is set union: from disjoint segments it leaves disjoint segments that hold
    exactly the old bytes and the new ones, and counts the new bytes, if and only if the
    incoming range meets a condition on the segments that start inside it. */
module SetUnion {
  import opened Common
  import opened Flight
  import opened Ranges
  import opened RcvStream
  import opened Reassembly
  import opened SortedKeys

  ghost predicate Disjoint(m: Segments) {
    forall a, b :: a in m && b in m && a < b ==> a + |m[a].data| <= b
  }

  /** The result is the union of what was stored and r, in disjoint segments, and `growth` is
      the number of bytes that were not stored before. */
  ghost predicate IsUnion(m: Segments, r: Range, o: Outcome) {
    && Disjoint(o.stream.segments)
    && (forall p :: Stores(o.stream.segments, p) <==> Stores(m, p) || r.Holds(p))
    && o.growth == |Positions(o.stream.segments)| - |Positions(m)|
  }

  ghost predicate StartsInside(m: Segments, r: Range, k: int) {
    k in m && r.offset < k < r.End()
  }

  /** At most one stored segment starts inside r, none when r replaces a shorter segment at the
      same offset; and when an earlier segment reaches into r exactly up to that start, r covers
      that segment. */
  ghost predicate Clean(m: Segments, r: Range) {
    && (forall a, b :: StartsInside(m, r, a) && StartsInside(m, r, b) ==> a == b)
    && (r.offset in m && |m[r.offset].data| < r.len ==> forall a :: !StartsInside(m, r, a))
    && (forall p, k :: p in m && StartsInside(m, r, k) && p < r.offset && p + |m[p].data| == k
          ==> k + |m[k].data| <= r.End())
  }

  // ---------- Counting positions ----------

  ghost function Span(a: int, n: nat): (r: set<int>)
    ensures forall i :: i in r <==> a <= i < a + n
    ensures |r| == n
  {
    if n == 0 then {} else Span(a, n - 1) + {a + n - 1}
  }

  ghost function Positions(m: Segments): set<int> {
    set k, p | k in m && p in Span(k, |m[k].data|) :: p
  }

  lemma {:induction false} PositionsAre(m: Segments, p: int)
    ensures p in Positions(m) <==> Stores(m, p)
  {
    if Stores(m, p) {
      var k :| k in m && InSegment(m, k, p);
      assert p in Span(k, |m[k].data|);
    }
    if p in Positions(m) {
      var k :| k in m && p in Span(k, |m[k].data|);
      assert InSegment(m, k, p);
    }
  }

  /** Disjoint segments hold as many positions as their lengths add up to. */
  lemma {:induction false} DisjointCounts(m: Segments)
    requires Disjoint(m)
    ensures |Positions(m)| == StoredBytes(m)
    decreases |m|
  {
    if m == map[] {
      assert Lengths(m) == map[];
      assert Positions(m) == {};
    } else {
      var k := Pick(m.Keys);
      DisjointCounts(m - {k});
      StoredRemove(m, k);
      PositionsSplit(m, k);
    }
  }

  lemma {:induction false} PositionsSplit(m: Segments, k: int)
    requires Disjoint(m) && k in m
    ensures |Positions(m)| == |Positions(m - {k})| + |m[k].data|
  {
    var rest, span := m - {k}, Span(k, |m[k].data|);
    forall p ensures p in Positions(m) <==> p in Positions(rest) || p in span
      ensures p in span ==> p !in Positions(rest)
    {
      PositionsAre(m, p);
      PositionsAre(rest, p);
      StoresSplit(m, k, p);
    }
    assert Positions(m) == Positions(rest) + span;
    assert Positions(rest) !! span;
  }

  lemma {:induction false} StoresSplit(m: Segments, k: int, p: int)
    requires k in m
    ensures Stores(m, p) <==> Stores(m - {k}, p) || InSegment(m, k, p)
    ensures Disjoint(m) && InSegment(m, k, p) ==> !Stores(m - {k}, p)
  {
    if Stores(m, p) {
      var j :| j in m && InSegment(m, j, p);
      if j != k { assert InSegment(m - {k}, j, p); }
    }
    if Stores(m - {k}, p) {
      var j :| j in m - {k} && InSegment(m - {k}, j, p);
      assert InSegment(m, j, p);
    }
  }

  // ---------- The condition is sufficient ----------

  /** Where the bytes that no earlier segment holds begin. */
  ghost function Start(m: Segments, offset: int): int {
    match PrevKey(m, offset)
    case None => offset
    case Some(p) => Max(offset, p + |m[p].data|)
  }

  /** Adding one piece that overlaps nothing. */
  lemma {:induction false} AddPiece(m: Segments, at: int, seg: Seg)
    requires Disjoint(m) && at !in m
    requires forall k :: k in m && k < at ==> k + |m[k].data| <= at
    requires forall k :: k in m && at < k ==> at + |seg.data| <= k
    ensures Disjoint(m[at := seg])
    ensures forall p :: Stores(m[at := seg], p) <==> Stores(m, p) || at <= p < at + |seg.data|
    ensures StoredBytes(m[at := seg]) == StoredBytes(m) + |seg.data|
  {
    StoredUpdate(m, at, seg);
    assert m[at := seg] - {at} == m;
    forall p ensures Stores(m[at := seg], p) <==> Stores(m, p) || at <= p < at + |seg.data| {
      StoresSplit(m[at := seg], at, p);
    }
  }

  lemma {:induction false} BelowShape(m: Segments, offset: nat, data: Bytes, all: Bytes)
    requires AllTruthful(m, all) && Truthful(Range(offset, |data|), data, all) && 0 < |data|
    ensures offset <= Start(m, offset)
    ensures TrimBelow(m, offset, data) ==
            if offset + |data| <= Start(m, offset) then Covered
            else Keep(Start(m, offset), data[Start(m, offset) - offset..])
  {
    TrimBelowTruthful(m, offset, data, all);
    assert data[0..] == data;
  }

  lemma {:induction false} AboveShape(m: Segments, offset: nat, at: nat, data: Bytes, all: Bytes)
    requires AllTruthful(m, all) && Truthful(Range(at, |data|), data, all) && offset <= at
    requires NextKey(m, offset).Some? ==> at <= NextKey(m, offset).value
    ensures TrimAbove(m, offset, at, data) ==
            match NextKey(m, offset)
            case None => Fit(m, 0, data)
            case Some(k) =>
              if at + |data| <= k then Fit(m, 0, data)
              else if k + |m[k].data| <= at + |data| then Fit(m - {k}, |m[k].data|, data)
              else Fit(m, 0, data[..k - at])
  {
    TrimAboveTruthful(m, offset, at, data, all);
  }

  /** What an insertion at a new offset does to disjoint segments of true bytes. */
  ghost function Merged(s: Stream, offset: nat, data: Bytes, now: nat): Outcome
    requires Start(s.segments, offset) < offset + |data|
    requires offset <= Start(s.segments, offset)
    requires NextKey(s.segments, offset).Some? ==> Start(s.segments, offset) <= NextKey(s.segments, offset).value
  {
    var m := s.segments;
    var at, end := Start(m, offset), offset + |data|;
    var rest := data[at - offset..];
    match NextKey(m, offset)
    case None => Outcome(s.(segments := m[at := Seg(rest, now)]), end - at, Ok)
    case Some(k) =>
      if end <= k then Outcome(s.(segments := m[at := Seg(rest, now)]), end - at, Ok)
      else if k + |m[k].data| <= end then
        Outcome(s.(segments := (m - {k})[at := Seg(rest, now)]), end - at - |m[k].data|, Ok)
      else Outcome(s.(segments := m[at := Seg(rest[..k - at], now)]), k - at, Ok)
  }

  lemma {:induction false} StartBeforeNext(m: Segments, offset: nat)
    requires Disjoint(m)
    ensures NextKey(m, offset).Some? ==> Start(m, offset) <= NextKey(m, offset).value
  {
  }

  lemma {:induction false} InsertMerges(s: Stream, offset: nat, data: Bytes, now: nat, all: Bytes)
    requires Disjoint(s.segments) && AllTruthful(s.segments, all)
    requires Truthful(Range(offset, |data|), data, all) && 0 < |data|
    requires s.next < offset + |data| && offset !in s.segments
    ensures offset <= Start(s.segments, offset)
    ensures NextKey(s.segments, offset).Some? ==> Start(s.segments, offset) <= NextKey(s.segments, offset).value
    ensures Insert(s, offset, data, now) ==
            if offset + |data| <= Start(s.segments, offset) then Outcome(s, 0, Duplicate)
            else Merged(s, offset, data, now)
  {
    hide TrimBelow, TrimAbove, Start, AllTruthful, Disjoint;
    var m, at := s.segments, Start(s.segments, offset);
    StartBeforeNext(m, offset);
    BelowShape(m, offset, data, all);
    if at < offset + |data| {
      assert data[at - offset..] == all[at..offset + |data|];
      AboveShape(m, offset, at, data[at - offset..], all);
    }
  }

  /** Between the start and the next stored segment there is nothing. */
  lemma {:induction false} StartIsFree(m: Segments, offset: nat)
    requires Disjoint(m) && offset !in m
    ensures forall k :: k in m && k < Start(m, offset) ==> k + |m[k].data| <= Start(m, offset)
    ensures forall k :: k in m && Start(m, offset) <= k ==> offset < k
    ensures forall p :: offset <= p < Start(m, offset) ==> Stores(m, p)
  {
    var q := PrevKey(m, offset);
    if q.Some? {
      forall p | offset <= p < Start(m, offset) ensures Stores(m, p) {
        assert InSegment(m, q.value, p);
      }
    }
  }

  lemma {:induction false} UnionFrom(s: Stream, r: Range, o: Outcome)
    requires Disjoint(s.segments) && Disjoint(o.stream.segments)
    requires forall p :: Stores(o.stream.segments, p) <==> Stores(s.segments, p) || r.Holds(p)
    requires o.growth == StoredBytes(o.stream.segments) - StoredBytes(s.segments)
    ensures IsUnion(s.segments, r, o)
  {
    DisjointCounts(s.segments);
    DisjointCounts(o.stream.segments);
  }

  /** Nothing stored starts inside the range. */
  lemma {:induction false} MergeAlone(s: Stream, offset: nat, data: Bytes, now: nat)
    requires Disjoint(s.segments) && offset !in s.segments
    requires offset <= Start(s.segments, offset) < offset + |data|
    requires NextKey(s.segments, offset).Some? ==> offset + |data| <= NextKey(s.segments, offset).value
    ensures IsUnion(s.segments, Range(offset, |data|), Merged(s, offset, data, now))
  {
    var m, at := s.segments, Start(s.segments, offset);
    var r, seg, o := Range(offset, |data|), Seg(data[at - offset..], now), Merged(s, offset, data, now);
    assert o == Outcome(s.(segments := m[at := seg]), r.End() - at, Ok);
    StartIsFree(m, offset);
    AddPiece(m, at, seg);
    forall p ensures Stores(m[at := seg], p) <==> Stores(m, p) || r.Holds(p) {
      assert Stores(m[at := seg], p) <==> Stores(m, p) || at <= p < r.End();
    }
    UnionFrom(s, r, o);
  }

  /** The one segment that starts inside is covered and dropped. */
  lemma {:induction false} MergeOver(s: Stream, offset: nat, data: Bytes, now: nat)
    requires Disjoint(s.segments) && offset !in s.segments
    requires offset <= Start(s.segments, offset) < offset + |data|
    requires var k, end := NextKey(s.segments, offset), offset + |data|;
             && k.Some? && Start(s.segments, offset) <= k.value < end
             && k.value + |s.segments[k.value].data| <= end
             && forall j :: StartsInside(s.segments, Range(offset, |data|), j) ==> j == k.value
    ensures IsUnion(s.segments, Range(offset, |data|), Merged(s, offset, data, now))
  {
    var m, at, k := s.segments, Start(s.segments, offset), NextKey(s.segments, offset).value;
    var r, seg, o := Range(offset, |data|), Seg(data[at - offset..], now), Merged(s, offset, data, now);
    var m' := (m - {k})[at := seg];
    assert o == Outcome(s.(segments := m'), r.End() - at - |m[k].data|, Ok);
    StartIsFree(m, offset);
    forall j | j in m - {k} && at <= j ensures r.End() <= j {
      assert !StartsInside(m, r, j);
    }
    ReplacePiece(m, k, at, seg);
    forall p ensures Stores(m', p) <==> Stores(m, p) || r.Holds(p) {
      assert Stores(m', p) <==> Stores(m, p) || at <= p < r.End();
    }
    UnionFrom(s, r, o);
  }

  /** Adding one piece in place of a segment that it covers. */
  lemma {:induction false} ReplacePiece(m: Segments, k: int, at: int, seg: Seg)
    requires Disjoint(m) && k in m && at !in m - {k}
    requires at <= k && k + |m[k].data| <= at + |seg.data|
    requires forall j :: j in m && j < at ==> j + |m[j].data| <= at
    requires forall j :: j in m - {k} && at < j ==> at + |seg.data| <= j
    ensures Disjoint((m - {k})[at := seg])
    ensures forall p :: Stores((m - {k})[at := seg], p) <==> Stores(m, p) || at <= p < at + |seg.data|
    ensures StoredBytes((m - {k})[at := seg]) == StoredBytes(m) - |m[k].data| + |seg.data|
  {
    AddPiece(m - {k}, at, seg);
    StoredRemove(m, k);
    forall p ensures Stores((m - {k})[at := seg], p) <==> Stores(m, p) || at <= p < at + |seg.data| {
      StoresSplit(m, k, p);
      assert InSegment(m, k, p) ==> at <= p < at + |seg.data|;
    }
  }

  /** The segment that starts inside reaches beyond the range, which stops where it starts. */
  lemma {:induction false} MergeUnder(s: Stream, offset: nat, data: Bytes, now: nat)
    requires Disjoint(s.segments) && offset !in s.segments
    requires offset <= Start(s.segments, offset) < offset + |data|
    requires var k, end := NextKey(s.segments, offset), offset + |data|;
             && k.Some? && Start(s.segments, offset) < k.value < end
             && end < k.value + |s.segments[k.value].data|
    ensures IsUnion(s.segments, Range(offset, |data|), Merged(s, offset, data, now))
  {
    var m, at, k := s.segments, Start(s.segments, offset), NextKey(s.segments, offset).value;
    var r, seg := Range(offset, |data|), Seg(data[at - offset..][..k - at], now);
    var o := Merged(s, offset, data, now);
    assert o == Outcome(s.(segments := m[at := seg]), k - at, Ok);
    StartIsFree(m, offset);
    AddPiece(m, at, seg);
    forall p ensures Stores(m[at := seg], p) <==> Stores(m, p) || r.Holds(p) {
      if k <= p < r.End() { assert InSegment(m, k, p); }
      assert Stores(m[at := seg], p) <==> Stores(m, p) || at <= p < k;
    }
    UnionFrom(s, r, o);
  }

  /** Inside one stored segment: nothing changes. */
  lemma {:induction false} UnchangedIsUnion(s: Stream, r: Range, k: int)
    requires Disjoint(s.segments) && k in s.segments && k <= r.offset && r.End() <= k + |s.segments[k].data|
    ensures IsUnion(s.segments, r, Outcome(s, 0, Duplicate))
  {
    forall p | r.Holds(p) ensures Stores(s.segments, p) { assert InSegment(s.segments, k, p); }
  }

  /** A longer segment at the same offset, with nothing starting inside it. */
  lemma {:induction false} LongerIsUnion(s: Stream, offset: nat, data: Bytes, now: nat)
    requires Disjoint(s.segments) && offset in s.segments && |s.segments[offset].data| < |data|
    requires forall a :: !StartsInside(s.segments, Range(offset, |data|), a)
    ensures IsUnion(s.segments, Range(offset, |data|),
                    Outcome(s.(segments := s.segments[offset := Seg(data, now)]),
                            |data| - |s.segments[offset].data|, Ok))
  {
    var m, r := s.segments, Range(offset, |data|);
    forall k | k in m - {offset} && offset < k ensures r.End() <= k { assert !StartsInside(m, r, k); }
    ReplacePiece(m, offset, offset, Seg(data, now));
    assert (m - {offset})[offset := Seg(data, now)] == m[offset := Seg(data, now)];
    UnionFrom(s, r, Outcome(s.(segments := m[offset := Seg(data, now)]), |data| - |m[offset].data|, Ok));
  }

  lemma {:induction false} CleanIsUnion(s: Stream, offset: nat, data: Bytes, now: nat, all: Bytes)
    requires Disjoint(s.segments) && AllTruthful(s.segments, all)
    requires Truthful(Range(offset, |data|), data, all) && 0 < |data| && s.next < offset + |data|
    requires Clean(s.segments, Range(offset, |data|))
    ensures IsUnion(s.segments, Range(offset, |data|), Insert(s, offset, data, now))
  {
    hide TrimBelow, TrimAbove, IsUnion, AllTruthful, Truthful, Merged;
    var m, r := s.segments, Range(offset, |data|);
    if offset in m {
      if r.len <= |m[offset].data| {
        UnchangedIsUnion(s, r, offset);
      } else {
        LongerIsUnion(s, offset, data, now);
      }
    } else {
      InsertMerges(s, offset, data, now, all);
      var at, k := Start(m, offset), NextKey(m, offset);
      if r.End() <= at {
        UnchangedIsUnion(s, r, PrevKey(m, offset).value);
      } else if k.None? || r.End() <= k.value {
        MergeAlone(s, offset, data, now);
      } else {
        assert StartsInside(m, r, k.value);
        if k.value + |m[k.value].data| <= r.End() {
          MergeOver(s, offset, data, now);
        } else {
          MergeUnder(s, offset, data, now);
        }
      }
    }
  }

  // ---------- The condition is necessary ----------

  /** A segment stored up to the end of r cannot share it with another that starts inside r. */
  lemma {:induction false} TwoInsideOverlap(m: Segments, at: int, end: int, b: int)
    requires at in m && at + |m[at].data| == end && b in m && at < b < end
    ensures !Disjoint(m)
  {
  }

  lemma {:induction false} TwoStartsNotUnion(s: Stream, offset: nat, data: Bytes, now: nat, a: int, b: int)
    requires Disjoint(s.segments) && offset !in s.segments
    requires offset <= Start(s.segments, offset) < offset + |data|
    requires NextKey(s.segments, offset).Some? ==> Start(s.segments, offset) <= NextKey(s.segments, offset).value
    requires var r := Range(offset, |data|); StartsInside(s.segments, r, a) && StartsInside(s.segments, r, b) && a < b
    ensures !Disjoint(Merged(s, offset, data, now).stream.segments)
  {
    var m := s.segments;
    var k := NextKey(m, offset).value;
    assert k <= a && k + |m[k].data| <= b;
    TwoInsideOverlap(Merged(s, offset, data, now).stream.segments, Start(m, offset), offset + |data|, b);
  }

  lemma {:induction false} EmptyOverwriteNotUnion(s: Stream, offset: nat, data: Bytes, now: nat, p: int, j: int)
    requires Proper(s.segments) && Disjoint(s.segments) && offset !in s.segments
    requires offset <= Start(s.segments, offset) < offset + |data|
    requires NextKey(s.segments, offset).Some? ==> Start(s.segments, offset) <= NextKey(s.segments, offset).value
    requires p in s.segments && StartsInside(s.segments, Range(offset, |data|), j) && p < offset
    requires p + |s.segments[p].data| == j && offset + |data| < j + |s.segments[j].data|
    ensures Stores(s.segments, offset + |data|)
    ensures !Stores(Merged(s, offset, data, now).stream.segments, offset + |data|)
  {
    var m := s.segments;
    assert PrevKey(m, offset) == Some(p) && NextKey(m, offset) == Some(j);
    assert Start(m, offset) == j;
    assert data[j - offset..][..0] == [];
    LostTail(m, j, offset + |data|, now);
  }

  lemma {:induction false} UncleanNewOffset(s: Stream, offset: nat, data: Bytes, now: nat)
    requires Proper(s.segments) && Disjoint(s.segments) && offset !in s.segments
    requires offset <= Start(s.segments, offset) < offset + |data|
    requires NextKey(s.segments, offset).Some? ==> Start(s.segments, offset) <= NextKey(s.segments, offset).value
    requires !Clean(s.segments, Range(offset, |data|))
    ensures !IsUnion(s.segments, Range(offset, |data|), Merged(s, offset, data, now))
  {
    var m, r := s.segments, Range(offset, |data|);
    if a, b :| StartsInside(m, r, a) && StartsInside(m, r, b) && a < b {
      TwoStartsNotUnion(s, offset, data, now, a, b);
    } else {
      var p, j :| p in m && StartsInside(m, r, j) && p < offset && p + |m[p].data| == j && r.End() < j + |m[j].data|;
      EmptyOverwriteNotUnion(s, offset, data, now, p, j);
    }
  }

  /** Overwriting a stored segment with an empty one loses its bytes. */
  lemma {:induction false} LostTail(m: Segments, k: int, p: int, now: nat)
    requires Disjoint(m) && k in m && InSegment(m, k, p)
    ensures Stores(m, p) && !Stores(m[k := Seg([], now)], p)
  {
    StoresSplit(m, k, p);
    StoresSplit(m[k := Seg([], now)], k, p);
    assert m[k := Seg([], now)] - {k} == m - {k};
  }

  lemma {:induction false} UncleanIsNotUnion(s: Stream, offset: nat, data: Bytes, now: nat, all: Bytes)
    requires Proper(s.segments) && Disjoint(s.segments) && AllTruthful(s.segments, all)
    requires Truthful(Range(offset, |data|), data, all) && 0 < |data| && s.next < offset + |data|
    requires !Clean(s.segments, Range(offset, |data|))
    ensures !IsUnion(s.segments, Range(offset, |data|), Insert(s, offset, data, now))
  {
    var m, r := s.segments, Range(offset, |data|);
    var a :| StartsInside(m, r, a);
    if offset in m {
      assert offset + |m[offset].data| <= a;
      TwoInsideOverlap(m[offset := Seg(data, now)], offset, r.End(), a);
    } else {
      InsertMerges(s, offset, data, now, all);
      UncleanNewOffset(s, offset, data, now);
    }
  }

  /** No bytes at all change nothing of what is stored. */
  lemma {:induction false} EmptyIsUnion(s: Stream, offset: nat, now: nat)
    requires Disjoint(s.segments) && s.next < offset
    ensures IsUnion(s.segments, Range(offset, 0), Insert(s, offset, [], now))
  {
    var m, o := s.segments, Insert(s, offset, [], now);
    if offset in m {
    } else {
      var p := PrevKey(m, offset);
      if p.Some? && p.value + |m[p.value].data| > offset {
      } else {
        AddPiece(m, offset, Seg([], now));
        UnionFrom(s, Range(offset, 0), o);
      }
    }
  }

  /** Whether a range joins what is stored: one that was read already is not stored again, so its bytes must
      still be there; any other must be clean. */
  ghost predicate Joins(s: Stream, r: Range) {
    if r.End() <= s.next then forall p :: r.Holds(p) ==> Stores(s.segments, p) else Clean(s.segments, r)
  }

  /** `Insert` of true bytes is set union exactly when the range joins what is stored. */
  lemma {:induction false} InsertIsUnionIffClean(s: Stream, offset: nat, data: Bytes, now: nat, all: Bytes)
    requires Proper(s.segments) && Disjoint(s.segments) && AllTruthful(s.segments, all)
    requires Truthful(Range(offset, |data|), data, all)
    ensures IsUnion(s.segments, Range(offset, |data|), Insert(s, offset, data, now))
            <==> Joins(s, Range(offset, |data|))
  {
    hide TrimBelow, TrimAbove, Truthful, AllTruthful;
    var r := Range(offset, |data|);
    if r.End() <= s.next {
    } else if data == [] {
      EmptyIsUnion(s, offset, now);
    } else if Clean(s.segments, r) {
      CleanIsUnion(s, offset, data, now, all);
    } else {
      UncleanIsNotUnion(s, offset, data, now, all);
    }
  }
}
