/** When the receive buffer's integrity checks trip: exactly on a byte that differs from a stored one next to which the
    data go. */
module Integrity {
  import opened Common
  import opened RcvStream
  import opened SetUnion
  import opened SortedKeys

  /** At position p the data that arrive differ from segment k. */
  ghost predicate Conflicts(m: Segments, k: int, offset: int, data: Bytes, p: int)
    requires k in m
  {
    k <= p < k + |m[k].data| && offset <= p < offset + |data| && m[k].data[p - k] != data[p - offset]
  }

  ghost predicate Differs(m: Segments, k: int, offset: int, data: Bytes)
    requires k in m
  {
    exists p :: Conflicts(m, k, offset, data, p)
  }

  lemma {:induction false} DiffersIff(m: Segments, k: int, offset: int, data: Bytes, lo: int, hi: int)
    requires k in m && Max(k, offset) == lo <= hi == Min(k + |m[k].data|, offset + |data|)
    ensures Differs(m, k, offset, data) <==> m[k].data[lo - k..hi - k] != data[lo - offset..hi - offset]
  {
    var a, b := m[k].data[lo - k..hi - k], data[lo - offset..hi - offset];
    if a != b {
      var i :| 0 <= i < hi - lo && a[i] != b[i];
      assert Conflicts(m, k, offset, data, lo + i);
    }
    if Differs(m, k, offset, data) {
      var p :| Conflicts(m, k, offset, data, p);
      assert a[p - lo] != b[p - lo];
    }
  }

  lemma {:induction false} NoOverlap(m: Segments, k: int, offset: int, data: Bytes)
    requires k in m && (k + |m[k].data| <= offset || offset + |data| <= k)
    ensures !Differs(m, k, offset, data)
  {
  }

  /** The segment before covers everything. */
  ghost predicate Covers(m: Segments, offset: int, end: int) {
    var p := PrevKey(m, offset);
    p.Some? && end <= p.value + |m[p.value].data|
  }

  ghost predicate SegmentDiffers(m: Segments, k: Option<int>, offset: int, data: Bytes)
    requires k.Some? ==> k.value in m
  {
    k.Some? && Differs(m, k.value, offset, data)
  }

  lemma {:induction false} ClashIff(m: Segments, offset: int, data: Bytes)
    ensures TrimBelow(m, offset, data).Clash?
            <==> !Covers(m, offset, offset + |data|) && SegmentDiffers(m, PrevKey(m, offset), offset, data)
    ensures TrimBelow(m, offset, data).Covered? ==> Covers(m, offset, offset + |data|)
  {
    var p := PrevKey(m, offset);
    if p.Some? {
      var end := p.value + |m[p.value].data|;
      if end <= offset {
        NoOverlap(m, p.value, offset, data);
      } else if end < offset + |data| {
        DiffersIff(m, p.value, offset, data, offset, end);
        assert m[p.value].data[offset - p.value..] == m[p.value].data[offset - p.value..end - p.value];
      }
    }
  }

  lemma {:induction false} MisfitIff(m: Segments, offset: int, at: int, data: Bytes)
    requires offset <= at <= offset + |data| && forall k :: k in m && offset < k ==> at <= k
    ensures TrimAbove(m, offset, at, data[at - offset..]).Misfit?
            <==> SegmentDiffers(m, NextKey(m, offset), offset, data)
  {
    var k := NextKey(m, offset);
    if k.Some? {
      var n, len, end := k.value, |m[k.value].data|, offset + |data|;
      var rest := data[at - offset..];
      if end <= n {
        NoOverlap(m, n, offset, data);
      } else if end >= n + len {
        DiffersIff(m, n, offset, data, n, n + len);
        assert rest[n - at..n - at + len] == data[n - offset..n + len - offset];
        assert m[n].data[..] == m[n].data;
      } else {
        DiffersIff(m, n, offset, data, n, end);
        assert rest[n - at..] == data[n - offset..end - offset];
        assert m[n].data[..end - n] == m[n].data[n - n..end - n];
      }
    }
  }

  lemma {:induction false} KeptPart(m: Segments, offset: int, data: Bytes)
    requires Disjoint(m) && TrimBelow(m, offset, data).Keep?
    ensures var t := TrimBelow(m, offset, data);
            && offset <= t.offset <= offset + |data| && t.data == data[t.offset - offset..]
            && forall k :: k in m && offset < k ==> t.offset <= k
  {
    assert data[0..] == data;
  }

  lemma {:induction false} PanicsBy(s: Stream, offset: int, data: Bytes, now: nat)
    ensures Insert(s, offset, data, now).status.Panic? <==>
            && s.next < offset + |data| && offset !in s.segments
            && var t := TrimBelow(s.segments, offset, data);
               t.Clash? || (t.Keep? && TrimAbove(s.segments, offset, t.offset, t.data).Misfit?)
  {
    hide TrimBelow, TrimAbove;
  }

  lemma {:induction false} CoveredIff(m: Segments, offset: int, data: Bytes)
    ensures TrimBelow(m, offset, data).Keep? ==> !Covers(m, offset, offset + |data|) || data == []
  {
  }

  /** Whatever arrives at disjoint segments trips a check exactly when it is not read yet, starts where no segment
      starts, is not covered by the segment before, and differs in a byte from that segment or from the next. */
  lemma {:induction false} PanicsIff(s: Stream, offset: nat, data: Bytes, now: nat)
    requires Disjoint(s.segments)
    ensures Insert(s, offset, data, now).status.Panic? <==>
            && s.next < offset + |data| && offset !in s.segments && !Covers(s.segments, offset, offset + |data|)
            && (SegmentDiffers(s.segments, PrevKey(s.segments, offset), offset, data)
                || SegmentDiffers(s.segments, NextKey(s.segments, offset), offset, data))
  {
    hide Insert, TrimAbove, TrimBelow, SegmentDiffers, Covers, Disjoint;
    var m := s.segments;
    PanicsBy(s, offset, data, now);
    ClashIff(m, offset, data);
    CoveredIff(m, offset, data);
    var t := TrimBelow(m, offset, data);
    if t.Keep? {
      KeptPart(m, offset, data);
      MisfitIff(m, offset, t.offset, data);
      if data == [] { NothingDiffers(m, offset); }
    }
  }

  lemma {:induction false} NothingDiffers(m: Segments, offset: int)
    ensures !SegmentDiffers(m, NextKey(m, offset), offset, []) && !SegmentDiffers(m, PrevKey(m, offset), offset, [])
  {
  }
}
