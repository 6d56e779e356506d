/** The receive buffer as the program keeps it: one object per stream, each with its own sorted map of
    segments. Every operation is proved to do to the objects what `RcvState` does to values. */
module ReceiveBuffer {
  import opened Common
  import opened Messages
  import opened Ownership
  import RS = RcvStream
  import Rcv = RcvState
  import SM = SortedMap

  class RcvBuffer {
    const segments: SM.SortedMap<RS.Seg>
    var next: nat
    var closeAt: Option<nat>

    ghost predicate Valid()
      reads this, segments, segments.repr
    {
      segments.Valid()
    }

    ghost function Value(): RS.Stream
      reads this, segments
    {
      RS.Stream(segments.Contents, next, closeAt)
    }

    constructor ()
      ensures Valid() && fresh(segments) && fresh(segments.repr) && Value() == RS.EMPTY_STREAM
    {
      segments := new SM.SortedMap();
      next, closeAt := 0, None;
    }

    /** Stores a segment and says how the buffer grows. */
    method Insert(offset: nat, userData: Bytes, now: nat) returns (growth: int, status: RS.Status)
      requires Valid()
      modifies segments, segments.repr
      ensures Valid() && fresh(segments.repr - old(segments.repr))
      ensures RS.Outcome(Value(), growth, status) == RS.Insert(old(Value()), offset, userData, now)
    {
      hide SM.Drawn, SM.Fits;
      if offset + |userData| <= next {
        return 0, RS.Duplicate;
      }
      var existing := segments.Get(offset);
      if existing.Some? {
        var stored := |existing.value.data|;
        if |userData| <= stored {
          return 0, RS.Duplicate;
        }
        var _ := segments.Remove(offset);
        segments.Put(offset, RS.Seg(userData, now));
        assert (old(segments.Contents) - {offset})[offset := RS.Seg(userData, now)]
            == old(segments.Contents)[offset := RS.Seg(userData, now)];
        return |userData| - stored, RS.Ok;
      }
      var below := TrimBelow(offset, userData);
      if below.Covered? {
        return 0, RS.Duplicate;
      }
      if below.Clash? {
        return 0, RS.Panic;
      }
      var kept, dropped := TrimAbove(offset, below.offset, below.data);
      if kept.None? {
        return -dropped, RS.Panic;
      }
      segments.Put(below.offset, RS.Seg(kept.value, now));
      return |kept.value| - dropped, RS.Ok;
    }

    /** Compares with the segment before, and cuts off what that already holds. */
    method TrimBelow(offset: nat, userData: Bytes) returns (r: RS.Trim)
      requires Valid()
      ensures r == RS.TrimBelow(segments.Contents, offset, userData)
    {
      hide SM.Drawn, SM.Fits;
      var prev := segments.Prev(offset);
      if prev.None? {
        return RS.Keep(offset, userData);
      }
      var (prevOffset, prevData) := prev.value;
      var prevEnd := prevOffset + |prevData.data|;
      if prevEnd <= offset {
        return RS.Keep(offset, userData);
      }
      var overlapLen := prevEnd - offset;
      if overlapLen >= |userData| {
        return RS.Covered;
      }
      if prevData.data[offset - prevOffset..] != userData[..overlapLen] {
        return RS.Clash;
      }
      r := RS.Keep(prevEnd, userData[overlapLen..]);
    }

    /** Compares with the segment behind: drops it when it is covered, else stops where it starts. */
    method TrimAbove(offset: nat, at: int, data: Bytes) returns (kept: Option<Bytes>, dropped: int)
      requires Valid()
      modifies segments, segments.repr
      ensures Valid() && segments.repr == old(segments.repr)
      ensures var fit := RS.TrimAbove(old(segments.Contents), offset, at, data);
              && segments.Contents == fit.segments && dropped == fit.dropped
              && kept == if fit.Fit? then Some(fit.data) else None
    {
      hide SM.Drawn, SM.Fits;
      var behind := segments.Next(offset);
      if behind.None? {
        return Some(data), 0;
      }
      var (nextOffset, nextData) := behind.value;
      var end := at + |data|;
      if end <= nextOffset {
        return Some(data), 0;
      }
      var nextEnd := nextOffset + |nextData.data|;
      var start := nextOffset - at;
      if end >= nextEnd {
        var _ := segments.Remove(nextOffset);
        if start < 0 || data[start..start + |nextData.data|] != nextData.data {
          return None, |nextData.data|;
        }
        return Some(data), |nextData.data|;
      }
      var overlapLen := end - nextOffset;
      if start < 0 || nextData.data[..overlapLen] != data[start..] {
        return None, 0;
      }
      return Some(data[..start]), 0;
    }

    /** Takes the segment at the read position, when that is the lowest stored. */
    method RemoveOldest() returns (r: Option<RS.Seg>)
      requires Valid()
      modifies this, segments, segments.repr
      ensures Valid() && segments.repr == old(segments.repr)
      ensures (Value(), r) == RS.Read(old(Value()))
    {
      hide SM.Drawn, SM.Fits;
      var oldest := segments.Min();
      if oldest.None? {
        return None;
      }
      var (offset, seg) := oldest.value;
      if offset == next {
        var _ := segments.Remove(offset);
        next := offset + |seg.data|;
        return Some(seg);
      }
      r := None;
    }

    method Close(offset: nat)
      requires Valid()
      modifies this
      ensures Valid() && Value() == RS.Close(old(Value()), offset)
    {
      hide SM.Drawn, SM.Fits;
      if closeAt.None? {
        closeAt := Some(offset);
      }
    }
  }

  // ---------- Many streams ----------

  /** The stream lives within the objects `own` and has the value `v`. */
  ghost predicate Stands(b: RcvBuffer, own: set<object>, v: RS.Stream)
    reads own
  {
    && b in own && b.segments in own && b.segments.repr <= own
    && b.Valid() && b.Value() == v
  }

  lemma NewStands(s: RcvBuffer, own: set<object>)
    requires own == {s, s.segments} + s.segments.repr && s.Valid()
    ensures Stands(s, own, s.Value())
  {
  }

  type Owners = View<RS.Stream>

  ghost predicate AllStand(streams: map<nat, RcvBuffer>, w: Owners)
    reads w.repr
  {
    && Separate(streams.Keys, w)
    && (forall sid {:trigger streams[sid]} :: sid in streams ==> Stands(streams[sid], w.owned[sid], w.values[sid]))
  }

  lemma {:induction false} OthersStand(streams: map<nat, RcvBuffer>, w: Owners, sid: nat)
    requires AllStand(streams, w)
    ensures AllStand(streams - {sid}, Others(w, sid))
  {
    hide Stands;
    OthersSeparate(streams.Keys, w, sid);
    var rest := streams - {sid};
    assert rest.Keys == streams.Keys - {sid};
    forall x | x in rest ensures Stands(rest[x], Others(w, sid).owned[x], Others(w, sid).values[x]) {
      assert rest[x] == streams[x];
    }
  }

  lemma {:induction false} StandsWith(streams: map<nat, RcvBuffer>, w: Owners, sid: nat, b: RcvBuffer, own: set<object>,
                                      v: RS.Stream)
    requires AllStand(streams, w) && sid !in streams && Stands(b, own, v) && own !! w.repr
    ensures AllStand(streams[sid := b], With(w, sid, own, v))
  {
    hide Stands;
    WithSeparate(streams.Keys, w, sid, own, v);
    var all := streams[sid := b];
    assert all.Keys == streams.Keys + {sid};
    forall x | x in all ensures Stands(all[x], With(w, sid, own, v).owned[x], With(w, sid, own, v).values[x]) {
      if x != sid { assert all[x] == streams[x]; }
    }
  }

  class ReceiveBuffer {
    var streams: map<nat, RcvBuffer>
    const capacity: nat
    var size: int
    var ackList: seq<Ack>
    ghost var view: Owners

    ghost predicate Valid()
      reads this, view.repr
    {
      this !in view.repr && AllStand(streams, view)
    }

    ghost function State(): Rcv.State
      reads this
    {
      Rcv.State(view.values, capacity, size, ackList)
    }

    constructor (capacity: nat)
      ensures Valid() && fresh(view.repr) && State() == Rcv.Init(capacity)
    {
      this.capacity := capacity;
      streams, size, ackList := map[], 0, [];
      view := View(map[], map[], {});
    }

    lemma SameKeys()
      requires Valid()
      ensures streams.Keys == State().streams.Keys
    {
    }

    /** Records the new value of one stream; the others were not touched. */
    method Record(sid: nat, s: RcvBuffer, n: int, acks: seq<Ack>, ghost own: set<object>)
      requires this !in own && this !in view.repr && AllStand(streams - {sid}, Others(view, sid))
      requires Stands(s, own, s.Value()) && own !! Others(view, sid).repr
      modifies this
      ensures Valid() && view == With(Others(old(view), sid), sid, own, s.Value())
      ensures State() == Rcv.State(old(State()).streams[sid := s.Value()], capacity, n, acks)
    {
      hide Stands, AllStand;
      StandsWith(streams - {sid}, Others(view, sid), sid, s, own, s.Value());
      assert (streams - {sid})[sid := s] == streams[sid := s];
      streams, size, ackList := streams[sid := s], n, acks;
      view := With(Others(view, sid), sid, own, s.Value());
    }

    /** The stream, made when there is none; and what it lives in. */
    method GetOrCreateStream(sid: nat) returns (s: RcvBuffer, ghost own: set<object>)
      requires Valid()
      ensures AllStand(streams - {sid}, Others(view, sid)) && own !! Others(view, sid).repr && this !in own
      ensures Stands(s, own, Rcv.StreamOf(State(), sid))
      ensures if sid in streams then s == streams[sid] && own == view.owned[sid] <= view.repr else fresh(own)
    {
      hide Stands;
      OthersStand(streams, view, sid);
      if sid in streams {
        s, own := streams[sid], view.owned[sid];
      } else {
        s := new RcvBuffer();
        own := {s, s.segments} + s.segments.repr;
        NewStands(s, own);
      }
    }

    method EmptyInsert(sid: nat, offset: nat)
      requires Valid()
      modifies this`ackList
      ensures Valid() && State() == Rcv.EmptyInsert(old(State()), sid, offset)
    {
      hide AllStand;
      ackList := ackList + [Ack(sid, offset, 0, 0)];
    }

    method Insert(sid: nat, offset: nat, now: nat, userData: Bytes) returns (status: RS.Status)
      requires Valid()
      modifies this, view.repr
      ensures Valid() && fresh(view.repr - old(view.repr))
      ensures (State(), status) == Rcv.InsertData(old(State()), sid, offset, userData, now)
    {
      hide AllStand, SM.Drawn, SM.Fits, RS.Insert;
      var s, own := GetOrCreateStream(sid);
      ghost var st, v := State(), s.Value();
      assert v == Rcv.StreamOf(st, sid);
      if size + |userData| > capacity {
        Record(sid, s, size, ackList, own);
        return RS.BufferFull;
      }
      var acks := ackList + [Ack(sid, offset, Wrap(|userData|, U16), 0)];
      var growth;
      growth, status := s.Insert(offset, userData, now);
      Record(sid, s, size + growth, acks, own + s.segments.repr);
    }

    method RemoveOldestInOrder(sid: nat) returns (r: Option<RS.Seg>)
      requires Valid()
      modifies this, view.repr
      ensures Valid() && fresh(view.repr - old(view.repr))
      ensures (State(), r) == Rcv.RemoveOldestInOrder(old(State()), sid)
    {
      hide AllStand, SM.Drawn, SM.Fits, RS.Read;
      SameKeys();
      if sid !in streams {
        return None;
      }
      var s, own := GetOrCreateStream(sid);
      ghost var st, v := State(), s.Value();
      assert v == st.streams[sid];
      r := s.RemoveOldest();
      Record(sid, s, if r.Some? then size - |r.value.data| else size, ackList, own);
    }

    method Close(sid: nat, closeOffset: nat)
      requires Valid()
      modifies this, view.repr
      ensures Valid() && fresh(view.repr - old(view.repr)) && State() == Rcv.CloseStream(old(State()), sid, closeOffset)
    {
      hide AllStand, SM.Drawn, SM.Fits, RS.Close;
      var s, own := GetOrCreateStream(sid);
      s.Close(closeOffset);
      Record(sid, s, size, ackList, own);
    }

    method GetSndAck() returns (ack: Option<Ack>)
      requires Valid()
      modifies this`ackList
      ensures Valid() && (State(), ack) == Rcv.GetSndAck(old(State()))
    {
      hide AllStand;
      if |ackList| == 0 {
        return None;
      }
      ack := Some(ackList[0]);
      ackList := ackList[1..];
    }

    method GetOffsetClosedAt(sid: nat) returns (offset: Option<nat>)
      requires Valid()
      ensures offset == Rcv.StreamOf(State(), sid).closeAt
    {
      if sid !in streams {
        return None;
      }
      assert Stands(streams[sid], view.owned[sid], view.values[sid]);
      offset := streams[sid].closeAt;
    }
  }
}
