/** The send buffer as the program keeps it: one object per stream, each with its own linked map of
    packets in flight. Every operation is proved to do to the objects what `SendState` does to values. */
module SendBuffer {
  import opened Common
  import opened Messages
  import opened Ownership
  import opened Ranges
  import LM = LinkedMap
  import OM = OrderedMap
  import SS = SendStream
  import Snd = SendState

  /** Doubles the timeout once for every earlier retransmission. */
  method Backoff(rto: nat, sentNr: nat) returns (r: Option<nat>)
    ensures r == if 1 <= sentNr <= SS.MAX_RETRY then Some(SS.Backoff(rto, sentNr)) else None
  {
    if sentNr == 0 || sentNr > SS.MAX_RETRY {
      return None;
    }
    var t := rto;
    for i := 1 to sentNr
      invariant t == SS.Backoff(rto, i)
    {
      t := Wrap(t * SS.BACKOFF_PCT, U64) / 100;
    }
    r := Some(t);
  }

  class StreamBuffer {
    const inFlight: LM.LinkedMap<Range, SS.SendInfo>
    var queued: Bytes
    var sentOffset: nat
    var pingRequest: bool
    var closeAt: Option<nat>

    ghost predicate Valid()
      reads this, inFlight, inFlight.repr
    {
      inFlight.Valid()
    }

    ghost function Value(): SS.Stream
      reads this, inFlight
    {
      SS.Stream(inFlight.Contents, queued, sentOffset, pingRequest, closeAt)
    }

    constructor ()
      ensures Valid() && fresh(inFlight) && fresh(inFlight.repr) && Value() == SS.EMPTY_STREAM
    {
      inFlight := new LM.LinkedMap();
      queued, sentOffset, pingRequest, closeAt := [], 0, false, None;
    }

    method Track(offset: nat, data: Bytes, now: nat, isPing: bool)
      requires Valid()
      modifies inFlight, inFlight.repr
      ensures Valid() && fresh(inFlight.repr - old(inFlight.repr))
      ensures Value() == SS.Track(old(Value()), offset, data, now, isPing)
    {
      hide LM.Linked, LM.Holds, LM.Indexed;
      inFlight.Put(KeyRange(offset, |data|), SS.SendInfo(data, now, 1, isPing));
    }

    method Send(t: MsgType, ack: Option<Ack>, mtu: nat, now: nat) returns (out: SS.Handout)
      requires Valid()
      modifies this, inFlight, inFlight.repr
      ensures Valid() && fresh(inFlight.repr - old(inFlight.repr))
      ensures (Value(), out) == SS.Send(old(Value()), Unsigned64(MaxData(t, ack, old(sentOffset), mtu)), now)
    {
      hide LM.Linked, LM.Holds, LM.Indexed;
      if pingRequest {
        pingRequest := false;
        Track(sentOffset, [], now, true);
        return SS.Packet([], 0, false);
      }
      if |queued| == 0 {
        if closeAt.None? || sentOffset < closeAt.value {
          return SS.NoPacket;
        }
        Track(sentOffset, [], now, false);
        return SS.Packet([], KeyRange(sentOffset, 0).offset, true);
      }
      var maxData := 0;
      if !t.InitSnd? {
        maxData := mtu - CryptoOverhead(t, ack, sentOffset);
      }
      out := SendData(Unsigned64(maxData), now);
    }

    /** Cuts a packet off the queue and puts it in flight. */
    method SendData(maxData: nat, now: nat) returns (out: SS.Handout)
      requires Valid() && queued != [] && !pingRequest
      modifies this, inFlight, inFlight.repr
      ensures Valid() && fresh(inFlight.repr - old(inFlight.repr))
      ensures (Value(), out) == SS.Send(old(Value()), maxData, now)
    {
      hide LM.Linked, LM.Holds, LM.Indexed;
      var length := Min(maxData, |queued|);
      var packet, offset := queued[..length], KeyRange(sentOffset, length).offset;
      Track(sentOffset, packet, now, false);
      Advance(length);
      out := SS.Packet(packet, offset, closeAt.Some? && sentOffset >= closeAt.value);
    }

    method Advance(length: nat)
      requires Valid() && length <= |queued|
      modifies this
      ensures Valid()
      ensures Value() == old(Value()).(queued := old(queued)[length..], sentOffset := old(sentOffset) + length)
    {
      hide LM.Linked, LM.Holds, LM.Indexed;
      queued := queued[length..];
      sentOffset := sentOffset + length;
    }

    method Retransmit(t: MsgType, ack: Option<Ack>, mtu: nat, rto: nat, now: nat) returns (out: SS.Handout)
      requires Valid()
      modifies inFlight, inFlight.repr
      ensures Valid() && fresh(inFlight.repr - old(inFlight.repr))
      ensures (Value(), out)
              == SS.Retransmit(old(Value()), MaxData(t, ack, old(Snd.OldestOffset(Value())), mtu), rto, now)
    {
      hide LM.Linked, LM.Holds, LM.Indexed, SS.Resend, SS.Split, SS.Backoff, OM.Remove, CryptoOverhead;
      var oldest := inFlight.First();
      if oldest.None? {
        return SS.NoPacket;
      }
      var (key, info) := oldest.value;
      var timeout := Backoff(rto, info.sentNr);
      if timeout.None? {
        return SS.RetriesExhausted;
      }
      if SS.Elapsed(now, info.sentTime) <= timeout.value {
        return SS.NoPacket;
      }
      if info.isPing {
        var _ := inFlight.Remove(key);
        return SS.NoPacket;
      }
      var maxData := 0;
      if !t.InitSnd? {
        maxData := mtu - CryptoOverhead(t, ack, key.offset);
      }
      if Wrap(|info.data|, U16) <= Unsigned16(maxData) {
        out := Resend(key, info, now);
      } else if 0 <= maxData < |info.data| {
        out := Split(key, info, maxData, now);
      } else {
        out := SS.Panics;
      }
    }

    method Resend(key: Range, info: SS.SendInfo, now: nat) returns (out: SS.Handout)
      requires Valid() && SS.HasOldest(Value()) && key == Value().inFlight.keys[0] && info == SS.Oldest(Value())
      modifies inFlight, inFlight.repr
      ensures Valid() && fresh(inFlight.repr - old(inFlight.repr))
      ensures (Value(), out) == SS.Resend(old(Value()), now)
    {
      hide LM.Linked, LM.Holds, LM.Indexed;
      inFlight.Put(key, info.(sentTime := now, sentNr := info.sentNr + 1));
      var end := key.offset + Wrap(|info.data|, U16);
      out := SS.Packet(info.data, key.offset, closeAt.Some? && end >= closeAt.value);
    }

    /** Tracks the left part of a packet at the end, and the right part in the place of the whole. */
    method MoveParts(key: Range, leftKey: Range, left: SS.SendInfo, rightKey: Range, right: SS.SendInfo)
      requires Valid()
      modifies inFlight, inFlight.repr
      ensures Valid() && fresh(inFlight.repr - old(inFlight.repr))
      ensures inFlight.Contents
           == OM.Replace(OM.Put(OM.Put(old(inFlight.Contents), leftKey, left), key, right), key, rightKey, right)
    {
      hide LM.Linked, LM.Holds, LM.Indexed;
      inFlight.Put(leftKey, left);
      inFlight.Put(key, right);
      var _ := inFlight.Replace(key, rightKey, right);
    }

    method Split(key: Range, info: SS.SendInfo, maxData: nat, now: nat) returns (out: SS.Handout)
      requires Valid() && SS.HasOldest(Value()) && key == Value().inFlight.keys[0] && info == SS.Oldest(Value())
      requires maxData < |info.data|
      modifies inFlight, inFlight.repr
      ensures Valid() && fresh(inFlight.repr - old(inFlight.repr))
      ensures (Value(), out) == SS.Split(old(Value()), maxData, now)
    {
      hide LM.Linked, LM.Holds, LM.Indexed;
      var left, right := info.data[..maxData], info.data[maxData..];
      var leftKey, rightKey := KeyRange(key.offset, maxData), KeyRange(key.offset + maxData, |right|);
      var leftInfo, rest := SS.SendInfo(left, now, info.sentNr + 1, false), info.(data := right);
      assert leftInfo == SS.LeftInfo(info, maxData, now) && rest == SS.RightInfo(info, maxData);
      MoveParts(key, leftKey, leftInfo, rightKey, rest);
      out := SS.Packet(left, key.offset, false);
    }

    method Acknowledge(offset: nat, len: nat) returns (r: Option<SS.SendInfo>)
      requires Valid()
      modifies inFlight, inFlight.repr
      ensures Valid() && inFlight.repr == old(inFlight.repr) && Value() == SS.Acknowledge(old(Value()), offset, len)
      ensures var k := KeyRange(offset, len);
              r == if k in old(inFlight.Contents).vals then Some(old(inFlight.Contents).vals[k]) else None
    {
      hide LM.Linked, LM.Holds, LM.Indexed;
      r := inFlight.Remove(KeyRange(offset, len));
    }

    method Enqueue(chunk: Bytes)
      requires Valid()
      modifies this
      ensures Valid() && Value() == old(Value()).(queued := old(queued) + chunk)
    {
      hide LM.Linked, LM.Holds, LM.Indexed;
      queued := queued + chunk;
    }

    method RequestPing()
      requires Valid()
      modifies this
      ensures Valid() && Value() == old(Value()).(pingRequest := true)
    {
      hide LM.Linked, LM.Holds, LM.Indexed;
      pingRequest := true;
    }

    method Close()
      requires Valid()
      modifies this
      ensures Valid() && Value() == SS.Close(old(Value()))
    {
      hide LM.Linked, LM.Holds, LM.Indexed;
      if closeAt.None? {
        closeAt := Some(sentOffset + |queued|);
      }
    }

    method OffsetAcked() returns (offset: nat)
      requires Valid()
      ensures offset == if Value().inFlight.keys == [] then sentOffset else Value().inFlight.keys[0].offset
    {
      var oldest := inFlight.First();
      if oldest.Some? {
        return oldest.value.0.offset;
      }
      offset := sentOffset;
    }
  }

  // ---------- Many streams ----------

  /** The stream lives within the objects `own` and has the value `v`. */
  ghost predicate Stands(b: StreamBuffer, own: set<object>, v: SS.Stream)
    reads own
  {
    && b in own && b.inFlight in own && b.inFlight.repr <= own
    && b.Valid() && b.Value() == v
  }

  type Owners = View<SS.Stream>

  ghost predicate AllStand(streams: map<nat, StreamBuffer>, w: Owners)
    reads w.repr
  {
    && Separate(streams.Keys, w)
    && (forall sid {:trigger streams[sid]} :: sid in streams ==> Stands(streams[sid], w.owned[sid], w.values[sid]))
  }

  lemma {:induction false} OthersStand(streams: map<nat, StreamBuffer>, w: Owners, sid: nat)
    requires AllStand(streams, w)
    ensures AllStand(streams - {sid}, Others(w, sid))
  {
    hide Stands;
    OthersSeparate(streams.Keys, w, sid);
    var rest := streams - {sid};
    assert rest.Keys == streams.Keys - {sid};
    forall x | x in rest ensures Stands(rest[x], Others(w, sid).owned[x], Others(w, sid).values[x]) {
      assert rest[x] == streams[x];
    }
  }

  lemma {:induction false} StandsWith(streams: map<nat, StreamBuffer>, w: Owners, sid: nat,
                                      b: StreamBuffer, own: set<object>, v: SS.Stream)
    requires AllStand(streams, w) && sid !in streams && Stands(b, own, v) && own !! w.repr
    ensures AllStand(streams[sid := b], With(w, sid, own, v))
  {
    hide Stands;
    WithSeparate(streams.Keys, w, sid, own, v);
    var all := streams[sid := b];
    assert all.Keys == streams.Keys + {sid};
    forall x | x in all ensures Stands(all[x], With(w, sid, own, v).owned[x], With(w, sid, own, v).values[x]) {
      if x != sid { assert all[x] == streams[x]; }
    }
  }

  class SendBuffer {
    var streams: map<nat, StreamBuffer>
    const capacity: nat
    var size: int
    ghost var view: Owners

    ghost predicate Valid()
      reads this, view.repr
    {
      this !in view.repr && AllStand(streams, view) && size <= capacity
    }

    ghost function State(): Snd.State
      reads this
    {
      Snd.State(view.values, capacity, size)
    }

    constructor (capacity: nat)
      ensures Valid() && fresh(view.repr) && State() == Snd.Init(capacity)
    {
      this.capacity := capacity;
      streams, size := map[], 0;
      view := View(map[], map[], {});
    }

    lemma SameKeys()
      requires Valid()
      ensures streams.Keys == State().streams.Keys
    {
    }

    /** Records the new value of one stream; the others were not touched. */
    method Record(sid: nat, s: StreamBuffer, n: int, ghost own: set<object>)
      requires this !in own && this !in view.repr && AllStand(streams - {sid}, Others(view, sid)) && n <= capacity
      requires Stands(s, own, s.Value()) && own !! Others(view, sid).repr
      modifies this
      ensures Valid() && view == With(Others(old(view), sid), sid, own, s.Value()) && size == n
      ensures State() == old(State()).(streams := old(State()).streams[sid := s.Value()], size := n)
    {
      hide Stands, AllStand;
      StandsWith(streams - {sid}, Others(view, sid), sid, s, own, s.Value());
      assert (streams - {sid})[sid := s] == streams[sid := s];
      streams, size := streams[sid := s], n;
      view := With(Others(view, sid), sid, own, s.Value());
    }

    /** The stream, made when there is none; and what it lives in. */
    method GetOrCreateStream(sid: nat) returns (s: StreamBuffer, ghost own: set<object>)
      requires Valid()
      ensures AllStand(streams - {sid}, Others(view, sid)) && own !! Others(view, sid).repr && this !in own
      ensures Stands(s, own, Snd.StreamOf(State(), sid))
      ensures if sid in streams then s == streams[sid] && own == view.owned[sid] <= view.repr else fresh(own)
    {
      hide Stands;
      OthersStand(streams, view, sid);
      if sid in streams {
        s, own := streams[sid], view.owned[sid];
      } else {
        s := new StreamBuffer();
        own := {s, s.inFlight} + s.inFlight.repr;
        NewStands(s, own);
      }
    }

    method QueueData(sid: nat, userData: Bytes) returns (n: nat, status: Snd.InsertStatus)
      requires Valid()
      modifies this, view.repr
      ensures Valid() && fresh(view.repr - old(view.repr))
      ensures (State(), n, status) == Snd.QueueData(old(State()), sid, userData)
    {
      hide AllStand, LM.Linked, LM.Holds, LM.Indexed;
      if |userData| <= 0 {
        return 0, Snd.NoData;
      }
      var remaining := capacity - size;
      if remaining == 0 {
        return 0, Snd.SndFull;
      }
      var chunk := userData;
      if |userData| > remaining {
        chunk := userData[..remaining];
        status := Snd.SndFull;
      } else {
        status := Snd.InsertOk;
      }
      n := |chunk|;
      assert chunk == Snd.Accepted(State(), userData);
      var s, own := GetOrCreateStream(sid);
      s.Enqueue(chunk);
      Record(sid, s, size + n, own);
    }

    method QueuePing(sid: nat)
      requires Valid()
      modifies this, view.repr
      ensures Valid() && fresh(view.repr - old(view.repr)) && State() == Snd.QueuePing(old(State()), sid)
    {
      hide AllStand, LM.Linked, LM.Holds, LM.Indexed;
      var s, own := GetOrCreateStream(sid);
      s.RequestPing();
      Record(sid, s, size, own);
    }

    method Close(sid: nat)
      requires Valid()
      modifies this, view.repr
      ensures Valid() && fresh(view.repr - old(view.repr)) && State() == Snd.CloseStream(old(State()), sid)
    {
      hide AllStand, LM.Linked, LM.Holds, LM.Indexed, SS.Close;
      var s, own := GetOrCreateStream(sid);
      s.Close();
      Record(sid, s, size, own);
    }

    method ReadyToSend(sid: nat, t: MsgType, ack: Option<Ack>, mtu: nat, now: nat) returns (out: SS.Handout)
      requires Valid()
      modifies this, view.repr
      ensures Valid() && fresh(view.repr - old(view.repr))
      ensures (State(), out) == Snd.ReadyToSend(old(State()), sid, t, ack, mtu, now)
    {
      hide AllStand, LM.Linked, LM.Holds, LM.Indexed, SS.Send;
      SameKeys();
      if sid !in streams {
        return SS.NoPacket;
      }
      var s, own := GetOrCreateStream(sid);
      ghost var st, v := State(), s.Value();
      assert v == st.streams[sid] && v.sentOffset == s.sentOffset;
      out := s.Send(t, ack, mtu, now);
      Record(sid, s, size, own + s.inFlight.repr);
      assert State() == st.(streams := st.streams[sid := s.Value()]);
    }

    method ReadyToRetransmit(sid: nat, ack: Option<Ack>, mtu: nat, rto: nat, t: MsgType, now: nat)
      returns (out: SS.Handout)
      requires Valid()
      modifies this, view.repr
      ensures Valid() && fresh(view.repr - old(view.repr))
      ensures (State(), out) == Snd.ReadyToRetransmit(old(State()), sid, ack, mtu, rto, t, now)
    {
      hide AllStand, LM.Linked, LM.Holds, LM.Indexed, SS.Retransmit, Snd.OldestOffset;
      SameKeys();
      if sid !in streams {
        return SS.NoPacket;
      }
      var s, own := GetOrCreateStream(sid);
      ghost var st, v := State(), s.Value();
      assert v == st.streams[sid];
      out := s.Retransmit(t, ack, mtu, rto, now);
      Record(sid, s, size, own + s.inFlight.repr);
      assert State() == st.(streams := st.streams[sid := s.Value()]);
    }

    method AcknowledgeRange(ack: Ack) returns (status: Snd.AckStatus, sentTime: nat)
      requires Valid()
      modifies this, view.repr
      ensures Valid() && fresh(view.repr - old(view.repr))
      ensures (State(), status, sentTime) == Snd.AcknowledgeRange(old(State()), ack)
    {
      hide AllStand, LM.Linked, LM.Holds, LM.Indexed, SS.Acknowledge;
      SameKeys();
      if ack.streamId !in streams {
        return Snd.AckNoStream, 0;
      }
      var s, own := GetOrCreateStream(ack.streamId);
      ghost var st, v := State(), s.Value();
      assert v == st.streams[ack.streamId];
      var info := s.Acknowledge(ack.offset, ack.len);
      if info.None? {
        SS.NothingToAcknowledge(v, ack.offset, ack.len);
        Record(ack.streamId, s, size, own);
        assert st.streams[ack.streamId := v] == st.streams;
        return Snd.AckDup, 0;
      }
      Record(ack.streamId, s, size - |info.value.data|, own);
      return Snd.AckOk, info.value.sentTime;
    }

    method GetOffsetAcked(sid: nat) returns (offset: nat)
      requires Valid()
      ensures offset == Snd.OffsetAcked(State(), sid)
    {
      if sid !in streams {
        return 0;
      }
      assert Stands(streams[sid], view.owned[sid], view.values[sid]);
      offset := streams[sid].OffsetAcked();
    }

    method GetOffsetClosedAt(sid: nat) returns (offset: Option<nat>)
      requires Valid()
      ensures offset == Snd.StreamOf(State(), sid).closeAt
    {
      if sid !in streams {
        return None;
      }
      assert Stands(streams[sid], view.owned[sid], view.values[sid]);
      offset := streams[sid].closeAt;
    }
  }

  lemma NewStands(s: StreamBuffer, own: set<object>)
    requires own == {s, s.inFlight} + s.inFlight.repr && s.Valid()
    ensures Stands(s, own, s.Value())
  {
  }
}
