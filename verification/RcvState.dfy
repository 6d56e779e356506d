/** The receive buffer as a value: all streams, one size shared by them, and the
    acknowledgements waiting to be sent. */
module RcvState {
  import opened Common
  import opened MapTotals
  import opened Messages
  import opened RcvStream
  import opened Reassembly

  datatype State = State(streams: map<nat, Stream>, capacity: nat, size: int, ackList: seq<Ack>)

  function Init(capacity: nat): State { State(map[], capacity, 0, []) }

  function StreamOf(st: State, sid: nat): Stream {
    if sid in st.streams then st.streams[sid] else EMPTY_STREAM
  }

  function AckFor(sid: nat, offset: nat, len: nat): Ack {
    Ack(sid, offset, Wrap(len, U16), 0)
  }

  function EmptyInsert(st: State, sid: nat, offset: nat): State {
    st.(ackList := st.ackList + [AckFor(sid, offset, 0)])
  }

  /** A refused segment still creates the stream; any other is acknowledged, duplicate or not. */
  ghost function InsertData(st: State, sid: nat, offset: nat, data: Bytes, now: nat): (State, Status) {
    var s := StreamOf(st, sid);
    if st.size + |data| > st.capacity then
      (st.(streams := st.streams[sid := s]), BufferFull)
    else
      var o := Insert(s, offset, data, now);
      (State(st.streams[sid := o.stream], st.capacity, st.size + o.growth,
             st.ackList + [AckFor(sid, offset, |data|)]), o.status)
  }

  ghost function RemoveOldestInOrder(st: State, sid: nat): (State, Option<Seg>) {
    if sid !in st.streams then (st, None)
    else
      var (s', r) := Read(st.streams[sid]);
      (st.(streams := st.streams[sid := s'], size := if r.Some? then st.size - |r.value.data| else st.size), r)
  }

  function CloseStream(st: State, sid: nat, offset: nat): State {
    st.(streams := st.streams[sid := Close(StreamOf(st, sid), offset)])
  }

  function GetSndAck(st: State): (State, Option<Ack>) {
    if st.ackList == [] then (st, None)
    else (st.(ackList := st.ackList[1..]), Some(st.ackList[0]))
  }

  // ---------- Size accounting over all streams ----------

  ghost function StoredPerStream(streams: map<nat, Stream>): map<nat, nat> {
    map sid | sid in streams :: StoredBytes(streams[sid].segments)
  }

  ghost function AllStored(st: State): nat {
    Total(StoredPerStream(st.streams))
  }

  /** The size is what all streams store, and within capacity. */
  ghost predicate Accounted(st: State) {
    st.size == AllStored(st) <= st.capacity
  }

  lemma {:induction false} StoredPerStreamUpdate(streams: map<nat, Stream>, sid: nat, s: Stream)
    ensures Total(StoredPerStream(streams[sid := s])) == Total(StoredPerStream(streams))
            - (if sid in streams then StoredBytes(streams[sid].segments) else 0) + StoredBytes(s.segments)
  {
    assert StoredPerStream(streams[sid := s]) == StoredPerStream(streams)[sid := StoredBytes(s.segments)];
    TotalUpdate(StoredPerStream(streams), sid, StoredBytes(s.segments));
  }

  lemma {:induction false} NothingStored()
    ensures StoredBytes(EMPTY_STREAM.segments) == 0
  {
    assert Lengths(map[]) == map[];
  }

  /** Replacing one stream keeps the books when the size moves with what the stream stores. */
  lemma {:induction false} AccountedUpdate(st: State, st': State, sid: nat, s: Stream)
    requires Accounted(st) && st'.streams == st.streams[sid := s] && st'.capacity == st.capacity
    requires st'.size == st.size - StoredBytes(StreamOf(st, sid).segments) + StoredBytes(s.segments) <= st.capacity
    ensures Accounted(st')
  {
    NothingStored();
    StoredPerStreamUpdate(st.streams, sid, s);
  }
}
