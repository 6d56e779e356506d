/** The send buffer as a value: all streams, and one size shared by them. */
module SendState {
  import opened Common
  import opened MapTotals
  import opened Messages
  import opened Ranges
  import opened SendDiscipline
  import opened SendStream

  datatype State = State(streams: map<nat, Stream>, capacity: nat, size: int)

  datatype InsertStatus = InsertOk | SndFull | NoData

  datatype AckStatus = AckOk | AckNoStream | AckDup

  function Init(capacity: nat): State { State(map[], capacity, 0) }

  function StreamOf(st: State, sid: nat): Stream {
    if sid in st.streams then st.streams[sid] else EMPTY_STREAM
  }

  /** How much of `data` the remaining capacity takes. */
  function Accepted(st: State, data: Bytes): Bytes
    requires st.size <= st.capacity
  {
    data[..Min(|data|, st.capacity - st.size)]
  }

  function QueueData(st: State, sid: nat, data: Bytes): (State, nat, InsertStatus)
    requires st.size <= st.capacity
  {
    if data == [] then (st, 0, NoData)
    else if st.capacity == st.size then (st, 0, SndFull)
    else
      var chunk, s := Accepted(st, data), StreamOf(st, sid);
      (st.(streams := st.streams[sid := s.(queued := s.queued + chunk)], size := st.size + |chunk|),
       |chunk|,
       if |chunk| < |data| then SndFull else InsertOk)
  }

  function QueuePing(st: State, sid: nat): State {
    st.(streams := st.streams[sid := StreamOf(st, sid).(pingRequest := true)])
  }

  function ReadyToSend(st: State, sid: nat, t: MsgType, ack: Option<Ack>, mtu: nat, now: nat): (State, Handout)
  {
    if sid !in st.streams then (st, NoPacket)
    else
      var (s', out) := Send(st.streams[sid], Unsigned64(MaxData(t, ack, st.streams[sid].sentOffset, mtu)), now);
      (st.(streams := st.streams[sid := s']), out)
  }

  /** The offset a retransmission would carry. */
  function OldestOffset(s: Stream): nat {
    if s.inFlight.keys == [] then 0 else s.inFlight.keys[0].offset
  }

  function ReadyToRetransmit(st: State, sid: nat, ack: Option<Ack>, mtu: nat, rto: nat, t: MsgType, now: nat)
    : (State, Handout)
  {
    if sid !in st.streams then (st, NoPacket)
    else
      var s := st.streams[sid];
      var (s', out) := Retransmit(s, MaxData(t, ack, OldestOffset(s), mtu), rto, now);
      (st.(streams := st.streams[sid := s']), out)
  }

  function AcknowledgeRange(st: State, ack: Ack): (State, AckStatus, nat) {
    if ack.streamId !in st.streams then (st, AckNoStream, 0)
    else
      var s, k := st.streams[ack.streamId], KeyRange(ack.offset, ack.len);
      if k !in s.inFlight.vals then (st, AckDup, 0)
      else
        var info := s.inFlight.vals[k];
        (st.(streams := st.streams[ack.streamId := Acknowledge(s, ack.offset, ack.len)], size := st.size - |info.data|),
         AckOk, info.sentTime)
  }

  function CloseStream(st: State, sid: nat): State {
    st.(streams := st.streams[sid := Close(StreamOf(st, sid))])
  }

  /** Where unacknowledged data begins, as the source computes it. */
  function OffsetAcked(st: State, sid: nat): nat {
    var s := StreamOf(st, sid);
    if s.inFlight.keys == [] then s.sentOffset else s.inFlight.keys[0].offset
  }

  // ---------- Size accounting over all streams ----------

  ghost function HeldPerStream(streams: map<nat, Stream>): map<nat, nat> {
    map sid | sid in streams :: Held(streams[sid])
  }

  ghost function HeldBytes(st: State): nat {
    Total(HeldPerStream(st.streams))
  }

  /** The size is what all streams hold, and within capacity. */
  ghost predicate Accounted(st: State) {
    st.size == HeldBytes(st) <= st.capacity
  }

  lemma {:induction false} HeldUpdate(st: State, sid: nat, s: Stream, size: int)
    ensures HeldBytes(st.(streams := st.streams[sid := s], size := size))
            == HeldBytes(st) - Held(StreamOf(st, sid)) + Held(s)
  {
    assert HeldPerStream(st.streams[sid := s]) == HeldPerStream(st.streams)[sid := Held(s)];
    TotalUpdate(HeldPerStream(st.streams), sid, Held(s));
    NothingHeld();
  }

  /** Replacing one stream keeps the books when the size moves with what the stream holds. */
  lemma {:induction false} AccountedUpdate(st: State, st': State, sid: nat, s: Stream)
    requires Accounted(st) && st'.streams == st.streams[sid := s] && st'.capacity == st.capacity
    requires st'.size == st.size - Held(StreamOf(st, sid)) + Held(s) <= st.capacity
    ensures Accounted(st')
  {
    HeldUpdate(st, sid, s, st'.size);
    assert HeldBytes(st') == HeldBytes(st.(streams := st.streams[sid := s], size := st'.size));
  }

  /** `QueueData` takes a prefix of the data, as long as capacity allows, and says how much: all of it
      with an ok, less only with a full buffer. */
  lemma {:induction false} QueueTakesPrefix(st: State, sid: nat, data: Bytes)
    requires Accounted(st)
    ensures var (st', n, status) := QueueData(st, sid, data); var s := StreamOf(st, sid);
            && n == Min(|data|, st.capacity - st.size)
            && (status.InsertOk? <==> 0 < n == |data|) && (status.SndFull? <==> n < |data|)
            && Accounted(st')
            && (n == 0 ==> st' == st)
            && (n > 0 ==> st'.streams == st.streams[sid := s.(queued := s.queued + data[..n])])
  {
    var s := StreamOf(st, sid);
    var (st', n, _) := QueueData(st, sid, data);
    if n > 0 { AccountedUpdate(st, st', sid, s.(queued := s.queued + data[..n])); }
  }
}
