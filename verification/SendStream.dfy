/** One stream of the send buffer as a value: bytes waiting to be sent, and packets
    in flight in the order they were first put in flight. */
module SendStream {
  import opened Common
  import opened Messages
  import opened OrderedMap
  import opened Ranges

  datatype SendInfo = SendInfo(data: Bytes, sentTime: nat, sentNr: nat, isPing: bool)

  type InFlight = OMap<Range, SendInfo>

  datatype Stream = Stream(
    inFlight: InFlight,
    queued: Bytes,
    sentOffset: nat,
    pingRequest: bool,
    closeAt: Option<nat>)

  const EMPTY_STREAM := Stream(OMap([], map[]), [], 0, false, None)

  const MAX_RETRY := 5

  /** What a call hands to the network. `NoPacket` is the source's nil, `Panics` a slice out of range. */
  datatype Handout = NoPacket | Packet(data: Bytes, offset: nat, isClose: bool) | RetriesExhausted | Panics

  predicate ReachesClose(s: Stream, end: nat) {
    s.closeAt.Some? && s.closeAt.value <= end
  }

  function Track(s: Stream, offset: nat, data: Bytes, now: nat, isPing: bool): Stream {
    s.(inFlight := Put(s.inFlight, KeyRange(offset, |data|), SendInfo(data, now, 1, isPing)))
  }

  /** `ReadyToSend` on one stream. */
  function Send(s: Stream, maxData: nat, now: nat): (Stream, Handout) {
    if s.pingRequest then
      (Track(s.(pingRequest := false), s.sentOffset, [], now, true), Packet([], 0, false))
    else if s.queued == [] then
      if !ReachesClose(s, s.sentOffset) then (s, NoPacket)
      else (Track(s, s.sentOffset, [], now, false), Packet([], KeyRange(s.sentOffset, 0).offset, true))
    else
      var n := Min(maxData, |s.queued|);
      var s' := Track(s, s.sentOffset, s.queued[..n], now, false)
                .(queued := s.queued[n..], sentOffset := s.sentOffset + n);
      (s', Packet(s.queued[..n], KeyRange(s.sentOffset, n).offset, ReachesClose(s, s.sentOffset + n)))
  }

  const BACKOFF_PCT := 200

  /** The timeout after `sentNr` transmissions, in 64-bit arithmetic. */
  function Backoff(rto: nat, sentNr: nat): nat
    requires 1 <= sentNr
  {
    if sentNr == 1 then rto else Wrap(Backoff(rto, sentNr - 1) * BACKOFF_PCT, U64) / 100
  }

  lemma {:induction false} WrapLess(x: nat, m: nat)
    requires 0 < m <= x
    ensures Wrap(x, m) <= x - m
  {
    if x - m < m {
      assert Wrap(x, m) == x - m;
    } else {
      WrapLess(x - m, m);
    }
  }

  /** One back-off doubles the timeout exactly when it does not wrap; else it falls short of that. */
  lemma {:induction false} BackoffStep(t: nat)
    ensures var t' := Wrap(t * BACKOFF_PCT, U64) / 100;
            if t * BACKOFF_PCT < U64 then t' == 2 * t else t' < 2 * t
  {
    if t * BACKOFF_PCT >= U64 { WrapLess(t * BACKOFF_PCT, U64); }
  }

  function Doubled(t: nat, times: nat): nat {
    if times == 0 then t else 2 * Doubled(t, times - 1)
  }

  /** The timeout is doubled for every earlier retransmission exactly as long as the last step before it
      leaves room for the factor. */
  lemma {:induction false} BackoffDoublesIff(rto: nat, sentNr: nat)
    requires 1 <= sentNr
    ensures Backoff(rto, sentNr) <= Doubled(rto, sentNr - 1)
    ensures Backoff(rto, sentNr) == Doubled(rto, sentNr - 1)
            <==> sentNr == 1 || Doubled(rto, sentNr - 2) * BACKOFF_PCT < U64
  {
    if sentNr == 1 {
    } else {
      BackoffDoublesIff(rto, sentNr - 1);
      BackoffStep(Backoff(rto, sentNr - 1));
    }
  }

  /** Unsigned 64-bit subtraction. */
  function Elapsed(now: nat, sentTime: nat): nat { (now - sentTime) % U64 }

  predicate Expired(info: SendInfo, rto: nat, now: nat)
    requires 1 <= info.sentNr
  {
    Elapsed(now, info.sentTime) > Backoff(rto, info.sentNr)
  }

  function Again(info: SendInfo, now: nat): SendInfo {
    info.(sentTime := now, sentNr := info.sentNr + 1)
  }

  /** There is an oldest packet in flight. */
  predicate HasOldest(s: Stream) {
    s.inFlight.keys != [] && s.inFlight.keys[0] in s.inFlight.vals
  }

  function Oldest(s: Stream): SendInfo
    requires HasOldest(s)
  {
    s.inFlight.vals[s.inFlight.keys[0]]
  }

  function Resend(s: Stream, now: nat): (Stream, Handout)
    requires HasOldest(s)
  {
    var key, info := s.inFlight.keys[0], Oldest(s);
    (s.(inFlight := Put(s.inFlight, key, Again(info, now))),
     Packet(info.data, key.offset, ReachesClose(s, key.offset + Wrap(|info.data|, U16))))
  }

  function LeftInfo(info: SendInfo, cut: nat, now: nat): SendInfo
    requires cut <= |info.data|
  {
    SendInfo(info.data[..cut], now, info.sentNr + 1, false)
  }

  function RightInfo(info: SendInfo, cut: nat): SendInfo
    requires cut <= |info.data|
  {
    info.(data := info.data[cut..])
  }

  /** Cuts the oldest packet: the left part is sent again and tracked as a new packet at
      the end, the right part keeps the place, the time and the count of the whole. */
  function Split(s: Stream, maxData: nat, now: nat): (Stream, Handout)
    requires HasOldest(s) && maxData < |Oldest(s).data|
  {
    var key, info := s.inFlight.keys[0], Oldest(s);
    var right := RightInfo(info, maxData);
    var m := Put(Put(s.inFlight, KeyRange(key.offset, maxData), LeftInfo(info, maxData, now)), key, right);
    (s.(inFlight := Replace(m, key, KeyRange(key.offset + maxData, |right.data|), right)),
     Packet(info.data[..maxData], key.offset, false))
  }

  /** `ReadyToRetransmit` on one stream, from the room left in a datagram. Lengths are compared in 16 bits;
      a cut that is not within the packet is a slice out of range. */
  function Retransmit(s: Stream, maxData: int, rto: nat, now: nat): (Stream, Handout)
  {
    if !HasOldest(s) then (s, NoPacket)
    else
      var key, info := s.inFlight.keys[0], Oldest(s);
      if !(1 <= info.sentNr <= MAX_RETRY) then (s, RetriesExhausted)
      else if !Expired(info, rto, now) then (s, NoPacket)
      else if info.isPing then (s.(inFlight := Remove(s.inFlight, key)), NoPacket)
      else if Wrap(|info.data|, U16) <= Unsigned16(maxData) then Resend(s, now)
      else if 0 <= maxData < |info.data| then Split(s, maxData, now)
      else (s, Panics)
  }

  /** `AcknowledgeRange` on one stream; an unknown range changes nothing. */
  function Acknowledge(s: Stream, offset: nat, len: nat): Stream {
    s.(inFlight := Remove(s.inFlight, KeyRange(offset, len)))
  }

  /** A range that is not in flight, a second acknowledgement for one, changes nothing. */
  lemma NothingToAcknowledge(s: Stream, offset: nat, len: nat)
    requires KeyRange(offset, len) !in s.inFlight.vals
    ensures Acknowledge(s, offset, len) == s
  {
  }

  function Close(s: Stream): Stream {
    if s.closeAt.Some? then s else s.(closeAt := Some(s.sentOffset + |s.queued|))
  }
}
