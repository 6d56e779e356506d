/** Every operation of the send buffer keeps the discipline of `Flight` on its stream. */
module SendDiscipline {
  import opened Common
  import opened Flight
  import opened OrderedMap
  import opened Partition
  import opened Ranges
  import opened SendStream

  /** The queue is the unsent rest of the stream, and a closed stream ends at its end. */
  ghost predicate QueueOk(s: Stream, all: Bytes) {
    && |all| < U48
    && |all| == s.sentOffset + |s.queued|
    && all[s.sentOffset..] == s.queued
    && (s.closeAt.Some? ==> s.closeAt.value == |all|)
  }

  ghost predicate StreamInv(s: Stream, h: History) {
    && WellFormed(s.inFlight)
    && QueueOk(s, h.all)
    && FlightInv(s.inFlight.vals, s.sentOffset, h)
  }

  /** Bytes the buffer holds for a stream. */
  ghost function Held(s: Stream): nat {
    FlightBytes(s.inFlight.vals) + |s.queued|
  }

  ghost function Logged(h: History, out: Handout): History {
    if out.Packet? && out.data != [] then h.(log := h.log + [Range(out.offset, |out.data|)]) else h
  }

  /** A handed-out packet carries the stream's own bytes, and is marked as the last one
      only when it ends where the closed stream ends. */
  ghost predicate HandoutOk(s: Stream, all: Bytes, out: Handout) {
    && (out.Packet? && out.data != [] ==> Truthful(Range(out.offset, |out.data|), out.data, all))
    && (out.Packet? && out.isClose ==> s.closeAt.Some? && out.offset + |out.data| == |all|)
    && (out.Packet? && out.data != [] && s.closeAt.Some? && out.offset + |out.data| == |all| ==> out.isClose)
  }

  lemma {:induction false} NothingHeld()
    ensures Held(EMPTY_STREAM) == 0
  {
    assert Sizes(map[]) == map[];
  }

  lemma {:induction false} EmptyStreamInv()
    ensures StreamInv(EMPTY_STREAM, History([], [], {}))
  {
    assert Allowances(map[]) == map[];
    assert Live(map[]) == {};
  }

  lemma {:induction false} QueueKeeps(s: Stream, h: History, chunk: Bytes)
    requires StreamInv(s, h) && s.closeAt.None? && |h.all| + |chunk| < U48
    ensures StreamInv(s.(queued := s.queued + chunk), h.(all := h.all + chunk))
    ensures Held(s.(queued := s.queued + chunk)) == Held(s) + |chunk|
  {
    FlightGrow(s.inFlight.vals, s.sentOffset, h, chunk);
    assert (h.all + chunk)[s.sentOffset..] == h.all[s.sentOffset..] + chunk;
  }

  lemma {:induction false} MarkKeeps(s: Stream, h: History, now: nat, isPing: bool)
    requires StreamInv(s, h)
    ensures StreamInv(Track(s, s.sentOffset, [], now, isPing), h)
    ensures Held(Track(s, s.sentOffset, [], now, isPing)) == Held(s)
  {
    var k, info := Range(s.sentOffset, 0), SendInfo([], now, 1, isPing);
    PutWellFormed(s.inFlight, k, info);
    assert PacketOk(k, info, s.sentOffset, h.all);
    FlightMark(s.inFlight.vals, s.sentOffset, h, k, info);
  }

  /** What `ReadyToSend` promises of its outcome. */
  ghost predicate SendOk(s: Stream, h: History, maxData: nat, s': Stream, out: Handout) {
    && StreamInv(s', Logged(h, out)) && Held(s') == Held(s) && s'.closeAt == s.closeAt
    && HandoutOk(s, h.all, out) && !out.RetriesExhausted? && !out.Panics?
    && (out.Packet? ==> |out.data| <= maxData)
    && (out.Packet? && out.data != [] ==> out.offset == s.sentOffset)
  }

  /** `ReadyToSend` keeps the discipline, hands out at most `maxData` bytes, and those are the
      stream's next ones. */
  lemma {:induction false} SendKeeps(s: Stream, h: History, maxData: nat, now: nat)
    requires StreamInv(s, h) && maxData < U16
    ensures SendOk(s, h, maxData, Send(s, maxData, now).0, Send(s, maxData, now).1)
  {
    if s.pingRequest || s.queued == [] || maxData == 0 {
      SendEmptyKeeps(s, h, maxData, now);
    } else {
      SendDataKeeps(s, h, maxData, now);
    }
  }

  lemma {:induction false} SendEmptyKeeps(s: Stream, h: History, maxData: nat, now: nat)
    requires StreamInv(s, h) && maxData < U16
    requires s.pingRequest || s.queued == [] || maxData == 0
    ensures SendOk(s, h, maxData, Send(s, maxData, now).0, Send(s, maxData, now).1)
  {
    hide FlightInv, WellFormed, FlightBytes, Truthful;
    if s.pingRequest {
      MarkKeeps(s.(pingRequest := false), h, now, true);
    } else {
      MarkKeeps(s, h, now, false);
      assert s.queued[..0] == [] && s.queued[0..] == s.queued;
    }
  }

  lemma {:induction false} QueuedIsTruthful(all: Bytes, queued: Bytes, offset: nat, n: nat)
    requires |all| == offset + |queued| && all[offset..] == queued && n <= |queued|
    ensures Truthful(Range(offset, n), queued[..n], all)
    ensures all[offset + n..] == queued[n..]
  {
    assert all[offset..offset + n] == all[offset..][..n];
    assert all[offset + n..] == all[offset..][n..];
  }

  /** What sending new data does to a stream. */
  lemma {:induction false} SendDataShape(s: Stream, maxData: nat, now: nat)
    requires s.sentOffset < U48 && maxData < U16 && !s.pingRequest && s.queued != []
    ensures var n := Min(maxData, |s.queued|); var (s', out) := Send(s, maxData, now);
            && s'.inFlight == Put(s.inFlight, Range(s.sentOffset, n), SendInfo(s.queued[..n], now, 1, false))
            && s'.queued == s.queued[n..] && s'.sentOffset == s.sentOffset + n && s'.closeAt == s.closeAt
            && out == Packet(s.queued[..n], s.sentOffset, ReachesClose(s, s.sentOffset + n))
  {
  }

  lemma {:induction false} SendDataQueue(s: Stream, all: Bytes, maxData: nat, now: nat)
    requires QueueOk(s, all) && 0 < maxData < U16 && !s.pingRequest && s.queued != []
    ensures QueueOk(Send(s, maxData, now).0, all)
    ensures HandoutOk(s, all, Send(s, maxData, now).1)
    ensures Truthful(Range(s.sentOffset, Min(maxData, |s.queued|)), s.queued[..Min(maxData, |s.queued|)], all)
  {
    SendDataShape(s, maxData, now);
    QueuedIsTruthful(all, s.queued, s.sentOffset, Min(maxData, |s.queued|));
  }

  lemma {:induction false} SendDataFlight(fl: FlightMap, sent: nat, h: History, data: Bytes, now: nat)
    requires FlightInv(fl, sent, h) && 0 < |data| < U16
    requires Truthful(Range(sent, |data|), data, h.all)
    ensures var k := Range(sent, |data|); var fl' := fl[k := SendInfo(data, now, 1, false)];
            && FlightInv(fl', sent + |data|, h.(log := h.log + [k]))
            && FlightBytes(fl') == FlightBytes(fl) + |data|
  {
    FlightSend(fl, sent, h, Range(sent, |data|), SendInfo(data, now, 1, false));
  }

  lemma {:induction false} SendDataKeeps(s: Stream, h: History, maxData: nat, now: nat)
    requires StreamInv(s, h) && 0 < maxData < U16 && !s.pingRequest && s.queued != []
    ensures SendOk(s, h, maxData, Send(s, maxData, now).0, Send(s, maxData, now).1)
  {
    hide FlightInv, WellFormed, Truthful, FlightBytes, Budget;
    var n := Min(maxData, |s.queued|);
    SendDataShape(s, maxData, now);
    SendDataQueue(s, h.all, maxData, now);
    SendDataFlight(s.inFlight.vals, s.sentOffset, h, s.queued[..n], now);
    PutWellFormed(s.inFlight, Range(s.sentOffset, n), SendInfo(s.queued[..n], now, 1, false));
  }

  /** The oldest packet, as the discipline sees it. */
  lemma {:induction false} OldestOk(s: Stream, h: History)
    requires StreamInv(s, h) && s.inFlight.keys != []
    ensures HasOldest(s)
    ensures PacketOk(s.inFlight.keys[0], Oldest(s), s.sentOffset, h.all)
  {
    assert s.inFlight.keys[0] in s.inFlight.keys;
  }

  /** What `ReadyToRetransmit` promises of its outcome. */
  ghost predicate RetransmitOk(s: Stream, h: History, maxData: nat, s': Stream, out: Handout) {
    && StreamInv(s', Logged(h, out)) && Held(s') == Held(s) && s'.closeAt == s.closeAt
    && HandoutOk(s, h.all, out) && !out.Panics?
    && (out.Packet? ==>
          && |out.data| <= maxData && HasOldest(s) && out.offset == s.inFlight.keys[0].offset
          && Budget(s'.inFlight.vals) == Budget(s.inFlight.vals) - |out.data|)
  }

  lemma {:induction false} ResendFlight(fl: FlightMap, n: nat, h: History, k: Range, now: nat)
    requires FlightInv(fl, n, h) && k in fl && fl[k].sentNr <= MAX_RETRY
    ensures FlightInv(fl[k := Again(fl[k], now)], n, if k.len == 0 then h else h.(log := h.log + [k]))
    ensures FlightBytes(fl[k := Again(fl[k], now)]) == FlightBytes(fl)
    ensures Budget(fl[k := Again(fl[k], now)]) == Budget(fl) - k.len
  {
    if k.len == 0 {
      assert PacketOk(k, fl[k], n, h.all);
      FlightMark(fl, n, h, k, Again(fl[k], now));
      ResendBudget(fl, k, Again(fl[k], now));
    } else {
      FlightResend(fl, n, h, k, now);
    }
  }

  /** What sending the oldest packet again does to a stream. */
  lemma {:induction false} ResendShape(s: Stream, all: Bytes, now: nat)
    requires HasOldest(s) && QueueOk(s, all) && PacketOk(s.inFlight.keys[0], Oldest(s), s.sentOffset, all)
    ensures var (s', out) := Resend(s, now); var k := s.inFlight.keys[0];
            && s'.inFlight == Put(s.inFlight, k, Again(Oldest(s), now))
            && s'.queued == s.queued && s'.sentOffset == s.sentOffset
            && QueueOk(s', all) && HandoutOk(s, all, out)
            && out.Packet? && out.data == Oldest(s).data && Range(out.offset, |out.data|) == k
  {
  }

  lemma {:induction false} ResendKeeps(s: Stream, h: History, maxData: nat, now: nat)
    requires StreamInv(s, h) && HasOldest(s) && Oldest(s).sentNr <= MAX_RETRY
    requires |Oldest(s).data| <= maxData
    ensures RetransmitOk(s, h, maxData, Resend(s, now).0, Resend(s, now).1)
  {
    hide FlightInv, WellFormed, Truthful, FlightBytes, Budget;
    OldestOk(s, h);
    var k := s.inFlight.keys[0];
    PutWellFormed(s.inFlight, k, Again(Oldest(s), now));
    ResendShape(s, h.all, now);
    ResendFlight(s.inFlight.vals, s.sentOffset, h, k, now);
    var (s', out) := Resend(s, now);
    assert Logged(h, out) == if k.len == 0 then h else h.(log := h.log + [k]);
    assert s'.inFlight.vals == s.inFlight.vals[k := Again(Oldest(s), now)];
  }

  /** Splitting with no room at all only adds an empty packet. */
  lemma {:induction false} SplitNothing(fl: FlightMap, n: nat, h: History, k: Range, now: nat)
    requires FlightInv(fl, n, h) && k in fl && 0 < k.len && fl[k].sentNr <= MAX_RETRY
    ensures |fl[k].data| == k.len
    ensures FlightInv(SplitMap(fl, k, 0, now), n, h)
    ensures FlightBytes(SplitMap(fl, k, 0, now)) == FlightBytes(fl)
    ensures Budget(SplitMap(fl, k, 0, now)) == Budget(fl)
  {
    assert PacketOk(k, fl[k], n, h.all);
    var e, ei := Left(k, 0), LeftInfo(fl[k], 0, now);
    assert RightInfo(fl[k], 0) == fl[k];
    assert SplitMap(fl, k, 0, now) == fl[e := ei];
    assert PacketOk(e, ei, n, h.all);
    FlightMark(fl, n, h, e, ei);
    BudgetUpdate(fl, e, ei);
    EmptyAllowance(e, ei);
    if e in fl { EmptyAllowance(e, fl[e]); }
  }

  lemma {:induction false} SplitFlight(fl: FlightMap, n: nat, h: History, k: Range, cut: nat, now: nat)
    requires FlightInv(fl, n, h) && k in fl && cut < k.len && fl[k].sentNr <= MAX_RETRY
    ensures |fl[k].data| == k.len
    ensures cut > 0 ==> Left(k, cut) !in fl && Right(k, cut) !in fl
    ensures FlightInv(SplitMap(fl, k, cut, now), n, if cut == 0 then h else h.(log := h.log + [Left(k, cut)]))
    ensures FlightBytes(SplitMap(fl, k, cut, now)) == FlightBytes(fl)
    ensures Budget(SplitMap(fl, k, cut, now)) == Budget(fl) - cut
  {
    if cut == 0 {
      SplitNothing(fl, n, h, k, now);
    } else {
      FlightSplit(fl, n, h, k, cut, now);
    }
  }

  lemma {:induction false} SplitWellFormed(m: InFlight, k: Range, l: Range, r: Range, li: SendInfo, ri: SendInfo)
    requires WellFormed(m)
    ensures WellFormed(Replace(Put(Put(m, l, li), k, ri), k, r, ri))
  {
    PutWellFormed(m, l, li);
    PutWellFormed(Put(m, l, li), k, ri);
    ReplaceWellFormed(Put(Put(m, l, li), k, ri), k, r, ri);
  }

  lemma {:induction false} SplitVals(m: InFlight, k: Range, l: Range, r: Range, li: SendInfo, ri: SendInfo)
    requires k in m.vals && (r == k || (r !in m.vals && r != l))
    ensures Replace(Put(Put(m, l, li), k, ri), k, r, ri).vals == (m.vals[l := li] - {k})[r := ri]
  {
    assert m.vals[l := li][k := ri] - {k} == m.vals[l := li] - {k};
  }

  /** The in-flight packets after a split. */
  lemma {:induction false} SplitShape(s: Stream, cut: nat, now: nat)
    requires WellFormed(s.inFlight) && HasOldest(s)
    requires var k := s.inFlight.keys[0];
             && k.len == |Oldest(s).data| && cut < k.len < U16 && k.End() <= U48
             && (cut > 0 ==> Left(k, cut) !in s.inFlight.vals && Right(k, cut) !in s.inFlight.vals)
    ensures WellFormed(Split(s, cut, now).0.inFlight)
    ensures Split(s, cut, now).0.inFlight.vals == SplitMap(s.inFlight.vals, s.inFlight.keys[0], cut, now)
  {
    var k := s.inFlight.keys[0];
    var l, r, li, ri := Left(k, cut), Right(k, cut), LeftInfo(Oldest(s), cut, now), RightInfo(Oldest(s), cut);
    assert KeyRange(k.offset, cut) == l && KeyRange(k.offset + cut, |ri.data|) == r;
    SplitWellFormed(s.inFlight, k, l, r, li, ri);
    SplitVals(s.inFlight, k, l, r, li, ri);
  }

  lemma {:induction false} SplitHandout(s: Stream, all: Bytes, cut: nat, now: nat)
    requires HasOldest(s) && cut < |Oldest(s).data|
    requires Truthful(s.inFlight.keys[0], Oldest(s).data, all)
    ensures HandoutOk(s, all, Split(s, cut, now).1)
  {
    var k := s.inFlight.keys[0];
    assert Oldest(s).data[..cut] == all[k.offset..k.offset + cut];
  }

  lemma {:induction false} SplitKeeps(s: Stream, h: History, cut: nat, now: nat)
    requires StreamInv(s, h) && HasOldest(s) && Oldest(s).sentNr <= MAX_RETRY
    requires cut < |Oldest(s).data|
    ensures RetransmitOk(s, h, cut, Split(s, cut, now).0, Split(s, cut, now).1)
  {
    hide FlightInv, WellFormed, FlightBytes, Budget, SplitMap;
    OldestOk(s, h);
    SplitFlight(s.inFlight.vals, s.sentOffset, h, s.inFlight.keys[0], cut, now);
    SplitShape(s, cut, now);
    SplitHandout(s, h.all, cut, now);
  }

  /** `ReadyToRetransmit` keeps the discipline; what it hands out fits the room left, and every
      byte handed out uses up one of its remaining handouts. */
  lemma {:induction false} RetransmitKeeps(s: Stream, h: History, maxData: nat, rto: nat, now: nat)
    requires StreamInv(s, h) && maxData < U16
    ensures RetransmitOk(s, h, maxData, Retransmit(s, maxData, rto, now).0, Retransmit(s, maxData, rto, now).1)
  {
    if HasOldest(s) {
      OldestOk(s, h);
      var k, info := s.inFlight.keys[0], Oldest(s);
      if info.sentNr <= MAX_RETRY && Expired(info, rto, now) {
        if info.isPing {
          RemoveWellFormed(s.inFlight, k);
          FlightUnmark(s.inFlight.vals, s.sentOffset, h, k);
        } else if |info.data| <= maxData {
          ResendKeeps(s, h, maxData, now);
        } else {
          SplitKeeps(s, h, maxData, now);
        }
      }
    }
  }

  ghost function Acked(s: Stream, h: History, k: Range): History {
    if k in s.inFlight.vals && 0 < k.len then h.(acked := h.acked + {k}) else h
  }

  /** `AcknowledgeRange` releases exactly the named packet. */
  lemma {:induction false} AcknowledgeKeeps(s: Stream, h: History, offset: nat, len: nat)
    requires StreamInv(s, h)
    ensures var k, s' := KeyRange(offset, len), Acknowledge(s, offset, len);
            && StreamInv(s', Acked(s, h, k))
            && Held(s') == Held(s) - (if k in s.inFlight.vals then k.len else 0)
            && (k in s.inFlight.vals ==> |s.inFlight.vals[k].data| == k.len)
  {
    var k, fl := KeyRange(offset, len), s.inFlight.vals;
    RemoveWellFormed(s.inFlight, k);
    if k in fl {
      assert PacketOk(k, fl[k], s.sentOffset, h.all);
      if k.len == 0 {
        FlightUnmark(fl, s.sentOffset, h, k);
      } else {
        FlightAck(fl, s.sentOffset, h, k);
      }
    }
  }

  lemma {:induction false} CloseKeeps(s: Stream, h: History)
    requires StreamInv(s, h)
    ensures StreamInv(Close(s), h) && Held(Close(s)) == Held(s)
  {
  }
}
