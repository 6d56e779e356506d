/** What the sender keeps true of the packets of one stream, against the history of the
    stream: every byte ever queued, every range handed to the network and every range
    acknowledged. The in-flight packets are taken as an unordered map here. */
module Flight {
  import opened Common
  import opened MapTotals
  import opened Partition
  import opened Ranges
  import opened SendStream

  datatype History = History(all: Bytes, log: seq<Range>, acked: set<Range>)

  type FlightMap = map<Range, SendInfo>

  const MAX_HANDOUTS := MAX_RETRY + 1

  ghost function Live(fl: FlightMap): set<Range> {
    set k | k in fl && 0 < k.len
  }

  ghost function Parts(fl: FlightMap, h: History): set<Range> {
    Live(fl) + h.acked
  }

  /** `data` is what the stream holds at `r`. */
  ghost predicate Truthful(r: Range, data: Bytes, all: Bytes) {
    r.End() <= |all| && data == all[r.offset..r.End()]
  }

  ghost predicate PacketOk(k: Range, info: SendInfo, n: nat, all: Bytes) {
    && k.len < U16 && k.End() <= n
    && Truthful(k, info.data, all)
    && 1 <= info.sentNr <= MAX_HANDOUTS
    && (info.isPing ==> k.len == 0)
  }

  ghost predicate PacketsOk(fl: FlightMap, n: nat, all: Bytes) {
    forall k :: k in fl ==> PacketOk(k, fl[k], n, all)
  }

  /** `sentNr` is how often each byte of the packet was handed out; no byte is handed out
      more often than the retry limit allows. */
  ghost predicate Counted(fl: FlightMap, log: seq<Range>) {
    && (forall k, p :: k in fl && k.Holds(p) ==> Count(log, p) == fl[k].sentNr)
    && (forall p :: Count(log, p) <= MAX_HANDOUTS)
  }

  /** Handouts left for the bytes of one packet. */
  ghost function Allowance(k: Range, info: SendInfo): nat {
    if info.sentNr < MAX_HANDOUTS then Times(MAX_HANDOUTS - info.sentNr, k.len) else 0
  }

  ghost function Times(n: nat, len: nat): nat {
    if n == 0 then 0 else len + Times(n - 1, len)
  }

  lemma {:induction false} TimesAdds(n: nat, a: nat, b: nat)
    ensures Times(n, a + b) == Times(n, a) + Times(n, b)
  {
    if n == 0 {
    } else {
      TimesAdds(n - 1, a, b);
    }
  }

  lemma {:induction false} TimesIsProduct(n: nat, a: nat)
    ensures Times(n, a) == n * a
  {
    if n == 0 {
    } else {
      TimesIsProduct(n - 1, a);
    }
  }

  ghost function Allowances(fl: FlightMap): map<Range, nat> {
    map k | k in fl :: Allowance(k, fl[k])
  }

  /** Handouts left for everything in flight. */
  ghost function Budget(fl: FlightMap): nat {
    Total(Allowances(fl))
  }

  ghost function Sizes(fl: FlightMap): map<Range, nat> {
    map k | k in fl :: |fl[k].data|
  }

  ghost function FlightBytes(fl: FlightMap): nat {
    Total(Sizes(fl))
  }

  ghost predicate FlightInv(fl: FlightMap, n: nat, h: History) {
    && n <= |h.all|
    && PacketsOk(fl, n, h.all)
    && Live(fl) !! h.acked
    && Tiles(Parts(fl, h), n)
    && Respects(Parts(fl, h), n, h.log)
    && Counted(fl, h.log)
    && LogBytes(h.log) + Budget(fl) <= MAX_HANDOUTS * n
  }

  lemma {:induction false} BudgetUpdate(fl: FlightMap, k: Range, info: SendInfo)
    ensures Budget(fl[k := info]) == Budget(fl) - (if k in fl then Allowance(k, fl[k]) else 0) + Allowance(k, info)
    ensures FlightBytes(fl[k := info]) == FlightBytes(fl) - (if k in fl then |fl[k].data| else 0) + |info.data|
  {
    assert Allowances(fl[k := info]) == Allowances(fl)[k := Allowance(k, info)];
    TotalUpdate(Allowances(fl), k, Allowance(k, info));
    assert Sizes(fl[k := info]) == Sizes(fl)[k := |info.data|];
    TotalUpdate(Sizes(fl), k, |info.data|);
  }

  lemma {:induction false} BudgetRemove(fl: FlightMap, k: Range)
    requires k in fl
    ensures Budget(fl - {k}) == Budget(fl) - Allowance(k, fl[k])
    ensures FlightBytes(fl - {k}) == FlightBytes(fl) - |fl[k].data|
  {
    assert Allowances(fl - {k}) == Allowances(fl) - {k};
    TotalWithout(Allowances(fl), k);
    assert Sizes(fl - {k}) == Sizes(fl) - {k};
    TotalWithout(Sizes(fl), k);
  }

  lemma {:induction false} CountedLog(log: seq<Range>, r: Range)
    ensures forall p :: Count(log + [r], p) == Count(log, p) + (if r.Holds(p) then 1 else 0)
  {
    forall p ensures Count(log + [r], p) == Count(log, p) + (if r.Holds(p) then 1 else 0) {
      CountLog(log, r, p);
    }
  }

  /** Bytes are appended to the stream. */
  lemma {:induction false} FlightGrow(fl: FlightMap, n: nat, h: History, more: Bytes)
    requires FlightInv(fl, n, h)
    ensures FlightInv(fl, n, h.(all := h.all + more))
  {
    forall k | k in fl ensures PacketOk(k, fl[k], n, h.all + more) {
      assert (h.all + more)[k.offset..k.End()] == h.all[k.offset..k.End()];
    }
  }

  lemma {:induction false} EmptyAllowance(k: Range, info: SendInfo)
    requires k.len == 0
    ensures Allowance(k, info) == 0
  {
    if info.sentNr < MAX_HANDOUTS { TimesAdds(MAX_HANDOUTS - info.sentNr, 0, 0); }
  }

  /** An empty packet (ping, close, or no room for data) is tracked. */
  lemma {:induction false} FlightMark(fl: FlightMap, n: nat, h: History, k: Range, info: SendInfo)
    requires FlightInv(fl, n, h) && k.len == 0 && PacketOk(k, info, n, h.all)
    ensures FlightInv(fl[k := info], n, h)
    ensures FlightBytes(fl[k := info]) == FlightBytes(fl)
  {
    assert Live(fl[k := info]) == Live(fl);
    BudgetUpdate(fl, k, info);
    EmptyAllowance(k, info);
    if k in fl { EmptyAllowance(k, fl[k]); }
  }

  /** An empty packet is dropped or acknowledged. */
  lemma {:induction false} FlightUnmark(fl: FlightMap, n: nat, h: History, k: Range)
    requires FlightInv(fl, n, h) && k in fl && k.len == 0
    ensures FlightInv(fl - {k}, n, h)
    ensures FlightBytes(fl - {k}) == FlightBytes(fl)
  {
    assert Live(fl - {k}) == Live(fl);
    BudgetRemove(fl, k);
  }

  lemma {:induction false} PartsSend(fl: FlightMap, n: nat, h: History, k: Range, info: SendInfo)
    requires Tiles(Parts(fl, h), n) && Respects(Parts(fl, h), n, h.log)
    requires k.offset == n && 0 < k.len
    ensures k !in fl && k !in h.acked
    ensures Tiles(Parts(fl[k := info], h), n + k.len)
    ensures Respects(Parts(fl[k := info], h), n + k.len, h.log + [k])
  {
    var parts := Parts(fl, h);
    TilesExtend(parts, n, k.len);
    RespectsExtend(parts, n, h.log, k.len);
    assert k !in fl by { assert k !in Live(fl); }
    assert Live(fl[k := info]) == Live(fl) + {k};
    assert Parts(fl[k := info], h) == parts + {k};
    RespectsLog(parts + {k}, n + k.len, h.log, k);
  }

  lemma {:induction false} CountedSend(fl: FlightMap, n: nat, log: seq<Range>, k: Range, info: SendInfo)
    requires Counted(fl, log) && k.offset == n && info.sentNr == 1
    requires forall i :: 0 <= i < |log| ==> log[i].End() <= n
    requires forall j :: j in fl ==> j.End() <= n
    ensures Counted(fl[k := info], log + [k])
  {
    CountedLog(log, k);
    forall p | k.Holds(p) ensures Count(log, p) == 0 { CountBeyond(log, n, p); }
  }

  /** The next bytes of the stream are sent for the first time. */
  lemma {:induction false} FlightSend(fl: FlightMap, n: nat, h: History, k: Range, info: SendInfo)
    requires FlightInv(fl, n, h) && k.offset == n && 0 < k.len
    requires PacketOk(k, info, n + k.len, h.all) && info.sentNr == 1
    ensures k !in fl && FlightInv(fl[k := info], n + k.len, h.(log := h.log + [k]))
    ensures FlightBytes(fl[k := info]) == FlightBytes(fl) + k.len
  {
    PartsSend(fl, n, h, k, info);
    PacketsOkSend(fl, n, h.all, k, info);
    CountedSend(fl, n, h.log, k, info);
    SendBudget(fl, n, h.log, k, info);
  }

  lemma {:induction false} PacketsOkSend(fl: FlightMap, n: nat, all: Bytes, k: Range, info: SendInfo)
    requires PacketsOk(fl, n, all) && PacketOk(k, info, n + k.len, all)
    ensures PacketsOk(fl[k := info], n + k.len, all)
    ensures forall j :: j in fl ==> j.End() <= n
  {
    forall j | j in fl ensures PacketOk(j, fl[j], n + k.len, all) && j.End() <= n {
      assert PacketOk(j, fl[j], n, all);
    }
  }

  lemma {:induction false} SendBudget(fl: FlightMap, n: nat, log: seq<Range>, k: Range, info: SendInfo)
    requires k !in fl && info.sentNr == 1 && |info.data| == k.len
    requires LogBytes(log) + Budget(fl) <= MAX_HANDOUTS * n
    ensures LogBytes(log + [k]) + Budget(fl[k := info]) <= MAX_HANDOUTS * (n + k.len)
    ensures FlightBytes(fl[k := info]) == FlightBytes(fl) + k.len
  {
    BudgetUpdate(fl, k, info);
    LogBytesLog(log, k);
    TimesIsProduct(MAX_HANDOUTS, k.len);
    assert Times(MAX_HANDOUTS, k.len) == k.len + Allowance(k, info);
  }

  /** Logging a part of packet k once more moves the counts of exactly that part. */
  lemma {:induction false} CountedBump(fl: FlightMap, log: seq<Range>, k: Range, r: Range)
    requires k in fl && Within(r, k) && 0 < k.len
    requires Counted(fl, log) && fl[k].sentNr <= MAX_RETRY
    requires forall j :: j in fl && j != k && 0 < j.len ==> Apart(j, k)
    ensures forall j, p :: j in fl && j != k && j.Holds(p) ==> Count(log + [r], p) == fl[j].sentNr
    ensures forall p :: r.Holds(p) ==> Count(log + [r], p) == fl[k].sentNr + 1
    ensures forall p :: k.Holds(p) && !r.Holds(p) ==> Count(log + [r], p) == fl[k].sentNr
    ensures forall p :: Count(log + [r], p) <= MAX_HANDOUTS
  {
    CountedLog(log, r);
    forall p | r.Holds(p) ensures Count(log, p) == fl[k].sentNr { assert k.Holds(p); }
  }

  lemma {:induction false} LiveApart(fl: FlightMap, n: nat, h: History, k: Range)
    requires Tiles(Parts(fl, h), n) && k in fl && 0 < k.len
    ensures forall j :: j in fl && j != k && 0 < j.len ==> Apart(j, k)
  {
    forall j | j in fl && j != k && 0 < j.len ensures Apart(j, k) {
      assert j in Parts(fl, h) && k in Parts(fl, h);
    }
  }

  lemma {:induction false} ResendBudget(fl: FlightMap, k: Range, info: SendInfo)
    requires k in fl && fl[k].sentNr <= MAX_RETRY
    requires info.sentNr == fl[k].sentNr + 1 && |info.data| == |fl[k].data|
    ensures FlightBytes(fl[k := info]) == FlightBytes(fl)
    ensures Budget(fl[k := info]) == Budget(fl) - k.len
  {
    BudgetUpdate(fl, k, info);
    assert Times(MAX_HANDOUTS - fl[k].sentNr, k.len) == k.len + Times(MAX_RETRY - fl[k].sentNr, k.len);
  }

  /** A packet in flight is sent again as it is. */
  lemma {:induction false} FlightResend(fl: FlightMap, n: nat, h: History, k: Range, now: nat)
    requires FlightInv(fl, n, h) && k in fl && 0 < k.len && fl[k].sentNr <= MAX_RETRY
    ensures FlightInv(fl[k := Again(fl[k], now)], n, h.(log := h.log + [k]))
    ensures FlightBytes(fl[k := Again(fl[k], now)]) == FlightBytes(fl)
    ensures Budget(fl[k := Again(fl[k], now)]) == Budget(fl) - k.len
  {
    var info' := Again(fl[k], now);
    ResendPacketsOk(fl, n, h.all, k, info');
    assert Live(fl[k := info']) == Live(fl);
    assert k in Parts(fl, h);
    RespectsLog(Parts(fl, h), n, h.log, k);
    ResendBudget(fl, k, info');
    LogBytesLog(h.log, k);
    LiveApart(fl, n, h, k);
    ResendCounted(fl, h.log, k, info');
  }

  lemma {:induction false} ResendPacketsOk(fl: FlightMap, n: nat, all: Bytes, k: Range, info: SendInfo)
    requires PacketsOk(fl, n, all) && k in fl && fl[k].sentNr <= MAX_RETRY
    requires info.sentNr == fl[k].sentNr + 1 && info.data == fl[k].data && info.isPing == fl[k].isPing
    ensures PacketsOk(fl[k := info], n, all)
  {
    assert PacketOk(k, fl[k], n, all);
  }

  lemma {:induction false} ResendCounted(fl: FlightMap, log: seq<Range>, k: Range, info: SendInfo)
    requires k in fl && 0 < k.len && fl[k].sentNr <= MAX_RETRY && info.sentNr == fl[k].sentNr + 1
    requires Counted(fl, log)
    requires forall j :: j in fl && j != k && 0 < j.len ==> Apart(j, k)
    ensures Counted(fl[k := info], log + [k])
  {
    CountedBump(fl, log, k, k);
  }

  ghost function SplitMap(fl: FlightMap, k: Range, cut: nat, now: nat): FlightMap
    requires k in fl && cut < |fl[k].data| && cut <= k.len
  {
    (fl[Left(k, cut) := LeftInfo(fl[k], cut, now)] - {k})[Right(k, cut) := RightInfo(fl[k], cut)]
  }

  lemma {:induction false} SplitParts(fl: FlightMap, n: nat, h: History, k: Range, cut: nat, now: nat)
    requires Tiles(Parts(fl, h), n) && Respects(Parts(fl, h), n, h.log) && Live(fl) !! h.acked
    requires k in fl && 0 < cut < k.len == |fl[k].data|
    ensures Left(k, cut) !in fl && Right(k, cut) !in fl
    ensures Live(SplitMap(fl, k, cut, now)) !! h.acked
    ensures Tiles(Parts(SplitMap(fl, k, cut, now), h), n)
    ensures Respects(Parts(SplitMap(fl, k, cut, now), h), n, h.log + [Left(k, cut)])
  {
    var parts := Parts(fl, h);
    assert k in Live(fl);
    TilesCut(parts, n, k, cut);
    assert Left(k, cut) !in Live(fl) && Right(k, cut) !in Live(fl);
    RespectsCut(parts, n, h.log, k, cut);
    RespectsLog(CutPart(parts, k, cut), n, h.log, Left(k, cut));
    assert Live(SplitMap(fl, k, cut, now)) == Live(fl) - {k} + {Left(k, cut), Right(k, cut)};
    assert Parts(SplitMap(fl, k, cut, now), h) == CutPart(parts, k, cut);
  }

  lemma {:induction false} SplitBudget(fl: FlightMap, k: Range, cut: nat, now: nat)
    requires k in fl && 0 < cut < k.len == |fl[k].data| && fl[k].sentNr <= MAX_RETRY
    requires Left(k, cut) !in fl && Right(k, cut) !in fl
    ensures FlightBytes(SplitMap(fl, k, cut, now)) == FlightBytes(fl)
    ensures Budget(SplitMap(fl, k, cut, now)) == Budget(fl) - cut
  {
    var info, l, r := fl[k], Left(k, cut), Right(k, cut);
    var li, ri := LeftInfo(info, cut, now), RightInfo(info, cut);
    var fl1 := fl[l := li];
    var fl2 := fl1 - {k};
    BudgetUpdate(fl, l, li);
    BudgetRemove(fl1, k);
    BudgetUpdate(fl2, r, ri);
    assert Budget(fl2[r := ri]) == Budget(fl) + Allowance(l, li) - Allowance(k, info) + Allowance(r, ri);
    SplitAllowance(k, cut, info, li, ri);
  }

  lemma {:induction false} SplitAllowance(k: Range, cut: nat, info: SendInfo, li: SendInfo, ri: SendInfo)
    requires cut <= k.len && info.sentNr <= MAX_RETRY
    requires li.sentNr == info.sentNr + 1 && ri.sentNr == info.sentNr
    ensures Allowance(Left(k, cut), li) + cut + Allowance(Right(k, cut), ri) == Allowance(k, info)
  {
    TimesAdds(MAX_HANDOUTS - info.sentNr, cut, k.len - cut);
    assert Times(MAX_HANDOUTS - info.sentNr, cut) == cut + Times(MAX_RETRY - info.sentNr, cut);
  }

  lemma {:induction false} SplitCounted(fl: FlightMap, log: seq<Range>, k: Range, cut: nat, now: nat)
    requires k in fl && 0 < cut < k.len == |fl[k].data| && fl[k].sentNr <= MAX_RETRY
    requires Counted(fl, log)
    requires forall j :: j in fl && j != k && 0 < j.len ==> Apart(j, k)
    ensures Counted(SplitMap(fl, k, cut, now), log + [Left(k, cut)])
  {
    var l, r, fl' := Left(k, cut), Right(k, cut), SplitMap(fl, k, cut, now);
    CountedBump(fl, log, k, l);
    forall j, p | j in fl' && j.Holds(p) ensures Count(log + [l], p) == fl'[j].sentNr {
      if j == r { assert k.Holds(p) && !l.Holds(p); }
    }
  }

  /** A packet is cut in two and its left part sent again. */
  lemma {:induction false} FlightSplit(fl: FlightMap, n: nat, h: History, k: Range, cut: nat, now: nat)
    requires FlightInv(fl, n, h) && k in fl && 0 < cut < k.len && fl[k].sentNr <= MAX_RETRY
    ensures |fl[k].data| == k.len
    ensures Left(k, cut) !in fl && Right(k, cut) !in fl
    ensures FlightInv(SplitMap(fl, k, cut, now), n, h.(log := h.log + [Left(k, cut)]))
    ensures FlightBytes(SplitMap(fl, k, cut, now)) == FlightBytes(fl)
    ensures Budget(SplitMap(fl, k, cut, now)) == Budget(fl) - cut
  {
    assert PacketOk(k, fl[k], n, h.all);
    SplitParts(fl, n, h, k, cut, now);
    SplitBudget(fl, k, cut, now);
    LogBytesLog(h.log, Left(k, cut));
    LiveApart(fl, n, h, k);
    SplitCounted(fl, h.log, k, cut, now);
    SplitPacketsOk(fl, n, h.all, k, cut, now);
  }

  lemma {:induction false} SplitPacketsOk(fl: FlightMap, n: nat, all: Bytes, k: Range, cut: nat, now: nat)
    requires PacketsOk(fl, n, all)
    requires k in fl && 0 < cut < k.len == |fl[k].data| && fl[k].sentNr <= MAX_RETRY
    ensures PacketsOk(SplitMap(fl, k, cut, now), n, all)
  {
    var l, r, fl' := Left(k, cut), Right(k, cut), SplitMap(fl, k, cut, now);
    assert PacketOk(k, fl[k], n, all);
    var d := all[k.offset..k.End()];
    assert d[..cut] == all[l.offset..l.End()] && d[cut..] == all[r.offset..r.End()];
    assert PacketOk(l, fl'[l], n, all) && PacketOk(r, fl'[r], n, all);
  }

  /** A packet is acknowledged: its range moves from in flight to acknowledged. */
  lemma {:induction false} FlightAck(fl: FlightMap, n: nat, h: History, k: Range)
    requires FlightInv(fl, n, h) && k in fl && 0 < k.len
    ensures FlightInv(fl - {k}, n, h.(acked := h.acked + {k}))
    ensures FlightBytes(fl - {k}) == FlightBytes(fl) - k.len
  {
    assert k in Live(fl);
    assert Live(fl - {k}) == Live(fl) - {k};
    assert Parts(fl - {k}, h.(acked := h.acked + {k})) == Parts(fl, h);
    BudgetRemove(fl, k);
  }
}
