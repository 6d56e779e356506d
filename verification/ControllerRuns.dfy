/** Runs of the controller: bounds that hold after any sequence of samples, duplicate acknowledgements and
    losses, and the same updates over unbounded integers and over the reals. */
module ControllerRuns {
  import opened Common
  import opened Controller
  import SS = SendStream

  // ---------- Runs ----------

  datatype Event = Sample(rtt: nat, acked: nat, now: nat) | DupAck | Loss

  /** The state of a run: the estimates, the samples taken, those since the smallest was last set, the clock
      and the number of samples offered. */
  datatype Trace = Trace(m: Measure, samples: seq<nat>, since: seq<nat>, clock: nat, count: nat)

  /** What the run asks for: a clock that does not go back, and packets of at most 65535 bytes. */
  predicate Enabled(t: Trace, e: Event) {
    e.Sample? ==> t.clock <= e.now < U64 && e.rtt < U64 && e.acked < U16 && t.count + 1 < U64
  }

  ghost function Step(t: Trace, e: Event): Option<Trace> {
    match e
    case DupAck => Some(t.(m := DuplicateAck(t.m)))
    case Loss => Some(t.(m := PacketLoss(t.m)))
    case Sample(rtt, acked, now) =>
      var m' := Update(t.m, rtt, acked, now);
      if m'.None? then None
      else if !Accepted(rtt, acked, now) then Some(t.(m := m'.value, clock := now, count := t.count + 1))
      else
        var since := if Renews(t.m, rtt, now) then [rtt] else t.since + [rtt];
        Some(Trace(m'.value, t.samples + [rtt], since, now, t.count + 1))
  }

  ghost predicate GainsOk(m: Measure) {
    && (m.isStartup <==> m.gain == STARTUP_GAIN)
    && m.gain in {STARTUP_GAIN, NORMAL_GAIN, DRAIN_GAIN, PROBE_GAIN, DUP_ACK_GAIN}
    && (m.isStartup ==> m.bwDec < BW_DEC_THRESHOLD)
  }

  /** Nothing grows beyond what a round trip of thirty seconds and a packet of 64 kilobytes allow. */
  ghost predicate Bounded(t: Trace) {
    && t.m.srtt <= READ_DEADLINE && t.m.rttvar <= READ_DEADLINE
    && t.m.bwMax <= 65535 * SECOND && t.m.bwDec <= t.count < U64
    && t.m.lastProbe <= t.clock < U64
  }

  ghost predicate MinOk(t: Trace) {
    if t.since == [] then t.samples == [] && t.m.rttMin == MAX_UINT64 && t.m.rttMinTime == MAX_UINT64
    else
      && 0 < t.m.rttMin <= READ_DEADLINE && t.m.rttMinTime <= t.clock
      && t.m.rttMin in t.since && forall i :: 0 <= i < |t.since| ==> t.m.rttMin <= t.since[i]
  }

  ghost predicate Inv(t: Trace) {
    GainsOk(t.m) && Bounded(t) && MinOk(t)
  }

  // ---------- Unbounded arithmetic ----------

  function Distance(x: nat, y: nat): nat {
    if x > y then x - y else y - x
  }

  /** Section 2.3 of RFC 6298 with floors, over the integers. */
  function ExactSmooth(m: Measure, rtt: nat): Measure {
    if m.srtt == 0 then m.(srtt := rtt, rttvar := rtt / 2)
    else m.(rttvar := m.rttvar * 3 / 4 + Distance(rtt, m.srtt) / 4, srtt := m.srtt * 7 / 8 + rtt / 8)
  }

  function ExactBandwidth(m: Measure, acked: nat): Measure
    requires 0 < m.rttMin
  {
    var bw := acked * 1_000_000_000 / m.rttMin;
    if bw > m.bwMax then m.(bwMax := bw, bwDec := 0) else m.(bwDec := m.bwDec + 1)
  }

  function ExactSteer(m: Measure, now: nat): Measure
    requires 0 < m.rttMin
  {
    var ratio := m.srtt * 100 / m.rttMin;
    if ratio > RTT_INFLATION_HIGH then m.(gain := DRAIN_GAIN)
    else if ratio > RTT_INFLATION_MODERATE then m.(gain := DUP_ACK_GAIN)
    else if now - m.lastProbe > m.rttMin * PROBE_MULTIPLIER then m.(gain := PROBE_GAIN, lastProbe := now)
    else m.(gain := NORMAL_GAIN)
  }

  lemma {:induction false} SmoothExact(m: Measure, rtt: nat)
    requires m.srtt <= READ_DEADLINE && m.rttvar <= READ_DEADLINE && 0 < rtt <= READ_DEADLINE
    ensures Smooth(m, rtt) == ExactSmooth(m, rtt)
    ensures Smooth(m, rtt).srtt <= READ_DEADLINE && Smooth(m, rtt).rttvar <= READ_DEADLINE
  {
    hide Wrap;
  }

  lemma {:induction false} Quotient(x: nat, y: nat)
    requires 0 < y
    ensures x / y <= x
  {
    var q, r := x / y, x % y;
    assert x == y * q + r;
    TimesGrows(y, q);
  }

  lemma {:induction false} TimesGrows(y: nat, q: nat)
    requires 0 < y
    ensures q <= y * q
  {
    if q == 0 {
    } else {
      TimesGrows(y, q - 1);
      assert y * q == y * (q - 1) + y;
    }
  }

  lemma {:induction false} BandwidthExact(m: Measure, acked: nat)
    requires 0 < m.rttMin && acked < U16 && m.bwMax <= 65535 * SECOND && m.bwDec + 1 < U64
    ensures TrackBandwidth(m, acked) == ExactBandwidth(m, acked) && TrackBandwidth(m, acked).bwMax <= 65535 * SECOND
  {
    hide Wrap;
    Quotient(acked * 1_000_000_000, m.rttMin);
  }

  lemma {:induction false} SteerExact(m: Measure, now: nat)
    requires 0 < m.rttMin <= READ_DEADLINE && m.srtt <= READ_DEADLINE && m.lastProbe <= now < U64
    ensures Steer(m, now) == ExactSteer(m, now)
  {
    hide Wrap;
  }

  /** The same update over unbounded integers; the smallest round trip is never zero in it. */
  function ExactUpdate(m: Measure, rtt: nat, acked: nat, now: nat): Measure
    requires Accepted(rtt, acked, now) && 0 < m.rttMin
  {
    var renews := (now > m.rttMinTime && now - m.rttMinTime >= RTT_EXPIRY) || rtt < m.rttMin;
    var m1 := ExactSmooth(m, rtt);
    var m2 := if renews then m1.(rttMin := rtt, rttMinTime := now) else m1;
    var m3 := ExactBandwidth(m2, acked);
    var m4 := if m3.lastProbe == 0 then m3.(lastProbe := now) else m3;
    if !m4.isStartup then ExactSteer(m4, now)
    else if m4.bwDec >= BW_DEC_THRESHOLD then m4.(isStartup := false, gain := NORMAL_GAIN)
    else m4
  }

  lemma {:induction false} MinPositive(t: Trace, rtt: nat, now: nat)
    requires MinOk(t) && t.clock <= now < U64 && 0 < rtt <= READ_DEADLINE
    ensures 0 < t.m.rttMin < U64
    ensures Renews(t.m, rtt, now) == ((now > t.m.rttMinTime && now - t.m.rttMinTime >= RTT_EXPIRY) || rtt < t.m.rttMin)
    ensures 0 < TrackMin(t.m, rtt, now).rttMin <= READ_DEADLINE
  {
    hide Wrap;
  }

  /** In every reachable state the next update neither wraps nor divides by zero: it is the unbounded one. */
  lemma {:induction false} UpdateIsExact(t: Trace, rtt: nat, acked: nat, now: nat)
    requires Inv(t) && Enabled(t, Sample(rtt, acked, now)) && Accepted(rtt, acked, now)
    ensures 0 < t.m.rttMin && Update(t.m, rtt, acked, now) == Some(ExactUpdate(t.m, rtt, acked, now))
  {
    hide Smooth, ExactSmooth, TrackBandwidth, ExactBandwidth, Steer, ExactSteer, Wrap, Sub;
    MinPositive(t, rtt, now);
    SmoothExact(t.m, rtt);
    SmoothKeeps(t.m, rtt);
    var m2 := TrackMin(Smooth(t.m, rtt), rtt, now);
    BandwidthExact(m2, acked);
    BandwidthKeeps(m2, acked);
    SteerExact(Estimate(t.m, rtt, acked, now), now);
  }

  lemma SmoothKeeps(m: Measure, rtt: nat)
    ensures Smooth(m, rtt) == m.(srtt := Smooth(m, rtt).srtt, rttvar := Smooth(m, rtt).rttvar)
  {
  }

  lemma BandwidthKeeps(m: Measure, acked: nat)
    ensures TrackBandwidth(m, acked)
            == m.(bwMax := TrackBandwidth(m, acked).bwMax, bwDec := TrackBandwidth(m, acked).bwDec)
  {
  }

  // ---------- Every step keeps the invariant ----------

  lemma {:induction false} ReduceBandwidth(m: Measure, pct: nat)
    requires m.bwMax <= 65535 * SECOND && pct <= 100
    ensures Mul(m.bwMax, pct) / 100 <= m.bwMax
  {
    hide Wrap;
    assert m.bwMax * pct <= m.bwMax * 100 by { TimesMonotone(m.bwMax, pct, 100); }
  }

  lemma {:induction false} TimesMonotone(x: nat, y: nat, z: nat)
    requires y <= z
    ensures x * y <= x * z
  {
    assert x * z == x * y + x * (z - y);
  }

  lemma {:induction false} SampleInv(t: Trace, rtt: nat, acked: nat, now: nat)
    requires Inv(t) && Enabled(t, Sample(rtt, acked, now)) && Accepted(rtt, acked, now)
    ensures Step(t, Sample(rtt, acked, now)).Some? && Inv(Step(t, Sample(rtt, acked, now)).value)
  {
    hide ExactSmooth, ExactBandwidth, Wrap, Smooth, TrackBandwidth, Sub;
    UpdateIsExact(t, rtt, acked, now);
    SmoothExact(t.m, rtt);
    MinPositive(t, rtt, now);
    SmoothKeeps(t.m, rtt);
    var m2 := TrackMin(Smooth(t.m, rtt), rtt, now);
    BandwidthExact(m2, acked);
    BandwidthKeeps(m2, acked);
    BandwidthCounts(m2, acked);
  }

  lemma {:induction false} BandwidthCounts(m: Measure, acked: nat)
    requires m.bwDec + 1 < U64
    ensures TrackBandwidth(m, acked).bwDec <= m.bwDec + 1
  {
  }

  lemma {:induction false} StepInv(t: Trace, e: Event)
    requires Inv(t) && Enabled(t, e)
    ensures Step(t, e).Some? && Inv(Step(t, e).value)
  {
    match e
    case DupAck => ReduceBandwidth(t.m, DUP_ACK_BW_REDUCTION);
    case Loss => ReduceBandwidth(t.m, LOSS_BW_REDUCTION);
    case Sample(rtt, acked, now) => if Accepted(rtt, acked, now) { SampleInv(t, rtt, acked, now); }
  }

  const BEGIN := Trace(FRESH, [], [], 0, 0)

  /** A run: events that the clock or the packet size rule out are skipped; `None` after a division by zero. */
  ghost function Run(events: seq<Event>): Option<Trace> {
    if events == [] then Some(BEGIN)
    else
      var t := Run(events[..|events| - 1]);
      if t.None? then None
      else if Enabled(t.value, events[|events| - 1]) then Step(t.value, events[|events| - 1])
      else t
  }

  lemma {:induction false} RunInv(events: seq<Event>)
    ensures Run(events).Some? && Inv(Run(events).value)
  {
    if events == [] {
    } else {
      RunInv(events[..|events| - 1]);
      var t := Run(events[..|events| - 1]).value;
      if Enabled(t, events[|events| - 1]) { StepInv(t, events[|events| - 1]); }
    }
  }

  // ---------- Main results ----------

  /** In every run startup is told by its gain, is left after at most three samples without progress, and
      never comes back. */
  lemma {:induction false} StartupEndsOnce(events: seq<Event>, more: seq<Event>)
    ensures var t, t' := Run(events), Run(events + more);
            && t.Some? && t'.Some?
            && (t.value.m.isStartup <==> t.value.m.gain == STARTUP_GAIN)
            && (t.value.m.isStartup ==> t.value.m.bwDec <= 2)
            && (t'.value.m.isStartup ==> t.value.m.isStartup)
  {
    hide Step, Enabled, Bounded, MinOk;
    RunInv(events);
    RunInv(events + more);
    if more == [] {
      assert events + more == events;
    } else {
      var all, before := events + more, more[..|more| - 1];
      assert all[..|all| - 1] == events + before;
      StartupEndsOnce(events, before);
      RunInv(events + before);
      StartupKept(Run(events + before).value, all[|all| - 1]);
    }
  }

  lemma {:induction false} StartupKept(t: Trace, e: Event)
    requires Inv(t)
    ensures Enabled(t, e) && Step(t, e).Some? && Step(t, e).value.m.isStartup ==> t.m.isStartup
  {
    hide Wrap, Smooth, ExactSmooth, TrackBandwidth, ExactBandwidth, ExactSteer;
    if e.Sample? {
      SmoothKeeps(t.m, e.rtt);
      BandwidthKeeps(TrackMin(Smooth(t.m, e.rtt), e.rtt, e.now), e.acked);
    }
  }

  /** After every accepted sample the smallest round trip is one of the samples since it was set, none of
      those is smaller, and it was set less than ten seconds ago. */
  lemma {:induction false} MinIsRecent(events: seq<Event>, rtt: nat, acked: nat, now: nat)
    requires var t := Run(events); t.Some? && Enabled(t.value, Sample(rtt, acked, now)) && Accepted(rtt, acked, now)
    ensures var t := Run(events + [Sample(rtt, acked, now)]);
            && t.Some? && t.value.since != [] && t.value.m.rttMin in t.value.since
            && (forall i :: 0 <= i < |t.value.since| ==> t.value.m.rttMin <= t.value.since[i])
            && now - RTT_EXPIRY < t.value.m.rttMinTime <= now
  {
    var e := Sample(rtt, acked, now);
    var all := events + [e];
    assert all[..|all| - 1] == events;
    RunInv(events);
    RunInv(all);
    var t := Run(events).value;
    MinPositive(t, rtt, now);
    MinSetBy(t, rtt, acked, now);
  }

  lemma {:induction false} MinSetBy(t: Trace, rtt: nat, acked: nat, now: nat)
    requires Inv(t) && Enabled(t, Sample(rtt, acked, now)) && Accepted(rtt, acked, now)
    ensures var t' := Step(t, Sample(rtt, acked, now));
            t'.Some? && t'.value.m.rttMinTime == (if Renews(t.m, rtt, now) then now else t.m.rttMinTime)
  {
    hide Wrap, Smooth, ExactSmooth, TrackBandwidth, ExactBandwidth, ExactSteer;
    UpdateIsExact(t, rtt, acked, now);
    SmoothKeeps(t.m, rtt);
    BandwidthKeeps(TrackMin(Smooth(t.m, rtt), rtt, now), acked);
  }

  ghost predicate AllWithin(samples: seq<nat>, lo: int, hi: int) {
    forall i :: 0 <= i < |samples| ==> lo <= samples[i] <= hi
  }

  /** What a step does to the smoothed round trip and to the record of samples. */
  lemma {:induction false} SmoothedBy(t: Trace, e: Event)
    requires Inv(t) && Enabled(t, e)
    ensures var t' := Step(t, e);
            && t'.Some?
            && if e.Sample? && Accepted(e.rtt, e.acked, e.now) then
                 t'.value.samples == t.samples + [e.rtt] && t'.value.m.srtt == ExactSmooth(t.m, e.rtt).srtt
               else t'.value.samples == t.samples && t'.value.m.srtt == t.m.srtt
  {
    hide Wrap, Smooth, ExactSmooth, TrackBandwidth, ExactBandwidth, ExactSteer;
    StepInv(t, e);
    if e.Sample? && Accepted(e.rtt, e.acked, e.now) {
      SmoothExact(t.m, e.rtt);
      BandwidthKeeps(TrackMin(Smooth(t.m, e.rtt), e.rtt, e.now), e.acked);
    }
  }

  /** Despite two truncations in each update, the smoothed round trip stays between the smallest sample less
      14 and the largest. */
  lemma {:induction false} SmoothedWithin(events: seq<Event>, lo: int, hi: int)
    requires Run(events).Some? && AllWithin(Run(events).value.samples, lo, hi)
    ensures var t := Run(events).value; t.samples != [] ==> lo - 14 <= t.m.srtt <= hi
    ensures var t := Run(events).value; t.samples == [] ==> t.m.srtt == 0
  {
    hide Inv, Run;
    if events == [] {
      EmptyRun();
    } else {
      LastStep(events, lo, hi);
      SmoothedWithin(events[..|events| - 1], lo, hi);
    }
  }

  /** The exponential average the estimate approximates: section 2.3 of RFC 6298 over the reals. */
  ghost function Average(samples: seq<nat>): real
    requires samples != []
  {
    var last := samples[|samples| - 1] as real;
    if |samples| == 1 then last else Average(samples[..|samples| - 1]) * 7.0 / 8.0 + last / 8.0
  }

  lemma {:induction false} FloorEighths(srtt: nat, rtt: nat)
    ensures (srtt as real) * 7.0 / 8.0 + (rtt as real) / 8.0 - 1.75 <= (srtt * 7 / 8 + rtt / 8) as real
            <= (srtt as real) * 7.0 / 8.0 + (rtt as real) / 8.0
  {
    var a, b := srtt * 7 / 8, rtt / 8;
    assert 8 * a <= 7 * srtt <= 8 * a + 7 && 8 * b <= rtt <= 8 * b + 7;
    assert (8 * a) as real == 8.0 * (a as real) && (7 * srtt) as real == 7.0 * (srtt as real);
    assert (8 * b) as real == 8.0 * (b as real);
  }

  /** What the run before the last event leaves, when its samples are among those of the whole run. */
  lemma {:induction false} LastStep(events: seq<Event>, lo: int, hi: int)
    requires events != [] && Run(events).Some? && AllWithin(Run(events).value.samples, lo, hi)
    ensures var before, e := Run(events[..|events| - 1]), events[|events| - 1];
            && before.Some? && Inv(before.value) && AllWithin(before.value.samples, lo, hi)
            && var t, t' := before.value, Run(events).value;
               if Enabled(t, e) && e.Sample? && Accepted(e.rtt, e.acked, e.now) then
                 && t'.samples == t.samples + [e.rtt] && t'.m.srtt == ExactSmooth(t.m, e.rtt).srtt && lo <= e.rtt <= hi
               else t'.samples == t.samples && t'.m.srtt == t.m.srtt
  {
    hide Inv, Step, ExactSmooth;
    var before, e := events[..|events| - 1], events[|events| - 1];
    RunInv(before);
    var t, t' := Run(before).value, Run(events).value;
    if Enabled(t, e) { SmoothedBy(t, e); }
    assert forall i :: 0 <= i < |t.samples| ==> t.samples[i] == t'.samples[i];
    if t.samples != t'.samples { assert t'.samples[|t.samples|] == e.rtt; }
  }

  /** Samples of at least 8 keep the estimate above zero, so that it never restarts. */
  lemma {:induction false} NeverRestarts(events: seq<Event>)
    requires Run(events).Some? && AllWithin(Run(events).value.samples, 8, READ_DEADLINE)
    ensures var t := Run(events).value; t.samples != [] ==> 0 < t.m.srtt
  {
    hide Inv, Run;
    if events == [] {
      assert Run(events) == Some(BEGIN) by { EmptyRun(); }
    } else {
      LastStep(events, 8, READ_DEADLINE);
      NeverRestarts(events[..|events| - 1]);
    }
  }

  lemma EmptyRun()
    ensures Run([]) == Some(BEGIN)
  {
  }

  /** The estimate is at most that average, and at most 14 below it. */
  ghost predicate Tracks(t: Trace) {
    t.samples != [] ==> Average(t.samples) - 14.0 <= t.m.srtt as real <= Average(t.samples)
  }

  /** A sample above the average that finds the estimate at zero, where it starts afresh. */
  ghost predicate Overshoots(t: Trace, e: Event) {
    && Enabled(t, e) && e.Sample? && Accepted(e.rtt, e.acked, e.now)
    && t.samples != [] && t.m.srtt == 0 && e.rtt as real > Average(t.samples)
  }

  ghost function StateAfter(events: seq<Event>): Trace {
    RunInv(events);
    Run(events).value
  }

  /** Only such a sample makes the estimate lose the average. */
  lemma {:induction false} LastTracksIff(events: seq<Event>)
    requires events != [] && Tracks(StateAfter(events[..|events| - 1]))
    ensures Tracks(StateAfter(events)) <==> !Overshoots(StateAfter(events[..|events| - 1]), events[|events| - 1])
  {
    hide Inv, Run, Enabled, Accepted;
    var before, e := events[..|events| - 1], events[|events| - 1];
    RunInv(events);
    RunInv(before);
    LastStep(events, 0, READ_DEADLINE) by { SamplesAccepted(events); }
    SmoothedWithin(before, 0, READ_DEADLINE) by { SamplesAccepted(before); }
    var t, t' := StateAfter(before), StateAfter(events);
    if t.samples != t'.samples {
      assert t'.samples[..|t.samples|] == t.samples;
      FloorEighths(t.m.srtt, e.rtt);
    }
  }

  lemma {:induction false} SamplesAccepted(events: seq<Event>)
    ensures Run(events).Some? && AllWithin(Run(events).value.samples, 0, READ_DEADLINE)
  {
    hide Inv, Update;
    RunInv(events);
    if events == [] {
    } else {
      SamplesAccepted(events[..|events| - 1]);
    }
  }

  /** In every run the estimate tracks the average throughout exactly when no sample overshoots. */
  lemma {:induction false} TracksIffNoOvershoot(events: seq<Event>)
    ensures (forall i :: 0 <= i <= |events| ==> Tracks(StateAfter(events[..i])))
            <==> forall i :: 0 <= i < |events| ==> !Overshoots(StateAfter(events[..i]), events[i])
  {
    hide Run, Tracks, Overshoots;
    if events == [] {
      assert events[..0] == [];
      NothingSampled();
    } else {
      var n := |events| - 1;
      var before := events[..n];
      assert events[..n + 1] == events;
      forall i | 0 <= i <= n ensures before[..i] == events[..i] {
      }
      TracksIffNoOvershoot(before);
      if forall i :: 0 <= i <= n ==> Tracks(StateAfter(before[..i])) {
        assert before[..n] == before;
        LastTracksIff(events);
      }
    }
  }

  lemma NothingSampled()
    ensures Tracks(StateAfter([]))
  {
  }

  /** As long as no sample is below 8, no sample overshoots: the estimate tracks the average. */
  lemma {:induction false} SmoothedTracksAverage(events: seq<Event>)
    requires Run(events).Some? && AllWithin(Run(events).value.samples, 8, READ_DEADLINE)
    ensures Tracks(Run(events).value)
  {
    hide Inv, Run, Average;
    if events == [] {
      EmptyRun();
    } else {
      LastStep(events, 8, READ_DEADLINE);
      SmoothedTracksAverage(events[..|events| - 1]);
      NeverRestarts(events[..|events| - 1]);
      LastTracksIff(events);
    }
  }

  lemma {:induction false} AverageAtMost(samples: seq<nat>, hi: nat)
    requires samples != [] && AllWithin(samples, 0, hi)
    ensures Average(samples) <= hi as real
  {
    if |samples| == 1 {
    } else {
      AverageAtMost(samples[..|samples| - 1], hi);
    }
  }

  ghost function Sevens(n: nat): seq<Event> {
    if n == 0 then [] else Sevens(n - 1) + [Sample(7, 1, 1)]
  }

  /** Samples of 7 lower the estimate by one each. */
  lemma {:induction false} SevensFall(n: nat)
    requires 1 <= n <= 8
    ensures var t := Run(Sevens(n));
            && t.Some? && Inv(t.value) && t.value.clock <= 1 && t.value.count == n && t.value.m.srtt == 8 - n
            && |t.value.samples| == n && AllWithin(t.value.samples, 7, 7)
  {
    hide Inv, Update;
    var events := Sevens(n);
    assert events[..n - 1] == Sevens(n - 1) && |events| == n by { SevensLength(n); }
    RunInv(events);
    if n == 1 {
      SmoothedBy(BEGIN, Sample(7, 1, 1)) by { RunInv([]); }
    } else {
      SevensFall(n - 1);
      SmoothedBy(Run(Sevens(n - 1)).value, Sample(7, 1, 1));
    }
  }

  lemma {:induction false} SevensLength(n: nat)
    ensures |Sevens(n)| == n && (n > 0 ==> Sevens(n)[..n - 1] == Sevens(n - 1))
  {
    if n == 0 {
    } else {
      SevensLength(n - 1);
    }
  }

  /** Samples of 7 are too small for that: eight of them bring the estimate to zero, it restarts at the next
      sample, and is then above the average. */
  lemma {:induction false} SevensRestart()
    ensures var t := Run(Sevens(8) + [Sample(1000, 1, 1)]);
            t.Some? && AllWithin(t.value.samples, 7, 1000) && t.value.samples != []
            && t.value.m.srtt == 1000 && Average(t.value.samples) < 1000.0 && !Tracks(t.value)
  {
    hide Inv, Update;
    var e := Sample(1000, 1, 1);
    var events := Sevens(8) + [e];
    SevensFall(8);
    SevensLength(8);
    assert events[..|events| - 1] == Sevens(8);
    var t := Run(Sevens(8)).value;
    SmoothedBy(t, e);
    var samples := Run(events).value.samples;
    assert samples[..|samples| - 1] == t.samples;
    AverageAtMost(t.samples, 7);
  }

  /** In every run a duplicate acknowledgement leaves 98 and a loss 95 parts in a hundred of the bandwidth,
      rounded down and without wrapping, and ends startup. */
  lemma {:induction false} ReductionsExact(events: seq<Event>)
    ensures Run(events).Some?
    ensures var m := Run(events).value.m;
            && DuplicateAck(m) == m.(bwMax := m.bwMax * 98 / 100, gain := DUP_ACK_GAIN, isStartup := false)
            && PacketLoss(m) == m.(bwMax := m.bwMax * 95 / 100, gain := NORMAL_GAIN, isStartup := false)
  {
    hide Wrap;
    RunInv(events);
  }

  /** Whether the smallest round trip is set anew: it is ten seconds old, or the sample is smaller. */
  predicate Renewed(m: Measure, rtt: nat, now: nat) {
    now >= m.rttMinTime + 10_000_000_000 || rtt < m.rttMin
  }

  /** The gain: 277 until three samples in a row brought no more bandwidth; then 75 when the round trip is more than
      half above the smallest, 90 when more than a quarter, 125 when eight smallest round trips went by since the last
      probe, else 100. */
  function GainOf(wasStartup: bool, misses: nat, srtt: nat, rttMin: nat, sinceProbe: int): nat
    requires 0 < rttMin
  {
    if wasStartup then (if misses < 3 then 277 else 100)
    else if srtt * 100 / rttMin > 150 then 75
    else if srtt * 100 / rttMin > 125 then 90
    else if sinceProbe > 8 * rttMin then 125
    else 100
  }

  /** What one accepted sample does, in plain numbers. */
  ghost predicate Sampled(m: Measure, rtt: nat, acked: nat, now: nat, m': Measure) {
    var rttMin := if Renewed(m, rtt, now) then rtt else m.rttMin;
    && 0 < rttMin && m'.rttMin == rttMin && m'.rttMinTime == (if Renewed(m, rtt, now) then now else m.rttMinTime)
    && m'.srtt == (if m.srtt == 0 then rtt else m.srtt * 7 / 8 + rtt / 8)
    && m'.rttvar == (if m.srtt == 0 then rtt / 2
                     else m.rttvar * 3 / 4 + (if rtt > m.srtt then rtt - m.srtt else m.srtt - rtt) / 4)
    && var bw := acked * 1_000_000_000 / rttMin;
    && m'.bwMax == Max(m.bwMax, bw) && m'.bwDec == (if bw > m.bwMax then 0 else m.bwDec + 1)
    && m'.isStartup == (m.isStartup && m'.bwDec < 3)
    && m'.gain == GainOf(m.isStartup, m'.bwDec, m'.srtt, rttMin, if m.lastProbe == 0 then 0 else now - m.lastProbe)
    && m'.lastProbe == (if m.lastProbe == 0 || (!m.isStartup && m'.gain == 125) then now else m.lastProbe)
  }

  lemma {:induction false} SmoothInNumbers(m: Measure, rtt: nat)
    ensures var m1 := ExactSmooth(m, rtt);
            && m1 == m.(srtt := m1.srtt, rttvar := m1.rttvar)
            && m1.srtt == (if m.srtt == 0 then rtt else m.srtt * 7 / 8 + rtt / 8)
            && m1.rttvar == (if m.srtt == 0 then rtt / 2
                             else m.rttvar * 3 / 4 + (if rtt > m.srtt then rtt - m.srtt else m.srtt - rtt) / 4)
  {
  }

  lemma {:induction false} BandwidthInNumbers(m: Measure, acked: nat)
    requires 0 < m.rttMin
    ensures var m1, bw := ExactBandwidth(m, acked), acked * 1_000_000_000 / m.rttMin;
            && m1 == m.(bwMax := m1.bwMax, bwDec := m1.bwDec)
            && m1.bwMax == Max(m.bwMax, bw) && m1.bwDec == (if bw > m.bwMax then 0 else m.bwDec + 1)
  {
  }

  lemma {:induction false} SteerInNumbers(m: Measure, now: nat)
    requires 0 < m.rttMin && !m.isStartup
    ensures var m1 := ExactSteer(m, now);
            && m1 == m.(gain := m1.gain, lastProbe := m1.lastProbe)
            && m1.gain == GainOf(false, m.bwDec, m.srtt, m.rttMin, now - m.lastProbe)
            && m1.lastProbe == (if m1.gain == 125 then now else m.lastProbe)
  {
  }

  lemma {:induction false} ExactInNumbers(m: Measure, rtt: nat, acked: nat, now: nat)
    requires Accepted(rtt, acked, now) && 0 < m.rttMin && (m.isStartup ==> m.gain == 277)
    ensures Sampled(m, rtt, acked, now, ExactUpdate(m, rtt, acked, now))
  {
    hide ExactSmooth, ExactBandwidth, ExactSteer;
    var m1 := ExactSmooth(m, rtt);
    SmoothInNumbers(m, rtt);
    var m2 := if Renewed(m, rtt, now) then m1.(rttMin := rtt, rttMinTime := now) else m1;
    var m3 := ExactBandwidth(m2, acked);
    BandwidthInNumbers(m2, acked);
    var m4 := if m3.lastProbe == 0 then m3.(lastProbe := now) else m3;
    if !m4.isStartup { SteerInNumbers(m4, now); }
  }

  lemma {:induction false} UpdateInNumbers(t: Trace, rtt: nat, acked: nat, now: nat)
    requires Inv(t) && Enabled(t, Sample(rtt, acked, now)) && Accepted(rtt, acked, now)
    ensures var m' := Update(t.m, rtt, acked, now); m'.Some? && Sampled(t.m, rtt, acked, now, m'.value)
  {
    hide Update, Sampled, ExactUpdate, Bounded, MinOk;
    UpdateIsExact(t, rtt, acked, now);
    ExactInNumbers(t.m, rtt, acked, now);
  }

  /** In every run, a sample of up to thirty seconds changes the estimates as those numbers say, and any other sample
      changes nothing. */
  lemma {:induction false} SampledExactly(events: seq<Event>, rtt: nat, acked: nat, now: nat)
    requires Run(events).Some? && Enabled(Run(events).value, Sample(rtt, acked, now))
    ensures var t, t' := Run(events), Run(events + [Sample(rtt, acked, now)]);
            && t'.Some?
            && if 0 < rtt <= 30_000_000_000 && 0 < acked && 0 < now then Sampled(t.value.m, rtt, acked, now, t'.value.m)
               else t'.value.m == t.value.m
  {
    hide Inv, Update, Sampled, Enabled;
    var e := Sample(rtt, acked, now);
    var all := events + [e];
    assert all[..|all| - 1] == events;
    RunInv(events);
    RunInv(all);
    var t := Run(events).value;
    if Accepted(rtt, acked, now) { UpdateInNumbers(t, rtt, acked, now); } else { Discarded(t.m, rtt, acked, now); }
  }

  lemma Discarded(m: Measure, rtt: nat, acked: nat, now: nat)
    requires !Accepted(rtt, acked, now)
    ensures Update(m, rtt, acked, now) == Some(m)
  {
  }

  /** The timeout is always between 100 ms and 2 s: the sum of section 2.3 of RFC 6298 clamped to that, 200 ms as
      long as nothing was measured; and the back-off doubles it for every retry allowed. */
  lemma {:induction false} RtoBounds(events: seq<Event>)
    ensures Run(events).Some?
    ensures var m := Run(events).value.m; var sum := m.srtt + 4 * m.rttvar;
            && MIN_RTO <= Rto(m) <= MAX_RTO
            && (forall n :: 1 <= n <= SS.MAX_RETRY ==> SS.Backoff(Rto(m), n) == SS.Doubled(Rto(m), n - 1))
            && (sum > 0 ==> Rto(m) == Min(Max(sum, 100_000_000), 2_000_000_000))
            && (sum == 0 ==> Rto(m) == 200_000_000)
  {
    hide Wrap, SS.Backoff;
    RunInv(events);
    var rto := Rto(Run(events).value.m);
    assert SS.Doubled(rto, 3) == 8 * rto by { EightTimes(rto); }
    forall n | 1 <= n <= SS.MAX_RETRY ensures SS.Backoff(rto, n) == SS.Doubled(rto, n - 1) {
      SS.BackoffDoublesIff(rto, n);
      if n > 1 { DoubledGrows(rto, n - 2, 3); }
    }
  }

  lemma EightTimes(t: nat)
    ensures SS.Doubled(t, 3) == 8 * t
  {
    assert SS.Doubled(t, 1) == 2 * t && SS.Doubled(t, 2) == 4 * t;
  }

  lemma {:induction false} DoubledGrows(t: nat, a: nat, b: nat)
    requires a <= b
    ensures SS.Doubled(t, a) <= SS.Doubled(t, b)
  {
    if a == b {
    } else {
      DoubledGrows(t, a, b - 1);
    }
  }

  /** Pacing neither wraps nor divides by zero: it is the time the packet takes at the adjusted bandwidth; a tenth of
      the round trip while no bandwidth is known, and 10 ms when that is not known either. */
  lemma {:induction false} PacingExact(events: seq<Event>, size: nat)
    requires size < U16
    ensures Run(events).Some?
    ensures var m := Run(events).value.m; var bw := m.bwMax * m.gain / 100;
            Pacing(m, size) == if m.bwMax == 0 && m.srtt > 0 then m.srtt / 10
                               else if bw == 0 then 10_000_000
                               else size * 1_000_000_000 / bw
  {
    hide Wrap;
    RunInv(events);
    var m := Run(events).value.m;
    TimesMonotone(m.bwMax, m.gain, STARTUP_GAIN);
  }
}
