/** Round-trip estimate and pacing of a connection, in the integer arithmetic of the source. */
module Controller {
  import opened Common

  const MS := 1_000_000
  const SECOND := 1_000 * MS

  const DEFAULT_RTO := 200 * MS
  const MIN_RTO := 100 * MS
  const MAX_RTO := 2_000 * MS
  const RTT_EXPIRY := 10 * SECOND
  const PROBE_MULTIPLIER := 8
  const STARTUP_GAIN := 277
  const NORMAL_GAIN := 100
  const DRAIN_GAIN := 75
  const PROBE_GAIN := 125
  const BW_DEC_THRESHOLD := 3
  const DUP_ACK_BW_REDUCTION := 98
  const DUP_ACK_GAIN := 90
  const LOSS_BW_REDUCTION := 95
  const FALLBACK_INTERVAL := 10 * MS
  const RTT_DIVISOR := 10
  const RTT_INFLATION_HIGH := 150
  const RTT_INFLATION_MODERATE := 125
  const READ_DEADLINE := 30 * SECOND
  const MAX_UINT64 := U64 - 1

  datatype Measure = Measure(
    srtt: nat,
    rttvar: nat,
    isStartup: bool,
    rttMin: nat,
    rttMinTime: nat,
    bwMax: nat,
    bwDec: nat,
    lastProbe: nat,
    gain: nat)

  const FRESH := Measure(0, 0, true, MAX_UINT64, MAX_UINT64, 0, 0, 0, STARTUP_GAIN)

  // ---------- 64-bit arithmetic ----------

  function Add(x: nat, y: nat): (r: nat)
    ensures x + y < U64 ==> r == x + y
  {
    Wrap(x + y, U64)
  }

  function Mul(x: nat, y: nat): (r: nat)
    ensures x * y < U64 ==> r == x * y
  {
    Wrap(x * y, U64)
  }

  function Sub(x: nat, y: nat): (r: nat)
    ensures y <= x < U64 ==> r == x - y
  {
    if y <= x then x - y else Wrap(x + U64 - Wrap(y, U64), U64)
  }

  // ---------- The updates ----------

  /** A sample that the source does not discard. */
  predicate Accepted(rtt: nat, acked: nat, now: nat) {
    0 < rtt <= READ_DEADLINE && 0 < acked && 0 < now
  }

  function Smooth(m: Measure, rtt: nat): Measure {
    if m.srtt == 0 then m.(srtt := rtt, rttvar := rtt / 2)
    else
      var delta := if rtt > m.srtt then Sub(rtt, m.srtt) else Sub(m.srtt, rtt);
      m.(rttvar := Add(Mul(m.rttvar, 3) / 4, Mul(delta, 1) / 4), srtt := Add(Mul(m.srtt, 7) / 8, Mul(rtt, 1) / 8))
  }

  predicate Renews(m: Measure, rtt: nat, now: nat) {
    (now > m.rttMinTime && Sub(now, m.rttMinTime) >= RTT_EXPIRY) || rtt < m.rttMin
  }

  function TrackMin(m: Measure, rtt: nat, now: nat): Measure {
    if Renews(m, rtt, now) then m.(rttMin := rtt, rttMinTime := now) else m
  }

  function TrackBandwidth(m: Measure, acked: nat): Measure {
    var bw := if m.rttMin > 0 then Mul(acked, 1_000_000_000) / m.rttMin else 0;
    if bw > m.bwMax then m.(bwMax := bw, bwDec := 0) else m.(bwDec := Add(m.bwDec, 1))
  }

  /** The gain while not in startup. */
  function Steer(m: Measure, now: nat): Measure
    requires 0 < m.rttMin
  {
    var ratio := Mul(m.srtt, 100) / m.rttMin;
    if ratio > RTT_INFLATION_HIGH then m.(gain := DRAIN_GAIN)
    else if ratio > RTT_INFLATION_MODERATE then m.(gain := DUP_ACK_GAIN)
    else if Sub(now, m.lastProbe) > Mul(m.rttMin, PROBE_MULTIPLIER) then m.(gain := PROBE_GAIN, lastProbe := now)
    else m.(gain := NORMAL_GAIN)
  }

  function Estimate(m: Measure, rtt: nat, acked: nat, now: nat): Measure {
    var m1 := TrackBandwidth(TrackMin(Smooth(m, rtt), rtt, now), acked);
    if m1.lastProbe == 0 then m1.(lastProbe := now) else m1
  }

  /** `updateMeasurements`; `None` is a division by zero. */
  function Update(m: Measure, rtt: nat, acked: nat, now: nat): Option<Measure> {
    if !Accepted(rtt, acked, now) then Some(m)
    else
      var m1 := Estimate(m, rtt, acked, now);
      if !m1.isStartup then (if m1.rttMin == 0 then None else Some(Steer(m1, now)))
      else if m1.bwDec >= BW_DEC_THRESHOLD then Some(m1.(isStartup := false, gain := NORMAL_GAIN))
      else Some(m1)
  }

  function DuplicateAck(m: Measure): Measure {
    m.(bwMax := Mul(m.bwMax, DUP_ACK_BW_REDUCTION) / 100, gain := DUP_ACK_GAIN, isStartup := false)
  }

  function PacketLoss(m: Measure): Measure {
    m.(bwMax := Mul(m.bwMax, LOSS_BW_REDUCTION) / 100, gain := NORMAL_GAIN, isStartup := false)
  }

  function Rto(m: Measure): nat {
    var rto := Add(m.srtt, Mul(4, m.rttvar));
    if rto == 0 then DEFAULT_RTO else if rto < MIN_RTO then MIN_RTO else if rto > MAX_RTO then MAX_RTO else rto
  }

  function Pacing(m: Measure, size: nat): nat {
    if m.bwMax == 0 then (if m.srtt > 0 then m.srtt / RTT_DIVISOR else FALLBACK_INTERVAL)
    else
      var bw := Mul(m.bwMax, m.gain) / 100;
      if bw == 0 then FALLBACK_INTERVAL else Mul(size, 1_000_000_000) / bw
  }

  // ---------- The object ----------

  class Measurements {
    var srtt: nat
    var rttvar: nat
    var isStartup: bool
    var rttMin: nat
    var rttMinTime: nat
    var bwMax: nat
    var bwDec: nat
    var lastProbe: nat
    var gain: nat

    function Value(): Measure
      reads this
    {
      Measure(srtt, rttvar, isStartup, rttMin, rttMinTime, bwMax, bwDec, lastProbe, gain)
    }

    constructor ()
      ensures Value() == FRESH
    {
      srtt, rttvar, isStartup, rttMin, rttMinTime := 0, 0, true, MAX_UINT64, MAX_UINT64;
      bwMax, bwDec, lastProbe, gain := 0, 0, 0, STARTUP_GAIN;
    }

    method UpdateMeasurements(rtt: nat, acked: nat, now: nat)
      requires 0 < rttMin
      modifies this
      ensures Some(Value()) == Update(old(Value()), rtt, acked, now)
    {
      hide Smooth, TrackBandwidth, Steer, Wrap, Sub, Mul, Add;
      if rtt == 0 || acked == 0 || rtt > READ_DEADLINE || now == 0 {
        return;
      }
      UpdateRtt(rtt);
      if (now > rttMinTime && Sub(now, rttMinTime) >= RTT_EXPIRY) || rtt < rttMin {
        rttMin, rttMinTime := rtt, now;
      }
      UpdateBandwidth(acked);
      if lastProbe == 0 {
        lastProbe := now;
      }
      assert Value() == Estimate(old(Value()), rtt, acked, now);
      if isStartup {
        if bwDec >= BW_DEC_THRESHOLD {
          isStartup := false;
          gain := NORMAL_GAIN;
        }
      } else {
        UpdateGain(now);
      }
    }

    method UpdateRtt(rtt: nat)
      modifies this`srtt, this`rttvar
      ensures Value() == Smooth(old(Value()), rtt)
    {
      if srtt == 0 {
        srtt, rttvar := rtt, rtt / 2;
      } else {
        var delta := if rtt > srtt then Sub(rtt, srtt) else Sub(srtt, rtt);
        rttvar := Add(Mul(rttvar, 3) / 4, Mul(delta, 1) / 4);
        srtt := Add(Mul(srtt, 7) / 8, Mul(rtt, 1) / 8);
      }
    }

    method UpdateBandwidth(acked: nat)
      modifies this`bwMax, this`bwDec
      ensures Value() == TrackBandwidth(old(Value()), acked)
    {
      var bw := 0;
      if rttMin > 0 {
        bw := Mul(acked, 1_000_000_000) / rttMin;
      }
      if bw > bwMax {
        bwMax, bwDec := bw, 0;
      } else {
        bwDec := Add(bwDec, 1);
      }
    }

    method UpdateGain(now: nat)
      requires 0 < rttMin
      modifies this`gain, this`lastProbe
      ensures Value() == Steer(old(Value()), now)
    {
      var ratio := Mul(srtt, 100) / rttMin;
      if ratio > RTT_INFLATION_HIGH {
        gain := DRAIN_GAIN;
      } else if ratio > RTT_INFLATION_MODERATE {
        gain := DUP_ACK_GAIN;
      } else if Sub(now, lastProbe) > Mul(rttMin, PROBE_MULTIPLIER) {
        gain, lastProbe := PROBE_GAIN, now;
      } else {
        gain := NORMAL_GAIN;
      }
    }

    method OnDuplicateAck()
      modifies this
      ensures Value() == DuplicateAck(old(Value()))
    {
      bwMax := Mul(bwMax, DUP_ACK_BW_REDUCTION) / 100;
      gain := DUP_ACK_GAIN;
      if isStartup {
        isStartup := false;
      }
    }

    method OnPacketLoss()
      modifies this
      ensures Value() == PacketLoss(old(Value()))
    {
      bwMax := Mul(bwMax, LOSS_BW_REDUCTION) / 100;
      gain := NORMAL_GAIN;
      isStartup := false;
    }
  }
}
