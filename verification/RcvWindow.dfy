/** The receive window on the wire: one byte, eight steps to each power of two. */
module RcvWindow {
  import opened Common

  /** Position of the highest bit. */
  function HighBit(n: nat): (r: nat)
    requires 0 < n
    ensures Pow2(r) <= n < Pow2(r + 1)
  {
    if n == 1 then 0 else 1 + HighBit(n / 2)
  }

  function Encode(n: nat): (c: byte) {
    if n == 0 then 0
    else if n <= 255 then 1
    else
      var highBit := HighBit(n);
      HighBitAtLeast(n);
      var lowerBits := n / Pow2(highBit - 3) % 8;
      var encoded := (highBit - 8) * 8 + lowerBits + 2;
      if encoded > 255 then 255 else encoded
  }

  function Decode(c: byte): (n: nat)
  {
    if c == 0 then 0
    else if c == 1 then 128
    else
      var adjusted := c - 2;
      var highBit, subStep := adjusted / 8 + 8, adjusted % 8;
      var base := Pow2(highBit);
      base + subStep * (base / 8)
  }

  // ---------- Powers of two ----------

  lemma {:induction false} PowMonotone(a: nat, b: nat)
    requires a <= b
    ensures Pow2(a) <= Pow2(b)
  {
    if a == b {
    } else {
      PowMonotone(a, b - 1);
    }
  }

  lemma {:induction false} HighBitIs(n: nat, h: nat)
    requires Pow2(h) <= n < Pow2(h + 1)
    ensures HighBit(n) == h
  {
    var r := HighBit(n);
    if r < h { PowMonotone(r + 1, h); } else if h < r { PowMonotone(h + 1, r); }
  }

  lemma HighBitAtLeast(n: nat)
    requires 256 <= n
    ensures HighBit(n) >= 8
  {
    var r := HighBit(n);
    assert Pow2(8) == 256;
    if r < 8 { PowMonotone(r + 1, 8); }
  }

  lemma {:induction false} HighBitMonotone(n: nat, m: nat)
    requires 0 < n <= m
    ensures HighBit(n) <= HighBit(m)
  {
    if HighBit(m) < HighBit(n) { PowMonotone(HighBit(m) + 1, HighBit(n)); }
  }

  lemma {:induction false} EighthOf(h: nat)
    requires 3 <= h
    ensures Pow2(h) == 8 * Pow2(h - 3)
  {
    assert Pow2(h) == 2 * Pow2(h - 1) && Pow2(h - 1) == 2 * Pow2(h - 2) && Pow2(h - 2) == 2 * Pow2(h - 3);
  }

  /** q * u for the eight steps, and the end of the last. */
  ghost function Steps(q: nat, u: nat): nat
    requires 8 <= q <= 16
  {
    if q == 8 then 8 * u else if q == 9 then 9 * u else if q == 10 then 10 * u else if q == 11 then 11 * u
    else if q == 12 then 12 * u else if q == 13 then 13 * u else if q == 14 then 14 * u
    else if q == 15 then 15 * u else 16 * u
  }

  lemma {:induction false} Quotient(n: nat, u: nat, q: nat)
    requires 0 < u && 8 <= q < 16 && Steps(q, u) <= n < Steps(q + 1, u)
    ensures n / u == q
  {
    StepsAre(q, u);
    StepsAre(q + 1, u);
    DivUnique(n, u, q, n - q * u);
  }

  lemma {:induction false} StepsAre(q: nat, u: nat)
    requires 8 <= q <= 16
    ensures Steps(q, u) == q * u == 8 * u + (q - 8) * u
  {
    assert q * u == 8 * u + (q - 8) * u;
  }

  // ---------- One step of the code ----------

  /** A window in step q, of 8 to 15, within the power of two h. */
  ghost predicate InStep(n: nat, h: nat, q: nat) {
    8 <= h && 8 <= q < 16 && Steps(q, Pow2(h - 3)) <= n < Steps(q + 1, Pow2(h - 3))
  }

  lemma {:induction false} StepOf(n: nat) returns (h: nat, q: nat)
    requires 256 <= n
    ensures InStep(n, h, q) && h == HighBit(n)
  {
    h := HighBit(n);
    HighBitAtLeast(n);
    EighthOf(h);
    EighthOf(h + 1);
    var u := Pow2(h - 3);
    q := 8;
    while Steps(q + 1, u) <= n
      invariant 8 <= q < 16 && Steps(q, u) <= n < 16 * u
    {
      q := q + 1;
    }
  }

  ghost function CodeOf(h: nat, q: nat): int {
    (h - 8) * 8 + (q - 8) + 2
  }

  lemma {:induction false} StepHigh(n: nat, h: nat, q: nat)
    requires InStep(n, h, q)
    ensures 256 <= n && HighBit(n) == h
  {
    EighthOf(h);
    EighthOf(h + 1);
    PowMonotone(8, h);
    assert Pow2(8) == 256;
    HighBitIs(n, h);
  }

  lemma {:induction false} StepCode(n: nat, h: nat, q: nat)
    requires InStep(n, h, q)
    ensures 256 <= n && HighBit(n) == h && Encode(n) == Min(CodeOf(h, q), 255)
  {
    hide Steps, Pow2, HighBit;
    StepHigh(n, h, q);
    Quotient(n, Pow2(h - 3), q);
    assert n / Pow2(h - 3) % 8 == q - 8;
  }

  lemma {:induction false} StepDecode(c: byte)
    requires 2 <= c
    ensures var h, q := (c - 2) / 8 + 8, (c - 2) % 8 + 8; Decode(c) == Steps(q, Pow2(h - 3)) && InStep(Decode(c), h, q)
  {
    hide Pow2;
    var h, q := (c - 2) / 8 + 8, (c - 2) % 8 + 8;
    EighthOf(h);
    StepsAre(q, Pow2(h - 3));
    StepsNext(q, Pow2(h - 3));
  }

  lemma StepsNext(q: nat, u: nat)
    requires 8 <= q < 16
    ensures Steps(q + 1, u) == Steps(q, u) + u && 8 * u <= Steps(q, u)
  {
  }

  // ---------- What the code guarantees ----------

  /** Encoding what a code stands for gives that code back: the 256 codes are all told apart. */
  lemma {:induction false} EncodeDecode(c: byte)
    ensures Encode(Decode(c)) == c
  {
    if 2 <= c {
      StepDecode(c);
      StepCode(Decode(c), (c - 2) / 8 + 8, (c - 2) % 8 + 8);
    }
  }

  lemma {:induction false} EncodeMonotone(n: nat, m: nat)
    requires n <= m
    ensures Encode(n) <= Encode(m)
  {
    if 256 <= n {
      LargeMonotone(n, m);
    } else if 256 <= m {
      var h, q := StepOf(m);
      StepCode(m, h, q);
    }
  }

  lemma {:induction false} LargeMonotone(n: nat, m: nat)
    requires 256 <= n <= m
    ensures Encode(n) <= Encode(m)
  {
    hide Encode, HighBit, Pow2, Steps;
    var h, q := StepOf(n);
    var h', q' := StepOf(m);
    StepCode(n, h, q);
    StepCode(m, h', q');
    HighBitMonotone(n, m);
    if h == h' { StepsGrow(q' + 1, q, Pow2(h - 3)); }
  }

  lemma {:induction false} StepsGrow(q: nat, q': nat, u: nat)
    requires 8 <= q <= 16 && 8 <= q' <= 16
    ensures q <= q' ==> Steps(q, u) <= Steps(q', u)
  {
  }

  const SIXTEENTH := 0x10_0000_0000

  lemma Powers()
    ensures Pow2(36) == SIXTEENTH && Pow2(39) == 8 * SIXTEENTH && Pow2(40) == 16 * SIXTEENTH
  {
    assert Pow2(12) == 0x1000;
    assert Pow2(24) == 0x100_0000;
    assert Pow2(36) == SIXTEENTH;
    EighthOf(39);
  }

  /** The code is cut off at 255 from the step 14 * 2^36 on. */
  lemma {:induction false} ClampedIff(n: nat, h: nat, q: nat)
    requires InStep(n, h, q)
    ensures CodeOf(h, q) > 255 <==> 14 * SIXTEENTH <= n
  {
    Powers();
    if h < 39 {
      EighthOf(h + 1);
      PowMonotone(h + 1, 39);
    } else if 39 < h {
      EighthOf(h);
      PowMonotone(40, h);
    }
  }

  /** What a window of at least 256 bytes is rounded down to, in steps of u. */
  lemma {:induction false} Quantised(n: nat) returns (u: nat)
    requires 256 <= n
    ensures 8 * u <= Decode(Encode(n)) <= n
    ensures if n < 14 * SIXTEENTH then n < Decode(Encode(n)) + u else Decode(Encode(n)) == 13 * SIXTEENTH
  {
    hide Encode, Decode, HighBit, Pow2, Steps, CodeOf;
    var h, q := StepOf(n);
    StepCode(n, h, q);
    ClampedIff(n, h, q);
    if CodeOf(h, q) <= 255 {
      u := Pow2(h - 3);
      DecodeStep(h, q);
      StepsNext(q, u);
    } else {
      LargestCode();
      u := SIXTEENTH;
    }
  }

  lemma {:induction false} LastStepIff(n: nat, h: nat, q: nat)
    requires InStep(n, h, q)
    ensures CodeOf(h, q) >= 255 <==> 13 * SIXTEENTH <= n
  {
    Powers();
    if h < 39 {
      EighthOf(h + 1);
      PowMonotone(h + 1, 39);
    } else if 39 < h {
      EighthOf(h);
      PowMonotone(40, h);
    }
  }

  /** The largest code stands for exactly the windows from 13 * 2^36 bytes on. */
  lemma {:induction false} SaturatesIff(n: nat)
    ensures Encode(n) == 255 <==> 13 * SIXTEENTH <= n
  {
    if 256 <= n {
      hide Encode, HighBit, Pow2, Steps, CodeOf;
      var h, q := StepOf(n);
      StepCode(n, h, q);
      LastStepIff(n, h, q);
    }
  }

  lemma LargestCode()
    ensures Decode(255) == 13 * SIXTEENTH
  {
    Powers();
  }

  lemma {:induction false} DecodeStep(h: nat, q: nat)
    requires 8 <= h && 8 <= q < 16 && CodeOf(h, q) <= 255
    ensures Decode(CodeOf(h, q)) == Steps(q, Pow2(h - 3))
  {
    hide Decode, Pow2, Steps;
    CodeSplits(h, q);
    StepDecode(CodeOf(h, q));
  }

  lemma CodeSplits(h: nat, q: nat)
    requires 8 <= h && 8 <= q < 16
    ensures (CodeOf(h, q) - 2) / 8 + 8 == h && (CodeOf(h, q) - 2) % 8 + 8 == q
  {
  }

  /** The peer never takes the window to be larger than it is, except for one of 1 to 127 bytes. */
  lemma {:induction false} NeverOverstatedIff(n: nat)
    ensures Decode(Encode(n)) <= n <==> n == 0 || 128 <= n
  {
    if 256 <= n { var _ := Quantised(n); }
  }

  /** From 256 bytes up more than eight ninths of the window are kept, exactly until the largest code
      no longer reaches: 117/8 of 2^36 bytes. */
  lemma {:induction false} LossBoundIff(n: nat)
    requires 256 <= n
    ensures 8 * n < 9 * Decode(Encode(n)) <==> 8 * n < 117 * SIXTEENTH
  {
    var _ := Quantised(n);
  }
}
