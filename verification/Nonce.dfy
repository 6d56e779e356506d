/** The nonce of a sealed packet, and which packets share one. */
module Nonce {
  import opened Common
  import opened Wire

  const EPOCH_LIMIT := 0x8000_0000_0000

  /** A byte with bit 7 cleared. */
  function Low7(b: byte): byte {
    if b >= 128 then b - 128 else b
  }

  /** Six bytes of epoch and six of sequence number; bit 7 of the first byte is replaced by the direction. */
  function NonceOf(isSender: bool, epoch: nat, sn: nat): (b: Bytes)
    ensures |b| == 12
  {
    var e := LE(6, epoch);
    [Low7(e[0]) + if isSender then 128 else 0] + e[1..] + LE(6, sn)
  }

  /** Where everything is in a nonce: the direction in bit 7 of the first byte, around it the epoch, then the number. */
  lemma {:induction false} NonceLayout(isSender: bool, epoch: nat, sn: nat)
    ensures var b := NonceOf(isSender, epoch, sn);
            && b[0] == epoch % 128 + (if isSender then 128 else 0)
            && (forall i :: 1 <= i < 6 ==> b[i] == epoch / Pow256(i) % 256)
            && (forall i :: 0 <= i < 6 ==> b[6 + i] == sn / Pow256(i) % 256)
  {
    hide LE;
    var b := NonceOf(isSender, epoch, sn);
    LittleEndian(6, epoch, 0);
    assert Pow256(0) == 1;
    forall i | 1 <= i < 6 ensures b[i] == epoch / Pow256(i) % 256 { LittleEndian(6, epoch, i); }
    forall i | 0 <= i < 6 ensures b[6 + i] == sn / Pow256(i) % 256 { LittleEndian(6, sn, i); }
  }

  /** An epoch without its bit 7. */
  function Masked(epoch: nat): nat {
    if epoch % 256 >= 128 then epoch - 128 else epoch
  }

  /** A nonce tells direction, sequence number and masked epoch, and nothing else. */
  lemma {:induction false} NonceInjectiveIff(d1: bool, e1: nat, sn1: nat, d2: bool, e2: nat, sn2: nat)
    requires e1 < U48 && e2 < U48 && sn1 < U48 && sn2 < U48
    ensures NonceOf(d1, e1, sn1) == NonceOf(d2, e2, sn2) <==> d1 == d2 && sn1 == sn2 && Masked(e1) == Masked(e2)
  {
    var a, b := NonceOf(d1, e1, sn1), NonceOf(d2, e2, sn2);
    Widths();
    assert a[6..] == LE(6, sn1) && b[6..] == LE(6, sn2);
    UnLEOfLE(6, sn1);
    UnLEOfLE(6, sn2);
    assert a[1..6] == LE(5, e1 / 256) && b[1..6] == LE(5, e2 / 256);
    HighBytes(e1);
    HighBytes(e2);
    FirstByte(d1, e1, d2, e2);
    if a == b {
      assert e1 / 256 == e2 / 256 && a[0] == b[0];
    }
    if d1 == d2 && sn1 == sn2 && Masked(e1) == Masked(e2) {
      assert a == [a[0]] + a[1..6] + a[6..];
      assert b == [b[0]] + b[1..6] + b[6..];
    }
  }

  lemma {:induction false} HighBytes(e: nat)
    requires e < U48
    ensures UnLE(LE(5, e / 256)) == e / 256
  {
    assert Pow256(6) == U48 by { Widths(); }
    assert Pow256(6) == 256 * Pow256(5);
    UnLEOfLE(5, e / 256);
  }

  lemma FirstByte(d1: bool, e1: nat, d2: bool, e2: nat)
    ensures var a, b := Low7(e1 % 256) + (if d1 then 128 else 0), Low7(e2 % 256) + (if d2 then 128 else 0);
            a == b <==> d1 == d2 && Low7(e1 % 256) == Low7(e2 % 256)
    ensures Masked(e1) == Masked(e2) <==> e1 / 256 == e2 / 256 && Low7(e1 % 256) == Low7(e2 % 256)
  {
    var q1, r1, q2, r2 := e1 / 256, e1 % 256, e2 / 256, e2 % 256;
    assert Masked(e1) == 256 * q1 + Low7(r1) && Masked(e2) == 256 * q2 + Low7(r2);
  }

  /** Epochs 128 apart in the same block of 256 share all their nonces. */
  lemma {:induction false} SharedNonce(d: bool, e: nat, sn: nat)
    requires e % 256 < 128 && e + 128 < U48 && sn < U48
    ensures NonceOf(d, e, sn) == NonceOf(d, e + 128, sn)
  {
    NonceInjectiveIff(d, e, sn, d, e + 128, sn);
  }

  /** Packets of different direction, epoch or number differ in their nonce as long as no more than 128
      epochs are used. */
  lemma {:induction false} FirstEpochsDiffer(d1: bool, e1: nat, sn1: nat, d2: bool, e2: nat, sn2: nat)
    requires e1 < 128 && e2 < 128 && sn1 < U48 && sn2 < U48
    requires (d1, e1, sn1) != (d2, e2, sn2)
    ensures NonceOf(d1, e1, sn1) != NonceOf(d2, e2, sn2)
  {
    NonceInjectiveIff(d1, e1, sn1, d2, e2, sn2);
  }

  /** Epochs closer than 128 never share a nonce; so none of those tried on a packet do. */
  lemma {:induction false} NearEpochsDiffer(d: bool, e1: nat, e2: nat, sn: nat)
    requires e1 < e2 < e1 + 128 && e2 < U48 && sn < U48
    ensures NonceOf(d, e1, sn) != NonceOf(d, e2, sn)
  {
    NonceInjectiveIff(d, e1, sn, d, e2, sn);
    MaskedNear(e1, e2);
  }

  lemma MaskedNear(e1: nat, e2: nat)
    requires e1 < e2 < e1 + 128
    ensures Masked(e1) != Masked(e2)
  {
  }

  lemma NearSame(e1: nat, e2: nat)
    requires -128 < e1 - e2 < 128 && Masked(e1) == Masked(e2)
    ensures e1 == e2
  {
  }

  /** Fills a nonce as the source does: epoch, number, then the direction bit. */
  method BuildNonce(isSender: bool, epoch: nat, sn: nat) returns (nonce: array<byte>)
    ensures fresh(nonce) && nonce[..] == NonceOf(isSender, epoch, sn)
  {
    hide LE;
    nonce := new byte[12];
    var n := PutLE(nonce, 0, epoch, 6);
    assert nonce[..6] == LE(6, epoch);
    n := PutLE(nonce, n, sn, 6);
    assert nonce[..12] == LE(6, epoch) + LE(6, sn);
    SetBit(nonce, isSender);
  }

  method SetBit(nonce: array<byte>, isSender: bool)
    requires nonce.Length > 0
    modifies nonce
    ensures nonce[..] == [Low7(old(nonce[0])) + if isSender then 128 else 0] + old(nonce[1..])
  {
    if !isSender {
      nonce[0] := Low7(nonce[0]);
    } else {
      nonce[0] := Low7(nonce[0]) + 128;
    }
  }

  // ---------- Sequence numbers ----------

  /** The counters a connection numbers its packets with; `sn` is a 64-bit variable for a 48-bit number. */
  datatype Counter = Counter(epoch: nat, sn: nat)

  /** What `encode` does to the counters, and the number under which it returns a packet, if it does. */
  function Next(c: Counter): (Counter, Option<Counter>) {
    var sn := Wrap(c.sn + 1, U64);
    if sn > U48 - 1 then
      if c.epoch + 1 > EPOCH_LIMIT - 1 then (Counter(c.epoch, sn), None)
      else (Counter(c.epoch + 1, 0), Some(c))
    else (Counter(c.epoch, sn), Some(c))
  }

  class Numbering {
    var epoch: nat
    var sn: nat

    function Value(): Counter
      reads this
    {
      Counter(epoch, sn)
    }

    constructor ()
      ensures Value() == Counter(0, 0)
    {
      epoch, sn := 0, 0;
    }

    method Advance() returns (r: Option<Counter>)
      modifies this
      ensures (Value(), r) == Next(old(Value()))
    {
      var used := Counter(epoch, sn);
      sn := Wrap(sn + 1, U64);
      if sn > U48 - 1 {
        if epoch + 1 > EPOCH_LIMIT - 1 {
          return None;
        }
        epoch := epoch + 1;
        sn := 0;
      }
      r := Some(used);
    }
  }

  /** The counters after n packets. */
  ghost function After(n: nat): Counter {
    if n == 0 then Counter(0, 0) else Next(After(n - 1)).0
  }

  // The number of packets that can be sent, and how long the exhausted counter keeps refusing.
  const LAST := U48 * EPOCH_LIMIT - 1
  const REFUSALS := U64 - U48

  lemma ModStep(x: nat)
    ensures Wrap(x % U64 + 1, U64) == (x + 1) % U64
  {
    var q, r := x / U64, x % U64;
    assert x == q * U64 + r;
    if r + 1 < U64 {
      DivUnique(x + 1, U64, q, r + 1);
    } else {
      assert Wrap(U64, U64) == 0;
      DivUnique(x + 1, U64, q + 1, 0);
    }
  }

  /** Every packet up to the last is numbered by its place; from then on the epoch stays and the 64-bit counter
      goes round. */
  lemma {:induction false} NumbersInOrder(n: nat)
    ensures var c := After(n);
            if n <= LAST then c.epoch * U48 + c.sn == n && c.sn < U48 && c.epoch < EPOCH_LIMIT
            else c == Counter(EPOCH_LIMIT - 1, (U48 - 1 + (n - LAST)) % U64)
  {
    if n == 0 {
    } else {
      NumbersInOrder(n - 1);
      if n > LAST { ModStep(U48 - 1 + (n - 1 - LAST)); }
    }
  }

  /** Packet n is returned exactly when it comes before the last number, or when the counter that went on
      counting refusals has just gone round to a 48-bit number. */
  lemma {:induction false} ReturnedIff(n: nat)
    ensures Next(After(n)).1.Some? <==> n < LAST || (U48 + (n - LAST)) % U64 < U48
  {
    NumbersInOrder(n);
    if n >= LAST { ModStep(U48 - 1 + (n - LAST)); } else { BeforeLast(After(n), n); }
  }

  lemma BeforeLast(c: Counter, n: nat)
    requires c.epoch * U48 + c.sn == n < LAST && c.sn < U48 && c.epoch < EPOCH_LIMIT
    ensures Next(c).1.Some?
  {
  }

  /** For the first 2^64 - 2^48 packets after the last number, none is returned. */
  lemma RefusedAtFirst(n: nat)
    requires LAST <= n < LAST + REFUSALS
    ensures Next(After(n)).1.None?
  {
    ReturnedIff(n);
  }

  /** Later packets have larger numbers, in range. */
  lemma {:induction false} StrictlyIncreasing(m: nat, n: nat)
    requires m < n < LAST + REFUSALS
    requires Next(After(m)).1.Some? && Next(After(n)).1.Some?
    ensures var a, b := Next(After(m)).1.value, Next(After(n)).1.value;
            && (a.epoch < b.epoch || (a.epoch == b.epoch && a.sn < b.sn))
            && b.sn < U48 && b.epoch < EPOCH_LIMIT
  {
    if n >= LAST { RefusedAtFirst(n); }
    NumbersInOrder(m);
    NumbersInOrder(n);
  }

  /** When the 64-bit counter runs over, one more packet is returned, with the last number once more. */
  lemma {:induction false} RunsOverIn(n: nat)
    requires n == LAST + REFUSALS
    ensures After(n) == Counter(EPOCH_LIMIT - 1, U64 - 1)
            && Next(After(n)) == (Counter(EPOCH_LIMIT - 1, 0), Some(After(n)))
  {
    NumbersInOrder(n);
    assert Wrap(U64, U64) == 0;
  }

  /** All nonces of the first 128 epochs differ, in both directions together. */
  lemma {:induction false} DataNoncesDiffer(d1: bool, m: nat, d2: bool, n: nat)
    requires m < 128 * U48 && n < 128 * U48 && (d1, m) != (d2, n)
    ensures var a, b := Next(After(m)).1, Next(After(n)).1;
            a.Some? && b.Some? && NonceOf(d1, a.value.epoch, a.value.sn) != NonceOf(d2, b.value.epoch, b.value.sn)
  {
    ReturnedIff(m);
    ReturnedIff(n);
    NumbersInOrder(m);
    NumbersInOrder(n);
    FirstEpochsDiffer(d1, After(m).epoch, After(m).sn, d2, After(n).epoch, After(n).sn);
  }
}
