/** Sealed datagrams. Sealing is ideal: what is sealed opens under the same key, nonce and header, and under
    no other; its size is that of section 2.8 of RFC 8439. */
module Sealing {
  import opened Common
  import opened Messages
  import opened Nonce
  import opened Wire

  datatype Sealed<K> = Sealed(key: K, nonce: Bytes, plain: Bytes, header: Bytes)

  function Open<K(==)>(key: K, nonce: Bytes, s: Sealed<K>, header: Bytes): Option<Bytes> {
    if s.key == key && s.nonce == nonce && s.header == header then Some(s.plain) else None
  }

  /** A sequence number under a pad that only the key and the sealed bytes give. */
  datatype MaskedSn<K> = MaskedSn(key: K, pad: Sealed<K>, sn: nat)

  datatype Datagram<K> = Datagram(header: Bytes, sn: MaskedSn<K>, sealed: Sealed<K>)

  function Size<K>(d: Datagram<K>): nat {
    |d.header| + SN_SIZE + |d.sealed.plain| + MAC_SIZE
  }

  function Seal<K>(key: K, isSender: bool, c: Counter, header: Bytes, plain: Bytes): Datagram<K> {
    var sealed := Sealed(key, NonceOf(isSender, c.epoch, c.sn), plain, header);
    Datagram(header, MaskedSn(key, sealed, c.sn), sealed)
  }

  /** The number read off with a key; `noise` is what any other key gives. */
  function Unmask<K(==)>(key: K, d: Datagram<K>, noise: nat): nat {
    if d.sn.key == key && d.sn.pad == d.sealed then d.sn.sn else noise
  }

  /** The current epoch, the one before and the next. */
  function Tried(epoch: nat): seq<nat> {
    if epoch > 0 then [epoch, epoch - 1, epoch + 1] else [epoch, epoch + 1]
  }

  datatype Opened = Opened(sn: nat, epoch: nat, plain: Bytes)

  function FirstOpen<K(==)>(key: K, isSender: bool, sn: nat, d: Datagram<K>, epochs: seq<nat>): Option<Opened> {
    if epochs == [] then None
    else
      var plain := Open(key, NonceOf(!isSender, epochs[0], sn), d.sealed, d.header);
      if plain.Some? then Some(Opened(sn, epochs[0], plain.value)) else FirstOpen(key, isSender, sn, d, epochs[1..])
  }

  /** What an endpoint reads from a datagram of its peer. */
  function Decrypt<K(==)>(key: K, isSender: bool, epoch: nat, d: Datagram<K>, noise: nat): Option<Opened> {
    FirstOpen(key, isSender, Unmask(key, d, noise), d, Tried(epoch))
  }

  /** Tries the epochs in turn until one opens the packet. */
  method ChainedDecrypt<K(==)>(key: K, isSender: bool, epoch: nat, d: Datagram<K>, noise: nat)
    returns (r: Option<Opened>)
    ensures r == Decrypt(key, isSender, epoch, d, noise)
  {
    var sn := Unmask(key, d, noise);
    var epochs := [epoch];
    if epoch > 0 {
      epochs := epochs + [epoch - 1];
    }
    epochs := epochs + [epoch + 1];
    assert epochs[0..] == Tried(epoch);
    var i := 0;
    while i < |epochs|
      invariant 0 <= i <= |epochs|
      invariant FirstOpen(key, isSender, sn, d, epochs[i..]) == Decrypt(key, isSender, epoch, d, noise)
    {
      var nonce := BuildNonce(!isSender, epochs[i], sn);
      var plain := Open(key, nonce[..], d.sealed, d.header);
      assert epochs[i..][1..] == epochs[i + 1..];
      if plain.Some? {
        return Some(Opened(sn, epochs[i], plain.value));
      }
      i := i + 1;
    }
    r := None;
  }

  // ---------- When a packet opens ----------

  lemma {:induction false} OpensFirst<K>(key: K, isSender: bool, c: Counter, header: Bytes, plain: Bytes,
                                         epochs: seq<nat>)
    requires c.epoch < U48 && c.sn < U48 && forall i :: 0 <= i < |epochs| ==> epochs[i] < U48
    ensures var r := FirstOpen(key, isSender, c.sn, Seal(key, !isSender, c, header, plain), epochs);
            && (r.Some? <==> exists i :: 0 <= i < |epochs| && Masked(epochs[i]) == Masked(c.epoch))
            && (r.Some? ==> r.value.plain == plain && r.value.sn == c.sn && Masked(r.value.epoch) == Masked(c.epoch)
                            && r.value.epoch in epochs)
  {
    if epochs == [] {
    } else {
      NonceInjectiveIff(!isSender, epochs[0], c.sn, !isSender, c.epoch, c.sn);
      OpensFirst(key, isSender, c, header, plain, epochs[1..]);
      var r := FirstOpen(key, isSender, c.sn, Seal(key, !isSender, c, header, plain), epochs);
      if Masked(epochs[0]) != Masked(c.epoch) {
        if i :| 0 <= i < |epochs| && Masked(epochs[i]) == Masked(c.epoch) {
          assert epochs[1..][i - 1] == epochs[i];
        }
        if i :| 0 <= i < |epochs[1..]| && Masked(epochs[1..][i]) == Masked(c.epoch) {
          assert epochs[i + 1] == epochs[1..][i];
        }
      }
    }
  }

  lemma {:induction false} NeverOpens<K>(key: K, isSender: bool, sn: nat, d: Datagram<K>, epochs: seq<nat>)
    requires d.sealed.key != key || (|d.sealed.nonce| > 0 && (d.sealed.nonce[0] >= 128 <==> isSender))
    ensures FirstOpen(key, isSender, sn, d, epochs).None?
  {
    if epochs == [] {
    } else {
      DirectionShows(!isSender, epochs[0], sn);
      NeverOpens(key, isSender, sn, d, epochs[1..]);
    }
  }

  lemma {:induction false} DirectionShows(isSender: bool, epoch: nat, sn: nat)
    ensures NonceOf(isSender, epoch, sn)[0] >= 128 <==> isSender
  {
  }

  lemma {:induction false} OtherHeader<K>(key: K, isSender: bool, sn: nat, d: Datagram<K>, epochs: seq<nat>)
    requires d.header != d.sealed.header
    ensures FirstOpen(key, isSender, sn, d, epochs).None?
  {
    if epochs == [] {
    } else {
      OtherHeader(key, isSender, sn, d, epochs[1..]);
    }
  }

  /** A packet whose header was changed does not open, whatever key and epoch are tried. */
  lemma {:induction false} ChangedHeader<K>(key: K, dir: bool, c: Counter, header: Bytes, plain: Bytes,
                                            header': Bytes, key': K, isSender: bool, epoch: nat, noise: nat)
    requires header' != header
    ensures Decrypt(key', isSender, epoch, Seal(key, dir, c, header, plain).(header := header'), noise).None?
  {
    var d := Seal(key, dir, c, header, plain).(header := header');
    OtherHeader(key', isSender, Unmask(key', d, noise), d, Tried(epoch));
  }

  /** A packet opens exactly with the key it was sealed with, at the other end, and when an epoch tried is
      the packet's up to bit 7; what comes out is what went in. */
  lemma {:induction false} OpensIff<K>(key: K, dir: bool, c: Counter, header: Bytes, plain: Bytes,
                                       key': K, isSender: bool, epoch: nat, noise: nat)
    requires c.epoch < U48 && c.sn < U48 && epoch + 1 < U48
    ensures var r := Decrypt(key', isSender, epoch, Seal(key, dir, c, header, plain), noise);
            && (r.Some? <==> key' == key && dir != isSender
                             && exists i :: 0 <= i < |Tried(epoch)| && Masked(Tried(epoch)[i]) == Masked(c.epoch))
            && (r.Some? ==> r.value.plain == plain && r.value.sn == c.sn)
  {
    var d := Seal(key, dir, c, header, plain);
    if key' == key && dir != isSender {
      OpensFirst(key, isSender, c, header, plain, Tried(epoch));
    } else {
      DirectionShows(dir, c.epoch, c.sn);
      NeverOpens(key', isSender, Unmask(key', d, noise), d, Tried(epoch));
    }
  }

  /** Near its own epoch the receiver also learns the packet's true epoch. */
  lemma {:induction false} OpensExactly<K>(key: K, isSender: bool, c: Counter, header: Bytes, plain: Bytes, epoch: nat,
                                           noise: nat)
    requires c.epoch < U48 && c.sn < U48 && epoch + 1 < U48 && -1 <= c.epoch - epoch <= 1
    ensures Decrypt(key, isSender, epoch, Seal(key, !isSender, c, header, plain), noise)
            == Some(Opened(c.sn, c.epoch, plain))
  {
    var t := Tried(epoch);
    OpensFirst(key, isSender, c, header, plain, t);
    assert c.epoch == t[0] || c.epoch == t[|t| - 1] || (epoch > 0 && c.epoch == t[1]);
    var e := Decrypt(key, isSender, epoch, Seal(key, !isSender, c, header, plain), noise).value.epoch;
    NearSame(e, c.epoch);
  }

  /** Within the first 127 epochs a packet opens exactly when it is at most one epoch away. */
  lemma {:induction false} OpensNearIff<K>(key: K, isSender: bool, c: Counter, header: Bytes, plain: Bytes, epoch: nat,
                                           noise: nat)
    requires c.epoch < 128 && c.sn < U48 && epoch < 127
    ensures Decrypt(key, isSender, epoch, Seal(key, !isSender, c, header, plain), noise).Some?
            <==> -1 <= c.epoch - epoch <= 1
  {
    if -1 <= c.epoch - epoch <= 1 {
      OpensExactly(key, isSender, c, header, plain, epoch, noise);
    } else {
      OpensIff(key, !isSender, c, header, plain, key, isSender, epoch, noise);
      forall i | 0 <= i < |Tried(epoch)| ensures Masked(Tried(epoch)[i]) != Masked(c.epoch) {
        var t := Tried(epoch)[i];
        if t < c.epoch { MaskedNear(t, c.epoch); } else { MaskedNear(c.epoch, t); }
      }
    }
  }

  // ---------- Padding ----------

  /** An initial packet with data is filled up to the MTU, length of the filling first. */
  function Pad(payload: Bytes, mtu: nat): Option<Bytes> {
    var fill := mtu - (CryptoHeaderSize(InitCryptoSnd) + FOOTER_SIZE + FILL_LEN_SIZE + |payload|);
    if fill < 0 then None else Some(LE(2, fill) + Zeros(fill) + payload)
  }

  function Zeros(n: nat): Bytes { seq(n, _ => 0) }

  /** The payload behind the filling; `Overrun` is a slice out of range. */
  datatype Stripped = Stripped(payload: Bytes) | Overrun

  function Unpad(b: Bytes): Stripped {
    if |b| < 2 || |b| < 2 + UnLE(b[..2]) then Overrun else Stripped(b[2 + UnLE(b[..2])..])
  }

  lemma {:induction false} UnpadPad(payload: Bytes, mtu: nat)
    requires mtu < U16 && Pad(payload, mtu).Some?
    ensures Unpad(Pad(payload, mtu).value) == Stripped(payload)
    ensures |Pad(payload, mtu).value| == mtu - CryptoHeaderSize(InitCryptoSnd) - FOOTER_SIZE
  {
    var b := Pad(payload, mtu).value;
    var fill := |b| - 2 - |payload|;
    Widths();
    assert b[..2] == LE(2, fill);
    UnLEOfLE(2, fill);
    assert b[2 + fill..] == payload;
  }

  method BuildPadded(payload: Bytes, mtu: nat) returns (r: Option<Bytes>)
    ensures r == Pad(payload, mtu)
  {
    hide LE;
    var fill := mtu - (CryptoHeaderSize(InitCryptoSnd) + FOOTER_SIZE + FILL_LEN_SIZE + |payload|);
    if fill < 0 {
      return None;
    }
    var buf := new byte[FILL_LEN_SIZE + fill + |payload|](_ => 0);
    assert buf[2..2 + fill] == Zeros(fill);
    ghost var filling := buf[2..2 + fill];
    var n := PutLE(buf, 0, fill, 2);
    assert buf[..2 + fill] == buf[..2] + buf[2..][..fill];
    assert buf[..2] == LE(2, fill) && buf[2..][..fill] == filling;
    n := PutBytes(buf, 2 + fill, payload);
    assert buf[..] == buf[..2 + fill + |payload|];
    r := Some(buf[..]);
  }
}
