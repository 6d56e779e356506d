/** Byte ranges of a stream, and the 64-bit key that names one. */
module Ranges {
  import opened Common

  datatype Range = Range(offset: nat, len: nat) {
    function End(): nat { offset + len }

    ghost predicate Holds(p: int) { offset <= p < End() }
  }

  ghost predicate Within(a: Range, b: Range) {
    b.offset <= a.offset && a.End() <= b.End()
  }

  ghost predicate Apart(a: Range, b: Range) {
    a.End() <= b.offset || b.End() <= a.offset
  }

  /** Two ranges that do not cross. */
  ghost predicate NestedOrApart(a: Range, b: Range) {
    Within(a, b) || Within(b, a) || Apart(a, b)
  }

  /** The range a packet key names: the key keeps 48 bits of offset and 16 of length. */
  function KeyRange(offset: nat, len: nat): (r: Range)
    ensures offset < U48 && len < U16 ==> r == Range(offset, len)
  {
    Range(Wrap(offset, U48), Wrap(len, U16))
  }

  /** `packetKey` as the source stores it, in one 64-bit word. */
  function PacketKey(offset: nat, len: nat): (k: nat)
    requires len < U16
  {
    (offset * U16) % U64 + len
  }

  function KeyOffset(k: nat): nat { k / U16 }

  function KeyLength(k: nat): nat { k % U16 }

  /** The word fits 64 bits and gives back exactly the range it stands for, whatever
      offset it was made from; so two keys agree exactly when their ranges do. */
  lemma PacketKeyNamesRange(offset: nat, len: nat)
    requires len < U16
    ensures PacketKey(offset, len) < U64
    ensures Range(KeyOffset(PacketKey(offset, len)), KeyLength(PacketKey(offset, len))) == KeyRange(offset, len)
  {
    WrapIsMod(offset, U48);
    var q := offset / U48;
    assert offset == q * U48 + offset % U48;
    assert offset * U16 == q * U64 + (offset % U48) * U16;
    assert (offset % U48) * U16 < U64;
    assert (offset * U16) % U64 == (offset % U48) * U16;
  }

  lemma PacketKeyInjective(a: Range, b: Range)
    requires a.offset < U48 && b.offset < U48 && a.len < U16 && b.len < U16
    requires PacketKey(a.offset, a.len) == PacketKey(b.offset, b.len)
    ensures a == b
  {
    PacketKeyNamesRange(a.offset, a.len);
    PacketKeyNamesRange(b.offset, b.len);
  }
}
