/** Little-endian integers and the payload frame. */
module Wire {
  import opened Common
  import opened Messages
  import RcvWindow

  function Pow256(n: nat): (r: nat)
    ensures r > 0
  {
    if n == 0 then 1 else 256 * Pow256(n - 1)
  }

  /** The n lowest bytes of v, lowest first. */
  function LE(n: nat, v: nat): (b: Bytes)
    ensures |b| == n
  {
    if n == 0 then [] else [v % 256] + LE(n - 1, v / 256)
  }

  function UnLE(b: Bytes): (v: nat)
    ensures v < Pow256(|b|)
  {
    if b == [] then 0 else b[0] + 256 * UnLE(b[1..])
  }

  lemma {:induction false} UnLEOfLE(n: nat, v: nat)
    requires v < Pow256(n)
    ensures UnLE(LE(n, v)) == v
  {
    if n == 0 {
    } else {
      UnLEOfLE(n - 1, v / 256);
      assert LE(n, v)[1..] == LE(n - 1, v / 256);
    }
  }

  lemma {:induction false} LEOfUnLE(b: Bytes)
    ensures LE(|b|, UnLE(b)) == b
  {
    if b == [] {
    } else {
      var rest := UnLE(b[1..]);
      LEOfUnLE(b[1..]);
      DivUnique(b[0] + 256 * rest, 256, rest, b[0]);
    }
  }

  lemma Widths()
    ensures Pow256(2) == U16 && Pow256(3) == SHORT_OFFSET_MAX + 1 && Pow256(4) == U32 && Pow256(6) == U48
  {
    assert Pow256(2) == 256 * Pow256(1) && Pow256(1) == 256;
    assert Pow256(4) == 256 * Pow256(3) && Pow256(5) == 256 * Pow256(4);
  }

  // ---------- The frame ----------

  /** User data: `None` is the source's nil. */
  type UserData = Option<Bytes>

  /** An acknowledgement alone leaves out the stream fields. */
  predicate AckOnly(p: PayloadHeader, data: UserData) {
    !p.isClose && p.ack.Some? && data.None?
  }

  function TypeOf(isClose: bool, isAck: bool): nat {
    if isClose && isAck then 2 else if isClose then 3 else if isAck then 0 else 1
  }

  function HeaderByte(isClose: bool, isAck: bool, isExtend: bool): byte {
    TypeOf(isClose, isAck) * 32 + (if isExtend then 128 else 0)
  }

  function AckBytes(a: Ack, isExtend: bool): Bytes {
    LE(4, a.streamId) + LE(OffsetSize(isExtend), a.offset) + LE(2, a.len) + [RcvWindow.Encode(a.rcvWnd)]
  }

  function StreamBytes(p: PayloadHeader, isExtend: bool): Bytes {
    LE(4, p.streamId) + LE(OffsetSize(isExtend), p.streamOffset)
  }

  function BytesOf(data: UserData): Bytes {
    if data.Some? then data.value else []
  }

  function Encode(p: PayloadHeader, data: UserData): Bytes {
    var isExtend := NeedsExtension(p.ack, p.streamOffset);
    [HeaderByte(p.isClose, p.ack.Some?, isExtend)]
    + (if p.ack.Some? then AckBytes(p.ack.value, isExtend) else [])
    + (if AckOnly(p, data) then [] else StreamBytes(p, isExtend) + BytesOf(data))
  }

  datatype Frame = Frame(header: PayloadHeader, data: UserData)

  const SHORT_FRAME := 18

  function AckAt(b: Bytes, isExtend: bool): Ack
    requires |b| >= 4 + OffsetSize(isExtend) + 3
  {
    var o := OffsetSize(isExtend);
    Ack(UnLE(b[..4]), UnLE(b[4..4 + o]), UnLE(b[4 + o..6 + o]), RcvWindow.Decode(b[6 + o]))
  }

  function Decode(b: Bytes): Option<Frame> {
    if |b| < MIN_PROTO_SIZE || b[0] % 32 != 0 then None
    else
      var kind, isExtend := b[0] / 32 % 4, b[0] >= 128;
      var isAck, isClose := kind == 0 || kind == 2, kind >= 2;
      var isShort := isAck && |b| < SHORT_FRAME;
      if |b| < ProtoOverhead(isAck, isExtend, isShort) then None
      else
        var o := OffsetSize(isExtend);
        var ack := if isAck then Some(AckAt(b[1..], isExtend)) else None;
        var rest := if isAck then b[8 + o..] else b[1..];
        if isShort then Some(Frame(PayloadHeader(isClose, ack, 0, 0), None))
        else Some(Frame(PayloadHeader(isClose, ack, UnLE(rest[..4]), UnLE(rest[4..4 + o])), Some(rest[4 + o..])))
  }

  /** Fields within the widths they have on the wire. */
  predicate AckFits(a: Ack) {
    a.streamId < U32 && a.offset < U48 && a.len < U16
  }

  predicate HeaderFits(p: PayloadHeader) {
    p.streamId < U32 && p.streamOffset < U48 && (p.ack.Some? ==> AckFits(p.ack.value))
  }

  function Rounded(a: Ack): Ack {
    a.(rcvWnd := RcvWindow.Decode(RcvWindow.Encode(a.rcvWnd)))
  }

  /** What arrives of a header and its data. */
  function Arrives(p: PayloadHeader, data: UserData): Frame {
    var ack := if p.ack.Some? then Some(Rounded(p.ack.value)) else None;
    if AckOnly(p, data) then Frame(PayloadHeader(false, ack, 0, 0), None)
    else Frame(p.(ack := ack), Some(BytesOf(data)))
  }

  // ---------- Round trip ----------

  lemma {:induction false} EncodedLength(p: PayloadHeader, data: UserData)
    ensures |Encode(p, data)|
            == ProtoOverhead(p.ack.Some?, NeedsExtension(p.ack, p.streamOffset), AckOnly(p, data)) + |BytesOf(data)|
    ensures |Encode(p, data)| >= MIN_PROTO_SIZE
    ensures p.ack.Some? ==> (|Encode(p, data)| < SHORT_FRAME <==> AckOnly(p, data))
  {
  }

  /** Byte i of a little-endian integer is its i-th digit to the base 256. */
  lemma {:induction false} LittleEndian(n: nat, v: nat, i: nat)
    requires i < n
    ensures LE(n, v)[i] == v / Pow256(i) % 256
  {
    if i == 0 {
    } else {
      LittleEndian(n - 1, v / 256, i - 1);
      DivTwice(v, Pow256(i - 1));
    }
  }

  lemma {:induction false} DivTwice(v: nat, q: nat)
    requires 0 < q
    ensures v / 256 / q == v / (256 * q)
  {
    var a, r := v / 256, v % 256;
    var b, t := a / q, a % q;
    assert v == 256 * a + r && a == b * q + t;
    assert v == b * (256 * q) + (256 * t + r);
    DivUnique(v, 256 * q, b, 256 * t + r);
  }

  /** Where everything is in a frame: type and offset width in the first byte; then, with an acknowledgement, its
      stream, offset, length and window; then, unless it is alone, stream, offset and data. */
  lemma {:induction false} Layout(p: PayloadHeader, data: UserData)
    ensures var b, isAck := Encode(p, data), p.ack.Some?;
            var wide := p.streamOffset > 0xff_ffff || (isAck && p.ack.value.offset > 0xff_ffff);
            var o := if wide then 6 else 3; var at := if isAck then 8 + o else 1;
            && b[0] == (if isAck then (if p.isClose then 64 else 0) else if p.isClose then 96 else 32)
                       + (if wide then 128 else 0)
            && (isAck ==>
                  var a := p.ack.value;
                  && at <= |b| && b[1..5] == LE(4, a.streamId) && b[5..5 + o] == LE(o, a.offset)
                  && b[5 + o..7 + o] == LE(2, a.len) && b[7 + o] == RcvWindow.Encode(a.rcvWnd))
            && (isAck && !p.isClose && data.None? ==> |b| == at)
            && (!(isAck && !p.isClose && data.None?) ==>
                  && at + 4 + o <= |b| && b[at..at + 4] == LE(4, p.streamId)
                  && b[at + 4..at + 4 + o] == LE(o, p.streamOffset) && b[at + 4 + o..] == BytesOf(data))
  {
    hide LE, RcvWindow.Encode, AckBytes, StreamBytes;
    var b, wide := Encode(p, data), NeedsExtension(p.ack, p.streamOffset);
    var o := OffsetSize(wide);
    var tail := if AckOnly(p, data) then [] else StreamBytes(p, wide) + BytesOf(data);
    StreamSlices(p, wide, BytesOf(data));
    if p.ack.Some? {
      AckSlices(p.ack.value, wide, b[0], tail);
      assert b == [b[0]] + AckBytes(p.ack.value, wide) + tail;
    } else {
      assert b == [b[0]] + tail;
    }
    if !AckOnly(p, data) { Behind(b, if p.ack.Some? then 8 + o else 1, tail, o); }
  }

  lemma {:induction false} Middle(a: Bytes, x: Bytes, z: Bytes)
    ensures (a + x + z)[|a|..|a| + |x|] == x && (a + x + z)[|a| + |x|..] == z
  {
  }

  lemma {:induction false} Regroup(a: Bytes, x: Bytes, z: Bytes)
    ensures a + x + z == a + (x + z)
  {
  }

  lemma {:induction false} Pieces(a: Bytes, x: Bytes, y: Bytes, z: Bytes, w: Bytes, t: Bytes)
    ensures var b := a + (x + y + z + w) + t; var m, n := |a| + |x|, |a| + |x| + |y|;
            && b[|a|..m] == x && b[m..n] == y && b[n..n + |z|] == z && b[n + |z|..n + |z| + |w|] == w
            && b[n + |z| + |w|..] == t
  {
    Regroup(a, x + y + z, w);
    Regroup(a, x + y, z);
    Regroup(a, x, y);
    Middle(a + x + y + z, w, t);
    Regroup(a + x + y + z, w, t);
    Middle(a + x + y, z, w + t);
    Regroup(a + x + y, z, w + t);
    Middle(a + x, y, z + (w + t));
    Regroup(a + x, y, z + (w + t));
    Middle(a, x, y + (z + (w + t)));
  }

  lemma {:induction false} AckSlices(a: Ack, wide: bool, first: byte, tail: Bytes)
    ensures var o, b := OffsetSize(wide), [first] + AckBytes(a, wide) + tail;
            && |b| == 8 + o + |tail| && b[1..5] == LE(4, a.streamId) && b[5..5 + o] == LE(o, a.offset)
            && b[5 + o..7 + o] == LE(2, a.len) && b[7 + o] == RcvWindow.Encode(a.rcvWnd) && b[8 + o..] == tail
  {
    hide LE, RcvWindow.Encode;
    var o, w := OffsetSize(wide), [RcvWindow.Encode(a.rcvWnd)];
    var b := [first] + AckBytes(a, wide) + tail;
    Pieces([first], LE(4, a.streamId), LE(o, a.offset), LE(2, a.len), w, tail);
    assert b[7 + o] == b[7 + o..8 + o][0];
  }

  lemma {:induction false} StreamSlices(p: PayloadHeader, wide: bool, data: Bytes)
    ensures var o, b := OffsetSize(wide), StreamBytes(p, wide) + data;
            && |b| == 4 + o + |data| && b[..4] == LE(4, p.streamId) && b[4..4 + o] == LE(o, p.streamOffset)
            && b[4 + o..] == data
  {
    hide LE;
    var o := OffsetSize(wide);
    Middle(LE(4, p.streamId), LE(o, p.streamOffset), data);
  }

  lemma {:induction false} Behind(b: Bytes, at: nat, tail: Bytes, o: nat)
    requires at <= |b| && b[at..] == tail && 4 + o <= |tail|
    ensures b[at..at + 4] == tail[..4] && b[at + 4..at + 4 + o] == tail[4..4 + o] && b[at + 4 + o..] == tail[4 + o..]
  {
    assert forall i :: 0 <= i < |tail| ==> b[at + i] == tail[i];
  }

  lemma HeaderReadsBack(isClose: bool, isAck: bool, isExtend: bool)
    ensures var h := HeaderByte(isClose, isAck, isExtend); var kind := h / 32 % 4;
            && h % 32 == 0 && (h >= 128 <==> isExtend)
            && (kind == 0 || kind == 2 <==> isAck) && (kind >= 2 <==> isClose)
  {
  }

  lemma {:induction false} AckReadsBack(a: Ack, isExtend: bool, rest: Bytes)
    requires AckFits(a) && (isExtend || a.offset <= SHORT_OFFSET_MAX)
    ensures |AckBytes(a, isExtend)| == 7 + OffsetSize(isExtend)
    ensures AckAt(AckBytes(a, isExtend) + rest, isExtend) == Rounded(a)
  {
    Widths();
    var o := OffsetSize(isExtend);
    var b := AckBytes(a, isExtend) + rest;
    assert b[..4] == LE(4, a.streamId) && b[4..4 + o] == LE(o, a.offset) && b[4 + o..6 + o] == LE(2, a.len);
    UnLEOfLE(4, a.streamId);
    UnLEOfLE(o, a.offset);
    UnLEOfLE(2, a.len);
  }

  lemma {:induction false} StreamReadsBack(p: PayloadHeader, isExtend: bool, data: Bytes)
    requires HeaderFits(p) && (isExtend || p.streamOffset <= SHORT_OFFSET_MAX)
    ensures var o, b := OffsetSize(isExtend), StreamBytes(p, isExtend) + data;
            && |StreamBytes(p, isExtend)| == 4 + o
            && UnLE(b[..4]) == p.streamId && UnLE(b[4..4 + o]) == p.streamOffset && b[4 + o..] == data
  {
    Widths();
    var o := OffsetSize(isExtend);
    var b := StreamBytes(p, isExtend) + data;
    assert b[..4] == LE(4, p.streamId) && b[4..4 + o] == LE(o, p.streamOffset) && b[4 + o..] == data;
    UnLEOfLE(4, p.streamId);
    UnLEOfLE(o, p.streamOffset);
  }

  /** Decoding undoes encoding: only the window is rounded, and a missing payload arrives as missing
      exactly behind an acknowledgement that does not close. */
  lemma {:induction false} RoundTrip(p: PayloadHeader, data: UserData)
    requires HeaderFits(p)
    ensures Decode(Encode(p, data)) == Some(Arrives(p, data))
  {
    hide LE, UnLE, AckAt, AckBytes, StreamBytes, HeaderByte, Rounded, RcvWindow.Encode, RcvWindow.Decode;
    var isExtend := NeedsExtension(p.ack, p.streamOffset);
    var b, o := Encode(p, data), OffsetSize(isExtend);
    EncodedLength(p, data);
    HeaderReadsBack(p.isClose, p.ack.Some?, isExtend);
    var tail := if AckOnly(p, data) then [] else StreamBytes(p, isExtend) + BytesOf(data);
    StreamReadsBack(p, isExtend, BytesOf(data));
    if p.ack.Some? {
      AckReadsBack(p.ack.value, isExtend, tail);
      assert b[1..] == AckBytes(p.ack.value, isExtend) + tail;
      assert b[8 + o..] == tail;
    } else {
      assert b[1..] == tail;
    }
  }

  // ---------- Stability ----------

  lemma {:induction false} DecodedFits(b: Bytes)
    requires Decode(b).Some?
    ensures var p := Decode(b).value.header; HeaderFits(p) && (p.ack.Some? ==> Rounded(p.ack.value) == p.ack.value)
  {
    Widths();
    var isExtend := b[0] >= 128;
    var o := OffsetSize(isExtend);
    var p := Decode(b).value.header;
    if p.ack.Some? { RcvWindow.EncodeDecode(b[7 + o]); }
  }

  /** Whatever decodes, encodes to a frame that decodes to the same header, acknowledgement, window and
      data; only a short closing acknowledgement gains an empty payload in place of a missing one. */
  lemma {:induction false} Stable(b: Bytes)
    requires Decode(b).Some?
    ensures var f := Decode(b).value;
            Decode(Encode(f.header, f.data))
            == Some(if f.data.None? && f.header.isClose then f.(data := Some([])) else f)
  {
    var f := Decode(b).value;
    DecodedFits(b);
    RoundTrip(f.header, f.data);
  }

  /** How long a frame has to be by its first byte and its length: 11 or 14 bytes with an acknowledgement alone, which
      is taken to be so below 18 bytes; 18 or 24 with acknowledgement and stream; 8 or 11 with the stream only. */
  function Announced(first: byte, len: nat): nat {
    var isAck, wide := first / 32 % 2 == 0, first >= 128;
    if isAck && len < 18 then (if wide then 14 else 11)
    else if isAck then (if wide then 24 else 18)
    else if wide then 11 else 8
  }

  /** A byte string decodes exactly when it has at least eight bytes, is of version 0 and as long as announced. */
  lemma {:induction false} DecodesIff(b: Bytes)
    ensures Decode(b).Some? <==> |b| >= 8 && b[0] % 32 == 0 && |b| >= Announced(b[0], |b|)
  {
    hide UnLE, AckAt;
  }

  /** Data is missing exactly in a short frame with an acknowledgement. */
  lemma {:induction false} MissingDataIff(b: Bytes)
    requires Decode(b).Some?
    ensures var f := Decode(b).value; f.data.None? <==> f.header.ack.Some? && |b| < SHORT_FRAME
  {
  }

  // ---------- The buffers ----------

  /** Writes the n lowest bytes of v, lowest first, behind the first `at` bytes, says how many, and leaves
      the rest. */
  method PutLE(buf: array<byte>, at: nat, v: nat, n: nat) returns (written: nat)
    requires at + n <= buf.Length
    modifies buf
    ensures written == n && buf[..at + n] == old(buf[..at]) + LE(n, v) && buf[at + n..] == old(buf[at + n..])
  {
    var w := v;
    for i := 0 to n
      invariant buf[..at + i] + LE(n - i, w) == old(buf[..at]) + LE(n, v) && buf[at + n..] == old(buf[at + n..])
    {
      ghost var front, rest := buf[..at + i], LE(n - i - 1, w / 256);
      assert front + ([w % 256] + rest) == front + [w % 256] + rest;
      buf[at + i] := w % 256;
      assert buf[..at + i + 1] == front + [w % 256];
      w := w / 256;
    }
    written := n;
  }

  method PutBytes(buf: array<byte>, at: nat, data: Bytes) returns (written: nat)
    requires at + |data| <= buf.Length
    modifies buf
    ensures written == |data| && buf[..at + |data|] == old(buf[..at]) + data
  {
    for i := 0 to |data|
      invariant buf[..at + i] == old(buf[..at]) + data[..i]
    {
      ghost var front := buf[..at + i];
      buf[at + i] := data[i];
      assert buf[..at + i + 1] == front + [data[i]];
      assert data[..i + 1] == data[..i] + [data[i]];
    }
    assert data[..|data|] == data;
    written := |data|;
  }

  method PutAck(buf: array<byte>, at: nat, a: Ack, isExtend: bool) returns (written: nat)
    requires at + 7 + OffsetSize(isExtend) <= buf.Length
    modifies buf
    ensures written == 7 + OffsetSize(isExtend) && buf[..at + written] == old(buf[..at]) + AckBytes(a, isExtend)
  {
    hide LE, RcvWindow.Encode;
    ghost var front := buf[..at];
    var n := PutLE(buf, at, a.streamId, 4);
    written := n;
    n := PutLE(buf, at + written, a.offset, OffsetSize(isExtend));
    written := written + n;
    n := PutLE(buf, at + written, a.len, 2);
    written := written + n;
    ghost var b := buf[..at + written];
    assert b == front + LE(4, a.streamId) + LE(OffsetSize(isExtend), a.offset) + LE(2, a.len);
    buf[at + written] := RcvWindow.Encode(a.rcvWnd);
    written := written + 1;
    assert buf[..at + written] == b + [RcvWindow.Encode(a.rcvWnd)];
  }

  method PutStream(buf: array<byte>, at: nat, p: PayloadHeader, isExtend: bool) returns (written: nat)
    requires at + 4 + OffsetSize(isExtend) <= buf.Length
    modifies buf
    ensures written == 4 + OffsetSize(isExtend) && buf[..at + written] == old(buf[..at]) + StreamBytes(p, isExtend)
  {
    hide LE;
    var n := PutLE(buf, at, p.streamId, 4);
    written := n;
    n := PutLE(buf, at + written, p.streamOffset, OffsetSize(isExtend));
    written := written + n;
  }

  method PutData(buf: array<byte>, at: nat, p: PayloadHeader, isExtend: bool, userData: Bytes) returns (written: nat)
    requires at + 4 + OffsetSize(isExtend) + |userData| <= buf.Length
    modifies buf
    ensures written == 4 + OffsetSize(isExtend) + |userData|
    ensures buf[..at + written] == old(buf[..at]) + (StreamBytes(p, isExtend) + userData)
  {
    hide StreamBytes;
    written := PutStream(buf, at, p, isExtend);
    var n := PutBytes(buf, at + written, userData);
    written := written + n;
  }

  /** Fills a buffer of the computed size from front to back, to its end. */
  method EncodePayload(p: PayloadHeader, data: UserData) returns (encoded: array<byte>, offset: nat)
    ensures fresh(encoded) && encoded[..] == Encode(p, data) && offset == encoded.Length
  {
    hide AckBytes, StreamBytes, HeaderByte;
    var isAck := p.ack.Some?;
    var isEmptyDataHeader := !p.isClose && isAck && data.None?;
    var isExtend := NeedsExtension(p.ack, p.streamOffset);
    var userData := BytesOf(data);
    encoded := new byte[ProtoOverhead(isAck, isExtend, isEmptyDataHeader) + |userData|];
    encoded[0] := HeaderByte(p.isClose, isAck, isExtend);
    offset := 1;
    ghost var front := [HeaderByte(p.isClose, isAck, isExtend)];
    assert encoded[..offset] == front;
    if isAck {
      var n := PutAck(encoded, offset, p.ack.value, isExtend);
      offset := offset + n;
      front := front + AckBytes(p.ack.value, isExtend);
    }
    assert encoded[..offset] == front;
    if isEmptyDataHeader {
      assert encoded[..] == encoded[..offset];
      return;
    }
    var n := PutData(encoded, offset, p, isExtend, userData);
    offset := offset + n;
    assert encoded[..] == encoded[..offset] == front + (StreamBytes(p, isExtend) + userData);
  }

  /** Walks a received frame; every read is within it. */
  method DecodePayload(data: Bytes) returns (r: Option<Frame>)
    ensures r == Decode(data)
  {
    if |data| < MIN_PROTO_SIZE {
      return None;
    }
    var version, kind, isExtend := data[0] % 32, data[0] / 32 % 4, data[0] >= 128;
    if version != 0 {
      return None;
    }
    var isAck, isClose := kind == 0 || kind == 2, kind == 2 || kind == 3;
    var isEmptyDataHeader := isAck && |data| < SHORT_FRAME;
    if |data| < ProtoOverhead(isAck, isExtend, isEmptyDataHeader) {
      return None;
    }
    var offset, size, ack := 1, OffsetSize(isExtend), None;
    if isAck {
      var streamId := UnLE(data[offset..][..4]);
      offset := offset + 4;
      var ackOffset := UnLE(data[offset..][..size]);
      offset := offset + size;
      var len := UnLE(data[offset..][..2]);
      offset := offset + 2;
      var rcvWnd := RcvWindow.Decode(data[offset]);
      offset := offset + 1;
      ack := Some(Ack(streamId, ackOffset, len, rcvWnd));
      SameSlices(data, size);
    }
    if isEmptyDataHeader {
      return Some(Frame(PayloadHeader(isClose, ack, 0, 0), None));
    }
    var streamId := UnLE(data[offset..][..4]);
    var streamOffset := UnLE(data[offset..][4..4 + size]);
    r := Some(Frame(PayloadHeader(isClose, ack, streamId, streamOffset), Some(data[offset..][4 + size..])));
  }

  lemma SameSlices(b: Bytes, o: nat)
    requires |b| >= 8 + o
    ensures b[1..][4..4 + o] == b[5..][..o] && b[1..][4 + o..6 + o] == b[5 + o..][..2] && b[1..][6 + o] == b[7 + o]
  {
  }
}
