/** Message kinds, headers and the overhead arithmetic that sizes a datagram. */
module Messages {
  import opened Common

  datatype MsgType = InitSnd | InitRcv | InitCryptoSnd | InitCryptoRcv | Data

  datatype Ack = Ack(streamId: nat, offset: nat, len: nat, rcvWnd: nat)

  datatype PayloadHeader = PayloadHeader(isClose: bool, ack: Option<Ack>, streamId: nat, streamOffset: nat)

  const MAC_SIZE := 16
  const SN_SIZE := 6
  const PUB_KEY_SIZE := 32
  const HEADER_SIZE := 1
  const CONN_ID_SIZE := 8
  const FILL_LEN_SIZE := 2
  const FOOTER_SIZE := SN_SIZE + MAC_SIZE
  const MIN_PROTO_SIZE := 8

  // The largest offset that still fits in 24 bits.
  const SHORT_OFFSET_MAX := 0xff_ffff

  function CryptoHeaderSize(t: MsgType): nat {
    match t
    case InitSnd => HEADER_SIZE + 2 * PUB_KEY_SIZE
    case InitRcv => HEADER_SIZE + CONN_ID_SIZE + 2 * PUB_KEY_SIZE
    case InitCryptoSnd => HEADER_SIZE + 2 * PUB_KEY_SIZE
    case InitCryptoRcv => HEADER_SIZE + CONN_ID_SIZE + PUB_KEY_SIZE
    case Data => HEADER_SIZE + CONN_ID_SIZE
  }

  function OffsetSize(isExtend: bool): nat {
    if isExtend then 6 else 3
  }

  function ProtoOverhead(isAck: bool, isExtend: bool, isEmptyDataHeader: bool): nat {
    1 + (if isEmptyDataHeader then 0 else 4 + OffsetSize(isExtend))
      + (if isAck then 4 + OffsetSize(isExtend) + 2 + 1 else 0)
  }

  predicate NeedsExtension(ack: Option<Ack>, offset: nat) {
    offset > SHORT_OFFSET_MAX || (ack.Some? && ack.value.offset > SHORT_OFFSET_MAX)
  }

  /** Bytes around the user data of a message; -1 for the one that carries none. */
  function CryptoOverhead(t: MsgType, ack: Option<Ack>, offset: nat): int {
    if t.InitSnd? then -1
    else
      ProtoOverhead(ack.Some?, NeedsExtension(ack, offset), false) + CryptoHeaderSize(t) + FOOTER_SIZE
      + (if t.InitCryptoSnd? then FILL_LEN_SIZE else 0)
  }

  /** Room for user data in one datagram; negative when the headers alone do not fit. */
  function MaxData(t: MsgType, ack: Option<Ack>, offset: nat, mtu: nat): int {
    if t.InitSnd? then 0 else mtu - CryptoOverhead(t, ack, offset)
  }

  /** A signed size read as an unsigned 64-bit one. */
  function Unsigned64(n: int): (r: nat)
    ensures 0 <= n < U64 ==> r == n
  {
    if 0 <= n < U64 then n else n % U64
  }

  /** A signed size read as an unsigned 16-bit one. */
  function Unsigned16(n: int): (r: nat)
    ensures r < U16 && (0 <= n < U16 ==> r == n)
  {
    if 0 <= n < U16 then n else n % U16
  }

  /** What the arithmetic on packet sizes needs of the MTU: the headers fit in it
      and it fits 16 bits. */
  predicate MtuFits(t: MsgType, ack: Option<Ack>, offset: nat, mtu: nat) {
    mtu < U16 && (t.InitSnd? || CryptoOverhead(t, ack, offset) <= mtu)
  }
}
