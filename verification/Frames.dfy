/** The wire format of one message: preamble, length, and the stuffed type, payload and CRC. */
module Frames {
  import opened Wrappers
  import opened Bytes
  import Cobs

  const PREAMBLE: seq<byte> := [0x55, 0x55, 0x55, 0x5e]
  const COBS_XOR: byte := 0x55
  const LENGTH_LIMIT := 0x100_0000

  datatype MessageType =
    | PrintString | Probe | AllowedVersions | UseVersion
    | MetadataReq | Metadata | MetadataAck | MetadataAckAck
    | ChunkReq | Chunk | Booting | BootingAck

  function TypeCode(t: MessageType): (n: nat)
    ensures n < U32_LIMIT
  {
    match t
    case PrintString => 101
    case Probe => 201
    case AllowedVersions => 202
    case UseVersion => 203
    case MetadataReq => 301
    case Metadata => 302
    case MetadataAck => 303
    case MetadataAckAck => 304
    case ChunkReq => 401
    case Chunk => 402
    case Booting => 501
    case BootingAck => 502
  }

  function TypeFromCode(n: nat): (r: Option<MessageType>)
    ensures r.Some? ==> TypeCode(r.value) == n
    ensures r.None? ==> forall t: MessageType :: TypeCode(t) != n
  {
    if n == 101 then Some(PrintString)
    else if n == 201 then Some(Probe)
    else if n == 202 then Some(AllowedVersions)
    else if n == 203 then Some(UseVersion)
    else if n == 301 then Some(MetadataReq)
    else if n == 302 then Some(Metadata)
    else if n == 303 then Some(MetadataAck)
    else if n == 304 then Some(MetadataAckAck)
    else if n == 401 then Some(ChunkReq)
    else if n == 402 then Some(Chunk)
    else if n == 501 then Some(Booting)
    else if n == 502 then Some(BootingAck)
    else None
  }

  lemma TypeCodeRoundTrip(t: MessageType)
    ensures TypeFromCode(TypeCode(t)) == Some(t)
  {
  }

  /** Four sextets, least significant first, each with its two highest bits set. */
  function EncodeLength(n: nat): (r: Option<seq<byte>>)
    ensures r.Some? <==> n < LENGTH_LIMIT
    ensures r.Some? ==> |r.value| == 4 && forall i :: 0 <= i < 4 ==> r.value[i] >= 0xc0
  {
    if n >= LENGTH_LIMIT then None
    else Some([0xc0 + n % 64, 0xc0 + n / 64 % 64, 0xc0 + n / 64 / 64 % 64, 0xc0 + n / 64 / 64 / 64])
  }

  function Sextet(b: byte): (r: nat)
    ensures r < 64
    ensures b >= 0xc0 ==> r == b - 0xc0
  {
    b % 64
  }

  function DecodeLength(s: seq<byte>): (n: nat)
    requires |s| == 4
    ensures n < LENGTH_LIMIT
  {
    Sextet(s[0]) + 64 * (Sextet(s[1]) + 64 * (Sextet(s[2]) + 64 * Sextet(s[3])))
  }

  lemma LengthRoundTrip(n: nat)
    requires n < LENGTH_LIMIT
    ensures DecodeLength(EncodeLength(n).value) == n
  {
    var a := n / 64;
    var b := a / 64;
    var c := b / 64;
    assert n == n % 64 + 64 * a && a == a % 64 + 64 * b && b == b % 64 + 64 * c;
  }

  /** The part of a message that the CRC covers. */
  function Covered(t: MessageType, payload: seq<byte>): seq<byte>
  {
    ToLe32(TypeCode(t)) + payload
  }

  /** What is stuffed: type, payload and the CRC of both. */
  function Stuffed(crc: Crc, t: MessageType, payload: seq<byte>): seq<byte>
  {
    Covered(t, payload) + ToLe32(crc.Sum(Covered(t, payload)))
  }

  function Frame(crc: Crc, t: MessageType, payload: seq<byte>): (r: seq<byte>)
    requires |payload| < LENGTH_LIMIT
  {
    PREAMBLE + EncodeLength(|payload|).value + Cobs.Encode(Stuffed(crc, t, payload), COBS_XOR)
  }
}
