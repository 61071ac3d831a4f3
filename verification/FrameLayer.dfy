/** The receiver of the framed link: a preamble recogniser, a length field, the COBS
    decoder and the header, payload and CRC stages, fed one byte at a time. */
module FrameLayers {
  import opened Wrappers
  import opened Bytes
  import opened Frames
  import Cobs

  datatype Result<+T, +E> = Ok(value: T) | Err(error: E)

  // ----- Preamble --------------------------------------------------------------------

  datatype PreambleState =
    | Initial
    | Preamble1 | Preamble2 | Preamble3
    | PutProgramInfo1 | PutProgramInfo2 | PutProgramInfo3
    | PutString1 | PutString2 | PutString3
    | PutStringLength(got: seq<byte>)
  {
    predicate Valid()
    {
      PutStringLength? ==> |got| < 4
    }
  }

  datatype PreambleStatus = PreambleSkip | PreambleDone | ProgramInfo | StringOf(length: nat) | PreambleWrong

  function PreambleFeed(s: PreambleState, b: byte): (r: (PreambleState, PreambleStatus))
    requires s.Valid()
    ensures r.0.Valid()
  {
    match s
    case Initial =>
      if b == 0x55 then (Preamble1, PreambleSkip)
      else if b == 0x44 then (PutProgramInfo1, PreambleSkip)
      else if b == 0xee then (PutString1, PreambleSkip)
      else (Initial, PreambleWrong)
    case Preamble1 => if b == 0x55 then (Preamble2, PreambleSkip) else (Initial, PreambleWrong)
    case Preamble2 => if b == 0x55 then (Preamble3, PreambleSkip) else (Initial, PreambleWrong)
    case Preamble3 =>
      if b == 0x5e then (Initial, PreambleDone)
      else if b == 0x55 then (Preamble3, PreambleSkip)
      else (Initial, PreambleWrong)
    case PutProgramInfo1 => if b == 0x44 then (PutProgramInfo2, PreambleSkip) else (Initial, PreambleWrong)
    case PutProgramInfo2 => if b == 0x33 then (PutProgramInfo3, PreambleSkip) else (Initial, PreambleWrong)
    case PutProgramInfo3 => if b == 0x33 then (Initial, ProgramInfo) else (Initial, PreambleWrong)
    case PutString1 => if b == 0xee then (PutString2, PreambleSkip) else (Initial, PreambleWrong)
    case PutString2 => if b == 0xdd then (PutString3, PreambleSkip) else (Initial, PreambleWrong)
    case PutString3 => if b == 0xdd then (PutStringLength([]), PreambleSkip) else (Initial, PreambleWrong)
    case PutStringLength(got) =>
      if |got| < 3 then (PutStringLength(got + [b]), PreambleSkip)
      else (Initial, StringOf(FromLe32(got + [b])))
  }

  // ----- Frame layer -----------------------------------------------------------------

  datatype FrameHeader = FrameHeader(messageType: MessageType, payloadLen: nat)

  datatype FrameState =
    | Preamble
    | Length(i: nat)
    | PacketHeader(i: nat, payloadLen: nat)
    | PacketBody(i: nat, header: FrameHeader)
    | Legacy
    | LegacyPrintString(length: nat, index: nat)

  datatype FrameOutput =
    | Skip
    | Header(header: FrameHeader)
    | Payload(b: byte)
    | Finished
    | LegacyMode
    | LegacyPrintStringByte(length: nat, b: byte)

  datatype FrameError =
    | InvalidType(code: nat)
    | InvalidCrc(calculated: nat, expected: nat)
    | CobsError(since: nat, last: nat, found: byte)
    | PreambleError(state: PreambleState, found: byte)
    | Overrun(header: FrameHeader, found: byte)
    | HeaderCutoff(got: seq<byte>, i: nat)
    | PayloadCutoff(header: FrameHeader, i: nat)
    | CrcCutoff(got: seq<byte>, i: nat)
    | LengthEncoding(i: nat, found: byte)

  type FeedResult = Result<FrameOutput, FrameError>

  /** Everything the receiver remembers between two bytes. */
  datatype Layer = Layer(
    preamble: PreambleState,
    cobs: Cobs.Jump,
    lengthBytes: seq<byte>,
    headerBytes: seq<byte>,
    crcBytes: seq<byte>,
    state: FrameState,
    hash: nat)
  {
    /** The states in which the next byte can be taken without leaving a 4-byte array. */
    predicate Valid()
    {
      && preamble.Valid()
      && Cobs.JumpOk(cobs)
      && |lengthBytes| == |headerBytes| == |crcBytes| == 4
      && (state.Length? ==> state.i < 4)
      && (state.PacketHeader? ==> state.i < 4 && state.payloadLen < LENGTH_LIMIT)
      && (state.PacketBody? ==> state.i >= 4)
    }
  }

  function ResetLayer(crc: Crc): (l: Layer)
    ensures l.Valid()
  {
    Layer(Initial, Cobs.START, [0, 0, 0, 0], [0, 0, 0, 0], [0, 0, 0, 0], Preamble, crc.init)
  }

  function OnPreamble(l: Layer, b: byte): (r: (Layer, FeedResult))
    requires l.Valid() && l.state == Preamble
    ensures r.0.Valid()
  {
    var (p, status) := PreambleFeed(l.preamble, b);
    var l' := l.(preamble := p);
    match status
    case PreambleSkip => (l', Ok(Skip))
    case PreambleDone => (l'.(state := Length(0)), Ok(Skip))
    case ProgramInfo => (l'.(state := Legacy), Ok(LegacyMode))
    case StringOf(n) => (l'.(state := LegacyPrintString(n, 0)), Ok(Skip))
    case PreambleWrong => (l', Err(PreambleError(l.preamble, b)))
  }

  function OnLength(l: Layer, b: byte): (r: (Layer, FeedResult))
    requires l.Valid() && l.state.Length?
    ensures r.0.Valid()
  {
    if b < 0xc0 then (l, Err(LengthEncoding(l.state.i, b)))
    else
      var got := l.lengthBytes[l.state.i := b];
      (l.(lengthBytes := got,
          state := if l.state.i == 3 then PacketHeader(0, DecodeLength(got)) else Length(l.state.i + 1)),
       Ok(Skip))
  }

  /** The header stage; `l` already holds the decoder's new position. */
  function OnHeader(l: Layer, e: Cobs.Poll, crc: Crc): (r: (Layer, FeedResult))
    requires l.Valid() && l.state.PacketHeader?
    ensures r.0.Valid() || (r.1.Err? && r.1.error.InvalidType?)
  {
    var PacketHeader(i, n) := l.state;
    match e
    case Skip => (l, Ok(Skip))
    case Error(since, last, found) => (l, Err(CobsError(since, last, found)))
    case Finished => (l, Err(HeaderCutoff(l.headerBytes, i)))
    case Byte(b) =>
      var l' := l.(state := PacketHeader(i + 1, n),
                   headerBytes := l.headerBytes[i := b],
                   hash := crc.update(l.hash, b));
      if i == 3 then
        var code := FromLe32(l'.headerBytes);
        match TypeFromCode(code)
        case None => (l', Err(InvalidType(code)))
        case Some(t) => (l'.(state := PacketBody(i + 1, FrameHeader(t, n))), Ok(Header(FrameHeader(t, n))))
      else (l', Ok(Skip))
  }

  /** The payload and CRC stages; `l` already holds the decoder's new position. */
  function OnBody(l: Layer, e: Cobs.Poll, crc: Crc): (r: (Layer, FeedResult))
    requires l.Valid() && l.state.PacketBody?
    ensures r.0.Valid()
  {
    var PacketBody(i, h) := l.state;
    var crcAt := 4 + h.payloadLen;
    match e
    case Skip => (l, Ok(Skip))
    case Error(since, last, found) => (l, Err(CobsError(since, last, found)))
    case Byte(b) =>
      var l' := l.(state := PacketBody(i + 1, h));
      if i < crcAt then (l'.(hash := crc.update(l.hash, b)), Ok(Payload(b)))
      else if i < crcAt + 4 then (l'.(crcBytes := l.crcBytes[i - crcAt := b]), Ok(Skip))
      else (l', Err(Overrun(h, b)))
    case Finished =>
      var sum := crc.finish(l.hash) % U32_LIMIT;
      var l' := l.(hash := crc.init);
      if i < crcAt then (l', Err(PayloadCutoff(h, i)))
      else if i < crcAt + 4 then (l', Err(CrcCutoff(l.crcBytes, i)))
      else if FromLe32(l.crcBytes) != sum then (l', Err(InvalidCrc(sum, FromLe32(l.crcBytes))))
      else (l'.(state := Preamble), Ok(Finished))
  }

  /** One byte through the whole stack. */
  function Feed(l: Layer, b: byte, mask: byte, crc: Crc): (r: (Layer, FeedResult))
    requires l.Valid()
    ensures r.0.Valid() || (r.1.Err? && r.1.error.InvalidType?)
  {
    match l.state
    case Legacy => (l, Ok(LegacyMode))
    case Preamble => OnPreamble(l, b)
    case Length(_) => OnLength(l, b)
    case PacketHeader(_, _) =>
      var (j, e) := Cobs.PollPlain(l.cobs, Xor(b, mask));
      OnHeader(l.(cobs := j), e, crc)
    case PacketBody(_, _) =>
      var (j, e) := Cobs.PollPlain(l.cobs, Xor(b, mask));
      OnBody(l.(cobs := j), e, crc)
    case LegacyPrintString(n, k) =>
      (l.(state := if k + 1 >= n then Preamble else LegacyPrintString(n, k + 1)),
       Ok(LegacyPrintStringByte(n, b)))
  }

  class FrameLayer {
    var preamble: PreambleState
    const cobs: Cobs.CobsDecoder
    const lengthBytes: array<byte>
    const headerBytes: array<byte>
    const crcBytes: array<byte>
    var state: FrameState
    var hash: nat
    const crc: Crc

    ghost const Repr: set<object>

    ghost predicate Shape()
    {
      && Repr == {this, cobs, lengthBytes, headerBytes, crcBytes}
      && lengthBytes.Length == headerBytes.Length == crcBytes.Length == 4
      && lengthBytes != headerBytes && lengthBytes != crcBytes && headerBytes != crcBytes
    }

    ghost function View(): Layer
      reads this, cobs, lengthBytes, headerBytes, crcBytes
    {
      Layer(preamble, cobs.State(), lengthBytes[..], headerBytes[..], crcBytes[..], state, hash)
    }

    constructor (mask: byte, crc: Crc)
      ensures Shape() && fresh(Repr)
      ensures cobs.mask == mask && this.crc == crc
      ensures View() == ResetLayer(crc)
    {
      preamble := Initial;
      cobs := new Cobs.CobsDecoder(mask);
      lengthBytes := new byte[4](_ => 0);
      headerBytes := new byte[4](_ => 0);
      crcBytes := new byte[4](_ => 0);
      state := Preamble;
      hash := crc.init;
      this.crc := crc;
      Repr := {this, cobs, lengthBytes, headerBytes, crcBytes};
    }

    method Reset()
      requires Shape()
      modifies Repr
      ensures View() == ResetLayer(crc)
    {
      preamble := Initial;
      cobs.Reset();
      forall i | 0 <= i < 4 { lengthBytes[i] := 0; }
      forall i | 0 <= i < 4 { headerBytes[i] := 0; }
      forall i | 0 <= i < 4 { crcBytes[i] := 0; }
      state := Preamble;
      hash := crc.init;
    }

    method FeedPreamble(b: byte) returns (r: FeedResult)
      requires Shape() && View().Valid() && state == Preamble
      modifies this
      ensures (View(), r) == OnPreamble(old(View()), b)
    {
      var (next, status) := PreambleFeed(preamble, b);
      var before := preamble;
      preamble := next;
      match status {
        case PreambleSkip => r := Ok(Skip);
        case PreambleDone => state := Length(0); r := Ok(Skip);
        case ProgramInfo => state := Legacy; r := Ok(LegacyMode);
        case StringOf(n) => state := LegacyPrintString(n, 0); r := Ok(Skip);
        case PreambleWrong => r := Err(PreambleError(before, b));
      }
    }

    method FeedLength(b: byte) returns (r: FeedResult)
      requires Shape() && View().Valid() && state.Length?
      modifies this, lengthBytes
      ensures (View(), r) == OnLength(old(View()), b)
    {
      var i := state.i;
      if b < 0xc0 {
        return Err(LengthEncoding(i, b));
      }
      lengthBytes[i] := b;
      if i == 3 {
        state := PacketHeader(0, DecodeLength(lengthBytes[..]));
      } else {
        state := Length(i + 1);
      }
      r := Ok(Skip);
      assert lengthBytes[..] == old(lengthBytes[..])[i := b];
    }

    method FeedHeader(b: byte) returns (r: FeedResult)
      requires Shape() && View().Valid() && state.PacketHeader?
      modifies this, cobs, headerBytes
      ensures (View(), r) == Feed(old(View()), b, cobs.mask, crc)
    {
      var PacketHeader(i, n) := state;
      var e := cobs.Feed(b);
      match e {
        case Skip => r := Ok(Skip);
        case Error(since, last, found) => r := Err(CobsError(since, last, found));
        case Finished => r := Err(HeaderCutoff(headerBytes[..], i));
        case Byte(x) =>
          state := PacketHeader(i + 1, n);
          headerBytes[i] := x;
          hash := crc.update(hash, x);
          assert headerBytes[..] == old(headerBytes[..])[i := x];
          r := Ok(Skip);
          if i == 3 {
            var code := FromLe32(headerBytes[..]);
            match TypeFromCode(code) {
              case None => r := Err(InvalidType(code));
              case Some(t) =>
                state := PacketBody(i + 1, FrameHeader(t, n));
                r := Ok(Header(FrameHeader(t, n)));
            }
          }
      }
    }

    method FeedBody(b: byte) returns (r: FeedResult)
      requires Shape() && View().Valid() && state.PacketBody?
      modifies this, cobs, crcBytes
      ensures (View(), r) == Feed(old(View()), b, cobs.mask, crc)
    {
      var PacketBody(i, h) := state;
      var crcAt := 4 + h.payloadLen;
      var e := cobs.Feed(b);
      match e {
        case Skip => r := Ok(Skip);
        case Error(since, last, found) => r := Err(CobsError(since, last, found));
        case Byte(x) =>
          state := PacketBody(i + 1, h);
          if i < crcAt {
            hash := crc.update(hash, x);
            r := Ok(Payload(x));
          } else if i < crcAt + 4 {
            crcBytes[i - crcAt] := x;
            assert crcBytes[..] == old(crcBytes[..])[i - crcAt := x];
            r := Ok(Skip);
          } else {
            r := Err(Overrun(h, x));
          }
        case Finished =>
          var sum := crc.finish(hash) % U32_LIMIT;
          hash := crc.init;
          if i < crcAt {
            r := Err(PayloadCutoff(h, i));
          } else if i < crcAt + 4 {
            r := Err(CrcCutoff(crcBytes[..], i));
          } else {
            var expected := FromLe32(crcBytes[..]);
            if expected != sum {
              r := Err(InvalidCrc(sum, expected));
            } else {
              state := Preamble;
              r := Ok(Finished);
            }
          }
      }
    }

    /** One byte. The only outcome after which the next byte could index outside a 4-byte
        array is an unknown message type that is not followed by `Reset`. */
    method FeedByte(b: byte) returns (r: FeedResult)
      requires Shape() && View().Valid()
      modifies Repr
      ensures (View(), r) == Feed(old(View()), b, cobs.mask, crc)
      ensures View().Valid() || (r.Err? && r.error.InvalidType?)
    {
      match state {
        case Legacy => r := Ok(LegacyMode);
        case Preamble => r := FeedPreamble(b);
        case Length(_) => r := FeedLength(b);
        case PacketHeader(_, _) => r := FeedHeader(b);
        case PacketBody(_, _) => r := FeedBody(b);
        case LegacyPrintString(n, k) =>
          if k + 1 >= n {
            state := Preamble;
          } else {
            state := LegacyPrintString(n, k + 1);
          }
          r := Ok(LegacyPrintStringByte(n, b));
      }
    }
  }
}
