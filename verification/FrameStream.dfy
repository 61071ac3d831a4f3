/** Receiving whole streams: what a receiver that resets after each error delivers for a
    sequence of well-formed frames. */
module FrameStream {
  import opened Bytes
  import opened Frames
  import opened FrameLayers
  import Cobs

  /** One byte, followed by `reset` when the byte was an error. */
  function Next(l: Layer, b: byte, crc: Crc): (r: (Layer, FeedResult))
    requires l.Valid()
    ensures r.0.Valid()
  {
    var (l', o) := Feed(l, b, COBS_XOR, crc);
    (if o.Err? then ResetLayer(crc) else l', o)
  }

  /** One result for every byte of the stream. */
  function Receive(l: Layer, s: seq<byte>, crc: Crc): (r: (Layer, seq<FeedResult>))
    requires l.Valid()
    ensures r.0.Valid() && |r.1| == |s|
    decreases |s|
  {
    if |s| == 0 then (l, [])
    else
      var (l', o) := Next(l, s[0], crc);
      var (l'', os) := Receive(l', s[1..], crc);
      (l'', [o] + os)
  }

  lemma {:induction false} ReceiveConcat(l: Layer, s: seq<byte>, t: seq<byte>, crc: Crc)
    requires l.Valid()
    ensures var (l1, os) := Receive(l, s, crc);
            var (l2, ot) := Receive(l1, t, crc);
            Receive(l, s + t, crc) == (l2, os + ot)
    decreases |s|
  {
    hide Next;
    if |s| == 0 {
      assert s + t == t;
      assert [] + Receive(l, t, crc).1 == Receive(l, t, crc).1;
    } else {
      var l', o := Next(l, s[0], crc).0, Next(l, s[0], crc).1;
      ReceiveConcat(l', s[1..], t, crc);
      var (l1, os) := Receive(l', s[1..], crc);
      var (l2, ot) := Receive(l1, t, crc);
      var st := s + t;
      assert st[0] == s[0] && st[1..] == s[1..] + t;
      assert Receive(l, st, crc) == (l2, [o] + (os + ot));
      assert Receive(l, s, crc) == (l1, [o] + os);
      assert [o] + (os + ot) == ([o] + os) + ot;
    }
  }

  /** The results a consumer acts on. */
  function Visible(os: seq<FeedResult>): seq<FeedResult>
  {
    if |os| == 0 then []
    else if os[0] == Ok(Skip) then Visible(os[1..])
    else [os[0]] + Visible(os[1..])
  }

  lemma {:induction false} VisibleConcat(s: seq<FeedResult>, t: seq<FeedResult>)
    ensures Visible(s + t) == Visible(s) + Visible(t)
  {
    if |s| == 0 {
      assert s + t == t;
    } else {
      VisibleConcat(s[1..], t);
      assert (s + t)[1..] == s[1..] + t && (s + t)[0] == s[0];
      assert [s[0]] + (Visible(s[1..]) + Visible(t)) == ([s[0]] + Visible(s[1..])) + Visible(t);
    }
  }

  /** Between two frames. What the byte arrays hold does not matter. */
  predicate Hunting(l: Layer, crc: Crc)
  {
    l.Valid() && l.state == Preamble && l.cobs == Cobs.START && l.hash == crc.init
  }

  /** Between two frames and with no part of a legacy command word recognised: a complete
      preamble is not missed from here, also when some of its first byte's kind came before. */
  predicate Ready(l: Layer, crc: Crc)
  {
    && Hunting(l, crc)
    && (l.preamble == Initial || l.preamble == Preamble1 || l.preamble == Preamble2 || l.preamble == Preamble3)
  }

  predicate Idle(l: Layer, crc: Crc)
  {
    Hunting(l, crc) && l.preamble == Initial
  }

  datatype Message = Message(messageType: MessageType, payload: seq<byte>)
  {
    predicate Valid()
    {
      |payload| < LENGTH_LIMIT
    }

    function Wire(crc: Crc): seq<byte>
      requires Valid()
    {
      Frame(crc, messageType, payload)
    }

    function AsPacket(crc: Crc): Packet
    {
      Packet(FrameHeader(messageType, |payload|), Stuffed(crc, messageType, payload))
    }
  }

  /** The content of one frame after unstuffing, with the header it announces. */
  datatype Packet = Packet(header: FrameHeader, bytes: seq<byte>)
  {
    function CrcAt(): nat
    {
      4 + header.payloadLen
    }

    /** The announced type and length agree with the bytes. */
    ghost predicate Shape()
    {
      && header.payloadLen < LENGTH_LIMIT
      && |bytes| == CrcAt() + 4
      && FromLe32(bytes[..4]) == TypeCode(header.messageType)
    }

    /** The last four bytes are the CRC of the rest. */
    ghost predicate Intact(crc: Crc)
      requires Shape()
    {
      FromLe32(bytes[CrcAt()..]) == crc.Sum(bytes[..CrcAt()])
    }

    function Payload(): seq<byte>
      requires |bytes| == CrcAt() + 4
    {
      bytes[4..CrcAt()]
    }

    /** What is still to be delivered once `k` bytes have been decoded. */
    function Delivery(k: nat): seq<FeedResult>
      requires |bytes| == CrcAt() + 4
    {
      if k < 4 then [Ok(FrameOutput.Header(header))] + AsPayload(bytes[4..CrcAt()]) + [Ok(Finished)]
      else if k < CrcAt() then AsPayload(bytes[k..CrcAt()]) + [Ok(Finished)]
      else [Ok(Finished)]
    }
  }

  lemma MessagePacket(m: Message, crc: Crc)
    requires m.Valid()
    ensures m.AsPacket(crc).Shape() && m.AsPacket(crc).Intact(crc)
    ensures m.AsPacket(crc).Payload() == m.payload
  {
    var p := m.AsPacket(crc);
    var covered := Covered(m.messageType, m.payload);
    assert p.bytes[..4] == ToLe32(TypeCode(m.messageType));
    assert p.bytes[..p.CrcAt()] == covered;
    assert p.bytes[p.CrcAt()..] == ToLe32(crc.Sum(covered));
    Le32RoundTrip(TypeCode(m.messageType));
    Le32RoundTrip(crc.Sum(covered));
  }

  function AsPayload(s: seq<byte>): (r: seq<FeedResult>)
    ensures |r| == |s|
    ensures forall i :: 0 <= i < |s| ==> r[i] == Ok(Payload(s[i]))
  {
    seq(|s|, i requires 0 <= i < |s| => Ok(Payload(s[i])))
  }

  // ----- Preamble and length ---------------------------------------------------------

  lemma PreambleStage(l: Layer, crc: Crc)
    requires Ready(l, crc)
    ensures Receive(l, PREAMBLE, crc).0 == l.(state := Length(0), preamble := Initial)
    ensures Visible(Receive(l, PREAMBLE, crc).1) == []
  {
    var l1 := Next(l, 0x55, crc).0;
    var l2 := Next(l1, 0x55, crc).0;
    var l3 := l.(preamble := Preamble3);
    assert Next(l2, 0x55, crc) == (l3, Ok(Skip));
    FourSkips(l, l1, l2, l3, l.(state := Length(0), preamble := Initial), PREAMBLE, crc);
  }

  lemma FourSkips(l: Layer, l1: Layer, l2: Layer, l3: Layer, l4: Layer, s: seq<byte>, crc: Crc)
    requires l.Valid() && l1.Valid() && l2.Valid() && l3.Valid() && l4.Valid() && |s| == 4
    requires Next(l, s[0], crc) == (l1, Ok(Skip)) && Next(l1, s[1], crc) == (l2, Ok(Skip))
    requires Next(l2, s[2], crc) == (l3, Ok(Skip)) && Next(l3, s[3], crc) == (l4, Ok(Skip))
    ensures Receive(l, s, crc).0 == l4 && Visible(Receive(l, s, crc).1) == []
  {
    ReceiveSkip(l, l1, s, crc);
    ReceiveSkip(l1, l2, s[1..], crc);
    ReceiveSkip(l2, l3, s[1..][1..], crc);
    ReceiveSkip(l3, l4, s[1..][1..][1..], crc);
  }

  lemma LengthStage(l: Layer, n: nat, crc: Crc)
    requires l.Valid() && l.state == Length(0) && n < LENGTH_LIMIT
    ensures var s := EncodeLength(n).value;
            && Receive(l, s, crc).0 == l.(state := PacketHeader(0, n), lengthBytes := s)
            && Visible(Receive(l, s, crc).1) == []
  {
    var s := EncodeLength(n).value;
    var b1: seq<byte> := l.lengthBytes[0 := s[0]];
    var b2: seq<byte> := b1[1 := s[1]];
    var b3: seq<byte> := b2[2 := s[2]];
    var l1 := l.(state := Length(1), lengthBytes := b1);
    var l2 := l.(state := Length(2), lengthBytes := b2);
    var l3 := l.(state := Length(3), lengthBytes := b3);
    var l4 := l.(state := PacketHeader(0, n), lengthBytes := s);
    assert b3[3 := s[3]] == s;
    LengthRoundTrip(n);
    FourSkips(l, l1, l2, l3, l4, s, crc);
  }

  // ----- Type, payload and CRC -------------------------------------------------------

  /** `l` has decoded the first `k` bytes of the packet. */
  ghost predicate Decoded(l: Layer, p: Packet, k: nat, crc: Crc)
  {
    && l.Valid() && p.Shape() && k <= |p.bytes|
    && l.preamble == Initial
    && l.state == (if k < 4 then PacketHeader(k, p.header.payloadLen) else PacketBody(k, p.header))
    && (k < 4 ==> l.headerBytes[..k] == p.bytes[..k])
    && l.hash == crc.Run(crc.init, p.bytes[..if k < p.CrcAt() then k else p.CrcAt()])
    && (k > p.CrcAt() ==> l.crcBytes[..k - p.CrcAt()] == p.bytes[p.CrcAt()..k])
  }

  /** What decoding byte `k` must do. */
  ghost predicate Advances(l: Layer, r: (Layer, FeedResult), p: Packet, k: nat, crc: Crc)
    requires p.Shape()
  {
    && Decoded(r.0, p, k + 1, crc) && r.0.cobs == l.cobs
    && r.1.Ok?
    && p.Delivery(k) == (if r.1 == Ok(Skip) then [] else [r.1]) + p.Delivery(k + 1)
  }

  lemma HashStep(p: Packet, k: nat, crc: Crc)
    requires k < |p.bytes|
    ensures crc.Run(crc.init, p.bytes[..k + 1]) == crc.update(crc.Run(crc.init, p.bytes[..k]), p.bytes[k])
  {
    assert p.bytes[..k + 1] == p.bytes[..k] + [p.bytes[k]];
    crc.RunAppend(crc.init, p.bytes[..k], p.bytes[k]);
  }

  lemma HeaderBytes(l: Layer, p: Packet, k: nat, crc: Crc)
    requires Decoded(l, p, k, crc) && k < 4
    ensures l.headerBytes[k := p.bytes[k]][..k + 1] == p.bytes[..k + 1]
  {
    assert l.headerBytes[k := p.bytes[k]][..k + 1] == l.headerBytes[..k] + [p.bytes[k]];
    assert p.bytes[..k + 1] == p.bytes[..k] + [p.bytes[k]];
  }

  lemma DecodedTypeByte(l: Layer, p: Packet, k: nat, crc: Crc)
    requires Decoded(l, p, k, crc) && k < 3
    ensures Advances(l, OnHeader(l, Cobs.Byte(p.bytes[k]), crc), p, k, crc)
  {
    HashStep(p, k, crc);
    HeaderBytes(l, p, k, crc);
  }

  lemma HeaderDelivered(p: Packet)
    requires p.Shape()
    ensures p.Delivery(3) == [Ok(Header(p.header))] + p.Delivery(4)
  {
    var payload := AsPayload(p.bytes[4..p.CrcAt()]);
    assert p.Delivery(4) == payload + [Ok(Finished)];
    hide AsPayload;
    Assoc([Ok(Header(p.header))], payload, [Ok(Finished)]);
  }

  lemma HeaderRead(l: Layer, p: Packet, crc: Crc)
    requires Decoded(l, p, 3, crc)
    ensures OnHeader(l, Cobs.Byte(p.bytes[3]), crc).1 == Ok(Header(p.header))
  {
    HeaderBytes(l, p, 3, crc);
    var h := l.headerBytes[3 := p.bytes[3]];
    assert h == h[..4] == p.bytes[..4];
    TypeCodeRoundTrip(p.header.messageType);
    hide TypeFromCode, TypeCode, FromLe32;
  }

  lemma DecodedLastTypeByte(l: Layer, p: Packet, crc: Crc)
    requires Decoded(l, p, 3, crc)
    ensures Advances(l, OnHeader(l, Cobs.Byte(p.bytes[3]), crc), p, 3, crc)
  {
    HashStep(p, 3, crc);
    HeaderRead(l, p, crc);
    HeaderDelivered(p);
    hide TypeFromCode, TypeCode, FromLe32, Packet.Delivery;
  }

  lemma DecodedPayloadByte(l: Layer, p: Packet, k: nat, crc: Crc)
    requires Decoded(l, p, k, crc) && 4 <= k < p.CrcAt()
    ensures Advances(l, OnBody(l, Cobs.Byte(p.bytes[k]), crc), p, k, crc)
  {
    HashStep(p, k, crc);
    var rest := p.bytes[k + 1..p.CrcAt()];
    assert p.bytes[k..p.CrcAt()] == [p.bytes[k]] + rest;
    assert AsPayload(p.bytes[k..p.CrcAt()]) == [Ok(Payload(p.bytes[k]))] + AsPayload(rest);
  }

  lemma DecodedCrcByte(l: Layer, p: Packet, k: nat, crc: Crc)
    requires Decoded(l, p, k, crc) && p.CrcAt() <= k < |p.bytes|
    ensures Advances(l, OnBody(l, Cobs.Byte(p.bytes[k]), crc), p, k, crc)
  {
    var start := p.CrcAt();
    var got := l.crcBytes[k - start := p.bytes[k]];
    assert got[..k + 1 - start] == l.crcBytes[..k - start] + [p.bytes[k]];
    assert l.crcBytes[..k - start] == p.bytes[start..k];
    assert p.bytes[start..k + 1] == p.bytes[start..k] + [p.bytes[k]];
  }

  lemma DecodedEnd(l: Layer, p: Packet, crc: Crc)
    requires Decoded(l, p, |p.bytes|, crc) && p.Intact(crc) && l.cobs == Cobs.START
    ensures var (l', o) := OnBody(l, Cobs.Finished, crc);
            o == Ok(Finished) && Idle(l', crc)
  {
    assert l.crcBytes == l.crcBytes[..4] == p.bytes[p.CrcAt()..];
  }

  /** The stuffed bytes `w` still deliver the packet from byte `k` on. */
  ghost predicate Carries(j: Cobs.Jump, w: seq<byte>, p: Packet, k: nat)
  {
    && Cobs.JumpOk(j) && k <= |p.bytes|
    && Cobs.Delivers(j, Masked(w, COBS_XOR), Cobs.AsPolls(p.bytes[k..]))
  }

  lemma CarriesStep(j: Cobs.Jump, w: seq<byte>, p: Packet, k: nat)
    requires Carries(j, w, p, k)
    ensures |w| > 0
    ensures var (j1, e) := Cobs.PollPlain(j, Xor(w[0], COBS_XOR));
            if e == Cobs.Skip then Carries(j1, w[1..], p, k)
            else if k < |p.bytes| then
              e == Cobs.Byte(p.bytes[k]) && Carries(j1, w[1..], p, k + 1)
            else
              e == Cobs.Finished && j1 == Cobs.START && |w| == 1
  {
    var plain, c := Masked(w, COBS_XOR), p.bytes;
    var (j1, e) := Cobs.PollPlain(j, plain[0]);
    var (j2, es) := Cobs.Drive(j1, plain[1..]);
    assert ([e] + es)[1..] == es;
    assert Masked(w[1..], COBS_XOR) == plain[1..];
    var data := Cobs.AsPolls(c[k..]) + [Cobs.Finished];
    assert Cobs.Content([e] + es) == data;
    if e != Cobs.Skip {
      assert e == data[0] && Cobs.Content(es) == data[1..];
      if k < |c| {
        assert data[1..] == Cobs.AsPolls(c[k + 1..]) + [Cobs.Finished];
      } else if |es| > 0 {
        Cobs.EndIsContent(es);
        assert false;
      }
    }
    if |es| == 0 {
      assert e == Cobs.Finished;
    }
  }

  lemma CobsByteStep(l: Layer, p: Packet, k: nat, b: byte, j1: Cobs.Jump, crc: Crc) returns (l1: Layer, o: FeedResult)
    requires Decoded(l, p, k, crc) && k < |p.bytes|
    requires Cobs.PollPlain(l.cobs, Xor(b, COBS_XOR)) == (j1, Cobs.Byte(p.bytes[k]))
    ensures l1.Valid() && Next(l, b, crc) == (l1, o)
    ensures Decoded(l1, p, k + 1, crc) && l1.cobs == j1
    ensures p.Delivery(k) == (if o == Ok(Skip) then [] else [o]) + p.Delivery(k + 1)
  {
    var l0 := l.(cobs := j1);
    var e := Cobs.Byte(p.bytes[k]);
    if k < 3 {
      DecodedTypeByte(l0, p, k, crc);
    } else if k == 3 {
      DecodedLastTypeByte(l0, p, crc);
    } else if k < p.CrcAt() {
      DecodedPayloadByte(l0, p, k, crc);
    } else {
      DecodedCrcByte(l0, p, k, crc);
    }
    var r := if k < 4 then OnHeader(l0, e, crc) else OnBody(l0, e, crc);
    l1, o := r.0, r.1;
  }

  lemma CobsSkipStep(l: Layer, p: Packet, k: nat, b: byte, j1: Cobs.Jump, crc: Crc) returns (l1: Layer)
    requires Decoded(l, p, k, crc)
    requires Cobs.PollPlain(l.cobs, Xor(b, COBS_XOR)) == (j1, Cobs.Skip)
    ensures l1.Valid() && Next(l, b, crc) == (l1, Ok(Skip))
    ensures Decoded(l1, p, k, crc) && l1.cobs == j1
  {
    l1 := l.(cobs := j1);
  }

  /** These stuffed bytes bring the packet to its end from byte `k` on. */
  ghost predicate Completes(l: Layer, w: seq<byte>, p: Packet, k: nat, crc: Crc)
    requires l.Valid() && |p.bytes| == p.CrcAt() + 4
  {
    var (l', os) := Receive(l, w, crc);
    && Idle(l', crc)
    && |os| > 0 && os[|os| - 1] == Ok(Finished)
    && Visible(os) == p.Delivery(k)
  }

  lemma CompletesOneMore(l: Layer, l1: Layer, o: FeedResult, w: seq<byte>, p: Packet, k: nat, k1: nat, crc: Crc)
    requires l.Valid() && l1.Valid() && |p.bytes| == p.CrcAt() + 4
    requires |w| > 0 && Next(l, w[0], crc) == (l1, o) && Completes(l1, w[1..], p, k1, crc)
    requires p.Delivery(k) == (if o == Ok(Skip) then [] else [o]) + p.Delivery(k1)
    ensures Completes(l, w, p, k, crc)
  {
    hide Next, Visible, Idle, Receive, Layer.Valid, Packet.Delivery;
    ReceiveOne(l, l1, o, w, crc);
  }

  lemma {:induction false} CobsStage(l: Layer, p: Packet, k: nat, w: seq<byte>, crc: Crc)
    requires l.Valid() && |p.bytes| == p.CrcAt() + 4 && p.Shape()
    requires Decoded(l, p, k, crc) && p.Intact(crc) && Carries(l.cobs, w, p, k)
    ensures Completes(l, w, p, k, crc)
    decreases |w|
  {
    hide Next, Visible, Idle, Cobs.PollPlain, Xor, Decoded, Receive, Completes;
    hide Packet.Delivery, Packet.Intact, Packet.Shape, Layer.Valid;
    CarriesStep(l.cobs, w, p, k);
    var (j1, e) := Cobs.PollPlain(l.cobs, Xor(w[0], COBS_XOR));
    if e == Cobs.Skip {
      var l1 := CobsSkipStep(l, p, k, w[0], j1, crc);
      CobsStage(l1, p, k, w[1..], crc);
      CompletesOneMore(l, l1, Ok(Skip), w, p, k, k, crc);
    } else if k < |p.bytes| {
      var l1, o := CobsByteStep(l, p, k, w[0], j1, crc);
      CobsStage(l1, p, k + 1, w[1..], crc);
      CompletesOneMore(l, l1, o, w, p, k, k + 1, crc);
    } else {
      CobsEnd(l, p, w, crc);
    }
  }

  lemma CobsEnd(l: Layer, p: Packet, w: seq<byte>, crc: Crc)
    requires Decoded(l, p, |p.bytes|, crc) && p.Intact(crc) && |w| == 1
    requires Cobs.PollPlain(l.cobs, Xor(w[0], COBS_XOR)) == (Cobs.START, Cobs.Finished)
    ensures Completes(l, w, p, |p.bytes|, crc)
  {
    var l0 := l.(cobs := Cobs.START);
    DecodedEnd(l0, p, crc);
    var (l1, o) := OnBody(l0, Cobs.Finished, crc);
    ReceiveOne(l, l1, o, w, crc);
  }

  lemma ReceiveOne(l: Layer, l1: Layer, o: FeedResult, w: seq<byte>, crc: Crc)
    requires l.Valid() && l1.Valid() && |w| > 0 && Next(l, w[0], crc) == (l1, o)
    ensures var (l', os) := Receive(l1, w[1..], crc);
            && Receive(l, w, crc) == (l', [o] + os)
            && Visible(Receive(l, w, crc).1) == (if o == Ok(Skip) then [] else [o]) + Visible(os)
  {
    var os := Receive(l1, w[1..], crc).1;
    assert ([o] + os)[1..] == os;
  }

  lemma ReceiveSkip(l: Layer, l1: Layer, w: seq<byte>, crc: Crc)
    requires l.Valid() && l1.Valid() && |w| > 0 && Next(l, w[0], crc) == (l1, Ok(Skip))
    ensures var (l', os) := Receive(l1, w[1..], crc);
            && Receive(l, w, crc) == (l', [Ok(Skip)] + os)
            && Visible(Receive(l, w, crc).1) == Visible(os)
  {
    ReceiveOne(l, l1, Ok(Skip), w, crc);
  }

  // ----- Frames ----------------------------------------------------------------------

  /** The results for one frame: its header, its payload in order, and the end exactly on
      the last byte. */
  ghost predicate DeliversMessage(os: seq<FeedResult>, m: Message)
  {
    && |os| > 0 && os[|os| - 1] == Ok(Finished)
    && Visible(os)
       == [Ok(Header(FrameHeader(m.messageType, |m.payload|)))] + AsPayload(m.payload) + [Ok(Finished)]
  }

  /** The preamble and the length field produce nothing and announce the payload length. */
  lemma PrefixStage(l: Layer, n: nat, crc: Crc)
    requires Ready(l, crc) && n < LENGTH_LIMIT
    ensures var len := EncodeLength(n).value;
            var (l', os) := Receive(l, PREAMBLE + len, crc);
            && l' == l.(state := PacketHeader(0, n), preamble := Initial, lengthBytes := len)
            && Visible(os) == []
  {
    var len := EncodeLength(n).value;
    PreambleStage(l, crc);
    var l1 := l.(state := Length(0), preamble := Initial);
    LengthStage(l1, n, crc);
    ReceiveConcat(l, PREAMBLE, len, crc);
    VisibleConcat(Receive(l, PREAMBLE, crc).1, Receive(l1, len, crc).1);
  }

  lemma PacketRoundTrip(l: Layer, p: Packet, crc: Crc)
    requires Ready(l, crc) && p.Shape() && p.Intact(crc)
    ensures var wire := PREAMBLE + EncodeLength(p.header.payloadLen).value + Cobs.Encode(p.bytes, COBS_XOR);
            var (l', os) := Receive(l, wire, crc);
            && Idle(l', crc)
            && |os| > 0 && os[|os| - 1] == Ok(Finished)
            && Visible(os) == p.Delivery(0)
  {
    hide Next, Receive, Visible, Cobs.Encode, EncodeLength, Cobs.Delivers;
    var prefix := PREAMBLE + EncodeLength(p.header.payloadLen).value;
    var body := Cobs.Encode(p.bytes, COBS_XOR);
    PrefixStage(l, p.header.payloadLen, crc);
    var (l2, o1) := Receive(l, prefix, crc);
    assert p.bytes[..0] == [] && p.bytes[0..] == p.bytes && l2.headerBytes[..0] == [];
    assert Decoded(l2, p, 0, crc);
    Cobs.RoundTrip(p.bytes, COBS_XOR);
    assert Carries(l2.cobs, body, p, 0);
    CobsStage(l2, p, 0, body, crc);
    ReceiveConcat(l, prefix, body, crc);
    VisibleConcat(o1, Receive(l2, body, crc).1);
  }

  lemma FrameRoundTrip(l: Layer, m: Message, crc: Crc)
    requires Ready(l, crc) && m.Valid()
    ensures var (l', os) := Receive(l, m.Wire(crc), crc);
            Idle(l', crc) && DeliversMessage(os, m)
  {
    MessagePacket(m, crc);
    PacketRoundTrip(l, m.AsPacket(crc), crc);
  }

  function Wires(ms: seq<Message>, crc: Crc): seq<byte>
    requires forall m :: m in ms ==> m.Valid()
  {
    if |ms| == 0 then [] else ms[0].Wire(crc) + Wires(ms[1..], crc)
  }

  /** The results cut at the frame boundaries, one message for each piece. */
  ghost predicate DeliversAll(os: seq<FeedResult>, ms: seq<Message>, crc: Crc)
    requires forall m :: m in ms ==> m.Valid()
  {
    if |ms| == 0 then os == []
    else
      var n := |ms[0].Wire(crc)|;
      && n <= |os|
      && DeliversMessage(os[..n], ms[0])
      && DeliversAll(os[n..], ms[1..], crc)
  }

  /** Any sequence of frames, without a reset in between, comes out message by message. */
  lemma {:induction false} StreamRoundTrip(l: Layer, ms: seq<Message>, crc: Crc)
    requires Ready(l, crc) && forall m :: m in ms ==> m.Valid()
    ensures var (l', os) := Receive(l, Wires(ms, crc), crc);
            Ready(l', crc) && DeliversAll(os, ms, crc)
    decreases |ms|
  {
    if |ms| > 0 {
      var w, rest := ms[0].Wire(crc), Wires(ms[1..], crc);
      FrameRoundTrip(l, ms[0], crc);
      var (l1, o1) := Receive(l, w, crc);
      StreamRoundTrip(l1, ms[1..], crc);
      ReceiveConcat(l, w, rest, crc);
      var o2 := Receive(l1, rest, crc).1;
      assert (o1 + o2)[..|w|] == o1 && (o1 + o2)[|w|..] == o2;
    }
  }
}
