/** Noise: whatever arrives, a receiver that resets after each error reports a finished
    frame only for bytes that are a well-formed frame with a matching CRC. */
module FrameSoundness {
  import opened Bytes
  import opened Frames
  import opened FrameLayers
  import opened FrameStream
  import Cobs

  predicate Boundary(o: FeedResult)
  {
    o.Err? || o == Ok(Finished)
  }

  /** The results after the last boundary. */
  function Since(os: seq<FeedResult>): seq<FeedResult>
  {
    if |os| == 0 || Boundary(os[|os| - 1]) then []
    else Since(os[..|os| - 1]) + [os[|os| - 1]]
  }

  function Headers(os: seq<FeedResult>): seq<FrameHeader>
  {
    if |os| == 0 then []
    else
      var o := os[|os| - 1];
      Headers(os[..|os| - 1]) + (if o.Ok? && o.value.Header? then [o.value.header] else [])
  }

  function Payloads(os: seq<FeedResult>): seq<byte>
  {
    if |os| == 0 then []
    else
      var o := os[|os| - 1];
      Payloads(os[..|os| - 1]) + (if o.Ok? && o.value.Payload? then [o.value.b] else [])
  }

  lemma SinceSnoc(os: seq<FeedResult>, o: FeedResult)
    ensures Boundary(o) ==> Since(os + [o]) == []
    ensures !Boundary(o) ==> Since(os + [o]) == Since(os) + [o]
    ensures Headers(Since(os) + [o])
            == Headers(Since(os)) + (if o.Ok? && o.value.Header? then [o.value.header] else [])
    ensures Payloads(Since(os) + [o])
            == Payloads(Since(os)) + (if o.Ok? && o.value.Payload? then [o.value.b] else [])
  {
    assert (os + [o])[..|os|] == os;
    assert (Since(os) + [o])[..|Since(os)|] == Since(os);
  }

  /** `s[k..e]` is a frame that carries the packet `p`. */
  ghost predicate FrameAt(s: seq<byte>, k: nat, e: nat, p: Packet, crc: Crc)
  {
    && k + 8 <= e <= |s|
    && s[k..k + 4] == PREAMBLE
    && LengthField(s[k + 4..k + 8])
    && DecodeLength(s[k + 4..k + 8]) == p.header.payloadLen
    && Cobs.Delivers(Cobs.START, Masked(s[k + 8..e], COBS_XOR), Cobs.AsPolls(p.bytes))
    && p.Shape() && p.Intact(crc)
  }

  predicate LengthField(s: seq<byte>)
  {
    |s| == 4 && forall i :: 0 <= i < 4 ==> s[i] >= 0xc0
  }

  predicate EndsWith(s: seq<byte>, t: seq<byte>)
  {
    |t| <= |s| && forall i :: 0 <= i < |t| ==> s[|s| - |t| + i] == t[i]
  }

  lemma EndsWithSnoc(s: seq<byte>, t: seq<byte>, b: byte)
    requires EndsWith(s, t)
    ensures EndsWith(s + [b], t + [b])
  {
    var s', t' := s + [b], t + [b];
    forall i | 0 <= i < |t'|
      ensures s'[|s'| - |t'| + i] == t'[i]
    {
      assert i < |t| ==> s[|s| - |t| + i] == t[i];
    }
  }

  lemma EndsWithTail(s: seq<byte>, t: seq<byte>, n: nat)
    requires EndsWith(s, t) && n <= |t|
    ensures EndsWith(s, t[n..])
  {
    var u := t[n..];
    forall i | 0 <= i < |u|
      ensures s[|s| - |u| + i] == u[i]
    {
      assert s[|s| - |t| + (n + i)] == t[n + i];
    }
  }

  // ----- The invariant ---------------------------------------------------------------

  function PreambleBytes(p: PreambleState): seq<byte>
  {
    match p
    case Preamble1 => [0x55]
    case Preamble2 => [0x55, 0x55]
    case Preamble3 => [0x55, 0x55, 0x55]
    case _ => []
  }

  /** The stuffed bytes `w` at the end of `s`, and the data `d` they have delivered. */
  ghost predicate InFrame(l: Layer, s: seq<byte>, w: seq<byte>, d: seq<byte>, n: nat)
  {
    && n < LENGTH_LIMIT
    && LengthField(l.lengthBytes) && DecodeLength(l.lengthBytes) == n
    && EndsWith(s, PREAMBLE + l.lengthBytes + w)
    && Cobs.Drive(Cobs.START, Masked(w, COBS_XOR)).0 == l.cobs
    && Cobs.Content(Cobs.Drive(Cobs.START, Masked(w, COBS_XOR)).1) == Cobs.AsPolls(d)
  }

  ghost predicate HeaderTrace(l: Layer, s: seq<byte>, w: seq<byte>, d: seq<byte>, crc: Crc)
    requires l.Valid() && l.state.PacketHeader?
  {
    && InFrame(l, s, w, d, l.state.payloadLen)
    && |d| == l.state.i
    && l.headerBytes[..|d|] == d
    && l.hash == crc.Run(crc.init, d)
  }

  ghost predicate BodyTrace(l: Layer, s: seq<byte>, w: seq<byte>, d: seq<byte>, crc: Crc)
    requires l.Valid() && l.state.PacketBody?
  {
    var h := l.state.header;
    var crcAt := 4 + h.payloadLen;
    && InFrame(l, s, w, d, h.payloadLen)
    && |d| == l.state.i <= crcAt + 4
    && FromLe32(d[..4]) == TypeCode(h.messageType)
    && l.hash == crc.Run(crc.init, d[..if |d| < crcAt then |d| else crcAt])
    && (|d| > crcAt ==> l.crcBytes[..|d| - crcAt] == d[crcAt..])
  }

  /** What the receiver's state says about the stream so far and about its own results. */
  ghost predicate Traced(l: Layer, os: seq<FeedResult>, s: seq<byte>, w: seq<byte>, d: seq<byte>, crc: Crc)
  {
    && l.Valid()
    && (l.state != Preamble ==> l.preamble == Initial)
    && match l.state {
         case PacketHeader(i, n) =>
           HeaderTrace(l, s, w, d, crc) && Headers(Since(os)) == [] && Payloads(Since(os)) == []
         case PacketBody(i, h) =>
           && BodyTrace(l, s, w, d, crc)
           && Headers(Since(os)) == [h]
           && Payloads(Since(os)) == d[4..if |d| < 4 + h.payloadLen then |d| else 4 + h.payloadLen]
         case Length(i) =>
           && Headers(Since(os)) == [] && Payloads(Since(os)) == []
           && l.cobs == Cobs.START && l.hash == crc.init
           && EndsWith(s, PREAMBLE + l.lengthBytes[..i])
           && forall k :: 0 <= k < i ==> l.lengthBytes[k] >= 0xc0
         case _ =>
           && Headers(Since(os)) == [] && Payloads(Since(os)) == []
           && l.cobs == Cobs.START && l.hash == crc.init
           && (l.state == Preamble ==> EndsWith(s, PreambleBytes(l.preamble)))
       }
  }

  lemma PollSnoc(w: seq<byte>, b: byte)
    ensures var (j, es) := Cobs.Drive(Cobs.START, Masked(w, COBS_XOR));
            var (j', e) := Cobs.PollPlain(j, Xor(b, COBS_XOR));
            var (j'', es') := Cobs.Drive(Cobs.START, Masked(w + [b], COBS_XOR));
            && j'' == j' && es' == es + [e]
            && Cobs.Content(es') == Cobs.Content(es) + (if e == Cobs.Skip then [] else [e])
  {
    var (j, es) := Cobs.Drive(Cobs.START, Masked(w, COBS_XOR));
    var x := Xor(b, COBS_XOR);
    MaskedConcat(w, [b], COBS_XOR);
    assert Masked([b], COBS_XOR) == [x];
    Cobs.DriveConcat(Cobs.START, Masked(w, COBS_XOR), [x]);
    var e := Cobs.PollPlain(j, x).1;
    assert Cobs.Drive(j, [x]).1 == [e];
    Cobs.ContentConcat(es, [e]);
    assert Cobs.Content([e]) == if e == Cobs.Skip then [] else [e];
  }

  /** One more stuffed byte: the data grows by what the decoder delivered. */
  lemma SameFrame(l: Layer, l': Layer, s: seq<byte>, w: seq<byte>, d: seq<byte>, n: nat)
    requires l'.lengthBytes == l.lengthBytes && l'.cobs == l.cobs
    ensures InFrame(l', s, w, d, n) == InFrame(l, s, w, d, n)
  {
  }

  lemma InFrameStep(l: Layer, s: seq<byte>, w: seq<byte>, d: seq<byte>, n: nat, b: byte)
    requires l.Valid() && InFrame(l, s, w, d, n)
    ensures var (j, e) := Cobs.PollPlain(l.cobs, Xor(b, COBS_XOR));
            var l' := l.(cobs := j);
            && (e == Cobs.Skip ==> InFrame(l', s + [b], w + [b], d, n))
            && (e.Byte? ==> InFrame(l', s + [b], w + [b], d + [e.b], n))
            && (e == Cobs.Finished ==> Cobs.Delivers(Cobs.START, Masked(w + [b], COBS_XOR), Cobs.AsPolls(d)))
  {
    PollSnoc(w, b);
    EndsWithSnoc(s, PREAMBLE + l.lengthBytes + w, b);
    assert PREAMBLE + l.lengthBytes + w + [b] == PREAMBLE + l.lengthBytes + (w + [b]);
    var e := Cobs.PollPlain(l.cobs, Xor(b, COBS_XOR)).1;
    if e.Byte? {
      assert Cobs.AsPolls(d + [e.b]) == Cobs.AsPolls(d) + [e];
    }
  }

  lemma PreambleTail(p: PreambleState, s: seq<byte>, b: byte)
    requires p.Valid() && EndsWith(s, PreambleBytes(p))
    ensures EndsWith(s + [b], PreambleBytes(PreambleFeed(p, b).0))
    ensures PreambleFeed(p, b).1 == PreambleDone ==> EndsWith(s + [b], PREAMBLE)
  {
    var word := PreambleBytes(p) + [b];
    EndsWithSnoc(s, PreambleBytes(p), b);
    if p == Preamble3 && b == 0x55 {
      EndsWithTail(s + [b], word, 1);
      assert word[1..] == PreambleBytes(Preamble3);
    } else if p == Preamble3 && b == 0x5e {
      assert word == PREAMBLE;
    } else if PreambleBytes(PreambleFeed(p, b).0) != [] {
      assert word == PreambleBytes(PreambleFeed(p, b).0);
    }
  }

  lemma TracePreamble(l: Layer, os: seq<FeedResult>, s: seq<byte>, b: byte, crc: Crc)
    requires Traced(l, os, s, [], [], crc) && l.state == Preamble
    ensures var (l', o) := Next(l, b, crc);
            Traced(l', os + [o], s + [b], [], [], crc) && o != Ok(Finished)
  {
    var (p, status) := PreambleFeed(l.preamble, b);
    var (l', o) := Next(l, b, crc);
    SinceSnoc(os, o);
    PreambleTail(l.preamble, s, b);
    if status == PreambleDone {
      assert l' == l.(preamble := p, state := Length(0));
      assert PREAMBLE + l'.lengthBytes[..0] == PREAMBLE;
    } else if status == PreambleWrong {
      assert l' == ResetLayer(crc);
    } else if status == PreambleSkip {
      assert l' == l.(preamble := p);
    }
  }

  lemma TraceLegacy(l: Layer, os: seq<FeedResult>, s: seq<byte>, b: byte, crc: Crc)
    requires Traced(l, os, s, [], [], crc) && (l.state.Legacy? || l.state.LegacyPrintString?)
    ensures var (l', o) := Next(l, b, crc);
            Traced(l', os + [o], s + [b], [], [], crc) && o != Ok(Finished)
  {
    SinceSnoc(os, Next(l, b, crc).1);
  }

  lemma TraceLength(l: Layer, os: seq<FeedResult>, s: seq<byte>, b: byte, crc: Crc)
    requires Traced(l, os, s, [], [], crc) && l.state.Length?
    ensures var (l', o) := Next(l, b, crc);
            Traced(l', os + [o], s + [b], [], [], crc) && o != Ok(Finished)
  {
    hide Since, DecodeLength, EndsWith, HeaderTrace;
    var (l', o) := Next(l, b, crc);
    SinceSnoc(os, o);
    if o.Err? {
      TraceReset(os + [o], s + [b], crc);
    } else {
      var i := l.state.i;
      LengthGrows(l.lengthBytes, s, i, b);
      if i == 3 {
        assert l'.lengthBytes[..4] == l'.lengthBytes;
        HeaderStarts(l', s + [b], crc);
      }
    }
  }

  /** After an error nothing is known of the bytes. */
  lemma TraceReset(os: seq<FeedResult>, s: seq<byte>, crc: Crc)
    requires Since(os) == []
    ensures Traced(ResetLayer(crc), os, s, [], [], crc)
  {
  }

  lemma LengthGrows(length: seq<byte>, s: seq<byte>, i: nat, b: byte)
    requires i < |length| && EndsWith(s, PREAMBLE + length[..i])
    ensures EndsWith(s + [b], PREAMBLE + length[i := b][..i + 1])
  {
    EndsWithSnoc(s, PREAMBLE + length[..i], b);
    hide EndsWith;
    assert length[i := b][..i + 1] == length[..i] + [b];
    Assoc(PREAMBLE, length[..i], [b]);
  }

  lemma HeaderStarts(l: Layer, s: seq<byte>, crc: Crc)
    requires l.Valid() && LengthField(l.lengthBytes) && l.state == PacketHeader(0, DecodeLength(l.lengthBytes))
    requires l.cobs == Cobs.START && l.hash == crc.init && EndsWith(s, PREAMBLE + l.lengthBytes)
    ensures HeaderTrace(l, s, [], [], crc)
  {
    hide EndsWith, DecodeLength, LengthField;
    assert PREAMBLE + l.lengthBytes + [] == PREAMBLE + l.lengthBytes;
    assert Masked([], COBS_XOR) == [];
    assert l.headerBytes[..0] == [];
  }

  lemma HeaderByte(l: Layer, s: seq<byte>, w: seq<byte>, d: seq<byte>, b: byte, crc: Crc)
    requires l.Valid() && l.state.PacketHeader? && HeaderTrace(l, s, w, d, crc)
    requires Cobs.PollPlain(l.cobs, Xor(b, COBS_XOR)).1.Byte?
    ensures var (l', o) := Next(l, b, crc);
            var x := Cobs.PollPlain(l.cobs, Xor(b, COBS_XOR)).1.b;
            o.Ok? ==>
              && l'.Valid() && l'.preamble == l.preamble
              && (|d| < 3 ==> o == Ok(Skip) && l'.state.PacketHeader?
                              && HeaderTrace(l', s + [b], w + [b], d + [x], crc))
              && (|d| == 3 ==> l'.state.PacketBody? && o == Ok(Header(l'.state.header))
                               && BodyTrace(l', s + [b], w + [b], d + [x], crc))
  {
    var x := Cobs.PollPlain(l.cobs, Xor(b, COBS_XOR)).1.b;
    var (l', o) := Next(l, b, crc);
    var i := |d|;
    hide Cobs.PollPlain, Xor, InFrame, TypeFromCode;
    InFrameStep(l, s, w, d, l.state.payloadLen, b);
    crc.RunAppend(crc.init, d, x);
    if o.Ok? {
      SameFrame(l.(cobs := l'.cobs), l', s + [b], w + [b], d + [x], l.state.payloadLen);
      assert l'.headerBytes[..i + 1] == l.headerBytes[..i] + [x];
      if i == 3 {
        assert l'.headerBytes == l'.headerBytes[..4] == d + [x];
        assert (d + [x])[..4] == d + [x];
      }
    }
  }

  lemma TraceHeader(l: Layer, os: seq<FeedResult>, s: seq<byte>, w: seq<byte>, d: seq<byte>, b: byte, crc: Crc)
    returns (w': seq<byte>, d': seq<byte>)
    requires Traced(l, os, s, w, d, crc) && l.state.PacketHeader?
    ensures var (l', o) := Next(l, b, crc);
            Traced(l', os + [o], s + [b], w', d', crc) && o != Ok(Finished)
  {
    var (l', o) := Next(l, b, crc);
    var (j, e) := Cobs.PollPlain(l.cobs, Xor(b, COBS_XOR));
    SinceSnoc(os, o);
    if o.Err? {
      w', d' := [], [];
    } else if e == Cobs.Skip {
      InFrameStep(l, s, w, d, l.state.payloadLen, b);
      w', d' := w + [b], d;
    } else {
      HeaderByte(l, s, w, d, b, crc);
      w', d' := w + [b], d + [e.b];
    }
  }

  lemma BodyByte(l: Layer, s: seq<byte>, w: seq<byte>, d: seq<byte>, b: byte, crc: Crc)
    requires l.Valid() && l.state.PacketBody? && BodyTrace(l, s, w, d, crc)
    requires Cobs.PollPlain(l.cobs, Xor(b, COBS_XOR)).1.Byte?
    ensures var (l', o) := Next(l, b, crc);
            var x := Cobs.PollPlain(l.cobs, Xor(b, COBS_XOR)).1.b;
            o.Ok? ==>
              && l'.Valid() && l'.preamble == l.preamble
              && l'.state == PacketBody(|d| + 1, l.state.header)
              && BodyTrace(l', s + [b], w + [b], d + [x], crc)
              && o == (if |d| < 4 + l.state.header.payloadLen then Ok(Payload(x)) else Ok(Skip))
  {
    hide Cobs.PollPlain, Xor, InFrame, FromLe32, TypeCode;
    var h := l.state.header;
    var crcAt := 4 + h.payloadLen;
    var x := Cobs.PollPlain(l.cobs, Xor(b, COBS_XOR)).1.b;
    var d' := d + [x];
    var (l', o) := Next(l, b, crc);
    InFrameStep(l, s, w, d, h.payloadLen, b);
    assert d'[..4] == d[..4];
    if o.Ok? {
      SameFrame(l.(cobs := l'.cobs), l', s + [b], w + [b], d', h.payloadLen);
    }
    if o.Err? {
    } else if |d| < crcAt {
      crc.RunAppend(crc.init, d, x);
      assert d[..|d|] == d && d'[..|d| + 1] == d';
    } else {
      assert d'[..crcAt] == d[..crcAt];
      var at := |d| - crcAt;
      assert l'.crcBytes[..at + 1] == l.crcBytes[..at] + [x];
      assert l.crcBytes[..at] == d[crcAt..];
      assert d'[crcAt..] == d[crcAt..] + [x];
    }
  }

  lemma PayloadGrows(d: seq<byte>, x: byte, end: nat)
    requires 4 <= |d| && 4 <= end
    ensures |d| < end ==> (d + [x])[4..|d| + 1] == d[4..|d|] + [x]
    ensures |d| >= end ==> (d + [x])[4..end] == d[4..end]
  {
  }

  lemma TraceBody(l: Layer, os: seq<FeedResult>, s: seq<byte>, w: seq<byte>, d: seq<byte>, b: byte, crc: Crc)
    returns (w': seq<byte>, d': seq<byte>)
    requires Traced(l, os, s, w, d, crc) && l.state.PacketBody?
    ensures var (l', o) := Next(l, b, crc); Traced(l', os + [o], s + [b], w', d', crc)
  {
    hide InFrame, Since, Cobs.PollPlain, Xor, FromLe32, TypeCode;
    var (l', o) := Next(l, b, crc);
    var (j, e) := Cobs.PollPlain(l.cobs, Xor(b, COBS_XOR));
    SinceSnoc(os, o);
    if o.Err? {
      w', d' := [], [];
      TraceReset(os + [o], s + [b], crc);
    } else if o == Ok(Finished) {
      w', d' := [], [];
      FinishedStarts(l.cobs, Xor(b, COBS_XOR));
    } else if e == Cobs.Skip {
      InFrameStep(l, s, w, d, l.state.header.payloadLen, b);
      w', d' := w + [b], d;
    } else {
      w', d' := w + [b], d + [e.b];
      BodyByte(l, s, w, d, b, crc);
      PayloadGrows(d, e.b, 4 + l.state.header.payloadLen);
    }
  }

  lemma FinishedStarts(j: Cobs.Jump, x: byte)
    requires Cobs.JumpOk(j) && Cobs.PollPlain(j, x).1 == Cobs.Finished
    ensures Cobs.PollPlain(j, x).0 == Cobs.START
  {
  }

  lemma FrameSlices(s: seq<byte>, len: seq<byte>, w: seq<byte>, b: byte)
    requires |len| == 4 && EndsWith(s, PREAMBLE + len + w)
    ensures var t, k := s + [b], |s| - |w| - 8;
            && k >= 0
            && t[k..k + 4] == PREAMBLE && t[k + 4..k + 8] == len && t[k + 8..|s| + 1] == w + [b]
  {
    var t, k := s + [b], |s| - |w| - 8;
    var frame := PREAMBLE + len + w;
    assert s[k..] == frame;
    assert t[k..k + 4] == frame[..4];
    assert t[k + 4..k + 8] == frame[4..8];
    assert t[k + 8..|s| + 1] == frame[8..] + [b];
  }

  /** The last byte of a frame. */
  lemma BodyEnd(l: Layer, s: seq<byte>, w: seq<byte>, d: seq<byte>, b: byte, crc: Crc) returns (p: Packet, k: nat)
    requires l.Valid() && l.state.PacketBody? && BodyTrace(l, s, w, d, crc)
    requires Next(l, b, crc).1 == Ok(Finished)
    ensures FrameAt(s + [b], k, |s| + 1, p, crc)
    ensures p.header == l.state.header && |d| == p.CrcAt() + 4 && p.Payload() == d[4..p.CrcAt()]
  {
    p := Packet(l.state.header, d);
    var crcAt := p.CrcAt();
    InFrameStep(l, s, w, d, l.state.header.payloadLen, b);
    assert Cobs.PollPlain(l.cobs, Xor(b, COBS_XOR)).1 == Cobs.Finished;
    assert |d| == crcAt + 4;
    assert l.crcBytes == l.crcBytes[..4] == d[crcAt..];
    FrameSlices(s, l.lengthBytes, w, b);
    k := |s| - |w| - 8;
  }

  lemma TraceNothing(crc: Crc)
    ensures Receive(ResetLayer(crc), [], crc) == (ResetLayer(crc), [])
    ensures Traced(ResetLayer(crc), [], [], [], [], crc)
  {
  }

  lemma {:induction false} Trace(s: seq<byte>, crc: Crc) returns (w: seq<byte>, d: seq<byte>)
    ensures var (l, os) := Receive(ResetLayer(crc), s, crc); Traced(l, os, s, w, d, crc)
  {
    hide Traced, Receive, Next, ResetLayer, Layer.Valid;
    if |s| == 0 {
      TraceNothing(crc);
      w, d := [], [];
    } else {
      var t, b := s[..|s| - 1], s[|s| - 1];
      w, d := Trace(t, crc);
      var (l, os) := Receive(ResetLayer(crc), t, crc);
      assert s == t + [b];
      ReceiveSnoc(ResetLayer(crc), t, b, crc);
      w, d := TraceOne(l, os, t, w, d, b, crc);
    }
  }

  lemma TraceOne(l: Layer, os: seq<FeedResult>, t: seq<byte>, w0: seq<byte>, d0: seq<byte>, b: byte, crc: Crc)
    returns (w: seq<byte>, d: seq<byte>)
    requires Traced(l, os, t, w0, d0, crc)
    ensures l.Valid()
    ensures var (l', o) := Next(l, b, crc); Traced(l', os + [o], t + [b], w, d, crc)
  {
    assert l.Valid();
    hide Traced, Next, Layer.Valid;
    w, d := [], [];
    if !l.state.PacketHeader? && !l.state.PacketBody? {
      Untraced(l, os, t, w0, d0, crc);
    }
    match l.state {
      case PacketHeader(_, _) => w, d := TraceHeader(l, os, t, w0, d0, b, crc);
      case PacketBody(_, _) => w, d := TraceBody(l, os, t, w0, d0, b, crc);
      case Length(_) => TraceLength(l, os, t, b, crc);
      case Preamble => TracePreamble(l, os, t, b, crc);
      case _ => TraceLegacy(l, os, t, b, crc);
    }
  }

  /** Outside a frame the stuffed bytes do not matter. */
  lemma Untraced(l: Layer, os: seq<FeedResult>, s: seq<byte>, w: seq<byte>, d: seq<byte>, crc: Crc)
    requires Traced(l, os, s, w, d, crc) && !l.state.PacketHeader? && !l.state.PacketBody?
    ensures Traced(l, os, s, [], [], crc)
  {
  }

  lemma ReceiveSnoc(l: Layer, t: seq<byte>, b: byte, crc: Crc)
    requires l.Valid()
    ensures var (l1, os) := Receive(l, t, crc);
            var (l2, o) := Next(l1, b, crc);
            Receive(l, t + [b], crc) == (l2, os + [o])
  {
    ReceiveConcat(l, t, [b], crc);
    var l1 := Receive(l, t, crc).0;
    var (l2, o) := Next(l1, b, crc);
    ReceiveOne(l1, l2, o, [b], crc);
    assert [b][1..] == [];
    assert Receive(l2, [], crc) == (l2, []);
    assert [o] + [] == [o];
  }

  /** Over every stream, with a reset after each error: when byte `i` finishes a frame, the
      bytes up to it are a frame whose CRC matches, and since the last boundary the
      receiver has reported that frame's header once and exactly its payload. */
  lemma FinishedIsSound(s: seq<byte>, i: nat, crc: Crc) returns (p: Packet, k: nat)
    requires i < |s| && Receive(ResetLayer(crc), s, crc).1[i] == Ok(Finished)
    ensures FrameAt(s, k, i + 1, p, crc)
    ensures p.Shape()
    ensures var before := Since(Receive(ResetLayer(crc), s, crc).1[..i]);
            Headers(before) == [p.header] && Payloads(before) == p.Payload()
  {
    hide FrameAt, Since, Headers, Payloads, Next;
    ReceivePrefix(ResetLayer(crc), s, i, crc);
    p, k := FinishedFrame(s[..i], s[i], crc);
    var t := s[..i] + [s[i]];
    assert t <= s;
    FrameAtPrefix(t, s, k, i + 1, p, crc);
  }

  lemma OnlyBodyFinishes(l: Layer, b: byte, crc: Crc)
    requires l.Valid() && Next(l, b, crc).1 == Ok(Finished)
    ensures l.state.PacketBody? && l.state.i >= 8 + l.state.header.payloadLen
  {
  }

  lemma TracedEnd(l: Layer, os: seq<FeedResult>, t: seq<byte>, w: seq<byte>, d: seq<byte>, b: byte, crc: Crc)
    returns (p: Packet, k: nat)
    requires Traced(l, os, t, w, d, crc) && Next(l, b, crc).1 == Ok(Finished)
    ensures FrameAt(t + [b], k, |t| + 1, p, crc)
    ensures Headers(Since(os)) == [p.header] && Payloads(Since(os)) == p.Payload()
  {
    hide FrameAt, InFrame, Since, Headers, Payloads, Next;
    OnlyBodyFinishes(l, b, crc);
    p, k := BodyEnd(l, t, w, d, b, crc);
  }

  lemma FinishedFrame(t: seq<byte>, b: byte, crc: Crc) returns (p: Packet, k: nat)
    requires Next(Receive(ResetLayer(crc), t, crc).0, b, crc).1 == Ok(Finished)
    ensures FrameAt(t + [b], k, |t| + 1, p, crc) && p.Shape()
    ensures var before := Since(Receive(ResetLayer(crc), t, crc).1);
            Headers(before) == [p.header] && Payloads(before) == p.Payload()
  {
    var r := Receive(ResetLayer(crc), t, crc);
    var w, d := Trace(t, crc);
    p, k := TracedEnd(r.0, r.1, t, w, d, b, crc);
  }

  lemma ReceivePrefix(l: Layer, s: seq<byte>, i: nat, crc: Crc)
    requires l.Valid() && i < |s|
    ensures var (l1, os) := Receive(l, s[..i], crc);
            && Receive(l, s, crc).1[..i] == os
            && Receive(l, s, crc).1[i] == Next(l1, s[i], crc).1
  {
    var t, b, rest := s[..i], s[i], s[i + 1..];
    assert s == (t + [b]) + rest;
    ReceiveConcat(l, t + [b], rest, crc);
    ReceiveSnoc(l, t, b, crc);
  }

  lemma FrameAtPrefix(t: seq<byte>, s: seq<byte>, k: nat, e: nat, p: Packet, crc: Crc)
    requires FrameAt(t, k, e, p, crc) && t <= s
    ensures FrameAt(s, k, e, p, crc)
  {
    assert s[k..k + 4] == t[k..k + 4] && s[k + 4..k + 8] == t[k + 4..k + 8] && s[k + 8..e] == t[k + 8..e];
  }
}
