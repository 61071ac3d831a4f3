/** Starting to listen in the middle of a frame: when the receiver finds its way back. */
module FrameResync {
  import opened Wrappers
  import opened Bytes
  import opened Frames
  import opened FrameLayers
  import opened FrameStream
  import opened FrameSoundness
  import Cobs

  /** The command words of the legacy protocol that the preamble stage also recognises. */
  const PUT_PROGRAM_INFO: seq<byte> := [0x44, 0x44, 0x33, 0x33]
  const PUT_STRING: seq<byte> := [0xee, 0xee, 0xdd, 0xdd]

  predicate At(s: seq<byte>, k: int, word: seq<byte>)
  {
    0 <= k && k + |word| <= |s| && forall i :: 0 <= i < |word| ==> s[k + i] == word[i]
  }

  ghost predicate Contains(s: seq<byte>, word: seq<byte>)
  {
    exists k :: At(s, k, word)
  }

  lemma ContainsEnd(s: seq<byte>, word: seq<byte>)
    requires EndsWith(s, word)
    ensures Contains(s, word)
  {
    assert At(s, |s| - |word|, word);
  }

  lemma ContainsPrefix(s: seq<byte>, n: nat, word: seq<byte>)
    requires n <= |s| && Contains(s[..n], word)
    ensures Contains(s, word)
  {
    var k :| At(s[..n], k, word);
    assert At(s, k, word);
  }

  /** None of the three words the preamble stage reacts to. */
  ghost predicate Junk(s: seq<byte>)
  {
    !Contains(s, PREAMBLE) && !Contains(s, PUT_PROGRAM_INFO) && !Contains(s, PUT_STRING)
  }

  /** The bytes of a word that have been recognised. */
  function Recognised(p: PreambleState): seq<byte>
  {
    match p
    case Initial => []
    case Preamble1 => [0x55]
    case Preamble2 => [0x55, 0x55]
    case Preamble3 => [0x55, 0x55, 0x55]
    case PutProgramInfo1 => [0x44]
    case PutProgramInfo2 => [0x44, 0x44]
    case PutProgramInfo3 => [0x44, 0x44, 0x33]
    case PutString1 => [0xee]
    case PutString2 => [0xee, 0xee]
    case PutString3 => [0xee, 0xee, 0xdd]
    case PutStringLength(got) => PUT_STRING + got
  }

  lemma RecognisedStep(p: PreambleState, s: seq<byte>, b: byte)
    requires p.Valid() && !p.PutStringLength? && EndsWith(s, Recognised(p))
    requires Junk(s + [b])
    ensures var (p', status) := PreambleFeed(p, b);
            && (status == PreambleSkip || status == PreambleWrong)
            && !p'.PutStringLength? && EndsWith(s + [b], Recognised(p'))
  {
    var word := Recognised(p) + [b];
    var (p', status) := PreambleFeed(p, b);
    EndsWithSnoc(s, Recognised(p), b);
    if p == Preamble3 && b == 0x55 {
      EndsWithTail(s + [b], word, 1);
      assert word[1..] == Recognised(Preamble3);
    } else if status == PreambleDone {
      assert word == PREAMBLE;
      ContainsEnd(s + [b], word);
      assert false;
    } else if status == ProgramInfo {
      assert word == PUT_PROGRAM_INFO;
      ContainsEnd(s + [b], word);
      assert false;
    } else if p'.PutStringLength? {
      assert word == PUT_STRING;
      ContainsEnd(s + [b], word);
      assert false;
    } else if p' != Initial {
      assert word == Recognised(p');
    }
  }

  lemma HuntStep(l: Layer, b: byte, crc: Crc)
    requires Hunting(l, crc)
    requires var status := PreambleFeed(l.preamble, b).1; status == PreambleSkip || status == PreambleWrong
    requires !l.preamble.PutStringLength?
    ensures var (l', o) := Next(l, b, crc);
            && Hunting(l', crc) && l'.preamble == PreambleFeed(l.preamble, b).0
            && (o == Ok(Skip) || o.Err?)
            && (b == 0x55 ==> Ready(l', crc))
  {
  }

  /** Junk never takes the receiver out of its hunt and never produces output. */
  lemma {:induction false} JunkIsSkipped(s: seq<byte>, crc: Crc)
    requires Junk(s)
    ensures var (l, os) := Receive(ResetLayer(crc), s, crc);
            && Hunting(l, crc) && !l.preamble.PutStringLength?
            && EndsWith(s, Recognised(l.preamble))
            && (forall i :: 0 <= i < |os| ==> os[i] == Ok(Skip) || os[i].Err?)
            && (|s| > 0 && s[|s| - 1] == 0x55 ==> Ready(l, crc))
  {
    if |s| > 0 {
      var t, b := s[..|s| - 1], s[|s| - 1];
      assert s == t + [b];
      forall word | Contains(t, word)
        ensures Contains(s, word)
      {
        ContainsPrefix(s, |t|, word);
      }
      JunkIsSkipped(t, crc);
      ReceiveSnoc(ResetLayer(crc), t, b, crc);
      var (l, os) := Receive(ResetLayer(crc), t, crc);
      RecognisedStep(l.preamble, t, b);
      HuntStep(l, b, crc);
    }
  }

  /** After junk that is empty or ends in a byte of the preamble's first kind, every frame
      that follows is delivered whole. */
  lemma FramesAfterJunk(junk: seq<byte>, ms: seq<Message>, crc: Crc)
    requires Junk(junk) && (|junk| > 0 ==> junk[|junk| - 1] == 0x55)
    requires forall m :: m in ms ==> m.Valid()
    ensures var os := Receive(ResetLayer(crc), junk + Wires(ms, crc), crc).1;
            DeliversAll(os[|junk|..], ms, crc)
  {
    JunkIsSkipped(junk, crc);
    var (l, o1) := Receive(ResetLayer(crc), junk, crc);
    assert Ready(l, crc);
    StreamRoundTrip(l, ms, crc);
    ReceiveConcat(ResetLayer(crc), junk, Wires(ms, crc), crc);
    var o2 := Receive(l, Wires(ms, crc), crc).1;
    assert (o1 + o2)[|junk|..] == o2;
  }

  /** Inside a frame the preamble's first byte appears only at the two ends. */
  lemma FrameBytes(m: Message, crc: Crc)
    requires m.Valid()
    ensures var w := m.Wire(crc);
            && |w| >= 10 && w[|w| - 1] == 0x55 && w[3] == 0x5e
            && forall i :: 4 <= i < |w| - 1 ==> w[i] != 0x55
  {
    var stuffed := Cobs.Encode(Stuffed(crc, m.messageType, m.payload), COBS_XOR);
    Cobs.EncodeShape(Stuffed(crc, m.messageType, m.payload), COBS_XOR);
    var w := m.Wire(crc);
    assert w[8..] == stuffed;
    forall i | 4 <= i < |w| - 1
      ensures w[i] != 0x55
    {
      if i < 8 {
        assert w[i] == EncodeLength(|m.payload|).value[i - 4];
      } else {
        assert w[i] == stuffed[i - 8];
      }
    }
    assert w[|w| - 1] == stuffed[|stuffed| - 1];
  }

  lemma SuffixHasNoPreamble(m: Message, cut: nat, crc: Crc)
    requires m.Valid() && 0 < cut <= |m.Wire(crc)|
    ensures !Contains(m.Wire(crc)[cut..], PREAMBLE)
  {
    FrameBytes(m, crc);
    var w := m.Wire(crc);
    var t := w[cut..];
    forall k: int
      ensures !At(t, k, PREAMBLE)
    {
      if 0 <= k && k + 4 <= |t| {
        assert t[k + 0] == w[cut + k] && t[k + 1] == w[cut + k + 1] && t[k + 2] == w[cut + k + 2];
        assert t[k + 0] != PREAMBLE[0] || t[k + 1] != PREAMBLE[1] || t[k + 2] != PREAMBLE[2];
      }
    }
  }

  /** Resynchronisation: from reset, the rest of a frame that was joined too late and holds
      no legacy command word costs nothing but itself; the frames after it arrive. */
  lemma Resynchronises(m: Message, cut: nat, ms: seq<Message>, crc: Crc)
    requires m.Valid() && 0 < cut <= |m.Wire(crc)|
    requires forall m' :: m' in ms ==> m'.Valid()
    requires !Contains(m.Wire(crc)[cut..], PUT_PROGRAM_INFO)
    requires !Contains(m.Wire(crc)[cut..], PUT_STRING)
    ensures var tail := m.Wire(crc)[cut..];
            var os := Receive(ResetLayer(crc), tail + Wires(ms, crc), crc).1;
            DeliversAll(os[|tail|..], ms, crc)
  {
    var w := m.Wire(crc);
    var tail := w[cut..];
    SuffixHasNoPreamble(m, cut, crc);
    FrameBytes(m, crc);
    assert |tail| > 0 ==> tail[|tail| - 1] == w[|w| - 1];
    FramesAfterJunk(tail, ms, crc);
  }

  // ----- Exactly when ----------------------------------------------------------------

  /** Where bytes without a preamble leave a receiver: looking for a word, in the text of a
      legacy string, or given over to a legacy download. */
  datatype Spot = Hunt(p: PreambleState) | Text(n: nat, k: nat) | Download
  {
    predicate Valid()
    {
      Hunt? ==> p.Valid()
    }
  }

  function SkimByte(q: Spot, b: byte): (r: Spot)
    requires q.Valid()
    ensures r.Valid()
  {
    match q
    case Download => Download
    case Text(n, k) => if k + 1 >= n then Hunt(Initial) else Text(n, k + 1)
    case Hunt(p) =>
      var (p', status) := PreambleFeed(p, b);
      match status
      case StringOf(n) => Text(n, 0)
      case ProgramInfo => Download
      case _ => Hunt(p')
  }

  /** The scan of a whole tail. */
  function Skim(s: seq<byte>): (q: Spot)
    ensures q.Valid()
  {
    if |s| == 0 then Hunt(Initial) else SkimByte(Skim(s[..|s| - 1]), s[|s| - 1])
  }

  /** Not within a legacy record, its length field included. */
  predicate Outside(q: Spot)
  {
    q.Hunt? && !q.p.PutStringLength?
  }

  ghost predicate AtSpot(l: Layer, q: Spot, crc: Crc)
  {
    && l.Valid() && l.cobs == Cobs.START && l.hash == crc.init
    && match q
       case Hunt(p) => l.state == Preamble && l.preamble == p
       case Text(n, k) => l.state == LegacyPrintString(n, k) && l.preamble == Initial
       case Download => l.state == Legacy
  }

  lemma SpotStep(l: Layer, q: Spot, b: byte, crc: Crc)
    requires q.Valid() && AtSpot(l, q, crc)
    requires q.Hunt? ==> PreambleFeed(q.p, b).1 != PreambleDone
    ensures AtSpot(Next(l, b, crc).0, SkimByte(q, b), crc)
    ensures b == 0x55 && Outside(SkimByte(q, b)) ==> Ready(Next(l, b, crc).0, crc)
  {
  }

  lemma NoPreambleEnds(q: Spot, s: seq<byte>, b: byte)
    requires q.Hunt? && q.Valid() && (Outside(q) ==> EndsWith(s, Recognised(q.p)))
    requires !Contains(s + [b], PREAMBLE)
    ensures PreambleFeed(q.p, b).1 != PreambleDone
    ensures Outside(SkimByte(q, b)) ==> EndsWith(s + [b], Recognised(SkimByte(q, b).p))
  {
    if Outside(q) {
      var word := Recognised(q.p) + [b];
      EndsWithSnoc(s, Recognised(q.p), b);
      var (p', status) := PreambleFeed(q.p, b);
      if q.p == Preamble3 && b == 0x55 {
        EndsWithTail(s + [b], word, 1);
        assert word[1..] == Recognised(Preamble3);
      } else if status == PreambleDone {
        assert word == PREAMBLE;
        ContainsEnd(s + [b], word);
        assert false;
      } else if p' != Initial && !p'.PutStringLength? {
        assert word == Recognised(p');
      }
    }
  }

  lemma {:induction false} SkimFollows(s: seq<byte>, crc: Crc)
    requires !Contains(s, PREAMBLE)
    ensures var (l, os) := Receive(ResetLayer(crc), s, crc);
            && AtSpot(l, Skim(s), crc)
            && (Outside(Skim(s)) ==> EndsWith(s, Recognised(Skim(s).p)))
            && (|s| > 0 && s[|s| - 1] == 0x55 && Outside(Skim(s)) ==> Ready(l, crc))
  {
    if |s| > 0 {
      var t, b := s[..|s| - 1], s[|s| - 1];
      assert s == t + [b];
      if Contains(t, PREAMBLE) {
        ContainsPrefix(s, |t|, PREAMBLE);
      }
      SkimFollows(t, crc);
      ReceiveSnoc(ResetLayer(crc), t, b, crc);
      var l, q := Receive(ResetLayer(crc), t, crc).0, Skim(t);
      if q.Hunt? {
        NoPreambleEnds(q, t, b);
      }
      hide Next, Receive, PreambleFeed, AtSpot;
      SpotStep(l, q, b, crc);
    }
  }

  predicate IsLegacy(o: FeedResult)
  {
    o.Ok? && (o.value == LegacyMode || o.value.LegacyPrintStringByte?)
  }

  /** How many bytes it takes at most until a receiver within a legacy record shows it. */
  function Need(q: Spot): nat
  {
    if q.Hunt? && q.p.PutStringLength? && |q.p.got| < 4 then 5 - |q.p.got| else 1
  }

  lemma {:induction false} LegacyShows(l: Layer, q: Spot, s: seq<byte>, crc: Crc) returns (j: nat)
    requires q.Valid() && AtSpot(l, q, crc) && !Outside(q) && |s| >= Need(q)
    ensures j < Need(q) && j < |Receive(l, s, crc).1| && IsLegacy(Receive(l, s, crc).1[j])
    decreases |s|
  {
    var (l1, o) := Next(l, s[0], crc);
    if q.Hunt? {
      SpotStep(l, q, s[0], crc);
      var i := LegacyShows(l1, SkimByte(q, s[0]), s[1..], crc);
      j := i + 1;
    } else {
      j := 0;
    }
  }

  lemma {:induction false} VisibleHas(os: seq<FeedResult>, j: nat)
    requires j < |os| && os[j] != Ok(Skip)
    ensures os[j] in Visible(os)
  {
    if j > 0 {
      VisibleHas(os[1..], j - 1);
    }
  }

  lemma LegacyIsNoMessage(os: seq<FeedResult>, j: nat, m: Message)
    requires j < |os| && IsLegacy(os[j])
    ensures !DeliversMessage(os, m)
  {
    VisibleHas(os, j);
    hide Visible;
  }

  /** Resynchronisation, exactly: after the rest of any frame that was joined too late, the
      frames that follow are delivered if and only if the scan of that rest ends outside any
      legacy record. */
  lemma ResynchronisesIff(m: Message, cut: nat, ms: seq<Message>, crc: Crc)
    requires m.Valid() && 0 < cut <= |m.Wire(crc)|
    requires |ms| > 0 && forall m' :: m' in ms ==> m'.Valid()
    ensures var tail := m.Wire(crc)[cut..];
            var os := Receive(ResetLayer(crc), tail + Wires(ms, crc), crc).1;
            DeliversAll(os[|tail|..], ms, crc) <==> Outside(Skim(tail))
  {
    var w := m.Wire(crc);
    var tail, wires := w[cut..], Wires(ms, crc);
    SuffixHasNoPreamble(m, cut, crc);
    FrameBytes(m, crc);
    FrameBytes(ms[0], crc);
    assert |tail| > 0 ==> tail[|tail| - 1] == w[|w| - 1];
    assert |wires| >= |ms[0].Wire(crc)|;
    hide Wires, Message.Wire, Receive, Next, DeliversMessage, Skim;
    AfterTail(tail, ms, crc);
  }

  lemma AfterTail(tail: seq<byte>, ms: seq<Message>, crc: Crc)
    requires !Contains(tail, PREAMBLE) && (|tail| > 0 ==> tail[|tail| - 1] == 0x55)
    requires |ms| > 0 && (forall m :: m in ms ==> m.Valid())
    requires 10 <= |ms[0].Wire(crc)| <= |Wires(ms, crc)|
    ensures var os := Receive(ResetLayer(crc), tail + Wires(ms, crc), crc).1;
            DeliversAll(os[|tail|..], ms, crc) <==> Outside(Skim(tail))
  {
    SkimFollows(tail, crc);
    var wires := Wires(ms, crc);
    var (l, o1) := Receive(ResetLayer(crc), tail, crc);
    ReceiveConcat(ResetLayer(crc), tail, wires, crc);
    var o2 := Receive(l, wires, crc).1;
    assert (o1 + o2)[|tail|..] == o2;
    if Outside(Skim(tail)) {
      assert |tail| == 0 ==> l == ResetLayer(crc);
      StreamRoundTrip(l, ms, crc);
    } else {
      var j := LegacyShows(l, Skim(tail), wires, crc);
      var n := |ms[0].Wire(crc)|;
      if DeliversAll(o2, ms, crc) {
        LegacyIsNoMessage(o2[..n], j, ms[0]);
      }
    }
  }

  predicate AllLegacy(os: seq<FeedResult>)
  {
    forall i :: 0 <= i < |os| ==> os[i] == Ok(LegacyMode)
  }

  /** And one of those records has no end: after the word for a legacy download, wherever the
      hunt comes upon it, nothing is ever delivered again, whatever follows. */
  lemma DownloadSwallows(s: seq<byte>, rest: seq<byte>, crc: Crc)
    requires !Contains(s, PREAMBLE) && Skim(s) == Download
    ensures AllLegacy(Receive(ResetLayer(crc), s + rest, crc).1[|s|..])
  {
    SkimFollows(s, crc);
    hide Receive, Skim, Next, AllLegacy;
    var (l, o1) := Receive(ResetLayer(crc), s, crc);
    StaysLegacy(l, rest, crc);
    ReceiveConcat(ResetLayer(crc), s, rest, crc);
    var o2 := Receive(l, rest, crc).1;
    assert (o1 + o2)[|s|..] == o2;
  }

  lemma DownloadWord()
    ensures Skim(PUT_PROGRAM_INFO) == Download
  {
    assert PUT_PROGRAM_INFO[..3] == [0x44, 0x44, 0x33] && [0x44, 0x44, 0x33][..2] == [0x44, 0x44];
    assert [0x44, 0x44][..1] == [0x44] && [0x44][..0] == [];
    assert Skim([0x44]) == Hunt(PutProgramInfo1) && Skim([0x44, 0x44]) == Hunt(PutProgramInfo2);
    assert Skim([0x44, 0x44, 0x33]) == Hunt(PutProgramInfo3);
  }

  lemma {:induction false} DownloadStays(s: seq<byte>, t: seq<byte>)
    requires Skim(s) == Download
    ensures Skim(s + t) == Download
    decreases |t|
  {
    if |t| == 0 {
      assert s + t == s;
    } else {
      DownloadStays(s, t[..|t| - 1]);
      assert (s + t)[..|s + t| - 1] == s + t[..|t| - 1];
    }
  }

  /** What a legacy download word looks like before it is masked. */
  const UNMASKED: seq<byte> := [0x11, 0x11, 0x66, 0x66]

  lemma MaskedWord()
    ensures Masked(UNMASKED, COBS_XOR) == PUT_PROGRAM_INFO
  {
    XorOne();
    XorTwo();
    hide Xor;
  }

  lemma XorOne()
    ensures Xor(0x11, 0x55) == 0x44
  {
    assert Pow2(3) == 8;
    XorBitsZero(2, 3);
    assert XorBits(1, 5, 4) == 4;
    assert XorBits(2, 10, 5) == 8;
    assert XorBits(4, 21, 6) == 17;
    assert XorBits(8, 42, 7) == 34;
  }

  lemma XorTwo()
    ensures Xor(0x66, 0x55) == 0x33
  {
    assert XorBits(3, 2, 3) == 1;
    assert XorBits(6, 5, 4) == 3;
    assert XorBits(12, 10, 5) == 6;
    assert XorBits(25, 21, 6) == 12;
    assert XorBits(51, 42, 7) == 25;
  }

  lemma {:induction false} BlockStarts(p: seq<byte>, s: seq<byte>)
    requires Cobs.Pending(p)
    ensures |Cobs.EncodeFrom(p, s)| > |p| && Cobs.EncodeFrom(p, s)[1..1 + |p|] == p
    decreases |s|
  {
    var r := Cobs.EncodeFrom(p, s);
    if |s| == 0 {
      assert r[1..1 + |p|] == p;
    } else {
      var (p', block) := Cobs.EncodeByte(p, s[0]);
      var rest := Cobs.EncodeFrom(p', s[1..]);
      assert r == block + rest;
      if s[0] != Cobs.SENTINEL && |p| < 253 {
        BlockStarts(p', s[1..]);
        assert r[1..1 + |p|] == rest[1..2 + |p|][..|p|];
      } else {
        assert r[1..1 + |p|] == block[1..1 + |p|] == p;
      }
    }
  }

  lemma TypeEndsBlock(t: MessageType)
    ensures Cobs.Emitted(ToLe32(TypeCode(t))).0 == []
  {
    var bytes := ToLe32(TypeCode(t));
    assert bytes[3] == 0 && bytes[..|bytes| - 1] == bytes[..3];
  }

  lemma OneMore(p: seq<byte>, b: byte, rest: seq<byte>)
    requires |p| < 4 && Cobs.Pending(p) && b != Cobs.SENTINEL
    ensures Cobs.Pending(p + [b]) && Cobs.EncodeFrom(p, [b] + rest) == Cobs.EncodeFrom(p + [b], rest)
  {
    assert ([b] + rest)[1..] == rest;
    assert [] + Cobs.EncodeFrom(p + [b], rest) == Cobs.EncodeFrom(p + [b], rest);
  }

  lemma FourMore(w: seq<byte>, rest: seq<byte>)
    requires |w| == 4 && forall i :: 0 <= i < 4 ==> w[i] != Cobs.SENTINEL
    ensures Cobs.Pending(w) && Cobs.EncodeFrom([], w + rest) == Cobs.EncodeFrom(w, rest)
  {
    hide Cobs.EncodeFrom;
    OneMore([], w[0], [w[1]] + ([w[2]] + ([w[3]] + rest)));
    OneMore([w[0]], w[1], [w[2]] + ([w[3]] + rest));
    OneMore([w[0], w[1]], w[2], [w[3]] + rest);
    OneMore([w[0], w[1], w[2]], w[3], rest);
    assert w + rest == [w[0]] + ([w[1]] + ([w[2]] + ([w[3]] + rest)));
    assert [] + [w[0]] == [w[0]] && [w[0]] + [w[1]] == [w[0], w[1]] && [w[0], w[1]] + [w[2]] == [w[0], w[1], w[2]];
    assert w == [w[0], w[1], w[2]] + [w[3]];
  }

  /** And real frames hold that word: any message whose payload begins with its unmasked form,
      joined at the right byte, silences the receiver for good. */
  lemma RealFrameSwallows(t: MessageType, rest: seq<byte>, crc: Crc) returns (cut: nat)
    requires |UNMASKED + rest| < LENGTH_LIMIT
    ensures var w := Message(t, UNMASKED + rest).Wire(crc);
            0 < cut < |w| && Skim(w[cut..]) == Download
  {
    var payload := UNMASKED + rest;
    var after := rest + ToLe32(crc.Sum(Covered(t, payload)));
    var emitted := Cobs.Emitted(ToLe32(TypeCode(t))).1;
    var body := Cobs.EncodeFrom(UNMASKED, after);
    PlainBody(t, rest, crc);
    BlockStarts(UNMASKED, after);
    var w := Message(t, payload).Wire(crc);
    WireBody(Message(t, payload), crc);
    cut := 8 + |emitted| + 1;
    hide Cobs.EncodeFrom, Cobs.Emitted, ToLe32, Skim, Stuffed, Message.Wire;
    WordAt(w, emitted + body, cut, |emitted| + 1, body);
    WordSwallows(w, cut);
  }

  lemma WordSwallows(w: seq<byte>, cut: nat)
    requires cut + 4 <= |w| && w[cut..cut + 4] == PUT_PROGRAM_INFO
    ensures Skim(w[cut..]) == Download
  {
    DownloadWord();
    DownloadStays(PUT_PROGRAM_INFO, w[cut + 4..]);
    hide Skim;
    assert w[cut..] == w[cut..cut + 4] + w[cut + 4..];
  }

  lemma PlainBody(t: MessageType, rest: seq<byte>, crc: Crc)
    requires |UNMASKED + rest| < LENGTH_LIMIT
    ensures var payload := UNMASKED + rest;
            var after := rest + ToLe32(crc.Sum(Covered(t, payload)));
            && Cobs.Pending(UNMASKED)
            && Cobs.EncodeFrom([], Stuffed(crc, t, payload))
               == Cobs.Emitted(ToLe32(TypeCode(t))).1 + Cobs.EncodeFrom(UNMASKED, after)
  {
    var payload := UNMASKED + rest;
    var code, sum := ToLe32(TypeCode(t)), ToLe32(crc.Sum(Covered(t, payload)));
    TypeEndsBlock(t);
    hide ToLe32, Cobs.Emitted, Cobs.EncodeFrom;
    var after := rest + sum;
    assert code + (UNMASKED + rest) + sum == code + (UNMASKED + after);
    Cobs.EmittedThenRest(code, UNMASKED + after);
    FourMore(UNMASKED, after);
  }

  lemma WireBody(m: Message, crc: Crc)
    requires m.Valid()
    ensures var plain := Cobs.EncodeFrom([], Stuffed(crc, m.messageType, m.payload));
            |m.Wire(crc)| == 8 + |plain| && m.Wire(crc)[8..] == Masked(plain, COBS_XOR)
  {
    hide Cobs.EncodeFrom, Stuffed;
  }

  lemma WordAt(w: seq<byte>, plain: seq<byte>, cut: nat, at: nat, body: seq<byte>)
    requires |w| == 8 + |plain| && w[8..] == Masked(plain, COBS_XOR)
    requires |body| >= 5 && at + |body| == |plain| + 1 && cut == 8 + at && at > 0
    requires plain[at - 1..] == body && body[1..5] == UNMASKED
    ensures cut + 4 <= |w| && w[cut..cut + 4] == PUT_PROGRAM_INFO
  {
    MaskedWord();
    forall i | 0 <= i < 4
      ensures w[cut + i] == PUT_PROGRAM_INFO[i]
    {
      assert w[cut + i] == w[8..][at + i] == Xor(plain[at + i], COBS_XOR);
      assert plain[at + i] == body[1 + i] == body[1..5][i];
      assert Masked(UNMASKED, COBS_XOR)[i] == Xor(UNMASKED[i], COBS_XOR);
    }
  }

  lemma {:induction false} StaysLegacy(l: Layer, s: seq<byte>, crc: Crc)
    requires l.Valid() && l.state == Legacy
    ensures AllLegacy(Receive(l, s, crc).1)
    decreases |s|
  {
    if |s| > 0 {
      StaysLegacy(l, s[1..], crc);
    }
  }
}
