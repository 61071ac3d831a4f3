/** The host's receiver: what the upload tool makes of the frame layer's results, read by read.
    Framed and legacy text share one buffer there, and that shows. */
module HostDecoder {
  import opened Wrappers
  import opened Bytes
  import opened Frames
  import opened FrameLayers
  import opened FrameStream
  import opened LegacyWriters
  import opened FrameSinks
  import opened Link

  /** What the host passes on: a message to the upload loop, or a line to its log. */
  datatype Report = Received(messageType: MessageType, payload: seq<byte>) | Logged(text: seq<byte>)

  /** What becomes of one byte. After a failure the rest of that read is dropped. */
  datatype Heard = Quiet | Reports(report: Report) | Failed | Dropped

  datatype Host = Host(layer: Layer, header: Option<FrameHeader>, buffer: seq<byte>)

  /** What a finished frame is. The text of a framed print stays in the buffer. */
  function OnFinished(h: Host): (r: (Host, Heard))
    ensures r.0.layer == h.layer
  {
    match h.header
    case None => (h, Failed)
    case Some(FrameHeader(t, _)) =>
      if t == PrintString then (h.(header := None), Reports(Logged(h.buffer)))
      else (h.(header := None, buffer := []), Reports(Received(t, h.buffer)))
  }

  /** One result of the frame layer, which `h` already holds as it is after it. */
  function OnResult(h: Host, o: FeedResult, crc: Crc): (r: (Host, Heard))
    requires h.layer.Valid()
    ensures r.0.layer.Valid() && r.1 != Dropped
  {
    match o
    case Err(_) => (Host(h.layer, None, []), Failed)
    case Ok(Skip) => (h, Quiet)
    case Ok(Header(header)) =>
      if h.header.Some? then (h, Failed) else (h.(header := Some(header), buffer := []), Quiet)
    case Ok(Payload(b)) =>
      if h.header.None? then (h, Failed) else (h.(buffer := h.buffer + [b]), Quiet)
    case Ok(Finished) => OnFinished(h)
    case Ok(LegacyMode) => (h, Failed)
    case Ok(LegacyPrintStringByte(n, b)) =>
      var text := h.buffer + [b];
      if n == |text| then (Host(ResetLayer(crc), None, []), Reports(Logged(text)))
      else (h.(buffer := text), Quiet)
  }

  function HearByte(h: Host, b: byte, crc: Crc): (r: (Host, Heard))
    requires h.layer.Valid()
    ensures r.0.layer.Valid() && r.1 != Dropped
  {
    var (l, o) := Next(h.layer, b, crc);
    OnResult(h.(layer := l), o, crc)
  }

  /** A stream of which nothing is dropped. */
  function Hear(h: Host, s: seq<byte>, crc: Crc): (r: (Host, seq<Heard>))
    requires h.layer.Valid()
    ensures r.0.layer.Valid() && |r.1| == |s|
    decreases |s|
  {
    if |s| == 0 then (h, [])
    else
      var (h1, e) := HearByte(h, s[0], crc);
      var (h2, es) := Hear(h1, s[1..], crc);
      (h2, [e] + es)
  }

  function AllDropped(n: nat): (r: seq<Heard>)
    ensures |r| == n
  {
    seq(n, _ => Dropped)
  }

  /** One read: as far as the first failure. */
  function HearRead(h: Host, s: seq<byte>, crc: Crc): (r: (Host, seq<Heard>))
    requires h.layer.Valid()
    ensures r.0.layer.Valid() && |r.1| == |s|
    decreases |s|
  {
    if |s| == 0 then (h, [])
    else
      var (h1, e) := HearByte(h, s[0], crc);
      if e == Failed then (h1, [e] + AllDropped(|s| - 1))
      else
        var (h2, es) := HearRead(h1, s[1..], crc);
        (h2, [e] + es)
  }

  /** Read after read. */
  function HearReads(h: Host, batches: seq<seq<byte>>, crc: Crc): (r: (Host, seq<Heard>))
    requires h.layer.Valid()
    ensures r.0.layer.Valid() && |r.1| == |Joined(batches)|
    decreases |batches|
  {
    if |batches| == 0 then (h, [])
    else
      var (h1, es) := HearRead(h, batches[0], crc);
      var (h2, more) := HearReads(h1, batches[1..], crc);
      (h2, es + more)
  }

  /** The reports among what was heard, in order. */
  function Reported(es: seq<Heard>): seq<Report>
  {
    if |es| == 0 then []
    else if es[0].Reports? then [es[0].report] + Reported(es[1..])
    else Reported(es[1..])
  }

  // ----- The decoder as an object ----------------------------------------------------

  class Decoder {
    const layer: FrameLayer
    var header: Option<FrameHeader>
    var buffer: seq<byte>
    /** What has gone to the upload loop and the log. */
    var reports: seq<Report>

    ghost predicate Valid()
      reads this, layer.Repr
    {
      && layer.Shape() && this !in layer.Repr && layer.cobs.mask == COBS_XOR
      && layer.View().Valid()
    }

    ghost function View(): Host
      reads this, layer.Repr
      requires layer.Shape()
    {
      Host(layer.View(), header, buffer)
    }

    constructor (crc: Crc)
      ensures Valid() && fresh(layer) && fresh(layer.Repr) && layer.crc == crc
      ensures View() == Host(ResetLayer(crc), None, []) && reports == []
    {
      layer := new FrameLayer(COBS_XOR, crc);
      header, buffer, reports := None, [], [];
    }

    method Reset()
      requires layer.Shape() && this !in layer.Repr && layer.cobs.mask == COBS_XOR
      modifies this, layer.Repr
      ensures Valid() && View() == Host(ResetLayer(layer.crc), None, []) && reports == old(reports)
    {
      layer.Reset();
      header, buffer := None, [];
    }

    /** One byte; `false` is an error for the caller. */
    method ProcessByte(b: byte) returns (ok: bool)
      requires Valid()
      modifies this, layer.Repr
      ensures Valid()
      ensures var (h, e) := HearByte(old(View()), b, layer.crc);
              View() == h && (ok <==> e != Failed) && reports == old(reports) + Reported([e])
    {
      ok := true;
      var r := layer.FeedByte(b);
      match r {
        case Err(_) =>
          Reset();
          ok := false;
        case Ok(Skip) =>
        case Ok(Header(h)) =>
          ok := header.None?;
          if ok {
            header, buffer := Some(h), [];
          }
        case Ok(Payload(x)) =>
          ok := header.Some?;
          if ok {
            buffer := buffer + [x];
          }
        case Ok(Finished) =>
          ok := header.Some?;
          if ok {
            var t := header.value.messageType;
            header := None;
            if t == PrintString {
              reports := reports + [Logged(buffer)];
            } else {
              reports := reports + [Received(t, buffer)];
              buffer := [];
            }
          }
        case Ok(LegacyMode) => ok := false;
        case Ok(LegacyPrintStringByte(n, x)) =>
          buffer := buffer + [x];
          if n == |buffer| {
            reports := reports + [Logged(buffer)];
            Reset();
          }
      }
    }

    /** One read. */
    method ProcessIncomingBytes(buf: seq<byte>) returns (ok: bool)
      requires Valid()
      modifies this, layer.Repr
      ensures Valid()
      ensures var (h, es) := HearRead(old(View()), buf, layer.crc);
              View() == h && (ok <==> Failed !in es) && reports == old(reports) + Reported(es)
    {
      hide HearByte, HearRead, Reported, SoFar;
      ghost var whole := HearRead(View(), buf, layer.crc);
      ghost var heard: seq<Heard> := [];
      ReadBegins(View(), buf, layer.crc);
      for i := 0 to |buf|
        invariant Valid() && Failed !in heard
        invariant SoFar(whole, heard, View(), buf[i..], layer.crc)
        invariant reports == old(reports) + Reported(heard)
      {
        ghost var rest := buf[i..];
        assert rest[0] == buf[i] && rest[1..] == buf[i + 1..];
        ghost var e := HearByte(View(), buf[i], layer.crc).1;
        ReadStep(whole, heard, View(), rest, layer.crc);
        ok := ProcessByte(buf[i]);
        Assoc(old(reports), Reported(heard), Reported([e]));
        if !ok {
          return;
        }
        heard := heard + [e];
      }
      assert buf[|buf|..] == [];
      ReadEnds(whole, heard, View(), layer.crc);
      ok := true;
    }
  }

  /** Of the whole read, this much has been heard and the rest is still to come. */
  ghost predicate SoFar(whole: (Host, seq<Heard>), heard: seq<Heard>, h: Host, rest: seq<byte>, crc: Crc)
    requires h.layer.Valid()
  {
    whole == (HearRead(h, rest, crc).0, heard + HearRead(h, rest, crc).1)
  }

  lemma ReadBegins(h: Host, s: seq<byte>, crc: Crc)
    requires h.layer.Valid()
    ensures SoFar(HearRead(h, s, crc), [], h, s[0..], crc) && Reported([]) == []
  {
    assert s[0..] == s && [] + HearRead(h, s, crc).1 == HearRead(h, s, crc).1;
  }

  lemma ReadEnds(whole: (Host, seq<Heard>), heard: seq<Heard>, h: Host, crc: Crc)
    requires h.layer.Valid() && SoFar(whole, heard, h, [], crc)
    ensures whole == (h, heard)
  {
    assert HearRead(h, [], crc) == (h, []);
    assert heard + [] == heard;
  }

  lemma ReadStep(whole: (Host, seq<Heard>), heard: seq<Heard>, h: Host, s: seq<byte>, crc: Crc)
    requires h.layer.Valid() && |s| > 0 && SoFar(whole, heard, h, s, crc)
    ensures var (h1, e) := HearByte(h, s[0], crc);
            && (e == Failed ==> whole.0 == h1 && Reported(whole.1) == Reported(heard) + Reported([e]) && e in whole.1)
            && (e != Failed ==> SoFar(whole, heard + [e], h1, s[1..], crc))
            && Reported(heard + [e]) == Reported(heard) + Reported([e])
  {
    hide HearByte, Reported;
    var (h1, e) := HearByte(h, s[0], crc);
    ReportedConcat(heard, [e]);
    if e == Failed {
      assert whole.1 == (heard + [e]) + AllDropped(|s| - 1);
      NoReports(|s| - 1);
      ReportedConcat(heard + [e], AllDropped(|s| - 1));
    } else {
      Assoc(heard, [e], HearRead(h1, s[1..], crc).1);
    }
  }

  lemma {:induction false} NoReports(n: nat)
    ensures Reported(AllDropped(n)) == []
  {
    if n > 0 {
      NoReports(n - 1);
      assert AllDropped(n)[1..] == AllDropped(n - 1);
    }
  }

  lemma {:induction false} ReportedConcat(s: seq<Heard>, t: seq<Heard>)
    ensures Reported(s + t) == Reported(s) + Reported(t)
  {
    if |s| == 0 {
      assert s + t == t;
    } else {
      ReportedConcat(s[1..], t);
      assert (s + t)[1..] == s[1..] + t && (s + t)[0] == s[0];
      var first := if s[0].Reports? then [s[0].report] else [];
      assert Reported(s + t) == first + (Reported(s[1..]) + Reported(t));
      assert Reported(s) == first + Reported(s[1..]);
      hide Reported;
      Assoc(first, Reported(s[1..]), Reported(t));
    }
  }

  // ----- Streams ---------------------------------------------------------------------

  lemma {:induction false} HearConcat(h: Host, s: seq<byte>, t: seq<byte>, crc: Crc)
    requires h.layer.Valid()
    ensures var (h1, es) := Hear(h, s, crc);
            var (h2, et) := Hear(h1, t, crc);
            Hear(h, s + t, crc) == (h2, es + et)
    decreases |s|
  {
    hide HearByte;
    var whole := s + t;
    if |s| == 0 {
      assert whole == t && [] + Hear(h, t, crc).1 == Hear(h, t, crc).1;
    } else {
      assert whole[0] == s[0] && whole[1..] == s[1..] + t;
      var (h1, e) := HearByte(h, s[0], crc);
      HearConcat(h1, s[1..], t, crc);
      var (h2, es) := Hear(h1, s[1..], crc);
      Assoc([e], es, Hear(h2, t, crc).1);
    }
  }

  /** Nothing in the first `n` is a failure. */
  predicate Clear(es: seq<Heard>, n: nat)
  {
    forall i :: 0 <= i < n && i < |es| ==> es[i] != Failed
  }

  lemma ClearRest(es: seq<Heard>, k: nat, n: nat)
    requires Clear(es, k + n) && k <= |es|
    ensures Clear(es[k..], n)
  {
    forall i | 0 <= i < n && i < |es[k..]|
      ensures es[k..][i] != Failed
    {
      assert es[k..][i] == es[k + i];
    }
  }

  /** As far as nothing fails a read is heard as the stream is. */
  lemma {:induction false} ReadAgrees(h: Host, s: seq<byte>, n: nat, crc: Crc)
    requires h.layer.Valid() && n <= |s| && Clear(Hear(h, s, crc).1, n)
    ensures HearRead(h, s, crc).1[..n] == Hear(h, s, crc).1[..n]
    ensures n == |s| ==> HearRead(h, s, crc) == Hear(h, s, crc)
    decreases |s|
  {
    hide HearByte;
    if n > 0 {
      var (h1, e) := HearByte(h, s[0], crc);
      var es := Hear(h1, s[1..], crc).1;
      assert Hear(h, s, crc).1 == [e] + es;
      ClearRest([e] + es, 1, n - 1);
      assert ([e] + es)[1..] == es && ([e] + es)[0] == e;
      assert e != Failed;
      hide Clear;
      ReadAgrees(h1, s[1..], n - 1, crc);
    }
  }

  lemma {:induction false} BatchesAgree(h: Host, batches: seq<seq<byte>>, n: nat, crc: Crc)
    requires h.layer.Valid() && n <= |Joined(batches)| && Clear(Hear(h, Joined(batches), crc).1, n)
    ensures HearReads(h, batches, crc).1[..n] == Hear(h, Joined(batches), crc).1[..n]
    decreases |batches|
  {
    hide HearRead, Hear, Clear;
    if n > 0 {
      var first, rest := batches[0], Joined(batches[1..]);
      var (h1, es) := Hear(h, first, crc);
      var more := Hear(h1, rest, crc).1;
      HearConcat(h, first, rest, crc);
      ClearPart(es, more, n);
      var k := Min(n, |first|);
      ReadAgrees(h, first, k, crc);
      if n > |first| {
        BatchesAgree(h1, batches[1..], n - |first|, crc);
        Prefixes(es, HearReads(h1, batches[1..], crc).1, more, n - |first|);
      } else {
        var got, got' := HearRead(h, first, crc).1, HearReads(HearRead(h, first, crc).0, batches[1..], crc).1;
        assert (got + got')[..n] == got[..n] && (es + more)[..n] == es[..n];
      }
    }
  }

  lemma ClearPart(es: seq<Heard>, more: seq<Heard>, n: nat)
    requires Clear(es + more, n)
    ensures Clear(es, Min(n, |es|)) && (n > |es| ==> Clear(more, n - |es|))
  {
    forall i | 0 <= i < |es| && i < n
      ensures es[i] != Failed
    {
      assert (es + more)[i] == es[i];
    }
    forall i | 0 <= i < n - |es| && i < |more|
      ensures more[i] != Failed
    {
      assert (es + more)[|es| + i] == more[i];
    }
  }

  lemma Prefixes<T>(s: seq<T>, t: seq<T>, u: seq<T>, n: nat)
    requires n <= |t| && n <= |u| && t[..n] == u[..n]
    ensures (s + t)[..|s| + n] == (s + u)[..|s| + n]
  {
    assert (s + t)[..|s| + n] == s + t[..n] && (s + u)[..|s| + n] == s + u[..n];
  }

  // ----- One record ------------------------------------------------------------------

  function Quiets(n: nat): (r: seq<Heard>)
    ensures |r| == n
    ensures forall i :: 0 <= i < n ==> r[i] == Quiet
  {
    seq(n, _ => Quiet)
  }

  function ReportOf(item: Item): Report
  {
    match item
    case Framed(m) => if m.messageType == PrintString then Logged(m.payload) else Received(m.messageType, m.payload)
    case Printed(text) => Logged(text)
  }

  /** How a record ought to be heard: once, as itself, on its last byte. */
  function Echo(item: Item, crc: Crc): (r: seq<Heard>)
    requires item.Valid()
    ensures |r| == |item.Wire(crc)|
  {
    WireNotEmpty(item, crc);
    Quiets(|item.Wire(crc)| - 1) + [Reports(ReportOf(item))]
  }

  lemma WireNotEmpty(item: Item, crc: Crc)
    requires item.Valid()
    ensures |item.Wire(crc)| > 0
  {
    hide Cobs.Encode, ToLe32;
  }

  /** Between two records, with `left` in the buffer. */
  predicate Between(h: Host, left: seq<byte>, crc: Crc)
  {
    Idle(h.layer, crc) && h.header == None && h.buffer == left
  }

  lemma HearStep(h: Host, s: seq<byte>, crc: Crc)
    requires h.layer.Valid() && |s| > 0
    ensures var (h1, e) := HearByte(h, s[0], crc);
            Hear(h, s, crc) == (Hear(h1, s[1..], crc).0, [e] + Hear(h1, s[1..], crc).1)
    ensures var (l, o) := Next(h.layer, s[0], crc);
            && HearByte(h, s[0], crc) == OnResult(h.(layer := l), o, crc)
            && Receive(h.layer, s, crc) == (Receive(l, s[1..], crc).0, [o] + Receive(l, s[1..], crc).1)
  {
    hide OnResult, Next;
  }

  lemma QuietFirst(n: nat, e: Heard)
    ensures [Quiet] + (Quiets(n) + [e]) == Quiets(n + 1) + [e]
    ensures [Quiet] + Quiets(n) == Quiets(n + 1)
  {
  }

  lemma VisibleEnd(os: seq<FeedResult>)
    requires |os| > 0 && os[|os| - 1] == Ok(Finished)
    ensures |Visible(os)| > 0
  {
    var front := os[..|os| - 1];
    assert os == front + [Ok(Finished)];
    VisibleConcat(front, [Ok(Finished)]);
    assert Visible([Ok(Finished)]) == [Ok(Finished)] + Visible([]);
  }

  /** A result that ends in Finished and shows `want`: its first, and what then remains. */
  lemma VisibleStep(o: FeedResult, rest: seq<FeedResult>, want: seq<FeedResult>)
    requires ([o] + rest)[|rest|] == Ok(Finished) && Visible([o] + rest) == want
    ensures |want| > 0
    ensures rest == [] ==> o == Ok(Finished) && want == [o]
    ensures rest != [] ==> rest[|rest| - 1] == Ok(Finished) && |Visible(rest)| > 0
    ensures rest != [] && o == Ok(Skip) ==> Visible(rest) == want
    ensures rest != [] && o != Ok(Skip) ==> o == want[0] && Visible(rest) == want[1..] && |want| > 1
  {
    var os := [o] + rest;
    assert os[0] == o && os[1..] == rest;
    if rest != [] {
      assert os[|rest|] == rest[|rest| - 1];
      VisibleEnd(rest);
      if o != Ok(Skip) {
        assert want == [o] + Visible(rest);
      }
    } else {
      assert Visible(rest) == [];
    }
  }

  /** The frame's results are its payload and its end, with the header known. */
  ghost predicate ShowsPayload(l: Layer, s: seq<byte>, payload: seq<byte>, crc: Crc)
    requires l.Valid()
  {
    var os := Receive(l, s, crc).1;
    |os| > 0 && os[|os| - 1] == Ok(Finished) && Visible(os) == AsPayload(payload) + [Ok(Finished)]
  }

  lemma PayloadStep(l: Layer, s: seq<byte>, payload: seq<byte>, crc: Crc)
    requires l.Valid() && ShowsPayload(l, s, payload, crc)
    ensures |s| > 0
    ensures var (l1, o) := Next(l, s[0], crc);
            if |s| == 1 then payload == [] && o == Ok(Finished) && Receive(l1, s[1..], crc) == (l1, [])
            else if o == Ok(Skip) then ShowsPayload(l1, s[1..], payload, crc)
            else |payload| > 0 && o == Ok(Payload(payload[0])) && ShowsPayload(l1, s[1..], payload[1..], crc)
  {
    var (l1, o) := Next(l, s[0], crc);
    var rest := Receive(l1, s[1..], crc).1;
    var want := AsPayload(payload) + [Ok(Finished)];
    hide Next, Visible;
    assert Receive(l, s, crc).1 == [o] + rest;
    VisibleStep(o, rest, want);
    if |s| > 1 && o != Ok(Skip) {
      assert want[1..] == AsPayload(payload[1..]) + [Ok(Finished)];
    }
  }

  /** What a finished frame leaves in the buffer, and what it is reported as. */
  function Outcome(t: MessageType, text: seq<byte>): (seq<byte>, Report)
  {
    if t == PrintString then (text, Logged(text)) else ([], Received(t, text))
  }

  lemma {:induction false} HearPayload(h: Host, s: seq<byte>, payload: seq<byte>, crc: Crc)
    requires h.layer.Valid() && h.header.Some? && ShowsPayload(h.layer, s, payload, crc)
    ensures |s| > 0
    ensures var (left, report) := Outcome(h.header.value.messageType, h.buffer + payload);
            Hear(h, s, crc)
            == (Host(Receive(h.layer, s, crc).0, None, left), Quiets(|s| - 1) + [Reports(report)])
    decreases |s|
  {
    PayloadStep(h.layer, s, payload, crc);
    HearStep(h, s, crc);
    hide Next, Hear, Receive, ShowsPayload;
    var (l1, o) := Next(h.layer, s[0], crc);
    var h1 := OnResult(h.(layer := l1), o, crc).0;
    var (left, report) := Outcome(h.header.value.messageType, h.buffer + payload);
    if |s| == 1 {
      assert h.buffer + [] == h.buffer;
      HearNothing(h1, crc);
      assert s[1..] == [] && [Reports(report)] + [] == Quiets(0) + [Reports(report)];
    } else {
      QuietFirst(|s| - 2, Reports(report));
      if o == Ok(Skip) {
        HearPayload(h1, s[1..], payload, crc);
      } else {
        HearPayload(h1, s[1..], payload[1..], crc);
        assert payload == [payload[0]] + payload[1..];
        Assoc(h.buffer, [payload[0]], payload[1..]);
      }
    }
  }

  lemma HearNothing(h: Host, crc: Crc)
    requires h.layer.Valid()
    ensures Hear(h, [], crc) == (h, [])
  {
  }

  lemma {:induction false} HearMessage(h: Host, s: seq<byte>, m: Message, crc: Crc)
    requires h.layer.Valid() && h.header == None && DeliversMessage(Receive(h.layer, s, crc).1, m)
    ensures |s| > 0
    ensures var (left, report) := Outcome(m.messageType, m.payload);
            Hear(h, s, crc)
            == (Host(Receive(h.layer, s, crc).0, None, left), Quiets(|s| - 1) + [Reports(report)])
    decreases |s|
  {
    var head, tail := Ok(Header(FrameHeader(m.messageType, |m.payload|))), AsPayload(m.payload) + [Ok(Finished)];
    assert Visible(Receive(h.layer, s, crc).1) == [head] + tail by {
      Assoc([head], AsPayload(m.payload), [Ok(Finished)]);
    }
    HearStep(h, s, crc);
    hide Next, Hear, Visible;
    var (l1, o) := Next(h.layer, s[0], crc);
    var rest := Receive(l1, s[1..], crc).1;
    VisibleStep(o, rest, [head] + tail);
    var h1 := OnResult(h.(layer := l1), o, crc).0;
    var (left, report) := Outcome(m.messageType, m.payload);
    QuietFirst(|s| - 2, Reports(report));
    if o == Ok(Skip) {
      assert [head] + tail == [head] + AsPayload(m.payload) + [Ok(Finished)] by {
        Assoc([head], AsPayload(m.payload), [Ok(Finished)]);
      }
      hide Receive;
      HearMessage(h1, s[1..], m, crc);
    } else {
      assert ([head] + tail)[1..] == tail;
      HearPayload(h1, s[1..], m.payload, crc);
      assert [] + m.payload == m.payload;
    }
  }

  lemma {:induction false} HearSkips(h: Host, s: seq<byte>, crc: Crc)
    requires h.layer.Valid() && Visible(Receive(h.layer, s, crc).1) == []
    ensures Hear(h, s, crc) == (h.(layer := Receive(h.layer, s, crc).0), Quiets(|s|))
    decreases |s|
  {
    if |s| > 0 {
      HearStep(h, s, crc);
      hide Next, Hear;
      var (l1, o) := Next(h.layer, s[0], crc);
      var rest := Receive(l1, s[1..], crc).1;
      assert ([o] + rest)[1..] == rest && ([o] + rest)[0] == o;
      HearSkips(h.(layer := l1), s[1..], crc);
      QuietFirst(|s| - 1, Quiet);
    }
  }

  /** The command word and the length of a legacy record. */
  lemma RecordBegins(h: Host, n: nat, crc: Crc)
    requires Idle(h.layer, crc) && n < U32_LIMIT
    ensures Hear(h, PRINT_STRING + ToLe32(n), crc)
            == (h.(layer := h.layer.(state := LegacyPrintString(n, 0))), Quiets(8))
  {
    hide Next, Receive, Visible, Hear, ToLe32, FromLe32;
    var l, len := h.layer, ToLe32(n);
    Le32RoundTrip(n);
    CommandStage(l, crc);
    var l1 := l.(preamble := PutStringLength([]));
    LegacyLengthStage(l1, len, crc);
    ReceiveConcat(l, PRINT_STRING, len, crc);
    VisibleConcat(Receive(l, PRINT_STRING, crc).1, Receive(l1, len, crc).1);
    assert Visible(Receive(l, PRINT_STRING + len, crc).1) == [];
    HearSkips(h, PRINT_STRING + len, crc);
  }

  /** Such a receiver is at the first byte of a legacy text. */
  function AtText(h: Host, n: nat): Host
  {
    h.(layer := h.layer.(state := LegacyPrintString(n, 0)))
  }

  /** A whole record is eight quiet bytes and its text. */
  lemma RecordIsText(h: Host, text: seq<byte>, crc: Crc)
    requires Idle(h.layer, crc) && Printed(text).Valid()
    ensures AtText(h, |text|).layer.Valid()
    ensures var (h1, es) := Hear(AtText(h, |text|), text, crc);
            Hear(h, Printed(text).Wire(crc), crc) == (h1, Quiets(8) + es)
  {
    RecordBegins(h, |text|, crc);
    hide Hear, ToLe32, Idle;
    HearConcat(h, PRINT_STRING + ToLe32(|text|), text, crc);
  }

  function TextState(n: nat, i: nat): FrameState
  {
    if i >= n then Preamble else LegacyPrintString(n, i)
  }

  lemma TextStep(h: Host, n: nat, i: nat, b: byte, crc: Crc)
    requires h.layer.Valid() && h.layer.state == LegacyPrintString(n, i)
    ensures var (l1, text) := (h.layer.(state := TextState(n, i + 1)), h.buffer + [b]);
            && l1.Valid()
            && HearByte(h, b, crc)
               == (if n == |text| then (Host(ResetLayer(crc), None, []), Reports(Logged(text)))
                   else (Host(l1, h.header, text), Quiet))
  {
  }

  /** Bytes of a legacy text at none of which the buffer has the text's length. */
  lemma {:induction false} HearText(h: Host, n: nat, i: nat, s: seq<byte>, crc: Crc)
    requires h.layer.Valid() && h.layer.state == TextState(n, i) && i + |s| <= n
    requires |h.buffer| >= n || |h.buffer| + |s| < n
    ensures Hear(h, s, crc)
            == (Host(h.layer.(state := TextState(n, i + |s|)), h.header, h.buffer + s), Quiets(|s|))
    decreases |s|
  {
    if |s| == 0 {
      assert h.buffer + s == h.buffer;
    } else {
      hide Hear, HearByte, Layer.Valid;
      HearStep(h, s, crc);
      TextStep(h, n, i, s[0], crc);
      QuietFirst(|s| - 1, Quiet);
      HearText(HearByte(h, s[0], crc).0, n, i + 1, s[1..], crc);
      assert s == [s[0]] + s[1..];
      Assoc(h.buffer, [s[0]], s[1..]);
    }
  }

  lemma QuietsConcat(m: nat, n: nat)
    ensures Quiets(m) + Quiets(n) == Quiets(m + n)
  {
  }

  /** What a legacy text comes to when `k` more bytes fill the buffer to its length. */
  lemma TextFills(h: Host, text: seq<byte>, k: nat, crc: Crc)
    requires h.layer.Valid() && h.layer.state == LegacyPrintString(|text|, 0)
    requires 0 < k <= |text| && |h.buffer| + k == |text|
    ensures Hear(h, text[..k], crc)
            == (Host(ResetLayer(crc), None, []), Quiets(k - 1) + [Reports(Logged(h.buffer + text[..k]))])
  {
    var n, front, last := |text|, text[..k - 1], text[k - 1..k];
    HearText(h, n, 0, front, crc);
    assert text[..k] == front + last && last == [text[k - 1]];
    HearConcat(h, front, last, crc);
    var h1 := Hear(h, front, crc).0;
    hide Hear, HearByte, Layer.Valid;
    HearStep(h1, last, crc);
    TextStep(h1, n, k - 1, last[0], crc);
    assert last[1..] == [];
    var h2 := HearByte(h1, last[0], crc).0;
    HearNothing(h2, crc);
    Assoc(h.buffer, front, last);
    var e := Reports(Logged(h.buffer + text[..k]));
    assert [e] + [] == [e];
  }

  /** A legacy record that finds the buffer empty is heard as it ought to be. */
  lemma RecordHeard(h: Host, text: seq<byte>, crc: Crc)
    requires Between(h, [], crc) && Printed(text).Valid()
    ensures Hear(h, Printed(text).Wire(crc), crc) == (Host(ResetLayer(crc), None, []), Echo(Printed(text), crc))
  {
    var n := |text|;
    RecordIsText(h, text, crc);
    hide Hear, ToLe32, Idle, Layer.Valid;
    assert text[..n] == text && [] + text == text;
    TextFills(AtText(h, n), text, n, crc);
    var last := [Reports(Logged(text))];
    Assoc(Quiets(8), Quiets(n - 1), last);
    QuietsConcat(8, n - 1);
  }

  lemma ClearUpTo(es: seq<Heard>, k: nat, e: Heard)
    requires k < |es| && es[..k + 1] == Quiets(k) + [e] && e != Failed
    ensures Clear(es, k + 1) && es[k] == e
  {
    forall i | 0 <= i <= k
      ensures es[i] == if i < k then Quiet else e
    {
      assert es[i] == es[..k + 1][i];
    }
  }

  /** Where the text of a legacy record with `m` more bytes of room is cut. */
  lemma EarlyLine(h: Host, text: seq<byte>, m: nat, crc: Crc)
    requires Idle(h.layer, crc) && Printed(text).Valid() && 0 < m && |h.buffer| + m == |text|
    ensures var es := Hear(h, Printed(text).Wire(crc), crc).1;
            8 + m <= |es| && es[..8 + m] == Quiets(7 + m) + [Reports(Logged(h.buffer + text[..m]))]
  {
    hide Hear, ToLe32, Layer.Valid, Item.Wire;
    RecordIsText(h, text, crc);
    var h1, front, rest := AtText(h, |text|), text[..m], text[m..];
    TextFills(h1, text, m, crc);
    assert text == front + rest;
    HearConcat(h1, front, rest, crc);
    QuietUpTo(8, m - 1, Reports(Logged(h.buffer + front)), Hear(Hear(h1, front, crc).0, rest, crc).1);
  }

  lemma QuietUpTo(a: nat, b: nat, e: Heard, rest: seq<Heard>)
    ensures var es := Quiets(a) + (Quiets(b) + [e] + rest);
            a + b < |es| && es[..a + b + 1] == Quiets(a + b) + [e]
  {
    QuietsConcat(a, b);
    assert Quiets(a) + (Quiets(b) + [e] + rest) == Quiets(a + b) + [e] + rest;
  }

  lemma Swallowed(h: Host, text: seq<byte>, crc: Crc)
    requires Idle(h.layer, crc) && Printed(text).Valid() && |h.buffer| >= |text|
    ensures Hear(h, Printed(text).Wire(crc), crc).1 == Quiets(8 + |text|)
  {
    hide Hear, ToLe32, Layer.Valid, Item.Wire;
    RecordIsText(h, text, crc);
    HearText(AtText(h, |text|), |text|, 0, text, crc);
    QuietsConcat(8, |text|);
  }

  /** One that finds text in the buffer is not. Shorter text than its own runs together with
      the beginning of it and is reported early, with the receiver reset in the middle of the
      record: "abc" framed and "wxyz" after it come out as "abc" and "abcw". Text that is no
      shorter swallows the record. `k` is where that shows. */
  lemma MixedRecord(h: Host, left: seq<byte>, text: seq<byte>, crc: Crc) returns (k: nat)
    requires Between(h, left, crc) && left != [] && Printed(text).Valid()
    ensures var (es, want) := (Hear(h, Printed(text).Wire(crc), crc).1, Echo(Printed(text), crc));
            && k < |es| == |want| && Clear(es, k + 1) && es[k] != want[k]
            && if |left| < |text| then
                 var m := |text| - |left|;
                 k == 7 + m && es[..k + 1] == Quiets(k) + [Reports(Logged(left + text[..m]))]
               else es == Quiets(|es|)
  {
    var es := Hear(h, Printed(text).Wire(crc), crc).1;
    hide Hear, ToLe32, Idle;
    if |left| < |text| {
      var m := |text| - |left|;
      EarlyLine(h, text, m, crc);
      k := 7 + m;
      ClearUpTo(es, k, Reports(Logged(left + text[..m])));
    } else {
      Swallowed(h, text, crc);
      k := 7 + |text|;
    }
  }

  // ----- Many records ----------------------------------------------------------------

  predicate AllValid(items: seq<Item>)
  {
    forall i :: 0 <= i < |items| ==> items[i].Valid()
  }

  /** A framed print with text in it. */
  predicate LeavesText(item: Item)
  {
    item.Framed? && item.message.messageType == PrintString && item.message.payload != []
  }

  /** No legacy record comes directly after such a print. */
  predicate Unmixed(items: seq<Item>)
  {
    forall i :: 0 < i < |items| && items[i].Printed? ==> !LeavesText(items[i - 1])
  }

  /** What the records leave in the buffer. */
  function Left(items: seq<Item>): seq<byte>
  {
    if |items| > 0 && LeavesText(items[|items| - 1]) then items[|items| - 1].message.payload else []
  }

  function Stream(items: seq<Item>, crc: Crc): seq<byte>
    requires AllValid(items)
  {
    Flatten(Link.Wires(items, crc))
  }

  lemma StreamSnoc(items: seq<Item>, crc: Crc)
    requires AllValid(items) && |items| > 0
    ensures var (init, last) := (items[..|items| - 1], items[|items| - 1]);
            Stream(items, crc) == Stream(init, crc) + last.Wire(crc)
  {
    hide Item.Wire;
    var init, last := items[..|items| - 1], items[|items| - 1];
    WiresSnoc(items, crc);
    FlattenAppend(Link.Wires(init, crc), last.Wire(crc));
  }

  /** Every record heard once, as itself, on its last byte, and nothing else. */
  function Echoes(items: seq<Item>, crc: Crc): (r: seq<Heard>)
    requires AllValid(items)
    ensures |r| == |Stream(items, crc)|
  {
    if |items| == 0 then []
    else
      StreamSnoc(items, crc);
      Echoes(items[..|items| - 1], crc) + Echo(items[|items| - 1], crc)
  }

  lemma {:induction false} EchoesClear(items: seq<Item>, crc: Crc)
    requires AllValid(items)
    ensures Clear(Echoes(items, crc), |Echoes(items, crc)|)
  {
    if |items| > 0 {
      var init, last := items[..|items| - 1], items[|items| - 1];
      EchoesClear(init, crc);
      var es, e := Echoes(init, crc), Echo(last, crc);
      hide Item.Wire, Stream;
      ClearConcat(es, e, |e|);
    }
  }

  lemma ClearConcat(es: seq<Heard>, more: seq<Heard>, n: nat)
    requires Clear(es, |es|) && Clear(more, n)
    ensures Clear(es + more, |es| + n)
  {
  }

  lemma ClearLeft(es: seq<Heard>, more: seq<Heard>, n: nat)
    requires Clear(es, n) && n <= |es|
    ensures Clear(es + more, n)
  {
  }

  /** One record that does not find text where it must not. */
  lemma ItemHeard(h: Host, left: seq<byte>, item: Item, crc: Crc)
    requires Between(h, left, crc) && item.Valid() && (item.Printed? ==> left == [])
    ensures var (h', es) := Hear(h, item.Wire(crc), crc);
            es == Echo(item, crc) && Between(h', Left([item]), crc)
  {
    match item {
      case Framed(m) =>
        FrameRoundTrip(h.layer, m, crc);
        hide Hear, Receive, Frame, DeliversMessage;
        HearMessage(h, m.Wire(crc), m, crc);
      case Printed(text) =>
        RecordHeard(h, text, crc);
    }
  }

  lemma {:induction false} UnmixedHeard(h: Host, items: seq<Item>, crc: Crc)
    requires Between(h, [], crc) && AllValid(items) && Unmixed(items)
    ensures var (h', es) := Hear(h, Stream(items, crc), crc);
            es == Echoes(items, crc) && Between(h', Left(items), crc)
    decreases |items|
  {
    if |items| == 0 {
      HearNothing(h, crc);
    } else {
      var init, last := items[..|items| - 1], items[|items| - 1];
      UnmixedHeard(h, init, crc);
      assert h.layer.Valid() && Left([last]) == Left(items);
      assert last.Printed? ==> Left(init) == [] by {
        assert |init| > 0 && last.Printed? ==> !LeavesText(items[|items| - 2]);
      }
      StreamSnoc(items, crc);
      hide Hear, Item.Wire, Echo, Between, Stream, Left, Unmixed;
      ItemHeard(Hear(h, Stream(init, crc), crc).0, Left(init), last, crc);
      HearConcat(h, Stream(init, crc), last.Wire(crc), crc);
    }
  }

  /** What is heard of all records, and what ought to be, in two parts. */
  lemma LastApart(h: Host, items: seq<Item>, crc: Crc)
    requires h.layer.Valid() && AllValid(items) && |items| > 0
    ensures var (init, last) := (items[..|items| - 1], items[|items| - 1]);
            var (h1, es) := Hear(h, Stream(init, crc), crc);
            var more := Hear(h1, last.Wire(crc), crc).1;
            && Hear(h, Stream(items, crc), crc).1 == es + more && |es| == |Echoes(init, crc)|
            && Echoes(items, crc) == Echoes(init, crc) + Echo(last, crc) && |more| == |Echo(last, crc)|
  {
    hide Hear, Item.Wire, Echo, Stream;
    StreamSnoc(items, crc);
    HearConcat(h, Stream(items[..|items| - 1], crc), items[|items| - 1].Wire(crc), crc);
  }

  lemma LastDeviates(h: Host, init: seq<Item>, text: seq<byte>, crc: Crc) returns (j: nat)
    requires Between(h, [], crc) && AllValid(init) && Unmixed(init) && Left(init) != [] && Printed(text).Valid()
    ensures var (h1, es) := Hear(h, Stream(init, crc), crc);
            && Clear(es, |es|)
            && Deviates(Hear(h1, Printed(text).Wire(crc), crc).1, Echo(Printed(text), crc), j)
  {
    hide Hear, Item.Wire, Echo, Echoes, Clear, Stream, Left, Deviates, Unmixed;
    UnmixedHeard(h, init, crc);
    EchoesClear(init, crc);
    j := RecordDeviates(Hear(h, Stream(init, crc), crc).0, Left(init), text, crc);
  }

  lemma RecordDeviates(h: Host, left: seq<byte>, text: seq<byte>, crc: Crc) returns (k: nat)
    requires Between(h, left, crc) && left != [] && Printed(text).Valid()
    ensures Deviates(Hear(h, Printed(text).Wire(crc), crc).1, Echo(Printed(text), crc), k)
  {
    hide Hear, Item.Wire, Echo, Clear, Between;
    k := MixedRecord(h, left, text, crc);
  }

  /** At this byte what is heard is not what ought to be, and nothing has failed up to there. */
  predicate Deviates(es: seq<Heard>, want: seq<Heard>, k: nat)
  {
    k < |es| && k < |want| && Clear(es, k + 1) && es[k] != want[k]
  }

  /** With a legacy record after such a print there is such a byte. */
  lemma {:induction false} MixedDeviates(h: Host, items: seq<Item>, crc: Crc) returns (k: nat)
    requires Between(h, [], crc) && AllValid(items) && !Unmixed(items)
    ensures Deviates(Hear(h, Stream(items, crc), crc).1, Echoes(items, crc), k)
    decreases |items|
  {
    hide Hear, Item.Wire, Item.Valid, Echo, Echoes, Clear, Stream, Left, Deviates, LeavesText;
    var init, last := items[..|items| - 1], items[|items| - 1];
    LastApart(h, items, crc);
    var (h1, es) := Hear(h, Stream(init, crc), crc);
    var more := Hear(h1, last.Wire(crc), crc).1;
    if Unmixed(init) {
      LastMixes(items);
      hide Unmixed;
      var j := LastDeviates(h, init, last.text, crc);
      DeviatesLater(es, more, Echoes(init, crc), Echo(last, crc), j);
      k := |es| + j;
    } else {
      hide Unmixed;
      k := MixedDeviates(h, init, crc);
      DeviatesEarlier(es, more, Echoes(init, crc), Echo(last, crc), k);
    }
  }

  lemma DeviatesEarlier(es: seq<Heard>, more: seq<Heard>, want: seq<Heard>, wantMore: seq<Heard>, k: nat)
    requires Deviates(es, want, k)
    ensures Deviates(es + more, want + wantMore, k)
  {
    ClearLeft(es, more, k + 1);
    hide Clear;
  }

  lemma DeviatesLater(es: seq<Heard>, more: seq<Heard>, want: seq<Heard>, wantMore: seq<Heard>, k: nat)
    requires |es| == |want| && Clear(es, |es|) && Deviates(more, wantMore, k)
    ensures Deviates(es + more, want + wantMore, |es| + k)
  {
    ClearConcat(es, more, k + 1);
    hide Clear;
  }

  lemma LastMixes(items: seq<Item>)
    requires !Unmixed(items) && Unmixed(items[..|items| - 1])
    ensures items[|items| - 1].Printed? && Left(items[..|items| - 1]) != []
  {
    var init := items[..|items| - 1];
    var i :| 0 < i < |items| && items[i].Printed? && LeavesText(items[i - 1]);
    if i < |init| {
      assert false;
    }
  }

  lemma WholeAgrees(h: Host, batches: seq<seq<byte>>, crc: Crc)
    requires h.layer.Valid() && Clear(Hear(h, Joined(batches), crc).1, |Joined(batches)|)
    ensures HearReads(h, batches, crc).1 == Hear(h, Joined(batches), crc).1
  {
    hide Hear, HearReads, Clear, Joined;
    var n, got, all := |Joined(batches)|, HearReads(h, batches, crc).1, Hear(h, Joined(batches), crc).1;
    BatchesAgree(h, batches, n, crc);
    assert got[..n] == got && all[..n] == all;
  }

  lemma SameDeviation(h: Host, batches: seq<seq<byte>>, k: nat, crc: Crc)
    requires h.layer.Valid() && k < |Joined(batches)| && Clear(Hear(h, Joined(batches), crc).1, k + 1)
    ensures HearReads(h, batches, crc).1[k] == Hear(h, Joined(batches), crc).1[k]
  {
    hide Hear, HearReads, Clear, Joined;
    BatchesAgree(h, batches, k + 1, crc);
    var got, all := HearReads(h, batches, crc).1, Hear(h, Joined(batches), crc).1;
    assert got[k] == got[..k + 1][k] && all[k] == all[..k + 1][k];
  }

  /** The host hears every record once, as itself, on its last byte, and nothing else, if and
      only if no legacy record comes directly after a framed print with text in it: for every
      sequence of records, from a state between two records with an empty buffer, and however
      the bytes are cut into reads. */
  lemma HostHearsIff(h: Host, batches: seq<seq<byte>>, items: seq<Item>, crc: Crc)
    requires Between(h, [], crc) && AllValid(items) && Joined(batches) == Stream(items, crc)
    ensures HearReads(h, batches, crc).1 == Echoes(items, crc) <==> Unmixed(items)
  {
    hide Hear, HearReads, Unmixed, Stream, Clear, Echoes, Joined;
    if Unmixed(items) {
      UnmixedHeard(h, items, crc);
      EchoesClear(items, crc);
      WholeAgrees(h, batches, crc);
    } else {
      var k := MixedDeviates(h, items, crc);
      SameDeviation(h, batches, k, crc);
    }
  }

  /** At every moment of every interleaving of sends, prints, drains and reads: if the committed
      records are not mixed in that way, what the host has heard is the beginning of their
      echoes; and once the queue is empty it is all of them if and only if they are not. */
  lemma SinkReachesHost(sink: FrameSink, h: Host, batches: seq<seq<byte>>, items: seq<Item>)
    requires sink.Valid() && Between(h, [], sink.crc) && AllValid(items)
    requires sink.records == Link.Wires(items, sink.crc) && Joined(batches) == sink.shifted
    ensures var (got, want) := (HearReads(h, batches, sink.crc).1, Echoes(items, sink.crc));
            && (Unmixed(items) ==> got <= want)
            && (sink.buffer.Contents() == [] ==> (got == want <==> Unmixed(items)))
  {
    var crc, rest := sink.crc, sink.buffer.Contents();
    assert Stream(items, crc) == Joined(batches) + rest;
    hide Hear, HearReads, Unmixed, Stream, Clear, Echoes, Joined;
    if Unmixed(items) {
      HeardSoFar(h, batches, rest, items, crc);
    }
    if rest == [] {
      assert Joined(batches) + [] == Joined(batches);
      HostHearsIff(h, batches, items, crc);
    }
  }

  lemma HeardSoFar(h: Host, batches: seq<seq<byte>>, rest: seq<byte>, items: seq<Item>, crc: Crc)
    requires Between(h, [], crc) && AllValid(items) && Unmixed(items) && Stream(items, crc) == Joined(batches) + rest
    ensures HearReads(h, batches, crc).1 <= Echoes(items, crc)
  {
    hide Hear, HearReads, Unmixed, Stream, Clear, Echoes, Joined;
    var (h1, es) := Hear(h, Joined(batches), crc);
    UnmixedHeard(h, items, crc);
    EchoesClear(items, crc);
    HearConcat(h, Joined(batches), rest, crc);
    ClearPart(es, Hear(h1, rest, crc).1, |Echoes(items, crc)|);
    WholeAgrees(h, batches, crc);
  }
}
