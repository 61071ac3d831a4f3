/** The host's receiver on any bytes at all: when it fails, how it starts again, and that the
    messages it passes on were frames. */
module HostSoundness {
  import opened Wrappers
  import opened Bytes
  import opened Frames
  import opened FrameLayers
  import opened FrameStream
  import opened FrameSoundness
  import opened FrameSinks
  import opened Link
  import opened HostDecoder

  /** The host knows a header exactly while the frame layer is inside that frame's body. */
  predicate InStep(h: Host)
  {
    && h.layer.Valid()
    && h.header == (if h.layer.state.PacketBody? then Some(h.layer.state.header) else None)
  }

  function Fresh(crc: Crc): Host
  {
    Host(ResetLayer(crc), None, [])
  }

  /** What the frame layer's result says of the state before and after it. */
  lemma ResultOfState(l: Layer, b: byte, crc: Crc)
    requires l.Valid()
    ensures var (l', o) := Next(l, b, crc);
            var (body, body') := (l.state.PacketBody?, l'.state.PacketBody?);
            && (o.Err? ==> l' == ResetLayer(crc))
            && (o == Ok(Skip) ==> body' == body && (body ==> l'.state.header == l.state.header))
            && (o.Ok? && o.value.Header? ==> !body && body' && l'.state.header == o.value.header)
            && (o.Ok? && o.value.Payload? ==> body && body' && l'.state.header == l.state.header)
            && (o == Ok(Finished) ==> body && !body')
            && (o.Ok? && (o.value.LegacyMode? || o.value.LegacyPrintStringByte?) ==> !body && !body')
  {
    hide Cobs.PollPlain, Xor, TypeFromCode, FromLe32, DecodeLength;
  }

  /** So two of its three complaints never come up: a byte fails exactly when the frame layer
      refuses it or has come upon the legacy download word. */
  lemma FailsIff(h: Host, b: byte, crc: Crc)
    requires InStep(h)
    ensures var (h', e) := HearByte(h, b, crc);
            var o := Next(h.layer, b, crc).1;
            && InStep(h')
            && (e == Failed <==> o.Err? || o == Ok(LegacyMode))
            && (o.Err? ==> h' == Fresh(crc))
            && (o == Ok(LegacyMode) ==> h'.layer.state.Legacy?)
  {
    ResultOfState(h.layer, b, crc);
    if Next(h.layer, b, crc).1 == Ok(LegacyMode) {
      LegacyStays(h.layer, b, crc);
    }
    hide Next;
  }

  lemma LegacyStays(l: Layer, b: byte, crc: Crc)
    requires l.Valid() && Next(l, b, crc).1 == Ok(LegacyMode)
    ensures Next(l, b, crc).0.state.Legacy?
  {
    hide Cobs.PollPlain, Xor, TypeFromCode, FromLe32, DecodeLength;
  }

  /** From any state, valid or not in step: once the frame layer has refused a byte, the reads
      that follow are heard as a host hears them that has just begun. Whatever was damaged
      before, the records in them come out once each, as themselves, on their last bytes, if
      and only if no two are mixed. */
  lemma HearsAfterRefusal(h: Host, s: seq<byte>, b: byte, rest: seq<byte>, batches: seq<seq<byte>>, items: seq<Item>, crc: Crc)
    requires h.layer.Valid() && Clear(Hear(h, s, crc).1, |s|)
    requires Next(Hear(h, s, crc).0.layer, b, crc).1.Err?
    requires AllValid(items) && Joined(batches) == Stream(items, crc)
    ensures var all := HearReads(h, [s + [b] + rest] + batches, crc).1;
            var (n, m) := (|s| + 1, |s| + 1 + |rest|);
            && |all| == m + |Stream(items, crc)|
            && all[..n] == Hear(h, s, crc).1 + [Failed]
            && all[n..m] == AllDropped(|rest|)
            && (all[m..] == Echoes(items, crc) <==> Unmixed(items))
  {
    hide HearReads, HearRead, Hear, Clear, Unmixed, Echoes, Stream, Joined, Next;
    RefusedRead(h, s, b, rest, crc);
    FreshIsBetween(crc);
    HostHearsIff(Fresh(crc), batches, items, crc);
    ReadsFirst(h, s + [b] + rest, batches, crc);
    var es, more := HearRead(h, s + [b] + rest, crc).1, HearReads(Fresh(crc), batches, crc).1;
    assert |es| == |s| + 1 + |rest|;
    assert (es + more)[|es|..] == more;
    var front := Hear(h, s, crc).1 + [Failed];
    assert es == front + AllDropped(|rest|);
    assert (es + more)[..|front|] == front && (es + more)[|front|..|es|] == AllDropped(|rest|);
  }

  lemma FreshIsBetween(crc: Crc)
    ensures Between(Fresh(crc), [], crc)
  {
  }

  lemma ReadsFirst(h: Host, first: seq<byte>, batches: seq<seq<byte>>, crc: Crc)
    requires h.layer.Valid()
    ensures var (h1, es) := HearRead(h, first, crc);
            HearReads(h, [first] + batches, crc) == (HearReads(h1, batches, crc).0, es + HearReads(h1, batches, crc).1)
    ensures |Joined([first] + batches)| == |first| + |Joined(batches)|
  {
    hide HearRead;
    assert ([first] + batches)[1..] == batches;
  }

  /** The read in which it happens. */
  lemma {:induction false} RefusedRead(h: Host, s: seq<byte>, b: byte, rest: seq<byte>, crc: Crc)
    requires h.layer.Valid() && Clear(Hear(h, s, crc).1, |s|)
    requires Next(Hear(h, s, crc).0.layer, b, crc).1.Err?
    ensures HearRead(h, s + [b] + rest, crc) == (Fresh(crc), Hear(h, s, crc).1 + [Failed] + AllDropped(|rest|))
    decreases |s|
  {
    hide HearByte, Next, Hear, HearRead, Clear, Layer.Valid, AllDropped;
    var all := s + [b] + rest;
    ReadUnfolds(h, all, crc);
    if |s| == 0 {
      assert all[0] == b && all[1..] == rest && s == [];
      HearNothing(h, crc);
      RefusedFirst(h, b, crc);
      assert [] + [Failed] == [Failed];
    } else {
      assert all[0] == s[0] && all[1..] == s[1..] + [b] + rest;
      HearStep(h, s, crc);
      var (h1, e) := HearByte(h, s[0], crc);
      var es := Hear(h1, s[1..], crc).1;
      ClearFirst(e, es, |s|);
      RefusedRead(h1, s[1..], b, rest, crc);
      Assoc([e], es, [Failed]);
      Assoc([e], es + [Failed], AllDropped(|rest|));
    }
  }

  lemma ClearFirst(e: Heard, es: seq<Heard>, n: nat)
    requires n > 0 && Clear([e] + es, n)
    ensures e != Failed && Clear(es, n - 1)
  {
    ClearRest([e] + es, 1, n - 1);
    assert ([e] + es)[1..] == es && ([e] + es)[0] == e;
  }

  lemma ReadUnfolds(h: Host, s: seq<byte>, crc: Crc)
    requires h.layer.Valid() && |s| > 0
    ensures var (h1, e) := HearByte(h, s[0], crc);
            HearRead(h, s, crc)
            == if e == Failed then (h1, [e] + AllDropped(|s| - 1))
               else (HearRead(h1, s[1..], crc).0, [e] + HearRead(h1, s[1..], crc).1)
  {
    hide HearByte;
  }

  lemma RefusedFirst(h: Host, b: byte, crc: Crc)
    requires h.layer.Valid() && Next(h.layer, b, crc).1.Err?
    ensures HearByte(h, b, crc) == (Fresh(crc), Failed)
  {
    RefusalResets(h.layer, b, crc);
    hide Next;
  }

  lemma RefusalResets(l: Layer, b: byte, crc: Crc)
    requires l.Valid() && Next(l, b, crc).1.Err?
    ensures Next(l, b, crc).0 == ResetLayer(crc)
  {
  }

  // ----- Messages are frames ---------------------------------------------------------

  /** What the host holds is what the frame layer has reported since its last boundary. */
  ghost predicate Tracks(h: Host, os: seq<FeedResult>)
  {
    && Headers(Since(os)) == (if h.header.Some? then [h.header.value] else [])
    && Payloads(Since(os)) == (if h.header.Some? then h.buffer else [])
  }

  lemma TrackStep(h: Host, os: seq<FeedResult>, b: byte, crc: Crc)
    requires InStep(h) && Tracks(h, os)
    ensures Tracks(HearByte(h, b, crc).0, os + [Next(h.layer, b, crc).1])
  {
    hide Next, Since, Headers, Payloads, Layer.Valid, ResetLayer;
    var o := Next(h.layer, b, crc).1;
    ResultOfState(h.layer, b, crc);
    SinceSnoc(os, o);
    NothingSince();
  }

  lemma NothingSince()
    ensures Headers([]) == [] && Payloads([]) == []
  {
  }

  /** The report of a legacy text resets the frame layer; nothing else does so behind its back. */
  lemma LayerStep(h: Host, b: byte, crc: Crc)
    requires InStep(h)
    ensures var (h', e) := HearByte(h, b, crc);
            h'.layer == Next(h.layer, b, crc).0 || h' == Fresh(crc)
  {
    hide Next;
  }

  /** After any stream the frame layer is where a receiver is that has read only the bytes from
      some point on, and the host holds what that receiver has reported. */
  lemma {:induction false} HostTrace(s: seq<byte>, crc: Crc) returns (r: nat)
    ensures r <= |s|
    ensures var h := Hear(Fresh(crc), s, crc).0;
            var (l, os) := Receive(ResetLayer(crc), s[r..], crc);
            InStep(h) && h.layer == l && Tracks(h, os)
  {
    hide Hear, Receive, Next, HearByte, ResetLayer, Since;
    if |s| == 0 {
      r := 0;
      TraceBegins(crc);
    } else {
      var t, b := s[..|s| - 1], s[|s| - 1];
      r := HostTrace(t, crc);
      assert s == t + [b];
      HearSnoc(Fresh(crc), t, b, crc);
      var h := Hear(Fresh(crc), t, crc).0;
      FailsIff(h, b, crc);
      LayerStep(h, b, crc);
      if HearByte(h, b, crc).0 == Fresh(crc) {
        r := |s|;
        TraceBegins(crc);
        assert s[r..] == [];
      } else {
        TrackStep(h, Receive(ResetLayer(crc), t[r..], crc).1, b, crc);
        ReceiveSnoc(ResetLayer(crc), t[r..], b, crc);
        assert s[r..] == t[r..] + [b];
      }
    }
  }

  lemma TraceBegins(crc: Crc)
    ensures Hear(Fresh(crc), [], crc).0 == Fresh(crc) && Receive(ResetLayer(crc), [], crc) == (ResetLayer(crc), [])
    ensures InStep(Fresh(crc)) && Tracks(Fresh(crc), [])
  {
  }

  lemma HearSnoc(h: Host, t: seq<byte>, b: byte, crc: Crc)
    requires h.layer.Valid()
    ensures var (h1, es) := Hear(h, t, crc);
            var (h2, e) := HearByte(h1, b, crc);
            Hear(h, t + [b], crc) == (h2, es + [e])
  {
    hide HearByte;
    HearConcat(h, t, [b], crc);
    var h1 := Hear(h, t, crc).0;
    HearStep(h1, [b], crc);
    assert [b][1..] == [];
    HearNothing(HearByte(h1, b, crc).0, crc);
    assert [HearByte(h1, b, crc).1] + [] == [HearByte(h1, b, crc).1];
  }

  /** A frame of that packet ends with byte `i`. */
  ghost predicate FrameEnds(s: seq<byte>, i: nat, t: MessageType, payload: seq<byte>, crc: Crc)
  {
    exists p: Packet, k: nat :: FrameOf(s, k, i, p, t, payload, crc)
  }

  ghost predicate FrameOf(s: seq<byte>, k: nat, i: nat, p: Packet, t: MessageType, payload: seq<byte>, crc: Crc)
  {
    FrameAt(s, k, i + 1, p, crc) && p.header.messageType == t && |p.bytes| == p.CrcAt() + 4 && p.Payload() == payload
  }

  /** Over every stream, noise included: what the host passes on to the upload loop at byte `i`
      is the type and the payload of a frame that ends there and whose CRC matches; and what
      it writes to its log there is the text of such a frame, or the frame layer is at the
      text of a legacy record. */
  lemma ReportIsSound(s: seq<byte>, i: nat, crc: Crc)
    requires i < |s| && Hear(Fresh(crc), s, crc).1[i].Reports?
    ensures var report := Hear(Fresh(crc), s, crc).1[i].report;
            && (report.Received? ==>
                  report.messageType != PrintString && FrameEnds(s, i, report.messageType, report.payload, crc))
            && (report.Logged? ==>
                  || FrameEnds(s, i, PrintString, report.text, crc)
                  || Hear(Fresh(crc), s[..i], crc).0.layer.state.LegacyPrintString?)
  {
    hide Hear, Next, FrameEnds, ResetLayer;
    HearAt(s, i, crc);
    var h := Hear(Fresh(crc), s[..i], crc).0;
    TextIsLegacy(h.layer, s[i], crc);
    if Next(h.layer, s[i], crc).1 == Ok(Finished) {
      FinishedHeard(s, i, crc);
    }
  }

  /** When the frame layer finishes a frame the host holds its header and payload. */
  lemma FinishedHeard(s: seq<byte>, i: nat, crc: Crc)
    requires i < |s| && Next(Hear(Fresh(crc), s[..i], crc).0.layer, s[i], crc).1 == Ok(Finished)
    ensures var h := Hear(Fresh(crc), s[..i], crc).0;
            h.header.Some? && FrameEnds(s, i, h.header.value.messageType, h.buffer, crc)
  {
    hide Hear, Next, FrameAt, Since, ResetLayer, Receive, Headers, Payloads;
    var t, b := s[..i], s[i];
    var r := HostTrace(t, crc);
    var h := Hear(Fresh(crc), t, crc).0;
    ResultOfState(h.layer, b, crc);
    ReceiveSnoc(ResetLayer(crc), t[r..], b, crc);
    var os := Receive(ResetLayer(crc), t[r..], crc).1;
    assert (os + [Ok(Finished)])[..|os|] == os;
    var p, k := FinishedIsSound(t[r..] + [b], |os|, crc);
    Shifted(s, r, i, k, p, crc);
    assert h.header == Some(p.header) by {
      assert [h.header.value] == [p.header];
    }
    assert FrameOf(s, r + k, i, p, p.header.messageType, p.Payload(), crc);
  }

  lemma HearAt(s: seq<byte>, i: nat, crc: Crc)
    requires i < |s|
    ensures Hear(Fresh(crc), s, crc).1[i] == HearByte(Hear(Fresh(crc), s[..i], crc).0, s[i], crc).1
  {
    hide HearByte, Hear;
    var t := s[..i] + [s[i]];
    assert s == t + s[i + 1..];
    HearConcat(Fresh(crc), t, s[i + 1..], crc);
    HearSnoc(Fresh(crc), s[..i], s[i], crc);
  }

  lemma TextIsLegacy(l: Layer, b: byte, crc: Crc)
    requires l.Valid()
    ensures Next(l, b, crc).1.Ok? && Next(l, b, crc).1.value.LegacyPrintStringByte? ==> l.state.LegacyPrintString?
  {
    hide Cobs.PollPlain, Xor, TypeFromCode, FromLe32, DecodeLength;
  }

  /** A frame in a part of the stream is one in the stream. */
  lemma Shifted(s: seq<byte>, r: nat, i: nat, k: nat, p: Packet, crc: Crc)
    requires r <= i < |s| && FrameAt(s[..i][r..] + [s[i]], k, i - r + 1, p, crc)
    ensures FrameAt(s, r + k, i + 1, p, crc)
  {
    var u := s[..i][r..] + [s[i]];
    assert u == s[r..i + 1];
    hide FrameAt;
    FrameIn(s, r, i, k, p, crc);
  }

  lemma FrameIn(s: seq<byte>, r: nat, i: nat, k: nat, p: Packet, crc: Crc)
    requires r <= i < |s| && FrameAt(s[r..i + 1], k, i - r + 1, p, crc)
    ensures FrameAt(s, r + k, i + 1, p, crc)
  {
    PartOfPart(s, r, i + 1, k, k + 4);
    PartOfPart(s, r, i + 1, k + 4, k + 8);
    PartOfPart(s, r, i + 1, k + 8, i - r + 1);
  }

  lemma PartOfPart(s: seq<byte>, a: nat, b: nat, x: nat, y: nat)
    requires a <= b <= |s| && x <= y <= b - a
    ensures s[a..b][x..y] == s[a + x..a + y]
  {
    var part, whole := s[a..b][x..y], s[a + x..a + y];
    forall i | 0 <= i < y - x
      ensures part[i] == whole[i]
    {
      assert part[i] == s[a..b][x + i] == s[a + (x + i)] == whole[i];
    }
  }
}
