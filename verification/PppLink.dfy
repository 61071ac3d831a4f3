/** Transmitter and receiver together: frames arrive as they were built, wherever the two
    sides were interrupted. */
module PppLink {
  import opened Wrappers
  import opened Fcs
  import opened PppFrames
  import opened PppTransmit
  import opened PppReader
  import opened PppReceive

  // ----- Runs of the receiver --------------------------------------------------------

  /** What happens to the receive channel: an interrupt drains some bytes, or the reader
      frees the oldest frame if there is one. */
  datatype Event = Arrive(bytes: seq<octet>) | Free

  function OnEvent(c: Channel, e: Event): Outcome
    requires c.Valid()
  {
    match e
    case Arrive(s) => Drain(c, s)
    case Free => Fine(if c.freed < |c.all| then c.(freed := c.freed + 1) else c)
  }

  lemma OnEventValid(c: Channel, e: Event)
    requires c.Valid()
    ensures OnEvent(c, e).Fine? ==> OnEvent(c, e).c.Valid() && (!c.escaped ==> !OnEvent(c, e).c.escaped)
  {
    if e.Arrive? {
      StretchValid(c.(escaped := false), e.bytes);
    }
  }

  function RunEvents(c: Channel, es: seq<Event>): Outcome
    requires c.Valid()
    decreases |es|
  {
    if |es| == 0 then Fine(c)
    else
      OnEventValid(c, es[0]);
      match OnEvent(c, es[0])
      case Fine(c') => RunEvents(c', es[1..])
      case other => other
  }

  /** No drain ends between an escape and the byte it announces. */
  ghost predicate Clean(c: Channel, es: seq<Event>)
    requires c.Valid()
    decreases |es|
  {
    |es| > 0 ==>
      && (es[0].Arrive? && Stretch(c.(escaped := false), es[0].bytes).Fine? ==>
            !Stretch(c.(escaped := false), es[0].bytes).c.escaped)
      && (OnEventValid(c, es[0]); OnEvent(c, es[0]).Fine? ==> Clean(OnEvent(c, es[0]).c, es[1..]))
  }

  function Arrived(es: seq<Event>): seq<octet>
  {
    if |es| == 0 then [] else (if es[0].Arrive? then es[0].bytes else []) + Arrived(es[1..])
  }

  /** Independence from interrupts: whatever the drains and frees, the frames completed are
      those of the byte stream read in one piece. */
  lemma {:induction false} RunIsRead(c: Channel, es: seq<Event>)
    requires c.Valid() && !c.escaped && RunEvents(c, es).Fine? && Clean(c, es)
    ensures Seen(RunEvents(c, es).c) == Read(Seen(c), Arrived(es))
    decreases |es|
  {
    hide Stretch, Read, OnByte, ReadByte;
    if |es| == 0 {
      ReadNothing(Seen(c));
    } else {
      OnEventValid(c, es[0]);
      var c1 := OnEvent(c, es[0]).c;
      RunIsRead(c1, es[1..]);
      if es[0].Arrive? {
        assert c.(escaped := false) == c;
        SeenStretch(c, es[0].bytes);
        ReadConcat(Seen(c), es[0].bytes, Arrived(es[1..]));
      } else {
        assert Seen(c1) == Seen(c);
        assert [] + Arrived(es[1..]) == Arrived(es[1..]);
      }
    }
  }

  /** The same events at the ring itself. */
  function RingEvents(r: Ring, es: seq<Event>): Option<Ring>
    decreases |es|
  {
    if |es| == 0 then Some(r)
    else
      match es[0]
      case Arrive(s) =>
        (match RingDrain(r, s)
         case Some(r') => RingEvents(r', es[1..])
         case None => None)
      case Free =>
        RingEvents(if r.visible > 0 && |r.queue| > 0 then r.(queue := r.queue[1..], visible := r.visible - 1) else r,
                   es[1..])
  }

  /** As long as no drain is refused the reader finds the completed frames in the ring, oldest
      first. */
  lemma {:induction false} RingKeepsFrames(c: Channel, es: seq<Event>)
    requires c.Valid() && !c.escaped && RunEvents(c, es).Fine?
    ensures RunEvents(c, es).c.freed <= |RunEvents(c, es).c.all|
    ensures RingEvents(RingOf(c), es) == Some(RingOf(RunEvents(c, es).c))
    decreases |es|
  {
    if |es| > 0 {
      OnEventValid(c, es[0]);
      var c1 := OnEvent(c, es[0]).c;
      RingKeepsFrames(c1, es[1..]);
      hide RingRun, Stretch;
      if es[0].Arrive? {
        assert c.(escaped := false) == c;
        RingFollowsStretch(c, es[0].bytes);
      } else if c.freed < |c.all| {
        assert c.all[c.freed..][1..] == c.all[c.freed + 1..];
      }
    }
  }

  // ----- Reading what the transmitter writes -----------------------------------------

  /** The escape sets that keep flags out of the data: a byte that escapes to a flag must not
      be escaped. */
  predicate SafeEscapes(esc: set<octet>)
  {
    FLAG in esc && ESC in esc && 0x5e !in esc
  }

  lemma XorFacts(b: octet)
    ensures (b ^ ESC_XOR) ^ ESC_XOR == b
    ensures b ^ ESC_XOR == FLAG <==> b == 0x5e
  {
  }

  predicate Delimited(frame: seq<octet>)
  {
    |frame| >= 3 && frame[0] == FLAG && frame[|frame| - 1] == FLAG
  }

  lemma ReadEscapedByte(r: Reader, esc: set<octet>, frame: seq<octet>, i: nat)
    requires SafeEscapes(esc) && Delimited(frame) && 0 < i < |frame| - 1
    requires r.partial == Some(frame[..i]) && !r.escaped
    ensures Read(r, EscapedFrom(esc, frame, i, false))
            == Read(r.(partial := Some(frame[..i + 1])), EscapedFrom(esc, frame, i + 1, false))
  {
    hide ReadByte, Read;
    var b := frame[i];
    var rest := EscapedFrom(esc, frame, i + 1, false);
    var r' := r.(partial := Some(frame[..i + 1]));
    assert frame[..i + 1] == frame[..i] + [b];
    XorFacts(b);
    if NeedsEscape(esc, frame, i) {
      var e := b ^ ESC_XOR;
      ReadConcat(r, [ESC, e], rest);
      assert [ESC, e] == [ESC] + [e];
      ReadConcat(r, [ESC], [e]);
      ReadOne(r, ESC);
      EscapeStep(r, e);
      ReadOne(r.(escaped := true), e);
    } else {
      ReadConcat(r, [b], rest);
      ReadOne(r, b);
      PlainStep(r, b);
    }
  }

  lemma EscapeStep(r: Reader, e: octet)
    requires r.partial.Some? && !r.escaped && e != FLAG
    ensures ReadByte(r, ESC) == r.(escaped := true)
    ensures ReadByte(r.(escaped := true), e) == r.(partial := Some(r.partial.value + [e ^ ESC_XOR]))
  {
  }

  lemma PlainStep(r: Reader, b: octet)
    requires r.partial.Some? && !r.escaped && b != FLAG && b != ESC
    ensures ReadByte(r, b) == r.(partial := Some(r.partial.value + [b]))
  {
  }

  lemma {:induction false} ReadEscapedRest(r: Reader, esc: set<octet>, frame: seq<octet>, i: nat)
    requires SafeEscapes(esc) && Delimited(frame) && 0 < i < |frame|
    requires r.partial == Some(frame[..i]) && !r.escaped && (i == |frame| - 1 ==> i > 1)
    ensures Read(r, EscapedFrom(esc, frame, i, false))
            == Reader(r.all + [frame[..|frame| - 1]], Some([FLAG]), false)
    decreases |frame| - i
  {
    hide Read;
    if i < |frame| - 1 {
      ReadEscapedByte(r, esc, frame, i);
      ReadEscapedRest(r.(partial := Some(frame[..i + 1])), esc, frame, i + 1);
    } else {
      assert EscapedFrom(esc, frame, i, false) == [FLAG] + EscapedFrom(esc, frame, |frame|, false) == [FLAG];
      ReadOne(r, FLAG);
    }
  }

  /** Between frames. */
  predicate AtRest(r: Reader)
  {
    !r.escaped && (r.partial.None? || r.partial == Some([FLAG]))
  }

  /** One frame through escaping and reading: it comes out without its closing flag. */
  lemma ReadEscaped(r: Reader, esc: set<octet>, frame: seq<octet>)
    requires AtRest(r) && SafeEscapes(esc) && Delimited(frame)
    ensures Read(r, Escaped(esc, frame)) == Reader(r.all + [frame[..|frame| - 1]], Some([FLAG]), false)
  {
    hide Read;
    var r1 := Reader(r.all, Some([FLAG]), false);
    var rest := EscapedFrom(esc, frame, 1, false);
    assert Escaped(esc, frame) == [FLAG] + rest;
    ReadConcat(r, [FLAG], rest);
    ReadOne(r, FLAG);
    assert frame[..1] == [FLAG];
    ReadEscapedRest(r1, esc, frame, 1);
  }

  function Opened(frames: seq<seq<octet>>): seq<seq<octet>>
    requires forall i :: 0 <= i < |frames| ==> Delimited(frames[i])
  {
    seq(|frames|, i requires 0 <= i < |frames| && Delimited(frames[i]) => frames[i][..|frames[i]| - 1])
  }

  lemma {:induction false} ReadAllEscaped(esc: set<octet>, frames: seq<seq<octet>>)
    requires SafeEscapes(esc) && forall i :: 0 <= i < |frames| ==> Delimited(frames[i])
    ensures var r := Read(Reader([], None, false), AllEscaped(esc, frames));
            AtRest(r) && r.all == Opened(frames)
    decreases |frames|
  {
    hide Read, Escaped;
    if |frames| == 0 {
      ReadNothing(Reader([], None, false));
    } else {
      var init, last := frames[..|frames| - 1], frames[|frames| - 1];
      ReadAllEscaped(esc, init);
      var r := Read(Reader([], None, false), AllEscaped(esc, init));
      ReadConcat(Reader([], None, false), AllEscaped(esc, init), Escaped(esc, last));
      ReadEscaped(r, esc, last);
      assert Opened(frames) == Opened(init) + [last[..|last| - 1]];
    }
  }

  // ----- End to end ------------------------------------------------------------------

  datatype Packet = Packet(protocol: bv16, payload: seq<octet>)
  {
    function Frame(): seq<octet>
    {
      Framed(protocol, payload)
    }
  }

  lemma FrameShape(p: Packet)
    ensures Delimited(p.Frame())
    ensures p.Frame()[..|p.Frame()| - 1] == Received(ProtocolBytes(p.protocol) + p.payload)
  {
    hide CalcFcs;
  }

  function Frames(ps: seq<Packet>): seq<seq<octet>>
  {
    seq(|ps|, i requires 0 <= i < |ps| => ps[i].Frame())
  }

  /** Each frame is accepted as exactly the protocol and payload of its packet. */
  ghost predicate Accepted(frames: seq<seq<octet>>, ps: seq<Packet>)
  {
    && |frames| <= |ps|
    && forall i :: 0 <= i < |frames| ==>
         TryFromHdlcFrame(frames[i]) == Some(ProtocolBytes(ps[i].protocol) + ps[i].payload)
  }

  lemma OpenedAreAccepted(ps: seq<Packet>, frames: seq<seq<octet>>)
    requires forall i :: 0 <= i < |Frames(ps)| ==> Delimited(Frames(ps)[i])
    requires frames <= Opened(Frames(ps))
    ensures Accepted(frames, ps)
  {
    hide TryFromHdlcFrame, Received, Packet.Frame;
    forall i | 0 <= i < |frames|
      ensures TryFromHdlcFrame(frames[i]) == Some(ProtocolBytes(ps[i].protocol) + ps[i].payload)
    {
      FrameShape(ps[i]);
      ProtocolLength(ps[i].protocol);
      assert frames[i] == Opened(Frames(ps))[i];
      AcceptedIffFramed(frames[i], ProtocolBytes(ps[i].protocol) + ps[i].payload);
    }
  }

  lemma FramesDelimited(ps: seq<Packet>)
    ensures forall i :: 0 <= i < |Frames(ps)| ==> Delimited(Frames(ps)[i])
  {
    hide Packet.Frame;
    forall i | 0 <= i < |Frames(ps)|
      ensures Delimited(Frames(ps)[i])
    {
      FrameShape(ps[i]);
    }
  }

  const QUIET := Channel([], 0, None, false)

  /** Whatever part of the escaped packets has arrived, with drains ending anywhere but inside an
      escape and with frames freed at any time: the frames completed are the first packets, in
      order; and all of them when everything has arrived. */
  lemma PacketsArrive(esc: set<octet>, ps: seq<Packet>, es: seq<Event>)
    requires SafeEscapes(esc) && QUIET.Valid() && RunEvents(QUIET, es).Fine? && Clean(QUIET, es)
    requires Arrived(es) <= AllEscaped(esc, Frames(ps))
    ensures var c := RunEvents(QUIET, es).c;
            Accepted(c.all, ps) && (Arrived(es) == AllEscaped(esc, Frames(ps)) ==> |c.all| == |ps|)
  {
    hide RunEvents, Read, AllEscaped, Arrived, Clean, Accepted, Packet.Frame;
    var fs := Frames(ps);
    FramesDelimited(ps);
    RunIsRead(QUIET, es);
    ReadAllEscaped(esc, fs);
    var r0, got, whole := Reader([], None, false), Arrived(es), AllEscaped(esc, fs);
    var rest := whole[|got|..];
    assert whole == got + rest;
    ReadConcat(r0, got, rest);
    ReadGrows(Read(r0, got), rest);
    OpenedAreAccepted(ps, RunEvents(QUIET, es).c.all);
  }

  /** Transmitter and receiver joined by the wire. At every moment, however often either was
      interrupted and however much of what was written is still under way: the frames that the
      receiver has completed are the first packets queued, in order; and all of them when
      everything has been written and has arrived. */
  lemma SenderReachesReader(x: XmitChannel, ps: seq<Packet>, es: seq<Event>)
    requires x.Valid() && SafeEscapes(x.needsEscape) && x.pushed == Frames(ps)
    requires QUIET.Valid() && RunEvents(QUIET, es).Fine? && Clean(QUIET, es)
    requires Arrived(es) <= x.wire
    ensures var c := RunEvents(QUIET, es).c;
            && Accepted(c.all, ps)
            && (x.buffers == [] && Arrived(es) == x.wire ==> |c.all| == |ps|)
            && c.freed <= |c.all| && RingEvents(RingOf(QUIET), es) == Some(RingOf(c))
  {
    hide RunEvents, AllEscaped, Arrived, Clean, Accepted, RingEvents;
    assert x.wire <= AllEscaped(x.needsEscape, x.pushed);
    if x.buffers == [] {
      assert x.wire + [] == x.wire;
    }
    PacketsArrive(x.needsEscape, ps, es);
    RingKeepsFrames(QUIET, es);
  }
}
