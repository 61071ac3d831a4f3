/** The option negotiation automaton that LCP and IPCP share (section 4 of RFC 1661, with the
    six unopened states folded into one). */
module ControlAutomata {
  import opened Wrappers
  import opened Bytes
  import opened PppOptions
  import Fcs
  import PppFrames

  datatype Phase = Closed | ReqSent | AckReceived | AckSent | Opened

  datatype Automaton = Automaton(phase: Phase, requestId: byte, lastRequest: Option<byte>)

  /** What a control protocol brings: its number, which options its reader gets through, a
      verdict on each requested option, whether it can go on after a Nak that names an option,
      and whether it answers echo requests. */
  datatype Layer = Layer(
    protocol: bv16, survives: Survival, judge: Judgement, nakTaken: seq<byte> -> bool, echoes: bool)

  const PROTO_LCP: bv16 := 0xc021
  const PROTO_IPCP: bv16 := 0x8021

  /** Of an option in a Nak, one that cannot be read is passed over; of the others LCP takes
      none, and IPCP an address. */
  function Lcp(): Layer
  {
    Layer(PROTO_LCP, LcpSurvives, LcpVerdict, raw => !LcpRead(raw).Known?, true)
  }

  function Ipcp(): Layer
  {
    Layer(PROTO_IPCP, IpcpSurvives, IpcpVerdict,
          raw => !IpcpRead(raw).Known? || IpcpRead(raw).option.IpAddress?, false)
  }

  /** `own` are the options that the layer asks for at that moment. */
  datatype Event = Receive(bytes: seq<byte>, own: seq<byte>) | Open(own: seq<byte>) | Close

  datatype Outcome = Done(next: Automaton, sent: seq<Packet>) | Aborts | Loops

  const CONF_REQ: byte := 1
  const CONF_ACK: byte := 2
  const CONF_NAK: byte := 3
  const CONF_REJ: byte := 4
  const TERM_REQ: byte := 5
  const TERM_ACK: byte := 6
  const ECHO_REQ: byte := 9
  const ECHO_REPLY: byte := 10

  function New(): Automaton
  {
    Automaton(Closed, 0, None)
  }

  predicate AllFramable(ps: seq<Packet>)
  {
    forall i :: 0 <= i < |ps| ==> ps[i].Framable()
  }

  /** Sends the packets; building a frame for one that does not fit it ends the program. */
  function Sending(a: Automaton, ps: seq<Packet>): Outcome
  {
    if AllFramable(ps) then Done(a, ps) else Aborts
  }

  /** Into a phase with a Configure-Request of its own, after what else is sent. */
  function Requesting(a: Automaton, phase: Phase, before: seq<Packet>, own: seq<byte>): Outcome
  {
    Sending(a.(phase := phase, requestId := (a.requestId + 1) % 256), before + [Packet(CONF_REQ, a.requestId, own)])
  }

  function Answer(reply: Reply, id: byte): seq<Packet>
  {
    match reply
    case AckReply(data) => [Packet(CONF_ACK, id, data)]
    case NakReply(data) => [Packet(CONF_NAK, id, data)]
    case RejReply(data) => [Packet(CONF_REJ, id, data)]
    case _ => []
  }

  function OnRequest(layer: Layer, a: Automaton, p: Packet, own: seq<byte>): Outcome
  {
    var reply := ReplyTo(layer.survives, layer.judge, p.data);
    var acked, answer := reply.AckReply?, Answer(reply, p.id);
    var a' := a.(lastRequest := Some(p.id));
    if reply == Crash then Aborts
    else if acked && a.phase == ReqSent then Sending(a'.(phase := AckSent), answer)
    else if acked && a.phase == AckReceived then Sending(a'.(phase := Opened), answer)
    else if !acked && a.phase == AckSent then Sending(a'.(phase := ReqSent), answer)
    else if a.phase == Opened && a.lastRequest != Some(p.id) then
      Requesting(a', if acked then AckSent else ReqSent, answer, own)
    else Sending(a', answer)
  }

  function OnAck(a: Automaton, own: seq<byte>): Outcome
  {
    match a.phase
    case ReqSent => Done(a.(phase := AckReceived), [])
    case AckSent => Done(a.(phase := Opened), [])
    case _ => Requesting(a, ReqSent, [], own)
  }

  /** An option longer than what is left of a Nak is never passed, and the loop over the
      options never ends. */
  function OnNak(layer: Layer, a: Automaton, p: Packet, own: seq<byte>): Outcome
  {
    match Parse(layer.survives, p.data, 0)
    case Panics => Aborts
    case Malformed => Loops
    case Tiles(opts) =>
      if forall i :: 0 <= i < |opts| ==> layer.nakTaken(opts[i]) then Requesting(a, a.phase, [], own)
      else Done(a, [])
  }

  function OnTerminate(a: Automaton, id: byte): Outcome
  {
    var a' := if a.phase == Opened then a.(phase := Closed, lastRequest := None) else a.(phase := ReqSent);
    Done(a', [Packet(TERM_ACK, id, [])])
  }

  function OnPacket(layer: Layer, a: Automaton, p: Packet, own: seq<byte>): Outcome
  {
    if a.phase == Closed then Done(a, [Packet(TERM_ACK, p.id, [])])
    else if p.code == CONF_REQ then OnRequest(layer, a, p, own)
    else if p.code == CONF_ACK then OnAck(a, own)
    else if p.code == CONF_NAK then OnNak(layer, a, p, own)
    else if p.code == TERM_REQ then OnTerminate(a, p.id)
    else Done(a, [])
  }

  function Step(layer: Layer, a: Automaton, event: Event): Outcome
  {
    match event
    case Receive(bytes, own) =>
      (match Decode(bytes)
       case Read(p) => OnPacket(layer, a, p, own)
       case Unknown(code, id, rest) =>
         if layer.echoes && code == ECHO_REQ then Sending(a, [Packet(ECHO_REPLY, id, rest)]) else Done(a, [])
       case Dropped => Done(a, []))
    case Open(own) => if a.phase != Closed then Aborts else Requesting(a, ReqSent, [], own)
    case Close => Done(a.(phase := Closed), [])
  }

  // ----- The automaton as an object --------------------------------------------------

  function Encoded(ps: seq<Packet>): (r: seq<seq<byte>>)
    ensures |r| == |ps|
  {
    seq(|ps|, i requires 0 <= i < |ps| => Encode(ps[i]))
  }

  lemma EncodedSnoc(ps: seq<Packet>, p: Packet)
    ensures Encoded(ps + [p]) == Encoded(ps) + [Encode(p)]
  {
    hide Encode;
  }

  class ControlAutomaton {
    const layer: Layer
    var phase: Phase
    var requestId: byte
    var lastRequest: Option<byte>
    /** What has been given to the link to send. */
    var frames: seq<seq<Fcs.octet>>
    ghost var sent: seq<Packet>

    ghost predicate Valid()
      reads this
    {
      frames == PppFrames.FramesOf(layer.protocol, Encoded(sent))
    }

    constructor (layer: Layer)
      ensures this.layer == layer && Valid() && Value() == New() && sent == []
    {
      this.layer := layer;
      phase, requestId, lastRequest, frames, sent := Closed, 0, None, [], [];
    }

    function Value(): Automaton
      reads this
    {
      Automaton(phase, requestId, lastRequest)
    }

    /** Builds the packet's frame and hands it to the link; `false` is the panic of a packet
        that does not fit one. */
    method Send(p: Packet) returns (ok: bool)
      requires Valid()
      modifies this`frames, this`sent
      ensures Valid() && (ok <==> p.Framable())
      ensures sent == if ok then old(sent) + [p] else old(sent)
    {
      hide PppFrames.Framed, PppFrames.FramesOf, Encoded;
      var frame := PppFrames.BuildFrame(layer.protocol, PppFrames.Octets(Encode(p)));
      ok := frame.Some?;
      if ok {
        EncodedSnoc(sent, p);
        PppFrames.FramesOfSnoc(layer.protocol, Encoded(sent), Encode(p));
        frames := frames + [frame.value.bytes[..frame.value.len]];
        sent := sent + [p];
      }
    }

    method SendConfigureRequest(own: seq<byte>) returns (ok: bool)
      requires Valid()
      modifies this
      ensures Valid()
      ensures var p := Packet(CONF_REQ, old(requestId), own);
              && (ok <==> p.Framable())
              && (ok ==> Value() == old(Value()).(requestId := (old(requestId) + 1) % 256) && sent == old(sent) + [p])
    {
      var id := requestId;
      requestId := (requestId + 1) % 256;
      ok := Send(Packet(CONF_REQ, id, own));
    }

    method OpenLayer(own: seq<byte>) returns (ok: bool)
      requires phase == Closed
      requires Valid()
      modifies this
      ensures Valid()
      ensures var outcome := Step(layer, old(Value()), Open(own));
              && (ok <==> outcome.Done?)
              && (ok ==> Value() == outcome.next && sent == old(sent) + outcome.sent)
    {
      ghost var p := Packet(CONF_REQ, requestId, own);
      assert [] + [p] == [p];
      assert AllFramable([p]) <==> p.Framable() by { assert [p][0] == p; }
      phase := ReqSent;
      ok := SendConfigureRequest(own);
    }

    method CloseLayer()
      requires Valid()
      modifies this
      ensures Valid()
      ensures Step(layer, old(Value()), Close) == Done(Value(), []) && sent == old(sent)
    {
      phase := Closed;
    }

    /** `ok` is false when the call does not come back. */
    method Received(bytes: seq<byte>, own: seq<byte>) returns (ok: bool)
      requires Valid()
      modifies this
      ensures Valid()
      ensures var outcome := Step(layer, old(Value()), Receive(bytes, own));
              && ok == outcome.Done?
              && (ok ==> Value() == outcome.next && sent == old(sent) + outcome.sent)
    {
      hide Encoded, PppFrames.FramesOf, ReplyTo, Parse;
      ok := true;
      var decoded := Decode(bytes);
      match decoded {
        case Dropped =>
          assert sent + [] == sent;
        case Unknown(code, id, rest) =>
          assert sent + [] == sent;
          if layer.echoes && code == ECHO_REQ {
            OneFramable(Packet(ECHO_REPLY, id, rest));
            ok := Send(Packet(ECHO_REPLY, id, rest));
          }
        case Read(p) =>
          ok := ReceivedPacket(p, own);
      }
    }

    method ReceivedPacket(p: Packet, own: seq<byte>) returns (ok: bool)
      requires Valid()
      modifies this
      ensures Valid()
      ensures var outcome := OnPacket(layer, old(Value()), p, own);
              && ok == outcome.Done?
              && (ok ==> Value() == outcome.next && sent == old(sent) + outcome.sent)
    {
      hide Encoded, PppFrames.FramesOf, ReplyTo, Parse, OnRequest;
      ok := true;
      ghost var request := Packet(CONF_REQ, requestId, own);
      assert [] + [request] == [request] && sent + [] == sent;
      OneFramable(request);
      if phase == Closed {
        ok := Send(Packet(TERM_ACK, p.id, []));
      } else if p.code == CONF_REQ {
        ok := ReceivedRequest(p, own);
      } else if p.code == CONF_ACK {
        if phase == ReqSent {
          phase := AckReceived;
        } else if phase == AckSent {
          phase := Opened;
        } else {
          phase := ReqSent;
          ok := SendConfigureRequest(own);
        }
      } else if p.code == TERM_REQ {
        ok := Send(Packet(TERM_ACK, p.id, []));
        if phase == Opened {
          phase := Closed;
          lastRequest := None;
        } else {
          phase := ReqSent;
        }
      } else if p.code == CONF_NAK {
        var parsed := Collect(layer.survives, p.data);
        if !parsed.Tiles? {
          return false;
        }
        if forall i :: 0 <= i < |parsed.opts| ==> layer.nakTaken(parsed.opts[i]) {
          ok := SendConfigureRequest(own);
        }
      }
    }

    method ReceivedRequest(p: Packet, own: seq<byte>) returns (ok: bool)
      requires Valid()
      modifies this
      ensures Valid()
      ensures var outcome := OnRequest(layer, old(Value()), p, own);
              && ok == outcome.Done?
              && (ok ==> Value() == outcome.next && sent == old(sent) + outcome.sent)
    {
      hide Encoded, PppFrames.FramesOf, ReplyTo;
      ghost var request := Packet(CONF_REQ, requestId, own);
      var reply := ReplyTo(layer.survives, layer.judge, p.data);
      if reply == Crash {
        return false;
      }
      ok := true;
      ghost var answer := Answer(reply, p.id);
      AnswersFramable(answer, request);
      if |Answer(reply, p.id)| > 0 {
        ok := Send(Answer(reply, p.id)[0]);
        assert Answer(reply, p.id) == [Answer(reply, p.id)[0]];
      } else {
        assert sent + answer == sent;
      }
      if !ok {
        return;
      }
      ghost var between := sent;
      var acked, was := reply.AckReply?, phase;
      if acked && was == ReqSent {
        phase := AckSent;
      } else if acked && was == AckReceived {
        phase := Opened;
      } else if !acked && was == AckSent {
        phase := ReqSent;
      } else if was == Opened && lastRequest != Some(p.id) {
        phase := if acked then AckSent else ReqSent;
        ok := SendConfigureRequest(own);
        Assoc(old(sent), answer, [request]);
      }
      lastRequest := Some(p.id);
    }
  }

  lemma OneFramable(p: Packet)
    ensures AllFramable([p]) <==> p.Framable()
  {
    assert [p][0] == p;
  }

  lemma AnswersFramable(answer: seq<Packet>, request: Packet)
    requires |answer| <= 1
    ensures AllFramable(answer) <==> (|answer| > 0 ==> answer[0].Framable())
    ensures AllFramable(answer + [request]) <==> AllFramable(answer) && request.Framable()
  {
    assert (answer + [request])[|answer|] == request;
    assert |answer| > 0 ==> (answer + [request])[0] == answer[0];
  }

  // ----- Runs ------------------------------------------------------------------------

  predicate IsAck(p: Packet)
  {
    p.code == CONF_ACK
  }

  /** The event makes the automaton send a Configure-Ack. */
  predicate SendsAck(layer: Layer, a: Automaton, event: Event)
  {
    var outcome := Step(layer, a, event);
    outcome.Done? && |outcome.sent| > 0 && IsAck(outcome.sent[0])
  }

  /** The event is the arrival of a Configure-Ack. */
  predicate GetsAck(event: Event)
  {
    event.Receive? && Decode(event.bytes).Read? && IsAck(Decode(event.bytes).packet)
  }

  ghost predicate Run(layer: Layer, states: seq<Automaton>, events: seq<Event>)
  {
    && |states| == |events| + 1
    && states[0] == New()
    && forall i :: 0 <= i < |events| ==> Leads(layer, states[i], events[i], states[i + 1])
  }

  predicate Leads(layer: Layer, a: Automaton, event: Event, b: Automaton)
  {
    Step(layer, a, event).Done? && Step(layer, a, event).next == b
  }

  /** Every way into the three phases with an Ack behind them. */
  lemma WaysIn(layer: Layer, a: Automaton, event: Event, b: Automaton)
    requires Leads(layer, a, event, b) && a.phase != b.phase
    ensures b.phase == AckSent ==> SendsAck(layer, a, event)
    ensures b.phase == AckReceived ==> GetsAck(event)
    ensures b.phase == Opened ==>
              || (a.phase == AckReceived && SendsAck(layer, a, event))
              || (a.phase == AckSent && GetsAck(event))
  {
    hide Decode, ReplyTo, Parse;
  }

  /** What makes an open layer leave the open phase. */
  predicate Leaving(a: Automaton, bytes: seq<byte>)
  {
    match Decode(bytes)
    case Read(p) =>
      p.code == TERM_REQ || p.code == CONF_ACK || (p.code == CONF_REQ && a.lastRequest != Some(p.id))
    case _ => false
  }

  /** What completes a handshake. */
  predicate Completes(layer: Layer, a: Automaton, event: Event)
  {
    (a.phase == AckReceived && SendsAck(layer, a, event)) || (a.phase == AckSent && GetsAck(event))
  }

  /** An open layer is left exactly on a Terminate-Request, a Configure-Ack, or a
      Configure-Request that is not a repetition; and one that is not open is opened exactly by
      the second Ack of a handshake. */
  lemma LeavesAndOpensIff(layer: Layer, a: Automaton, event: Event, b: Automaton)
    requires Leads(layer, a, event, b) && event.Receive?
    ensures a.phase == Opened ==> (b.phase != Opened <==> Leaving(a, event.bytes))
    ensures a.phase != Opened ==> (b.phase == Opened <==> Completes(layer, a, event))
  {
    hide ReplyTo, Parse;
  }

  ghost predicate During(states: seq<Automaton>, from: int, to: int, phase: Phase)
  {
    forall m :: from <= m < to && 0 <= m < |states| ==> states[m].phase == phase
  }

  lemma {:induction false} SinceAckSent(layer: Layer, states: seq<Automaton>, events: seq<Event>, i: nat) returns (j: nat)
    requires Run(layer, states, events) && i < |states| && states[i].phase == AckSent
    ensures j < i && SendsAck(layer, states[j], events[j]) && During(states, j + 1, i + 1, AckSent)
  {
    hide Step, SendsAck;
    var prev := states[i - 1];
    assert Leads(layer, states[i - 1], events[i - 1], states[i - 1 + 1]);
    if prev.phase == AckSent {
      j := SinceAckSent(layer, states, events, i - 1);
    } else {
      WaysIn(layer, prev, events[i - 1], states[i]);
      j := i - 1;
    }
  }

  lemma {:induction false} SinceAckReceived(layer: Layer, states: seq<Automaton>, events: seq<Event>, i: nat) returns (k: nat)
    requires Run(layer, states, events) && i < |states| && states[i].phase == AckReceived
    ensures k < i && GetsAck(events[k]) && During(states, k + 1, i + 1, AckReceived)
  {
    hide Step, SendsAck, GetsAck;
    var prev := states[i - 1];
    assert Leads(layer, states[i - 1], events[i - 1], states[i - 1 + 1]);
    if prev.phase == AckReceived {
      k := SinceAckReceived(layer, states, events, i - 1);
    } else {
      WaysIn(layer, prev, events[i - 1], states[i]);
      k := i - 1;
    }
  }

  /** Step `j` sent a Configure-Ack and at step `k` one arrived; from the first of the two to
      the second the layer was only waiting for the second, and from the second on it has been
      open up to state `i`. */
  ghost predicate BothAcked(layer: Layer, states: seq<Automaton>, events: seq<Event>, i: nat, j: nat, k: nat)
  {
    && |states| == |events| + 1 && i < |states| && j < i && k < i && j != k
    && SendsAck(layer, states[j], events[j]) && GetsAck(events[k])
    && if j < k then During(states, j + 1, k + 1, AckSent) && During(states, k + 1, i + 1, Opened)
       else During(states, k + 1, j + 1, AckReceived) && During(states, j + 1, i + 1, Opened)
  }

  /** Over every run: when the layer is open, a Configure-Ack has been sent and one received
      since it was last closed, requesting, or open before. */
  lemma {:induction false} OpenedMeansBothAcked(
      layer: Layer, states: seq<Automaton>, events: seq<Event>, i: nat) returns (j: nat, k: nat)
    requires Run(layer, states, events) && i < |states| && states[i].phase == Opened
    ensures BothAcked(layer, states, events, i, j, k)
  {
    hide Step, SendsAck, GetsAck;
    var prev, event := states[i - 1], events[i - 1];
    assert Leads(layer, states[i - 1], events[i - 1], states[i - 1 + 1]);
    if prev.phase == Opened {
      j, k := OpenedMeansBothAcked(layer, states, events, i - 1);
    } else {
      WaysIn(layer, prev, event, states[i]);
      if prev.phase == AckReceived {
        k := SinceAckReceived(layer, states, events, i - 1);
        j := i - 1;
      } else {
        j := SinceAckSent(layer, states, events, i - 1);
        k := i - 1;
      }
    }
  }

  /** The data is options that can be read, and then something that begins with none. */
  ghost predicate Stops(layer: Layer, data: seq<byte>, opts: seq<seq<byte>>, rest: seq<byte>)
  {
    AllReadable(layer.survives, opts) && NoOption(layer.survives, rest) && data == Joined(opts) + rest
  }

  /** The loop over a Nak's options never ends exactly when options that can be read are
      followed by one that is longer than what is left. */
  lemma NakLoopsIff(layer: Layer, a: Automaton, p: Packet, own: seq<byte>) returns (opts: seq<seq<byte>>, rest: seq<byte>)
    requires a.phase != Closed && p.code == CONF_NAK
    ensures Stops(layer, p.data, opts, rest)
    ensures OnPacket(layer, a, p, own) == Loops <==> |rest| >= 2 && rest[1] > |rest|
  {
    opts, rest := IterationEnds(layer.survives, p.data);
    hide Parse, AllReadable, Joined, NoOption;
  }

  /** The layer's own request has a payload as long as the MRU. */
  predicate OwnTooLong(own: seq<byte>)
  {
    4 + |own| >= MRU
  }

  /** Reading on from here panics: a lone byte, a length byte below two, or an option that the
      reader does not survive. */
  predicate Unread(rest: seq<byte>)
  {
    |rest| == 1 || (|rest| >= 2 && rest[1] <= |rest|)
  }

  /** How much data the reply to these options holds. */
  function AnswerLength(judge: Judgement, data: seq<byte>, opts: seq<seq<byte>>): nat
  {
    if AnyReject(judge, opts) then |Rejects(judge, opts)|
    else if AnyNak(judge, opts) then |Naks(judge, opts)|
    else |data|
  }

  predicate RequestAborts(
      layer: Layer, a: Automaton, p: Packet, own: seq<byte>, opts: seq<seq<byte>>, rest: seq<byte>)
  {
    || Unread(rest)
    || (rest == [] && 4 + AnswerLength(layer.judge, p.data, opts) >= MRU)
    || (a.phase == Opened && a.lastRequest != Some(p.id) && OwnTooLong(own))
  }

  predicate NakAborts(layer: Layer, own: seq<byte>, opts: seq<seq<byte>>, rest: seq<byte>)
  {
    || Unread(rest)
    || (rest == [] && OwnTooLong(own) && forall i :: 0 <= i < |opts| ==> layer.nakTaken(opts[i]))
  }

  /** Every way a packet can end the program, for every layer: the options that can be read are
      followed by something that cannot, or a frame to be built for an answer has a payload as
      long as the MRU. */
  lemma AbortsIff(layer: Layer, a: Automaton, p: Packet, own: seq<byte>) returns (opts: seq<seq<byte>>, rest: seq<byte>)
    requires a.phase != Closed
    ensures Stops(layer, p.data, opts, rest)
    ensures OnPacket(layer, a, p, own) == Aborts <==>
              || (p.code == CONF_REQ && RequestAborts(layer, a, p, own, opts, rest))
              || (p.code == CONF_ACK && (a.phase == AckReceived || a.phase == Opened) && OwnTooLong(own))
              || (p.code == CONF_NAK && NakAborts(layer, own, opts, rest))
  {
    opts, rest := IterationEnds(layer.survives, p.data);
    hide Parse, EndOn, OnRequest, OnAck, OnNak, RequestAborts, NakAborts;
    RequestAbortsIff(layer, a, p, own, opts, rest);
    AckAbortsIff(a, own);
    NakAbortsIff(layer, a, p, own, opts, rest);
  }

  lemma RequestingAbortsIff(a: Automaton, phase: Phase, own: seq<byte>)
    ensures Requesting(a, phase, [], own) == Aborts <==> OwnTooLong(own)
    ensures !Requesting(a, phase, [], own).Loops?
  {
    var request := Packet(CONF_REQ, a.requestId, own);
    assert [] + [request] == [request];
    OneFramable(request);
  }

  lemma RequestAbortsIff(
      layer: Layer, a: Automaton, p: Packet, own: seq<byte>, opts: seq<seq<byte>>, rest: seq<byte>)
    requires NoOption(layer.survives, rest) && Parse(layer.survives, p.data, 0) == EndOn(opts, rest)
    ensures OnRequest(layer, a, p, own) == Aborts <==> RequestAborts(layer, a, p, own, opts, rest)
  {
    var reply := ReplyTo(layer.survives, layer.judge, p.data);
    assert reply == Crash <==> Unread(rest);
    assert reply == Silence <==> !Unread(rest) && rest != [];
    assert rest == [] ==> |reply.data| == AnswerLength(layer.judge, p.data, opts);
    hide ReplyTo, Parse, EndOn, NoOption, Unread, AnswerLength;
    AnswersFramable(Answer(reply, p.id), Packet(CONF_REQ, a.requestId, own));
    hide AllFramable;
  }

  lemma AckAbortsIff(a: Automaton, own: seq<byte>)
    requires a.phase != Closed
    ensures OnAck(a, own) == Aborts <==> (a.phase == AckReceived || a.phase == Opened) && OwnTooLong(own)
  {
    hide Requesting;
    RequestingAbortsIff(a, ReqSent, own);
  }

  lemma NakAbortsIff(
      layer: Layer, a: Automaton, p: Packet, own: seq<byte>, opts: seq<seq<byte>>, rest: seq<byte>)
    requires NoOption(layer.survives, rest) && Parse(layer.survives, p.data, 0) == EndOn(opts, rest)
    ensures OnNak(layer, a, p, own) == Aborts <==> NakAborts(layer, own, opts, rest)
  {
    hide Requesting, Parse;
    RequestingAbortsIff(a, a.phase, own);
  }

  // ----- The two layers --------------------------------------------------------------

  /** What LCP asks for: a magic number and a character map, both zero. */
  function LcpOwn(): seq<byte>
  {
    [5, 6, 0, 0, 0, 0, 2, 6, 0, 0, 0, 0]
  }

  /** What IPCP asks for. */
  function IpcpOwn(address: seq<byte>): seq<byte>
  {
    [3, 6] + address
  }

  /** Neither answers with more than it was asked. */
  lemma LcpAnswersShort(data: seq<byte>, opts: seq<seq<byte>>)
    requires Tiling(opts, data)
    ensures AnswerLength(LcpVerdict, data, opts) <= |data|
  {
    LcpReply(data, opts);
    LcpSurvivesAll(opts);
    ParsesIffTiled(LcpSurvives, data, opts);
    hide Parse, Rejects, Naks, LcpVerdict, LcpSurvives, AnyReject, AnyNak;
  }

  lemma IpcpAnswersShort(data: seq<byte>, opts: seq<seq<byte>>)
    requires Tiling(opts, data)
    ensures AnswerLength(IpcpVerdict, data, opts) <= |data|
  {
    RejectsAreOthers(opts);
    IpcpJudges(opts);
    hide Rejects, Naks, IpcpVerdict, AnyReject, AnyNak;
  }

  /** With the options that LCP asks for and a packet that fits a frame itself, the packet ends
      the program exactly when it is a request or a Nak in which well-formed options are
      followed by a lone byte or a length byte below two. */
  lemma LcpAbortsIff(a: Automaton, p: Packet) returns (opts: seq<seq<byte>>, rest: seq<byte>)
    requires a.phase != Closed && p.Framable()
    ensures AllWellFormed(opts) && p.data == Joined(opts) + rest
    ensures rest == [] || |rest| == 1 || rest[1] < 2 || rest[1] > |rest|
    ensures OnPacket(Lcp(), a, p, LcpOwn()) == Aborts
            <==> (p.code == CONF_REQ || p.code == CONF_NAK) && rest != [] && (|rest| == 1 || rest[1] < 2)
  {
    opts, rest := AbortsIff(Lcp(), a, p, LcpOwn());
    LcpSurvivesAll(opts);
    if |rest| >= 2 && rest[1] <= |rest| && rest[1] >= 2 {
      LcpSurvivesOne(rest[..rest[1]]);
      assert false;
    }
    if rest == [] {
      assert Joined(opts) + rest == Joined(opts);
      LcpAnswersShort(p.data, opts);
    }
    hide OnPacket, AnswerLength, AllReadable, AllWellFormed, Joined, LcpSurvives, LcpVerdict;
  }

  lemma LcpSurvivesOne(raw: seq<byte>)
    ensures LcpSurvives(raw)
  {
  }

  /** IPCP with any address: the same, or a short compression protocol. */
  lemma IpcpAbortsIff(a: Automaton, p: Packet, address: seq<byte>) returns (opts: seq<seq<byte>>, rest: seq<byte>)
    requires a.phase != Closed && p.Framable() && |address| == 4
    ensures AllReadable(IpcpSurvives, opts) && p.data == Joined(opts) + rest
    ensures rest == [] || |rest| == 1 || rest[1] < 2 || rest[1] > |rest| || ShortCompression(rest[..rest[1]])
    ensures OnPacket(Ipcp(), a, p, IpcpOwn(address)) == Aborts
            <==> && (p.code == CONF_REQ || p.code == CONF_NAK) && rest != []
                 && (|rest| == 1 || rest[1] < 2 || (rest[1] <= |rest| && ShortCompression(rest[..rest[1]])))
  {
    opts, rest := AbortsIff(Ipcp(), a, p, IpcpOwn(address));
    IpcpReadable(opts);
    if |rest| >= 2 && 2 <= rest[1] <= |rest| {
      assert WellFormed(rest[..rest[1]]);
      IpcpByBytes(rest[..rest[1]]);
    }
    if rest == [] {
      assert Joined(opts) + rest == Joined(opts);
      IpcpAnswersShort(p.data, opts);
    }
    hide OnPacket, AnswerLength, AllReadable, AllWellFormed, Joined, IpcpSurvives, IpcpVerdict, ShortCompression;
  }

  /** IPCP has a way to abort that LCP has not: readable options, then a compression protocol
      of less than four bytes of data, whatever comes after it, in a request or a Nak. LCP reads
      on from there. */
  lemma ShortCompressionAborts(a: Automaton, p: Packet, own: seq<byte>, opts: seq<seq<byte>>, raw: seq<byte>, tail: seq<byte>)
    requires a.phase != Closed && (p.code == CONF_REQ || p.code == CONF_NAK)
    requires AllReadable(IpcpSurvives, opts) && WellFormed(raw) && ShortCompression(raw)
    requires p.data == Joined(opts) + (raw + tail)
    ensures OnPacket(Ipcp(), a, p, own) == Aborts
    ensures AllReadable(LcpSurvives, opts) && !NoOption(LcpSurvives, raw + tail)
  {
    var rest := raw + tail;
    assert rest[1] == raw[1] && rest[..rest[1]] == raw;
    IpcpByBytes(raw);
    LcpSurvivesAll(opts);
    TilingIsParsed(IpcpSurvives, [], opts, rest);
    assert [] + p.data == p.data;
    hide Parse, AllReadable, Joined, IpcpVerdict, IpcpSurvives, LcpSurvives;
  }

  /** A layer that is opened comes up: an acceptable Configure-Request whose Ack fits a frame,
      and a Configure-Ack, in either order, leave it open; one whose Ack does not fit ends the
      program. */
  lemma HandshakeOpens(layer: Layer, a: Automaton, request: Packet, ack: Packet, own: seq<byte>)
    requires a.phase == ReqSent && request.code == CONF_REQ && ack.code == CONF_ACK
    requires ReplyTo(layer.survives, layer.judge, request.data).AckReply?
    ensures var first := OnPacket(layer, a, request, own);
            && (first.Done? <==> 4 + |request.data| < MRU) && (!first.Done? ==> first == Aborts)
            && (first.Done? ==> OnPacket(layer, first.next, ack, own).Done?
                                && OnPacket(layer, first.next, ack, own).next.phase == Opened)
    ensures var first := OnPacket(layer, a, ack, own);
            && first.Done?
            && var second := OnPacket(layer, first.next, request, own);
               (second.Done? <==> 4 + |request.data| < MRU) && (second.Done? ==> second.next.phase == Opened)
  {
    hide Parse, AnyReject, AnyNak;
    AnswersFramable(Answer(ReplyTo(layer.survives, layer.judge, request.data), request.id), request);
  }
}
