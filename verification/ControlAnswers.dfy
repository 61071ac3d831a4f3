/** What the option negotiation automaton puts on the wire, by the numbers of RFC 1661, and how
    its phases compare with the state table of section 4.1 there. */
module ControlAnswers {
  import opened Wrappers
  import opened Bytes
  import opened PppOptions
  import opened ControlAutomata
  import PppFrames

  // ----- Answers to a Configure-Request ----------------------------------------------

  /** The request that the layer sends of its own when a new Configure-Request comes while it
      is open. */
  function Anew(a: Automaton, id: byte, own: seq<byte>): seq<Packet>
  {
    if a.phase == Opened && a.lastRequest != Some(id) then [Packet(1, a.requestId, own)] else []
  }

  /** Code and data that a reply goes out with. */
  predicate Carries(reply: Reply, code: byte, data: seq<byte>)
  {
    match reply
    case AckReply(d) => code == 2 && data == d
    case NakReply(d) => code == 3 && data == d
    case RejReply(d) => code == 4 && data == d
    case _ => false
  }

  lemma RequestAnswered(layer: Layer, a: Automaton, p: Packet, own: seq<byte>, code: byte, data: seq<byte>)
    requires a.phase != Closed && p.code == 1 && OnPacket(layer, a, p, own).Done?
    requires Carries(ReplyTo(layer.survives, layer.judge, p.data), code, data)
    ensures OnPacket(layer, a, p, own).sent == [Packet(code, p.id, data)] + Anew(a, p.id, own)
  {
    hide ReplyTo;
    var answer := [Packet(code, p.id, data)];
    assert answer + [] == answer;
  }

  /** A request in which options that can be read are followed by one longer than what is left
      gets no answer. */
  lemma MalformedDropped(layer: Layer, a: Automaton, p: Packet, own: seq<byte>, opts: seq<seq<byte>>, rest: seq<byte>)
    requires a.phase != Closed && p.code == 1 && OnPacket(layer, a, p, own).Done?
    requires Stops(layer, p.data, opts, rest) && |rest| >= 2 && rest[1] > |rest|
    ensures OnPacket(layer, a, p, own).sent == Anew(a, p.id, own)
  {
    TilingIsParsed(layer.survives, [], opts, rest);
    assert [] + p.data == p.data;
    hide Parse;
    assert ReplyTo(layer.survives, layer.judge, p.data) == Silence;
    hide ReplyTo;
    assert [] + Anew(a, p.id, own) == Anew(a, p.id, own);
  }

  /** LCP, for every request that options tile: it is acknowledged (code 2) with identical data
      when all are acceptable, answered with a Nak (3) when all are negotiable but not all
      acceptable, and rejected (4) otherwise; under the request's identifier, and before any
      request of its own. */
  lemma LcpAnswers(a: Automaton, p: Packet, own: seq<byte>, opts: seq<seq<byte>>)
    requires a.phase != Closed && p.code == 1 && Tiling(opts, p.data) && OnPacket(Lcp(), a, p, own).Done?
    ensures var sent := OnPacket(Lcp(), a, p, own).sent;
            && |sent| > 0 && sent[1..] == Anew(a, p.id, own)
            && sent[0] == (if AllAcceptable(opts) then Packet(2, p.id, p.data)
                           else if AllNegotiable(opts) then Packet(3, p.id, Proposals(Unacceptable(opts)))
                           else Packet(4, p.id, Joined(Refused(opts))))
  {
    LcpReply(p.data, opts);
    assert AllAcceptable(opts) ==> AllNegotiable(opts);
    hide OnPacket, ReplyTo, Acceptable, Negotiable, Refused, Proposals;
    RequestAnswered(
      Lcp(), a, p, own,
      if AllAcceptable(opts) then 2 else if AllNegotiable(opts) then 3 else 4,
      if AllAcceptable(opts) then p.data else if AllNegotiable(opts) then Proposals(Unacceptable(opts))
      else Joined(Refused(opts)));
  }

  /** IPCP: it acknowledges addresses, and rejects everything else when there is something
      else. */
  lemma IpcpAnswers(a: Automaton, p: Packet, own: seq<byte>, opts: seq<seq<byte>>)
    requires a.phase != Closed && p.code == 1 && Joined(opts) == p.data && AllReadable(IpcpSurvives, opts)
    requires OnPacket(Ipcp(), a, p, own).Done?
    ensures var sent := OnPacket(Ipcp(), a, p, own).sent;
            && |sent| > 0 && sent[1..] == Anew(a, p.id, own)
            && sent[0] == (if AllAddresses(opts) then Packet(2, p.id, p.data)
                           else Packet(4, p.id, Joined(Others(opts))))
  {
    ParsesIffTiled(IpcpSurvives, p.data, opts);
    IpcpReadable(opts);
    IpcpJudges(opts);
    RejectsAreOthers(opts);
    hide OnPacket, Parse, IpcpVerdict, IpcpSurvives, Rejects, Others, AllAddresses, AnyReject, AnyNak;
    RequestAnswered(
      Ipcp(), a, p, own, if AllAddresses(opts) then 2 else 4, if AllAddresses(opts) then p.data else Joined(Others(opts)));
  }

  /** On the wire an Ack is the request's own bytes with another first one. */
  lemma AckIsEcho(p: Packet)
    requires p.code == 1
    ensures Encode(Packet(2, p.id, p.data)) == Encode(p)[0 := 2]
  {
  }

  /** Each layer's packets go out under its own protocol number. */
  lemma LayersAreNumbered(p: Packet)
    ensures var f := PppFrames.Framed(Lcp().protocol, PppFrames.Octets(Encode(p)));
            |f| == 12 + |p.data| && f[3] == 0xc0 && f[4] == 0x21 && f[5] == p.code as bv8
    ensures var f := PppFrames.Framed(Ipcp().protocol, PppFrames.Octets(Encode(p)));
            |f| == 12 + |p.data| && f[3] == 0x80 && f[4] == 0x21 && f[5] == p.code as bv8
  {
    var payload := PppFrames.Octets(Encode(p));
    assert payload[0] == p.code as bv8;
    hide PppFrames.ProtocolBytes, PppFrames.Framed, Encode, PppFrames.Octets;
    PppFrames.ProtocolByWeight(0xc021);
    NumberShows(0xc021, payload);
    NumberShows(0x8021, payload);
  }

  lemma NumberShows(proto: bv16, payload: seq<bv8>)
    requires |payload| > 0 && |PppFrames.ProtocolBytes(proto)| == 2
    ensures var f := PppFrames.Framed(proto, payload);
            |f| == 8 + |payload| && [f[3], f[4]] == PppFrames.ProtocolBytes(proto) && f[5] == payload[0]
  {
    PppFrames.FrameLayout(proto, payload);
    hide PppFrames.ProtocolBytes, PppFrames.Framed;
    var f := PppFrames.Framed(proto, payload);
    assert f[3..5] == [f[3], f[4]] && f[5] == f[5..5 + |payload|][0];
  }

  // ----- Answers to anything else ----------------------------------------------------

  /** The bytes of a packet of that code whose length field is right. */
  predicate WireOf(code: byte, bytes: seq<byte>)
  {
    |bytes| >= 4 && bytes[0] == code && (bytes[2] as int) * 256 + bytes[3] as int == |bytes|
  }

  /** An Echo-Request that fits a frame is answered by LCP, in every phase, with its own bytes
      as an Echo-Reply; IPCP ignores it. */
  lemma EchoAnswered(a: Automaton, bytes: seq<byte>, own: seq<byte>)
    requires WireOf(9, bytes) && |bytes| < 1500
    ensures var outcome := Step(Lcp(), a, Receive(bytes, own));
            outcome.Done? && outcome.next == a && |outcome.sent| == 1 && Encode(outcome.sent[0]) == bytes[0 := 10]
    ensures Step(Ipcp(), a, Receive(bytes, own)) == Done(a, [])
  {
    LengthByBytes(9, bytes);
    DecodesUnknown(bytes);
    hide Decode, Encode, WireOf;
    OneFramable(Packet(10, bytes[1], bytes[4..]));
  }

  lemma LengthByBytes(code: byte, bytes: seq<byte>)
    requires WireOf(code, bytes)
    ensures Encode(Packet(10, bytes[1], bytes[4..])) == bytes[0 := 10]
  {
    var p := Packet(10, bytes[1], bytes[4..]);
    Digits(bytes[2], bytes[3]);
    assert 4 + |p.data| == |bytes|;
  }

  lemma Digits(hi: byte, lo: byte)
    ensures var n := (hi as int) * 256 + lo as int;
            n % 0x1_0000 == n && n / 256 == hi && n % 256 == lo
  {
  }

  lemma DecodesUnknown(bytes: seq<byte>)
    requires WireOf(9, bytes)
    ensures Decode(bytes) == Unknown(9, bytes[1], bytes[4..])
  {
  }

  /** A closed layer answers every packet it can read with a Terminate-Ack of the same
      identifier, and stays closed; any other layer does so for a Terminate-Request. */
  lemma TerminateAnswered(layer: Layer, a: Automaton, bytes: seq<byte>, own: seq<byte>)
    requires exists code: byte :: 1 <= code <= 7 && WireOf(code, bytes) && (code == 5 || a.phase == Closed)
    ensures var outcome := Step(layer, a, Receive(bytes, own));
            && outcome.Done? && |outcome.sent| == 1 && Encode(outcome.sent[0]) == [6, bytes[1], 0, 4]
            && (outcome.next.phase == if a.phase == Opened || a.phase == Closed then Closed else ReqSent)
  {
    assert Decode(bytes).Read?;
  }

  /** An own Configure-Request goes out exactly on: a new request while open; an Ack that was
      not waited for; or a Nak whose options are all taken. */
  lemma RequestSentIff(layer: Layer, a: Automaton, p: Packet, own: seq<byte>)
    requires a.phase != Closed && OnPacket(layer, a, p, own).Done?
    ensures (exists i :: 0 <= i < |OnPacket(layer, a, p, own).sent| && OnPacket(layer, a, p, own).sent[i].code == 1)
            <==> || (p.code == 1 && a.phase == Opened && a.lastRequest != Some(p.id))
                 || (p.code == 2 && (a.phase == AckReceived || a.phase == Opened))
                 || (p.code == 3 && TakesNak(layer, p.data))
  {
    hide ReplyTo, Parse, AllFramable;
    var sent := OnPacket(layer, a, p, own).sent;
    assert |sent| > 0 ==> sent[|sent| - 1] in sent;
  }

  predicate TakesNak(layer: Layer, data: seq<byte>)
  {
    match Parse(layer.survives, data, 0)
    case Tiles(opts) => forall i :: 0 <= i < |opts| ==> layer.nakTaken(opts[i])
    case _ => false
  }

  /** Options of LCP that are known, by type and length. */
  predicate LcpKnows(raw: seq<byte>)
  {
    |raw| >= 2 &&
    match raw[0]
    case 1 => |raw| == 4
    case 2 => |raw| == 6
    case 3 => |raw| >= 6
    case 4 => |raw| >= 6
    case 5 => |raw| == 6
    case 7 => |raw| == 2
    case 8 => |raw| == 2
    case _ => false
  }

  /** LCP can go on after a Nak of nothing that it knows, IPCP after one of anything but a
      compression protocol. */
  lemma NakTakenByBytes(raw: seq<byte>)
    requires WellFormed(raw)
    ensures Lcp().nakTaken(raw) <==> !LcpKnows(raw)
    ensures Ipcp().nakTaken(raw) <==> raw[0] != 2 || |raw| < 6
  {
  }

  // ----- Numbering -------------------------------------------------------------------

  function Requests(sent: seq<Packet>): seq<byte>
  {
    if |sent| == 0 then []
    else (if sent[0].code == 1 then [sent[0].id] else []) + Requests(sent[1..])
  }

  lemma StepNumbers(layer: Layer, a: Automaton, event: Event)
    requires Step(layer, a, event).Done?
    ensures var outcome := Step(layer, a, event);
            || (Requests(outcome.sent) == [] && outcome.next.requestId == a.requestId)
            || (Requests(outcome.sent) == [a.requestId] && outcome.next.requestId == (a.requestId + 1) % 256)
  {
    hide ReplyTo, Parse, AllFramable, Decode;
    var sent := Step(layer, a, event).sent;
    assert |sent| <= 2;
    if |sent| == 1 {
      RequestsOfOne(sent[0]);
      assert sent == [sent[0]];
    } else if |sent| == 2 {
      RequestsOfOne(sent[1]);
      assert sent[1..] == [sent[1]] && sent[0].code != 1;
      assert Requests(sent) == [] + Requests([sent[1]]);
    }
  }

  lemma RequestsOfOne(p: Packet)
    ensures Requests([p]) == if p.code == 1 then [p.id] else []
  {
    assert [p][1..] == [];
  }

  /** The identifiers of the Configure-Requests sent in the first `n` events. */
  ghost function RequestIds(layer: Layer, states: seq<Automaton>, events: seq<Event>, n: nat): seq<byte>
    requires n <= |events| <= |states|
  {
    if n == 0 then []
    else
      var outcome := Step(layer, states[n - 1], events[n - 1]);
      RequestIds(layer, states, events, n - 1) + (if outcome.Done? then Requests(outcome.sent) else [])
  }

  /** Over every run the layer numbers its Configure-Requests 0, 1, 2 and so on, modulo 256. */
  lemma {:induction false} RequestsNumbered(layer: Layer, states: seq<Automaton>, events: seq<Event>, n: nat)
    requires Run(layer, states, events) && n <= |events|
    ensures var ids := RequestIds(layer, states, events, n);
            states[n].requestId == |ids| % 256 && Numbered(ids)
  {
    hide Step, Requests, Numbered;
    if n == 0 {
      NumberedNext([]);
    } else {
      RequestsNumbered(layer, states, events, n - 1);
      assert Leads(layer, states[n - 1], events[n - 1], states[n - 1 + 1]);
      StepNumbers(layer, states[n - 1], events[n - 1]);
      hide Run;
      var ids := RequestIds(layer, states, events, n - 1);
      NumberedNext(ids);
      assert ids + [] == ids;
    }
  }

  predicate Numbered(ids: seq<byte>)
  {
    forall i :: 0 <= i < |ids| ==> ids[i] == i % 256
  }

  lemma NumberedNext(ids: seq<byte>)
    ensures Numbered([])
    ensures Numbered(ids) ==> Numbered(ids + [|ids| % 256])
    ensures (|ids| % 256 + 1) % 256 == (|ids| + 1) % 256
  {
  }

  // ----- Repetitions -----------------------------------------------------------------

  /** The identifier of the last Configure-Request that came while the layer was not closed,
      unless the peer has terminated the open layer since. */
  ghost function LastHeard(states: seq<Automaton>, events: seq<Event>, n: nat): Option<byte>
    requires n <= |events| <= |states|
  {
    if n == 0 then None
    else
      var before, a, event := LastHeard(states, events, n - 1), states[n - 1], events[n - 1];
      if !event.Receive? || !Decode(event.bytes).Read? || a.phase == Closed then before
      else if event.bytes[0] == 1 then Some(event.bytes[1])
      else if event.bytes[0] == 5 && a.phase == Opened then None
      else before
  }

  lemma StepRemembers(layer: Layer, a: Automaton, event: Event)
    requires Step(layer, a, event).Done?
    ensures Step(layer, a, event).next.lastRequest
            == if !event.Receive? || !Decode(event.bytes).Read? || a.phase == Closed then a.lastRequest
               else if event.bytes[0] == 1 then Some(event.bytes[1])
               else if event.bytes[0] == 5 && a.phase == Opened then None
               else a.lastRequest
  {
    hide ReplyTo, Parse, AllFramable;
  }

  /** Over every run that is what a repetition is told by. */
  lemma {:induction false} RepetitionsAreTold(layer: Layer, states: seq<Automaton>, events: seq<Event>, n: nat)
    requires Run(layer, states, events) && n <= |events|
    ensures states[n].lastRequest == LastHeard(states, events, n)
  {
    hide Step, Decode;
    if n > 0 {
      RepetitionsAreTold(layer, states, events, n - 1);
      assert Leads(layer, states[n - 1], events[n - 1], states[n - 1 + 1]);
      StepRemembers(layer, states[n - 1], events[n - 1]);
    }
  }

  // ----- The state table -------------------------------------------------------------

  /** The events of section 4.3 of RFC 1661 that a packet can be: a good or a bad request, an
      Ack, a Nak or Reject, a Terminate-Request or its Ack; or none, for one that is to be
      silently discarded. */
  datatype Kind = RcrPlus | RcrMinus | Rca | Rcn | Rtr | Rta | Discarded

  function KindOf(layer: Layer, p: Packet): Kind
    requires 1 <= p.code <= 6
  {
    match p.code
    case 1 =>
      var reply := ReplyTo(layer.survives, layer.judge, p.data);
      if reply.AckReply? then RcrPlus else if reply.NakReply? || reply.RejReply? then RcrMinus else Discarded
    case 2 => Rca
    case 3 => Rcn
    case 4 => Rcn
    case 5 => Rtr
    case _ => Rta
  }

  /** The table for the four states between closed and open, with Stopping and the other
      unopened states taken for Closed. */
  function Rfc(phase: Phase, kind: Kind): Phase
  {
    match (phase, kind)
    case (Closed, _) => Closed
    case (ReqSent, RcrPlus) => AckSent
    case (ReqSent, Rca) => AckReceived
    case (ReqSent, _) => ReqSent
    case (AckReceived, RcrPlus) => Opened
    case (AckReceived, RcrMinus) => AckReceived
    case (AckReceived, Discarded) => AckReceived
    case (AckReceived, _) => ReqSent
    case (AckSent, RcrPlus) => AckSent
    case (AckSent, Rca) => Opened
    case (AckSent, Rcn) => AckSent
    case (AckSent, Rta) => AckSent
    case (AckSent, Discarded) => AckSent
    case (AckSent, _) => ReqSent
    case (Opened, RcrPlus) => AckSent
    case (Opened, Rtr) => Closed
    case (Opened, Discarded) => Opened
    case (Opened, _) => ReqSent
  }

  /** Where the code goes elsewhere: a repeated request does not take it out of the open phase;
      a malformed one, which is to be discarded, does take it back like a bad one; and a Nak, a
      Reject or a Terminate-Ack that was not waited for does not make it start again. */
  predicate Departs(a: Automaton, p: Packet, kind: Kind)
  {
    var repeated := a.phase == Opened && a.lastRequest == Some(p.id);
    match kind
    case RcrPlus => repeated
    case RcrMinus => repeated
    case Discarded => a.phase == AckSent || (a.phase == Opened && !repeated)
    case Rcn => a.phase == AckReceived || a.phase == Opened
    case Rta => a.phase == AckReceived || a.phase == Opened
    case _ => false
  }

  /** The next phase is the one in the table if and only if it is none of those cases. */
  lemma TableIff(layer: Layer, a: Automaton, p: Packet, own: seq<byte>)
    requires 1 <= p.code <= 6 && OnPacket(layer, a, p, own).Done?
    ensures OnPacket(layer, a, p, own).next.phase == Rfc(a.phase, KindOf(layer, p))
            <==> a.phase == Closed || !Departs(a, p, KindOf(layer, p))
  {
    hide ReplyTo, Parse, AllFramable;
  }
}
