/** The network loop's gate: IP packets pass only while the control layers are open. */
module PppGate {
  import opened Wrappers
  import opened Bytes
  import opened PppOptions
  import opened ControlAutomata
  import Fcs
  import PppFrames

  const PROTO_IP: bv16 := 0x0021

  /** The two layers, the packets waiting to go out and those that came in. The events that
      each layer has seen are kept beside them; nothing looks at those. */
  datatype Gate = Gate(
    lcp: Automaton, ipcp: Automaton, waiting: seq<seq<byte>>, delivered: seq<seq<byte>>,
    lcpLog: seq<Event>, ipcpLog: seq<Event>)

  datatype Layers = Layers(lcp: Layer, ipcp: Layer)

  /** One turn of the loop: it polls because no frame has arrived, takes a frame, or is given
      a packet by the IP stack. */
  datatype Turn =
    | Poll(lcpOwn: seq<byte>, ipcpOwn: seq<byte>)
    | Frame(protocol: bv16, packet: seq<byte>, own: seq<byte>)
    | SendIp(ip: seq<byte>)

  datatype Turned = Turned(next: Gate, transmitted: seq<seq<byte>>) | Stopped

  function Start(): Gate
  {
    Gate(New(), New(), [], [], [], [])
  }

  function LcpStep(layers: Layers, g: Gate, event: Event): Option<Gate>
  {
    match Step(layers.lcp, g.lcp, event)
    case Done(a, _) => Some(g.(lcp := a, lcpLog := g.lcpLog + [event]))
    case _ => None
  }

  function IpcpStep(layers: Layers, g: Gate, event: Event): Option<Gate>
  {
    match Step(layers.ipcp, g.ipcp, event)
    case Done(a, _) => Some(g.(ipcp := a, ipcpLog := g.ipcpLog + [event]))
    case _ => None
  }

  /** LCP is opened if it is closed. */
  function LcpPolled(layers: Layers, g: Gate, own: seq<byte>): Option<Gate>
  {
    if g.lcp.phase == Closed then LcpStep(layers, g, Open(own)) else Some(g)
  }

  /** IPCP is closed when LCP is not open, and opened when it is. */
  function IpcpPolled(layers: Layers, g: Gate, own: seq<byte>): Option<Gate>
  {
    if g.lcp.phase != Opened && g.ipcp.phase != Closed then IpcpStep(layers, g, Close)
    else if g.lcp.phase == Opened && g.ipcp.phase == Closed then IpcpStep(layers, g, Open(own))
    else Some(g)
  }

  /** Every packet fits a frame: its payload must be shorter than the MRU. */
  predicate AllShort(packets: seq<seq<byte>>)
  {
    forall i :: 0 <= i < |packets| ==> |packets[i]| < MRU
  }

  /** A waiting packet as long as the MRU ends the program when it comes to be framed. */
  function Polled(layers: Layers, g: Gate, lcpOwn: seq<byte>, ipcpOwn: seq<byte>): Turned
  {
    match LcpPolled(layers, g, lcpOwn)
    case None => Stopped
    case Some(g1) =>
      match IpcpPolled(layers, g1, ipcpOwn)
      case None => Stopped
      case Some(g2) =>
        if g2.ipcp.phase != Opened then Turned(g2, [])
        else if AllShort(g2.waiting) then Turned(g2.(waiting := []), g2.waiting)
        else Stopped
  }

  function Landed(g: Option<Gate>): Turned
  {
    match g case None => Stopped case Some(g') => Turned(g', [])
  }

  function Take(layers: Layers, g: Gate, turn: Turn): Turned
  {
    match turn
    case Poll(lcpOwn, ipcpOwn) => Polled(layers, g, lcpOwn, ipcpOwn)
    case Frame(protocol, packet, own) =>
      if protocol == PROTO_LCP then Landed(LcpStep(layers, g, Receive(packet, own)))
      else if protocol == PROTO_IPCP && g.lcp.phase == Opened then
        Landed(IpcpStep(layers, g, Receive(packet, own)))
      else if protocol == PROTO_IP && g.ipcp.phase == Opened then
        Turned(g.(delivered := g.delivered + [packet]), [])
      else if g.lcp.phase == Opened && 6 + |packet| >= MRU then Stopped // no frame for the Protocol-Reject
      else Turned(g, [])
    case SendIp(ip) => Turned(g.(waiting := g.waiting + [ip]), [])
  }

  /** Exactly when a poll ends the program: a layer that is to be opened asks for options as
      long as a frame, or, with both layers open, a packet as long as the MRU waits. */
  lemma PollStopsIff(layers: Layers, g: Gate, lcpOwn: seq<byte>, ipcpOwn: seq<byte>)
    ensures Polled(layers, g, lcpOwn, ipcpOwn) == Stopped <==>
              || (g.lcp.phase == Closed && OwnTooLong(lcpOwn))
              || (g.lcp.phase == Opened && g.ipcp.phase == Closed && OwnTooLong(ipcpOwn))
              || (g.lcp.phase == Opened && g.ipcp.phase == Opened && !AllShort(g.waiting))
  {
    hide AllShort, OwnTooLong;
    RequestingAbortsIff(g.lcp, ReqSent, lcpOwn);
    RequestingAbortsIff(g.ipcp, ReqSent, ipcpOwn);
  }

  // ----- The gate as an object -------------------------------------------------------

  class PppInner {
    const lcp: ControlAutomaton
    const ipcp: ControlAutomaton
    var waiting: seq<seq<byte>>
    var delivered: seq<seq<byte>>
    /** What has been given to the link to send. */
    var frames: seq<seq<Fcs.octet>>
    ghost var transmitted: seq<seq<byte>>
    ghost var lcpLog: seq<Event>
    ghost var ipcpLog: seq<Event>

    ghost predicate Valid()
      reads this, lcp, ipcp
    {
      && lcp != ipcp && lcp.Valid() && ipcp.Valid()
      && frames == PppFrames.FramesOf(PROTO_IP, transmitted)
    }

    constructor (layers: Layers)
      ensures Valid() && fresh(lcp) && fresh(ipcp) && Under() == layers
      ensures Value() == Start() && transmitted == []
    {
      lcp := new ControlAutomaton(layers.lcp);
      ipcp := new ControlAutomaton(layers.ipcp);
      waiting, delivered, frames, transmitted, lcpLog, ipcpLog := [], [], [], [], [], [];
    }

    ghost function Value(): Gate
      reads this, lcp, ipcp
    {
      Gate(lcp.Value(), ipcp.Value(), waiting, delivered, lcpLog, ipcpLog)
    }

    ghost function Under(): Layers
    {
      Layers(lcp.layer, ipcp.layer)
    }

    /** `ok` is false when the poll ends the program. */
    method PollOnce(lcpOwn: seq<byte>, ipcpOwn: seq<byte>) returns (ok: bool)
      requires Valid()
      modifies this, lcp, ipcp
      ensures Valid()
      ensures var turned := Take(Under(), old(Value()), Poll(lcpOwn, ipcpOwn));
              && (ok <==> turned.Turned?)
              && (ok ==> Value() == turned.next && transmitted == old(transmitted) + turned.transmitted)
    {
      hide AllShort, Step, PppFrames.FramesOf, Encoded;
      ok := true;
      if lcp.phase == Closed {
        ok := lcp.OpenLayer(lcpOwn);
        lcpLog := lcpLog + [Open(lcpOwn)];
        if !ok {
          return;
        }
      }
      if lcp.phase != Opened && ipcp.phase != Closed {
        ipcp.CloseLayer();
        ipcpLog := ipcpLog + [Close];
      }
      if lcp.phase == Opened && ipcp.phase == Closed {
        ok := ipcp.OpenLayer(ipcpOwn);
        ipcpLog := ipcpLog + [Open(ipcpOwn)];
        if !ok {
          return;
        }
      }
      if ipcp.phase == Opened {
        ok := Transmit();
      } else {
        assert transmitted + [] == transmitted;
      }
    }

    /** Frames and sends what waits, as far as it can be framed. */
    method Transmit() returns (ok: bool)
      requires Valid()
      modifies this
      ensures Valid()
      ensures ok <==> AllShort(old(waiting))
      ensures ok ==> waiting == [] && transmitted == old(transmitted) + old(waiting)
      ensures delivered == old(delivered) && lcpLog == old(lcpLog) && ipcpLog == old(ipcpLog)
    {
      hide PppFrames.Framed, PppFrames.FramesOf, Encoded;
      ghost var sent: nat := 0;
      while |waiting| > 0
        invariant Valid()
        invariant sent <= |old(waiting)| && waiting == old(waiting)[sent..]
        invariant transmitted == old(transmitted) + old(waiting)[..sent]
        invariant forall i :: 0 <= i < sent ==> |old(waiting)[i]| < MRU
        invariant delivered == old(delivered) && lcpLog == old(lcpLog) && ipcpLog == old(ipcpLog)
        decreases |waiting|
      {
        var packet := waiting[0];
        assert packet == old(waiting)[sent];
        waiting := waiting[1..];
        var frame := PppFrames.BuildFrame(PROTO_IP, PppFrames.Octets(packet));
        if frame == None {
          return false;
        }
        assert old(waiting)[..sent + 1] == old(waiting)[..sent] + [packet];
        Assoc(old(transmitted), old(waiting)[..sent], [packet]);
        PppFrames.FramesOfSnoc(PROTO_IP, transmitted, packet);
        frames := frames + [frame.value.bytes[..frame.value.len]];
        transmitted := transmitted + [packet];
        sent := sent + 1;
      }
      assert old(waiting)[..sent] == old(waiting);
      ok := true;
    }
  }

  // ----- Runs ------------------------------------------------------------------------

  ghost predicate GateRun(layers: Layers, gates: seq<Gate>, turns: seq<Turn>)
  {
    && |gates| == |turns| + 1
    && gates[0] == Start()
    && forall i :: 0 <= i < |turns| ==> Goes(layers, gates[i], turns[i], gates[i + 1])
  }

  predicate Goes(layers: Layers, g: Gate, turn: Turn, g': Gate)
  {
    Take(layers, g, turn).Turned? && Take(layers, g, turn).next == g'
  }

  /** What a layer makes of a log. */
  function Replayed(layer: Layer, log: seq<Event>): Option<Automaton>
  {
    if |log| == 0 then Some(New())
    else match Replayed(layer, log[..|log| - 1])
         case None => None
         case Some(a) => (match Step(layer, a, log[|log| - 1]) case Done(b, _) => Some(b) case _ => None)
  }

  lemma ReplayedStep(layer: Layer, log: seq<Event>, event: Event)
    ensures var log' := log + [event];
            Replayed(layer, log') == (match Replayed(layer, log)
                                      case None => None
                                      case Some(a) => (match Step(layer, a, event) case Done(b, _) => Some(b) case _ => None))
  {
    hide Step;
    assert (log + [event])[..|log|] == log;
  }

  lemma {:induction false} ReplayedIsRun(layer: Layer, log: seq<Event>) returns (states: seq<Automaton>)
    requires Replayed(layer, log).Some?
    ensures Run(layer, states, log) && Some(states[|log|]) == Replayed(layer, log)
  {
    hide Step;
    if |log| == 0 {
      states := [New()];
    } else {
      var before, event := log[..|log| - 1], log[|log| - 1];
      var states0 := ReplayedIsRun(layer, before);
      states := states0 + [Replayed(layer, log).value];
      forall i | 0 <= i < |log|
        ensures Leads(layer, states[i], log[i], states[i + 1])
      {
        if i < |before| {
          assert Leads(layer, states0[i], before[i], states0[i + 1]);
        }
      }
    }
  }

  ghost predicate Logged(layers: Layers, g: Gate)
  {
    Replayed(layers.lcp, g.lcpLog) == Some(g.lcp) && Replayed(layers.ipcp, g.ipcpLog) == Some(g.ipcp)
  }

  lemma TurnIsLogged(layers: Layers, g: Gate, turn: Turn, g': Gate)
    requires Logged(layers, g) && Goes(layers, g, turn, g')
    ensures Logged(layers, g')
  {
    hide Step, Replayed;
    match turn {
      case Poll(lcpOwn, ipcpOwn) =>
        ReplayedStep(layers.lcp, g.lcpLog, Open(lcpOwn));
        ReplayedStep(layers.ipcp, g.ipcpLog, Close);
        ReplayedStep(layers.ipcp, g.ipcpLog, Open(ipcpOwn));
      case Frame(protocol, packet, own) =>
        ReplayedStep(layers.lcp, g.lcpLog, Receive(packet, own));
        ReplayedStep(layers.ipcp, g.ipcpLog, Receive(packet, own));
      case SendIp(ip) =>
    }
  }

  lemma {:induction false} RunIsLogged(layers: Layers, gates: seq<Gate>, turns: seq<Turn>, i: nat)
    requires GateRun(layers, gates, turns) && i < |gates|
    ensures Logged(layers, gates[i])
  {
    hide Take;
    if i > 0 {
      RunIsLogged(layers, gates, turns, i - 1);
      assert Goes(layers, gates[i - 1], turns[i - 1], gates[i - 1 + 1]);
      TurnIsLogged(layers, gates[i - 1], turns[i - 1], gates[i]);
    }
  }

  /** A turn that transmits IP packets is a poll that ends with both layers open. */
  lemma TransmitsOnlyOpen(layers: Layers, g: Gate, turn: Turn)
    requires Take(layers, g, turn).Turned? && Take(layers, g, turn).transmitted != []
    ensures turn.Poll? && Take(layers, g, turn).next.lcp.phase == Opened
    ensures Take(layers, g, turn).next.ipcp.phase == Opened
  {
  }

  /** The layer's log makes a run that ends open, with an Ack each way behind it. */
  ghost predicate Negotiated(layer: Layer, log: seq<Event>)
  {
    exists states: seq<Automaton>, j: nat, k: nat ::
      Run(layer, states, log) && BothAcked(layer, states, log, |log|, j, k)
  }

  /** Over every run of the loop: an IP packet is transmitted only when LCP and IPCP are both
      open, each with a Configure-Ack sent and one received behind it. */
  lemma IpOnlyWhenOpen(layers: Layers, gates: seq<Gate>, turns: seq<Turn>, i: nat)
    requires GateRun(layers, gates, turns) && i < |turns| && Take(layers, gates[i], turns[i]).Turned?
    requires Take(layers, gates[i], turns[i]).transmitted != []
    ensures gates[i + 1].lcp.phase == Opened && gates[i + 1].ipcp.phase == Opened
    ensures Negotiated(layers.lcp, gates[i + 1].lcpLog) && Negotiated(layers.ipcp, gates[i + 1].ipcpLog)
  {
    var g := gates[i + 1];
    assert Goes(layers, gates[i], turns[i], g);
    TransmitsOnlyOpen(layers, gates[i], turns[i]);
    hide Take;
    RunIsLogged(layers, gates, turns, i + 1);
    OpenIsAcked(layers.lcp, g.lcpLog, g.lcp);
    OpenIsAcked(layers.ipcp, g.ipcpLog, g.ipcp);
  }

  lemma OpenIsAcked(layer: Layer, log: seq<Event>, a: Automaton)
    requires Replayed(layer, log) == Some(a) && a.phase == Opened
    ensures Negotiated(layer, log)
  {
    hide Step, SendsAck, GetsAck, Replayed;
    var states := ReplayedIsRun(layer, log);
    var j, k := OpenedMeansBothAcked(layer, states, log, |log|);
  }

  // ----- Conservation ----------------------------------------------------------------

  /** The packets that the IP stack has given the loop in its first `n` turns. */
  function Given(turns: seq<Turn>, n: nat): seq<seq<byte>>
    requires n <= |turns|
  {
    if n == 0 then []
    else Given(turns, n - 1) + (if turns[n - 1].SendIp? then [turns[n - 1].ip] else [])
  }

  ghost function Transmitted(layers: Layers, gates: seq<Gate>, turns: seq<Turn>, n: nat): seq<seq<byte>>
    requires n <= |turns| <= |gates|
  {
    if n == 0 then []
    else
      var turned := Take(layers, gates[n - 1], turns[n - 1]);
      Transmitted(layers, gates, turns, n - 1) + (if turned.Turned? then turned.transmitted else [])
  }

  lemma TurnConserves(layers: Layers, g: Gate, turn: Turn)
    requires Take(layers, g, turn).Turned?
    ensures var turned := Take(layers, g, turn);
            turned.transmitted + turned.next.waiting == g.waiting + (if turn.SendIp? then [turn.ip] else [])
  {
    hide Step;
  }

  lemma Regrouped<T>(done: seq<T>, now: seq<T>, left: seq<T>, before: seq<T>, more: seq<T>)
    requires now + left == before + more
    ensures done + now + left == done + before + more
  {
    Assoc(done, now, left);
    Assoc(done, before, more);
  }

  lemma StillConserved(layers: Layers, gates: seq<Gate>, turns: seq<Turn>, n: nat)
    requires 0 < n <= |turns| < |gates| && Goes(layers, gates[n - 1], turns[n - 1], gates[n])
    requires Transmitted(layers, gates, turns, n - 1) + gates[n - 1].waiting == Given(turns, n - 1)
    ensures Transmitted(layers, gates, turns, n) + gates[n].waiting == Given(turns, n)
  {
    var turn, turned := turns[n - 1], Take(layers, gates[n - 1], turns[n - 1]);
    TurnConserves(layers, gates[n - 1], turn);
    hide Take;
    Regrouped(Transmitted(layers, gates, turns, n - 1), turned.transmitted, turned.next.waiting,
              gates[n - 1].waiting, if turn.SendIp? then [turn.ip] else []);
  }

  /** At every point of every run, what has been transmitted followed by what still waits is
      what the stack has given, in order. */
  lemma {:induction false} NothingLost(layers: Layers, gates: seq<Gate>, turns: seq<Turn>, n: nat)
    requires GateRun(layers, gates, turns) && n <= |turns|
    ensures Transmitted(layers, gates, turns, n) + gates[n].waiting == Given(turns, n)
  {
    hide Take;
    if n > 0 {
      NothingLost(layers, gates, turns, n - 1);
      assert Goes(layers, gates[n - 1], turns[n - 1], gates[n - 1 + 1]);
      hide Transmitted, Given, Goes, GateRun;
      StillConserved(layers, gates, turns, n);
    }
  }

  /** A poll that comes to an end with IPCP open has sent everything that waited, in order, and
      one that ends without has sent nothing and kept it; it ends so exactly when both layers
      were open before. */
  lemma PollSendsAll(layers: Layers, g: Gate, lcpOwn: seq<byte>, ipcpOwn: seq<byte>)
    requires Polled(layers, g, lcpOwn, ipcpOwn).Turned?
    ensures var turned := Polled(layers, g, lcpOwn, ipcpOwn);
            if g.lcp.phase == Opened && g.ipcp.phase == Opened then
              turned.transmitted == g.waiting && turned.next == g.(waiting := [])
            else
              turned.transmitted == [] && turned.next.waiting == g.waiting && turned.next.ipcp.phase != Opened
  {
    hide AllShort, AllFramable;
  }

  /** What a poll makes of the layers: a closed LCP asks; IPCP is closed while LCP is not open,
      and asks when it is closed and LCP is open; an open layer is left alone. */
  lemma PollMoves(layers: Layers, g: Gate, lcpOwn: seq<byte>, ipcpOwn: seq<byte>)
    requires Polled(layers, g, lcpOwn, ipcpOwn).Turned?
    ensures var next := Polled(layers, g, lcpOwn, ipcpOwn).next;
            && next.lcp.phase == (if g.lcp.phase == Closed then ReqSent else g.lcp.phase)
            && next.ipcp.phase == (if g.lcp.phase != Opened then Closed
                                   else if g.ipcp.phase == Closed then ReqSent
                                   else g.ipcp.phase)
            && next.delivered == g.delivered
  {
    hide AllShort, AllFramable;
  }

  /** Over every run: once a poll has ended with IPCP open, everything that the stack has given
      is transmitted. */
  lemma PollDrains(layers: Layers, gates: seq<Gate>, turns: seq<Turn>, n: nat)
    requires GateRun(layers, gates, turns) && n < |turns| && turns[n].Poll? && gates[n + 1].ipcp.phase == Opened
    ensures Transmitted(layers, gates, turns, n + 1) == Given(turns, n + 1) && gates[n + 1].waiting == []
  {
    var g, turn := gates[n], turns[n];
    assert Goes(layers, g, turn, gates[n + 1]);
    PollSendsAll(layers, g, turn.lcpOwn, turn.ipcpOwn);
    PollMoves(layers, g, turn.lcpOwn, turn.ipcpOwn);
    NothingLost(layers, gates, turns, n + 1);
    hide Transmitted, Given, Take, Polled;
    assert Transmitted(layers, gates, turns, n + 1) + [] == Transmitted(layers, gates, turns, n + 1);
  }

  // ----- Frames ----------------------------------------------------------------------

  /** Frames go to LCP always, to IPCP while LCP is open, to the IP stack while IPCP is open,
      and leave everything else as it is. */
  lemma FrameGoesTo(layers: Layers, g: Gate, protocol: bv16, packet: seq<byte>, own: seq<byte>)
    requires Take(layers, g, Frame(protocol, packet, own)).Turned?
    ensures var turned := Take(layers, g, Frame(protocol, packet, own));
            var event := Receive(packet, own);
            && turned.transmitted == [] && turned.next.waiting == g.waiting
            && (if protocol == 0xc021 then Leads(layers.lcp, g.lcp, event, turned.next.lcp)
                else turned.next.lcp == g.lcp)
            && (if protocol == 0x8021 && g.lcp.phase == Opened then Leads(layers.ipcp, g.ipcp, event, turned.next.ipcp)
                else turned.next.ipcp == g.ipcp)
            && turned.next.delivered
               == g.delivered + (if protocol == 0x0021 && g.ipcp.phase == Opened then [packet] else [])
  {
    hide Step;
  }

  /** A frame ends the program exactly when the layer it goes to does not survive it, or it
      goes to nobody while LCP is open and is too long to be rejected in a frame. */
  lemma FrameStopsIff(layers: Layers, g: Gate, protocol: bv16, packet: seq<byte>, own: seq<byte>)
    ensures var up, ipUp := g.lcp.phase == Opened, g.ipcp.phase == Opened;
            Take(layers, g, Frame(protocol, packet, own)) == Stopped
            <==> if protocol == 0xc021 then !Step(layers.lcp, g.lcp, Receive(packet, own)).Done?
                 else if protocol == 0x8021 then up && !Step(layers.ipcp, g.ipcp, Receive(packet, own)).Done?
                 else up && !(protocol == 0x0021 && ipUp) && |packet| >= 1494
  {
    hide Step;
  }

  /** The IP packets that arrived in the first `n` turns while IPCP was open. */
  function Arrived(gates: seq<Gate>, turns: seq<Turn>, n: nat): seq<seq<byte>>
    requires n <= |turns| <= |gates|
  {
    if n == 0 then []
    else
      var turn := turns[n - 1];
      var heard := turn.Frame? && turn.protocol == 0x0021 && gates[n - 1].ipcp.phase == Opened;
      Arrived(gates, turns, n - 1) + (if heard then [turn.packet] else [])
  }

  /** Over every run the IP stack is given exactly those, in order. */
  lemma {:induction false} DeliveredIsArrived(layers: Layers, gates: seq<Gate>, turns: seq<Turn>, n: nat)
    requires GateRun(layers, gates, turns) && n <= |turns|
    ensures gates[n].delivered == Arrived(gates, turns, n)
  {
    hide Take;
    if n > 0 {
      DeliveredIsArrived(layers, gates, turns, n - 1);
      assert Goes(layers, gates[n - 1], turns[n - 1], gates[n - 1 + 1]);
      hide GateRun;
      TurnDelivers(layers, gates[n - 1], turns[n - 1]);
    }
  }

  lemma TurnDelivers(layers: Layers, g: Gate, turn: Turn)
    requires Take(layers, g, turn).Turned?
    ensures Take(layers, g, turn).next.delivered
            == g.delivered + (if turn.Frame? && turn.protocol == 0x0021 && g.ipcp.phase == Opened then [turn.packet] else [])
  {
    match turn {
      case Poll(lcpOwn, ipcpOwn) => PollMoves(layers, g, lcpOwn, ipcpOwn);
      case Frame(protocol, packet, own) => FrameGoesTo(layers, g, protocol, packet, own);
      case SendIp(_) =>
    }
    hide Polled, Step;
  }

  // ----- The other direction ---------------------------------------------------------

  lemma PollSynchronises(layers: Layers, g: Gate, turn: Turn, g': Gate)
    requires Goes(layers, g, turn, g') && turn.Poll?
    ensures g'.ipcp.phase != Closed ==> g'.lcp.phase == Opened
  {
    hide AllShort, OnPacket, Decode;
  }

  /** Between polls nothing opens a closed IPCP, and LCP leaves and enters the open phase only
      by what arrives for it. */
  lemma BetweenPolls(layers: Layers, g: Gate, turn: Turn, g': Gate)
    requires Goes(layers, g, turn, g') && !turn.Poll?
    ensures g.ipcp.phase == Closed ==> g'.ipcp.phase == Closed
    ensures g.lcp.phase == Opened ==> (g'.lcp.phase != Opened <==> LcpLeaves(g, turn))
    ensures g.lcp.phase != Opened ==> (g'.lcp.phase == Opened <==> LcpOpens(layers, g, turn))
  {
    if turn.Frame? && turn.protocol == PROTO_LCP {
      LeavesAndOpensIff(layers.lcp, g.lcp, Receive(turn.packet, turn.own), g'.lcp);
    }
    hide AllShort, Leaving, Completes, ReplyTo, Parse, Decode, OnRequest, OnNak;
  }

  /** A frame that makes LCP leave the open phase: Terminate-Request, Configure-Ack, or a
      Configure-Request that is not a repetition. */
  predicate LcpLeaves(g: Gate, turn: Turn)
  {
    turn.Frame? && turn.protocol == PROTO_LCP && Leaving(g.lcp, turn.packet)
  }

  /** A frame that completes a new handshake of LCP. */
  predicate LcpOpens(layers: Layers, g: Gate, turn: Turn)
  {
    turn.Frame? && turn.protocol == PROTO_LCP && Completes(layers.lcp, g.lcp, Receive(turn.packet, turn.own))
  }

  /** Turn `p` is a poll and the last one before turn `i`. */
  predicate LastPoll(turns: seq<Turn>, p: nat, i: nat)
  {
    p < i <= |turns| && turns[p].Poll? && forall m :: p < m < i ==> !turns[m].Poll?
  }

  /** While IPCP is not closed there has been a poll, and LCP was open after it. */
  lemma {:induction false} SincePoll(layers: Layers, gates: seq<Gate>, turns: seq<Turn>, i: nat) returns (p: nat)
    requires GateRun(layers, gates, turns) && i < |gates| && gates[i].ipcp.phase != Closed
    ensures LastPoll(turns, p, i) && gates[p + 1].lcp.phase == Opened
  {
    hide Take;
    assert Goes(layers, gates[i - 1], turns[i - 1], gates[i - 1 + 1]);
    if turns[i - 1].Poll? {
      p := i - 1;
      PollSynchronises(layers, gates[i - 1], turns[i - 1], gates[i]);
    } else {
      BetweenPolls(layers, gates[i - 1], turns[i - 1], gates[i]);
      p := SincePoll(layers, gates, turns, i - 1);
    }
  }

  /** Frame `k` made LCP leave the open phase and no frame up to turn `i` has brought it back. */
  ghost predicate LeftAt(layers: Layers, gates: seq<Gate>, turns: seq<Turn>, k: nat, i: nat)
    requires |gates| == |turns| + 1
  {
    && k < i <= |turns| && gates[k].lcp.phase == Opened && LcpLeaves(gates[k], turns[k])
    && forall m :: k < m < i ==> !LcpOpens(layers, gates[m], turns[m])
  }

  lemma {:induction false} StaysLeft(layers: Layers, gates: seq<Gate>, turns: seq<Turn>, p: nat, k: nat, i: nat)
    requires GateRun(layers, gates, turns) && LastPoll(turns, p, i) && p < k && LeftAt(layers, gates, turns, k, i)
    ensures gates[i].lcp.phase != Opened
  {
    hide Take, LcpLeaves, LcpOpens;
    assert Goes(layers, gates[i - 1], turns[i - 1], gates[i - 1 + 1]);
    BetweenPolls(layers, gates[i - 1], turns[i - 1], gates[i]);
    if k < i - 1 {
      StaysLeft(layers, gates, turns, p, k, i - 1);
    }
  }

  lemma {:induction false} LeftSomewhere(layers: Layers, gates: seq<Gate>, turns: seq<Turn>, p: nat, i: nat) returns (k: nat)
    requires GateRun(layers, gates, turns) && LastPoll(turns, p, i)
    requires gates[p + 1].lcp.phase == Opened && gates[i].lcp.phase != Opened
    ensures p < k && LeftAt(layers, gates, turns, k, i)
  {
    hide Take, LcpLeaves, LcpOpens;
    assert Goes(layers, gates[i - 1], turns[i - 1], gates[i - 1 + 1]);
    BetweenPolls(layers, gates[i - 1], turns[i - 1], gates[i]);
    if gates[i - 1].lcp.phase == Opened {
      k := i - 1;
    } else {
      k := LeftSomewhere(layers, gates, turns, p, i - 1);
    }
  }

  /** Incoming IP is guarded by IPCP alone. Over every run: when a packet is delivered, IPCP is
      open, there has been a poll, and LCP is open too unless, among the frames since the last
      poll, one made it leave and none after that brought it back; and exactly then it is not. */
  lemma IpDeliveredIff(layers: Layers, gates: seq<Gate>, turns: seq<Turn>, i: nat) returns (p: nat)
    requires GateRun(layers, gates, turns) && i < |turns|
    requires gates[i + 1].delivered != gates[i].delivered
    ensures turns[i].Frame? && turns[i].protocol == PROTO_IP && gates[i].ipcp.phase == Opened
    ensures gates[i + 1].delivered == gates[i].delivered + [turns[i].packet]
    ensures LastPoll(turns, p, i)
    ensures gates[i].lcp.phase != Opened <==> exists k: nat :: p < k && LeftAt(layers, gates, turns, k, i)
  {
    assert Goes(layers, gates[i], turns[i], gates[i + 1]);
    DeliversOnlyOpen(layers, gates[i], turns[i]);
    hide Take;
    p := SincePoll(layers, gates, turns, i);
    if gates[i].lcp.phase != Opened {
      var k := LeftSomewhere(layers, gates, turns, p, i);
    }
    if k: nat :| p < k && LeftAt(layers, gates, turns, k, i) {
      StaysLeft(layers, gates, turns, p, k, i);
    }
  }

  lemma DeliversOnlyOpen(layers: Layers, g: Gate, turn: Turn)
    requires Take(layers, g, turn).Turned? && Take(layers, g, turn).next.delivered != g.delivered
    ensures turn.Frame? && turn.protocol == PROTO_IP && g.ipcp.phase == Opened
    ensures Take(layers, g, turn).next.delivered == g.delivered + [turn.packet]
  {
    hide Step, AllShort;
  }

  /** And such a packet there is: after the peer has terminated LCP, one that arrives before
      the next poll is still delivered. */
  lemma DeliversAfterTermination(layers: Layers, g: Gate, id: byte, packet: seq<byte>, own: seq<byte>)
    requires g.lcp.phase == Opened && g.ipcp.phase == Opened
    ensures var terminated := Take(layers, g, Frame(PROTO_LCP, [5, id, 0, 4], own));
            && terminated.Turned? && terminated.next.lcp.phase == Closed
            && Take(layers, terminated.next, Frame(PROTO_IP, packet, own)).Turned?
            && Take(layers, terminated.next, Frame(PROTO_IP, packet, own)).next.delivered == g.delivered + [packet]
  {
    var bytes: seq<byte> := [5, id, 0, 4];
    assert Be16(bytes[2], bytes[3]) == |bytes|;
    assert Decode(bytes).Read? && Decode(bytes).packet.code == TERM_REQ;
  }
}
