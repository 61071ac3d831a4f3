/** The transmitter: queued frames are escaped byte by byte into the UART, and every call
    may be cut short by a full FIFO, between any two bytes. */
module PppTransmit {
  import opened Fcs
  import opened PppFrames
  import Bytes

  /** Flags at the two ends of a frame are sent as they are. */
  predicate NeedsEscape(esc: set<octet>, frame: seq<octet>, i: nat)
    requires i < |frame|
  {
    frame[i] in esc && !((i == 0 || i == |frame| - 1) && frame[i] == FLAG)
  }

  /** The bytes of the wire from byte `i` of the frame on; `pending` when its escape has
      been sent already. */
  function EscapedFrom(esc: set<octet>, frame: seq<octet>, i: nat, pending: bool): seq<octet>
    requires i <= |frame|
    decreases |frame| - i
  {
    if i == |frame| then []
    else if pending then [frame[i] ^ ESC_XOR] + EscapedFrom(esc, frame, i + 1, false)
    else if NeedsEscape(esc, frame, i) then [ESC, frame[i] ^ ESC_XOR] + EscapedFrom(esc, frame, i + 1, false)
    else [frame[i]] + EscapedFrom(esc, frame, i + 1, false)
  }

  function Escaped(esc: set<octet>, frame: seq<octet>): seq<octet>
  {
    EscapedFrom(esc, frame, 0, false)
  }

  // ----- The escaped form by its bytes -----------------------------------------------

  /** Bytes of the set are sent as an escape and the byte with its sixth bit turned, all others
      as themselves. */
  function Stuffed(esc: set<octet>, s: seq<octet>): seq<octet>
  {
    if |s| == 0 then [] else Sent(esc, s[0]) + Stuffed(esc, s[1..])
  }

  function Sent(esc: set<octet>, x: octet): seq<octet>
  {
    if x in esc then [0x7d, x ^ 0x20] else [x]
  }

  /** A frame between two flags goes out between two flags. */
  lemma EscapedIsStuffed(esc: set<octet>, inner: seq<octet>)
    ensures Escaped(esc, [0x7e] + inner + [0x7e]) == [0x7e] + Stuffed(esc, inner) + [0x7e]
  {
    var frame := [0x7e] + inner + [0x7e];
    StuffedFrom(esc, frame, 1);
    assert frame[1..|frame| - 1] == inner;
    Bytes.Assoc([0x7e], Stuffed(esc, inner), [0x7e]);
  }

  lemma {:induction false} StuffedFrom(esc: set<octet>, frame: seq<octet>, i: nat)
    requires 1 <= i < |frame| && frame[|frame| - 1] == 0x7e
    ensures EscapedFrom(esc, frame, i, false) == Stuffed(esc, frame[i..|frame| - 1]) + [0x7e]
    decreases |frame| - i
  {
    var n := |frame| - 1;
    if i == n {
      assert frame[i..n] == [];
    } else {
      StuffedFrom(esc, frame, i + 1);
      assert frame[i..n][1..] == frame[i + 1..n];
      SentFrom(esc, frame, i);
      hide Sent, EscapedFrom;
      Bytes.Assoc(Sent(esc, frame[i]), Stuffed(esc, frame[i + 1..n]), [0x7e]);
    }
  }

  lemma SentFrom(esc: set<octet>, frame: seq<octet>, i: nat)
    requires 1 <= i < |frame| - 1
    ensures EscapedFrom(esc, frame, i, false) == Sent(esc, frame[i]) + EscapedFrom(esc, frame, i + 1, false)
  {
  }

  /** With the set that the link is brought up with, nothing between the two is a flag. */
  lemma {:induction false} NoFlagInside(s: seq<octet>)
    ensures 0x7e !in Stuffed({0x7d, 0x7e}, s)
  {
    if |s| > 0 {
      NoFlagInside(s[1..]);
    }
  }

  // ----- The queue -------------------------------------------------------------------

  datatype TxBuffer = TxBuffer(frame: seq<octet>, index: nat, pendingEscape: bool)
  {
    predicate Valid(esc: set<octet>)
    {
      index < |frame| && (pendingEscape ==> NeedsEscape(esc, frame, index))
    }

    function Rest(esc: set<octet>): (r: seq<octet>)
      requires Valid(esc)
      ensures |r| > 0
    {
      EscapedFrom(esc, frame, index, pendingEscape)
    }
  }

  function Outstanding(esc: set<octet>, q: seq<TxBuffer>): seq<octet>
    requires forall i :: 0 <= i < |q| ==> q[i].Valid(esc)
  {
    if |q| == 0 then [] else q[0].Rest(esc) + Outstanding(esc, q[1..])
  }

  function AllEscaped(esc: set<octet>, frames: seq<seq<octet>>): seq<octet>
  {
    if |frames| == 0 then [] else AllEscaped(esc, frames[..|frames| - 1]) + Escaped(esc, frames[|frames| - 1])
  }

  lemma {:induction false} OutstandingSnoc(esc: set<octet>, q: seq<TxBuffer>, t: TxBuffer)
    requires forall i :: 0 <= i < |q| ==> q[i].Valid(esc)
    requires t.Valid(esc)
    ensures Outstanding(esc, q + [t]) == Outstanding(esc, q) + t.Rest(esc)
  {
    hide EscapedFrom;
    if |q| == 0 {
      assert q + [t] == [t];
      assert [t][1..] == [];
      assert Outstanding(esc, [t]) == t.Rest(esc) + [];
    } else {
      OutstandingSnoc(esc, q[1..], t);
      assert (q + [t])[1..] == q[1..] + [t] && (q + [t])[0] == q[0];
      Bytes.Assoc(q[0].Rest(esc), Outstanding(esc, q[1..]), t.Rest(esc));
    }
  }

  class XmitChannel {
    var buffers: seq<TxBuffer>
    var writing: bool
    const needsEscape: set<octet>

    /** Every byte written to the UART, and every frame ever queued. */
    ghost var wire: seq<octet>
    ghost var pushed: seq<seq<octet>>

    /** What has gone out, followed by what is still to go, is every frame escaped in full,
        in order: where the calls were cut short leaves no trace. */
    ghost predicate Valid()
      reads this
    {
      && (forall i :: 0 <= i < |buffers| ==> buffers[i].Valid(needsEscape))
      && wire + Outstanding(needsEscape, buffers) == AllEscaped(needsEscape, pushed)
    }

    constructor (needsEscape: set<octet>)
      ensures Valid() && wire == [] && pushed == [] && buffers == [] && !writing
      ensures this.needsEscape == needsEscape
    {
      buffers, writing := [], false;
      this.needsEscape := needsEscape;
      wire, pushed := [], [];
    }

    /** Queues a frame. The test that should start the transmission looks at the queue after
        the frame has been put in, so it never does. */
    method Push(frame: seq<octet>)
      requires Valid() && |frame| > 0
      modifies this
      ensures Valid() && pushed == old(pushed) + [frame] && wire == old(wire)
      ensures writing == old(writing) && |buffers| == |old(buffers)| + 1
    {
      hide EscapedFrom;
      var t := TxBuffer(frame, 0, false);
      OutstandingSnoc(needsEscape, buffers, t);
      Bytes.Assoc(wire, Outstanding(needsEscape, buffers), t.Rest(needsEscape));
      assert (pushed + [frame])[..|pushed|] == pushed;
      buffers := buffers + [t];
      pushed := pushed + [frame];
      writing := writing || |buffers| == 0;
    }

    /** One call that the UART lets write `room` bytes before its FIFO is full. It sends as
        much of the first queued frame as there is room for, and no other. */
    method WriteOut(room: nat) returns (empty: bool, ghost sent: seq<octet>)
      requires Valid()
      modifies this
      ensures Valid() && pushed == old(pushed) && wire == old(wire) + sent
      ensures |sent| == if old(buffers) == [] then 0
                        else if room < |old(buffers)[0].Rest(needsEscape)| then room
                        else |old(buffers)[0].Rest(needsEscape)|
      ensures empty <==> buffers == []
    {
      sent := [];
      if buffers == [] {
        assert wire + sent == wire;
        return true, sent;
      }
      var head, tail := buffers[0], buffers[1..];
      var i, pending, out := WriteFrame(needsEscape, head, room);
      sent := out;
      if i < |head.frame| {
        buffers := [TxBuffer(head.frame, i, pending)] + tail;
        assert buffers[1..] == tail;
      } else {
        assert sent + [] == sent;
        buffers := tail;
      }
      Bytes.Assoc(sent, EscapedFrom(needsEscape, head.frame, i, pending), Outstanding(needsEscape, tail));
      Bytes.Assoc(wire, sent, Outstanding(needsEscape, buffers));
      wire := wire + sent;
      empty := buffers == [];
    }
  }

  /** The byte loop: sends from where the buffer stands until the frame or the room ends. */
  method WriteFrame(esc: set<octet>, t: TxBuffer, room: nat) returns (i: nat, pending: bool, sent: seq<octet>)
    requires t.Valid(esc)
    ensures i <= |t.frame|
    ensures i < |t.frame| ==> TxBuffer(t.frame, i, pending).Valid(esc)
    ensures t.Rest(esc) == sent + EscapedFrom(esc, t.frame, i, pending)
    ensures |sent| == if room < |t.Rest(esc)| then room else |t.Rest(esc)|
  {
    var frame := t.frame;
    i, pending, sent := t.index, t.pendingEscape, [];
    var left := room;
    ghost var rest := t.Rest(esc);
    assert [] + rest == rest;
    while i < |frame| && left > 0
      invariant i <= |frame|
      invariant i < |frame| && pending ==> NeedsEscape(esc, frame, i)
      invariant rest == sent + EscapedFrom(esc, frame, i, pending)
      invariant |sent| + left == room
      decreases |frame| - i, !pending
    {
      var x := frame[i];
      ghost var before := sent;
      if pending {
        sent := sent + [x ^ ESC_XOR];
        pending := false;
        i := i + 1;
        Bytes.Assoc(before, [x ^ ESC_XOR], EscapedFrom(esc, frame, i, false));
      } else if NeedsEscape(esc, frame, i) {
        pending := true;
        sent := sent + [ESC];
        SplitEscape(esc, frame, i);
        Bytes.Assoc(before, [ESC], EscapedFrom(esc, frame, i, true));
      } else {
        sent := sent + [x];
        i := i + 1;
        Bytes.Assoc(before, [x], EscapedFrom(esc, frame, i, false));
      }
      left := left - 1;
    }
    if i < |frame| {
      assert |EscapedFrom(esc, frame, i, pending)| > 0;
    }
  }

  lemma SplitEscape(esc: set<octet>, frame: seq<octet>, i: nat)
    requires i < |frame| && NeedsEscape(esc, frame, i)
    ensures EscapedFrom(esc, frame, i, false) == [ESC] + EscapedFrom(esc, frame, i, true)
  {
    var e := frame[i] ^ ESC_XOR;
    assert [ESC, e] == [ESC] + [e];
    Bytes.Assoc([ESC], [e], EscapedFrom(esc, frame, i + 1, false));
  }
}
