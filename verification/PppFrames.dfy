/** PPP frames in HDLC-like framing: building one in a fixed buffer, and taking a received
    one apart. */
module PppFrames {
  import opened Wrappers
  import opened Fcs
  import opened PppLimits
  import Bytes

  const FLAG: octet := 0x7e
  const ADDRESS: octet := 0xff
  const CONTROL: octet := 0x03
  const ESC: octet := 0x7d
  const ESC_XOR: octet := 0x20
  const MAX_FRAME := 1 + 1 + 1 + 2 + PPP_MRU + 2

  const LEADER: seq<octet> := [FLAG, ADDRESS, CONTROL]

  function ProtocolBytes(proto: bv16): seq<octet>
  {
    [High(proto), Low(proto)]
  }

  function FcsBytes(c: bv16): (r: seq<octet>)
    ensures |r| == 2
  {
    [Low(c), High(c)]
  }

  /** A frame around `inner` (protocol and payload), without the closing flag. */
  function Received(inner: seq<octet>): seq<octet>
  {
    LEADER + inner + FcsBytes(CalcFcs([ADDRESS, CONTROL] + inner))
  }

  /** The frame as it is handed to the transmitter. */
  function Framed(proto: bv16, payload: seq<octet>): seq<octet>
  {
    Received(ProtocolBytes(proto) + payload) + [FLAG]
  }

  function Octets(s: seq<Bytes.byte>): (r: seq<octet>)
    ensures |r| == |s|
  {
    seq(|s|, i requires 0 <= i < |s| => s[i] as octet)
  }

  /** One frame around each payload. */
  function FramesOf(proto: bv16, payloads: seq<seq<Bytes.byte>>): (r: seq<seq<octet>>)
    ensures |r| == |payloads|
  {
    seq(|payloads|, i requires 0 <= i < |payloads| => Framed(proto, Octets(payloads[i])))
  }

  lemma FramesOfSnoc(proto: bv16, payloads: seq<seq<Bytes.byte>>, last: seq<Bytes.byte>)
    ensures FramesOf(proto, payloads + [last]) == FramesOf(proto, payloads) + [Framed(proto, Octets(last))]
  {
    hide Framed, Octets;
  }

  /** The same by its bytes: flag, address, control, the protocol with its high byte first, the
      payload, two check bytes that make the whole from the address on leave the good residue
      of section C.2 of RFC 1662, and a flag. */
  lemma FrameLayout(proto: bv16, payload: seq<octet>)
    ensures var f := Framed(proto, payload);
            && |f| == 8 + |payload|
            && f[..3] == [0x7e, 0xff, 0x03] && f[3..5] == ProtocolBytes(proto) && (f[3] as bv16 << 8) | f[4] as bv16 == proto
            && f[5..5 + |payload|] == payload && f[|f| - 1] == 0x7e
            && Remainder(INIT, f[1..|f| - 1]) == 0xf0b8
  {
    var head := ProtocolBytes(proto);
    var covered := [ADDRESS, CONTROL] + (head + payload);
    ProtocolByWeight(proto);
    hide High, Low, CalcFcs;
    var f := Framed(proto, payload);
    assert f[1..|f| - 1] == covered + FcsBytes(CalcFcs(covered));
    GoodResidue(covered);
  }

  lemma ProtocolByWeight(proto: bv16)
    ensures |ProtocolBytes(proto)| == 2
    ensures (ProtocolBytes(proto)[0] as bv16 << 8) | ProtocolBytes(proto)[1] as bv16 == proto
    ensures ProtocolBytes(0xc021) == [0xc0, 0x21] && ProtocolBytes(0x8021) == [0x80, 0x21]
    ensures ProtocolBytes(0x0021) == [0x00, 0x21]
  {
  }

  class Buffer {
    const bytes: array<octet>
    var len: nat

    ghost predicate Valid()
      reads this
    {
      bytes.Length == MAX_FRAME && len <= MAX_FRAME
    }

    constructor ()
      ensures Valid() && fresh(bytes) && len == 0
    {
      bytes := new octet[MAX_FRAME](_ => 0);
      len := 0;
    }

    method BeginPpp(proto: bv16)
      requires Valid()
      modifies this, bytes
      ensures Valid() && bytes[..len] == LEADER + ProtocolBytes(proto)
    {
      hide High, Low;
      bytes[0], bytes[1], bytes[2] := FLAG, ADDRESS, CONTROL;
      bytes[3], bytes[4] := High(proto), Low(proto);
      len := 5;
    }

    method Write(b: seq<octet>)
      requires Valid() && len + |b| <= MAX_FRAME
      modifies this, bytes
      ensures Valid() && bytes[..len] == old(bytes[..len]) + b
    {
      forall i | 0 <= i < |b| { bytes[len + i] := b[i]; }
      len := len + |b|;
    }

    method FinishPpp()
      requires Valid() && 1 <= len && len + 3 <= MAX_FRAME
      modifies this, bytes
      ensures Valid()
      ensures var covered := old(bytes[1..len]);
              bytes[..len] == old(bytes[..len]) + FcsBytes(CalcFcs(covered)) + [FLAG]
    {
      hide Xor16, High, Low;
      var r := PppFcs16(INIT, bytes[1..len]);
      var fcs := Xor16(r, 0xffff);
      bytes[len], bytes[len + 1] := Low(fcs), High(fcs);
      bytes[len + 2] := FLAG;
      len := len + 3;
    }
  }

  /** Building a frame succeeds exactly for payloads one byte short of the advertised MRU:
      the closing flag of a full one has no place in the buffer. `None` stands for the
      out-of-range panic. */
  method BuildFrame(proto: bv16, payload: seq<octet>) returns (r: Option<Buffer>)
    ensures r.Some? <==> |payload| < PPP_MRU
    ensures r.Some? ==> fresh(r.value) && r.value.Valid() && r.value.bytes[..r.value.len] == Framed(proto, payload)
  {
    hide CalcFcs, ProtocolBytes, FcsBytes;
    var buffer := new Buffer();
    buffer.BeginPpp(proto);
    ProtocolLength(proto);
    if buffer.len + |payload| > MAX_FRAME {
      return None;
    }
    buffer.Write(payload);
    if buffer.len + 3 > MAX_FRAME {
      return None;
    }
    ghost var inner := ProtocolBytes(proto) + payload;
    assert buffer.bytes[..buffer.len] == LEADER + inner;
    assert buffer.bytes[1..buffer.len] == [ADDRESS, CONTROL] + inner;
    buffer.FinishPpp();
    r := Some(buffer);
  }

  lemma ProtocolLength(proto: bv16)
    ensures |ProtocolBytes(proto)| == 2
  {
  }

  /** What the network loop accepts from the receiver: protocol and payload. */
  function TryFromHdlcFrame(f: seq<octet>): Option<seq<octet>>
  {
    if |f| < 7 then None
    else if f[0] != FLAG || f[1] != ADDRESS || f[2] != CONTROL then None
    else if CalcFcs(f[1..|f| - 2]) != FromLe(f[|f| - 2], f[|f| - 1]) then None
    else Some(f[3..|f| - 2])
  }

  lemma FromLeUnique(lo: octet, hi: octet, c: bv16)
    ensures FromLe(lo, hi) == c <==> lo == Low(c) && hi == High(c)
  {
    LeParts(lo, hi);
    LeRoundTrip(c);
    hide FromLe, Low, High;
  }

  /** Accepting is exactly the inverse of framing: the accepted frames are the ones a sender
      builds, and each gives back what was put in. */
  lemma AcceptedIffFramed(f: seq<octet>, inner: seq<octet>)
    ensures TryFromHdlcFrame(f) == Some(inner) <==> |inner| >= 2 && f == Received(inner)
  {
    hide CalcFcs, FromLe, Low, High;
    var covered := [ADDRESS, CONTROL] + inner;
    var c := CalcFcs(covered);
    if TryFromHdlcFrame(f) == Some(inner) {
      assert f[1..|f| - 2] == covered;
      FromLeUnique(f[|f| - 2], f[|f| - 1], c);
      assert f == Received(inner);
    }
    if |inner| >= 2 && f == Received(inner) {
      assert f[1..|f| - 2] == covered;
      assert f[3..|f| - 2] == inner;
      FromLeUnique(f[|f| - 2], f[|f| - 1], c);
      assert f[|f| - 2] == Low(c) && f[|f| - 1] == High(c);
    }
  }

  /** A frame of which two neighbouring bytes of protocol and payload have been changed on
      the way is not accepted. */
  lemma DamagedIsRejected(pre: seq<octet>, a: octet, b: octet, post: seq<octet>, c: octet, d: octet)
    requires (a, b) != (c, d) && |pre + [a, b] + post| >= 2
    ensures var good := Received(pre + [a, b] + post);
            var i := 3 + |pre|;
            i + 1 < |good| && TryFromHdlcFrame(good[i := c][i + 1 := d]) == None
  {
    hide CalcFcs, FromLe, Low, High;
    var inner, inner' := pre + [a, b] + post, pre + [c, d] + post;
    var good := Received(inner);
    var i := 3 + |pre|;
    var bad := good[i := c][i + 1 := d];
    var p := [ADDRESS, CONTROL] + pre;
    assert [ADDRESS, CONTROL] + inner == p + [a, b] + post;
    assert [ADDRESS, CONTROL] + inner' == p + [c, d] + post;
    assert bad == LEADER + inner' + FcsBytes(CalcFcs(p + [a, b] + post));
    assert bad[1..|bad| - 2] == p + [c, d] + post;
    FromLeUnique(bad[|bad| - 2], bad[|bad| - 1], CalcFcs(p + [c, d] + post));
    FromLeUnique(bad[|bad| - 2], bad[|bad| - 1], CalcFcs(p + [a, b] + post));
    if CalcFcs(p + [a, b] + post) == CalcFcs(p + [c, d] + post) {
      BurstIsDetected(p, a, b, c, d, post);
      assert false;
    }
  }
}
