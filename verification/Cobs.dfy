/** Consistent overhead byte stuffing, as the streaming encoder and the byte-at-a-time
    decoder of the framed link perform it, and the inverse law between the two. */
module Cobs {
  import opened Wrappers
  import opened Bytes

  const SENTINEL: byte := 0

  // ----- Encoder ---------------------------------------------------------------------

  /** What one `WriteU8` call hands back: a finished block, or nothing yet. */
  datatype EncodeState = Buf(bytes: seq<byte>) | Pass

  /** The bytes written since the last block: non-zero, and at most 253 of them. */
  predicate Pending(p: seq<byte>)
  {
    |p| <= 253 && forall i :: 0 <= i < |p| ==> p[i] != SENTINEL
  }

  function EncodeByte(p: seq<byte>, x: byte): (r: (seq<byte>, seq<byte>))
    requires Pending(p)
    ensures Pending(r.0)
  {
    if x == SENTINEL then ([], [|p| + 1] + p)
    else if |p| == 253 then ([], [0xff] + p + [x])
    else (p + [x], [])
  }

  /** The unmasked encoding of `s` by an encoder that already holds `p`. */
  function EncodeFrom(p: seq<byte>, s: seq<byte>): (r: seq<byte>)
    requires Pending(p)
    decreases |s|
  {
    if |s| == 0 then [|p| + 1] + p + [SENTINEL]
    else
      var (p', block) := EncodeByte(p, s[0]);
      block + EncodeFrom(p', s[1..])
  }

  function Encode(s: seq<byte>, mask: byte): (r: seq<byte>)
  {
    Masked(EncodeFrom([], s), mask)
  }

  /** The pending bytes and the blocks already emitted after the bytes of `s`. */
  function Emitted(s: seq<byte>): (r: (seq<byte>, seq<byte>))
    ensures Pending(r.0)
  {
    if |s| == 0 then ([], [])
    else
      var (p, out) := Emitted(s[..|s| - 1]);
      var (p', block) := EncodeByte(p, s[|s| - 1]);
      (p', out + block)
  }

  lemma NothingEmitted(mask: byte)
    ensures Masked(Emitted([]).1, mask) == []
  {
  }

  lemma {:induction false} EmittedThenRest(s: seq<byte>, t: seq<byte>)
    ensures Emitted(s).1 + EncodeFrom(Emitted(s).0, t) == EncodeFrom([], s + t)
    decreases |s|
  {
    if |s| == 0 {
      assert s + t == t;
    } else {
      var s', x := s[..|s| - 1], s[|s| - 1];
      var (p, out) := Emitted(s');
      var (p', block) := EncodeByte(p, x);
      EmittedThenRest(s', [x] + t);
      assert s' + [x] == s;
      Assoc(s', [x], t);
      assert ([x] + t)[1..] == t;
      assert EncodeFrom(p, [x] + t) == block + EncodeFrom(p', t);
      Assoc(out, block, EncodeFrom(p', t));
    }
  }

  class FrameEncoder {
    const buf: array<byte>
    const mask: byte
    var cursor: nat
    /** The bytes written to this encoder since it was made. */
    ghost var written: seq<byte>

    ghost predicate Valid()
      reads this, buf
    {
      && buf.Length == 255
      && 1 <= cursor <= 254
      && Emitted(written).0 == buf[1..cursor]
    }

    constructor (buffer: array<byte>, mask: byte)
      requires buffer.Length == 255
      ensures Valid() && written == []
      ensures buf == buffer && this.mask == mask
    {
      buf := buffer;
      this.mask := mask;
      cursor := 1;
      written := [];
    }

    /** Masks the first `n` bytes of the buffer in place. */
    method MaskFirst(n: nat)
      requires n <= buf.Length
      modifies buf
      ensures buf[..n] == Masked(old(buf[..n]), mask)
    {
      for i := 0 to n
        invariant forall k :: 0 <= k < i ==> buf[k] == Xor(old(buf[k]), mask)
        invariant forall k :: i <= k < n ==> buf[k] == old(buf[k])
      {
        buf[i] := Xor(buf[i], mask);
      }
    }

    method WriteU8(x: byte) returns (r: EncodeState)
      requires Valid()
      modifies this, buf
      ensures Valid() && written == old(written) + [x]
      ensures var block := EncodeByte(Emitted(old(written)).0, x).1;
              r == if block == [] then Pass else Buf(Masked(block, mask))
      ensures Masked(Emitted(written).1, mask)
              == Masked(Emitted(old(written)).1, mask) + (if r.Buf? then r.bytes else [])
    {
      ghost var p := Emitted(written).0;
      ghost var block := EncodeByte(p, x).1;
      MaskedConcat(Emitted(written).1, block, mask);
      assert (written + [x])[..|written|] == written;
      if cursor == 254 {
        if x == SENTINEL {
          buf[0] := 0xfe;
          assert buf[..254] == block;
          MaskFirst(254);
          r := Buf(buf[..254]);
        } else {
          buf[0] := 0xff;
          buf[0xfe] := x;
          assert buf[..255] == block;
          MaskFirst(255);
          r := Buf(buf[..255]);
        }
        cursor := 1;
      } else if x != SENTINEL {
        buf[cursor] := x;
        cursor := cursor + 1;
        assert buf[1..cursor] == p + [x];
        r := Pass;
      } else {
        buf[0] := cursor;
        assert buf[..cursor] == block;
        MaskFirst(cursor);
        r := Buf(buf[..cursor]);
        cursor := 1;
      }
      written := written + [x];
    }

    /** Ends the frame: with the blocks already returned, the result is the encoding of
        everything written. */
    method Finish() returns (r: seq<byte>)
      requires Valid()
      modifies this, buf
      ensures Masked(Emitted(old(written)).1, mask) + r == Encode(old(written), mask)
      ensures r == Masked(EncodeFrom(Emitted(old(written)).0, []), mask)
    {
      ghost var p := Emitted(written).0;
      buf[cursor] := SENTINEL;
      buf[0] := cursor;
      cursor := cursor + 1;
      assert buf[..cursor] == [|p| + 1] + p + [SENTINEL];
      assert EncodeFrom(p, []) == [|p| + 1] + p + [SENTINEL];
      EmittedThenRest(written, []);
      assert written + [] == written;
      hide Emitted, EncodeFrom;
      MaskFirst(cursor);
      r := buf[..cursor];
      MaskedConcat(Emitted(written).1, EncodeFrom(p, []), mask);
    }
  }

  /** `None` exactly when the buffer does not have the one length the encoder accepts. */
  method WithBuffer(buffer: array<byte>, mask: byte) returns (r: Option<FrameEncoder>)
    ensures r.Some? <==> buffer.Length == 255
    ensures r.Some? ==> fresh(r.value) && r.value.Valid() && r.value.written == []
                        && r.value.buf == buffer && r.value.mask == mask
  {
    if buffer.Length == 255 {
      var e := new FrameEncoder(buffer, mask);
      r := Some(e);
    } else {
      r := None;
    }
  }

  // ----- Decoder ---------------------------------------------------------------------

  /** Bytes seen since the last code byte, and the value of that code byte. */
  datatype Jump = Jump(since: nat, last: nat)

  const START := Jump(0, 0)

  datatype Poll = Skip | Byte(b: byte) | Finished | Error(since: nat, last: nat, found: byte)

  predicate JumpOk(d: Jump)
  {
    d.last < 256 && (d.last == 0 ==> d.since == 0)
  }

  function PollPlain(d: Jump, x: byte): (r: (Jump, Poll))
    requires JumpOk(d)
    ensures JumpOk(r.0)
  {
    if d.last == 0 then
      if x == SENTINEL then (d, Error(d.since, d.last, x))
      else (Jump(0, x), Skip)
    else if d.since + 1 < d.last then
      if x == SENTINEL then (Jump(d.since + 1, d.last), Error(d.since + 1, d.last, x))
      else (Jump(d.since + 1, d.last), Byte(x))
    else if x == 0 then (START, Finished)
    else (Jump(0, x), if d.last < 0xff then Byte(0) else Skip)
  }

  /** A zero is never taken for data: it ends the frame exactly when a block is complete, and is
      an error anywhere else; and nothing else ends a frame or is an error. */
  lemma ZeroEndsOrFails(d: Jump, x: byte)
    requires JumpOk(d)
    ensures var e := PollPlain(d, x).1;
            && (e == Finished <==> x == 0 && d.last != 0 && d.since + 1 >= d.last)
            && (e.Error? <==> x == 0 && (d.last == 0 || d.since + 1 < d.last))
  {
  }

  /** So what delivers anything without an error has its one zero at its end. */
  lemma {:induction false} OneZero(d: Jump, wire: seq<byte>, data: seq<byte>)
    requires JumpOk(d) && Delivers(d, wire, AsPolls(data))
    ensures forall i :: 0 <= i < |wire| ==> (wire[i] == 0 <==> i == |wire| - 1)
    decreases |wire|
  {
    var (d1, e) := PollPlain(d, wire[0]);
    var (d2, es) := Drive(d1, wire[1..]);
    ZeroEndsOrFails(d, wire[0]);
    var want := AsPolls(data) + [Finished];
    assert ([e] + es)[1..] == es;
    assert want[|data|] == Finished && forall k :: 0 <= k < |data| ==> want[k] == Byte(data[k]);
    if |es| == 0 {
      assert |wire| == 1;
    } else {
      assert es[|es| - 1] == Finished;
      hide PollPlain;
      if e == Skip {
        OneZero(d1, wire[1..], data);
      } else {
        assert e == want[0] && Content(es) == want[1..];
        EndIsContent(es);
        assert |data| > 0;
        assert want[1..] == AsPolls(data[1..]) + [Finished];
        OneZero(d1, wire[1..], data[1..]);
      }
      assert forall i :: 0 < i < |wire| ==> wire[i] == wire[1..][i - 1];
    }
  }

  lemma EndIsContent(es: seq<Poll>)
    requires |es| > 0 && es[|es| - 1] == Finished
    ensures |Content(es)| > 0
  {
    var front := es[..|es| - 1];
    assert es == front + [Finished];
    ContentConcat(front, [Finished]);
    assert Content([Finished]) == [Finished];
  }

  class CobsDecoder {
    var since: nat
    var last: nat
    const mask: byte

    ghost function State(): Jump
      reads this
    {
      Jump(since, last)
    }

    constructor (mask: byte)
      ensures State() == START && this.mask == mask
    {
      since, last := 0, 0;
      this.mask := mask;
    }

    method Reset()
      modifies this
      ensures State() == START
    {
      since, last := 0, 0;
    }

    method Feed(raw: byte) returns (r: Poll)
      requires JumpOk(State())
      modifies this
      ensures (State(), r) == PollPlain(old(State()), Xor(raw, mask))
    {
      var b := Xor(raw, mask);
      if last == 0 {
        if b == SENTINEL {
          return Error(since, last, b);
        }
        last := b;
        since := 0;
        return Skip;
      }
      since := since + 1;
      if since < last {
        if b == SENTINEL {
          r := Error(since, last, b);
        } else {
          r := Byte(b);
        }
      } else {
        var prev := last;
        last := b;
        since := 0;
        if b == 0 {
          Reset();
          r := Finished;
        } else if prev < 0xff {
          r := Byte(0);
        } else {
          r := Skip;
        }
      }
    }
  }

  /** One poll result for every byte of `s`. */
  function Drive(d: Jump, s: seq<byte>): (r: (Jump, seq<Poll>))
    requires JumpOk(d)
    ensures JumpOk(r.0) && |r.1| == |s|
    decreases |s|
  {
    if |s| == 0 then (d, [])
    else
      var (d', e) := PollPlain(d, s[0]);
      var (d'', es) := Drive(d', s[1..]);
      (d'', [e] + es)
  }

  function Content(es: seq<Poll>): (r: seq<Poll>)
  {
    if |es| == 0 then []
    else if es[0] == Skip then Content(es[1..])
    else [es[0]] + Content(es[1..])
  }

  function AsPolls(s: seq<byte>): (r: seq<Poll>)
    ensures |r| == |s|
    ensures forall i :: 0 <= i < |s| ==> r[i] == Byte(s[i])
  {
    seq(|s|, i requires 0 <= i < |s| => Byte(s[i]))
  }

  lemma {:induction false} DriveConcat(d: Jump, s: seq<byte>, t: seq<byte>)
    requires JumpOk(d)
    ensures Drive(d, s + t)
            == (Drive(Drive(d, s).0, t).0, Drive(d, s).1 + Drive(Drive(d, s).0, t).1)
    decreases |s|
  {
    if |s| == 0 {
      assert s + t == t;
      assert [] + Drive(d, t).1 == Drive(d, t).1;
    } else {
      var (d', e) := PollPlain(d, s[0]);
      DriveConcat(d', s[1..], t);
      assert (s + t)[1..] == s[1..] + t;
      var (d1, es) := Drive(d', s[1..]);
      assert Drive(d, s) == (d1, [e] + es);
      assert [e] + (es + Drive(d1, t).1) == ([e] + es) + Drive(d1, t).1;
    }
  }

  lemma {:induction false} ContentConcat(es: seq<Poll>, fs: seq<Poll>)
    ensures Content(es + fs) == Content(es) + Content(fs)
  {
    if |es| == 0 {
      assert es + fs == fs;
    } else {
      ContentConcat(es[1..], fs);
      assert (es + fs)[1..] == es[1..] + fs && (es + fs)[0] == es[0];
      assert [es[0]] + (Content(es[1..]) + Content(fs)) == ([es[0]] + Content(es[1..])) + Content(fs);
    }
  }

  /** Between two code bytes the decoder passes non-zero bytes through. */
  lemma {:induction false} DriveInside(k: nat, c: nat, q: seq<byte>)
    requires k + |q| < c < 256
    requires forall i :: 0 <= i < |q| ==> q[i] != SENTINEL
    ensures Drive(Jump(k, c), q).0 == Jump(k + |q|, c)
    ensures Content(Drive(Jump(k, c), q).1) == AsPolls(q)
    decreases |q|
  {
    if |q| > 0 {
      DriveInside(k + 1, c, q[1..]);
      assert Drive(Jump(k, c), q).1[1..] == Drive(Jump(k + 1, c), q[1..]).1;
    }
  }

  /** The decoder is about to read a code byte, or the delimiter. */
  predicate AtBoundary(d: Jump)
  {
    d == START || (1 <= d.last < 256 && d.since == d.last - 1)
  }

  /** The zero that the block before `d` stands for and that has not been delivered. */
  function Owed(d: Jump): seq<Poll>
  {
    if 1 <= d.last < 0xff then [Byte(0)] else []
  }

  lemma DriveBlock(d: Jump, q: seq<byte>)
    requires AtBoundary(d)
    requires |q| < 255 && forall i :: 0 <= i < |q| ==> q[i] != SENTINEL
    ensures Drive(d, [|q| + 1] + q).0 == Jump(|q|, |q| + 1)
    ensures Content(Drive(d, [|q| + 1] + q).1) == Owed(d) + AsPolls(q)
  {
    var s: seq<byte> := [|q| + 1] + q;
    assert s[1..] == q;
    var d' := Jump(0, |q| + 1);
    assert PollPlain(d, s[0]).0 == d';
    DriveInside(0, |q| + 1, q);
    var es := Drive(d, s).1;
    assert es[1..] == Drive(d', q).1;
  }

  /** From `d`, the wire bytes deliver `data`, end on the last byte and rewind the decoder. */
  ghost predicate Delivers(d: Jump, wire: seq<byte>, data: seq<Poll>)
    requires JumpOk(d)
  {
    var (d', es) := Drive(d, wire);
    && d' == START
    && |es| > 0 && es[|es| - 1] == Finished
    && Content(es) == data + [Finished]
  }

  lemma DeliversEnd(d: Jump, p: seq<byte>)
    requires AtBoundary(d) && Pending(p)
    ensures Delivers(d, [|p| + 1] + p + [SENTINEL], Owed(d) + AsPolls(p))
  {
    var block: seq<byte> := [|p| + 1] + p;
    DriveBlock(d, p);
    DriveConcat(d, block, [SENTINEL]);
    var es, last := Drive(d, block).1, Drive(Jump(|p|, |p| + 1), [SENTINEL]).1;
    assert last == [Finished];
    ContentConcat(es, last);
  }

  lemma DeliversBlock(d: Jump, q: seq<byte>, rest: seq<byte>, data: seq<Poll>)
    requires AtBoundary(d)
    requires |q| < 255 && forall i :: 0 <= i < |q| ==> q[i] != SENTINEL
    requires Delivers(Jump(|q|, |q| + 1), rest, data)
    ensures Delivers(d, [|q| + 1] + q + rest, Owed(d) + AsPolls(q) + data)
  {
    var block: seq<byte> := [|q| + 1] + q;
    DriveBlock(d, q);
    DriveConcat(d, block, rest);
    var es, fs := Drive(d, block).1, Drive(Jump(|q|, |q| + 1), rest).1;
    ContentConcat(es, fs);
    Assoc(Owed(d) + AsPolls(q), data, [Finished]);
  }

  lemma AsPollsConcat(s: seq<byte>, t: seq<byte>)
    ensures AsPolls(s + t) == AsPolls(s) + AsPolls(t)
  {
  }

  /** A block and the zero it may stand for are the pending bytes and the next one. */
  lemma BlockData(p: seq<byte>, x: byte, q: seq<byte>)
    requires Pending(p)
    requires EncodeByte(p, x).1 == [|q| + 1] + q && |q| < 255
    ensures AsPolls(q) + Owed(Jump(|q|, |q| + 1)) == AsPolls(p + [x])
  {
    assert ([|q| + 1] + q)[1..] == q;
    if x == SENTINEL {
      assert q == p;
      AsPollsConcat(p, [x]);
      assert AsPolls([x]) == [Byte(0)];
    } else {
      assert ([0xff] + p + [x])[1..] == p + [x];
    }
  }

  lemma BlockShape(p: seq<byte>, x: byte) returns (q: seq<byte>)
    requires Pending(p) && EncodeByte(p, x).1 != []
    ensures EncodeByte(p, x) == ([], [|q| + 1] + q)
    ensures |q| < 255 && forall i :: 0 <= i < |q| ==> q[i] != SENTINEL
  {
    q := if x == SENTINEL then p else p + [x];
    Assoc([0xff], p, [x]);
  }

  lemma DecodeBlock(d: Jump, p: seq<byte>, x: byte, q: seq<byte>, t: seq<byte>)
    requires AtBoundary(d) && Pending(p)
    requires EncodeByte(p, x).1 == [|q| + 1] + q
    requires |q| < 255 && forall i :: 0 <= i < |q| ==> q[i] != SENTINEL
    requires var d' := Jump(|q|, |q| + 1); Delivers(d', EncodeFrom([], t), Owed(d') + AsPolls(t))
    ensures Delivers(d, [|q| + 1] + q + EncodeFrom([], t), Owed(d) + AsPolls((p + [x]) + t))
  {
    hide Delivers, EncodeFrom;
    var d' := Jump(|q|, |q| + 1);
    DeliversBlock(d, q, EncodeFrom([], t), Owed(d') + AsPolls(t));
    BlockData(p, x, q);
    AsPollsConcat(p + [x], t);
    Regroup(Owed(d), AsPolls(q), Owed(d'), AsPolls(t));
  }

  lemma {:induction false} DecodeEncodeFrom(d: Jump, p: seq<byte>, s: seq<byte>)
    requires AtBoundary(d) && Pending(p)
    ensures Delivers(d, EncodeFrom(p, s), Owed(d) + AsPolls(p + s))
    decreases |s|
  {
    hide Delivers, AsPolls;
    if |s| == 0 {
      DeliversEnd(d, p);
      assert p + s == p;
    } else {
      var x, t := s[0], s[1..];
      var (p', block) := EncodeByte(p, x);
      assert (p + [x]) + t == p + s;
      if block == [] {
        DecodeEncodeFrom(d, p', t);
        assert EncodeFrom(p, s) == EncodeFrom(p', t);
      } else {
        var q := BlockShape(p, x);
        DecodeEncodeFrom(Jump(|q|, |q| + 1), [], t);
        assert [] + t == t;
        DecodeBlock(d, p, x, q, t);
      }
    }
  }

  lemma Regroup<T>(a: seq<T>, b: seq<T>, c: seq<T>, d: seq<T>)
    ensures a + b + (c + d) == a + ((b + c) + d)
  {
    Assoc(a, b, c + d);
    Assoc(b, c, d);
  }

  /** Decoding what the encoder wrote, byte for byte through the same mask, delivers the
      bytes that were encoded, reports the end exactly on the last byte and leaves the
      decoder where it started. */
  lemma RoundTrip(s: seq<byte>, mask: byte)
    ensures Delivers(START, Masked(Encode(s, mask), mask), AsPolls(s))
  {
    MaskInverse(EncodeFrom([], s), mask);
    DecodeEncodeFrom(START, [], s);
    assert Owed(START) + AsPolls([] + s) == AsPolls(s);
  }

  lemma MaskInverse(s: seq<byte>, mask: byte)
    ensures Masked(Masked(s, mask), mask) == s
  {
    forall i | 0 <= i < |s|
      ensures Masked(Masked(s, mask), mask)[i] == s[i]
    {
      XorMask(s[i], mask);
    }
  }

  // ----- Shape of the encoding -------------------------------------------------------

  lemma {:induction false} EncodeFromShape(p: seq<byte>, s: seq<byte>)
    requires Pending(p)
    ensures var r := EncodeFrom(p, s);
            && |r| <= |p| + |s| + (|p| + |s|) / 254 + 2
            && |r| >= |p| + |s| + 2
            && r[|r| - 1] == SENTINEL
            && forall i :: 0 <= i < |r| - 1 ==> r[i] != SENTINEL
    decreases |s|
  {
    if |s| > 0 {
      var (p', block) := EncodeByte(p, s[0]);
      EncodeFromShape(p', s[1..]);
    }
  }

  /** The delimiter is written once, as the last byte, and the overhead is two bytes plus
      one for every 254 bytes of data at most. */
  lemma EncodeShape(s: seq<byte>, mask: byte)
    ensures var r := Encode(s, mask);
            && |s| + 2 <= |r| <= |s| + |s| / 254 + 2
            && forall i :: 0 <= i < |r| ==> (r[i] == mask <==> i == |r| - 1)
  {
    EncodeFromShape([], s);
    var plain := EncodeFrom([], s);
    forall i | 0 <= i < |plain|
      ensures Xor(plain[i], mask) == mask <==> i == |plain| - 1
    {
      XorMask(plain[i], mask);
    }
  }
}
