/** Writing frames straight into the transmit queue, without knowing their size first: the
    queue is rolled back when the frame turns out not to fit, and the length field, reserved
    at the start, is patched in at the end. */
module FrameWriters {
  import opened Wrappers
  import opened Bytes
  import opened Frames
  import opened TransmitBuffers
  import Cobs

  /** Everything of a frame but its preamble and length, given the bytes the CRC covers. */
  function Tail(crc: Crc, covered: seq<byte>, mask: byte): seq<byte>
  {
    Cobs.Encode(covered + ToLe32(crc.Sum(covered)), mask)
  }

  lemma EmittedFits(s: seq<byte>, t: seq<byte>, mask: byte)
    ensures |Cobs.Emitted(s).1| <= |Cobs.Encode(s + t, mask)|
  {
    Cobs.EmittedThenRest(s, t);
  }

  /** The queue with an unfinished frame behind `base`, its length still unset. */
  function Unfinished(base: seq<byte>, unset: seq<byte>, tail: seq<byte>): seq<byte>
  {
    base + (PREAMBLE + unset + tail)
  }

  lemma UnfinishedExtend(base: seq<byte>, unset: seq<byte>, tail: seq<byte>, more: seq<byte>)
    ensures Unfinished(base, unset, tail) + more == Unfinished(base, unset, tail + more)
  {
    Assoc(base, PREAMBLE + unset + tail, more);
    Assoc(PREAMBLE + unset, tail, more);
  }

  lemma UnfinishedStart(base: seq<byte>, unset: seq<byte>)
    ensures base + PREAMBLE + unset == Unfinished(base, unset, [])
    ensures (base + PREAMBLE + unset)[..|base|] == base
  {
    Assoc(base, PREAMBLE, unset);
    assert PREAMBLE + unset + [] == PREAMBLE + unset;
  }

  lemma UnfinishedBase(base: seq<byte>, unset: seq<byte>, tail: seq<byte>)
    requires |unset| == 4
    ensures Unfinished(base, unset, tail)[..|base|] == base
    ensures |Unfinished(base, unset, tail)| == |base| + 8 + |tail|
  {
  }

  lemma UnfinishedPatch(base: seq<byte>, unset: seq<byte>, tail: seq<byte>, length: seq<byte>)
    requires |unset| == |length| == 4
    ensures var u := Unfinished(base, unset, tail);
            var k := |base| + 4;
            k + 4 <= |u| && u[..k] + length + u[k + 4..] == Unfinished(base, length, tail)
  {
    var u, k := Unfinished(base, unset, tail), |base| + 4;
    assert u[..k] == base + PREAMBLE;
    assert u[k + 4..] == tail;
    Assoc(base + PREAMBLE, length, tail);
    Assoc(base, PREAMBLE, length + tail);
    Assoc(PREAMBLE, length, tail);
  }

  class FrameWriter {
    const buffer: TransmitBuffer
    const encoder: Cobs.FrameEncoder
    const crc: Crc
    const checkpoint: Checkpoint
    var lenOffset: nat
    var ok: bool
    var hash: nat
    var fmtBytes: nat

    /** What was queued before this frame, and all bytes handed to the writer so far. */
    ghost const base: seq<byte>
    ghost var added: seq<byte>
    ghost var covered: seq<byte>
    /** Once the frame does not fit: how much had been handed over when that was found. */
    ghost var overflowAt: nat
    /** What the reserved length field holds before it is patched. */
    ghost var unset: seq<byte>

    ghost const Repr: set<object>

    ghost predicate Shape()
    {
      && Repr == {this, buffer, buffer.storage, encoder, encoder.buf}
      && buffer.storage != encoder.buf
    }

    ghost function Room(): int
    {
      buffer.storage.Length - |base|
    }

    ghost predicate Valid()
      reads Repr
    {
      && Shape()
      && buffer.Valid() && buffer.Covers(checkpoint)
      && checkpoint.len == |base| && buffer.Contents()[..|base|] == base
      && hash == crc.Run(crc.init, covered)
      && (ok ==>
            && encoder.Valid() && encoder.written == added
            && |unset| == 4 && |base| + 8 <= buffer.len
            && lenOffset == Slot(buffer.begin, |base| + 4, buffer.storage.Length)
            && buffer.Contents() == Unfinished(base, unset, Masked(Cobs.Emitted(added).1, encoder.mask)))
      && (!ok ==>
            && overflowAt <= |added|
            && (Room() < 8 || Room() < 8 + |Cobs.Emitted(added[..overflowAt]).1|))
    }

    constructor (buffer: TransmitBuffer, encoder: Cobs.FrameEncoder, crc: Crc)
      requires buffer.Valid() && encoder.Valid() && encoder.written == []
      requires buffer.storage != encoder.buf
      modifies buffer, buffer.storage
      ensures Valid()
      ensures this.buffer == buffer && this.encoder == encoder && this.crc == crc
      ensures Repr == {this, buffer, buffer.storage, encoder, encoder.buf}
      ensures base == old(buffer.Contents()) && added == [] && covered == [] && fmtBytes == 0
    {
      this.buffer := buffer;
      this.encoder := encoder;
      this.crc := crc;
      checkpoint := buffer.TakeCheckpoint();
      base := buffer.Contents();
      Repr := {this, buffer, buffer.storage, encoder, encoder.buf};
      added, covered := [], [];
      overflowAt, unset := 0, [];
      hash := crc.init;
      fmtBytes := 0;
      lenOffset := 0;
      ok := false;
      new;
      Cobs.NothingEmitted(encoder.mask);
      hide Unfinished, Masked, Cobs.Emitted, Slot;
      var fits := buffer.ExtendFromSlice(PREAMBLE);
      if fits {
        var at := buffer.Reserve(4);
        if at.Some? {
          lenOffset := at.value;
          ok := true;
          ghost var queued := buffer.Contents();
          unset := queued[|base| + 4..];
          assert queued == queued[..|base| + 4] + unset;
          UnfinishedStart(base, unset);
        }
      }
    }

    /** Hands bytes to the encoder without hashing them. */
    method AddBytesUnhashed(bytes: seq<byte>)
      requires Valid()
      modifies Repr
      ensures Valid()
      ensures added == old(added) + bytes && covered == old(covered) && hash == old(hash)
      ensures fmtBytes == old(fmtBytes) && unset == old(unset) && lenOffset == old(lenOffset)
      ensures ok ==> old(ok)
    {
      if !ok {
        added := added + bytes;
        assert added[..overflowAt] == old(added)[..overflowAt];
        return;
      }
      for i := 0 to |bytes|
        invariant Valid()
        invariant ok ==> added == old(added) + bytes[..i]
        invariant !ok ==> added == old(added) + bytes
        invariant covered == old(covered) && hash == old(hash) && fmtBytes == old(fmtBytes)
        invariant unset == old(unset) && lenOffset == old(lenOffset)
      {
        if !ok {
          return;
        }
        hide Unfinished;
        AddByte(bytes[i], bytes[i + 1..]);
        assert bytes[..i + 1] == bytes[..i] + [bytes[i]];
        assert bytes == bytes[..i] + [bytes[i]] + bytes[i + 1..];
      }
      assert bytes[..|bytes|] == bytes;
    }

    /** One byte; when the queue is full the rest of the bytes is given up as well. */
    method AddByte(b: byte, ghost rest: seq<byte>)
      requires Valid() && ok
      modifies Repr
      ensures Valid()
      ensures added == old(added) + (if ok then [b] else [b] + rest)
      ensures covered == old(covered) && hash == old(hash) && fmtBytes == old(fmtBytes)
      ensures unset == old(unset) && lenOffset == old(lenOffset)
    {
      hide Cobs.Emitted, Cobs.EncodeByte, Masked, Unfinished;
      ghost var kept := buffer.Contents();
      ghost var emitted := Masked(Cobs.Emitted(added).1, encoder.mask);
      UnfinishedBase(base, unset, emitted);
      var r := encoder.WriteU8(b);
      added := added + [b];
      if r.Buf? {
        UnfinishedExtend(base, unset, emitted, r.bytes);
        UnfinishedBase(base, unset, emitted + r.bytes);
        ok := buffer.ExtendFromSlice(r.bytes);
        if !ok {
          assert buffer.Contents() == kept;
          overflowAt := |added|;
          assert added[..overflowAt] == added;
          added := added + rest;
          assert added[..overflowAt] == old(added) + [b];
          Assoc(old(added), [b], rest);
        }
      } else {
        assert emitted + [] == emitted;
      }
    }

    method AddBytes(bytes: seq<byte>)
      requires Valid() && added == covered
      modifies Repr
      ensures Valid() && added == covered == old(added) + bytes
      ensures fmtBytes == old(fmtBytes)
    {
      crc.RunConcat(crc.init, covered, bytes);
      hash := crc.Run(hash, bytes);
      covered := covered + bytes;
      AddBytesUnhashed(bytes);
    }

    method Write32(x: nat)
      requires Valid() && added == covered && x < U32_LIMIT
      modifies Repr
      ensures Valid() && added == covered == old(added) + ToLe32(x)
      ensures fmtBytes == old(fmtBytes)
    {
      AddBytes(ToLe32(x));
    }

    method WriteStr(s: seq<byte>)
      requires Valid() && added == covered
      modifies Repr
      ensures Valid() && added == covered == old(added) + s
      ensures fmtBytes == old(fmtBytes) + |s|
    {
      AddBytes(s);
      fmtBytes := fmtBytes + |s|;
    }

    /** The first half of `Finalize`: the CRC and the end of the stuffed part. */
    method Close()
      requires Valid() && added == covered
      modifies Repr
      ensures buffer.Valid() && buffer.begin == old(buffer.begin) && buffer.Covers(checkpoint)
      ensures unset == old(unset) && lenOffset == old(lenOffset)
      ensures var tail := Tail(crc, old(covered), encoder.mask);
              && (ok <==> 8 + |tail| <= Room())
              && (ok ==> old(ok) && buffer.Contents() == Unfinished(base, unset, tail))
              && (!ok ==> buffer.Contents()[..|base|] == base)
    {
      hide Cobs.Emitted, Cobs.EncodeFrom, Masked, Unfinished;
      ghost var content := covered + ToLe32(crc.Sum(covered));
      if ok {
        var sum := crc.finish(hash) % U32_LIMIT;
        AddBytesUnhashed(ToLe32(sum));
        assert added == content;
      } else {
        added := content;
        assert added[..overflowAt] == old(added)[..overflowAt];
      }
      if ok {
        ghost var emitted := Masked(Cobs.Emitted(added).1, encoder.mask);
        var last := encoder.Finish();
        UnfinishedExtend(base, unset, emitted, last);
        UnfinishedBase(base, unset, emitted);
        UnfinishedBase(base, unset, emitted + last);
        ok := buffer.ExtendFromSlice(last);
      } else {
        assert content == content[..overflowAt] + content[overflowAt..];
        EmittedFits(content[..overflowAt], content[overflowAt..], encoder.mask);
      }
    }

    /** Ends the frame. The frame is committed exactly when it fits and its length can be
        written; when it does not fit the queue is what it was before the frame; only a
        length that cannot be written leaves an unusable frame behind. */
    method Finalize(payloadBytes: nat) returns (r: bool)
      requires Valid() && added == covered
      modifies Repr
      ensures buffer.Valid() && buffer.begin == old(buffer.begin)
      ensures var tail := Tail(crc, old(covered), encoder.mask);
              var fits := 8 + |tail| <= Room();
              && (r <==> fits && payloadBytes < LENGTH_LIMIT)
              && (!fits ==> buffer.Contents() == base)
              && (r ==> buffer.Contents() == base + (PREAMBLE + EncodeLength(payloadBytes).value + tail))
              && (fits && !r ==> |old(unset)| == 4 && buffer.Contents() == base + (PREAMBLE + old(unset) + tail))
    {
      hide Tail;
      Close();
      if !ok {
        buffer.Restore(checkpoint);
      } else {
        ghost var tail := Tail(crc, old(covered), encoder.mask);
        UnfinishedBase(base, unset, tail);
        var length := EncodeLength(payloadBytes);
        if length.Some? {
          UnfinishedPatch(base, unset, tail, length.value);
          buffer.Patch(lenOffset, |base| + 4, length.value);
        } else {
          ok := false;
        }
      }
      r := ok;
    }

    method Abort()
      requires Valid()
      modifies Repr
      ensures buffer.Valid() && buffer.begin == old(buffer.begin) && buffer.Contents() == base
    {
      buffer.Restore(checkpoint);
    }
  }
}
