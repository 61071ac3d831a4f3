/** The transmit side as the rest of the bootloader uses it: framed messages, framed prints,
    legacy prints and the byte-by-byte drain, in any order. */
module FrameSinks {
  import opened Wrappers
  import opened Bytes
  import opened Frames
  import opened TransmitBuffers
  import opened FrameWriters
  import opened LegacyWriters
  import Cobs

  datatype SendResult = Sent | PostcardError | ConstructEncoder | Truncated

  /** The message's frame, its length field included, has a place in so much room. */
  predicate Fits(crc: Crc, t: MessageType, payload: seq<byte>, room: int)
  {
    8 + |Cobs.Encode(Stuffed(crc, t, payload), COBS_XOR)| <= room
  }

  /** The frame without a length, which is what is left of one whose length has no encoding. */
  ghost predicate LeftBehind(record: seq<byte>, crc: Crc, t: MessageType, payload: seq<byte>)
  {
    exists hole: seq<byte> ::
      |hole| == 4 && record == PREAMBLE + hole + Cobs.Encode(Stuffed(crc, t, payload), COBS_XOR)
  }

  /** What framing a message does to the records: one frame more, or nothing, or a frame that is
      no use; and which of the three. */
  ghost predicate Framing(
    before: seq<seq<byte>>, after: seq<seq<byte>>, crc: Crc, t: MessageType, payload: seq<byte>, room: int, r: SendResult)
  {
    && r == (if Fits(crc, t, payload, room) && |payload| < LENGTH_LIMIT then Sent else Truncated)
    && if Fits(crc, t, payload, room) then
         |after| == |before| + 1 && after[..|before|] == before && Committed(after[|before|], crc, t, payload)
       else
         after == before
  }

  ghost predicate Committed(record: seq<byte>, crc: Crc, t: MessageType, payload: seq<byte>)
  {
    if |payload| < LENGTH_LIMIT then record == Frame(crc, t, payload) else LeftBehind(record, crc, t, payload)
  }

  lemma FramingCommitted(
      before: seq<seq<byte>>, record: seq<byte>, crc: Crc, t: MessageType, payload: seq<byte>, room: int, r: SendResult)
    requires Fits(crc, t, payload, room) && Committed(record, crc, t, payload)
    requires r == if |payload| < LENGTH_LIMIT then Sent else Truncated
    ensures Framing(before, before + [record], crc, t, payload, room, r)
  {
    hide Fits, Committed;
    assert (before + [record])[..|before|] == before;
  }

  lemma NotFraming(before: seq<seq<byte>>, crc: Crc, t: MessageType, payload: seq<byte>, room: int)
    requires !Fits(crc, t, payload, room)
    ensures Framing(before, before, crc, t, payload, room, Truncated)
  {
  }

  lemma FrameParts(crc: Crc, t: MessageType, payload: seq<byte>, room: int)
    ensures var tail := Tail(crc, Covered(t, payload), COBS_XOR);
            && (Fits(crc, t, payload, room) <==> 8 + |tail| <= room)
            && tail == Cobs.Encode(Stuffed(crc, t, payload), COBS_XOR)
            && (|payload| < LENGTH_LIMIT ==> Frame(crc, t, payload) == PREAMBLE + EncodeLength(|payload|).value + tail)
  {
    hide Cobs.Encode, ToLe32, TypeCode, EncodeLength;
  }

  /** On a ring of up to 2^24 bytes a message is queued whole or not at all. */
  lemma WholeOrNothing(
      before: seq<seq<byte>>, after: seq<seq<byte>>, crc: Crc, t: MessageType, payload: seq<byte>, room: int, r: SendResult)
    requires Framing(before, after, crc, t, payload, room, r) && room <= LENGTH_LIMIT
    ensures r == Sent || r == Truncated
    ensures r == Sent ==> |payload| < LENGTH_LIMIT && after == before + [Frame(crc, t, payload)]
    ensures r == Truncated ==> after == before
  {
    Cobs.EncodeShape(Stuffed(crc, t, payload), COBS_XOR);
    hide Cobs.Encode, Frame;
    if Fits(crc, t, payload, room) {
      assert after == after[..|before|] + [after[|before|]];
    }
  }

  class FrameSink {
    const buffer: TransmitBuffer
    const encodeBuffer: array<byte>
    const crc: Crc
    /** Whether the staging buffer for serialised messages is still in place. */
    var staged: bool

    /** Everything taken out of the queue so far, and every record ever committed. */
    ghost var shifted: seq<byte>
    ghost var records: seq<seq<byte>>
    ghost const Repr: set<object>

    /** What was taken out, followed by what is still queued, is exactly the records in the
        order in which they were committed. */
    ghost predicate Valid()
      reads Repr
    {
      && Repr == {this, buffer, buffer.storage, encodeBuffer}
      && buffer.storage != encodeBuffer
      && buffer.Valid()
      && shifted + buffer.Contents() == Flatten(records)
    }

    constructor (buffer: TransmitBuffer, encodeBuffer: array<byte>, crc: Crc)
      requires buffer.Valid() && buffer.Contents() == [] && buffer.storage != encodeBuffer
      ensures Valid() && shifted == [] && records == [] && staged
      ensures this.buffer == buffer && this.encodeBuffer == encodeBuffer && this.crc == crc
    {
      this.buffer := buffer;
      this.encodeBuffer := encodeBuffer;
      this.crc := crc;
      staged := true;
      shifted, records := [], [];
      Repr := {this, buffer, buffer.storage, encodeBuffer};
    }

    ghost function Room(): nat
      requires Valid()
      reads Repr
    {
      buffer.RemainingSpace()
    }

    /** Notes that `record` has been queued. */
    ghost method Commit(record: seq<byte>, before: seq<byte>)
      requires Repr == {this, buffer, buffer.storage, encodeBuffer}
      requires buffer.storage != encodeBuffer && buffer.Valid()
      requires shifted + before == Flatten(records) && buffer.Contents() == before + record
      modifies this`records
      ensures Valid() && records == old(records) + [record]
    {
      FlattenAppend(records, record);
      Assoc(shifted, before, record);
      records := records + [record];
    }

    /** Sends one message. `serialised` is what postcard made of it, if it could. The frame is
        queued whole or not at all, unless its length has no encoding, for which the ring must
        have more than 2^24 bytes. */
    method Send(t: MessageType, serialised: Option<seq<byte>>) returns (r: SendResult)
      requires Valid() && staged
      modifies Repr
      ensures Valid() && shifted == old(shifted)
      ensures r == ConstructEncoder <==> encodeBuffer.Length != 255
      ensures staged <==> r != ConstructEncoder
      ensures r == PostcardError <==> encodeBuffer.Length == 255 && serialised.None?
      ensures r == ConstructEncoder || r == PostcardError ==> records == old(records)
      ensures r == Sent || r == Truncated ==>
                serialised.Some? && Framing(old(records), records, crc, t, serialised.value, old(Room()), r)
      ensures records == old(records) ==> buffer.Contents() == old(buffer.Contents())
    {
      staged := false;
      if encodeBuffer.Length != 255 {
        return ConstructEncoder;
      }
      r := SendFramed(t, serialised);
      staged := true;
    }

    method SendFramed(t: MessageType, serialised: Option<seq<byte>>) returns (r: SendResult)
      requires Valid() && encodeBuffer.Length == 255
      modifies Repr
      ensures Valid() && shifted == old(shifted)
      ensures r != ConstructEncoder && (r == PostcardError <==> serialised.None?)
      ensures r == PostcardError ==> records == old(records)
      ensures r == Sent || r == Truncated ==>
                serialised.Some? && Framing(old(records), records, crc, t, serialised.value, old(Room()), r)
      ensures records == old(records) ==> buffer.Contents() == old(buffer.Contents())
    {
      hide FrameWriter.Valid, Frame, ToLe32, TypeCode, Cobs.FrameEncoder.Valid, Framing;
      ghost var before := buffer.Contents();
      var encoder := new Cobs.FrameEncoder(encodeBuffer, COBS_XOR);
      var fw := new FrameWriter(buffer, encoder, crc);
      fw.Write32(TypeCode(t));
      assert [] + ToLe32(TypeCode(t)) == ToLe32(TypeCode(t));
      match serialised {
        case None =>
          fw.Abort();
          r := PostcardError;
        case Some(payload) =>
          fw.AddBytes(payload);
          r := FinishFrame(fw, t, payload, before);
      }
    }

    method FinishFrame(fw: FrameWriter, t: MessageType, payload: seq<byte>, ghost before: seq<byte>)
      returns (r: SendResult)
      requires fw.Valid() && fw.buffer == buffer && fw.crc == crc && fw.encoder.mask == COBS_XOR
      requires fw.encoder.buf == encodeBuffer && fw.added == fw.covered == Covered(t, payload)
      requires Repr == {this, buffer, buffer.storage, encodeBuffer}
      requires buffer.storage != encodeBuffer
      requires fw.base == before && shifted + before == Flatten(records) && |before| <= buffer.storage.Length
      requires fw as object != this && fw.encoder as object != this
      modifies fw.Repr, this`records
      ensures Valid() && shifted == old(shifted) && staged == old(staged)
      ensures r == Sent || r == Truncated
      ensures Framing(old(records), records, crc, t, payload, buffer.storage.Length - |before|, r)
      ensures records == old(records) ==> buffer.Contents() == before
    {
      hide Cobs.Encode, ToLe32, TypeCode, Framing, Fits, Frame, Stuffed, Tail, Covered, Committed;
      ghost var room := buffer.storage.Length - |before|;
      ghost var fits := Fits(crc, t, payload, room);
      var done;
      ghost var record;
      done, record := FinalizeFrame(fw, t, payload, before);
      r := if done then Sent else Truncated;
      if fits {
        FramingCommitted(records, record, crc, t, payload, room, r);
        Commit(record, before);
      } else {
        NotFraming(records, crc, t, payload, room);
      }
    }

    method FinalizeFrame(fw: FrameWriter, t: MessageType, payload: seq<byte>, ghost before: seq<byte>)
      returns (done: bool, ghost record: seq<byte>)
      requires fw.Valid() && fw.buffer == buffer && fw.crc == crc && fw.encoder.mask == COBS_XOR
      requires fw.added == fw.covered == Covered(t, payload) && fw.base == before
      modifies fw.Repr
      ensures buffer.Valid()
      ensures var fits := Fits(crc, t, payload, buffer.storage.Length - |before|);
              && (done <==> fits && |payload| < LENGTH_LIMIT)
              && (!fits ==> buffer.Contents() == before)
              && (fits ==> buffer.Contents() == before + record && Committed(record, crc, t, payload))
    {
      hide Cobs.Encode, ToLe32, TypeCode, Stuffed, Tail, Covered, Frame, Fits, EncodeLength;
      ghost var tail := Tail(crc, fw.covered, COBS_XOR);
      FrameParts(crc, t, payload, buffer.storage.Length - |before|);
      record := if |payload| < LENGTH_LIMIT then Frame(crc, t, payload) else PREAMBLE + fw.unset + tail;
      done := fw.Finalize(|payload|);
    }

    /** Prints a line as a framed message, piece by piece as it is formatted. */
    method PrintFramed(pieces: seq<seq<byte>>) returns (r: SendResult)
      requires Valid() && encodeBuffer.Length == 255
      modifies Repr
      ensures Valid() && shifted == old(shifted) && staged == old(staged)
      ensures r == Sent || r == Truncated
      ensures Framing(old(records), records, crc, PrintString, Flatten(pieces), old(Room()), r)
      ensures records == old(records) ==> buffer.Contents() == old(buffer.Contents())
    {
      hide FrameWriter.Valid, Frame, ToLe32, Cobs.FrameEncoder.Valid, Framing;
      ghost var before := buffer.Contents();
      var encoder := new Cobs.FrameEncoder(encodeBuffer, COBS_XOR);
      var fw := new FrameWriter(buffer, encoder, crc);
      fw.Write32(TypeCode(PrintString));
      ghost var code := ToLe32(TypeCode(PrintString));
      assert code + Flatten([]) == code && pieces[..0] == [];
      for i := 0 to |pieces|
        invariant fw.Valid() && fw.added == fw.covered == code + Flatten(pieces[..i])
        invariant fw.fmtBytes == |Flatten(pieces[..i])|
        invariant unchanged(this) && fresh(fw) && fresh(encoder)
      {
        FlattenAppend(pieces[..i], pieces[i]);
        assert pieces[..i + 1] == pieces[..i] + [pieces[i]];
        fw.WriteStr(pieces[i]);
        Assoc(code, Flatten(pieces[..i]), pieces[i]);
      }
      assert pieces[..|pieces|] == pieces;
      r := FinishFrame(fw, PrintString, Flatten(pieces), before);
    }

    /** Prints a legacy string record, piece by piece. */
    method PrintLegacy(pieces: seq<seq<byte>>) returns (r: bool)
      requires Valid()
      modifies Repr
      ensures Valid() && shifted == old(shifted) && staged == old(staged)
      ensures var text := Flatten(pieces);
              && (r <==> 8 + |text| <= old(Room()))
              && (r ==> records == old(records) + [Record(LengthWord(text, buffer.storage.Length), text)])
              && (!r ==> records == old(records) && buffer.Contents() == old(buffer.Contents()))
    {
      hide LengthWord, Record;
      ghost var before := buffer.Contents();
      var writer := new LegacyWriter(buffer);
      hide Flatten;
      writer.WritePieces(pieces);
      r := writer.Finalize();
      if r {
        Commit(Record(LengthWord(Flatten(pieces), buffer.storage.Length), Flatten(pieces)), before);
      }
    }

    /** Takes the next byte for the UART. */
    method ShiftByte() returns (b: Option<byte>)
      requires Valid()
      modifies Repr
      ensures Valid() && records == old(records) && staged == old(staged)
      ensures shifted == old(shifted) + (if b.Some? then [b.value] else [])
      ensures b.None? <==> old(shifted) == Flatten(records)
    {
      ghost var before := buffer.Contents();
      b := buffer.ShiftByte();
      if b.Some? {
        Assoc(shifted, [b.value], buffer.Contents());
        assert |shifted + before| > |shifted|;
        shifted := shifted + [b.value];
      } else {
        assert before == [];
        assert shifted + [] == shifted;
      }
    }
  }
}
