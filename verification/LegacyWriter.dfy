/** The string records of the legacy protocol, written into the same transmit queue. */
module LegacyWriters {
  import opened Wrappers
  import opened Bytes
  import opened TransmitBuffers

  /** The command word 0xDDDDEEEE, least significant byte first. */
  const PRINT_STRING: seq<byte> := [0xee, 0xee, 0xdd, 0xdd]

  function Record(length: nat, text: seq<byte>): seq<byte>
    requires length < U32_LIMIT
  {
    PRINT_STRING + ToLe32(length) + text
  }

  /** The length word that `Finalize` computes: the number of bytes since the checkpoint,
      less eight, in 32-bit arithmetic. */
  function LengthWord(text: seq<byte>, capacity: nat): (n: nat)
    ensures n < U32_LIMIT
  {
    ((if |text| + 8 == capacity then 0 else |text| + 8) - 8) % U32_LIMIT
  }

  /** The length word is right exactly when the record does not fill the whole ring (and
      so must have found it empty). */
  lemma LengthWordRight(text: seq<byte>, capacity: nat)
    requires |text| < U32_LIMIT - 8
    ensures LengthWord(text, capacity) == |text| <==> |text| + 8 != capacity
  {
    if |text| + 8 == capacity {
      assert LengthWord(text, capacity) == U32_LIMIT - 8;
    }
  }

  function Open(base: seq<byte>, unset: seq<byte>, text: seq<byte>): seq<byte>
  {
    base + (PRINT_STRING + unset + text)
  }

  lemma OpenExtend(base: seq<byte>, unset: seq<byte>, text: seq<byte>, more: seq<byte>)
    requires |unset| == 4
    ensures Open(base, unset, text) + more == Open(base, unset, text + more)
    ensures Open(base, unset, text)[..|base|] == base
    ensures |Open(base, unset, text)| == |base| + 8 + |text|
  {
    Assoc(base, PRINT_STRING + unset + text, more);
    Assoc(PRINT_STRING + unset, text, more);
  }

  lemma OpenPatch(base: seq<byte>, unset: seq<byte>, text: seq<byte>, length: seq<byte>)
    requires |unset| == |length| == 4
    ensures var u := Open(base, unset, text);
            var k := |base| + 4;
            k + 4 <= |u| && u[..k] + length + u[k + 4..] == Open(base, length, text)
  {
    var u, k := Open(base, unset, text), |base| + 4;
    assert u[..k] == base + PRINT_STRING;
    assert u[k + 4..] == text;
    Assoc(base + PRINT_STRING, length, text);
    Assoc(base, PRINT_STRING, length + text);
    Assoc(PRINT_STRING, length, text);
  }

  class LegacyWriter {
    const buffer: TransmitBuffer
    const checkpoint: Checkpoint
    var lenOffset: nat
    var ok: bool

    ghost const base: seq<byte>
    ghost var text: seq<byte>
    ghost var unset: seq<byte>
    ghost const Repr: set<object>

    ghost predicate Valid()
      reads Repr
    {
      && Repr == {this, buffer, buffer.storage}
      && buffer.Valid() && buffer.Covers(checkpoint)
      && checkpoint.len == |base| && buffer.Contents()[..|base|] == base
      && (ok ==>
            && |unset| == 4 && |base| + 8 <= buffer.len
            && lenOffset == Slot(buffer.begin, |base| + 4, buffer.storage.Length)
            && buffer.Contents() == Open(base, unset, text))
      && (!ok ==> buffer.storage.Length < |base| + 8 + |text|)
    }

    constructor (buffer: TransmitBuffer)
      requires buffer.Valid()
      modifies buffer, buffer.storage
      ensures Valid()
      ensures this.buffer == buffer && base == old(buffer.Contents()) && text == []
    {
      this.buffer := buffer;
      checkpoint := buffer.TakeCheckpoint();
      base := buffer.Contents();
      text, unset := [], [];
      Repr := {this, buffer, buffer.storage};
      lenOffset := 0;
      ok := false;
      new;
      hide Open;
      var fits := buffer.ExtendFromSlice(PRINT_STRING);
      if fits {
        var at := buffer.Reserve(4);
        if at.Some? {
          lenOffset := at.value;
          ok := true;
          ghost var queued := buffer.Contents();
          unset := queued[|base| + 4..];
          assert queued == queued[..|base| + 4] + unset;
          OpenStart(base, unset);
        }
      }
    }

    method WriteStr(s: seq<byte>)
      requires Valid()
      modifies Repr
      ensures Valid() && text == old(text) + s && unset == old(unset)
    {
      hide Open;
      if ok {
        OpenExtend(base, unset, text, s);
        OpenExtend(base, unset, text + s, []);
        ok := buffer.ExtendFromSlice(s);
      }
      text := text + s;
    }

    /** Text that comes in pieces. */
    method WritePieces(pieces: seq<seq<byte>>)
      requires Valid() && text == []
      modifies Repr
      ensures Valid() && text == Flatten(pieces)
    {
      hide LegacyWriter.Valid;
      for i := 0 to |pieces|
        invariant Valid() && text == Flatten(pieces[..i])
      {
        FlattenAppend(pieces[..i], pieces[i]);
        assert pieces[..i + 1] == pieces[..i] + [pieces[i]];
        WriteStr(pieces[i]);
      }
      assert pieces[..|pieces|] == pieces;
    }

    /** Committed exactly when it fits; otherwise the queue is what it was. */
    method Finalize() returns (r: bool)
      requires Valid()
      modifies Repr
      ensures buffer.Valid() && buffer.begin == old(buffer.begin)
      ensures r <==> |base| + 8 + |old(text)| <= buffer.storage.Length
      ensures r ==> buffer.Contents()
                    == base + Record(LengthWord(old(text), buffer.storage.Length), old(text))
      ensures !r ==> buffer.Contents() == base
    {
      OpenLength(base, unset, text);
      if !ok {
        buffer.Restore(checkpoint);
      } else {
        var length := (buffer.BytesSince(checkpoint) as int - 8) % U32_LIMIT;
        assert length == LengthWord(text, buffer.storage.Length);
        OpenPatch(base, unset, text, ToLe32(length));
        hide ToLe32;
        buffer.Patch(lenOffset, |base| + 4, ToLe32(length));
      }
      r := ok;
    }
  }

  lemma OpenStart(base: seq<byte>, unset: seq<byte>)
    ensures base + PRINT_STRING + unset == Open(base, unset, [])
    ensures (base + PRINT_STRING + unset)[..|base|] == base
  {
    Assoc(base, PRINT_STRING, unset);
    assert PRINT_STRING + unset + [] == PRINT_STRING + unset;
  }

  lemma OpenLength(base: seq<byte>, unset: seq<byte>, text: seq<byte>)
    ensures |unset| == 4 ==> |Open(base, unset, text)| == |base| + 8 + |text|
  {
  }
}
