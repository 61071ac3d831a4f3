/** The host's batch form of the frame writer. */
module HostEncode {
  import opened Wrappers
  import opened Bytes
  import opened Frames
  import Cobs

  /** Drives the streaming encoder over a whole message. */
  method Stuff(message: seq<byte>, mask: byte) returns (stuffed: seq<byte>)
    ensures stuffed == Cobs.Encode(message, mask)
  {
    hide Cobs.Emitted, Cobs.Encode, Cobs.EncodeByte, Cobs.EncodeFrom;
    var buf := new byte[255](_ => 0);
    var encoder := new Cobs.FrameEncoder(buf, mask);
    stuffed := [];
    Cobs.NothingEmitted(mask);
    for i := 0 to |message|
      invariant encoder.Valid() && fresh(encoder) && encoder.buf == buf && fresh(buf) && encoder.mask == mask
      invariant encoder.written == message[..i]
      invariant stuffed == Masked(Cobs.Emitted(message[..i]).1, mask)
    {
      hide Masked;
      var e := encoder.WriteU8(message[i]);
      match e {
        case Buf(b) => stuffed := stuffed + b;
        case Pass => assert stuffed + [] == stuffed;
      }
      assert message[..i + 1] == message[..i] + [message[i]];
    }
    assert message[..|message|] == message;
    var last := encoder.Finish();
    stuffed := stuffed + last;
  }

  /** `None` stands for the panic on a payload whose length has no encoding. */
  method Encode(crc: Crc, t: MessageType, payload: seq<byte>) returns (r: Option<seq<byte>>)
    ensures r.None? <==> |payload| >= LENGTH_LIMIT
    ensures r.Some? ==> r.value == Frame(crc, t, payload)
  {
    hide Cobs.Encode, ToLe32, TypeCode;
    var messageBytes := ToLe32(TypeCode(t));
    messageBytes := messageBytes + payload;
    var sum := crc.Sum(messageBytes);
    messageBytes := messageBytes + ToLe32(sum);

    var wireBytes := PREAMBLE;
    var length := EncodeLength(|payload|);
    if length.None? {
      return None;
    }
    wireBytes := wireBytes + length.value;
    var stuffed := Stuff(messageBytes, COBS_XOR);
    r := Some(wireBytes + stuffed);
  }
}
