/** The messages of the V2 upload protocol and the pure parts of both sides. */
module V2Messages {
  import opened Bytes

  const CHUNK_SIZE := 0x1000

  datatype Format = Bin(loadAddress: nat) | Elf

  datatype Metadata = Metadata(
    deflatedCrc: nat, deflatedLen: nat, inflatedCrc: nat, inflatedLen: nat, format: Format)

  datatype DeviceMessage =
    | MetadataReq
    | MetadataAck(chunkSize: nat, metadata: Metadata)
    | ChunkReq(which: nat)
    | Booting

  datatype HostMessage =
    | MetadataOf(metadata: Metadata)
    | MetadataAckAck(isOk: bool)
    | Chunk(which: nat, bytes: seq<byte>)
    | BootingAck

  /** The load addresses the device accepts. */
  predicate Loadable(f: Format)
  {
    f.Bin? ==> f.loadAddress < 0x1000_0000 && f.loadAddress % 4 == 0
  }

  /** The number of chunks a file of `n` bytes is cut into. */
  function ChunkCount(n: nat): nat
  {
    (n + CHUNK_SIZE - 1) / CHUNK_SIZE
  }

  lemma ChunkBounds(n: nat, w: nat)
    ensures w < ChunkCount(n) <==> w * CHUNK_SIZE < n
    ensures w + 1 == ChunkCount(n) ==> (w + 1) * CHUNK_SIZE >= n
  {
  }

  /** The bytes of chunk `w`. */
  function ChunkOf(file: seq<byte>, w: nat): (r: seq<byte>)
    requires w < ChunkCount(|file|)
  {
    ChunkBounds(|file|, w);
    file[w * CHUNK_SIZE..Min((w + 1) * CHUNK_SIZE, |file|)]
  }

  /** What the first `w` chunks hold together. */
  function Prefix(file: seq<byte>, w: nat): seq<byte>
  {
    file[..Min(w * CHUNK_SIZE, |file|)]
  }

  lemma PrefixGrows(file: seq<byte>, w: nat)
    requires w < ChunkCount(|file|)
    ensures Prefix(file, w + 1) == Prefix(file, w) + ChunkOf(file, w)
    ensures Prefix(file, ChunkCount(|file|)) == file
  {
    ChunkBounds(|file|, w);
    ChunkBounds(|file|, ChunkCount(|file|) - 1);
  }
}
