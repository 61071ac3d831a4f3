/** The upload and the loader together: for flat binaries the device boots only what the
    relocation's checksum has passed, in the memory that the decompressor's blocks have been
    written to. */
module V2Boot {
  import opened Wrappers
  import opened Bytes
  import opened V2Messages
  import opened V2Device
  import opened V2Session
  import opened V2Progress
  import Relocations

  /** The board before the upload: its memory, the end of the running bootloader, the checksum,
      and whatever decides about ELF images. */
  datatype Board = Board(mem: seq<byte>, selfEnd: nat, crc: Crc, elf: Verify)

  function Plan(b: Board, md: Metadata): Relocations.Relocation
    requires md.format.Bin?
  {
    Relocations.Calculate(md.format.loadAddress, md.inflatedLen, b.selfEnd)
  }

  /** Everything that is written and checked lies in memory. */
  predicate Fits(b: Board, md: Metadata, blocks: seq<seq<byte>>)
    requires md.format.Bin?
  {
    var r := Plan(b, md);
    && r.base <= r.side && r.n <= md.inflatedLen
    && r.side + |Joined(blocks)| <= |b.mem| && r.side + md.inflatedLen <= |b.mem|
  }

  /** The image as the checksum finds it, every block written in one piece. */
  function ImageOf(b: Board, md: Metadata, blocks: seq<seq<byte>>): seq<byte>
    requires md.format.Bin? && Fits(b, md, blocks)
  {
    var r := Plan(b, md);
    Relocations.Image(Relocations.Loaded(b.mem, r, 0, blocks), r, md.inflatedLen)
  }

  /** The loader's verdict. Writing beyond memory is no way to boot. */
  predicate Passes(b: Board, md: Metadata, blocks: seq<seq<byte>>)
  {
    match md.format
    case Bin(_) => Fits(b, md, blocks) && b.crc.Sum(ImageOf(b, md, blocks)) == md.inflatedCrc
    case Elf => b.elf(md, blocks)
  }

  function Integrity(b: Board): Verify
  {
    (md, blocks) => Passes(b, md, blocks)
  }

  /** The blocks that the whole file inflates to. */
  ghost predicate Inflates<I(!new)>(u: Upload, f: Inflate<I>, blocks: seq<seq<byte>>)
    requires WellBehaved(f)
  {
    var w := Ideal(u, f, ChunkCount(|u.file|));
    w.Some? && w.value.blocks == blocks
  }

  ghost predicate BootUnderWay<I>(s: System<I>)
  {
    s.device.phase.Boot? || s.device.phase.Running? || Booting in s.toHost || s.host == Finished
  }

  /** In every run with a file that is not empty: a flat binary that is booted, or that the
      host hears is, has been inflated from the whole file, and the checksum of its image in
      memory is the one in the metadata. */
  lemma BootedImageIsChecked<I(!new)>(
      u: Upload, f: Inflate<I>, b: Board, states: seq<System<I>>, steps: seq<Step>, i: nat) returns (blocks: seq<seq<byte>>)
    requires WellBehaved(f) && u.Valid() && |u.file| > 0 && u.metadata.format.Bin?
    requires Run(u, f, Integrity(b), states, steps) && i < |states| && BootUnderWay(states[i])
    ensures Inflates(u, f, blocks) && Fits(b, u.metadata, blocks)
    ensures b.crc.Sum(ImageOf(b, u.metadata, blocks)) == u.metadata.inflatedCrc
  {
    hide Ideal, Run, Fits, ImageOf, Relocations.Calculate;
    SessionIsSafe(u, f, Integrity(b), states, steps, i);
    assert V2Session.Loaded(u, f, Integrity(b));
    blocks := Ideal(u, f, ChunkCount(|u.file|)).value.blocks;
    assert Integrity(b)(u.metadata, blocks);
  }

  /** A flat binary can be booted if and only if its file is not empty, its load address is
      acceptable, and the file inflates to blocks whose image in memory has the checksum of the
      metadata. */
  lemma BootsIff<I(!new)>(u: Upload, f: Inflate<I>, b: Board)
    requires WellBehaved(f) && u.Valid() && u.metadata.format.Bin?
    ensures CanBoot(u, f, Integrity(b)) <==>
              && u.file != [] && u.metadata.format.loadAddress < 0x1000_0000 && u.metadata.format.loadAddress % 4 == 0
              && exists blocks: seq<seq<byte>> ::
                   Inflates(u, f, blocks) && Fits(b, u.metadata, blocks)
                   && b.crc.Sum(ImageOf(b, u.metadata, blocks)) == u.metadata.inflatedCrc
  {
    hide Ideal, CanBoot, Fits, ImageOf;
    CanBootIff(u, f, Integrity(b));
    var w := Ideal(u, f, ChunkCount(|u.file|));
    if w.Some? {
      assert Integrity(b)(u.metadata, w.value.blocks) == Passes(b, u.metadata, w.value.blocks);
      assert Inflates(u, f, w.value.blocks);
    }
  }

  /** The upload is as long as its metadata says and its load address lies below the
      bootloader's end. */
  predicate Relocated(b: Board, md: Metadata, blocks: seq<seq<byte>>)
  {
    md.format.Bin? && md.format.loadAddress < b.selfEnd && |Joined(blocks)| == md.inflatedLen
    && Plan(b, md).side + md.inflatedLen <= |b.mem|
  }

  /** Then every byte of that image is the one inflated, but for those that a block carried
      across the end of the bootloader, which are what memory held there before. */
  lemma CheckedImage(b: Board, md: Metadata, blocks: seq<seq<byte>>)
    requires Relocated(b, md, blocks)
    ensures Fits(b, md, blocks)
    ensures var r := Plan(b, md);
            var hole := Relocations.HoleEnd(r.n, 0, blocks);
            forall i :: 0 <= i < md.inflatedLen ==>
              ImageOf(b, md, blocks)[i] == if r.n <= i < hole then b.mem[r.base + i] else Joined(blocks)[i]
    ensures Relocations.Aligned(Plan(b, md).n, 0, blocks) ==> ImageOf(b, md, blocks) == Joined(blocks)
  {
    var r := Plan(b, md);
    Relocations.Layout(md.format.loadAddress, md.inflatedLen, b.selfEnd);
    hide Relocations.Calculate, Relocations.Loaded, Relocations.Image, Relocations.HoleEnd, Joined;
    var hole := Relocations.HoleEnd(r.n, 0, blocks);
    forall i | 0 <= i < md.inflatedLen
      ensures ImageOf(b, md, blocks)[i] == if r.n <= i < hole then b.mem[r.base + i] else Joined(blocks)[i]
    {
      Relocations.LoadedImageAt(b.mem, r, md.inflatedLen, b.selfEnd, blocks, i);
    }
    Relocations.NoHoleIffAligned(r.n, 0, blocks);
  }

  /** A checksum that tells a byte other than `x` at place `n`. */
  function Probe(n: nat, x: byte, sum: nat): Crc
  {
    Crc(0,
        (h, b) => if h < n then h + 1 else if h == n then (if b == x then n + 1 else n + 2) else h,
        h => if h == n + 1 then sum else sum + 1)
  }

  lemma {:induction false} ProbeRuns(n: nat, x: byte, sum: nat, s: seq<byte>)
    ensures Probe(n, x, sum).Run(0, s)
            == if |s| <= n then |s| else if s[n] == x then n + 1 else n + 2
  {
    if |s| > 0 {
      ProbeRuns(n, x, sum, s[..|s| - 1]);
    }
  }

  /** The verdict is that of the inflated program's own checksum, for every content of memory
      and every checksum, if and only if no block crosses the end of the bootloader. */
  lemma VerdictIsProgramsIff(selfEnd: nat, md: Metadata, blocks: seq<seq<byte>>)
    requires md.format.Bin? && md.format.loadAddress < selfEnd && |Joined(blocks)| == md.inflatedLen
    requires md.inflatedCrc < U32_LIMIT
    ensures var r := Relocations.Calculate(md.format.loadAddress, md.inflatedLen, selfEnd);
            Relocations.Aligned(r.n, 0, blocks) <==>
              forall b: Board :: b.selfEnd == selfEnd && Relocated(b, md, blocks) ==>
                (Passes(b, md, blocks) <==> b.crc.Sum(Joined(blocks)) == md.inflatedCrc)
  {
    var r := Relocations.Calculate(md.format.loadAddress, md.inflatedLen, selfEnd);
    if Relocations.Aligned(r.n, 0, blocks) {
      hide Relocations.Calculate, Relocations.Aligned, Joined;
      forall b: Board | b.selfEnd == selfEnd && Relocated(b, md, blocks)
        ensures Passes(b, md, blocks) <==> b.crc.Sum(Joined(blocks)) == md.inflatedCrc
      {
        CheckedImage(b, md, blocks);
      }
    } else {
      var b := CrossingFoolsCheck(selfEnd, md, blocks);
    }
  }

  lemma CrossingFoolsCheck(selfEnd: nat, md: Metadata, blocks: seq<seq<byte>>) returns (b: Board)
    requires md.format.Bin? && md.format.loadAddress < selfEnd && |Joined(blocks)| == md.inflatedLen
    requires md.inflatedCrc < U32_LIMIT
    requires var r := Relocations.Calculate(md.format.loadAddress, md.inflatedLen, selfEnd);
             !Relocations.Aligned(r.n, 0, blocks)
    ensures b.selfEnd == selfEnd && Relocated(b, md, blocks)
    ensures b.crc.Sum(Joined(blocks)) == md.inflatedCrc && !Passes(b, md, blocks)
  {
    var r := Relocations.Calculate(md.format.loadAddress, md.inflatedLen, selfEnd);
    Relocations.Layout(md.format.loadAddress, md.inflatedLen, selfEnd);
    hide Relocations.Calculate, Relocations.Loaded, Relocations.Image, Relocations.Aligned, Joined;
    var mem := Relocations.CrossingShows(r, md.inflatedLen, selfEnd, blocks, r.side + md.inflatedLen);
    var program := Joined(blocks);
    var crc := Probe(r.n, program[r.n], md.inflatedCrc);
    b := Board(mem, selfEnd, crc, (_, _) => false);
    var image := ImageOf(b, md, blocks);
    ProbeRuns(r.n, program[r.n], md.inflatedCrc, program);
    ProbeRuns(r.n, program[r.n], md.inflatedCrc, image);
    assert crc.Sum(image) == (md.inflatedCrc + 1) % U32_LIMIT;
  }

  /** From the first message to the jump: a flat binary that is booted, whose blocks respect
      the end of the bootloader, arrives at its base, and is what the file inflated to, if and
      only if the part below that end is a multiple of four bytes. */
  lemma BootedProgramArrives<I(!new)>(
      u: Upload, f: Inflate<I>, b: Board, states: seq<System<I>>, steps: seq<Step>, i: nat, code: seq<byte>)
      returns (blocks: seq<seq<byte>>)
    requires WellBehaved(f) && u.Valid() && |u.file| > 0 && u.metadata.format.Bin?
    requires Run(u, f, Integrity(b), states, steps) && i < |states| && BootUnderWay(states[i])
    ensures Inflates(u, f, blocks)
    ensures Relocated(b, u.metadata, blocks) ==>
              var r := Plan(b, u.metadata);
              Relocations.Aligned(r.n, 0, blocks) && Relocations.Room(b.mem, r, u.metadata.inflatedLen, code) ==>
                && b.crc.Sum(Joined(blocks)) == u.metadata.inflatedCrc
                && (Relocations.Arrives(b.mem, r, b.selfEnd, blocks, code) <==> r.n % 4 == 0)
  {
    var md := u.metadata;
    hide Run, Ideal, Joined, Relocations.Calculate, Relocations.Aligned, Relocations.Arrives;
    blocks := BootedImageIsChecked(u, f, b, states, steps, i);
    if Relocated(b, md, blocks) {
      CheckedImage(b, md, blocks);
      var r := Plan(b, md);
      if Relocations.Aligned(r.n, 0, blocks) && Relocations.Room(b.mem, r, md.inflatedLen, code) {
        Relocations.Layout(md.format.loadAddress, md.inflatedLen, b.selfEnd);
        Relocations.ArrivesIff(r, md.inflatedLen, b.selfEnd, blocks, code);
        ArrivesOnlyWholeWords(b, r, blocks, code);
      }
    }
  }

  lemma ArrivesOnlyWholeWords(b: Board, r: Relocations.Relocation, blocks: seq<seq<byte>>, code: seq<byte>)
    ensures Relocations.Arrives(b.mem, r, b.selfEnd, blocks, code) ==> r.n % 4 == 0
  {
    Relocations.StubEndsIff(r);
  }
}
