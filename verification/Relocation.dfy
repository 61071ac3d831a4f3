/** Loading a flat binary over the running bootloader: where its bytes go while the bootloader
    still runs, the checksum over them, and the stub that moves them into place. */
module Relocations {
  import opened Bytes

  const PAGE_SIZE := 0x4000

  function PageUp(n: nat): (r: nat)
    ensures n <= r < n + PAGE_SIZE && r % PAGE_SIZE == 0
  {
    (n + PAGE_SIZE - 1) / PAGE_SIZE * PAGE_SIZE
  }

  function WordUp(n: nat): (r: nat)
    ensures n <= r < n + 4 && r % 4 == 0
  {
    (n + 3) / 4 * 4
  }

  function Max(a: nat, b: nat): nat
  {
    if a < b then b else a
  }

  datatype Relocation = Relocation(base: nat, side: nat, n: nat, stub: nat, relocate: bool)

  function Calculate(base: nat, length: nat, selfEnd: nat): Relocation
  {
    var end := base + length;
    var highest := Max(selfEnd, end);
    var side := PageUp(highest);
    if base < selfEnd then
      var n := Min(end, selfEnd) - base;
      Relocation(base, side, n, WordUp(side + n), true)
    else
      Relocation(0, 0, 0, highest, false)
  }

  /** For every load address below the bootloader's end: the image ends where the side buffer
      has not yet begun, the side buffer where the stub has not, and both lie beyond the
      bootloader; what is not put aside lies beyond it too. */
  lemma Layout(base: nat, length: nat, selfEnd: nat)
    requires base < selfEnd
    ensures var r := Calculate(base, length, selfEnd);
            LaidOut(r, base, length, selfEnd) && r.side % PAGE_SIZE == 0 && r.stub % 4 == 0
  {
    hide PageUp, WordUp;
  }

  predicate LaidOut(r: Relocation, base: nat, length: nat, selfEnd: nat)
  {
    && r.relocate && r.base == base && r.n <= length
    && base + length <= r.side && selfEnd <= r.side && r.side + r.n <= r.stub
    && (r.n < length ==> base + r.n == selfEnd) && base + r.n <= selfEnd
  }

  // ----- Memory ----------------------------------------------------------------------

  function Stored(mem: seq<byte>, at: nat, bytes: seq<byte>): (r: seq<byte>)
    requires at + |bytes| <= |mem|
    ensures |r| == |mem|
  {
    mem[..at] + bytes + mem[at + |bytes|..]
  }

  lemma StoredAt(mem: seq<byte>, at: nat, bytes: seq<byte>, i: nat)
    requires at + |bytes| <= |mem| && i < |mem|
    ensures Stored(mem, at, bytes)[i] == if at <= i < at + |bytes| then bytes[i - at] else mem[i]
  {
  }

  /** Where `write_bytes` puts what is meant for an address: the side buffer if the first
      byte is to be moved later, however long the rest. */
  function Target(r: Relocation, address: nat): nat
  {
    if r.relocate && r.base <= address < r.base + r.n then r.side + (address - r.base) else address
  }

  /** Where byte `i` of the image is kept until the stub has run. */
  function Cell(r: Relocation, i: nat): nat
  {
    if i < r.n then r.side + i else r.base + i
  }

  /** The image as the checksum reads it. */
  function Image(mem: seq<byte>, r: Relocation, length: nat): (image: seq<byte>)
    requires r.n <= length && r.side + r.n <= |mem| && r.base + length <= |mem|
    ensures |image| == length
  {
    mem[r.side..r.side + r.n] + mem[r.base + r.n..r.base + length]
  }

  lemma ImageAt(mem: seq<byte>, r: Relocation, length: nat, i: nat)
    requires r.n <= length && r.side + r.n <= |mem| && r.base + length <= |mem| && i < length
    ensures Image(mem, r, length)[i] == mem[Cell(r, i)]
  {
  }

  // ----- The loader ------------------------------------------------------------------

  lemma JoinedCons(chunks: seq<seq<byte>>)
    requires |chunks| > 0
    ensures |Joined(chunks)| == |chunks[0]| + |Joined(chunks[1..])|
  {
  }

  /** Memory after the chunks have been written one after another from offset `at` on. */
  function Loaded(mem: seq<byte>, r: Relocation, at: nat, chunks: seq<seq<byte>>): (m: seq<byte>)
    requires r.side + at + |Joined(chunks)| <= |mem| && r.base <= r.side
    ensures |m| == |mem|
    decreases |chunks|
  {
    if |chunks| == 0 then mem
    else
      Loaded(Stored(mem, Target(r, r.base + at), chunks[0]), r, at + |chunks[0]|, chunks[1..])
  }

  /** The end of the chunk that starts before the relocation boundary `n` and ends after it;
      the boundary itself when no chunk does. */
  function HoleEnd(n: nat, at: nat, chunks: seq<seq<byte>>): (r: nat)
    ensures n <= r
    decreases |chunks|
  {
    if |chunks| == 0 then n
    else if at < n < at + |chunks[0]| then at + |chunks[0]|
    else HoleEnd(n, at + |chunks[0]|, chunks[1..])
  }

  /** No chunk crosses the boundary. */
  predicate Aligned(n: nat, at: nat, chunks: seq<seq<byte>>)
    decreases |chunks|
  {
    |chunks| > 0 ==>
      !(at < n < at + |chunks[0]|) && Aligned(n, at + |chunks[0]|, chunks[1..])
  }

  lemma {:induction false} NoHoleIffAligned(n: nat, at: nat, chunks: seq<seq<byte>>)
    ensures HoleEnd(n, at, chunks) == n <==> Aligned(n, at, chunks)
    decreases |chunks|
  {
    if |chunks| > 0 {
      NoHoleIffAligned(n, at + |chunks[0]|, chunks[1..]);
    }
  }

  lemma {:induction false} HoleIsBehind(n: nat, at: nat, chunks: seq<seq<byte>>)
    requires n <= at
    ensures HoleEnd(n, at, chunks) == n
    decreases |chunks|
  {
    if |chunks| > 0 {
      HoleIsBehind(n, at + |chunks[0]|, chunks[1..]);
    }
  }

  /** Which cells one chunk fills. */
  lemma ChunkStored(mem: seq<byte>, r: Relocation, length: nat, selfEnd: nat, at: nat, chunk: seq<byte>, i: nat)
    requires LaidOut(r, r.base, length, selfEnd) && at + |chunk| <= length && r.side + length <= |mem|
    requires i < length
    ensures Stored(mem, Target(r, r.base + at), chunk)[Cell(r, i)]
            == if at <= i < at + |chunk| && !(at < r.n <= i) then chunk[i - at] else mem[Cell(r, i)]
  {
    hide Stored;
    StoredAt(mem, Target(r, r.base + at), chunk, Cell(r, i));
  }

  /** What the cell of byte `i` is expected to hold, `was` being what it held before. */
  function Expected(was: byte, n: nat, at: nat, chunks: seq<seq<byte>>, i: nat): byte
    requires i < at + |Joined(chunks)|
  {
    if i < at || n <= i < HoleEnd(n, at, chunks) then was else Joined(chunks)[i - at]
  }

  lemma ExpectedStep(was: byte, n: nat, at: nat, chunks: seq<seq<byte>>, i: nat)
    requires |chunks| > 0 && i < at + |Joined(chunks)|
    ensures var chunk, rest := chunks[0], chunks[1..];
            var now := if at <= i < at + |chunk| && !(at < n <= i) then chunk[i - at] else was;
            Expected(was, n, at, chunks, i) == Expected(now, n, at + |chunk|, rest, i)
  {
    var chunk, rest := chunks[0], chunks[1..];
    assert Joined(chunks) == chunk + Joined(rest);
    if n <= at + |chunk| {
      HoleIsBehind(n, at + |chunk|, rest);
    }
  }

  /** What is in memory after any chunking whatever of the rest of a program: every byte in
      its cell, except those that a chunk carried across the boundary, whose cells were never
      written. */
  lemma {:induction false} LoadedCell(
      mem: seq<byte>, r: Relocation, length: nat, selfEnd: nat, at: nat, chunks: seq<seq<byte>>, i: nat)
    requires LaidOut(r, r.base, length, selfEnd) && at + |Joined(chunks)| == length
    requires r.side + length <= |mem| && i < length
    ensures Loaded(mem, r, at, chunks)[Cell(r, i)] == Expected(mem[Cell(r, i)], r.n, at, chunks, i)
    decreases |chunks|
  {
    if |chunks| > 0 {
      var chunk, rest := chunks[0], chunks[1..];
      hide Stored, Cell, HoleEnd, Target;
      JoinedCons(chunks);
      ChunkStored(mem, r, length, selfEnd, at, chunk, i);
      ExpectedStep(mem[Cell(r, i)], r.n, at, chunks, i);
      hide Expected, Joined;
      LoadedCell(Stored(mem, Target(r, r.base + at), chunk), r, length, selfEnd, at + |chunk|, rest, i);
    }
  }

  /** However the program is cut into chunks, loading it never writes below the end of the
      running bootloader. */
  lemma {:induction false} BootloaderUntouched(
      mem: seq<byte>, r: Relocation, length: nat, selfEnd: nat, at: nat, chunks: seq<seq<byte>>, address: nat)
    requires LaidOut(r, r.base, length, selfEnd) && at + |Joined(chunks)| == length
    requires r.side + length <= |mem| && address < selfEnd
    ensures Loaded(mem, r, at, chunks)[address] == mem[address]
    decreases |chunks|
  {
    if |chunks| > 0 {
      StoredAt(mem, Target(r, r.base + at), chunks[0], address);
      hide Stored;
      BootloaderUntouched(
        Stored(mem, Target(r, r.base + at), chunks[0]), r, length, selfEnd, at + |chunks[0]|, chunks[1..], address);
    }
  }

  /** The image after loading, byte by byte, for every chunking. */
  lemma LoadedImage(mem: seq<byte>, r: Relocation, length: nat, selfEnd: nat, chunks: seq<seq<byte>>)
    requires LaidOut(r, r.base, length, selfEnd) && |Joined(chunks)| == length && r.side + length <= |mem|
    ensures var image := Image(Loaded(mem, r, 0, chunks), r, length);
            forall i :: 0 <= i < length ==>
              image[i] == if r.n <= i < HoleEnd(r.n, 0, chunks) then mem[r.base + i] else Joined(chunks)[i]
  {
    var m := Loaded(mem, r, 0, chunks);
    forall i | 0 <= i < length
      ensures Image(m, r, length)[i]
              == if r.n <= i < HoleEnd(r.n, 0, chunks) then mem[r.base + i] else Joined(chunks)[i]
    {
      hide Loaded, Image, HoleEnd, Joined;
      LoadedImageAt(mem, r, length, selfEnd, chunks, i);
    }
  }

  lemma LoadedImageAt(mem: seq<byte>, r: Relocation, length: nat, selfEnd: nat, chunks: seq<seq<byte>>, i: nat)
    requires LaidOut(r, r.base, length, selfEnd) && |Joined(chunks)| == length && r.side + length <= |mem|
    requires i < length
    ensures Image(Loaded(mem, r, 0, chunks), r, length)[i]
            == if r.n <= i < HoleEnd(r.n, 0, chunks) then mem[r.base + i] else Joined(chunks)[i]
  {
    hide Loaded, Image, HoleEnd, Joined;
    ImageAt(Loaded(mem, r, 0, chunks), r, length, i);
    LoadedCell(mem, r, length, selfEnd, 0, chunks, i);
  }

  /** So the image is the program, whatever memory held before, exactly when no chunk crosses
      the boundary. */
  lemma ImageIsProgramIff(r: Relocation, length: nat, selfEnd: nat, chunks: seq<seq<byte>>)
    requires LaidOut(r, r.base, length, selfEnd) && |Joined(chunks)| == length
    ensures Aligned(r.n, 0, chunks) <==>
              forall mem: seq<byte> :: r.side + length <= |mem| ==>
                Image(Loaded(mem, r, 0, chunks), r, length) == Joined(chunks)
  {
    if Aligned(r.n, 0, chunks) {
      NoHoleIffAligned(r.n, 0, chunks);
      forall mem: seq<byte> | r.side + length <= |mem|
        ensures Image(Loaded(mem, r, 0, chunks), r, length) == Joined(chunks)
      {
        LoadedImage(mem, r, length, selfEnd, chunks);
      }
    } else {
      var mem := CrossingShows(r, length, selfEnd, chunks, r.side + length);
    }
  }

  /** A memory, of any size that will do, on which a chunk that crosses shows. */
  lemma CrossingShows(r: Relocation, length: nat, selfEnd: nat, chunks: seq<seq<byte>>, size: nat) returns (mem: seq<byte>)
    requires LaidOut(r, r.base, length, selfEnd) && |Joined(chunks)| == length && r.side + length <= size
    requires !Aligned(r.n, 0, chunks)
    ensures |mem| == size
    ensures r.n < length && Image(Loaded(mem, r, 0, chunks), r, length)[r.n] != Joined(chunks)[r.n]
  {
    NoHoleIffAligned(r.n, 0, chunks);
    HoleInProgram(r.n, 0, chunks);
    var other: byte := if Joined(chunks)[r.n] == 0 then 1 else 0;
    mem := seq(size, _ => other);
    LoadedImage(mem, r, length, selfEnd, chunks);
    hide Loaded, Image, Joined;
    assert Image(Loaded(mem, r, 0, chunks), r, length)[r.n] == other;
  }

  lemma {:induction false} HoleInProgram(n: nat, at: nat, chunks: seq<seq<byte>>)
    ensures HoleEnd(n, at, chunks) == n || HoleEnd(n, at, chunks) <= at + |Joined(chunks)|
    decreases |chunks|
  {
    if |chunks| > 0 {
      HoleInProgram(n, at + |chunks[0]|, chunks[1..]);
    }
  }

  // ----- The stub --------------------------------------------------------------------

  /** Memory when the stub has moved that many bytes. */
  function Copied(mem: seq<byte>, r: Relocation, done: nat): (m: seq<byte>)
    requires r.side + done <= |mem| && r.base + done <= |mem|
    ensures |m| == |mem|
  {
    Stored(mem, r.base, mem[r.side..r.side + done])
  }

  lemma CopiedAt(mem: seq<byte>, r: Relocation, done: nat, i: nat)
    requires r.side + done <= |mem| && r.base + done <= |mem| && i < |mem|
    ensures Copied(mem, r, done)[i] == if r.base <= i < r.base + done then mem[r.side + (i - r.base)] else mem[i]
  {
    StoredAt(mem, r.base, mem[r.side..r.side + done], i);
  }

  /** What is in memory once the stub is in place and has moved the first part. */
  function Moved(mem: seq<byte>, r: Relocation, code: seq<byte>): seq<byte>
    requires r.stub + |code| <= |mem| && r.side + r.n <= |mem| && r.base + r.n <= |mem|
  {
    Copied(Stored(mem, r.stub, code), r, r.n)
  }

  lemma MovedAt(mem: seq<byte>, r: Relocation, code: seq<byte>, a: nat)
    requires r.stub + |code| <= |mem| && r.base + r.n <= r.side && r.side + r.n <= r.stub && a < |mem|
    ensures Moved(mem, r, code)[a]
            == if r.base <= a < r.base + r.n then mem[r.side + (a - r.base)]
               else if r.stub <= a < r.stub + |code| then code[a - r.stub] else mem[a]
  {
    hide Stored, Copied;
    CopiedAt(Stored(mem, r.stub, code), r, r.n, a);
    StoredAt(mem, r.stub, code, a);
    if r.base <= a < r.base + r.n {
      StoredAt(mem, r.stub, code, r.side + (a - r.base));
    }
  }

  /** Then the image that was checked stands where the entry jump goes, and the code that is
      running has not been overwritten. */
  lemma MovedIsImage(mem: seq<byte>, r: Relocation, length: nat, selfEnd: nat, code: seq<byte>)
    requires LaidOut(r, r.base, length, selfEnd) && r.side + length <= |mem| && r.stub + |code| <= |mem|
    ensures var m := Moved(mem, r, code);
            && m[r.base..r.base + length] == Image(mem, r, length)
            && m[r.stub..r.stub + |code|] == code
  {
    var m := Moved(mem, r, code);
    forall i | 0 <= i < length
      ensures m[r.base + i] == Image(mem, r, length)[i]
    {
      ImageAt(mem, r, length, i);
      hide Image, Stored;
      MovedAt(mem, r, code, r.base + i);
    }
    forall k | 0 <= k < |code|
      ensures m[r.stub + k] == code[k]
    {
      hide Image, Stored;
      MovedAt(mem, r, code, r.stub + k);
    }
    hide Image, Moved, Stored;
  }

  /** The stub's counter comes to zero. */
  ghost predicate StubEnds(r: Relocation)
  {
    Ends(r.n % 16)
  }

  lemma StubEndsIff(r: Relocation)
    ensures StubEnds(r) <==> r.n % 4 == 0
  {
    hide Ends;
    FineLoopEndsIff(r.n % 16);
    SameRemainder(r.n);
  }

  lemma SameRemainder(n: nat)
    ensures n % 16 % 4 == n % 4
  {
    var q, m := n / 16, n % 16;
    var t, u := m / 4, m % 4;
    assert n == 4 * (4 * q + t) + u;
  }

  predicate Room(mem: seq<byte>, r: Relocation, length: nat, code: seq<byte>)
  {
    r.side + length <= |mem| && r.stub + |code| <= |mem|
  }

  /** The stub comes to its end, and then the program stands at its base. */
  ghost predicate Arrives(mem: seq<byte>, r: Relocation, selfEnd: nat, chunks: seq<seq<byte>>, code: seq<byte>)
  {
    var length := |Joined(chunks)|;
    && LaidOut(r, r.base, length, selfEnd) && Room(mem, r, length, code)
    && StubEnds(r)
    && Moved(Loaded(mem, r, 0, chunks), r, code)[r.base..r.base + length] == Joined(chunks)
  }

  /** For every load address below the bootloader's end, every program and every chunking of
      it: the program arrives whatever memory held before if and only if the part to be moved
      is a multiple of four bytes and no chunk crosses its end. */
  lemma ProgramArrivesIff(base: nat, selfEnd: nat, chunks: seq<seq<byte>>, code: seq<byte>)
    requires base < selfEnd
    ensures var length := |Joined(chunks)|;
            var r := Calculate(base, length, selfEnd);
            && r.n == Min(base + length, selfEnd) - base
            && (r.n % 4 == 0 && Aligned(r.n, 0, chunks) <==>
                  forall mem: seq<byte> :: Room(mem, r, length, code) ==> Arrives(mem, r, selfEnd, chunks, code))
  {
    var length := |Joined(chunks)|;
    Layout(base, length, selfEnd);
    var r := Calculate(base, length, selfEnd);
    hide PageUp, WordUp, Joined, Aligned, Arrives;
    assert r.n == Min(base + length, selfEnd) - base;
    hide Calculate;
    ArrivesIff(r, length, selfEnd, chunks, code);
  }

  lemma ArrivesIff(r: Relocation, length: nat, selfEnd: nat, chunks: seq<seq<byte>>, code: seq<byte>)
    requires LaidOut(r, r.base, length, selfEnd) && |Joined(chunks)| == length
    ensures r.n % 4 == 0 && Aligned(r.n, 0, chunks) <==>
              forall mem: seq<byte> :: Room(mem, r, length, code) ==> Arrives(mem, r, selfEnd, chunks, code)
  {
    hide Joined, Aligned, Moved, Image, Loaded, StubEnds;
    StubEndsIff(r);
    if r.n % 4 == 0 && Aligned(r.n, 0, chunks) {
      ImageIsProgramIff(r, length, selfEnd, chunks);
      forall mem: seq<byte> | Room(mem, r, length, code)
        ensures Arrives(mem, r, selfEnd, chunks, code)
      {
        MovedIsImage(Loaded(mem, r, 0, chunks), r, length, selfEnd, code);
      }
    } else {
      var size := r.side + length + r.stub + |code|;
      var mem: seq<byte> := seq(size, _ => 0);
      if !Aligned(r.n, 0, chunks) {
        mem := CrossingShows(r, length, selfEnd, chunks, size);
        MovedIsImage(Loaded(mem, r, 0, chunks), r, length, selfEnd, code);
      }
      assert Room(mem, r, length, code) && !Arrives(mem, r, selfEnd, chunks, code);
    }
  }

  lemma LowMemoryUntouched(mem: seq<byte>, r: Relocation, length: nat, selfEnd: nat, chunks: seq<seq<byte>>)
    requires LaidOut(r, r.base, length, selfEnd) && |Joined(chunks)| == length && r.side + length <= |mem|
    ensures Loaded(mem, r, 0, chunks)[..selfEnd] == mem[..selfEnd]
  {
    var m := Loaded(mem, r, 0, chunks);
    forall a | 0 <= a < selfEnd
      ensures m[a] == mem[a]
    {
      BootloaderUntouched(mem, r, length, selfEnd, 0, chunks, a);
    }
  }

  /** The stub's counter of bytes still to copy, in a 32-bit register, after `k` words. */
  function Counted(left: nat, k: nat): (r: nat)
    requires left < U32_LIMIT
    ensures r < U32_LIMIT
  {
    if k == 0 then left
    else
      var before := Counted(left, k - 1);
      if before >= 4 then before - 4 else before + U32_LIMIT - 4
  }

  ghost predicate EndsWithin(left: nat, patience: nat)
    requires left < U32_LIMIT
  {
    exists k: nat :: k <= patience && Counted(left, k) == 0
  }

  ghost predicate Ends(left: nat)
    requires left < U32_LIMIT
  {
    exists k: nat :: Counted(left, k) == 0
  }

  lemma RemainderSteps(x: nat)
    ensures (x + U32_LIMIT - 4) % 4 == x % 4 && (x - 4) % 4 == x % 4
  {
    var q, m := x / 4, x % 4;
    assert x + U32_LIMIT - 4 == 4 * (q + U32_LIMIT / 4 - 1) + m;
    assert x - 4 == 4 * (q - 1) + m;
  }

  lemma {:induction false} CounterKeepsRemainder(left: nat, k: nat)
    requires left < U32_LIMIT
    ensures Counted(left, k) % 4 == left % 4
  {
    if k > 0 {
      CounterKeepsRemainder(left, k - 1);
      RemainderSteps(Counted(left, k - 1));
    }
  }

  lemma {:induction false} CounterGoesDown(left: nat, k: nat)
    requires 4 * k <= left < U32_LIMIT
    ensures Counted(left, k) == left - 4 * k
  {
    if k > 0 {
      CounterGoesDown(left, k - 1);
    }
  }

  /** It comes to zero only from a multiple of four; from any other count the loop that waits
      for zero never ends. */
  lemma FineLoopEndsIff(left: nat)
    requires left < U32_LIMIT
    ensures Ends(left) <==> left % 4 == 0
  {
    if left % 4 == 0 {
      CounterGoesDown(left, left / 4);
      assert Counted(left, left / 4) == 0;
    }
    if k :| Counted(left, k) == 0 {
      CounterKeepsRemainder(left, k);
    }
  }

  lemma CopiedNone(was: seq<byte>, r: Relocation)
    requires r.side <= |was| && r.base <= |was|
    ensures Copied(was, r, 0) == was
  {
  }

  /** A counter below sixteen comes to zero within three words or not at all. */
  lemma SoonOrNever(count: nat, patience: nat)
    requires count < 16 && patience >= 3
    ensures EndsWithin(count, patience) <==> Ends(count)
  {
    FineLoopEndsIff(count);
    if count % 4 == 0 {
      CounterGoesDown(count, count / 4);
      assert count / 4 <= patience && Counted(count, count / 4) == 0;
    }
  }

  /** The first zero of the counter is where the count has been used up. */
  lemma ZeroWhen(count: nat, k: nat)
    requires count < 16 && Counted(count, k) == 0 && forall m: nat :: m < k ==> Counted(count, m) != 0
    ensures count == 4 * k
  {
    hide Counted;
    CounterKeepsRemainder(count, k);
    CounterGoesDown(count, count / 4);
    if k <= count / 4 {
      CounterGoesDown(count, k);
    }
  }

  lemma CopyExtends(was: seq<byte>, r: Relocation, done: nat, count: nat)
    requires r.base + done + count <= r.side && r.side + done + count <= |was|
    ensures var now := Copied(was, r, done);
            Stored(now, r.base + done, now[r.side + done..r.side + done + count]) == Copied(was, r, done + count)
  {
    hide Stored, Copied;
    var now, whole := Copied(was, r, done), Copied(was, r, done + count);
    var next := Stored(now, r.base + done, now[r.side + done..r.side + done + count]);
    forall i | 0 <= i < |was|
      ensures next[i] == whole[i]
    {
      CopyExtendsAt(was, r, done, count, i);
    }
  }

  lemma CopyExtendsAt(was: seq<byte>, r: Relocation, done: nat, count: nat, i: nat)
    requires r.base + done + count <= r.side && r.side + done + count <= |was| && i < |was|
    ensures var now := Copied(was, r, done);
            Stored(now, r.base + done, now[r.side + done..r.side + done + count])[i]
            == Copied(was, r, done + count)[i]
  {
    hide Stored, Copied;
    var now := Copied(was, r, done);
    StoredAt(now, r.base + done, now[r.side + done..r.side + done + count], i);
    CopiedAt(was, r, done, i);
    CopiedAt(was, r, done + count, i);
    if r.base + done <= i < r.base + done + count {
      CopiedAt(was, r, done, i - r.base + r.side);
    }
  }

  /** Loading leaves everything below the bootloader's end alone, and makes the program's
      image if no chunk crosses the boundary. */
  ghost predicate Loads(mem: seq<byte>, r: Relocation, base: nat, selfEnd: nat, chunks: seq<seq<byte>>)
  {
    var length := |Joined(chunks)|;
    && LaidOut(r, base, length, selfEnd) && r.side + length <= |mem|
    && var m := Loaded(mem, r, 0, chunks);
       && m[..selfEnd] == mem[..selfEnd]
       && (Aligned(r.n, 0, chunks) ==> Image(m, r, length) == Joined(chunks))
  }

  lemma LoadsAnything(mem: seq<byte>, base: nat, selfEnd: nat, chunks: seq<seq<byte>>)
    requires base < selfEnd && Calculate(base, |Joined(chunks)|, selfEnd).side + |Joined(chunks)| <= |mem|
    ensures Loads(mem, Calculate(base, |Joined(chunks)|, selfEnd), base, selfEnd, chunks)
  {
    var length := |Joined(chunks)|;
    var r := Calculate(base, length, selfEnd);
    Layout(base, length, selfEnd);
    hide Calculate, Joined, Loaded, Image, Aligned;
    ImageIsProgramIff(r, length, selfEnd, chunks);
    LowMemoryUntouched(mem, r, length, selfEnd, chunks);
  }

  // ----- The machine -----------------------------------------------------------------

  /** How an upload ends: a checksum that is wrong, a stub that copies for ever, or the
      program entered. */
  datatype Fate = BadCrc | NeverEnds | Entered

  class Machine {
    const mem: array<byte>

    constructor (size: nat)
      ensures mem.Length == size && fresh(mem)
    {
      mem := new byte[size](_ => 0);
    }

    method WriteBytes(r: Relocation, address: nat, bytes: seq<byte>)
      requires Target(r, address) + |bytes| <= mem.Length
      modifies mem
      ensures mem[..] == Stored(old(mem[..]), Target(r, address), bytes)
    {
      var to := Target(r, address);
      forall i | 0 <= i < |bytes| {
        mem[to + i] := bytes[i];
      }
    }

    /** The loader fed one chunk after another, `at` bytes having been written before. */
    method Load(r: Relocation, at: nat, chunks: seq<seq<byte>>)
      requires r.side + at + |Joined(chunks)| <= mem.Length && r.base <= r.side
      modifies mem
      ensures mem[..] == Loaded(old(mem[..]), r, at, chunks)
      decreases |chunks|
    {
      hide Stored;
      if |chunks| > 0 {
        WriteBytes(r, r.base + at, chunks[0]);
        Load(r, at + |chunks[0]|, chunks[1..]);
      }
    }

    /** The checksum over the parts, wherever they are, is that of the image. */
    method VerifyIntegrity(r: Relocation, crc: Crc, expected: nat, length: nat) returns (ok: bool)
      requires r.n <= length && (!r.relocate ==> r.n == 0)
      requires r.side + r.n <= mem.Length && r.base + length <= mem.Length
      ensures ok <==> crc.Sum(Image(mem[..], r, length)) == expected
    {
      var h := crc.init;
      ghost var m := mem[..];
      if r.relocate {
        h := crc.Run(h, mem[r.side..r.side + r.n]);
      }
      if length > r.n {
        h := crc.Run(h, mem[r.base + r.n..r.base + length]);
      }
      crc.RunConcat(crc.init, m[r.side..r.side + r.n], m[r.base + r.n..r.base + length]);
      ok := crc.finish(h) % U32_LIMIT == expected;
    }

    /** Copies `count` bytes, all read before any is written. */
    method CopyWords(to: nat, from: nat, count: nat)
      requires to + count <= mem.Length && from + count <= mem.Length
      modifies mem
      ensures mem[..] == Stored(old(mem[..]), to, old(mem[..])[from..from + count])
    {
      forall i | 0 <= i < count {
        mem[to + i] := mem[from + i];
      }
    }

    /** The stub's coarse loop: sixteen bytes at a time. */
    method CopyCoarse(r: Relocation, ghost was: seq<byte>, ghost blocks: nat)
      requires 16 * blocks <= r.n && r.base + r.n <= r.side && r.side + r.n <= mem.Length
      requires |was| == mem.Length && mem[..] == Copied(was, r, 0) && blocks == r.n / 16
      modifies mem
      ensures mem[..] == Copied(was, r, 16 * blocks)
    {
      hide Copied, Stored;
      var left := r.n / 16 * 16;
      var done: nat := 0;
      ghost var k: nat := 0;
      while left != 0
        invariant k <= blocks && done == 16 * k && left == 16 * (blocks - k)
        invariant mem[..] == Copied(was, r, done)
      {
        CopyExtends(was, r, done, 16);
        CopyWords(r.base + done, r.side + done, 16);
        done, left, k := done + 16, left - 16, k + 1;
      }
    }

    /** The stub's fine loop: four at a time what the coarse one has left, its counter a
        32-bit register. `patience` is for how many words it is watched. */
    method CopyFine(r: Relocation, ghost was: seq<byte>, start: nat, count: nat, patience: nat) returns (ended: bool)
      requires start + count == r.n && count < 16 && r.base + r.n <= r.side && r.side + r.n <= mem.Length
      requires r.side + start + 4 * patience <= mem.Length
      requires |was| == mem.Length && mem[..] == Copied(was, r, start)
      modifies mem
      ensures ended <==> EndsWithin(count, patience)
      ensures ended ==> mem[..] == Copied(was, r, r.n)
    {
      hide Copied, Stored;
      var left: nat := count;
      var k: nat := 0;
      while left != 0 && k < patience
        invariant k <= patience && left == Counted(count, k)
        invariant forall m: nat :: m < k ==> Counted(count, m) != 0
        invariant 4 * k <= count ==> mem[..] == Copied(was, r, start + 4 * k)
        decreases patience - k
      {
        ghost var done := start + 4 * k;
        if 4 * k + 4 <= count {
          CopyExtends(was, r, done, 4);
        }
        CopyWords(r.base + start + 4 * k, r.side + start + 4 * k, 4);
        left := if left >= 4 then left - 4 else left + U32_LIMIT - 4;
        k := k + 1;
      }
      ended := left == 0;
      if ended {
        ZeroWhen(count, k);
      }
    }

    /** Both loops. Watched for three words of the fine one, or more, the stub ends exactly
        for a multiple of four. */
    method RunStub(r: Relocation, patience: nat) returns (ended: bool)
      requires r.base + r.n <= r.side && r.side + r.n <= mem.Length
      requires patience >= 3 && r.side + r.n / 16 * 16 + 4 * patience <= mem.Length
      modifies mem
      ensures ended <==> r.n % 4 == 0
      ensures ended ==> mem[..] == Copied(old(mem[..]), r, r.n)
    {
      ghost var was := mem[..];
      hide Stored, Copied, Ends, EndsWithin;
      CopiedNone(was, r);
      StubEndsIff(r);
      SoonOrNever(r.n % 16, patience);
      CopyCoarse(r, was, r.n / 16);
      ended := CopyFine(r, was, r.n / 16 * 16, r.n % 16, patience);
    }

    /** The stub put in place and run. */
    method FinalRelocation(r: Relocation, code: seq<byte>, patience: nat) returns (ended: bool)
      requires r.base + r.n <= r.side && r.side + r.n <= r.stub && r.stub + |code| <= mem.Length
      requires patience >= 3 && r.side + r.n / 16 * 16 + 4 * patience <= mem.Length
      modifies mem
      ensures ended <==> r.n % 4 == 0
      ensures ended ==> mem[..] == Moved(old(mem[..]), r, code)
    {
      forall i | 0 <= i < |code| {
        mem[r.stub + i] := code[i];
      }
      assert mem[..] == Stored(old(mem[..]), r.stub, code);
      hide Stored;
      ended := RunStub(r, patience);
    }

    method Boot(
        r: Relocation, ghost selfEnd: nat, chunks: seq<seq<byte>>, crc: Crc, expected: nat, code: seq<byte>, patience: nat)
      returns (fate: Fate)
      requires LaidOut(r, r.base, |Joined(chunks)|, selfEnd) && Room(mem[..], r, |Joined(chunks)|, code)
      requires patience >= 3 && r.side + r.n / 16 * 16 + 4 * patience <= mem.Length
      modifies mem
      ensures var image := Image(Loaded(old(mem[..]), r, 0, chunks), r, |Joined(chunks)|);
              && fate == (if crc.Sum(image) != expected then BadCrc
                          else if r.n % 4 == 0 then Entered else NeverEnds)
              && (fate == Entered ==> mem[..][r.base..r.base + |Joined(chunks)|] == image
                                      && mem[..][r.stub..r.stub + |code|] == code)
    {
      hide Joined, Loaded, Image, Moved;
      MovedIsImage(Loaded(mem[..], r, 0, chunks), r, |Joined(chunks)|, selfEnd, code);
      Load(r, 0, chunks);
      var ok := VerifyIntegrity(r, crc, expected, |Joined(chunks)|);
      if !ok {
        return BadCrc;
      }
      var ended := FinalRelocation(r, code, patience);
      fate := if ended then Entered else NeverEnds;
    }

    /** A whole upload, from the metadata to the jump: what is in memory when the checksum is
        taken is the image, and what decides between the three outcomes is its checksum and
        the length of the part to be moved. When the program is entered the image stands at
        its base; and the image is the program if no chunk crosses the boundary. */
    method LoadAndBoot(
        base: nat, selfEnd: nat, chunks: seq<seq<byte>>, crc: Crc, expected: nat, code: seq<byte>, patience: nat)
      returns (fate: Fate)
      requires base < selfEnd && patience >= 3
      requires var r := Calculate(base, |Joined(chunks)|, selfEnd);
               Room(mem[..], r, |Joined(chunks)|, code) && r.side + r.n / 16 * 16 + 4 * patience <= mem.Length
      modifies mem
      ensures var r := Calculate(base, |Joined(chunks)|, selfEnd);
              && Loads(old(mem[..]), r, base, selfEnd, chunks)
              && var image := Image(Loaded(old(mem[..]), r, 0, chunks), r, |Joined(chunks)|);
                 && fate == (if crc.Sum(image) != expected then BadCrc
                             else if r.n % 4 == 0 then Entered else NeverEnds)
                 && (fate == Entered ==> mem[..][base..base + |Joined(chunks)|] == image
                                         && mem[..][r.stub..r.stub + |code|] == code)
    {
      hide Calculate, Joined, Loaded, Image, Moved, Aligned, Loads;
      var r := Calculate(base, |Joined(chunks)|, selfEnd);
      Layout(base, |Joined(chunks)|, selfEnd);
      LoadsAnything(mem[..], base, selfEnd, chunks);
      fate := Boot(r, selfEnd, chunks, crc, expected, code, patience);
    }
  }
}
