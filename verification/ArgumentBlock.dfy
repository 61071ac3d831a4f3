/** The program's argument block: the host writes it into the image before the upload, the
    kernel reads single arguments back from its 256 bytes. */
module ArgumentBlock {
  import opened Wrappers
  import opened Bytes

  const BLOCK_SIZE := 0x100

  // ----- Writer ----------------------------------------------------------------------

  predicate Aligned(n: int)
  {
    n % 4 == 0
  }

  function LengthWord(n: nat): (r: seq<byte>)
    ensures |r| == 4
  {
    ToLe32(n % U32_LIMIT)
  }

  lemma LengthWordRead(n: nat)
    requires n < U32_LIMIT
    ensures FromLe32(LengthWord(n)) == n
  {
    Le32RoundTrip(n);
  }

  /** One argument as the host lays it out: between one and four bytes of padding. */
  function Entry(arg: seq<byte>): (r: seq<byte>)
    ensures |r| > |arg| + 4
  {
    LengthWord(|arg|) + arg + Zeros(4 - |arg| % 4)
  }

  function Entries(args: seq<seq<byte>>): seq<byte>
  {
    if |args| == 0 then [] else Entry(args[0]) + Entries(args[1..])
  }

  function Serialized(args: seq<seq<byte>>): seq<byte>
  {
    LengthWord(|args|) + Entries(args)
  }

  lemma {:induction false} EntriesAppend(args: seq<seq<byte>>, last: seq<byte>)
    ensures Entries(args + [last]) == Entries(args) + Entry(last)
    decreases |args|
  {
    hide Entry;
    if |args| == 0 {
      assert args + [last] == [last] && [last][1..] == [];
      assert Entries([]) == [];
    } else {
      EntriesAppend(args[1..], last);
      assert (args + [last])[1..] == args[1..] + [last];
      Assoc(Entry(args[0]), Entries(args[1..]), Entry(last));
    }
  }

  lemma EntryAligned(n: int, arg: seq<byte>)
    requires Aligned(n)
    ensures Aligned(n + |Entry(arg)|)
  {
    assert |Entry(arg)| == 4 + |arg| + (4 - |arg| % 4);
  }

  lemma OffsetAligned(j: nat, len: nat)
    requires Aligned(j)
    ensures Aligned(NextOffset(j, len))
  {
    var k := (len + 3) % U32_LIMIT / 4;
    assert j == 4 * (j / 4);
    var q := j / 4 + 1 + k;
    assert NextOffset(j, len) == 4 * q % U32_LIMIT;
  }

  /** The host's writer; the block is word-aligned after every argument. */
  method SerializeArgs(args: seq<seq<byte>>) returns (out: seq<byte>)
    ensures out == Serialized(args)
    ensures Aligned(|out|)
  {
    var count := LengthWord(|args|);
    out := count;
    assert Aligned(|out|) && out == count + Entries(args[..0]);
    hide Aligned, Entries, LengthWord;
    for i := 0 to |args|
      invariant out == count + Entries(args[..i])
      invariant Aligned(|out|)
    {
      var arg := args[i];
      EntriesAppend(args[..i], arg);
      EntryAligned(|out|, arg);
      Assoc(count, Entries(args[..i]), Entry(arg));
      var was := out;
      out := out + LengthWord(|arg|);
      out := out + arg;
      out := out + Zeros(4 - |arg| % 4);
      Assoc(was, LengthWord(|arg|), arg);
      Assoc(was, LengthWord(|arg|) + arg, Zeros(4 - |arg| % 4));
      assert out == was + Entry(arg);
      hide Entry;
      assert args[..i + 1] == args[..i] + [arg];
    }
    assert args[..|args|] == args;
  }

  /** The host puts the block at the start of the image's argument section, and refuses one
      that does not leave at least a byte of it. */
  function Inserted(section: seq<byte>, args: seq<seq<byte>>): (r: Option<seq<byte>>)
    ensures r.Some? <==> |Serialized(args)| < |section|
    ensures r.Some? ==> |r.value| == |section|
  {
    var block := Serialized(args);
    if |block| >= |section| then None else Some(block + section[|block|..])
  }

  // ----- Reader ----------------------------------------------------------------------

  datatype Read = Panic | Missing | Arg(bytes: seq<byte>)

  function WordAt(block: seq<byte>, j: nat): nat
    requires j + 4 <= |block|
  {
    FromLe32(block[j..j + 4])
  }

  /** From an entry to the one after it, in the kernel's 32-bit arithmetic. */
  function NextOffset(j: nat, len: nat): nat
  {
    (j + 4 + (len + 3) % U32_LIMIT / 4 * 4) % U32_LIMIT
  }

  function ReadFrom(block: seq<byte>, j: nat, n: nat): Read
    decreases n
  {
    if j + 4 > |block| then Panic
    else
      var len := WordAt(block, j);
      if n > 0 then ReadFrom(block, NextOffset(j, len), n - 1)
      else if j + 4 + len > |block| then Panic
      else Arg(block[j + 4..j + 4 + len])
  }

  function NthArg(block: seq<byte>, idx: nat): Read
  {
    if |block| < 4 then Panic
    else if idx >= WordAt(block, 0) then Missing
    else ReadFrom(block, 4, idx)
  }

  /** The kernel's reader. Every offset it looks at is word-aligned. */
  method GetNthArg(block: seq<byte>, idx: nat) returns (r: Read)
    ensures r == NthArg(block, idx)
  {
    if |block| < 4 {
      return Panic;
    }
    if idx >= WordAt(block, 0) {
      return Missing;
    }
    var j: nat := 4;
    assert Aligned(j);
    hide Aligned, NextOffset;
    for k := 0 to idx
      invariant Aligned(j)
      invariant ReadFrom(block, 4, idx) == ReadFrom(block, j, idx - k)
    {
      if j + 4 > |block| {
        return Panic;
      }
      OffsetAligned(j, WordAt(block, j));
      j := NextOffset(j, WordAt(block, j));
    }
    if j + 4 > |block| {
      return Panic;
    }
    var len := WordAt(block, j);
    if j + 4 + len > |block| {
      return Panic;
    }
    r := Arg(block[j + 4..j + 4 + len]);
  }

  // ----- What the reader sees --------------------------------------------------------

  /** The arguments with an empty one slipped in after each whose length is a multiple of
      four: the writer's four bytes of padding read as a length word of zero. */
  function Expanded(args: seq<seq<byte>>): (r: seq<seq<byte>>)
    ensures |r| >= |args|
  {
    if |args| == 0 then []
    else if Aligned(|args[0]|) then [args[0]] + ([[]] + Expanded(args[1..]))
    else [args[0]] + Expanded(args[1..])
  }

  function RoundUp(n: nat): (r: nat)
    ensures r >= n
  {
    (n + 3) / 4 * 4
  }

  /** An entry as the reader measures it: up to three bytes of padding. */
  function Tight(e: seq<byte>): (r: seq<byte>)
    ensures |r| == 4 + RoundUp(|e|)
  {
    LengthWord(|e|) + e + Zeros(RoundUp(|e|) - |e|)
  }

  function Tights(es: seq<seq<byte>>): (r: seq<byte>)
  {
    if |es| == 0 then [] else Tight(es[0]) + Tights(es[1..])
  }

  lemma EntryIsTight(arg: seq<byte>)
    ensures Entry(arg) == Tight(arg) + (if Aligned(|arg|) then Tight([]) else [])
  {
    if Aligned(|arg|) {
      assert Tight([]) == Zeros(4);
      assert Tight(arg) == LengthWord(|arg|) + arg;
    } else {
      assert RoundUp(|arg|) - |arg| == 4 - |arg| % 4;
    }
  }

  lemma TightsCons(e: seq<byte>, es: seq<seq<byte>>)
    ensures Tights([e] + es) == Tight(e) + Tights(es)
  {
    assert ([e] + es)[1..] == es;
  }

  lemma {:induction false} EntriesAreTight(args: seq<seq<byte>>)
    ensures Entries(args) == Tights(Expanded(args))
  {
    if |args| > 0 {
      var arg, es := args[0], Expanded(args[1..]);
      EntriesAreTight(args[1..]);
      EntryIsTight(arg);
      hide Entry, Tight, Aligned, Tights;
      if Aligned(|arg|) {
        TightsCons(arg, [[]] + es);
        TightsCons([], es);
        Assoc(Tight(arg), Tight([]), Tights(es));
      } else {
        assert Tight(arg) + [] == Tight(arg);
        TightsCons(arg, es);
      }
    }
  }

  lemma PartsAt(pre: seq<byte>, word: seq<byte>, e: seq<byte>, pad: seq<byte>, rest: seq<byte>)
    ensures var block, at := pre + (word + e + pad + rest), |pre| + |word|;
            block[|pre|..at] == word && block[at..at + |e|] == e
  {
  }

  lemma NextIsRounded(j: nat, len: nat)
    requires j + len + 4 <= BLOCK_SIZE
    ensures NextOffset(j, len) == j + 4 + RoundUp(len)
  {
  }

  lemma WordOfTight(pre: seq<byte>, e: seq<byte>, rest: seq<byte>)
    requires |pre| + |e| + 4 <= BLOCK_SIZE
    ensures var block := pre + (Tight(e) + rest);
            && WordAt(block, |pre|) == |e|
            && |pre| + 4 + |e| <= |block| && block[|pre| + 4..|pre| + 4 + |e|] == e
            && NextOffset(|pre|, |e|) == |pre + Tight(e)|
  {
    NextIsRounded(|pre|, |e|);
    LengthWordRead(|e|);
    hide LengthWord, FromLe32, RoundUp, NextOffset;
    PartsAt(pre, LengthWord(|e|), e, Zeros(RoundUp(|e|) - |e|), rest);
  }

  lemma {:induction false} ReadTights(pre: seq<byte>, es: seq<seq<byte>>, rest: seq<byte>, n: nat)
    requires n < |es| && |pre| + |Tights(es)| <= BLOCK_SIZE
    ensures ReadFrom(pre + (Tights(es) + rest), |pre|, n) == Arg(es[n])
    decreases n
  {
    var first, others := Tight(es[0]), Tights(es[1..]);
    hide Tight, WordAt, NextOffset;
    Assoc(first, others, rest);
    WordOfTight(pre, es[0], others + rest);
    if n > 0 {
      ReadTights(pre + first, es[1..], rest, n - 1);
      Assoc(pre, first, others + rest);
    }
  }

  /** Every read of a block that fits, whatever bytes follow the arguments: never a panic,
      and the argument found is that of the expanded list. */
  lemma ReadsExpanded(args: seq<seq<byte>>, section: seq<byte>, i: nat)
    requires |section| == BLOCK_SIZE && Inserted(section, args).Some?
    ensures NthArg(Inserted(section, args).value, i)
            == if i < |args| then Arg(Expanded(args)[i]) else Missing
  {
    var rest := BlockShape(args, section);
    var block := Inserted(section, args).value;
    hide Entries, LengthWord, Expanded, Inserted, Serialized, ReadFrom, WordAt;
    assert NthArg(block, i) == if i < |args| then ReadFrom(block, 4, i) else Missing;
    if i < |args| {
      hide NthArg;
      ReadsEntry(LengthWord(|args|), args, rest, i);
    }
  }

  lemma ReadsEntry(count: seq<byte>, args: seq<seq<byte>>, rest: seq<byte>, i: nat)
    requires |count| == 4 && 4 + |Entries(args)| <= BLOCK_SIZE && i < |args|
    ensures ReadFrom(count + (Entries(args) + rest), 4, i) == Arg(Expanded(args)[i])
  {
    hide Entries, Tights, Expanded, ReadFrom;
    EntriesAreTight(args);
    ReadTights(count, Expanded(args), rest, i);
  }

  lemma BlockShape(args: seq<seq<byte>>, section: seq<byte>) returns (rest: seq<byte>)
    requires |section| == BLOCK_SIZE && Inserted(section, args).Some?
    ensures var block := Inserted(section, args).value;
            && block == LengthWord(|args|) + (Entries(args) + rest)
            && |block| == BLOCK_SIZE && WordAt(block, 0) == |args| && 4 + |Entries(args)| <= BLOCK_SIZE
  {
    rest := section[|Serialized(args)|..];
    CountFits(args);
    LengthWordRead(|args|);
    hide Entries, LengthWord, FromLe32;
    Assoc(LengthWord(|args|), Entries(args), rest);
    FirstWord(LengthWord(|args|), Entries(args) + rest);
  }

  lemma FirstWord(word: seq<byte>, rest: seq<byte>)
    requires |word| == 4
    ensures (word + rest)[0..4] == word
  {
  }

  lemma {:induction false} CountFits(args: seq<seq<byte>>)
    ensures |args| <= |Entries(args)|
  {
    if |args| > 0 {
      CountFits(args[1..]);
    }
  }

  // ----- When that is the argument written -------------------------------------------

  lemma {:induction false} ExpandedAt(args: seq<seq<byte>>, i: nat)
    requires i < |args| && forall j :: 0 <= j < i ==> !Aligned(|args[j]|)
    ensures Expanded(args)[i] == args[i]
    decreases i
  {
    if i > 0 {
      assert !Aligned(|args[0]|);
      ExpandedAt(args[1..], i - 1);
    }
  }

  /** Reading gives back argument `i` if no earlier one has a length divisible by four. */
  lemma ArgumentRoundTrip(args: seq<seq<byte>>, section: seq<byte>, i: nat)
    requires |section| == BLOCK_SIZE && Inserted(section, args).Some?
    requires i < |args| && forall j :: 0 <= j < i ==> !Aligned(|args[j]|)
    ensures NthArg(Inserted(section, args).value, i) == Arg(args[i])
  {
    ReadsExpanded(args, section, i);
    ExpandedAt(args, i);
  }

  /** Nothing but empty arguments after the first whose length is a multiple of four. */
  predicate Readable(args: seq<seq<byte>>)
  {
    forall i, j :: 0 <= i < j < |args| && Aligned(|args[i]|) ==> args[j] == []
  }

  predicate AllSame(args: seq<seq<byte>>)
  {
    forall i :: 0 <= i < |args| ==> Expanded(args)[i] == args[i]
  }

  predicate AllEmpty(args: seq<seq<byte>>)
  {
    forall i :: 0 <= i < |args| ==> args[i] == []
  }

  lemma {:induction false} ExpandedEmpty(args: seq<seq<byte>>)
    requires AllEmpty(args)
    ensures forall i :: 0 <= i < |Expanded(args)| ==> Expanded(args)[i] == []
  {
    if |args| > 0 {
      ExpandedEmpty(args[1..]);
    }
  }

  function Blanks(k: nat): seq<seq<byte>>
  {
    seq(k, _ => [])
  }

  /** Arguments that agree with the expanded list some places later are all empty. */
  lemma {:induction false} ShiftedIsEmpty(args: seq<seq<byte>>, k: nat)
    requires k > 0 && forall i :: 0 <= i < |args| ==> (Blanks(k) + Expanded(args))[i] == args[i]
    ensures AllEmpty(args)
    decreases |args|
  {
    if |args| > 0 {
      var later := args[1..];
      assert args[0] == [];
      assert Expanded(args) == Blanks(2) + Expanded(later);
      forall i | 0 <= i < |later|
        ensures (Blanks(k + 1) + Expanded(later))[i] == later[i]
      {
        assert (Blanks(k) + Expanded(args))[i + 1] == args[i + 1];
      }
      ShiftedIsEmpty(later, k + 1);
    }
  }

  lemma {:induction false} SameIffReadable(args: seq<seq<byte>>)
    ensures AllSame(args) <==> Readable(args)
  {
    if |args| > 0 {
      var later, es := args[1..], Expanded(args[1..]);
      if Aligned(|args[0]|) {
        assert Expanded(args) == [args[0]] + (Blanks(1) + es);
        hide Expanded, Aligned;
        if AllSame(args) {
          forall i | 0 <= i < |later|
            ensures (Blanks(1) + es)[i] == later[i]
          {
            assert Expanded(args)[i + 1] == args[i + 1];
          }
          ShiftedIsEmpty(later, 1);
        }
        if Readable(args) {
          assert AllEmpty(later);
          ExpandedEmpty(later);
        }
      } else {
        assert Expanded(args) == [args[0]] + es;
        hide Expanded, Aligned;
        SameIffReadable(later);
        if Readable(later) {
          forall i, j | 0 <= i < j < |args| && Aligned(|args[i]|)
            ensures args[j] == []
          {
            assert later[i - 1] == args[i] && later[j - 1] == args[j];
          }
        }
        if AllSame(args) {
          forall i | 0 <= i < |later|
            ensures es[i] == later[i]
          {
            assert Expanded(args)[i + 1] == args[i + 1];
          }
        }
        if Readable(args) {
          forall i, j | 0 <= i < j < |later| && Aligned(|later[i]|)
            ensures later[j] == []
          {
            assert args[i + 1] == later[i] && args[j + 1] == later[j];
          }
        }
      }
    }
  }

  /** Every argument reads back as written if and only if the arguments after the first
      whose length is a multiple of four are all empty. */
  lemma AllReadBackIff(args: seq<seq<byte>>, section: seq<byte>)
    requires |section| == BLOCK_SIZE && Inserted(section, args).Some?
    ensures (forall i :: 0 <= i < |args| ==> NthArg(Inserted(section, args).value, i) == Arg(args[i]))
            <==> Readable(args)
  {
    var block := Inserted(section, args).value;
    forall i | 0 <= i < |args|
      ensures NthArg(block, i) == Arg(Expanded(args)[i])
    {
      ReadsExpanded(args, section, i);
    }
    hide NthArg, Expanded, Inserted, Serialized;
    SameIffReadable(args);
    hide Readable;
    if forall i :: 0 <= i < |args| ==> NthArg(block, i) == Arg(args[i]) {
      forall i | 0 <= i < |args|
        ensures Expanded(args)[i] == args[i]
      {
        assert NthArg(block, i) == Arg(args[i]);
      }
    }
  }
}
