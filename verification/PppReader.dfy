/** What a receiver makes of a byte stream when nothing limits it, and what becomes of that when
    the stream is cut: a pending escape is forgotten between two drains. */
module PppReader {
  import opened Wrappers
  import opened Fcs
  import opened PppFrames

  /** The frames completed so far, the one in progress (its opening flag included), and whether
      the last byte was an escape. */
  datatype Reader = Reader(all: seq<seq<octet>>, partial: Option<seq<octet>>, escaped: bool)
  {
    /** A frame in progress begins with its flag; only inside one can an escape be pending. */
    ghost predicate Valid()
    {
      && (partial.Some? ==> |partial.value| > 0 && partial.value[0] == FLAG)
      && (escaped ==> partial.Some?)
    }

    /** At the end of a drain. */
    function Cut(): Reader
    {
      this.(escaped := false)
    }
  }

  function ReadByte(r: Reader, b: octet): Reader
  {
    match r.partial
    case None => if b == FLAG then Reader(r.all, Some([FLAG]), false) else r
    case Some(p) =>
      if b == FLAG then
        if |p| <= 1 then r else Reader(r.all + [p], Some([FLAG]), false)
      else if r.escaped then Reader(r.all, Some(p + [b ^ ESC_XOR]), false)
      else if b == ESC then r.(escaped := true)
      else r.(partial := Some(p + [b]))
  }

  function Read(r: Reader, s: seq<octet>): Reader
    decreases |s|
  {
    if |s| == 0 then r else Read(ReadByte(r, s[0]), s[1..])
  }

  lemma {:induction false} ReadConcat(r: Reader, s: seq<octet>, t: seq<octet>)
    ensures Read(r, s + t) == Read(Read(r, s), t)
    decreases |s|
  {
    hide ReadByte;
    if |s| == 0 {
      assert s + t == t;
    } else {
      ReadConcat(ReadByte(r, s[0]), s[1..], t);
      assert (s + t)[1..] == s[1..] + t;
    }
  }

  lemma ReadOne(r: Reader, b: octet)
    ensures Read(r, [b]) == ReadByte(r, b)
  {
    assert [b][1..] == [];
  }

  lemma ReadNothing(r: Reader)
    ensures Read(r, []) == r
  {
  }

  lemma ReadByteValid(r: Reader, b: octet)
    requires r.Valid()
    ensures ReadByte(r, b).Valid()
  {
  }

  lemma {:induction false} ReadValid(r: Reader, s: seq<octet>)
    requires r.Valid()
    ensures Read(r, s).Valid()
    decreases |s|
  {
    hide ReadByte;
    if |s| > 0 {
      ReadByteValid(r, s[0]);
      ReadValid(ReadByte(r, s[0]), s[1..]);
    }
  }

  /** What is completed stays completed. */
  lemma {:induction false} ReadGrows(r: Reader, s: seq<octet>)
    ensures r.all <= Read(r, s).all
    decreases |s|
  {
    if |s| > 0 {
      ReadGrows(ReadByte(r, s[0]), s[1..]);
    }
  }

  // ----- A forgotten escape ----------------------------------------------------------

  /** Where two readings of the same bytes stand that differ, at first, in a pending escape
      only: the first has it, the second has forgotten it. `ESC_BYTE` is what an escaped escape
      stands for.
      `Together`: no difference is left.
      `Lone`: the frame holds only its flag, and the first has an escape pending.
      `LoneBehind`: the first has taken an escaped escape, the second has it pending.
      `Ahead`: the first has completed a frame of just that, the second has it pending.
      `AheadPending`: now the second has taken it, and the first has another pending.
      `Long`: the frame holds more than its flag, and the first has an escape pending.
      `LongBehind`: the first has taken an escaped escape, the second has it pending.
      `Apart`: they never meet again. */
  datatype Standing =
    Together | Lone | LoneBehind | Ahead | AheadPending | Long | LongBehind | Apart

  const ESC_BYTE: octet := ESC ^ ESC_XOR

  function OnNext(q: Standing, b: octet): Standing
  {
    match q
    case Together => Together
    case Lone => if b == FLAG then Lone else if b == ESC then LoneBehind else Apart
    case LoneBehind => if b == FLAG then Ahead else if b == ESC then Long else Apart
    case Ahead => if b == FLAG then Ahead else if b == ESC then AheadPending else Apart
    case AheadPending => if b == FLAG then Lone else Apart
    case Long => if b == FLAG then Together else if b == ESC then LongBehind else Apart
    case LongBehind => if b == ESC then Long else Apart
    case Apart => Apart
  }

  function Scan(q: Standing, t: seq<octet>): Standing
    decreases |t|
  {
    if |t| == 0 then q else Scan(OnNext(q, t[0]), t[1..])
  }

  /** The difference does not show if the bytes end here. */
  predicate Meets(q: Standing)
  {
    q == Together || q == Lone || q == Long
  }

  /** The two readings differ for good: in a completed frame; in the frame in progress; the
      second can no longer complete what the first has; or the first is one frame ahead and
      stays so. */
  ghost predicate Diverged(a: Reader, b: Reader)
  {
    a.partial.Some? && b.partial.Some? &&
    ( || (exists i :: 0 <= i < |a.all| && i < |b.all| && a.all[i] != b.all[i])
      || (a.all == b.all && a.escaped == b.escaped && |a.partial.value| > 1 && |b.partial.value| > 1
          && a.partial.value != b.partial.value)
      || (|b.all| < |a.all| && !(b.partial.value <= a.all[|b.all|]))
      || (|a.all| == |b.all| + 1 && a.partial == b.partial && a.escaped == b.escaped)
      || OneAhead(a, b))
  }

  ghost predicate OneAhead(a: Reader, b: Reader)
  {
    |a.all| == |b.all| + 1 && a.partial == b.partial == Some([FLAG, ESC_BYTE])
    && a.all[|b.all|] == [FLAG, ESC_BYTE] && !a.escaped && b.escaped
  }

  ghost predicate Stand(q: Standing, a: Reader, b: Reader)
  {
    a.Valid() && b.Valid() &&
    match q
    case Together => a == b
    case Lone => a == b.(escaped := true) && b.partial == Some([FLAG]) && !b.escaped
    case LoneBehind =>
      a.all == b.all && a.partial == Some([FLAG, ESC_BYTE]) && !a.escaped && b.partial == Some([FLAG]) && b.escaped
    case Ahead =>
      a.all == b.all + [[FLAG, ESC_BYTE]] && a.partial == b.partial == Some([FLAG]) && !a.escaped && b.escaped
    case AheadPending =>
      a.all == b.all + [[FLAG, ESC_BYTE]] && a.partial == Some([FLAG]) && a.escaped
      && b.partial == Some([FLAG, ESC_BYTE]) && !b.escaped
    case Long => a == b.(escaped := true) && b.partial.Some? && |b.partial.value| > 1 && !b.escaped
    case LongBehind =>
      a.all == b.all && b.partial.Some? && |b.partial.value| > 1
      && a.partial == Some(b.partial.value + [ESC_BYTE]) && !a.escaped && b.escaped
    case Apart => Diverged(a, b)
  }

  lemma XorChanges(b: octet)
    ensures b ^ ESC_XOR != b
    ensures b ^ ESC_XOR == ESC_BYTE <==> b == ESC
    ensures ESC_BYTE != FLAG && ESC_BYTE != ESC
  {
  }

  lemma Appended(p: seq<octet>, q: seq<octet>, x: octet, y: octet)
    ensures [FLAG] + [x] == [FLAG, x]
    ensures p + [x] == q + [y] ==> p == q && x == y
  {
    if p + [x] == q + [y] {
      assert p == (p + [x])[..|p|] && q == (q + [y])[..|q|];
      assert (p + [x])[|p|] == x && (q + [y])[|q|] == y;
    }
  }

  lemma LoneStep(a: Reader, b: Reader, x: octet)
    requires Stand(Lone, a, b)
    ensures Stand(OnNext(Lone, x), ReadByte(a, x), ReadByte(b, x))
  {
    XorChanges(x);
    Appended([FLAG], [FLAG], x ^ ESC_XOR, x);
  }

  lemma LoneBehindStep(a: Reader, b: Reader, x: octet)
    requires Stand(LoneBehind, a, b)
    ensures Stand(OnNext(LoneBehind, x), ReadByte(a, x), ReadByte(b, x))
  {
    XorChanges(x);
    Appended([], [], x ^ ESC_XOR, x);
    if x != FLAG && x != ESC {
      assert |[FLAG, ESC_BYTE] + [x]| != |[FLAG] + [x ^ ESC_XOR]|;
    }
  }

  lemma AheadStep(a: Reader, b: Reader, x: octet)
    requires Stand(Ahead, a, b)
    ensures Stand(OnNext(Ahead, x), ReadByte(a, x), ReadByte(b, x))
  {
    XorChanges(x);
    Appended([], [], x ^ ESC_XOR, x);
    if x != FLAG && x != ESC {
      assert [FLAG, x ^ ESC_XOR][1] != [FLAG, ESC_BYTE][1];
    }
  }

  lemma AheadPendingStep(a: Reader, b: Reader, x: octet)
    requires Stand(AheadPending, a, b)
    ensures Stand(OnNext(AheadPending, x), ReadByte(a, x), ReadByte(b, x))
  {
    XorChanges(x);
    Appended([], [], x ^ ESC_XOR, x);
    var a', b' := ReadByte(a, x), ReadByte(b, x);
    if x == ESC {
      assert OneAhead(a', b');
    } else if x != FLAG {
      assert |b'.partial.value| == 3;
    }
  }

  lemma LongStep(a: Reader, b: Reader, x: octet)
    requires Stand(Long, a, b)
    ensures Stand(OnNext(Long, x), ReadByte(a, x), ReadByte(b, x))
  {
    XorChanges(x);
    var p := b.partial.value;
    Appended(p, p, x ^ ESC_XOR, x);
  }

  lemma LongBehindStep(a: Reader, b: Reader, x: octet)
    requires Stand(LongBehind, a, b)
    ensures Stand(OnNext(LongBehind, x), ReadByte(a, x), ReadByte(b, x))
  {
    XorChanges(x);
    var p := b.partial.value;
    var a', b' := ReadByte(a, x), ReadByte(b, x);
    if x == FLAG {
      assert a'.all[|a.all|] != b'.all[|a.all|];
    } else if x != ESC {
      assert |a'.partial.value| == |p| + 2 && |b'.partial.value| == |p| + 1;
    }
  }

  lemma ApartStep(a: Reader, b: Reader, x: octet)
    requires Stand(Apart, a, b)
    ensures Stand(Apart, ReadByte(a, x), ReadByte(b, x))
  {
    XorChanges(x);
    var a', b' := ReadByte(a, x), ReadByte(b, x);
    var p, q := a.partial.value, b.partial.value;
    var y := if a.escaped then x ^ ESC_XOR else x;
    if i :| 0 <= i < |a.all| && i < |b.all| && a.all[i] != b.all[i] {
      assert a'.all[i] == a.all[i] && b'.all[i] == b.all[i];
    } else if a.all == b.all && a.escaped == b.escaped && |p| > 1 && |q| > 1 && p != q {
      if x == FLAG {
        assert a'.all[|a.all|] == p && b'.all[|a.all|] == q;
      } else {
        Appended(p, q, y, y);
      }
    } else if |b.all| < |a.all| && !(q <= a.all[|b.all|]) {
      assert a'.all[|b.all|] == a.all[|b.all|];
      if x == FLAG && |q| > 1 {
        assert b'.all[|b.all|] == q;
      } else if b'.partial.value != q {
        assert q <= b'.partial.value;
        NotPrefix(q, b'.partial.value, a.all[|b.all|]);
      }
    } else if OneAhead(a, b) {
      if x == FLAG {
        assert a'.partial == b'.partial;
      } else {
        assert |b'.partial.value| == 3;
        assert a'.all == a.all && b'.all == b.all;
      }
    }
  }

  lemma NotPrefix(q: seq<octet>, q': seq<octet>, s: seq<octet>)
    requires q <= q' && !(q <= s)
    ensures !(q' <= s)
  {
  }

  lemma StandStep(q: Standing, a: Reader, b: Reader, x: octet)
    requires Stand(q, a, b)
    ensures Stand(OnNext(q, x), ReadByte(a, x), ReadByte(b, x))
  {
    match q {
      case Together => ReadByteValid(a, x);
      case Lone => LoneStep(a, b, x);
      case LoneBehind => LoneBehindStep(a, b, x);
      case Ahead => AheadStep(a, b, x);
      case AheadPending => AheadPendingStep(a, b, x);
      case Long => LongStep(a, b, x);
      case LongBehind => LongBehindStep(a, b, x);
      case Apart => ApartStep(a, b, x);
    }
  }

  lemma {:induction false} StandRun(q: Standing, a: Reader, b: Reader, t: seq<octet>)
    requires Stand(q, a, b)
    ensures Stand(Scan(q, t), Read(a, t), Read(b, t))
    decreases |t|
  {
    hide Stand, ReadByte, OnNext;
    if |t| > 0 {
      StandStep(q, a, b, t[0]);
      StandRun(OnNext(q, t[0]), ReadByte(a, t[0]), ReadByte(b, t[0]), t[1..]);
    }
  }

  lemma MeetsIffSame(q: Standing, a: Reader, b: Reader)
    requires Stand(q, a, b)
    ensures a.Cut() == b.Cut() <==> Meets(q)
  {
    if q == Apart {
      if a.all == b.all {
        assert a.partial.value != b.partial.value;
      }
    } else if q == LongBehind || q == LoneBehind {
      assert |a.partial.value| != |b.partial.value|;
    } else if q == Ahead || q == AheadPending {
      assert |a.all| != |b.all|;
    }
  }

  /** Where the two readings start when the stream is cut after this. */
  function AtCut(r: Reader): Standing
  {
    if !r.escaped || r.partial.None? then Together
    else if |r.partial.value| <= 1 then Lone
    else Long
  }

  /** A stream cut in two gives, at the end of the second part, what it gives uncut, if and only
      if the scan of the second part says so. In particular a cut that is not between an escape
      and the byte it announces never shows. */
  lemma CutShowsIff(r: Reader, s: seq<octet>, t: seq<octet>)
    requires r.Valid()
    ensures Read(r, s + t).Cut() == Read(Read(r, s).Cut(), t).Cut() <==> Meets(Scan(AtCut(Read(r, s)), t))
    ensures !Read(r, s).escaped ==> Meets(Scan(AtCut(Read(r, s)), t))
  {
    hide Read, ReadByte, Scan;
    ReadConcat(r, s, t);
    ReadValid(r, s);
    var r1 := Read(r, s);
    StandAtCut(r1);
    StandRun(AtCut(r1), r1, r1.Cut(), t);
    hide Stand;
    MeetsIffSame(Scan(AtCut(r1), t), Read(r1, t), Read(r1.Cut(), t));
    TogetherStays(t);
  }

  lemma StandAtCut(r: Reader)
    requires r.Valid()
    ensures Stand(AtCut(r), r, r.Cut())
  {
    if r.escaped && |r.partial.value| == 1 {
      assert r.partial.value == [FLAG];
    }
  }

  lemma {:induction false} TogetherStays(t: seq<octet>)
    ensures Scan(Together, t) == Together
  {
    if |t| > 0 {
      TogetherStays(t[1..]);
    }
  }

  /** What is left when pairs of escapes are taken off the front. */
  function Unpaired(t: seq<octet>): seq<octet>
  {
    if |t| >= 2 && t[0] == ESC && t[1] == ESC then Unpaired(t[2..]) else t
  }

  lemma {:induction false} ApartStays(t: seq<octet>)
    ensures Scan(Apart, t) == Apart
  {
    if |t| > 0 {
      ApartStays(t[1..]);
    }
  }

  /** Inside a frame that holds more than its flag, an escape forgotten at the cut does not show
      if and only if nothing, or a flag, comes after any number of pairs of escapes. */
  lemma {:induction false} LongMeetsIff(t: seq<octet>)
    ensures Meets(Scan(Long, t)) <==> Unpaired(t) == [] || Unpaired(t)[0] == FLAG
  {
    if |t| > 0 {
      var q, rest := OnNext(Long, t[0]), t[1..];
      if t[0] == FLAG {
        TogetherStays(rest);
      } else if t[0] != ESC {
        ApartStays(rest);
      } else if |rest| > 0 {
        assert rest[1..] == t[2..];
        if rest[0] == ESC {
          LongMeetsIff(t[2..]);
        } else {
          ApartStays(rest[1..]);
        }
      }
    }
  }
}
