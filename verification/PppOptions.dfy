/** Configuration options of the PPP control protocols: the iterator over an option list, what
    LCP thinks of each option, and the reply to a Configure-Request (sections 5.1 to 5.4 of
    RFC 1661). */
module PppOptions {
  import opened Wrappers
  import opened Bytes
  import PppLimits

  // ----- The iterator ----------------------------------------------------------------

  /** What asking for the next option gives: the end, one option with its two-byte header, an
      option longer than what is left, or an index out of range. */
  datatype Item = End | Opt(raw: seq<byte>) | Overflow | Panic

  /** Whether a protocol's reader gets through an option without an index out of range. */
  type Survival = seq<byte> -> bool

  /** The next option from `index` on. Its length byte counts the header; one below two makes
      the slice of its contents end before it begins. An option is read before it is passed. */
  function Next(survives: Survival, buf: seq<byte>, index: nat): (item: Item)
    ensures item.Opt? ==> |item.raw| >= 2 && index + |item.raw| <= |buf|
  {
    if index >= |buf| then End
    else if index + 1 >= |buf| then Panic
    else
      var len := buf[index + 1];
      if index + len > |buf| then Overflow
      else if len < 2 then Panic
      else if survives(buf[index..index + len]) then Opt(buf[index..index + len])
      else Panic
  }

  class Options {
    const survives: Survival
    const buf: seq<byte>
    var index: nat

    constructor (survives: Survival, buf: seq<byte>)
      ensures this.survives == survives && this.buf == buf && index == 0
    {
      this.survives, this.buf := survives, buf;
      index := 0;
    }

    /** Of the bytes from the index on: a well-formed option at their head that the reader
        survives is given and passed; an option longer than they are is told but never passed;
        the end is told for ever; and anything else panics. */
    method Advance() returns (item: Item)
      requires index <= |buf|
      modifies this
      ensures old(index) <= index <= |buf| && (!item.Opt? ==> index == old(index))
      ensures var rest := buf[old(index)..];
              && (item == End <==> rest == [])
              && (item == Overflow <==> |rest| >= 2 && rest[1] > |rest|)
              && (item.Opt? <==> !NoOption(survives, rest))
              && (item.Opt? ==> Readable(survives, item.raw) && rest == item.raw + buf[index..])
      ensures item == Next(survives, buf, old(index)) && (item.Opt? ==> index == old(index) + |item.raw|)
    {
      ghost var rest := buf[index..];
      assert |rest| >= 2 ==> rest[1] == buf[index + 1];
      if index >= |buf| {
        return End;
      }
      if index + 1 >= |buf| {
        return Panic;
      }
      var len := buf[index + 1];
      if index + len > |buf| {
        return Overflow;
      }
      if len < 2 {
        return Panic;
      }
      var raw := buf[index..index + len];
      assert raw == rest[..len];
      if !survives(raw) {
        return Panic;
      }
      item := Opt(raw);
      index := index + len;
      assert item.raw[1] == rest[1];
    }
  }

  /** How iterating to the end goes. */
  datatype Parsed = Tiles(opts: seq<seq<byte>>) | Malformed | Panics

  function Parse(survives: Survival, buf: seq<byte>, index: nat): Parsed
    decreases |buf| - index
  {
    match Next(survives, buf, index)
    case End => Tiles([])
    case Panic => Panics
    case Overflow => Malformed
    case Opt(raw) =>
      match Parse(survives, buf, index + |raw|)
      case Tiles(opts) => Tiles([raw] + opts)
      case other => other
  }

  /** The options up to wherever iteration stops: the list that a caller has collected. */
  method Collect(survives: Survival, buf: seq<byte>) returns (r: Parsed)
    ensures r == Parse(survives, buf, 0)
  {
    hide NoOption, Readable, Next;
    var options := new Options(survives, buf);
    var opts := [];
    while true
      invariant fresh(options) && options.buf == buf && options.survives == survives && options.index <= |buf|
      invariant Parse(survives, buf, 0) == match Parse(survives, buf, options.index)
                                           case Tiles(more) => Tiles(opts + more)
                                           case other => other
      decreases |buf| - options.index
    {
      var item := options.Advance();
      match item {
        case End =>
          assert opts + [] == opts;
          return Tiles(opts);
        case Panic => return Panics;
        case Overflow => return Malformed;
        case Opt(raw) =>
          ghost var rest := Parse(survives, buf, options.index);
          if rest.Tiles? {
            Assoc(opts, [raw], rest.opts);
          }
          opts := opts + [raw];
      }
    }
  }

  // ----- Tilings ---------------------------------------------------------------------

  predicate WellFormed(opt: seq<byte>)
  {
    |opt| >= 2 && opt[1] == |opt|
  }

  predicate AllWellFormed(opts: seq<seq<byte>>)
  {
    forall i :: 0 <= i < |opts| ==> WellFormed(opts[i])
  }

  predicate Readable(survives: Survival, opt: seq<byte>)
  {
    WellFormed(opt) && survives(opt)
  }

  predicate AllReadable(survives: Survival, opts: seq<seq<byte>>)
  {
    forall i :: 0 <= i < |opts| ==> Readable(survives, opts[i])
  }

  /** The list is these options end to end, each as long as it says. */
  predicate Tiling(opts: seq<seq<byte>>, buf: seq<byte>)
  {
    Joined(opts) == buf && AllWellFormed(opts)
  }

  lemma NextOfTiled(survives: Survival, pre: seq<byte>, first: seq<byte>, rest: seq<byte>)
    requires Readable(survives, first)
    ensures Next(survives, pre + (first + rest), |pre|) == Opt(first)
  {
    var buf := pre + (first + rest);
    assert buf[|pre| + 1] == first[1];
    assert buf[|pre|..|pre| + |first|] == first;
  }

  /** Bytes that do not begin with an option that can be read: none, a lone byte, a length byte
      that is too large or too small, or an option that the reader does not survive. */
  predicate NoOption(survives: Survival, rest: seq<byte>)
  {
    |rest| < 2 || rest[1] > |rest| || rest[1] < 2 || !survives(rest[..rest[1]])
  }

  /** How iteration ends on them. */
  function EndOn(opts: seq<seq<byte>>, rest: seq<byte>): Parsed
  {
    if |rest| == 0 then Tiles(opts)
    else if |rest| >= 2 && rest[1] > |rest| then Malformed
    else Panics
  }

  lemma ParseStep(survives: Survival, buf: seq<byte>, index: nat, raw: seq<byte>, opts: seq<seq<byte>>, rest: seq<byte>)
    requires Next(survives, buf, index) == Opt(raw) && Parse(survives, buf, index + |raw|) == EndOn(opts, rest)
    ensures Parse(survives, buf, index) == EndOn([raw] + opts, rest)
  {
    hide Next;
  }

  lemma ParseEnd(survives: Survival, pre: seq<byte>, rest: seq<byte>)
    requires NoOption(survives, rest)
    ensures Parse(survives, pre + rest, |pre|) == EndOn([], rest)
  {
    NextOfNone(survives, pre, rest);
    hide Next, NoOption;
  }

  lemma NextOfNone(survives: Survival, pre: seq<byte>, rest: seq<byte>)
    requires NoOption(survives, rest)
    ensures Next(survives, pre + rest, |pre|)
            == (if |rest| == 0 then End else if |rest| >= 2 && rest[1] > |rest| then Overflow else Panic)
  {
    var buf := pre + rest;
    if |rest| >= 2 {
      assert buf[|pre| + 1] == rest[1];
      if rest[1] <= |rest| {
        assert buf[|pre|..|pre| + rest[1]] == rest[..rest[1]];
      }
    }
  }

  lemma TiledStep(
      survives: Survival, pre: seq<byte>, first: seq<byte>, tail: seq<byte>, opts: seq<seq<byte>>, rest: seq<byte>)
    requires Readable(survives, first)
    requires Parse(survives, pre + first + tail, |pre| + |first|) == EndOn(opts, rest)
    ensures Parse(survives, pre + (first + tail), |pre|) == EndOn([first] + opts, rest)
  {
    hide Next, Readable, Parse, EndOn;
    NextOfTiled(survives, pre, first, tail);
    var whole := pre + (first + tail);
    assert whole == pre + first + tail;
    ParseStep(survives, whole, |pre|, first, opts, rest);
  }

  /** Readable options and then something that is none. */
  lemma {:induction false} TilingIsParsed(survives: Survival, pre: seq<byte>, opts: seq<seq<byte>>, rest: seq<byte>)
    requires AllReadable(survives, opts) && NoOption(survives, rest)
    ensures Parse(survives, pre + (Joined(opts) + rest), |pre|) == EndOn(opts, rest)
    decreases |opts|
  {
    hide Next, Readable, Parse, EndOn, NoOption;
    if |opts| == 0 {
      assert Joined(opts) + rest == rest;
      ParseEnd(survives, pre, rest);
    } else {
      var first, others := opts[0], opts[1..];
      TilingIsParsed(survives, pre + first, others, rest);
      TiledStep(survives, pre, first, Joined(others) + rest, others, rest);
      Assoc(first, Joined(others), rest);
      assert opts == [first] + others;
    }
  }

  /** Every list is one of that form. */
  lemma {:induction false} StopsSomewhere(survives: Survival, buf: seq<byte>) returns (opts: seq<seq<byte>>, rest: seq<byte>)
    ensures AllReadable(survives, opts) && NoOption(survives, rest) && buf == Joined(opts) + rest
    decreases |buf|
  {
    if NoOption(survives, buf) {
      opts, rest := [], buf;
    } else {
      var raw := buf[..buf[1]];
      opts, rest := StopsSomewhere(survives, buf[buf[1]..]);
      Assoc(raw, Joined(opts), rest);
      assert ([raw] + opts)[1..] == opts;
      opts := [raw] + opts;
    }
  }

  /** The end of iteration for every list and every reader: it gives the tiling when readable
      options tile the list; it comes to an option longer than what is left when one follows
      them; and it panics when what follows them is a single byte, has a length byte below
      two, or is an option that the reader does not survive. */
  lemma IterationEnds(survives: Survival, buf: seq<byte>) returns (opts: seq<seq<byte>>, rest: seq<byte>)
    ensures AllReadable(survives, opts) && NoOption(survives, rest) && buf == Joined(opts) + rest
    ensures Parse(survives, buf, 0) == EndOn(opts, rest)
  {
    opts, rest := StopsSomewhere(survives, buf);
    hide AllReadable, Parse, NoOption, EndOn;
    TilingIsParsed(survives, [], opts, rest);
    assert [] + buf == buf;
  }

  /** Iteration ends with a list of options exactly when the data is tiled by well-formed
      options that the reader survives, and then it is that tiling, the only one there is. */
  lemma ParsesIffTiled(survives: Survival, buf: seq<byte>, opts: seq<seq<byte>>)
    ensures Parse(survives, buf, 0) == Tiles(opts) <==> Joined(opts) == buf && AllReadable(survives, opts)
  {
    hide AllReadable, Parse;
    if Parse(survives, buf, 0) == Tiles(opts) {
      var tiles, rest := IterationEnds(survives, buf);
      assert Joined(tiles) + [] == Joined(tiles);
    }
    if Joined(opts) == buf && AllReadable(survives, opts) {
      TilingIsParsed(survives, [], opts, []);
      assert [] + (buf + []) == buf;
    }
  }

  // ----- Reading an option -----------------------------------------------------------

  /** What a reader makes of an option: one it knows, one it does not, or an index out of range. */
  datatype Reading<+O> = Known(option: O) | Unreadable | OutOfRange

  // ----- What LCP thinks of an option ------------------------------------------------

  const MRU: nat := PppLimits.PPP_MRU

  datatype LcpOption =
    | Mru(mru: nat) | Accm(accm: nat) | AuthProtocol(auth: nat) | QualProtocol(qual: nat)
    | Magic(magic: nat) | PFCompression | ACFCompression

  function Be16(a: byte, b: byte): (r: nat)
  {
    256 * a + b
  }

  function Be32(data: seq<byte>): nat
    requires |data| == 4
  {
    256 * (256 * Be16(data[0], data[1]) + data[2]) + data[3]
  }

  /** LCP's reader. It looks at no index that is not there. */
  function LcpFromBytes(ty: byte, data: seq<byte>): Reading<LcpOption>
  {
    match ty
    case 1 => if |data| != 2 then Unreadable else Known(Mru(Be16(data[0], data[1])))
    case 2 => if |data| != 4 then Unreadable else Known(Accm(Be32(data)))
    case 3 => if |data| < 4 then Unreadable else Known(AuthProtocol(Be16(data[0], data[1])))
    case 4 => if |data| < 4 then Unreadable else Known(QualProtocol(Be16(data[0], data[1])))
    case 5 => if |data| != 4 then Unreadable else Known(Magic(Be32(data)))
    case 7 => if |data| != 0 then Unreadable else Known(PFCompression)
    case 8 => if |data| != 0 then Unreadable else Known(ACFCompression)
    case _ => Unreadable
  }

  function LcpRead(raw: seq<byte>): Reading<LcpOption>
  {
    if |raw| < 2 then Unreadable else LcpFromBytes(raw[0], raw[2..])
  }

  predicate LcpSurvives(raw: seq<byte>)
  {
    !LcpRead(raw).OutOfRange?
  }

  lemma LcpSurvivesAll(opts: seq<seq<byte>>)
    ensures AllReadable(LcpSurvives, opts) <==> AllWellFormed(opts)
  {
  }

  function MruBytes(mru: nat): seq<byte>
    requires mru < 0x1_0000
  {
    [1, 4, mru / 256, mru % 256]
  }

  datatype Verdict = Ack | Nak(nak: seq<byte>) | Rej(rej: seq<byte>)

  function Judge(option: LcpOption, raw: seq<byte>): Verdict
  {
    match option
    case Mru(mru) => if mru == MRU then Ack else Nak(MruBytes(MRU))
    case Accm(accm) => if accm == 0 then Ack else Nak(MruBytes(MRU))
    case _ => Rej(raw)
  }

  /** LCP's verdict on one option of a request; one it cannot read is rejected. */
  function LcpVerdict(raw: seq<byte>): Verdict
  {
    match LcpRead(raw)
    case Known(option) => Judge(option, raw)
    case _ => Rej(raw)
  }

  /** The only options LCP takes as they are: this MRU, and a character map of zero. */
  predicate Acceptable(raw: seq<byte>)
  {
    raw == [1, 4, 5, 0xdc] || raw == [2, 6, 0, 0, 0, 0]
  }

  /** An MRU or character map of the right length, whatever its value. */
  predicate Negotiable(raw: seq<byte>)
  {
    |raw| >= 2 && ((raw[0] == 1 && |raw| == 4) || (raw[0] == 2 && |raw| == 6))
  }

  /** Every verdict, in terms of the option's bytes. The counter-proposal is the MRU option
      even for a character map. */
  lemma VerdictByBytes(raw: seq<byte>)
    requires WellFormed(raw)
    ensures LcpVerdict(raw) == if Acceptable(raw) then Ack
                               else if Negotiable(raw) then Nak(Proposal())
                               else Rej(raw)
  {
    var data := raw[2..];
    if raw[0] == 1 && |raw| == 4 {
      assert raw == [1, 4, data[0], data[1]];
      assert Be16(data[0], data[1]) == MRU <==> data[0] == 5 && data[1] == 0xdc;
    } else if raw[0] == 2 && |raw| == 6 {
      assert raw == [2, 6, data[0], data[1], data[2], data[3]];
      assert Be32(data) == 0 <==> data == [0, 0, 0, 0];
    }
  }

  // ----- The reply -------------------------------------------------------------------

  /** What a Configure-Request brings about: a panic while reading it, nothing because it is
      malformed, or a reply with that data. */
  datatype Reply = Crash | Silence | AckReply(data: seq<byte>) | NakReply(data: seq<byte>) | RejReply(data: seq<byte>)

  type Judgement = seq<byte> -> Verdict

  function Rejects(judge: Judgement, opts: seq<seq<byte>>): seq<byte>
  {
    if |opts| == 0 then []
    else match judge(opts[0])
         case Rej(raw) => raw + Rejects(judge, opts[1..])
         case _ => Rejects(judge, opts[1..])
  }

  function Naks(judge: Judgement, opts: seq<seq<byte>>): seq<byte>
  {
    if |opts| == 0 then []
    else match judge(opts[0])
         case Nak(raw) => raw + Naks(judge, opts[1..])
         case _ => Naks(judge, opts[1..])
  }

  predicate AnyReject(judge: Judgement, opts: seq<seq<byte>>)
  {
    exists i :: 0 <= i < |opts| && judge(opts[i]).Rej?
  }

  predicate AnyNak(judge: Judgement, opts: seq<seq<byte>>)
  {
    exists i :: 0 <= i < |opts| && judge(opts[i]).Nak?
  }

  function ReplyTo(survives: Survival, judge: Judgement, data: seq<byte>): Reply
  {
    match Parse(survives, data, 0)
    case Panics => Crash
    case Malformed => Silence
    case Tiles(opts) =>
      if AnyReject(judge, opts) then RejReply(Rejects(judge, opts))
      else if AnyNak(judge, opts) then NakReply(Naks(judge, opts))
      else AckReply(data)
  }

  // ----- LCP's reply, from the request's bytes ---------------------------------------

  function Refused(opts: seq<seq<byte>>): seq<seq<byte>>
  {
    if |opts| == 0 then []
    else if Negotiable(opts[0]) then Refused(opts[1..]) else [opts[0]] + Refused(opts[1..])
  }

  function Unacceptable(opts: seq<seq<byte>>): nat
  {
    if |opts| == 0 then 0 else (if Acceptable(opts[0]) then 0 else 1) + Unacceptable(opts[1..])
  }

  function Proposal(): (r: seq<byte>)
    ensures |r| == 4
  {
    [1, 4, 5, 0xdc]
  }

  function Proposals(n: nat): (r: seq<byte>)
    ensures |r| == 4 * n
  {
    if n == 0 then [] else Proposal() + Proposals(n - 1)
  }

  predicate AllNegotiable(opts: seq<seq<byte>>)
  {
    forall i :: 0 <= i < |opts| ==> Negotiable(opts[i])
  }

  predicate AllAcceptable(opts: seq<seq<byte>>)
  {
    forall i :: 0 <= i < |opts| ==> Acceptable(opts[i])
  }

  lemma {:induction false} RejectsAreRefused(opts: seq<seq<byte>>)
    requires AllWellFormed(opts)
    ensures Rejects(LcpVerdict, opts) == Joined(Refused(opts))
    ensures |Joined(Refused(opts))| <= |Joined(opts)|
  {
    if |opts| > 0 {
      assert AllWellFormed(opts[1..]);
      VerdictByBytes(opts[0]);
      RejectsAreRefused(opts[1..]);
      hide LcpVerdict, Acceptable, Negotiable;
      var rest := Refused(opts[1..]);
      assert ([opts[0]] + rest)[1..] == rest;
      assert Acceptable(opts[0]) ==> Negotiable(opts[0]);
    }
  }

  lemma {:induction false} NaksAreProposals(opts: seq<seq<byte>>)
    requires AllWellFormed(opts) && AllNegotiable(opts)
    ensures Naks(LcpVerdict, opts) == Proposals(Unacceptable(opts))
    ensures 4 * Unacceptable(opts) <= |Joined(opts)|
  {
    if |opts| > 0 {
      assert AllWellFormed(opts[1..]) && AllNegotiable(opts[1..]);
      VerdictByBytes(opts[0]);
      NaksAreProposals(opts[1..]);
      assert |opts[0]| >= 4;
      hide Proposal, LcpVerdict, Acceptable, Negotiable, WellFormed, AllWellFormed, AllNegotiable;
    }
  }

  /** For every request that options tile: a Reject of exactly the options LCP cannot read or
      never takes, in request order, if there is one; else an Ack of identical data if all are
      acceptable; else a Nak with one proposal for each that is not. No reply is longer than
      the request, so one that fits a frame itself has a reply that does. */
  lemma LcpReply(data: seq<byte>, opts: seq<seq<byte>>)
    requires Tiling(opts, data)
    ensures var reply := ReplyTo(LcpSurvives, LcpVerdict, data);
            && reply == (if !AllNegotiable(opts) then RejReply(Joined(Refused(opts)))
                         else if AllAcceptable(opts) then AckReply(data)
                         else NakReply(Proposals(Unacceptable(opts))))
            && |reply.data| <= |data|
  {
    LcpSurvivesAll(opts);
    ParsesIffTiled(LcpSurvives, data, opts);
    RejectsAreRefused(opts);
    if AllNegotiable(opts) {
      NaksAreProposals(opts);
    }
    forall i | 0 <= i < |opts|
      ensures LcpVerdict(opts[i]).Rej? <==> !Negotiable(opts[i])
      ensures LcpVerdict(opts[i]).Nak? <==> Negotiable(opts[i]) && !Acceptable(opts[i])
    {
      VerdictByBytes(opts[i]);
    }
    hide LcpVerdict, LcpSurvives, Acceptable, Negotiable, Parse, Refused, Naks, Rejects, Proposals;
  }

  /** The types of the options that LCP does not take as they are, in request order. */
  function UnacceptableTypes(opts: seq<seq<byte>>): seq<byte>
    requires AllWellFormed(opts)
  {
    if |opts| == 0 then []
    else
      assert AllWellFormed(opts[1..]);
      if Acceptable(opts[0]) then UnacceptableTypes(opts[1..])
      else [opts[0][0]] + UnacceptableTypes(opts[1..])
  }

  function Copies(n: nat): (r: seq<seq<byte>>)
    ensures |r| == n
  {
    if n == 0 then [] else [Proposal()] + Copies(n - 1)
  }

  function Types(opts: seq<seq<byte>>): seq<byte>
    requires AllWellFormed(opts)
  {
    seq(|opts|, i requires 0 <= i < |opts| && AllWellFormed(opts) => TypeOf(opts[i]))
  }

  function TypeOf(opt: seq<byte>): byte
  {
    if |opt| > 0 then opt[0] else 0
  }

  lemma {:induction false} ProposalsTiled(n: nat)
    ensures Tiling(Copies(n), Proposals(n))
  {
    if n > 0 {
      ProposalsTiled(n - 1);
      var rest := Copies(n - 1);
      assert ([Proposal()] + rest)[1..] == rest;
      forall i | 0 <= i < n
        ensures WellFormed(Copies(n)[i])
      {
        assert i > 0 ==> Copies(n)[i] == rest[i - 1];
      }
    }
  }

  lemma TypesCons(n: nat)
    requires n > 0 && AllWellFormed(Copies(n)) && AllWellFormed(Copies(n - 1))
    ensures Types(Copies(n)) == [Proposal()[0]] + Types(Copies(n - 1))
  {
  }

  predicate BadCharacterMap(raw: seq<byte>)
  {
    |raw| >= 2 && raw[0] == 2 && !Acceptable(raw)
  }

  predicate NoBadCharacterMap(opts: seq<seq<byte>>)
  {
    forall i :: 0 <= i < |opts| ==> !BadCharacterMap(opts[i])
  }

  lemma {:induction false} TypesAgree(opts: seq<seq<byte>>)
    requires AllWellFormed(opts) && AllNegotiable(opts)
    ensures AllWellFormed(Copies(Unacceptable(opts)))
    ensures UnacceptableTypes(opts) == Types(Copies(Unacceptable(opts))) <==> NoBadCharacterMap(opts)
    ensures |UnacceptableTypes(opts)| == Unacceptable(opts) == |Types(Copies(Unacceptable(opts)))|
  {
    ProposalsTiled(Unacceptable(opts));
    if |opts| > 0 {
      var first, rest := opts[0], opts[1..];
      assert AllWellFormed(rest) && AllNegotiable(rest);
      ProposalsTiled(Unacceptable(rest));
      TypesAgree(rest);
      assert NoBadCharacterMap(opts) <==> !BadCharacterMap(first) && NoBadCharacterMap(rest) by {
        if !BadCharacterMap(first) && NoBadCharacterMap(rest) {
          forall i | 0 <= i < |opts|
            ensures !BadCharacterMap(opts[i])
          {
            assert i > 0 ==> opts[i] == rest[i - 1];
          }
        }
        if NoBadCharacterMap(opts) {
          forall i | 0 <= i < |rest|
            ensures !BadCharacterMap(rest[i])
          {
            assert rest[i] == opts[i + 1];
          }
        }
      }
      assert first[0] == 1 || first[0] == 2;
      hide Acceptable, Negotiable, AllNegotiable, AllWellFormed, NoBadCharacterMap;
      if !Acceptable(first) {
        var n := Unacceptable(rest);
        TypesCons(n + 1);
        var got, want := UnacceptableTypes(opts), Types(Copies(Unacceptable(opts)));
        assert got == [first[0]] + UnacceptableTypes(rest) && want == [Proposal()[0]] + Types(Copies(n));
        assert got[1..] == UnacceptableTypes(rest) && want[1..] == Types(Copies(n));
        assert got == want <==> got[0] == want[0] && got[1..] == want[1..];
      }
    }
  }

  /** Section 5.3 of RFC 1661 wants a Nak to name the unacceptable options, in order. For every
      request that is answered with a Nak it does so if and only if none of them is a character
      map: for each of those the MRU is named instead. */
  lemma NakNamesOptionsIff(data: seq<byte>, opts: seq<seq<byte>>)
    requires Tiling(opts, data) && AllNegotiable(opts) && !AllAcceptable(opts)
    ensures ReplyTo(LcpSurvives, LcpVerdict, data) == NakReply(Proposals(Unacceptable(opts)))
    ensures NamesUnacceptable(opts) <==> NoBadCharacterMap(opts)
  {
    hide LcpVerdict, Acceptable, Negotiable, Parse, Refused, Naks, Rejects, Proposals, ReplyTo;
    LcpReply(data, opts);
    TypesAgree(opts);
    ProposalsTiled(Unacceptable(opts));
  }

  /** The proposals are options, and their types, in order, are those of the unacceptable ones. */
  predicate NamesUnacceptable(opts: seq<seq<byte>>)
    requires AllWellFormed(opts)
  {
    var n := Unacceptable(opts);
    Tiling(Copies(n), Proposals(n)) && Types(Copies(n)) == UnacceptableTypes(opts)
  }

  // ----- What IPCP thinks of an option -----------------------------------------------

  datatype IpcpOption = IpCompression(protocol: nat, data: seq<byte>) | IpAddress(address: seq<byte>)

  /** IPCP's reader. For a compression protocol it checks that there are two bytes of data, and
      takes a slice that begins after four. */
  function IpcpFromBytes(ty: byte, data: seq<byte>): Reading<IpcpOption>
  {
    match ty
    case 2 =>
      if |data| < 2 then Unreadable
      else if |data| < 4 then OutOfRange
      else Known(IpCompression(Be16(data[0], data[1]), data[4..]))
    case 3 => if |data| != 4 then Unreadable else Known(IpAddress(data))
    case _ => Unreadable
  }

  function IpcpRead(raw: seq<byte>): Reading<IpcpOption>
  {
    if |raw| < 2 then Unreadable else IpcpFromBytes(raw[0], raw[2..])
  }

  predicate IpcpSurvives(raw: seq<byte>)
  {
    !IpcpRead(raw).OutOfRange?
  }

  function IpcpVerdict(raw: seq<byte>): Verdict
  {
    match IpcpRead(raw)
    case Known(IpAddress(_)) => Ack
    case _ => Rej(raw)
  }

  predicate IsAddress(raw: seq<byte>)
  {
    |raw| == 6 && raw[0] == 3
  }

  /** A compression protocol without the four bytes that the reader skips. */
  predicate ShortCompression(raw: seq<byte>)
  {
    4 <= |raw| < 6 && raw[0] == 2
  }

  /** What IPCP does with any option, in terms of its bytes. */
  lemma IpcpByBytes(raw: seq<byte>)
    requires WellFormed(raw)
    ensures IpcpSurvives(raw) <==> !ShortCompression(raw)
    ensures IpcpVerdict(raw) == if IsAddress(raw) then Ack else Rej(raw)
  {
  }

  predicate AllAddresses(opts: seq<seq<byte>>)
  {
    forall i :: 0 <= i < |opts| ==> IsAddress(opts[i])
  }

  function Others(opts: seq<seq<byte>>): seq<seq<byte>>
  {
    if |opts| == 0 then []
    else if IsAddress(opts[0]) then Others(opts[1..]) else [opts[0]] + Others(opts[1..])
  }

  lemma {:induction false} RejectsAreOthers(opts: seq<seq<byte>>)
    requires AllWellFormed(opts)
    ensures Rejects(IpcpVerdict, opts) == Joined(Others(opts))
    ensures |Joined(Others(opts))| <= |Joined(opts)|
  {
    if |opts| > 0 {
      assert AllWellFormed(opts[1..]);
      IpcpByBytes(opts[0]);
      RejectsAreOthers(opts[1..]);
      hide IpcpVerdict, IsAddress;
      var rest := Others(opts[1..]);
      assert ([opts[0]] + rest)[1..] == rest;
    }
  }

  /** Readable is well-formed and no short compression protocol. */
  lemma IpcpReadable(opts: seq<seq<byte>>)
    requires AllReadable(IpcpSurvives, opts)
    ensures AllWellFormed(opts) && forall i :: 0 <= i < |opts| ==> !ShortCompression(opts[i])
  {
    hide IpcpSurvives, ShortCompression, WellFormed;
    forall i | 0 <= i < |opts|
      ensures WellFormed(opts[i]) && !ShortCompression(opts[i])
    {
      assert Readable(IpcpSurvives, opts[i]);
      IpcpByBytes(opts[i]);
    }
  }

  lemma IpcpJudges(opts: seq<seq<byte>>)
    requires AllWellFormed(opts)
    ensures AnyReject(IpcpVerdict, opts) <==> !AllAddresses(opts)
    ensures !AnyNak(IpcpVerdict, opts)
  {
    hide IpcpVerdict, IsAddress, WellFormed;
    forall i | 0 <= i < |opts|
      ensures IpcpVerdict(opts[i]) == if IsAddress(opts[i]) then Ack else Rej(opts[i])
    {
      IpcpByBytes(opts[i]);
    }
  }

  /** For every request: IPCP crashes exactly when well-formed options that are no short
      compression protocols are followed by a lone byte, a length byte below two or a short
      compression protocol; it keeps silent when they are followed by one longer than what is
      left; and when nothing follows them it rejects all that are not addresses, in request
      order, or else acknowledges identical data. */
  lemma IpcpReply(data: seq<byte>) returns (opts: seq<seq<byte>>, rest: seq<byte>)
    ensures data == Joined(opts) + rest && AllWellFormed(opts)
    ensures forall i :: 0 <= i < |opts| ==> !ShortCompression(opts[i])
    ensures var reply := ReplyTo(IpcpSurvives, IpcpVerdict, data);
            if rest == [] then
              reply == (if AllAddresses(opts) then AckReply(data) else RejReply(Joined(Others(opts))))
            else if |rest| >= 2 && rest[1] > |rest| then reply == Silence
            else reply == Crash && (|rest| == 1 || rest[1] < 2 || ShortCompression(rest[..rest[1]]))
  {
    hide Parse, IpcpVerdict, IpcpSurvives, Rejects, Naks, Others, ShortCompression;
    hide AllReadable, AllAddresses, AllWellFormed, AnyReject, AnyNak, Joined;
    opts, rest := IterationEnds(IpcpSurvives, data);
    IpcpReadable(opts);
    IpcpJudges(opts);
    RejectsAreOthers(opts);
    if |rest| >= 2 && 2 <= rest[1] <= |rest| {
      assert WellFormed(rest[..rest[1]]);
      IpcpByBytes(rest[..rest[1]]);
    }
  }

  /** Such a request is this one: a compression protocol and nothing else. */
  lemma ShortCompressionCrashes()
    ensures ReplyTo(IpcpSurvives, IpcpVerdict, [2, 4, 0, 0x2d]) == Crash
  {
    var raw: seq<byte> := [2, 4, 0, 0x2d];
    assert raw[0..4] == raw;
    IpcpByBytes(raw);
    hide IpcpSurvives, IpcpVerdict;
    assert Next(IpcpSurvives, raw, 0) == Panic;
  }

  // ----- Packets ---------------------------------------------------------------------

  datatype Packet = Packet(code: byte, id: byte, data: seq<byte>)
  {
    /** A frame can be built for the packet: code, identifier, length and data make a payload
        that leaves room for the closing flag. */
    predicate Framable()
    {
      4 + |data| < MRU
    }
  }

  /** A packet on the wire; the length field is a 16-bit word. */
  function Encode(p: Packet): (r: seq<byte>)
    ensures |r| == 4 + |p.data|
  {
    var len := (4 + |p.data|) % 0x1_0000;
    [p.code, p.id, len / 256, len % 256] + p.data
  }

  datatype Decoded = Dropped | Unknown(code: nat, id: byte, rest: seq<byte>) | Read(packet: Packet)

  function Decode(packet: seq<byte>): Decoded
  {
    if |packet| < 4 then Dropped
    else if Be16(packet[2], packet[3]) != |packet| then Dropped
    else if packet[0] < 1 || packet[0] > 7 then Unknown(packet[0], packet[1], packet[4..])
    else Read(Packet(packet[0], packet[1], packet[4..]))
  }

  /** Whatever is sent in reply to a packet that was read, if it is no longer than that, is
      read by the other side as it was meant: the declared length is that of the bytes. */
  lemma PacketRoundTrip(p: Packet)
    requires 1 <= p.code <= 7 && 4 + |p.data| < 0x1_0000
    ensures Decode(Encode(p)) == Read(p)
  {
    var bytes := Encode(p);
    assert Be16(bytes[2], bytes[3]) == |bytes|;
    assert bytes[4..] == p.data;
  }

  lemma ReadIsEncoded(bytes: seq<byte>)
    requires Decode(bytes).Read?
    ensures Encode(Decode(bytes).packet) == bytes && |bytes| < 0x1_0000
  {
    var p := Decode(bytes).packet;
    assert 4 + |p.data| == |bytes| == Be16(bytes[2], bytes[3]);
  }
}
