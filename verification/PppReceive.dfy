/** The receiver: the UART's FIFO is drained by interrupts, at arbitrary points of the byte
    stream, into a ring of frame buffers that the network loop reads from and frees. */
module PppReceive {
  import opened Wrappers
  import opened Fcs
  import opened PppFrames
  import opened PppReader

  const FRAMES := 128

  // ----- What the receiver makes of the byte stream ----------------------------------

  /** Every frame completed so far, how many of them the reader has freed, the frame in
      progress (its opening flag included), and whether the last byte was an escape. */
  datatype Channel = Channel(
    all: seq<seq<octet>>, freed: nat, partial: Option<seq<octet>>, escaped: bool)
  {
    ghost predicate Valid()
    {
      && freed <= |all|
      && (partial.None? ==> all == [] && !escaped)
      && (partial.Some? ==> 0 < |partial.value| <= MAX_FRAME && partial.value[0] == FLAG)
      && |all| - freed + (if partial.Some? then 1 else 0) <= FRAMES
    }

    /** Completed and not yet freed. */
    function Queue(): seq<seq<octet>>
      requires freed <= |all|
    {
      all[freed..]
    }
  }

  /** `Refused`: no buffer is free for the next frame. `Overlong`: the frame in progress
      outgrows its buffer, which ends the program with an out-of-range panic. */
  datatype Outcome = Fine(c: Channel) | Refused | Overlong

  function OnFlag(c: Channel): Outcome
    requires c.freed <= |c.all|
  {
    match c.partial
    case None =>
      if |c.Queue()| < FRAMES then Fine(c.(partial := Some([FLAG]), escaped := false)) else Refused
    case Some(p) =>
      if |p| <= 1 then Fine(c)
      else if |c.Queue()| + 1 < FRAMES then
        Fine(c.(all := c.all + [p], partial := Some([FLAG]), escaped := false))
      else Refused
  }

  function OnByte(c: Channel, b: octet): Outcome
    requires c.freed <= |c.all|
  {
    if b == FLAG then OnFlag(c)
    else if c.partial.None? then Fine(c)
    else if !c.escaped && b == ESC then Fine(c.(escaped := true))
    else if |c.partial.value| >= MAX_FRAME then Overlong
    else
      Fine(c.(partial := Some(c.partial.value + [if c.escaped then b ^ ESC_XOR else b]), escaped := false))
  }

  lemma OnByteValid(c: Channel, b: octet)
    requires c.Valid()
    ensures OnByte(c, b).Fine? ==> OnByte(c, b).c.Valid() && OnByte(c, b).c.freed == c.freed
  {
  }

  /** The bytes of one unbroken stretch. */
  function Stretch(c: Channel, s: seq<octet>): Outcome
    requires c.Valid()
    decreases |s|
  {
    if |s| == 0 then Fine(c)
    else
      OnByteValid(c, s[0]);
      match OnByte(c, s[0])
      case Fine(c') => Stretch(c', s[1..])
      case other => other
  }

  /** One drain: the escape flag is read from the channel, where it is never written back. */
  function Drain(c: Channel, s: seq<octet>): (r: Outcome)
    requires c.Valid()
    ensures r.Fine? ==> r.c.Valid() && !r.c.escaped
  {
    StretchValid(c.(escaped := false), s);
    match Stretch(c.(escaped := false), s)
    case Fine(c') => Fine(c'.(escaped := false))
    case other => other
  }

  lemma {:induction false} StretchValid(c: Channel, s: seq<octet>)
    requires c.Valid()
    ensures Stretch(c, s).Fine? ==> Stretch(c, s).c.Valid() && Stretch(c, s).c.freed == c.freed
    decreases |s|
  {
    hide OnByte;
    if |s| > 0 {
      OnByteValid(c, s[0]);
      match OnByte(c, s[0]) {
        case Fine(c') => StretchValid(c', s[1..]);
        case _ =>
      }
    }
  }

  function Seen(c: Channel): Reader
  {
    Reader(c.all, c.partial, c.escaped)
  }

  /** As long as nothing is refused the channel reads like the unlimited reader. */
  lemma SeenByte(c: Channel, b: octet)
    requires c.Valid() && OnByte(c, b).Fine?
    ensures Seen(OnByte(c, b).c) == ReadByte(Seen(c), b)
  {
  }

  lemma {:induction false} SeenStretch(c: Channel, s: seq<octet>)
    requires c.Valid() && Stretch(c, s).Fine?
    ensures Seen(Stretch(c, s).c) == Read(Seen(c), s)
    decreases |s|
  {
    hide OnByte, ReadByte;
    if |s| > 0 {
      OnByteValid(c, s[0]);
      SeenByte(c, s[0]);
      SeenStretch(OnByte(c, s[0]).c, s[1..]);
    }
  }

  /** Two drains and one, for every way to cut a stream that neither refuses nor outgrows a
      buffer: they end alike if and only if the scan of the second part says so. */
  lemma SplitShowsIff(c: Channel, s: seq<octet>, t: seq<octet>)
    requires c.Valid() && !c.escaped && Stretch(c, s).Fine? && Drain(c, s + t).Fine?
    requires Drain(c, s).Fine? && Drain(Drain(c, s).c, t).Fine?
    ensures Drain(c, s + t) == Drain(Drain(c, s).c, t)
            <==> Meets(Scan(AtCut(Seen(Stretch(c, s).c)), t))
  {
    hide Stretch, Read, Scan;
    assert c.(escaped := false) == c;
    StretchValid(c, s);
    StretchValid(c, s + t);
    SeenStretch(c, s);
    SeenStretch(c, s + t);
    var c2 := Drain(c, s).c;
    assert c2.(escaped := false) == c2;
    StretchValid(c2, t);
    SeenStretch(c2, t);
    CutShowsIff(Seen(c), s, t);
    var once, twice := Drain(c, s + t).c, Drain(c2, t).c;
    assert once == twice <==> Seen(once) == Seen(twice);
  }

  /** A drain is refused exactly when it completes so many frames that, with those not yet
      freed, they would fill the ring. */
  lemma RefusedIff(c: Channel, s: seq<octet>)
    requires c.Valid() && Drain(c, s) != Overlong
    ensures Drain(c, s) == Refused <==> |Read(Seen(c).Cut(), s).all| - c.freed >= FRAMES
  {
    StretchRefusedIff(c.(escaped := false), s);
  }

  lemma {:induction false} StretchRefusedIff(c: Channel, s: seq<octet>)
    requires c.Valid() && Stretch(c, s) != Overlong
    ensures Stretch(c, s) == Refused <==> |Read(Seen(c), s).all| - c.freed >= FRAMES
    decreases |s|
  {
    hide ReadByte;
    if |s| > 0 {
      OnByteValid(c, s[0]);
      match OnByte(c, s[0]) {
        case Fine(c') =>
          SeenByte(c, s[0]);
          StretchRefusedIff(c', s[1..]);
        case Refused =>
          RefusedByte(c, s[0]);
          ReadGrows(ReadByte(Seen(c), s[0]), s[1..]);
        case Overlong =>
      }
    }
  }

  lemma RefusedByte(c: Channel, b: octet)
    requires c.Valid() && OnByte(c, b) == Refused
    ensures |ReadByte(Seen(c), b).all| - c.freed >= FRAMES
  {
  }

  // ----- The ring --------------------------------------------------------------------

  datatype RxBuffer = RxBuffer(len: nat, bytes: seq<octet>)
  {
    predicate Holds(s: seq<octet>)
    {
      |bytes| == MAX_FRAME && len == |s| <= MAX_FRAME && bytes[..len] == s
    }
  }

  /** Place `k` of the ring counted from `head`. */
  function Place(head: nat, k: nat): (i: nat)
    requires head < FRAMES && k <= FRAMES
    ensures i < FRAMES
  {
    if head + k < FRAMES then head + k else head + k - FRAMES
  }

  /** That is counting modulo the size of the ring. */
  lemma PlaceIsMod(head: nat, k: nat)
    requires head < FRAMES && k <= FRAMES
    ensures Place(head, k) == (head + k) % FRAMES
    ensures k < FRAMES ==> (Place(head, k) + 1) % FRAMES == Place(head, k + 1) == Place(head, (k + 1) % FRAMES)
  {
  }

  lemma PlacesDiffer(head: nat, k: nat)
    requires head < FRAMES && k < FRAMES
    ensures forall i :: 0 <= i < k ==> Place(head, i) != Place(head, k)
  {
  }

  lemma PlacesShift(head: nat, next: nat)
    requires head < FRAMES && next == (head + 1) % FRAMES
    ensures forall i :: 0 <= i < FRAMES ==> Place(next, i) == Place(head, i + 1)
  {
  }

  /** The ring for good and bad: the frames in it that were completed, how many of them the
      reader can tell are there, and the frame in progress. */
  datatype Ring = Ring(queue: seq<seq<octet>>, visible: nat, partial: Option<seq<octet>>, escaped: bool)
  {
    ghost predicate Valid()
    {
      && visible <= |queue| < FRAMES
      && (partial.None? ==> queue == [] && !escaped)
      && (partial.Some? ==> |partial.value| <= MAX_FRAME)
    }
  }

  /** `Denied`: no buffer is free for the next frame, and the rest of the drain is thrown away.
      `TooLong`: the frame in progress outgrows its buffer. */
  datatype Took = Going(r: Ring) | Denied(r: Ring) | TooLong

  /** When no buffer is free, the one of the frame just completed is emptied and used again,
      yet the reader's count of frames goes up, modulo the size of the ring. */
  function RingFlag(r: Ring): Took
  {
    match r.partial
    case None => Going(r.(partial := Some([FLAG]), escaped := false))
    case Some(p) =>
      if |p| == 1 then Going(r)
      else
        var visible := if |p| > 1 then (r.visible + 1) % FRAMES else r.visible;
        if |r.queue| + 1 < FRAMES then Going(Ring(r.queue + [p], visible, Some([FLAG]), false))
        else Denied(Ring(r.queue, visible, Some([]), false))
  }

  function RingByte(r: Ring, b: octet): Took
  {
    if b == FLAG then RingFlag(r)
    else if r.partial.None? then Going(r)
    else if !r.escaped && b == ESC then Going(r.(escaped := true))
    else if |r.partial.value| >= MAX_FRAME then TooLong
    else
      Going(r.(partial := Some(r.partial.value + [if r.escaped then b ^ ESC_XOR else b]), escaped := false))
  }

  lemma RingByteValid(r: Ring, b: octet)
    requires r.Valid()
    ensures !RingByte(r, b).TooLong? ==> RingByte(r, b).r.Valid()
  {
  }

  function RingRun(r: Ring, s: seq<octet>): Took
    decreases |s|
  {
    if |s| == 0 then Going(r)
    else
      match RingByte(r, s[0])
      case Going(r') => RingRun(r', s[1..])
      case other => other
  }

  /** One drain; `None` is the out-of-range panic. */
  function RingDrain(r: Ring, s: seq<octet>): Option<Ring>
  {
    match RingRun(r.(escaped := false), s)
    case Going(r') => Some(r'.(escaped := false))
    case Denied(r') => Some(r'.(escaped := false))
    case TooLong => None
  }

  lemma {:induction false} RingRunConcat(r: Ring, s: seq<octet>, t: seq<octet>)
    ensures RingRun(r, s + t) == match RingRun(r, s) case Going(r') => RingRun(r', t) case other => other
    decreases |s|
  {
    hide RingByte;
    if |s| == 0 {
      assert s + t == t;
    } else {
      assert (s + t)[1..] == s[1..] + t;
      if RingByte(r, s[0]).Going? {
        RingRunConcat(RingByte(r, s[0]).r, s[1..], t);
      }
    }
  }

  lemma RingRunStep(r0: Ring, s: seq<octet>, n: nat)
    requires n < |s| && RingRun(r0, s[..n]).Going?
    ensures RingRun(r0, s[..n + 1]) == RingByte(RingRun(r0, s[..n]).r, s[n])
    ensures !RingRun(r0, s[..n + 1]).Going? ==> RingRun(r0, s) == RingRun(r0, s[..n + 1])
  {
    var front, b := s[..n], s[n];
    assert s[..n + 1] == front + [b];
    RingRunConcat(r0, front, [b]);
    assert [b][1..] == [];
    RingRunConcat(r0, s[..n + 1], s[n + 1..]);
    assert s[..n + 1] + s[n + 1..] == s;
    hide RingByte;
  }

  // ----- Ring and channel ------------------------------------------------------------

  function RingOf(c: Channel): Ring
    requires c.freed <= |c.all|
  {
    Ring(c.Queue(), |c.all| - c.freed, c.partial, c.escaped)
  }

  /** Until a frame is refused the ring is the channel's unfreed frames, all of them visible;
      the first refusal hides them all from the reader and loses the frame just completed. */
  lemma RingFollows(c: Channel, b: octet)
    requires c.Valid()
    ensures c.partial.Some? ==> RingOf(c).Valid()
    ensures RingByte(RingOf(c), b) == match OnByte(c, b)
                                      case Fine(c') => Going(RingOf(c'))
                                      case Refused => Denied(Ring(c.Queue(), 0, Some([]), false))
                                      case Overlong => TooLong
  {
    if b == FLAG && c.partial.Some? && |c.partial.value| > 1 {
      assert (c.all + [c.partial.value])[c.freed..] == c.Queue() + [c.partial.value];
    }
  }

  lemma {:induction false} RingFollowsStretch(c: Channel, s: seq<octet>)
    requires c.Valid()
    ensures Stretch(c, s).Fine? ==> Stretch(c, s).c.Valid() && RingRun(RingOf(c), s) == Going(RingOf(Stretch(c, s).c))
    ensures Stretch(c, s) == Refused ==>
              RingRun(RingOf(c), s).Denied? && RingRun(RingOf(c), s).r.visible == 0
              && |RingRun(RingOf(c), s).r.queue| == FRAMES - 1 && RingRun(RingOf(c), s).r.partial == Some([])
    ensures Stretch(c, s) == Overlong ==> RingRun(RingOf(c), s) == TooLong
    decreases |s|
  {
    if |s| > 0 {
      OnByteValid(c, s[0]);
      RingFollows(c, s[0]);
      match OnByte(c, s[0]) {
        case Fine(c') => RingFollowsStretch(c', s[1..]);
        case Refused => assert |c.Queue()| == FRAMES - 1;
        case Overlong =>
      }
      hide OnByte, RingByte;
    }
  }

  /** Once the ring is full it changes by frees alone: a drain shows the reader at most one of
      the old frames, when it completes one, which is lost, and throws away what follows. */
  lemma {:induction false} FullRing(r: Ring, s: seq<octet>)
    requires r.Valid() && |r.queue| == FRAMES - 1
    ensures RingRun(r, s).Going? ==> RingRun(r, s).r.queue == r.queue && RingRun(r, s).r.visible == r.visible
    ensures RingRun(r, s).Denied? ==>
              && RingRun(r, s).r.queue == r.queue && RingRun(r, s).r.partial == Some([])
              && RingRun(r, s).r.visible in {r.visible, (r.visible + 1) % FRAMES}
    decreases |s|
  {
    if |s| > 0 {
      RingByteValid(r, s[0]);
      if RingByte(r, s[0]).Going? {
        FullRing(RingByte(r, s[0]).r, s[1..]);
      }
    }
  }

  /** How many frames in the ring the reader is not told of. */
  function Hidden(r: Ring): int
  {
    |r.queue| - r.visible
  }

  lemma {:induction false} HiddenStays(r: Ring, s: seq<octet>)
    requires r.Valid() && r.partial != Some([]) && RingRun(r, s).Going?
    ensures Hidden(RingRun(r, s).r) == Hidden(r)
    decreases |s|
  {
    if |s| > 0 {
      RingByteValid(r, s[0]);
      var r' := RingByte(r, s[0]).r;
      assert Hidden(r') == Hidden(r) && r'.partial != Some([]);
      hide RingByte;
      HiddenStays(r', s[1..]);
    }
  }

  /** What a refusal costs later: when there is room again, the next flag puts an empty frame
      into the ring, and from then on the reader is told of one frame less than there are. */
  lemma RefusalHides(r: Ring, s: seq<octet>)
    requires r.Valid() && r.partial == Some([]) && |s| > 0 && s[0] == FLAG && RingRun(r, s).Going?
    ensures r.queue + [[]] <= RingRun(r, s).r.queue
    ensures Hidden(RingRun(r, s).r) == Hidden(r) + 1
  {
    RingByteValid(r, FLAG);
    var r' := RingByte(r, FLAG).r;
    assert r'.queue == r.queue + [[]] && r'.visible == r.visible;
    HiddenStays(r', s[1..]);
    QueueGrows(r', s[1..]);
  }

  lemma {:induction false} QueueGrows(r: Ring, s: seq<octet>)
    requires RingRun(r, s).Going?
    ensures r.queue <= RingRun(r, s).r.queue
    decreases |s|
  {
    if |s| > 0 {
      assert r.queue <= RingByte(r, s[0]).r.queue;
      hide RingByte;
      QueueGrows(RingByte(r, s[0]).r, s[1..]);
    }
  }

  class RecvChannel {
    var writeHead: nat
    var finishedHead: nat
    var readHead: nat
    var freeBuffers: nat
    var inPacket: bool
    var lastEsc: bool
    const buffers: array<RxBuffer>

    ghost var queue: seq<seq<octet>>
    ghost var visible: nat
    ghost var partial: seq<octet>

    /** The heads and the count of free buffers agree with the ring, with a frame in progress
        or without. */
    ghost predicate Heads(inP: bool)
      reads this
    {
      && readHead < FRAMES && visible <= |queue| < FRAMES
      && var p := if inP then 1 else 0;
         && freeBuffers == FRAMES - |queue| - p
         && finishedHead == Place(readHead, visible)
         && writeHead == Place(readHead, |queue| + p)
         && (!inP ==> queue == [])
    }

    ghost predicate Stored()
      requires readHead < FRAMES && |queue| < FRAMES
      reads this, buffers
    {
      && buffers.Length == FRAMES
      && (forall i :: 0 <= i < FRAMES ==> |buffers[i].bytes| == MAX_FRAME)
      && (forall i :: 0 <= i < |queue| ==> buffers[Place(readHead, i)].Holds(queue[i]))
    }

    ghost predicate Valid()
      reads this, buffers
    {
      && Heads(inPacket) && Stored() && !lastEsc
      && (inPacket ==> buffers[Place(readHead, |queue|)].Holds(partial))
    }

    ghost function View(): (r: Ring)
      reads this
    {
      Ring(queue, visible, if inPacket then Some(partial) else None, false)
    }

    constructor ()
      ensures Valid() && View() == Ring([], 0, None, false) && fresh(buffers)
    {
      writeHead, finishedHead, readHead, freeBuffers := 0, 0, 0, FRAMES;
      inPacket, lastEsc := false, false;
      buffers := new RxBuffer[FRAMES](_ => RxBuffer(0, seq(MAX_FRAME, _ => 0)));
      queue, visible, partial := [], 0, [];
    }

    /** The oldest frame, if the reader can tell that there is one. */
    method ReadHeadBuf() returns (r: Option<RxBuffer>)
      requires Valid()
      ensures r.Some? <==> visible > 0
      ensures r.Some? ==> r.value.Holds(queue[0])
    {
      if freeBuffers == FRAMES || readHead == finishedHead {
        r := None;
      } else {
        r := Some(buffers[readHead]);
        assert Place(readHead, 0) == readHead;
      }
    }

    method FreeBuffer()
      requires Valid() && visible > 0
      modifies this
      ensures Valid()
      ensures View() == old(View()).(queue := old(queue)[1..], visible := old(visible) - 1)
    {
      hide Place;
      PlacesShift(readHead, (readHead + 1) % FRAMES);
      readHead := (readHead + 1) % FRAMES;
      freeBuffers := freeBuffers + 1;
      queue, visible := queue[1..], visible - 1;
    }

    method TryAllocBuffer() returns (r: Option<nat>)
      requires writeHead < FRAMES
      modifies this`writeHead, this`freeBuffers
      ensures r.None? <==> old(freeBuffers) == 0
      ensures r.None? ==> writeHead == old(writeHead) && freeBuffers == old(freeBuffers)
      ensures r.Some? ==> r.value == old(writeHead) && writeHead == Place(old(writeHead), 1)
                          && freeBuffers == old(freeBuffers) - 1
    {
      if freeBuffers == 0 {
        r := None;
      } else {
        r := Some(writeHead);
        writeHead := (writeHead + 1) % FRAMES;
        freeBuffers := freeBuffers - 1;
      }
    }

    // The drain keeps the frame in progress in local variables: whether there is one, its
    // buffer, how many bytes it has, and whether an escape is pending.

    ghost predicate Mid(inP: bool, buf: nat, bi: nat)
      reads this, buffers
    {
      && Heads(inP) && Stored()
      && (!inP ==> bi == 0)
      && (inP ==> buf == Place(readHead, |queue|) && bi <= MAX_FRAME)
    }

    /** A frame without bytes has a buffer that says so. */
    ghost predicate EmptyIsEmpty(inP: bool, buf: nat, bi: nat)
      requires Mid(inP, buf, bi)
      reads this, buffers
    {
      inP && bi == 0 ==> buffers[buf].len == 0
    }

    ghost function Current(inP: bool, buf: nat, bi: nat, esc: bool): Ring
      requires Mid(inP, buf, bi)
      reads this, buffers
    {
      Ring(queue, visible, if inP then Some(buffers[buf].bytes[..bi]) else None, esc)
    }

    /** The bytes of the frame are all there: its length is noted and the reader told. */
    method CompleteFrame(buf: nat, bi: nat)
      requires Mid(true, buf, bi) && bi > 1
      modifies this`finishedHead, this`visible, buffers
      ensures readHead < FRAMES && |queue| < FRAMES && Stored()
      ensures buffers[buf].Holds(old(buffers[buf].bytes[..bi]))
      ensures visible == (old(visible) + 1) % FRAMES && visible < FRAMES && finishedHead == Place(readHead, visible)
    {
      hide Place;
      PlacesDiffer(readHead, |queue|);
      PlaceIsMod(readHead, visible);
      buffers[buf] := buffers[buf].(len := bi);
      finishedHead := (finishedHead + 1) % FRAMES;
      visible := (visible + 1) % FRAMES;
    }

    /** A buffer for the next frame, which begins with its flag. The one before it, if there
        is one, holds `done`. */
    method OpenFrame(inP: bool, buf: nat, ghost done: seq<octet>) returns (denied: bool, next: nat)
      requires readHead < FRAMES && |queue| < FRAMES && Stored() && visible < FRAMES
      requires var p := if inP then 1 else 0;
               && freeBuffers == FRAMES - |queue| - p && writeHead == Place(readHead, |queue| + p)
               && (!inP ==> queue == [] && visible == 0) && finishedHead == Place(readHead, visible)
               && visible <= |queue| + p
      requires inP ==> buf == Place(readHead, |queue|) && buffers[buf].Holds(done)
      modifies this`writeHead, this`freeBuffers, this`queue, buffers
      ensures denied <==> inP && |old(queue)| + 1 == FRAMES
      ensures denied ==> queue == old(queue) && Mid(true, buf, 0) && next == 0
      ensures !denied ==> queue == old(queue) + (if inP then [done] else [])
                          && Mid(true, next, 1) && buffers[next].bytes[..1] == [FLAG]
    {
      var a := TryAllocBuffer();
      if a.None? {
        denied, next := true, 0;
        return;
      }
      denied, next := false, a.value;
      if inP {
        queue := queue + [done];
      }
      assert forall i :: 0 <= i < |queue| ==> Place(readHead, i) != next;
      buffers[next] := RxBuffer(1, buffers[next].bytes[0 := FLAG]);
    }

    /** The end of one frame and the start of the next. */
    method TakeFlag(inP: bool, buf: nat, bi: nat, esc: bool)
      returns (inP': bool, buf': nat, bi': nat, esc': bool, denied: bool)
      requires Mid(inP, buf, bi) && EmptyIsEmpty(inP, buf, bi)
      modifies this`writeHead, this`finishedHead, this`freeBuffers, this`queue, this`visible, buffers
      ensures Mid(inP', buf', bi') && (!denied ==> EmptyIsEmpty(inP', buf', bi'))
      ensures RingFlag(old(Current(inP, buf, bi, esc)))
              == if denied then Denied(Current(inP', buf', bi', esc')) else Going(Current(inP', buf', bi', esc'))
    {
      inP', buf', bi', esc', denied := inP, buf, bi, esc, false;
      ghost var done := if inP then buffers[buf].bytes[..bi] else [];
      if inP && bi > 1 {
        CompleteFrame(buf, bi);
        bi' := 0;
      }
      if bi' != 1 {
        var a;
        denied, a := OpenFrame(inP, buf, done);
        esc' := false;
        if !denied {
          inP', buf', bi' := true, a, 1;
        }
      }
    }

    /** A byte inside a frame; `false` when there is no room for it. */
    method TakeByte(b: octet, buf: nat, bi: nat, esc: bool) returns (ok: bool, bi': nat, esc': bool)
      requires Mid(true, buf, bi) && EmptyIsEmpty(true, buf, bi) && b != FLAG
      modifies buffers
      ensures ok ==> Mid(true, buf, bi') && EmptyIsEmpty(true, buf, bi')
      ensures RingByte(old(Current(true, buf, bi, esc)), b)
              == if ok then Going(Current(true, buf, bi', esc')) else TooLong
    {
      ok, bi', esc' := true, bi, esc;
      var x := b;
      if esc {
        esc' := false;
        x := b ^ ESC_XOR;
      } else if b == ESC {
        esc' := true;
        return;
      }
      if bi >= MAX_FRAME {
        ok := false;
        return;
      }
      ghost var got := buffers[buf].bytes[..bi];
      assert forall i :: 0 <= i < |queue| ==> Place(readHead, i) != buf;
      buffers[buf] := buffers[buf].(bytes := buffers[buf].bytes[bi := x]);
      bi' := bi + 1;
      assert buffers[buf].bytes[..bi'] == got + [x];
    }

    method Take(b: octet, inP: bool, buf: nat, bi: nat, esc: bool)
      returns (ok: bool, inP': bool, buf': nat, bi': nat, esc': bool, denied: bool)
      requires Mid(inP, buf, bi) && EmptyIsEmpty(inP, buf, bi)
      modifies this`writeHead, this`finishedHead, this`freeBuffers, this`queue, this`visible, buffers
      ensures ok ==> Mid(inP', buf', bi') && (!denied ==> EmptyIsEmpty(inP', buf', bi'))
      ensures RingByte(old(Current(inP, buf, bi, esc)), b)
              == if !ok then TooLong
                 else if denied then Denied(Current(inP', buf', bi', esc')) else Going(Current(inP', buf', bi', esc'))
    {
      hide Place, RingFlag;
      ok, inP', buf', bi', esc', denied := true, inP, buf, bi, esc, false;
      if b == FLAG {
        inP', buf', bi', esc', denied := TakeFlag(inP, buf, bi, esc);
      } else if inP {
        ok, bi', esc' := TakeByte(b, buf, bi, esc);
      }
    }

    /** One interrupt's worth of bytes, in whatever state the ring is; `false` is the panic. */
    method DrainUart(s: seq<octet>) returns (ok: bool)
      requires Valid()
      modifies this, buffers
      ensures ok <==> RingDrain(old(View()), s).Some?
      ensures ok ==> Valid() && View() == RingDrain(old(View()), s).value
    {
      hide RingRun, RingByte, RingFlag;
      ghost var r0 := View();
      var inP, denied, esc := inPacket, false, lastEsc;
      var buf: nat := (FRAMES + writeHead - 1) % FRAMES;
      PlaceIsMod(readHead, |queue|);
      assert inP ==> buf == Place(readHead, |queue|);
      var bi: nat := if inP then buffers[buf].len else 0;
      RingRunNothing(r0);
      hide Place;
      assert s[..0] == [];
      for n := 0 to |s|
        invariant Mid(inP, buf, bi) && lastEsc == old(lastEsc)
        invariant !denied ==> EmptyIsEmpty(inP, buf, bi) && RingRun(r0, s[..n]) == Going(Current(inP, buf, bi, esc))
        invariant denied ==> RingRun(r0, s) == Denied(Current(inP, buf, bi, esc))
      {
        if denied {
          continue;
        }
        RingRunStep(r0, s, n);
        hide RecvChannel.Mid;
        ok, inP, buf, bi, esc, denied := Take(s[n], inP, buf, bi, esc);
        if !ok {
          return;
        }
      }
      assert s[..|s|] == s;
      ok := true;
      inPacket := inP;
      SaveProgress(inP, buf, bi);
    }

    /** What is kept for the next drain. The pending escape is not. */
    method SaveProgress(inP: bool, buf: nat, bi: nat)
      requires Mid(inP, buf, bi) && inPacket == inP && !lastEsc
      modifies this`partial, buffers
      ensures Valid()
      ensures View() == old(Current(inP, buf, bi, false))
    {
      if inP {
        partial := buffers[buf].bytes[..bi];
        assert forall i :: 0 <= i < |queue| ==> Place(readHead, i) != buf;
        buffers[buf] := buffers[buf].(len := bi);
      }
    }
  }

  lemma RingRunNothing(r: Ring)
    ensures RingRun(r, []) == Going(r)
  {
  }
}
