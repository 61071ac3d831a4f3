/** The device's side of the V2 upload: its states, the handlers that move it between them
    and the inflate loop that turns chunks into program bytes. */
module V2Device {
  import opened Wrappers
  import opened Bytes
  import opened V2Messages

  const STAGING := 0x2000

  datatype Status = Progress | StreamEnd | BufError | Failed

  datatype Inflated<+I> = Inflated(state: I, consumed: nat, written: seq<byte>, status: Status)

  /** An incremental decompressor: what one call does with the input it is shown. `rank` is
      the promise that it does not write for ever on a finite input. */
  datatype Inflate<!I> = Inflate(
    init: I,
    step: (I, seq<byte>) -> Inflated<I>,
    rank: (I, seq<byte>) -> nat)

  ghost predicate WellBehaved<I(!new)>(f: Inflate<I>)
  {
    && (forall i, s :: f.step(i, s).consumed <= |s|)
    && (forall i, s :: f.step(i, s).status == BufError ==>
          f.step(i, s).consumed == 0 && f.step(i, s).written == [])
    && (forall i, s :: f.step(i, s).status == Progress && f.step(i, s).written != [] ==>
          f.rank(f.step(i, s).state, s[f.step(i, s).consumed..]) < f.rank(i, s))
  }

  /** Decompressor state, input not yet consumed, and the blocks of program bytes handed to the
      loader, each in one piece. */
  datatype Work<+I> = Work(inflate: I, pending: seq<byte>, blocks: seq<seq<byte>>)

  /** The inflate loop; `None` when the data is rejected. */
  function InflateLoop<I(!new)>(f: Inflate<I>, w: Work<I>): (r: Option<Work<I>>)
    requires WellBehaved(f)
    ensures r.Some? ==> |r.value.pending| <= |w.pending|
    decreases f.rank(w.inflate, w.pending)
  {
    var o := f.step(w.inflate, w.pending);
    match o.status
    case Progress =>
      if o.written == [] then Some(Work(o.state, w.pending[o.consumed..], w.blocks))
      else InflateLoop(f, Work(o.state, w.pending[o.consumed..], w.blocks + [o.written]))
    case StreamEnd => Some(Work(o.state, w.pending[..|w.pending| - o.consumed], w.blocks + [o.written]))
    case BufError => Some(w.(inflate := o.state))
    case Failed => None
  }

  /** One turn of the loop. */
  lemma LoopTurn<I(!new)>(f: Inflate<I>, w: Work<I>)
    requires WellBehaved(f)
    ensures var o := f.step(w.inflate, w.pending);
            InflateLoop(f, w)
            == match o.status
               case Progress =>
                 if o.written == [] then Some(Work(o.state, w.pending[o.consumed..], w.blocks))
                 else InflateLoop(f, Work(o.state, w.pending[o.consumed..], w.blocks + [o.written]))
               case StreamEnd => Some(Work(o.state, w.pending[..|w.pending| - o.consumed], w.blocks + [o.written]))
               case BufError => Some(w.(inflate := o.state))
               case Failed => None
  {
  }

  /** One chunk; `None` also when it does not fit behind what is pending. */
  function TakeChunk<I(!new)>(f: Inflate<I>, w: Work<I>, bytes: seq<byte>): (r: Option<Work<I>>)
    requires WellBehaved(f)
  {
    if |w.pending| + |bytes| > STAGING then None
    else InflateLoop(f, w.(pending := w.pending + bytes))
  }

  datatype Phase =
    | RequestMetadata
    | AckMetadata(metadata: Metadata)
    | RequestChunk(which: nat, count: nat, metadata: Metadata)
    | Boot(metadata: Metadata)
    | Running
    | Aborted

  datatype Device<+I> = Device(phase: Phase, once: bool, work: Work<I>)

  /** Whether the loader, given the metadata and the blocks it received, accepts the image. */
  type Verify = (Metadata, seq<seq<byte>>) -> bool

  function Initially<I(!new)>(f: Inflate<I>): Device<I>
  {
    Device(RequestMetadata, true, Work(f.init, [], []))
  }

  function OnMetadata<I>(d: Device<I>, md: Metadata): Device<I>
  {
    if d.phase == RequestMetadata && Loadable(md.format)
    then d.(phase := AckMetadata(md), once := true)
    else d
  }

  function OnMetadataAckAck<I>(d: Device<I>, isOk: bool): Device<I>
  {
    if !d.phase.AckMetadata? then d
    else if !isOk then d.(phase := RequestMetadata)
    else d.(phase := RequestChunk(0, ChunkCount(d.phase.metadata.deflatedLen), d.phase.metadata), once := true)
  }

  function OnChunk<I(!new)>(f: Inflate<I>, verify: Verify, d: Device<I>, which: nat, bytes: seq<byte>): Device<I>
    requires WellBehaved(f)
  {
    if !d.phase.RequestChunk? then d
    else if d.phase.which != which then d.(once := true)
    else
      match TakeChunk(f, d.work, bytes)
      case None => d.(phase := Aborted)
      case Some(w) =>
        var next := d.phase.which + 1;
        var md := d.phase.metadata;
        Device(
          if next != d.phase.count then RequestChunk(next, d.phase.count, md)
          else if verify(md, w.blocks) then Boot(md)
          else Aborted,
          true, w)
  }

  function OnBootingAck<I>(d: Device<I>): Device<I>
  {
    if d.phase.Boot? then d.(phase := Running) else d
  }

  function HandlePacket<I(!new)>(f: Inflate<I>, verify: Verify, d: Device<I>, m: HostMessage): Device<I>
    requires WellBehaved(f)
  {
    match m
    case MetadataOf(md) => OnMetadata(d, md)
    case MetadataAckAck(isOk) => OnMetadataAckAck(d, isOk)
    case Chunk(which, bytes) => OnChunk(f, verify, d, which, bytes)
    case BootingAck => OnBootingAck(d)
  }

  /** The message the heartbeat repeats. */
  function HeartbeatMessage(p: Phase): Option<DeviceMessage>
  {
    match p
    case RequestMetadata => Some(MetadataReq)
    case AckMetadata(md) => Some(MetadataAck(CHUNK_SIZE, md))
    case RequestChunk(which, _, _) => Some(ChunkReq(which))
    case Boot(_) => Some(Booting)
    case _ => None
  }

  datatype Timeouts = Timeouts(resend: nat, resendChunk: nat, bufferRetry: nat)

  /** The transmit queue took the message, had no room for it, or failed otherwise. */
  datatype Sending = Took | Full | Broken

  class V2<I(!new)> {
    var phase: Phase
    var once: bool
    var retryBuffer: bool
    var inflateState: I
    var remainder: nat
    /** What the loader has been given to write, piece by piece. */
    var blocks: seq<seq<byte>>
    const staging: array<byte>
    const inflate: Inflate<I>
    const verify: Verify

    ghost predicate Valid()
      reads this
    {
      staging.Length == STAGING && remainder <= STAGING && WellBehaved(inflate)
    }

    ghost function View(): Device<I>
      requires Valid()
      reads this, staging
    {
      Device(phase, once, Work(inflateState, staging[..remainder], blocks))
    }

    constructor (inflate: Inflate<I>, verify: Verify, staging: array<byte>)
      requires WellBehaved(inflate) && staging.Length == STAGING
      ensures Valid() && View() == Initially(inflate)
      ensures this.inflate == inflate && this.verify == verify && this.staging == staging
    {
      phase, once, retryBuffer := RequestMetadata, true, false;
      inflateState := inflate.init;
      remainder, blocks := 0, [];
      this.staging, this.inflate, this.verify := staging, inflate, verify;
    }

    method RecvMetadata(md: Metadata)
      requires Valid()
      modifies this
      ensures Valid() && View() == OnMetadata(old(View()), md)
    {
      if phase != RequestMetadata {
        return;
      }
      var ok := true;
      match md.format {
        case Bin(loadAddress) =>
          if loadAddress >= 0x1000_0000 {
            ok := false;
          } else if loadAddress % 4 != 0 {
            ok := false;
          }
        case Elf =>
      }
      if ok {
        phase := AckMetadata(md);
        once := true;
      }
    }

    method RecvMetadataAckAck(isOk: bool)
      requires Valid()
      modifies this
      ensures Valid() && View() == OnMetadataAckAck(old(View()), isOk)
    {
      if !phase.AckMetadata? {
        return;
      }
      if !isOk {
        phase := RequestMetadata;
        return;
      }
      var md := phase.metadata;
      var chunkCount := (md.deflatedLen + CHUNK_SIZE - 1) / CHUNK_SIZE;
      phase := RequestChunk(0, chunkCount, md);
      once := true;
    }

    /** Moves the unconsumed input to the front of the staging area. */
    method CopyDown(from: nat)
      requires Valid() && from <= remainder
      modifies staging
      ensures staging[..remainder - from] == old(staging[..remainder])[from..]
    {
      for i := 0 to remainder - from
        invariant staging[..i] == old(staging[..remainder])[from..from + i]
        invariant forall k :: i <= k < remainder ==> staging[k] == old(staging[k])
      {
        staging[i] := staging[from + i];
      }
    }

    /** Runs the decompressor until it makes no more output. */
    method InflateStaged() returns (ok: bool)
      requires Valid()
      modifies this`inflateState, this`remainder, this`blocks, staging
      ensures Valid()
      ensures var r := InflateLoop(inflate, old(View()).work);
              && (ok <==> r.Some?)
              && (ok ==> View().work == r.value)
    {
      hide InflateLoop;
      ok := true;
      var done := false;
      while !done
        invariant Valid()
        invariant !done ==> InflateLoop(inflate, View().work) == InflateLoop(inflate, old(View()).work)
        invariant done && ok ==> InflateLoop(inflate, old(View()).work) == Some(View().work)
        invariant done && !ok ==> InflateLoop(inflate, old(View()).work) == None
        invariant !done ==> ok
        decreases !done, if done then 0 else inflate.rank(inflateState, staging[..remainder])
      {
        ghost var pending := staging[..remainder];
        LoopTurn(inflate, View().work);
        var o := inflate.step(inflateState, staging[..remainder]);
        inflateState := o.state;
        match o.status {
          case Progress =>
            CopyDown(o.consumed);
            remainder := remainder - o.consumed;
            assert staging[..remainder] == pending[o.consumed..];
            if o.written == [] {
              done := true;
            } else {
              blocks := blocks + [o.written];
            }
          case StreamEnd =>
            remainder := remainder - o.consumed;
            assert staging[..remainder] == pending[..|pending| - o.consumed];
            blocks := blocks + [o.written];
            done := true;
          case BufError =>
            done := true;
          case Failed =>
            done, ok := true, false;
        }
      }
    }

    /** `false` ends the session. */
    method RecvChunk(which: nat, bytes: seq<byte>) returns (ok: bool)
      requires Valid()
      modifies this, staging
      ensures Valid()
      ensures var d := OnChunk(inflate, verify, old(View()), which, bytes);
              && (ok <==> d.phase != Aborted || old(phase) == Aborted)
              && (ok ==> View() == d)
    {
      ok := true;
      if !phase.RequestChunk? {
        return;
      }
      var RequestChunk(expected, count, md) := phase;
      if expected != which {
        once := true;
        return;
      }
      var newEnd := remainder + |bytes|;
      if newEnd > STAGING {
        return false;
      }
      ghost var pending := staging[..remainder];
      forall i | 0 <= i < |bytes| { staging[remainder + i] := bytes[i]; }
      remainder := newEnd;
      assert staging[..remainder] == pending + bytes;
      ok := InflateStaged();
      if !ok {
        return;
      }
      once := true;
      if expected + 1 != count {
        phase := RequestChunk(expected + 1, count, md);
      } else if verify(md, blocks) {
        phase := Boot(md);
      } else {
        phase := RequestMetadata;
        ok := false;
      }
    }

    method RecvBootingAck()
      requires Valid()
      modifies this
      ensures Valid() && View() == OnBootingAck(old(View()))
    {
      if phase.Boot? {
        phase := Running;
      }
    }

    /** Repeats the state's message: the first time, after a silence that is longer for
        chunks, or soon after the transmit queue was full. `sending` is what becomes of it. On a
        message that cannot be sent at all the result is `abend`, which the device's main loop
        does not look at, so that the session goes on. `restarted` tells whether the
        silence is counted from now on. */
    method Heartbeat(elapsed: nat, times: Timeouts, sending: Sending)
      returns (m: Option<DeviceMessage>, abend: bool, restarted: bool)
      requires Valid()
      modifies this
      ensures Valid() && phase == old(phase) && View().work == old(View()).work && !once
      ensures var due := HeartbeatMessage(phase).Some?
                         && (|| old(once)
                             || elapsed > (if phase.RequestChunk? then times.resendChunk else times.resend)
                             || (old(retryBuffer) && elapsed > times.bufferRetry));
              && m == (if due && sending == Took then HeartbeatMessage(phase) else None)
              && (abend <==> due && sending == Broken)
              && (restarted <==> due && sending != Broken)
              && retryBuffer == (if restarted then sending == Full else old(retryBuffer))
    {
      var sendOnce := once;
      once := false;
      m, abend, restarted := None, false, false;
      var patience := if phase.RequestChunk? then times.resendChunk else times.resend;
      if HeartbeatMessage(phase).Some?
         && (sendOnce || elapsed > patience || (retryBuffer && elapsed > times.bufferRetry)) {
        match sending {
          case Took =>
            m := HeartbeatMessage(phase);
            retryBuffer := false;
          case Full => retryBuffer := true;
          case Broken =>
            abend := true;
            return;
        }
        restarted := true;
      }
    }
  }

  // ----- When the device speaks ------------------------------------------------------

  /** A packet makes the device speak at its next heartbeat, however early that is, exactly when
      it takes the device to a phase beyond the first, or is a chunk other than the one it
      waits for. */
  lemma SpeaksAtOnceIff<I(!new)>(f: Inflate<I>, verify: Verify, d: Device<I>, m: HostMessage)
    requires WellBehaved(f) && !HandlePacket(f, verify, d, m).phase.Aborted?
    ensures var d' := HandlePacket(f, verify, d, m);
            var (p, p') := (d.phase, d'.phase);
            d'.once <==> || d.once
                         || (p' != p && (p'.AckMetadata? || p'.RequestChunk? || p'.Boot?))
                         || (m.Chunk? && p.RequestChunk? && m.which != p.which)
  {
    hide TakeChunk;
  }

  // ----- What the decompressor is shown ----------------------------------------------

  /** The concatenation of the inputs the decompressor consumes in the loop, and whether it
      reported the end of its stream. */
  function Consumed<I(!new)>(f: Inflate<I>, w: Work<I>): (r: (seq<byte>, bool))
    requires WellBehaved(f)
    decreases f.rank(w.inflate, w.pending)
  {
    var o := f.step(w.inflate, w.pending);
    match o.status
    case Progress =>
      if o.written == [] then (w.pending[..o.consumed], false)
      else
        var rest := Consumed(f, Work(o.state, w.pending[o.consumed..], w.blocks + [o.written]));
        (w.pending[..o.consumed] + rest.0, rest.1)
    case StreamEnd => (w.pending[..o.consumed], true)
    case BufError => ([], false)
    case Failed => ([], false)
  }

  /** Until the stream ends the decompressor consumes its input from the front and without a
      gap: what it consumed and what is pending is what was pending before. */
  lemma {:induction false} InputIsConserved<I(!new)>(f: Inflate<I>, w: Work<I>)
    requires WellBehaved(f)
    ensures var r := InflateLoop(f, w);
            r.Some? && !Consumed(f, w).1 ==> Consumed(f, w).0 + r.value.pending == w.pending
    decreases f.rank(w.inflate, w.pending)
  {
    var o := f.step(w.inflate, w.pending);
    if o.status == Progress && o.written != [] {
      var w' := Work(o.state, w.pending[o.consumed..], w.blocks + [o.written]);
      InputIsConserved(f, w');
      var r := InflateLoop(f, w');
      if r.Some? && !Consumed(f, w').1 {
        Assoc(w.pending[..o.consumed], Consumed(f, w').0, r.value.pending);
        assert w.pending[..o.consumed] + w.pending[o.consumed..] == w.pending;
      }
    } else if o.status == BufError {
      assert [] + w.pending == w.pending;
    } else if o.status == Progress {
      assert w.pending[..o.consumed] + w.pending[o.consumed..] == w.pending;
    }
  }

  // ----- What the loader is given ----------------------------------------------------

  /** What one call writes: nothing when it makes no progress. */
  function Output<I>(o: Inflated<I>): seq<seq<byte>>
  {
    if o.status == StreamEnd || (o.status == Progress && o.written != []) then [o.written] else []
  }

  /** The outputs of the calls that the loop makes, in order; what the last one is shown, and
      its status. */
  function Calls<I(!new)>(f: Inflate<I>, i: I, input: seq<byte>): (r: (seq<seq<byte>>, seq<byte>, Status))
    requires WellBehaved(f)
    decreases f.rank(i, input)
  {
    var o := f.step(i, input);
    if o.status == Progress && o.written != [] then
      var rest := Calls(f, o.state, input[o.consumed..]);
      (Output(o) + rest.0, rest.1, rest.2)
    else (Output(o), input, o.status)
  }

  /** The data is rejected exactly when the last call fails. Otherwise the loader is given all
      of the output, each part in one piece and in order. What is kept for the
      next chunk is as long as what was not consumed; but at the end of the stream it is the
      beginning of what the last call was shown and not its end. */
  lemma {:induction false} OutputIsHandedOn<I(!new)>(f: Inflate<I>, w: Work<I>)
    requires WellBehaved(f)
    ensures var (r, calls) := (InflateLoop(f, w), Calls(f, w.inflate, w.pending));
            && (r.None? <==> calls.2 == Failed)
            && (r.Some? ==>
              && r.value.blocks == w.blocks + calls.0
              && |r.value.pending| + |Consumed(f, w).0| == |w.pending|
              && (Consumed(f, w).1 ==> r.value.pending <= calls.1))
    decreases f.rank(w.inflate, w.pending)
  {
    var o := f.step(w.inflate, w.pending);
    if o.status == Progress && o.written != [] {
      var w' := Work(o.state, w.pending[o.consumed..], w.blocks + [o.written]);
      OutputIsHandedOn(f, w');
      Assoc(w.blocks, [o.written], Calls(f, w'.inflate, w'.pending).0);
    } else {
      assert w.blocks + [] == w.blocks;
    }
  }

  /** A chunk is turned down exactly when, with what is still pending, it is longer than 8192
      bytes, or a call fails on the two together. */
  lemma ChunkRefusedIff<I(!new)>(f: Inflate<I>, w: Work<I>, bytes: seq<byte>)
    requires WellBehaved(f)
    ensures TakeChunk(f, w, bytes).None?
            <==> |w.pending| + |bytes| > 8192 || Calls(f, w.inflate, w.pending + bytes).2 == Failed
  {
    OutputIsHandedOn(f, w.(pending := w.pending + bytes));
    hide InflateLoop;
  }
}
