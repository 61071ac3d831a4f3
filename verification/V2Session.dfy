/** One upload session: device and host joined by a channel that loses, repeats, delays and
    reorders messages. */
module V2Session {
  import opened Wrappers
  import opened Bytes
  import opened V2Messages
  import opened V2Device

  // ----- Host ------------------------------------------------------------------------

  /** What the host uploads: the compressed file and the metadata computed for it. */
  datatype Upload = Upload(file: seq<byte>, metadata: Metadata)
  {
    predicate Valid()
    {
      metadata.deflatedLen == |file|
    }
  }

  /** The host between two messages; `Panicked` is a slice out of range. */
  datatype Host = Waiting(chunkSize: nat) | Finished | Panicked

  /** The chunk sent for a request, or `None` when the slice would be out of range. */
  function DispatchChunkReq(file: seq<byte>, chunkSize: nat, which: nat): (r: Option<HostMessage>)
  {
    var begin := which * chunkSize;
    var end := Min(begin + chunkSize, |file|);
    if begin <= end then Some(Chunk(which, file[begin..end])) else None
  }

  /** The acknowledgement is right when the device repeats the metadata field by field. */
  predicate AckMatches(u: Upload, md: Metadata)
  {
    && md.deflatedCrc == u.metadata.deflatedCrc
    && md.deflatedLen == u.metadata.deflatedLen
    && md.inflatedCrc == u.metadata.inflatedCrc
    && md.inflatedLen == u.metadata.inflatedLen
    && md.format == u.metadata.format
  }

  function HostStep(u: Upload, h: Host, m: DeviceMessage): (r: (Host, Option<HostMessage>))
    requires h.Waiting?
  {
    match m
    case MetadataReq => (h, Some(MetadataOf(u.metadata)))
    case MetadataAck(chunkSize, md) =>
      var ok := AckMatches(u, md);
      (if ok then Waiting(chunkSize) else h, Some(MetadataAckAck(ok)))
    case ChunkReq(which) =>
      var reply := DispatchChunkReq(u.file, h.chunkSize, which);
      (if reply.None? then Panicked else h, reply)
    case Booting => (Finished, Some(BootingAck))
  }

  /** The host agrees exactly to its own metadata, and takes the chunk size only then. */
  lemma AgreesIff(u: Upload, h: Host, chunkSize: nat, md: Metadata)
    requires h.Waiting?
    ensures HostStep(u, h, MetadataAck(chunkSize, md))
            == (if md == u.metadata then Waiting(chunkSize) else h, Some(MetadataAckAck(md == u.metadata)))
  {
  }

  /** The host's loop body: one received message. */
  class HostUpload {
    const upload: Upload
    var chunkSize: nat
    var finished: bool

    constructor (upload: Upload)
      ensures this.upload == upload && chunkSize == 0 && !finished
    {
      this.upload := upload;
      chunkSize, finished := 0, false;
    }

    method Receive(m: DeviceMessage) returns (reply: Option<HostMessage>)
      requires !finished
      modifies this
      ensures var (h, r) := HostStep(upload, Waiting(old(chunkSize)), m);
              && reply == r
              && (h.Waiting? ==> !finished && chunkSize == h.chunkSize)
              && (h.Finished? ==> finished)
    {
      match m {
        case MetadataReq => reply := Some(MetadataOf(upload.metadata));
        case MetadataAck(size, md) =>
          var ok := md == upload.metadata;
          reply := Some(MetadataAckAck(ok));
          if ok {
            chunkSize := size;
          }
        case ChunkReq(which) =>
          var begin := which * chunkSize;
          var end := if begin + chunkSize < |upload.file| then begin + chunkSize else |upload.file|;
          if begin <= end {
            reply := Some(Chunk(which, upload.file[begin..end]));
          } else {
            reply := None;
          }
        case Booting =>
          reply := Some(BootingAck);
          finished := true;
      }
    }
  }

  // ----- The system ------------------------------------------------------------------

  /** Every message ever sent stays available: delivery picks any of them, any number of
      times, which covers loss, repetition, delay and reordering. */
  datatype System<+I> = System(
    device: Device<I>,
    host: Host,
    toHost: set<DeviceMessage>,
    toDevice: set<HostMessage>)

  datatype Step = Heartbeat | ToDevice(h: HostMessage) | ToHost(d: DeviceMessage)

  ghost predicate Enabled<I>(s: System<I>, step: Step)
  {
    match step
    case Heartbeat => HeartbeatMessage(s.device.phase).Some?
    case ToDevice(m) => m in s.toDevice && s.device.phase != Aborted && s.device.phase != Running
    case ToHost(m) => m in s.toHost && s.host.Waiting?
  }

  ghost function Apply<I(!new)>(u: Upload, f: Inflate<I>, verify: Verify, s: System<I>, step: Step): System<I>
    requires WellBehaved(f) && Enabled(s, step)
  {
    match step
    case Heartbeat => s.(toHost := s.toHost + {HeartbeatMessage(s.device.phase).value})
    case ToDevice(m) => s.(device := HandlePacket(f, verify, s.device, m))
    case ToHost(m) =>
      var (h, reply) := HostStep(u, s.host, m);
      s.(host := h, toDevice := if reply.Some? then s.toDevice + {reply.value} else s.toDevice)
  }

  ghost function Start<I(!new)>(f: Inflate<I>): System<I>
  {
    System(Initially(f), Waiting(0), {}, {})
  }

  /** A run: states that begin at the start and follow one another by enabled steps. */
  ghost predicate Run<I(!new)>(u: Upload, f: Inflate<I>, verify: Verify, states: seq<System<I>>, steps: seq<Step>)
    requires WellBehaved(f)
  {
    && |states| == |steps| + 1
    && states[0] == Start(f)
    && forall i :: 0 <= i < |steps| ==>
         Enabled(states[i], steps[i]) && states[i + 1] == Apply(u, f, verify, states[i], steps[i])
  }

  // ----- The reference: every chunk once, in order -----------------------------------

  /** The device's work after being given chunks 0 to `w - 1` once each, in order. */
  function Ideal<I(!new)>(u: Upload, f: Inflate<I>, w: nat): (r: Option<Work<I>>)
    requires WellBehaved(f) && w <= ChunkCount(|u.file|)
    decreases w
  {
    if w == 0 then Some(Work(f.init, [], []))
    else
      var before := Ideal(u, f, w - 1);
      if before.None? then None else TakeChunk(f, before.value, ChunkOf(u.file, w - 1))
  }

  /** The whole file has been taken and the loader has accepted the result. */
  ghost predicate Loaded<I(!new)>(u: Upload, f: Inflate<I>, verify: Verify)
    requires WellBehaved(f)
  {
    var w := Ideal(u, f, ChunkCount(|u.file|));
    w.Some? && verify(u.metadata, w.value.blocks)
  }

  ghost predicate DeviceOk<I(!new)>(u: Upload, f: Inflate<I>, verify: Verify, d: Device<I>, h: Host)
    requires WellBehaved(f)
  {
    var count := ChunkCount(|u.file|);
    match d.phase
    case RequestMetadata => d.work == Work(f.init, [], [])
    case AckMetadata(md) => md == u.metadata && d.work == Work(f.init, [], [])
    case RequestChunk(which, n, md) =>
      && md == u.metadata && n == count && which < count
      && (h.Waiting? ==> h.chunkSize == CHUNK_SIZE)
      && Ideal(u, f, which) == Some(d.work)
    case Boot(md) => md == u.metadata && Loaded(u, f, verify) && Ideal(u, f, count) == Some(d.work)
    case Running => Loaded(u, f, verify) && Ideal(u, f, count) == Some(d.work)
    case Aborted => !Loaded(u, f, verify)
  }

  ghost predicate ToHostOk<I(!new)>(u: Upload, f: Inflate<I>, verify: Verify, m: DeviceMessage, h: Host)
    requires WellBehaved(f)
  {
    match m
    case MetadataReq => true
    case MetadataAck(chunkSize, md) => chunkSize == CHUNK_SIZE && md == u.metadata
    case ChunkReq(which) => which < ChunkCount(|u.file|) && (h.Waiting? ==> h.chunkSize == CHUNK_SIZE)
    case Booting => Loaded(u, f, verify)
  }

  ghost predicate ToDeviceOk(u: Upload, m: HostMessage, h: Host)
  {
    match m
    case MetadataOf(md) => md == u.metadata
    case MetadataAckAck(isOk) => isOk && (h.Waiting? ==> h.chunkSize == CHUNK_SIZE)
    case Chunk(which, bytes) => which < ChunkCount(|u.file|) && bytes == ChunkOf(u.file, which)
    case BootingAck => h == Finished
  }

  ghost predicate Inv<I(!new)>(u: Upload, f: Inflate<I>, verify: Verify, s: System<I>)
    requires WellBehaved(f)
  {
    && s.host != Panicked
    && DeviceOk(u, f, verify, s.device, s.host)
    && (forall m :: m in s.toHost ==> ToHostOk(u, f, verify, m, s.host))
    && (forall m :: m in s.toDevice ==> ToDeviceOk(u, m, s.host))
    && (s.host == Finished ==> Loaded(u, f, verify))
    && Together(s)
    && (s.device.phase != RequestMetadata ==> Loadable(u.metadata.format))
  }

  /** How far the two sides are, one with the other. */
  ghost predicate Together<I>(s: System<I>)
  {
    var booting := s.device.phase.Boot? || s.device.phase.Running?;
    && (Booting in s.toHost || s.host == Finished ==> booting)
    && (s.host == Finished ==> BootingAck in s.toDevice)
    && (s.device.phase.Running? ==> s.host == Finished)
  }

  /** A request for a chunk that exists is answered with exactly that chunk. */
  lemma ChunkIsSliced(file: seq<byte>, which: nat)
    requires which < ChunkCount(|file|)
    ensures DispatchChunkReq(file, CHUNK_SIZE, which) == Some(Chunk(which, ChunkOf(file, which)))
  {
    ChunkBounds(|file|, which);
  }

  lemma DeviceStepKeeps<I(!new)>(u: Upload, f: Inflate<I>, verify: Verify, s: System<I>, m: HostMessage)
    requires WellBehaved(f) && u.Valid() && |u.file| > 0
    requires Inv(u, f, verify, s) && Enabled(s, ToDevice(m))
    ensures DeviceOk(u, f, verify, HandlePacket(f, verify, s.device, m), s.host)
  {
    hide InflateLoop;
    var count := ChunkCount(|u.file|);
    assert ToDeviceOk(u, m, s.host);
    match m {
      case MetadataAckAck(isOk) =>
        ChunkBounds(|u.file|, 0);
      case Chunk(which, bytes) =>
        if s.device.phase.RequestChunk? && s.device.phase.which == which {
          assert Ideal(u, f, which + 1) == TakeChunk(f, s.device.work, bytes);
          IdealStaysNone(u, f, which + 1, count);
        }
      case _ =>
    }
  }

  /** What one chunk spoils no later one repairs. */
  lemma {:induction false} IdealStaysNone<I(!new)>(u: Upload, f: Inflate<I>, w: nat, v: nat)
    requires WellBehaved(f) && w <= v <= ChunkCount(|u.file|)
    ensures Ideal(u, f, w).None? ==> Ideal(u, f, v).None?
  {
    hide TakeChunk;
    if w < v {
      IdealStaysNone(u, f, w, v - 1);
    }
  }

  lemma DeviceStaysTogether<I(!new)>(u: Upload, f: Inflate<I>, verify: Verify, s: System<I>, m: HostMessage)
    requires WellBehaved(f) && Inv(u, f, verify, s) && Enabled(s, ToDevice(m))
    ensures var s' := Apply(u, f, verify, s, ToDevice(m));
            Together(s') && (s'.device.phase != RequestMetadata ==> Loadable(u.metadata.format))
  {
    hide InflateLoop, TakeChunk, Ideal, Loaded;
    assert ToDeviceOk(u, m, s.host);
  }

  lemma HostStepKeeps<I(!new)>(u: Upload, f: Inflate<I>, verify: Verify, s: System<I>, m: DeviceMessage)
    requires WellBehaved(f) && u.Valid()
    requires Inv(u, f, verify, s) && Enabled(s, ToHost(m))
    ensures Inv(u, f, verify, Apply(u, f, verify, s, ToHost(m)))
  {
    hide InflateLoop, TakeChunk, Ideal, Loaded;
    assert ToHostOk(u, f, verify, m, s.host);
    if m.ChunkReq? {
      ChunkIsSliced(u.file, m.which);
    }
    var s' := Apply(u, f, verify, s, ToHost(m));
    assert s'.host.Waiting? ==> s'.host.chunkSize == s.host.chunkSize || s'.host.chunkSize == CHUNK_SIZE;
    forall x | x in s'.toHost
      ensures ToHostOk(u, f, verify, x, s'.host)
    {
      assert ToHostOk(u, f, verify, x, s.host);
    }
    forall x | x in s'.toDevice
      ensures ToDeviceOk(u, x, s'.host)
    {
      assert x in s.toDevice ==> ToDeviceOk(u, x, s.host);
    }
  }

  lemma HeartbeatKeeps<I(!new)>(u: Upload, f: Inflate<I>, verify: Verify, s: System<I>)
    requires WellBehaved(f) && Inv(u, f, verify, s) && Enabled(s, Heartbeat)
    ensures Inv(u, f, verify, Apply(u, f, verify, s, Heartbeat))
  {
    hide InflateLoop, TakeChunk, Ideal, Loaded;
  }

  lemma StepKeeps<I(!new)>(u: Upload, f: Inflate<I>, verify: Verify, s: System<I>, step: Step)
    requires WellBehaved(f) && u.Valid() && |u.file| > 0
    requires Inv(u, f, verify, s) && Enabled(s, step)
    ensures Inv(u, f, verify, Apply(u, f, verify, s, step))
  {
    hide InflateLoop, TakeChunk, Ideal, Loaded, DeviceOk, HandlePacket;
    match step {
      case Heartbeat => HeartbeatKeeps(u, f, verify, s);
      case ToDevice(m) =>
        DeviceStepKeeps(u, f, verify, s, m);
        DeviceStaysTogether(u, f, verify, s, m);
      case ToHost(m) => HostStepKeeps(u, f, verify, s, m);
    }
  }

  lemma {:induction false} RunKeeps<I(!new)>(
    u: Upload, f: Inflate<I>, verify: Verify, states: seq<System<I>>, steps: seq<Step>, i: nat)
    requires WellBehaved(f) && u.Valid() && |u.file| > 0
    requires Run(u, f, verify, states, steps) && i < |states|
    ensures Inv(u, f, verify, states[i])
  {
    hide InflateLoop, TakeChunk, Apply;
    if i > 0 {
      RunKeeps(u, f, verify, states, steps, i - 1);
      hide Inv;
      StepKeeps(u, f, verify, states[i - 1], steps[i - 1]);
      assert states[i - 1 + 1] == Apply(u, f, verify, states[i - 1], steps[i - 1]);
    }
  }

  // ----- Results ---------------------------------------------------------------------

  /** In every run over such a channel, with a file that is not empty: the host never slices
      out of range; while it requests chunk `which` the device has done exactly the work of
      the chunks before it, each once and in order; it boots, and the host hears of it, only
      after the work of the whole file and an accepted image; and it gives up only on a file
      that cannot be inflated or whose image is not accepted. */
  lemma SessionIsSafe<I(!new)>(
    u: Upload, f: Inflate<I>, verify: Verify, states: seq<System<I>>, steps: seq<Step>, i: nat)
    requires WellBehaved(f) && u.Valid() && |u.file| > 0
    requires Run(u, f, verify, states, steps) && i < |states|
    ensures var s := states[i];
            var p := s.device.phase;
            && s.host != Panicked
            && (p.RequestChunk? ==> p.which < ChunkCount(|u.file|) && Ideal(u, f, p.which) == Some(s.device.work))
            && (p.Boot? || p.Running? ==>
                  Loaded(u, f, verify) && Ideal(u, f, ChunkCount(|u.file|)) == Some(s.device.work))
            && (p.Aborted? ==> !Loaded(u, f, verify))
            && (Booting in s.toHost || s.host == Finished ==> Loaded(u, f, verify))
            && (forall w :: ChunkReq(w) in s.toHost && s.host.Waiting? ==>
                  DispatchChunkReq(u.file, s.host.chunkSize, w).Some?)
  {
    RunKeeps(u, f, verify, states, steps, i);
    hide InflateLoop, TakeChunk, Ideal, Loaded, Run;
    var s := states[i];
    forall w | ChunkReq(w) in s.toHost && s.host.Waiting?
      ensures DispatchChunkReq(u.file, s.host.chunkSize, w).Some?
    {
      assert ToHostOk(u, f, verify, ChunkReq(w), s.host);
      ChunkIsSliced(u.file, w);
    }
    if Booting in s.toHost {
      assert ToHostOk(u, f, verify, Booting, s.host);
    }
  }

  /** The decompressor has reported the end of its stream in one of the first `w` chunks. */
  function Ended<I(!new)>(u: Upload, f: Inflate<I>, w: nat): bool
    requires WellBehaved(f) && w <= ChunkCount(|u.file|) && Ideal(u, f, w).Some?
    decreases w
  {
    w > 0 && (Ended(u, f, w - 1)
              || Consumed(f, Staged(u, f, w - 1)).1)
  }

  /** What the decompressor has consumed over the first `w` chunks. */
  function Fed<I(!new)>(u: Upload, f: Inflate<I>, w: nat): seq<byte>
    requires WellBehaved(f) && w <= ChunkCount(|u.file|) && Ideal(u, f, w).Some?
    decreases w
  {
    if w == 0 then [] else Fed(u, f, w - 1) + Consumed(f, Staged(u, f, w - 1)).0
  }

  function Staged<I(!new)>(u: Upload, f: Inflate<I>, w: nat): Work<I>
    requires WellBehaved(f) && w < ChunkCount(|u.file|) && Ideal(u, f, w + 1).Some?
  {
    var before := Ideal(u, f, w).value;
    before.(pending := before.pending + ChunkOf(u.file, w))
  }

  /** Conservation: until its stream ends, what the decompressor consumed followed by what
      is still staged is the file up to the chunk that is requested next. */
  lemma {:induction false} FileIsFedInOrder<I(!new)>(u: Upload, f: Inflate<I>, w: nat)
    requires WellBehaved(f) && w <= ChunkCount(|u.file|) && Ideal(u, f, w).Some?
    ensures !Ended(u, f, w) ==> Fed(u, f, w) + Ideal(u, f, w).value.pending == Prefix(u.file, w)
    decreases w
  {
    hide InflateLoop, Consumed;
    if w > 0 && !Ended(u, f, w) {
      var staged := Staged(u, f, w - 1);
      FileIsFedInOrder(u, f, w - 1);
      InputIsConserved(f, staged);
      PrefixGrows(u.file, w - 1);
      var fed, rest := Fed(u, f, w - 1), Ideal(u, f, w).value.pending;
      Assoc(fed, Consumed(f, staged).0, rest);
      Assoc(fed, Ideal(u, f, w - 1).value.pending, ChunkOf(u.file, w - 1));
    }
  }

  lemma RunExtends<I(!new)>(
    u: Upload, f: Inflate<I>, verify: Verify, states: seq<System<I>>, steps: seq<Step>, step: Step)
    requires WellBehaved(f) && Run(u, f, verify, states, steps) && Enabled(states[|steps|], step)
    ensures Run(u, f, verify, states + [Apply(u, f, verify, states[|steps|], step)], steps + [step])
  {
    hide Apply, Enabled;
    var states' := states + [Apply(u, f, verify, states[|steps|], step)];
    var steps' := steps + [step];
    forall i | 0 <= i < |steps'|
      ensures Enabled(states'[i], steps'[i]) && states'[i + 1] == Apply(u, f, verify, states'[i], steps'[i])
    {
      if i < |steps| {
        assert states'[i] == states[i] && states'[i + 1] == states[i + 1] && steps'[i] == steps[i];
      }
    }
  }

  /** Steps taken one after the other from `s`. */
  ghost function ApplyAll<I(!new)>(u: Upload, f: Inflate<I>, verify: Verify, s: System<I>, steps: seq<Step>): Option<System<I>>
    requires WellBehaved(f)
    decreases |steps|
  {
    if |steps| == 0 then Some(s)
    else if !Enabled(s, steps[0]) then None
    else ApplyAll(u, f, verify, Apply(u, f, verify, s, steps[0]), steps[1..])
  }

  lemma {:induction false} RunOf<I(!new)>(
    u: Upload, f: Inflate<I>, verify: Verify, states: seq<System<I>>, done: seq<Step>, todo: seq<Step>)
    returns (all: seq<System<I>>)
    requires WellBehaved(f) && Run(u, f, verify, states, done)
    requires ApplyAll(u, f, verify, states[|done|], todo).Some?
    ensures Run(u, f, verify, all, done + todo)
    ensures all[|all| - 1] == ApplyAll(u, f, verify, states[|done|], todo).value
    decreases |todo|
  {
    hide Apply, Enabled;
    if |todo| == 0 {
      assert done + todo == done;
      all := states;
    } else {
      RunExtends(u, f, verify, states, done, todo[0]);
      var next := Apply(u, f, verify, states[|done|], todo[0]);
      all := RunOf(u, f, verify, states + [next], done + [todo[0]], todo[1..]);
      assert done + [todo[0]] + todo[1..] == done + todo;
    }
  }

  lemma Step1<I(!new)>(u: Upload, f: Inflate<I>, verify: Verify, s: System<I>, steps: seq<Step>, s': System<I>)
    requires WellBehaved(f) && |steps| > 0
    requires Enabled(s, steps[0]) && s' == Apply(u, f, verify, s, steps[0])
    ensures ApplyAll(u, f, verify, s, steps) == ApplyAll(u, f, verify, s', steps[1..])
  {
  }

  /** Why the file must not be empty: no chunk number reaches the count of zero, so a device
      whose decompressor puts up with an empty input asks for chunk 1, and the host's slice
      of it is out of range. */
  lemma EmptyFilePanics<I(!new)>(u: Upload, f: Inflate<I>, verify: Verify)
    returns (states: seq<System<I>>, steps: seq<Step>)
    requires WellBehaved(f) && u.Valid() && u.file == [] && Loadable(u.metadata.format)
    requires TakeChunk(f, Work(f.init, [], []), []).Some?
    ensures Run(u, f, verify, states, steps) && states[|steps|].host == Panicked
  {
    hide TakeChunk;
    var md := u.metadata;
    var w0 := Work(f.init, [], []);
    var w1 := TakeChunk(f, w0, []).value;
    steps := [
      Heartbeat, ToHost(MetadataReq), ToDevice(MetadataOf(md)),
      Heartbeat, ToHost(MetadataAck(CHUNK_SIZE, md)), ToDevice(MetadataAckAck(true)),
      Heartbeat, ToHost(ChunkReq(0)), ToDevice(Chunk(0, [])),
      Heartbeat, ToHost(ChunkReq(1))];
    var s0 := Start(f);
    var s3 := System(Device(AckMetadata(md), true, w0), Waiting(0), {MetadataReq}, {MetadataOf(md)});
    var s6 := System(
      Device(RequestChunk(0, 0, md), true, w0), Waiting(CHUNK_SIZE),
      {MetadataReq, MetadataAck(CHUNK_SIZE, md)}, {MetadataOf(md), MetadataAckAck(true)});
    var s9 := System(
      Device(RequestChunk(1, 0, md), true, w1), Waiting(CHUNK_SIZE),
      s6.toHost + {ChunkReq(0)}, s6.toDevice + {Chunk(0, [])});
    Handshake(u, f, verify, s0, s3, steps);
    MetadataAgreed(u, f, verify, s3, s6, steps[3..]);
    EmptyChunkTaken(u, f, verify, s6, s9, steps[6..]);
    ChunkOneFails(u, f, verify, s9, steps[9..]);
    assert steps[3..][3..] == steps[6..] && steps[6..][3..] == steps[9..];
    states := RunOf(u, f, verify, [s0], [], steps);
    assert [] + steps == steps;
  }

  /** Some run ends with the host slicing out of range. */
  ghost predicate CanPanic<I(!new)>(u: Upload, f: Inflate<I>, verify: Verify)
    requires WellBehaved(f)
  {
    exists states: seq<System<I>>, steps: seq<Step> :: Run(u, f, verify, states, steps) && states[|steps|].host == Panicked
  }

  /** An empty file that gets as far as chunk 1. */
  predicate TakesEmpty<I(!new)>(u: Upload, f: Inflate<I>)
    requires WellBehaved(f)
  {
    u.file == [] && Loadable(u.metadata.format) && TakeChunk(f, Work(f.init, [], []), []).Some?
  }

  /** The host can be made to panic if and only if the file is empty, its load address is
      acceptable and the decompressor puts up with an empty input. */
  lemma PanicsIff<I(!new)>(u: Upload, f: Inflate<I>, verify: Verify)
    requires WellBehaved(f) && u.Valid()
    ensures CanPanic(u, f, verify) <==> TakesEmpty(u, f)
  {
    hide TakeChunk;
    if TakesEmpty(u, f) {
      var states, steps := EmptyFilePanics(u, f, verify);
    }
    if CanPanic(u, f, verify) && !TakesEmpty(u, f) {
      var states: seq<System<I>>, steps: seq<Step> :| Run(u, f, verify, states, steps) && states[|steps|].host == Panicked;
      NeverPanics(u, f, verify, states, steps);
    }
  }

  lemma NeverPanics<I(!new)>(u: Upload, f: Inflate<I>, verify: Verify, states: seq<System<I>>, steps: seq<Step>)
    requires WellBehaved(f) && u.Valid() && Run(u, f, verify, states, steps) && !TakesEmpty(u, f)
    ensures states[|steps|].host != Panicked
  {
    hide TakesEmpty, TakeChunk, Ideal;
    if |u.file| > 0 {
      SessionIsSafe(u, f, verify, states, steps, |steps|);
    } else {
      EmptyRunKeeps(u, f, verify, states, steps, |steps|);
    }
  }

  /** What holds throughout a session about an empty file that the device does not take. */
  ghost predicate EmptyInv<I(!new)>(u: Upload, f: Inflate<I>, s: System<I>)
  {
    var md := u.metadata;
    && s.host != Panicked
    && (match s.device.phase
        case RequestMetadata => s.device.work == Work(f.init, [], [])
        case AckMetadata(x) => x == md && Loadable(md.format) && s.device.work == Work(f.init, [], [])
        case RequestChunk(which, n, x) =>
          which == 0 && n == 0 && x == md && Loadable(md.format) && s.device.work == Work(f.init, [], [])
        case Boot(_) => false
        case Running => false
        case Aborted => true)
    && (forall m :: m in s.toHost ==> m != Booting && (m.ChunkReq? ==> m.which == 0))
    && (forall m :: m in s.toDevice ==> (m.MetadataOf? ==> m.metadata == md) && (m.Chunk? ==> m.which == 0 && m.bytes == []))
  }

  lemma EmptyStepKeeps<I(!new)>(u: Upload, f: Inflate<I>, verify: Verify, s: System<I>, step: Step)
    requires WellBehaved(f) && u.Valid() && u.file == [] && !TakesEmpty(u, f)
    requires EmptyInv(u, f, s) && Enabled(s, step)
    ensures EmptyInv(u, f, Apply(u, f, verify, s, step))
  {
    hide TakeChunk;
    assert ChunkCount(0) == 0;
  }

  lemma {:induction false} EmptyRunKeeps<I(!new)>(
    u: Upload, f: Inflate<I>, verify: Verify, states: seq<System<I>>, steps: seq<Step>, i: nat)
    requires WellBehaved(f) && u.Valid() && u.file == [] && !TakesEmpty(u, f)
    requires Run(u, f, verify, states, steps) && i < |states|
    ensures EmptyInv(u, f, states[i])
  {
    hide TakesEmpty, TakeChunk, Apply;
    if i > 0 {
      EmptyRunKeeps(u, f, verify, states, steps, i - 1);
      hide EmptyInv;
      EmptyStepKeeps(u, f, verify, states[i - 1], steps[i - 1]);
      assert states[i - 1 + 1] == Apply(u, f, verify, states[i - 1], steps[i - 1]);
    }
  }

  lemma Handshake<I(!new)>(u: Upload, f: Inflate<I>, verify: Verify, s: System<I>, s': System<I>, steps: seq<Step>)
    requires WellBehaved(f) && s == Start(f) && Loadable(u.metadata.format) && |steps| >= 3
    requires steps[0] == Heartbeat && steps[1] == ToHost(MetadataReq) && steps[2] == ToDevice(MetadataOf(u.metadata))
    requires s' == System(Device(AckMetadata(u.metadata), true, s.device.work), Waiting(0),
                          {MetadataReq}, {MetadataOf(u.metadata)})
    ensures ApplyAll(u, f, verify, s, steps) == ApplyAll(u, f, verify, s', steps[3..])
  {
    hide InflateLoop, OnChunk;
    var s1 := s.(toHost := {MetadataReq});
    var s2 := s1.(toDevice := {MetadataOf(u.metadata)});
    ThreeSteps(u, f, verify, s, s1, s2, s', steps);
  }

  lemma ThreeSteps<I(!new)>(
    u: Upload, f: Inflate<I>, verify: Verify,
    s: System<I>, s1: System<I>, s2: System<I>, s3: System<I>, steps: seq<Step>)
    requires WellBehaved(f) && |steps| >= 3
    requires Enabled(s, steps[0]) && s1 == Apply(u, f, verify, s, steps[0])
    requires Enabled(s1, steps[1]) && s2 == Apply(u, f, verify, s1, steps[1])
    requires Enabled(s2, steps[2]) && s3 == Apply(u, f, verify, s2, steps[2])
    ensures ApplyAll(u, f, verify, s, steps) == ApplyAll(u, f, verify, s3, steps[3..])
  {
    hide Apply, Enabled, ApplyAll;
    Step1(u, f, verify, s, steps, s1);
    Step1(u, f, verify, s1, steps[1..], s2);
    Step1(u, f, verify, s2, steps[1..][1..], s3);
    assert steps[1..][1..][1..] == steps[3..];
  }

  lemma MetadataAgreed<I(!new)>(u: Upload, f: Inflate<I>, verify: Verify, s: System<I>, s': System<I>, steps: seq<Step>)
    requires WellBehaved(f) && u.Valid() && u.file == [] && |steps| >= 3
    requires s.device.phase == AckMetadata(u.metadata) && s.host == Waiting(0)
    requires steps[0] == Heartbeat && steps[1] == ToHost(MetadataAck(CHUNK_SIZE, u.metadata))
    requires steps[2] == ToDevice(MetadataAckAck(true))
    requires s' == System(Device(RequestChunk(0, 0, u.metadata), true, s.device.work), Waiting(CHUNK_SIZE),
                          s.toHost + {MetadataAck(CHUNK_SIZE, u.metadata)}, s.toDevice + {MetadataAckAck(true)})
    ensures ApplyAll(u, f, verify, s, steps) == ApplyAll(u, f, verify, s', steps[3..])
  {
    hide InflateLoop, OnChunk;
    var s1 := s.(toHost := s'.toHost);
    var s2 := s1.(host := s'.host, toDevice := s'.toDevice);
    assert ChunkCount(0) == 0;
    ThreeSteps(u, f, verify, s, s1, s2, s', steps);
  }

  lemma EmptyChunkTaken<I(!new)>(u: Upload, f: Inflate<I>, verify: Verify, s: System<I>, s': System<I>, steps: seq<Step>)
    requires WellBehaved(f) && u.file == [] && |steps| >= 3
    requires s.device.phase == RequestChunk(0, 0, u.metadata) && s.host == Waiting(CHUNK_SIZE)
    requires TakeChunk(f, s.device.work, []).Some?
    requires steps[0] == Heartbeat && steps[1] == ToHost(ChunkReq(0)) && steps[2] == ToDevice(Chunk(0, []))
    requires s' == System(Device(RequestChunk(1, 0, u.metadata), true, TakeChunk(f, s.device.work, []).value), s.host,
                          s.toHost + {ChunkReq(0)}, s.toDevice + {Chunk(0, [])})
    ensures ApplyAll(u, f, verify, s, steps) == ApplyAll(u, f, verify, s', steps[3..])
  {
    hide InflateLoop, TakeChunk;
    var s1 := s.(toHost := s'.toHost);
    var s2 := s1.(toDevice := s'.toDevice);
    assert DispatchChunkReq([], CHUNK_SIZE, 0) == Some(Chunk(0, []));
    ThreeSteps(u, f, verify, s, s1, s2, s', steps);
  }

  lemma ChunkOneFails<I(!new)>(u: Upload, f: Inflate<I>, verify: Verify, s: System<I>, steps: seq<Step>)
    requires WellBehaved(f) && u.file == []
    requires s.device.phase == RequestChunk(1, 0, u.metadata) && s.host == Waiting(CHUNK_SIZE)
    requires |steps| == 2 && steps[0] == Heartbeat && steps[1] == ToHost(ChunkReq(1))
    ensures var r := ApplyAll(u, f, verify, s, steps);
            r.Some? && r.value.host == Panicked
  {
    hide InflateLoop, TakeChunk;
    var s1 := s.(toHost := s.toHost + {ChunkReq(1)});
    assert DispatchChunkReq([], CHUNK_SIZE, 1) == None;
    var s2 := s1.(host := Panicked);
    Step1(u, f, verify, s, steps, s1);
    Step1(u, f, verify, s1, steps[1..], s2);
    assert steps[1..][1..] == [];
  }
}
