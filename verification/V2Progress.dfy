/** An upload can always be brought to its end, and which end that is. */
module V2Progress {
  import opened Wrappers
  import opened Bytes
  import opened V2Messages
  import opened V2Device
  import opened V2Session

  /** The device has entered the program and the host has finished; or the device has given up. */
  predicate Over<I>(s: System<I>)
  {
    (s.device.phase.Running? && s.host == Finished) || s.device.phase.Aborted?
  }

  /** How many exchanges are left. */
  function Left(count: nat, p: Phase): nat
  {
    match p
    case RequestMetadata => count + 3
    case AckMetadata(_) => count + 2
    case RequestChunk(which, _, _) => if which < count then count - which + 1 else 1
    case Boot(_) => 1
    case _ => 0
  }

  lemma {:induction false} ApplyAllConcat<I(!new)>(
      u: Upload, f: Inflate<I>, verify: Verify, s: System<I>, first: seq<Step>, second: seq<Step>)
    requires WellBehaved(f) && ApplyAll(u, f, verify, s, first).Some?
    ensures ApplyAll(u, f, verify, s, first + second)
            == ApplyAll(u, f, verify, ApplyAll(u, f, verify, s, first).value, second)
    decreases |first|
  {
    hide Apply, Enabled;
    if |first| == 0 {
      assert first + second == second;
    } else {
      assert (first + second)[1..] == first[1..] + second;
      ApplyAllConcat(u, f, verify, Apply(u, f, verify, s, first[0]), first[1..], second);
    }
  }

  /** What the host answers to what the device's phase makes it repeat. */
  function Answer(u: Upload, h: Host, p: Phase): (Host, Option<HostMessage>)
    requires h.Waiting? && HeartbeatMessage(p).Some?
  {
    HostStep(u, h, HeartbeatMessage(p).value)
  }

  /** One exchange without loss: the device's message, the host's answer, and that delivered. */
  lemma Exchange<I(!new)>(u: Upload, f: Inflate<I>, verify: Verify, s: System<I>) returns (steps: seq<Step>, s': System<I>)
    requires WellBehaved(f) && u.Valid() && |u.file| > 0 && Inv(u, f, verify, s)
    requires s.host.Waiting? && HeartbeatMessage(s.device.phase).Some?
    requires Answer(u, s.host, s.device.phase).1.Some?
    ensures ApplyAll(u, f, verify, s, steps) == Some(s') && Inv(u, f, verify, s')
    ensures var (h, reply) := Answer(u, s.host, s.device.phase);
            s'.host == h && s'.device == HandlePacket(f, verify, s.device, reply.value)
  {
    var m := HeartbeatMessage(s.device.phase).value;
    var reply := Answer(u, s.host, s.device.phase).1.value;
    steps := [Heartbeat, ToHost(m), ToDevice(reply)];
    var s1 := Apply(u, f, verify, s, Heartbeat);
    var s2 := Apply(u, f, verify, s1, ToHost(m));
    s' := Apply(u, f, verify, s2, ToDevice(reply));
    hide Inv, HandlePacket, HostStep;
    StepKeeps(u, f, verify, s, Heartbeat);
    StepKeeps(u, f, verify, s1, ToHost(m));
    StepKeeps(u, f, verify, s2, ToDevice(reply));
    ThreeSteps(u, f, verify, s, s1, s2, s', steps);
    hide Apply;
    assert steps[3..] == [];
    assert ApplyAll(u, f, verify, s', []) == Some(s');
  }

  /** Every exchange is one less to go, and only the last one makes the host finish. */
  lemma ExchangeAdvances<I(!new)>(u: Upload, f: Inflate<I>, verify: Verify, s: System<I>)
    requires WellBehaved(f) && u.Valid() && |u.file| > 0 && Inv(u, f, verify, s)
    requires s.host.Waiting? && HeartbeatMessage(s.device.phase).Some? && Loadable(u.metadata.format)
    ensures var count := ChunkCount(|u.file|);
            var (h, reply) := Answer(u, s.host, s.device.phase);
            && reply.Some?
            && var p' := HandlePacket(f, verify, s.device, reply.value).phase;
               && Left(count, p') < Left(count, s.device.phase)
               && (s.device.phase.Boot? <==> p'.Running?) && (s.device.phase.Boot? <==> h == Finished)
  {
    hide InflateLoop, TakeChunk, Ideal, Loaded;
    var count := ChunkCount(|u.file|);
    ChunkBounds(|u.file|, 0);
    match s.device.phase {
      case RequestChunk(which, n, md) => ChunkIsSliced(u.file, which);
      case _ =>
    }
  }

  /** Whatever metadata the device has taken, one exchange without loss settles it: it goes on to
      the first of the file's chunks if it is the host's, and asks again if it is not. */
  lemma MetadataIsSettled<I(!new)>(u: Upload, f: Inflate<I>, verify: Verify, d: Device<I>, h: Host)
    requires WellBehaved(f) && u.Valid() && h.Waiting? && d.phase.AckMetadata?
    ensures var (h', reply) := Answer(u, h, d.phase);
            && reply.Some?
            && var d' := HandlePacket(f, verify, d, reply.value);
               && d'.work == d.work
               && if d.phase.metadata == u.metadata then
                    h' == Waiting(4096) && d'.phase == RequestChunk(0, ChunkCount(|u.file|), u.metadata)
                  else
                    h' == h && d'.phase == RequestMetadata
  {
  }

  /** From any state that a session keeps to, steps that lead to its end. */
  lemma {:induction false} Ends<I(!new)>(u: Upload, f: Inflate<I>, verify: Verify, s: System<I>)
    returns (steps: seq<Step>, s': System<I>)
    requires WellBehaved(f) && u.Valid() && |u.file| > 0 && Inv(u, f, verify, s) && Loadable(u.metadata.format)
    ensures ApplyAll(u, f, verify, s, steps) == Some(s') && Inv(u, f, verify, s') && Over(s')
    decreases Left(ChunkCount(|u.file|), s.device.phase)
  {
    if HeartbeatMessage(s.device.phase).None? {
      steps, s' := [], s;
    } else if s.host.Waiting? {
      hide Inv, Apply, ApplyAll, HandlePacket, HostStep, Over;
      ExchangeAdvances(u, f, verify, s);
      var first, s1 := Exchange(u, f, verify, s);
      var second, s2 := Ends(u, f, verify, s1);
      ApplyAllConcat(u, f, verify, s, first, second);
      steps, s' := first + second, s2;
    } else {
      steps, s' := [ToDevice(BootingAck)], Apply(u, f, verify, s, ToDevice(BootingAck));
      StepKeeps(u, f, verify, s, ToDevice(BootingAck));
      assert steps[1..] == [];
      assert ApplyAll(u, f, verify, s', []) == Some(s');
    }
  }

  /** From every state of every run of a session with a file that is not empty and may be
      loaded, the session can be brought to its end; and the end is that the device enters the
      program and the host finishes if the file can be inflated and its image is accepted, and
      that the device gives up if not. */
  lemma UploadCanEnd<I(!new)>(
      u: Upload, f: Inflate<I>, verify: Verify, states: seq<System<I>>, steps: seq<Step>)
    returns (states': seq<System<I>>, steps': seq<Step>)
    requires WellBehaved(f) && u.Valid() && |u.file| > 0 && Loadable(u.metadata.format)
    requires Run(u, f, verify, states, steps)
    ensures Run(u, f, verify, states', steps') && steps <= steps'
    ensures var s := states'[|steps'|];
            if Loaded(u, f, verify) then s.device.phase.Running? && s.host == Finished else s.device.phase.Aborted?
  {
    hide Apply, ApplyAll, HandlePacket, HostStep, Loaded, Ideal;
    RunKeeps(u, f, verify, states, steps, |steps|);
    var todo, s := Ends(u, f, verify, states[|steps|]);
    states' := RunOf(u, f, verify, states, steps, todo);
    steps' := steps + todo;
  }

  ghost predicate CanBoot<I(!new)>(u: Upload, f: Inflate<I>, verify: Verify)
    requires WellBehaved(f)
  {
    exists states: seq<System<I>>, steps: seq<Step> :: Run(u, f, verify, states, steps) && states[|steps|].device.phase.Running?
  }

  /** With an empty file no chunk is the last one. */
  ghost predicate NoLast<I(!new)>(u: Upload, s: System<I>)
  {
    && !s.device.phase.Boot? && !s.device.phase.Running?
    && (s.device.phase.AckMetadata? ==> s.device.phase.metadata == u.metadata)
    && (s.device.phase.RequestChunk? ==> s.device.phase.count == 0)
    && (forall m :: m in s.toDevice && m.MetadataOf? ==> m.metadata == u.metadata)
  }

  lemma {:induction false} EmptyNeverBoots<I(!new)>(
      u: Upload, f: Inflate<I>, verify: Verify, states: seq<System<I>>, steps: seq<Step>, i: nat)
    requires WellBehaved(f) && u.Valid() && u.file == [] && Run(u, f, verify, states, steps) && i < |states|
    ensures NoLast(u, states[i])
  {
    hide TakeChunk;
    if i > 0 {
      EmptyNeverBoots(u, f, verify, states, steps, i - 1);
      assert states[i - 1 + 1] == Apply(u, f, verify, states[i - 1], steps[i - 1]);
      assert ChunkCount(0) == 0;
      hide Run;
    }
  }

  /** Some run enters the program if and only if the file is not empty, its metadata may be
      loaded, the whole of it can be inflated and the loader accepts the image. */
  lemma CanBootIff<I(!new)>(u: Upload, f: Inflate<I>, verify: Verify)
    requires WellBehaved(f) && u.Valid()
    ensures CanBoot(u, f, verify) <==> u.file != [] && Loadable(u.metadata.format) && Loaded(u, f, verify)
  {
    hide Loaded, Apply, Ideal;
    if u.file != [] && Loadable(u.metadata.format) && Loaded(u, f, verify) {
      assert Run(u, f, verify, [Start(f)], []);
      var states, steps := UploadCanEnd(u, f, verify, [Start(f)], []);
    }
    if CanBoot(u, f, verify) {
      var states: seq<System<I>>, steps: seq<Step> :| Run(u, f, verify, states, steps) && states[|steps|].device.phase.Running?;
      if u.file == [] {
        EmptyNeverBoots(u, f, verify, states, steps, |steps|);
      } else {
        RunKeeps(u, f, verify, states, steps, |steps|);
      }
    }
  }
}
