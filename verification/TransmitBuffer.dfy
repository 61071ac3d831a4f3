/** The device's transmit queue: a circular buffer with checkpoints and rollback. */
module TransmitBuffers {
  import opened Wrappers
  import opened Bytes

  datatype Checkpoint = Checkpoint(begin: nat, end: nat, len: nat)

  /** Position `k` places after `begin` on a ring of `n` places. */
  function Slot(begin: nat, k: nat, n: nat): (i: nat)
    requires begin < n && k <= n
    ensures i < n
  {
    if begin + k < n then begin + k else begin + k - n
  }

  lemma SlotIsMod(begin: nat, k: nat, n: nat)
    requires begin < n && k <= n
    ensures (begin + k) % n == Slot(begin, k, n)
  {
    if begin + k < n {
      DivUnique(begin + k, n, 0, begin + k);
    } else {
      DivUnique(begin + k, n, 1, begin + k - n);
    }
  }

  lemma DivUnique(a: nat, n: nat, q: nat, r: nat)
    requires n > 0 && r < n && a == n * q + r
    ensures a % n == r
  {
    var q', r' := a / n, a % n;
    assert a == n * q' + r';
    assert q' < q ==> n * (q' + 1) <= n * q;
    assert q < q' ==> n * (q + 1) <= n * q';
  }

  class TransmitBuffer {
    const storage: array<byte>
    var begin: nat
    var end: nat
    var len: nat

    ghost predicate Valid()
      reads this
    {
      var n := storage.Length;
      && len <= n
      && (n == 0 ==> begin == 0 && end == 0)
      && (n > 0 ==> begin < n && end == Slot(begin, len, n))
    }

    /** The queued bytes, oldest first. */
    ghost function Contents(): (s: seq<byte>)
      requires Valid()
      reads this, storage
      ensures |s| == len
    {
      seq(len, i requires 0 <= i < len reads this, storage requires Valid() => storage[Slot(begin, i, storage.Length)])
    }

    constructor (storage: array<byte>)
      ensures Valid() && Contents() == [] && this.storage == storage
    {
      this.storage := storage;
      begin, end, len := 0, 0, 0;
    }

    function RemainingSpace(): (n: nat)
      requires Valid()
      reads this
      ensures n + len == storage.Length
    {
      storage.Length - len
    }

    function WrappedAdd(a: nat, b: nat): (r: (nat, bool))
      requires storage.Length > 0
      ensures r.0 < storage.Length
    {
      var i := (a + b) % storage.Length;
      (i, i < a + b)
    }

    method PushByteAt(offset: nat, b: byte) returns (next: nat)
      requires offset < storage.Length
      modifies storage
      ensures storage[..] == old(storage[..])[offset := b]
      ensures next == Slot(offset, 1, storage.Length)
    {
      storage[offset] := b;
      SlotIsMod(offset, 1, storage.Length);
      next := WrappedAdd(offset, 1).0;
    }

    /** Writes `bytes` from `offset` on, wrapping around the end of the storage. */
    method WriteBytesAt(offset: nat, bytes: seq<byte>) returns (next: nat)
      requires |bytes| <= storage.Length
      requires |bytes| > 0 ==> offset < storage.Length
      modifies storage
      ensures forall k :: 0 <= k < |bytes| ==> storage[Slot(offset, k, storage.Length)] == bytes[k]
      ensures forall p :: 0 <= p < storage.Length
                          && (forall k :: 0 <= k < |bytes| ==> p != Slot(offset, k, storage.Length))
                          ==> storage[p] == old(storage[p])
    {
      next := offset;
      for i := 0 to |bytes|
        invariant |bytes| > 0 ==> next == Slot(offset, i, storage.Length)
        invariant forall k :: 0 <= k < i ==> storage[Slot(offset, k, storage.Length)] == bytes[k]
        invariant forall p :: 0 <= p < storage.Length
                              && (forall k :: 0 <= k < i ==> p != Slot(offset, k, storage.Length))
                              ==> storage[p] == old(storage[p])
      {
        next := PushByteAt(next, bytes[i]);
      }
    }

    /** Overwrites `bytes` in place, `k` places behind the front of the queue. */
    method Patch(offset: nat, ghost k: nat, bytes: seq<byte>)
      requires Valid() && |bytes| > 0
      requires k + |bytes| <= len && offset == Slot(begin, k, storage.Length)
      modifies storage
      ensures Valid()
      ensures Contents() == old(Contents())[..k] + bytes + old(Contents())[k + |bytes|..]
    {
      ghost var n := storage.Length;
      var _ := WriteBytesAt(offset, bytes);
      forall i | 0 <= i < len
        ensures Contents()[i] == (old(Contents())[..k] + bytes + old(Contents())[k + |bytes|..])[i]
      {
        if k <= i < k + |bytes| {
          assert Slot(begin, i, n) == Slot(offset, i - k, n);
        } else {
          assert forall j :: 0 <= j < |bytes| ==> Slot(begin, i, n) != Slot(offset, j, n);
        }
      }
    }

    method PushByte(b: byte) returns (ok: bool)
      requires Valid()
      modifies this, storage
      ensures Valid() && begin == old(begin)
      ensures ok == (old(len) < storage.Length)
      ensures Contents() == old(Contents()) + (if ok then [b] else [])
    {
      if len == storage.Length {
        ok := false;
      } else {
        end := PushByteAt(end, b);
        len := len + 1;
        ok := true;
        assert Contents()[..old(len)] == old(Contents());
      }
    }

    /** All of `src`, or nothing. */
    method ExtendFromSlice(src: seq<byte>) returns (ok: bool)
      requires Valid()
      modifies this, storage
      ensures Valid() && begin == old(begin)
      ensures ok <==> |src| <= old(RemainingSpace())
      ensures Contents() == old(Contents()) + (if ok then src else [])
    {
      if |src| <= RemainingSpace() {
        for i := 0 to |src|
          invariant Valid() && begin == old(begin)
          invariant Contents() == old(Contents()) + src[..i]
        {
          var pushed := PushByte(src[i]);
          assert src[..i + 1] == src[..i] + [src[i]];
          Assoc(old(Contents()), src[..i], [src[i]]);
        }
        assert src[..|src|] == src;
        ok := true;
      } else {
        ok := false;
      }
    }

    /** Lengthens the queue by `n` bytes that are still to be written. */
    method Reserve(n: nat) returns (at: Option<nat>)
      requires Valid() && (n > 0 || storage.Length > 0)
      modifies this
      ensures Valid() && begin == old(begin)
      ensures at.Some? <==> n <= old(RemainingSpace())
      ensures at.Some? ==>
                && len == old(len) + n && Contents()[..old(len)] == old(Contents())
                && at.value == Slot(begin, old(len), storage.Length)
      ensures at.None? ==> Contents() == old(Contents())
    {
      if n <= RemainingSpace() {
        at := Some(end);
        SlotIsMod(end, n, storage.Length);
        end := WrappedAdd(end, n).0;
        len := len + n;
      } else {
        at := None;
      }
    }

    method ShiftByte() returns (b: Option<byte>)
      requires Valid()
      modifies this, storage
      ensures Valid()
      ensures b.Some? <==> old(len) > 0
      ensures old(Contents()) == (if b.Some? then [b.value] else []) + Contents()
    {
      if len > 0 {
        b := Some(storage[begin]);
        storage[begin] := 0;
        SlotIsMod(begin, 1, storage.Length);
        begin := WrappedAdd(begin, 1).0;
        len := len - 1;
        ghost var was := old(Contents());
        assert was[0] == b.value;
        forall i | 0 <= i < len
          ensures Contents()[i] == was[i + 1]
        {
          assert Slot(begin, i, storage.Length) == Slot(old(begin), i + 1, storage.Length);
        }
        assert was == [was[0]] + was[1..];
        assert Contents() == was[1..];
      } else {
        b := None;
        assert old(Contents()) == [] + Contents();
      }
    }

    function TakeCheckpoint(): Checkpoint
      reads this
    {
      Checkpoint(begin, end, len)
    }

    /** The checkpoint was taken before some of the queued bytes and after the others. */
    ghost predicate Covers(cp: Checkpoint)
      requires Valid()
      reads this
    {
      && cp.begin == begin && cp.len <= len
      && (storage.Length > 0 ==> cp.end == Slot(begin, cp.len, storage.Length))
      && (storage.Length == 0 ==> cp.end == 0)
    }

    /** Exact unless the ring has been filled from empty: then the two ends coincide. */
    function BytesSince(cp: Checkpoint): (n: nat)
      requires Valid() && Covers(cp)
      reads this
      ensures n == if len - cp.len == storage.Length then 0 else len - cp.len
    {
      if end < cp.end then storage.Length - cp.end + end else end - cp.end
    }

    /** Forgets, and overwrites with zeros, what was queued after the checkpoint. */
    method Restore(cp: Checkpoint)
      requires Valid() && Covers(cp)
      modifies this, storage
      ensures Valid() && TakeCheckpoint() == cp
      ensures Contents() == old(Contents())[..cp.len]
    {
      ghost var n := storage.Length;
      var _ := WriteBytesAt(cp.end, Zeros(BytesSince(cp)));
      begin, end, len := cp.begin, cp.end, cp.len;
      forall i | 0 <= i < len
        ensures Contents()[i] == old(Contents())[i]
      {
        assert forall j :: 0 <= j < old(BytesSince(cp)) ==> Slot(begin, i, n) != Slot(cp.end, j, n);
      }
    }
  }
}
