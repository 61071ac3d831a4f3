/** Bytes, little-endian words and the CRC that the framed serial link is built from. */
module Bytes {

  type byte = x: int | 0 <= x < 256

  const U32_LIMIT := 0x1_0000_0000

  function Min(a: nat, b: nat): nat
  {
    if a < b then a else b
  }

  function Pow2(n: nat): (r: nat)
    ensures r > 0
  {
    if n == 0 then 1 else 2 * Pow2(n - 1)
  }

  /** Exclusive or of the low `n` bits of two numbers. */
  function XorBits(a: nat, b: nat, n: nat): (r: nat)
    requires a < Pow2(n) && b < Pow2(n)
    ensures r < Pow2(n)
  {
    if n == 0 then 0
    else (if a % 2 == b % 2 then 0 else 1) + 2 * XorBits(a / 2, b / 2, n - 1)
  }

  function Xor(a: byte, mask: byte): (r: byte)
  {
    assert Pow2(8) == 256;
    XorBits(a, mask, 8)
  }

  lemma Halves(low: nat, high: nat)
    requires low < 2
    ensures (low + 2 * high) / 2 == high && (low + 2 * high) % 2 == low
  {
  }

  lemma {:induction false} XorBitsTwice(a: nat, b: nat, n: nat)
    requires a < Pow2(n) && b < Pow2(n)
    ensures XorBits(XorBits(a, b, n), b, n) == a
  {
    if n > 0 {
      var high := XorBits(a / 2, b / 2, n - 1);
      Halves(if a % 2 == b % 2 then 0 else 1, high);
      XorBitsTwice(a / 2, b / 2, n - 1);
      assert a == a % 2 + 2 * (a / 2);
    }
  }

  lemma {:induction false} XorBitsZero(b: nat, n: nat)
    requires b < Pow2(n)
    ensures XorBits(0, b, n) == b
  {
    if n > 0 {
      XorBitsZero(b / 2, n - 1);
    }
  }

  /** Masking twice is the identity, and only zero is masked to the mask itself. */
  lemma XorMask(a: byte, mask: byte)
    ensures Xor(Xor(a, mask), mask) == a
    ensures Xor(a, mask) == mask <==> a == 0
  {
    assert Pow2(8) == 256;
    XorBitsTwice(a, mask, 8);
    XorBitsZero(mask, 8);
    XorBitsTwice(0, mask, 8);
  }

  function Masked(s: seq<byte>, mask: byte): (r: seq<byte>)
    ensures |r| == |s|
    ensures forall i :: 0 <= i < |s| ==> r[i] == Xor(s[i], mask)
  {
    seq(|s|, i requires 0 <= i < |s| => Xor(s[i], mask))
  }

  lemma MaskedConcat(s: seq<byte>, t: seq<byte>, mask: byte)
    ensures Masked(s + t, mask) == Masked(s, mask) + Masked(t, mask)
  {
  }

  function ToLe32(n: nat): (r: seq<byte>)
    requires n < U32_LIMIT
    ensures |r| == 4
  {
    [n % 256, n / 256 % 256, n / 256 / 256 % 256, n / 256 / 256 / 256]
  }

  function FromLe32(s: seq<byte>): (n: nat)
    requires |s| == 4
    ensures n < U32_LIMIT
  {
    s[0] + 256 * (s[1] + 256 * (s[2] + 256 * (s[3] as int)))
  }

  lemma Le32RoundTrip(n: nat)
    requires n < U32_LIMIT
    ensures FromLe32(ToLe32(n)) == n
  {
    var a := n / 256;
    var b := a / 256;
    var c := b / 256;
    assert n == n % 256 + 256 * a && a == a % 256 + 256 * b && b == b % 256 + 256 * c;
  }

  function Zeros(n: nat): (r: seq<byte>)
    ensures |r| == n
    ensures forall i :: 0 <= i < n ==> r[i] == 0
  {
    seq(n, _ => 0)
  }

  lemma Assoc<T>(a: seq<T>, b: seq<T>, c: seq<T>)
    ensures (a + b) + c == a + (b + c)
  {
  }

  function Flatten(parts: seq<seq<byte>>): (r: seq<byte>)
  {
    if |parts| == 0 then [] else Flatten(parts[..|parts| - 1]) + parts[|parts| - 1]
  }

  lemma FlattenAppend(parts: seq<seq<byte>>, last: seq<byte>)
    ensures Flatten(parts + [last]) == Flatten(parts) + last
  {
    assert (parts + [last])[..|parts|] == parts;
  }

  /** The parts end to end, taken from the front. */
  function Joined(parts: seq<seq<byte>>): seq<byte>
  {
    if |parts| == 0 then [] else parts[0] + Joined(parts[1..])
  }

  /** A CRC as an incremental hasher: a start value, a step for each byte and a final
      word. Everything about the link holds for every choice of the three. */
  datatype Crc = Crc(init: nat, update: (nat, byte) -> nat, finish: nat -> nat)
  {
    /** The hasher's state after the bytes of `s`, starting from state `h`. */
    function Run(h: nat, s: seq<byte>): nat
    {
      if |s| == 0 then h else update(Run(h, s[..|s| - 1]), s[|s| - 1])
    }

    /** The checksum word of a whole message. */
    function Sum(s: seq<byte>): (r: nat)
      ensures r < U32_LIMIT
    {
      finish(Run(init, s)) % U32_LIMIT
    }

    lemma {:induction false} RunConcat(h: nat, s: seq<byte>, t: seq<byte>)
      ensures Run(h, s + t) == Run(Run(h, s), t)
      decreases |t|
    {
      if |t| == 0 {
        assert s + t == s;
      } else {
        var t', b := t[..|t| - 1], t[|t| - 1];
        RunConcat(h, s, t');
        assert (s + t)[..|s + t| - 1] == s + t' && (s + t)[|s + t| - 1] == b;
      }
    }

    lemma RunAppend(h: nat, s: seq<byte>, b: byte)
      ensures Run(h, s + [b]) == update(Run(h, s), b)
    {
      assert (s + [b])[..|s|] == s;
    }
  }
}
