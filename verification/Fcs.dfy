/** The frame check sequence of PPP in HDLC-like framing (Appendix C.2 of RFC 1662), computed
    with a table, against the polynomial division it stands for. */
module Fcs {

  type octet = bv8

  // ----- The table -------------------------------------------------------------------

  function Row0(lo: bv8): bv16
  {
    if lo == 0 then 0x0000 else if lo == 1 then 0x1189 else if lo == 2 then 0x2312 else if lo == 3 then 0x329b else
    if lo == 4 then 0x4624 else if lo == 5 then 0x57ad else if lo == 6 then 0x6536 else if lo == 7 then 0x74bf else
    if lo == 8 then 0x8c48 else if lo == 9 then 0x9dc1 else if lo == 10 then 0xaf5a else if lo == 11 then 0xbed3 else
    if lo == 12 then 0xca6c else if lo == 13 then 0xdbe5 else if lo == 14 then 0xe97e else 0xf8f7
  }

  function Row1(lo: bv8): bv16
  {
    if lo == 0 then 0x1081 else if lo == 1 then 0x0108 else if lo == 2 then 0x3393 else if lo == 3 then 0x221a else
    if lo == 4 then 0x56a5 else if lo == 5 then 0x472c else if lo == 6 then 0x75b7 else if lo == 7 then 0x643e else
    if lo == 8 then 0x9cc9 else if lo == 9 then 0x8d40 else if lo == 10 then 0xbfdb else if lo == 11 then 0xae52 else
    if lo == 12 then 0xdaed else if lo == 13 then 0xcb64 else if lo == 14 then 0xf9ff else 0xe876
  }

  function Row2(lo: bv8): bv16
  {
    if lo == 0 then 0x2102 else if lo == 1 then 0x308b else if lo == 2 then 0x0210 else if lo == 3 then 0x1399 else
    if lo == 4 then 0x6726 else if lo == 5 then 0x76af else if lo == 6 then 0x4434 else if lo == 7 then 0x55bd else
    if lo == 8 then 0xad4a else if lo == 9 then 0xbcc3 else if lo == 10 then 0x8e58 else if lo == 11 then 0x9fd1 else
    if lo == 12 then 0xeb6e else if lo == 13 then 0xfae7 else if lo == 14 then 0xc87c else 0xd9f5
  }

  function Row3(lo: bv8): bv16
  {
    if lo == 0 then 0x3183 else if lo == 1 then 0x200a else if lo == 2 then 0x1291 else if lo == 3 then 0x0318 else
    if lo == 4 then 0x77a7 else if lo == 5 then 0x662e else if lo == 6 then 0x54b5 else if lo == 7 then 0x453c else
    if lo == 8 then 0xbdcb else if lo == 9 then 0xac42 else if lo == 10 then 0x9ed9 else if lo == 11 then 0x8f50 else
    if lo == 12 then 0xfbef else if lo == 13 then 0xea66 else if lo == 14 then 0xd8fd else 0xc974
  }

  function Row4(lo: bv8): bv16
  {
    if lo == 0 then 0x4204 else if lo == 1 then 0x538d else if lo == 2 then 0x6116 else if lo == 3 then 0x709f else
    if lo == 4 then 0x0420 else if lo == 5 then 0x15a9 else if lo == 6 then 0x2732 else if lo == 7 then 0x36bb else
    if lo == 8 then 0xce4c else if lo == 9 then 0xdfc5 else if lo == 10 then 0xed5e else if lo == 11 then 0xfcd7 else
    if lo == 12 then 0x8868 else if lo == 13 then 0x99e1 else if lo == 14 then 0xab7a else 0xbaf3
  }

  function Row5(lo: bv8): bv16
  {
    if lo == 0 then 0x5285 else if lo == 1 then 0x430c else if lo == 2 then 0x7197 else if lo == 3 then 0x601e else
    if lo == 4 then 0x14a1 else if lo == 5 then 0x0528 else if lo == 6 then 0x37b3 else if lo == 7 then 0x263a else
    if lo == 8 then 0xdecd else if lo == 9 then 0xcf44 else if lo == 10 then 0xfddf else if lo == 11 then 0xec56 else
    if lo == 12 then 0x98e9 else if lo == 13 then 0x8960 else if lo == 14 then 0xbbfb else 0xaa72
  }

  function Row6(lo: bv8): bv16
  {
    if lo == 0 then 0x6306 else if lo == 1 then 0x728f else if lo == 2 then 0x4014 else if lo == 3 then 0x519d else
    if lo == 4 then 0x2522 else if lo == 5 then 0x34ab else if lo == 6 then 0x0630 else if lo == 7 then 0x17b9 else
    if lo == 8 then 0xef4e else if lo == 9 then 0xfec7 else if lo == 10 then 0xcc5c else if lo == 11 then 0xddd5 else
    if lo == 12 then 0xa96a else if lo == 13 then 0xb8e3 else if lo == 14 then 0x8a78 else 0x9bf1
  }

  function Row7(lo: bv8): bv16
  {
    if lo == 0 then 0x7387 else if lo == 1 then 0x620e else if lo == 2 then 0x5095 else if lo == 3 then 0x411c else
    if lo == 4 then 0x35a3 else if lo == 5 then 0x242a else if lo == 6 then 0x16b1 else if lo == 7 then 0x0738 else
    if lo == 8 then 0xffcf else if lo == 9 then 0xee46 else if lo == 10 then 0xdcdd else if lo == 11 then 0xcd54 else
    if lo == 12 then 0xb9eb else if lo == 13 then 0xa862 else if lo == 14 then 0x9af9 else 0x8b70
  }

  function Row8(lo: bv8): bv16
  {
    if lo == 0 then 0x8408 else if lo == 1 then 0x9581 else if lo == 2 then 0xa71a else if lo == 3 then 0xb693 else
    if lo == 4 then 0xc22c else if lo == 5 then 0xd3a5 else if lo == 6 then 0xe13e else if lo == 7 then 0xf0b7 else
    if lo == 8 then 0x0840 else if lo == 9 then 0x19c9 else if lo == 10 then 0x2b52 else if lo == 11 then 0x3adb else
    if lo == 12 then 0x4e64 else if lo == 13 then 0x5fed else if lo == 14 then 0x6d76 else 0x7cff
  }

  function Row9(lo: bv8): bv16
  {
    if lo == 0 then 0x9489 else if lo == 1 then 0x8500 else if lo == 2 then 0xb79b else if lo == 3 then 0xa612 else
    if lo == 4 then 0xd2ad else if lo == 5 then 0xc324 else if lo == 6 then 0xf1bf else if lo == 7 then 0xe036 else
    if lo == 8 then 0x18c1 else if lo == 9 then 0x0948 else if lo == 10 then 0x3bd3 else if lo == 11 then 0x2a5a else
    if lo == 12 then 0x5ee5 else if lo == 13 then 0x4f6c else if lo == 14 then 0x7df7 else 0x6c7e
  }

  function RowA(lo: bv8): bv16
  {
    if lo == 0 then 0xa50a else if lo == 1 then 0xb483 else if lo == 2 then 0x8618 else if lo == 3 then 0x9791 else
    if lo == 4 then 0xe32e else if lo == 5 then 0xf2a7 else if lo == 6 then 0xc03c else if lo == 7 then 0xd1b5 else
    if lo == 8 then 0x2942 else if lo == 9 then 0x38cb else if lo == 10 then 0x0a50 else if lo == 11 then 0x1bd9 else
    if lo == 12 then 0x6f66 else if lo == 13 then 0x7eef else if lo == 14 then 0x4c74 else 0x5dfd
  }

  function RowB(lo: bv8): bv16
  {
    if lo == 0 then 0xb58b else if lo == 1 then 0xa402 else if lo == 2 then 0x9699 else if lo == 3 then 0x8710 else
    if lo == 4 then 0xf3af else if lo == 5 then 0xe226 else if lo == 6 then 0xd0bd else if lo == 7 then 0xc134 else
    if lo == 8 then 0x39c3 else if lo == 9 then 0x284a else if lo == 10 then 0x1ad1 else if lo == 11 then 0x0b58 else
    if lo == 12 then 0x7fe7 else if lo == 13 then 0x6e6e else if lo == 14 then 0x5cf5 else 0x4d7c
  }

  function RowC(lo: bv8): bv16
  {
    if lo == 0 then 0xc60c else if lo == 1 then 0xd785 else if lo == 2 then 0xe51e else if lo == 3 then 0xf497 else
    if lo == 4 then 0x8028 else if lo == 5 then 0x91a1 else if lo == 6 then 0xa33a else if lo == 7 then 0xb2b3 else
    if lo == 8 then 0x4a44 else if lo == 9 then 0x5bcd else if lo == 10 then 0x6956 else if lo == 11 then 0x78df else
    if lo == 12 then 0x0c60 else if lo == 13 then 0x1de9 else if lo == 14 then 0x2f72 else 0x3efb
  }

  function RowD(lo: bv8): bv16
  {
    if lo == 0 then 0xd68d else if lo == 1 then 0xc704 else if lo == 2 then 0xf59f else if lo == 3 then 0xe416 else
    if lo == 4 then 0x90a9 else if lo == 5 then 0x8120 else if lo == 6 then 0xb3bb else if lo == 7 then 0xa232 else
    if lo == 8 then 0x5ac5 else if lo == 9 then 0x4b4c else if lo == 10 then 0x79d7 else if lo == 11 then 0x685e else
    if lo == 12 then 0x1ce1 else if lo == 13 then 0x0d68 else if lo == 14 then 0x3ff3 else 0x2e7a
  }

  function RowE(lo: bv8): bv16
  {
    if lo == 0 then 0xe70e else if lo == 1 then 0xf687 else if lo == 2 then 0xc41c else if lo == 3 then 0xd595 else
    if lo == 4 then 0xa12a else if lo == 5 then 0xb0a3 else if lo == 6 then 0x8238 else if lo == 7 then 0x93b1 else
    if lo == 8 then 0x6b46 else if lo == 9 then 0x7acf else if lo == 10 then 0x4854 else if lo == 11 then 0x59dd else
    if lo == 12 then 0x2d62 else if lo == 13 then 0x3ceb else if lo == 14 then 0x0e70 else 0x1ff9
  }

  function RowF(lo: bv8): bv16
  {
    if lo == 0 then 0xf78f else if lo == 1 then 0xe606 else if lo == 2 then 0xd49d else if lo == 3 then 0xc514 else
    if lo == 4 then 0xb1ab else if lo == 5 then 0xa022 else if lo == 6 then 0x92b9 else if lo == 7 then 0x8330 else
    if lo == 8 then 0x7bc7 else if lo == 9 then 0x6a4e else if lo == 10 then 0x58d5 else if lo == 11 then 0x495c else
    if lo == 12 then 0x3de3 else if lo == 13 then 0x2c6a else if lo == 14 then 0x1ef1 else 0x0f78
  }

  function FcsTable(i: bv8): bv16
  {
    var hi, lo := i >> 4, i & 0xf;
    if hi == 0 then Row0(lo) else if hi == 1 then Row1(lo) else if hi == 2 then Row2(lo) else
    if hi == 3 then Row3(lo) else if hi == 4 then Row4(lo) else if hi == 5 then Row5(lo) else
    if hi == 6 then Row6(lo) else if hi == 7 then Row7(lo) else if hi == 8 then Row8(lo) else
    if hi == 9 then Row9(lo) else if hi == 10 then RowA(lo) else if hi == 11 then RowB(lo) else
    if hi == 12 then RowC(lo) else if hi == 13 then RowD(lo) else if hi == 14 then RowE(lo) else
    RowF(lo)
  }

  // ----- Division by the generator, bit by bit ---------------------------------------

  /** One bit of the division, least significant bit first. */
  function DivideBit(x: bv16): bv16
  {
    if x & 1 == 1 then (x >> 1) ^ 0x8408 else x >> 1
  }

  function DivideByte(x: bv16): bv16
  {
    DivideBit(DivideBit(DivideBit(DivideBit(DivideBit(DivideBit(DivideBit(DivideBit(x))))))))
  }

  function Xor16(a: bv16, b: bv16): bv16
  {
    a ^ b
  }

  function Wide(b: octet): bv16
  {
    b as bv16
  }

  function Low(x: bv16): octet
  {
    (x & 0xff) as bv8
  }

  function High(x: bv16): octet
  {
    (x >> 8) as bv8
  }

  function BitStep(fcs: bv16, b: octet): bv16
  {
    DivideByte(Xor16(fcs, Wide(b)))
  }

  /** The reference: the remainder after the bytes of `s`. */
  function Remainder(fcs: bv16, s: seq<octet>): bv16
  {
    if |s| == 0 then fcs else BitStep(Remainder(fcs, s[..|s| - 1]), s[|s| - 1])
  }

  lemma LowerTable(i: bv8)
    requires i < 0x80
    ensures FcsTable(i) == DivideByte(Wide(i))
  {
  }

  lemma UpperTable(i: bv8)
    requires i >= 0x80
    ensures FcsTable(i) == DivideByte(Wide(i))
  {
  }

  lemma TableIsDivision(i: bv8)
    ensures FcsTable(i) == DivideByte(Wide(i))
  {
    hide FcsTable, DivideByte;
    if i < 0x80 {
      LowerTable(i);
    } else {
      UpperTable(i);
    }
  }

  // ----- The table-driven computation ------------------------------------------------

  function TableStep(fcs: bv16, b: octet): bv16
  {
    Xor16(Wide(High(fcs)), FcsTable(Low(Xor16(fcs, Wide(b)))))
  }

  lemma XorMoves(a: bv16, b: bv16, p: bv16)
    ensures (a ^ b) ^ p == (a ^ p) ^ b
    ensures (a ^ b) ^ p == a ^ (b ^ p)
    ensures (a ^ p) ^ (b ^ p) == a ^ b
  {
  }

  lemma ShiftXor(x: bv16, y: bv16)
    ensures (x ^ y) >> 1 == (x >> 1) ^ (y >> 1)
    ensures ((x ^ y) & 1 == 1) <==> ((x & 1 == 1) != (y & 1 == 1))
  {
  }

  lemma DivideBitXor(x: bv16, y: bv16)
    ensures DivideBit(Xor16(x, y)) == Xor16(DivideBit(x), DivideBit(y))
  {
    ShiftXor(x, y);
    XorMoves(x >> 1, y >> 1, 0x8408);
  }

  /** Division is linear. */
  lemma DivideByteXor(x: bv16, y: bv16)
    ensures DivideByte(Xor16(x, y)) == Xor16(DivideByte(x), DivideByte(y))
  {
    hide DivideBit, Xor16;
    var x1, y1 := DivideBit(x), DivideBit(y);
    var x2, y2 := DivideBit(x1), DivideBit(y1);
    var x3, y3 := DivideBit(x2), DivideBit(y2);
    var x4, y4 := DivideBit(x3), DivideBit(y3);
    var x5, y5 := DivideBit(x4), DivideBit(y4);
    var x6, y6 := DivideBit(x5), DivideBit(y5);
    var x7, y7 := DivideBit(x6), DivideBit(y6);
    DivideBitXor(x, y);
    DivideBitXor(x1, y1);
    DivideBitXor(x2, y2);
    DivideBitXor(x3, y3);
    DivideBitXor(x4, y4);
    DivideBitXor(x5, y5);
    DivideBitXor(x6, y6);
    DivideBitXor(x7, y7);
  }

  /** A high byte only moves. */
  lemma HighByteMoves(x: bv16)
    ensures DivideByte(x & 0xff00) == Wide(High(x))
  {
  }

  lemma ByteParts(x: bv16)
    ensures x == Xor16(x & 0xff00, Wide(Low(x)))
  {
  }

  lemma HighKept(fcs: bv16, b: octet)
    ensures High(Xor16(fcs, Wide(b))) == High(fcs)
  {
  }

  /** One step through the table is eight steps of the division. */
  lemma TableStepIsBitStep(fcs: bv16, b: octet)
    ensures TableStep(fcs, b) == BitStep(fcs, b)
  {
    hide DivideByte, FcsTable, Xor16, Wide, Low, High;
    var x := Xor16(fcs, Wide(b));
    ByteParts(x);
    HighKept(fcs, b);
    TableIsDivision(Low(x));
    DivideByteXor(x & 0xff00, Wide(Low(x)));
    HighByteMoves(x);
  }

  /** The table-driven loop computes the remainder of the bitwise division. */
  method PppFcs16(init: bv16, buf: seq<octet>) returns (fcs: bv16)
    ensures fcs == Remainder(init, buf)
  {
    hide BitStep, TableStep;
    fcs := init;
    for i := 0 to |buf|
      invariant fcs == Remainder(init, buf[..i])
    {
      TableStepIsBitStep(fcs, buf[i]);
      RemainderSnoc(init, buf[..i], buf[i]);
      assert buf[..i + 1] == buf[..i] + [buf[i]];
      fcs := TableStep(fcs, buf[i]);
    }
    assert buf[..|buf|] == buf;
  }

  const INIT: bv16 := 0xffff
  const GOOD: bv16 := 0xf0b8

  function CalcFcs(s: seq<octet>): bv16
  {
    Xor16(Remainder(INIT, s), 0xffff)
  }

  function FromLe(lo: octet, hi: octet): bv16
  {
    (lo as bv16) | ((hi as bv16) << 8)
  }

  lemma LeRoundTrip(x: bv16)
    ensures FromLe(Low(x), High(x)) == x
  {
  }

  lemma LeParts(lo: octet, hi: octet)
    ensures Low(FromLe(lo, hi)) == lo && High(FromLe(lo, hi)) == hi
  {
  }

  lemma RemainderSnoc(fcs: bv16, s: seq<octet>, b: octet)
    ensures Remainder(fcs, s + [b]) == BitStep(Remainder(fcs, s), b)
  {
    assert (s + [b])[..|s|] == s;
  }

  lemma {:induction false} RemainderConcat(fcs: bv16, s: seq<octet>, t: seq<octet>)
    ensures Remainder(fcs, s + t) == Remainder(Remainder(fcs, s), t)
    decreases |t|
  {
    hide BitStep;
    if |t| == 0 {
      assert s + t == s;
    } else {
      var t', b := t[..|t| - 1], t[|t| - 1];
      RemainderConcat(fcs, s, t');
      assert s + t == (s + t') + [b] && t == t' + [b];
      RemainderSnoc(fcs, s + t', b);
      RemainderSnoc(Remainder(fcs, s), t', b);
    }
  }

  lemma ComplementCancels(fcs: bv16)
    ensures BitStep(BitStep(fcs, Low(Xor16(fcs, 0xffff))), High(Xor16(fcs, 0xffff))) == GOOD
  {
  }

  /** Followed by its own check sequence, low byte first, every message leaves the same
      remainder. */
  lemma GoodResidue(s: seq<octet>)
    ensures var c := CalcFcs(s); Remainder(INIT, s + [Low(c), High(c)]) == GOOD
  {
    hide BitStep, Low, High;
    var r := Remainder(INIT, s);
    var c := CalcFcs(s);
    ComplementCancels(r);
    RemainderSnoc(INIT, s, Low(c));
    RemainderSnoc(INIT, s + [Low(c)], High(c));
    assert s + [Low(c)] + [High(c)] == s + [Low(c), High(c)];
  }

  // ----- Error detection -------------------------------------------------------------

  /** Division by eight places can be undone, so nothing is forgotten. */
  function UndivideBit(x: bv16): bv16
  {
    if x & 0x8000 == 0x8000 then ((x ^ 0x8408) << 1) | 1 else x << 1
  }

  lemma UndivideDivide(x: bv16)
    ensures UndivideBit(DivideBit(x)) == x
  {
  }

  lemma DivideBitInjective(x: bv16, y: bv16)
    requires DivideBit(x) == DivideBit(y)
    ensures x == y
  {
    hide DivideBit, UndivideBit;
    UndivideDivide(x);
    UndivideDivide(y);
  }

  lemma DivideByteInjective(x: bv16, y: bv16)
    requires DivideByte(x) == DivideByte(y)
    ensures x == y
  {
    hide DivideBit;
    var x1, y1 := DivideBit(x), DivideBit(y);
    var x2, y2 := DivideBit(x1), DivideBit(y1);
    var x3, y3 := DivideBit(x2), DivideBit(y2);
    var x4, y4 := DivideBit(x3), DivideBit(y3);
    var x5, y5 := DivideBit(x4), DivideBit(y4);
    var x6, y6 := DivideBit(x5), DivideBit(y5);
    var x7, y7 := DivideBit(x6), DivideBit(y6);
    DivideBitInjective(x7, y7);
    DivideBitInjective(x6, y6);
    DivideBitInjective(x5, y5);
    DivideBitInjective(x4, y4);
    DivideBitInjective(x3, y3);
    DivideBitInjective(x2, y2);
    DivideBitInjective(x1, y1);
    DivideBitInjective(x, y);
  }

  lemma XorCancels(f: bv16, g: bv16, x: bv16)
    requires Xor16(f, x) == Xor16(g, x)
    ensures f == g
  {
    assert (f ^ x) ^ x == f && (g ^ x) ^ x == g;
  }

  lemma BitStepInjective(f: bv16, g: bv16, b: octet)
    requires BitStep(f, b) == BitStep(g, b)
    ensures f == g
  {
    hide DivideByte, Xor16, Wide;
    DivideByteInjective(Xor16(f, Wide(b)), Xor16(g, Wide(b)));
    XorCancels(f, g, Wide(b));
  }

  lemma {:induction false} RemainderInjective(f: bv16, g: bv16, s: seq<octet>)
    requires Remainder(f, s) == Remainder(g, s)
    ensures f == g
    decreases |s|
  {
    hide BitStep;
    if |s| > 0 {
      var s', b := s[..|s| - 1], s[|s| - 1];
      BitStepInjective(Remainder(f, s'), Remainder(g, s'), b);
      RemainderInjective(f, g, s');
    }
  }

  /** Only a zero byte leaves nothing in the high half. */
  lemma HighHalf(e: bv8)
    requires High(DivideByte(Wide(e))) == 0
    ensures e == 0
  {
  }

  lemma SameHigh(p: bv16, q: bv16, b: octet, d: octet)
    requires Xor16(p, Wide(b)) == Xor16(q, Wide(d))
    ensures High(Xor16(p, q)) == 0
    ensures p == q ==> b == d
  {
  }

  lemma ByteXor(f: bv16, a: octet, c: octet)
    ensures Xor16(Xor16(f, Wide(a)), Xor16(f, Wide(c))) == Wide(a ^ c)
    ensures a ^ c == 0 ==> a == c
  {
  }

  lemma TwoBytesDiffer(f: bv16, a: octet, b: octet, c: octet, d: octet)
    requires BitStep(BitStep(f, a), b) == BitStep(BitStep(f, c), d)
    ensures a == c && b == d
  {
    hide DivideByte, Xor16, Wide, High;
    var x, y := Xor16(f, Wide(a)), Xor16(f, Wide(c));
    DivideByteInjective(Xor16(DivideByte(x), Wide(b)), Xor16(DivideByte(y), Wide(d)));
    SameHigh(DivideByte(x), DivideByte(y), b, d);
    DivideByteXor(x, y);
    ByteXor(f, a, c);
    HighHalf(a ^ c);
  }

  /** Two messages of the same length that differ, but only within two neighbouring bytes,
      never have the same check sequence: every error burst that stays within two bytes is
      found. */
  lemma BurstIsDetected(pre: seq<octet>, a: octet, b: octet, c: octet, d: octet, post: seq<octet>)
    requires CalcFcs(pre + [a, b] + post) == CalcFcs(pre + [c, d] + post)
    ensures a == c && b == d
  {
    hide BitStep;
    var f := Remainder(INIT, pre);
    var s, t := pre + [a, b] + post, pre + [c, d] + post;
    assert Remainder(INIT, s) == Remainder(INIT, t) by {
      XorCancels(Remainder(INIT, s), Remainder(INIT, t), 0xffff);
    }
    TwoMore(pre, a, b);
    TwoMore(pre, c, d);
    RemainderConcat(INIT, pre + [a, b], post);
    RemainderConcat(INIT, pre + [c, d], post);
    RemainderInjective(BitStep(BitStep(f, a), b), BitStep(BitStep(f, c), d), post);
    TwoBytesDiffer(f, a, b, c, d);
  }

  lemma TwoMore(s: seq<octet>, a: octet, b: octet)
    ensures Remainder(INIT, s + [a, b]) == BitStep(BitStep(Remainder(INIT, s), a), b)
  {
    hide BitStep;
    RemainderSnoc(INIT, s, a);
    RemainderSnoc(INIT, s + [a], b);
    assert s + [a] + [b] == s + [a, b];
  }

  // ----- Bursts of sixteen bits ------------------------------------------------------

  function DivideBits(x: bv16, n: nat): bv16
    decreases n
  {
    if n == 0 then x else DivideBits(DivideBit(x), n - 1)
  }

  lemma {:induction false} DivideBitsInjective(x: bv16, y: bv16, n: nat)
    requires DivideBits(x, n) == DivideBits(y, n)
    ensures x == y
    decreases n
  {
    hide DivideBit;
    if n > 0 {
      DivideBitsInjective(DivideBit(x), DivideBit(y), n - 1);
      DivideBitInjective(x, y);
    }
  }

  lemma {:induction false} DivideBitsSplit(x: bv16, m: nat, n: nat)
    ensures DivideBits(x, m + n) == DivideBits(DivideBits(x, m), n)
    decreases m
  {
    hide DivideBit;
    if m > 0 {
      DivideBitsSplit(DivideBit(x), m - 1, n);
    }
  }

  lemma SixteenBits(x: bv16)
    ensures DivideByte(DivideByte(x)) == DivideBits(x, 16)
  {
    hide DivideByte;
    DivideBitsSplit(x, 8, 8);
    EightBits(x);
    EightBits(DivideByte(x));
  }

  lemma EightBits(x: bv16)
    ensures DivideByte(x) == DivideBits(x, 8)
  {
    hide DivideBit;
    var x1 := DivideBit(x);
    var x2 := DivideBit(x1);
    var x3 := DivideBit(x2);
    var x4 := DivideBit(x3);
    var x5 := DivideBit(x4);
    var x6 := DivideBit(x5);
    var x7 := DivideBit(x6);
    assert DivideBits(x, 8) == DivideBits(x2, 6);
    assert DivideBits(x2, 6) == DivideBits(x4, 4);
    assert DivideBits(x4, 4) == DivideBits(x6, 2);
    assert DivideBits(x6, 2) == DivideBit(x7);
  }

  /** The lowest `n` bits are zero. */
  predicate LowZero(x: bv16, n: nat)
    decreases n
  {
    n == 0 || (x & 1 == 0 && LowZero(x >> 1, n - 1))
  }

  function Drop(x: bv16, n: nat): bv16
    decreases n
  {
    if n == 0 then x else Drop(x >> 1, n - 1)
  }

  /** Dividing only moves what is zero at its low end. */
  lemma {:induction false} DivideLowZero(x: bv16, n: nat)
    requires LowZero(x, n)
    ensures DivideBits(x, n) == Drop(x, n)
    decreases n
  {
    if n > 0 {
      assert DivideBit(x) == x >> 1;
      DivideLowZero(x >> 1, n - 1);
    }
  }

  /** The highest `n` bits are zero. */
  predicate HighZero(x: bv16, n: nat)
    decreases n
  {
    n == 0 || (x & 0x8000 == 0 && HighZero(x << 1, n - 1))
  }

  function Lift(x: bv16, n: nat): bv16
    decreases n
  {
    if n == 0 then x else Lift(x << 1, n - 1)
  }

  /** What is lifted into free room comes down again by dividing. */
  lemma {:induction false} DivideLift(x: bv16, n: nat)
    requires HighZero(x, n)
    ensures DivideBits(Lift(x, n), n) == x
    decreases n
  {
    hide DivideBit;
    if n > 0 {
      DivideLift(x << 1, n - 1);
      DivideBitsSplit(Lift(x, n), n - 1, 1);
      ShiftedDown(x);
    }
  }

  lemma ShiftedDown(x: bv16)
    requires x & 0x8000 == 0
    ensures DivideBit(x << 1) == x && DivideBits(x << 1, 1) == x
    ensures (x << 1) & 1 == 0 && (x << 1) >> 1 == x
  {
  }

  lemma {:induction false} LiftLeavesZeros(x: bv16, n: nat, m: nat)
    requires HighZero(x, n) && LowZero(x, m)
    ensures LowZero(Lift(x, n), m + n)
    decreases n
  {
    if n > 0 {
      ShiftedDown(x);
      LiftLeavesZeros(x << 1, n - 1, m + 1);
    }
  }

  lemma {:induction false} ZerosAdd(x: bv16, m: nat, n: nat)
    requires LowZero(x, m) && LowZero(Drop(x, m), n)
    ensures LowZero(x, m + n)
    decreases m
  {
    if m > 0 {
      ZerosAdd(x >> 1, m - 1, n);
    }
  }

  lemma AllZero(x: bv16)
    requires LowZero(x, 16)
    ensures x == 0 && DivideBits(x, 16) == 0
  {
    ZeroBits(x);
    DivideZero(16);
  }

  lemma {:induction false} DivideZero(n: nat)
    ensures DivideBits(0, n) == 0
  {
    if n > 0 {
      DivideZero(n - 1);
    }
  }

  lemma ZeroBits(x: bv16)
    requires LowZero(x, 16)
    ensures x == 0
  {
    assert LowZero(x >> 8, 8);
  }

  lemma {:induction false} LowZeroXor(x: bv16, y: bv16, n: nat)
    requires LowZero(x, n) && LowZero(y, n)
    ensures LowZero(x ^ y, n)
    decreases n
  {
    if n > 0 {
      ShiftXor(x, y);
      EvenXor(x, y);
      LowZeroXor(x >> 1, y >> 1, n - 1);
    }
  }

  lemma EvenXor(x: bv16, y: bv16)
    requires x & 1 == 0 && y & 1 == 0
    ensures (x ^ y) & 1 == 0
  {
  }

  lemma {:induction false} FewerZeros(x: bv16, m: nat, n: nat)
    requires LowZero(x, n) && m <= n
    ensures LowZero(x, m)
    decreases m
  {
    if m > 0 {
      FewerZeros(x >> 1, m - 1, n - 1);
    }
  }

  /** Three bytes, lowest bit first as they go over the wire, whose first `k` bits and all from
      bit `k + 16` on are zero: of the first byte the low `k` bits, of the last all but those. */
  predicate WithinSixteen(x1: octet, x3: octet, k: nat)
  {
    k <= 8 && LowZero(Wide(x1), k) && HighZero(Wide(x3), 16 - k)
  }

  function Pair(x1: octet, x2: octet): bv16
  {
    Wide(x1) ^ (Wide(x2) << 8)
  }

  lemma PairZeros(x1: octet, x2: octet, k: nat)
    requires k <= 8 && LowZero(Wide(x1), k)
    ensures LowZero(Pair(x1, x2), k)
  {
    var high := Wide(x2) << 8;
    assert LowZero(high, 8);
    hide LowZero;
    FewerZeros(high, k, 8);
    LowZeroXor(Wide(x1), high, k);
  }

  lemma PairIsZero(x1: octet, x2: octet)
    requires Pair(x1, x2) == 0
    ensures x1 == 0 && x2 == 0
  {
  }

  lemma WideIsZero(x: octet)
    requires Wide(x) == 0
    ensures x == 0
  {
  }

  lemma NoBurstVanishes(x1: octet, x2: octet, x3: octet, k: nat)
    requires WithinSixteen(x1, x3, k)
    requires DivideByte(DivideByte(Pair(x1, x2))) == Wide(x3)
    ensures x1 == 0 && x2 == 0 && x3 == 0
  {
    hide DivideByte, Wide, Lift, Pair, DivideBits, LowZero, HighZero, Drop;
    var w, n := Pair(x1, x2), 16 - k;
    PairZeros(x1, x2, k);
    SixteenBits(w);
    DivideBitsSplit(w, k, n);
    DivideLowZero(w, k);
    DivideLift(Wide(x3), n);
    DivideBitsInjective(Drop(w, k), Lift(Wide(x3), n), n);
    NoZeros(Wide(x3));
    LiftLeavesZeros(Wide(x3), n, 0);
    ZerosAdd(w, k, n);
    AllZero(w);
    PairIsZero(x1, x2);
    WideIsZero(x3);
  }

  lemma NoZeros(x: bv16)
    ensures LowZero(x, 0)
  {
  }

  lemma PairDivides(x1: octet, x2: octet)
    ensures DivideByte(Pair(x1, x2)) == Xor16(DivideByte(Wide(x1)), Wide(x2))
  {
    DivideByteXor(Wide(x1), Wide(x2) << 8);
    HighMoves(x2);
    hide DivideByte;
  }

  lemma HighMoves(x: octet)
    ensures DivideByte(Wide(x) << 8) == Wide(x)
  {
  }

  lemma XorAssoc(x: bv16, y: bv16, z: bv16)
    ensures Xor16(Xor16(x, y), z) == Xor16(x, Xor16(y, z))
    ensures Xor16(Xor16(x, y), z) == Xor16(Xor16(x, z), y)
  {
  }

  lemma XorSelf(x: bv16, y: bv16)
    ensures Xor16(x, x) == 0 && Xor16(0, x) == x
    ensures Xor16(x, y) == 0 ==> x == y
  {
  }

  lemma WideXor(a: octet, c: octet)
    ensures Xor16(Wide(a), Wide(c)) == Wide(a ^ c)
    ensures a ^ c == 0 ==> a == c
  {
  }

  /** The difference of two states that take in a byte each. */
  lemma Differences(p: bv16, q: bv16, a: octet, c: octet)
    ensures Xor16(Xor16(p, Wide(a)), Xor16(q, Wide(c))) == Xor16(Xor16(p, q), Wide(a ^ c))
    ensures Xor16(p, Wide(a)) == Xor16(q, Wide(c)) ==> Xor16(p, q) == Wide(a ^ c)
  {
    hide Xor16, Wide;
    var x, y := Wide(a), Wide(c);
    XorAssoc(Xor16(p, x), q, y);
    XorAssoc(p, x, q);
    XorAssoc(Xor16(p, q), x, y);
    WideXor(a, c);
    XorSelf(Xor16(p, x), 0);
    XorSelf(Xor16(p, q), Wide(a ^ c));
  }

  lemma FirstDifference(f: bv16, a: octet, c: octet)
    ensures Xor16(Xor16(f, Wide(a)), Xor16(f, Wide(c))) == Wide(a ^ c)
  {
    hide Xor16, Wide;
    Differences(f, f, a, c);
    XorSelf(f, 0);
    XorSelf(Wide(a ^ c), 0);
  }

  lemma ThreeBytesDiffer(f: bv16, a: seq<octet>, c: seq<octet>, k: nat)
    requires |a| == |c| == 3 && WithinSixteen(a[0] ^ c[0], a[2] ^ c[2], k)
    requires BitStep(BitStep(BitStep(f, a[0]), a[1]), a[2]) == BitStep(BitStep(BitStep(f, c[0]), c[1]), c[2])
    ensures a == c
  {
    hide DivideByte, Xor16, Wide, WithinSixteen, Pair;
    var p1, q1 := Xor16(f, Wide(a[0])), Xor16(f, Wide(c[0]));
    var s1, t1 := DivideByte(p1), DivideByte(q1);
    var p2, q2 := Xor16(s1, Wide(a[1])), Xor16(t1, Wide(c[1]));
    var s2, t2 := DivideByte(p2), DivideByte(q2);
    DivideByteInjective(Xor16(s2, Wide(a[2])), Xor16(t2, Wide(c[2])));
    Differences(s2, t2, a[2], c[2]);
    DivideByteXor(p2, q2);
    Differences(s1, t1, a[1], c[1]);
    DivideByteXor(p1, q1);
    FirstDifference(f, a[0], c[0]);
    PairDivides(a[0] ^ c[0], a[1] ^ c[1]);
    NoBurstVanishes(a[0] ^ c[0], a[1] ^ c[1], a[2] ^ c[2], k);
    WideXor(a[0], c[0]);
    WideXor(a[1], c[1]);
    WideXor(a[2], c[2]);
  }

  /** Every burst of up to sixteen bits is found, wherever it begins: two messages that differ
      only within sixteen consecutive bits never have the same check sequence. */
  lemma BitBurstIsDetected(pre: seq<octet>, a: seq<octet>, c: seq<octet>, post: seq<octet>, k: nat)
    requires |a| == |c| == 3 && WithinSixteen(a[0] ^ c[0], a[2] ^ c[2], k)
    requires CalcFcs(pre + a + post) == CalcFcs(pre + c + post)
    ensures a == c
  {
    hide BitStep, WithinSixteen;
    var f := Remainder(INIT, pre);
    XorCancels(Remainder(INIT, pre + a + post), Remainder(INIT, pre + c + post), 0xffff);
    ThreeMore(pre, a);
    ThreeMore(pre, c);
    RemainderConcat(INIT, pre + a, post);
    RemainderConcat(INIT, pre + c, post);
    RemainderInjective(Remainder(INIT, pre + a), Remainder(INIT, pre + c), post);
    ThreeBytesDiffer(f, a, c, k);
  }

  lemma ThreeMore(s: seq<octet>, a: seq<octet>)
    requires |a| == 3
    ensures Remainder(INIT, s + a) == BitStep(BitStep(BitStep(Remainder(INIT, s), a[0]), a[1]), a[2])
  {
    hide BitStep, Remainder;
    TwoMore(s, a[0], a[1]);
    var t := s + [a[0], a[1]];
    RemainderSnoc(INIT, t, a[2]);
    TwoAndOne(s, a);
  }

  lemma TwoAndOne(s: seq<octet>, a: seq<octet>)
    requires |a| == 3
    ensures s + a == s + [a[0], a[1]] + [a[2]]
  {
    assert a == [a[0], a[1]] + [a[2]];
  }

  /** And so for messages that differ in exactly one byte, wherever it is. */
  lemma ByteIsDetected(pre: seq<octet>, a: octet, c: octet, post: seq<octet>)
    requires CalcFcs(pre + [a] + post) == CalcFcs(pre + [c] + post)
    ensures a == c
  {
    hide BitStep;
    var f := Remainder(INIT, pre);
    var s, t := pre + [a] + post, pre + [c] + post;
    assert Remainder(INIT, s) == Remainder(INIT, t) by {
      XorCancels(Remainder(INIT, s), Remainder(INIT, t), 0xffff);
    }
    RemainderSnoc(INIT, pre, a);
    RemainderSnoc(INIT, pre, c);
    RemainderConcat(INIT, pre + [a], post);
    RemainderConcat(INIT, pre + [c], post);
    RemainderInjective(BitStep(f, a), BitStep(f, c), post);
    TwoBytesDiffer(f, a, 0, c, 0);
  }
}
