/** CRC16_XMODEM of cpp/algorithm/crc16_xmodem.c, and what the checksum is: the remainder of
    message(x) * x^16 by x^16 + x^12 + x^5 + 1 over GF(2).  An unsigned short is its 16 bits,
    highest first, so that `& 0x8000` reads bit 0, `<< 1` drops it and `^` is bitwise. */
module Crc16 {
  import opened Gf2Polynomials
  import opened Arithmetic

  type Word = s: seq<bool> | |s| == 16
    witness [false, false, false, false, false, false, false, false, false, false, false, false, false, false, false, false]
  type Byte = b: nat | b < 256

  const ZERO: Word := [false, false, false, false, false, false, false, false, false, false, false, false, false, false, false, false]

  /** wCPoly = 0x1021 */
  const POLY: Word :=
    [false, false, false, true, false, false, false, false, false, false, true, false, false, false, false, true]

  const GENERATOR: Poly := {16, 12, 5, 0}

  function Zeros(n: nat): (s: seq<bool>)
    ensures |s| == n
  {
    seq(n, i => false)
  }

  /** w << 1 */
  function ShiftLeft(w: Word): Word {
    w[1..] + [false]
  }

  // ------------------------------------------------------------------- bytes

  /** The low n bits of a number, highest first. */
  function LowBits(b: nat, n: nat): (s: seq<bool>)
    ensures |s| == n
    decreases n
  {
    if n == 0 then [] else LowBits(b / 2, n - 1) + [b % 2 == 1]
  }

  function NumberOf(s: seq<bool>): nat {
    if |s| == 0 then 0 else 2 * NumberOf(s[..|s| - 1]) + if s[|s| - 1] then 1 else 0
  }

  lemma {:induction false} BitsRoundTrip(s: seq<bool>)
    ensures LowBits(NumberOf(s), |s|) == s
    decreases |s|
  {
    if |s| > 0 {
      BitsRoundTrip(s[..|s| - 1]);
      assert NumberOf(s) / 2 == NumberOf(s[..|s| - 1]);
      assert s == s[..|s| - 1] + [s[|s| - 1]];
    }
  }

  function ByteBits(b: Byte): (s: seq<bool>)
    ensures |s| == 8
  {
    LowBits(b, 8)
  }

  /** Entry i is bit 7 - i of the byte: the highest bit comes first. */
  lemma ByteBitsAt(b: Byte, i: nat, j: nat)
    requires i + j == 7
    ensures ByteBits(b)[i] == BitOf(b, j)
  {
    LowBitsAt(b, 8, i, j);
  }

  lemma {:induction false} LowBitsAt(b: nat, n: nat, i: nat, j: nat)
    requires i + j + 1 == n
    ensures LowBits(b, n)[i] == BitOf(b, j)
    decreases n
  {
    if j > 0 {
      LowBitsAt(b / 2, n - 1, i, j - 1);
    }
  }

  lemma {:induction false} NumberBound(s: seq<bool>, n: nat)
    requires |s| <= n
    ensures NumberOf(s) < Pow(2, n)
    decreases n
  {
    if |s| > 0 {
      NumberBound(s[..|s| - 1], n - 1);
    } else {
      PowPositive(2, n);
    }
  }

  function ByteOf(s: seq<bool>): (b: Byte)
    requires |s| == 8
    ensures ByteBits(b) == s
  {
    NumberBound(s, 8);
    assert Pow(2, 4) == 16 && Pow(2, 8) == 256;
    BitsRoundTrip(s);
    NumberOf(s)
  }

  /** The message as one bit string, bytes in order, highest bit of each byte first. */
  function Bits(msg: seq<Byte>): (s: seq<bool>)
    ensures |s| == 8 * |msg|
  {
    if |msg| == 0 then [] else Bits(msg[..|msg| - 1]) + ByteBits(msg[|msg| - 1])
  }

  // ------------------------------------------------- the register, bit by bit

  /** Shift out the top bit; reduce when it differs from the incoming bit. */
  function Feed(w: Word, bit: bool): Word {
    if w[0] != bit then Xor(ShiftLeft(w), POLY) else ShiftLeft(w)
  }

  function FeedAll(w: Word, bits: seq<bool>): Word {
    if |bits| == 0 then w else Feed(FeedAll(w, bits[..|bits| - 1]), bits[|bits| - 1])
  }

  /** The checksum of a message. */
  function Crc(msg: seq<Byte>): Word {
    FeedAll(ZERO, Bits(msg))
  }

  lemma {:induction false} FeedConcat(w: Word, a: seq<bool>, b: seq<bool>)
    ensures FeedAll(w, a + b) == FeedAll(FeedAll(w, a), b)
    decreases |b|
  {
    if |b| == 0 {
      assert a + b == a;
    } else {
      var n := |b| - 1;
      assert (a + b)[..|a| + n] == a + b[..n];
      FeedConcat(w, a, b[..n]);
    }
  }

  /** Feeding is linear in register and input together. */
  lemma {:induction false} FeedLinear(w: Word, v: Word, a: seq<bool>, b: seq<bool>)
    requires |a| == |b|
    ensures FeedAll(Xor(w, v), Xor(a, b)) == Xor(FeedAll(w, a), FeedAll(v, b))
    decreases |a|
  {
    if |a| > 0 {
      var n := |a| - 1;
      FeedLinear(w, v, a[..n], b[..n]);
      assert Xor(a, b)[..n] == Xor(a[..n], b[..n]);
      FeedOneLinear(FeedAll(w, a[..n]), FeedAll(v, b[..n]), a[n], b[n]);
    }
  }

  lemma FeedOneLinear(w: Word, v: Word, a: bool, b: bool)
    ensures Feed(Xor(w, v), a != b) == Xor(Feed(w, a), Feed(v, b))
  {
  }

  // ---------------------------------------------------- the loops of the source

  /** What the register holds after j of the eight inner steps: the bits fed so far, plus the
      part of the byte that was mixed in but not yet shifted out. */
  function Mixed(w: Word, byte: seq<bool>, j: nat): Word
    requires |byte| == 8 && j <= 8
  {
    Xor(FeedAll(w, byte[..j]), byte[j..] + Zeros(8 + j))
  }

  lemma InnerStep(w: Word, byte: seq<bool>, j: nat)
    requires |byte| == 8 && j < 8
    ensures var m := Mixed(w, byte, j);
            Mixed(w, byte, j + 1) == if m[0] then Xor(ShiftLeft(m), POLY) else ShiftLeft(m)
  {
    assert byte[..j + 1][..j] == byte[..j];
    var c := FeedAll(w, byte[..j]);
    var r := byte[j..] + Zeros(8 + j);
    assert r[1..] + [false] == byte[j + 1..] + Zeros(9 + j);
    assert FeedAll(w, byte[..j + 1]) == Feed(c, byte[j]);
    assert Xor(c, r)[0] == (c[0] != byte[j]);
    assert Xor(ShiftLeft(c), r[1..] + [false]) == ShiftLeft(Xor(c, r));
    XorSwap(ShiftLeft(c), POLY, r[1..] + [false]);
  }

  lemma XorSwap(a: seq<bool>, b: seq<bool>, c: seq<bool>)
    requires |a| == |b| == |c|
    ensures Xor(Xor(a, b), c) == Xor(Xor(a, c), b)
  {
  }

  /** Lines 11-19: mix one byte in, then eight shifts. */
  method FeedByte(w: Word, wChar: Byte) returns (crc: Word)
    ensures crc == FeedAll(w, ByteBits(wChar))
  {
    var byte := ByteBits(wChar);
    crc := Xor(w, byte + Zeros(8));
    assert byte[..0] == [] && byte[0..] == byte;
    var i := 0;
    while i < 8
      invariant 0 <= i <= 8 && crc == Mixed(w, byte, i)
    {
      InnerStep(w, byte, i);
      if crc[0] {
        crc := Xor(ShiftLeft(crc), POLY);
      } else {
        crc := ShiftLeft(crc);
      }
      i := i + 1;
    }
    assert byte[..8] == byte;
    XorZeros(FeedAll(w, byte), byte[8..] + Zeros(16));
  }

  lemma XorZeros(w: Word, z: Word)
    requires forall i :: 0 <= i < 16 ==> !z[i]
    ensures Xor(w, z) == w
  {
  }

  /** The checksum loop computes Crc. */
  method Crc16Xmodem(msg: seq<Byte>) returns (crc: Word)
    ensures crc == Crc(msg)
  {
    crc := ZERO;
    var k := 0;
    assert msg[..0] == [];
    while k < |msg|
      invariant 0 <= k <= |msg| && crc == Crc(msg[..k])
    {
      crc := FeedByte(crc, msg[k]);
      assert msg[..k + 1][..k] == msg[..k];
      FeedConcat(ZERO, Bits(msg[..k]), ByteBits(msg[k]));
      k := k + 1;
    }
    assert msg[..|msg|] == msg;
  }

  // ------------------------------------------------- the remainder theorem

  /** The register as a polynomial. */
  function Register(w: Word): Poly {
    PolyOf(w)
  }

  lemma LeadingTerm(t: bool, rest: seq<bool>)
    ensures PolyOf([t] + rest) == Plus(if t then {|rest|} else {}, PolyOf(rest))
  {
    forall j: nat
      ensures j in PolyOf([t] + rest) <==> j in Plus(if t then {|rest|} else {}, PolyOf(rest))
    {
      PolyOfMember([t] + rest, j);
      PolyOfMember(rest, j);
    }
  }

  lemma RegisterOfPoly()
    ensures Register(POLY) == {12, 5, 0}
  {
    forall j: nat
      ensures j in Register(POLY) <==> j in {12, 5, 0}
    {
      PolyOfMember(POLY, j);
    }
  }

  /** x * R = t * x^16 + the shifted register. */
  lemma RegisterShift(w: Word)
    ensures Shift(Register(w), 1) == Plus(if w[0] then {16} else {}, Register(ShiftLeft(w)))
  {
    assert (w + [false])[..16] == w;
    assert Times(w + [false], {0}) == Plus(Shift(Times(w, {0}), 1), {});
    assert w + [false] == [w[0]] + ShiftLeft(w);
    LeadingTerm(w[0], ShiftLeft(w));
  }

  /** One fed bit: x * R + bit * x^16 = t * G + R', where t is the bit shifted out. */
  lemma FeedStep(w: Word, bit: bool)
    ensures Plus(Shift(Register(w), 1), if bit then {16} else {})
         == Plus(if w[0] != bit then GENERATOR else {}, Register(Feed(w, bit)))
  {
    RegisterShift(w);
    var s := Register(ShiftLeft(w));
    PolyOfMember(ShiftLeft(w), 16);
    if w[0] != bit {
      RegisterOfPoly();
      TimesXor(ShiftLeft(w), POLY, {0});
      assert Plus({16}, s) == Plus(GENERATOR, Plus(s, {12, 5, 0}));
    }
  }

  /** The quotient digits: the bits shifted out. */
  function Quotient(bits: seq<bool>): (q: seq<bool>)
    ensures |q| == |bits|
  {
    if |bits| == 0 then []
    else Quotient(bits[..|bits| - 1]) + [FeedAll(ZERO, bits[..|bits| - 1])[0] != bits[|bits| - 1]]
  }

  /** bits(x) * x^16 = quotient(x) * generator(x) + register(x). */
  lemma {:induction false} Division(bits: seq<bool>)
    ensures Shift(PolyOf(bits), 16) == Plus(Times(Quotient(bits), GENERATOR), Register(FeedAll(ZERO, bits)))
    decreases |bits|
  {
    if |bits| == 0 {
      ZeroRegister();
      assert Shift({}, 16) == {};
    } else {
      var n := |bits| - 1;
      Division(bits[..n]);
      var w, b, q := FeedAll(ZERO, bits[..n]), bits[n], Times(Quotient(bits[..n]), GENERATOR);
      var t := if w[0] != b then GENERATOR else {};
      FeedStep(w, b);
      assert Quotient(bits)[..n] == Quotient(bits[..n]);
      assert Times(Quotient(bits), GENERATOR) == Plus(Shift(q, 1), t);
      ShiftByOne(PolyOf(bits[..n]), b);
      ShiftPlus(q, Register(w), 1);
      Regroup(Shift(q, 1), Shift(Register(w), 1), if b then {16} else {}, t, Register(Feed(w, b)));
    }
  }

  lemma ZeroRegister()
    ensures Register(ZERO) == {}
  {
    forall j: nat
      ensures j !in Register(ZERO)
    {
      PolyOfMember(ZERO, j);
    }
  }

  lemma ShiftByOne(p: Poly, b: bool)
    ensures Shift(Plus(Shift(p, 1), if b then {0} else {}), 16)
         == Plus(Shift(Shift(p, 16), 1), if b then {16} else {})
  {
    ShiftPlus(Shift(p, 1), if b then {0} else {}, 16);
    ShiftShift(p, 1, 16);
    ShiftShift(p, 16, 1);
    assert Shift({0}, 16) == {16} by { ShiftMember({0}, 16, 16); }
    assert Shift({}, 16) == {};
  }

  lemma Regroup(q: Poly, r: Poly, b: Poly, t: Poly, s: Poly)
    requires Plus(r, b) == Plus(t, s)
    ensures Plus(Plus(q, r), b) == Plus(Plus(q, t), s)
  {
    forall j: nat
      ensures j in Plus(Plus(q, r), b) <==> j in Plus(Plus(q, t), s)
    {
      assert j in Plus(r, b) <==> j in Plus(t, s);
    }
  }

  /** The checksum is the remainder: it satisfies the division equation, and it is the only
      polynomial of degree below 16 that does. */
  lemma {:induction false} CrcIsRemainder(msg: seq<Byte>, q: seq<bool>, r: Poly)
    requires Below(r, 16)
    ensures Shift(PolyOf(Bits(msg)), 16) == Plus(Times(q, GENERATOR), r) ==> r == Register(Crc(msg))
    ensures Shift(PolyOf(Bits(msg)), 16) == Plus(Times(Quotient(Bits(msg)), GENERATOR), Register(Crc(msg)))
    ensures Below(Register(Crc(msg)), 16)
  {
    Division(Bits(msg));
    RegisterBelow(Crc(msg));
    if Shift(PolyOf(Bits(msg)), 16) == Plus(Times(q, GENERATOR), r) {
      RemainderUnique(q, Quotient(Bits(msg)), r, Register(Crc(msg)), GENERATOR, 16);
    }
  }

  lemma RegisterBelow(w: Word)
    ensures Below(Register(w), 16)
  {
    forall j | j in Register(w)
      ensures j < 16
    {
      PolyOfMember(w, j);
    }
  }

  // ----------------------------------------------- the message as a polynomial

  /** Byte k of the message stands at bits 8 k to 8 k + 7. */
  lemma {:induction false} BitsAt(msg: seq<Byte>, k: nat, i: nat)
    requires k < |msg| && i < 8
    ensures Bits(msg)[8 * k + i] == ByteBits(msg[k])[i]
    decreases |msg|
  {
    if k < |msg| - 1 {
      BitsAt(msg[..|msg| - 1], k, i);
    }
  }

  lemma MessageBit(msg: seq<Byte>, k: nat, i: nat, j: nat)
    requires k < |msg| && i + j == 7
    ensures Bits(msg)[8 * k + i] == BitOf(msg[k], j)
  {
    BitsAt(msg, k, i);
    ByteBitsAt(msg[k], i, j);
  }

  /** The coefficient of x^(8 (|msg| - 1 - k) + j) is bit j of byte k. */
  lemma MessagePolynomial(msg: seq<Byte>, k: nat, i: nat, j: nat, e: nat)
    requires k < |msg| && i + j == 7 && e == 8 * (|msg| - 1 - k) + j
    ensures e in PolyOf(Bits(msg)) <==> BitOf(msg[k], j)
  {
    MessageBit(msg, k, i, j);
    CoefficientAt(Bits(msg), 8 * k + i, e);
  }

  lemma CoefficientAt(x: seq<bool>, p: nat, e: nat)
    requires p + e + 1 == |x|
    ensures e in PolyOf(x) <==> x[p]
  {
    PolyOfMember(x, e);
  }

  /** There are no other coefficients. */
  lemma MessageDegree(msg: seq<Byte>)
    ensures Below(PolyOf(Bits(msg)), 8 * |msg|)
  {
    forall e | e in PolyOf(Bits(msg))
      ensures e < 8 * |msg|
    {
      PolyOfMember(Bits(msg), e);
    }
  }

  /** The register reads as a polynomial in the same way: bit 15 - j is the coefficient of x^j. */
  lemma RegisterPolynomial(w: Word, j: nat)
    ensures j in Register(w) <==> j < 16 && w[15 - j]
  {
    PolyOfMember(w, j);
  }

  /** The message 0x01 has checksum 0x1021, the generator without its leading term. */
  lemma ChecksumOfOne()
    ensures Crc([1]) == POLY
  {
    BitsOfOne();
    FeedConcat(ZERO, Zeros(7), [true]);
    FeedZeros(7);
    FirstBit();
  }

  lemma BitsOfOne()
    ensures Bits([1]) == Zeros(7) + [true]
  {
    var one: seq<Byte> := [1];
    assert one[..0] == [];
    forall i | 0 <= i < 8
      ensures ByteBits(1)[i] == (Zeros(7) + [true])[i]
    {
      ByteBitsAt(1, i, 7 - i);
      OneBit(7 - i);
    }
    assert Bits(one) == ByteBits(1);
  }

  lemma OneBit(j: nat)
    ensures BitOf(1, j) == (j == 0)
  {
    if j > 0 {
      NoBits(j - 1);
    }
  }

  lemma {:induction false} NoBits(j: nat)
    ensures !BitOf(0, j)
    decreases j
  {
    if j > 0 {
      NoBits(j - 1);
    }
  }

  lemma {:induction false} FeedZeros(n: nat)
    ensures FeedAll(ZERO, Zeros(n)) == ZERO
    decreases n
  {
    if n > 0 {
      FeedZeros(n - 1);
      assert Zeros(n)[..n - 1] == Zeros(n - 1);
      assert ShiftLeft(ZERO) == ZERO;
    }
  }

  lemma FirstBit()
    ensures FeedAll(ZERO, [true]) == POLY
  {
    var bit: seq<bool> := [true];
    assert bit[..0] == [];
    assert ShiftLeft(ZERO) == ZERO;
    assert Xor(ZERO, POLY) == POLY;
  }

  // ------------------------------------------------------- error detection

  lemma {:induction false} EqualChecksumsDivide(a: seq<bool>, b: seq<bool>)
    requires |a| == |b| && FeedAll(ZERO, a) == FeedAll(ZERO, b)
    ensures Shift(PolyOf(Xor(a, b)), 16) == Times(Quotient(Xor(a, b)), GENERATOR)
  {
    FeedLinear(ZERO, ZERO, a, b);
    assert Xor(ZERO, ZERO) == ZERO;
    assert FeedAll(ZERO, Xor(a, b)) == ZERO;
    Division(Xor(a, b));
    ZeroRegister();
  }

  /** a ^ b, byte by byte. */
  function XorBytes(a: seq<Byte>, b: seq<Byte>): (c: seq<Byte>)
    requires |a| == |b|
    ensures |c| == |a|
  {
    if |a| == 0 then []
    else XorBytes(a[..|a| - 1], b[..|a| - 1]) + [ByteOf(Xor(ByteBits(a[|a| - 1]), ByteBits(b[|a| - 1])))]
  }

  lemma {:induction false} XorBytesBits(a: seq<Byte>, b: seq<Byte>)
    requires |a| == |b|
    ensures Bits(XorBytes(a, b)) == Xor(Bits(a), Bits(b))
    decreases |a|
  {
    if |a| > 0 {
      var n := |a| - 1;
      XorBytesBits(a[..n], b[..n]);
      var c := XorBytes(a, b);
      assert c[..n] == XorBytes(a[..n], b[..n]);
      assert ByteBits(c[n]) == Xor(ByteBits(a[n]), ByteBits(b[n]));
      XorConcat(Bits(a[..n]), ByteBits(a[n]), Bits(b[..n]), ByteBits(b[n]));
    }
  }

  lemma XorConcat(a: seq<bool>, c: seq<bool>, b: seq<bool>, d: seq<bool>)
    requires |a| == |b| && |c| == |d|
    ensures Xor(a + c, b + d) == Xor(a, b) + Xor(c, d)
  {
  }

  /** Linearity: the checksum of a bytewise exclusive or is the exclusive or of the checksums. */
  lemma {:induction false} CrcLinear(a: seq<Byte>, b: seq<Byte>)
    requires |a| == |b|
    ensures Crc(XorBytes(a, b)) == Xor(Crc(a), Crc(b))
  {
    XorBytesBits(a, b);
    FeedLinear(ZERO, ZERO, Bits(a), Bits(b));
    assert Xor(ZERO, ZERO) == ZERO;
  }

  lemma {:induction false} SelfFeed(w: Word, k: nat)
    requires k <= 16
    ensures FeedAll(w, w[..k]) == w[k..] + Zeros(k)
    decreases k
  {
    if k > 0 {
      SelfFeed(w, k - 1);
      assert w[..k][..k - 1] == w[..k - 1];
      var v := w[k - 1..] + Zeros(k - 1);
      assert v[0] == w[k - 1];
      assert ShiftLeft(v) == w[k..] + Zeros(k);
    } else {
      assert w[..0] == [] && w[0..] + Zeros(0) == w;
    }
  }

  /** A message followed by its checksum, high byte first, has checksum 0. */
  lemma {:induction false} AppendedCrcIsZero(msg: seq<Byte>)
    ensures var w := Crc(msg);
            Crc(msg + [ByteOf(w[..8]), ByteOf(w[8..])]) == ZERO
  {
    var w := Crc(msg);
    var x, y := ByteOf(w[..8]), ByteOf(w[8..]);
    AppendBits(msg, x, y);
    assert w[..8] + w[8..] == w;
    assert Bits(msg + [x, y]) == Bits(msg) + w;
    FeedConcat(ZERO, Bits(msg), w);
    FeedSelf(w);
  }

  lemma {:induction false} AppendBits(msg: seq<Byte>, x: Byte, y: Byte)
    ensures Bits(msg + [x, y]) == Bits(msg) + (ByteBits(x) + ByteBits(y))
  {
    assert (msg + [x, y])[..|msg| + 1] == msg + [x];
    assert (msg + [x])[..|msg|] == msg;
  }

  lemma FeedSelf(w: Word)
    ensures FeedAll(w, w) == ZERO
  {
    SelfFeed(w, 16);
    assert w[..16] == w;
    assert w[16..] + Zeros(16) == ZERO;
  }

  /** Bits that are set only inside a window of 16 form x^s * e(x) with e of degree below 16. */
  lemma {:induction false} WindowPoly(d: seq<bool>, k: nat) returns (e: Poly, s: nat)
    requires forall j :: 0 <= j < |d| && d[j] ==> k <= j < k + 16
    ensures PolyOf(d) == Shift(e, s) && Below(e, 16)
  {
    s := if |d| >= k + 16 then |d| - k - 16 else 0;
    e := Unshift(PolyOf(d), s);
    forall j: nat
      ensures j in PolyOf(d) ==> s <= j < s + 16
      ensures j in e <==> j + s in PolyOf(d)
    {
      PolyOfMember(d, j);
      UnshiftMember(PolyOf(d), s, j);
    }
    ShiftUnshift(PolyOf(d), s);
  }

  lemma ShortMultiple(q: seq<bool>, e: Poly)
    requires e == Times(q, GENERATOR) && Below(e, 16)
    ensures e == {}
  {
    NonzeroMultiple(q, GENERATOR, 16);
  }

  lemma {:induction false} BurstIsNoMultiple(d: seq<bool>, k: nat, i: nat, q: seq<bool>)
    requires forall j :: 0 <= j < |d| && d[j] ==> k <= j < k + 16
    requires i < |d| && d[i]
    ensures Shift(PolyOf(d), 16) != Times(q, GENERATOR)
  {
    if Shift(PolyOf(d), 16) == Times(q, GENERATOR) {
      var e, s := WindowPoly(d, k);
      ShiftShift(e, s, 16);
      var p := DivideOutX(e, s + 16, q, GENERATOR);
      PolyOfMember(d, |d| - 1 - i);
      ShiftMember(e, s, |d| - 1 - i);
      ShortMultiple(p, e);
      assert false;
    }
  }

  /** Bursts: messages of one length that differ only inside 16 consecutive bits, and do
      differ, have different checksums. */
  lemma {:induction false} BurstDetected(a: seq<Byte>, b: seq<Byte>, k: nat, i: nat)
    requires |a| == |b|
    requires forall j :: 0 <= j < 8 * |a| && Bits(a)[j] != Bits(b)[j] ==> k <= j < k + 16
    requires i < 8 * |a| && Bits(a)[i] != Bits(b)[i]
    ensures Crc(a) != Crc(b)
  {
    if Crc(a) == Crc(b) {
      BurstIsNoMultiple(Xor(Bits(a), Bits(b)), k, i, Quotient(Xor(Bits(a), Bits(b))));
      EqualChecksumsDivide(Bits(a), Bits(b));
      assert false;
    }
  }

  lemma GeneratorHasFourTerms()
    ensures |GENERATOR| == 4
  {
    assert GENERATOR == {16, 12, 5} + {0};
    assert |{16, 12, 5}| == 3;
  }

  /** Any odd number of flipped bits is detected, because x + 1 divides the generator. */
  lemma {:induction false} OddErrorsDetected(a: seq<Byte>, b: seq<Byte>)
    requires |a| == |b| && Odd(Ones(Xor(Bits(a), Bits(b))))
    ensures Crc(a) != Crc(b)
  {
    if Crc(a) == Crc(b) {
      OddMultiple(Xor(Bits(a), Bits(b)), Quotient(Xor(Bits(a), Bits(b))));
      EqualChecksumsDivide(Bits(a), Bits(b));
      assert false;
    }
  }

  lemma {:induction false} OddMultiple(d: seq<bool>, q: seq<bool>)
    requires Odd(Ones(d))
    ensures Shift(PolyOf(d), 16) != Times(q, GENERATOR)
  {
    TimesParity(q, GENERATOR);
    TimesParity(d, {0});
    ShiftSize(PolyOf(d), 16);
    GeneratorHasFourTerms();
    assert !Odd(4) && Odd(1) && |{0}| == 1;
  }
}
