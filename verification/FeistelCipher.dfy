/** cpp/algorithm/3des.c in place: bit arrays that are permuted, rotated and XORed, with the
    subkeys in an object's state.  Every method is proved against FeistelSpec. */
module FeistelCipher {
  import opened Arithmetic
  import opened FeistelSpec

  /** x with the piece y written at position off. */
  function Patch(x: Bits, off: nat, y: Bits): (z: Bits)
    requires off + |y| <= |x|
    ensures |z| == |x|
  {
    x[..off] + y + x[off + |y|..]
  }

  lemma PatchExtend(x: Bits, off: nat, y: Bits, i: nat)
    requires off + |y| <= |x| && i < |y|
    ensures Patch(x, off, y[..i])[off + i := y[i]] == Patch(x, off, y[..i + 1])
  {
  }

  lemma PatchAll(x: Bits, off: nat, y: Bits)
    requires off + |y| <= |x|
    ensures Patch(x, off, y[..0]) == x && Patch(x, off, y[..|y|]) == Patch(x, off, y)
  {
    assert y[..|y|] == y;
  }

  lemma PatchWhole(x: Bits, y: Bits)
    requires |x| == |y|
    ensures Patch(x, 0, y) == y
  {
  }

  /** bit_cpy; the ranges may overlap when the target does not lie above the source. */
  method BitCpy(dst: array<bool>, d: nat, src: array<bool>, s: nat, num: nat, ghost x: Bits, ghost y: Bits)
    requires d + num <= dst.Length && s + num <= src.Length && x == dst[..] && y == src[s..s + num]
    requires dst != src || d <= s
    modifies dst
    ensures dst[..] == Patch(x, d, y)
  {
    PatchAll(x, d, y);
    var i := 0;
    while i < num
      invariant 0 <= i <= num && dst[..] == Patch(x, d, y[..i])
      invariant dst != src ==> src[..] == old(src[..])
    {
      PatchExtend(x, d, y, i);
      assert src[s + i] == y[i] by { assert dst == src ==> dst[..][s + i] == x[s + i]; }
      dst[d + i] := src[s + i];
      i := i + 1;
    }
  }

  method ByteToBit(dst: array<bool>, d: nat, data: seq<nat>, num: nat)
    requires num <= 8 * |data| && d + num <= dst.Length
    modifies dst
    ensures dst[..] == Patch(old(dst[..]), d, ByteBits(data, num))
  {
    ghost var x, y := dst[..], ByteBits(data, num);
    PatchAll(x, d, y);
    var i := 0;
    while i < num
      invariant 0 <= i <= num && dst[..] == Patch(x, d, y[..i])
    {
      PatchExtend(x, d, y, i);
      dst[d + i] := BitOf(data[i / 8], i % 8);
      i := i + 1;
    }
  }

  method HexToBit(dst: array<bool>, data: seq<nat>)
    requires dst.Length == 4 * |data|
    modifies dst
    ensures dst[..] == HexBits(data)
  {
    var i := 0;
    while i < 4 * |data|
      invariant 0 <= i <= 4 * |data| && dst[..i] == HexBits(data)[..i]
    {
      dst[i] := BitOf(HexValue(data[i / 4]), i % 4);
      i := i + 1;
    }
    assert dst[..] == dst[..4 * |data|];
  }

  method BitToHex(x: array<bool>) returns (out: seq<nat>)
    requires x.Length == 64
    ensures out == HexOf(x[..])
  {
    out := [];
    var i := 0;
    while i < x.Length / 4
      invariant 0 <= i <= x.Length / 4 && out == HexOf(x[..])[..i]
    {
      var v := Digit(x[4 * i]) + Digit(x[4 * i + 1]) * 2 + Digit(x[4 * i + 2]) * 4 + Digit(x[4 * i + 3]) * 8;
      FourBits(x[..][4 * i..4 * i + 4]);
      out := out + [if v % 16 > 9 then v % 16 + 55 else v % 16 + 48];
      i := i + 1;
    }
  }

  lemma FourBits(y: Bits)
    requires |y| == 4
    ensures NumberOf(y) == Digit(y[0]) + 2 * Digit(y[1]) + 4 * Digit(y[2]) + 8 * Digit(y[3])
  {
    assert y[1..][1..] == y[2..] && y[2..][1..] == y[3..] && y[3..][1..] == [];
    assert NumberOf(y[3..]) == Digit(y[3]);
    assert NumberOf(y[2..]) == Digit(y[2]) + 2 * NumberOf(y[3..]);
    assert NumberOf(y[1..]) == Digit(y[1]) + 2 * NumberOf(y[2..]);
  }

  /** b << j */
  function Shifted(b: bool, j: nat): nat {
    PowPositive(2, j);
    Digit(b) * Pow(2, j)
  }

  /** my_msg[i / 8] |= msg_in[i] << (i % 8), one bit at a time into cleared bytes. */
  method BitToByte(x: array<bool>) returns (out: seq<nat>)
    requires x.Length == 64
    ensures out == BytesOf(x[..])
  {
    out := seq(x.Length / 8, i => 0);
    assert out == PartialBytes(x[..], 0);
    var i := 0;
    while i < x.Length
      invariant 0 <= i <= x.Length && out == PartialBytes(x[..], i)
    {
      NextBit(x[..], i);
      out := out[i / 8 := out[i / 8] + Shifted(x[i], i % 8)];
      i := i + 1;
    }
    assert out == BytesOf(x[..]);
  }

  function Min(a: nat, b: nat): nat {
    if a < b then a else b
  }

  /** The bytes once the first i bits have been set. */
  function PartialBytes(x: Bits, i: nat): (s: seq<nat>)
    requires |x| == 64 && i <= 64
    ensures |s| == 8
  {
    seq(8, k requires 0 <= k < 8 => NumberOf(x[Min(8 * k, i)..Min(8 * k + 8, i)]))
  }

  lemma NextBit(x: Bits, i: nat)
    requires |x| == 64 && i < 64
    ensures PartialBytes(x, i + 1) == PartialBytes(x, i)[i / 8 := PartialBytes(x, i)[i / 8] + Shifted(x[i], i % 8)]
  {
    var b := i / 8;
    forall k | 0 <= k < 8 && k != b
      ensures PartialBytes(x, i + 1)[k] == PartialBytes(x, i)[k]
    {
      OtherByte(x, i, k);
    }
    assert x[8 * b..i + 1] == x[8 * b..i] + [x[i]];
    AppendBit(x[8 * b..i], x[i]);
    assert PartialBytes(x, i)[b] == NumberOf(x[8 * b..i]);
    assert PartialBytes(x, i + 1)[b] == NumberOf(x[8 * b..i + 1]);
  }

  lemma OtherByte(x: Bits, i: nat, k: nat)
    requires |x| == 64 && i < 64 && k < 8 && k != i / 8
    ensures x[Min(8 * k, i + 1)..Min(8 * k + 8, i + 1)] == x[Min(8 * k, i)..Min(8 * k + 8, i)]
  {
    if k < i / 8 {
      assert 8 * k + 8 <= i;
    } else {
      assert 8 * k >= i + 1;
    }
  }

  lemma {:induction false} AppendBit(y: Bits, b: bool)
    ensures NumberOf(y + [b]) == NumberOf(y) + Shifted(b, |y|)
    decreases |y|
  {
    if |y| == 0 {
      assert y + [b] == [b];
    } else {
      AppendBit(y[1..], b);
      assert (y + [b])[1..] == y[1..] + [b];
      assert 2 * (Digit(b) * Pow(2, |y| - 1)) == Digit(b) * Pow(2, |y|);
    }
  }

  /** tbl_replace, through a temporary so that source and target may be the same. */
  method TblReplace(dst: array<bool>, d: nat, src: array<bool>, s: nat, m: nat, table: Table)
    requires s + m <= src.Length && Selects(table, |table|, m) && d + 8 * |table| <= dst.Length
    modifies dst
    ensures dst[..] == Patch(old(dst[..]), d, Permute(old(src[s..s + m]), table))
  {
    var tmp := SelectBits(src, s, m, table);
    BitCpy(dst, d, tmp, 0, 8 * |table|, dst[..], tmp[0..8 * |table|]);
  }

  /** Lines 323-326: the temporary that tbl_replace copies from. */
  method SelectBits(src: array<bool>, s: nat, m: nat, table: Table) returns (tmp: array<bool>)
    requires s + m <= src.Length && Selects(table, |table|, m)
    ensures fresh(tmp) && tmp.Length == 8 * |table|
    ensures tmp[0..8 * |table|] == Permute(src[s..s + m], table)
  {
    var num := 8 * |table|;
    tmp := new bool[num];
    ghost var y := Permute(src[s..s + m], table);
    var i := 0;
    while i < num
      invariant 0 <= i <= num && forall k :: 0 <= k < i ==> tmp[k] == y[k]
      modifies tmp
    {
      tmp[i] := src[s + At(table, i) - 1];
      i := i + 1;
    }
    assert tmp[0..num] == y;
  }

  /** loop_bit: rotate len cells left by k, in place. */
  method LoopBit(a: array<bool>, off: nat, k: nat, len: nat)
    requires k <= len && off + len <= a.Length
    modifies a
    ensures a[..] == Patch(old(a[..]), off, Rotate(old(a[off..off + len]), k))
  {
    ghost var x := a[..];
    var tmp := new bool[k];
    ghost var hi, lo := x[off + k..off + k + (len - k)], x[off..off + k];
    PatchWhole(tmp[..], lo);
    BitCpy(tmp, 0, a, off, k, tmp[..], lo);
    BitCpy(a, off, a, off + k, len - k, x, hi);
    RotatePieces(x, off, k, len);
    BitCpy(a, off + len - k, tmp, 0, k, Patch(x, off, hi), lo);
    assert x[off..off + len] == old(a[off..off + len]);
  }

  lemma RotatePieces(x: Bits, off: nat, k: nat, len: nat)
    requires k <= len && off + len <= |x|
    ensures Patch(Patch(x, off, x[off + k..off + k + (len - k)]), off + len - k, x[off..off + k])
         == Patch(x, off, Rotate(x[off..off + len], k))
  {
    assert x[off..off + len][k..] == x[off + k..off + k + (len - k)];
    assert x[off..off + len][..k] == x[off..off + k];
  }

  /** xor, with the second operand elsewhere. */
  method XorInto(dst: array<bool>, d: nat, y: Bits)
    requires d + |y| <= dst.Length
    modifies dst
    ensures dst[..] == Patch(old(dst[..]), d, Xor(old(dst[d..d + |y|]), y))
  {
    ghost var x, z := dst[..], Xor(dst[d..d + |y|], y);
    PatchAll(x, d, z);
    var i := 0;
    while i < |y|
      invariant 0 <= i <= |y| && dst[..] == Patch(x, d, z[..i])
    {
      PatchExtend(x, d, z, i);
      assert dst[d + i] == x[d + i];
      dst[d + i] := dst[d + i] != y[i];
      i := i + 1;
    }
  }

  /** s_change */
  method SChange(t: Tables, dst: array<bool>, d: nat, e: array<bool>)
    requires t.WellFormed() && e.Length == 48 && d + 32 <= dst.Length && dst != e
    modifies dst
    ensures dst[..] == Patch(old(dst[..]), d, Substitute(t, e[..]))
  {
    ghost var x, w := dst[..], e[..];
    ghost var y := Substitute(t, w);
    PatchAll(x, d, y);
    var i := 0;
    while i < 8
      invariant 0 <= i <= 8 && e[..] == w && dst[..] == Patch(x, d, y[..4 * i])
    {
      SBox(t, dst, d, e[..], i, x, y);
      i := i + 1;
    }
  }

  /** Lines 368-371: six bits choose a row and a column of box g, whose four bits extend those written so far. */
  method SBox(t: Tables, dst: array<bool>, d: nat, e: Bits, g: nat, ghost x: Bits, ghost y: Bits)
    requires t.WellFormed() && |e| == 48 && g < 8 && d + 32 <= dst.Length == |x|
    requires y == Substitute(t, e) && dst[..] == Patch(x, d, y[..4 * g])
    modifies dst
    ensures dst[..] == Patch(x, d, y[..4 * (g + 1)])
  {
    var r := Digit(e[6 * g]) * 2 + Digit(e[6 * g + 5]) * 1;
    var c := Digit(e[6 * g + 1]) * 8 + Digit(e[6 * g + 2]) * 4 + Digit(e[6 * g + 3]) * 2 + Digit(e[6 * g + 4]) * 1;
    BoxStep(t, e, g, x, d);
    ByteToBit(dst, d + 4 * g, [t.sbox[g][r][c]], 4);
  }

  lemma BoxStep(t: Tables, e: Bits, g: nat, x: Bits, d: nat)
    requires t.WellFormed() && |e| == 48 && g < 8 && d + 32 <= |x|
    ensures var y := Substitute(t, e);
      Patch(Patch(x, d, y[..4 * g]), d + 4 * g, ByteBits([t.sbox[g][SRow(e, g)][SColumn(e, g)]], 4))
      == Patch(x, d, y[..4 * (g + 1)])
  {
    BoxBits(t, e, g);
    PatchPiece(x, d, Substitute(t, e), 4 * g, 4);
  }

  lemma BoxBits(t: Tables, x: Bits, g: nat)
    requires t.WellFormed() && |x| == 48 && g < 8
    ensures ByteBits([t.sbox[g][SRow(x, g)][SColumn(x, g)]], 4) == Substitute(t, x)[4 * g..4 * g + 4]
  {
    var s, v := Substitute(t, x), t.sbox[g][SRow(x, g)][SColumn(x, g)];
    forall j | 0 <= j < 4
      ensures s[4 * g + j] == BitOf(v, j)
    {
      assert (4 * g + j) / 4 == g && (4 * g + j) % 4 == j;
    }
    NibbleBits(v, s[4 * g..4 * g + 4]);
  }

  lemma NibbleBits(v: nat, y: Bits)
    requires |y| == 4 && forall j :: 0 <= j < 4 ==> y[j] == BitOf(v, j)
    ensures ByteBits([v], 4) == y
  {
    forall j | 0 <= j < 4
      ensures ByteBits([v], 4)[j] == y[j]
    {
      assert j / 8 == 0 && j % 8 == j;
    }
  }

  lemma PatchPiece(x: Bits, off: nat, y: Bits, i: nat, n: nat)
    requires off + |y| <= |x| && i + n <= |y|
    ensures Patch(Patch(x, off, y[..i]), off + i, y[i..i + n]) == Patch(x, off, y[..i + n])
  {
  }

  lemma PatchTwice(x: Bits, off: nat, y: Bits, z: Bits)
    requires off + |y| <= |x| && |y| == |z|
    ensures Patch(Patch(x, off, y), off, z) == Patch(x, off, z)
    ensures Patch(x, off, y)[off..off + |y|] == y
  {
  }

  /** f_change: the round function, in place on 32 cells. */
  method FChange(t: Tables, a: array<bool>, off: nat, key: Bits)
    requires t.WellFormed() && off + 32 <= a.Length && |key| == 48
    modifies a
    ensures a[..] == Patch(old(a[..]), off, F(t, old(a[off..off + 32]), key))
  {
    ghost var x, r := a[..], a[off..off + 32];
    var e := new bool[48];
    TblReplace(e, 0, a, off, 32, t.e);
    PatchWhole(e[..], Permute(r, t.e));
    assert e[..] == Permute(r, t.e);
    XorInto(e, 0, key);
    assert e[..] == Xor(Permute(r, t.e), key) by { assert Permute(r, t.e)[0..48] == Permute(r, t.e); }
    SChange(t, a, off, e);
    ghost var y := Substitute(t, e[..]);
    PatchTwice(x, off, y, F(t, r, key));
    TblReplace(a, off, a, off, 32, t.p);
  }

  /** Writing one half of a block leaves the other half. */
  lemma PatchHalves(x: Bits, y: Bits)
    requires |x| == 64 && |y| == 32
    ensures Patch(x, 0, y)[..32] == y && Patch(x, 0, y)[32..] == x[32..]
    ensures Patch(x, 32, y)[..32] == x[..32] && Patch(x, 32, y)[32..] == y
  {
  }

  lemma PatchStart(x: Bits, y: Bits)
    requires |x| == 64 && |y| == 56
    ensures Patch(x, 0, y)[..28] == y[..28] && Patch(x, 0, y)[28..56] == y[28..]
  {
  }

  lemma JoinHalves(x: Bits)
    requires |x| == 64
    ensures x[..32] + x[32..] == x
  {
  }

  class Des {
    const t: Tables
    var subKey: seq<Bits>

    ghost predicate Valid()
      reads this
    {
      t.WellFormed() && GoodKeys(subKey)
    }

    constructor (tables: Tables)
      requires tables.WellFormed()
      ensures Valid() && t == tables
    {
      t := tables;
      subKey := seq(16, i => seq(48, j => false));
    }

    /** set_key */
    method SetKey(key: seq<nat>)
      requires Valid() && |key| == 8
      modifies this
      ensures Valid() && subKey == Schedule(t, ByteBits(key, 64))
    {
      ghost var k := ByteBits(key, 64);
      var bits := KeyBits(key);
      var i := 0;
      while i < 16
        invariant 0 <= i <= 16 && GoodKeys(subKey) && fresh(bits) && bits.Length == 64
        invariant (bits[..28], bits[28..56]) == Halves(t, k, i)
        invariant forall n :: 0 <= n < i ==> subKey[n] == SubKey(t, k, n)
      {
        var next := KeyRound(bits, i, k);
        subKey := subKey[i := next];
        i := i + 1;
      }
      assert subKey == Schedule(t, k);
    }

    /** Lines 353-354: the permuted key bits. */
    method KeyBits(key: seq<nat>) returns (bits: array<bool>)
      requires t.WellFormed() && |key| == 8
      ensures fresh(bits) && bits.Length == 64
      ensures (bits[..28], bits[28..56]) == Halves(t, ByteBits(key, 64), 0)
    {
      ghost var k := ByteBits(key, 64);
      bits := new bool[64];
      PatchWhole(bits[..], k);
      ByteToBit(bits, 0, key, 64);
      assert bits[0..64] == k;
      ghost var x := Permute(k, t.pc1);
      PatchStart(k, x);
      TblReplace(bits, 0, bits, 0, 64, t.pc1);
    }

    /** Lines 356-358: rotate both halves and select the subkey. */
    method KeyRound(bits: array<bool>, i: nat, ghost k: Bits) returns (next: Bits)
      requires t.WellFormed() && bits.Length == 64 && i < 16 && |k| == 64
      requires (bits[..28], bits[28..56]) == Halves(t, k, i)
      modifies bits
      ensures (bits[..28], bits[28..56]) == Halves(t, k, i + 1)
      ensures next == SubKey(t, k, i)
    {
      PrefixMonotone(t.shifts, i + 1, 16);
      RotateHalves(bits, t.shifts[i]);
      var sk := new bool[48];
      TblReplace(sk, 0, bits, 0, 56, t.pc2);
      assert bits[0..56] == bits[..28] + bits[28..56];
      next := sk[..];
      PatchWhole(next, SubKey(t, k, i));
    }

    method RotateHalves(bits: array<bool>, k: nat)
      requires bits.Length == 64 && k <= 28
      modifies bits
      ensures bits[..28] == Rotate(old(bits[..28]), k) && bits[28..56] == Rotate(old(bits[28..56]), k)
    {
      ghost var x := bits[..];
      LoopBit(bits, 0, k, 28);
      assert x[0..28] == x[..28];
      assert bits[28..56] == x[28..56];
      LoopBit(bits, 28, k, 28);
    }

    /** One pass of the encryption loop, lines 407-410. */
    method Forward(msg: array<bool>, k: Bits)
      requires t.WellFormed() && msg.Length == 64 && |k| == 48
      modifies msg
      ensures (msg[..32], msg[32..]) == Round(RoundFunction(t), old((msg[..32], msg[32..])), k)
    {
      ghost var l, r := msg[..32], msg[32..];
      var tmp := new bool[32];
      PatchWhole(tmp[..], r);
      BitCpy(tmp, 0, msg, 32, 32, tmp[..], r);
      assert msg[32..64] == r;
      PatchHalves(msg[..], F(t, r, k));
      FChange(t, msg, 32, k);
      PatchHalves(msg[..], Xor(F(t, r, k), l));
      assert msg[..32] == l && msg[32..32 + 32] == F(t, r, k);
      XorInto(msg, 32, msg[..32]);
      PatchHalves(msg[..], r);
      BitCpy(msg, 0, tmp, 0, 32, msg[..], r);
    }

    /** One pass of the decryption loop, lines 430-433. */
    method Backward(msg: array<bool>, k: Bits)
      requires t.WellFormed() && msg.Length == 64 && |k| == 48
      modifies msg
      ensures (msg[..32], msg[32..]) == Unround(RoundFunction(t), old((msg[..32], msg[32..])), k)
    {
      ghost var l, r := msg[..32], msg[32..];
      var tmp := new bool[32];
      PatchWhole(tmp[..], l);
      BitCpy(tmp, 0, msg, 0, 32, tmp[..], l);
      assert msg[0..32] == l;
      PatchHalves(msg[..], F(t, l, k));
      FChange(t, msg, 0, k);
      PatchHalves(msg[..], Xor(F(t, l, k), r));
      assert msg[32..] == r && msg[0..0 + 32] == F(t, l, k);
      XorInto(msg, 0, msg[32..]);
      PatchHalves(msg[..], l);
      BitCpy(msg, 32, tmp, 0, 32, msg[..], l);
    }

    /** The sixteen rounds of encrypt. */
    method AllForward(msg: array<bool>)
      requires Valid() && msg.Length == 64
      modifies msg
      ensures (msg[..32], msg[32..]) == Rounds(RoundFunction(t), old((msg[..32], msg[32..])), subKey, 16)
    {
      ghost var f, b := RoundFunction(t), (msg[..32], msg[32..]);
      var i := 0;
      while i < 16
        invariant 0 <= i <= 16 && (msg[..32], msg[32..]) == Rounds(f, b, subKey, i)
      {
        Forward(msg, subKey[i]);
        i := i + 1;
      }
    }

    /** The sixteen rounds of decrypt, from the last subkey to the first. */
    method AllBackward(msg: array<bool>)
      requires Valid() && msg.Length == 64
      modifies msg
      ensures (msg[..32], msg[32..]) == Unrounds(RoundFunction(t), old((msg[..32], msg[32..])), subKey, 16)
    {
      ghost var f, b := RoundFunction(t), (msg[..32], msg[32..]);
      var i := 16;
      while i > 0
        invariant 0 <= i <= 16
        invariant Unrounds(f, (msg[..32], msg[32..]), subKey, i) == Unrounds(f, b, subKey, 16)
      {
        i := i - 1;
        Backward(msg, subKey[i]);
      }
    }

    method Encrypt(plain: seq<nat>) returns (cypher: seq<nat>)
      requires Valid() && |plain| == 8
      ensures cypher == Encipher(t, subKey, plain)
    {
      ghost var m := ByteBits(plain, 64);
      var msg := new bool[64];
      ByteToBit(msg, 0, plain, 64);
      PatchWhole(msg[..], m);
      Permute64(msg, t.ip);
      RoundLengths(t, Enter(t, m), subKey, 16);
      AllForward(msg);
      JoinHalves(msg[..]);
      Permute64(msg, t.ipr);
      assert msg[..] == EncryptBits(t, subKey, m);
      cypher := BitToHex(msg);
    }

    method Decrypt(cypher: seq<nat>) returns (plain: seq<nat>)
      requires Valid() && |cypher| == 16
      ensures plain == Decipher(t, subKey, cypher)
    {
      ghost var c := HexBits(cypher);
      var msg := new bool[64];
      HexToBit(msg, cypher);
      Permute64(msg, t.ip);
      RoundLengths(t, Enter(t, c), subKey, 16);
      AllBackward(msg);
      JoinHalves(msg[..]);
      Permute64(msg, t.ipr);
      assert msg[..] == DecryptBits(t, subKey, c);
      plain := BitToByte(msg);
    }

    method Permute64(msg: array<bool>, table: Table)
      requires msg.Length == 64 && Selects(table, 8, 64)
      modifies msg
      ensures msg[..] == Permute(old(msg[..]), table)
    {
      ghost var x := msg[..];
      assert x[0..64] == x;
      TblReplace(msg, 0, msg, 0, 64, table);
      PatchWhole(x, Permute(x, table));
    }
  }

  /** The whole trip: set the key, encrypt eight bytes to hex, decrypt them again. */
  method RoundTrip(tables: Tables, key: seq<nat>, plain: seq<nat>) returns (out: seq<nat>)
    requires tables.WellFormed() && |key| == 8 && |plain| == 8 && Bytes(plain)
    ensures out == plain
  {
    var des := new Des(tables);
    des.SetKey(key);
    var cypher := des.Encrypt(plain);
    out := des.Decrypt(cypher);
    DecipherEncipher(tables, des.subKey, plain);
  }
}
