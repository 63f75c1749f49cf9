/** operator* of cpp/BigNum.cpp: schoolbook multiplication with one carry variable
    that is declared outside both loops and never reset. */
module LimbMul {
  import opened Arithmetic
  import opened Limbs

  /** One inner iteration: the 64-bit sum cannot overflow, and its carry fits a limb. */
  lemma WordSum(a: nat, b: nat, c: nat, p: nat)
    requires a < BASE && b < BASE && c < BASE && p < BASE
    ensures 0 <= a * b + c + p < BASE * BASE
    ensures 0 <= (a * b + c + p) / BASE < BASE
  {
    MulMonotone(a, b, BASE - 1);
    MulMonotone(BASE - 1, a, BASE - 1);
    MulNonNegative(a, b);
  }

  lemma RowStep(val: int, acc: int, c: int, w: int, ab: int, p: int, v: int, d: int)
    requires val + c * w == acc && v + d * BASE == p + ab + c
    ensures val + (v - p) * w + d * (BASE * w) == acc + ab * w
  {
    assert (v - p) * w + (d * BASE) * w == (v - p + d * BASE) * w;
    assert (v - p + d * BASE) * w == (ab + c) * w == ab * w + c * w;
    assert d * (BASE * w) == (d * BASE) * w;
  }

  /** digit * v, shifted up by i limbs. */
  function Shifted(digit: int, v: int, i: nat): int {
    (digit * v) * Pow(BASE, i)
  }

  lemma ShiftedStep(digit: int, below: int, xj: int, i: nat, j: nat)
    ensures Shifted(digit, below + xj * Pow(BASE, j), i)
         == Shifted(digit, below, i) + (digit * xj) * Pow(BASE, i + j)
  {
    PowAdd(BASE, j, i);
    var u, w := Pow(BASE, i), Pow(BASE, j);
    assert digit * (below + xj * w) == digit * below + (digit * xj) * w;
    assert (digit * below + (digit * xj) * w) * u == (digit * below) * u + (digit * xj) * w * u;
    assert (digit * xj) * w * u == (digit * xj) * (w * u);
  }

  /** Accumulator and carry after j steps of a row. */
  predicate RowDone(out: seq<nat>, carry: nat, start: nat, xs: seq<nat>, digit: nat, i: nat, j: nat)
    requires |out| == LEN1 && j <= |xs|
  {
    ValTo(out, LEN1) + carry * Pow(BASE, i + j) == start + Shifted(digit, ValTo(xs, j), i)
  }

  lemma RowKeeps(out: seq<nat>, carry: nat, start: nat, xs: seq<nat>, digit: nat, i: nat, j: nat, total: nat)
    requires |out| == LEN1 && j < |xs| && i + j < LEN1
    requires RowDone(out, carry, start, xs, digit, i, j)
    requires total == digit * xs[j] + carry + out[i + j]
    ensures RowDone(out[i + j := total % BASE], total / BASE, start, xs, digit, i, j + 1)
  {
    ValUpdate(out, i + j, total % BASE, LEN1);
    RowStep(ValTo(out, LEN1), start + Shifted(digit, ValTo(xs, j), i), carry, Pow(BASE, i + j),
            digit * xs[j], out[i + j], total % BASE, total / BASE);
    ShiftedStep(digit, ValTo(xs, j), xs[j], i, j);
  }

  /** One row, starting from the carry the previous row left: adds digit * x, shifted by i
      limbs, to the accumulator and hands a zero carry on. */
  method AddRow(pro: seq<nat>, carryIn: nat, x: BigNum, digit: nat, i: nat) returns (out: seq<nat>, carry: nat)
    requires x.Valid() && digit < BASE && i + x.length < LEN1 && carryIn == 0
    requires |pro| == LEN1 && AllLimbs(pro) && ZeroAbove(pro, i + x.length)
    ensures |out| == LEN1 && AllLimbs(out) && ZeroAbove(out, i + x.length + 1)
    ensures ValTo(out, LEN1) == ValTo(pro, LEN1) + Shifted(digit, x.Mag(), i)
    ensures carry == 0
  {
    out, carry := pro, carryIn;
    var j := 0;
    while j <= x.length
      invariant 0 <= j <= x.length + 1 && |out| == LEN1 && AllLimbs(out) && carry < BASE
      invariant ZeroAbove(out, i + x.length + if j <= x.length then 0 else 1)
      invariant j == x.length + 1 ==> carry == 0
      invariant RowDone(out, carry, ValTo(pro, LEN1), x.limbs, digit, i, j)
    {
      WordSum(digit, x.limbs[j], carry, out[i + j]);
      var p := digit * x.limbs[j] + carry;
      var total := out[i + j] + p;
      RowKeeps(out, carry, ValTo(pro, LEN1), x.limbs, digit, i, j, total);
      carry := if total > 0xffff_ffff then total / BASE else 0;
      out := out[i + j := total % BASE];
      j := j + 1;
    }
    MagAtAnyLength(x, x.length + 1);
  }

  lemma NextRow(m: int, v: int, d: int, i: nat)
    ensures m * (v + d * Pow(BASE, i)) == m * v + Shifted(d, m, i)
  {
    var w := Pow(BASE, i);
    assert m * (v + d * w) == m * v + m * (d * w);
    assert m * (d * w) == (d * m) * w;
  }

  /** The limbs of the result represent the product, for all lengths that fit. */
  method Mul(x: BigNum, y: BigNum) returns (r: BigNum)
    requires x.Valid() && y.Valid() && x.length + y.length <= LEN1
    ensures r.Valid() && r.neg == (x.neg != y.neg) && r.length <= x.length + y.length
    ensures r.Mag() == x.Mag() * y.Mag() && r.Value() == x.Value() * y.Value()
  {
    var pro: seq<nat> := ZERO_LIMBS;
    var carry := 0;
    ValZeros(pro, 0, LEN1);
    var i := 0;
    while i < y.length
      invariant 0 <= i <= y.length && |pro| == LEN1 && AllLimbs(pro) && ZeroAbove(pro, i + x.length)
      invariant carry == 0
      invariant ValTo(pro, LEN1) == x.Mag() * ValTo(y.limbs, i)
    {
      NextRow(x.Mag(), ValTo(y.limbs, i), y.limbs[i], i);
      pro, carry := AddRow(pro, carry, x, y.limbs[i], i);
      i := i + 1;
    }
    ValZeros(pro, x.length + y.length, LEN1);
    r := Trim(x.neg != y.neg, pro, x.length + y.length);
    SignRule(x.Mag(), y.Mag());
  }

  lemma SignRule(a: int, b: int)
    ensures (0 - a) * b == 0 - a * b && a * (0 - b) == 0 - a * b && (0 - a) * (0 - b) == a * b
  {
  }
}
