/** Powers, division with remainder and congruences: the integer facts that the
    limb arithmetic and the number theory below are built on. */
module Arithmetic {

  function Pow(b: int, e: nat): int
    decreases e
  {
    if e == 0 then 1 else b * Pow(b, e - 1)
  }

  // ---------------------------------------------------------------- products

  lemma MulMonotone(a: int, x: int, y: int)
    requires 0 <= a && x <= y
    ensures a * x <= a * y
    ensures x * a <= y * a
  {
  }

  lemma MulNonNegative(a: int, b: int)
    requires 0 <= a && 0 <= b
    ensures 0 <= a * b
  {
  }

  lemma MulPositive(a: int, b: int)
    requires 0 < a && 0 < b
    ensures 0 < a * b && a <= a * b && b <= a * b
  {
    MulMonotone(a, 1, b);
    MulMonotone(b, 1, a);
  }

  lemma MulAssociative(a: int, b: int, c: int)
    ensures (a * b) * c == a * (b * c)
  {
  }

  lemma MulInterchange(a: int, b: int, x: int, y: int)
    ensures (a * b) * (x * y) == (a * x) * (b * y)
  {
    assert (a * b) * (x * y) == a * (b * (x * y)) == a * (x * (b * y));
  }

  /** A multiple of d that lies strictly between -d and d is zero. */
  lemma SmallMultiple(k: int, d: int)
    requires 0 < d && -d < k * d < d
    ensures k == 0
  {
    if k >= 1 {
      MulMonotone(d, 1, k);
    } else if k <= -1 {
      MulMonotone(d, k, -1);
    }
  }

  // ------------------------------------------------------ quotient, remainder

  lemma DivModUnique(a: int, d: int, q: int, r: int)
    requires 0 < d && a == q * d + r && 0 <= r < d
    ensures a / d == q && a % d == r
  {
    var k := a / d - q;
    assert a == (a / d) * d + a % d;
    assert k * d == (a / d) * d - q * d;
    assert k * d == r - a % d;
    SmallMultiple(k, d);
  }

  lemma ModOfMultiple(k: int, d: int)
    requires 0 < d
    ensures (k * d) % d == 0 && (d * k) % d == 0 && (k * d) / d == k
  {
    DivModUnique(k * d, d, k, 0);
    assert d * k == k * d;
  }

  lemma DivisibleWitness(a: int, d: int) returns (k: int)
    requires 0 < d && a % d == 0
    ensures a == k * d
  {
    k := a / d;
    assert a == d * (a / d) + a % d;
  }

  lemma DivisibleMul(a: int, b: int, d: int)
    requires 0 < d && a % d == 0
    ensures (a * b) % d == 0 && (b * a) % d == 0
  {
    var k := DivisibleWitness(a, d);
    assert a * b == (k * b) * d;
    assert b * a == a * b;
    ModOfMultiple(k * b, d);
  }

  lemma DivisibleAdd(a: int, b: int, d: int)
    requires 0 < d && a % d == 0 && b % d == 0
    ensures (a + b) % d == 0 && (a - b) % d == 0
  {
    var k := DivisibleWitness(a, d);
    var l := DivisibleWitness(b, d);
    assert a + b == (k + l) * d;
    assert a - b == (k - l) * d;
    ModOfMultiple(k + l, d);
    ModOfMultiple(k - l, d);
  }

  lemma DivisibleTransitive(a: int, b: int, c: int)
    requires 0 < a && 0 < b && b % a == 0 && c % b == 0
    ensures c % a == 0
  {
    var k := DivisibleWitness(c, b);
    DivisibleMul(b, k, a);
  }

  lemma DivisorBound(d: int, a: int)
    requires 0 < d && 0 < a && a % d == 0
    ensures d <= a
  {
    var k := DivisibleWitness(a, d);
    if k <= 0 {
      MulMonotone(d, k, 0);
    } else {
      MulMonotone(d, 1, k);
    }
  }

  // -------------------------------------------------------------- congruence

  predicate Cong(a: int, b: int, n: int)
    requires 0 < n
  {
    (a - b) % n == 0
  }

  lemma CongWitness(a: int, b: int, n: int) returns (k: int)
    requires 0 < n && Cong(a, b, n)
    ensures a == b + k * n
  {
    k := DivisibleWitness(a - b, n);
  }

  lemma CongIntro(a: int, b: int, n: int, k: int)
    requires 0 < n && a == b + k * n
    ensures Cong(a, b, n)
  {
    assert a - b == k * n;
    ModOfMultiple(k, n);
  }

  lemma CongSymmetric(a: int, b: int, n: int)
    requires 0 < n && Cong(a, b, n)
    ensures Cong(b, a, n)
  {
    var k := CongWitness(a, b, n);
    assert b == a + (-k) * n;
    CongIntro(b, a, n, -k);
  }

  lemma CongTransitive(a: int, b: int, c: int, n: int)
    requires 0 < n && Cong(a, b, n) && Cong(b, c, n)
    ensures Cong(a, c, n)
  {
    DivisibleAdd(a - b, b - c, n);
    assert (a - b) + (b - c) == a - c;
  }

  lemma CongAdd(a: int, b: int, c: int, d: int, n: int)
    requires 0 < n && Cong(a, b, n) && Cong(c, d, n)
    ensures Cong(a + c, b + d, n) && Cong(a - c, b - d, n)
  {
    DivisibleAdd(a - b, c - d, n);
    assert (a - b) + (c - d) == (a + c) - (b + d);
    assert (a - b) - (c - d) == (a - c) - (b - d);
  }

  lemma CongMul(a: int, b: int, c: int, d: int, n: int)
    requires 0 < n && Cong(a, b, n) && Cong(c, d, n)
    ensures Cong(a * c, b * d, n)
  {
    DivisibleMul(a - b, c, n);
    DivisibleMul(c - d, b, n);
    DivisibleAdd((a - b) * c, b * (c - d), n);
    assert (a - b) * c + b * (c - d) == a * c - b * d;
  }

  lemma {:induction false} CongPow(a: int, b: int, e: nat, n: int)
    requires 0 < n && Cong(a, b, n)
    ensures Cong(Pow(a, e), Pow(b, e), n)
    decreases e
  {
    if e == 0 {
      CongRefl(1, n);
    } else {
      CongPow(a, b, e - 1, n);
      CongMul(a, b, Pow(a, e - 1), Pow(b, e - 1), n);
    }
  }

  lemma CongRefl(a: int, n: int)
    requires 0 < n
    ensures Cong(a, a, n)
  {
    assert a == a + 0 * n;
    CongIntro(a, a, n, 0);
  }

  lemma CongMod(a: int, n: int)
    requires 0 < n
    ensures Cong(a % n, a, n) && Cong(a, a % n, n)
  {
    assert a == n * (a / n) + a % n;
    assert a == a % n + (a / n) * n;
    CongIntro(a, a % n, n, a / n);
    CongSymmetric(a, a % n, n);
  }

  /** Congruence is equality of remainders. */
  lemma CongIffMod(a: int, b: int, n: int)
    requires 0 < n
    ensures Cong(a, b, n) <==> a % n == b % n
  {
    assert a == (a / n) * n + a % n;
    assert b == (b / n) * n + b % n;
    if Cong(a, b, n) {
      var k := CongWitness(a, b, n);
      assert a == (b / n + k) * n + b % n;
      DivModUnique(a, n, b / n + k, b % n);
    }
    if a % n == b % n {
      assert a == b + (a / n - b / n) * n;
      CongIntro(a, b, n, a / n - b / n);
    }
  }

  lemma CongSmallEqual(a: int, b: int, n: int)
    requires 0 < n && 0 <= a < n && 0 <= b < n && Cong(a, b, n)
    ensures a == b
  {
    CongIffMod(a, b, n);
    DivModUnique(a, n, 0, a);
    DivModUnique(b, n, 0, b);
  }

  /** A congruence modulo a multiple of d is one modulo d. */
  lemma CongDivisor(a: int, b: int, n: int, d: int)
    requires 0 < n && 0 < d && n % d == 0 && Cong(a, b, n)
    ensures Cong(a, b, d)
  {
    DivisibleTransitive(d, n, a - b);
  }

  lemma ModMul(a: int, b: int, n: int)
    requires 0 < n
    ensures ((a % n) * (b % n)) % n == (a * b) % n
    ensures ((a % n) * b) % n == (a * b) % n
    ensures (a * (b % n)) % n == (a * b) % n
  {
    CongMod(a, n);
    CongMod(b, n);
    CongRefl(a, n);
    CongRefl(b, n);
    CongMul(a % n, a, b % n, b, n);
    CongIffMod((a % n) * (b % n), a * b, n);
    CongMul(a % n, a, b, b, n);
    CongIffMod((a % n) * b, a * b, n);
    CongMul(a, a, b % n, b, n);
    CongIffMod(a * (b % n), a * b, n);
  }

  lemma PowMod(a: int, e: nat, n: int)
    requires 0 < n
    ensures Pow(a % n, e) % n == Pow(a, e) % n
  {
    CongMod(a, n);
    CongPow(a % n, a, e, n);
    CongIffMod(Pow(a % n, e), Pow(a, e), n);
  }

  // ------------------------------------------------------------------ powers

  lemma {:induction false} PowAdd(b: int, e: nat, f: nat)
    ensures Pow(b, e + f) == Pow(b, e) * Pow(b, f)
    decreases e
  {
    if e > 0 {
      PowAdd(b, e - 1, f);
      assert e + f - 1 == (e - 1) + f;
      calc {
        Pow(b, e + f);
        b * Pow(b, e + f - 1);
        b * (Pow(b, e - 1) * Pow(b, f));
        (b * Pow(b, e - 1)) * Pow(b, f);
      }
    }
  }

  lemma {:induction false} PowPow(b: int, e: nat, f: nat)
    ensures 0 <= e * f && Pow(Pow(b, e), f) == Pow(b, e * f)
    decreases f
  {
    MulNonNegative(e, f);
    if f > 0 {
      PowPow(b, e, f - 1);
      assert e * f == e + e * (f - 1);
      PowAdd(b, e, e * (f - 1));
    } else {
      assert e * f == 0;
    }
  }

  lemma {:induction false} PowProduct(a: int, b: int, e: nat)
    ensures Pow(a * b, e) == Pow(a, e) * Pow(b, e)
    decreases e
  {
    if e > 0 {
      PowProduct(a, b, e - 1);
      MulInterchange(a, b, Pow(a, e - 1), Pow(b, e - 1));
    }
  }

  lemma {:induction false} PowOne(e: nat)
    ensures Pow(1, e) == 1
    decreases e
  {
    if e > 0 {
      PowOne(e - 1);
    }
  }

  lemma {:induction false} PowPositive(b: int, e: nat)
    requires 0 < b
    ensures 0 < Pow(b, e)
    decreases e
  {
    if e > 0 {
      PowPositive(b, e - 1);
      MulPositive(b, Pow(b, e - 1));
    }
  }

  lemma {:induction false} PowMonotone(b: int, e: nat, f: nat)
    requires 1 < b && e <= f
    ensures 0 < Pow(b, e) <= Pow(b, f)
    ensures e < f ==> b * Pow(b, e) <= Pow(b, f)
    decreases f
  {
    PowPositive(b, e);
    if e < f {
      PowMonotone(b, e, f - 1);
      MulMonotone(b, Pow(b, e), Pow(b, f - 1));
      MulMonotone(Pow(b, e), 1, b);
    }
  }

  lemma CongPowOne(a: int, e: nat, f: nat, n: int)
    requires 0 < n && Cong(Pow(a, e), 1, n)
    ensures 0 <= e * f && Cong(Pow(a, e * f), 1, n)
  {
    CongPow(Pow(a, e), 1, f, n);
    PowPow(a, e, f);
    PowOne(f);
  }

  /** Moving a digit d of weight w, and the value v below it, up by a factor u. */
  lemma ShiftAlgebra(v: int, d: int, w: int, u: int)
    ensures v * u + d * (w * u) == (v + d * w) * u
  {
    assert d * (w * u) == (d * w) * u;
  }

  // -------------------------------------------------------- machine integers

  const TWO_32: int := 0x1_0000_0000
  const TWO_64: int := 0x1_0000_0000_0000_0000
  const MAX_INT: int := 0x7fff_ffff
  const MAX_LONG: int := 0x7fff_ffff_ffff_ffff

  /** The value that a 32-bit, resp. 64-bit, two's complement integer holds after overflow. */
  function Wrap32(x: int): int {
    (x + 0x8000_0000) % TWO_32 - 0x8000_0000
  }

  function Wrap64(x: int): int {
    (x + 0x8000_0000_0000_0000) % TWO_64 - 0x8000_0000_0000_0000
  }

  lemma NoWrap32(x: int)
    requires -0x8000_0000 <= x <= MAX_INT
    ensures Wrap32(x) == x
  {
    DivModUnique(x + 0x8000_0000, TWO_32, 0, x + 0x8000_0000);
  }

  lemma NoWrap64(x: int)
    requires 0 <= x <= MAX_LONG
    ensures Wrap64(x) == x
  {
    DivModUnique(x + 0x8000_0000_0000_0000, TWO_64, 0, x + 0x8000_0000_0000_0000);
  }

  /** (v >> j) & 1; an arithmetic shift rounds down, as / does here. */
  function Bit(v: int, j: nat): nat {
    PowPositive(2, j);
    (v / Pow(2, j)) % 2
  }

  /** Bit j + 1 of v is bit j of v / 2. */
  lemma BitOfHalf(v: int, j: nat)
    ensures Bit(v, j + 1) == Bit(v / 2, j)
  {
    PowPositive(2, j);
    var w := Pow(2, j);
    var h, b := v / 2, v % 2;
    var q, r := h / w, h % w;
    assert v == 2 * h + b && h == w * q + r;
    assert 2 * (w * q + r) + b == q * (2 * w) + (2 * r + b);
    DivModUnique(v, 2 * w, q, 2 * r + b);
  }

  /** The same bit as a truth value, found by halving. */
  function BitOf(v: int, j: nat): bool
    decreases j
  {
    if j == 0 then v % 2 == 1 else BitOf(v / 2, j - 1)
  }

  lemma {:induction false} BitOfIsBit(v: int, j: nat)
    ensures BitOf(v, j) <==> Bit(v, j) == 1
    decreases j
  {
    if j == 0 {
      assert Pow(2, 0) == 1;
    } else {
      BitOfIsBit(v / 2, j - 1);
      BitOfHalf(v, j - 1);
    }
  }

  /** The low j + 1 bits are the low j bits and bit j. */
  lemma SplitBit(row: int, w: int)
    requires 0 < w
    ensures row % (2 * w) == row % w + ((row / w) % 2) * w
  {
    var q, r := row / w, row % w;
    var h, b := q / 2, q % 2;
    assert row == w * q + r && q == 2 * h + b;
    assert w * (2 * h + b) == h * (2 * w) + b * w;
    MulMonotone(w, b, 1);
    MulNonNegative(b, w);
    DivModUnique(row, 2 * w, h, b * w + r);
  }
}
