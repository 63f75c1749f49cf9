/** power_mod, ex_euclid, Gcd and Lcm of cpp/BigNum.cpp, on limb numbers. */
module ModularAlgorithms {
  import opened Arithmetic
  import NT = NumberTheory
  import opened Limbs
  import opened LimbAddSub
  import opened LimbMul
  import opened LimbDiv

  // ------------------------------------------------------- square-and-multiply

  lemma PowTwo32()
    ensures Pow(2, 32) == BASE
  {
    assert Pow(2, 4) == 16;
    PowAdd(2, 4, 4);
    PowAdd(2, 8, 8);
    PowAdd(2, 16, 16);
  }

  /** The accumulator x and the squared base s, after the exponent bits worth e were read. */
  predicate PowState(x: nat, s: nat, base: nat, n: nat, e: nat, w: nat)
    requires 0 < n
  {
    Cong(x, Pow(base, e), n) && Cong(s, Pow(base, w), n)
  }

  lemma SquareStep(x: nat, s: nat, base: nat, n: nat, e: nat, w: nat)
    requires 0 < n && PowState(x, s, base, n, e, w)
    ensures PowState((x * s) % n, (s * s) % n, base, n, e + w, 2 * w)
    ensures PowState(x, (s * s) % n, base, n, e, 2 * w)
  {
    CongMul(x, Pow(base, e), s, Pow(base, w), n);
    CongMul(s, Pow(base, w), s, Pow(base, w), n);
    PowAdd(base, e, w);
    PowAdd(base, w, w);
    CongMod(x * s, n);
    CongMod(s * s, n);
    CongTransitive((x * s) % n, x * s, Pow(base, e + w), n);
    CongTransitive((s * s) % n, s * s, Pow(base, 2 * w), n);
  }

  /** The exponent read so far: all limbs below i and j bits of limb i. */
  function ExponentRead(s: seq<nat>, i: nat, j: nat): nat
    requires i < |s|
  {
    PowPositive(2, j);
    PowPositive(BASE, i);
    MulNonNegative(s[i] % Pow(2, j), Pow(BASE, i));
    ValTo(s, i) + (s[i] % Pow(2, j)) * Pow(BASE, i)
  }

  function BitWeight(i: nat, j: nat): nat {
    PowPositive(2, j);
    PowPositive(BASE, i);
    MulPositive(Pow(2, j), Pow(BASE, i));
    Pow(2, j) * Pow(BASE, i)
  }

  lemma ReadBit(s: seq<nat>, i: nat, j: nat)
    requires i < |s|
    ensures ExponentRead(s, i, j + 1) == ExponentRead(s, i, j) + if Bit(s[i], j) == 1 then BitWeight(i, j) else 0
    ensures BitWeight(i, j + 1) == 2 * BitWeight(i, j)
  {
    PowPositive(2, j);
    SplitBit(s[i], Pow(2, j));
    var w, u := Pow(2, j), Pow(BASE, i);
    var r, b := s[i] % w, Bit(s[i], j);
    assert (r + b * w) * u == r * u + b * (w * u);
    assert (2 * w) * u == 2 * (w * u);
  }

  lemma LimbRead(s: seq<nat>, i: nat)
    requires i < |s| && s[i] < BASE
    ensures ExponentRead(s, i, 32) == ValTo(s, i + 1)
    ensures BitWeight(i, 32) == BitWeight(i + 1, 0) == Pow(BASE, i + 1)
    ensures ExponentRead(s, i, 0) == ValTo(s, i)
  {
    PowTwo32();
    DivModUnique(s[i], BASE, 0, s[i]);
    assert Pow(2, 0) == 1 && s[i] % 1 == 0;
    assert 0 * Pow(BASE, i) == 0;
  }

  /** Lines 820-822: multiply when the exponent bit is set, and square. */
  method PowerBit(rule: Rule, x: BigNum, s: BigNum, n: BigNum, bit: nat, ghost base: nat, ghost e: nat, ghost w: nat)
    returns (r: Outcome<BigNum>, s': BigNum)
    requires InRange(x, n) && InRange(s, n) && !n.neg && n.Mag() != 0 && 2 * n.length < LEN1
    requires PowState(x.Mag(), s.Mag(), base, n.Mag(), e, w)
    ensures r.Fair(rule)
    ensures r.Exact? ==> InRange(r.value, n) && InRange(s', n)
    ensures r.Exact? ==> PowState(r.value.Mag(), s'.Mag(), base, n.Mag(), e + (if bit == 1 then w else 0), 2 * w)
  {
    SquareStep(x.Mag(), s.Mag(), base, n.Mag(), e, w);
    s' := s;
    var y := x;
    if bit == 1 {
      y :- MulMod(rule, x, s, n);
    }
    s' :- MulMod(rule, s, s, n);
    r := Exact(y);
  }

  /** Lines 818-823: the 32 bits of one exponent limb. */
  method PowerLimb(rule: Rule, x: BigNum, s: BigNum, n: BigNum, exp: seq<nat>, i: nat, ghost base: nat)
    returns (r: Outcome<BigNum>, s': BigNum)
    requires InRange(x, n) && InRange(s, n) && !n.neg && n.Mag() != 0 && 2 * n.length < LEN1
    requires i < |exp| && exp[i] < BASE
    requires PowState(x.Mag(), s.Mag(), base, n.Mag(), ValTo(exp, i), BitWeight(i, 0))
    ensures r.Fair(rule)
    ensures r.Exact? ==> InRange(r.value, n) && InRange(s', n)
    ensures r.Exact? ==> PowState(r.value.Mag(), s'.Mag(), base, n.Mag(), ValTo(exp, i + 1), BitWeight(i + 1, 0))
  {
    LimbRead(exp, i);
    var y := x;
    s' := s;
    var j := 0;
    while j < 32
      invariant 0 <= j <= 32 && InRange(y, n) && InRange(s', n)
      invariant PowState(y.Mag(), s'.Mag(), base, n.Mag(), ExponentRead(exp, i, j), BitWeight(i, j))
    {
      ReadBit(exp, i, j);
      y, s' :- PowerBit(rule, y, s', n, Bit(exp[i], j), base, ExponentRead(exp, i, j), BitWeight(i, j));
      j := j + 1;
    }
    r := Exact(y);
  }

  /** X^A mod B, one exponent bit at a time.  Congruent to base^exp for every exponent; the
      reduced remainder whenever the modulus is not 1. */
  method PowerMod(rule: Rule, base: BigNum, exp: BigNum, n: BigNum) returns (r: Outcome<BigNum>)
    requires base.Valid() && exp.Valid() && n.Valid() && !base.neg && !n.neg && n.Mag() != 0
    requires base.length < LEN1 && 2 * n.length < LEN1
    ensures r.Fair(rule)
    ensures r.Exact? ==>
              && r.value.Valid() && !r.value.neg && r.value.length <= n.length
              && Cong(r.value.Mag(), Pow(base.Mag(), exp.Mag()), n.Mag())
              && (n.Mag() > 1 ==> r.value.Mag() == Pow(base.Mag(), exp.Mag()) % n.Mag())
  {
    ghost var b, m := base.Mag(), n.Mag();
    var x := FromWord(1);
    var s :- Mod(rule, base, n);
    SmallerIsShorter(s, n);
    CongRefl(1, m);
    CongMod(b, m);
    assert Pow(b, 0) == 1 && Pow(b, 1) == b;
    assert BitWeight(0, 0) == 1 by { assert Pow(2, 0) == 1 && Pow(BASE, 0) == 1; }
    var i := 0;
    while i < exp.length
      invariant 0 <= i <= exp.length
      invariant InRange(x, n) && InRange(s, n)
      invariant PowState(x.Mag(), s.Mag(), b, m, ValTo(exp.limbs, i), BitWeight(i, 0))
    {
      x, s :- PowerLimb(rule, x, s, n, exp.limbs, i, b);
      i := i + 1;
    }
    if m > 1 {
      CongIffMod(x.Mag(), Pow(b, exp.Mag()), m);
      DivModUnique(x.Mag(), m, 0, x.Mag());
    }
    r := Exact(x);
  }

  predicate InRange(x: BigNum, n: BigNum) {
    x.Valid() && n.Valid() && !x.neg && x.length <= n.length && (x.Mag() < n.Mag() || x.Mag() == 1)
  }

  method MulMod(rule: Rule, x: BigNum, y: BigNum, n: BigNum) returns (r: Outcome<BigNum>)
    requires InRange(x, n) && InRange(y, n) && !n.neg && n.Mag() != 0 && 2 * n.length < LEN1
    ensures r.Fair(rule)
    ensures r.Exact? ==> InRange(r.value, n) && r.value.Mag() == (x.Mag() * y.Mag()) % n.Mag()
  {
    var p := Mul(x, y);
    var y' :- Mod(rule, p, n);
    SmallerIsShorter(y', n);
    r := Exact(y');
  }

  // ------------------------------------------------------------ gcd and lcm

  /** The do-while loop of Gcd. */
  method GcdOf(rule: Rule, a0: BigNum, b0: BigNum) returns (g: Outcome<BigNum>)
    requires a0.Valid() && b0.Valid() && !a0.neg && !b0.neg && b0.Mag() != 0
    requires a0.length < LEN1 && b0.length < LEN1
    ensures g.Fair(rule)
    ensures g.Exact? ==>
              && g.value.Valid() && !g.value.neg && g.value.length < LEN1
              && 0 < g.value.Mag() == NT.Gcd(a0.Mag(), b0.Mag())
  {
    var a, b := a0, b0;
    var zero := FromWord(0);
    var more := true;
    while more
      invariant a.Valid() && b.Valid() && !a.neg && !b.neg && a.length < LEN1 && b.length < LEN1
      invariant NT.Gcd(a.Mag(), b.Mag()) == NT.Gcd(a0.Mag(), b0.Mag())
      invariant more <==> b.Mag() != 0
      invariant !more ==> a.Mag() != 0
      decreases b.Mag()
    {
      var i :- Mod(rule, a, b);
      SmallerIsShorter(i, b);
      a := b;
      b := i;
      more := NotEquals(b, zero);
    }
    g := Exact(a);
  }

  function Lcm(a: nat, b: nat): nat
    requires a != 0 || b != 0
  {
    NT.GcdIsGreatest(a, b);
    MulNonNegative(a, b);
    DivBelow(a * b, NT.Gcd(a, b));
    a * b / NT.Gcd(a, b)
  }

  /** It is a common multiple, and every common multiple is a multiple of it. */
  lemma LcmIsLeast(a: nat, b: nat)
    requires 0 < a && 0 < b
    ensures 0 < Lcm(a, b) && Lcm(a, b) % a == 0 && Lcm(a, b) % b == 0
    ensures forall c: int :: c % a == 0 && c % b == 0 ==> c % Lcm(a, b) == 0
  {
    LcmIsCommonMultiple(a, b);
    forall c: int | c % a == 0 && c % b == 0
      ensures c % Lcm(a, b) == 0
    {
      LcmDividesMultiple(a, b, c);
    }
  }

  /** By Bezout: gcd(a, b) * c is a combination of b * c and a * c, both multiples of a * b. */
  lemma LcmDividesMultiple(a: nat, b: nat, c: int)
    requires 0 < a && 0 < b && 0 < Lcm(a, b) && c % a == 0 && c % b == 0
    ensures c % Lcm(a, b) == 0
  {
    var g, l := NT.Gcd(a, b), Lcm(a, b);
    NT.GcdIsGreatest(a, b);
    var s := DivisibleWitness(c, a);
    var t := DivisibleWitness(c, b);
    var x, y := NT.Bezout(a, b);
    var k := t * x + s * y;
    assert g * c == k * (a * b) by { BezoutMultiple(a, b, c, g, x, y, s, t); }
    assert a * b == l * g by { LcmTimesGcd(a, b); }
    assert g * c == g * (k * l) by { Rotate(k, l, g); }
    CancelFactor(g, c, k * l);
    ModOfMultiple(k, l);
  }

  lemma BezoutMultiple(a: int, b: int, c: int, g: int, x: int, y: int, s: int, t: int)
    requires a * x + b * y == g && c == s * a && c == t * b
    ensures g * c == (t * x + s * y) * (a * b)
  {
    assert g * c == (a * x) * c + (b * y) * c;
    assert (a * x) * (t * b) == (t * x) * (a * b);
    assert (b * y) * (s * a) == (s * y) * (a * b);
  }

  lemma LcmTimesGcd(a: nat, b: nat)
    requires 0 < a && 0 < b
    ensures a * b == Lcm(a, b) * NT.Gcd(a, b)
  {
    NT.GcdIsGreatest(a, b);
    DivisibleMul(a, b, NT.Gcd(a, b));
    var k := DivisibleWitness(a * b, NT.Gcd(a, b));
    ModOfMultiple(k, NT.Gcd(a, b));
  }

  lemma Rotate(k: int, l: int, g: int)
    ensures k * (l * g) == g * (k * l)
  {
  }

  lemma CancelFactor(g: int, x: int, y: int)
    requires 0 < g && g * x == g * y
    ensures x == y
  {
    assert (x - y) * g == 0;
    SmallMultiple(x - y, g);
  }

  lemma LcmIsCommonMultiple(a: nat, b: nat)
    requires 0 < a && 0 < b
    ensures 0 < Lcm(a, b) && Lcm(a, b) % a == 0 && Lcm(a, b) % b == 0
  {
    NT.GcdIsGreatest(a, b);
    LcmTimesGcd(a, b);
    var g, l := NT.Gcd(a, b), Lcm(a, b);
    var s := DivisibleWitness(a, g);
    var t := DivisibleWitness(b, g);
    Cofactor(a, b, t, g, l);
    Cofactor(b, a, s, g, l);
    ModOfMultiple(t, a);
    ModOfMultiple(s, b);
    MulPositive(a, b);
    if l <= 0 { MulMonotone(g, l, 0); }
  }

  lemma Cofactor(a: int, b: int, t: int, g: int, l: int)
    requires 0 < g && b == t * g && (a * b == l * g || b * a == l * g)
    ensures l == t * a
  {
    assert g * l == g * (t * a);
    CancelFactor(g, l, t * a);
  }

  method LcmOf(rule: Rule, a: BigNum, b: BigNum) returns (r: Outcome<BigNum>)
    requires a.Valid() && b.Valid() && !a.neg && !b.neg && b.Mag() != 0 && a.length + b.length < LEN1
    ensures r.Fair(rule)
    ensures r.Exact? ==>
              && r.value.Valid() && !r.value.neg && r.value.length <= a.length + b.length
              && r.value.Mag() == Lcm(a.Mag(), b.Mag())
  {
    var g :- GcdOf(rule, a, b);
    var p := Mul(a, b);
    r := Div(rule, p, g);
  }

  // -------------------------------------------------------- extended Euclid

  /** Every iteration keeps A = X * a and B = U * a modulo b, and gcd(A, B). */
  predicate Combination(a0: nat, b0: nat, a: nat, b: nat, x: int, u: int)
    requires 0 < b0
  {
    Cong(a, x * a0, b0) && Cong(b, u * a0, b0) && NT.Gcd(a, b) == NT.Gcd(a0, b0)
  }

  lemma CombinationStep(a0: nat, b0: nat, a: nat, b: nat, x: int, u: int)
    requires 0 < b0 && 0 < b && Combination(a0, b0, a, b, x, u)
    ensures Combination(a0, b0, b, a % b, u, x - (a / b) * u)
  {
    var q := a / b;
    assert a == b * q + a % b;
    assert a % b == a - q * b;
    CongRefl(q, b0);
    CongMul(q, q, b, u * a0, b0);
    CongAdd(a, x * a0, q * b, q * (u * a0), b0);
    assert x * a0 - q * (u * a0) == (x - q * u) * a0;
  }

  /** X and U alternate in sign; with px = |X| and pu = |U|, this bounds them by b. */
  predicate Sizes(b0: int, a: int, b: int, px: int, pu: int, first: bool) {
    && 0 <= px && 0 <= pu && pu * a + px * b == b0
    && (first ==> px == 1 && pu == 0)
    && (!first ==> b < a && px <= pu)
  }

  lemma SizesStep(b0: int, a: int, b: int, px: int, pu: int, first: bool, q: int, r: int)
    requires 0 < b && Sizes(b0, a, b, px, pu, first)
    requires a == q * b + r && 0 <= q && 0 <= r < b
    ensures Sizes(b0, b, r, pu, px + q * pu, false)
    ensures 0 <= q * pu <= px + q * pu <= b0
  {
    MulNonNegative(q, pu);
    assert (px + q * pu) * b == px * b + pu * (q * b);
    assert pu * (q * b + r) == pu * (q * b) + pu * r;
    MulNonNegative(pu, r);
    MulMonotone(px + q * pu, 1, b);
    if !first {
      assert q >= 1 by { if q == 0 { assert false; } }
      MulMonotone(pu, 1, q);
    }
  }

  lemma EuclidEnd(a0: nat, b0: nat, a: nat, x: int, u: int, px: int, pu: int)
    requires 0 < b0 && Combination(a0, b0, a, 0, x, u) && Sizes(b0, a, 0, px, pu, false)
    requires x == px || x == 0 - px
    ensures a == NT.Gcd(a0, b0) && Cong(x * a0, a, b0)
    ensures px <= b0
    ensures a == 1 && b0 > 1 ==> 0 < px < b0
  {
    CongSymmetric(a, x * a0, b0);
    assert px * 0 == 0;
    MulMonotone(pu, 1, a);
    if a == 1 && b0 > 1 && (px == 0 || px == b0) {
      ModOfMultiple(0, b0);
      ModOfMultiple(1, b0);
      ModOfMultiple(-1, b0);
      DivisibleMul(x, a0, b0);
      DivisibleAdd(x * a0, x * a0 - 1, b0);
      DivModUnique(1, b0, 0, 1);
    }
  }

  /** Q and U multiply within the array: their product is at most b. */
  lemma ProductLength(q: BigNum, u: BigNum, b: BigNum)
    requires q.Valid() && u.Valid() && b.Valid() && q.length < LEN1 && b.length < LEN1
    requires q.Mag() * u.Mag() <= b.Mag() && (q.Mag() == 0 ==> u.length < LEN1)
    ensures q.length + u.length <= LEN1
  {
    LengthOfMag(q);
    LengthOfMag(u);
    LengthOfMag(b);
    if q.Mag() != 0 && u.Mag() != 0 {
      var v, w := Pow(BASE, q.length - 1), Pow(BASE, u.length - 1);
      PowPositive(BASE, u.length - 1);
      MulMonotone(w, v, q.Mag());
      MulMonotone(q.Mag(), w, u.Mag());
      PowAdd(BASE, q.length - 1, u.length - 1);
      if q.length - 1 + (u.length - 1) >= b.length {
        PowMonotone(BASE, b.length, q.length - 1 + (u.length - 1));
      }
    }
  }

  /** The while loop of ex_euclid. */
  method EuclidLoop(rule: Rule, a0: BigNum, b0: BigNum) returns (r: Outcome<BigNum>)
    requires a0.Valid() && b0.Valid() && !a0.neg && !b0.neg && b0.Mag() != 0
    requires a0.length < LEN1 && b0.length < LEN1
    ensures r.Fair(rule)
    ensures r.Exact? ==>
              && r.value.Valid() && r.value.length < LEN1 && r.value.Mag() <= b0.Mag()
              && Cong(r.value.Value() * a0.Mag(), NT.Gcd(a0.Mag(), b0.Mag()), b0.Mag())
              && (NT.Coprime(a0.Mag(), b0.Mag()) && b0.Mag() > 1 ==> 0 < r.value.Mag() < b0.Mag())
  {
    ghost var a1, b1 := a0.Mag(), b0.Mag();
    var x := FromWord(1);
    var u := FromWord(0);
    var zero := FromWord(0);
    var a, b := a0, b0;
    ghost var px, pu, pos, first := 1, 0, true, true;
    EuclidStart(a1, b1);
    var more := NotEquals(b, zero);
    while more
      invariant a.Valid() && b.Valid() && x.Valid() && u.Valid() && !a.neg && !b.neg
      invariant more <==> b.Mag() != 0
      invariant a.length < LEN1 && b.length < LEN1 && x.length < LEN1 && u.length < LEN1
      invariant Combination(a1, b1, a.Mag(), b.Mag(), x.Value(), u.Value())
      invariant Sizes(b1, a.Mag(), b.Mag(), px, pu, first)
      invariant if pos then x.Value() == px && u.Value() == 0 - pu else x.Value() == 0 - px && u.Value() == pu
      invariant first ==> b.Mag() == b1
      decreases b.Mag()
    {
      u, a, b, x, px, pu :- EuclidIteration(rule, a, b, x, u, b0, a1, px, pu, pos, first);
      pos, first := !pos, false;
      more := NotEquals(b, zero);
    }
    EuclidEnd(a1, b1, a.Mag(), x.Value(), u.Value(), px, pu);
    r := Exact(x);
  }

  /** ex_euclid: x * a = gcd(a, b) modulo b.  For coprime a and b > 1 the answer is the one
      inverse of a strictly between 0 and b. */
  method ExEuclid(rule: Rule, a: BigNum, b: BigNum) returns (r: Outcome<BigNum>)
    requires a.Valid() && b.Valid() && !a.neg && !b.neg && b.Mag() != 0
    requires a.length < LEN1 && b.length < LEN1
    ensures r.Fair(rule)
    ensures r.Exact? ==>
              && r.value.Valid() && !r.value.neg && r.value.Mag() <= b.Mag()
              && Cong(r.value.Mag() * a.Mag(), NT.Gcd(a.Mag(), b.Mag()), b.Mag())
    ensures r.Exact? && b.Mag() > 1 && NT.Coprime(a.Mag(), b.Mag()) ==>
              && 0 < r.value.Mag() < b.Mag() && (r.value.Mag() * a.Mag()) % b.Mag() == 1
              && forall f: nat :: f < b.Mag() && (f * a.Mag()) % b.Mag() == 1 ==> f == r.value.Mag()
  {
    ghost var m, n, g := a.Mag(), b.Mag(), NT.Gcd(a.Mag(), b.Mag());
    var x :- EuclidLoop(rule, a, b);
    x :- CorrectSign(rule, x, b, m, g);
    if n > 1 && g == 1 {
      OnlyInverse(m, n, x.Mag());
    }
    r := Exact(x);
  }

  /** Lines 843-846: a negative number gets the modulus added. */
  method CorrectSign(rule: Rule, x: BigNum, b: BigNum, ghost m: nat, ghost g: nat) returns (r: Outcome<BigNum>)
    requires x.Valid() && b.Valid() && !b.neg && b.Mag() != 0 && x.length < LEN1 && b.length < LEN1
    requires x.Mag() <= b.Mag() && Cong(x.Value() * m, g, b.Mag())
    ensures r.Fair(rule)
    ensures r.Exact? ==>
              && r.value.Valid() && !r.value.neg && r.value.Mag() <= b.Mag()
              && Cong(r.value.Mag() * m, g, b.Mag())
              && (0 < x.Mag() < b.Mag() ==> 0 < r.value.Mag() < b.Mag())
  {
    r := Exact(x);
    if x.neg {
      AddModulus(x.Value(), b.Mag(), m);
      ModOfMultiple(m, b.Mag());
      CongAdd(x.Value() * m, g, m * b.Mag(), 0, b.Mag());
      r := Add(rule, x, b);
    }
  }

  lemma OnlyInverse(a: nat, n: nat, x: nat)
    requires 1 < n && x < n && Cong(x * a, 1, n)
    ensures (x * a) % n == 1 && forall f: nat :: f < n && (f * a) % n == 1 ==> f == x
  {
    CongIffMod(x * a, 1, n);
    DivModUnique(1, n, 0, 1);
    forall f: nat | f < n && (f * a) % n == 1
      ensures f == x
    {
      NT.InverseUnique(a, n, f, x);
    }
  }

  lemma AddModulus(x: int, b: int, a: int)
    ensures (x + b) * a == x * a + a * b
  {
  }

  lemma EuclidStart(a: nat, b: nat)
    requires 0 < b
    ensures Combination(a, b, a, b, 1, 0) && Sizes(b, a, b, 1, 0, true)
  {
    CongRefl(a, b);
    assert 1 * a == a && 0 * a == 0;
    ModOfMultiple(1, b);
  }

  /** Lines 835-841. */
  method EuclidIteration(rule: Rule, a: BigNum, b: BigNum, x: BigNum, u: BigNum, ghost b0: BigNum, ghost a1: nat,
                         ghost px: int, ghost pu: int, ghost pos: bool, ghost first: bool)
    returns (r: Outcome<BigNum>, a': BigNum, b': BigNum, x': BigNum, ghost px': int, ghost pu': int)
    requires a.Valid() && b.Valid() && x.Valid() && u.Valid() && b0.Valid() && !a.neg && !b.neg && b.Mag() != 0
    requires a.length < LEN1 && b.length < LEN1 && x.length < LEN1 && u.length < LEN1
    requires b0.length < LEN1 && b0.Mag() != 0
    requires Combination(a1, b0.Mag(), a.Mag(), b.Mag(), x.Value(), u.Value())
    requires Sizes(b0.Mag(), a.Mag(), b.Mag(), px, pu, first)
    requires if pos then x.Value() == px && u.Value() == 0 - pu else x.Value() == 0 - px && u.Value() == pu
    ensures r.Fair(rule)
    ensures r.Exact? ==>
              && a' == b && b'.Valid() && x' == u && r.value.Valid() && !b'.neg
              && b'.length < LEN1 && r.value.length < LEN1
              && Combination(a1, b0.Mag(), a'.Mag(), b'.Mag(), x'.Value(), r.value.Value())
              && Sizes(b0.Mag(), a'.Mag(), b'.Mag(), px', pu', false) && b'.Mag() < b.Mag()
              && x'.Value() == (if pos then 0 - px' else px') && r.value.Value() == (if pos then pu' else 0 - pu')
  {
    a', b', x', px', pu' := b, b, u, px, pu;
    var q, rem :- DivMod(rule, a, b);
    CombinationStep(a1, b0.Mag(), a.Mag(), b.Mag(), x.Value(), u.Value());
    SizesStep(b0.Mag(), a.Mag(), b.Mag(), px, pu, first, q.Mag(), rem.Mag());
    SmallerIsShorter(rem, b);
    SignRule(q.Mag(), pu);
    b', px', pu' := rem, pu, px + q.Mag() * pu;
    r := NextCoefficient(rule, x, q, u, b0, px, pu, pos);
  }

  /** Lines 836-837: X - Q * U, which stays below the modulus. */
  method NextCoefficient(rule: Rule, x: BigNum, q: BigNum, u: BigNum, ghost b0: BigNum, ghost px: int, ghost pu: int, ghost pos: bool)
    returns (r: Outcome<BigNum>)
    requires x.Valid() && q.Valid() && u.Valid() && b0.Valid() && !q.neg
    requires x.length < LEN1 && q.length < LEN1 && u.length < LEN1 && b0.length < LEN1
    requires 0 <= px && 0 <= pu && 0 <= q.Mag() * pu <= px + q.Mag() * pu <= b0.Mag()
    requires x.Value() == (if pos then px else 0 - px) && u.Value() == (if pos then 0 - pu else pu)
    ensures r.Fair(rule)
    ensures r.Exact? ==>
              && r.value.Valid() && r.value.length < LEN1
              && r.value.Value() == x.Value() - q.Mag() * u.Value()
              && r.value.Value() == (if pos then px + q.Mag() * pu else 0 - (px + q.Mag() * pu))
  {
    SignRule(q.Mag(), pu);
    ProductLength(q, u, b0);
    var temp := Mul(q, u);
    SmallerIsShorter(temp, b0);
    r := Minus(rule, x, temp);
    if r.Exact? {
      SmallerIsShorter(r.value, b0);
    }
  }
}
