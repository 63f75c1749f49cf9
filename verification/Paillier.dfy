/** The Paillier key generation, encryption and decryption in main() of cpp/BigNum.cpp. */
module Paillier {
  import opened Arithmetic
  import opened NumberTheory
  import opened Limbs
  import opened LimbAddSub
  import opened LimbMul
  import opened LimbDiv
  import opened ModularAlgorithms

  // ------------------------------------------------------------- the algebra

  /** (1 + k n)^m = 1 + k m n modulo n^2. */
  lemma {:induction false} OnePlusMultiple(k: int, n: nat, m: nat)
    requires 0 < n
    ensures 0 < n * n && Cong(Pow(1 + k * n, m), 1 + (k * m) * n, n * n)
    decreases m
  {
    MulPositive(n, n);
    if m == 0 {
      assert (k * 0) * n == 0;
      CongRefl(1, n * n);
    } else {
      OnePlusMultiple(k, n, m - 1);
      CongRefl(1 + k * n, n * n);
      CongMul(1 + k * n, 1 + k * n, Pow(1 + k * n, m - 1), 1 + (k * (m - 1)) * n, n * n);
      ExpandProduct(k, m - 1, n);
      CongIntro((1 + k * n) * (1 + (k * (m - 1)) * n), 1 + (k * m) * n, n * n, k * (k * (m - 1)));
      CongTransitive(Pow(1 + k * n, m), (1 + k * n) * (1 + (k * (m - 1)) * n), 1 + (k * m) * n, n * n);
    }
  }

  lemma ExpandProduct(k: int, j: int, n: int)
    ensures (1 + k * n) * (1 + (k * j) * n) == 1 + (k * (j + 1)) * n + (k * (k * j)) * (n * n)
  {
    var s := k * j;
    assert (1 + k * n) * (1 + s * n) == 1 + k * n + s * n + (k * n) * (s * n);
    assert (k * n) * (s * n) == (k * s) * (n * n) by { MulInterchange(k, n, s, n); }
    assert k * n + s * n == (k + s) * n;
    assert k * (j + 1) == k + s;
  }

  /** L(u) = (u - 1) / n. */
  function L(u: int, n: nat): int
    requires 0 < n
  {
    (u - 1) / n
  }

  /** A power that is 1 modulo n has the form 1 + k n modulo n^2, and L reads k off. */
  lemma LogForm(u: int, n: nat) returns (k: int)
    requires 1 < n && 0 < n * n && Cong(u, 1, n)
    ensures 0 <= k < n && u % (n * n) == 1 + k * n && L(u % (n * n), n) == k
  {
    var v := u % (n * n);
    CongMod(u, n * n);
    ModOfMultiple(n, n);
    CongDivisor(v, u, n * n, n);
    CongTransitive(v, u, 1, n);
    k := DivisibleWitness(v - 1, n);
    ModOfMultiple(k, n);
    if k < 0 {
      MulMonotone(n, k, -1);
    }
    if k >= n {
      MulMonotone(n, n, k);
    }
  }

  /** L recovers the coefficient of any number congruent to 1 + c n modulo n^2. */
  lemma ReadCoefficient(u: int, c: int, n: nat)
    requires 1 < n && 0 < n * n && Cong(u, 1 + c * n, n * n)
    ensures L(u % (n * n), n) == c % n
  {
    var d := c % n;
    assert c == d + n * (c / n);
    assert c * n == d * n + (c / n) * (n * n) by { assert (n * (c / n)) * n == (c / n) * (n * n); }
    CongIntro(1 + c * n, 1 + d * n, n * n, c / n);
    CongTransitive(u, 1 + c * n, 1 + d * n, n * n);
    MulNonNegative(d, n);
    MulMonotone(n, d, n - 1);
    assert (n - 1) * n == n * n - n;
    CongIffMod(u, 1 + d * n, n * n);
    DivModUnique(1 + d * n, n * n, 0, 1 + d * n);
    DivModUnique(d * n, n, d, 0);
  }

  /** The randomiser disappears: (r^n)^e = 1 modulo n^2 when r^e = 1 modulo n. */
  lemma RandomiserVanishes(r: nat, n: nat, e: nat)
    requires 1 < n && Cong(Pow(r, e), 1, n)
    ensures 0 < n * n && Cong(Pow(Pow(r, n), e), 1, n * n)
  {
    MulPositive(n, n);
    var j := DivisibleWitness(Pow(r, e) - 1, n);
    PowPow(r, e, n);
    PowPow(r, n, e);
    assert e * n == n * e;
    assert Pow(r, e) == 1 + j * n;
    assert Pow(Pow(r, n), e) == Pow(1 + j * n, n);
    OnePlusMultiple(j, n, n);
    MulAssociative(j, n, n);
    CongIntro(1 + (j * n) * n, 1, n * n, j);
    CongTransitive(Pow(1 + j * n, n), 1 + (j * n) * n, 1, n * n);
  }

  lemma MessageAppears(g: nat, n: nat, e: nat, m: nat, k: int)
    requires 1 < n && 0 < n * n && Cong(Pow(g, e), 1 + k * n, n * n)
    ensures Cong(Pow(Pow(g, m), e), 1 + (k * m) * n, n * n)
  {
    PowPow(g, m, e);
    PowPow(g, e, m);
    assert e * m == m * e;
    CongPow(Pow(g, e), 1 + k * n, m, n * n);
    OnePlusMultiple(k, n, m);
    CongTransitive(Pow(Pow(g, m), e), Pow(1 + k * n, m), 1 + (k * m) * n, n * n);
  }

  /** The ciphertext of m with randomiser r. */
  function Cipher(g: nat, m: nat, r: nat, n: nat): int
    requires 0 < n * n
  {
    (Pow(g, m) * Pow(r, n)) % (n * n)
  }

  /** L(c^e mod n^2) = k m mod n, where k = L(g^e mod n^2). */
  lemma DecryptedLog(g: nat, m: nat, r: nat, n: nat, e: nat)
    requires 1 < n && 0 < n * n && Cong(Pow(g, e), 1, n) && Cong(Pow(r, e), 1, n)
    ensures L(Pow(Cipher(g, m, r, n), e) % (n * n), n) == (L(Pow(g, e) % (n * n), n) * m) % n
    ensures Cong(Pow(Cipher(g, m, r, n), e), 1, n)
  {
    var k := LogForm(Pow(g, e), n);
    var gm, rn := Pow(g, m), Pow(r, n);
    CongMod(Pow(g, e), n * n);
    MessageAppears(g, n, e, m, k);
    RandomiserVanishes(r, n, e);
    CongMod(gm * rn, n * n);
    CongPow(Cipher(g, m, r, n), gm * rn, e, n * n);
    PowProduct(gm, rn, e);
    CongMul(Pow(gm, e), 1 + (k * m) * n, Pow(rn, e), 1, n * n);
    CongTransitive(Pow(Cipher(g, m, r, n), e), Pow(gm, e) * Pow(rn, e), 1 + (k * m) * n, n * n);
    ReadCoefficient(Pow(Cipher(g, m, r, n), e), k * m, n);
    ModOfMultiple(n, n);
    CongDivisor(Pow(Cipher(g, m, r, n), e), 1 + (k * m) * n, n * n, n);
    CongIntro(1 + (k * m) * n, 1, n, k * m);
    CongTransitive(Pow(Cipher(g, m, r, n), e), 1 + (k * m) * n, 1, n);
  }

  /** What decryption returns, for every key: gcd(k, n) * m mod n. */
  lemma DecryptedValue(k: nat, m: nat, u: nat, n: nat)
    requires 1 < n && Cong(u * k, Gcd(k, n), n)
    ensures (((k * m) % n) * u) % n == (Gcd(k, n) * m) % n
  {
    ModMul(k * m, u, n);
    CongRefl(m, n);
    CongMul(u * k, Gcd(k, n), m, m, n);
    assert (u * k) * m == (k * m) * u;
    CongIffMod((k * m) * u, Gcd(k, n) * m, n);
  }

  /** So a key decrypts every message below n exactly when k is invertible modulo n. */
  lemma DecryptsAllIffInvertible(k: nat, n: nat)
    requires 1 < n
    ensures (forall m: nat :: m < n ==> (Gcd(k, n) * m) % n == m) <==> Coprime(k, n)
  {
    if Coprime(k, n) {
      forall m: nat | m < n
        ensures (Gcd(k, n) * m) % n == m
      {
        DivModUnique(m, n, 0, m);
      }
    } else {
      GcdIsGreatest(k, n);
      var d := Gcd(k, n);
      DivisorBound(d, n);
      if d < n {
        DivModUnique(d, n, 0, d);
      } else {
        ModOfMultiple(1, n);
      }
      assert (d * 1) % n != 1;
    }
  }

  /** The private exponent is a common multiple of p - 1 and q - 1, so it kills units. */
  lemma PrivateExponent(a: nat, p: nat, q: nat)
    requires Prime(p) && Prime(q) && p != q && a % p != 0 && a % q != 0
    ensures 1 < p * q && Cong(Pow(a, Lcm(p - 1, q - 1)), 1, p * q)
  {
    LcmIsLeast(p - 1, q - 1);
    CarmichaelForTwoPrimes(a, p, q, Lcm(p - 1, q - 1));
    MulPositive(p, q);
  }

  // ---------------------------------------------------------------- the steps

  /** Lfunction. */
  method LFunction(rule: Rule, a: BigNum, n: BigNum) returns (r: Outcome<BigNum>)
    requires a.Valid() && n.Valid() && !a.neg && !n.neg && n.Mag() != 0 && a.Mag() >= 1 && a.length < LEN1
    ensures r.Fair(rule)
    ensures r.Exact? ==>
              r.value.Valid() && !r.value.neg && r.value.Mag() == L(a.Mag(), n.Mag()) && r.value.length <= a.length
  {
    var one := FromWord(1);
    var d :- Minus(rule, a, one);
    SmallerIsShorter(d, a);
    r := Div(rule, d, n);
  }

  method Encrypt(rule: Rule, g: BigNum, m: BigNum, r: BigNum, n: BigNum) returns (c: Outcome<BigNum>)
    requires g.Valid() && m.Valid() && r.Valid() && n.Valid() && !g.neg && !r.neg && !n.neg
    requires n.Mag() > 1 && n.length <= 31 && g.length < LEN1 && r.length < LEN1
    ensures c.Fair(rule) && 0 < n.Mag() * n.Mag()
    ensures c.Exact? ==>
              && c.value.Valid() && !c.value.neg && c.value.length < LEN1
              && c.value.Mag() == (Pow(g.Mag(), m.Mag()) * Pow(r.Mag(), n.Mag())) % (n.Mag() * n.Mag())
  {
    var one := FromWord(1);
    var nn := Mul(n, n);
    MulPositive(n.Mag(), n.Mag());
    var t1 :- PowerMod(rule, g, m, nn);
    var t2 :- PowerMod(rule, r, n, nn);
    var t := Mul(t1, t2);
    c := PowerMod(rule, t, one, nn);
    assert Pow(t.Mag(), 1) == t.Mag();
    ModMul(Pow(g.Mag(), m.Mag()), Pow(r.Mag(), n.Mag()), nn.Mag());
  }

  method Decrypt(rule: Rule, c: BigNum, g: BigNum, n: BigNum, key: BigNum) returns (r: Outcome<BigNum>)
    requires c.Valid() && g.Valid() && n.Valid() && key.Valid() && !c.neg && !g.neg && !n.neg
    requires n.Mag() > 1 && n.length <= 31 && c.length < LEN1 && g.length < LEN1
    requires Cong(Pow(g.Mag(), key.Mag()), 1, n.Mag()) && Cong(Pow(c.Mag(), key.Mag()), 1, n.Mag())
    ensures r.Fair(rule) && 0 < n.Mag() * n.Mag()
    ensures r.Exact? ==>
              && r.value.Valid() && !r.value.neg
              && var nn := n.Mag() * n.Mag();
                 var k := L(Pow(g.Mag(), key.Mag()) % nn, n.Mag());
                 var l := L(Pow(c.Mag(), key.Mag()) % nn, n.Mag());
                 0 <= k && exists u: nat :: Cong(u * k, Gcd(k, n.Mag()), n.Mag()) && r.value.Mag() == (l * u) % n.Mag()
  {
    var one := FromWord(1);
    var nn := Mul(n, n);
    MulPositive(n.Mag(), n.Mag());
    ghost var k := LogForm(Pow(g.Mag(), key.Mag()), n.Mag());
    ghost var l := LogForm(Pow(c.Mag(), key.Mag()), n.Mag());
    MulNonNegative(k, n.Mag());
    MulNonNegative(l, n.Mag());
    var gk :- PowerMod(rule, g, key, nn);
    var lg :- LFunction(rule, gk, n);
    var u :- ExEuclid(rule, lg, n);
    var ck :- PowerMod(rule, c, key, nn);
    var lc :- LFunction(rule, ck, n);
    SmallerIsShorter(u, n);
    var t := Mul(lc, u);
    r := PowerMod(rule, t, one, n);
    assert Pow(t.Mag(), 1) == t.Mag();
    assert Cong(u.Mag() * k, Gcd(k, n.Mag()), n.Mag());
  }

  /** Line 886: the private key lcm(p - 1, q - 1). */
  method PrivateKey(rule: Rule, p: BigNum, q: BigNum) returns (key: Outcome<BigNum>)
    requires p.Valid() && q.Valid() && !p.neg && !q.neg && p.Mag() >= 2 && q.Mag() >= 2 && p.length + q.length <= 31
    ensures key.Fair(rule)
    ensures key.Exact? ==> key.value.Valid() && !key.value.neg && key.value.Mag() == Lcm(p.Mag() - 1, q.Mag() - 1)
  {
    var one := FromWord(1);
    var p1 :- Minus(rule, p, one);
    var q1 :- Minus(rule, q, one);
    SmallerIsShorter(p1, p);
    SmallerIsShorter(q1, q);
    key := LcmOf(rule, p1, q1);
  }

  /** The whole run of main: keys from p, q and g, then encryption with r, then decryption.
      The answer is gcd(k, n) * m mod n with k = L(g^lcm(p-1, q-1) mod n^2); it is m itself for
      every m < n when k is invertible modulo n. */
  method Run(rule: Rule, p: BigNum, q: BigNum, g: BigNum, r: BigNum, m: BigNum) returns (out: Outcome<BigNum>)
    requires p.Valid() && q.Valid() && g.Valid() && r.Valid() && m.Valid()
    requires !p.neg && !q.neg && !g.neg && !r.neg && !m.neg
    requires p.length + q.length <= 31 && g.length < LEN1 && r.length < LEN1
    requires Prime(p.Mag()) && Prime(q.Mag()) && p.Mag() != q.Mag()
    requires g.Mag() % p.Mag() != 0 && g.Mag() % q.Mag() != 0
    requires r.Mag() % p.Mag() != 0 && r.Mag() % q.Mag() != 0
    ensures out.Fair(rule)
    ensures out.Exact? ==> out.value.Valid() && !out.value.neg && 0 <= KeyLog(p.Mag(), q.Mag(), g.Mag())
    ensures out.Exact? ==>
              out.value.Mag() == (Gcd(KeyLog(p.Mag(), q.Mag(), g.Mag()), p.Mag() * q.Mag()) * m.Mag()) % (p.Mag() * q.Mag())
    ensures out.Exact? && m.Mag() < p.Mag() * q.Mag() && Coprime(KeyLog(p.Mag(), q.Mag(), g.Mag()), p.Mag() * q.Mag()) ==>
              out.value.Mag() == m.Mag()
  {
    var n := Mul(p, q);
    var key :- PrivateKey(rule, p, q);
    PrivateExponent(g.Mag(), p.Mag(), q.Mag());
    PrivateExponent(r.Mag(), p.Mag(), q.Mag());
    var c :- Encrypt(rule, g, m, r, n);
    DecryptedLog(g.Mag(), m.Mag(), r.Mag(), n.Mag(), key.Mag());
    var text :- Decrypt(rule, c, g, n, key);
    Conclude(p.Mag(), q.Mag(), g.Mag(), m.Mag(), r.Mag(), text.Mag());
    out := Exact(text);
  }

  /** k = L(g^lcm(p-1, q-1) mod n^2), the number that decryption inverts. */
  function KeyLog(p: nat, q: nat, g: nat): int
    requires 2 <= p && 2 <= q
  {
    MulPositive(p, q);
    MulPositive(p * q, p * q);
    L(Pow(g, Lcm(p - 1, q - 1)) % ((p * q) * (p * q)), p * q)
  }

  lemma Conclude(p: nat, q: nat, g: nat, m: nat, r: nat, out: nat)
    requires Prime(p) && Prime(q) && 1 < p * q && 0 < (p * q) * (p * q) && 0 <= KeyLog(p, q, g)
    requires L(Pow(Cipher(g, m, r, p * q), Lcm(p - 1, q - 1)) % ((p * q) * (p * q)), p * q) == (KeyLog(p, q, g) * m) % (p * q)
    requires exists u: nat :: Cong(u * KeyLog(p, q, g), Gcd(KeyLog(p, q, g), p * q), p * q)
               && out == (L(Pow(Cipher(g, m, r, p * q), Lcm(p - 1, q - 1)) % ((p * q) * (p * q)), p * q) * u) % (p * q)
    ensures out == (Gcd(KeyLog(p, q, g), p * q) * m) % (p * q)
    ensures m < p * q && Coprime(KeyLog(p, q, g), p * q) ==> out == m
  {
    var k, n := KeyLog(p, q, g), p * q;
    var u: nat :| Cong(u * k, Gcd(k, n), n)
                  && out == (L(Pow(Cipher(g, m, r, n), Lcm(p - 1, q - 1)) % (n * n), n) * u) % n;
    DecryptedValue(k, m, u, n);
    DecryptsAllIffInvertible(k, n);
  }
}
