/** Greatest common divisors, primes, Fermat's little theorem and the two-prime
    Chinese remainder argument, shared by RSA, Paillier and the primality test. */
module NumberTheory {
  import opened Arithmetic

  // ----------------------------------------------------------- gcd and Bezout

  function Gcd(a: nat, b: nat): nat
    decreases b
  {
    if b == 0 then a else Gcd(b, a % b)
  }

  predicate Coprime(a: nat, b: nat) {
    Gcd(a, b) == 1
  }

  lemma {:induction false} Bezout(a: nat, b: nat) returns (x: int, y: int)
    ensures a * x + b * y == Gcd(a, b)
    decreases b
  {
    if b == 0 {
      x, y := 1, 0;
    } else {
      var u, v := Bezout(b, a % b);
      x, y := v, u - (a / b) * v;
      calc {
        a * x + b * y;
        a * v + b * (u - (a / b) * v);
        { assert b * (u - (a / b) * v) == b * u - (b * (a / b)) * v; }
        a * v + b * u - (b * (a / b)) * v;
        { assert a == b * (a / b) + a % b;
          assert a * v == (b * (a / b)) * v + (a % b) * v; }
        b * u + (a % b) * v;
        Gcd(a, b);
      }
    }
  }

  /** Gcd is a common divisor, and every common divisor divides it. */
  lemma {:induction false} GcdIsGreatest(a: nat, b: nat)
    requires a != 0 || b != 0
    ensures 0 < Gcd(a, b)
    ensures a % Gcd(a, b) == 0 && b % Gcd(a, b) == 0
    ensures forall d: int :: 0 < d && a % d == 0 && b % d == 0 ==> Gcd(a, b) % d == 0
    decreases b
  {
    if b == 0 {
      ModOfMultiple(1, a);
      assert b == 0 * a;
      ModOfMultiple(0, a);
    } else {
      GcdIsGreatest(b, a % b);
      var g := Gcd(a, b);
      assert a == b * (a / b) + a % b;
      DivisibleMul(b, a / b, g);
      DivisibleAdd(b * (a / b), a % b, g);
      forall d: int | 0 < d && a % d == 0 && b % d == 0
        ensures g % d == 0
      {
        DivisibleMul(b, a / b, d);
        DivisibleAdd(a, b * (a / b), d);
      }
    }
  }

  lemma GcdSymmetric(a: nat, b: nat)
    ensures Gcd(a, b) == Gcd(b, a)
  {
    if a == 0 && b == 0 {
    } else {
      GcdIsGreatest(a, b);
      GcdIsGreatest(b, a);
      DivisorBound(Gcd(a, b), Gcd(b, a));
      DivisorBound(Gcd(b, a), Gcd(a, b));
    }
  }

  /** Coprime(a, b) says exactly that a is invertible modulo b. */
  lemma InverseGivesCoprime(a: nat, x: int, n: nat)
    requires 0 < n && Cong(a * x, 1, n)
    ensures Coprime(a, n)
  {
    GcdIsGreatest(a, n);
    var g := Gcd(a, n);
    DivisibleMul(a, x, g);
    CongDivisor(a * x, 1, n, g);
    DivisibleAdd(a * x, a * x - 1, g);
    DivisorBound(g, 1);
  }

  lemma CoprimeInverse(a: nat, n: nat) returns (x: nat)
    requires 0 < n && Coprime(a, n)
    ensures x < n && Cong(a * x, 1, n)
  {
    var u, v := Bezout(a, n);
    assert n * v == v * n;
    assert 1 == a * u + v * n;
    CongIntro(1, a * u, n, v);
    CongSymmetric(1, a * u, n);
    x := u % n;
    CongMod(u, n);
    CongRefl(a, n);
    CongMul(a, a, x, u, n);
    CongTransitive(a * x, a * u, 1, n);
  }

  lemma CoprimeDivides(a: nat, b: int, n: nat)
    requires 0 < n && Coprime(a, n) && (a * b) % n == 0
    ensures b % n == 0
  {
    var x := CoprimeInverse(a, n);
    CongRefl(b, n);
    CongMul(a * x, 1, b, b, n);
    DivisibleMul(a * b, x, n);
    assert (a * b) * x == (a * x) * b;
    DivisibleAdd((a * x) * b, (a * x) * b - 1 * b, n);
  }

  lemma CoprimeCancel(a: nat, x: int, y: int, n: nat)
    requires 0 < n && Coprime(a, n) && Cong(a * x, a * y, n)
    ensures Cong(x, y, n)
  {
    assert a * x - a * y == a * (x - y);
    CoprimeDivides(a, x - y, n);
  }

  /** There is only one inverse below n. */
  lemma InverseUnique(a: nat, n: nat, x: nat, y: nat)
    requires 1 < n && x < n && y < n && (x * a) % n == 1 && (y * a) % n == 1
    ensures x == y
  {
    DivModUnique(1, n, 0, 1);
    assert x * a == a * x && y * a == a * y;
    CongIffMod(a * x, 1, n);
    InverseGivesCoprime(a, x, n);
    CongIffMod(a * x, a * y, n);
    CoprimeCancel(a, x, y, n);
    CongSmallEqual(x, y, n);
  }

  /** Two coprime moduli combine: the Chinese remainder argument. */
  lemma CoprimeModuli(a: int, b: int, m: nat, n: nat)
    requires 0 < m && 0 < n && Coprime(m, n) && Cong(a, b, m) && Cong(a, b, n)
    ensures 0 < m * n && Cong(a, b, m * n)
  {
    MulPositive(m, n);
    var k := DivisibleWitness(a - b, m);
    assert m * k == a - b;
    CoprimeDivides(m, k, n);
    var l := DivisibleWitness(k, n);
    assert a - b == (l * n) * m == l * (m * n);
    ModOfMultiple(l, m * n);
  }

  // ------------------------------------------------------------------ primes

  predicate Prime(p: int) {
    2 <= p && forall d :: 2 <= d < p ==> p % d != 0
  }

  lemma PrimeCoprime(p: nat, a: nat)
    requires Prime(p) && a % p != 0
    ensures Coprime(a, p)
  {
    GcdIsGreatest(a, p);
    var g := Gcd(a, p);
    DivisorBound(g, p);
  }

  lemma EuclidLemma(p: nat, a: nat, b: int)
    requires Prime(p) && (a * b) % p == 0
    ensures a % p == 0 || b % p == 0
  {
    if a % p != 0 {
      PrimeCoprime(p, a);
      CoprimeDivides(a, b, p);
    }
  }

  lemma DistinctPrimesCoprime(p: nat, q: nat)
    requires Prime(p) && Prime(q) && p != q
    ensures Coprime(p, q)
  {
    if p % q == 0 {
      DivisorBound(q, p);
    }
    PrimeCoprime(q, p);
  }

  /** Modulo a prime, 1 has no square roots other than 1 and -1. */
  lemma SquareRootsOfOne(p: nat, y: nat)
    requires Prime(p) && Cong(y * y, 1, p)
    ensures Cong(y, 1, p) || Cong(y, -1, p)
  {
    assert y * y - 1 == (y + 1) * (y - 1);
    EuclidLemma(p, y + 1, y - 1);
  }

  // ------------------------------------------------- Fermat's little theorem

  function Binomial(n: nat, k: nat): nat {
    if k == 0 then 1 else if n == 0 then 0 else Binomial(n - 1, k - 1) + Binomial(n - 1, k)
  }

  lemma {:induction false} BinomialAbove(n: nat, k: nat)
    requires n < k
    ensures Binomial(n, k) == 0
    decreases n
  {
    if n > 0 {
      BinomialAbove(n - 1, k - 1);
      BinomialAbove(n - 1, k);
    }
  }

  lemma {:induction false} BinomialDiagonal(n: nat)
    ensures Binomial(n, n) == 1
  {
    if n > 0 {
      BinomialDiagonal(n - 1);
      BinomialAbove(n - 1, n);
    }
  }

  lemma {:induction false} BinomialAbsorb(n: nat, k: nat)
    requires 0 < n && 0 < k
    ensures k * Binomial(n, k) == n * Binomial(n - 1, k - 1)
    decreases n
  {
    if n == 1 {
      if k > 1 {
        BinomialAbove(1, k);
        BinomialAbove(0, k - 1);
      }
    } else if k == 1 {
      BinomialAbsorb(n - 1, 1);
      assert Binomial(n - 1, 0) == 1 && Binomial(n - 2, 0) == 1;
    } else {
      BinomialAbsorb(n - 1, k - 1);
      BinomialAbsorb(n - 1, k);
      AbsorbAlgebra(n, k, Binomial(n - 2, k - 2), Binomial(n - 2, k - 1), Binomial(n - 1, k));
    }
  }

  lemma AbsorbAlgebra(n: int, k: int, d: int, e: int, f: int)
    requires (k - 1) * (d + e) == (n - 1) * d && k * f == (n - 1) * e
    ensures k * (d + e + f) == n * (d + e)
  {
    assert k * (d + e + f) == (k - 1) * (d + e) + (d + e) + k * f;
    assert (n - 1) * d + (n - 1) * e == (n - 1) * (d + e);
  }

  lemma PrimeDividesBinomial(p: nat, k: nat)
    requires Prime(p) && 0 < k < p
    ensures Binomial(p, k) % p == 0
  {
    BinomialAbsorb(p, k);
    ModOfMultiple(Binomial(p - 1, k - 1), p);
    DivModUnique(k, p, 0, k);
    EuclidLemma(p, k, Binomial(p, k));
  }

  /** The first k + 1 terms of the expansion of (a + 1)^n. */
  function Expansion(a: int, n: nat, k: nat): int {
    Binomial(n, k) * Pow(a, k) + if k == 0 then 0 else Expansion(a, n, k - 1)
  }

  lemma {:induction false} ExpansionStep(a: int, n: nat, k: nat)
    requires 0 < k
    ensures Expansion(a, n + 1, k) == Expansion(a, n, k) + a * Expansion(a, n, k - 1)
    decreases k
  {
    var x, y, t := Binomial(n, k - 1), Binomial(n, k), Pow(a, k - 1);
    assert Binomial(n + 1, k) * Pow(a, k) == x * (a * t) + y * (a * t);
    assert x * (a * t) == a * (x * t);
    if k == 1 {
      assert Expansion(a, n + 1, 0) == Expansion(a, n, 0) == 1;
    } else {
      ExpansionStep(a, n, k - 1);
      assert a * (x * t + Expansion(a, n, k - 2)) == a * (x * t) + a * Expansion(a, n, k - 2);
    }
  }

  lemma {:induction false} BinomialTheorem(a: int, n: nat)
    ensures Expansion(a, n, n) == Pow(a + 1, n)
  {
    if n > 0 {
      BinomialTheorem(a, n - 1);
      ExpansionStep(a, n - 1, n);
      BinomialAbove(n - 1, n);
      assert Expansion(a, n - 1, n) == Expansion(a, n - 1, n - 1) by { assert 0 * Pow(a, n) == 0; }
      SumOfPowers(a, Pow(a + 1, n - 1));
    }
  }

  lemma SumOfPowers(a: int, e: int)
    ensures e + a * e == (a + 1) * e
  {
  }

  lemma {:induction false} MiddleTermsVanish(a: int, p: nat, k: nat)
    requires Prime(p) && k < p
    ensures Cong(Expansion(a, p, k), 1, p)
    decreases k
  {
    if k == 0 {
      CongRefl(1, p);
    } else {
      MiddleTermsVanish(a, p, k - 1);
      PrimeDividesBinomial(p, k);
      DivisibleMul(Binomial(p, k), Pow(a, k), p);
      CongAdd(Expansion(a, p, k - 1), 1, Binomial(p, k) * Pow(a, k), 0, p);
    }
  }

  lemma {:induction false} FermatForAll(a: nat, p: nat)
    requires Prime(p)
    ensures Cong(Pow(a, p), a, p)
    decreases a
  {
    if a == 0 {
      assert Pow(0, p) == 0 * Pow(0, p - 1) == 0;
      CongRefl(0, p);
    } else {
      FermatForAll(a - 1, p);
      BinomialTheorem(a - 1, p);
      BinomialDiagonal(p);
      MiddleTermsVanish(a - 1, p, p - 1);
      CongAdd(Expansion(a - 1, p, p - 1), 1, Pow(a - 1, p), a - 1, p);
    }
  }

  lemma Fermat(a: nat, p: nat)
    requires Prime(p) && a % p != 0
    ensures Cong(Pow(a, p - 1), 1, p)
  {
    FermatForAll(a, p);
    PrimeCoprime(p, a);
    assert a * 1 == a;
    CoprimeCancel(a, Pow(a, p - 1), 1, p);
  }

  /** Exponents that are multiples of both p - 1 and q - 1 kill every unit modulo p * q. */
  lemma CarmichaelForTwoPrimes(a: nat, p: nat, q: nat, e: nat)
    requires Prime(p) && Prime(q) && p != q
    requires e % (p - 1) == 0 && e % (q - 1) == 0
    requires a % p != 0 && a % q != 0
    ensures 0 < p * q && Cong(Pow(a, e), 1, p * q)
  {
    UnitPower(a, p, e);
    UnitPower(a, q, e);
    DistinctPrimesCoprime(p, q);
    CoprimeModuli(Pow(a, e), 1, p, q);
  }

  lemma UnitPower(a: nat, p: nat, e: nat)
    requires Prime(p) && a % p != 0 && e % (p - 1) == 0
    ensures Cong(Pow(a, e), 1, p)
  {
    var k := DivisibleWitness(e, p - 1);
    if k < 0 {
      MulMonotone(p - 1, k, -1);
    }
    Fermat(a, p);
    CongPowOne(a, p - 1, k, p);
    assert (p - 1) * k == e;
  }
}
