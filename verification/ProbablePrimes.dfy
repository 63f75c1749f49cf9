/** What one round of the Rabin-Miller test decides, for prime and composite numbers alike. */
module ProbablePrimes {
  import opened Arithmetic
  import opened NumberTheory

  // ------------------------------------------------------- 2^r times an odd number

  function OddPart(v: nat): (m: nat)
    requires 0 < v
    ensures m % 2 == 1
  {
    if v % 2 == 1 then v else OddPart(v / 2)
  }

  function Twos(v: nat): nat
    requires 0 < v
  {
    if v % 2 == 1 then 0 else 1 + Twos(v / 2)
  }

  /** m * 2^j */
  function Scaled(m: nat, j: nat): nat {
    PowPositive(2, j);
    MulNonNegative(m, Pow(2, j));
    m * Pow(2, j)
  }

  lemma {:induction false} SplitsUp(v: nat)
    requires 0 < v
    ensures v == Scaled(OddPart(v), Twos(v))
    decreases v
  {
    if v % 2 == 1 {
      assert Pow(2, 0) == 1;
    } else {
      SplitsUp(v / 2);
      ScaledTwice(OddPart(v), Twos(v / 2));
    }
  }

  lemma ScaledTwice(m: nat, j: nat)
    ensures Scaled(m, j + 1) == Scaled(m, j) + Scaled(m, j)
  {
    assert m * (2 * Pow(2, j)) == m * Pow(2, j) + m * Pow(2, j);
  }

  lemma {:induction false} SplitUnique(m: nat, j: nat)
    requires m % 2 == 1
    ensures 0 < Scaled(m, j) && OddPart(Scaled(m, j)) == m && Twos(Scaled(m, j)) == j
    decreases j
  {
    if j == 0 {
      assert Pow(2, 0) == 1;
    } else {
      SplitUnique(m, j - 1);
      ScaledTwice(m, j - 1);
    }
  }

  lemma ScaledAdd(m: nat, i: nat, j: nat)
    ensures Scaled(m, i + j) == Scaled(m, i) * Pow(2, j)
  {
    PowAdd(2, i, j);
    MulAssociative(m, Pow(2, i), Pow(2, j));
  }

  // ------------------------------------------------------------------ one round

  /** With n - 1 = 2^r m and m odd: a^(m 2^j) = -1 modulo n. */
  predicate RootAt(a: nat, n: nat, j: nat)
    requires 2 <= n
  {
    Cong(Pow(a, Scaled(OddPart(n - 1), j)), -1, n)
  }

  /** Base a lets n pass: a^m = 1, or a^(m 2^j) = -1 for some j up to r. */
  predicate Passes(a: nat, n: nat)
    requires 2 <= n
  {
    || Cong(Pow(a, OddPart(n - 1)), 1, n)
    || exists j :: 0 <= j <= Twos(n - 1) && RootAt(a, n, j)
  }

  lemma {:induction false} PowNonNegative(a: nat, e: nat)
    ensures 0 <= Pow(a, e)
    decreases e
  {
    if e > 0 {
      PowNonNegative(a, e - 1);
      MulNonNegative(a, Pow(a, e - 1));
    }
  }

  lemma Squared(a: nat, m: nat, j: nat)
    ensures Pow(a, Scaled(m, j + 1)) == Pow(a, Scaled(m, j)) * Pow(a, Scaled(m, j))
  {
    ScaledTwice(m, j);
    PowAdd(a, Scaled(m, j), Scaled(m, j));
  }

  // ----------------------------------------------------------------------- primes

  /** Modulo a prime, taking square roots of 1 ends at 1 or meets -1. */
  lemma {:induction false} RootsDown(a: nat, p: nat, j: nat)
    requires Prime(p) && j <= Twos(p - 1) && Cong(Pow(a, Scaled(OddPart(p - 1), j)), 1, p)
    ensures Passes(a, p)
    decreases j
  {
    var m := OddPart(p - 1);
    if j == 0 {
      assert Scaled(m, 0) == m by { assert Pow(2, 0) == 1; }
    } else {
      var y := Pow(a, Scaled(m, j - 1));
      Squared(a, m, j - 1);
      PowNonNegative(a, Scaled(m, j - 1));
      SquareRootsOfOne(p, y);
      if Cong(y, 1, p) {
        RootsDown(a, p, j - 1);
      } else {
        assert RootAt(a, p, j - 1);
      }
    }
  }

  lemma VanishingPower(a: nat, e: nat, n: nat)
    requires 2 <= n && a % n == 0 && 0 < e
    ensures !Cong(Pow(a, e), 1, n) && !Cong(Pow(a, e), -1, n)
  {
    var y := Pow(a, e);
    DivisibleMul(a, Pow(a, e - 1), n);
    DivModUnique(1, n, 0, 1);
    if Cong(y, 1, n) {
      DivisibleAdd(y, y - 1, n);
    }
    if Cong(y, -1, n) {
      DivisibleAdd(y + 1, y, n);
    }
  }

  /** A prime passes for every base but its multiples. */
  lemma PrimePasses(a: nat, p: nat)
    requires Prime(p)
    ensures Passes(a, p) <==> a % p != 0
  {
    var m, r := OddPart(p - 1), Twos(p - 1);
    SplitsUp(p - 1);
    if a % p != 0 {
      Fermat(a, p);
      RootsDown(a, p, r);
    } else {
      VanishingPower(a, m, p);
      forall j: nat
        ensures !RootAt(a, p, j)
      {
        PowPositive(2, j);
        MulPositive(m, Pow(2, j));
        VanishingPower(a, Scaled(m, j), p);
      }
    }
  }

  // ------------------------------------------------------------------- composites

  lemma {:induction false} PowMinusOne(t: nat)
    ensures Pow(-1, t) == if t % 2 == 0 then 1 else -1
    decreases t
  {
    if t > 0 {
      PowMinusOne(t - 1);
    }
  }

  /** Every number above 1 has a prime factor. */
  lemma {:induction false} PrimeFactor(d: nat, from: nat) returns (p: nat)
    requires 2 <= from <= d && forall k :: 2 <= k < from ==> d % k != 0
    ensures Prime(p) && p <= d && d % p == 0
    decreases d - from
  {
    if d % from == 0 {
      p := from;
      forall k | 2 <= k < p
        ensures p % k != 0
      {
        if p % k == 0 {
          DivisibleTransitive(k, p, d);
        }
      }
    } else {
      ModOfMultiple(1, d);
      p := PrimeFactor(d, from + 1);
    }
  }

  /** If a^(n-1) = -1 modulo an odd n, then 2^(r+1) divides p - 1 for every prime factor p. */
  lemma FactorIsOne(a: nat, n: nat, p: nat)
    requires 3 <= n && n % 2 == 1 && Prime(p) && n % p == 0 && Cong(Pow(a, n - 1), -1, n)
    ensures 0 < Pow(2, Twos(n - 1) + 1) && (p - 1) % Pow(2, Twos(n - 1) + 1) == 0
  {
    var r, s, t := Twos(n - 1), Twos(p - 1), OddPart(p - 1);
    PowPositive(2, r + 1);
    SplitsUp(p - 1);
    if s <= r {
      OneIsMinusOne(a, n, p);
    } else {
      PowPositive(2, s - r - 1);
      PowAdd(2, s - r - 1, r + 1);
      MulAssociative(t, Pow(2, s - r - 1), Pow(2, r + 1));
      ModOfMultiple(t * Pow(2, s - r - 1), Pow(2, r + 1));
    }
  }

  lemma OneIsMinusOne(a: nat, n: nat, p: nat)
    requires 3 <= n && n % 2 == 1 && Prime(p) && n % p == 0 && Cong(Pow(a, n - 1), -1, n)
    ensures Twos(p - 1) > Twos(n - 1)
  {
    var r, s, m, t := Twos(n - 1), Twos(p - 1), OddPart(n - 1), OddPart(p - 1);
    CongDivisor(Pow(a, n - 1), -1, n, p);
    if a % p == 0 {
      VanishingPower(a, n - 1, p);
    }
    if s <= r {
      SplitsUp(n - 1);
      SplitsUp(p - 1);
      ScaledAdd(m, s, r - s);
      CommonExponent(m, t, Pow(2, s), Pow(2, r - s));
      var e := (n - 1) * t;
      PowPositive(2, r - s);
      MulNonNegative(m, Pow(2, r - s));
      ModOfMultiple(m * Pow(2, r - s), p - 1);
      MulNonNegative(n - 1, t);
      UnitPower(a, p, e);
      CongPow(Pow(a, n - 1), -1, t, p);
      PowPow(a, n - 1, t);
      PowMinusOne(t);
      CongSymmetric(Pow(a, e), 1, p);
      CongTransitive(1, Pow(a, e), -1, p);
      DivisorBound(p, 2);
      assert false;
    }
  }

  lemma CommonExponent(m: int, t: int, u: int, v: int)
    ensures ((m * u) * v) * t == (m * v) * (t * u)
  {
    MulInterchange(m, v, t, u);
    assert (m * t) * (v * u) == ((m * u) * v) * t;
  }

  lemma {:induction false} DivisorIsOne(a: nat, n: nat, d: nat)
    requires 3 <= n && n % 2 == 1 && 0 < d && n % d == 0 && Cong(Pow(a, n - 1), -1, n)
    ensures 0 < Pow(2, Twos(n - 1) + 1) && (d - 1) % Pow(2, Twos(n - 1) + 1) == 0
    decreases d
  {
    var w := Pow(2, Twos(n - 1) + 1);
    PowPositive(2, Twos(n - 1) + 1);
    if d == 1 {
      ModOfMultiple(0, w);
    } else {
      var p := PrimeFactor(d, 2);
      var e := OtherFactor(d, p);
      DivisibleTransitive(p, d, n);
      DivisibleTransitive(e, d, n);
      FactorIsOne(a, n, p);
      DivisorIsOne(a, n, e);
      OneTimesOne(p, e, w);
    }
  }

  lemma OtherFactor(d: nat, p: nat) returns (e: nat)
    requires 0 < d && 2 <= p && d % p == 0
    ensures d == p * e && 0 < e < d && d % e == 0
  {
    var k := DivisibleWitness(d, p);
    if k <= 0 { MulMonotone(p, k, 0); }
    MulMonotone(k, 2, p);
    ModOfMultiple(p, k);
    e := k;
  }

  lemma OneTimesOne(p: int, e: int, w: int)
    requires 0 < w && (p - 1) % w == 0 && (e - 1) % w == 0
    ensures (p * e - 1) % w == 0
  {
    DivisibleMul(p - 1, e, w);
    DivisibleAdd((p - 1) * e, e - 1, w);
    assert (p - 1) * e + (e - 1) == p * e - 1;
  }

  /** Modulo an odd number, a^(n-1) is never -1. */
  lemma NeverMinusOne(a: nat, n: nat)
    requires 3 <= n && n % 2 == 1
    ensures !Cong(Pow(a, n - 1), -1, n)
  {
    if Cong(Pow(a, n - 1), -1, n) {
      ModOfMultiple(1, n);
      DivisorIsOne(a, n, n);
      NoMoreTwos(n - 1);
    }
  }

  lemma NoMoreTwos(v: nat)
    requires 0 < v
    ensures 0 < Pow(2, Twos(v) + 1) && v % Pow(2, Twos(v) + 1) != 0
  {
    PowPositive(2, Twos(v));
    PowPositive(2, Twos(v) + 1);
    SplitsUp(v);
    if v % Pow(2, Twos(v) + 1) == 0 {
      var k := DivisibleWitness(v, Pow(2, Twos(v) + 1));
      OddTimesPower(OddPart(v), k, Pow(2, Twos(v)));
    }
  }

  lemma OddTimesPower(m: int, k: int, w: int)
    requires 0 < w && m * w == k * (2 * w)
    ensures m == 2 * k
  {
    assert (m - 2 * k) * w == 0;
    SmallMultiple(m - 2 * k, w);
  }

  /** An odd number that passes for a satisfies Fermat's congruence for a; so a base that
      violates it exposes n as composite. */
  lemma PassesMeansFermat(a: nat, n: nat)
    requires 3 <= n && n % 2 == 1 && Passes(a, n)
    ensures Cong(Pow(a, n - 1), 1, n)
  {
    var m, r := OddPart(n - 1), Twos(n - 1);
    SplitsUp(n - 1);
    PowPositive(2, r);
    if Cong(Pow(a, m), 1, n) {
      CongPowOne(a, m, Pow(2, r), n);
    } else {
      var j :| 0 <= j <= r && RootAt(a, n, j);
      NeverMinusOne(a, n);
      assert j < r;
      var y := Pow(a, Scaled(m, j));
      Squared(a, m, j);
      CongMul(y, -1, y, -1, n);
      PowPositive(2, r - j - 1);
      ScaledAdd(m, j + 1, r - j - 1);
      CongPowOne(a, Scaled(m, j + 1), Pow(2, r - j - 1), n);
    }
  }

  /** An even number passes exactly when a^(n-1) is 1 or -1. */
  lemma EvenPasses(a: nat, n: nat)
    requires 2 <= n && n % 2 == 0
    ensures Passes(a, n) <==> Cong(Pow(a, n - 1), 1, n) || Cong(Pow(a, n - 1), -1, n)
  {
    assert Scaled(n - 1, 0) == n - 1 by { assert Pow(2, 0) == 1; }
    assert RootAt(a, n, 0) <==> Cong(Pow(a, n - 1), -1, n);
  }

  /** So the parity matters: 4 passes for 3, although 3^3 is not 1 modulo 4. */
  lemma EvenExample()
    ensures Passes(3, 4) && !Cong(Pow(3, 3), 1, 4)
  {
    assert Pow(3, 3) == 27;
    EvenPasses(3, 4);
  }
}
