/** Rabin_Miller of cpp/BigNum.cpp.  The prime table and the five random bases are inputs. */
module MillerRabin {
  import opened Arithmetic
  import opened NumberTheory
  import opened Limbs
  import opened LimbAddSub
  import opened LimbDiv
  import opened ModularAlgorithms
  import opened ProbablePrimes

  lemma {:induction false} ValParity(s: seq<nat>, n: nat)
    requires 1 <= n <= |s|
    ensures ValTo(s, n) % 2 == s[0] % 2
    decreases n
  {
    if n == 1 {
      assert ValTo(s, 0) == 0 && Pow(BASE, 0) == 1;
    } else {
      ValParity(s, n - 1);
      EvenStep(ValTo(s, n - 1), s[n - 1], Pow(BASE, n - 2));
    }
  }

  lemma EvenStep(v: int, d: int, w: int)
    ensures (v + d * (BASE * w)) % 2 == v % 2
  {
    var k := d * w;
    assert d * (BASE * w) == BASE * k;
  }

  /** Lines 733-737: x - 1 = 2^r * m with m odd. */
  method Halve(x1: BigNum) returns (m: BigNum, r: nat)
    requires x1.Valid() && !x1.neg && x1.Mag() != 0 && x1.length < LEN1
    ensures m.Valid() && !m.neg && m.Mag() % 2 == 1 && x1.Mag() == Pow(2, r) * m.Mag()
    ensures m.Mag() == OddPart(x1.Mag()) && r == Twos(x1.Mag())
  {
    m, r := x1, 0;
    var two := FromWord(2);
    while m.limbs[0] % 2 == 0
      invariant m.Valid() && !m.neg && m.Mag() != 0 && m.length < LEN1
      invariant x1.Mag() == Pow(2, r) * m.Mag()
      decreases m.Mag()
    {
      ValParity(m.limbs, m.length);
      ghost var before := m.Mag();
      r := r + 1;
      var half := Div(AsWritten, m, two);
      m := half.value;
      assert Pow(2, r) * m.Mag() == Pow(2, r - 1) * before by { HalveStep(Pow(2, r - 1), m.Mag(), before); }
    }
    ValParity(m.limbs, m.length);
    assert Scaled(m.Mag(), r) == x1.Mag();
    SplitUnique(m.Mag(), r);
  }

  /** Successive values of m in the loop. */
  predicate Halvings(ms: seq<BigNum>) {
    && (forall i :: 0 <= i < |ms| ==> ms[i].Valid())
    && (forall i :: 1 <= i < |ms| ==> ms[i].Mag() == ms[i - 1].Mag() / 2)
  }

  /** Started at 0, which is 1 - 1, the loop halves for ever: every number it reaches is 0 and
      even, so its condition holds after any number of iterations. */
  lemma {:induction false} HalvingZeroNeverEnds(ms: seq<BigNum>, k: nat)
    requires k < |ms| && Halvings(ms) && ms[0].Mag() == 0
    ensures ms[k].Mag() == 0 && ms[k].limbs[0] % 2 == 0
    decreases k
  {
    if k > 0 {
      HalvingZeroNeverEnds(ms, k - 1);
    }
    ValParity(ms[k].limbs, ms[k].length);
  }

  lemma HalveStep(w: int, m: int, before: int)
    requires before == 2 * m
    ensures (2 * w) * m == w * before
  {
  }

  /** O.Compare((Y - I) % X) == 2 or O.Compare((Y + I) % X) == 2, for d = -1 or d = 1. */
  method IsCongruent(rule: Rule, y: BigNum, x: BigNum, minus: bool) returns (r: Outcome<bool>)
    requires y.Valid() && x.Valid() && !y.neg && !x.neg && x.Mag() >= 2 && y.Mag() < x.Mag()
    requires y.length < LEN1 - 1 && x.length < LEN1 - 1
    ensures r.Fair(rule)
    ensures r.Exact? ==> (r.value <==> Cong(y.Mag(), if minus then -1 else 1, x.Mag()))
  {
    var zero := FromWord(0);
    var one := FromWord(1);
    var t;
    if minus {
      var sum := Add(rule, y, one);
      t := sum.value;
      SmallerIsShorter(t, x);
    } else {
      t :- Minus(rule, y, one);
      if y.Mag() != 0 { SmallerIsShorter(t, y); } else { SmallerIsShorter(t, one); }
    }
    var u :- Mod(rule, t, x);
    var c := Compare(zero, u);
    r := Exact(c == 2);
    if !minus && y.Mag() == 0 {
      NegativeOne(x.Mag());
    }
  }

  lemma NegativeOne(n: nat)
    requires n >= 2
    ensures !Cong(0, 1, n) && 1 % n == 1
  {
    DivModUnique(1, n, 0, 1);
    DivModUnique(-1, n, -1, n - 1);
  }

  /** Congruent numbers are alike for every comparison. */
  lemma CongAlike(y: int, z: int, c: int, n: nat)
    requires 0 < n && Cong(y, z, n)
    ensures Cong(y, c, n) <==> Cong(z, c, n)
  {
    CongSymmetric(y, z, n);
    if Cong(y, c, n) { CongTransitive(z, y, c, n); }
    if Cong(z, c, n) { CongTransitive(y, z, c, n); }
  }

  /** After j squarings the loop holds a^(m 2^j). */
  predicate HoldsPower(y: BigNum, a: nat, m: nat, n: nat, j: nat)
    requires y.Valid()
  {
    0 < n && Cong(y.Mag(), Pow(a, Scaled(m, j)), n)
  }

  lemma NextPower(y: nat, a: nat, m: nat, n: nat, j: nat)
    requires 0 < n && Cong(y, Pow(a, Scaled(m, j)), n)
    ensures Cong((y * y) % n, Pow(a, Scaled(m, j + 1)), n)
  {
    var z := Pow(a, Scaled(m, j));
    Squared(a, m, j);
    CongMul(y, z, y, z, n);
    CongMod(y * y, n);
    CongTransitive((y * y) % n, y * y, z * z, n);
  }

  /** One of the five rounds, lines 744-762.  It decides `Passes`, for every number n > 1. */
  method Round(rule: Rule, a: BigNum, m: BigNum, r: nat, x: BigNum) returns (pass: Outcome<bool>)
    requires a.Valid() && m.Valid() && x.Valid() && !a.neg && !m.neg && !x.neg && a.length < LEN1
    requires x.Mag() >= 2 && 2 * x.length < LEN1 - 1 && m.Mag() == OddPart(x.Mag() - 1) && r == Twos(x.Mag() - 1)
    ensures pass.Fair(rule)
    ensures pass.Exact? ==> (pass.value <==> Passes(a.Mag(), x.Mag()))
  {
    ghost var n, a1, m1 := x.Mag(), a.Mag(), m.Mag();
    var y :- PowerMod(rule, a, m, x);
    CongMod(Pow(a1, m1), n);
    CongAlike(y.Mag(), Pow(a1, m1), 1, n);
    var isOne :- IsCongruent(rule, y, x, false);
    if isOne {
      return Exact(true);
    }
    pass := SquareUp(rule, y, a1, m1, r, x);
  }

  /** Lines 748-757: test for -1, then square and test, r times. */
  method SquareUp(rule: Rule, y0: BigNum, ghost a: nat, ghost m: nat, r: nat, x: BigNum) returns (found: Outcome<bool>)
    requires y0.Valid() && x.Valid() && !y0.neg && !x.neg && x.Mag() >= 2 && 2 * x.length < LEN1 - 1
    requires m == OddPart(x.Mag() - 1) && r == Twos(x.Mag() - 1) && y0.Mag() == Pow(a, m) % x.Mag() && y0.length <= x.length
    ensures found.Fair(rule)
    ensures found.Exact? ==> (found.value <==> exists j :: 0 <= j <= r && RootAt(a, x.Mag(), j))
  {
    ghost var n := x.Mag();
    CongMod(Pow(a, m), n);
    assert Scaled(m, 0) == m by { assert Pow(2, 0) == 1; }
    var y := y0;
    CongAlike(y.Mag(), Pow(a, Scaled(m, 0)), -1, n);
    var isRoot :- IsCongruent(rule, y, x, true);
    if isRoot {
      assert RootAt(a, n, 0);
      return Exact(true);
    }
    var j := 0;
    while j < r
      invariant 0 <= j <= r && InRange(y, x) && y.Mag() < n && HoldsPower(y, a, m, n, j)
      invariant forall k: nat :: k <= j ==> !RootAt(a, n, k)
    {
      NextPower(y.Mag(), a, m, n, j);
      y :- MulMod(rule, y, y, x);
      CongAlike(y.Mag(), Pow(a, Scaled(m, j + 1)), -1, n);
      isRoot :- IsCongruent(rule, y, x, true);
      if isRoot {
        assert RootAt(a, n, j + 1);
        return Exact(true);
      }
      j := j + 1;
    }
    return Exact(false);
  }

  /** All that the table of 2800 small primes has to be. */
  predicate GoodTable(primes: seq<nat>) {
    |primes| > 0 && forall i :: 0 <= i < |primes| ==> Prime(primes[i]) && primes[i] < BASE
  }

  predicate GoodBases(bases: seq<BigNum>) {
    |bases| == 5 && forall i :: 0 <= i < 5 ==> bases[i].Valid() && !bases[i].neg && bases[i].length < LEN1
  }

  predicate SomeBaseVanishes(bases: seq<BigNum>, n: nat)
    requires GoodBases(bases) && 0 < n
  {
    exists i :: 0 <= i < 5 && bases[i].Mag() % n == 0
  }

  predicate HasFactorIn(n: nat, primes: seq<nat>)
    requires GoodTable(primes)
  {
    exists i :: 0 <= i < |primes| && n % primes[i] == 0
  }

  /** A table prime that divides n and is not n makes n composite, and keeps it out of the table. */
  lemma ProperFactor(n: nat, primes: seq<nat>, i: nat)
    requires GoodTable(primes) && i < |primes| && n % primes[i] == 0 && n != primes[i]
    ensures !Prime(n) && n !in primes
  {
    if Prime(n) {
      DivisorBound(primes[i], n);
    }
  }

  /** Lines 724-731: trial division by the table. */
  method TableTest(x: BigNum, primes: seq<nat>) returns (verdict: int)
    requires x.Valid() && !x.neg && x.length < LEN1
    requires GoodTable(primes)
    ensures verdict == if x.Mag() in primes then 1 else if HasFactorIn(x.Mag(), primes) then 0 else -1
    ensures verdict == 0 ==> !Prime(x.Mag())
    ensures verdict == -1 ==> x.Mag() != 0
  {
    var zero := FromWord(0);
    var i := 0;
    while i < |primes|
      invariant 0 <= i <= |primes|
      invariant x.Mag() !in primes[..i] && (i > 0 ==> x.Mag() != 0)
      invariant forall k :: 0 <= k < i ==> x.Mag() % primes[k] != 0
    {
      ModOfMultiple(0, primes[i]);
      var temp := FromWord(primes[i]);
      var same := Equals(x, temp);
      if same {
        return 1;
      }
      var rem := Mod(AsWritten, x, temp);
      var divides := Equals(rem.value, zero);
      if divides {
        ProperFactor(x.Mag(), primes, i);
        return 0;
      }
      i := i + 1;
    }
    return -1;
  }

  /** What Rabin_Miller answers for n > 1: a table entry is accepted, a multiple of one rejected,
      and any other number is accepted if and only if it passes for all five bases. */
  predicate Accepted(n: nat, primes: seq<nat>, bases: seq<BigNum>)
    requires 2 <= n && GoodTable(primes) && GoodBases(bases)
  {
    n in primes || (!HasFactorIn(n, primes) && forall i :: 0 <= i < 5 ==> Passes(bases[i].Mag(), n))
  }

  lemma NoFactorOfPrime(n: nat, primes: seq<nat>)
    requires GoodTable(primes) && Prime(n) && n !in primes
    ensures !HasFactorIn(n, primes)
  {
    if i :| 0 <= i < |primes| && n % primes[i] == 0 {
      ProperFactor(n, primes, i);
    }
  }

  /** So a prime is accepted if and only if it is in the table or no base is a multiple of it. */
  lemma PrimeAccepted(n: nat, primes: seq<nat>, bases: seq<BigNum>)
    requires Prime(n) && GoodTable(primes) && GoodBases(bases)
    ensures Accepted(n, primes, bases) <==> n in primes || !SomeBaseVanishes(bases, n)
  {
    if n !in primes {
      NoFactorOfPrime(n, primes);
      forall i | 0 <= i < 5
        ensures Passes(bases[i].Mag(), n) <==> bases[i].Mag() % n != 0
      {
        PrimePasses(bases[i].Mag(), n);
      }
    }
  }

  /** And an odd number outside the table is rejected as soon as one base violates Fermat's
      congruence. */
  lemma FermatWitnessRejects(n: nat, primes: seq<nat>, bases: seq<BigNum>, i: nat)
    requires 3 <= n && n % 2 == 1 && n !in primes && GoodTable(primes) && GoodBases(bases)
    requires i < 5 && !Cong(Pow(bases[i].Mag(), n - 1), 1, n)
    ensures !Accepted(n, primes, bases)
  {
    if Passes(bases[i].Mag(), n) {
      PassesMeansFermat(bases[i].Mag(), n);
    }
  }

  /** Rabin_Miller.  The answer 0 for bases that are not multiples of n proves n composite.  n = 1
      is excluded: for it the halving loop of the source does not end. */
  method RabinMiller(rule: Rule, x: BigNum, primes: seq<nat>, bases: seq<BigNum>) returns (verdict: Outcome<int>)
    requires x.Valid() && !x.neg && x.Mag() != 1 && 2 * x.length < LEN1 - 1
    requires GoodTable(primes) && GoodBases(bases)
    ensures verdict.Fair(rule)
    ensures verdict.Exact? && x.Mag() == 0 ==> verdict.value == 0
    ensures verdict.Exact? && x.Mag() >= 2 ==> verdict.value == if Accepted(x.Mag(), primes, bases) then 1 else 0
    ensures verdict.Exact? && Prime(x.Mag()) ==>
              (verdict.value == 1 <==> x.Mag() in primes || !SomeBaseVanishes(bases, x.Mag()))
    ensures verdict == Exact(0) && x.Mag() != 0 && !SomeBaseVanishes(bases, x.Mag()) ==> !Prime(x.Mag())
  {
    if Prime(x.Mag()) {
      PrimeAccepted(x.Mag(), primes, bases);
    }
    var early := TableTest(x, primes);
    if early == 0 || early == 1 {
      return Exact(early);
    }
    var one := FromWord(1);
    var m :- Minus(rule, x, one);
    SmallerIsShorter(m, x);
    var r;
    m, r := Halve(m);
    var i := 0;
    while i < 5
      invariant 0 <= i <= 5 && forall k :: 0 <= k < i ==> Passes(bases[k].Mag(), x.Mag())
    {
      var pass :- Round(rule, bases[i], m, r, x);
      if !pass {
        return Exact(0);
      }
      i := i + 1;
    }
    return Exact(1);
  }
}
