/** Textbook RSA of src/main/java/richard/test/encrypt/RSA.java, with Java's 32-bit and
    64-bit arithmetic written out. */
module Rsa {
  import opened Arithmetic
  import opened NumberTheory

  datatype Option<T> = None | Some(value: T)

  /** Java's %, which truncates toward zero. */
  function Rem(a: int, b: int): int
    requires b > 0
  {
    if a >= 0 then a % b else 0 - (0 - a) % b
  }

  // --------------------------------------------------------- key generation

  method IsCoprime(p: nat, q: nat) returns (b: bool)
    ensures b <==> Coprime(p, q)
  {
    var num1: nat, num2: nat := p, q;
    if p < q {
      num1, num2 := q, p;
      GcdSymmetric(p, q);
    }
    while num2 != 0
      invariant Gcd(num1, num2) == Gcd(p, q)
      decreases num2
    {
      var temp := num2;
      num2 := num1 % num2;
      num1 := temp;
    }
    return num1 == 1;
  }

  /** is_prime also answers true below 2, where its loop does not run. */
  method IsPrime(s: int) returns (b: bool)
    ensures b <==> s < 2 || Prime(s)
  {
    var i := 2;
    while i < s
      invariant 2 <= i && (s >= 2 ==> i <= s)
      invariant forall d :: 2 <= d < i ==> s % d != 0
    {
      if s % i == 0 {
        return false;
      }
      i := i + 1;
    }
    return true;
  }

  /** A draw that get_random takes: not negative, and coprime to t after reduction. */
  predicate Acceptable(draw: int, t: nat)
    requires 0 < t
  {
    draw >= 0 && Coprime(draw % t, t)
  }

  /** get_random on a given stream of draws: the first e = r % t that Euclid accepts. */
  method ChooseExponent(t: nat, draws: seq<int>) returns (e: Option<nat>)
    requires 0 < t
    ensures e.Some? ==> exists i :: 0 <= i < |draws| && Acceptable(draws[i], t) && draws[i] % t == e.value
                                    && forall k :: 0 <= k < i ==> !Acceptable(draws[k], t)
    ensures e.None? ==> forall k :: 0 <= k < |draws| ==> !Acceptable(draws[k], t)
  {
    var i := 0;
    while i < |draws|
      invariant 0 <= i <= |draws|
      invariant forall k :: 0 <= k < i ==> !Acceptable(draws[k], t)
    {
      var r := draws[i];
      if r >= 0 {
        var ok := IsCoprime(r % t, t);
        if ok {
          return Some(r % t);
        }
      }
      i := i + 1;
    }
    return None;
  }

  /** Inverses modulo t: they exist exactly for coprime e, and there is one below t. */
  lemma InverseExists(e: nat, t: nat)
    requires 1 < t
    ensures Coprime(e, t) <==> exists d: nat :: d < t && (e * d) % t == 1
    ensures forall d: nat, f: nat :: d < t && f < t && (e * d) % t == 1 && (e * f) % t == 1 ==> d == f
  {
    DivModUnique(1, t, 0, 1);
    if Coprime(e, t) {
      var x := CoprimeInverse(e, t);
      CongIffMod(e * x, 1, t);
      assert x < t && (e * x) % t == 1;
    }
    if exists d: nat :: d < t && (e * d) % t == 1 {
      var d: nat :| d < t && (e * d) % t == 1;
      CongIffMod(e * d, 1, t);
      InverseGivesCoprime(e, d, t);
    }
    forall d: nat, f: nat | d < t && f < t && (e * d) % t == 1 && (e * f) % t == 1
      ensures d == f
    {
      assert e * d == d * e && e * f == f * e;
      InverseUnique(e, t, d, f);
    }
  }

  /** get_private_key; None is the exception.  When the products fit an int, the search
      succeeds exactly for exponents coprime to t, with the only inverse below t. */
  method GetPrivateKey(e: nat, t: nat) returns (d: Option<nat>)
    ensures d.Some? ==> d.value < t && Rem(Wrap32(e * d.value), t) == 1
    ensures t > 1 && e * (t - 1) <= MAX_INT ==> (d.Some? <==> Coprime(e, t))
    ensures t > 1 && e * (t - 1) <= MAX_INT && d.Some? ==>
              (e * d.value) % t == 1 && forall f: nat :: f < t && (e * f) % t == 1 ==> f == d.value
    ensures t <= 1 ==> d.None?
  {
    if t > 1 {
      InverseExists(e, t);
    }
    var k := 0;
    while k < t
      invariant 0 <= k <= t
      invariant forall f: nat :: f < k ==> Rem(Wrap32(e * f), t) != 1
    {
      if e * (t - 1) <= MAX_INT {
        SearchProduct(e, k, t);
      }
      if Rem(Wrap32(e * k), t) == 1 {
        return Some(k);
      }
      k := k + 1;
    }
    if t > 1 && e * (t - 1) <= MAX_INT && Coprime(e, t) {
      var f: nat :| f < t && (e * f) % t == 1;
      SearchProduct(e, f, t);
    }
    return None;
  }

  lemma SearchProduct(e: nat, k: nat, t: nat)
    requires k < t && e * (t - 1) <= MAX_INT
    ensures Rem(Wrap32(e * k), t) == (e * k) % t
  {
    MulMonotone(e, k, t - 1);
    MulNonNegative(e, k);
    NoWrap32(e * k);
  }

  // --------------------------------------------------- encryption, decryption

  /** The int accumulator of encrypt_dt after j multiplications. */
  function IntPower(m: int, j: nat, n: int): int
    requires n > 0
  {
    if j == 0 then 1 else Rem(Wrap32(IntPower(m, j - 1, n) * m), n)
  }

  /** The long accumulator of decrypt_dt after j multiplications. */
  function LongPower(c: int, j: nat, n: int): int
    requires n > 0
  {
    if j == 0 then 1 else Rem(Wrap64(LongPower(c, j - 1, n) * c), n)
  }

  /** No product overflows while (n - 1) * m fits an int, and the loop is m^j mod n. */
  lemma {:induction false} IntPowerIsPower(m: nat, j: nat, n: int)
    requires n > 1 && (n - 1) * m <= MAX_INT
    ensures IntPower(m, j, n) == Pow(m, j) % n
    decreases j
  {
    if j == 0 {
      DivModUnique(1, n, 0, 1);
    } else {
      IntPowerIsPower(m, j - 1, n);
      var f := Pow(m, j - 1) % n;
      MulMonotone(m, f, n - 1);
      MulNonNegative(f, m);
      NoWrap32(f * m);
      ModMul(Pow(m, j - 1), m, n);
      assert Pow(m, j - 1) * m == Pow(m, j);
    }
  }

  lemma {:induction false} LongPowerIsPower(c: nat, j: nat, n: int)
    requires 1 < n <= 0x8000_0000 && c < n
    ensures LongPower(c, j, n) == Pow(c, j) % n
    decreases j
  {
    if j == 0 {
      DivModUnique(1, n, 0, 1);
    } else {
      LongPowerIsPower(c, j - 1, n);
      var f := Pow(c, j - 1) % n;
      MulMonotone(c, f, 0x7fff_ffff);
      MulMonotone(0x7fff_ffff, c, 0x7fff_ffff);
      MulNonNegative(f, c);
      NoWrap64(f * c);
      ModMul(Pow(c, j - 1), c, n);
      assert Pow(c, j - 1) * c == Pow(c, j);
    }
  }

  /** 46341 is the largest modulus for which every product of two residues is an int. */
  lemma LargestSafeModulus(n: int)
    requires n > 1
    ensures n <= 46341 <==> (n - 1) * (n - 1) <= MAX_INT
  {
    if n <= 46341 {
      MulMonotone(n - 1, n - 1, 46340);
      MulMonotone(46340, n - 1, 46340);
    } else {
      MulMonotone(n - 1, 46341, n - 1);
      MulMonotone(46341, 46341, n - 1);
    }
  }

  method Encrypt(e: nat, n: int, plain: array<nat>) returns (cypher: array<int>)
    requires n > 0
    ensures cypher.Length == plain.Length
    ensures forall i :: 0 <= i < plain.Length ==> cypher[i] == IntPower(plain[i], e, n)
  {
    cypher := new int[plain.Length];
    var i := 0;
    while i < plain.Length
      invariant 0 <= i <= plain.Length
      invariant forall k :: 0 <= k < i ==> cypher[k] == IntPower(plain[k], e, n)
    {
      var flag := 1;
      var j := 0;
      while j < e
        invariant 0 <= j <= e && flag == IntPower(plain[i], j, n)
      {
        flag := Rem(Wrap32(flag * plain[i]), n);
        j := j + 1;
      }
      cypher[i] := flag;
      i := i + 1;
    }
  }

  /** The cast (char) keeps the low 16 bits. */
  method Decrypt(d: nat, n: int, cypher: array<int>) returns (text: array<nat>)
    requires n > 0
    ensures text.Length == cypher.Length
    ensures forall i :: 0 <= i < cypher.Length ==> text[i] == LongPower(cypher[i], d, n) % 0x1_0000
  {
    text := new nat[cypher.Length];
    var i := 0;
    while i < cypher.Length
      invariant 0 <= i <= cypher.Length
      invariant forall k :: 0 <= k < i ==> text[k] == LongPower(cypher[k], d, n) % 0x1_0000
    {
      var flag := 1;
      var j := 0;
      while j < d
        invariant 0 <= j <= d && flag == LongPower(cypher[i], j, n)
      {
        flag := Rem(Wrap64(flag * cypher[i]), n);
        j := j + 1;
      }
      text[i] := flag % 0x1_0000;
      i := i + 1;
    }
  }

  // ------------------------------------------------------------- round trip

  /** m^(1 + k (p - 1)) = m modulo a prime, for multiples of p as well. */
  lemma ExponentCycle(m: nat, p: nat, k: nat)
    requires Prime(p)
    ensures 0 <= k * (p - 1) && Cong(Pow(m, 1 + k * (p - 1)), m, p)
  {
    MulNonNegative(k, p - 1);
    ModOfMultiple(k, p - 1);
    var w := Pow(m, k * (p - 1));
    assert Pow(m, 1 + k * (p - 1)) == m * w;
    if m % p == 0 {
      DivisibleMul(m, w, p);
      DivisibleAdd(m * w, m, p);
    } else {
      UnitPower(m, p, k * (p - 1));
      CongRefl(m, p);
      CongMul(m, m, w, 1, p);
    }
  }

  /** RSA: (m^e mod n)^d mod n = m for every m below n = p q. */
  lemma RsaIdentity(p: nat, q: nat, e: nat, d: nat, m: nat)
    requires Prime(p) && Prime(q) && p != q && m < p * q
    requires 0 < (p - 1) * (q - 1) && Cong(e * d, 1, (p - 1) * (q - 1))
    requires 0 < e * d
    ensures Pow(Pow(m, e) % (p * q), d) % (p * q) == m
  {
    var n, t := p * q, (p - 1) * (q - 1);
    MulPositive(p, q);
    var j := DivisibleWitness(e * d - 1, t);
    if j < 0 {
      MulMonotone(t, j, -1);
    }
    assert e * d == 1 + (j * (q - 1)) * (p - 1) by { assert j * t == (j * (q - 1)) * (p - 1); }
    assert e * d == 1 + (j * (p - 1)) * (q - 1) by { assert j * t == (j * (p - 1)) * (q - 1); }
    MulNonNegative(j, q - 1);
    MulNonNegative(j, p - 1);
    ExponentCycle(m, p, j * (q - 1));
    ExponentCycle(m, q, j * (p - 1));
    DistinctPrimesCoprime(p, q);
    CoprimeModuli(Pow(m, e * d), m, p, q);
    PowMod(Pow(m, e), d, n);
    PowPow(m, e, d);
    CongIffMod(Pow(m, e * d), m, n);
    DivModUnique(m, n, 0, m);
  }

  /** main: choose d for a given e, encrypt, decrypt; the text comes back whenever the products
      of the key search and of the encryption fit an int. */
  method RoundTrip(p: nat, q: nat, e: nat, plain: array<nat>) returns (text: array<nat>)
    requires Prime(p) && Prime(q) && p != q && p * q <= MAX_INT
    requires Coprime(e, (p - 1) * (q - 1)) && e * ((p - 1) * (q - 1) - 1) <= MAX_INT
    requires forall i :: 0 <= i < plain.Length ==> plain[i] < p * q && plain[i] < 0x1_0000
    requires forall i :: 0 <= i < plain.Length ==> (p * q - 1) * plain[i] <= MAX_INT
    ensures text.Length == plain.Length
    ensures forall i :: 0 <= i < plain.Length ==> text[i] == plain[i]
  {
    var n, t := p * q, (p - 1) * (q - 1);
    assert 1 < t < n by { TotientBounds(p, q); }
    var key := GetPrivateKey(e, t);
    var d := key.value;
    KeyCongruence(e, d, t);
    var cypher := Encrypt(e, n, plain);
    text := Decrypt(d, n, cypher);
    forall i | 0 <= i < plain.Length
      ensures text[i] == plain[i]
    {
      IntPowerIsPower(plain[i], e, n);
      LongPowerIsPower(cypher[i], d, n);
      RsaIdentity(p, q, e, d, plain[i]);
      DivModUnique(plain[i], 0x1_0000, 0, plain[i]);
    }
  }

  lemma KeyCongruence(e: nat, d: nat, t: nat)
    requires 1 < t && (e * d) % t == 1
    ensures 0 < e * d && Cong(e * d, 1, t)
  {
    MulNonNegative(e, d);
    DivModUnique(1, t, 0, 1);
    DivModUnique(0, t, 0, 0);
    CongIffMod(e * d, 1, t);
  }

  /** Moduli up to 46341 need no further condition: every exponent below t and every text of
      values below n is safe. */
  method RoundTripSmallModulus(p: nat, q: nat, e: nat, plain: array<nat>) returns (text: array<nat>)
    requires Prime(p) && Prime(q) && p != q && p * q <= 46341
    requires e < (p - 1) * (q - 1) && Coprime(e, (p - 1) * (q - 1))
    requires forall i :: 0 <= i < plain.Length ==> plain[i] < p * q
    ensures text.Length == plain.Length
    ensures forall i :: 0 <= i < plain.Length ==> text[i] == plain[i]
  {
    ghost var n, t := p * q, (p - 1) * (q - 1);
    assert 1 < t < n by { TotientBounds(p, q); }
    LargestSafeModulus(n);
    MulMonotone(t - 1, e, n - 1);
    MulMonotone(n - 1, t - 1, n - 1);
    forall i | 0 <= i < plain.Length
      ensures (n - 1) * plain[i] <= MAX_INT
    {
      MulMonotone(n - 1, plain[i], n - 1);
    }
    text := RoundTrip(p, q, e, plain);
  }

  /** For moduli up to 2^16 a character comes back if and only if the wrapped encryption loop
      still computed the true power. */
  lemma ComesBackIff(p: nat, q: nat, e: nat, d: nat, m: nat, c: nat)
    requires Prime(p) && Prime(q) && p != q && m < p * q <= 0x1_0000 && c < p * q
    requires 0 < (p - 1) * (q - 1) && 0 < e * d && Cong(e * d, 1, (p - 1) * (q - 1))
    ensures 1 < p * q && (LongPower(c, d, p * q) % 0x1_0000 == m <==> c == Pow(m, e) % (p * q))
  {
    var n := p * q;
    assert 1 < n by { MulPositive(p, q); }
    LongPowerIsPower(c, d, n);
    DivModUnique(Pow(c, d) % n, 0x1_0000, 0, Pow(c, d) % n);
    RsaIdentity(p, q, e, d, m);
    assert e * d == d * e;
    RsaIdentity(p, q, d, e, c);
  }

  /** A number without divisor below k, where k * k exceeds it, is prime. */
  lemma PrimeBySmallDivisors(p: nat, k: nat)
    requires 2 <= p < k * k && forall d :: 2 <= d < k ==> p % d != 0
    ensures Prime(p)
  {
    forall d | 2 <= d < p
      ensures p % d != 0
    {
      if p % d == 0 {
        var c := DivisibleWitness(p, d);
        if c <= 1 { MulMonotone(d, c, 1); }
        if c >= k && d >= k {
          MulMonotone(k, k, d);
          MulMonotone(d, k, c);
        }
        ModOfMultiple(d, c);
      }
    }
  }

  lemma ExamplePrimes()
    ensures Prime(197) && Prime(239)
  {
    forall d | 2 <= d < 16
      ensures 197 % d != 0 && 239 % d != 0
    {
      assert d == 2 || d == 3 || d == 4 || d == 5 || d == 6 || d == 7 || d == 8
          || d == 9 || d == 10 || d == 11 || d == 12 || d == 13 || d == 14 || d == 15;
    }
    PrimeBySmallDivisors(197, 16);
    PrimeBySmallDivisors(239, 16);
  }

  /** 47083 = 197 * 239 with e = 3: the square of character 46357 overflows an int, the second
      product wraps to another residue, and the character does not come back. */
  method OverflowLosesText() returns (text: array<nat>)
    ensures text.Length == 1 && text[0] != 46357
  {
    ExamplePrimes();
    assert Coprime(3, 46648);
    var key := GetPrivateKey(3, 46648);
    KeyCongruence(3, key.value, 46648);
    var plain := new nat[1](i => 46357);
    var cypher := Encrypt(3, 47083, plain);
    ExampleCypher();
    text := Decrypt(key.value, 47083, cypher);
    ComesBackIff(197, 239, 3, key.value, 46357, 44825);
  }

  lemma ExampleCypher()
    ensures IntPower(46357, 3, 47083) == 44825 != Pow(46357, 3) % 47083
  {
    var m, n := 46357, 47083;
    assert IntPower(m, 0, n) == 1;
    assert IntPower(m, 1, n) == 46357;
    assert IntPower(m, 2, n) == -46873;
    assert Pow(m, 3) == m * (m * (m * 1)) by { assert Pow(m, 0) == 1; }
  }

  lemma TotientBounds(p: nat, q: nat)
    requires Prime(p) && Prime(q) && p != q
    ensures 1 < (p - 1) * (q - 1) < p * q
  {
    if p < q {
      MulMonotone(q - 1, 1, p - 1);
    } else {
      MulMonotone(p - 1, 1, q - 1);
    }
    assert p * q == (p - 1) * (q - 1) + p + q - 1;
  }
}
