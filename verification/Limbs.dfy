/** The sign-magnitude numbers of cpp/BigNum.cpp: 128 cells of 32 bits, of which the
    first `length` are in use and the rest are zero.  C++ copies these objects by value,
    so they are a datatype here; the loops that fill them stay loops. */
module Limbs {
  import opened Arithmetic

  const LEN1: nat := 128
  const BASE: nat := 0x1_0000_0000

  // ------------------------------------------------- values of limb sequences

  /** The number written in the first n limbs, least significant limb first. */
  function ValTo(s: seq<nat>, n: nat): nat
    requires n <= |s|
  {
    if n == 0 then 0 else
      PowPositive(BASE, n - 1);
      MulNonNegative(s[n - 1], Pow(BASE, n - 1));
      ValTo(s, n - 1) + s[n - 1] * Pow(BASE, n - 1)
  }

  predicate AllLimbs(s: seq<nat>) {
    forall i :: 0 <= i < |s| ==> s[i] < BASE
  }

  predicate ZeroAbove(s: seq<nat>, n: nat) {
    forall i :: n <= i < |s| ==> s[i] == 0
  }

  lemma {:induction false} ValFrame(s: seq<nat>, t: seq<nat>, n: nat)
    requires n <= |s| && n <= |t|
    requires forall i :: 0 <= i < n ==> s[i] == t[i]
    ensures ValTo(s, n) == ValTo(t, n)
    decreases n
  {
    if n > 0 {
      ValFrame(s, t, n - 1);
    }
  }

  lemma {:induction false} ValBound(s: seq<nat>, n: nat)
    requires n <= |s| && AllLimbs(s)
    ensures ValTo(s, n) < Pow(BASE, n)
    decreases n
  {
    if n > 0 {
      ValBound(s, n - 1);
      PowPositive(BASE, n - 1);
      MulMonotone(Pow(BASE, n - 1), s[n - 1], BASE - 1);
    }
  }

  lemma {:induction false} ValZeros(s: seq<nat>, m: nat, n: nat)
    requires m <= n <= |s|
    requires forall i :: m <= i < n ==> s[i] == 0
    ensures ValTo(s, n) == ValTo(s, m)
    decreases n
  {
    if m < n {
      ValZeros(s, m, n - 1);
    }
  }

  /** Writing one cell changes the value by the change of that cell's weight. */
  lemma {:induction false} ValUpdate(s: seq<nat>, k: nat, v: nat, n: nat)
    requires k < n <= |s|
    ensures ValTo(s[k := v], n) == ValTo(s, n) + (v - s[k]) * Pow(BASE, k)
    decreases n
  {
    if k == n - 1 {
      ValFrame(s, s[k := v], k);
      var w := Pow(BASE, k);
      assert v * w == s[k] * w + (v - s[k]) * w;
    } else {
      ValUpdate(s, k, v, n - 1);
    }
  }

  /** Moving limbs up by `len` cells multiplies by BASE^len. */
  lemma {:induction false} ValShift(s: seq<nat>, t: seq<nat>, n: nat, len: nat)
    requires n <= |s| && n + len <= |t|
    requires forall i :: 0 <= i < len ==> t[i] == 0
    requires forall i :: 0 <= i < n ==> t[i + len] == s[i]
    ensures ValTo(t, n + len) == ValTo(s, n) * Pow(BASE, len)
    decreases n
  {
    if n == 0 {
      ValZeros(t, 0, len);
    } else {
      ValShift(s, t, n - 1, len);
      PowAdd(BASE, n - 1, len);
      ShiftAlgebra(ValTo(s, n - 1), s[n - 1], Pow(BASE, n - 1), Pow(BASE, len));
    }
  }

  lemma ValTop(s: seq<nat>, n: nat)
    requires 0 < n <= |s| && AllLimbs(s)
    ensures s[n - 1] * Pow(BASE, n - 1) <= ValTo(s, n) < (s[n - 1] + 1) * Pow(BASE, n - 1)
  {
    ValBound(s, n - 1);
    var w := Pow(BASE, n - 1);
    assert (s[n - 1] + 1) * w == s[n - 1] * w + w;
  }

  lemma TopDecides(s: seq<nat>, t: seq<nat>, i: nat)
    requires i < |s| && i < |t| && AllLimbs(s) && AllLimbs(t)
    ensures s[i] < t[i] ==> ValTo(s, i + 1) < ValTo(t, i + 1)
  {
    if s[i] < t[i] {
      ValTop(s, i + 1);
      ValTop(t, i + 1);
      PowPositive(BASE, i);
      MulMonotone(Pow(BASE, i), s[i] + 1, t[i]);
    }
  }

  /** Equal values of equally many limbs are equal limbs. */
  lemma {:induction false} ValInjective(s: seq<nat>, t: seq<nat>, n: nat)
    requires n <= |s| && n <= |t| && AllLimbs(s) && AllLimbs(t)
    requires ValTo(s, n) == ValTo(t, n)
    ensures forall i :: 0 <= i < n ==> s[i] == t[i]
    decreases n
  {
    if n > 0 {
      TopDecides(s, t, n - 1);
      TopDecides(t, s, n - 1);
      assert s[n - 1] == t[n - 1];
      assert ValTo(s, n - 1) == ValTo(t, n - 1);
      ValInjective(s, t, n - 1);
    }
  }

  // ------------------------------------------------------------- the numbers

  datatype BigNum = BigNum(neg: bool, length: nat, limbs: seq<nat>) {

    /** Normalised: no leading zero limb, nothing above `length`. */
    predicate Valid() {
      && 1 <= length <= LEN1 == |limbs|
      && AllLimbs(limbs)
      && ZeroAbove(limbs, length)
      && (length > 1 ==> limbs[length - 1] != 0)
    }

    function Mag(): nat
      requires length <= |limbs|
    {
      ValTo(limbs, length)
    }

    function Value(): int
      requires length <= |limbs|
    {
      if neg then 0 - Mag() else Mag()
    }

    function Top(): nat
      requires 1 <= length <= |limbs|
    {
      limbs[length - 1]
    }
  }

  lemma MagAtAnyLength(x: BigNum, n: nat)
    requires x.Valid() && x.length <= n <= LEN1
    ensures ValTo(x.limbs, n) == x.Mag()
  {
    ValZeros(x.limbs, x.length, n);
  }

  /** The length is the number of limbs the magnitude needs. */
  lemma LengthOfMag(x: BigNum)
    requires x.Valid()
    ensures x.Mag() < Pow(BASE, x.length)
    ensures x.Mag() != 0 ==> Pow(BASE, x.length - 1) <= x.Mag()
    ensures x.Mag() != 0 <==> x.Top() != 0
  {
    ValBound(x.limbs, x.length);
    ValTop(x.limbs, x.length);
    var w := Pow(BASE, x.length - 1);
    if x.Top() == 0 {
      assert x.length == 1;
      assert ValTo(x.limbs, 0) == 0;
    } else {
      PowPositive(BASE, x.length - 1);
      MulMonotone(w, 1, x.Top());
    }
  }

  lemma ShorterThan(x: BigNum, k: nat)
    requires x.Valid() && 1 <= k && x.Mag() < Pow(BASE, k)
    ensures x.length <= k
  {
    LengthOfMag(x);
    if k < x.length {
      PowMonotone(BASE, k, x.length - 1);
    }
  }

  lemma SmallerIsShorter(x: BigNum, y: BigNum)
    requires x.Valid() && y.Valid() && x.Mag() <= y.Mag()
    ensures x.length <= y.length
  {
    LengthOfMag(y);
    ShorterThan(x, y.length);
  }

  /** Sign and magnitude determine the whole object. */
  lemma CanonicalForm(x: BigNum, y: BigNum)
    requires x.Valid() && y.Valid() && x.neg == y.neg && x.Mag() == y.Mag()
    ensures x == y
  {
    MagAtAnyLength(x, LEN1);
    MagAtAnyLength(y, LEN1);
    ValInjective(x.limbs, y.limbs, LEN1);
    SmallerIsShorter(x, y);
    SmallerIsShorter(y, x);
    assert x.limbs == y.limbs;
  }

  // ------------------------------------------------ constructors, comparison

  const ZERO_LIMBS: seq<nat> := seq(LEN1, i => 0)

  /** BigNum(uint64_t): one limb, or two when the value needs them. */
  method FromWord(a: nat) returns (x: BigNum)
    requires a < BASE * BASE
    ensures x.Valid() && !x.neg && x.Mag() == a
    ensures x.length == if a < BASE then 1 else 2
  {
    if a <= 0xffff_ffff {
      x := BigNum(false, 1, ZERO_LIMBS[0 := a]);
      assert ValTo(x.limbs, 0) == 0 && Pow(BASE, 0) == 1;
    } else {
      x := BigNum(false, 2, ZERO_LIMBS[1 := a / BASE][0 := a % BASE]);
      assert ValTo(x.limbs, 0) == 0 && Pow(BASE, 0) == 1 && Pow(BASE, 1) == BASE;
      assert ValTo(x.limbs, 1) == a % BASE;
    }
  }

  function Negate(x: BigNum): (r: BigNum)
    requires x.Valid()
    ensures r.Valid() && r.Value() == -x.Value() && r.length == x.length && r.Mag() == x.Mag()
  {
    BigNum(!x.neg, x.length, x.limbs)
  }

  /** Compare answers 0, 1 or 2: the magnitude is greater than, less than or equal to y's. */
  method Compare(x: BigNum, y: BigNum) returns (c: int)
    requires x.Valid() && y.Valid()
    ensures c == if x.Mag() > y.Mag() then 0 else if x.Mag() < y.Mag() then 1 else 2
  {
    if x.length > y.length {
      if x.Mag() <= y.Mag() { SmallerIsShorter(x, y); }
      return 0;
    } else if x.length < y.length {
      if y.Mag() <= x.Mag() { SmallerIsShorter(y, x); }
      return 1;
    }
    var i := x.length;
    while i > 0
      invariant 0 <= i <= x.length
      invariant x.Mag() - y.Mag() == ValTo(x.limbs, i) - ValTo(y.limbs, i)
    {
      i := i - 1;
      if x.limbs[i] != y.limbs[i] {
        TopDecides(x.limbs, y.limbs, i);
        TopDecides(y.limbs, x.limbs, i);
        return if x.limbs[i] > y.limbs[i] then 0 else 1;
      }
    }
    return 2;
  }

  /** operator==: signs and magnitudes agree. */
  method Equals(x: BigNum, y: BigNum) returns (b: bool)
    requires x.Valid() && y.Valid()
    ensures b <==> x.neg == y.neg && x.Mag() == y.Mag()
    ensures b <==> x == y
  {
    if x.neg == y.neg {
      var c := Compare(x, y);
      if c == 2 { CanonicalForm(x, y); }
      return c == 2;
    }
    return false;
  }

  /** operator!=: as written it also answers false when the signs differ. */
  method NotEquals(x: BigNum, y: BigNum) returns (b: bool)
    requires x.Valid() && y.Valid()
    ensures b <==> x.neg == y.neg && x.Mag() != y.Mag()
  {
    if x.neg == y.neg {
      var c := Compare(x, y);
      return c != 2;
    }
    return false;
  }

  /** The loop that drops leading zero limbs at the end of +, - and *. */
  method Trim(neg: bool, limbs: seq<nat>, length: nat) returns (x: BigNum)
    requires |limbs| == LEN1 && 1 <= length <= LEN1 && AllLimbs(limbs) && ZeroAbove(limbs, length)
    ensures x.Valid() && x.neg == neg && x.length <= length
    ensures x.Mag() == ValTo(limbs, length)
  {
    var len := length;
    while len > 1 && limbs[len - 1] == 0
      invariant 1 <= len <= length
      invariant ZeroAbove(limbs, len)
      invariant ValTo(limbs, len) == ValTo(limbs, length)
    {
      len := len - 1;
    }
    x := BigNum(neg, len, limbs);
  }
}
