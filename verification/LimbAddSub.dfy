/** operator+ and operator- of cpp/BigNum.cpp.

    `Sub` follows the source limb by limb, including its borrow rule, and is proved against
    an exact account of what that rule computes.  `Difference` repairs the rule and is the
    exact difference.  `CodeMeetsContract` says when the two are the same object.

    Everything built on subtraction takes a `Rule`, so that each theorem speaks about both:
    under `Repaired` a run always ends with its value, and under `AsWritten` it either ends
    with that same value or names the first of its subtractions that loses a borrow. */
module LimbAddSub {
  import opened Arithmetic
  import opened Limbs

  // ---------------------------------------------------------------- addition

  lemma CarryStep(u: int, r: int, a: int, b: int, c: int, d: int, e: int, w: int)
    requires u + c * w == r && a + b + c == d + e * BASE
    ensures u + d * w + e * (BASE * w) == r + a * w + b * w
  {
    assert (a + b + c) * w == (d + e * BASE) * w;
    assert (d + e * BASE) * w == d * w + e * (BASE * w);
    assert (a + b + c) * w == a * w + b * w + c * w;
  }

  /** The first i limbs of s, with the carry, are the sum of the first i limbs of a and b. */
  predicate Summed(s: seq<nat>, a: seq<nat>, b: seq<nat>, i: nat, carry: int)
    requires i <= |s| && i <= |a| && i <= |b|
  {
    ValTo(s, i) + carry * Pow(BASE, i) == ValTo(a, i) + ValTo(b, i)
  }

  lemma SumLimb(s: seq<nat>, a: seq<nat>, b: seq<nat>, i: nat, carry: int, d: nat, e: int)
    requires i < |s| && i < |a| && i < |b| && Summed(s, a, b, i, carry) && a[i] + b[i] + carry == d + e * BASE
    ensures Summed(s[i := d], a, b, i + 1, e)
  {
    ValFrame(s, s[i := d], i);
    CarryStep(ValTo(s, i), ValTo(a, i) + ValTo(b, i), a[i], b[i], carry, d, e, Pow(BASE, i));
  }

  method AddSameSign(x: BigNum, y: BigNum) returns (r: BigNum)
    requires x.Valid() && y.Valid() && x.neg == y.neg && x.length < LEN1 && y.length < LEN1
    ensures r.Valid() && r.neg == x.neg && r.Mag() == x.Mag() + y.Mag()
  {
    var n := (if x.length >= y.length then x.length else y.length) + 1;
    var s: seq<nat> := ZERO_LIMBS;
    var carry := 0;
    var i := 0;
    while i < n
      invariant 0 <= i <= n && |s| == LEN1 && AllLimbs(s) && ZeroAbove(s, i)
      invariant 0 <= carry <= 1 && (i == n ==> carry == 0)
      invariant Summed(s, x.limbs, y.limbs, i, carry)
    {
      var sum := y.limbs[i] + x.limbs[i] + carry;
      SumLimb(s, x.limbs, y.limbs, i, carry, sum % BASE, sum / BASE);
      carry := if sum <= 0xffff_ffff then 0 else 1;
      s := s[i := sum % BASE];
      i := i + 1;
    }
    MagAtAnyLength(x, n);
    MagAtAnyLength(y, n);
    r := Trim(x.neg, s, n);
  }

  // ------------------------------------------------- the source's subtraction

  /** The borrow F that the loop at lines 443-450 holds when it reaches limb i. */
  function Borrow(a: seq<nat>, b: seq<nat>, i: nat): nat
    requires i <= |a| && i <= |b|
  {
    if i == 0 then 0
    else if (a[i - 1] - Borrow(a, b, i - 1)) % BASE < b[i - 1] then 1 else 0
  }

  /** A borrow enters a zero limb: `0 - 1` wraps to 0xffffffff and no new borrow is raised. */
  predicate LosesBorrow(a: seq<nat>, b: seq<nat>, i: nat)
    requires i < |a| && i <= |b|
  {
    Borrow(a, b, i) == 1 && a[i] == 0
  }

  /** What the lost borrows add to the difference. */
  function Excess(a: seq<nat>, b: seq<nat>, n: nat): nat
    requires n <= |a| && n <= |b|
  {
    if n == 0 then 0 else
      PowPositive(BASE, n);
      Excess(a, b, n - 1) + if LosesBorrow(a, b, n - 1) then Pow(BASE, n) else 0
  }

  /** The condition a caller can check: no zero limb of the larger operand has, below it,
      limbs that are worth less than the subtrahend's. */
  predicate BorrowSafe(a: seq<nat>, b: seq<nat>, n: nat)
    requires n <= |a| && n <= |b|
  {
    forall i :: 0 <= i < n ==> !(a[i] == 0 && ValTo(a, i) < ValTo(b, i))
  }

  lemma {:induction false} BorrowMeansBelow(a: seq<nat>, b: seq<nat>, i: nat)
    requires i <= |a| && i <= |b| && AllLimbs(a) && AllLimbs(b)
    ensures Borrow(a, b, i) == 1 ==> ValTo(a, i) < ValTo(b, i)
    decreases i
  {
    if i > 0 && Borrow(a, b, i) == 1 {
      BorrowMeansBelow(a, b, i - 1);
      TopDecides(a, b, i - 1);
      var f := Borrow(a, b, i - 1);
      if f == 0 {
        DivModUnique(a[i - 1], BASE, 0, a[i - 1]);
      } else if a[i - 1] == 0 {
        DivModUnique(-1, BASE, -1, BASE - 1);
      } else {
        DivModUnique(a[i - 1] - 1, BASE, 0, a[i - 1] - 1);
      }
    }
  }

  lemma {:induction false} BelowMeansBorrow(a: seq<nat>, b: seq<nat>, i: nat)
    requires i <= |a| && i <= |b| && AllLimbs(a) && AllLimbs(b)
    requires forall k :: 0 <= k < i ==> !LosesBorrow(a, b, k)
    ensures ValTo(a, i) < ValTo(b, i) ==> Borrow(a, b, i) == 1
    decreases i
  {
    if i > 0 && ValTo(a, i) < ValTo(b, i) {
      BelowMeansBorrow(a, b, i - 1);
      TopDecides(b, a, i - 1);
      var f := Borrow(a, b, i - 1);
      assert !LosesBorrow(a, b, i - 1);
      DivModUnique(a[i - 1] - f, BASE, 0, a[i - 1] - f);
    }
  }

  /** The declarative condition and the loop's own behaviour agree. */
  lemma {:induction false} BorrowSafeIsLossless(a: seq<nat>, b: seq<nat>, n: nat)
    requires n <= |a| && n <= |b| && AllLimbs(a) && AllLimbs(b)
    ensures BorrowSafe(a, b, n) <==> Excess(a, b, n) == 0
    ensures BorrowSafe(a, b, n) <==> forall i :: 0 <= i < n ==> !LosesBorrow(a, b, i)
    decreases n
  {
    if n > 0 {
      BorrowSafeIsLossless(a, b, n - 1);
      PowPositive(BASE, n);
      BorrowMeansBelow(a, b, n - 1);
      if BorrowSafe(a, b, n - 1) {
        BelowMeansBorrow(a, b, n - 1);
      }
      assert BorrowSafe(a, b, n) <==> BorrowSafe(a, b, n - 1) && !(a[n - 1] == 0 && ValTo(a, n - 1) < ValTo(b, n - 1));
    }
  }

  lemma LimbStep(a: int, b: int, f: int, g: int, sub: int, lost: int)
    requires 0 <= a < BASE && 0 <= b < BASE && 0 <= f <= 1
    requires sub == (a - f) % BASE && g == (if sub < b then 1 else 0)
    requires lost == if f == 1 && a == 0 then 1 else 0
    ensures ((BASE - 1) * g - b + sub + g) % BASE == a - b - f + (g + lost) * BASE
  {
    if lost == 1 {
      DivModUnique(a - f, BASE, -1, BASE - 1);
    } else {
      DivModUnique(a - f, BASE, 0, a - f);
    }
    var d := (BASE - 1) * g - b + sub + g;
    DivModUnique(d, BASE, 0, d);
  }

  lemma AccountStep(v: int, w: int, x: int, y: int, f: int, g: int, lost: int, a: int, b: int, e: int, d: int)
    requires v == x - y + f * w + e && d == a - b - f + (g + lost) * BASE
    ensures v + d * w == (x + a * w) - (y + b * w) + g * (BASE * w) + (e + lost * (BASE * w))
  {
    assert d * w == a * w - b * w - f * w + (g + lost) * (BASE * w);
    assert (g + lost) * (BASE * w) == g * (BASE * w) + lost * (BASE * w);
  }

  /** One limb: sub = a - F wraps at 32 bits, and the new borrow is sub < b. */
  method SubLimb(a: nat, b: nat, f: int) returns (x: nat, g: int)
    requires a < BASE && b < BASE && 0 <= f <= 1
    ensures x < BASE && g == (if (a - f) % BASE < b then 1 else 0)
    ensures x == a - b - f + (g + if f == 1 && a == 0 then 1 else 0) * BASE
  {
    var sub := (a - f) % BASE;
    g := if sub < b then 1 else 0;
    LimbStep(a, b, f, g, sub, if f == 1 && a == 0 then 1 else 0);
    x := ((BASE - 1) * g - b + sub + g) % BASE;
  }

  /** The first i limbs of d are those of a - b, given the borrow f still owed and the excess e. */
  predicate Accounted(d: seq<nat>, a: seq<nat>, b: seq<nat>, i: nat, f: int, e: int)
    requires i <= |d| && i <= |a| && i <= |b|
  {
    ValTo(d, i) == ValTo(a, i) - ValTo(b, i) + f * Pow(BASE, i) + e
  }

  lemma AccountLimb(d: seq<nat>, a: seq<nat>, b: seq<nat>, i: nat, f: int, g: int, lost: int, e: int, x: nat)
    requires i < |d| && i < |a| && i < |b| && Accounted(d, a, b, i, f, e)
    requires x == a[i] - b[i] - f + (g + lost) * BASE
    ensures Accounted(d[i := x], a, b, i + 1, g, e + lost * Pow(BASE, i + 1))
  {
    ValFrame(d, d[i := x], i);
    AccountStep(ValTo(d, i), Pow(BASE, i), ValTo(a, i), ValTo(b, i), f, g, lost, a[i], b[i], e, x);
  }

  /** Lines 443-450 and 458-466: the borrow loop over the larger operand's limbs. */
  method SubLoop(a: seq<nat>, b: seq<nat>, n: nat) returns (d: seq<nat>)
    requires n <= LEN1 == |a| == |b| && AllLimbs(a) && AllLimbs(b)
    requires ValTo(a, n) >= ValTo(b, n)
    ensures |d| == LEN1 && AllLimbs(d) && ZeroAbove(d, n)
    ensures ValTo(d, n) == ValTo(a, n) - ValTo(b, n) + Excess(a, b, n)
  {
    d := ZERO_LIMBS;
    var f := 0;
    var i := 0;
    while i < n
      invariant 0 <= i <= n && |d| == LEN1 && AllLimbs(d) && ZeroAbove(d, i)
      invariant f == Borrow(a, b, i) && Accounted(d, a, b, i, f, Excess(a, b, i))
    {
      ghost var lost := if LosesBorrow(a, b, i) then 1 else 0;
      var x, g := SubLimb(a[i], b[i], f);
      AccountLimb(d, a, b, i, f, g, lost, Excess(a, b, i), x);
      d, f := d[i := x], g;
      i := i + 1;
    }
    BorrowMeansBelow(a, b, n);
  }

  function Larger(x: BigNum, y: BigNum): BigNum
    requires x.Valid() && y.Valid()
  {
    if x.Mag() >= y.Mag() then x else y
  }

  function Smaller(x: BigNum, y: BigNum): BigNum
    requires x.Valid() && y.Valid()
  {
    if x.Mag() >= y.Mag() then y else x
  }

  /** The sign rule of operator- for operands of one sign; x - x keeps x's sign. */
  function DifferenceSign(x: BigNum, y: BigNum): bool
    requires x.Valid() && y.Valid()
  {
    if x.neg != y.neg then x.neg else if x.Mag() >= y.Mag() then x.neg else !x.neg
  }

  /** Every lost borrow that a same-sign subtraction suffers. */
  function LostBorrows(x: BigNum, y: BigNum): nat
    requires x.Valid() && y.Valid()
  {
    if x.neg != y.neg then 0 else Excess(Larger(x, y).limbs, Smaller(x, y).limbs, Larger(x, y).length)
  }

  predicate Safe(x: BigNum, y: BigNum)
    requires x.Valid() && y.Valid()
  {
    x.neg == y.neg ==> BorrowSafe(Larger(x, y).limbs, Smaller(x, y).limbs, Larger(x, y).length)
  }

  predicate IsCodeDifference(x: BigNum, y: BigNum, r: BigNum)
    requires x.Valid() && y.Valid()
  {
    && r.Valid() && r.neg == DifferenceSign(x, y)
    && r.Mag() == (if x.neg != y.neg then x.Mag() + y.Mag()
                   else Larger(x, y).Mag() - Smaller(x, y).Mag()) + LostBorrows(x, y)
  }

  predicate IsExactDifference(x: BigNum, y: BigNum, r: BigNum)
    requires x.Valid() && y.Valid()
  {
    r.Valid() && r.neg == DifferenceSign(x, y) && r.Value() == x.Value() - y.Value()
  }

  /** operator- as written.  It is the true difference exactly when no borrow is lost. */
  method Sub(x: BigNum, y: BigNum) returns (r: BigNum)
    requires x.Valid() && y.Valid()
    requires x.neg != y.neg ==> x.length < LEN1 && y.length < LEN1
    ensures IsCodeDifference(x, y, r)
    ensures r.Value() == x.Value() - y.Value() <==> Safe(x, y)
  {
    if x.neg == y.neg {
      var c := Compare(x, y);
      BorrowSafeIsLossless(Larger(x, y).limbs, Smaller(x, y).limbs, Larger(x, y).length);
      if c == 0 || c == 2 {
        r := SubMagnitudes(x, y, x.neg);
      } else {
        r := SubMagnitudes(y, x, !x.neg);
      }
    } else {
      r := AddSameSign(x, Negate(y));
    }
  }

  method SubMagnitudes(x: BigNum, y: BigNum, neg: bool) returns (r: BigNum)
    requires x.Valid() && y.Valid() && x.Mag() >= y.Mag()
    ensures r.Valid() && r.neg == neg && r.Mag() == x.Mag() - y.Mag() + Excess(x.limbs, y.limbs, x.length)
  {
    SmallerIsShorter(y, x);
    MagAtAnyLength(y, x.length);
    var d := SubLoop(x.limbs, y.limbs, x.length);
    r := Trim(neg, d, x.length);
  }

  // ------------------------------------------------- the subtraction contract

  method ExactLoop(a: seq<nat>, b: seq<nat>, n: nat) returns (d: seq<nat>)
    requires n <= LEN1 == |a| == |b| && AllLimbs(a) && AllLimbs(b)
    requires ValTo(a, n) >= ValTo(b, n)
    ensures |d| == LEN1 && AllLimbs(d) && ZeroAbove(d, n)
    ensures ValTo(d, n) == ValTo(a, n) - ValTo(b, n)
  {
    d := ZERO_LIMBS;
    var f := 0;
    var i := 0;
    while i < n
      invariant 0 <= i <= n && |d| == LEN1 && AllLimbs(d) && ZeroAbove(d, i) && 0 <= f <= 1
      invariant Accounted(d, a, b, i, f, 0)
    {
      var t := a[i] - b[i] - f;
      AccountLimb(d, a, b, i, f, if t < 0 then 1 else 0, 0, 0, if t < 0 then t + BASE else t);
      f := if t < 0 then 1 else 0;
      d := d[i := if t < 0 then t + BASE else t];
      i := i + 1;
    }
    ValBound(d, n);
    assert f == 1 ==> f * Pow(BASE, n) == Pow(BASE, n);
  }

  method Difference(x: BigNum, y: BigNum) returns (r: BigNum)
    requires x.Valid() && y.Valid()
    requires x.neg != y.neg ==> x.length < LEN1 && y.length < LEN1
    ensures IsExactDifference(x, y, r)
  {
    if x.neg == y.neg {
      var c := Compare(x, y);
      SmallerIsShorter(Smaller(x, y), Larger(x, y));
      MagAtAnyLength(Smaller(x, y), Larger(x, y).length);
      if c == 0 || c == 2 {
        var d := ExactLoop(x.limbs, y.limbs, x.length);
        r := Trim(x.neg, d, x.length);
      } else {
        var d := ExactLoop(y.limbs, x.limbs, y.length);
        r := Trim(!x.neg, d, y.length);
      }
    } else {
      r := AddSameSign(x, Negate(y));
    }
  }

  /** The source's result is the contract's result, limb for limb, exactly when no borrow is lost. */
  lemma CodeMeetsContract(x: BigNum, y: BigNum, r: BigNum, s: BigNum)
    requires x.Valid() && y.Valid() && IsCodeDifference(x, y, r) && IsExactDifference(x, y, s)
    ensures r == s <==> Safe(x, y)
  {
    BorrowSafeIsLossless(Larger(x, y).limbs, Smaller(x, y).limbs, Larger(x, y).length);
    if Safe(x, y) {
      CanonicalForm(r, s);
    }
  }

  /** 2^64 - 1: the borrow out of limb 0 is lost in limb 1, and the answer is 2^65 - 1. */
  lemma LostBorrowExample()
    ensures var x := BigNum(false, 3, ZERO_LIMBS[2 := 1]);
            var y := BigNum(false, 1, ZERO_LIMBS[0 := 1]);
            && x.Valid() && y.Valid() && !Safe(x, y)
            && x.Mag() == BASE * BASE && y.Mag() == 1
            && LostBorrows(x, y) == BASE * BASE
  {
    var a, b := ZERO_LIMBS[2 := 1], ZERO_LIMBS[0 := 1];
    var x, y := BigNum(false, 3, a), BigNum(false, 1, b);
    assert Pow(BASE, 0) == 1 && Pow(BASE, 1) == BASE && Pow(BASE, 2) == BASE * BASE;
    assert ValTo(a, 0) == 0 && ValTo(a, 1) == 0 && ValTo(a, 2) == 0 && ValTo(a, 3) == BASE * BASE;
    assert ValTo(b, 0) == 0 && ValTo(b, 1) == 1;
    assert Borrow(a, b, 0) == 0 && Borrow(a, b, 1) == 1 && Borrow(a, b, 2) == 0;
    assert Excess(a, b, 0) == 0 && Excess(a, b, 1) == 0 && Excess(a, b, 2) == BASE * BASE && Excess(a, b, 3) == BASE * BASE;
    BorrowSafeIsLossless(a, b, 3);
  }

  // -------------------------------------------------------- runs under a rule

  /** The borrow rule of the source, or the one that passes every borrow on. */
  datatype Rule = AsWritten | Repaired

  /** A run that lost no borrow has a value; another one is cut off at the first subtraction
      that loses one. */
  datatype Outcome<T> = Exact(value: T) | Lost(minuend: BigNum, subtrahend: BigNum) {

    predicate IsFailure() {
      Lost?
    }

    function PropagateFailure<U>(): Outcome<U>
      requires Lost?
    {
      Lost(minuend, subtrahend)
    }

    function Extract(): T
      requires Exact?
    {
      value
    }

    /** Only the source's rule cuts a run off, and only at a subtraction that goes wrong. */
    predicate Fair(rule: Rule) {
      Lost? ==> rule.AsWritten? && minuend.Valid() && subtrahend.Valid() && !Safe(minuend, subtrahend)
    }
  }

  /** operator- inside a run. */
  method Minus(rule: Rule, x: BigNum, y: BigNum) returns (r: Outcome<BigNum>)
    requires x.Valid() && y.Valid()
    requires x.neg != y.neg ==> x.length < LEN1 && y.length < LEN1
    ensures r.Fair(rule) && (r.Exact? <==> rule.Repaired? || Safe(x, y)) && (r.Lost? ==> r == Lost(x, y))
    ensures r.Exact? ==> IsExactDifference(x, y, r.value)
    ensures r.Exact? && rule.AsWritten? ==> IsCodeDifference(x, y, r.value)
  {
    match rule
    case Repaired =>
      var d := Difference(x, y);
      r := Exact(d);
    case AsWritten =>
      var d := Sub(x, y);
      r := if Safe(x, y) then Exact(d) else Lost(x, y);
  }

  /** operator+ inside a run: equal signs add limb by limb, different signs go through operator-. */
  method Add(rule: Rule, x: BigNum, y: BigNum) returns (r: Outcome<BigNum>)
    requires x.Valid() && y.Valid() && x.length < LEN1 && y.length < LEN1
    ensures r.Fair(rule) && (r.Exact? <==> rule.Repaired? || Safe(x, Negate(y)))
    ensures r.Exact? ==> r.value.Valid() && r.value.Value() == x.Value() + y.Value()
    ensures x.neg == y.neg ==> r.Exact? && r.value.neg == x.neg
    ensures r.Exact? && !y.neg && x.Mag() <= y.Mag() ==> !r.value.neg
  {
    if x.neg == y.neg {
      var s := AddSameSign(x, y);
      r := Exact(s);
    } else if !x.neg {
      r := Minus(rule, x, Negate(y));
    } else {
      r := Minus(rule, y, Negate(x));
      SafeNegated(x, y);
    }
  }

  /** Which operand is negated makes no difference to the borrows. */
  lemma SafeNegated(x: BigNum, y: BigNum)
    requires x.Valid() && y.Valid() && x.neg != y.neg
    ensures Safe(x, Negate(y)) <==> Safe(y, Negate(x))
  {
    if x.Mag() == y.Mag() {
      CanonicalForm(x, Negate(y));
    }
  }
}
