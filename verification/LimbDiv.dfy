/** operator/ and operator% of cpp/BigNum.cpp: trial quotients from the top limbs, and
    the word-by-word loops for a one-limb divisor.  Subtraction follows a `Rule`. */
module LimbDiv {
  import opened Arithmetic
  import opened Limbs
  import opened LimbAddSub
  import opened LimbMul

  // ----------------------------------------------------------- trial quotient

  /** A trial quotient div = top / (a's top limb + 1), with `top` the leading part of x from
      limb k on, never overshoots. */
  lemma NoOvershoot(x: BigNum, a: BigNum, top: nat, k: nat, div: nat, len: nat)
    requires x.Valid() && a.Valid()
    requires top * Pow(BASE, k) <= x.Mag() && k == a.length - 1 + len
    requires div * (a.Top() + 1) <= top
    ensures div * Pow(BASE, len) * a.Mag() <= x.Mag()
  {
    ValTop(a.limbs, a.length);
    PowPositive(BASE, len);
    PowPositive(BASE, a.length - 1);
    PowAdd(BASE, a.length - 1, len);
    OvershootAlgebra(div, Pow(BASE, len), a.Mag(), a.Top() + 1, Pow(BASE, a.length - 1), top, x.Mag());
  }

  lemma OvershootAlgebra(d: int, u: int, m: int, t: int, w: int, top: int, x: int)
    requires 0 <= d && 0 < u && 0 < w && m <= t * w && d * t <= top && top * (w * u) <= x
    ensures d * u * m <= x
  {
    MulNonNegative(d, u);
    MulMonotone(d * u, m, t * w);
    MulInterchange(d, u, t, w);
    MulPositive(u, w);
    assert u * w == w * u;
    MulMonotone(w * u, d * t, top);
  }

  lemma DivBelow(t: nat, d: nat)
    requires 0 < d
    ensures 0 <= t / d && (t / d) * d <= t
    ensures d <= t ==> 1 <= t / d
    ensures t < d * BASE ==> t / d < BASE
  {
    var q := t / d;
    assert t == d * q + t % d;
    assert d * q == q * d;
    if d <= t && q <= 0 {
      MulMonotone(d, q, 0);
    }
    if t < d * BASE && q >= BASE {
      MulMonotone(d, BASE, q);
    }
  }

  /** The leading two limbs of x, as one 64-bit word. */
  function TopTwo(x: BigNum): nat
    requires 2 <= x.length <= |x.limbs|
  {
    x.limbs[x.length - 1] * BASE + x.limbs[x.length - 2]
  }

  lemma TopTwoBound(x: BigNum)
    requires x.Valid() && 2 <= x.length
    ensures TopTwo(x) * Pow(BASE, x.length - 2) <= x.Mag()
  {
    var w, t, s := Pow(BASE, x.length - 2), x.limbs[x.length - 1], x.limbs[x.length - 2];
    assert (t * BASE + s) * w == t * (BASE * w) + s * w;
    assert ValTo(x.limbs, x.length - 1) == ValTo(x.limbs, x.length - 2) + s * w;
  }

  /** Equal lengths and equal top limbs: the difference is below one unit of the top limb. */
  lemma EqualTops(x: BigNum, a: BigNum)
    requires x.Valid() && a.Valid() && x.length == a.length && x.Top() == a.Top() && a.Mag() != 0
    ensures x.Mag() - a.Mag() < a.Mag()
  {
    LengthOfMag(a);
    ValBound(x.limbs, x.length - 1);
  }

  /** A trial quotient div, to be shifted by len limbs; or lengths and top limbs agree. */
  datatype Trial = Take(div: nat, len: nat) | TopsAgree

  /** The trial quotient from the leading limbs: / and % branch differently and agree on it. */
  function TrialOf(x: BigNum, a: BigNum): Trial
    requires 1 <= a.length <= x.length <= |x.limbs| && a.length <= |a.limbs|
  {
    if x.Top() > a.Top() then Take(x.Top() / (a.Top() + 1), x.length - a.length)
    else if x.length > a.length then Take(TopTwo(x) / (a.Top() + 1), x.length - a.length - 1)
    else TopsAgree
  }

  /** What an iteration adds to the quotient. */
  function Estimate(x: BigNum, a: BigNum): nat
    requires 1 <= a.length <= x.length <= |x.limbs| && a.length <= |a.limbs|
  {
    match TrialOf(x, a)
    case Take(div, len) =>
      PowPositive(BASE, len);
      MulNonNegative(div, Pow(BASE, len));
      div * Pow(BASE, len)
    case TopsAgree => 1
  }

  /** t is what / and % take off the rest m of x: the estimate times the divisor. */
  predicate TakesOff(x: BigNum, a: BigNum, m: BigNum, t: BigNum)
    requires x.Valid() && a.Valid()
  {
    && m.Valid() && t.Valid() && 0 < a.Mag() <= m.Mag() <= x.Mag() && (x.Mag() - m.Mag()) % a.Mag() == 0
    && m.neg == x.neg && t.neg == a.neg
    && a.length <= m.length && t.Mag() == a.Mag() * Estimate(m, a)
  }

  lemma TakesOffRest(x: BigNum, a: BigNum, m: BigNum, t: BigNum, q: int)
    requires x.Valid() && a.Valid() && m.Valid() && t.Valid() && 0 < a.Mag() <= m.Mag() <= x.Mag() && a.length <= m.length
    requires x.Mag() == q * a.Mag() + m.Mag() && m.neg == x.neg && t.neg == a.neg && t.Mag() == a.Mag() * Estimate(m, a)
    ensures TakesOff(x, a, m, t)
  {
    ModOfMultiple(q, a.Mag());
  }

  /** A trial quotient is at least 1, fits one limb and does not overshoot.  Without one, the
      lengths and top limbs agree and the quotient is 1. */
  lemma TrialFits(x: BigNum, a: BigNum)
    requires x.Valid() && a.Valid() && a.Mag() != 0 && x.Mag() >= a.Mag()
    ensures a.length <= x.length
    ensures match TrialOf(x, a)
            case Take(div, len) => 1 <= div < BASE && a.length + len <= x.length && div * Pow(BASE, len) * a.Mag() <= x.Mag()
            case TopsAgree => x.length == a.length && x.Top() == a.Top() && x.Mag() - a.Mag() < a.Mag()
  {
    SmallerIsShorter(a, x);
    LengthOfMag(x);
    if x.Top() > a.Top() {
      ValTop(x.limbs, x.length);
      DivBelow(x.Top(), a.Top() + 1);
      NoOvershoot(x, a, x.Top(), x.length - 1, x.Top() / (a.Top() + 1), x.length - a.length);
    } else if x.length > a.length {
      var div := TopTwo(x) / (a.Top() + 1);
      DivBelow(TopTwo(x), a.Top() + 1);
      TopTwoBound(x);
      NoOvershoot(x, a, TopTwo(x), x.length - 2, div, x.length - a.length - 1);
    } else {
      TopDecides(x.limbs, a.limbs, x.length - 1);
      EqualTops(x, a);
    }
  }

  /** Lines 531-548: the branches of operator/. */
  method TrialQuotient(x: BigNum, a: BigNum) returns (t: Trial)
    requires x.Valid() && a.Valid() && a.length <= x.length
    ensures t == TrialOf(x, a)
  {
    if x.Top() > a.Top() {
      t := Take(x.Top() / (a.Top() + 1), x.length - a.length);
    } else if x.length > a.length {
      var temp := TopTwo(x);
      t := Take(if a.Top() == 0xffff_ffff then temp / BASE else temp / (a.Top() + 1), x.length - a.length - 1);
    } else {
      t := TopsAgree;
    }
  }

  /** Lines 595-607: the branches of operator%, which choose the same trial quotient. */
  method TrialRemainder(y: BigNum, a: BigNum) returns (t: Trial)
    requires y.Valid() && a.Valid() && a.Mag() != 0 && y.Mag() >= a.Mag() && a.length <= y.length
    ensures t == TrialOf(y, a)
  {
    var div, temp, len := y.Top(), a.Top(), y.length - a.length;
    if div == temp && len == 0 {
      return TopsAgree;
    }
    if div <= temp {
      if len == 0 { TrialFits(y, a); }
      len := len - 1;
      div := TopTwo(y);
    }
    return Take(div / (temp + 1), len);
  }

  // ------------------------------------------------------------------ shifting

  /** Lines 551-554 and 611-613: move the limbs up by len cells, in place, and clear below. */
  method ShiftUp(z: BigNum, len: nat) returns (r: BigNum)
    requires z.Valid() && z.Mag() != 0 && z.length + len <= LEN1
    ensures r.Valid() && r.neg == z.neg && r.length == z.length + len
    ensures r.Mag() == z.Mag() * Pow(BASE, len)
  {
    var cells := ShiftLimbs(z.limbs, z.length, len);
    LengthOfMag(z);
    ValShift(z.limbs, cells, z.length, len);
    r := BigNum(z.neg, z.length + len, cells);
  }

  /** In place: n limbs up by len cells, from the top, then zeros below. */
  method ShiftLimbs(s: seq<nat>, n: nat, len: nat) returns (t: seq<nat>)
    requires n + len <= |s| && AllLimbs(s) && ZeroAbove(s, n)
    ensures |t| == |s| && AllLimbs(t) && ZeroAbove(t, n + len)
    ensures forall k :: 0 <= k < len ==> t[k] == 0
    ensures forall k :: 0 <= k < n ==> t[k + len] == s[k]
  {
    t := s;
    var i := n + len;
    while i > len
      invariant len <= i <= n + len && |t| == |s| && AllLimbs(t) && ZeroAbove(t, n + len)
      invariant forall k :: 0 <= k < i ==> t[k] == s[k]
      invariant forall k :: i - len <= k < n ==> t[k + len] == s[k]
    {
      i := i - 1;
      t := t[i := t[i - len]];
    }
    i := 0;
    while i < len
      invariant 0 <= i <= len && |t| == |s| && AllLimbs(t) && ZeroAbove(t, n + len)
      invariant forall k :: 0 <= k < i ==> t[k] == 0
      invariant forall k :: 0 <= k < n ==> t[k + len] == s[k]
    {
      t := t[i := 0];
      i := i + 1;
    }
  }

  // ----------------------------------------------------------- one-limb divisor

  /** The value of limbs i.. in place. */
  function High(s: seq<nat>, i: nat, n: nat): int
    requires i <= n <= |s|
  {
    ValTo(s, n) - ValTo(s, i)
  }

  lemma LongDivisionStep(origHigh: int, newHigh: int, a: int, f: int, w: int, x: int, q: int, g: int)
    requires origHigh == a * newHigh + f * (BASE * w) && f * BASE + x == q * a + g
    ensures origHigh + x * w == a * (newHigh + q * w) + g * w
  {
    assert f * (BASE * w) + x * w == (f * BASE + x) * w == (q * a + g) * w;
    assert (q * a + g) * w == a * (q * w) + g * w;
  }

  lemma HighStep(s: seq<nat>, i: nat, v: nat, n: nat)
    requires i < n <= |s|
    ensures High(s[i := v], i, n) == High(s, i + 1, n) + v * Pow(BASE, i)
  {
    ValUpdate(s, i, v, n);
    ValFrame(s, s[i := v], i);
    ProductDifference(v, s[i], Pow(BASE, i));
  }

  lemma ProductDifference(c: int, d: int, w: int)
    ensures (c - d) * w == c * w - d * w
  {
  }

  /** Limbs i.. of x have been divided: their quotient is in `cells`, their remainder is f. */
  predicate Divided(x: seq<nat>, cells: seq<nat>, a: nat, f: nat, i: nat, n: nat)
    requires i <= n <= |x| && n <= |cells|
  {
    High(x, i, n) == a * High(cells, i, n) + f * Pow(BASE, i)
  }

  lemma DividedStep(x: seq<nat>, cells: seq<nat>, a: nat, f: nat, i: nat, n: nat, q: nat, g: nat)
    requires i < n <= |x| && n <= |cells| && Divided(x, cells, a, f, i + 1, n)
    requires f * BASE + x[i] == q * a + g
    ensures Divided(x, cells[i := q], a, g, i, n)
  {
    HighStep(cells, i, q, n);
    LongDivisionStep(High(x, i + 1, n), High(cells, i + 1, n), a, f, Pow(BASE, i), x[i], q, g);
  }

  lemma WordDivision(f: nat, x: nat, a: nat)
    requires f < a < BASE && x < BASE
    ensures 0 <= (f * BASE + x) / a < BASE && 0 <= (f * BASE + x) % a < a
    ensures f * BASE + x == ((f * BASE + x) / a) * a + (f * BASE + x) % a
  {
    DivBelow(f * BASE + x, a);
    MulMonotone(BASE, f + 1, a);
    var d := f * BASE + x;
    assert d == a * (d / a) + d % a;
  }

  /** Lines 572-576: one 64-by-32-bit division. */
  method DivideWord(f: nat, x: nat, a: nat) returns (q: nat, g: nat)
    requires f < a < BASE && x < BASE
    ensures q < BASE && g < a && f * BASE + x == q * a + g
  {
    var div := f * BASE + x;
    WordDivision(f, x, a);
    q := div / a;
    var mul := q * a;
    g := div - mul;
  }

  /** Lines 569-580: divide by one limb, from the top limb down, in place. */
  method WordLoop(x: BigNum, a: nat) returns (cells: seq<nat>, f: nat)
    requires x.Valid() && 0 < a < BASE
    ensures |cells| == LEN1 && AllLimbs(cells) && ZeroAbove(cells, x.length) && f < a
    ensures x.Mag() == a * ValTo(cells, x.length) + f
  {
    cells, f := x.limbs, 0;
    var i := x.length;
    while i > 0
      invariant 0 <= i <= x.length && |cells| == LEN1 && AllLimbs(cells) && ZeroAbove(cells, x.length)
      invariant f < a
      invariant forall k :: 0 <= k < i ==> cells[k] == x.limbs[k]
      invariant Divided(x.limbs, cells, a, f, i, x.length)
    {
      i := i - 1;
      var q, g := DivideWord(f, cells[i], a);
      DividedStep(x.limbs, cells, a, f, i, x.length, q, g);
      cells, f := cells[i := q], g;
    }
  }

  method DivByWord(x: BigNum, a: nat) returns (r: BigNum, ghost rem: nat)
    requires x.Valid() && 0 < a < BASE
    ensures r.Valid() && r.neg == x.neg && rem < a
    ensures x.Mag() == r.Mag() * a + rem
  {
    if x.length == 1 {
      rem := x.limbs[0] % a;
      WordDivision(0, x.limbs[0], a);
      r := BigNum(x.neg, 1, x.limbs[0 := x.limbs[0] / a]);
      assert ValTo(x.limbs, 0) == 0 && ValTo(r.limbs, 0) == 0 && Pow(BASE, 0) == 1;
    } else {
      var cells, f := WordLoop(x, a);
      rem := f;
      assert a * ValTo(cells, x.length) == ValTo(cells, x.length) * a;
      var len := x.length;
      if cells[len - 1] == 0 {
        QuotientLength(x, cells, a, rem);
        len := len - 1;
      }
      r := BigNum(x.neg, len, cells);
    }
  }

  /** Dividing by one limb shortens the number by at most one limb. */
  lemma QuotientLength(x: BigNum, q: seq<nat>, a: nat, rem: nat)
    requires x.Valid() && 2 <= x.length && |q| == LEN1 && AllLimbs(q) && 0 < a < BASE && rem < a
    requires x.Mag() == ValTo(q, x.length) * a + rem && q[x.length - 1] == 0
    ensures q[x.length - 2] != 0
  {
    if q[x.length - 2] == 0 {
      LengthOfMag(x);
      ValBound(q, x.length - 2);
      PowPositive(BASE, x.length - 2);
      assert Pow(BASE, x.length - 1) == BASE * Pow(BASE, x.length - 2);
      TooShort(ValTo(q, x.length - 2), Pow(BASE, x.length - 2), a, rem);
    }
  }

  lemma TooShort(v: int, w: int, a: int, rem: int)
    requires 0 < w && v < w && 0 < a < BASE && rem < a
    ensures v * a + rem < BASE * w
  {
    MulMonotone(a, v, w - 1);
    assert (w - 1) * a == w * a - a;
    MulMonotone(w, a, BASE - 1);
  }

  /** Lines 622-630: the remainder modulo one limb. */
  method ModByWord(x: BigNum, a: nat) returns (f: nat)
    requires x.Valid() && 0 < a < BASE
    ensures f == x.Mag() % a
  {
    if x.length == 1 {
      f := x.limbs[0] % a;
      assert ValTo(x.limbs, 0) == 0 && Pow(BASE, 0) == 1;
    } else {
      f := 0;
      var i := x.length;
      ghost var q := 0;
      while i > 0
        invariant 0 <= i <= x.length && f < a
        invariant High(x.limbs, i, x.length) == a * q + f * Pow(BASE, i)
      {
        i := i - 1;
        var g := f * BASE + x.limbs[i];
        assert g == a * (g / a) + g % a;
        LongDivisionStep(High(x.limbs, i + 1, x.length), q, a, f, Pow(BASE, i), x.limbs[i], g / a, g % a);
        q := q + (g / a) * Pow(BASE, i);
        f := g % a;
      }
      assert a * q == q * a;
      DivModUnique(x.Mag(), a, q, f);
    }
  }

  // ------------------------------------------------------------- the operators

  lemma QuotientStep(y: int, z: int, a: int, x: int, x0: int)
    requires x0 == y * a + x
    ensures x0 == (y + z) * a + (x - a * z)
  {
    assert (y + z) * a == y * a + a * z;
  }

  /** operator/ for operands of one sign.  A one-limb divisor keeps the dividend's sign. */
  method Div(rule: Rule, x: BigNum, a: BigNum) returns (y: Outcome<BigNum>)
    requires x.Valid() && a.Valid() && x.neg == a.neg && a.Mag() != 0 && x.length < LEN1
    ensures y.Fair(rule) && (y.Lost? ==> a.length > 1 && TakesOff(x, a, y.minuend, y.subtrahend))
    ensures y.Exact? ==> y.value.Valid() && y.value.Mag() == x.Mag() / a.Mag() && y.value.length <= x.length
    ensures y.Exact? ==> (y.value.neg <==> x.neg && a.length == 1)
  {
    ghost var rem: nat;
    var q;
    if a.length > 1 {
      q, rem :- DivLoop(rule, x, a);
    } else {
      assert a.Mag() == a.limbs[0] by { assert ValTo(a.limbs, 0) == 0 && Pow(BASE, 0) == 1; }
      q, rem := DivByWord(x, a.limbs[0]);
    }
    DivModUnique(x.Mag(), a.Mag(), q.Mag(), rem);
    DivBelow(x.Mag(), a.Mag());
    MulMonotone(q.Mag(), 1, a.Mag());
    SmallerIsShorter(q, x);
    return Exact(q);
  }

  method DivLoop(rule: Rule, x0: BigNum, a: BigNum) returns (q: Outcome<BigNum>, ghost rem: nat)
    requires x0.Valid() && a.Valid() && x0.neg == a.neg && a.length > 1 && x0.length < LEN1
    ensures q.Fair(rule) && (q.Lost? ==> TakesOff(x0, a, q.minuend, q.subtrahend))
    ensures q.Exact? ==> q.value.Valid() && !q.value.neg && rem < a.Mag() && x0.Mag() == q.value.Mag() * a.Mag() + rem
  {
    LengthOfMag(a);
    rem := 0;
    var x := x0;
    var y := FromWord(0);
    var one := FromWord(1);
    var c := Compare(x, a);
    while c == 0
      invariant x.Valid() && y.Valid() && x.neg == x0.neg && !y.neg && x.length <= x0.length
      invariant x0.Mag() == y.Mag() * a.Mag() + x.Mag() && x.Mag() <= x0.Mag()
      invariant c == if x.Mag() > a.Mag() then 0 else if x.Mag() < a.Mag() then 1 else 2
      decreases x.Mag()
    {
      QuotientFits(x0, y, a, x);
      TrialFits(x, a);
      var trial := TrialQuotient(x, a);
      if trial.TopsAgree? {
        QuotientStep(y.Mag(), 1, a.Mag(), x.Mag(), x0.Mag());
        y := AddSameSign(y, one);
        return Exact(y), x.Mag() - a.Mag();
      }
      x, y :- DivStep(rule, x, y, a, trial, x0);
      c := Compare(x, a);
    }
    if c == 2 {
      QuotientFits(x0, y, a, x);
      QuotientStep(y.Mag(), 1, a.Mag(), x.Mag(), x0.Mag());
      y := AddSameSign(y, one);
      return Exact(y), 0;
    }
    return Exact(y), x.Mag();
  }

  /** Lines 549-557: add the trial quotient to y and take its product with a off x. */
  method DivStep(rule: Rule, x: BigNum, y: BigNum, a: BigNum, trial: Trial, ghost x0: BigNum)
    returns (r: Outcome<BigNum>, y': BigNum)
    requires x.Valid() && y.Valid() && a.Valid() && x.neg == a.neg && !y.neg && a.Mag() != 0
    requires x.length < LEN1 && y.length < LEN1 && x0.Valid() && x0.Mag() == y.Mag() * a.Mag() + x.Mag()
    requires x.neg == x0.neg && a.Mag() <= x.Mag() <= x0.Mag() && a.length <= x.length && trial == TrialOf(x, a)
    requires trial.Take? && 1 <= trial.div < BASE && a.length + trial.len <= x.length
    requires trial.div * Pow(BASE, trial.len) * a.Mag() <= x.Mag()
    ensures r.Fair(rule) && y'.Valid() && !y'.neg && (r.Lost? ==> TakesOff(x0, a, r.minuend, r.subtrahend))
    ensures r.Exact? ==>
              && r.value.Valid() && r.value.neg == x.neg && r.value.length <= x.length && r.value.Mag() < x.Mag()
              && x0.Mag() == y'.Mag() * a.Mag() + r.value.Mag()
  {
    ghost var m := Estimate(x, a);
    QuotientStep(y.Mag(), m, a.Mag(), x.Mag(), x0.Mag());
    var z, t := TrialProduct(x, a, trial.div, trial.len, m);
    y' := AddSameSign(y, z);
    TakesOffRest(x0, a, x, t, y.Mag());
    r := TakeOff(rule, x, t);
  }

  lemma QuotientFits(x0: BigNum, y: BigNum, a: BigNum, x: BigNum)
    requires x0.Valid() && y.Valid() && a.Valid() && x.Valid() && a.Mag() != 0
    requires x0.Mag() == y.Mag() * a.Mag() + x.Mag()
    ensures y.Mag() <= x0.Mag() && y.length <= x0.length
  {
    MulMonotone(y.Mag(), 1, a.Mag());
    SmallerIsShorter(y, x0);
  }

  /** Lines 549-556 and 608-615: the shifted trial quotient z and its product t with a. */
  method TrialProduct(x: BigNum, a: BigNum, div: nat, len: nat, ghost m: int) returns (z: BigNum, t: BigNum)
    requires x.Valid() && a.Valid() && a.Mag() != 0
    requires 1 <= div < BASE && a.length + len <= x.length < LEN1
    requires m == div * Pow(BASE, len) && m * a.Mag() <= x.Mag()
    ensures z.Valid() && !z.neg && z.length < LEN1 && 0 < z.Mag() == m
    ensures t.Valid() && t.neg == a.neg && 0 < t.Mag() == a.Mag() * m <= x.Mag()
  {
    z := FromWord(div);
    z := ShiftUp(z, len);
    PowPositive(BASE, len);
    MulPositive(div, Pow(BASE, len));
    t := Mul(a, z);
    assert a.Mag() * m == m * a.Mag();
    MulPositive(a.Mag(), m);
  }

  /** Lines 557 and 616: take a smaller number of the same sign off x. */
  method TakeOff(rule: Rule, x: BigNum, t: BigNum) returns (r: Outcome<BigNum>)
    requires x.Valid() && t.Valid() && x.neg == t.neg && 0 < t.Mag() <= x.Mag()
    ensures r.Fair(rule) && (r.Exact? <==> rule.Repaired? || Safe(x, t)) && (r.Lost? ==> r == Lost(x, t))
    ensures r.Exact? ==>
              && r.value.Valid() && r.value.neg == x.neg && r.value.length <= x.length
              && r.value.Mag() == x.Mag() - t.Mag() < x.Mag()
  {
    r := Minus(rule, x, t);
    if r.Exact? {
      SmallerIsShorter(r.value, x);
    }
  }

  /** operator% : the remainder of the magnitudes, for operands of one sign, for a one-limb
      divisor, and for a dividend below the divisor. */
  method Mod(rule: Rule, x: BigNum, a: BigNum) returns (r: Outcome<BigNum>)
    requires x.Valid() && a.Valid() && a.Mag() != 0 && x.length < LEN1
    requires x.neg == a.neg || a.length == 1 || x.Mag() < a.Mag()
    ensures r.Fair(rule) && (r.Lost? ==> a.length > 1 && TakesOff(x, a, r.minuend, r.subtrahend))
    ensures r.Exact? ==> r.value.Valid() && r.value.Mag() == x.Mag() % a.Mag()
    ensures r.Exact? ==> (r.value.neg <==> x.neg && a.length > 1)
  {
    if a.length > 1 {
      r := ModLoop(rule, x, a);
    } else {
      assert a.Mag() == a.limbs[0] by { assert ValTo(a.limbs, 0) == 0 && Pow(BASE, 0) == 1; }
      var f := ModByWord(x, a.limbs[0]);
      var y := FromWord(f);
      r := Exact(y);
    }
  }

  method ModLoop(rule: Rule, x: BigNum, a: BigNum) returns (r: Outcome<BigNum>)
    requires x.Valid() && a.Valid() && a.length > 1 && x.length < LEN1
    requires x.neg == a.neg || x.Mag() < a.Mag()
    ensures r.Fair(rule) && (r.Lost? ==> TakesOff(x, a, r.minuend, r.subtrahend))
    ensures r.Exact? ==> r.value.Valid() && r.value.neg == x.neg && a.Mag() != 0 && r.value.Mag() == x.Mag() % a.Mag()
  {
    LengthOfMag(a);
    var y := x;
    ghost var q: int := 0;
    var c := Compare(y, a);
    while c == 0 || c == 2
      invariant y.Valid() && y.neg == x.neg && y.length <= x.length
      invariant c == if y.Mag() > a.Mag() then 0 else if y.Mag() < a.Mag() then 1 else 2
      invariant x.Mag() == q * a.Mag() + y.Mag() && y.Mag() <= x.Mag() && (x.neg != a.neg ==> y == x)
      decreases y.Mag()
    {
      TrialFits(y, a);
      var trial := TrialRemainder(y, a);
      if trial.TopsAgree? {
        QuotientStep(q, 1, a.Mag(), y.Mag(), x.Mag());
        TakesOffRest(x, a, y, a, q);
        y :- TakeOff(rule, y, a);
        q := q + 1;
        break;
      }
      ghost var m := Estimate(y, a);
      QuotientStep(q, m, a.Mag(), y.Mag(), x.Mag());
      var z, t := TrialProduct(y, a, trial.div, trial.len, m);
      TakesOffRest(x, a, y, t, q);
      y :- TakeOff(rule, y, t);
      q := q + m;
      c := Compare(y, a);
    }
    DivModUnique(x.Mag(), a.Mag(), q, y.Mag());
    return Exact(y);
  }

  /** Together: X = (X / A) * A + X % A with X % A < A. */
  method DivMod(rule: Rule, x: BigNum, a: BigNum) returns (q: Outcome<BigNum>, r: BigNum)
    requires x.Valid() && a.Valid() && !x.neg && !a.neg && a.Mag() != 0 && x.length < LEN1
    ensures q.Fair(rule)
    ensures q.Exact? ==>
              && q.value.Valid() && r.Valid() && !q.value.neg && !r.neg && r.Mag() < a.Mag()
              && x.Mag() == q.value.Mag() * a.Mag() + r.Mag()
              && q.value.Mag() == x.Mag() / a.Mag() && r.Mag() == x.Mag() % a.Mag()
              && q.value.length <= x.length
  {
    r := x;
    var y :- Div(rule, x, a);
    r :- Mod(rule, x, a);
    QuotientAndRemainder(x.Mag(), a.Mag());
    q := Exact(y);
  }

  lemma QuotientAndRemainder(x: int, a: int)
    requires 0 < a
    ensures x == (x / a) * a + x % a && x % a < a
  {
  }
}
