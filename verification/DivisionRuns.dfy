/** operator/ and operator% of cpp/BigNum.cpp with a divisor of two limbs or more, exactly as
    written: for operands of any sign, with the source's subtraction, past any lost borrow.
    Such a loop need not end, so it is followed for at most `limit` iterations. */
module DivisionRuns {
  import opened Arithmetic
  import opened Limbs
  import opened LimbAddSub
  import opened LimbMul
  import opened LimbDiv

  // ------------------------------------------------------------- runs of the loop

  /** One iteration: quotient * divisor, the subtrahend, is taken off the minuend. */
  datatype Step = Step(minuend: BigNum, subtrahend: BigNum, quotient: nat)

  predicate Genuine(s: Step, a: BigNum)
    requires a.Valid()
  {
    && s.minuend.Valid() && s.subtrahend.Valid() && s.minuend.Mag() >= a.Mag() && a.length <= s.minuend.length
    && s.quotient == Estimate(s.minuend, a)
    && s.subtrahend.neg == a.neg && s.subtrahend.Mag() == a.Mag() * s.quotient
  }

  /** The steps lead from x0 to x, each by the subtraction of the source. */
  predicate Run(x0: BigNum, a: BigNum, steps: seq<Step>, x: BigNum)
    requires a.Valid()
  {
    if |steps| == 0 then x == x0
    else
      var s := steps[|steps| - 1];
      Run(x0, a, steps[..|steps| - 1], s.minuend) && Genuine(s, a) && IsCodeDifference(s.minuend, s.subtrahend, x)
  }

  function Quotients(steps: seq<Step>): nat {
    if |steps| == 0 then 0 else Quotients(steps[..|steps| - 1]) + steps[|steps| - 1].quotient
  }

  /** All that the lost borrows of a run have added to its rest. */
  function Excesses(x0: BigNum, a: BigNum, steps: seq<Step>, x: BigNum): nat
    requires a.Valid() && Run(x0, a, steps, x)
  {
    if |steps| == 0 then 0
    else
      var s := steps[|steps| - 1];
      Excesses(x0, a, steps[..|steps| - 1], s.minuend) + LostBorrows(s.minuend, s.subtrahend)
  }

  /** The number that a run really divides. */
  function Inflated(x0: BigNum, a: BigNum, steps: seq<Step>, x: BigNum): nat
    requires x0.Valid() && a.Valid() && Run(x0, a, steps, x)
  {
    x0.Mag() + Excesses(x0, a, steps, x)
  }

  lemma Extend(x0: BigNum, a: BigNum, steps: seq<Step>, s: Step, x: BigNum)
    requires a.Valid() && Run(x0, a, steps, s.minuend) && Genuine(s, a) && IsCodeDifference(s.minuend, s.subtrahend, x)
    ensures Run(x0, a, steps + [s], x)
    ensures Quotients(steps + [s]) == Quotients(steps) + s.quotient
    ensures Excesses(x0, a, steps + [s], x) == Excesses(x0, a, steps, s.minuend) + LostBorrows(s.minuend, s.subtrahend)
  {
    assert (steps + [s])[..|steps|] == steps;
  }

  lemma EstimateFits(x: BigNum, a: BigNum)
    requires x.Valid() && a.Valid() && a.Mag() != 0 && x.Mag() >= a.Mag()
    ensures a.length <= x.length && 1 <= Estimate(x, a) && 0 < a.Mag() * Estimate(x, a) <= x.Mag()
  {
    TrialFits(x, a);
    if TrialOf(x, a).Take? {
      PowPositive(BASE, TrialOf(x, a).len);
      MulPositive(TrialOf(x, a).div, Pow(BASE, TrialOf(x, a).len));
    }
    MulPositive(a.Mag(), Estimate(x, a));
    assert a.Mag() * Estimate(x, a) == Estimate(x, a) * a.Mag();
  }

  // ------------------------------------------------------------- one sign

  /** With operands of one sign, rest + divisor * quotient = dividend + excess, always. */
  lemma {:induction false} RunAccount(x0: BigNum, a: BigNum, steps: seq<Step>, x: BigNum)
    requires x0.Valid() && a.Valid() && a.Mag() != 0 && x0.neg == a.neg && Run(x0, a, steps, x)
    ensures x.Valid() && x.neg == x0.neg
    ensures x.Mag() + a.Mag() * Quotients(steps) == x0.Mag() + Excesses(x0, a, steps, x)
    ensures Excesses(x0, a, steps, x) == 0 ==> x.Mag() + |steps| <= x0.Mag()
    decreases |steps|
  {
    if |steps| > 0 {
      var n := |steps| - 1;
      var s := steps[n];
      RunAccount(x0, a, steps[..n], s.minuend);
      EstimateFits(s.minuend, a);
      Distribute(a.Mag(), Quotients(steps[..n]), s.quotient);
    }
  }

  lemma Distribute(a: int, q: int, r: int)
    ensures a * (q + r) == a * q + a * r
  {
  }

  /** The last addition of 1: the loop of / stops at or below the divisor, or at equal tops. */
  predicate Stopped(x: BigNum, a: BigNum)
    requires x.Valid() && a.Valid()
  {
    x.Mag() <= a.Mag() || SameTops(x, a)
  }

  function LastOne(x: BigNum, a: BigNum): nat
    requires x.Valid() && a.Valid()
  {
    if x.Mag() < a.Mag() then 0 else 1
  }

  lemma StoppedQuotient(x: BigNum, a: BigNum)
    requires x.Valid() && a.Valid() && a.Mag() != 0 && Stopped(x, a)
    ensures 0 <= x.Mag() - LastOne(x, a) * a.Mag() < a.Mag()
  {
    if SameTops(x, a) {
      EqualTops(x, a);
    }
  }

  /** Where / stops, its quotient is that of dividend + excess; so it is the true quotient if and
      only if the excess stays within what the remainder leaves free. */
  lemma QuotientOfRun(x0: BigNum, a: BigNum, steps: seq<Step>, x: BigNum)
    requires x0.Valid() && a.Valid() && a.Mag() != 0 && x0.neg == a.neg && Run(x0, a, steps, x)
    requires x.Valid() && Stopped(x, a)
    ensures Quotients(steps) + LastOne(x, a) == Inflated(x0, a, steps, x) / a.Mag()
    ensures Quotients(steps) + LastOne(x, a) == x0.Mag() / a.Mag() <==>
            x0.Mag() % a.Mag() + Excesses(x0, a, steps, x) < a.Mag()
  {
    RunAccount(x0, a, steps, x);
    StoppedQuotient(x, a);
    QuotientWithExcess(x0.Mag(), Inflated(x0, a, steps, x), a.Mag(), Quotients(steps), LastOne(x, a), x.Mag());
  }

  lemma QuotientWithExcess(v: int, w: int, d: int, q: int, l: int, x: int)
    requires 0 < d && x + d * q == w && 0 <= x - l * d < d && v <= w
    ensures q + l == w / d
    ensures q + l == v / d <==> v % d + (w - v) < d
  {
    assert w == (q + l) * d + (x - l * d) by { assert (q + l) * d == d * q + l * d; }
    DivModUnique(w, d, q + l, x - l * d);
    assert v == (v / d) * d + v % d;
    if v % d + (w - v) < d {
      DivModUnique(w, d, v / d, v % d + (w - v));
    }
  }

  // ------------------------------------------------------- different signs

  /** With different signs every subtraction adds: a run that takes one step never stops. */
  lemma {:induction false} DifferentSignsGrow(x0: BigNum, a: BigNum, steps: seq<Step>, x: BigNum)
    requires x0.Valid() && a.Valid() && a.Mag() != 0 && x0.neg != a.neg && Run(x0, a, steps, x)
    ensures x.Valid() && x.neg == x0.neg && x.Mag() >= x0.Mag() + |steps|
    decreases |steps|
  {
    if |steps| > 0 {
      var s := steps[|steps| - 1];
      DifferentSignsGrow(x0, a, steps[..|steps| - 1], s.minuend);
      EstimateFits(s.minuend, a);
    }
  }

  /** Lengths and top limbs that differ at the start differ for good. */
  lemma TopsStayApart(x0: BigNum, x: BigNum, a: BigNum)
    requires x0.Valid() && x.Valid() && a.Valid() && a.Mag() != 0 && a.Mag() <= x0.Mag() <= x.Mag() && a.length <= x0.length
    requires TrialOf(x0, a).Take?
    ensures a.length <= x.length && TrialOf(x, a).Take?
  {
    SmallerIsShorter(x0, x);
    if x0.length == x.length {
      TopDecides(x.limbs, x0.limbs, x.length - 1);
    }
  }

  predicate SameTops(x: BigNum, a: BigNum)
    requires x.Valid() && a.Valid()
  {
    x.length == a.length && x.Top() == a.Top()
  }

  // ----------------------------------------------------------------- one iteration

  /** Lines 549-557 and 608-616, with the source's subtraction. */
  method Iterate(x: BigNum, a: BigNum, trial: Trial) returns (x': BigNum, z: BigNum, ghost s: Step)
    requires x.Valid() && a.Valid() && a.Mag() != 0 && x.Mag() >= a.Mag() && a.length <= x.length < LEN1
    requires trial == TrialOf(x, a) && trial.Take?
    ensures s.minuend == x && Genuine(s, a) && IsCodeDifference(x, s.subtrahend, x')
    ensures z.Valid() && !z.neg && z.length < LEN1 && z.Mag() == s.quotient
  {
    TrialFits(x, a);
    ghost var m := Estimate(x, a);
    var t;
    z, t := TrialProduct(x, a, trial.div, trial.len, m);
    SmallerIsShorter(t, x);
    x' := Sub(x, t);
    s := Step(x, t, m);
  }

  // ------------------------------------------------------------------- the operators

  /** Lines 529-560: the loop of operator/ and the final 1.  It is left unfinished when it has
      taken `limit` steps, or when a number fills the array. */
  method DivideLoop(x0: BigNum, a: BigNum, limit: nat)
    returns (y: BigNum, done: bool, ghost steps: seq<Step>, x: BigNum)
    requires x0.Valid() && a.Valid() && a.length > 1 && a.Mag() != 0
    ensures x.Valid() && y.Valid() && !y.neg && Run(x0, a, steps, x)
    ensures done ==> Stopped(x, a) && y.Mag() == Quotients(steps) + LastOne(x, a)
    ensures !done ==> x.length == LEN1 || y.length == LEN1 || (|steps| == limit && !Stopped(x, a))
    ensures !done ==> x.Mag() >= a.Mag() && y.Mag() == Quotients(steps)
    ensures Stopped(x0, a) && x0.length < LEN1 ==> done && steps == []
  {
    var one := FromWord(1);
    y := FromWord(0);
    x, steps := x0, [];
    var n := 0;
    var c := Compare(x, a);
    while c == 0
      invariant Run(x0, a, steps, x) && x.Valid() && y.Valid() && !y.neg && |steps| == n <= limit
      invariant c == if x.Mag() > a.Mag() then 0 else if x.Mag() < a.Mag() then 1 else 2
      invariant y.Mag() == Quotients(steps) && (steps == [] ==> y.length == 1) && (steps != [] ==> !Stopped(x0, a))
      decreases limit - n, c
    {
      if x.length == LEN1 || y.length == LEN1 {
        return y, false, steps, x;
      }
      TrialFits(x, a);
      var trial := TrialQuotient(x, a);
      if trial.TopsAgree? {
        y := AddSameSign(y, one);
        return y, true, steps, x;
      }
      if n == limit {
        return y, false, steps, x;
      }
      var x', z;
      ghost var s;
      x', z, s := Iterate(x, a, trial);
      Extend(x0, a, steps, s, x');
      x, steps, n := x', steps + [s], n + 1;
      y := AddSameSign(y, z);
      c := Compare(x, a);
    }
    if c == 2 {
      if y.length == LEN1 {
        return y, false, steps, x;
      }
      y := AddSameSign(y, one);
    }
    done := true;
  }

  /** operator/ for a divisor of two limbs or more.

      One sign: where the loop ends, the answer is (dividend + excess) / divisor, which is the
      quotient if and only if the excess fits above the remainder; without a lost borrow the
      loop ends.  Different signs: it ends if and only if the dividend is not larger or lengths
      and top limbs agree, and then with the truncated quotient. */
  method Divide(x0: BigNum, a: BigNum, limit: nat)
    returns (y: BigNum, done: bool, ghost steps: seq<Step>, ghost x: BigNum)
    requires x0.Valid() && a.Valid() && a.length > 1 && x0.length < LEN1
    ensures Run(x0, a, steps, x) && y.Valid() && 0 < a.Mag()
    ensures done ==> y.neg == (x0.neg != a.neg) && (steps == [] ==> Stopped(x0, a))
    ensures x0.neg == a.neg && done ==> y.Mag() == Inflated(x0, a, steps, x) / a.Mag()
    ensures x0.neg == a.neg && done ==>
              (y.Mag() == x0.Mag() / a.Mag() <==> x0.Mag() % a.Mag() + Excesses(x0, a, steps, x) < a.Mag())
    ensures x0.neg == a.neg && Excesses(x0, a, steps, x) == 0 && limit >= x0.Mag() ==> done
    ensures x0.neg != a.neg ==> (done <==> Stopped(x0, a))
    ensures x0.neg != a.neg && done ==> y.Mag() == x0.Mag() / a.Mag()
  {
    LengthOfMag(a);
    var rest;
    y, done, steps, rest := DivideLoop(x0, a, limit);
    x := rest;
    if x0.neg == a.neg {
      if done {
        QuotientOfRun(x0, a, steps, x);
      } else {
        UnfinishedRun(x0, a, steps, x, y, limit);
      }
    } else {
      DifferentSignsStop(x0, a, steps, x);
    }
    if x0.neg != a.neg {
      y := BigNum(true, y.length, y.limbs);
    }
  }

  /** A run without a lost borrow ends within the array and after finitely many steps. */
  lemma UnfinishedRun(x0: BigNum, a: BigNum, steps: seq<Step>, x: BigNum, y: BigNum, limit: nat)
    requires x0.Valid() && a.Valid() && a.Mag() != 0 && x0.neg == a.neg && Run(x0, a, steps, x)
    requires x.Valid() && y.Valid() && x0.length < LEN1 && x.Mag() >= a.Mag() && y.Mag() == Quotients(steps)
    requires x.length == LEN1 || y.length == LEN1 || |steps| == limit
    ensures Excesses(x0, a, steps, x) == 0 ==> limit < x0.Mag()
  {
    RunAccount(x0, a, steps, x);
    if Excesses(x0, a, steps, x) == 0 {
      MulMonotone(y.Mag(), 1, a.Mag());
      SmallerIsShorter(x, x0);
      SmallerIsShorter(y, x0);
    }
  }

  lemma DifferentSignsStop(x0: BigNum, a: BigNum, steps: seq<Step>, x: BigNum)
    requires x0.Valid() && a.Valid() && a.Mag() != 0 && x0.neg != a.neg && Run(x0, a, steps, x) && x.Valid()
    ensures !Stopped(x0, a) ==> !Stopped(x, a)
    ensures Stopped(x0, a) ==> x0.Mag() / a.Mag() == LastOne(x0, a)
  {
    DifferentSignsGrow(x0, a, steps, x);
    if Stopped(x0, a) {
      StoppedQuotient(x0, a);
      DivModUnique(x0.Mag(), a.Mag(), LastOne(x0, a), x0.Mag() - LastOne(x0, a) * a.Mag());
    } else {
      TrialFits(x0, a);
      TopsStayApart(x0, x, a);
    }
  }

  /** Equal magnitudes have equal lengths and top limbs, so that / and % stop alike. */
  lemma EqualMagnitudes(x: BigNum, a: BigNum)
    requires x.Valid() && a.Valid() && x.Mag() == a.Mag()
    ensures SameTops(x, a)
  {
    SmallerIsShorter(x, a);
    SmallerIsShorter(a, x);
    TopDecides(x.limbs, a.limbs, x.length - 1);
    TopDecides(a.limbs, x.limbs, x.length - 1);
  }

  /** Lines 594-618: the loop of operator%, whose last subtraction takes off the divisor itself
      when lengths and top limbs agree. */
  method RemainderLoop(x0: BigNum, a: BigNum, limit: nat)
    returns (y: BigNum, done: bool, ghost steps: seq<Step>, ghost tops: bool)
    requires x0.Valid() && a.Valid() && a.length > 1 && a.Mag() != 0 && a.length < LEN1
    ensures y.Valid() && Run(x0, a, steps, y)
    ensures done && !tops ==> y.Mag() < a.Mag()
    ensures tops ==> done && steps != [] && SameTops(steps[|steps| - 1].minuend, a)
    ensures !done ==> y.length == LEN1 || (|steps| == limit && !Stopped(y, a))
    ensures !done ==> y.Mag() >= a.Mag()
    ensures x0.length < LEN1 && x0.Mag() < a.Mag() ==> done && steps == []
    ensures x0.length < LEN1 && x0.Mag() >= a.Mag() && SameTops(x0, a) ==> tops && |steps| == 1
  {
    y, steps, tops := x0, [], false;
    var n := 0;
    var c := Compare(y, a);
    while c == 0 || c == 2
      invariant Run(x0, a, steps, y) && y.Valid() && |steps| == n <= limit && !tops
      invariant c == if y.Mag() > a.Mag() then 0 else if y.Mag() < a.Mag() then 1 else 2
      invariant steps != [] ==> x0.Mag() >= a.Mag() && !SameTops(x0, a)
      decreases limit - n
    {
      if y.length == LEN1 {
        return y, false, steps, false;
      }
      TrialFits(y, a);
      var trial := TrialRemainder(y, a);
      if trial.TopsAgree? {
        ghost var s := Step(y, a, 1);
        var y' := Sub(y, a);
        Extend(x0, a, steps, s, y');
        return y', true, steps + [s], true;
      }
      if n == limit {
        if y.Mag() == a.Mag() { EqualMagnitudes(y, a); }
        return y, false, steps, false;
      }
      var y', z;
      ghost var s;
      y', z, s := Iterate(y, a, trial);
      Extend(x0, a, steps, s, y');
      y, steps, n := y', steps + [s], n + 1;
      c := Compare(y, a);
    }
    done := true;
  }

  /** Where % stops, its answer and the divisor's multiples make up dividend + excess. */
  lemma RemainderOfRun(x0: BigNum, a: BigNum, steps: seq<Step>, y: BigNum)
    requires x0.Valid() && a.Valid() && a.Mag() != 0 && x0.neg == a.neg && Run(x0, a, steps, y)
    ensures y.Valid() && Cong(y.Mag(), Inflated(x0, a, steps, y), a.Mag())
    ensures y.Mag() == x0.Mag() % a.Mag() <==> y.Mag() < a.Mag() && Excesses(x0, a, steps, y) % a.Mag() == 0
    ensures Excesses(x0, a, steps, y) == 0 && y.Mag() < a.Mag() ==> y.Mag() == x0.Mag() % a.Mag()
  {
    RunAccount(x0, a, steps, y);
    RemainderWithExcess(x0.Mag(), Excesses(x0, a, steps, y), a.Mag(), Quotients(steps), y.Mag());
  }

  lemma RemainderWithExcess(v: int, e: int, d: int, q: int, y: int)
    requires 0 < d && y + d * q == v + e && 0 <= y
    ensures Cong(y, v + e, d)
    ensures y == v % d <==> y < d && e % d == 0
    ensures e == 0 && y < d ==> y == v % d
  {
    assert y == (v + e) + (-q) * d by { assert (-q) * d == -(d * q); }
    CongIntro(y, v + e, d, -q);
    CongMod(v, d);
    ModOfMultiple(0, d);
    if y == v % d {
      CongAdd(v + e, y, v, v % d, d) by { CongSymmetric(y, v + e, d); }
    } else if y < d && e % d == 0 {
      CongAdd(v + e, v, e, 0, d);
      CongTransitive(y, v + e, v, d);
      CongTransitive(y, v, v % d, d);
      CongSmallEqual(y, v % d, d);
    }
  }

  /** operator% for a divisor of two limbs or more.

      One sign: where the loop ends, the answer is congruent to dividend + excess; it is the
      remainder if and only if it is below the divisor and the divisor divides the excess.
      Without a lost borrow the loop ends, with the remainder.  Different signs: it ends if and
      only if the dividend is smaller, which it returns, or lengths and top limbs agree, where
      it returns the sum of the magnitudes. */
  method Remainder(x0: BigNum, a: BigNum, limit: nat)
    returns (y: BigNum, done: bool, ghost steps: seq<Step>)
    requires x0.Valid() && a.Valid() && a.length > 1 && x0.length < LEN1 && a.length < LEN1
    ensures y.Valid() && Run(x0, a, steps, y) && 0 < a.Mag()
    ensures done ==> y.neg == x0.neg && (steps == [] ==> x0.Mag() < a.Mag())
    ensures x0.neg == a.neg ==> Cong(y.Mag(), Inflated(x0, a, steps, y), a.Mag())
    ensures x0.neg == a.neg ==>
              (y.Mag() == x0.Mag() % a.Mag() <==> y.Mag() < a.Mag() && Excesses(x0, a, steps, y) % a.Mag() == 0)
    ensures x0.neg == a.neg && Excesses(x0, a, steps, y) == 0 && limit >= x0.Mag() ==>
              done && y.Mag() == x0.Mag() % a.Mag()
    ensures x0.neg != a.neg ==> (done <==> Stopped(x0, a))
    ensures x0.neg != a.neg && done ==>
              y.Mag() == if x0.Mag() < a.Mag() then x0.Mag() else x0.Mag() + a.Mag()
  {
    LengthOfMag(a);
    ghost var tops;
    y, done, steps, tops := RemainderLoop(x0, a, limit);
    if x0.neg == a.neg {
      RemainderOfRun(x0, a, steps, y);
      ExactRemainder(x0, a, steps, y, done, tops, limit);
    } else {
      if x0.Mag() == a.Mag() { EqualMagnitudes(x0, a); }
      DifferentSignsStop(x0, a, steps, y);
      DifferentSignsRemainder(x0, a, steps, y, tops);
    }
  }

  lemma ExactRemainder(x0: BigNum, a: BigNum, steps: seq<Step>, y: BigNum, done: bool, tops: bool, limit: nat)
    requires x0.Valid() && a.Valid() && a.Mag() != 0 && x0.neg == a.neg && Run(x0, a, steps, y) && y.Valid()
    requires x0.length < LEN1 && (!done ==> y.Mag() >= a.Mag() && (y.length == LEN1 || |steps| == limit))
    requires done && !tops ==> y.Mag() < a.Mag()
    requires tops ==> steps != [] && SameTops(steps[|steps| - 1].minuend, a)
    ensures y.neg == x0.neg
    ensures Excesses(x0, a, steps, y) == 0 && limit >= x0.Mag() ==> done
    ensures Excesses(x0, a, steps, y) == 0 && done ==> y.Mag() < a.Mag()
  {
    RunAccount(x0, a, steps, y);
    if Excesses(x0, a, steps, y) == 0 {
      SmallerIsShorter(y, x0);
      if tops {
        var s := steps[|steps| - 1];
        RunAccount(x0, a, steps[..|steps| - 1], s.minuend);
        LastSubtraction(s, a, y);
      }
    }
  }

  lemma LastSubtraction(s: Step, a: BigNum, y: BigNum)
    requires a.Valid() && a.Mag() != 0 && Genuine(s, a) && s.minuend.neg == a.neg && SameTops(s.minuend, a)
    requires IsCodeDifference(s.minuend, s.subtrahend, y) && LostBorrows(s.minuend, s.subtrahend) == 0
    ensures y.Mag() < a.Mag()
  {
    EqualTops(s.minuend, a);
    assert s.quotient == 1;
    assert s.subtrahend.Mag() == a.Mag();
  }

  /** With different signs, only a run that meets equal tops at once takes the divisor off. */
  lemma DifferentSignsRemainder(x0: BigNum, a: BigNum, steps: seq<Step>, y: BigNum, tops: bool)
    requires x0.Valid() && a.Valid() && a.Mag() != 0 && x0.neg != a.neg && Run(x0, a, steps, y) && y.Valid()
    requires tops ==> steps != [] && SameTops(steps[|steps| - 1].minuend, a)
    ensures y.neg == x0.neg
    ensures tops ==> Stopped(x0, a)
    ensures tops && |steps| == 1 ==> y.Mag() == x0.Mag() + a.Mag()
  {
    DifferentSignsGrow(x0, a, steps, y);
    if tops {
      var n := |steps| - 1;
      DifferentSignsGrow(x0, a, steps[..n], steps[n].minuend);
      DifferentSignsStop(x0, a, steps[..n], steps[n].minuend);
      TopsAdd(steps[n], a, y);
    }
  }

  lemma TopsAdd(s: Step, a: BigNum, y: BigNum)
    requires a.Valid() && Genuine(s, a) && s.minuend.neg != a.neg && SameTops(s.minuend, a)
    requires IsCodeDifference(s.minuend, s.subtrahend, y)
    ensures y.Mag() == s.minuend.Mag() + a.Mag()
  {
    assert s.quotient == 1;
    assert s.subtrahend.Mag() == a.Mag();
  }

  // ------------------------------------------------------- where it goes wrong

  const TWO_64_NUMBER: BigNum := BigNum(false, 3, ZERO_LIMBS[2 := 1])
  const TWO_32_PLUS_1: BigNum := BigNum(false, 2, ZERO_LIMBS[0 := 1][1 := 1])

  lemma ExampleNumbers()
    ensures TWO_64_NUMBER.Valid() && TWO_64_NUMBER.Mag() == BASE * BASE
    ensures TWO_32_PLUS_1.Valid() && TWO_32_PLUS_1.Mag() == BASE + 1
    ensures Estimate(TWO_64_NUMBER, TWO_32_PLUS_1) == 0x8000_0000
  {
    var x, a := ZERO_LIMBS[2 := 1], ZERO_LIMBS[0 := 1][1 := 1];
    assert Pow(BASE, 0) == 1 && Pow(BASE, 1) == BASE && Pow(BASE, 2) == BASE * BASE;
    assert ValTo(x, 0) == 0 && ValTo(x, 1) == 0 && ValTo(x, 2) == 0 && ValTo(x, 3) == BASE * BASE;
    assert ValTo(a, 0) == 0 && ValTo(a, 1) == 1 && ValTo(a, 2) == BASE + 1;
  }

  /** 2^64 / (2^32 + 1): taking 2^31 times the divisor off loses a borrow worth 2^64. */
  lemma FirstStepLoses(t: BigNum)
    requires t.Valid() && !t.neg && t.Mag() == (BASE + 1) * 0x8000_0000
    ensures TWO_64_NUMBER.Valid() && LostBorrows(TWO_64_NUMBER, t) == BASE * BASE
  {
    ExampleNumbers();
    var a, b := ZERO_LIMBS[2 := 1], ZERO_LIMBS[0 := 0x8000_0000][1 := 0x8000_0000];
    var y := BigNum(false, 2, b);
    assert Pow(BASE, 0) == 1 && Pow(BASE, 1) == BASE && Pow(BASE, 2) == BASE * BASE;
    assert ValTo(b, 0) == 0 && ValTo(b, 1) == 0x8000_0000 && ValTo(b, 2) == (BASE + 1) * 0x8000_0000;
    CanonicalForm(t, y);
    assert Borrow(a, b, 0) == 0 && Borrow(a, b, 1) == 1 && Borrow(a, b, 2) == 0;
    assert Excess(a, b, 0) == 0 && Excess(a, b, 1) == 0 && Excess(a, b, 2) == BASE * BASE && Excess(a, b, 3) == BASE * BASE;
  }

  /** A run keeps the excess of its first step. */
  lemma {:induction false} FirstExcess(x0: BigNum, a: BigNum, steps: seq<Step>, x: BigNum)
    requires a.Valid() && Run(x0, a, steps, x) && |steps| > 0
    ensures Genuine(steps[0], a) && steps[0].minuend == x0
    ensures Excesses(x0, a, steps, x) >= LostBorrows(x0, steps[0].subtrahend)
    decreases |steps|
  {
    var n := |steps| - 1;
    if n > 0 {
      FirstExcess(x0, a, steps[..n], steps[n].minuend);
    }
  }

  /** So the source never returns the quotient 2^32 - 1 for it, however long it runs. */
  method WrongQuotient(limit: nat) returns (y: BigNum, done: bool)
    ensures y.Valid() && (done ==> y.Mag() != (BASE * BASE) / (BASE + 1))
  {
    ExampleNumbers();
    ghost var steps, x;
    y, done, steps, x := Divide(TWO_64_NUMBER, TWO_32_PLUS_1, limit);
    if done {
      FirstExcess(TWO_64_NUMBER, TWO_32_PLUS_1, steps, x);
      FirstStepLoses(steps[0].subtrahend);
    }
  }
}
