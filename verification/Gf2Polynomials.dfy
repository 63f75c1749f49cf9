/** Polynomials over GF(2), as the finite sets of their exponents. */
module Gf2Polynomials {

  type Poly = set<nat>

  function Plus(a: Poly, b: Poly): Poly {
    (a - b) + (b - a)
  }

  /** a(x) * x^k */
  function Shift(a: Poly, k: nat): Poly {
    set i | i in a :: i + k
  }

  /** q(x) * g(x), with q's coefficients listed from the highest down (Horner's scheme). */
  function Times(q: seq<bool>, g: Poly): Poly {
    if |q| == 0 then {}
    else Plus(Shift(Times(q[..|q| - 1], g), 1), if q[|q| - 1] then g else {})
  }

  /** The polynomial with the given coefficients, highest first. */
  function PolyOf(bits: seq<bool>): Poly {
    Times(bits, {0})
  }

  predicate Below(a: Poly, n: nat) {
    forall i :: i in a ==> i < n
  }

  lemma ShiftMember(a: Poly, k: nat, j: nat)
    ensures j in Shift(a, k) <==> j >= k && j - k in a
  {
    if j >= k && j - k in a {
      assert (j - k) + k == j;
    }
  }

  /** The inverse of a shift: the terms of degree at least k, divided by x^k. */
  function Unshift(a: Poly, k: nat): Poly {
    set i | i in a && i >= k :: i - k
  }

  lemma UnshiftMember(a: Poly, k: nat, j: nat)
    ensures j in Unshift(a, k) <==> j + k in a
  {
    if j + k in a {
      assert (j + k) - k == j;
    }
  }

  lemma ShiftUnshift(a: Poly, k: nat)
    requires forall i :: i in a ==> i >= k
    ensures Shift(Unshift(a, k), k) == a
  {
    forall j: nat
      ensures j in Shift(Unshift(a, k), k) <==> j in a
    {
      ShiftMember(Unshift(a, k), k, j);
      if j >= k {
        UnshiftMember(a, k, j - k);
      }
    }
  }

  lemma ShiftPlus(a: Poly, b: Poly, k: nat)
    ensures Shift(Plus(a, b), k) == Plus(Shift(a, k), Shift(b, k))
  {
    forall j: nat
      ensures j in Shift(Plus(a, b), k) <==> j in Plus(Shift(a, k), Shift(b, k))
    {
      ShiftMember(Plus(a, b), k, j);
      ShiftMember(a, k, j);
      ShiftMember(b, k, j);
    }
  }

  lemma ShiftShift(a: Poly, k: nat, l: nat)
    ensures Shift(Shift(a, k), l) == Shift(a, k + l)
  {
    forall j: nat
      ensures j in Shift(Shift(a, k), l) <==> j in Shift(a, k + l)
    {
      ShiftMember(Shift(a, k), l, j);
      ShiftMember(a, k + l, j);
      if j >= l {
        ShiftMember(a, k, j - l);
      }
    }
  }

  lemma ShiftInjective(a: Poly, b: Poly, k: nat)
    requires Shift(a, k) == Shift(b, k)
    ensures a == b
  {
    forall j: nat
      ensures j in a <==> j in b
    {
      ShiftMember(a, k, j + k);
      ShiftMember(b, k, j + k);
    }
  }

  function Xor(a: seq<bool>, b: seq<bool>): (c: seq<bool>)
    requires |a| == |b|
    ensures |c| == |a| && forall i :: 0 <= i < |a| ==> c[i] == (a[i] != b[i])
  {
    seq(|a|, i requires 0 <= i < |a| => a[i] != b[i])
  }

  lemma {:induction false} TimesXor(p: seq<bool>, q: seq<bool>, g: Poly)
    requires |p| == |q|
    ensures Times(Xor(p, q), g) == Plus(Times(p, g), Times(q, g))
    decreases |p|
  {
    if |p| > 0 {
      var n := |p| - 1;
      TimesXor(p[..n], q[..n], g);
      assert Xor(p, q)[..n] == Xor(p[..n], q[..n]);
      ShiftPlus(Times(p[..n], g), Times(q[..n], g), 1);
    }
  }

  lemma {:induction false} TimesLeadingZero(q: seq<bool>, g: Poly)
    requires |q| > 0 && !q[0]
    ensures Times(q, g) == Times(q[1..], g)
    decreases |q|
  {
    if |q| == 1 {
      assert q[..0] == [];
      assert Shift({}, 1) == {};
    } else {
      var n := |q| - 1;
      TimesLeadingZero(q[..n], g);
      assert q[..n][1..] == q[1..][..n - 1];
    }
  }

  /** The product of two polynomials has its top term at the sum of the degrees. */
  lemma {:induction false} TimesTop(q: seq<bool>, g: Poly, d: nat)
    requires d in g && Below(g, d + 1)
    ensures Below(Times(q, g), |q| + d)
    ensures |q| > 0 && q[0] ==> |q| - 1 + d in Times(q, g)
    decreases |q|
  {
    if |q| > 0 {
      var n := |q| - 1;
      TimesTop(q[..n], g, d);
      var t := Shift(Times(q[..n], g), 1);
      forall j | j in t
        ensures j < |q| + d
      {
        ShiftMember(Times(q[..n], g), 1, j);
      }
      if q[0] && n > 0 {
        ShiftMember(Times(q[..n], g), 1, n + d);
      }
    }
  }

  /** A nonzero multiple of g has a term of at least g's degree. */
  lemma {:induction false} NonzeroMultiple(q: seq<bool>, g: Poly, d: nat)
    requires d in g && Below(g, d + 1) && Below(Times(q, g), d)
    ensures Times(q, g) == {}
    decreases |q|
  {
    if |q| > 0 {
      if q[0] {
        TimesTop(q, g, d);
        assert false;
      }
      TimesLeadingZero(q, g);
      NonzeroMultiple(q[1..], g, d);
    }
  }

  /** Remainders are unique, whatever the quotients. */
  lemma {:induction false} RemainderUnique(p: seq<bool>, q: seq<bool>, r: Poly, s: Poly, g: Poly, d: nat)
    requires d in g && Below(g, d + 1) && Below(r, d) && Below(s, d)
    requires Plus(Times(p, g), r) == Plus(Times(q, g), s)
    ensures r == s
    decreases if |p| < |q| then |q| - |p| else |p| - |q|
  {
    if |p| < |q| {
      PadQuotient(p, g);
      RemainderUnique([false] + p, q, r, s, g, d);
    } else if |q| < |p| {
      PadQuotient(q, g);
      RemainderUnique(p, [false] + q, r, s, g, d);
    } else {
      TimesXor(p, q, g);
      var m := Times(Xor(p, q), g);
      assert m == Plus(r, s) by { Rearrange(Times(p, g), Times(q, g), r, s); }
      NonzeroMultiple(Xor(p, q), g, d);
      assert Plus(r, s) == {};
      SumZero(r, s);
    }
  }

  lemma PadQuotient(q: seq<bool>, g: Poly)
    ensures Times([false] + q, g) == Times(q, g)
  {
    TimesLeadingZero([false] + q, g);
    assert ([false] + q)[1..] == q;
  }

  lemma SumZero(r: Poly, s: Poly)
    requires Plus(r, s) == {}
    ensures r == s
  {
    forall j: nat
      ensures j in r <==> j in s
    {
      assert j !in Plus(r, s);
    }
  }

  lemma Rearrange(a: Poly, b: Poly, r: Poly, s: Poly)
    requires Plus(a, r) == Plus(b, s)
    ensures Plus(a, b) == Plus(r, s)
  {
    forall j: nat
      ensures j in Plus(a, b) <==> j in Plus(r, s)
    {
      assert j in Plus(a, r) <==> j in Plus(b, s);
    }
  }

  /** When g has a constant term, a multiple of g that is divisible by x^k stays a multiple
      after division by x^k. */
  lemma {:induction false} DivideOutX(e: Poly, k: nat, q: seq<bool>, g: Poly) returns (p: seq<bool>)
    requires 0 in g && Shift(e, k) == Times(q, g)
    ensures e == Times(p, g)
    decreases k
  {
    if k == 0 {
      p := q;
      forall j: nat
        ensures j in Shift(e, 0) <==> j in e
      {
        ShiftMember(e, 0, j);
      }
    } else if |q| == 0 {
      p := [];
      forall j: nat
        ensures j !in e
      {
        ShiftMember(e, k, j + k);
      }
    } else {
      var n := |q| - 1;
      ShiftMember(e, k, 0);
      ShiftMember(Times(q[..n], g), 1, 0);
      assert !q[n];
      ShiftShift(e, k - 1, 1);
      ShiftInjective(Shift(e, k - 1), Times(q[..n], g), 1);
      p := DivideOutX(e, k - 1, q[..n], g);
    }
  }

  lemma {:induction false} PolyOfMember(bits: seq<bool>, j: nat)
    ensures j in PolyOf(bits) <==> j < |bits| && bits[|bits| - 1 - j]
    decreases |bits|
  {
    if |bits| > 0 {
      var n := |bits| - 1;
      ShiftMember(PolyOf(bits[..n]), 1, j);
      if j > 0 {
        PolyOfMember(bits[..n], j - 1);
      }
    }
  }

  // ------------------------------------------------------------------ parity

  function Ones(q: seq<bool>): nat {
    if |q| == 0 then 0 else Ones(q[..|q| - 1]) + if q[|q| - 1] then 1 else 0
  }

  predicate Odd(n: nat) {
    n % 2 == 1
  }

  lemma PlusParity(a: Poly, b: Poly)
    ensures Odd(|Plus(a, b)|) <==> Odd(|a|) != Odd(|b|)
  {
    SplitSize(a, b);
    SplitSize(b, a);
    assert a * b == b * a;
    var x, y, z := |a - b|, |b - a|, |a * b|;
    assert |Plus(a, b)| == x + y;
    ParityOfSums(x, y, z);
  }

  lemma SplitSize(a: Poly, b: Poly)
    ensures |a| == |a - b| + |a * b|
  {
    assert a == (a - b) + (a * b);
  }

  lemma ParityOfSums(x: nat, y: nat, z: nat)
    ensures Odd(x + y) <==> Odd(x + z) != Odd(y + z)
  {
  }

  lemma {:induction false} ShiftSize(a: Poly, k: nat)
    ensures |Shift(a, k)| == |a|
    decreases |a|
  {
    if a == {} {
      assert Shift(a, k) == {};
    } else {
      var i :| i in a;
      ShiftSize(a - {i}, k);
      forall j: nat
        ensures j in Shift(a, k) <==> j in Shift(a - {i}, k) + {i + k}
      {
        ShiftMember(a, k, j);
        ShiftMember(a - {i}, k, j);
      }
      assert Shift(a, k) == Shift(a - {i}, k) + {i + k};
      ShiftMember(a - {i}, k, i + k);
    }
  }

  /** A multiple of a polynomial with evenly many terms has evenly many terms; a multiple of
      one with oddly many terms has the parity of the other factor. */
  lemma {:induction false} TimesParity(q: seq<bool>, g: Poly)
    ensures Odd(|Times(q, g)|) <==> Odd(|g|) && Odd(Ones(q))
    decreases |q|
  {
    if |q| > 0 {
      var n := |q| - 1;
      TimesParity(q[..n], g);
      TimesParityStep(Times(q[..n], g), g, q[n]);
      OnesParity(q);
    }
  }

  lemma TimesParityStep(p: Poly, g: Poly, bit: bool)
    ensures Odd(|Plus(Shift(p, 1), if bit then g else {})|) <==> Odd(|p|) != (bit && Odd(|g|))
  {
    ShiftSize(p, 1);
    PlusParity(Shift(p, 1), if bit then g else {});
  }

  lemma {:induction false} OnesParity(q: seq<bool>)
    requires |q| > 0
    ensures Odd(Ones(q)) <==> Odd(Ones(q[..|q| - 1])) != q[|q| - 1]
  {
  }
}
