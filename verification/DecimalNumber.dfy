/** The growable decimal numbers of cpp/algorithm/big_num.c: digit cells, least significant
    first, of which `wei` are in use.  Cells that C leaves uninitialised hold arbitrary
    integers here; a carry written past the last cell grows the buffer by one. */
module DecimalNumber {
  import opened Arithmetic

  // ------------------------------------------------------ values of digit cells

  function Dec(s: seq<int>, n: nat): int
    requires n <= |s|
  {
    if n == 0 then 0 else Dec(s, n - 1) + s[n - 1] * Pow(10, n - 1)
  }

  predicate Digits(s: seq<int>, n: nat)
    requires n <= |s|
  {
    forall i :: 0 <= i < n ==> 0 <= s[i] <= 9
  }

  lemma {:induction false} DecFrame(s: seq<int>, t: seq<int>, n: nat)
    requires n <= |s| && n <= |t| && forall i :: 0 <= i < n ==> s[i] == t[i]
    ensures Dec(s, n) == Dec(t, n)
    decreases n
  {
    if n > 0 {
      DecFrame(s, t, n - 1);
    }
  }

  lemma {:induction false} DecBound(s: seq<int>, n: nat)
    requires n <= |s| && Digits(s, n)
    ensures 0 <= Dec(s, n) < Pow(10, n)
    decreases n
  {
    if n > 0 {
      DecBound(s, n - 1);
      MulMonotone(Pow(10, n - 1), s[n - 1], 9);
      MulMonotone(Pow(10, n - 1), 0, s[n - 1]);
    }
  }

  lemma {:induction false} DecZeros(s: seq<int>, m: nat, n: nat)
    requires m <= n <= |s| && forall i :: m <= i < n ==> s[i] == 0
    ensures Dec(s, n) == Dec(s, m)
    decreases n
  {
    if m < n {
      DecZeros(s, m, n - 1);
    }
  }

  lemma {:induction false} DecShift(s: seq<int>, t: seq<int>, n: nat, a: nat)
    requires n <= |s| && n + a <= |t|
    requires forall i :: 0 <= i < a ==> t[i] == 0
    requires forall i :: 0 <= i < n ==> t[i + a] == s[i]
    ensures Dec(t, n + a) == Dec(s, n) * Pow(10, a)
    decreases n
  {
    if n == 0 {
      DecZeros(t, 0, a);
    } else {
      DecShift(s, t, n - 1, a);
      PowAdd(10, n - 1, a);
      ShiftAlgebra(Dec(s, n - 1), s[n - 1], Pow(10, n - 1), Pow(10, a));
    }
  }

  lemma TopDigit(s: seq<int>, n: nat)
    requires 0 < n <= |s| && Digits(s, n)
    ensures s[n - 1] * Pow(10, n - 1) <= Dec(s, n) < (s[n - 1] + 1) * Pow(10, n - 1)
    ensures s[n - 1] != 0 ==> Pow(10, n - 1) <= Dec(s, n)
  {
    DecBound(s, n - 1);
    var w := Pow(10, n - 1);
    assert (s[n - 1] + 1) * w == s[n - 1] * w + w;
    if s[n - 1] != 0 {
      MulMonotone(w, 1, s[n - 1]);
    }
  }

  lemma DigitDecides(s: seq<int>, t: seq<int>, i: nat)
    requires i < |s| && i < |t| && Digits(s, i + 1) && Digits(t, i + 1)
    ensures s[i] < t[i] ==> Dec(s, i + 1) < Dec(t, i + 1)
  {
    if s[i] < t[i] {
      TopDigit(s, i + 1);
      TopDigit(t, i + 1);
      PowPositive(10, i);
      MulMonotone(Pow(10, i), s[i] + 1, t[i]);
    }
  }

  lemma DigitCount(s: seq<int>, n: nat, k: nat)
    requires 0 < n <= |s| && Digits(s, n) && s[n - 1] != 0 && Dec(s, n) < Pow(10, k)
    ensures n <= k
  {
    TopDigit(s, n);
    if k < n {
      PowMonotone(10, k, n - 1);
    }
  }

  // -------------------------------------------------------------- the number

  /** The buffer size that doubling from k reaches for n cells. */
  function Doubled(k: nat, n: nat): (r: nat)
    requires k > 0
    ensures r >= n && r >= k
    decreases n - k
  {
    if k >= n then k else Doubled(2 * k, n)
  }

  /** Memory fresh from malloc or realloc. */
  method Uninitialised(n: nat) returns (s: seq<int>)
    ensures |s| == n
  {
    assert |seq(n, i => 0)| == n;
    s :| |s| == n;
  }

  class BigNum {
    var arr: seq<int>
    var wei: nat

    ghost predicate Valid()
      reads this
    {
      1 <= wei <= |arr| && Digits(arr, wei)
    }

    ghost predicate Normal()
      reads this
    {
      Valid() && (wei > 1 ==> arr[wei - 1] != 0)
    }

    ghost function Value(): int
      reads this
      requires wei <= |arr|
    {
      Dec(arr, wei)
    }

    /** get_zero */
    constructor Zero()
      ensures Normal() && Value() == 0 && wei == 1 && |arr| == 2
    {
      var junk: int := *;
      arr := [0, junk];
      wei := 1;
      new;
      assert Dec(arr, 0) == 0;
    }

    /** extend_big_num */
    method Extend()
      requires |arr| > 0
      modifies this
      ensures wei == old(wei) && old(arr) <= arr && |arr| == 2 * |old(arr)|
    {
      var junk := Uninitialised(|arr|);
      arr := arr + junk;
    }

    method ExtendWhileBelow(n: nat)
      requires Valid()
      modifies this
      ensures wei == old(wei) && old(arr) <= arr && |arr| == Doubled(|old(arr)|, n) && Valid() && Value() == old(Value())
    {
      while |arr| < n
        invariant wei == old(wei) && old(arr) <= arr && |arr| > 0
        invariant Doubled(|arr|, n) == Doubled(|old(arr)|, n)
        decreases n - |arr|
      {
        Extend();
      }
      DecFrame(old(arr), arr, wei);
    }

    /** big_num_cpy: the cells above the copy are zero. */
    method CopyFrom(b: BigNum)
      requires b != this && b.Valid()
      modifies this
      ensures Valid() && wei == b.wei && |arr| == (if |old(arr)| < |b.arr| then |b.arr| else |old(arr)|)
      ensures forall i :: 0 <= i < |arr| ==> arr[i] == if i < wei then b.arr[i] else 0
      ensures Value() == b.Value()
    {
      var n := if |arr| < |b.arr| then |b.arr| else |arr|;
      arr := seq(n, i => 0);
      var i := 0;
      while i < b.wei
        invariant 0 <= i <= b.wei && |arr| == n
        invariant forall k :: 0 <= k < n ==> arr[k] == if k < i then b.arr[k] else 0
      {
        arr := arr[i := b.arr[i]];
        i := i + 1;
      }
      wei := b.wei;
      DecFrame(arr, b.arr, wei);
    }

    /** big_num_multi_dig */
    method MultiplyByDigit(a: int)
      requires Normal() && 0 <= a <= 9
      modifies this
      ensures Normal() && Value() == old(Value()) * a
      ensures old(wei) <= wei <= old(wei) + 1 || a == 0
      ensures a == 0 ==> wei == 1 && arr == old(arr)[0 := 0]
      ensures |arr| >= |old(arr)|
    {
      if a == 0 {
        wei := 1;
        arr := arr[0 := 0];
        assert Dec(arr, 0) == 0;
        return;
      }
      if wei == |arr| {
        Extend();
      }
      DecFrame(old(arr), arr, wei);
      var next;
      arr, next := MultiplyCells(arr, wei, a);
      if next != 0 {
        PutOnTop(arr, wei, next);
        arr := arr[wei := next];
        wei := wei + 1;
      }
    }

    /** big_num_append0 */
    method AppendZeros(a: nat)
      requires Valid()
      modifies this
      ensures Valid() && wei == old(wei) + a && Value() == old(Value()) * Pow(10, a)
      ensures arr[wei - 1] == old(arr[wei - 1]) && |arr| >= |old(arr)|
    {
      if a <= 0 {
        return;
      }
      ExtendWhileBelow(wei + a);
      arr := ShiftCells(arr, wei, a);
      wei := wei + a;
    }
  }

  /** Lines 359-364: move n cells up by a, from the top, and clear the cells below. */
  method ShiftCells(s: seq<int>, n: nat, a: nat) returns (t: seq<int>)
    requires n + a <= |s|
    requires Digits(s, n)
    ensures |t| == |s| && Digits(t, n + a)
    ensures Dec(t, n + a) == Dec(s, n) * Pow(10, a)
    ensures n > 0 ==> t[n + a - 1] == s[n - 1]
  {
    t := s;
    var i := n;
    while i > 0
      invariant 0 <= i <= n && |t| == |s|
      invariant forall k :: 0 <= k < i ==> t[k] == s[k]
      invariant forall k :: i <= k < n ==> t[k + a] == s[k]
    {
      i := i - 1;
      t := t[i + a := t[i]];
    }
    i := 0;
    while i < a
      invariant 0 <= i <= a && |t| == |s|
      invariant forall k :: 0 <= k < i ==> t[k] == 0
      invariant forall k :: 0 <= k < n ==> t[k + a] == s[k]
    {
      t := t[i := 0];
      i := i + 1;
    }
    DecShift(s, t, n, a);
    forall k | 0 <= k < n + a
      ensures 0 <= t[k] <= 9
    {
      if k >= a {
        assert t[(k - a) + a] == s[k - a];
      }
    }
    assert n > 0 ==> t[(n - 1) + a] == s[n - 1];
  }

  predicate Multiplied(t: seq<int>, s: seq<int>, i: nat, a: int, next: int)
    requires i <= |t| && i <= |s|
  {
    Dec(t, i) + next * Pow(10, i) == Dec(s, i) * a
  }

  lemma MultiplyDigit(t: seq<int>, s: seq<int>, i: nat, a: int, next: int, d: int, next': int)
    requires i < |t| && i < |s| && Multiplied(t, s, i, a, next) && s[i] * a + next == d + next' * 10
    ensures Multiplied(t[i := d], s, i + 1, a, next')
  {
    DecFrame(t, t[i := d], i);
    DigitStep(Dec(t, i), next, Dec(s, i), a, s[i], d, next', Pow(10, i));
  }

  /** Lines 327-337: multiply n digits by a; the last carry is returned. */
  method MultiplyCells(s: seq<int>, n: nat, a: int) returns (t: seq<int>, next: int)
    requires n <= |s| && Digits(s, n) && 1 <= a <= 9
    ensures |t| == |s| && Digits(t, n) && 0 <= next < 10
    ensures Dec(t, n) + next * Pow(10, n) == Dec(s, n) * a
    ensures n > 0 && s[n - 1] != 0 ==> next != 0 || t[n - 1] != 0
  {
    t, next := s, 0;
    var i := 0;
    while i < n
      invariant 0 <= i <= n && |t| == |s| && 0 <= next < 10 && Digits(t, i)
      invariant forall k :: i <= k < n ==> t[k] == s[k]
      invariant Multiplied(t, s, i, a, next)
      invariant i > 0 && s[i - 1] != 0 ==> next != 0 || t[i - 1] != 0
    {
      var resNum := t[i] * a + next;
      DigitProduct(s[i], a);
      MultiplyDigit(t, s, i, a, next, resNum % 10, resNum / 10);
      if resNum < 10 {
        t := t[i := resNum];
        next := 0;
      } else {
        next := resNum / 10;
        t := t[i := resNum % 10];
      }
      i := i + 1;
    }
  }

  lemma PutOnTop(s: seq<int>, n: nat, d: int)
    requires n < |s| && Digits(s, n) && 0 <= d <= 9
    ensures Dec(s[n := d], n + 1) == Dec(s, n) + d * Pow(10, n) && Digits(s[n := d], n + 1)
  {
    DecFrame(s, s[n := d], n);
  }

  lemma DigitProduct(d: int, a: int)
    requires 0 <= d <= 9 && 1 <= a <= 9
    ensures d <= d * a <= 81
  {
    MulMonotone(d, a, 9);
    MulMonotone(d, 1, a);
  }

  lemma DigitStep(low: int, next: int, v: int, a: int, d: int, out: int, next': int, w: int)
    requires low + next * w == v * a && d * a + next == out + next' * 10
    ensures low + out * w + next' * (10 * w) == (v + d * w) * a
  {
    assert (v + d * w) * a == v * a + (d * a) * w;
    assert (d * a + next) * w == (out + next' * 10) * w;
    assert (out + next' * 10) * w == out * w + next' * (10 * w);
    assert (d * a + next) * w == (d * a) * w + next * w;
  }
}
