/** Comparison, the in-place accumulator, long multiplication and factorial of
    cpp/algorithm/big_num.c. */
module DecimalArithmetic {
  import opened Arithmetic
  import opened DecimalNumber

  function Sign(x: int): int {
    if x > 0 then 1 else if x < 0 then -1 else 0
  }

  /** big_num_cmp: first the digit counts, then the digits. */
  ghost function Order(a: BigNum, b: BigNum): int
    reads a, b
    requires a.Valid() && b.Valid()
  {
    if a.wei != b.wei then Sign(a.wei - b.wei) else Sign(a.Value() - b.Value())
  }

  method Compare(a: BigNum, b: BigNum) returns (c: int)
    requires a.Valid() && b.Valid()
    ensures c == Order(a, b)
    ensures a.Normal() && b.Normal() ==> c == Sign(a.Value() - b.Value())
  {
    if a.wei != b.wei {
      if a.Normal() && b.Normal() { LongerIsLarger(a, b); }
      return if a.wei > b.wei then 1 else -1;
    }
    var i := a.wei;
    while i > 0
      invariant 0 <= i <= a.wei
      invariant a.Value() - b.Value() == Dec(a.arr, i) - Dec(b.arr, i)
    {
      i := i - 1;
      if a.arr[i] != b.arr[i] {
        DigitDecides(a.arr, b.arr, i);
        DigitDecides(b.arr, a.arr, i);
        return if a.arr[i] > b.arr[i] then 1 else -1;
      }
    }
    return 0;
  }

  lemma LongerIsLarger(a: BigNum, b: BigNum)
    requires a.Normal() && b.Normal() && a.wei != b.wei
    ensures Sign(a.wei - b.wei) == Sign(a.Value() - b.Value())
  {
    DecBound(a.arr, a.wei);
    DecBound(b.arr, b.wei);
    TopDigit(a.arr, a.wei);
    TopDigit(b.arr, b.wei);
    if a.wei > b.wei {
      PowMonotone(10, b.wei, a.wei - 1);
    } else {
      PowMonotone(10, a.wei, b.wei - 1);
    }
  }

  // ---------------------------------------------------- the accumulator step

  lemma SumStep(low: int, next: int, x: int, y: int, a: int, b: int, out: int, next': int, w: int)
    requires low + next * w == x + y && a + b + next == out + next' * 10
    ensures low + out * w + next' * (10 * w) == (x + a * w) + (y + b * w)
  {
    assert (a + b + next) * w == (out + next' * 10) * w;
    assert (out + next' * 10) * w == out * w + next' * (10 * w);
    assert (a + b + next) * w == a * w + b * w + next * w;
  }

  /** Lines 249-258 and 289-299: add n cells of t to n digits of s in place; the carry stays in
      `next`.  The cells of t may hold anything; from digits it makes digits. */
  method DigitLoop(s0: seq<int>, t: seq<int>, n: nat) returns (s: seq<int>, next: int)
    requires n <= |s0| && n <= |t| && Digits(s0, n)
    ensures |s| == |s0| && 0 <= next <= 1
    ensures forall i :: n <= i < |s| ==> s[i] == s0[i]
    ensures Dec(s, n) + next * Pow(10, n) == Dec(s0, n) + Dec(t, n)
    ensures Digits(t, n) ==> Digits(s, n) && (n > 0 && t[n - 1] != 0 ==> next == 1 || s[n - 1] != 0)
  {
    s, next := s0, 0;
    var i := 0;
    while i < n
      invariant 0 <= i <= n && |s| == |s0| && 0 <= next <= 1
      invariant forall k :: i <= k < |s| ==> s[k] == s0[k]
      invariant Dec(s, i) + next * Pow(10, i) == Dec(s0, i) + Dec(t, i)
      invariant Digits(t, n) ==> Digits(s, i) && (i > 0 && t[i - 1] != 0 ==> next == 1 || s[i - 1] != 0)
    {
      var resNum := s[i] + t[i] + next;
      ghost var before, nextIn := s, next;
      if resNum < 10 {
        s := s[i := resNum];
        next := 0;
      } else {
        s := s[i := resNum - 10];
        next := 1;
      }
      DecFrame(before, s, i);
      SumStep(Dec(s, i), nextIn, Dec(s0, i), Dec(t, i), s0[i], t[i], s[i], next, Pow(10, i));
      i := i + 1;
    }
  }

  /** The carry that leaves the top digit of b when b is added to a. */
  ghost predicate Carries(a: BigNum, b: BigNum)
    reads a, b
    requires a.Valid() && b.Valid() && b.wei <= a.wei
  {
    Dec(a.arr, b.wei) + b.Value() >= Pow(10, b.wei)
  }

  function Max(x: nat, y: nat): nat {
    if x > y then x else y
  }

  /** Lines 289-307: the digit loop, the new digit count, and the carry on top; `grew` tells that
      the carry was written past the last cell. */
  method AddCells(s0: seq<int>, w: nat, t: seq<int>, n: nat)
    returns (s: seq<int>, top: nat, next: int, grew: bool)
    requires w <= |s0| && n <= |s0| && n <= |t| && Digits(s0, w) && Digits(t, n)
    requires forall i :: w <= i < n ==> s0[i] == 0
    ensures 0 <= next <= 1 && top == Max(w, n) && top + next <= |s| && Digits(s, top)
    ensures Dec(s, top) + next * Pow(10, n) == Dec(s0, w) + Dec(t, n)
    ensures next == 1 <==> Dec(s0, n) + Dec(t, n) >= Pow(10, n)
    ensures next == 1 ==> s[top] == 1 + if top < |s0| then s0[top] else 0
    ensures n > 0 && w <= n && t[n - 1] != 0 && next == 0 ==> s[top - 1] != 0
    ensures grew <==> next == 1 && top == |s0|
    ensures |s| == |s0| + if grew then 1 else 0
  {
    s, next := DigitLoop(s0, t, n);
    DecBound(s, n);
    top := if n > w then n else w;
    Settle(s0, s, t, w, n, top, next * Pow(10, n));
    grew := false;
    if next == 1 {
      ghost var before := s;
      grew := top == |s|;
      s := if top < |s| then s[top := s[top] + 1] else s + [1];
      DecFrame(before, s, top);
    }
  }

  /** What the number is worth once the carry sits on top of its digits. */
  lemma CarryOnTop(s: seq<int>, top: nat, next: int, n: nat, v: int)
    requires 0 <= next <= 1 && top + next <= |s| && Digits(s, top)
    requires Dec(s, top) + next * Pow(10, n) == v
    ensures Dec(s, top + next) == v + if next == 1 then s[top] * Pow(10, top) - Pow(10, n) else 0
    ensures next == 0 || s[top] == 1 ==> Digits(s, top + next)
  {
  }

  /** A carry of 10^n that is written as cell * 10^w is right for one cell and one place only. */
  lemma CarryBelongs(cell: int, w: nat, n: nat)
    requires n <= w
    ensures cell * Pow(10, w) == Pow(10, n) <==> cell == 1 && w == n
  {
    PowMonotone(10, n, w);
    var p := Pow(10, w);
    if cell <= 0 {
      MulMonotone(p, cell, 0);
    } else if cell >= 2 {
      MulMonotone(p, 2, cell);
    }
  }

  /** The size of a number's buffer once there is room for one more digit. */
  ghost function Room(b: BigNum): (r: nat)
    reads b
    requires b.Valid()
    ensures r > b.wei
  {
    if b.wei == |b.arr| then 2 * |b.arr| else |b.arr|
  }

  /** Lines 232-234 and 275-277. */
  method MakeRoom(b: BigNum)
    requires b.Valid()
    modifies b
    ensures b.Valid() && b.wei == old(b.wei) && |b.arr| == old(Room(b)) && old(b.arr) <= b.arr
    ensures b.Value() == old(b.Value())
  {
    if b.wei == |b.arr| {
      b.Extend();
    }
    DecFrame(old(b.arr), b.arr, b.wei);
  }

  /** The buffer size that big_num_add_0 gives a number before it adds a larger one. */
  ghost function RoomFor(a: BigNum, b: BigNum): nat
    reads a, b
    requires a.Valid() && b.Valid()
  {
    Doubled(Room(a), |b.arr|)
  }

  /** big_num_add_0.  The sum is exact when b compares greater, or when no carry leaves b's top
      digit.  Otherwise the carry is not propagated: one is added to the cell on top of a's digits,
      whatever it holds, and the sum is exact if and only if that cell held 0 and a has no more
      digits than b.  `grew` tells that the carry of a larger b was written past a's last cell. */
  method AddInto(a: BigNum, b: BigNum) returns (grew: bool)
    requires a.Valid() && b.Valid()
    modifies a
    ensures old(Order(a, b)) == -1 ==>
              && a.Valid() && a.Value() == old(a.Value() + b.Value()) && old(b.wei) <= a.wei
              && (old(b.arr[b.wei - 1]) != 0 ==> a.arr[a.wei - 1] != 0)
              && (old(a.Value() + b.Value()) < Pow(10, old(b.wei)) ==> a.wei == old(b.wei))
    ensures old(Order(a, b) != -1 && !Carries(a, b)) ==>
              a.Valid() && a.Value() == old(a.Value() + b.Value()) && a.wei == old(a.wei)
    ensures old(Order(a, b) != -1 && Carries(a, b)) ==>
              && a.wei == old(a.wei) + 1 <= |a.arr| && Digits(a.arr, old(a.wei))
              && (old(a.wei) < |old(a.arr)| ==> a.arr[old(a.wei)] == 1 + old(if a.wei < |a.arr| then a.arr[a.wei] else 0))
              && a.Value() == old(a.Value() + b.Value()) + a.arr[old(a.wei)] * Pow(10, old(a.wei)) - Pow(10, old(b.wei))
              && (a.Value() == old(a.Value() + b.Value()) <==> a.arr[old(a.wei)] == 1 && old(a.wei == b.wei))
    ensures grew <==> old(Order(a, b) == -1 && a.Value() + b.Value() >= Pow(10, b.wei) && RoomFor(a, b) == b.wei)
  {
    ghost var w, n := a.wei, b.wei;
    var flag := Prepare(a, b);
    ghost var v := a.Value() + b.Value();
    var s, top, next;
    s, top, next, grew := AddCells(a.arr, a.wei, b.arr, b.wei);
    CarryOnTop(s, top, next, n, v);
    if flag != -1 && next == 1 {
      CarryBelongs(s[top], w, n);
    }
    a.arr := s;
    a.wei := top + next;
  }

  /** Lines 275-288: make room, compare, and clear a's cells above its digits when b is larger. */
  method Prepare(a: BigNum, b: BigNum) returns (flag: int)
    requires a.Valid() && b.Valid()
    modifies a
    ensures a.Valid() && a.wei == old(a.wei) < |a.arr| && a.Value() == old(a.Value()) && b.Valid()
    ensures b.wei == old(b.wei) && b.Value() == old(b.Value()) && b.arr[b.wei - 1] == old(b.arr[b.wei - 1])
    ensures b.wei <= a.wei ==> Dec(a.arr, b.wei) == old(if b.wei <= a.wei then Dec(a.arr, b.wei) else 0)
    ensures flag == old(Order(a, b))
    ensures flag == -1 ==> |a.arr| == old(RoomFor(a, b)) && forall i :: a.wei <= i < |a.arr| ==> a.arr[i] == 0
    ensures flag == -1 ==> b.wei <= |a.arr| && a.wei <= b.wei && Dec(a.arr, b.wei) == a.Value()
    ensures flag != -1 ==> b.wei <= a.wei && old(a.arr) <= a.arr
  {
    ghost var s0 := a.arr;
    MakeRoom(a);
    flag := Compare(a, b);
    if flag == -1 {
      GrowAndClear(a, |b.arr|);
      DecFrame(s0, a.arr, a.wei);
      DecZeros(a.arr, a.wei, b.wei);
    }
    if b.wei <= a.wei {
      DecFrame(s0, a.arr, b.wei);
    }
  }

  method GrowAndClear(a: BigNum, n: nat)
    requires a.Valid()
    modifies a
    ensures a.wei == old(a.wei) && a.Valid() && |a.arr| == Doubled(|old(a.arr)|, n)
    ensures forall i :: 0 <= i < a.wei ==> a.arr[i] == old(a.arr[i])
    ensures forall i :: a.wei <= i < |a.arr| ==> a.arr[i] == 0
  {
    a.ExtendWhileBelow(n);
    var i := a.wei;
    while i < |a.arr|
      invariant a.wei == old(a.wei) <= i <= |a.arr| && |a.arr| == Doubled(|old(a.arr)|, n)
      invariant forall k :: 0 <= k < a.wei ==> a.arr[k] == old(a.arr[k])
      invariant forall k :: a.wei <= k < i ==> a.arr[k] == 0
    {
      a.arr := a.arr[i := 0];
      i := i + 1;
    }
  }

  /** What the digit loop leaves in the first `top` cells. */
  lemma Settle(s1: seq<int>, s: seq<int>, t: seq<int>, w: nat, n: nat, top: nat, carry: int)
    requires n <= |s1| == |s| && n <= |t| && w <= |s| && top == (if n > w then n else w)
    requires Digits(s1, w) && Digits(s, n)
    requires forall i :: w <= i < n ==> s1[i] == 0
    requires forall i :: n <= i < |s| ==> s[i] == s1[i]
    requires Dec(s, n) + carry == Dec(s1, n) + Dec(t, n)
    ensures Digits(s, top)
    ensures Dec(s, top) + carry == Dec(s1, w) + Dec(t, n)
  {
    if n > w {
      DecZeros(s1, w, n);
    } else {
      TailUnchanged(s1, s, n, w);
    }
  }

  lemma {:induction false} TailUnchanged(s: seq<int>, t: seq<int>, n: nat, w: nat)
    requires n <= w <= |s| && w <= |t| && forall i :: n <= i < w ==> s[i] == t[i]
    ensures Dec(t, w) - Dec(s, w) == Dec(t, n) - Dec(s, n)
    decreases w
  {
    if n < w {
      TailUnchanged(s, t, n, w - 1);
    }
  }

  // ----------------------------------------------------------- plain addition

  /** What big_num_add reads above the digits of the smaller operand: leftover cells, unless the
      buffer is so short that it is reallocated and cleared. */
  ghost function Leftover(small: BigNum, large: BigNum): int
    reads small, large
    requires small.Valid() && large.Valid() && small.wei <= large.wei
  {
    if |small.arr| < Room(large) then 0 else Dec(small.arr, large.wei) - small.Value()
  }

  ghost function LeftoverIn(x: BigNum, y: BigNum): int
    reads x, y
    requires x.Valid() && y.Valid()
  {
    if Order(x, y) == -1 then Leftover(x, y) else Leftover(y, x)
  }

  ghost predicate ReadsDigits(small: BigNum, large: BigNum)
    reads small, large
    requires small.Valid() && large.Valid() && small.wei <= large.wei
  {
    |small.arr| < Room(large) || Digits(small.arr, large.wei)
  }

  /** Leftover digits add nothing if and only if they are all zero or get cleared. */
  lemma LeftoverVanishes(small: BigNum, large: BigNum)
    requires small.Valid() && large.Valid() && small.wei <= large.wei && ReadsDigits(small, large)
    ensures Leftover(small, large) >= 0
    ensures Leftover(small, large) == 0 <==>
            |small.arr| < Room(large) || forall i :: small.wei <= i < large.wei ==> small.arr[i] == 0
  {
    if |small.arr| >= Room(large) {
      DigitsAbove(small.arr, small.wei, large.wei);
    }
  }

  lemma {:induction false} DigitsAbove(s: seq<int>, m: nat, n: nat)
    requires m <= n <= |s| && Digits(s, n)
    ensures Dec(s, m) <= Dec(s, n)
    ensures Dec(s, m) == Dec(s, n) <==> forall i :: m <= i < n ==> s[i] == 0
    decreases n
  {
    if m < n {
      DigitsAbove(s, m, n - 1);
      PowPositive(10, n - 1);
      MulNonNegative(s[n - 1], Pow(10, n - 1));
      if s[n - 1] != 0 {
        MulPositive(s[n - 1], Pow(10, n - 1));
      }
    }
  }

  /** big_num_add; it may reallocate both operands but keeps their values.  The answer is the sum
      plus whatever the leftover cells are worth, so it is exact if and only if they are worth
      nothing. */
  method Add(x: BigNum, y: BigNum) returns (res: BigNum)
    requires x.Valid() && y.Valid()
    modifies x, y
    ensures fresh(res) && 1 <= res.wei <= |res.arr|
    ensures res.Value() == old(x.Value() + y.Value() + LeftoverIn(x, y))
    ensures res.Value() == old(x.Value() + y.Value()) <==> old(LeftoverIn(x, y)) == 0
    ensures old(if Order(x, y) == -1 then ReadsDigits(x, y) else ReadsDigits(y, x)) ==>
              res.Valid() && (old(x.Normal() && y.Normal()) ==> res.Normal())
    ensures x.Valid() && y.Valid() && x.Value() == old(x.Value()) && y.Value() == old(y.Value())
  {
    var b1, b2 := x, y;
    var c := Compare(x, y);
    if c == -1 {
      b1, b2 := y, x;
    }
    res := AddOrdered(b1, b2);
  }

  method AddOrdered(b1: BigNum, b2: BigNum) returns (res: BigNum)
    requires b1.Valid() && b2.Valid() && b2.wei <= b1.wei
    modifies b1, b2
    ensures fresh(res) && 1 <= res.wei <= |res.arr|
    ensures res.Value() == old(b1.Value() + b2.Value() + Leftover(b2, b1))
    ensures old(ReadsDigits(b2, b1)) ==> res.Valid() && (old(b1.Normal()) ==> res.Normal())
    ensures b1.Valid() && b2.Valid() && b1.Value() == old(b1.Value()) && b2.Value() == old(b2.Value())
  {
    var t;
    res, t := Align(b1, b2);
    AddAligned(res, t);
  }

  /** Lines 231-247: copy the larger operand, and widen the smaller one to the cells t. */
  method Align(b1: BigNum, b2: BigNum) returns (res: BigNum, t: seq<int>)
    requires b1.Valid() && b2.Valid() && b2.wei <= b1.wei
    modifies b1, b2
    ensures fresh(res) && res.Valid() && res.wei < |res.arr| && res.wei <= |t|
    ensures res.Value() == old(b1.Value()) && (old(b1.Normal()) ==> res.Normal())
    ensures Dec(t, res.wei) == old(b2.Value() + Leftover(b2, b1))
    ensures old(ReadsDigits(b2, b1)) ==> Digits(t, res.wei)
    ensures b1.Valid() && b2.Valid() && b1.Value() == old(b1.Value()) && b2.Value() == old(b2.Value())
  {
    res := new BigNum.Zero();
    MakeRoom(b1);
    DecFrame(old(b2.arr), b2.arr, b2.wei);
    res.CopyFrom(b1);
    ghost var u := b2.arr;
    Widen(b2, |res.arr|, res.wei);
    t := b2.arr;
    DecFrame(u, t, b2.wei);
    if |u| < |res.arr| {
      DecZeros(t, b2.wei, res.wei);
    } else {
      DecFrame(u, t, res.wei);
    }
  }

  /** Lines 248-263: add t to res, digit by digit over res's digits. */
  method AddAligned(res: BigNum, t: seq<int>)
    requires res.Valid() && res.wei < |res.arr| && res.wei <= |t|
    modifies res
    ensures 1 <= res.wei <= |res.arr| && res.Value() == old(res.Value() + Dec(t, res.wei))
    ensures old(Digits(t, res.wei)) ==> res.Valid() && (old(res.Normal()) ==> res.Normal())
  {
    ghost var d := res.arr;
    var s, next := DigitLoop(res.arr, t, res.wei);
    res.arr := s;
    if next == 1 {
      res.arr := s[res.wei := 1];
      DecFrame(s, res.arr, res.wei);
      res.wei := res.wei + 1;
    } else if Digits(t, res.wei) && res.wei > 1 && d[res.wei - 1] != 0 {
      SumTop(d, t, s, res.wei);
    }
  }

  /** Lines 237-247: give b at least n cells; cells that were already there are left alone. */
  method Widen(b: BigNum, n: nat, m: nat)
    requires b.Valid() && b.wei <= m <= n
    modifies b
    ensures b.Valid() && b.wei == old(b.wei) && n < |b.arr|
    ensures forall i :: 0 <= i < b.wei ==> b.arr[i] == old(b.arr[i])
    ensures if |old(b.arr)| < n then forall i :: b.wei <= i < m ==> b.arr[i] == 0 else old(b.arr) <= b.arr
  {
    if |b.arr| < n {
      var junk := Uninitialised(n - |b.arr|);
      b.arr := b.arr + junk;
      GrowAndClear(b, 0);
    }
    b.ExtendWhileBelow(n + 1);
  }

  /** A sum without carry keeps the larger operand's top digit nonzero. */
  lemma SumTop(d: seq<int>, t: seq<int>, s: seq<int>, n: nat)
    requires 0 < n <= |d| && n <= |t| && n <= |s| && Digits(d, n) && Digits(t, n) && Digits(s, n)
    requires d[n - 1] != 0 && Dec(s, n) == Dec(d, n) + Dec(t, n)
    ensures s[n - 1] != 0
  {
    DecBound(t, n);
    assert Pow(10, n - 1) <= Dec(d, n) by { TopDigit(d, n); }
    if s[n - 1] == 0 {
      DecBound(s, n - 1);
      ZeroTop(s, n);
    }
  }

  lemma ZeroTop(s: seq<int>, n: nat)
    requires 0 < n <= |s| && s[n - 1] == 0
    ensures Dec(s, n) == Dec(s, n - 1)
  {
  }

  // ------------------------------------------------------- long multiplication

  /** The row w * b1 * 10^i, lines 384-388. */
  method Row(b1: BigNum, w: int, i: nat) returns (row: BigNum)
    requires b1.Normal() && 0 <= w <= 9
    ensures fresh(row) && row.Valid() && row.Value() == b1.Value() * w * Pow(10, i)
    ensures w == 0 ==> row.wei == 1 + i && row.Value() == 0
    ensures w != 0 && b1.Value() != 0 ==> b1.wei + i <= row.wei && row.arr[row.wei - 1] != 0
    ensures row.wei <= b1.wei + 1 + i && |row.arr| >= |b1.arr|
  {
    row := new BigNum.Zero();
    row.CopyFrom(b1);
    row.MultiplyByDigit(w);
    ghost var v := row.Value();
    if w != 0 && b1.Value() != 0 {
      MulNonZero(b1.Value(), w);
      NonZeroTop(row);
    }
    row.AppendZeros(i);
    if w == 0 {
      assert b1.Value() * 0 == 0 && 0 * Pow(10, i) == 0;
    }
  }

  lemma MulNonZero(a: int, b: int)
    requires a != 0 && b != 0
    ensures a * b != 0
  {
  }

  lemma NonZeroTop(x: BigNum)
    requires x.Normal() && x.Value() != 0
    ensures x.arr[x.wei - 1] != 0
  {
    if x.wei == 1 {
      assert Dec(x.arr, 0) == 0;
    }
  }

  /** The partial sum after i rows: exact, short enough for the next row, and without a leading
      zero when the last row was not zero. */
  ghost predicate Partial(res: BigNum, v1: int, w1: nat, digits: seq<int>, i: nat)
    reads res
    requires i <= |digits|
  {
    && res.Valid()
    && res.Value() == v1 * Dec(digits, i)
    && res.wei <= w1 + i
    && (i > 0 && digits[i - 1] != 0 ==> res.arr[res.wei - 1] != 0)
    && (i == 0 || (i == 1 && digits[0] == 0) ==> res.wei == 1)
  }

  /** The partial sum is below b1 * 10^i, hence below every nonzero row, and compares so. */
  lemma RowIsLarger(res: BigNum, row: BigNum, v1: int, w1: nat, digits: seq<int>, i: nat, w: int)
    requires i < |digits| && Digits(digits, i) && 0 < v1 && 1 <= w && Partial(res, v1, w1, digits, i)
    requires row.Valid() && row.Value() == v1 * w * Pow(10, i) && w1 + i <= row.wei
    ensures Order(res, row) == -1
  {
    DecBound(digits, i);
    MulMonotone(v1, Dec(digits, i), Pow(10, i) - 1);
    MulMonotone(v1, 1, w);
    PowPositive(10, i);
    MulMonotone(Pow(10, i), v1, v1 * w);
    assert v1 * (Pow(10, i) - 1) == v1 * Pow(10, i) - v1;
  }

  lemma NextPartial(v1: int, digits: seq<int>, i: nat)
    requires i < |digits|
    ensures v1 * Dec(digits, i + 1) == v1 * Dec(digits, i) + v1 * digits[i] * Pow(10, i)
  {
    var d, w := digits[i], Pow(10, i);
    assert v1 * (Dec(digits, i) + d * w) == v1 * Dec(digits, i) + v1 * (d * w);
    MulAssociative(v1, d, w);
  }

  lemma ProductWidth(v1: int, w1: nat, digits: seq<int>, i: nat)
    requires i <= |digits| && Digits(digits, i) && 0 <= v1 < Pow(10, w1)
    ensures v1 * Dec(digits, i) < Pow(10, w1 + i)
  {
    DecBound(digits, i);
    PowAdd(10, w1, i);
    MulMonotone(v1, Dec(digits, i), Pow(10, i));
    MulMonotone(Pow(10, i), v1, Pow(10, w1) - 1);
    assert (Pow(10, w1) - 1) * Pow(10, i) == Pow(10, w1) * Pow(10, i) - Pow(10, i);
  }

  /** A row of zeros makes no carry. */
  lemma ZeroRow(res: BigNum, row: BigNum)
    requires res.Valid() && row.Valid() && row.Value() == 0
    ensures row.wei <= res.wei ==> !Carries(res, row)
    ensures res.wei <= row.wei ==> res.Value() < Pow(10, row.wei)
  {
    if row.wei <= res.wei {
      DecBound(res.arr, row.wei);
    } else {
      DecBound(res.arr, res.wei);
      PowMonotone(10, res.wei, row.wei);
    }
  }

  method AddRow(res: BigNum, b1: BigNum, digits: seq<int>, i: nat) returns (grew: bool)
    requires res != b1 && b1.Normal() && i < |digits| && Digits(digits, |digits|)
    requires Partial(res, b1.Value(), b1.wei, digits, i)
    requires b1.Value() == 0 ==> i == 0 && digits[0] == 0
    modifies res
    ensures Partial(res, b1.Value(), b1.wei, digits, i + 1)
    ensures |b1.arr| > b1.wei + 1 + i ==> !grew
  {
    ghost var v1, w1 := b1.Value(), b1.wei;
    var w := digits[i];
    DecBound(b1.arr, w1);
    var row := Row(b1, w, i);
    NextPartial(v1, digits, i);
    ProductWidth(v1, w1, digits, i + 1);
    if w == 0 {
      ZeroRow(res, row);
      grew := AddInto(res, row);
    } else {
      RowIsLarger(res, row, v1, w1, digits, i, w);
      grew := AddInto(res, row);
      DigitCount(res.arr, res.wei, w1 + i + 1);
    }
  }

  /** big_num_multi: the exact product, without a leading zero.  `grew` tells that some carry was
      written past the end of the buffer; a larger operand with enough spare cells prevents it. */
  method Multiply(x: BigNum, y: BigNum) returns (res: BigNum, grew: bool)
    requires x.Normal() && y.Normal()
    ensures fresh(res) && res.Normal() && res.Value() == x.Value() * y.Value()
    ensures (if Order(x, y) == -1 then |y.arr| else |x.arr|) > x.wei + y.wei ==> !grew
  {
    var b1, b2 := x, y;
    var c := Compare(b1, b2);
    if c == -1 {
      b1, b2 := y, x;
    }
    res, grew := MultiplyOrdered(b1, b2);
  }

  /** Lines 382-390: one row for every digit of the smaller operand. */
  method MultiplyOrdered(b1: BigNum, b2: BigNum) returns (res: BigNum, grew: bool)
    requires b1.Normal() && b2.Normal() && b2.Value() <= b1.Value()
    ensures fresh(res) && res.Normal() && res.Value() == b1.Value() * b2.Value()
    ensures |b1.arr| > b1.wei + b2.wei ==> !grew
  {
    res := new BigNum.Zero();
    grew := false;
    if b1.Value() == 0 {
      DecBound(b2.arr, b2.wei);
      ZeroIsOneDigit(b2);
    }
    var digits := b2.arr[..b2.wei];
    DecFrame(digits, b2.arr, b2.wei);
    assert b1.Value() * Dec(digits, 0) == 0;
    var i := 0;
    while i < b2.wei
      invariant 0 <= i <= b2.wei && fresh(res)
      invariant Partial(res, b1.Value(), b1.wei, digits, i)
      invariant |b1.arr| > b1.wei + b2.wei ==> !grew
      modifies res
    {
      var g := AddRow(res, b1, digits, i);
      grew := grew || g;
      i := i + 1;
    }
  }

  lemma ZeroIsOneDigit(x: BigNum)
    requires x.Normal() && x.Value() == 0
    ensures x.wei == 1 && x.arr[0] == 0
  {
    if x.arr[x.wei - 1] != 0 {
      PowPositive(10, x.wei - 1);
      TopDigit(x.arr, x.wei);
    }
  }

  // ------------------------------------------------------------- factorial

  /** count_int_bit */
  method CountDigits(m: nat) returns (n: nat)
    ensures n >= 1 && m < Pow(10, n) && (n > 1 ==> Pow(10, n - 1) <= m)
  {
    n := 1;
    var k := m / 10;
    assert Pow(10, 1) == 10 && Pow(10, 0) == 1;
    while k > 0
      invariant n >= 1 && k >= 0
      invariant k * Pow(10, n) <= m < (k + 1) * Pow(10, n)
      invariant n > 1 ==> Pow(10, n - 1) <= m
      decreases k
    {
      var q := k / 10;
      PowPositive(10, n);
      CountStep(k, q, m, Pow(10, n));
      n := n + 1;
      k := q;
    }
  }

  lemma CountStep(k: int, q: int, m: int, w: int)
    requires k > 0 && q == k / 10 && 0 < w && k * w <= m < (k + 1) * w
    ensures w <= m && q * (10 * w) <= m < (q + 1) * (10 * w) && 0 <= q < k
  {
    MulMonotone(w, 1, k);
    MulMonotone(w, 10 * q, k);
    MulMonotone(w, k + 1, 10 * (q + 1));
    assert (10 * q) * w == q * (10 * w) && (10 * (q + 1)) * w == (q + 1) * (10 * w);
  }

  /** The digit of 10^i in m. */
  function DigitAt(m: nat, i: nat): int {
    PowPositive(10, i);
    PowPositive(10, i + 1);
    (m % Pow(10, i + 1)) / Pow(10, i)
  }

  lemma DigitOf(m: nat, i: nat)
    ensures 0 < Pow(10, i) && 0 < Pow(10, i + 1) && 0 <= DigitAt(m, i) <= 9
    ensures m % Pow(10, i + 1) == m % Pow(10, i) + DigitAt(m, i) * Pow(10, i)
  {
    PowPositive(10, i);
    PowPositive(10, i + 1);
    SplitDigit(m, Pow(10, i));
  }

  lemma SplitDigit(m: int, w: int)
    requires 0 < w
    ensures 0 <= (m % (10 * w)) / w <= 9
    ensures m % (10 * w) == m % w + ((m % (10 * w)) / w) * w
  {
    var a, b := m % (10 * w), m / (10 * w);
    var d, r := a / w, a % w;
    assert a == w * d + r;
    assert m == (10 * w) * b + a;
    if d >= 10 { MulMonotone(w, 10, d); }
    if d < 0 { MulMonotone(w, d, -1); }
    Regroup(w, b, d, r);
    DivModUnique(m, w, 10 * b + d, r);
  }

  lemma Regroup(w: int, b: int, d: int, r: int)
    ensures (10 * w) * b + (w * d + r) == (10 * b + d) * w + r
    ensures w * d == d * w
  {
    assert (10 * b + d) * w == (10 * b) * w + d * w;
    assert (10 * b) * w == (10 * w) * b;
  }

  /** my_pow on C ints, which wrap around. */
  method MyPow(n: int, m: nat) returns (res: int)
    requires -0x8000_0000 <= n <= MAX_INT
    ensures res == IntPow(n, m)
  {
    if m == 0 {
      return 1;
    }
    NoWrap32(n);
    assert IntPow(n, 0) == 1;
    res := n;
    var i := 1;
    while i < m
      invariant 1 <= i <= m && res == IntPow(n, i)
    {
      res := Wrap32(res * n);
      i := i + 1;
    }
  }

  function IntPow(n: int, m: nat): int {
    if m == 0 then 1 else Wrap32(IntPow(n, m - 1) * n)
  }

  /** What 10^10 becomes in a C int. */
  const WRAPPED_TEN_TEN: int := 1_410_065_408

  /** Powers of ten fit an int up to 10^9. */
  lemma PowersOfTen()
    ensures Pow(10, 9) == 1_000_000_000
    ensures forall i: nat :: i <= 9 ==> IntPow(10, i) == Pow(10, i)
    ensures IntPow(10, 10) == WRAPPED_TEN_TEN
  {
    assert Pow(10, 0) == 1 && Pow(10, 3) == 1000;
    PowAdd(10, 3, 3);
    PowAdd(10, 6, 3);
    forall i: nat | i <= 9
      ensures IntPow(10, i) == Pow(10, i)
    {
      SmallPower(i);
    }
    SmallPower(9);
    DivModUnique(10_000_000_000 + 0x8000_0000, TWO_32, 2, WRAPPED_TEN_TEN + 0x8000_0000);
  }

  lemma {:induction false} SmallPower(i: nat)
    requires i <= 9 && Pow(10, 9) == 1_000_000_000
    ensures IntPow(10, i) == Pow(10, i)
    decreases i
  {
    if i > 0 {
      SmallPower(i - 1);
      PowMonotone(10, i, 9);
      NoWrap32(Pow(10, i));
    }
  }

  /** Line 86: the digit of 10^i, except that the tenth digit of a large int is lost. */
  method IntDigit(m: nat, i: nat) returns (dig: int)
    requires m <= MAX_INT && i <= 9 && (i == 9 ==> m >= 1_000_000_000)
    ensures dig == if i == 9 && m >= WRAPPED_TEN_TEN then 0 else DigitAt(m, i)
  {
    PowersOfTen();
    PowPositive(10, i);
    var hi := MyPow(10, i + 1);
    var lo := MyPow(10, i);
    if i == 9 {
      TenthDigit(m);
    } else {
      PowPositive(10, i + 1);
    }
    dig := (m % hi) / lo;
  }

  lemma TenthDigit(m: nat)
    requires 1_000_000_000 <= m <= MAX_INT && Pow(10, 9) == 1_000_000_000
    ensures (m % WRAPPED_TEN_TEN) / 1_000_000_000 == if m >= WRAPPED_TEN_TEN then 0 else DigitAt(m, 9)
  {
    assert Pow(10, 10) == 10_000_000_000;
    DivModUnique(m, Pow(10, 10), 0, m);
    if m < WRAPPED_TEN_TEN {
      DivModUnique(m, WRAPPED_TEN_TEN, 0, m);
    } else {
      DivModUnique(m, WRAPPED_TEN_TEN, 1, m - WRAPPED_TEN_TEN);
    }
  }

  /** What int_to_big_num makes of an int: the number itself below 1410065408, where 10^10 wraps
      to; above, the number without its tenth digit; of a negative one, its last digit. */
  function Converted(m: int): int {
    if m < 0 then 0 - (0 - m) % 10 else if m < WRAPPED_TEN_TEN then m else m % 1_000_000_000
  }

  /** int_to_big_num, for every int. */
  method FromInt(m: int) returns (res: BigNum)
    requires -0x8000_0000 <= m <= MAX_INT
    ensures fresh(res) && 1 <= res.wei <= |res.arr| == Doubled(2, res.wei) && res.Value() == Converted(m)
    ensures res.Value() == m <==> -10 < m < WRAPPED_TEN_TEN
    ensures m >= 0 ==> res.Valid() && m < Pow(10, res.wei) && (res.wei > 1 ==> Pow(10, res.wei - 1) <= m)
    ensures 0 <= m < WRAPPED_TEN_TEN ==> res.Normal() && forall i :: 0 <= i < res.wei ==> res.arr[i] == DigitAt(m, i)
  {
    if m < 0 {
      res := new BigNum.Zero();
      var ten := MyPow(10, 1);
      var one := MyPow(10, 0);
      PowersOfTen();
      assert Pow(10, 0) == 1 && Pow(10, 1) == 10 && one == 1 && ten == 10;
      res.arr := res.arr[0 := 0 - ((0 - m) % ten) / one];
      assert Dec(res.arr, 0) == 0;
    } else {
      res := FromNat(m);
    }
  }

  method FromNat(m: nat) returns (res: BigNum)
    requires m <= MAX_INT
    ensures fresh(res) && res.Valid() && |res.arr| == Doubled(2, res.wei) && res.Value() == Converted(m)
    ensures m < Pow(10, res.wei) && (res.wei > 1 ==> Pow(10, res.wei - 1) <= m)
    ensures m < WRAPPED_TEN_TEN ==> res.Normal() && forall i :: 0 <= i < res.wei ==> res.arr[i] == DigitAt(m, i)
  {
    var n := CountDigits(m);
    AtMostTen(m, n);
    res := new BigNum.Zero();
    res.ExtendWhileBelow(n);
    assert Pow(10, 0) == 1;
    var i := 0;
    while i < n
      invariant 0 <= i <= n <= |res.arr| == Doubled(2, n) && fresh(res) && Digits(res.arr, i)
      invariant forall k :: 0 <= k < i ==> res.arr[k] == if k == 9 && m >= WRAPPED_TEN_TEN then 0 else DigitAt(m, k)
      modifies res
    {
      DigitOf(m, i);
      var dig := IntDigit(m, i);
      res.arr := res.arr[i := dig];
      i := i + 1;
    }
    res.wei := n;
    WrittenDigits(m, res.arr, n);
  }

  lemma AtMostTen(m: nat, n: nat)
    requires m <= MAX_INT && n >= 1 && m < Pow(10, n) && (n > 1 ==> Pow(10, n - 1) <= m)
    ensures n <= 10 && (m >= 1_000_000_000 <==> n == 10)
  {
    PowersOfTen();
    if n > 10 {
      PowMonotone(10, 10, n - 1);
    } else if n < 10 {
      PowMonotone(10, n, 9);
    }
  }

  lemma WrittenDigits(m: nat, s: seq<int>, n: nat)
    requires m <= MAX_INT && 1 <= n <= |s| && m < Pow(10, n) && (n > 1 ==> Pow(10, n - 1) <= m) && Digits(s, n)
    requires forall k :: 0 <= k < n ==> s[k] == if k == 9 && m >= WRAPPED_TEN_TEN then 0 else DigitAt(m, k)
    ensures Dec(s, n) == Converted(m)
    ensures m < WRAPPED_TEN_TEN && n > 1 ==> s[n - 1] != 0
  {
    AtMostTen(m, n);
    if m < WRAPPED_TEN_TEN {
      DigitsAddUp(m, s, n);
      DivModUnique(m, Pow(10, n), 0, m);
      if n > 1 && s[n - 1] == 0 {
        TopDigit(s, n);
      }
    } else {
      PowersOfTen();
      DigitsAddUp(m, s, 9);
      ZeroTop(s, 10);
    }
  }

  lemma {:induction false} DigitsAddUp(m: nat, s: seq<int>, n: nat)
    requires n <= |s| && forall k :: 0 <= k < n ==> s[k] == DigitAt(m, k)
    ensures 0 < Pow(10, n) && Dec(s, n) == m % Pow(10, n)
    decreases n
  {
    PowPositive(10, n);
    if n > 0 {
      DigitsAddUp(m, s, n - 1);
      DigitOf(m, n - 1);
    }
  }

  function Factorial(n: nat): nat {
    if n == 0 then 1 else n * Factorial(n - 1)
  }

  lemma FactorialStep(w: int, v: int, i: nat)
    requires i > 0 && v == Factorial(i - 1) && w == v * i
    ensures w == Factorial(i)
  {
  }

  /** factorial, for every n that int_to_big_num converts; a negative argument leaves the initial 1. */
  method ComputeFactorial(n: int) returns (res: BigNum)
    requires n < WRAPPED_TEN_TEN
    ensures fresh(res) && res.Normal() && res.Value() == Factorial(if n < 0 then 0 else n)
  {
    res := new BigNum.Zero();
    res.arr := res.arr[0 := 1];
    assert Dec(res.arr, 0) == 0 && Pow(10, 0) == 1;
    var i := 1;
    while i <= n
      invariant 1 <= i && i <= (if n < 1 then 1 else n + 1) && fresh(res)
      invariant res.Normal() && res.Value() == Factorial(i - 1)
    {
      var f := FromInt(i);
      ghost var v := res.Value();
      var grew;
      res, grew := Multiply(res, f);
      FactorialStep(res.Value(), v, i);
      i := i + 1;
    }
  }

  // ------------------------------------------------------- where it goes wrong

  lemma FourDigits(s: seq<int>)
    requires |s| >= 4
    ensures Pow(10, 0) == 1 && Pow(10, 1) == 10 && Pow(10, 2) == 100 && Pow(10, 3) == 1000 && Pow(10, 4) == 10000
    ensures Dec(s, 1) == s[0] && Dec(s, 3) == s[0] + 10 * s[1] + 100 * s[2] && Dec(s, 4) == Dec(s, 3) + 1000 * s[3]
  {
    assert Pow(10, 0) == 1;
    assert Dec(s, 0) == 0;
    assert Dec(s, 2) == s[0] + s[1] * 10;
  }

  lemma DigitsOf(m: nat, k: nat, n: nat)
    requires k >= 1 && n >= 1 && m < Pow(10, k) && m < Pow(10, n)
    requires (k > 1 ==> Pow(10, k - 1) <= m) && (n > 1 ==> Pow(10, n - 1) <= m)
    ensures k == n
  {
    if k < n {
      PowMonotone(10, k, n - 1);
    } else if n < k {
      PowMonotone(10, n, k - 1);
    }
  }

  /** 12345678 times 0 leaves its old digits in place; added to 1000 they make 6670. */
  method LeftoverExample() returns (res: BigNum)
    ensures fresh(res) && res.wei <= |res.arr| && res.Value() == 6670
  {
    var x := FromInt(12345678);
    assert Pow(10, 4) == 10000 && Pow(10, 7) == 10000000 && Pow(10, 8) == 100000000 && Pow(10, 3) == 1000;
    DigitsOf(12345678, x.wei, 8);
    assert DigitAt(12345678, 1) == 7 && DigitAt(12345678, 2) == 6 && DigitAt(12345678, 3) == 5;
    x.MultiplyByDigit(0);
    var y := FromInt(1000);
    DigitsOf(1000, y.wei, 4);
    assert |x.arr| == 8 && |y.arr| == 4;
    FourDigits(x.arr);
    res := Add(x, y);
  }

  /** 999 += 1 makes 1990. */
  method DroppedCarryExample() returns (a: BigNum)
    ensures fresh(a) && a.wei <= |a.arr| && a.Value() == 1990
  {
    var x := FromInt(999);
    assert Pow(10, 2) == 100 && Pow(10, 3) == 1000;
    DigitsOf(999, x.wei, 3);
    a := new BigNum.Zero();
    a.CopyFrom(x);
    var one := FromInt(1);
    assert Pow(10, 0) == 1 && Pow(10, 1) == 10;
    DigitsOf(1, one.wei, 1);
    FourDigits(a.arr);
    assert DigitAt(999, 0) == 9;
    var grew := AddInto(a, one);
  }

  /** The second row of 111 * 99: 999 += 9990 writes its carry past the last of four cells. */
  method WriteBeyondExample() returns (a: BigNum, grew: bool)
    ensures fresh(a) && grew && a.wei <= |a.arr| && a.Value() == 10989
  {
    a := FromInt(999);
    var row := FromInt(9990);
    assert Pow(10, 2) == 100 && Pow(10, 3) == 1000 && Pow(10, 4) == 10000;
    DigitsOf(999, a.wei, 3);
    DigitsOf(9990, row.wei, 4);
    assert Doubled(2, 3) == 4 && Doubled(2, 4) == 4;
    grew := AddInto(a, row);
  }
}
