/** The cipher of cpp/algorithm/3des.c as functions on bit strings, for any set of tables of
    the right shape: permutation, key schedule, round function, rounds, byte and hex coding. */
module FeistelSpec {
  import opened Arithmetic

  type Bits = seq<bool>

  /** A table, in rows of eight entries; entries count from 1. */
  type Table = seq<seq<nat>>

  // -------------------------------------------------------------------- tables

  predicate Rows(t: Table, n: nat) {
    |t| == n && forall r :: 0 <= r < n ==> |t[r]| == 8
  }

  /** n rows that select from m positions. */
  predicate Selects(t: Table, n: nat, m: nat) {
    Rows(t, n) && forall r, c :: 0 <= r < n && 0 <= c < 8 ==> 1 <= t[r][c] <= m
  }

  function At(t: Table, i: nat): nat
    requires Rows(t, |t|) && i < 8 * |t|
  {
    t[i / 8][i % 8]
  }

  /** tbl_replace */
  function Permute(x: Bits, t: Table): (y: Bits)
    requires Selects(t, |t|, |x|)
    ensures |y| == 8 * |t|
  {
    seq(8 * |t|, i requires 0 <= i < 8 * |t| => x[At(t, i) - 1])
  }

  /** Table b sends position i to where table a took it from. */
  predicate Undoes(a: Table, b: Table, i: nat)
    requires Selects(a, 8, 64) && Selects(b, 8, 64) && i < 64
  {
    At(a, At(b, i) - 1) == i + 1
  }

  predicate Inverse(a: Table, b: Table) {
    && Selects(a, 8, 64) && Selects(b, 8, 64)
    && forall i :: 0 <= i < 64 ==> Undoes(a, b, i)
  }

  lemma PermuteInverse(x: Bits, a: Table, b: Table)
    requires |x| == 64 && Inverse(a, b)
    ensures Permute(Permute(x, a), b) == x
  {
    var y := Permute(x, a);
    forall i | 0 <= i < 64
      ensures Permute(y, b)[i] == x[i]
    {
      assert Undoes(a, b, i);
      assert y[At(b, i) - 1] == x[At(a, At(b, i) - 1) - 1];
    }
  }

  function PrefixSum(shifts: seq<nat>, n: nat): nat
    requires n <= |shifts|
  {
    if n == 0 then 0 else PrefixSum(shifts, n - 1) + shifts[n - 1]
  }

  datatype Tables = Tables(ip: Table, ipr: Table, e: Table, p: Table, pc1: Table, pc2: Table,
                           shifts: seq<nat>, sbox: seq<seq<seq<nat>>>)
  {
    predicate WellFormed() {
      && Inverse(ip, ipr) && Inverse(ipr, ip)
      && Selects(e, 6, 32) && Selects(p, 4, 32) && Selects(pc1, 7, 64) && Selects(pc2, 6, 56)
      && |shifts| == 16 && PrefixSum(shifts, 16) == 28
      && |sbox| == 8 && (forall b :: 0 <= b < 8 ==> |sbox[b]| == 4 && forall r :: 0 <= r < 4 ==> |sbox[b][r]| == 16)
    }
  }

  // ------------------------------------------------------------- bit operations

  function Xor(x: Bits, y: Bits): (z: Bits)
    ensures |z| == |y|
  {
    seq(|y|, i requires 0 <= i < |y| => if i < |x| then x[i] != y[i] else y[i])
  }

  function Complement(x: Bits): (y: Bits)
    ensures |y| == |x|
  {
    seq(|x|, i requires 0 <= i < |x| => !x[i])
  }

  /** loop_bit: rotate left by k. */
  function Rotate(x: Bits, k: nat): (y: Bits)
    requires k <= |x|
    ensures |y| == |x|
  {
    x[k..] + x[..k]
  }

  lemma RotateRotate(x: Bits, a: nat, b: nat)
    requires a + b <= |x|
    ensures Rotate(Rotate(x, a), b) == Rotate(x, a + b)
  {
  }

  function Digit(b: bool): nat {
    if b then 1 else 0
  }

  // ----------------------------------------------------------------- key schedule

  function KeyStart(t: Tables, key: Bits): (Bits, Bits)
    requires t.WellFormed() && |key| == 64
  {
    (Permute(key, t.pc1)[..28], Permute(key, t.pc1)[28..])
  }

  /** The key halves after n rounds of rotation. */
  function Halves(t: Tables, key: Bits, n: nat): (h: (Bits, Bits))
    requires t.WellFormed() && |key| == 64 && n <= 16
    ensures |h.0| == 28 && |h.1| == 28
  {
    if n == 0 then KeyStart(t, key)
    else
      PrefixMonotone(t.shifts, n, 16);
      var h := Halves(t, key, n - 1);
      (Rotate(h.0, t.shifts[n - 1]), Rotate(h.1, t.shifts[n - 1]))
  }

  lemma {:induction false} PrefixMonotone(shifts: seq<nat>, m: nat, n: nat)
    requires m <= n <= |shifts|
    ensures PrefixSum(shifts, m) <= PrefixSum(shifts, n)
    ensures 0 < m ==> shifts[m - 1] <= PrefixSum(shifts, n)
    decreases n
  {
    if m < n {
      PrefixMonotone(shifts, m, n - 1);
    }
  }

  /** The subkey of round n, counted from 0. */
  function SubKey(t: Tables, key: Bits, n: nat): (k: Bits)
    requires t.WellFormed() && |key| == 64 && n < 16
    ensures |k| == 48
  {
    var h := Halves(t, key, n + 1);
    Permute(h.0 + h.1, t.pc2)
  }

  function Schedule(t: Tables, key: Bits): (ks: seq<Bits>)
    requires t.WellFormed() && |key| == 64
    ensures |ks| == 16 && forall i :: 0 <= i < 16 ==> |ks[i]| == 48
  {
    seq(16, n requires 0 <= n < 16 => SubKey(t, key, n))
  }

  /** The halves in round n are the starting halves rotated by the sum of the shifts so far. */
  lemma {:induction false} HalvesAreRotations(t: Tables, key: Bits, n: nat)
    requires t.WellFormed() && |key| == 64 && n <= 16
    ensures PrefixSum(t.shifts, n) <= 28
    ensures Halves(t, key, n) == (Rotate(KeyStart(t, key).0, PrefixSum(t.shifts, n)),
                                  Rotate(KeyStart(t, key).1, PrefixSum(t.shifts, n)))
    decreases n
  {
    PrefixMonotone(t.shifts, n, 16);
    var s := KeyStart(t, key);
    if n == 0 {
      assert Rotate(s.0, 0) == s.0 && Rotate(s.1, 0) == s.1;
    } else {
      HalvesAreRotations(t, key, n - 1);
      RotateRotate(s.0, PrefixSum(t.shifts, n - 1), t.shifts[n - 1]);
      RotateRotate(s.1, PrefixSum(t.shifts, n - 1), t.shifts[n - 1]);
    }
  }

  /** After round 16 the halves are back where they started. */
  lemma HalvesReturn(t: Tables, key: Bits)
    requires t.WellFormed() && |key| == 64
    ensures Halves(t, key, 16) == KeyStart(t, key)
  {
    HalvesAreRotations(t, key, 16);
    var s := KeyStart(t, key);
    assert Rotate(s.0, 28) == s.0 && Rotate(s.1, 28) == s.1;
  }

  lemma RotateAt(x: Bits, k: nat, i: nat)
    requires k <= |x| == 28 && i < 28
    ensures Rotate(x, k)[i] == x[(i + k) % 28]
  {
    if i + k < 28 {
      DivModUnique(i + k, 28, 0, i + k);
    } else {
      DivModUnique(i + k, 28, 1, i + k - 28);
    }
  }

  /** Where bit p of the joined halves comes from after n rotations of each half. */
  function RotatedFrom(p: nat, s: nat): (q: nat)
    requires p < 56
    ensures q < 56
  {
    if p < 28 then (p + s) % 28 else 28 + (p - 28 + s) % 28
  }

  /** Bit i of the subkey of round n is a bit of the key itself: PC2 chooses a place in the joined
      halves, the shifts of rounds 0 to n move it round its half, and PC1 names the key bit. */
  lemma SubKeyBit(t: Tables, key: Bits, n: nat, i: nat)
    requires t.WellFormed() && |key| == 64 && n < 16 && i < 48
    ensures SubKey(t, key, n)[i] == key[At(t.pc1, RotatedFrom(At(t.pc2, i) - 1, PrefixSum(t.shifts, n + 1))) - 1]
  {
    var p, s := At(t.pc2, i) - 1, PrefixSum(t.shifts, n + 1);
    var x := Permute(key, t.pc1);
    HalvesAreRotations(t, key, n + 1);
    if p < 28 {
      RotateAt(x[..28], s, p);
    } else {
      RotateAt(x[28..], s, p - 28);
    }
    assert SubKey(t, key, n)[i] == x[RotatedFrom(p, s)];
  }

  /** The last subkey is chosen from the halves as they started. */
  lemma LastSubKey(t: Tables, key: Bits)
    requires t.WellFormed() && |key| == 64
    ensures SubKey(t, key, 15) == Permute(Permute(key, t.pc1), t.pc2)
  {
    HalvesReturn(t, key);
    var x := Permute(key, t.pc1);
    assert x[..28] + x[28..] == x;
  }

  // -------------------------------------------------------------- round function

  function SRow(x: Bits, g: nat): nat
    requires |x| == 48 && g < 8
  {
    Digit(x[6 * g]) * 2 + Digit(x[6 * g + 5])
  }

  function SColumn(x: Bits, g: nat): nat
    requires |x| == 48 && g < 8
  {
    Digit(x[6 * g + 1]) * 8 + Digit(x[6 * g + 2]) * 4 + Digit(x[6 * g + 3]) * 2 + Digit(x[6 * g + 4])
  }

  /** s_change */
  function Substitute(t: Tables, x: Bits): (y: Bits)
    requires t.WellFormed() && |x| == 48
    ensures |y| == 32
  {
    seq(32, i requires 0 <= i < 32 => BitOf(t.sbox[i / 4][SRow(x, i / 4)][SColumn(x, i / 4)], i % 4))
  }

  /** f_change */
  function F(t: Tables, r: Bits, k: Bits): (y: Bits)
    requires t.WellFormed() && |r| == 32 && |k| == 48
    ensures |y| == 32
  {
    Permute(Substitute(t, Xor(Permute(r, t.e), k)), t.p)
  }

  // ---------------------------------------------------------------------- rounds

  /** A Feistel round and its inverse, for an arbitrary round function f. */
  function Round(f: (Bits, Bits) -> Bits, b: (Bits, Bits), k: Bits): (Bits, Bits) {
    (b.1, Xor(f(b.1, k), b.0))
  }

  function Unround(f: (Bits, Bits) -> Bits, b: (Bits, Bits), k: Bits): (Bits, Bits) {
    (Xor(f(b.0, k), b.1), b.0)
  }

  function Rounds(f: (Bits, Bits) -> Bits, b: (Bits, Bits), ks: seq<Bits>, n: nat): (Bits, Bits)
    requires n <= |ks|
  {
    if n == 0 then b else Round(f, Rounds(f, b, ks, n - 1), ks[n - 1])
  }

  /** The inverse rounds with keys n - 1, ..., 0. */
  function Unrounds(f: (Bits, Bits) -> Bits, b: (Bits, Bits), ks: seq<Bits>, n: nat): (Bits, Bits)
    requires n <= |ks|
    decreases n
  {
    if n == 0 then b else Unrounds(f, Unround(f, b, ks[n - 1]), ks, n - 1)
  }

  lemma UnroundRound(f: (Bits, Bits) -> Bits, b: (Bits, Bits), k: Bits)
    ensures Unround(f, Round(f, b, k), k) == b
  {
    assert Xor(f(b.1, k), Xor(f(b.1, k), b.0)) == b.0;
  }

  /** Any number of rounds is undone by the inverse rounds in reverse order, whatever the
      round function and the keys are. */
  lemma {:induction false} UnroundsRounds(f: (Bits, Bits) -> Bits, b: (Bits, Bits), ks: seq<Bits>, n: nat)
    requires n <= |ks|
    ensures Unrounds(f, Rounds(f, b, ks, n), ks, n) == b
    decreases n
  {
    if n > 0 {
      UnroundRound(f, Rounds(f, b, ks, n - 1), ks[n - 1]);
      UnroundsRounds(f, b, ks, n - 1);
    }
  }

  /** F made total, so that it can be passed as a round function. */
  function RoundFunction(t: Tables): (Bits, Bits) -> Bits
    requires t.WellFormed()
  {
    (r, k) => if |r| == 32 && |k| == 48 then F(t, r, k) else []
  }

  predicate GoodKeys(ks: seq<Bits>) {
    |ks| == 16 && forall i :: 0 <= i < 16 ==> |ks[i]| == 48
  }

  lemma {:induction false} RoundLengths(t: Tables, b: (Bits, Bits), ks: seq<Bits>, n: nat)
    requires t.WellFormed() && GoodKeys(ks) && |b.0| == 32 && |b.1| == 32 && n <= 16
    ensures var c := Rounds(RoundFunction(t), b, ks, n); |c.0| == 32 && |c.1| == 32
    ensures var c := Unrounds(RoundFunction(t), b, ks, n); |c.0| == 32 && |c.1| == 32
    decreases n
  {
    if n > 0 {
      RoundLengths(t, b, ks, n - 1);
      RoundLengths(t, Unround(RoundFunction(t), b, ks[n - 1]), ks, n - 1);
    }
  }

  /** The two halves after the initial permutation. */
  function Enter(t: Tables, m: Bits): (b: (Bits, Bits))
    requires t.WellFormed() && |m| == 64
    ensures |b.0| == 32 && |b.1| == 32
  {
    (Permute(m, t.ip)[..32], Permute(m, t.ip)[32..])
  }

  /** The final permutation of the joined halves. */
  function Leave(t: Tables, b: (Bits, Bits)): (c: Bits)
    requires t.WellFormed() && |b.0| == 32 && |b.1| == 32
    ensures |c| == 64
  {
    Permute(b.0 + b.1, t.ipr)
  }

  lemma EnterLeave(t: Tables, b: (Bits, Bits))
    requires t.WellFormed() && |b.0| == 32 && |b.1| == 32
    ensures Enter(t, Leave(t, b)) == b
  {
    PermuteInverse(b.0 + b.1, t.ipr, t.ip);
    assert (b.0 + b.1)[..32] == b.0 && (b.0 + b.1)[32..] == b.1;
  }

  lemma LeaveEnter(t: Tables, m: Bits)
    requires t.WellFormed() && |m| == 64
    ensures Leave(t, Enter(t, m)) == m
  {
    var x := Permute(m, t.ip);
    assert x[..32] + x[32..] == x;
    PermuteInverse(m, t.ip, t.ipr);
  }

  function EncryptBits(t: Tables, ks: seq<Bits>, m: Bits): (c: Bits)
    requires t.WellFormed() && GoodKeys(ks) && |m| == 64
    ensures |c| == 64
  {
    RoundLengths(t, Enter(t, m), ks, 16);
    Leave(t, Rounds(RoundFunction(t), Enter(t, m), ks, 16))
  }

  function DecryptBits(t: Tables, ks: seq<Bits>, c: Bits): (m: Bits)
    requires t.WellFormed() && GoodKeys(ks) && |c| == 64
    ensures |m| == 64
  {
    RoundLengths(t, Enter(t, c), ks, 16);
    Leave(t, Unrounds(RoundFunction(t), Enter(t, c), ks, 16))
  }

  /** Decryption undoes encryption, for every key list and block. */
  lemma {:induction false} DecryptEncrypt(t: Tables, ks: seq<Bits>, m: Bits)
    requires t.WellFormed() && GoodKeys(ks) && |m| == 64
    ensures DecryptBits(t, ks, EncryptBits(t, ks, m)) == m
  {
    var f := RoundFunction(t);
    RoundLengths(t, Enter(t, m), ks, 16);
    EnterLeave(t, Rounds(f, Enter(t, m), ks, 16));
    UnroundsRounds(f, Enter(t, m), ks, 16);
    LeaveEnter(t, m);
  }

  // -------------------------------------------------------------- complementation

  lemma ComplementPermute(x: Bits, t: Table)
    requires Selects(t, |t|, |x|)
    ensures Permute(Complement(x), t) == Complement(Permute(x, t))
  {
  }

  lemma ComplementF(t: Tables, r: Bits, k: Bits)
    requires t.WellFormed() && |r| == 32 && |k| == 48
    ensures F(t, Complement(r), Complement(k)) == F(t, r, k)
  {
    ComplementPermute(r, t.e);
    assert Xor(Permute(Complement(r), t.e), Complement(k)) == Xor(Permute(r, t.e), k);
  }

  function ComplementAll(ks: seq<Bits>): (cs: seq<Bits>)
    ensures |cs| == |ks| && forall i :: 0 <= i < |ks| ==> cs[i] == Complement(ks[i])
  {
    seq(|ks|, i requires 0 <= i < |ks| => Complement(ks[i]))
  }

  lemma {:induction false} ComplementRounds(t: Tables, b: (Bits, Bits), ks: seq<Bits>, n: nat)
    requires t.WellFormed() && GoodKeys(ks) && |b.0| == 32 && |b.1| == 32 && n <= 16
    ensures var c := Rounds(RoundFunction(t), b, ks, n);
            Rounds(RoundFunction(t), (Complement(b.0), Complement(b.1)), ComplementAll(ks), n) == (Complement(c.0), Complement(c.1))
    decreases n
  {
    if n > 0 {
      ComplementRounds(t, b, ks, n - 1);
      RoundLengths(t, b, ks, n - 1);
      var c := Rounds(RoundFunction(t), b, ks, n - 1);
      ComplementF(t, c.1, ks[n - 1]);
      assert Xor(F(t, c.1, ks[n - 1]), Complement(c.0)) == Complement(Xor(F(t, c.1, ks[n - 1]), c.0));
    }
  }

  lemma {:induction false} ComplementHalves(t: Tables, key: Bits, n: nat)
    requires t.WellFormed() && |key| == 64 && n <= 16
    ensures Halves(t, Complement(key), n) == (Complement(Halves(t, key, n).0), Complement(Halves(t, key, n).1))
    decreases n
  {
    if n == 0 {
      ComplementPermute(key, t.pc1);
      var x := Permute(key, t.pc1);
      assert Complement(x)[..28] == Complement(x[..28]) && Complement(x)[28..] == Complement(x[28..]);
    } else {
      PrefixMonotone(t.shifts, n, 16);
      ComplementHalves(t, key, n - 1);
      ComplementRotate(Halves(t, key, n - 1).0, t.shifts[n - 1]);
      ComplementRotate(Halves(t, key, n - 1).1, t.shifts[n - 1]);
    }
  }

  lemma ComplementRotate(x: Bits, k: nat)
    requires k <= |x|
    ensures Rotate(Complement(x), k) == Complement(Rotate(x, k))
  {
  }

  lemma ComplementSchedule(t: Tables, key: Bits)
    requires t.WellFormed() && |key| == 64
    ensures Schedule(t, Complement(key)) == ComplementAll(Schedule(t, key))
  {
    forall n | 0 <= n < 16
      ensures SubKey(t, Complement(key), n) == Complement(SubKey(t, key, n))
    {
      ComplementHalves(t, key, n + 1);
      var h := Halves(t, key, n + 1);
      assert Complement(h.0) + Complement(h.1) == Complement(h.0 + h.1);
      ComplementPermute(h.0 + h.1, t.pc2);
    }
  }

  /** Complementing every bit of key and block complements every bit of the ciphertext. */
  lemma {:induction false} ComplementationProperty(t: Tables, key: Bits, m: Bits)
    requires t.WellFormed() && |key| == 64 && |m| == 64
    ensures EncryptBits(t, Schedule(t, Complement(key)), Complement(m)) == Complement(EncryptBits(t, Schedule(t, key), m))
  {
    ComplementSchedule(t, key);
    ComplementEncrypt(t, Schedule(t, key), m);
  }

  lemma {:induction false} ComplementEncrypt(t: Tables, ks: seq<Bits>, m: Bits)
    requires t.WellFormed() && GoodKeys(ks) && |m| == 64
    ensures GoodKeys(ComplementAll(ks))
    ensures EncryptBits(t, ComplementAll(ks), Complement(m)) == Complement(EncryptBits(t, ks, m))
  {
    var b := Enter(t, m);
    ComplementEnter(t, m);
    ComplementRounds(t, b, ks, 16);
    RoundLengths(t, b, ks, 16);
    ComplementLeave(t, Rounds(RoundFunction(t), b, ks, 16));
  }

  lemma ComplementEnter(t: Tables, m: Bits)
    requires t.WellFormed() && |m| == 64
    ensures Enter(t, Complement(m)) == (Complement(Enter(t, m).0), Complement(Enter(t, m).1))
  {
    ComplementPermute(m, t.ip);
    var x := Permute(m, t.ip);
    assert Complement(x)[..32] == Complement(x[..32]) && Complement(x)[32..] == Complement(x[32..]);
  }

  lemma ComplementLeave(t: Tables, b: (Bits, Bits))
    requires t.WellFormed() && |b.0| == 32 && |b.1| == 32
    ensures Leave(t, (Complement(b.0), Complement(b.1))) == Complement(Leave(t, b))
  {
    assert Complement(b.0) + Complement(b.1) == Complement(b.0 + b.1);
    ComplementPermute(b.0 + b.1, t.ipr);
  }

  // ------------------------------------------------------------ byte and hex coding

  predicate Bytes(s: seq<nat>) {
    forall i :: 0 <= i < |s| ==> s[i] < 256
  }

  /** byte_to_bit: bit i is bit i % 8 of byte i / 8. */
  function ByteBits(s: seq<nat>, n: nat): (x: Bits)
    requires n <= 8 * |s|
    ensures |x| == n
  {
    seq(n, i requires 0 <= i < n => BitOf(s[i / 8], i % 8))
  }

  /** The number with the given low bits, lowest first. */
  function NumberOf(x: Bits): nat {
    if |x| == 0 then 0 else Digit(x[0]) + 2 * NumberOf(x[1..])
  }

  lemma {:induction false} BitOfNumber(x: Bits, j: nat)
    requires j < |x|
    ensures BitOf(NumberOf(x), j) == x[j]
    decreases j
  {
    assert NumberOf(x) / 2 == NumberOf(x[1..]) && NumberOf(x) % 2 == Digit(x[0]);
    if j > 0 {
      BitOfNumber(x[1..], j - 1);
    }
  }

  lemma {:induction false} NumberBound(x: Bits)
    ensures NumberOf(x) < Pow(2, |x|)
    decreases |x|
  {
    if |x| > 0 {
      NumberBound(x[1..]);
    }
  }

  lemma {:induction false} NumberOfBits(v: nat, x: Bits)
    requires v < Pow(2, |x|) && forall j :: 0 <= j < |x| ==> x[j] == BitOf(v, j)
    ensures NumberOf(x) == v
    decreases |x|
  {
    if |x| > 0 {
      forall j | 0 <= j < |x| - 1
        ensures x[1..][j] == BitOf(v / 2, j)
      {
        assert x[1..][j] == x[j + 1];
      }
      NumberOfBits(v / 2, x[1..]);
    }
  }

  /** bit_to_byte, for a whole number of bytes. */
  function BytesOf(x: Bits): (s: seq<nat>)
    requires |x| % 8 == 0
    ensures |s| == |x| / 8
  {
    seq(|x| / 8, i requires 0 <= i < |x| / 8 => NumberOf(x[8 * i..8 * i + 8]))
  }

  /** Bytes survive the trip through bits. */
  lemma BytesRoundTrip(s: seq<nat>)
    requires Bytes(s)
    ensures BytesOf(ByteBits(s, 8 * |s|)) == s
  {
    var x := ByteBits(s, 8 * |s|);
    forall i | 0 <= i < |s|
      ensures NumberOf(x[8 * i..8 * i + 8]) == s[i]
    {
      assert Pow(2, 4) == 16 && Pow(2, 8) == 256;
      forall j | 0 <= j < 8
        ensures x[8 * i..8 * i + 8][j] == BitOf(s[i], j)
      {
        assert (8 * i + j) / 8 == i && (8 * i + j) % 8 == j;
      }
      NumberOfBits(s[i], x[8 * i..8 * i + 8]);
    }
  }

  /** One hexadecimal character for a four-bit value: 0-9, then 'A' = '7' + 10 and so on. */
  function HexChar(v: nat): nat {
    if v % 16 > 9 then v % 16 + 55 else v % 16 + 48
  }

  function HexValue(c: nat): int {
    if c <= 57 then c - 48 else c - 55
  }

  /** bit_to_hex */
  function HexOf(x: Bits): (s: seq<nat>)
    requires |x| % 4 == 0
    ensures |s| == |x| / 4
  {
    seq(|x| / 4, i requires 0 <= i < |x| / 4 => HexChar(NumberOf(x[4 * i..4 * i + 4])))
  }

  predicate HexChars(s: seq<nat>) {
    forall i :: 0 <= i < |s| ==> 48 <= s[i] <= 57 || 65 <= s[i] <= 70
  }

  /** hex_to_bit */
  function HexBits(s: seq<nat>): (x: Bits)
    ensures |x| == 4 * |s|
  {
    seq(4 * |s|, i requires 0 <= i < 4 * |s| => BitOf(HexValue(s[i / 4]), i % 4))
  }

  /** A byte's complement 255 - v has the complementary bits. */
  lemma {:induction false} ComplementBit(v: nat, n: nat, j: nat)
    requires v < Pow(2, n) && j < n
    ensures BitOf(Pow(2, n) - 1 - v, j) == !BitOf(v, j)
    decreases n
  {
    if j > 0 {
      assert (Pow(2, n) - 1 - v) / 2 == Pow(2, n - 1) - 1 - v / 2;
      ComplementBit(v / 2, n - 1, j - 1);
    }
  }

  function ComplementBytes(s: seq<nat>): (r: seq<nat>)
    requires Bytes(s)
    ensures |r| == |s| && Bytes(r)
  {
    seq(|s|, i requires 0 <= i < |s| => 255 - s[i])
  }

  lemma ComplementByteBits(s: seq<nat>)
    requires Bytes(s)
    ensures ByteBits(ComplementBytes(s), 8 * |s|) == Complement(ByteBits(s, 8 * |s|))
  {
    assert Pow(2, 4) == 16 && Pow(2, 8) == 256;
    forall i | 0 <= i < 8 * |s|
      ensures BitOf(255 - s[i / 8], i % 8) == !BitOf(s[i / 8], i % 8)
    {
      ComplementBit(s[i / 8], 8, i % 8);
    }
  }

  /** Bits survive the trip through hexadecimal characters. */
  lemma HexRoundTrip(x: Bits)
    requires |x| % 4 == 0
    ensures HexChars(HexOf(x)) && HexBits(HexOf(x)) == x
  {
    var s := HexOf(x);
    forall i | 0 <= i < |s|
      ensures (48 <= s[i] <= 57 || 65 <= s[i] <= 70) && HexValue(s[i]) == NumberOf(x[4 * i..4 * i + 4])
    {
      NumberBound(x[4 * i..4 * i + 4]);
      assert Pow(2, 4) == 16;
    }
    forall i | 0 <= i < |x|
      ensures HexBits(s)[i] == x[i]
    {
      BitOfNumber(x[4 * (i / 4)..4 * (i / 4) + 4], i % 4);
    }
  }

  // ------------------------------------------------------- eight bytes to hex and back

  function Encipher(t: Tables, ks: seq<Bits>, plain: seq<nat>): (cypher: seq<nat>)
    requires t.WellFormed() && GoodKeys(ks) && |plain| == 8
    ensures |cypher| == 16
  {
    HexOf(EncryptBits(t, ks, ByteBits(plain, 64)))
  }

  function Decipher(t: Tables, ks: seq<Bits>, cypher: seq<nat>): (plain: seq<nat>)
    requires t.WellFormed() && GoodKeys(ks) && |cypher| == 16
    ensures |plain| == 8
  {
    BytesOf(DecryptBits(t, ks, HexBits(cypher)))
  }

  /** Every block of eight bytes comes back from its sixteen hexadecimal characters. */
  lemma {:induction false} DecipherEncipher(t: Tables, ks: seq<Bits>, plain: seq<nat>)
    requires t.WellFormed() && GoodKeys(ks) && |plain| == 8 && Bytes(plain)
    ensures Decipher(t, ks, Encipher(t, ks, plain)) == plain
  {
    var m := ByteBits(plain, 64);
    HexRoundTrip(EncryptBits(t, ks, m));
    DecryptEncrypt(t, ks, m);
    BytesRoundTrip(plain);
  }

  /** On bytes: complementing key and plaintext complements every bit that the hexadecimal
      ciphertext stands for. */
  lemma {:induction false} ComplementCipher(t: Tables, key: seq<nat>, plain: seq<nat>)
    requires t.WellFormed() && |key| == 8 && |plain| == 8 && Bytes(key) && Bytes(plain)
    ensures HexBits(Encipher(t, Schedule(t, ByteBits(ComplementBytes(key), 64)), ComplementBytes(plain)))
         == Complement(HexBits(Encipher(t, Schedule(t, ByteBits(key, 64)), plain)))
  {
    var k, m := ByteBits(key, 64), ByteBits(plain, 64);
    ComplementByteBits(key);
    ComplementByteBits(plain);
    ComplementationProperty(t, k, m);
    HexRoundTrip(EncryptBits(t, Schedule(t, k), m));
    HexRoundTrip(EncryptBits(t, Schedule(t, Complement(k)), Complement(m)));
  }
}
