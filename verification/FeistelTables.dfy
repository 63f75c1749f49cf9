/** The tables of cpp/algorithm/3des.c, with the source's own entries, and the proof that they
    have the shape FeistelSpec asks for. */
module FeistelTables {
  import opened Arithmetic
  import opened FeistelSpec
  import FeistelCipher

  const IP: Table := [
    [58, 50, 42, 34, 26, 18, 10, 2],
    [60, 52, 44, 36, 28, 20, 12, 4],
    [62, 54, 46, 38, 30, 22, 14, 6],
    [64, 56, 48, 40, 32, 24, 16, 8],
    [57, 49, 41, 33, 25, 17, 9, 1],
    [59, 51, 43, 35, 27, 19, 11, 3],
    [61, 53, 45, 37, 29, 21, 13, 5],
    [63, 55, 47, 39, 31, 23, 15, 7]]

  const IPR: Table := [
    [40, 8, 48, 16, 56, 24, 64, 32],
    [39, 7, 47, 15, 55, 23, 63, 31],
    [38, 6, 46, 14, 54, 22, 62, 30],
    [37, 5, 45, 13, 53, 21, 61, 29],
    [36, 4, 44, 12, 52, 20, 60, 28],
    [35, 3, 43, 11, 51, 19, 59, 27],
    [34, 2, 42, 10, 50, 18, 58, 26],
    [33, 1, 41, 9, 49, 17, 57, 25]]

  const E: Table := [
    [32, 1, 2, 3, 4, 5, 4, 5],
    [6, 7, 8, 9, 8, 9, 10, 11],
    [12, 13, 12, 13, 14, 15, 16, 17],
    [16, 17, 18, 19, 20, 21, 20, 21],
    [22, 23, 24, 25, 24, 25, 26, 27],
    [28, 29, 28, 29, 30, 31, 32, 1]]

  const PC1: Table := [
    [57, 49, 41, 33, 25, 17, 9, 1],
    [58, 50, 42, 34, 26, 18, 10, 2],
    [59, 51, 43, 35, 27, 19, 11, 3],
    [60, 52, 44, 36, 63, 55, 47, 39],
    [31, 23, 15, 7, 62, 54, 46, 38],
    [30, 22, 14, 6, 61, 53, 45, 37],
    [29, 21, 13, 5, 28, 20, 12, 4]]

  const PC2: Table := [
    [14, 17, 11, 24, 1, 5, 3, 28],
    [15, 6, 21, 10, 23, 19, 12, 4],
    [26, 8, 16, 7, 27, 20, 13, 2],
    [41, 52, 31, 37, 47, 55, 30, 40],
    [51, 34, 33, 48, 44, 49, 39, 56],
    [34, 53, 46, 42, 50, 36, 29, 32]]

  const P: Table := [
    [16, 7, 20, 21, 29, 12, 28, 17],
    [1, 15, 23, 26, 5, 18, 31, 10],
    [2, 8, 24, 14, 32, 27, 3, 9],
    [19, 13, 30, 6, 22, 11, 4, 25]]

  const SHIFTS: seq<nat> := [1, 1, 2, 2, 2, 2, 2, 2, 1, 2, 2, 2, 2, 2, 2, 1]

  const S1: seq<seq<nat>> := [
    [14, 4, 13, 1, 2, 15, 11, 8, 3, 10, 6, 12, 5, 9, 0, 7],
    [0, 15, 7, 4, 14, 2, 13, 1, 10, 6, 12, 11, 9, 5, 3, 8],
    [4, 1, 14, 8, 13, 6, 2, 11, 15, 12, 9, 7, 3, 10, 5, 0],
    [15, 12, 8, 2, 4, 9, 1, 7, 5, 11, 3, 14, 10, 0, 6, 13]]

  const S2: seq<seq<nat>> := [
    [15, 1, 8, 14, 6, 11, 3, 4, 9, 7, 2, 13, 12, 0, 5, 10],
    [3, 13, 4, 7, 15, 2, 8, 14, 12, 0, 1, 10, 6, 9, 11, 5],
    [0, 14, 7, 11, 10, 4, 13, 1, 5, 8, 12, 6, 9, 3, 2, 15],
    [13, 8, 10, 1, 3, 15, 4, 2, 11, 6, 7, 12, 0, 5, 14, 9]]

  const S3: seq<seq<nat>> := [
    [10, 0, 9, 14, 6, 3, 15, 5, 1, 13, 12, 7, 11, 4, 2, 8],
    [13, 7, 0, 9, 3, 4, 6, 10, 2, 8, 5, 14, 12, 11, 15, 1],
    [13, 6, 4, 9, 8, 15, 3, 0, 11, 1, 2, 12, 5, 10, 14, 7],
    [1, 10, 13, 0, 6, 9, 8, 7, 4, 15, 14, 3, 11, 5, 2, 12]]

  const S4: seq<seq<nat>> := [
    [7, 13, 14, 3, 0, 6, 9, 10, 1, 2, 8, 5, 11, 12, 4, 15],
    [13, 8, 11, 5, 6, 15, 0, 3, 4, 7, 2, 12, 1, 10, 14, 9],
    [10, 6, 9, 0, 12, 11, 7, 13, 15, 1, 3, 14, 5, 2, 8, 4],
    [3, 15, 0, 6, 10, 1, 13, 8, 9, 4, 5, 11, 12, 7, 2, 14]]

  const S5: seq<seq<nat>> := [
    [2, 12, 4, 1, 7, 10, 11, 6, 8, 5, 3, 15, 13, 0, 14, 9],
    [14, 11, 2, 12, 4, 7, 13, 1, 5, 0, 15, 10, 3, 9, 8, 6],
    [4, 2, 1, 11, 10, 13, 7, 8, 15, 9, 12, 5, 6, 3, 0, 14],
    [11, 8, 12, 7, 1, 14, 2, 13, 6, 15, 0, 9, 10, 4, 5, 3]]

  const S6: seq<seq<nat>> := [
    [12, 1, 10, 15, 9, 2, 6, 8, 0, 13, 3, 4, 14, 7, 5, 11],
    [10, 15, 4, 2, 7, 12, 0, 5, 6, 1, 13, 14, 0, 11, 3, 8],
    [9, 14, 15, 5, 2, 8, 12, 3, 7, 0, 4, 10, 1, 13, 11, 6],
    [4, 3, 2, 12, 9, 5, 15, 10, 11, 14, 1, 7, 6, 0, 8, 13]]

  const S7: seq<seq<nat>> := [
    [4, 11, 2, 14, 15, 0, 8, 13, 3, 12, 9, 7, 5, 10, 6, 1],
    [13, 0, 11, 7, 4, 0, 1, 10, 14, 3, 5, 12, 2, 15, 8, 6],
    [1, 4, 11, 13, 12, 3, 7, 14, 10, 15, 6, 8, 0, 5, 9, 2],
    [6, 11, 13, 8, 1, 4, 10, 7, 9, 5, 0, 15, 14, 2, 3, 12]]

  const S8: seq<seq<nat>> := [
    [13, 2, 8, 4, 6, 15, 11, 1, 10, 9, 3, 14, 5, 0, 12, 7],
    [1, 15, 13, 8, 10, 3, 7, 4, 12, 5, 6, 11, 0, 14, 9, 2],
    [7, 11, 4, 1, 9, 12, 14, 2, 0, 6, 10, 13, 15, 3, 5, 8],
    [2, 1, 14, 7, 4, 10, 8, 13, 15, 12, 9, 0, 3, 5, 6, 11]]

  const S_BOX: seq<seq<seq<nat>>> := [S1, S2, S3, S4, S5, S6, S7, S8]

  const SOURCE_TABLES: Tables := Tables(IP, IPR, E, P, PC1, PC2, SHIFTS, S_BOX)

  /** The regular pattern of the initial permutation and of its inverse. */
  predicate InitialShape(t: Table) {
    Rows(t, 8) && forall r, c :: 0 <= r < 8 && 0 <= c < 8 ==> t[r][c] == (if r < 4 then 58 else 49) + 2 * r - 8 * c
  }

  predicate FinalShape(t: Table) {
    Rows(t, 8) && forall r, c :: 0 <= r < 8 && 0 <= c < 8 ==> t[r][c] == (if c % 2 == 0 then 40 else 4) + 4 * c - r
  }

  lemma InitialPattern()
    ensures InitialShape(IP)
  {
    forall r | 0 <= r < 8
      ensures |IP[r]| == 8 && forall c :: 0 <= c < 8 ==> IP[r][c] == (if r < 4 then 58 else 49) + 2 * r - 8 * c
    {
      if r < 4 {
        if r == 0 {} else if r == 1 {} else if r == 2 {} else {}
      } else {
        if r == 4 {} else if r == 5 {} else if r == 6 {} else {}
      }
    }
  }

  lemma FinalPattern()
    ensures FinalShape(IPR)
  {
    forall r | 0 <= r < 8
      ensures |IPR[r]| == 8 && forall c :: 0 <= c < 8 ==> IPR[r][c] == (if c % 2 == 0 then 40 else 4) + 4 * c - r
    {
      if r < 4 {
        if r == 0 {} else if r == 1 {} else if r == 2 {} else {}
      } else {
        if r == 4 {} else if r == 5 {} else if r == 6 {} else {}
      }
    }
  }

  lemma FinalUndoesInitial(a: Table, b: Table, i: nat)
    requires i < 64 && InitialShape(a) && FinalShape(b) && Selects(a, 8, 64) && Selects(b, 8, 64)
    ensures Undoes(a, b, i)
  {
    var r, c := i / 8, i % 8;
    var k, h := At(b, i) - 1, c / 2;
    if c % 2 == 0 {
      assert k == 8 * (4 + h) + (7 - r);
      assert k / 8 == 4 + h && k % 8 == 7 - r;
    } else {
      assert k == 8 * h + (7 - r);
      assert k / 8 == h && k % 8 == 7 - r;
    }
  }

  lemma InitialUndoesFinal(a: Table, b: Table, i: nat)
    requires i < 64 && InitialShape(a) && FinalShape(b) && Selects(a, 8, 64) && Selects(b, 8, 64)
    ensures Undoes(b, a, i)
  {
    var r, c := i / 8, i % 8;
    var k := At(a, i) - 1;
    if r < 4 {
      assert k == 8 * (7 - c) + (2 * r + 1);
      assert k / 8 == 7 - c && k % 8 == 2 * r + 1;
    } else {
      assert k == 8 * (7 - c) + 2 * (r - 4);
      assert k / 8 == 7 - c && k % 8 == 2 * (r - 4);
    }
  }

  lemma ShapesAreInverse(a: Table, b: Table)
    requires InitialShape(a) && FinalShape(b)
    ensures Inverse(a, b) && Inverse(b, a)
  {
    forall i | 0 <= i < 64
      ensures Undoes(a, b, i) && Undoes(b, a, i)
    {
      FinalUndoesInitial(a, b, i);
      InitialUndoesFinal(a, b, i);
    }
  }

  lemma ExpansionSelects()
    ensures Selects(E, 6, 32)
  {
  }

  lemma PermutationSelects()
    ensures Selects(P, 4, 32)
  {
  }

  lemma FirstKeyChoiceSelects()
    ensures Selects(PC1, 7, 64)
  {
  }

  lemma SecondKeyChoiceSelects()
    ensures Selects(PC2, 6, 56)
  {
  }

  lemma ShiftsAddUp()
    ensures |SHIFTS| == 16 && PrefixSum(SHIFTS, 16) == 28
  {
    assert PrefixSum(SHIFTS, 4) == 6;
    assert PrefixSum(SHIFTS, 8) == 14;
    assert PrefixSum(SHIFTS, 12) == 21;
  }

  lemma BoxesHaveShape()
    ensures |S_BOX| == 8
    ensures forall b :: 0 <= b < 8 ==> |S_BOX[b]| == 4 && forall r :: 0 <= r < 4 ==> |S_BOX[b][r]| == 16
  {
  }

  lemma SourceTablesWellFormed()
    ensures SOURCE_TABLES.WellFormed()
  {
    InitialPattern();
    FinalPattern();
    ShapesAreInverse(IP, IPR);
    ExpansionSelects();
    PermutationSelects();
    FirstKeyChoiceSelects();
    SecondKeyChoiceSelects();
    ShiftsAddUp();
    BoxesHaveShape();
  }

  /** With the source's tables: every 8-byte block comes back under every 8-byte key. */
  method SourceRoundTrip(key: seq<nat>, plain: seq<nat>) returns (out: seq<nat>)
    requires |key| == 8 && |plain| == 8 && Bytes(plain)
    ensures out == plain
  {
    SourceTablesWellFormed();
    out := FeistelCipher.RoundTrip(SOURCE_TABLES, key, plain);
  }

  // ------------------------------------------------------------- substitution

  /** The two columns of a row that hold the same entry: row 1 of the sixth and of the seventh box
      repeat a 0, and no other row repeats anything. */
  function Clash(g: nat, r: nat): (nat, nat) {
    if g == 5 && r == 1 then (6, 12) else if g == 6 && r == 1 then (1, 5) else (0, 0)
  }

  predicate BoxShape(box: seq<seq<nat>>) {
    |box| == 4 && forall r :: 0 <= r < 4 ==> |box[r]| == 16
  }

  /** Two entries of a row: below 16, and equal exactly at the clash. */
  predicate Separates(v: nat, w: nat, clash: bool) {
    v < 16 && w < 16 && (v == w <==> clash)
  }

  lemma Box1Separates(r: nat, c: nat, d: nat)
    requires r < 4 && c < d < 16
    ensures BoxShape(S1) && Separates(S1[r][c], S1[r][d], (c, d) == Clash(0, r))
  {
    if r == 0 {} else if r == 1 {} else if r == 2 {} else {}
  }

  lemma Box2Separates(r: nat, c: nat, d: nat)
    requires r < 4 && c < d < 16
    ensures BoxShape(S2) && Separates(S2[r][c], S2[r][d], (c, d) == Clash(1, r))
  {
    if r == 0 {} else if r == 1 {} else if r == 2 {} else {}
  }

  lemma Box3Separates(r: nat, c: nat, d: nat)
    requires r < 4 && c < d < 16
    ensures BoxShape(S3) && Separates(S3[r][c], S3[r][d], (c, d) == Clash(2, r))
  {
    if r == 0 {} else if r == 1 {} else if r == 2 {} else {}
  }

  lemma Box4Separates(r: nat, c: nat, d: nat)
    requires r < 4 && c < d < 16
    ensures BoxShape(S4) && Separates(S4[r][c], S4[r][d], (c, d) == Clash(3, r))
  {
    if r == 0 {} else if r == 1 {} else if r == 2 {} else {}
  }

  lemma Box5Separates(r: nat, c: nat, d: nat)
    requires r < 4 && c < d < 16
    ensures BoxShape(S5) && Separates(S5[r][c], S5[r][d], (c, d) == Clash(4, r))
  {
    if r == 0 {} else if r == 1 {} else if r == 2 {} else {}
  }

  lemma Box6Separates(r: nat, c: nat, d: nat)
    requires r < 4 && c < d < 16
    ensures BoxShape(S6) && Separates(S6[r][c], S6[r][d], (c, d) == Clash(5, r))
  {
    if r == 0 {} else if r == 1 {} else if r == 2 {} else {}
  }

  lemma Box7Separates(r: nat, c: nat, d: nat)
    requires r < 4 && c < d < 16
    ensures BoxShape(S7) && Separates(S7[r][c], S7[r][d], (c, d) == Clash(6, r))
  {
    if r < 2 {
      Box7Above(r, c, d);
    } else {
      Box7Below(r, c, d);
    }
  }

  lemma Box7Above(r: nat, c: nat, d: nat)
    requires r < 2 && c < d < 16
    ensures BoxShape(S7) && Separates(S7[r][c], S7[r][d], (c, d) == Clash(6, r))
  {
    if r == 0 {} else {}
  }

  lemma Box7Below(r: nat, c: nat, d: nat)
    requires 2 <= r < 4 && c < d < 16
    ensures BoxShape(S7) && Separates(S7[r][c], S7[r][d], (c, d) == Clash(6, r))
  {
    if r == 2 {} else {}
  }

  lemma Box8Separates(r: nat, c: nat, d: nat)
    requires r < 4 && c < d < 16
    ensures BoxShape(S8) && Separates(S8[r][c], S8[r][d], (c, d) == Clash(7, r))
  {
    if r == 0 {} else if r == 1 {} else if r == 2 {} else {}
  }

  lemma EveryRowSeparates(g: nat, r: nat, c: nat, d: nat)
    requires g < 8 && r < 4 && c < d < 16
    ensures |S_BOX| == 8 && BoxShape(S_BOX[g]) && Separates(S_BOX[g][r][c], S_BOX[g][r][d], (c, d) == Clash(g, r))
  {
    if g == 0 {
      Box1Separates(r, c, d);
    } else if g == 1 {
      Box2Separates(r, c, d);
    } else if g == 2 {
      Box3Separates(r, c, d);
    } else if g == 3 {
      Box4Separates(r, c, d);
    } else if g == 4 {
      Box5Separates(r, c, d);
    } else if g == 5 {
      Box6Separates(r, c, d);
    } else if g == 6 {
      Box7Separates(r, c, d);
    } else {
      Box8Separates(r, c, d);
    }
  }

  /** The four inner bits of group g are those of column c. */
  predicate Inner(x: Bits, g: nat, c: nat)
    requires |x| == 48 && g < 8
  {
    && x[6 * g + 1] == BitOf(c, 3) && x[6 * g + 2] == BitOf(c, 2)
    && x[6 * g + 3] == BitOf(c, 1) && x[6 * g + 4] == BitOf(c, 0)
  }

  /** The two inputs that one box confuses: outer bits 0 and 1, and inner bits 0110 and 1100 in
      the sixth box, 0001 and 0101 in the seventh. */
  predicate Confused(x: Bits, y: Bits, g: nat)
    requires |x| == |y| == 48 && g < 8
  {
    && !x[6 * g] && x[6 * g + 5]
    && ((g == 5 && Columns(x, y, g, 6, 12)) || (g == 6 && Columns(x, y, g, 1, 5)))
  }

  predicate Columns(x: Bits, y: Bits, g: nat, c: nat, d: nat)
    requires |x| == |y| == 48 && g < 8
  {
    (Inner(x, g, c) && Inner(y, g, d)) || (Inner(x, g, d) && Inner(y, g, c))
  }

  predicate SameInner(x: Bits, y: Bits, g: nat)
    requires |x| == |y| == 48 && g < 8
  {
    x[6 * g + 1] == y[6 * g + 1] && x[6 * g + 2] == y[6 * g + 2] && x[6 * g + 3] == y[6 * g + 3] && x[6 * g + 4] == y[6 * g + 4]
  }

  predicate SameOutput(x: Bits, y: Bits, g: nat)
    requires |x| == |y| == 32 && g < 8
  {
    x[4 * g] == y[4 * g] && x[4 * g + 1] == y[4 * g + 1] && x[4 * g + 2] == y[4 * g + 2] && x[4 * g + 3] == y[4 * g + 3]
  }

  lemma InnerIsColumn(x: Bits, g: nat, c: nat)
    requires |x| == 48 && g < 8 && c < 16
    ensures Inner(x, g, c) <==> SColumn(x, g) == c
  {
    FourBitsOf(c);
    FourBitsOf(SColumn(x, g));
  }

  lemma FourBitsOf(c: nat)
    requires c < 16
    ensures c == Digit(BitOf(c, 3)) * 8 + Digit(BitOf(c, 2)) * 4 + Digit(BitOf(c, 1)) * 2 + Digit(BitOf(c, 0))
  {
    var d, e, f := c / 2, c / 2 / 2, c / 2 / 2 / 2;
    assert BitOf(c, 3) == BitOf(d, 2) == BitOf(e, 1) == BitOf(f, 0);
    assert BitOf(c, 2) == BitOf(d, 1) == BitOf(e, 0);
    assert BitOf(c, 1) == BitOf(d, 0);
  }

  /** The output of group g, read as a number. */
  lemma OutputIsEntry(t: Tables, x: Bits, g: nat)
    requires t.WellFormed() && |x| == 48 && g < 8
    ensures var y, v := Substitute(t, x), t.sbox[g][SRow(x, g)][SColumn(x, g)];
            y[4 * g] == BitOf(v, 0) && y[4 * g + 1] == BitOf(v, 1) && y[4 * g + 2] == BitOf(v, 2) && y[4 * g + 3] == BitOf(v, 3)
  {
    forall j | 0 <= j < 4
      ensures Substitute(t, x)[4 * g + j] == BitOf(t.sbox[g][SRow(x, g)][SColumn(x, g)], j)
    {
      assert (4 * g + j) / 4 == g && (4 * g + j) % 4 == j;
    }
    assert Substitute(t, x)[4 * g + 0] == Substitute(t, x)[4 * g];
  }

  /** Inputs of one box with the same outer bits give the same output if and only if their inner
      bits agree or they are the confused pair. */
  lemma BoxesSeparate(x: Bits, y: Bits, g: nat)
    requires |x| == |y| == 48 && g < 8 && x[6 * g] == y[6 * g] && x[6 * g + 5] == y[6 * g + 5]
    ensures SOURCE_TABLES.WellFormed()
    ensures SameOutput(Substitute(SOURCE_TABLES, x), Substitute(SOURCE_TABLES, y), g) <==> SameInner(x, y, g) || Confused(x, y, g)
  {
    SourceTablesWellFormed();
    var r, c, d := SRow(x, g), SColumn(x, g), SColumn(y, g);
    assert SRow(y, g) == r;
    OutputIsEntry(SOURCE_TABLES, x, g);
    OutputIsEntry(SOURCE_TABLES, y, g);
    RowSeparates(g, r, c, d);
    InnerAgrees(x, y, g);
    ConfusedColumns(x, y, g);
  }

  /** Two entries of one row have the same bits if and only if they stand in one column or clash. */
  lemma RowSeparates(g: nat, r: nat, c: nat, d: nat)
    requires g < 8 && r < 4 && c < 16 && d < 16 && SOURCE_TABLES.WellFormed()
    ensures SameBits(S_BOX[g][r][c], S_BOX[g][r][d]) <==> c == d || (c, d) == Clash(g, r) || (d, c) == Clash(g, r)
  {
    if c < d {
      EveryRowSeparates(g, r, c, d);
      BitsDecide(S_BOX[g][r][c], S_BOX[g][r][d]);
    } else if d < c {
      EveryRowSeparates(g, r, d, c);
      BitsDecide(S_BOX[g][r][c], S_BOX[g][r][d]);
    }
  }

  predicate SameBits(v: nat, w: nat) {
    BitOf(v, 0) == BitOf(w, 0) && BitOf(v, 1) == BitOf(w, 1) && BitOf(v, 2) == BitOf(w, 2) && BitOf(v, 3) == BitOf(w, 3)
  }

  lemma BitsDecide(v: nat, w: nat)
    requires v < 16 && w < 16
    ensures SameBits(v, w) <==> v == w
  {
    FourBitsOf(v);
    FourBitsOf(w);
  }

  lemma InnerAgrees(x: Bits, y: Bits, g: nat)
    requires |x| == |y| == 48 && g < 8
    ensures SameInner(x, y, g) <==> SColumn(x, g) == SColumn(y, g)
  {
  }

  lemma ConfusedColumns(x: Bits, y: Bits, g: nat)
    requires |x| == |y| == 48 && g < 8
    ensures var c, d, k := SColumn(x, g), SColumn(y, g), Clash(g, SRow(x, g));
            Confused(x, y, g) <==> c != d && ((c, d) == k || (d, c) == k)
  {
    InnerIsColumn(x, g, 6);
    InnerIsColumn(x, g, 12);
    InnerIsColumn(y, g, 6);
    InnerIsColumn(y, g, 12);
    InnerIsColumn(x, g, 1);
    InnerIsColumn(x, g, 5);
    InnerIsColumn(y, g, 1);
    InnerIsColumn(y, g, 5);
  }
}
