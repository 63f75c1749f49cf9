/** The worked block in main() of cpp/algorithm/3des.c: "hellodec" under the key "hellokey".  Bit
    strings are spelled in hexadecimal digits, lowest bit first, as bit_to_hex does; the key
    schedule and the sixteen rounds are followed digit by digit. */
module FeistelExample {
  import opened Arithmetic
  import opened FeistelSpec
  import opened FeistelTables
  import FeistelCipher

  // ------------------------------------------------------------------- digits

  datatype Digit4 = Digit4(p: bool, q: bool, r: bool, s: bool)

  const X0: Digit4 := Digit4(false, false, false, false)
  const X1: Digit4 := Digit4(true, false, false, false)
  const X2: Digit4 := Digit4(false, true, false, false)
  const X3: Digit4 := Digit4(true, true, false, false)
  const X4: Digit4 := Digit4(false, false, true, false)
  const X5: Digit4 := Digit4(true, false, true, false)
  const X6: Digit4 := Digit4(false, true, true, false)
  const X7: Digit4 := Digit4(true, true, true, false)
  const X8: Digit4 := Digit4(false, false, false, true)
  const X9: Digit4 := Digit4(true, false, false, true)
  const XA: Digit4 := Digit4(false, true, false, true)
  const XB: Digit4 := Digit4(true, true, false, true)
  const XC: Digit4 := Digit4(false, false, true, true)
  const XD: Digit4 := Digit4(true, false, true, true)
  const XE: Digit4 := Digit4(false, true, true, true)
  const XF: Digit4 := Digit4(true, true, true, true)

  /** 28, 32, 48 and 64 bits. */
  datatype HalfKey = HalfKey(a: Digit4, b: Digit4, c: Digit4, d: Digit4, e: Digit4, f: Digit4, g: Digit4)
  datatype Half = Half(a: Digit4, b: Digit4, c: Digit4, d: Digit4, e: Digit4, f: Digit4, g: Digit4, h: Digit4)
  datatype RoundKey = RoundKey(a: Digit4, b: Digit4, c: Digit4, d: Digit4, e: Digit4, f: Digit4,
                               g: Digit4, h: Digit4, i: Digit4, j: Digit4, k: Digit4, l: Digit4)
  datatype Block = Block(a: Digit4, b: Digit4, c: Digit4, d: Digit4, e: Digit4, f: Digit4, g: Digit4, h: Digit4,
                         i: Digit4, j: Digit4, k: Digit4, l: Digit4, m: Digit4, n: Digit4, o: Digit4, p: Digit4)

  /** The four bits of x from position i on. */
  predicate Reads(x: Bits, i: nat, d: Digit4)
    requires i + 4 <= |x|
  {
    x[i] == d.p && x[i + 1] == d.q && x[i + 2] == d.r && x[i + 3] == d.s
  }

  predicate SpellsHalfKey(x: Bits, w: HalfKey) {
    && |x| == 28
    && Reads(x, 0, w.a) && Reads(x, 4, w.b) && Reads(x, 8, w.c) && Reads(x, 12, w.d)
    && Reads(x, 16, w.e) && Reads(x, 20, w.f) && Reads(x, 24, w.g)
  }

  predicate SpellsHalf(x: Bits, w: Half) {
    && |x| == 32
    && Reads(x, 0, w.a) && Reads(x, 4, w.b) && Reads(x, 8, w.c) && Reads(x, 12, w.d)
    && Reads(x, 16, w.e) && Reads(x, 20, w.f) && Reads(x, 24, w.g) && Reads(x, 28, w.h)
  }

  predicate SpellsRoundKey(x: Bits, w: RoundKey) {
    && |x| == 48
    && Reads(x, 0, w.a) && Reads(x, 4, w.b) && Reads(x, 8, w.c) && Reads(x, 12, w.d)
    && Reads(x, 16, w.e) && Reads(x, 20, w.f) && Reads(x, 24, w.g) && Reads(x, 28, w.h)
    && Reads(x, 32, w.i) && Reads(x, 36, w.j) && Reads(x, 40, w.k) && Reads(x, 44, w.l)
  }

  predicate SpellsBlock(x: Bits, w: Block) {
    && |x| == 64
    && Reads(x, 0, w.a) && Reads(x, 4, w.b) && Reads(x, 8, w.c) && Reads(x, 12, w.d)
    && Reads(x, 16, w.e) && Reads(x, 20, w.f) && Reads(x, 24, w.g) && Reads(x, 28, w.h)
    && Reads(x, 32, w.i) && Reads(x, 36, w.j) && Reads(x, 40, w.k) && Reads(x, 44, w.l)
    && Reads(x, 48, w.m) && Reads(x, 52, w.n) && Reads(x, 56, w.o) && Reads(x, 60, w.p)
  }

  /** One row of a table picks the digits d and e from x. */
  predicate Picks(x: Bits, row: seq<nat>, d: Digit4, e: Digit4) {
    && |row| == 8 && (forall c :: 0 <= c < 8 ==> 1 <= row[c] <= |x|)
    && x[row[0] - 1] == d.p && x[row[1] - 1] == d.q && x[row[2] - 1] == d.r && x[row[3] - 1] == d.s
    && x[row[4] - 1] == e.p && x[row[5] - 1] == e.q && x[row[6] - 1] == e.r && x[row[7] - 1] == e.s
  }

  lemma PermutedAt(x: Bits, t: Table, r: nat, c: nat)
    requires Selects(t, |t|, |x|) && r < |t| && c < 8
    ensures 8 * r + c < 8 * |t| && Permute(x, t)[8 * r + c] == x[t[r][c] - 1]
  {
    assert (8 * r + c) / 8 == r && (8 * r + c) % 8 == c;
  }

  lemma PickedRow(x: Bits, t: Table, r: nat, d: Digit4, e: Digit4)
    requires Selects(t, |t|, |x|) && r < |t| && Picks(x, t[r], d, e)
    ensures Reads(Permute(x, t), 8 * r, d) && Reads(Permute(x, t), 8 * r + 4, e)
  {
    var y, row := Permute(x, t), t[r];
    PermutedAt(x, t, r, 0);
    PermutedAt(x, t, r, 1);
    PermutedAt(x, t, r, 2);
    PermutedAt(x, t, r, 3);
    PermutedAt(x, t, r, 4);
    PermutedAt(x, t, r, 5);
    PermutedAt(x, t, r, 6);
    PermutedAt(x, t, r, 7);
    assert y[8 * r] == x[row[0] - 1] && y[8 * r + 4] == x[row[4] - 1];
  }

  // ------------------------------------------------------------ one round

  function PermuteHalf(y: Half): Half {
    Half(Digit4(y.d.s, y.b.r, y.e.s, y.f.p),
         Digit4(y.h.p, y.c.s, y.g.s, y.e.p),
         Digit4(y.a.p, y.d.r, y.f.r, y.g.q),
         Digit4(y.b.p, y.e.q, y.h.r, y.c.q),
         Digit4(y.a.q, y.b.s, y.f.s, y.d.q),
         Digit4(y.h.s, y.g.r, y.a.r, y.c.p),
         Digit4(y.e.r, y.d.p, y.h.q, y.b.q),
         Digit4(y.f.q, y.c.r, y.a.s, y.g.p))
  }

  lemma PermuteRows0(x: Bits, y: Half)
    requires SpellsHalf(x, y)
    ensures Picks(x, P[0], PermuteHalf(y).a, PermuteHalf(y).b)
    ensures Picks(x, P[1], PermuteHalf(y).c, PermuteHalf(y).d)
  {
  }

  lemma PermuteRows1(x: Bits, y: Half)
    requires SpellsHalf(x, y)
    ensures Picks(x, P[2], PermuteHalf(y).e, PermuteHalf(y).f)
    ensures Picks(x, P[3], PermuteHalf(y).g, PermuteHalf(y).h)
  {
  }

  lemma PermuteSpelled(x: Bits, y: Half)
    requires SpellsHalf(x, y) && Selects(P, 4, 32)
    ensures SpellsHalf(Permute(x, P), PermuteHalf(y))
  {
    var z := PermuteHalf(y);
    PermuteRows0(x, y);
    PermuteRows1(x, y);
    PickedRow(x, P, 0, z.a, z.b);
    PickedRow(x, P, 1, z.c, z.d);
    PickedRow(x, P, 2, z.e, z.f);
    PickedRow(x, P, 3, z.g, z.h);
  }

  function ExpandHalf(r: Half): RoundKey {
    RoundKey(Digit4(r.h.s, r.a.p, r.a.q, r.a.r),
             Digit4(r.a.s, r.b.p, r.a.s, r.b.p),
             Digit4(r.b.q, r.b.r, r.b.s, r.c.p),
             Digit4(r.b.s, r.c.p, r.c.q, r.c.r),
             Digit4(r.c.s, r.d.p, r.c.s, r.d.p),
             Digit4(r.d.q, r.d.r, r.d.s, r.e.p),
             Digit4(r.d.s, r.e.p, r.e.q, r.e.r),
             Digit4(r.e.s, r.f.p, r.e.s, r.f.p),
             Digit4(r.f.q, r.f.r, r.f.s, r.g.p),
             Digit4(r.f.s, r.g.p, r.g.q, r.g.r),
             Digit4(r.g.s, r.h.p, r.g.s, r.h.p),
             Digit4(r.h.q, r.h.r, r.h.s, r.a.p))
  }

  lemma ExpandRows0(x: Bits, r: Half)
    requires SpellsHalf(x, r)
    ensures Picks(x, E[0], ExpandHalf(r).a, ExpandHalf(r).b)
    ensures Picks(x, E[1], ExpandHalf(r).c, ExpandHalf(r).d)
    ensures Picks(x, E[2], ExpandHalf(r).e, ExpandHalf(r).f)
  {
  }

  lemma ExpandRows1(x: Bits, r: Half)
    requires SpellsHalf(x, r)
    ensures Picks(x, E[3], ExpandHalf(r).g, ExpandHalf(r).h)
    ensures Picks(x, E[4], ExpandHalf(r).i, ExpandHalf(r).j)
    ensures Picks(x, E[5], ExpandHalf(r).k, ExpandHalf(r).l)
  {
  }

  lemma ExpandSpelled(x: Bits, r: Half)
    requires SpellsHalf(x, r) && Selects(E, 6, 32)
    ensures SpellsRoundKey(Permute(x, E), ExpandHalf(r))
  {
    var z := ExpandHalf(r);
    ExpandRows0(x, r);
    ExpandRows1(x, r);
    PickedRow(x, E, 0, z.a, z.b);
    PickedRow(x, E, 1, z.c, z.d);
    PickedRow(x, E, 2, z.e, z.f);
    PickedRow(x, E, 3, z.g, z.h);
    PickedRow(x, E, 4, z.i, z.j);
    PickedRow(x, E, 5, z.k, z.l);
  }

  function Mix(d: Digit4, e: Digit4): Digit4 {
    Digit4(d.p != e.p, d.q != e.q, d.r != e.r, d.s != e.s)
  }

  function MixHalves(v: Half, w: Half): Half {
    Half(Mix(v.a, w.a), Mix(v.b, w.b), Mix(v.c, w.c), Mix(v.d, w.d), Mix(v.e, w.e), Mix(v.f, w.f), Mix(v.g, w.g), Mix(v.h, w.h))
  }

  function MixKeys(v: RoundKey, w: RoundKey): RoundKey {
    RoundKey(Mix(v.a, w.a), Mix(v.b, w.b), Mix(v.c, w.c), Mix(v.d, w.d), Mix(v.e, w.e), Mix(v.f, w.f),
             Mix(v.g, w.g), Mix(v.h, w.h), Mix(v.i, w.i), Mix(v.j, w.j), Mix(v.k, w.k), Mix(v.l, w.l))
  }

  lemma MixReads(x: Bits, y: Bits, i: nat, d: Digit4, e: Digit4)
    requires |x| == |y| && i + 4 <= |x| && Reads(x, i, d) && Reads(y, i, e)
    ensures Reads(Xor(x, y), i, Mix(d, e))
  {
  }

  lemma MixSpelled(x: Bits, y: Bits, v: Half, w: Half)
    requires SpellsHalf(x, v) && SpellsHalf(y, w)
    ensures SpellsHalf(Xor(x, y), MixHalves(v, w))
  {
    MixReads(x, y, 0, v.a, w.a);
    MixReads(x, y, 4, v.b, w.b);
    MixReads(x, y, 8, v.c, w.c);
    MixReads(x, y, 12, v.d, w.d);
    MixReads(x, y, 16, v.e, w.e);
    MixReads(x, y, 20, v.f, w.f);
    MixReads(x, y, 24, v.g, w.g);
    MixReads(x, y, 28, v.h, w.h);
  }

  lemma MixSpelledKeys(x: Bits, y: Bits, v: RoundKey, w: RoundKey)
    requires SpellsRoundKey(x, v) && SpellsRoundKey(y, w)
    ensures SpellsRoundKey(Xor(x, y), MixKeys(v, w))
  {
    MixReads(x, y, 0, v.a, w.a);
    MixReads(x, y, 4, v.b, w.b);
    MixReads(x, y, 8, v.c, w.c);
    MixReads(x, y, 12, v.d, w.d);
    MixReads(x, y, 16, v.e, w.e);
    MixReads(x, y, 20, v.f, w.f);
    MixReads(x, y, 24, v.g, w.g);
    MixReads(x, y, 28, v.h, w.h);
    MixReads(x, y, 32, v.i, w.i);
    MixReads(x, y, 36, v.j, w.j);
    MixReads(x, y, 40, v.k, w.k);
    MixReads(x, y, 44, v.l, w.l);
  }

  /** The entry of a box for the outer bits i, n and the inner bits j, k, l, m spells v. */
  predicate Looks(box: seq<seq<nat>>, i: bool, j: bool, k: bool, l: bool, m: bool, n: bool, v: Digit4)
    requires BoxShape(box)
  {
    var row := if i then (if n then box[3] else box[2]) else (if n then box[1] else box[0]);
    var high := if j then (if k then 12 else 8) else (if k then 4 else 0);
    var low := if l then (if m then 3 else 2) else (if m then 1 else 0);
    row[high + low] == NumberOfDigit(v)
  }

  function NumberOfDigit(v: Digit4): nat {
    (if v.p then 1 else 0) + (if v.q then 2 else 0) + (if v.r then 4 else 0) + (if v.s then 8 else 0)
  }

  lemma DigitBits(v: Digit4)
    ensures var w := NumberOfDigit(v);
            BitOf(w, 0) == v.p && BitOf(w, 1) == v.q && BitOf(w, 2) == v.r && BitOf(w, 3) == v.s
  {
    var w := NumberOfDigit(v);
    assert w / 2 == Digit(v.q) + 2 * Digit(v.r) + 4 * Digit(v.s);
    assert w / 2 / 2 == Digit(v.r) + 2 * Digit(v.s);
    assert w / 2 / 2 / 2 == Digit(v.s);
    assert BitOf(w, 3) == BitOf(w / 2, 2) == BitOf(w / 2 / 2, 1) == BitOf(w / 2 / 2 / 2, 0);
    assert BitOf(w, 2) == BitOf(w / 2, 1) == BitOf(w / 2 / 2, 0);
  }

  /** The entry of box g that the bits of x choose spells v. */
  predicate EntryIs(box: seq<seq<nat>>, x: Bits, g: nat, v: Digit4)
    requires |x| == 48 && g < 8
  {
    BoxShape(box) && box[SRow(x, g)][SColumn(x, g)] == NumberOfDigit(v)
  }

  lemma EntryLooked(box: seq<seq<nat>>, x: Bits, g: nat, i: bool, j: bool, k: bool, l: bool, m: bool, n: bool, v: Digit4)
    requires |x| == 48 && g < 8 && BoxShape(box) && Looks(box, i, j, k, l, m, n, v)
    requires x[6 * g] == i && x[6 * g + 1] == j && x[6 * g + 2] == k && x[6 * g + 3] == l && x[6 * g + 4] == m && x[6 * g + 5] == n
    ensures EntryIs(box, x, g, v)
  {
  }

  lemma SubstitutedDigit(t: Tables, x: Bits, g: nat, v: Digit4)
    requires t.WellFormed() && |x| == 48 && g < 8 && EntryIs(t.sbox[g], x, g, v)
    ensures Reads(Substitute(t, x), 4 * g, v)
  {
    var y, w := Substitute(t, x), NumberOfDigit(v);
    forall j | 0 <= j < 4
      ensures y[4 * g + j] == BitOf(w, j)
    {
      SubstituteAt(t, x, g, j);
    }
    ReadsNumber(y, 4 * g, w, v);
  }

  lemma ReadsNumber(y: Bits, i: nat, w: nat, v: Digit4)
    requires i + 4 <= |y| && w == NumberOfDigit(v) && forall j :: 0 <= j < 4 ==> y[i + j] == BitOf(w, j)
    ensures Reads(y, i, v)
  {
    DigitBits(v);
    assert y[i + 0] == BitOf(w, 0);
  }

  lemma SubstituteAt(t: Tables, x: Bits, g: nat, j: nat)
    requires t.WellFormed() && |x| == 48 && g < 8 && j < 4
    ensures Substitute(t, x)[4 * g + j] == BitOf(t.sbox[g][SRow(x, g)][SColumn(x, g)], j)
  {
    assert (4 * g + j) / 4 == g && (4 * g + j) % 4 == j;
  }

  /** Three digits feed two neighbouring boxes. */
  predicate PairLooks(box: seq<seq<nat>>, next: seq<seq<nat>>, d: Digit4, e: Digit4, f: Digit4, v: Digit4, w: Digit4) {
    && BoxShape(box) && BoxShape(next)
    && Looks(box, d.p, d.q, d.r, d.s, e.p, e.q, v)
    && Looks(next, e.r, e.s, f.p, f.q, f.r, f.s, w)
  }

  lemma PairEntries(box: seq<seq<nat>>, next: seq<seq<nat>>, x: Bits, g: nat, d: Digit4, e: Digit4, f: Digit4, v: Digit4, w: Digit4)
    requires |x| == 48 && g < 7 && PairLooks(box, next, d, e, f, v, w)
    requires Reads(x, 6 * g, d) && Reads(x, 6 * g + 4, e) && Reads(x, 6 * g + 8, f)
    ensures EntryIs(box, x, g, v) && EntryIs(next, x, g + 1, w)
  {
    EntryLooked(box, x, g, d.p, d.q, d.r, d.s, e.p, e.q, v);
    EntryLooked(next, x, g + 1, e.r, e.s, f.p, f.q, f.r, f.s, w);
  }

  /** All eight boxes. */
  predicate Substitutes(box: seq<seq<seq<nat>>>, x: RoundKey, y: Half) {
    && |box| == 8
    && PairLooks(box[0], box[1], x.a, x.b, x.c, y.a, y.b) && PairLooks(box[2], box[3], x.d, x.e, x.f, y.c, y.d)
    && PairLooks(box[4], box[5], x.g, x.h, x.i, y.e, y.f) && PairLooks(box[6], box[7], x.j, x.k, x.l, y.g, y.h)
  }

  predicate LowEntries(box: seq<seq<seq<nat>>>, x: Bits, y: Half) {
    && |x| == 48 && |box| == 8
    && EntryIs(box[0], x, 0, y.a) && EntryIs(box[1], x, 1, y.b) && EntryIs(box[2], x, 2, y.c) && EntryIs(box[3], x, 3, y.d)
  }

  predicate HighEntries(box: seq<seq<seq<nat>>>, x: Bits, y: Half) {
    && |x| == 48 && |box| == 8
    && EntryIs(box[4], x, 4, y.e) && EntryIs(box[5], x, 5, y.f) && EntryIs(box[6], x, 6, y.g) && EntryIs(box[7], x, 7, y.h)
  }

  lemma LowSpelled(box: seq<seq<seq<nat>>>, x: Bits, w: RoundKey, y: Half)
    requires SpellsRoundKey(x, w) && |box| == 8
    requires PairLooks(box[0], box[1], w.a, w.b, w.c, y.a, y.b) && PairLooks(box[2], box[3], w.d, w.e, w.f, y.c, y.d)
    ensures LowEntries(box, x, y)
  {
    PairEntries(box[0], box[1], x, 0, w.a, w.b, w.c, y.a, y.b);
    PairEntries(box[2], box[3], x, 2, w.d, w.e, w.f, y.c, y.d);
  }

  lemma HighSpelled(box: seq<seq<seq<nat>>>, x: Bits, w: RoundKey, y: Half)
    requires SpellsRoundKey(x, w) && |box| == 8
    requires PairLooks(box[4], box[5], w.g, w.h, w.i, y.e, y.f) && PairLooks(box[6], box[7], w.j, w.k, w.l, y.g, y.h)
    ensures HighEntries(box, x, y)
  {
    PairEntries(box[4], box[5], x, 4, w.g, w.h, w.i, y.e, y.f);
    PairEntries(box[6], box[7], x, 6, w.j, w.k, w.l, y.g, y.h);
  }

  lemma SubstituteSpelled(t: Tables, x: Bits, y: Half)
    requires t.WellFormed() && LowEntries(t.sbox, x, y) && HighEntries(t.sbox, x, y)
    ensures SpellsHalf(Substitute(t, x), y)
  {
    SubstitutedDigit(t, x, 0, y.a);
    SubstitutedDigit(t, x, 1, y.b);
    SubstitutedDigit(t, x, 2, y.c);
    SubstitutedDigit(t, x, 3, y.d);
    SubstitutedDigit(t, x, 4, y.e);
    SubstitutedDigit(t, x, 5, y.f);
    SubstitutedDigit(t, x, 6, y.g);
    SubstitutedDigit(t, x, 7, y.h);
  }

  /** One round: the new right half is n. */
  predicate RoundGives(l: Half, r: Half, k: RoundKey, y: Half, n: Half) {
    Substitutes(S_BOX, MixKeys(ExpandHalf(r), k), y) && n == MixHalves(PermuteHalf(y), l)
  }

  lemma RoundSpelled(b: (Bits, Bits), key: Bits, l: Half, r: Half, k: RoundKey, y: Half, n: Half)
    requires SOURCE_TABLES.WellFormed() && SpellsHalf(b.0, l) && SpellsHalf(b.1, r) && SpellsRoundKey(key, k)
    requires RoundGives(l, r, k, y, n)
    ensures var c := Round(RoundFunction(SOURCE_TABLES), b, key); SpellsHalf(c.0, r) && SpellsHalf(c.1, n)
  {
    var x := Xor(Permute(b.1, E), key);
    ExpandSpelled(b.1, r);
    MixSpelledKeys(Permute(b.1, E), key, ExpandHalf(r), k);
    LowSpelled(S_BOX, x, MixKeys(ExpandHalf(r), k), y);
    HighSpelled(S_BOX, x, MixKeys(ExpandHalf(r), k), y);
    SubstituteSpelled(SOURCE_TABLES, x, y);
    PermuteSpelled(Substitute(SOURCE_TABLES, x), y);
    MixSpelled(F(SOURCE_TABLES, b.1, key), b.0, PermuteHalf(y), l);
  }

  // -------------------------------------------------------------- the trace

  /** The halves of the block: round n turns entries n, n + 1 into entries n + 1, n + 2. */
  function HalfAt(n: nat): Half {
    if n == 0 then Half(X9, X0, X8, XB, XF, XF, X0, X0)
    else if n == 1 then Half(XB, X4, XE, X7, X0, X0, XF, XF)
    else if n == 2 then Half(X0, XF, X4, X3, XE, X2, X3, X7)
    else if n == 3 then Half(XF, XB, X8, XD, X6, X6, X8, XC)
    else if n == 4 then Half(XB, X2, X0, X3, X3, XB, XA, X7)
    else if n == 5 then Half(X6, X7, X3, X8, X4, XE, X4, X6)
    else if n == 6 then Half(XC, X3, X4, X1, X2, X9, X0, X9)
    else if n == 7 then Half(X5, XE, X9, X0, X1, X8, X9, XE)
    else if n == 8 then Half(XA, X2, XC, XA, XB, X3, XF, X2)
    else if n == 9 then Half(X5, X9, X5, X1, X7, X5, X2, X0)
    else if n == 10 then Half(XC, X1, XE, X7, X5, X7, X7, X0)
    else if n == 11 then Half(X4, X8, XF, XE, X8, X7, XA, X3)
    else if n == 12 then Half(XB, XE, X0, X8, X5, XE, XC, X6)
    else if n == 13 then Half(XB, XA, X8, X7, XD, X2, XF, XD)
    else if n == 14 then Half(X0, X9, X3, X3, XB, X4, X1, X9)
    else if n == 15 then Half(XD, XE, X9, X2, XF, XD, XA, X9)
    else if n == 16 then Half(X5, X5, X6, XA, X5, X3, XB, X3)
    else Half(XD, X4, X3, X1, X9, X7, X4, XE)
  }

  /** The subkeys, as the program prints them. */
  function KeyAt(n: nat): RoundKey {
    if n == 0 then RoundKey(XE, XD, XE, X2, X1, XB, XF, XE, X6, XD, XB, XE)
    else if n == 1 then RoundKey(X0, XB, XC, X3, X5, XB, XF, XE, X7, XC, X9, XE)
    else if n == 2 then RoundKey(XB, XC, X4, X3, XF, X1, XF, XE, X6, XE, X3, XF)
    else if n == 3 then RoundKey(XB, X3, X7, X7, X5, X0, XE, X7, XF, XC, X3, XF)
    else if n == 4 then RoundKey(XB, X4, XD, XF, X0, X7, XE, X6, XF, XA, X7, XF)
    else if n == 5 then RoundKey(X6, X1, XD, X6, X2, XE, X6, X7, XF, XB, X7, XD)
    else if n == 6 then RoundKey(X6, X8, XB, X3, X6, X7, X7, X7, XD, XB, XE, XD)
    else if n == 7 then RoundKey(X7, X0, X7, X8, XF, X4, X6, XF, X9, XF, XE, X5)
    else if n == 8 then RoundKey(XB, X6, XB, X4, XE, X6, X3, X7, X9, XF, XE, X5)
    else if n == 9 then RoundKey(X5, X7, XB, XD, X2, X4, XB, XB, X9, XF, XE, X3)
    else if n == 10 then RoundKey(X4, X5, XE, XC, X6, XF, XB, X9, XB, X7, XF, X1)
    else if n == 11 then RoundKey(X5, X9, XA, XA, XA, X9, XB, X9, XD, X7, XC, XB)
    else if n == 12 then RoundKey(X2, XA, X2, XD, XF, X9, XD, XD, XE, X7, XD, X3)
    else if n == 13 then RoundKey(X9, XE, XF, X9, X9, X8, XD, X9, XE, XD, XD, XE)
    else if n == 14 then RoundKey(X8, XF, X4, XF, X3, XC, XD, XE, X6, X5, XD, XE)
    else RoundKey(X4, XD, X4, XD, X8, XB, XD, XC, X6, XD, XB, XE)
  }

  /** The expanded right halves, mixed with the subkeys. */
  function MixedAt(n: nat): RoundKey {
    if n == 0 then RoundKey(X9, X8, XC, XE, XE, X8, XF, XE, XE, X3, X4, X1)
    else if n == 1 then RoundKey(X0, X1, XB, XA, XF, XA, X3, XB, XE, XA, X3, XD)
    else if n == 2 then RoundKey(X4, X3, X1, X2, X0, X7, X2, XE, X5, XE, X6, X1)
    else if n == 3 then RoundKey(XD, X6, X6, X7, XF, X9, X8, XD, XA, X9, XC, X4)
    else if n == 4 then RoundKey(X7, XE, X6, X9, X0, X3, X7, X6, X8, X3, X7, XC)
    else if n == 5 then RoundKey(XF, XE, XC, XE, X8, XE, X2, XD, XB, XA, XD, X9)
    else if n == 6 then RoundKey(XD, X8, X4, X0, X3, XF, X5, X7, X1, X8, XB, X2)
    else if n == 7 then RoundKey(X3, X5, X6, X0, XA, X9, X1, X0, X0, X1, XB, X4)
    else if n == 8 then RoundKey(X1, XC, X7, XF, X4, XE, XD, XD, XB, XB, XE, XD)
    else if n == 9 then RoundKey(XD, X8, XB, X1, XD, XF, X1, X1, X2, X1, XE, X3)
    else if n == 10 then RoundKey(XC, X5, X2, X3, X3, X8, XA, X6, X8, X3, X0, X0)
    else if n == 11 then RoundKey(X3, XC, XD, XB, XA, X5, X0, X9, XA, XE, X9, X0)
    else if n == 12 then RoundKey(X5, XF, X7, XC, X0, X2, X7, X8, X7, X9, X2, XD)
    else if n == 13 then RoundKey(X8, X4, X3, XE, X3, X1, XB, XC, X4, XF, X7, XA)
    else if n == 14 then RoundKey(X3, XA, XB, XC, X6, X5, X3, X1, X0, X0, X2, X2)
    else RoundKey(XE, X7, X6, X1, X8, X6, X6, X6, XF, XB, X4, X7)
  }

  /** What the boxes make of the expanded right halves, mixed with the subkeys. */
  function BoxedAt(n: nat): Half {
    if n == 0 then Half(XE, X0, XF, X9, X5, X7, XA, X9)
    else if n == 1 then Half(X4, X8, XE, X5, XF, XE, XC, X3)
    else if n == 2 then Half(X2, X6, X1, XA, X5, XD, X8, X9)
    else if n == 3 then Half(X1, XB, X5, XC, X1, X1, XB, X6)
    else if n == 4 then Half(XA, X6, X4, X9, XA, X4, X5, X1)
    else if n == 5 then Half(X6, X6, X2, XC, X5, X8, X7, X3)
    else if n == 6 then Half(X2, X7, X7, X3, XE, X2, X7, X3)
    else if n == 7 then Half(XC, XB, XD, X1, X4, XC, XB, X9)
    else if n == 8 then Half(X4, XF, XE, X6, X8, X8, X0, X5)
    else if n == 9 then Half(X2, XB, X6, XE, X2, XA, X6, X5)
    else if n == 10 then Half(X8, X7, XF, XD, XF, X4, XA, XD)
    else if n == 11 then Half(XF, X5, XE, XC, XC, XD, X1, XA)
    else if n == 12 then Half(X9, XF, XF, XE, X6, XB, XD, X3)
    else if n == 13 then Half(XD, XD, X1, X0, XC, X0, XC, XE)
    else if n == 14 then Half(X5, XB, X6, XB, X9, XC, XD, X8)
    else Half(X8, XB, XD, X5, X3, XA, X6, X2)
  }

  /** Pair p of boxes in round n. */
  predicate PairTraced(box: seq<seq<nat>>, next: seq<seq<nat>>, p: nat, n: nat) {
    var x, y := MixedAt(n), BoxedAt(n);
    if p == 0 then PairLooks(box, next, x.a, x.b, x.c, y.a, y.b)
    else if p == 1 then PairLooks(box, next, x.d, x.e, x.f, y.c, y.d)
    else if p == 2 then PairLooks(box, next, x.g, x.h, x.i, y.e, y.f)
    else PairLooks(box, next, x.j, x.k, x.l, y.g, y.h)
  }

  lemma Pair0Traced(n: nat)
    requires n < 16
    ensures PairTraced(S1, S2, 0, n)
  {
    if n == 0 {} else if n == 1 {} else if n == 2 {} else if n == 3 {} else if n == 4 {} else if n == 5 {} else if n == 6 {} else if n == 7 {}
    else if n == 8 {} else if n == 9 {} else if n == 10 {} else if n == 11 {} else if n == 12 {} else if n == 13 {} else if n == 14 {} else {}
  }

  lemma Pair1Traced(n: nat)
    requires n < 16
    ensures PairTraced(S3, S4, 1, n)
  {
    if n == 0 {} else if n == 1 {} else if n == 2 {} else if n == 3 {} else if n == 4 {} else if n == 5 {} else if n == 6 {} else if n == 7 {}
    else if n == 8 {} else if n == 9 {} else if n == 10 {} else if n == 11 {} else if n == 12 {} else if n == 13 {} else if n == 14 {} else {}
  }

  lemma Pair2Traced(n: nat)
    requires n < 16
    ensures PairTraced(S5, S6, 2, n)
  {
    if n == 0 {} else if n == 1 {} else if n == 2 {} else if n == 3 {} else if n == 4 {} else if n == 5 {} else if n == 6 {} else if n == 7 {}
    else if n == 8 {} else if n == 9 {} else if n == 10 {} else if n == 11 {} else if n == 12 {} else if n == 13 {} else if n == 14 {} else {}
  }

  lemma Pair3Traced(n: nat)
    requires n < 16
    ensures PairTraced(S7, S8, 3, n)
  {
    if n == 0 {} else if n == 1 {} else if n == 2 {} else if n == 3 {} else if n == 4 {} else if n == 5 {} else if n == 6 {} else if n == 7 {}
    else if n == 8 {} else if n == 9 {} else if n == 10 {} else if n == 11 {} else if n == 12 {} else if n == 13 {} else if n == 14 {} else {}
  }

  lemma MixingTraced(n: nat)
    requires n < 16
    ensures MixedAt(n) == MixKeys(ExpandHalf(HalfAt(n + 1)), KeyAt(n))
  {
    if n == 0 {} else if n == 1 {} else if n == 2 {} else if n == 3 {} else if n == 4 {} else if n == 5 {} else if n == 6 {} else if n == 7 {}
    else if n == 8 {} else if n == 9 {} else if n == 10 {} else if n == 11 {} else if n == 12 {} else if n == 13 {} else if n == 14 {} else {}
  }

  lemma AddingTraced(n: nat)
    requires n < 16
    ensures HalfAt(n + 2) == MixHalves(PermuteHalf(BoxedAt(n)), HalfAt(n))
  {
    if n == 0 {} else if n == 1 {} else if n == 2 {} else if n == 3 {} else if n == 4 {} else if n == 5 {} else if n == 6 {} else if n == 7 {}
    else if n == 8 {} else if n == 9 {} else if n == 10 {} else if n == 11 {} else if n == 12 {} else if n == 13 {} else if n == 14 {} else {}
  }

  lemma RoundTraced(n: nat)
    requires n < 16
    ensures RoundGives(HalfAt(n), HalfAt(n + 1), KeyAt(n), BoxedAt(n), HalfAt(n + 2))
  {
    Pair0Traced(n);
    Pair1Traced(n);
    Pair2Traced(n);
    Pair3Traced(n);
    MixingTraced(n);
    AddingTraced(n);
    BoxesInOrder(MixedAt(n), BoxedAt(n), n);
  }

  lemma BoxesInOrder(x: RoundKey, y: Half, n: nat)
    requires x == MixedAt(n) && y == BoxedAt(n)
    requires PairTraced(S1, S2, 0, n) && PairTraced(S3, S4, 1, n) && PairTraced(S5, S6, 2, n) && PairTraced(S7, S8, 3, n)
    ensures Substitutes(S_BOX, x, y)
  {
  }

  /** After n rounds the block spells entries n and n + 1. */
  lemma {:induction false} BlockTraced(b: (Bits, Bits), ks: seq<Bits>, n: nat)
    requires n <= 16 == |ks| && SOURCE_TABLES.WellFormed() && SpellsHalf(b.0, HalfAt(0)) && SpellsHalf(b.1, HalfAt(1))
    requires forall i :: 0 <= i < 16 ==> SpellsRoundKey(ks[i], KeyAt(i))
    ensures var c := Rounds(RoundFunction(SOURCE_TABLES), b, ks, n); SpellsHalf(c.0, HalfAt(n)) && SpellsHalf(c.1, HalfAt(n + 1))
    decreases n
  {
    if n > 0 {
      BlockTraced(b, ks, n - 1);
      RoundTraced(n - 1);
      var c := Rounds(RoundFunction(SOURCE_TABLES), b, ks, n - 1);
      RoundSpelled(c, ks[n - 1], HalfAt(n - 1), HalfAt(n), KeyAt(n - 1), BoxedAt(n - 1), HalfAt(n + 1));
    }
  }

  // ---------------------------------------------------------- the key schedule

  /** The left key halves: entry n after n rotations. */
  function LeftAt(n: nat): HalfKey {
    if n == 0 then HalfKey(XF, X4, XC, X0, XA, X7, XD)
    else if n == 1 then HalfKey(X7, X2, X6, X0, XD, XB, XE)
    else if n == 2 then HalfKey(X3, X1, X3, X8, XE, X5, XF)
    else if n == 3 then HalfKey(X4, XC, X0, XA, X7, XD, XF)
    else if n == 4 then HalfKey(X1, X3, X8, XE, X5, XF, X3)
    else if n == 5 then HalfKey(XC, X0, XA, X7, XD, XF, X4)
    else if n == 6 then HalfKey(X3, X8, XE, X5, XF, X3, X1)
    else if n == 7 then HalfKey(X0, XA, X7, XD, XF, X4, XC)
    else if n == 8 then HalfKey(X8, XE, X5, XF, X3, X1, X3)
    else if n == 9 then HalfKey(X4, XF, XA, XF, X9, X8, X1)
    else if n == 10 then HalfKey(XD, XB, XE, X7, X2, X6, X0)
    else if n == 11 then HalfKey(XF, XA, XF, X9, X8, X1, X4)
    else if n == 12 then HalfKey(XB, XE, X7, X2, X6, X0, XD)
    else if n == 13 then HalfKey(XA, XF, X9, X8, X1, X4, XF)
    else if n == 14 then HalfKey(XE, X7, X2, X6, X0, XD, XB)
    else if n == 15 then HalfKey(XF, X9, X8, X1, X4, XF, XA)
    else HalfKey(XF, X4, XC, X0, XA, X7, XD)
  }

  /** The right key halves. */
  function RightAt(n: nat): HalfKey {
    if n == 0 then HalfKey(XF, XF, XF, XF, X1, X0, XB)
    else if n == 1 then HalfKey(XF, XF, XF, XF, X0, X8, XD)
    else if n == 2 then HalfKey(XF, XF, XF, X7, X0, XC, XE)
    else if n == 3 then HalfKey(XF, XF, XF, X1, X0, XB, XF)
    else if n == 4 then HalfKey(XF, XF, X7, X0, XC, XE, XF)
    else if n == 5 then HalfKey(XF, XF, X1, X0, XB, XF, XF)
    else if n == 6 then HalfKey(XF, X7, X0, XC, XE, XF, XF)
    else if n == 7 then HalfKey(XF, X1, X0, XB, XF, XF, XF)
    else if n == 8 then HalfKey(X7, X0, XC, XE, XF, XF, XF)
    else if n == 9 then HalfKey(X3, X0, X6, XF, XF, XF, XF)
    else if n == 10 then HalfKey(X0, X8, XD, XF, XF, XF, XF)
    else if n == 11 then HalfKey(X0, X6, XF, XF, XF, XF, X3)
    else if n == 12 then HalfKey(X8, XD, XF, XF, XF, XF, X0)
    else if n == 13 then HalfKey(X6, XF, XF, XF, XF, X3, X0)
    else if n == 14 then HalfKey(XD, XF, XF, XF, XF, X0, X8)
    else if n == 15 then HalfKey(XF, XF, XF, XF, X3, X0, X6)
    else HalfKey(XF, XF, XF, XF, X1, X0, XB)
  }

  function TurnOnce(h: HalfKey): HalfKey {
    HalfKey(Digit4(h.a.q, h.a.r, h.a.s, h.b.p), Digit4(h.b.q, h.b.r, h.b.s, h.c.p), Digit4(h.c.q, h.c.r, h.c.s, h.d.p), Digit4(h.d.q, h.d.r, h.d.s, h.e.p),
            Digit4(h.e.q, h.e.r, h.e.s, h.f.p), Digit4(h.f.q, h.f.r, h.f.s, h.g.p), Digit4(h.g.q, h.g.r, h.g.s, h.a.p))
  }

  function Turn(h: HalfKey, k: nat): HalfKey {
    if k == 1 then TurnOnce(h) else TurnOnce(TurnOnce(h))
  }

  lemma SlideReads(x: Bits, i: nat, d: Digit4, e: Digit4)
    requires |x| == 28 && i + 4 <= 28 && Reads(x, i, d) && x[(i + 4) % 28] == e.p
    ensures Reads(Rotate(x, 1), i, Digit4(d.q, d.r, d.s, e.p))
  {
    RotateAt(x, 1, i);
    RotateAt(x, 1, i + 1);
    RotateAt(x, 1, i + 2);
    RotateAt(x, 1, i + 3);
  }

  lemma TurnOnceSpelled(x: Bits, h: HalfKey)
    requires SpellsHalfKey(x, h)
    ensures SpellsHalfKey(Rotate(x, 1), TurnOnce(h))
  {
    SlideReads(x, 0, h.a, h.b);
    SlideReads(x, 4, h.b, h.c);
    SlideReads(x, 8, h.c, h.d);
    SlideReads(x, 12, h.d, h.e);
    SlideReads(x, 16, h.e, h.f);
    SlideReads(x, 20, h.f, h.g);
    SlideReads(x, 24, h.g, h.a);
  }

  lemma TurnSpelled(x: Bits, h: HalfKey, k: nat)
    requires SpellsHalfKey(x, h) && 1 <= k <= 2
    ensures SpellsHalfKey(Rotate(x, k), Turn(h, k))
  {
    TurnOnceSpelled(x, h);
    if k == 2 {
      TurnOnceSpelled(Rotate(x, 1), TurnOnce(h));
      RotateRotate(x, 1, 1);
    }
  }

  /** Two key halves, joined. */
  predicate SpellsPair(x: Bits, l: HalfKey, r: HalfKey) {
    && |x| == 56
    && Reads(x, 0, l.a) && Reads(x, 4, l.b) && Reads(x, 8, l.c) && Reads(x, 12, l.d) && Reads(x, 16, l.e) && Reads(x, 20, l.f) && Reads(x, 24, l.g)
    && Reads(x, 28, r.a) && Reads(x, 32, r.b) && Reads(x, 36, r.c) && Reads(x, 40, r.d) && Reads(x, 44, r.e) && Reads(x, 48, r.f) && Reads(x, 52, r.g)
  }

  predicate Joins(z: Bits, x: Bits, y: Bits) {
    |x| == |y| && |z| == 2 * |x| && forall i :: 0 <= i < |x| ==> z[i] == x[i] && z[|x| + i] == y[i]
  }

  lemma JoinReads(z: Bits, x: Bits, y: Bits, i: nat, d: Digit4, e: Digit4)
    requires Joins(z, x, y) && i + 4 <= |x| && Reads(x, i, d) && Reads(y, i, e)
    ensures Reads(z, i, d) && Reads(z, |x| + i, e)
  {
    assert z[|x| + (i + 1)] == y[i + 1] && z[|x| + (i + 2)] == y[i + 2] && z[|x| + (i + 3)] == y[i + 3];
  }

  lemma JoinSpelled(z: Bits, x: Bits, y: Bits, l: HalfKey, r: HalfKey)
    requires Joins(z, x, y) && SpellsHalfKey(x, l) && SpellsHalfKey(y, r)
    ensures SpellsPair(z, l, r)
  {
    JoinReads(z, x, y, 0, l.a, r.a);
    JoinReads(z, x, y, 4, l.b, r.b);
    JoinReads(z, x, y, 8, l.c, r.c);
    JoinReads(z, x, y, 12, l.d, r.d);
    JoinReads(z, x, y, 16, l.e, r.e);
    JoinReads(z, x, y, 20, l.f, r.f);
    JoinReads(z, x, y, 24, l.g, r.g);
  }

  function ChooseKey(l: HalfKey, r: HalfKey): RoundKey {
    RoundKey(Digit4(l.d.q, l.e.p, l.c.r, l.f.s),
             Digit4(l.a.p, l.b.p, l.a.r, l.g.s),
             Digit4(l.d.r, l.b.q, l.f.p, l.c.q),
             Digit4(l.f.r, l.e.r, l.c.s, l.a.s),
             Digit4(l.g.q, l.b.s, l.d.s, l.b.r),
             Digit4(l.g.r, l.e.s, l.d.p, l.a.q),
             Digit4(r.d.p, r.f.s, r.a.r, r.c.p),
             Digit4(r.e.r, r.g.r, r.a.q, r.c.s),
             Digit4(r.f.r, r.b.q, r.b.p, r.e.s),
             Digit4(r.d.s, r.f.p, r.c.r, r.g.s),
             Digit4(r.b.q, r.g.p, r.e.q, r.d.q),
             Digit4(r.f.q, r.b.s, r.a.p, r.a.s))
  }

  lemma ChooseRows0(x: Bits, l: HalfKey, r: HalfKey)
    requires SpellsPair(x, l, r)
    ensures Picks(x, PC2[0], ChooseKey(l, r).a, ChooseKey(l, r).b)
    ensures Picks(x, PC2[1], ChooseKey(l, r).c, ChooseKey(l, r).d)
  {
  }

  lemma ChooseRows1(x: Bits, l: HalfKey, r: HalfKey)
    requires SpellsPair(x, l, r)
    ensures Picks(x, PC2[2], ChooseKey(l, r).e, ChooseKey(l, r).f)
    ensures Picks(x, PC2[3], ChooseKey(l, r).g, ChooseKey(l, r).h)
  {
  }

  lemma ChooseRows2(x: Bits, l: HalfKey, r: HalfKey)
    requires SpellsPair(x, l, r)
    ensures Picks(x, PC2[4], ChooseKey(l, r).i, ChooseKey(l, r).j)
    ensures Picks(x, PC2[5], ChooseKey(l, r).k, ChooseKey(l, r).l)
  {
  }

  lemma ChooseSpelled(x: Bits, l: HalfKey, r: HalfKey)
    requires SpellsPair(x, l, r) && Selects(PC2, 6, 56)
    ensures SpellsRoundKey(Permute(x, PC2), ChooseKey(l, r))
  {
    var z := ChooseKey(l, r);
    ChooseRows0(x, l, r);
    ChooseRows1(x, l, r);
    ChooseRows2(x, l, r);
    PickedRow(x, PC2, 0, z.a, z.b);
    PickedRow(x, PC2, 1, z.c, z.d);
    PickedRow(x, PC2, 2, z.e, z.f);
    PickedRow(x, PC2, 3, z.g, z.h);
    PickedRow(x, PC2, 4, z.i, z.j);
    PickedRow(x, PC2, 5, z.k, z.l);
  }

  lemma TurnsTraced(n: nat)
    requires n < 16 && |SHIFTS| == 16
    ensures 1 <= SHIFTS[n] <= 2 && LeftAt(n + 1) == Turn(LeftAt(n), SHIFTS[n]) && RightAt(n + 1) == Turn(RightAt(n), SHIFTS[n])
  {
    if n == 0 {} else if n == 1 {} else if n == 2 {} else if n == 3 {} else if n == 4 {} else if n == 5 {} else if n == 6 {} else if n == 7 {}
    else if n == 8 {} else if n == 9 {} else if n == 10 {} else if n == 11 {} else if n == 12 {} else if n == 13 {} else if n == 14 {} else {}
  }

  lemma ChoiceTraced(n: nat)
    requires n < 16
    ensures KeyAt(n) == ChooseKey(LeftAt(n + 1), RightAt(n + 1))
  {
    if n == 0 {} else if n == 1 {} else if n == 2 {} else if n == 3 {} else if n == 4 {} else if n == 5 {} else if n == 6 {} else if n == 7 {}
    else if n == 8 {} else if n == 9 {} else if n == 10 {} else if n == 11 {} else if n == 12 {} else if n == 13 {} else if n == 14 {} else {}
  }

  /** The key halves spell entry 0 at the start. */
  predicate StartTraced(key: Bits)
    requires |key| == 64 && SOURCE_TABLES.WellFormed()
  {
    SpellsHalfKey(KeyStart(SOURCE_TABLES, key).0, LeftAt(0)) && SpellsHalfKey(KeyStart(SOURCE_TABLES, key).1, RightAt(0))
  }

  /** Any list of key halves in which each entry is the one before, turned, follows the schedule. */
  lemma {:induction false} HalvesFollow(t: Tables, key: Bits, n: nat, left: nat -> HalfKey, right: nat -> HalfKey)
    requires n <= 16 && |key| == 64 && t.WellFormed()
    requires SpellsHalfKey(KeyStart(t, key).0, left(0)) && SpellsHalfKey(KeyStart(t, key).1, right(0))
    requires forall i :: 0 <= i < 16 ==>
               1 <= t.shifts[i] <= 2 && left(i + 1) == Turn(left(i), t.shifts[i]) && right(i + 1) == Turn(right(i), t.shifts[i])
    ensures SpellsHalfKey(Halves(t, key, n).0, left(n)) && SpellsHalfKey(Halves(t, key, n).1, right(n))
    decreases n
  {
    if n > 0 {
      HalvesFollow(t, key, n - 1, left, right);
      var h, k := Halves(t, key, n - 1), t.shifts[n - 1];
      assert left((n - 1) + 1) == Turn(left(n - 1), k);
      TurnSpelled(h.0, left(n - 1), k);
      TurnSpelled(h.1, right(n - 1), k);
    }
  }

  lemma HalvesTraced(key: Bits, n: nat)
    requires n <= 16 && |key| == 64 && SOURCE_TABLES.WellFormed() && StartTraced(key)
    ensures SpellsHalfKey(Halves(SOURCE_TABLES, key, n).0, LeftAt(n)) && SpellsHalfKey(Halves(SOURCE_TABLES, key, n).1, RightAt(n))
  {
    forall i | 0 <= i < 16
      ensures 1 <= SHIFTS[i] <= 2 && LeftAt(i + 1) == Turn(LeftAt(i), SHIFTS[i]) && RightAt(i + 1) == Turn(RightAt(i), SHIFTS[i])
    {
      TurnsTraced(i);
    }
    HalvesFollow(SOURCE_TABLES, key, n, LeftAt, RightAt);
  }

  lemma SubKeyTraced(key: Bits, n: nat)
    requires n < 16 && |key| == 64 && SOURCE_TABLES.WellFormed() && StartTraced(key)
    ensures SpellsRoundKey(SubKey(SOURCE_TABLES, key, n), KeyAt(n))
  {
    HalvesTraced(key, n + 1);
    ChoiceTraced(n);
    var h := Halves(SOURCE_TABLES, key, n + 1);
    ChooseJoined(h.0, h.1, LeftAt(n + 1), RightAt(n + 1));
  }

  lemma ChooseJoined(x: Bits, y: Bits, l: HalfKey, r: HalfKey)
    requires SpellsHalfKey(x, l) && SpellsHalfKey(y, r) && Selects(PC2, 6, 56)
    ensures SpellsRoundKey(Permute(x + y, PC2), ChooseKey(l, r))
  {
    assert Joins(x + y, x, y);
    JoinSpelled(x + y, x, y, l, r);
    ChooseSpelled(x + y, l, r);
  }

  // ------------------------------------------------------- bytes in, characters out

  /** "hellokey", "hellodec" and the sixteen characters of the ciphertext. */
  const KEY: seq<nat> := [104, 101, 108, 108, 111, 107, 101, 121]
  const PLAIN: seq<nat> := [104, 101, 108, 108, 111, 100, 101, 99]
  const CYPHER: seq<nat> := [56, 52, 51, 53, 56, 70, 54, 66, 49, 57, 66, 54, 67, 56, 55, 66]

  const KEY_BLOCK: Block := Block(X8, X6, X5, X6, XC, X6, XC, X6, XF, X6, XB, X6, X5, X6, X9, X7)
  const PLAIN_BLOCK: Block := Block(X8, X6, X5, X6, XC, X6, XC, X6, XF, X6, X4, X6, X5, X6, X3, X6)
  const CYPHER_BLOCK: Block := Block(X8, X4, X3, X5, X8, XF, X6, XB, X1, X9, XB, X6, XC, X8, X7, XB)

  lemma ByteReads(s: seq<nat>, i: nat, lo: Digit4, hi: Digit4)
    requires |s| == 8 && i < 8 && s[i] == NumberOfDigit(lo) + 16 * NumberOfDigit(hi)
    ensures Reads(ByteBits(s, 64), 8 * i, lo) && Reads(ByteBits(s, 64), 8 * i + 4, hi)
  {
    NibbleBits(s, i, NumberOfDigit(lo), NumberOfDigit(hi));
    ReadsNumber(ByteBits(s, 64), 8 * i, NumberOfDigit(lo), lo);
    ReadsNumber(ByteBits(s, 64), 8 * i + 4, NumberOfDigit(hi), hi);
  }

  lemma NibbleBits(s: seq<nat>, i: nat, a: nat, b: nat)
    requires |s| == 8 && i < 8 && a < 16 && s[i] == a + 16 * b
    ensures forall j :: 0 <= j < 4 ==> ByteBits(s, 64)[8 * i + j] == BitOf(a, j)
    ensures forall j :: 0 <= j < 4 ==> ByteBits(s, 64)[8 * i + 4 + j] == BitOf(b, j)
  {
    forall j | 0 <= j < 4
      ensures ByteBits(s, 64)[8 * i + j] == BitOf(a, j) && ByteBits(s, 64)[8 * i + 4 + j] == BitOf(b, j)
    {
      ByteBitAt(s, i, j);
      ByteBitAt(s, i, j + 4);
      LowBit(a, b, j);
      HighBit(a, b, j);
    }
  }

  lemma ByteBitAt(s: seq<nat>, i: nat, j: nat)
    requires |s| == 8 && i < 8 && j < 8
    ensures ByteBits(s, 64)[8 * i + j] == BitOf(s[i], j)
  {
    assert (8 * i + j) / 8 == i && (8 * i + j) % 8 == j;
  }

  lemma HighBit(a: nat, b: nat, j: nat)
    requires a < 16
    ensures BitOf(a + 16 * b, j + 4) == BitOf(b, j)
  {
    var v := a + 16 * b;
    assert v / 2 / 2 / 2 / 2 == b;
    assert BitOf(v, j + 4) == BitOf(v / 2, j + 3) == BitOf(v / 2 / 2, j + 2) == BitOf(v / 2 / 2 / 2, j + 1);
  }

  lemma LowBit(a: nat, b: nat, j: nat)
    requires j < 4
    ensures BitOf(a + 16 * b, j) == BitOf(a, j)
  {
    var v := a + 16 * b;
    assert v / 2 == a / 2 + 8 * b && v / 2 / 2 == a / 2 / 2 + 4 * b && v / 2 / 2 / 2 == a / 2 / 2 / 2 + 2 * b;
    if j == 2 {
      assert BitOf(v, 2) == BitOf(v / 2, 1) == BitOf(v / 2 / 2, 0);
      assert BitOf(a, 2) == BitOf(a / 2, 1) == BitOf(a / 2 / 2, 0);
    } else if j == 3 {
      assert BitOf(v, 3) == BitOf(v / 2, 2) == BitOf(v / 2 / 2, 1) == BitOf(v / 2 / 2 / 2, 0);
      assert BitOf(a, 3) == BitOf(a / 2, 2) == BitOf(a / 2 / 2, 1) == BitOf(a / 2 / 2 / 2, 0);
    }
  }

  lemma BytesSpelled(s: seq<nat>, w: Block)
    requires |s| == 8
    requires s[0] == NumberOfDigit(w.a) + 16 * NumberOfDigit(w.b) && s[1] == NumberOfDigit(w.c) + 16 * NumberOfDigit(w.d)
    requires s[2] == NumberOfDigit(w.e) + 16 * NumberOfDigit(w.f) && s[3] == NumberOfDigit(w.g) + 16 * NumberOfDigit(w.h)
    requires s[4] == NumberOfDigit(w.i) + 16 * NumberOfDigit(w.j) && s[5] == NumberOfDigit(w.k) + 16 * NumberOfDigit(w.l)
    requires s[6] == NumberOfDigit(w.m) + 16 * NumberOfDigit(w.n) && s[7] == NumberOfDigit(w.o) + 16 * NumberOfDigit(w.p)
    ensures SpellsBlock(ByteBits(s, 64), w)
  {
    ByteReads(s, 0, w.a, w.b);
    ByteReads(s, 1, w.c, w.d);
    ByteReads(s, 2, w.e, w.f);
    ByteReads(s, 3, w.g, w.h);
    ByteReads(s, 4, w.i, w.j);
    ByteReads(s, 5, w.k, w.l);
    ByteReads(s, 6, w.m, w.n);
    ByteReads(s, 7, w.o, w.p);
  }

  /** The sixteen digits are the sixteen characters. */
  lemma HexReads(x: Bits, i: nat, d: Digit4)
    requires |x| == 64 && i < 16 && Reads(x, 4 * i, d)
    ensures HexOf(x)[i] == HexChar(NumberOfDigit(d))
  {
    FeistelCipher.FourBits(x[4 * i..4 * i + 4]);
  }

  const ENTERED: Block := Block(X9, X0, X8, XB, XF, XF, X0, X0, XB, X4, XE, X7, X0, X0, XF, XF)
  const LEAVING: Block := Block(X5, X5, X6, XA, X5, X3, XB, X3, XD, X4, X3, X1, X9, X7, X4, XE)

  lemma KeyStartsRows0(x: Bits)
    requires SpellsBlock(x, KEY_BLOCK)
    ensures Picks(x, PC1[0], XF, X4)
    ensures Picks(x, PC1[1], XC, X0)
    ensures Picks(x, PC1[2], XA, X7)
    ensures Picks(x, PC1[3], XD, XF)
  {
  }

  lemma KeyStartsRows1(x: Bits)
    requires SpellsBlock(x, KEY_BLOCK)
    ensures Picks(x, PC1[4], XF, XF)
    ensures Picks(x, PC1[5], XF, X1)
    ensures Picks(x, PC1[6], X0, XB)
  {
  }

  lemma KeyStarts(x: Bits)
    requires SpellsBlock(x, KEY_BLOCK) && Selects(PC1, 7, 64)
    ensures SpellsPair(Permute(x, PC1), LeftAt(0), RightAt(0))
  {
    KeyStartsRows0(x);
    KeyStartsRows1(x);
    PickedRow(x, PC1, 0, XF, X4);
    PickedRow(x, PC1, 1, XC, X0);
    PickedRow(x, PC1, 2, XA, X7);
    PickedRow(x, PC1, 3, XD, XF);
    PickedRow(x, PC1, 4, XF, XF);
    PickedRow(x, PC1, 5, XF, X1);
    PickedRow(x, PC1, 6, X0, XB);
  }

  lemma EntersRows0(x: Bits)
    requires SpellsBlock(x, PLAIN_BLOCK)
    ensures Picks(x, IP[0], X9, X0)
    ensures Picks(x, IP[1], X8, XB)
    ensures Picks(x, IP[2], XF, XF)
    ensures Picks(x, IP[3], X0, X0)
  {
  }

  lemma EntersRows1(x: Bits)
    requires SpellsBlock(x, PLAIN_BLOCK)
    ensures Picks(x, IP[4], XB, X4)
    ensures Picks(x, IP[5], XE, X7)
    ensures Picks(x, IP[6], X0, X0)
    ensures Picks(x, IP[7], XF, XF)
  {
  }

  lemma Enters(x: Bits)
    requires SpellsBlock(x, PLAIN_BLOCK) && Selects(IP, 8, 64)
    ensures SpellsBlock(Permute(x, IP), ENTERED)
  {
    EntersRows0(x);
    EntersRows1(x);
    PickedRow(x, IP, 0, X9, X0);
    PickedRow(x, IP, 1, X8, XB);
    PickedRow(x, IP, 2, XF, XF);
    PickedRow(x, IP, 3, X0, X0);
    PickedRow(x, IP, 4, XB, X4);
    PickedRow(x, IP, 5, XE, X7);
    PickedRow(x, IP, 6, X0, X0);
    PickedRow(x, IP, 7, XF, XF);
  }

  lemma LeavesRows0(x: Bits)
    requires SpellsBlock(x, LEAVING)
    ensures Picks(x, IPR[0], X8, X4)
    ensures Picks(x, IPR[1], X3, X5)
    ensures Picks(x, IPR[2], X8, XF)
    ensures Picks(x, IPR[3], X6, XB)
  {
  }

  lemma LeavesRows1(x: Bits)
    requires SpellsBlock(x, LEAVING)
    ensures Picks(x, IPR[4], X1, X9)
    ensures Picks(x, IPR[5], XB, X6)
    ensures Picks(x, IPR[6], XC, X8)
    ensures Picks(x, IPR[7], X7, XB)
  {
  }

  lemma Leaves(x: Bits)
    requires SpellsBlock(x, LEAVING) && Selects(IPR, 8, 64)
    ensures SpellsBlock(Permute(x, IPR), CYPHER_BLOCK)
  {
    LeavesRows0(x);
    LeavesRows1(x);
    PickedRow(x, IPR, 0, X8, X4);
    PickedRow(x, IPR, 1, X3, X5);
    PickedRow(x, IPR, 2, X8, XF);
    PickedRow(x, IPR, 3, X6, XB);
    PickedRow(x, IPR, 4, X1, X9);
    PickedRow(x, IPR, 5, XB, X6);
    PickedRow(x, IPR, 6, XC, X8);
    PickedRow(x, IPR, 7, X7, XB);
  }

  lemma SplitReads(z: Bits, x: Bits, y: Bits, i: nat, d: Digit4, e: Digit4)
    requires Joins(z, x, y) && i + 4 <= |x| && Reads(z, i, d) && Reads(z, |x| + i, e)
    ensures Reads(x, i, d) && Reads(y, i, e)
  {
    assert z[|x| + (i + 1)] == y[i + 1] && z[|x| + (i + 2)] == y[i + 2] && z[|x| + (i + 3)] == y[i + 3];
  }

  lemma SplitPair(z: Bits, x: Bits, y: Bits, l: HalfKey, r: HalfKey)
    requires Joins(z, x, y) && SpellsPair(z, l, r)
    ensures SpellsHalfKey(x, l) && SpellsHalfKey(y, r)
  {
    SplitReads(z, x, y, 0, l.a, r.a);
    SplitReads(z, x, y, 4, l.b, r.b);
    SplitReads(z, x, y, 8, l.c, r.c);
    SplitReads(z, x, y, 12, l.d, r.d);
    SplitReads(z, x, y, 16, l.e, r.e);
    SplitReads(z, x, y, 20, l.f, r.f);
    SplitReads(z, x, y, 24, l.g, r.g);
  }

  /** The block's halves, joined. */
  predicate BlockOf(w: Block, l: Half, r: Half) {
    && w.a == l.a && w.b == l.b && w.c == l.c && w.d == l.d && w.e == l.e && w.f == l.f && w.g == l.g && w.h == l.h
    && w.i == r.a && w.j == r.b && w.k == r.c && w.l == r.d && w.m == r.e && w.n == r.f && w.o == r.g && w.p == r.h
  }

  lemma SplitBlock(z: Bits, x: Bits, y: Bits, w: Block, l: Half, r: Half)
    requires Joins(z, x, y) && SpellsBlock(z, w) && BlockOf(w, l, r)
    ensures SpellsHalf(x, l) && SpellsHalf(y, r)
  {
    SplitReads(z, x, y, 0, l.a, r.a);
    SplitReads(z, x, y, 4, l.b, r.b);
    SplitReads(z, x, y, 8, l.c, r.c);
    SplitReads(z, x, y, 12, l.d, r.d);
    SplitReads(z, x, y, 16, l.e, r.e);
    SplitReads(z, x, y, 20, l.f, r.f);
    SplitReads(z, x, y, 24, l.g, r.g);
    SplitReads(z, x, y, 28, l.h, r.h);
  }

  lemma JoinBlock(z: Bits, x: Bits, y: Bits, w: Block, l: Half, r: Half)
    requires Joins(z, x, y) && SpellsHalf(x, l) && SpellsHalf(y, r) && BlockOf(w, l, r)
    ensures SpellsBlock(z, w)
  {
    JoinReads(z, x, y, 0, l.a, r.a);
    JoinReads(z, x, y, 4, l.b, r.b);
    JoinReads(z, x, y, 8, l.c, r.c);
    JoinReads(z, x, y, 12, l.d, r.d);
    JoinReads(z, x, y, 16, l.e, r.e);
    JoinReads(z, x, y, 20, l.f, r.f);
    JoinReads(z, x, y, 24, l.g, r.g);
    JoinReads(z, x, y, 28, l.h, r.h);
  }

  // ------------------------------------------------------------------ the result

  lemma StartsTraced()
    requires SOURCE_TABLES.WellFormed()
    ensures |KEY| == 8 && StartTraced(ByteBits(KEY, 64))
  {
    var key := ByteBits(KEY, 64);
    KeySpelled();
    KeyStarts(key);
    var z := Permute(key, PC1);
    assert Joins(z, z[..28], z[28..]);
    SplitPair(z, z[..28], z[28..], LeftAt(0), RightAt(0));
  }

  lemma KeySpelled()
    ensures |KEY| == 8 && SpellsBlock(ByteBits(KEY, 64), KEY_BLOCK)
  {
    BytesSpelled(KEY, KEY_BLOCK);
  }

  lemma ScheduleTraced(key: Bits)
    requires SOURCE_TABLES.WellFormed() && |key| == 64 && StartTraced(key)
    ensures forall n :: 0 <= n < 16 ==> SpellsRoundKey(Schedule(SOURCE_TABLES, key)[n], KeyAt(n))
  {
    forall n | 0 <= n < 16
      ensures SpellsRoundKey(Schedule(SOURCE_TABLES, key)[n], KeyAt(n))
    {
      SubKeyTraced(key, n);
    }
  }

  lemma EnterTraced(m: Bits)
    requires SOURCE_TABLES.WellFormed() && SpellsBlock(m, PLAIN_BLOCK)
    ensures SpellsHalf(Enter(SOURCE_TABLES, m).0, HalfAt(0)) && SpellsHalf(Enter(SOURCE_TABLES, m).1, HalfAt(1))
  {
    Enters(m);
    assert BlockOf(ENTERED, HalfAt(0), HalfAt(1));
    var z := Permute(m, IP);
    assert Joins(z, z[..32], z[32..]);
    SplitBlock(z, z[..32], z[32..], ENTERED, HalfAt(0), HalfAt(1));
  }

  lemma LeaveTraced(c: (Bits, Bits))
    requires SOURCE_TABLES.WellFormed() && SpellsHalf(c.0, HalfAt(16)) && SpellsHalf(c.1, HalfAt(17))
    ensures SpellsBlock(Leave(SOURCE_TABLES, c), CYPHER_BLOCK)
  {
    assert BlockOf(LEAVING, HalfAt(16), HalfAt(17));
    assert Joins(c.0 + c.1, c.0, c.1);
    JoinBlock(c.0 + c.1, c.0, c.1, LEAVING, HalfAt(16), HalfAt(17));
    Leaves(c.0 + c.1);
  }

  lemma EncryptTraced(ks: seq<Bits>, m: Bits)
    requires SOURCE_TABLES.WellFormed() && GoodKeys(ks) && SpellsBlock(m, PLAIN_BLOCK)
    requires forall n :: 0 <= n < 16 ==> SpellsRoundKey(ks[n], KeyAt(n))
    ensures SpellsBlock(EncryptBits(SOURCE_TABLES, ks, m), CYPHER_BLOCK)
  {
    EnterTraced(m);
    BlockTraced(Enter(SOURCE_TABLES, m), ks, 16);
    LeaveTraced(Rounds(RoundFunction(SOURCE_TABLES), Enter(SOURCE_TABLES, m), ks, 16));
  }

  function DigitOf(w: Block, i: nat): Digit4 {
    if i == 0 then w.a else if i == 1 then w.b else if i == 2 then w.c else if i == 3 then w.d else if i == 4 then w.e
    else if i == 5 then w.f else if i == 6 then w.g else if i == 7 then w.h else if i == 8 then w.i else if i == 9 then w.j
    else if i == 10 then w.k else if i == 11 then w.l else if i == 12 then w.m else if i == 13 then w.n else if i == 14 then w.o else w.p
  }

  lemma DigitReads(x: Bits, w: Block, i: nat)
    requires SpellsBlock(x, w) && i < 16
    ensures Reads(x, 4 * i, DigitOf(w, i))
  {
    if i == 0 {} else if i == 1 {} else if i == 2 {} else if i == 3 {} else if i == 4 {} else if i == 5 {} else if i == 6 {} else if i == 7 {}
    else if i == 8 {} else if i == 9 {} else if i == 10 {} else if i == 11 {} else if i == 12 {} else if i == 13 {} else if i == 14 {} else {}
  }

  lemma CypherText(i: nat)
    requires i < 16
    ensures |CYPHER| == 16 && CYPHER[i] == HexChar(NumberOfDigit(DigitOf(CYPHER_BLOCK, i)))
  {
    if i == 0 {} else if i == 1 {} else if i == 2 {} else if i == 3 {} else if i == 4 {} else if i == 5 {} else if i == 6 {} else if i == 7 {}
    else if i == 8 {} else if i == 9 {} else if i == 10 {} else if i == 11 {} else if i == 12 {} else if i == 13 {} else if i == 14 {} else {}
  }

  lemma CypherSpelled(x: Bits)
    requires SpellsBlock(x, CYPHER_BLOCK)
    ensures HexOf(x) == CYPHER
  {
    assert |CYPHER| == 16;
    forall i | 0 <= i < 16
      ensures HexOf(x)[i] == CYPHER[i]
    {
      DigitReads(x, CYPHER_BLOCK, i);
      HexReads(x, i, DigitOf(CYPHER_BLOCK, i));
      CypherText(i);
    }
  }

  lemma PlainSpelled()
    ensures |PLAIN| == 8 && SpellsBlock(ByteBits(PLAIN, 64), PLAIN_BLOCK)
  {
    BytesSpelled(PLAIN, PLAIN_BLOCK);
  }

  /** The ciphertext of the program's own block: 84358F6B19B6C87B. */
  lemma WorkedBlock()
    ensures SOURCE_TABLES.WellFormed() && |KEY| == 8 && |PLAIN| == 8
    ensures Encipher(SOURCE_TABLES, Schedule(SOURCE_TABLES, ByteBits(KEY, 64)), PLAIN) == CYPHER
  {
    SourceTablesWellFormed();
    StartsTraced();
    ScheduleTraced(ByteBits(KEY, 64));
    PlainSpelled();
    var ks := Schedule(SOURCE_TABLES, ByteBits(KEY, 64));
    EncryptTraced(ks, ByteBits(PLAIN, 64));
    CypherSpelled(EncryptBits(SOURCE_TABLES, ks, ByteBits(PLAIN, 64)));
  }

  /** Lines 243-257: set the key and encrypt. */
  method EncryptExample() returns (cypher: seq<nat>)
    ensures cypher == CYPHER
  {
    WorkedBlock();
    var des := new FeistelCipher.Des(SOURCE_TABLES);
    des.SetKey(KEY);
    cypher := des.Encrypt(PLAIN);
  }

}
