/** Bit-row boards: get_matrix and get_bin of cpp/test/util.c, and the bit-parallel count of
    covered holes gt_hl of cpp/test/eipd.c.  Row i of the board is the int brd[i]; its bit j is
    the cell in column j. */
module Board {
  import opened Arithmetic

  // ---------------------------------------------------- matrix and bit rows

  method GetMatrix(b: seq<int>, c: array2<int>)
    requires c.Length0 == |b|
    modifies c
    ensures forall i, j :: 0 <= i < |b| && 0 <= j < c.Length1 ==> c[i, j] == Bit(b[i], j)
  {
    var i := 0;
    while i < |b|
      invariant 0 <= i <= |b|
      invariant forall k, j :: 0 <= k < i && 0 <= j < c.Length1 ==> c[k, j] == Bit(b[k], j)
    {
      var j := 0;
      while j < c.Length1
        invariant 0 <= j <= c.Length1
        invariant forall k, l :: 0 <= k < i && 0 <= l < c.Length1 ==> c[k, l] == Bit(b[k], l)
        invariant forall l :: 0 <= l < j ==> c[i, l] == Bit(b[i], l)
      {
        c[i, j] := Bit(b[i], j);
        j := j + 1;
      }
      i := i + 1;
    }
  }

  method GetBin(m: array2<int>, b: array<int>)
    requires b.Length == m.Length0
    modifies b
    ensures forall i :: 0 <= i < b.Length ==> b[i] == MatrixRow(m, i, m.Length1)
  {
    var i := 0;
    while i < b.Length
      invariant 0 <= i <= b.Length
      invariant forall k :: 0 <= k < i ==> b[k] == MatrixRow(m, k, m.Length1)
    {
      var tmp := 0;
      var j := 0;
      while j < m.Length1
        invariant 0 <= j <= m.Length1 && tmp == MatrixRow(m, i, j)
      {
        tmp := tmp + m[i, j] * Pow(2, j);
        j := j + 1;
      }
      b[i] := tmp;
      i := i + 1;
    }
  }

  function MatrixRow(m: array2<int>, i: nat, n: nat): int
    reads m
    requires i < m.Length0 && n <= m.Length1
  {
    if n == 0 then 0 else MatrixRow(m, i, n - 1) + m[i, n - 1] * Pow(2, n - 1)
  }

  /** The first n cells of a matrix row that hold a number's bits add up to it modulo 2^n. */
  lemma {:induction false} MatrixRowOfBits(m: array2<int>, i: nat, row: int, n: nat)
    requires i < m.Length0 && n <= m.Length1 && forall j :: 0 <= j < n ==> m[i, j] == Bit(row, j)
    ensures 0 < Pow(2, n) && MatrixRow(m, i, n) == row % Pow(2, n)
    decreases n
  {
    PowPositive(2, n);
    if n > 0 {
      MatrixRowOfBits(m, i, row, n - 1);
      SplitBit(row, Pow(2, n - 1));
    }
  }

  /** get_bin undoes get_matrix for rows that fit the columns. */
  method RoundTrip(rows: seq<int>, col: nat) returns (b: array<int>)
    requires forall i :: 0 <= i < |rows| ==> 0 <= rows[i] < Pow(2, col)
    ensures b[..] == rows
  {
    var c := new int[|rows|, col];
    b := new int[|rows|];
    GetMatrix(rows, c);
    GetBin(c, b);
    forall i | 0 <= i < |rows|
      ensures b[i] == rows[i]
    {
      MatrixRowOfBits(c, i, rows[i], col);
      DivModUnique(rows[i], Pow(2, col), 0, rows[i]);
    }
  }

  // -------------------------------------------------------------- hole counting

  predicate Filled(brd: seq<int>, i: nat, j: nat)
    requires i < |brd|
  {
    Bit(brd[i], j) == 1
  }

  /** An empty cell with a filled cell in some higher-indexed row of its column. */
  predicate CoveredHole(brd: seq<int>, i: nat, j: nat)
    requires i < |brd|
  {
    !Filled(brd, i, j) && FilledAbove(brd, i, j)
  }

  predicate FilledAbove(brd: seq<int>, i: nat, j: nat) {
    exists k :: i < k < |brd| && Filled(brd, k, j)
  }

  /** The covered holes of rows above `row`, and of `row` left of column `col`; row 0 and the
      last row are never counted. */
  function Holes(brd: seq<int>, width: nat, row: nat, col: nat): set<(nat, nat)> {
    set i: nat, j: nat | 1 <= i < |brd| - 1 && j < width && (i > row || (i == row && j < col)) && CoveredHole(brd, i, j) :: (i, j)
  }

  /** The plain definition: all covered holes in rows 1 .. rw_n - 2. */
  function AllHoles(brd: seq<int>, width: nat): set<(nat, nat)> {
    set i: nat, j: nat | 1 <= i < |brd| - 1 && j < width && CoveredHole(brd, i, j) :: (i, j)
  }

  /** A 32-bit word by its bits. */
  function Word(row: int): (w: seq<bool>)
    ensures |w| == 32
  {
    seq(32, j requires 0 <= j < 32 => Bit(row, j) == 1)
  }

  /** ~c & (p | h) */
  function Uncovered(c: seq<bool>, p: seq<bool>, h: seq<bool>): (w: seq<bool>)
    requires |c| == |p| == |h|
    ensures |w| == |c| && forall j :: 0 <= j < |c| ==> w[j] == (!c[j] && (p[j] || h[j]))
  {
    seq(|c|, j requires 0 <= j < |c| => !c[j] && (p[j] || h[j]))
  }

  /** h is what rw_hl holds once row i is processed. */
  ghost predicate RowHoles(brd: seq<int>, i: nat, h: seq<bool>)
    requires i < |brd| && |h| == 32
  {
    forall j :: 0 <= j < 32 ==> (h[j] <==> CoveredHole(brd, i, j))
  }

  lemma NextRowHoles(brd: seq<int>, i: nat, h: seq<bool>)
    requires i + 1 < |brd| && |h| == 32 && RowHoles(brd, i + 1, h)
    ensures RowHoles(brd, i, Uncovered(Word(brd[i]), Word(brd[i + 1]), h))
  {
    var w := Uncovered(Word(brd[i]), Word(brd[i + 1]), h);
    forall j | 0 <= j < 32
      ensures w[j] <==> CoveredHole(brd, i, j)
    {
      AboveStep(brd, i, j);
    }
  }

  lemma AboveStep(brd: seq<int>, i: nat, j: nat)
    requires i + 1 < |brd|
    ensures FilledAbove(brd, i, j) <==> Filled(brd, i + 1, j) || FilledAbove(brd, i + 1, j)
  {
    if FilledAbove(brd, i, j) {
      var k :| i < k < |brd| && Filled(brd, k, j);
      assert k == i + 1 || i + 1 < k;
    }
  }

  lemma HolesMember(brd: seq<int>, width: nat, row: nat, col: nat, p: (nat, nat))
    ensures p in Holes(brd, width, row, col) <==>
              && 1 <= p.0 < |brd| - 1 && p.1 < width
              && (p.0 > row || (p.0 == row && p.1 < col)) && CoveredHole(brd, p.0, p.1)
  {
    assert p == (p.0, p.1);
  }

  lemma HolesGrow(brd: seq<int>, width: nat, row: nat, j: nat)
    requires 1 <= row < |brd| - 1 && j < width
    ensures Holes(brd, width, row, j + 1) == Holes(brd, width, row, j) + if CoveredHole(brd, row, j) then {(row, j)} else {}
  {
    var d: set<(nat, nat)> := if CoveredHole(brd, row, j) then {(row, j)} else {};
    forall p: (nat, nat)
      ensures p in Holes(brd, width, row, j + 1) <==> p in Holes(brd, width, row, j) || p in d
    {
      HolesMember(brd, width, row, j, p);
      HolesMember(brd, width, row, j + 1, p);
    }
  }

  lemma HolesStep(brd: seq<int>, width: nat, row: nat, j: nat)
    requires 1 <= row < |brd| - 1 && j < width
    ensures |Holes(brd, width, row, j + 1)| == |Holes(brd, width, row, j)| + if CoveredHole(brd, row, j) then 1 else 0
  {
    HolesGrow(brd, width, row, j);
    HolesMember(brd, width, row, j, (row, j));
  }

  /** gt_hl counts exactly the covered holes of the matrix. */
  method CountHoles(brd: seq<int>, width: nat) returns (hl: nat)
    requires |brd| >= 1 && width <= 32
    ensures hl == |AllHoles(brd, width)|
  {
    hl := 0;
    var rwHl: seq<bool> := seq(32, j => false);
    var pRw := Word(brd[|brd| - 1]);
    var i := |brd| - 2;
    assert RowHoles(brd, |brd| - 1, rwHl);
    assert i >= 0 ==> Holes(brd, width, i, 0) == {};
    while i > 0
      invariant -1 <= i <= |brd| - 2 && |rwHl| == 32
      invariant pRw == Word(brd[i + 1]) && RowHoles(brd, i + 1, rwHl)
      invariant i >= 0 ==> hl == |Holes(brd, width, i, 0)|
      invariant i < 0 ==> |brd| == 1 && hl == 0
    {
      var cRw := Word(brd[i]);
      NextRowHoles(brd, i, rwHl);
      rwHl := Uncovered(cRw, pRw, rwHl);
      var j := 0;
      while j < width
        invariant 0 <= j <= width && hl == |Holes(brd, width, i, j)|
      {
        HolesStep(brd, width, i, j);
        hl := hl + if rwHl[j] then 1 else 0;
        j := j + 1;
      }
      pRw := cRw;
      assert Holes(brd, width, i, width) == Holes(brd, width, i - 1, 0);
      i := i - 1;
    }
    if i == 0 {
      assert Holes(brd, width, 0, 0) == AllHoles(brd, width);
    } else {
      assert AllHoles(brd, width) == {};
    }
  }
}
