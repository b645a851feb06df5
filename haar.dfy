/**
 * The Haar transform of 3/lib/haar.hpp (with the `normalised` flag) and
 * 3/lib/haar.cpp (always unnormalised): each level zeroes an odd last row,
 * pairs the rows of the leading block, zeroes an odd last column, pairs its
 * columns, moves the four parity bands into quadrants and recurses on the
 * top-left one.
 *
 * `sqrt(2)` is a parameter `s`; the round trips need only `s > 0` and
 * `s * s == 2`.
 */
module Haar {
  import opened Images
  import opened LiftingSteps
  import opened Quadrants

  /** `s` stands for the square root of 2. */
  predicate IsSqrt2(s: real) {
    s > 0.0 && s * s == 2.0
  }

  /**
   * What a pair of entries (a, b) of two neighbouring rows or columns becomes:
   * the forward step with factor `c` (lines 39-41 and 50-52 of haar.hpp), or
   * the inverse step of either flavour (lines 98-105 and 111-118).
   */
  datatype PairOp = Average(c: real) | Recover(normalised: bool, s: real)

  /** The inverse step divides by `s` only when normalised. */
  predicate Defined(op: PairOp) {
    op.Recover? && op.normalised ==> op.s != 0.0
  }

  function Combine(a: real, b: real, op: PairOp): (real, real)
    requires Defined(op)
  {
    match op
    case Average(c) =>
      var avg := (a + b) / 2.0;
      (c * avg, c * (a - avg))
    case Recover(normalised, s) =>
      if normalised then
        var x := (a + b) / s;
        (x, x - s * b)
      else
        var x := a + b;
        (x, x - 2.0 * b)
  }

  /** A pair step as a function on the pair of entries it rewrites. */
  type Step = (real, real) -> (real, real)

  /** The pair step `op` as a function value. */
  function StepOf(op: PairOp): Step
    requires Defined(op)
  {
    (a, b) => Combine(a, b, op)
  }

  /** The forward factor `_c`: `sqrt(2)` when normalised, 1 otherwise. */
  function Factor(normalised: bool, s: real): real {
    if normalised then s else 1.0
  }

  /** The forward pair step is (c(a+b)/2, c(a-b)/2). */
  lemma AverageIsHalfSumAndDifference(a: real, b: real, c: real)
    ensures Combine(a, b, Average(c)).0 == c * (a + b) / 2.0
    ensures Combine(a, b, Average(c)).1 == c * (a - b) / 2.0
  {
  }

  /** Either order of the forward and the inverse pair step gives the pair back. */
  lemma PairUndo(a: real, b: real, normalised: bool, s: real)
    requires normalised ==> IsSqrt2(s)
    ensures Defined(Recover(normalised, s))
    ensures var f := Combine(a, b, Average(Factor(normalised, s)));
      Combine(f.0, f.1, Recover(normalised, s)).0 == a && Combine(f.0, f.1, Recover(normalised, s)).1 == b
    ensures var r := Combine(a, b, Recover(normalised, s));
      Combine(r.0, r.1, Average(Factor(normalised, s))).0 == a && Combine(r.0, r.1, Average(Factor(normalised, s))).1 == b
  {
    if normalised {
      NormalisedThere(a, b, s);
      NormalisedBack(a, b, s);
    }
  }

  lemma NormalisedThere(a: real, b: real, s: real)
    requires IsSqrt2(s)
    ensures var f := Combine(a, b, Average(s));
      Combine(f.0, f.1, Recover(true, s)).0 == a && Combine(f.0, f.1, Recover(true, s)).1 == b
  {
    var avg := (a + b) / 2.0;
    var p, q := s * avg, s * (a - avg);
    assert p + q == s * a;
    var x := (p + q) / s;
    assert x == a;
    assert s * q == (s * s) * (a - avg);
    assert x - s * q == b;
    assert Combine(a, b, Average(s)).0 == p && Combine(a, b, Average(s)).1 == q;
  }

  lemma NormalisedBack(a: real, b: real, s: real)
    requires IsSqrt2(s)
    ensures var r := Combine(a, b, Recover(true, s));
      Combine(r.0, r.1, Average(s)).0 == a && Combine(r.0, r.1, Average(s)).1 == b
  {
    var x := (a + b) / s;
    assert s * x == a + b;
    var y := x - s * b;
    var avg := (x + y) / 2.0;
    assert x - avg == s * b / 2.0;
    assert s * avg == s * x - (s * s) * b / 2.0;
    assert s * avg == a;
    assert s * (x - avg) == (s * s) * b / 2.0;
    assert s * (x - avg) == b;
    assert Combine(a, b, Recover(true, s)).0 == x && Combine(a, b, Recover(true, s)).1 == y;
  }

  // ---------------------------------------------------------------------
  // The matrix steps of one level
  // ---------------------------------------------------------------------

  /** Row `r` zeroed in its first `cols` entries (lines 33-35). */
  function ZeroRow(g: Matrix, r: int, cols: int): (z: Matrix)
    requires IsMatrix(g, |g|, Width(g)) && 0 <= r < |g| && 0 <= cols <= Width(g)
    ensures IsMatrix(z, |g|, Width(g)) && Width(z) == Width(g)
  {
    g[r := seq(Width(g), q requires 0 <= q < Width(g) => if q < cols then 0.0 else g[r][q])]
  }

  /** Column `c` zeroed in its first `rows` entries (lines 44-46). */
  function ZeroCol(g: Matrix, c: int, rows: int): (z: Matrix)
    requires IsMatrix(g, |g|, Width(g)) && 0 <= c < Width(g) && 0 <= rows <= |g|
    ensures IsMatrix(z, |g|, Width(g)) && Width(z) == Width(g)
  {
    seq(|g|, p requires 0 <= p < |g| => if p < rows then g[p][c := 0.0] else g[p])
  }

  /** The upper row of a pair of rows `u` over `v`, after the pair step on its first `cols` columns. */
  function Upper(u: seq<real>, v: seq<real>, cols: int, f: Step): (r: seq<real>)
    requires |u| == |v|
    ensures |r| == |u|
  {
    seq(|u|, q requires 0 <= q < |u| => if q < cols then f(u[q], v[q]).0 else u[q])
  }

  /** The lower row of the pair, likewise. */
  function Lower(u: seq<real>, v: seq<real>, cols: int, f: Step): (r: seq<real>)
    requires |u| == |v|
    ensures |r| == |u|
  {
    seq(|u|, q requires 0 <= q < |u| => if q < cols then f(u[q], v[q]).1 else v[q])
  }

  /** Rows `i` and `i + 1` paired in their first `cols` columns. */
  function PairTwoRows(g: Matrix, i: int, cols: int, f: Step): (r: Matrix)
    requires IsMatrix(g, |g|, Width(g)) && 0 <= i && i + 1 < |g|
    ensures IsMatrix(r, |g|, Width(g)) && Width(r) == Width(g)
  {
    g[i := Upper(g[i], g[i + 1], cols, f)][i + 1 := Lower(g[i], g[i + 1], cols, f)]
  }

  /** The row pairs (0, 1), (2, 3), ... below `rows`, each paired in its first `cols` columns. */
  function PairRows(g: Matrix, rows: int, cols: int, f: Step): (r: Matrix)
    requires IsMatrix(g, |g|, Width(g)) && 0 <= rows <= |g| && rows % 2 == 0
    ensures IsMatrix(r, |g|, Width(g)) && Width(r) == Width(g)
    ensures forall p :: rows <= p < |g| ==> r[p] == g[p]
  {
    seq(|g|, p requires 0 <= p < |g| =>
      if p < rows then
        if p % 2 == 0 then Upper(g[p], g[p + 1], cols, f) else Lower(g[p - 1], g[p], cols, f)
      else g[p])
  }

  /** Entries `j` and `j + 1` of row `u` paired. */
  function PairInRow(u: seq<real>, j: int, f: Step): (r: seq<real>)
    requires 0 <= j && j + 1 < |u|
    ensures |r| == |u|
  {
    var v := f(u[j], u[j + 1]);
    u[j := v.0][j + 1 := v.1]
  }

  /** The column pairs (0, 1), (2, 3), ... below `cols` of row `u`. */
  function PairsInRow(u: seq<real>, cols: int, f: Step): (r: seq<real>)
    requires 0 <= cols <= |u| && cols % 2 == 0
    ensures |r| == |u|
  {
    seq(|u|, q requires 0 <= q < |u| =>
      if q < cols then
        if q % 2 == 0 then f(u[q], u[q + 1]).0 else f(u[q - 1], u[q]).1
      else u[q])
  }

  /** Columns `j` and `j + 1` paired in their first `rows` rows. */
  function PairTwoCols(g: Matrix, j: int, rows: int, f: Step): (r: Matrix)
    requires IsMatrix(g, |g|, Width(g)) && 0 <= j && j + 1 < Width(g)
    ensures IsMatrix(r, |g|, Width(g)) && Width(r) == Width(g)
  {
    seq(|g|, p requires 0 <= p < |g| => if p < rows then PairInRow(g[p], j, f) else g[p])
  }

  /** The column pairs below `cols`, each paired in its first `rows` rows. */
  function PairCols(g: Matrix, rows: int, cols: int, f: Step): (r: Matrix)
    requires IsMatrix(g, |g|, Width(g)) && 0 <= cols <= Width(g) && cols % 2 == 0
    ensures IsMatrix(r, |g|, Width(g)) && Width(r) == Width(g)
  {
    seq(|g|, p requires 0 <= p < |g| => if p < rows then PairsInRow(g[p], cols, f) else g[p])
  }

  // ---------------------------------------------------------------------
  // The transforms
  // ---------------------------------------------------------------------

  /** `_row` and `_col` of one level fit the matrix. */
  predicate BlockIn(g: Matrix, rows: int, cols: int) {
    IsMatrix(g, |g|, Width(g)) && rows <= |g| && cols <= Width(g)
  }

  /** `n - n % 2`: an odd side loses its last row or column. */
  function Even(n: int): (e: int)
    ensures e % 2 == 0 && e <= n && n - 1 <= e
    ensures n % 2 == 0 ==> e == n
  {
    n - n % 2
  }

  /** The row half of a level (lines 33-42): an odd last row zeroed, then the row pairs. */
  function RowsPaired(g: Matrix, rows: int, cols: int, c: real): (r: Matrix)
    requires BlockIn(g, rows, cols) && rows > 1 && cols > 1
    ensures IsMatrix(r, |g|, Width(g)) && Width(r) == Width(g)
  {
    var g1 := if rows % 2 == 1 then ZeroRow(g, rows - 1, cols) else g;
    PairRows(g1, Even(rows), cols, StepOf(Average(c)))
  }

  /** The column half of a level (lines 44-53): an odd last column zeroed, then the column pairs. */
  function ColsPaired(g: Matrix, rows: int, cols: int, c: real): (r: Matrix)
    requires BlockIn(g, rows, cols) && rows > 1 && cols > 1
    ensures IsMatrix(r, |g|, Width(g)) && Width(r) == Width(g)
  {
    var g3 := if cols % 2 == 1 then ZeroCol(g, cols - 1, Even(rows)) else g;
    PairCols(g3, Even(rows), Even(cols), StepOf(Average(c)))
  }

  /** One forward level on the leading `rows` by `cols` block, both above 1. */
  function Level(g: Matrix, rows: int, cols: int, c: real): (r: Matrix)
    requires BlockIn(g, rows, cols) && rows > 1 && cols > 1
    ensures IsMatrix(r, |g|, Width(g)) && Width(r) == Width(g)
  {
    var g2 := RowsPaired(g, rows, cols, c);
    var g4 := ColsPaired(g2, rows, cols, c);
    assert BlockFits(g4, Even(rows), Even(cols));
    Quad(g4, Even(rows), Even(cols), ParityBands, 1.0)
  }

  /** The matrix `haar_transform(M, rows, cols, normalised)` leaves behind. */
  function Transform(g: Matrix, rows: int, cols: int, normalised: bool, s: real): (r: Matrix)
    requires BlockIn(g, rows, cols)
    ensures IsMatrix(r, |g|, Width(g)) && Width(r) == Width(g)
    ensures forall p, q :: 0 <= p < |g| && 0 <= q < Width(g) && !(p < rows && q < cols) ==> r[p][q] == g[p][q]
    decreases Size(rows)
  {
    if rows <= 1 || cols <= 1 then g
    else
      LevelFrame(g, rows, cols, Factor(normalised, s));
      Transform(Level(g, rows, cols, Factor(normalised, s)), Even(rows) / 2, Even(cols) / 2, normalised, s)
  }

  /** The matrix `inverse_haar_transform(M, rows, cols, normalised)` leaves behind. */
  function Inverse(g: Matrix, rows: int, cols: int, normalised: bool, s: real): (r: Matrix)
    requires BlockIn(g, rows, cols) && (normalised ==> s > 0.0)
    ensures IsMatrix(r, |g|, Width(g)) && Width(r) == Width(g)
    decreases Size(rows)
  {
    if rows <= 1 || cols <= 1 then g
    else InverseLevel(Inverse(g, rows / 2, cols / 2, normalised, s), rows, cols, normalised, s)
  }

  /**
   * One inverse level, after the coarser ones: the quadrants back on their
   * parity bands, then the column pairs (in the first `rows` rows, odd or
   * not) and the row pairs undone.
   */
  function InverseLevel(g: Matrix, rows: int, cols: int, normalised: bool, s: real): (r: Matrix)
    requires BlockIn(g, rows, cols) && rows > 1 && cols > 1 && (normalised ==> s > 0.0)
    ensures IsMatrix(r, |g|, Width(g)) && Width(r) == Width(g)
  {
    var q := UnQuad(g, Even(rows), Even(cols), ParityBands, 1.0);
    var byCols := PairCols(q, rows, Even(cols), StepOf(Recover(normalised, s)));
    PairRows(byCols, Even(rows), Even(cols), StepOf(Recover(normalised, s)))
  }

  lemma ZeroRowAt(g: Matrix, r: int, cols: int, p: int, q: int)
    requires IsMatrix(g, |g|, Width(g)) && 0 <= r < |g| && 0 <= cols <= Width(g)
    requires 0 <= p < |g| && 0 <= q < Width(g)
    ensures ZeroRow(g, r, cols)[p][q] == if p == r && q < cols then 0.0 else g[p][q]
  {
  }

  lemma ZeroColAt(g: Matrix, c: int, rows: int, p: int, q: int)
    requires IsMatrix(g, |g|, Width(g)) && 0 <= c < Width(g) && 0 <= rows <= |g|
    requires 0 <= p < |g| && 0 <= q < Width(g)
    ensures ZeroCol(g, c, rows)[p][q] == if p < rows && q == c then 0.0 else g[p][q]
  {
  }

  lemma PairRowsOutside(g: Matrix, rows: int, cols: int, f: Step, p: int, q: int)
    requires IsMatrix(g, |g|, Width(g)) && 0 <= rows <= |g| && rows % 2 == 0
    requires 0 <= p < |g| && 0 <= q < Width(g) && !(p < rows && q < cols)
    ensures PairRows(g, rows, cols, f)[p][q] == g[p][q]
  {
  }

  lemma PairColsOutside(g: Matrix, rows: int, cols: int, f: Step, p: int, q: int)
    requires IsMatrix(g, |g|, Width(g)) && 0 <= cols <= Width(g) && cols % 2 == 0
    requires 0 <= p < |g| && 0 <= q < Width(g) && !(p < rows && q < cols)
    ensures PairCols(g, rows, cols, f)[p][q] == g[p][q]
  {
  }

  /** A level writes only inside the leading `rows` by `cols` block. */
  lemma LevelFrame(g: Matrix, rows: int, cols: int, c: real)
    requires BlockIn(g, rows, cols) && rows > 1 && cols > 1
    ensures forall p, q :: 0 <= p < |g| && 0 <= q < Width(g) && !(p < rows && q < cols) ==>
      Level(g, rows, cols, c)[p][q] == g[p][q]
  {
    var g2 := RowsPaired(g, rows, cols, c);
    var g4 := ColsPaired(g2, rows, cols, c);
    forall p, q | 0 <= p < |g| && 0 <= q < Width(g) && !(p < rows && q < cols)
      ensures Level(g, rows, cols, c)[p][q] == g[p][q]
    {
      RowsPairedOutside(g, rows, cols, c, p, q);
      ColsPairedOutside(g2, rows, cols, c, p, q);
    }
  }

  lemma RowsPairedOutside(g: Matrix, rows: int, cols: int, c: real, p: int, q: int)
    requires BlockIn(g, rows, cols) && rows > 1 && cols > 1
    requires 0 <= p < |g| && 0 <= q < Width(g) && !(p < rows && q < cols)
    ensures RowsPaired(g, rows, cols, c)[p][q] == g[p][q]
  {
    var g1 := if rows % 2 == 1 then ZeroRow(g, rows - 1, cols) else g;
    if rows % 2 == 1 {
      ZeroRowAt(g, rows - 1, cols, p, q);
    }
    PairRowsOutside(g1, Even(rows), cols, StepOf(Average(c)), p, q);
  }

  lemma ColsPairedOutside(g: Matrix, rows: int, cols: int, c: real, p: int, q: int)
    requires BlockIn(g, rows, cols) && rows > 1 && cols > 1
    requires 0 <= p < |g| && 0 <= q < Width(g) && !(p < rows && q < cols)
    ensures ColsPaired(g, rows, cols, c)[p][q] == g[p][q]
  {
    var g3 := if cols % 2 == 1 then ZeroCol(g, cols - 1, Even(rows)) else g;
    if cols % 2 == 1 {
      ZeroColAt(g, cols - 1, Even(rows), p, q);
    }
    PairColsOutside(g3, Even(rows), Even(cols), StepOf(Average(c)), p, q);
  }

  /** The sides on which no level zeroes anything: even at every level until one side reaches 1. */
  predicate EvenAllTheWay(rows: int, cols: int)
    decreases Size(rows)
  {
    rows <= 1 || cols <= 1 || (rows % 2 == 0 && cols % 2 == 0 && EvenAllTheWay(rows / 2, cols / 2))
  }

  /** Powers of two are even all the way down. */
  lemma {:induction false} Pow2EvenAllTheWay(rows: int, cols: int)
    requires IsPow2(rows) && IsPow2(cols)
    ensures EvenAllTheWay(rows, cols)
    decreases Size(rows)
  {
    if rows > 1 && cols > 1 {
      assert rows % 2 == 0 && cols % 2 == 0;
      Pow2EvenAllTheWay(rows / 2, cols / 2);
    }
  }

  // ---------------------------------------------------------------------
  // Round trips
  // ---------------------------------------------------------------------

  /** `f2` takes every pair that `f1` produces back to the pair it came from. */
  ghost predicate Undoes(f1: Step, f2: Step) {
    forall a: real, b: real :: f2(f1(a, b).0, f1(a, b).1) == (a, b)
  }

  /** The forward and the inverse pair step undo each other when `s` stands for the square root of 2. */
  lemma StepsUndo(normalised: bool, s: real)
    requires normalised ==> IsSqrt2(s)
    ensures Defined(Recover(normalised, s))
    ensures Undoes(StepOf(Average(Factor(normalised, s))), StepOf(Recover(normalised, s)))
    ensures Undoes(StepOf(Recover(normalised, s)), StepOf(Average(Factor(normalised, s))))
  {
    PairUndo(0.0, 0.0, normalised, s);
    var there, back := StepOf(Average(Factor(normalised, s))), StepOf(Recover(normalised, s));
    forall a: real, b: real
      ensures back(there(a, b).0, there(a, b).1) == (a, b) && there(back(a, b).0, back(a, b).1) == (a, b)
    {
      PairUndo(a, b, normalised, s);
    }
  }

  lemma PairRowsAt(g: Matrix, rows: int, cols: int, f: Step, p: int, q: int)
    requires IsMatrix(g, |g|, Width(g)) && 0 <= rows <= |g| && rows % 2 == 0
    requires 0 <= p < |g| && 0 <= q < Width(g)
    ensures (p < rows && p % 2 == 0 ==> p + 1 < rows && |g[p + 1]| == Width(g)) && (p % 2 == 1 ==> |g[p - 1]| == Width(g))
    ensures PairRows(g, rows, cols, f)[p][q] ==
      if p < rows && q < cols then
        if p % 2 == 0 then f(g[p][q], g[p + 1][q]).0 else f(g[p - 1][q], g[p][q]).1
      else g[p][q]
  {
  }

  /** Pairing the rows with `f1` and then with `f2` restores the matrix when `f2` undoes `f1`. */
  lemma PairRowsUndo(g: Matrix, rows: int, cols: int, f1: Step, f2: Step)
    requires IsMatrix(g, |g|, Width(g)) && 0 <= rows <= |g| && rows % 2 == 0 && Undoes(f1, f2)
    ensures PairRows(PairRows(g, rows, cols, f1), rows, cols, f2) == g
  {
    var r := PairRows(PairRows(g, rows, cols, f1), rows, cols, f2);
    forall p | 0 <= p < |g|
      ensures r[p] == g[p]
    {
      PairRowsUndoRow(g, rows, cols, f1, f2, p);
    }
  }

  lemma PairRowsUndoRow(g: Matrix, rows: int, cols: int, f1: Step, f2: Step, p: int)
    requires IsMatrix(g, |g|, Width(g)) && 0 <= rows <= |g| && rows % 2 == 0 && Undoes(f1, f2)
    requires 0 <= p < |g|
    ensures PairRows(PairRows(g, rows, cols, f1), rows, cols, f2)[p] == g[p]
  {
    if p < rows {
      var h := PairRows(g, rows, cols, f1);
      var u := p - p % 2;
      EvenRowOfPair(p, rows);
      PairRowsRow(g, rows, cols, f1, u);
      PairRowsRow(h, rows, cols, f2, u);
      UpperLowerUndo(g[u], g[u + 1], cols, f1, f2);
    }
  }

  /** Rows `u`, `u + 1` (even `u`) after the row pairs. */
  lemma PairRowsRow(g: Matrix, rows: int, cols: int, f: Step, u: int)
    requires IsMatrix(g, |g|, Width(g)) && 0 <= rows <= |g| && rows % 2 == 0
    requires 0 <= u && u + 1 < rows && u % 2 == 0
    ensures |g[u]| == |g[u + 1]|
    ensures PairRows(g, rows, cols, f)[u] == Upper(g[u], g[u + 1], cols, f)
    ensures PairRows(g, rows, cols, f)[u + 1] == Lower(g[u], g[u + 1], cols, f)
  {
    assert (u + 1) % 2 == 1;
  }

  /** `p` and its even partner `p - p % 2` lie in the same pair below an even bound. */
  lemma EvenRowOfPair(p: int, rows: int)
    requires 0 <= p < rows && rows % 2 == 0
    ensures var u := p - p % 2; 0 <= u && u + 1 < rows && u % 2 == 0 && (p == u || (p == u + 1 && p % 2 == 1))
  {
  }

  /** The pair step `f2` restores both rows of a pair that `f1` rewrote. */
  lemma UpperLowerUndo(u: seq<real>, v: seq<real>, cols: int, f1: Step, f2: Step)
    requires |u| == |v| && Undoes(f1, f2)
    ensures Upper(Upper(u, v, cols, f1), Lower(u, v, cols, f1), cols, f2) == u
    ensures Lower(Upper(u, v, cols, f1), Lower(u, v, cols, f1), cols, f2) == v
  {
    var x, y := Upper(u, v, cols, f1), Lower(u, v, cols, f1);
    forall q | 0 <= q < |u| && q < cols
      ensures Upper(x, y, cols, f2)[q] == u[q] && Lower(x, y, cols, f2)[q] == v[q]
    {
      var a, b := u[q], v[q];
      assert f2(f1(a, b).0, f1(a, b).1) == (a, b);
    }
  }

  lemma PairRowsPair(g: Matrix, rows: int, cols: int, f: Step, u: int, q: int)
    requires IsMatrix(g, |g|, Width(g)) && 0 <= rows <= |g| && rows % 2 == 0
    requires 0 <= u && u + 1 < rows && u % 2 == 0 && 0 <= q < cols && q < Width(g)
    ensures (u + 1) % 2 == 1 && |g[u]| == Width(g) && |g[u + 1]| == Width(g)
    ensures PairRows(g, rows, cols, f)[u][q] == f(g[u][q], g[u + 1][q]).0
    ensures PairRows(g, rows, cols, f)[u + 1][q] == f(g[u][q], g[u + 1][q]).1
  {
    assert (u + 1) % 2 == 1;
  }

  /** Pairing the columns with `f1` and then with `f2` restores the matrix when `f2` undoes `f1`. */
  lemma PairColsUndo(g: Matrix, rows: int, cols: int, f1: Step, f2: Step)
    requires IsMatrix(g, |g|, Width(g)) && 0 <= cols <= Width(g) && cols % 2 == 0 && Undoes(f1, f2)
    ensures PairCols(PairCols(g, rows, cols, f1), rows, cols, f2) == g
  {
    var r := PairCols(PairCols(g, rows, cols, f1), rows, cols, f2);
    forall p | 0 <= p < |g|
      ensures r[p] == g[p]
    {
      if p < rows {
        PairsInRowUndo(g[p], cols, f1, f2);
      }
    }
  }

  /** Within one row, the column pairs of `f1` undone by those of `f2`. */
  lemma PairsInRowUndo(u: seq<real>, cols: int, f1: Step, f2: Step)
    requires 0 <= cols <= |u| && cols % 2 == 0 && Undoes(f1, f2)
    ensures PairsInRow(PairsInRow(u, cols, f1), cols, f2) == u
  {
    var r := PairsInRow(PairsInRow(u, cols, f1), cols, f2);
    forall q | 0 <= q < |u|
      ensures r[q] == u[q]
    {
      PairsInRowUndoAt(u, cols, f1, f2, q);
    }
  }

  lemma PairsInRowUndoAt(u: seq<real>, cols: int, f1: Step, f2: Step, q: int)
    requires 0 <= cols <= |u| && cols % 2 == 0 && Undoes(f1, f2) && 0 <= q < |u|
    ensures PairsInRow(PairsInRow(u, cols, f1), cols, f2)[q] == u[q]
  {
    if q < cols {
      var h := PairsInRow(u, cols, f1);
      var v := q - q % 2;
      EvenRowOfPair(q, cols);
      PairsInRowPair(u, cols, f1, v);
      PairsInRowPair(h, cols, f2, v);
      var a, b := u[v], u[v + 1];
      var x, y := f1(a, b).0, f1(a, b).1;
      assert f2(x, y) == (a, b);
    }
  }

  lemma PairsInRowPair(u: seq<real>, cols: int, f: Step, v: int)
    requires 0 <= v && v + 1 < cols <= |u| && cols % 2 == 0 && v % 2 == 0
    ensures PairsInRow(u, cols, f)[v] == f(u[v], u[v + 1]).0
    ensures PairsInRow(u, cols, f)[v + 1] == f(u[v], u[v + 1]).1
  {
    assert (v + 1) % 2 == 1;
  }

  lemma PairColsPair(g: Matrix, rows: int, cols: int, f: Step, p: int, v: int)
    requires IsMatrix(g, |g|, Width(g)) && 0 <= cols <= Width(g) && cols % 2 == 0
    requires 0 <= p < rows && p < |g| && 0 <= v && v + 1 < cols && v % 2 == 0
    ensures (v + 1) % 2 == 1 && |g[p]| == Width(g)
    ensures PairCols(g, rows, cols, f)[p][v] == f(g[p][v], g[p][v + 1]).0
    ensures PairCols(g, rows, cols, f)[p][v + 1] == f(g[p][v], g[p][v + 1]).1
  {
    assert (v + 1) % 2 == 1;
    assert PairCols(g, rows, cols, f)[p] == PairsInRow(g[p], cols, f);
  }

  /** On even sides one inverse level undoes one forward level. */
  lemma InverseLevelOfLevel(g: Matrix, rows: int, cols: int, normalised: bool, s: real)
    requires BlockIn(g, rows, cols) && rows > 1 && cols > 1 && rows % 2 == 0 && cols % 2 == 0
    requires normalised ==> IsSqrt2(s)
    ensures InverseLevel(Level(g, rows, cols, Factor(normalised, s)), rows, cols, normalised, s) == g
  {
    var c := Factor(normalised, s);
    StepsUndo(normalised, s);
    var g2 := RowsPaired(g, rows, cols, c);
    assert g2 == PairRows(g, rows, cols, StepOf(Average(c)));
    var g4 := ColsPaired(g2, rows, cols, c);
    assert g4 == PairCols(g2, rows, cols, StepOf(Average(c)));
    UnQuadQuad(g4, rows, cols, ParityBands, 1.0);
    PairColsUndo(g2, rows, cols, StepOf(Average(c)), StepOf(Recover(normalised, s)));
    PairRowsUndo(g, rows, cols, StepOf(Average(c)), StepOf(Recover(normalised, s)));
  }

  /** On even sides one forward level undoes one inverse level. */
  lemma LevelOfInverseLevel(g: Matrix, rows: int, cols: int, normalised: bool, s: real)
    requires BlockIn(g, rows, cols) && rows > 1 && cols > 1 && rows % 2 == 0 && cols % 2 == 0
    requires normalised ==> IsSqrt2(s)
    ensures Level(InverseLevel(g, rows, cols, normalised, s), rows, cols, Factor(normalised, s)) == g
  {
    var c := Factor(normalised, s);
    var q := UnQuad(g, rows, cols, ParityBands, 1.0);
    RowsOfInverseLevel(g, rows, cols, normalised, s);
    StepsUndo(normalised, s);
    var byCols := PairCols(q, rows, cols, StepOf(Recover(normalised, s)));
    PairColsUndo(q, rows, cols, StepOf(Recover(normalised, s)), StepOf(Average(c)));
    assert ColsPaired(byCols, rows, cols, c) == q;
    QuadUnQuad(g, rows, cols, ParityBands, 1.0);
  }

  /** The row half of a forward level undoes the row half of an inverse level. */
  lemma RowsOfInverseLevel(g: Matrix, rows: int, cols: int, normalised: bool, s: real)
    requires BlockIn(g, rows, cols) && rows > 1 && cols > 1 && rows % 2 == 0 && cols % 2 == 0
    requires normalised ==> IsSqrt2(s)
    ensures Defined(Recover(normalised, s))
    ensures RowsPaired(InverseLevel(g, rows, cols, normalised, s), rows, cols, Factor(normalised, s)) ==
      PairCols(UnQuad(g, rows, cols, ParityBands, 1.0), rows, cols, StepOf(Recover(normalised, s)))
  {
    var c := Factor(normalised, s);
    StepsUndo(normalised, s);
    var q := UnQuad(g, rows, cols, ParityBands, 1.0);
    var byCols := PairCols(q, rows, cols, StepOf(Recover(normalised, s)));
    InverseLevelUnfold(g, rows, cols, normalised, s);
    PairRowsUndo(byCols, rows, cols, StepOf(Recover(normalised, s)), StepOf(Average(c)));
  }

  lemma InverseLevelUnfold(g: Matrix, rows: int, cols: int, normalised: bool, s: real)
    requires BlockIn(g, rows, cols) && rows > 1 && cols > 1 && rows % 2 == 0 && cols % 2 == 0
    requires normalised ==> IsSqrt2(s)
    ensures InverseLevel(g, rows, cols, normalised, s) ==
      PairRows(PairCols(UnQuad(g, rows, cols, ParityBands, 1.0), rows, cols, StepOf(Recover(normalised, s))),
        rows, cols, StepOf(Recover(normalised, s)))
  {
  }

  /**
   * `inverse_haar_transform` undoes `haar_transform` on sides that stay even
   * down to 1 (powers of two among them), with the same `normalised` flag.
   */
  lemma {:induction false} InverseOfTransform(g: Matrix, rows: int, cols: int, normalised: bool, s: real)
    requires BlockIn(g, rows, cols) && EvenAllTheWay(rows, cols) && (normalised ==> IsSqrt2(s))
    ensures Inverse(Transform(g, rows, cols, normalised, s), rows, cols, normalised, s) == g
    decreases Size(rows)
  {
    if rows > 1 && cols > 1 {
      var l := Level(g, rows, cols, Factor(normalised, s));
      InverseOfTransform(l, rows / 2, cols / 2, normalised, s);
      InverseLevelOfLevel(g, rows, cols, normalised, s);
    }
  }

  /** `haar_transform` undoes `inverse_haar_transform` on the same sides. */
  lemma {:induction false} TransformOfInverse(g: Matrix, rows: int, cols: int, normalised: bool, s: real)
    requires BlockIn(g, rows, cols) && EvenAllTheWay(rows, cols) && (normalised ==> IsSqrt2(s))
    ensures Transform(Inverse(g, rows, cols, normalised, s), rows, cols, normalised, s) == g
    decreases Size(rows)
  {
    if rows > 1 && cols > 1 {
      assert rows % 2 == 0 && cols % 2 == 0 && EvenAllTheWay(rows / 2, cols / 2);
      var inner := Inverse(g, rows / 2, cols / 2, normalised, s);
      var x := InverseLevel(inner, rows, cols, normalised, s);
      assert Inverse(g, rows, cols, normalised, s) == x;
      LevelOfInverseLevel(inner, rows, cols, normalised, s);
      TransformUnfold(x, rows, cols, normalised, s);
      TransformOfInverse(g, rows / 2, cols / 2, normalised, s);
    }
  }

  /** One level of the forward transform on even sides, then the rest on the top-left quarter. */
  lemma TransformUnfold(g: Matrix, rows: int, cols: int, normalised: bool, s: real)
    requires BlockIn(g, rows, cols) && rows > 1 && cols > 1 && rows % 2 == 0 && cols % 2 == 0
    ensures Transform(g, rows, cols, normalised, s) == Transform(Level(g, rows, cols, Factor(normalised, s)), rows / 2, cols / 2, normalised, s)
  {
  }

  // ---------------------------------------------------------------------
  // What one level computes, and what odd sides lose
  // ---------------------------------------------------------------------

  /**
   * Unnormalised, top-left cell (i, j) after one level is the mean of the
   * 2 by 2 block at (2i, 2j), odd sides or not.
   */
  lemma MeanAfterOneLevel(g: Matrix, rows: int, cols: int, i: int, j: int)
    requires BlockIn(g, rows, cols) && rows > 1 && cols > 1
    requires 0 <= i < Even(rows) / 2 && 0 <= j < Even(cols) / 2
    ensures Level(g, rows, cols, 1.0)[i][j] ==
      (g[2 * i][2 * j] + g[2 * i][2 * j + 1] + g[2 * i + 1][2 * j] + g[2 * i + 1][2 * j + 1]) / 4.0
  {
    LevelTopLeft(g, rows, cols, 1.0, i, j);
    MeanOfTopLeftBlock(g, rows, cols, i, j);
  }

  lemma MeanOfTopLeftBlock(g: Matrix, rows: int, cols: int, i: int, j: int)
    requires BlockIn(g, rows, cols) && rows > 1 && cols > 1
    requires 0 <= i < Even(rows) / 2 && 0 <= j < Even(cols) / 2
    ensures 2 * i + 1 < |g| && 2 * j + 1 < Width(g) && |g[2 * i]| == |g[2 * i + 1]| == Width(g)
    ensures ColsPaired(RowsPaired(g, rows, cols, 1.0), rows, cols, 1.0)[2 * i][2 * j] ==
      (g[2 * i][2 * j] + g[2 * i][2 * j + 1] + g[2 * i + 1][2 * j] + g[2 * i + 1][2 * j + 1]) / 4.0
  {
    HalfIndex(i, Even(rows));
    HalfIndex(j, Even(cols));
    MeanOfPairedBlock(g, rows, cols, 2 * i, 2 * j);
  }

  /** Top-left cell (i, j) after a level is cell (2i, 2j) after the row and the column pairs. */
  lemma LevelTopLeft(g: Matrix, rows: int, cols: int, c: real, i: int, j: int)
    requires BlockIn(g, rows, cols) && rows > 1 && cols > 1
    requires 0 <= i < Even(rows) / 2 && 0 <= j < Even(cols) / 2
    ensures 2 * i < |g| && 2 * j < Width(g)
    ensures Level(g, rows, cols, c)[i][j] == ColsPaired(RowsPaired(g, rows, cols, c), rows, cols, c)[2 * i][2 * j]
  {
    var g4 := ColsPaired(RowsPaired(g, rows, cols, c), rows, cols, c);
    assert Level(g, rows, cols, c) == Quad(g4, Even(rows), Even(cols), ParityBands, 1.0);
    QuadTopLeft(g4, Even(rows), Even(cols), i, j);
  }

  /** The top-left quadrant holds the cells with two even indices. */
  lemma QuadTopLeft(g: Matrix, l1: int, l2: int, i: int, j: int)
    requires BlockFits(g, l1, l2) && 0 <= i < l1 / 2 && 0 <= j < l2 / 2
    ensures 2 * i < |g| && 2 * j < Width(g) && |g[2 * i]| == Width(g)
    ensures Quad(g, l1, l2, ParityBands, 1.0)[i][j] == g[2 * i][2 * j]
  {
    HalfIndex(i, l1);
    HalfIndex(j, l2);
    QuadMoves(g, l1, l2, ParityBands, 1.0, 2 * i, 2 * j);
    ParityDst(2 * i, 2 * j, l1, l2);
    var q := Quad(g, l1, l2, ParityBands, 1.0);
    assert At(q, i, j) == 1.0 * g[2 * i][2 * j];
  }

  /** Unnormalised, cell (u, v) (both even) after the row and the column pairs is the mean of its 2 by 2 block. */
  lemma MeanOfPairedBlock(g: Matrix, rows: int, cols: int, u: int, v: int)
    requires BlockIn(g, rows, cols) && rows > 1 && cols > 1
    requires 0 <= u && u + 1 < Even(rows) && u % 2 == 0 && 0 <= v && v + 1 < Even(cols) && v % 2 == 0
    ensures |g[u]| == |g[u + 1]| == Width(g)
    ensures ColsPaired(RowsPaired(g, rows, cols, 1.0), rows, cols, 1.0)[u][v] ==
      (g[u][v] + g[u][v + 1] + g[u + 1][v] + g[u + 1][v + 1]) / 4.0
  {
    var g2 := RowsPaired(g, rows, cols, 1.0);
    assert |g[u]| == |g[u + 1]| == |g2[u]| == Width(g);
    RowsPairedMean(g, rows, cols, u, v);
    RowsPairedMean(g, rows, cols, u, v + 1);
    ColsPairedMean(g2, rows, cols, u, v);
    var x, y, z := g2[u][v], g2[u][v + 1], ColsPaired(g2, rows, cols, 1.0)[u][v];
    MeanOfMeans(g[u][v], g[u][v + 1], g[u + 1][v], g[u + 1][v + 1], x, y, z);
  }

  lemma MeanOfMeans(a: real, b: real, c: real, d: real, x: real, y: real, z: real)
    requires x == (a + c) / 2.0 && y == (b + d) / 2.0 && z == (x + y) / 2.0
    ensures z == (a + b + c + d) / 4.0
  {
  }

  /** Unnormalised, the upper row of a row pair holds the pair's mean. */
  lemma RowsPairedMean(g: Matrix, rows: int, cols: int, u: int, q: int)
    requires BlockIn(g, rows, cols) && rows > 1 && cols > 1
    requires 0 <= u && u + 1 < Even(rows) && u % 2 == 0 && 0 <= q < cols
    ensures RowsPaired(g, rows, cols, 1.0)[u][q] == (g[u][q] + g[u + 1][q]) / 2.0
  {
    var g1 := if rows % 2 == 1 then ZeroRow(g, rows - 1, cols) else g;
    if rows % 2 == 1 {
      ZeroRowAt(g, rows - 1, cols, u, q);
      ZeroRowAt(g, rows - 1, cols, u + 1, q);
    }
    PairRowsPair(g1, Even(rows), cols, StepOf(Average(1.0)), u, q);
    AverageIsHalfSumAndDifference(g[u][q], g[u + 1][q], 1.0);
  }

  /** Unnormalised, the left column of a column pair holds the pair's mean. */
  lemma ColsPairedMean(g: Matrix, rows: int, cols: int, p: int, v: int)
    requires BlockIn(g, rows, cols) && rows > 1 && cols > 1
    requires 0 <= p < Even(rows) && 0 <= v && v + 1 < Even(cols) && v % 2 == 0
    ensures ColsPaired(g, rows, cols, 1.0)[p][v] == (g[p][v] + g[p][v + 1]) / 2.0
  {
    var g3 := if cols % 2 == 1 then ZeroCol(g, cols - 1, Even(rows)) else g;
    if cols % 2 == 1 {
      ZeroColAt(g, cols - 1, Even(rows), p, v);
      ZeroColAt(g, cols - 1, Even(rows), p, v + 1);
    }
    PairColsPair(g3, Even(rows), Even(cols), StepOf(Average(1.0)), p, v);
    AverageIsHalfSumAndDifference(g[p][v], g[p][v + 1], 1.0);
  }

  /** The pair loops step by two below an even bound. */
  lemma EvenStep(t: int, n: int)
    requires n % 2 == 0 && 2 * t < n
    ensures (2 * t) % 2 == 0 && 2 * t + 2 <= n
  {
  }

  lemma HalfIndex(i: int, n: int)
    requires n % 2 == 0 && 0 <= i < n / 2
    ensures 2 * i + 1 < n && (2 * i) % 2 == 0 && (2 * i) / 2 == i && (2 * i + 1) % 2 == 1
  {
  }

  lemma ZeroRowTwice(g: Matrix, r: int, cols: int)
    requires IsMatrix(g, |g|, Width(g)) && 0 <= r < |g| && 0 <= cols <= Width(g)
    ensures ZeroRow(ZeroRow(g, r, cols), r, cols) == ZeroRow(g, r, cols)
  {
    var z := ZeroRow(g, r, cols);
    forall p, q | 0 <= p < |g| && 0 <= q < Width(g)
      ensures ZeroRow(z, r, cols)[p][q] == z[p][q]
    {
      ZeroRowAt(z, r, cols, p, q);
      ZeroRowAt(g, r, cols, p, q);
    }
    MatrixEq(ZeroRow(z, r, cols), z, |g|, Width(g));
  }

  /** An odd last row of the block is thrown away: the transform does not depend on it. */
  lemma DiscardsOddRow(g: Matrix, rows: int, cols: int, normalised: bool, s: real)
    requires BlockIn(g, rows, cols) && rows > 1 && cols > 1 && rows % 2 == 1
    ensures BlockIn(ZeroRow(g, rows - 1, cols), rows, cols)
    ensures Transform(ZeroRow(g, rows - 1, cols), rows, cols, normalised, s) == Transform(g, rows, cols, normalised, s)
  {
    var z := ZeroRow(g, rows - 1, cols);
    ZeroRowTwice(g, rows - 1, cols);
    assert RowsPaired(z, rows, cols, Factor(normalised, s)) == RowsPaired(g, rows, cols, Factor(normalised, s));
  }

  /** An odd last row of the block comes out as zeros. */
  lemma OddRowZeroed(g: Matrix, rows: int, cols: int, normalised: bool, s: real, q: int)
    requires BlockIn(g, rows, cols) && rows > 1 && cols > 1 && rows % 2 == 1 && 0 <= q < cols
    ensures Transform(g, rows, cols, normalised, s)[rows - 1][q] == 0.0
  {
    LevelZeroRow(g, rows, cols, Factor(normalised, s), q);
  }

  /** An odd last column of the block comes out as zeros. */
  lemma OddColZeroed(g: Matrix, rows: int, cols: int, normalised: bool, s: real, p: int)
    requires BlockIn(g, rows, cols) && rows > 1 && cols > 1 && cols % 2 == 1 && 0 <= p < rows
    ensures Transform(g, rows, cols, normalised, s)[p][cols - 1] == 0.0
  {
    LevelZeroCol(g, rows, cols, Factor(normalised, s), p);
  }

  lemma LevelZeroRow(g: Matrix, rows: int, cols: int, c: real, q: int)
    requires BlockIn(g, rows, cols) && rows > 1 && cols > 1 && rows % 2 == 1 && 0 <= q < cols
    ensures Level(g, rows, cols, c)[rows - 1][q] == 0.0
  {
    var r2 := Even(rows);
    var g1 := ZeroRow(g, rows - 1, cols);
    ZeroRowAt(g, rows - 1, cols, rows - 1, q);
    PairRowsAt(g1, r2, cols, StepOf(Average(c)), rows - 1, q);
    var g2 := RowsPaired(g, rows, cols, c);
    var g3 := if cols % 2 == 1 then ZeroCol(g2, cols - 1, r2) else g2;
    if cols % 2 == 1 {
      ZeroColAt(g2, cols - 1, r2, rows - 1, q);
    }
    PairColsOutside(g3, r2, Even(cols), StepOf(Average(c)), rows - 1, q);
  }

  lemma LevelZeroCol(g: Matrix, rows: int, cols: int, c: real, p: int)
    requires BlockIn(g, rows, cols) && rows > 1 && cols > 1 && cols % 2 == 1 && 0 <= p < rows
    ensures Level(g, rows, cols, c)[p][cols - 1] == 0.0
  {
    var r2, c2 := Even(rows), Even(cols);
    var g2 := RowsPaired(g, rows, cols, c);
    var g3 := ZeroCol(g2, cols - 1, r2);
    if p < r2 {
      ZeroColAt(g2, cols - 1, r2, p, cols - 1);
    } else {
      LevelZeroRow(g, rows, cols, c, cols - 1);
    }
    PairColsOutside(g3, r2, c2, StepOf(Average(c)), p, cols - 1);
  }

  // ---------------------------------------------------------------------
  // The loops, one cell at a time
  // ---------------------------------------------------------------------

  lemma ZeroRowStep(g: Matrix, r: int, j: int)
    requires IsMatrix(g, |g|, Width(g)) && 0 <= r < |g| && 0 <= j < Width(g)
    ensures SetCell(ZeroRow(g, r, j), r, j, 0.0) == ZeroRow(g, r, j + 1)
  {
    var a, b := SetCell(ZeroRow(g, r, j), r, j, 0.0), ZeroRow(g, r, j + 1);
    forall p, q | 0 <= p < |g| && 0 <= q < Width(g)
      ensures a[p][q] == b[p][q]
    {
      ZeroRowAt(g, r, j, p, q);
      ZeroRowAt(g, r, j + 1, p, q);
    }
    MatrixEq(a, b, |g|, Width(g));
  }

  lemma ZeroColStep(g: Matrix, c: int, i: int)
    requires IsMatrix(g, |g|, Width(g)) && 0 <= c < Width(g) && 0 <= i < |g|
    ensures SetCell(ZeroCol(g, c, i), i, c, 0.0) == ZeroCol(g, c, i + 1)
  {
    var a, b := SetCell(ZeroCol(g, c, i), i, c, 0.0), ZeroCol(g, c, i + 1);
    forall p, q | 0 <= p < |g| && 0 <= q < Width(g)
      ensures a[p][q] == b[p][q]
    {
      ZeroColAt(g, c, i, p, q);
      ZeroColAt(g, c, i + 1, p, q);
    }
    MatrixEq(a, b, |g|, Width(g));
  }

  lemma ZeroRowNone(g: Matrix, r: int)
    requires IsMatrix(g, |g|, Width(g)) && 0 <= r < |g|
    ensures ZeroRow(g, r, 0) == g
  {
    MatrixEq(ZeroRow(g, r, 0), g, |g|, Width(g));
  }

  lemma ZeroColNone(g: Matrix, c: int)
    requires IsMatrix(g, |g|, Width(g)) && 0 <= c < Width(g)
    ensures ZeroCol(g, c, 0) == g
  {
    MatrixEq(ZeroCol(g, c, 0), g, |g|, Width(g));
  }

  lemma PairTwoRowsAt(g: Matrix, i: int, cols: int, f: Step, p: int, q: int)
    requires IsMatrix(g, |g|, Width(g)) && 0 <= i && i + 1 < |g|
    requires 0 <= p < |g| && 0 <= q < Width(g)
    ensures PairTwoRows(g, i, cols, f)[p][q] ==
      if p == i && q < cols then f(g[i][q], g[i + 1][q]).0
      else if p == i + 1 && q < cols then f(g[i][q], g[i + 1][q]).1
      else g[p][q]
  {
  }

  /** Pairing cell `j` of rows `i`, `i + 1` extends the pairing of the cells before it. */
  lemma PairTwoRowsStep(g: Matrix, i: int, j: int, f: Step)
    requires IsMatrix(g, |g|, Width(g)) && 0 <= i && i + 1 < |g| && 0 <= j < Width(g)
    ensures var v := f(g[i][j], g[i + 1][j]);
      SetCell(SetCell(PairTwoRows(g, i, j, f), i, j, v.0), i + 1, j, v.1) == PairTwoRows(g, i, j + 1, f)
  {
    var v := f(g[i][j], g[i + 1][j]);
    var a, b := SetCell(SetCell(PairTwoRows(g, i, j, f), i, j, v.0), i + 1, j, v.1), PairTwoRows(g, i, j + 1, f);
    forall p, q | 0 <= p < |g| && 0 <= q < Width(g)
      ensures a[p][q] == b[p][q]
    {
      PairTwoRowsAt(g, i, j, f, p, q);
      PairTwoRowsAt(g, i, j + 1, f, p, q);
    }
    MatrixEq(a, b, |g|, Width(g));
  }

  /** Pairing rows `i`, `i + 1` extends the pairing of the rows above them. */
  lemma PairRowsNext(g: Matrix, i: int, cols: int, f: Step)
    requires IsMatrix(g, |g|, Width(g)) && 0 <= i && i + 2 <= |g| && i % 2 == 0
    ensures (i + 2) % 2 == 0
    ensures PairTwoRows(PairRows(g, i, cols, f), i, cols, f) == PairRows(g, i + 2, cols, f)
  {
    var a, b := PairTwoRows(PairRows(g, i, cols, f), i, cols, f), PairRows(g, i + 2, cols, f);
    forall p | 0 <= p < |g|
      ensures a[p] == b[p]
    {
      PairRowsNextAt(g, i, cols, f, p);
    }
  }

  lemma PairRowsNextAt(g: Matrix, i: int, cols: int, f: Step, p: int)
    requires IsMatrix(g, |g|, Width(g)) && 0 <= i && i + 2 <= |g| && i % 2 == 0 && 0 <= p < |g|
    ensures (i + 2) % 2 == 0
    ensures PairTwoRows(PairRows(g, i, cols, f), i, cols, f)[p] == PairRows(g, i + 2, cols, f)[p]
  {
    var h := PairRows(g, i, cols, f);
    assert h[i] == g[i] && h[i + 1] == g[i + 1];
    if p == i + 1 {
      assert p % 2 == 1;
    } else if p == i {
      assert p % 2 == 0;
    }
  }

  lemma PairTwoColsAt(g: Matrix, j: int, rows: int, f: Step, p: int, q: int)
    requires IsMatrix(g, |g|, Width(g)) && 0 <= j && j + 1 < Width(g)
    requires 0 <= p < |g| && 0 <= q < Width(g)
    ensures PairTwoCols(g, j, rows, f)[p][q] ==
      if p < rows && q == j then f(g[p][j], g[p][j + 1]).0
      else if p < rows && q == j + 1 then f(g[p][j], g[p][j + 1]).1
      else g[p][q]
  {
    if p < rows {
      assert PairTwoCols(g, j, rows, f)[p] == PairInRow(g[p], j, f);
    }
  }

  /** Pairing row `i` of columns `j`, `j + 1` extends the pairing of the rows before it. */
  lemma PairTwoColsStep(g: Matrix, j: int, i: int, f: Step)
    requires IsMatrix(g, |g|, Width(g)) && 0 <= j && j + 1 < Width(g) && 0 <= i < |g|
    ensures var v := f(g[i][j], g[i][j + 1]);
      SetCell(SetCell(PairTwoCols(g, j, i, f), i, j, v.0), i, j + 1, v.1) == PairTwoCols(g, j, i + 1, f)
  {
    var v := f(g[i][j], g[i][j + 1]);
    var a, b := SetCell(SetCell(PairTwoCols(g, j, i, f), i, j, v.0), i, j + 1, v.1), PairTwoCols(g, j, i + 1, f);
    forall p, q | 0 <= p < |g| && 0 <= q < Width(g)
      ensures a[p][q] == b[p][q]
    {
      PairTwoColsAt(g, j, i, f, p, q);
      PairTwoColsAt(g, j, i + 1, f, p, q);
    }
    MatrixEq(a, b, |g|, Width(g));
  }

  /** Pairing columns `j`, `j + 1` extends the pairing of the columns left of them. */
  lemma PairColsNext(g: Matrix, rows: int, j: int, f: Step)
    requires IsMatrix(g, |g|, Width(g)) && 0 <= j && j + 2 <= Width(g) && j % 2 == 0
    ensures (j + 2) % 2 == 0
    ensures PairTwoCols(PairCols(g, rows, j, f), j, rows, f) == PairCols(g, rows, j + 2, f)
  {
    var a, b := PairTwoCols(PairCols(g, rows, j, f), j, rows, f), PairCols(g, rows, j + 2, f);
    forall p | 0 <= p < |g|
      ensures a[p] == b[p]
    {
      if p < rows {
        PairsInRowNext(g[p], j, f);
      }
    }
  }

  /** Within one row, pairing entries `j`, `j + 1` extends the pairs left of them. */
  lemma PairsInRowNext(u: seq<real>, j: int, f: Step)
    requires 0 <= j && j + 2 <= |u| && j % 2 == 0
    ensures (j + 2) % 2 == 0
    ensures PairInRow(PairsInRow(u, j, f), j, f) == PairsInRow(u, j + 2, f)
  {
    var h := PairsInRow(u, j, f);
    assert h[j] == u[j] && h[j + 1] == u[j + 1];
    var a, b := PairInRow(h, j, f), PairsInRow(u, j + 2, f);
    forall q | 0 <= q < |u|
      ensures a[q] == b[q]
    {
      if q == j + 1 {
        assert q % 2 == 1;
      }
    }
  }

  lemma PairRowsNone(g: Matrix, cols: int, f: Step)
    requires IsMatrix(g, |g|, Width(g))
    ensures PairRows(g, 0, cols, f) == g
  {
    MatrixEq(PairRows(g, 0, cols, f), g, |g|, Width(g));
  }

  lemma PairColsNone(g: Matrix, rows: int, f: Step)
    requires IsMatrix(g, |g|, Width(g))
    ensures PairCols(g, rows, 0, f) == g
  {
    MatrixEq(PairCols(g, rows, 0, f), g, |g|, Width(g));
  }

  lemma PairTwoRowsNone(g: Matrix, i: int, f: Step)
    requires IsMatrix(g, |g|, Width(g)) && 0 <= i && i + 1 < |g|
    ensures PairTwoRows(g, i, 0, f) == g
  {
    MatrixEq(PairTwoRows(g, i, 0, f), g, |g|, Width(g));
  }

  lemma PairTwoColsNone(g: Matrix, j: int, f: Step)
    requires IsMatrix(g, |g|, Width(g)) && 0 <= j && j + 1 < Width(g)
    ensures PairTwoCols(g, j, 0, f) == g
  {
    MatrixEq(PairTwoCols(g, j, 0, f), g, |g|, Width(g));
  }


  // ---------------------------------------------------------------------
  // In place, as the sources do it
  // ---------------------------------------------------------------------

  /** `_matrix.at<float>(r, i) = 0` for `i < cols` (lines 33-35 of haar.hpp). */
  method ZeroRowLoop(m: array2<real>, r: int, cols: int)
    requires 0 <= r < m.Length0 && 0 <= cols <= m.Length1
    modifies m
    ensures Grid(m) == ZeroRow(old(Grid(m)), r, cols)
  {
    ghost var g0 := Grid(m);
    assert Width(g0) == m.Length1;
    ZeroRowNone(g0, r);
    for i := 0 to cols
      invariant Grid(m) == ZeroRow(g0, r, i)
    {
      Put(m, r, i, 0.0);
      ZeroRowStep(g0, r, i);
    }
  }

  /** `_matrix.at<float>(i, c) = 0` for `i < rows` (lines 44-46 of haar.hpp). */
  method ZeroColLoop(m: array2<real>, c: int, rows: int)
    requires 0 < m.Length0 && 0 <= c < m.Length1 && 0 <= rows <= m.Length0
    modifies m
    ensures Grid(m) == ZeroCol(old(Grid(m)), c, rows)
  {
    ghost var g0 := Grid(m);
    assert Width(g0) == m.Length1;
    ZeroColNone(g0, c);
    for i := 0 to rows
      invariant Grid(m) == ZeroCol(g0, c, i)
    {
      assert Width(g0) == m.Length1;
      Put(m, i, c, 0.0);
      ZeroColStep(g0, c, i);
    }
  }

  /**
   * One pair step on cells (i, j) and (k, l), with the sources' own
   * statements: the forward step writes the second cell first (from the
   * untouched first one), the inverse writes the first cell and then
   * computes the second from it.
   */
  method PairCells(m: array2<real>, i: int, j: int, k: int, l: int, op: PairOp)
    requires 0 <= i < m.Length0 && 0 <= j < m.Length1 && 0 <= k < m.Length0 && 0 <= l < m.Length1
    requires (i, j) != (k, l) && Defined(op)
    modifies m
    ensures var f := Combine(old(m[i, j]), old(m[k, l]), op);
      Grid(m) == SetCell(SetCell(old(Grid(m)), i, j, f.0), k, l, f.1)
  {
    match op {
      case Average(c) =>
        AverageCells(m, i, j, k, l, c);
      case Recover(normalised, s) =>
        RecoverCells(m, i, j, k, l, normalised, s);
    }
  }

  /** The forward step (lines 39-41 of haar.hpp): the difference goes to the second cell first. */
  method AverageCells(m: array2<real>, i: int, j: int, k: int, l: int, c: real)
    requires 0 <= i < m.Length0 && 0 <= j < m.Length1 && 0 <= k < m.Length0 && 0 <= l < m.Length1
    requires (i, j) != (k, l)
    modifies m
    ensures var f := Combine(old(m[i, j]), old(m[k, l]), Average(c));
      Grid(m) == SetCell(SetCell(old(Grid(m)), i, j, f.0), k, l, f.1)
  {
    ghost var g0 := Grid(m);
    ghost var f := Combine(m[i, j], m[k, l], Average(c));
    var avg := (m[i, j] + m[k, l]) / 2.0;
    assert f.0 == c * avg && f.1 == c * (m[i, j] - avg);
    Put(m, k, l, c * (m[i, j] - avg));
    assert m[i, j] == Grid(m)[i][j] == g0[i][j];
    Put(m, i, j, c * avg);
    SetCellsSwap(g0, i, j, k, l, f.0, f.1);
  }

  /** The inverse step: the first cell is rewritten and the second computed from it. */
  method RecoverCells(m: array2<real>, i: int, j: int, k: int, l: int, normalised: bool, s: real)
    requires 0 <= i < m.Length0 && 0 <= j < m.Length1 && 0 <= k < m.Length0 && 0 <= l < m.Length1
    requires (i, j) != (k, l) && Defined(Recover(normalised, s))
    modifies m
    ensures var f := Combine(old(m[i, j]), old(m[k, l]), Recover(normalised, s));
      Grid(m) == SetCell(SetCell(old(Grid(m)), i, j, f.0), k, l, f.1)
  {
    ghost var a, b := m[i, j], m[k, l];
    ghost var f := Combine(a, b, Recover(normalised, s));
    if normalised {
      assert f.0 == (a + b) / s && f.1 == f.0 - s * b;
      Put(m, i, j, (m[i, j] + m[k, l]) / s);
      assert m[i, j] == Grid(m)[i][j] == f.0 && m[k, l] == Grid(m)[k][l] == b;
      var d := m[i, j] - s * m[k, l];
      assert d == f.1;
      Put(m, k, l, d);
    } else {
      assert f.0 == a + b && f.1 == f.0 - 2.0 * b;
      Put(m, i, j, m[i, j] + m[k, l]);
      assert m[i, j] == Grid(m)[i][j] == f.0 && m[k, l] == Grid(m)[k][l] == b;
      var d := m[i, j] - 2.0 * m[k, l];
      assert d == f.1;
      Put(m, k, l, d);
    }
  }

  /** Writes to two different cells commute. */
  lemma SetCellsSwap(g: Matrix, i: int, j: int, k: int, l: int, x: real, y: real)
    requires IsMatrix(g, |g|, Width(g)) && 0 <= i < |g| && 0 <= j < Width(g) && 0 <= k < |g| && 0 <= l < Width(g)
    requires (i, j) != (k, l)
    ensures SetCell(SetCell(g, k, l, y), i, j, x) == SetCell(SetCell(g, i, j, x), k, l, y)
  {
    MatrixEq(SetCell(SetCell(g, k, l, y), i, j, x), SetCell(SetCell(g, i, j, x), k, l, y), |g|, Width(g));
  }

  /** The inner loop over `j < cols` for the row pair `i`, `i + 1`. */
  method PairTwoRowsLoop(m: array2<real>, i: int, cols: int, op: PairOp)
    requires 0 <= i && i + 1 < m.Length0 && 0 <= cols <= m.Length1 && Defined(op)
    modifies m
    ensures Grid(m) == PairTwoRows(old(Grid(m)), i, cols, StepOf(op))
  {
    ghost var g0 := Grid(m);
    PairTwoRowsNone(g0, i, StepOf(op));
    for j := 0 to cols
      invariant Grid(m) == PairTwoRows(g0, i, j, StepOf(op))
    {
      assert Width(g0) == m.Length1;
      PairTwoRowsAt(g0, i, j, StepOf(op), i, j);
      PairTwoRowsAt(g0, i, j, StepOf(op), i + 1, j);
      PairCells(m, i, j, i + 1, j, op);
      PairTwoRowsStep(g0, i, j, StepOf(op));
    }
  }

  /** The outer loop over even `i < rows` (lines 37-42 of haar.hpp, 109-119 inverted). */
  method PairRowsLoop(m: array2<real>, rows: int, cols: int, op: PairOp)
    requires 0 <= rows <= m.Length0 && rows % 2 == 0 && 0 <= cols <= m.Length1 && Defined(op)
    modifies m
    ensures Grid(m) == PairRows(old(Grid(m)), rows, cols, StepOf(op))
  {
    ghost var g0 := Grid(m);
    assert 0 < m.Length0 ==> Width(g0) == m.Length1;
    PairRowsNone(g0, cols, StepOf(op));
    var i := 0;
    ghost var t := 0;
    while i < rows
      invariant 0 <= i <= rows && i == 2 * t
      invariant Grid(m) == PairRows(g0, i, cols, StepOf(op))
    {
      EvenStep(t, rows);
      NextRowPair(m, g0, i, cols, op);
      i, t := i + 2, t + 1;
    }
  }

  method NextRowPair(m: array2<real>, ghost g0: Matrix, i: int, cols: int, op: PairOp)
    requires IsMatrix(g0, m.Length0, m.Length1) && 0 <= i && i + 2 <= m.Length0 && i % 2 == 0
    requires 0 <= cols <= m.Length1 && Defined(op)
    requires Grid(m) == PairRows(g0, i, cols, StepOf(op))
    modifies m
    ensures Grid(m) == PairRows(g0, i + 2, cols, StepOf(op))
  {
    assert Width(g0) == m.Length1;
    PairTwoRowsLoop(m, i, cols, op);
    PairRowsNext(g0, i, cols, StepOf(op));
  }

  /** The inner loop over `i < rows` for the column pair `j`, `j + 1`. */
  method PairTwoColsLoop(m: array2<real>, j: int, rows: int, op: PairOp)
    requires 0 < m.Length0 && 0 <= j && j + 1 < m.Length1 && 0 <= rows <= m.Length0 && Defined(op)
    modifies m
    ensures Grid(m) == PairTwoCols(old(Grid(m)), j, rows, StepOf(op))
  {
    ghost var g0 := Grid(m);
    assert Width(g0) == m.Length1;
    PairTwoColsNone(g0, j, StepOf(op));
    for i := 0 to rows
      invariant Grid(m) == PairTwoCols(g0, j, i, StepOf(op))
    {
      assert Width(g0) == m.Length1;
      PairTwoColsAt(g0, j, i, StepOf(op), i, j);
      PairTwoColsAt(g0, j, i, StepOf(op), i, j + 1);
      PairCells(m, i, j, i, j + 1, op);
      PairTwoColsStep(g0, j, i, StepOf(op));
    }
  }

  /** The outer loop over even `j < cols` (lines 48-53 of haar.hpp, 96-106 inverted). */
  method PairColsLoop(m: array2<real>, rows: int, cols: int, op: PairOp)
    requires 0 < m.Length0 && 0 <= rows <= m.Length0 && 0 <= cols <= m.Length1 && cols % 2 == 0 && Defined(op)
    modifies m
    ensures Grid(m) == PairCols(old(Grid(m)), rows, cols, StepOf(op))
  {
    ghost var g0 := Grid(m);
    assert Width(g0) == m.Length1;
    PairColsNone(g0, rows, StepOf(op));
    var j := 0;
    ghost var t := 0;
    while j < cols
      invariant 0 <= j <= cols && j == 2 * t
      invariant Grid(m) == PairCols(g0, rows, j, StepOf(op))
    {
      EvenStep(t, cols);
      NextColPair(m, g0, rows, j, op);
      j, t := j + 2, t + 1;
    }
  }

  method NextColPair(m: array2<real>, ghost g0: Matrix, rows: int, j: int, op: PairOp)
    requires 0 < m.Length0 && IsMatrix(g0, m.Length0, m.Length1) && 0 <= j && j + 2 <= m.Length1 && j % 2 == 0
    requires 0 <= rows <= m.Length0 && Defined(op)
    requires Grid(m) == PairCols(g0, rows, j, StepOf(op))
    modifies m
    ensures Grid(m) == PairCols(g0, rows, j + 2, StepOf(op))
  {
    assert Width(g0) == m.Length1;
    PairTwoColsLoop(m, j, rows, op);
    PairColsNext(g0, rows, j, StepOf(op));
  }

  /** `haar_transform(_matrix, rows, cols, normalised)` of haar.hpp, with `s` for `sqrt(2)`. */
  method HaarTransform(m: array2<real>, rows: int, cols: int, normalised: bool, s: real)
    requires BlockIn(Grid(m), rows, cols)
    modifies m
    ensures Grid(m) == Transform(old(Grid(m)), rows, cols, normalised, s)
    decreases Size(rows)
  {
    var c := 1.0;
    if normalised {
      c := s;
    }
    if rows <= 1 || cols <= 1 {
      return;
    }
    RowsStep(m, rows, cols, c);
    ColsStep(m, rows, cols, c);
    Reorganise(m, Even(rows), Even(cols), 1.0);
    HaarTransform(m, Even(rows) / 2, Even(cols) / 2, normalised, s);
  }

  /** The row half of a forward level (lines 33-42 of haar.hpp). */
  method RowsStep(m: array2<real>, rows: int, cols: int, c: real)
    requires BlockIn(Grid(m), rows, cols) && rows > 1 && cols > 1
    modifies m
    ensures Grid(m) == RowsPaired(old(Grid(m)), rows, cols, c)
  {
    ghost var g0 := Grid(m);
    assert Width(g0) == m.Length1;
    if rows % 2 == 1 {
      ZeroRowLoop(m, rows - 1, cols);
    }
    PairRowsLoop(m, Even(rows), cols, Average(c));
  }

  /** The column half of a forward level (lines 44-53 of haar.hpp). */
  method ColsStep(m: array2<real>, rows: int, cols: int, c: real)
    requires BlockIn(Grid(m), rows, cols) && rows > 1 && cols > 1
    modifies m
    ensures Grid(m) == ColsPaired(old(Grid(m)), rows, cols, c)
  {
    ghost var g0 := Grid(m);
    assert Width(g0) == m.Length1;
    if cols % 2 == 1 {
      ZeroColLoop(m, cols - 1, Even(rows));
    }
    PairColsLoop(m, Even(rows), Even(cols), Average(c));
  }

  /** `inverse_haar_transform(_matrix, rows, cols, normalised)` of haar.hpp. */
  method InverseHaarTransform(m: array2<real>, rows: int, cols: int, normalised: bool, s: real)
    requires BlockIn(Grid(m), rows, cols) && (normalised ==> s > 0.0)
    modifies m
    ensures Grid(m) == Inverse(old(Grid(m)), rows, cols, normalised, s)
    decreases Size(rows)
  {
    if rows <= 1 || cols <= 1 {
      return;
    }
    InverseHaarTransform(m, rows / 2, cols / 2, normalised, s);
    ghost var g1 := Grid(m);
    assert Width(g1) == m.Length1;
    var r, k := Even(rows), Even(cols);
    Restore(m, r, k, 1.0);
    PairColsLoop(m, rows, k, Recover(normalised, s));
    PairRowsLoop(m, r, k, Recover(normalised, s));
  }

  /** `haar_transform(_matrix, rows, cols)` of haar.cpp: the unnormalised transform. */
  method HaarTransformCpp(m: array2<real>, rows: int, cols: int)
    requires BlockIn(Grid(m), rows, cols)
    modifies m
    ensures Grid(m) == Transform(old(Grid(m)), rows, cols, false, 1.0)
  {
    HaarTransform(m, rows, cols, false, 1.0);
  }

  /** `inverse_haar_transform(_matrix, rows, cols)` of haar.cpp. */
  method InverseHaarTransformCpp(m: array2<real>, rows: int, cols: int)
    requires BlockIn(Grid(m), rows, cols)
    modifies m
    ensures Grid(m) == Inverse(old(Grid(m)), rows, cols, false, 1.0)
  {
    InverseHaarTransform(m, rows, cols, false, 1.0);
  }
}
