/**
 * The quadrant reorganisation that follows each level of the 2D lifting and Haar
 * transforms: the leading `l1` by `l2` block is split by row and column parity
 * into four bands, each moved to one quadrant of the block.
 */
module Quadrants {
  import opened Images

  /**
   * ParityBands (the C++ sources): the row parity picks the upper or lower half,
   * the column parity the left or right half.
   * CrossedBands (3/lib/lazy_wavelet.py): the row parity picks the left or right
   * half and the column parity the upper or lower half.
   */
  datatype Layout = ParityBands | CrossedBands

  /** The block fits the matrix and has even sides. */
  predicate BlockFits(g: Matrix, l1: int, l2: int) {
    IsMatrix(g, |g|, Width(g)) && 0 <= l1 <= |g| && 0 <= l2 <= Width(g) && l1 % 2 == 0 && l2 % 2 == 0
  }

  /** Row of the quadrant cell that receives block cell (p, q). */
  function DstRow(p: int, q: int, l1: int, layout: Layout): int {
    var odd := if layout == ParityBands then p % 2 else q % 2;
    p / 2 + odd * (l1 / 2)
  }

  /** Column of the quadrant cell that receives block cell (p, q). */
  function DstCol(p: int, q: int, l2: int, layout: Layout): int {
    var odd := if layout == ParityBands then q % 2 else p % 2;
    q / 2 + odd * (l2 / 2)
  }

  /** Block row that lands on quadrant cell (i, j). */
  function SrcRow(i: int, j: int, l1: int, l2: int, layout: Layout): int {
    var half := if layout == ParityBands then (if i < l1 / 2 then 0 else 1) else (if j < l2 / 2 then 0 else 1);
    2 * (i - (if i < l1 / 2 then 0 else l1 / 2)) + half
  }

  /** Block column that lands on quadrant cell (i, j). */
  function SrcCol(i: int, j: int, l1: int, l2: int, layout: Layout): int {
    var half := if layout == ParityBands then (if j < l2 / 2 then 0 else 1) else (if i < l1 / 2 then 0 else 1);
    2 * (j - (if j < l2 / 2 then 0 else l2 / 2)) + half
  }

  /**
   * The reorganised matrix: each block cell moves to its quadrant cell, the
   * (even, even) band scaled by `c`; cells outside the block stay.
   */
  function Quad(g: Matrix, l1: int, l2: int, layout: Layout, c: real): (r: Matrix)
    requires BlockFits(g, l1, l2)
    ensures IsMatrix(r, |g|, Width(g)) && Width(r) == Width(g)
    ensures forall i, j :: 0 <= i < |g| && 0 <= j < Width(g) && !(i < l1 && j < l2) ==> r[i][j] == g[i][j]
  {
    var r := Build(|g|, Width(g), (i, j) =>
      if 0 <= i < l1 && 0 <= j < l2 then
        (if i < l1 / 2 && j < l2 / 2 then c * At(g, SrcRow(i, j, l1, l2, layout), SrcCol(i, j, l1, l2, layout)) else At(g, SrcRow(i, j, l1, l2, layout), SrcCol(i, j, l1, l2, layout)))
      else At(g, i, j));
    assert forall i, j :: 0 <= i < |g| && 0 <= j < Width(g) && !(i < l1 && j < l2) ==> r[i][j] == At(g, i, j);
    r
  }

  /** The reorganisation undone: block cell (p, q) is read back from its quadrant cell. */
  function UnQuad(g: Matrix, l1: int, l2: int, layout: Layout, c: real): (r: Matrix)
    requires BlockFits(g, l1, l2) && c != 0.0
    ensures IsMatrix(r, |g|, Width(g)) && Width(r) == Width(g)
    ensures forall i, j :: 0 <= i < |g| && 0 <= j < Width(g) && !(i < l1 && j < l2) ==> r[i][j] == g[i][j]
  {
    Build(|g|, Width(g), (p, q) =>
      if 0 <= p < l1 && 0 <= q < l2 then
        (if p % 2 == 0 && q % 2 == 0 then At(g, DstRow(p, q, l1, layout), DstCol(p, q, l2, layout)) / c else At(g, DstRow(p, q, l1, layout), DstCol(p, q, l2, layout)))
      else At(g, p, q))
  }

  lemma SrcDst(p: int, q: int, l1: int, l2: int, layout: Layout)
    requires 0 <= p < l1 && 0 <= q < l2 && l1 % 2 == 0 && l2 % 2 == 0
    ensures 0 <= DstRow(p, q, l1, layout) < l1 && 0 <= DstCol(p, q, l2, layout) < l2
    ensures SrcRow(DstRow(p, q, l1, layout), DstCol(p, q, l2, layout), l1, l2, layout) == p
    ensures SrcCol(DstRow(p, q, l1, layout), DstCol(p, q, l2, layout), l1, l2, layout) == q
    ensures (DstRow(p, q, l1, layout) < l1 / 2 && DstCol(p, q, l2, layout) < l2 / 2) <==> (p % 2 == 0 && q % 2 == 0)
  {
    HalfIndex(p, l1);
    HalfIndex(q, l2);
  }

  /** An index below an even bound, split into its half and its parity. */
  lemma HalfIndex(p: int, l: int)
    requires 0 <= p < l && l % 2 == 0
    ensures p == 2 * (p / 2) + p % 2 && 0 <= p / 2 < l / 2 && (p % 2 == 0 || p % 2 == 1)
  {
  }

  /** Block cell (p, q) lands on its quadrant cell, scaled by `c` in the (even, even) band. */
  lemma QuadMoves(g: Matrix, l1: int, l2: int, layout: Layout, c: real, p: int, q: int)
    requires BlockFits(g, l1, l2) && 0 <= p < l1 && 0 <= q < l2
    ensures At(Quad(g, l1, l2, layout, c), DstRow(p, q, l1, layout), DstCol(p, q, l2, layout))
      == (if p % 2 == 0 && q % 2 == 0 then c * g[p][q] else g[p][q])
  {
    SrcDst(p, q, l1, l2, layout);
  }

  /** A matrix that holds, cell by cell, what `Quad` (scale 1) puts there is that reorganisation. */
  lemma QuadByCells(g: Matrix, r: Matrix, l1: int, l2: int, layout: Layout)
    requires BlockFits(g, l1, l2) && IsMatrix(r, |g|, Width(g))
    requires forall p, q :: 0 <= p < l1 && 0 <= q < l2 ==>
      r[p][q] == At(g, SrcRow(p, q, l1, l2, layout), SrcCol(p, q, l1, l2, layout))
    requires forall p, q :: 0 <= p < |g| && 0 <= q < Width(g) && !(p < l1 && q < l2) ==> r[p][q] == g[p][q]
    ensures r == Quad(g, l1, l2, layout, 1.0)
  {
    MatrixEq(r, Quad(g, l1, l2, layout, 1.0), |g|, Width(g));
  }

  /** A matrix that holds, cell by cell, what `UnQuad` (scale 1) puts there is that restoration. */
  lemma UnQuadByCells(g: Matrix, r: Matrix, l1: int, l2: int, layout: Layout)
    requires BlockFits(g, l1, l2) && IsMatrix(r, |g|, Width(g))
    requires forall p, q :: 0 <= p < l1 && 0 <= q < l2 ==>
      r[p][q] == At(g, DstRow(p, q, l1, layout), DstCol(p, q, l2, layout))
    requires forall p, q :: 0 <= p < |g| && 0 <= q < Width(g) && !(p < l1 && q < l2) ==> r[p][q] == g[p][q]
    ensures r == UnQuad(g, l1, l2, layout, 1.0)
  {
    MatrixEq(r, UnQuad(g, l1, l2, layout, 1.0), |g|, Width(g));
  }

  lemma DstSrc(i: int, j: int, l1: int, l2: int, layout: Layout)
    requires 0 <= i < l1 && 0 <= j < l2 && l1 % 2 == 0 && l2 % 2 == 0
    ensures 0 <= SrcRow(i, j, l1, l2, layout) < l1 && 0 <= SrcCol(i, j, l1, l2, layout) < l2
    ensures DstRow(SrcRow(i, j, l1, l2, layout), SrcCol(i, j, l1, l2, layout), l1, layout) == i
    ensures DstCol(SrcRow(i, j, l1, l2, layout), SrcCol(i, j, l1, l2, layout), l2, layout) == j
  {
  }

  /** The inverse reorganisation restores the matrix (for any nonzero scale). */
  lemma UnQuadQuad(g: Matrix, l1: int, l2: int, layout: Layout, c: real)
    requires BlockFits(g, l1, l2) && c != 0.0
    ensures UnQuad(Quad(g, l1, l2, layout, c), l1, l2, layout, c) == g
  {
    var b := UnQuad(Quad(g, l1, l2, layout, c), l1, l2, layout, c);
    forall p, q | 0 <= p < |g| && 0 <= q < Width(g)
      ensures b[p][q] == g[p][q]
    {
      UnQuadQuadCell(g, l1, l2, layout, c, p, q);
    }
    MatrixEq(b, g, |g|, Width(g));
  }

  lemma UnQuadQuadCell(g: Matrix, l1: int, l2: int, layout: Layout, c: real, p: int, q: int)
    requires BlockFits(g, l1, l2) && c != 0.0 && 0 <= p < |g| && 0 <= q < Width(g)
    ensures UnQuad(Quad(g, l1, l2, layout, c), l1, l2, layout, c)[p][q] == g[p][q]
  {
    if p < l1 && q < l2 {
      SrcDst(p, q, l1, l2, layout);
    }
  }

  /** ... and the reorganisation undoes its inverse. */
  lemma QuadUnQuad(g: Matrix, l1: int, l2: int, layout: Layout, c: real)
    requires BlockFits(g, l1, l2) && c != 0.0
    ensures Quad(UnQuad(g, l1, l2, layout, c), l1, l2, layout, c) == g
  {
    var u := UnQuad(g, l1, l2, layout, c);
    var b := Quad(u, l1, l2, layout, c);
    forall i, j | 0 <= i < |g| && 0 <= j < Width(g)
      ensures b[i][j] == g[i][j]
    {
      if i < l1 && j < l2 {
        DstSrc(i, j, l1, l2, layout);
        var p := SrcRow(i, j, l1, l2, layout);
        var q := SrcCol(i, j, l1, l2, layout);
        SrcDst(p, q, l1, l2, layout);
      }
    }
    MatrixEq(b, g, |g|, Width(g));
  }

  // ---------------------------------------------------------------------
  // The C++ double loops over the block, one cell per iteration
  // ---------------------------------------------------------------------

  /** The quadrant cell of block cell (i, j) in the C++ layout, written as the C++ loops compute it. */
  lemma ParityDst(i: int, j: int, l1: int, l2: int)
    requires 0 <= i && 0 <= j
    ensures DstRow(i, j, l1, ParityBands) == if i % 2 == 0 then i / 2 else l1 / 2 + (i - 1) / 2
    ensures DstCol(i, j, l2, ParityBands) == if j % 2 == 0 then j / 2 else l2 / 2 + (j - 1) / 2
  {
    if i % 2 == 1 {
      assert (i - 1) / 2 == i / 2;
    }
    if j % 2 == 1 {
      assert (j - 1) / 2 == j / 2;
    }
  }

  /** The block cell of quadrant cell (i, j) in the C++ layout, written as the C++ loops compute it. */
  lemma ParitySrc(i: int, j: int, l1: int, l2: int)
    ensures SrcRow(i, j, l1, l2, ParityBands) == if i < l1 / 2 then 2 * i else (i - l1 / 2) * 2 + 1
    ensures SrcCol(i, j, l1, l2, ParityBands) == if j < l2 / 2 then 2 * j else (j - l2 / 2) * 2 + 1
  {
  }

  /** Row-major order: (p, q) is visited before (i, j). */
  predicate Before(p: int, q: int, i: int, j: int) {
    p < i || (p == i && q < j)
  }

  /**
   * The matrix part-way through the forward loop: the block cells visited
   * before (i, j) have moved to their quadrant cells; every other cell holds
   * its old value.
   */
  function QuadUpTo(g: Matrix, l1: int, l2: int, layout: Layout, c: real, i: int, j: int): (r: Matrix)
    requires BlockFits(g, l1, l2)
    ensures IsMatrix(r, |g|, Width(g))
  {
    Build(|g|, Width(g), (x, y) =>
      if 0 <= x < l1 && 0 <= y < l2 && Before(SrcRow(x, y, l1, l2, layout), SrcCol(x, y, l1, l2, layout), i, j) then
        (if x < l1 / 2 && y < l2 / 2 then c * At(g, SrcRow(x, y, l1, l2, layout), SrcCol(x, y, l1, l2, layout)) else At(g, SrcRow(x, y, l1, l2, layout), SrcCol(x, y, l1, l2, layout)))
      else At(g, x, y))
  }

  lemma QuadUpToStart(g: Matrix, l1: int, l2: int, layout: Layout, c: real)
    requires BlockFits(g, l1, l2)
    ensures QuadUpTo(g, l1, l2, layout, c, 0, 0) == g
  {
    var r := QuadUpTo(g, l1, l2, layout, c, 0, 0);
    forall x, y | 0 <= x < |g| && 0 <= y < Width(g)
      ensures r[x][y] == g[x][y]
    {
      if x < l1 && y < l2 {
        DstSrc(x, y, l1, l2, layout);
        assert !Before(SrcRow(x, y, l1, l2, layout), SrcCol(x, y, l1, l2, layout), 0, 0);
      }
      assert r[x][y] == At(g, x, y);
    }
    MatrixEq(r, g, |g|, Width(g));
  }

  /** The end of one row of the loop is the start of the next. */
  lemma QuadUpToNextRow(g: Matrix, l1: int, l2: int, layout: Layout, c: real, i: int)
    requires BlockFits(g, l1, l2)
    ensures QuadUpTo(g, l1, l2, layout, c, i, l2) == QuadUpTo(g, l1, l2, layout, c, i + 1, 0)
  {
    var r := QuadUpTo(g, l1, l2, layout, c, i, l2);
    var t := QuadUpTo(g, l1, l2, layout, c, i + 1, 0);
    forall x, y | 0 <= x < |g| && 0 <= y < Width(g)
      ensures r[x][y] == t[x][y]
    {
      if x < l1 && y < l2 {
        DstSrc(x, y, l1, l2, layout);
      }
    }
    MatrixEq(r, t, |g|, Width(g));
  }

  /** After the whole block has been visited the matrix is the reorganisation. */
  lemma QuadUpToEnd(g: Matrix, l1: int, l2: int, layout: Layout, c: real)
    requires BlockFits(g, l1, l2)
    ensures QuadUpTo(g, l1, l2, layout, c, l1, 0) == Quad(g, l1, l2, layout, c)
  {
    var r := QuadUpTo(g, l1, l2, layout, c, l1, 0);
    var t := Quad(g, l1, l2, layout, c);
    forall x, y | 0 <= x < |g| && 0 <= y < Width(g)
      ensures r[x][y] == t[x][y]
    {
      if x < l1 && y < l2 {
        DstSrc(x, y, l1, l2, layout);
      }
    }
    MatrixEq(r, t, |g|, Width(g));
  }

  /** One iteration of the loop writes block cell (i, j) to its quadrant cell. */
  lemma QuadUpToNext(g: Matrix, l1: int, l2: int, layout: Layout, c: real, i: int, j: int)
    requires BlockFits(g, l1, l2) && 0 <= i < l1 && 0 <= j < l2
    ensures 0 <= DstRow(i, j, l1, layout) < l1 && 0 <= DstCol(i, j, l2, layout) < l2
    ensures SetCell(QuadUpTo(g, l1, l2, layout, c, i, j), DstRow(i, j, l1, layout), DstCol(i, j, l2, layout),
      (if i % 2 == 0 && j % 2 == 0 then c * g[i][j] else g[i][j])) == QuadUpTo(g, l1, l2, layout, c, i, j + 1)
  {
    SrcDst(i, j, l1, l2, layout);
    var x0, y0 := DstRow(i, j, l1, layout), DstCol(i, j, l2, layout);
    var r := SetCell(QuadUpTo(g, l1, l2, layout, c, i, j), x0, y0, (if i % 2 == 0 && j % 2 == 0 then c * g[i][j] else g[i][j]));
    var t := QuadUpTo(g, l1, l2, layout, c, i, j + 1);
    forall x, y | 0 <= x < |g| && 0 <= y < Width(g)
      ensures r[x][y] == t[x][y]
    {
      QuadUpToCell(g, l1, l2, layout, c, i, j, x, y);
    }
    MatrixEq(r, t, |g|, Width(g));
  }

  /** Cell (x, y) across one iteration of the forward loop. */
  lemma QuadUpToCell(g: Matrix, l1: int, l2: int, layout: Layout, c: real, i: int, j: int, x: int, y: int)
    requires BlockFits(g, l1, l2) && 0 <= i < l1 && 0 <= j < l2 && 0 <= x < |g| && 0 <= y < Width(g)
    ensures QuadUpTo(g, l1, l2, layout, c, i, j + 1)[x][y] ==
      if x == DstRow(i, j, l1, layout) && y == DstCol(i, j, l2, layout) then
        (if i % 2 == 0 && j % 2 == 0 then c * g[i][j] else g[i][j])
      else QuadUpTo(g, l1, l2, layout, c, i, j)[x][y]
  {
    SrcDst(i, j, l1, l2, layout);
    if x < l1 && y < l2 && !(x == DstRow(i, j, l1, layout) && y == DstCol(i, j, l2, layout)) {
      DstSrc(x, y, l1, l2, layout);
      var p, q := SrcRow(x, y, l1, l2, layout), SrcCol(x, y, l1, l2, layout);
      assert Before(p, q, i, j) <==> Before(p, q, i, j + 1);
    }
  }

  /**
   * The matrix part-way through the inverse loop, which visits the quadrant
   * cells: the block cells whose quadrant cell was visited before (i, j)
   * hold their restored value; every other cell holds its old value.
   */
  function UnQuadUpTo(g: Matrix, l1: int, l2: int, layout: Layout, c: real, i: int, j: int): (r: Matrix)
    requires BlockFits(g, l1, l2) && c != 0.0
    ensures IsMatrix(r, |g|, Width(g))
  {
    Build(|g|, Width(g), (p, q) =>
      if 0 <= p < l1 && 0 <= q < l2 && Before(DstRow(p, q, l1, layout), DstCol(p, q, l2, layout), i, j) then
        (if p % 2 == 0 && q % 2 == 0 then At(g, DstRow(p, q, l1, layout), DstCol(p, q, l2, layout)) / c else At(g, DstRow(p, q, l1, layout), DstCol(p, q, l2, layout)))
      else At(g, p, q))
  }

  lemma UnQuadUpToStart(g: Matrix, l1: int, l2: int, layout: Layout, c: real)
    requires BlockFits(g, l1, l2) && c != 0.0
    ensures UnQuadUpTo(g, l1, l2, layout, c, 0, 0) == g
  {
    var r := UnQuadUpTo(g, l1, l2, layout, c, 0, 0);
    forall p, q | 0 <= p < |g| && 0 <= q < Width(g)
      ensures r[p][q] == g[p][q]
    {
      if p < l1 && q < l2 {
        SrcDst(p, q, l1, l2, layout);
      }
    }
    MatrixEq(r, g, |g|, Width(g));
  }

  lemma UnQuadUpToNextRow(g: Matrix, l1: int, l2: int, layout: Layout, c: real, i: int)
    requires BlockFits(g, l1, l2) && c != 0.0
    ensures UnQuadUpTo(g, l1, l2, layout, c, i, l2) == UnQuadUpTo(g, l1, l2, layout, c, i + 1, 0)
  {
    var r := UnQuadUpTo(g, l1, l2, layout, c, i, l2);
    var t := UnQuadUpTo(g, l1, l2, layout, c, i + 1, 0);
    forall p, q | 0 <= p < |g| && 0 <= q < Width(g)
      ensures r[p][q] == t[p][q]
    {
      if p < l1 && q < l2 {
        SrcDst(p, q, l1, l2, layout);
      }
    }
    MatrixEq(r, t, |g|, Width(g));
  }

  lemma UnQuadUpToEnd(g: Matrix, l1: int, l2: int, layout: Layout, c: real)
    requires BlockFits(g, l1, l2) && c != 0.0
    ensures UnQuadUpTo(g, l1, l2, layout, c, l1, 0) == UnQuad(g, l1, l2, layout, c)
  {
    var r := UnQuadUpTo(g, l1, l2, layout, c, l1, 0);
    var t := UnQuad(g, l1, l2, layout, c);
    forall p, q | 0 <= p < |g| && 0 <= q < Width(g)
      ensures r[p][q] == t[p][q]
    {
      if p < l1 && q < l2 {
        SrcDst(p, q, l1, l2, layout);
      }
    }
    MatrixEq(r, t, |g|, Width(g));
  }

  /** One iteration of the inverse loop writes quadrant cell (i, j) back to its block cell. */
  lemma UnQuadUpToNext(g: Matrix, l1: int, l2: int, layout: Layout, c: real, i: int, j: int)
    requires BlockFits(g, l1, l2) && c != 0.0 && 0 <= i < l1 && 0 <= j < l2
    ensures 0 <= SrcRow(i, j, l1, l2, layout) < l1 && 0 <= SrcCol(i, j, l1, l2, layout) < l2
    ensures SetCell(UnQuadUpTo(g, l1, l2, layout, c, i, j), SrcRow(i, j, l1, l2, layout), SrcCol(i, j, l1, l2, layout),
      (if i < l1 / 2 && j < l2 / 2 then g[i][j] / c else g[i][j])) == UnQuadUpTo(g, l1, l2, layout, c, i, j + 1)
  {
    DstSrc(i, j, l1, l2, layout);
    var p0, q0 := SrcRow(i, j, l1, l2, layout), SrcCol(i, j, l1, l2, layout);
    var r := SetCell(UnQuadUpTo(g, l1, l2, layout, c, i, j), p0, q0, (if i < l1 / 2 && j < l2 / 2 then g[i][j] / c else g[i][j]));
    var t := UnQuadUpTo(g, l1, l2, layout, c, i, j + 1);
    forall p, q | 0 <= p < |g| && 0 <= q < Width(g)
      ensures r[p][q] == t[p][q]
    {
      UnQuadUpToCell(g, l1, l2, layout, c, i, j, p, q);
    }
    MatrixEq(r, t, |g|, Width(g));
  }

  /** Cell (p, q) across one iteration of the inverse loop. */
  lemma UnQuadUpToCell(g: Matrix, l1: int, l2: int, layout: Layout, c: real, i: int, j: int, p: int, q: int)
    requires BlockFits(g, l1, l2) && c != 0.0 && 0 <= i < l1 && 0 <= j < l2 && 0 <= p < |g| && 0 <= q < Width(g)
    ensures UnQuadUpTo(g, l1, l2, layout, c, i, j + 1)[p][q] ==
      if p == SrcRow(i, j, l1, l2, layout) && q == SrcCol(i, j, l1, l2, layout) then
        (if i < l1 / 2 && j < l2 / 2 then g[i][j] / c else g[i][j])
      else UnQuadUpTo(g, l1, l2, layout, c, i, j)[p][q]
  {
    DstSrc(i, j, l1, l2, layout);
    var p0, q0 := SrcRow(i, j, l1, l2, layout), SrcCol(i, j, l1, l2, layout);
    SrcDst(p0, q0, l1, l2, layout);
    if p < l1 && q < l2 && !(p == p0 && q == q0) {
      SrcDst(p, q, l1, l2, layout);
      var x, y := DstRow(p, q, l1, layout), DstCol(p, q, l2, layout);
      assert Before(x, y, i, j) <==> Before(x, y, i, j + 1);
    }
  }

  /**
   * The C++ reorganisation loop: copy the matrix, then visit the block row by
   * row and write each cell to its quadrant cell, the (even, even) band scaled
   * by `c`.
   */
  method Reorganise(img: array2<real>, l1: int, l2: int, c: real)
    requires 0 < l1 <= img.Length0 && 0 <= l2 <= img.Length1 && l1 % 2 == 0 && l2 % 2 == 0
    modifies img
    ensures Grid(img) == Quad(old(Grid(img)), l1, l2, ParityBands, c)
  {
    ghost var g := Grid(img);
    assert |g[0]| == img.Length1;
    assert BlockFits(g, l1, l2);
    var temp := Copy(img);
    QuadUpToStart(g, l1, l2, ParityBands, c);
    var i := 0;
    while i < l1
      invariant 0 <= i <= l1
      invariant Grid(img) == QuadUpTo(g, l1, l2, ParityBands, c, i, 0)
      invariant Grid(temp) == g
      modifies img
    {
      ReorganiseRow(img, temp, g, l1, l2, c, i);
      i := i + 1;
    }
    QuadUpToEnd(g, l1, l2, ParityBands, c);
  }

  /**
   * The C++ inverse reorganisation loop: copy the matrix, then visit the
   * quadrant cells row by row and write each back to its block cell, the
   * top-left quadrant divided by `c`.
   */
  method Restore(img: array2<real>, l1: int, l2: int, c: real)
    requires 0 < l1 <= img.Length0 && 0 <= l2 <= img.Length1 && l1 % 2 == 0 && l2 % 2 == 0 && c != 0.0
    modifies img
    ensures Grid(img) == UnQuad(old(Grid(img)), l1, l2, ParityBands, c)
  {
    ghost var g := Grid(img);
    assert |g[0]| == img.Length1;
    assert BlockFits(g, l1, l2);
    var temp := Copy(img);
    UnQuadUpToStart(g, l1, l2, ParityBands, c);
    var i := 0;
    while i < l1
      invariant 0 <= i <= l1
      invariant Grid(img) == UnQuadUpTo(g, l1, l2, ParityBands, c, i, 0)
      invariant Grid(temp) == g
      modifies img
    {
      RestoreRow(img, temp, g, l1, l2, c, i);
      i := i + 1;
    }
    UnQuadUpToEnd(g, l1, l2, ParityBands, c);
  }

  /** One iteration of the forward loop: block cell (i, j) of `temp` to its quadrant cell of `img`. */
  method ReorganiseCell(img: array2<real>, temp: array2<real>, ghost g: Matrix, l1: int, l2: int, c: real, i: int, j: int)
    requires img != temp && Grid(temp) == g && BlockFits(g, l1, l2) && 0 <= i < l1 && 0 <= j < l2
    requires Grid(img) == QuadUpTo(g, l1, l2, ParityBands, c, i, j)
    modifies img
    ensures Grid(img) == QuadUpTo(g, l1, l2, ParityBands, c, i, j + 1)
  {
    var x, y, v;
    if i % 2 == 0 && j % 2 == 0 {
      x, y, v := i / 2, j / 2, c * temp[i, j];
    } else if i % 2 == 1 && j % 2 == 0 {
      x, y, v := l1 / 2 + (i - 1) / 2, j / 2, temp[i, j];
    } else if i % 2 == 0 && j % 2 == 1 {
      x, y, v := i / 2, l2 / 2 + (j - 1) / 2, temp[i, j];
    } else {
      x, y, v := l1 / 2 + (i - 1) / 2, l2 / 2 + (j - 1) / 2, temp[i, j];
    }
    QuadUpToNext(g, l1, l2, ParityBands, c, i, j);
    ParityDst(i, j, l1, l2);
    assert x == DstRow(i, j, l1, ParityBands) && y == DstCol(i, j, l2, ParityBands);
    assert v == (if i % 2 == 0 && j % 2 == 0 then c * g[i][j] else g[i][j]);
    Put(img, x, y, v);
  }

  /** One iteration of the inverse loop: quadrant cell (i, j) of `temp` back to its block cell of `img`. */
  method RestoreCell(img: array2<real>, temp: array2<real>, ghost g: Matrix, l1: int, l2: int, c: real, i: int, j: int)
    requires img != temp && Grid(temp) == g && BlockFits(g, l1, l2) && c != 0.0 && 0 <= i < l1 && 0 <= j < l2
    requires Grid(img) == UnQuadUpTo(g, l1, l2, ParityBands, c, i, j)
    modifies img
    ensures Grid(img) == UnQuadUpTo(g, l1, l2, ParityBands, c, i, j + 1)
  {
    var p, q, v;
    if i < l1 / 2 && j < l2 / 2 {
      p, q, v := 2 * i, 2 * j, temp[i, j] / c;
    } else if i >= l1 / 2 && j < l2 / 2 {
      p, q, v := (i - l1 / 2) * 2 + 1, 2 * j, temp[i, j];
    } else if i < l1 / 2 && j >= l2 / 2 {
      p, q, v := 2 * i, (j - l2 / 2) * 2 + 1, temp[i, j];
    } else {
      p, q, v := (i - l1 / 2) * 2 + 1, (j - l2 / 2) * 2 + 1, temp[i, j];
    }
    UnQuadUpToNext(g, l1, l2, ParityBands, c, i, j);
    ParitySrc(i, j, l1, l2);
    assert p == SrcRow(i, j, l1, l2, ParityBands) && q == SrcCol(i, j, l1, l2, ParityBands);
    assert v == (if i < l1 / 2 && j < l2 / 2 then g[i][j] / c else g[i][j]);
    Put(img, p, q, v);
  }

  /** The inner loop of `Reorganise`: row `i` of the block, cell by cell. */
  method ReorganiseRow(img: array2<real>, temp: array2<real>, ghost g: Matrix, l1: int, l2: int, c: real, i: int)
    requires img != temp && Grid(temp) == g && BlockFits(g, l1, l2) && 0 <= i < l1
    requires Grid(img) == QuadUpTo(g, l1, l2, ParityBands, c, i, 0)
    modifies img
    ensures Grid(img) == QuadUpTo(g, l1, l2, ParityBands, c, i + 1, 0)
  {
    var j := 0;
    while j < l2
      invariant 0 <= j <= l2
      invariant Grid(img) == QuadUpTo(g, l1, l2, ParityBands, c, i, j)
    {
      ReorganiseCell(img, temp, g, l1, l2, c, i, j);
      j := j + 1;
    }
    QuadUpToNextRow(g, l1, l2, ParityBands, c, i);
  }

  /** The inner loop of `Restore`: row `i` of the block, cell by cell. */
  method RestoreRow(img: array2<real>, temp: array2<real>, ghost g: Matrix, l1: int, l2: int, c: real, i: int)
    requires img != temp && Grid(temp) == g && BlockFits(g, l1, l2) && c != 0.0 && 0 <= i < l1
    requires Grid(img) == UnQuadUpTo(g, l1, l2, ParityBands, c, i, 0)
    modifies img
    ensures Grid(img) == UnQuadUpTo(g, l1, l2, ParityBands, c, i + 1, 0)
  {
    var j := 0;
    while j < l2
      invariant 0 <= j <= l2
      invariant Grid(img) == UnQuadUpTo(g, l1, l2, ParityBands, c, i, j)
    {
      RestoreCell(img, temp, g, l1, l2, c, i, j);
      j := j + 1;
    }
    UnQuadUpToNextRow(g, l1, l2, ParityBands, c, i);
  }
}
