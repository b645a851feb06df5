/**
 * Images as row-major matrices of reals (the float `Mat`s and numpy arrays of the
 * sources), with the few shape helpers the transforms share.
 */
module Images {
  type Matrix = seq<seq<real>>

  /** The largest 32-bit `int` (`INT32_MAX`). */
  const IntMax := 0x7fff_ffff

  /** An 8-bit unsigned value (`uchar`). */
  type Byte = x: int | 0 <= x < 256

  /** `g` has `h` rows of `w` entries each. */
  predicate IsMatrix(g: Matrix, h: int, w: int) {
    |g| == h && forall i :: 0 <= i < h ==> |g[i]| == w
  }

  /** Magnitude of a real (`abs` on a float). */
  function Abs(x: real): (r: real)
    ensures r >= 0.0 && (r == x || r == -x)
  {
    if x < 0.0 then -x else x
  }

  /** A matrix of bytes (a `CV_8UC1` matrix). */
  type ByteMatrix = seq<seq<Byte>>

  /** The contents of a byte array, row by row. */
  function ByteGrid(a: array2<Byte>): (g: ByteMatrix)
    reads a
    ensures |g| == a.Length0 && forall i :: 0 <= i < a.Length0 ==> |g[i]| == a.Length1
    ensures forall i, j :: 0 <= i < a.Length0 && 0 <= j < a.Length1 ==> g[i][j] == a[i, j]
  {
    seq(a.Length0, i requires 0 <= i < a.Length0 reads a =>
      seq(a.Length1, j requires 0 <= j < a.Length1 reads a => a[i, j]))
  }

  predicate IsByteMatrix(g: ByteMatrix, h: int, w: int) {
    |g| == h && forall i :: 0 <= i < h ==> |g[i]| == w
  }

  /** Pixel (r, c) of a byte image, 0 outside it. */
  function ByteAt(g: ByteMatrix, r: int, c: int): Byte {
    if 0 <= r < |g| && 0 <= c < |g[r]| then g[r][c] else 0
  }

  /** Sum of a row. */
  function RowSum(s: seq<real>): real {
    if |s| == 0 then 0.0 else RowSum(s[..|s| - 1]) + s[|s| - 1]
  }

  /** Sum of all entries (`sum()` of a matrix). */
  function Total(g: Matrix): real {
    if |g| == 0 then 0.0 else Total(g[..|g| - 1]) + RowSum(g[|g| - 1])
  }

  /** Entry (i, j), or 0 outside the matrix. */
  function At(g: Matrix, i: int, j: int): real {
    if 0 <= i < |g| && 0 <= j < |g[i]| then g[i][j] else 0.0
  }

  /** A rectangular matrix: every row as long as the first. */
  predicate Rect(g: Matrix) {
    IsMatrix(g, |g|, Width(g))
  }

  /** Number of columns (of the first row). */
  function Width(g: Matrix): nat {
    if |g| == 0 then 0 else |g[0]|
  }

  /** The `h` by `w` matrix whose entry (i, j) is `f(i, j)`. */
  function Build(h: nat, w: nat, f: (int, int) -> real): (r: Matrix)
    ensures IsMatrix(r, h, w)
    ensures forall i, j :: 0 <= i < h && 0 <= j < w ==> r[i][j] == f(i, j)
  {
    seq(h, i => seq(w, j => f(i, j)))
  }

  /** Matrix transpose (cv::transpose): entry (i, j) of the result is entry (j, i) of `g`. */
  function Transpose(g: Matrix): (r: Matrix)
    ensures IsMatrix(r, Width(g), |g|)
    ensures forall i, j :: 0 <= i < Width(g) && 0 <= j < |g| ==> r[i][j] == At(g, j, i)
  {
    seq(Width(g), i => seq(|g|, j => At(g, j, i)))
  }

  lemma TransposeTwice(g: Matrix, h: int, w: int)
    requires IsMatrix(g, h, w) && w > 0
    ensures Transpose(Transpose(g)) == g
  {
    var t := Transpose(g);
    if h > 0 {
      assert Width(g) == w;
      assert Width(t) == h;
    }
    MatrixEq(Transpose(t), g, h, w);
  }

  /** Two matrices of the same shape that agree everywhere are equal. */
  lemma MatrixEq(g1: Matrix, g2: Matrix, h: int, w: int)
    requires IsMatrix(g1, h, w) && IsMatrix(g2, h, w)
    requires forall i, j :: 0 <= i < h && 0 <= j < w ==> g1[i][j] == g2[i][j]
    ensures g1 == g2
  {
    forall i | 0 <= i < h
      ensures g1[i] == g2[i]
    {
      assert forall j :: 0 <= j < w ==> g1[i][j] == g2[i][j];
    }
  }

  /** The contents of a two-dimensional array, row by row. */
  function Grid(a: array2<real>): (g: Matrix)
    reads a
    ensures IsMatrix(g, a.Length0, a.Length1)
    ensures forall i, j :: 0 <= i < a.Length0 && 0 <= j < a.Length1 ==> g[i][j] == a[i, j]
  {
    seq(a.Length0, i requires 0 <= i < a.Length0 reads a =>
      seq(a.Length1, j requires 0 <= j < a.Length1 reads a => a[i, j]))
  }

  /** `g` with row `i` replaced by `c`. */
  function SetRow(g: Matrix, i: int, c: seq<real>): (r: Matrix)
    requires IsMatrix(g, |g|, Width(g)) && |c| == Width(g) && 0 <= i < |g|
    ensures IsMatrix(r, |g|, Width(g)) && Width(r) == Width(g)
    ensures forall p, q :: 0 <= p < |g| && 0 <= q < Width(g) ==> r[p][q] == if p == i then c[q] else g[p][q]
  {
    g[i := c]
  }

  /** `g` with column `j` replaced by `c`. */
  function SetCol(g: Matrix, j: int, c: seq<real>): (r: Matrix)
    requires IsMatrix(g, |g|, Width(g)) && |c| == |g| && 0 <= j < Width(g)
    ensures IsMatrix(r, |g|, Width(g)) && Width(r) == Width(g)
    ensures forall p, q :: 0 <= p < |g| && 0 <= q < Width(g) ==> r[p][q] == if q == j then c[p] else g[p][q]
  {
    seq(|g|, p requires 0 <= p < |g| => g[p][j := c[p]])
  }

  /** Column `j` of `g`. */
  function Col(g: Matrix, j: int): (c: seq<real>)
    ensures |c| == |g|
    ensures forall i :: 0 <= i < |g| ==> c[i] == At(g, i, j)
  {
    seq(|g|, i => At(g, i, j))
  }

  /** `g` with entry (x, y) replaced by `v`. */
  function SetCell(g: Matrix, x: int, y: int, v: real): (r: Matrix)
    requires IsMatrix(g, |g|, Width(g)) && 0 <= x < |g| && 0 <= y < Width(g)
    ensures IsMatrix(r, |g|, Width(g)) && Width(r) == Width(g)
    ensures forall p, q :: 0 <= p < |g| && 0 <= q < Width(g) ==> r[p][q] == if p == x && q == y then v else g[p][q]
  {
    g[x := g[x][y := v]]
  }

  /** `img.at<float>(x, y) = v`. */
  method Put(img: array2<real>, x: int, y: int, v: real)
    requires 0 <= x < img.Length0 && 0 <= y < img.Length1
    modifies img
    ensures Grid(img) == SetCell(old(Grid(img)), x, y, v)
  {
    ghost var before := Grid(img);
    img[x, y] := v;
    MatrixEq(Grid(img), SetCell(before, x, y, v), img.Length0, img.Length1);
  }

  /** A fresh copy of `img` (`copyTo`, or numpy's `__temp[:, :] = _img`). */
  method Copy(img: array2<real>) returns (temp: array2<real>)
    ensures fresh(temp) && temp.Length0 == img.Length0 && temp.Length1 == img.Length1
    ensures Grid(temp) == Grid(img)
  {
    temp := new real[img.Length0, img.Length1]((p, q) requires 0 <= p < img.Length0 && 0 <= q < img.Length1 reads img => img[p, q]);
    MatrixEq(Grid(temp), Grid(img), img.Length0, img.Length1);
  }

  /** Row `i` of `img` overwritten with `v`. */
  method WriteRow(img: array2<real>, i: int, v: array<real>)
    requires 0 <= i < img.Length0 && v.Length == img.Length1
    modifies img
    ensures Grid(img) == SetRow(old(Grid(img)), i, v[..])
  {
    ghost var before := Grid(img);
    forall k | 0 <= k < img.Length1 {
      img[i, k] := v[k];
    }
    MatrixEq(Grid(img), SetRow(before, i, v[..]), img.Length0, img.Length1);
  }

  /** Column `j` of `img` overwritten with `v`. */
  method WriteCol(img: array2<real>, j: int, v: array<real>)
    requires 0 <= j < img.Length1 && 0 < v.Length == img.Length0
    modifies img
    ensures Grid(img) == SetCol(old(Grid(img)), j, v[..])
  {
    ghost var before := Grid(img);
    forall k | 0 <= k < img.Length0 {
      img[k, j] := v[k];
    }
    MatrixEq(Grid(img), SetCol(before, j, v[..]), img.Length0, img.Length1);
  }
}
