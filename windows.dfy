/**
 * Causal neighbourhoods for texture synthesis, shared by
 * 5/lib/non_parametric.py (grey cells) and 5/lib/npcolor.py (colour
 * pixels), whose `nb` functions are the same code. The cell type is a
 * parameter, with the zero cell `np.zeros` fills in.
 */
module Windows {
  import opened Wrappers

  /** A grid of `h` rows of `w` cells. */
  predicate IsGrid<T>(g: seq<seq<T>>, h: int, w: int) {
    |g| == h && forall i :: 0 <= i < h ==> |g[i]| == w
  }

  /** `a[r0:r1, c0:c1]` for bounds inside the grid. */
  function Slice<T>(a: seq<seq<T>>, h: nat, w: nat, r0: nat, r1: nat, c0: nat, c1: nat): (s: seq<seq<T>>)
    requires IsGrid(a, h, w) && r0 <= r1 <= h && c0 <= c1 <= w
    ensures IsGrid(s, r1 - r0, c1 - c0)
    ensures forall i, j :: 0 <= i < r1 - r0 && 0 <= j < c1 - c0 ==> s[i][j] == a[r0 + i][c0 + j]
  {
    seq(r1 - r0, i requires 0 <= i < r1 - r0 => seq(c1 - c0, j requires 0 <= j < c1 - c0 => a[r0 + i][c0 + j]))
  }

  /**
   * An `m` by `n` grid of zero cells with the block `b` written at row
   * `r0`, column `c0` (`nb[r0:r0+bh, c0:c0+bw] = b` on `np.zeros`).
   * numpy demands that the block fit.
   */
  function Paste<T>(zero: T, m: nat, n: nat, r0: nat, c0: nat, b: seq<seq<T>>, bh: nat, bw: nat): (p: seq<seq<T>>)
    requires IsGrid(b, bh, bw) && r0 + bh <= m && c0 + bw <= n
    ensures IsGrid(p, m, n)
    ensures forall i, j :: 0 <= i < m && 0 <= j < n ==>
      p[i][j] == if r0 <= i < r0 + bh && c0 <= j < c0 + bw then b[i - r0][j - c0] else zero
  {
    seq(m, i requires 0 <= i < m => seq(n, j requires 0 <= j < n =>
      if r0 <= i < r0 + bh && c0 <= j < c0 + bw then b[i - r0][j - c0] else zero))
  }

  /**
   * The points at which every slice `nb` cuts from an `h` by `w` grid has
   * the shape its assignment needs. Elsewhere numpy clamps the slice to
   * the grid: the smaller block is broadcast along an axis where it has
   * length 1, numpy raises `ValueError` where it does not, and a
   * whole-slice branch returns the smaller block.
   */
  predicate Fits(h: nat, w: nat, x: int, y: int, tp: bool) {
    0 <= x && 0 <= y <= w && (if tp then x < h else x <= h)
  }

  /**
   * `nb(_shp, _pt, _arr, _tp)` with `_shp` = (m, n) and `_pt` = (x, y),
   * branch by branch. With `tp` the window is the m rows ending at row x
   * and the n columns left of column y; without it, the m rows above row x
   * and the n columns from column y on. Cells outside the grid are zero.
   */
  function Nb<T>(zero: T, m: nat, n: nat, x: int, y: int, a: seq<seq<T>>, h: nat, w: nat, tp: bool): (r: seq<seq<T>>)
    requires IsGrid(a, h, w) && Fits(h, w, x, y, tp)
    ensures IsGrid(r, m, n)
  {
    if tp then
      if x + 1 >= m && y >= n then Slice(a, h, w, x - m + 1, x + 1, y - n, y)
      else if x + 1 >= m then Paste(zero, m, n, 0, n - y, Slice(a, h, w, x - m + 1, x + 1, 0, y), m, y)
      else if y >= n then Paste(zero, m, n, m - x - 1, 0, Slice(a, h, w, 0, x + 1, y - n, y), x + 1, n)
      else Paste(zero, m, n, m - x - 1, n - y, Slice(a, h, w, 0, x + 1, 0, y), x + 1, y)
    else
      if y + n >= w && x < m then Paste(zero, m, n, m - x, 0, Slice(a, h, w, 0, x, y, w), x, w - y)
      else if y + n > w then Paste(zero, m, n, 0, 0, Slice(a, h, w, x - m, x, y, w), m, w - y)
      else if x < m then Paste(zero, m, n, m - x, 0, Slice(a, h, w, 0, x, y, y + n), x, n)
      else Slice(a, h, w, x - m, x, y, y + n)
  }

  /**
   * Every branch of `nb` cuts the same window. With `tp`, cell (i, j) is
   * grid cell (x-m+1+i, y-n+j), zero when that row or column is negative;
   * without `tp`, it is grid cell (x-m+i, y+j), zero when the row is
   * negative or the column is past the last one.
   */
  lemma NbCells<T>(zero: T, m: nat, n: nat, x: int, y: int, a: seq<seq<T>>, h: nat, w: nat, tp: bool, i: int, j: int)
    requires IsGrid(a, h, w) && Fits(h, w, x, y, tp) && 0 <= i < m && 0 <= j < n
    ensures tp ==> (Nb(zero, m, n, x, y, a, h, w, tp)[i][j] ==
                    if 0 <= x - m + 1 + i && 0 <= y - n + j then a[x - m + 1 + i][y - n + j] else zero)
    ensures !tp ==> (Nb(zero, m, n, x, y, a, h, w, tp)[i][j] ==
                     if 0 <= x - m + i && y + j < w then a[x - m + i][y + j] else zero)
  {
  }

  // Collecting the neighbourhoods of a template.

  /**
   * Pixel k of an `h` by `w` template, when the row is `k / d` (the `//`
   * of Python on non-negative numbers) and the column `k % w`.
   */
  function PointOf(k: nat, d: nat, w: nat): (int, int)
    requires d > 0 && w > 0
  {
    (k / d, k % w)
  }

  /** Every one of the `h * w` points (`k / d`, `k % w`) fits the template. */
  predicate PointsFit(h: nat, w: nat, d: nat, tp: bool) {
    h * w == 0 || (d > 0 && (h * w - 1) / d < (if tp then h else h + 1))
  }

  lemma DivMonotone(a: nat, b: nat, d: nat)
    requires a <= b && d > 0
    ensures a / d <= b / d
  {
    var p, q := a / d, b / d;
    assert d * p <= a <= b < d * (q + 1);
    MulLess(d, p, q + 1);
  }

  lemma MulLess(d: int, x: int, y: int)
    requires d > 0 && d * x < d * y
    ensures x < y
  {
  }

  lemma PointFits(h: nat, w: nat, d: nat, tp: bool, k: nat)
    requires PointsFit(h, w, d, tp) && k < h * w
    ensures d > 0 && w > 0 && Fits(h, w, PointOf(k, d, w).0, PointOf(k, d, w).1, tp)
  {
    DivMonotone(k, h * w - 1, d);
  }

  /**
   * The neighbourhood the loop of `create_nb` appends for pixel k: that
   * of the point (`k / d`, `k % w`).
   */
  function NbAt<T>(zero: T, m: nat, n: nat, k: nat, d: nat, a: seq<seq<T>>, h: nat, w: nat, tp: bool): (r: seq<seq<T>>)
    requires IsGrid(a, h, w) && PointsFit(h, w, d, tp) && k < h * w
    ensures IsGrid(r, m, n)
  {
    PointFits(h, w, d, tp, k);
    Nb(zero, m, n, k / d, k % w, a, h, w, tp)
  }

  /** The loop of `create_nb`: for k in `range(h * w)`, append `NbAt` of k. */
  method Collect<T>(zero: T, t: seq<seq<T>>, h: nat, w: nat, m: nat, n: nat, tp: bool, d: nat) returns (nbs: seq<seq<seq<T>>>)
    requires IsGrid(t, h, w) && PointsFit(h, w, d, tp)
    ensures |nbs| == h * w
    ensures forall k :: 0 <= k < h * w ==> nbs[k] == NbAt(zero, m, n, k, d, t, h, w, tp)
  {
    nbs := [];
    for k := 0 to h * w
      invariant |nbs| == k
      invariant forall p :: 0 <= p < k ==> nbs[p] == NbAt(zero, m, n, p, d, t, h, w, tp)
    {
      nbs := nbs + [NbAt(zero, m, n, k, d, t, h, w, tp)];
    }
  }

  /**
   * Pixel a * w + b is taken at column b, and at row (a * w + b) / d; with
   * d = w, at row a.
   */
  lemma NbAtSlot<T>(zero: T, m: nat, n: nat, a: nat, b: nat, d: nat, t: seq<seq<T>>, h: nat, w: nat, tp: bool)
    requires IsGrid(t, h, w) && PointsFit(h, w, d, tp) && a < h && b < w
    ensures d > 0 && Fits(h, w, Slot(a, b, h, w) / d, b, tp)
    ensures NbAt(zero, m, n, Slot(a, b, h, w), d, t, h, w, tp) == Nb(zero, m, n, Slot(a, b, h, w) / d, b, t, h, w, tp)
    ensures d == w ==> Slot(a, b, h, w) / d == a
  {
    RowMajor(a, b, w);
    PointFits(h, w, d, tp, Slot(a, b, h, w));
  }

  lemma SlotBelow(a: nat, b: nat, rows: nat, cols: nat)
    requires a < rows && b < cols
    ensures 0 <= a * cols + b < rows * cols
  {
    assert a * cols + b < a * cols + cols == (a + 1) * cols;
    assert (a + 1) * cols <= rows * cols;
  }

  /** The place a * cols + b of slot (a, b) in a row-major layout of a `rows` by `cols` grid. */
  function Slot(a: nat, b: nat, rows: nat, cols: nat): (k: nat)
    requires a < rows && b < cols
    ensures k < rows * cols
  {
    SlotBelow(a, b, rows, cols);
    a * cols + b
  }

  /** `reshape((rows, cols))` of a flat sequence, one row of `cols` entries after another. */
  function Reshape<T>(flat: seq<T>, rows: nat, cols: nat): (g: seq<seq<T>>)
    requires |flat| == rows * cols
    ensures IsGrid(g, rows, cols)
    decreases rows
  {
    if rows == 0 then []
    else
      assert cols <= rows * cols;
      [flat[..cols]] + Reshape(flat[cols..], rows - 1, cols)
  }

  /** Slot (a, b) of the reshaped sequence holds entry `a * cols + b`. */
  lemma {:induction false} ReshapeCell<T>(flat: seq<T>, rows: nat, cols: nat, a: nat, b: nat)
    requires |flat| == rows * cols && a < rows && b < cols
    ensures Reshape(flat, rows, cols)[a][b] == flat[Slot(a, b, rows, cols)]
    decreases rows
  {
    MulStep(rows, cols);
    if a > 0 {
      MulStep(a, cols);
      ReshapeCell(flat[cols..], rows - 1, cols, a - 1, b);
      assert Slot(a - 1, b, rows - 1, cols) + cols == Slot(a, b, rows, cols);
    }
  }

  /** One more row of `cols` entries. */
  lemma MulStep(x: nat, cols: nat)
    requires x > 0
    ensures (x - 1) * cols + cols == x * cols && (x - 1) * cols >= 0
  {
  }

  /** Slot (a, b) of a row-major layout of `cols` columns is entry `a * cols + b`, and back. */
  lemma RowMajor(a: nat, b: nat, cols: nat)
    requires b < cols
    ensures (a * cols + b) / cols == a && (a * cols + b) % cols == b
  {
    var k := a * cols + b;
    var q := k / cols;
    assert cols * q <= k < cols * (q + 1);
    assert cols * a <= k < cols * (a + 1);
    MulLess(cols, q, a + 1);
    MulLess(cols, a, q + 1);
  }

  /** The cells of a grid, row after row: the order in which `np.argmin` reads a 2-D array. */
  function Flatten<T>(g: seq<seq<T>>): seq<T> {
    if |g| == 0 then [] else g[0] + Flatten(g[1..])
  }

  lemma {:induction false} FlattenLength<T>(g: seq<seq<T>>, rows: nat, cols: nat)
    requires IsGrid(g, rows, cols)
    ensures |Flatten(g)| == rows * cols
    decreases rows
  {
    if rows > 0 {
      FlattenLength(g[1..], rows - 1, cols);
    }
  }

  /** Cell (a, b) of a grid is entry `a * cols + b` of its flattening. */
  lemma {:induction false} FlattenCell<T>(g: seq<seq<T>>, rows: nat, cols: nat, a: nat, b: nat)
    requires IsGrid(g, rows, cols) && a < rows && b < cols
    ensures |Flatten(g)| == rows * cols && Flatten(g)[Slot(a, b, rows, cols)] == g[a][b]
    decreases rows
  {
    FlattenLength(g, rows, cols);
    if a > 0 {
      FlattenCell(g[1..], rows - 1, cols, a - 1, b);
      var k := Slot(a - 1, b, rows - 1, cols);
      assert k + cols == Slot(a, b, rows, cols);
      assert Flatten(g) == g[0] + Flatten(g[1..]) && |g[0]| == cols;
      assert Flatten(g)[k + cols] == Flatten(g[1..])[k];
    }
  }

  // Matching.

  /**
   * `np.argmin`: the first index of the least value; `None` (numpy's
   * `ValueError`) for an empty sequence.
   */
  function ArgMin(ds: seq<real>): (r: Option<nat>)
    ensures r.None? <==> |ds| == 0
    ensures r.Some? ==> r.value < |ds| && forall k :: 0 <= k < |ds| ==> ds[r.value] <= ds[k]
    ensures r.Some? ==> forall k :: 0 <= k < r.value ==> ds[k] > ds[r.value]
  {
    if |ds| == 0 then None
    else
      match ArgMin(ds[..|ds| - 1])
      case None => Some(0)
      case Some(i) => if ds[|ds| - 1] < ds[i] then Some(|ds| - 1) else Some(i)
  }

  /**
   * The start of the Python slice `[rng:]` on an axis of length `m`:
   * a negative `rng` counts from the end; both are clamped to [0, m].
   */
  function SliceStart(rng: int, m: nat): (s: nat)
    ensures s <= m
    ensures 0 <= rng <= m ==> s == rng
  {
    if rng >= 0 then (if rng <= m then rng else m)
    else if m + rng >= 0 then m + rng else 0
  }

  /** Sum of squared differences of two vectors (a squared Euclidean norm). */
  function SqDist(u: seq<real>, v: seq<real>): (d: real)
    requires |u| == |v|
    ensures d >= 0.0
    ensures u == v ==> d == 0.0
  {
    if |u| == 0 then 0.0
    else SqDist(u[..|u| - 1], v[..|v| - 1]) + (u[|u| - 1] - v[|v| - 1]) * (u[|u| - 1] - v[|v| - 1])
  }
}
