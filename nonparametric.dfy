/**
 * Non-parametric texture synthesis on grey images (5/lib/non_parametric.py):
 * every pixel of a template gets its causal neighbourhood, and a new
 * neighbourhood is matched against them by Euclidean distance.
 */
module NonParametric {
  import opened Wrappers
  import opened Windows

  /** A grey image or neighbourhood: rows of real intensities. */
  type Grey = seq<seq<real>>

  /**
   * Every point `create_nb` visits fits an `h` by `w` template exactly
   * when the template is at least as tall as it is wide (one row less
   * without `tp`), so that `k // h` stays inside the rows.
   */
  lemma TallFits(h: nat, w: nat, tp: bool)
    requires h > 0 && w > 0
    ensures PointsFit(h, w, h, tp) <==> if tp then w <= h else w <= h + 1
  {
    var q := (h * w - 1) / h;
    assert h * (w - 1) <= h * w - 1 < h * w;
    MulLess(h, q, w);
    DivAtLeast(h * (w - 1), h * w - 1, h, w - 1);
  }

  /** `x >= d * q` makes `x / d >= q`. */
  lemma DivAtLeast(p: nat, x: nat, d: nat, q: nat)
    requires d > 0 && p == d * q && p <= x
    ensures x / d >= q
  {
    var r := x / d;
    assert d * r <= x < d * (r + 1);
    MulLess(d, q, r + 1);
  }

  /**
   * `create_nb(_template, (m, n), _tp)` on an `h` by `w` template: an `h`
   * by `w` grid whose slot (a, b) holds what the loop appended for pixel
   * a * w + b, which is the neighbourhood of the point
   * (`(a * w + b) // h`, b) (`Windows.NbAtSlot`). That row is a only on a
   * square template (`CreateNbSquare`, `CreateNbMisplaces`). A template
   * wider than it is tall sends the loop past the last row, where the
   * slices of `nb` come out of the wrong shape (`TallFits`).
   */
  method CreateNb(t: Grey, h: nat, w: nat, m: nat, n: nat, tp: bool) returns (g: seq<seq<Grey>>)
    requires IsGrid(t, h, w) && PointsFit(h, w, h, tp)
    ensures IsGrid(g, h, w)
    ensures forall a, b :: 0 <= a < h && 0 <= b < w ==> g[a][b] == NbAt(0.0, m, n, Slot(a, b, h, w), h, t, h, w, tp)
  {
    var nbs := Collect(0.0, t, h, w, m, n, tp, h);
    g := Reshape(nbs, h, w);
    forall a, b | 0 <= a < h && 0 <= b < w
      ensures g[a][b] == NbAt(0.0, m, n, Slot(a, b, h, w), h, t, h, w, tp)
    {
      ReshapeCell(nbs, h, w, a, b);
    }
  }

  /** On a square template, slot (a, b) of `create_nb` is the neighbourhood of pixel (a, b). */
  lemma CreateNbSquare(t: Grey, h: nat, w: nat, m: nat, n: nat, tp: bool, a: nat, b: nat)
    requires IsGrid(t, h, w) && h == w && a < h && b < w
    ensures PointsFit(h, w, h, tp)
    ensures NbAt(0.0, m, n, Slot(a, b, h, w), h, t, h, w, tp) == Nb(0.0, m, n, a, b, t, h, w, tp)
  {
    TallFits(h, w, tp);
    NbAtSlot(0.0, m, n, a, b, h, t, h, w, tp);
  }

  /**
   * On a 3 by 2 template with 1 by 1 windows, slot (1, 0) gets the window
   * of pixel (0, 0) (2 // 3 is 0), which is all zero, instead of the
   * window of pixel (1, 0), which holds the template's first pixel.
   */
  lemma CreateNbMisplaces()
    ensures PointsFit(3, 2, 3, false)
    ensures NbAt(0.0, 1, 1, Slot(1, 0, 3, 2), 3, [[1.0, 2.0], [3.0, 4.0], [5.0, 6.0]], 3, 2, false) == [[0.0]]
    ensures Nb(0.0, 1, 1, 0, 0, [[1.0, 2.0], [3.0, 4.0], [5.0, 6.0]], 3, 2, false) == [[0.0]]
    ensures Nb(0.0, 1, 1, 1, 0, [[1.0, 2.0], [3.0, 4.0], [5.0, 6.0]], 3, 2, false) == [[1.0]]
  {
    var t := [[1.0, 2.0], [3.0, 4.0], [5.0, 6.0]];
    var z := Nb(0.0, 1, 1, 0, 0, t, 3, 2, false);
    assert z[0] == [0.0];
    var o := Nb(0.0, 1, 1, 1, 0, t, 3, 2, false);
    assert o[0] == [1.0];
  }

  // Matching.

  /** Two `m` by `n` neighbourhoods. */
  predicate SameShape(p: Grey, q: Grey) {
    |p| == |q| && forall r :: 0 <= r < |p| ==> |p[r]| == |q[r]|
  }

  /**
   * The squared Euclidean distance of two neighbourhoods over their rows
   * from `s` on: the square of the nested `np.linalg.norm` of
   * `match_nb_linear` (row norms, then the norm of the rows `[s:]`).
   */
  function Dist(p: Grey, q: Grey, s: nat): (d: real)
    requires SameShape(p, q) && s <= |p|
    ensures d >= 0.0
    ensures p == q ==> d == 0.0
    decreases |p| - s
  {
    if s == |p| then 0.0 else SqDist(p[s], q[s]) + Dist(p, q, s + 1)
  }

  /** The distances of `match_nb_linear`: one per template neighbourhood. */
  function Distances(nb: Grey, nbs: seq<Grey>, s: nat): (ds: seq<real>)
    requires forall k :: 0 <= k < |nbs| ==> SameShape(nbs[k], nb)
    requires s <= |nb|
    ensures |ds| == |nbs| && forall k :: 0 <= k < |nbs| ==> ds[k] == Dist(nbs[k], nb, s)
  {
    seq(|nbs|, k requires 0 <= k < |nbs| => Dist(nbs[k], nb, s))
  }

  /**
   * `match_nb_linear(_nb, _template_nbs, _rng)`: the index of the first
   * template neighbourhood nearest to `nb`, rows before `_rng` ignored
   * (Python's `[_rng:]`, so a negative `_rng` counts from the end). The
   * norm's square root is left out: it keeps the order, so the argmin is
   * the same. An empty list of neighbourhoods is numpy's `ValueError`.
   */
  function MatchNbLinear(nb: Grey, nbs: seq<Grey>, rng: int): (r: Option<nat>)
    requires forall k :: 0 <= k < |nbs| ==> SameShape(nbs[k], nb)
    ensures r.None? <==> |nbs| == 0
    ensures r.Some? ==> r.value < |nbs| && forall k :: 0 <= k < |nbs| ==>
      Dist(nbs[r.value], nb, SliceStart(rng, |nb|)) <= Dist(nbs[k], nb, SliceStart(rng, |nb|))
    ensures r.Some? ==> forall k :: 0 <= k < r.value ==>
      Dist(nbs[k], nb, SliceStart(rng, |nb|)) > Dist(nbs[r.value], nb, SliceStart(rng, |nb|))
  {
    ArgMin(Distances(nb, nbs, SliceStart(rng, |nb|)))
  }

  /**
   * When the template holds `nb` itself, the match is at distance zero:
   * as near as that copy.
   */
  lemma MatchNbLinearExact(nb: Grey, nbs: seq<Grey>, rng: int, k: nat)
    requires forall j :: 0 <= j < |nbs| ==> SameShape(nbs[j], nb)
    requires k < |nbs| && nbs[k] == nb
    ensures MatchNbLinear(nb, nbs, rng).Some?
    ensures Dist(nbs[MatchNbLinear(nb, nbs, rng).value], nb, SliceStart(rng, |nb|)) == 0.0
  {
  }

  /** `nbs` is an `rows` by `cols` grid of neighbourhoods shaped like `nb`. */
  predicate NbGrid(nb: Grey, nbs: seq<seq<Grey>>, rows: nat, cols: nat) {
    IsGrid(nbs, rows, cols) && forall a, b :: 0 <= a < rows && 0 <= b < cols ==> SameShape(nbs[a][b], nb)
  }

  /** The distance of `nb` to every neighbourhood of the grid (`_match` of `match_nb`). */
  function DistanceGrid(nb: Grey, nbs: seq<seq<Grey>>, rows: nat, cols: nat): (g: seq<seq<real>>)
    requires NbGrid(nb, nbs, rows, cols)
    ensures IsGrid(g, rows, cols)
    ensures forall a, b :: 0 <= a < rows && 0 <= b < cols ==> g[a][b] == Dist(nbs[a][b], nb, 0)
  {
    seq(rows, a requires 0 <= a < rows => seq(cols, b requires 0 <= b < cols => Dist(nbs[a][b], nb, 0)))
  }

  /**
   * `match_nb(_nb, _template_nbs)` as written: the flat index i of the
   * nearest neighbourhood in a `rows` by `cols` grid, returned as
   * (`i // rows`, `i % cols`). The column is always in range; the pair is
   * the nearest slot when the grid is square (`MatchNbSquare`), but
   * otherwise it can name a slot elsewhere, or a row that does not exist
   * (`MatchNbOutOfRange`). An empty grid is numpy's `ValueError`.
   */
  function MatchNb(nb: Grey, nbs: seq<seq<Grey>>, rows: nat, cols: nat): (r: Option<(int, int)>)
    requires NbGrid(nb, nbs, rows, cols)
    ensures r.None? <==> rows * cols == 0
    ensures r.Some? ==> 0 <= r.value.0 && 0 <= r.value.1 < cols
  {
    match FlatArgMin(DistanceGrid(nb, nbs, rows, cols), rows, cols)
    case None => None
    case Some(i) =>
      QuotientRemainder(i, rows, cols);
      Some((i / rows, i % cols))
  }

  /** `i // rows` is not negative and `i % cols` is a column. */
  lemma QuotientRemainder(i: nat, rows: nat, cols: nat)
    requires rows > 0 && cols > 0
    ensures 0 <= i / rows && 0 <= i % cols < cols
  {
  }

  /**
   * The intended `match_nb`: the same flat index read back row-major, as
   * (`i // cols`, `i % cols`). It names a slot of the grid nearest to `nb`.
   */
  function MatchSlot(nb: Grey, nbs: seq<seq<Grey>>, rows: nat, cols: nat): (r: Option<(int, int)>)
    requires NbGrid(nb, nbs, rows, cols)
    ensures r.None? <==> rows * cols == 0
    ensures r.Some? ==> 0 <= r.value.0 < rows && 0 <= r.value.1 < cols
    ensures r.Some? ==> forall a, b :: 0 <= a < rows && 0 <= b < cols ==>
      Dist(nbs[r.value.0][r.value.1], nb, 0) <= Dist(nbs[a][b], nb, 0)
  {
    match FlatArgMin(DistanceGrid(nb, nbs, rows, cols), rows, cols)
    case None => None
    case Some(i) => Some((i / cols, i % cols))
  }

  /**
   * `np.argmin` of an `rows` by `cols` grid: the flat index i of a least
   * cell, which is cell (`i // cols`, `i % cols`); `None` for an empty grid.
   */
  function FlatArgMin(g: seq<seq<real>>, rows: nat, cols: nat): (r: Option<nat>)
    requires IsGrid(g, rows, cols)
    ensures r.None? <==> rows * cols == 0
    ensures r.Some? ==> rows > 0 && cols > 0 && r.value / cols < rows
    ensures r.Some? ==> forall a, b :: 0 <= a < rows && 0 <= b < cols ==> g[r.value / cols][r.value % cols] <= g[a][b]
  {
    FlattenLength(g, rows, cols);
    var r := ArgMin(Flatten(g));
    if r.Some? then
      LeastCell(g, rows, cols, r.value);
      r
    else
      r
  }

  /** A least entry of the flattened grid is a least cell of the grid. */
  lemma LeastCell(g: seq<seq<real>>, rows: nat, cols: nat, i: nat)
    requires IsGrid(g, rows, cols) && i < |Flatten(g)|
    requires forall k :: 0 <= k < |Flatten(g)| ==> Flatten(g)[i] <= Flatten(g)[k]
    ensures rows > 0 && cols > 0 && i / cols < rows
    ensures forall a, b :: 0 <= a < rows && 0 <= b < cols ==> g[i / cols][i % cols] <= g[a][b]
  {
    FlattenLength(g, rows, cols);
    SlotOf(i, rows, cols);
    var a0, b0 := i / cols, i % cols;
    FlattenCell(g, rows, cols, a0, b0);
    assert Slot(a0, b0, rows, cols) == i;
    forall a, b | 0 <= a < rows && 0 <= b < cols
      ensures g[a0][b0] <= g[a][b]
    {
      FlattenCell(g, rows, cols, a, b);
    }
  }

  /** A flat index below `rows * cols` is slot (`i / cols`, `i % cols`) of the grid. */
  lemma SlotOf(i: nat, rows: nat, cols: nat)
    requires i < rows * cols
    ensures rows > 0 && cols > 0 && 0 <= i / cols < rows && 0 <= i % cols < cols && (i / cols) * cols + i % cols == i
  {
    assert cols > 0;
    var q := i / cols;
    assert cols * q <= i < cols * rows;
    MulLess(cols, q, rows);
  }

  /** On a square grid `match_nb` names the nearest slot. */
  lemma MatchNbSquare(nb: Grey, nbs: seq<seq<Grey>>, rows: nat, cols: nat)
    requires NbGrid(nb, nbs, rows, cols) && rows == cols
    ensures MatchNb(nb, nbs, rows, cols) == MatchSlot(nb, nbs, rows, cols)
  {
  }

  /**
   * On a 1 by 2 grid whose second neighbourhood is the nearest, `match_nb`
   * answers (1, 1): row 1 of a grid of one row.
   */
  lemma MatchNbOutOfRange()
    ensures MatchNb([[0.0]], [[[[5.0]], [[0.0]]]], 1, 2) == Some((1, 1))
    ensures MatchSlot([[0.0]], [[[[5.0]], [[0.0]]]], 1, 2) == Some((0, 1))
  {
    var nb, nbs := [[0.0]], [[[[5.0]], [[0.0]]]];
    var g := DistanceGrid(nb, nbs, 1, 2);
    assert Dist(nbs[0][0], nb, 0) == 25.0 by {
      assert SqDist([5.0], [0.0]) == 25.0 by {
        assert [5.0][..0] == [];
      }
    }
    assert Dist(nbs[0][1], nb, 0) == 0.0;
    assert Flatten(g) == [25.0, 0.0];
    assert ArgMin([25.0, 0.0]) == Some(1);
  }
}
