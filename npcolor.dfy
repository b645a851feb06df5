/**
 * Non-parametric texture synthesis on colour images (5/lib/npcolor.py):
 * the grey-image version with a channel axis on every pixel. Its
 * `create_nb` visits the template row-major, so every slot holds the
 * neighbourhood of its own pixel.
 */
module NpColor {
  import opened Wrappers
  import opened Windows

  /** A pixel: one real per channel. */
  type Pixel = seq<real>

  /** A colour image or neighbourhood: rows of pixels. */
  type Colour = seq<seq<Pixel>>

  /** The zero pixel of `c` channels that `np.zeros` fills in. */
  function Black(c: nat): (p: Pixel)
    ensures |p| == c && forall i :: 0 <= i < c ==> p[i] == 0.0
  {
    seq(c, _ => 0.0)
  }

  /** Every pixel of `g` has `c` channels. */
  predicate HasChannels(g: Colour, c: nat) {
    forall i, j :: 0 <= i < |g| && 0 <= j < |g[i]| ==> |g[i][j]| == c
  }

  /**
   * `nb((m, n, c), _pt, _arr, _tp)`: the window of `Windows.Nb` with zero
   * pixels of `c` channels; on a `c`-channel image it has shape (m, n, c).
   */
  function Nb(m: nat, n: nat, c: nat, x: int, y: int, a: Colour, h: nat, w: nat, tp: bool): (r: Colour)
    requires IsGrid(a, h, w) && Fits(h, w, x, y, tp)
    ensures IsGrid(r, m, n)
    ensures HasChannels(a, c) ==> HasChannels(r, c)
  {
    var r := Windows.Nb(Black(c), m, n, x, y, a, h, w, tp);
    forall i, j | 0 <= i < m && 0 <= j < n
      ensures HasChannels(a, c) ==> |r[i][j]| == c
    {
      NbCells(Black(c), m, n, x, y, a, h, w, tp, i, j);
    }
    r
  }

  /**
   * The branches of `nb` that return the slice of `_arr` itself instead of
   * writing it into the zero neighbourhood.
   */
  predicate WholeSlice(m: nat, n: nat, x: int, y: int, w: nat, tp: bool) {
    if tp then x + 1 >= m && y >= n else x >= m && y + n <= w
  }

  /** A one-channel pixel broadcast to `c` channels. */
  function Widen(p: Pixel, c: nat): (q: Pixel)
    requires |p| == 1
    ensures |q| == c && forall i :: 0 <= i < c ==> q[i] == p[0]
  {
    seq(c, _ => p[0])
  }

  /** Every pixel of a one-channel image broadcast to `c` channels. */
  function WidenAll(a: Colour, h: nat, w: nat, c: nat): (b: Colour)
    requires IsGrid(a, h, w) && HasChannels(a, 1)
    ensures IsGrid(b, h, w) && HasChannels(b, c)
    ensures forall i, j :: 0 <= i < h && 0 <= j < w ==> b[i][j] == Widen(a[i][j], c)
  {
    seq(h, i requires 0 <= i < h => seq(w, j requires 0 <= j < w => Widen(a[i][j], c)))
  }

  /**
   * `nb((m, n, c), _pt, _arr, _tp)` on an image whose pixels have `k`
   * channels. A whole-slice branch returns the `k`-channel slice; the
   * other branches write into the (m, n, c) zeros, which numpy accepts
   * when `k` is `c` or 1 (the pixel is broadcast) and refuses with a
   * `ValueError` otherwise.
   */
  function NbChecked(m: nat, n: nat, c: nat, x: int, y: int, a: Colour, h: nat, w: nat, k: nat, tp: bool): (r: Option<Colour>)
    requires IsGrid(a, h, w) && Fits(h, w, x, y, tp) && HasChannels(a, k)
    ensures r.None? <==> !WholeSlice(m, n, x, y, w, tp) && k != c && k != 1
    ensures r.Some? ==> IsGrid(r.value, m, n)
    ensures r.Some? ==> HasChannels(r.value, if WholeSlice(m, n, x, y, w, tp) then k else c)
    ensures k == c ==> r == Some(Nb(m, n, c, x, y, a, h, w, tp))
  {
    if WholeSlice(m, n, x, y, w, tp) then
      var v := Nb(m, n, c, x, y, a, h, w, tp);
      forall i, j | 0 <= i < m && 0 <= j < n
        ensures |v[i][j]| == k
      {
        NbCells(Black(c), m, n, x, y, a, h, w, tp, i, j);
      }
      Some(v)
    else if k == c then Some(Nb(m, n, c, x, y, a, h, w, tp))
    else if k == 1 then Some(Nb(m, n, c, x, y, WidenAll(a, h, w, c), h, w, tp))
    else None
  }

  /** Read row-major, the `h * w` points of the loop all lie on the template. */
  lemma RowMajorFits(h: nat, w: nat, tp: bool)
    ensures PointsFit(h, w, w, tp)
  {
    if h * w > 0 {
      var q := (h * w - 1) / w;
      assert w * q <= h * w - 1 < w * h;
      MulLess(w, q, h);
    }
  }

  /**
   * `create_nb(_template, (m, n, c), _tp)` on an `h` by `w` template, which
   * takes pixel k at (`k // w`, `k % w`): slot (a, b) holds the
   * neighbourhood of pixel (a, b), whatever the template's shape.
   */
  method CreateNb(t: Colour, h: nat, w: nat, c: nat, m: nat, n: nat, tp: bool) returns (g: seq<seq<Colour>>)
    requires IsGrid(t, h, w)
    ensures IsGrid(g, h, w)
    ensures forall a, b :: 0 <= a < h && 0 <= b < w ==> g[a][b] == Nb(m, n, c, a, b, t, h, w, tp)
  {
    RowMajorFits(h, w, tp);
    var nbs := Collect(Black(c), t, h, w, m, n, tp, w);
    g := Reshape(nbs, h, w);
    forall a, b | 0 <= a < h && 0 <= b < w
      ensures g[a][b] == Nb(m, n, c, a, b, t, h, w, tp)
    {
      ReshapeCell(nbs, h, w, a, b);
      NbAtSlot(Black(c), m, n, a, b, w, t, h, w, tp);
    }
  }

  // Matching.

  /** Two neighbourhoods of the same shape, down to the channels. */
  predicate SameShape(p: Colour, q: Colour) {
    |p| == |q| && forall r :: 0 <= r < |p| ==> SameRow(p[r], q[r])
  }

  predicate SameRow(u: seq<Pixel>, v: seq<Pixel>) {
    |u| == |v| && forall j :: 0 <= j < |u| ==> |u[j]| == |v[j]|
  }

  /** Squared distance of two rows of pixels, over every channel. */
  function RowDist(u: seq<Pixel>, v: seq<Pixel>): (d: real)
    requires SameRow(u, v)
    ensures d >= 0.0
    ensures u == v ==> d == 0.0
  {
    if |u| == 0 then 0.0 else RowDist(u[..|u| - 1], v[..|v| - 1]) + SqDist(u[|u| - 1], v[|v| - 1])
  }

  /**
   * The squared Euclidean distance of two neighbourhoods over their rows
   * from `s` on: the square of the three nested `np.linalg.norm`s of
   * `match_nb_linear` (channels, columns, then the rows `[s:]`).
   */
  function Dist(p: Colour, q: Colour, s: nat): (d: real)
    requires SameShape(p, q) && s <= |p|
    ensures d >= 0.0
    ensures p == q ==> d == 0.0
    decreases |p| - s
  {
    if s == |p| then 0.0 else RowDist(p[s], q[s]) + Dist(p, q, s + 1)
  }

  /** The distances of `match_nb_linear`: one per template neighbourhood. */
  function Distances(nb: Colour, nbs: seq<Colour>, s: nat): (ds: seq<real>)
    requires forall k :: 0 <= k < |nbs| ==> SameShape(nbs[k], nb)
    requires s <= |nb|
    ensures |ds| == |nbs| && forall k :: 0 <= k < |nbs| ==> ds[k] == Dist(nbs[k], nb, s)
  {
    seq(|nbs|, k requires 0 <= k < |nbs| => Dist(nbs[k], nb, s))
  }

  /**
   * `match_nb_linear(_nb, _template_nbs, _rng)`: the index of the first
   * template neighbourhood nearest to `nb` over the rows from `_rng` on
   * (Python's `[_rng:]`). The square root of the norm is left out: it
   * keeps the order. An empty list is numpy's `ValueError`.
   */
  function MatchNbLinear(nb: Colour, nbs: seq<Colour>, rng: int): (r: Option<nat>)
    requires forall k :: 0 <= k < |nbs| ==> SameShape(nbs[k], nb)
    ensures r.None? <==> |nbs| == 0
    ensures r.Some? ==> r.value < |nbs| && forall k :: 0 <= k < |nbs| ==>
      Dist(nbs[r.value], nb, SliceStart(rng, |nb|)) <= Dist(nbs[k], nb, SliceStart(rng, |nb|))
    ensures r.Some? ==> forall k :: 0 <= k < r.value ==>
      Dist(nbs[k], nb, SliceStart(rng, |nb|)) > Dist(nbs[r.value], nb, SliceStart(rng, |nb|))
  {
    ArgMin(Distances(nb, nbs, SliceStart(rng, |nb|)))
  }

  /** When the template holds `nb` itself, the match is at distance zero. */
  lemma MatchNbLinearExact(nb: Colour, nbs: seq<Colour>, rng: int, k: nat)
    requires forall j :: 0 <= j < |nbs| ==> SameShape(nbs[j], nb)
    requires k < |nbs| && nbs[k] == nb
    ensures MatchNbLinear(nb, nbs, rng).Some?
    ensures Dist(nbs[MatchNbLinear(nb, nbs, rng).value], nb, SliceStart(rng, |nb|)) == 0.0
  {
  }

  /**
   * Windows cut from a `c`-channel image have the shape `match_nb_linear`
   * compares: any two of the same (m, n) can be measured against each other.
   */
  lemma NbsComparable(m: nat, n: nat, c: nat, x1: int, y1: int, x2: int, y2: int, a: Colour, h: nat, w: nat, tp: bool)
    requires IsGrid(a, h, w) && HasChannels(a, c) && Fits(h, w, x1, y1, tp) && Fits(h, w, x2, y2, tp)
    ensures SameShape(Nb(m, n, c, x1, y1, a, h, w, tp), Nb(m, n, c, x2, y2, a, h, w, tp))
  {
    var p, q := Nb(m, n, c, x1, y1, a, h, w, tp), Nb(m, n, c, x2, y2, a, h, w, tp);
    forall r | 0 <= r < m
      ensures SameRow(p[r], q[r])
    {
      assert forall j :: 0 <= j < n ==> |p[r][j]| == c == |q[r][j]|;
    }
  }
}
