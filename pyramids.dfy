/**
 * The list-level functions of 3/lib/pyramids.py: the Gaussian pyramid
 * (reduce until a side is at most 3), the Laplacian pyramid (each level
 * minus the expanded next one, cropped to its shape), the collapse that
 * inverts it, Laplacian blending of two images under a mask, and pyramid
 * denoising by thresholding the coarsest levels.
 */
module Pyramids {
  import opened Wrappers
  import opened Images
  import opened PyramidReduce
  import opened PyramidExpand

  /** The number of levels `gaussian_pyramid` produces for an `h` by `w` image. */
  function Levels(h: nat, w: nat): (n: nat)
    requires h >= 4 && w >= 4
    ensures n >= 2
    decreases h
  {
    var h2, w2 := (h + 1) / 2, (w + 1) / 2;
    if h2 <= 3 || w2 <= 3 then 2 else 1 + Levels(h2, w2)
  }

  /**
   * The levels of `gaussian_pyramid(_img, _a)`: the image, then each level
   * the `reduce_` of the one before, stopping after the first level with a
   * side of at most 3.
   */
  function Pyramid(g: Matrix, a: real): (p: seq<Matrix>)
    requires Rect(g) && |g| >= 4 && Width(g) >= 4
    ensures |p| == Levels(|g|, Width(g)) && p[0] == g
    decreases |g|
  {
    var r := Reduced2(g, a);
    assert Rect(r) && |r| == (|g| + 1) / 2 && Width(r) == (Width(g) + 1) / 2;
    if |r| <= 3 || Width(r) <= 3 then [g, r] else [g] + Pyramid(r, a)
  }

  /**
   * A list of levels shaped like a pyramid: rectangular levels of at least
   * 2 by 2, each but the last at least 4 by 4 and followed by a level of
   * half its size, rounded up.
   */
  predicate Shaped(p: seq<Matrix>) {
    (forall k :: 0 <= k < |p| ==> Rect(p[k]) && |p[k]| >= 2 && Width(p[k]) >= 2) &&
    forall k :: 0 <= k < |p| - 1 ==>
      |p[k]| >= 4 && Width(p[k]) >= 4 && |p[k + 1]| == (|p[k]| + 1) / 2 && Width(p[k + 1]) == (Width(p[k]) + 1) / 2
  }

  /** Every level of `l` is rectangular and has the shape of the level of `g` at its index. */
  predicate Like(l: seq<Matrix>, g: seq<Matrix>) {
    |l| == |g| && forall k :: 0 <= k < |g| ==> Rect(l[k]) && |l[k]| == |g[k]| && Width(l[k]) == Width(g[k])
  }

  /** Levels shaped like those of a pyramid are shaped like a pyramid. */
  lemma {:induction false} ShapedLike(g: seq<Matrix>, l: seq<Matrix>)
    requires Shaped(g) && Like(l, g)
    ensures Shaped(l)
  {
  }

  /**
   * Each level after the first is the `reduce_` of the one before, which
   * is at least 4 by 4.
   */
  predicate Reduces(p: seq<Matrix>, a: real) {
    forall k {:trigger p[k + 1]} :: 0 <= k < |p| - 1 ==>
      |p[k]| >= 4 && Width(p[k]) >= 4 && p[k + 1] == Reduced2(p[k], a)
  }

  /** Every level strictly between the first and the last is at least 4 by 4. */
  predicate Inner(p: seq<Matrix>) {
    forall k :: 1 <= k < |p| - 1 ==> |p[k]| >= 4 && Width(p[k]) >= 4
  }

  /** One `reduce_` and the test that stops the loop: the pyramid of a large image is the image followed by the pyramid of its reduction. */
  lemma {:induction false} PyramidStep(g: Matrix, a: real)
    requires Rect(g) && |g| >= 4 && Width(g) >= 4
    ensures Rect(Reduced2(g, a)) && |Reduced2(g, a)| == (|g| + 1) / 2 && Width(Reduced2(g, a)) == (Width(g) + 1) / 2
    ensures |Reduced2(g, a)| <= 3 || Width(Reduced2(g, a)) <= 3 ==> Pyramid(g, a) == [g, Reduced2(g, a)]
    ensures |Reduced2(g, a)| > 3 && Width(Reduced2(g, a)) > 3 ==> Pyramid(g, a) == [g] + Pyramid(Reduced2(g, a), a)
  {
  }

  lemma {:induction false} ShapedCons(g: Matrix, q: seq<Matrix>)
    requires Shaped(q) && |q| >= 1 && Rect(g) && |g| >= 4 && Width(g) >= 4
    requires |q[0]| == (|g| + 1) / 2 && Width(q[0]) == (Width(g) + 1) / 2
    ensures Shaped([g] + q)
  {
    var p := [g] + q;
    assert forall k :: 1 <= k < |p| ==> p[k] == q[k - 1];
  }

  lemma {:induction false} ReducesCons(g: Matrix, q: seq<Matrix>, a: real)
    requires Reduces(q, a) && |q| >= 1 && |g| >= 4 && Width(g) >= 4 && q[0] == Reduced2(g, a)
    ensures Reduces([g] + q, a)
  {
    var p := [g] + q;
    forall k | 0 <= k < |p| - 1
      ensures |p[k]| >= 4 && Width(p[k]) >= 4 && p[k + 1] == Reduced2(p[k], a)
    {
      if k > 0 {
        var j := k - 1;
        assert p[k + 1] == q[j + 1] && p[k] == q[j];
      } else {
        assert p[1] == q[0] && p[0] == g;
      }
    }
  }

  lemma {:induction false} InnerCons(g: Matrix, q: seq<Matrix>)
    requires Inner(q) && |q| >= 1 && |q[0]| >= 4 && Width(q[0]) >= 4
    ensures Inner([g] + q)
  {
    var p := [g] + q;
    assert forall k :: 1 <= k < |p| ==> p[k] == q[k - 1];
  }

  /** The Gaussian pyramid is shaped like a pyramid. */
  lemma {:induction false} PyramidShaped(g: Matrix, a: real)
    requires Rect(g) && |g| >= 4 && Width(g) >= 4
    ensures Shaped(Pyramid(g, a))
    decreases |g|
  {
    PyramidStep(g, a);
    var r := Reduced2(g, a);
    if !(|r| <= 3 || Width(r) <= 3) {
      PyramidShaped(r, a);
      ShapedCons(g, Pyramid(r, a));
    }
  }

  /**
   * Each level of the Gaussian pyramid is the reduction of the one before,
   * every `reduce_` after the first receives at least 4 by 4, and the last
   * level has a side of at most 3.
   */
  lemma {:induction false} PyramidLevels(g: Matrix, a: real)
    requires Rect(g) && |g| >= 4 && Width(g) >= 4
    ensures Reduces(Pyramid(g, a), a) && Inner(Pyramid(g, a))
    ensures var p := Pyramid(g, a); |p[|p| - 1]| <= 3 || Width(p[|p| - 1]) <= 3
    decreases |g|
  {
    PyramidStep(g, a);
    var r := Reduced2(g, a);
    if |r| <= 3 || Width(r) <= 3 {
      var p := [g, r];
      assert p[1] == r;
    } else {
      PyramidLevels(r, a);
      var q := Pyramid(r, a);
      ReducesCons(g, q, a);
      InnerCons(g, q);
      assert ([g] + q)[|q|] == q[|q| - 1];
    }
  }

  /** Two images of one shape have pyramids of one length, level shapes alike. */
  lemma {:induction false} PyramidShapes(g1: Matrix, g2: Matrix, a1: real, a2: real)
    requires Rect(g1) && Rect(g2) && |g1| == |g2| >= 4 && Width(g1) == Width(g2) >= 4
    ensures Like(Pyramid(g2, a2), Pyramid(g1, a1))
  {
    PyramidShaped(g1, a1);
    PyramidShaped(g2, a2);
    var p1, p2 := Pyramid(g1, a1), Pyramid(g2, a2);
    var k := 0;
    while k < |p1| - 1
      invariant 0 <= k < |p1|
      invariant forall i :: 0 <= i <= k ==> |p1[i]| == |p2[i]| && Width(p1[i]) == Width(p2[i])
    {
      assert |p1[k + 1]| == (|p1[k]| + 1) / 2 && Width(p1[k + 1]) == (Width(p1[k]) + 1) / 2;
      assert |p2[k + 1]| == (|p2[k]| + 1) / 2 && Width(p2[k + 1]) == (Width(p2[k]) + 1) / 2;
      k := k + 1;
    }
  }

  /** Shapes alike, level by level, is transitive. */
  lemma {:induction false} LikeTrans(x: seq<Matrix>, y: seq<Matrix>, z: seq<Matrix>)
    requires Like(x, y) && Like(y, z)
    ensures Like(x, z)
  {
  }

  /**
   * The state of the loop of `gaussian_pyramid`: the levels `done` before
   * the last level `cur` are the start of the pyramid of `img`, and the
   * rest of it is the pyramid of `cur`.
   */
  predicate Growing(img: Matrix, a: real, done: seq<Matrix>, cur: Matrix) {
    Rect(img) && Rect(cur) &&
    (done == [] ==> cur == img) &&
    (done != [] ==> |cur| >= 4 && Width(cur) >= 4 && |img| >= 4 && Width(img) >= 4 && Pyramid(img, a) == done + Pyramid(cur, a))
  }

  /** A reduction that leaves both sides above 3 keeps the loop going. */
  lemma {:induction false} GrowingStep(img: Matrix, a: real, done: seq<Matrix>, cur: Matrix)
    requires Growing(img, a, done, cur) && |cur| >= 4 && Width(cur) >= 4
    requires |Reduced2(cur, a)| > 3 && Width(Reduced2(cur, a)) > 3
    ensures Growing(img, a, done + [cur], Reduced2(cur, a))
  {
    PyramidStep(cur, a);
    var next := Reduced2(cur, a);
    if done != [] {
      assert done + ([cur] + Pyramid(next, a)) == (done + [cur]) + Pyramid(next, a);
    }
  }

  /** A reduction with a side of at most 3 is the last level. */
  lemma {:induction false} GrowingEnd(img: Matrix, a: real, done: seq<Matrix>, cur: Matrix)
    requires Growing(img, a, done, cur) && |cur| >= 4 && Width(cur) >= 4
    requires |Reduced2(cur, a)| <= 3 || Width(Reduced2(cur, a)) <= 3
    ensures |img| >= 4 && Width(img) >= 4 && Pyramid(img, a) == done + [cur, Reduced2(cur, a)]
  {
    PyramidStep(cur, a);
  }

  /**
   * `gaussian_pyramid(_img, _a)`: `reduce_` is applied to the last level
   * until the new level has a side of at most 3. Only the first `reduce_`
   * can fail (an image with a side below 4).
   */
  method GaussianPyramid(img: Matrix, a: real) returns (r: Option<seq<Matrix>>)
    requires Rect(img)
    ensures r.None? <==> |img| < 4 || Width(img) < 4
    ensures r.Some? ==> r.value == Pyramid(img, a)
  {
    var gaussian := [img];
    var cur := img;
    ghost var done: seq<Matrix> := [];
    while true
      invariant gaussian == done + [cur] && Growing(img, a, done, cur)
      decreases |cur|
    {
      var nw := Reduce(cur, a);
      if nw.None? {
        return None;
      }
      var next := nw.value;
      gaussian := gaussian + [next];
      if |next| <= 3 || Width(next) <= 3 {
        GrowingEnd(img, a, done, cur);
        return Some(gaussian);
      }
      GrowingStep(img, a, done, cur);
      done := done + [cur];
      cur := next;
    }
  }

  /** `_exp[:-1]` when `odd`: the last row dropped. */
  function CropRows(e: Matrix, odd: bool): (r: Matrix) {
    if odd && |e| > 0 then e[..|e| - 1] else e
  }

  /** `_exp[:, :-1]` when `odd`: the last column dropped. */
  function CropCols(e: Matrix, odd: bool): (r: Matrix)
    ensures |r| == |e|
  {
    seq(|e|, i requires 0 <= i < |e| => if odd && |e[i]| > 0 then e[i][..|e[i]| - 1] else e[i])
  }

  /**
   * The shape agreement the assertion of line 140 checks: `c` is the
   * pyramid level below an `h` by `w` level.
   */
  predicate Halves(c: Matrix, h: nat, w: nat) {
    Rect(c) && |c| == (h + 1) / 2 && Width(c) == (w + 1) / 2 && h >= 3 && w >= 3
  }

  /** Cropping a matrix of twice half the size, rounded up, gives the `h` by `w` shape. */
  lemma {:induction false} CropShape(x: Matrix, h: nat, w: nat)
    requires IsMatrix(x, 2 * ((h + 1) / 2), 2 * ((w + 1) / 2))
    ensures IsMatrix(CropCols(CropRows(x, h % 2 == 1), w % 2 == 1), h, w)
  {
    var y := CropRows(x, h % 2 == 1);
    assert IsMatrix(y, h, 2 * ((w + 1) / 2));
    var z := CropCols(y, w % 2 == 1);
    forall i | 0 <= i < h
      ensures |z[i]| == w
    {
      assert |y[i]| == 2 * ((w + 1) / 2);
    }
  }

  /**
   * A coarse level expanded and cropped to the `h` by `w` level above it,
   * entry by entry: the top-left `h` by `w` block of `expand_(c)`. Its
   * shape is `h` by `w` whatever `c` is, so the assertion of line 140
   * always holds.
   */
  function Up(c: Matrix, h: nat, w: nat, a: real): (e: Matrix)
    ensures IsMatrix(e, h, w)
  {
    seq(h, i => seq(w, j => At(Expanded2(c, a), i, j)))
  }

  /**
   * The crop of lines 138-139 (repeated at 164-165 and 196-197) applied to
   * `expand_(c)` is `Up`: dropping the last row and column when the level
   * above has an odd number of them leaves exactly its shape.
   */
  lemma {:induction false} UpCropped(c: Matrix, h: nat, w: nat, a: real)
    requires Halves(c, h, w)
    ensures CropCols(CropRows(Expanded2(c, a), h % 2 == 1), w % 2 == 1) == Up(c, h, w, a)
  {
    var x := Expanded2(c, a);
    var y := CropRows(x, h % 2 == 1);
    var z := CropCols(y, w % 2 == 1);
    CropShape(x, h, w);
    forall i, j | 0 <= i < h && 0 <= j < w
      ensures z[i][j] == Up(c, h, w, a)[i][j]
    {
      assert |y[i]| == 2 * ((w + 1) / 2);
      assert z[i][j] == y[i][j] == x[i][j];
    }
    MatrixEq(z, Up(c, h, w, a), h, w);
  }

  /**
   * `expand_` of a level followed by the crop of lines 138-139: the last
   * row and column go when the level above has an odd number of them.
   */
  method UpLevel(c: Matrix, h: nat, w: nat, a: real) returns (e: Matrix)
    requires Halves(c, h, w)
    ensures e == Up(c, h, w, a)
  {
    var x := Expand(c, a);
    e := CropCols(CropRows(x, h % 2 == 1), w % 2 == 1);
    UpCropped(c, h, w, a);
  }

  /** `_k + _exp` after the expansion and crop of `mn` to the shape of `k`. */
  method AddUp(k: Matrix, mn: Matrix, a: real) returns (r: Matrix)
    requires Halves(mn, |k|, Width(k))
    ensures r == Add(k, Up(mn, |k|, Width(k), a))
  {
    var exp := UpLevel(mn, |k|, Width(k), a);
    r := Add(k, exp);
  }

  /** In a pyramid-shaped list, each level but the last is halved by the next. */
  lemma {:induction false} ShapedHalves(p: seq<Matrix>, k: nat)
    requires Shaped(p) && k < |p| - 1
    ensures Halves(p[k + 1], |p[k]|, Width(p[k]))
  {
  }

  /** `f - e` entry by entry, over the shape of `f`. */
  function Sub(f: Matrix, e: Matrix): (r: Matrix)
    ensures IsMatrix(r, |f|, Width(f))
    ensures forall i, j {:trigger r[i][j]} :: 0 <= i < |f| && 0 <= j < Width(f) ==> r[i][j] == At(f, i, j) - At(e, i, j)
  {
    seq(|f|, i => seq(Width(f), j => At(f, i, j) - At(e, i, j)))
  }

  /** `f + e` entry by entry, over the shape of `f`. */
  function Add(f: Matrix, e: Matrix): (r: Matrix)
    ensures IsMatrix(r, |f|, Width(f))
    ensures forall i, j {:trigger r[i][j]} :: 0 <= i < |f| && 0 <= j < Width(f) ==> r[i][j] == At(f, i, j) + At(e, i, j)
  {
    seq(|f|, i => seq(Width(f), j => At(f, i, j) + At(e, i, j)))
  }

  /** Adding back what was subtracted gives the matrix back. */
  lemma {:induction false} AddSub(f: Matrix, e: Matrix)
    requires Rect(f)
    ensures Add(Sub(f, e), e) == f
  {
    var d := Sub(f, e);
    if |f| > 0 {
      assert Width(d) == Width(f);
    }
    MatrixEq(Add(d, e), f, |f|, Width(f));
  }

  /**
   * The levels of `laplacian_pyramids` from the Gaussian levels `g`: each
   * level minus the next one expanded and cropped to it, and the last
   * Gaussian level unchanged.
   */
  function Laplacian(g: seq<Matrix>, a: real): (l: seq<Matrix>)
    ensures |l| == |g|
  {
    seq(|g|, k requires 0 <= k < |g| => if k < |g| - 1 then Sub(g[k], Up(g[k + 1], |g[k]|, Width(g[k]), a)) else g[k])
  }

  /**
   * `laplacian_pyramids(_img, _a)`: the Gaussian pyramid, then one
   * difference per level and the coarsest level last.
   */
  method LaplacianPyramids(img: Matrix, a: real) returns (r: Option<seq<Matrix>>)
    requires Rect(img)
    ensures r.None? <==> |img| < 4 || Width(img) < 4
    ensures r.Some? ==> r.value == Laplacian(Pyramid(img, a), a)
  {
    var gp := GaussianPyramid(img, a);
    if gp.None? {
      return None;
    }
    var g := gp.value;
    PyramidShaped(img, a);
    var laplacian := Differences(g, a);
    return Some(laplacian);
  }

  /** The loop of lines 136-143 over the Gaussian levels `g`. */
  method Differences(g: seq<Matrix>, a: real) returns (laplacian: seq<Matrix>)
    requires Shaped(g) && |g| > 0
    ensures laplacian == Laplacian(g, a)
  {
    ghost var spec := Laplacian(g, a);
    laplacian := [];
    for i := 0 to |g| - 1
      invariant |laplacian| == i
      invariant forall k :: 0 <= k < i ==> laplacian[k] == spec[k]
    {
      var d := Difference(g, i, a);
      laplacian := laplacian + [d];
    }
    laplacian := laplacian + [g[|g| - 1]];
    assert laplacian[|g| - 1] == spec[|g| - 1];
  }

  method Difference(g: seq<Matrix>, i: nat, a: real) returns (d: Matrix)
    requires Shaped(g) && i < |g| - 1
    ensures d == Laplacian(g, a)[i]
  {
    ShapedHalves(g, i);
    var exp := UpLevel(g[i + 1], |g[i]|, Width(g[i]), a);
    d := Sub(g[i], exp);
  }

  /** The image `recreate_` builds from levels `j` and up of `l`. */
  function Collapse(l: seq<Matrix>, j: nat, a: real): (r: Matrix)
    requires j < |l|
    ensures Rect(l[j]) ==> IsMatrix(r, |l[j]|, Width(l[j]))
    decreases |l| - j
  {
    if j == |l| - 1 then l[j] else Add(l[j], Up(Collapse(l, j + 1, a), |l[j]|, Width(l[j]), a))
  }

  /** One step of the collapse of a pyramid-shaped list, with the shapes it needs. */
  lemma {:induction false} CollapseStep(l: seq<Matrix>, j: nat, a: real, mn: Matrix, mn2: Matrix)
    requires Shaped(l) && 0 < j < |l| && mn == Collapse(l, j, a)
    ensures Halves(mn, |l[j - 1]|, Width(l[j - 1]))
    ensures mn2 == Add(l[j - 1], Up(mn, |l[j - 1]|, Width(l[j - 1]), a)) ==> mn2 == Collapse(l, j - 1, a)
  {
    ShapedHalves(l, j - 1);
  }

  /**
   * `recreate_(_lap, _a)`: from the last level up, each level plus the
   * expansion of what is built so far, cropped to it. An empty list is
   * Python's `IndexError`.
   */
  method Recreate(lap: seq<Matrix>, a: real) returns (r: Option<Matrix>)
    requires Shaped(lap)
    ensures r.None? <==> |lap| == 0
    ensures r.Some? ==> r.value == Collapse(lap, 0, a)
  {
    if |lap| == 0 {
      return None;
    }
    var mn := lap[|lap| - 1];
    var j := |lap| - 1;
    while j > 0
      invariant 0 <= j < |lap| && mn == Collapse(lap, j, a)
    {
      mn := CollapseLevel(lap, j, mn, a);
      assert mn == Collapse(lap, j - 1, a);
      j := j - 1;
      assert mn == Collapse(lap, j, a);
    }
    return Some(mn);
  }

  /** One pass of the loop of `recreate_`: the level above plus the expansion of what is built so far. */
  method CollapseLevel(lap: seq<Matrix>, j: nat, mn: Matrix, a: real) returns (r: Matrix)
    requires Shaped(lap) && 0 < j < |lap| && mn == Collapse(lap, j, a)
    ensures r == Collapse(lap, j - 1, a)
  {
    CollapseStep(lap, j, a, mn, mn);
    r := AddUp(lap[j - 1], mn, a);
    CollapseStep(lap, j, a, mn, r);
  }

  /** Collapsing the Laplacian levels of `g` from level `j` gives Gaussian level `j`. */
  lemma {:induction false} CollapseLaplacian(g: seq<Matrix>, a: real, j: nat)
    requires j < |g| && forall k :: 0 <= k < |g| ==> Rect(g[k])
    ensures Collapse(Laplacian(g, a), j, a) == g[j]
    decreases |g| - j
  {
    if j < |g| - 1 {
      CollapseLaplacian(g, a, j + 1);
      var l := Laplacian(g, a);
      var e := Up(g[j + 1], |g[j]|, Width(g[j]), a);
      assert |l[j]| == |g[j]| && Width(l[j]) == Width(g[j]);
      AddSub(g[j], e);
    }
  }

  /** `recreate_(laplacian_pyramids(img, a), a) == img`, for every `a`. */
  lemma {:induction false} RecreateInverts(img: Matrix, a: real)
    requires Rect(img) && |img| >= 4 && Width(img) >= 4
    ensures Collapse(Laplacian(Pyramid(img, a), a), 0, a) == img
  {
    PyramidShaped(img, a);
    CollapseLaplacian(Pyramid(img, a), a, 0);
  }

  /** A Laplacian level has the shape of its Gaussian level. */
  lemma {:induction false} LaplacianLevel(g: seq<Matrix>, a: real, k: nat)
    requires Shaped(g) && k < |g|
    ensures var l := Laplacian(g, a); |l[k]| == |g[k]| && Width(l[k]) == Width(g[k]) && Rect(l[k])
  {
  }

  /** The Laplacian levels keep the shapes of the Gaussian levels. */
  lemma {:induction false} LaplacianShaped(g: seq<Matrix>, a: real)
    requires Shaped(g)
    ensures Like(Laplacian(g, a), g) && Shaped(Laplacian(g, a))
  {
    var l := Laplacian(g, a);
    forall k {:trigger l[k]} | 0 <= k < |g|
      ensures Rect(l[k]) && |l[k]| == |g[k]| && Width(l[k]) == Width(g[k])
    {
      LaplacianLevel(g, a, k);
    }
    ShapedLike(g, l);
  }

  /** One blended level: `p*m + q*(1 - m)` entry by entry. */
  function Mix(p: Matrix, q: Matrix, m: Matrix): (r: Matrix)
    ensures IsMatrix(r, |p|, Width(p))
  {
    seq(|p|, i => seq(Width(p), j => At(p, i, j) * At(m, i, j) + At(q, i, j) * (1.0 - At(m, i, j))))
  }

  /** The blended levels of two Laplacian pyramids under a Gaussian pyramid of the mask. */
  function Mixed(l1: seq<Matrix>, l2: seq<Matrix>, g: seq<Matrix>): (l: seq<Matrix>)
    requires |l1| == |l2| == |g|
    ensures |l| == |l1| && forall k :: 0 <= k < |l1| ==> l[k] == Mix(l1[k], l2[k], g[k])
    ensures Like(l, l1)
  {
    seq(|l1|, k requires 0 <= k < |l1| => Mix(l1[k], l2[k], g[k]))
  }

  /** Three matrices of one shape. */
  predicate SameShape(g1: Matrix, g2: Matrix, g3: Matrix) {
    |g1| == |g2| == |g3| && Width(g1) == Width(g2) == Width(g3)
  }

  /**
   * `blend_(_img1, _img2, _blnd, _a)`: the Laplacian pyramids of both
   * images mixed level by level under the Gaussian pyramid of the mask,
   * then collapsed, always expanding with the default 0.4. Different shapes
   * fail the assertion, whose handler reports it and returns None. Too small
   * an image fails inside `reduce_` and reaches the bare handler's `trace()`;
   * None stands for that failure as well.
   */
  method Blend(img1: Matrix, img2: Matrix, blnd: Matrix, a: real) returns (r: Option<Matrix>)
    requires Rect(img1) && Rect(img2) && Rect(blnd)
    ensures r.None? <==> !SameShape(img1, img2, blnd) || |img1| < 4 || Width(img1) < 4
    ensures r.Some? ==> |Pyramid(img1, a)| == |Pyramid(img2, a)| == |Pyramid(blnd, a)|
    ensures r.Some? ==> (r.value ==
      Collapse(Mixed(Laplacian(Pyramid(img1, a), a), Laplacian(Pyramid(img2, a), a), Pyramid(blnd, a)), 0, 0.4))
  {
    if !SameShape(img1, img2, blnd) {
      return None;
    }
    var o1 := LaplacianPyramids(img1, a);
    if o1.None? {
      return None;
    }
    var o2 := LaplacianPyramids(img2, a);
    var og := GaussianPyramid(blnd, a);
    var l1, l2, g := o1.value, o2.value, og.value;
    PyramidShapes(img1, img2, a, a);
    PyramidShapes(img1, blnd, a, a);
    PyramidShaped(img1, a);
    LaplacianShaped(Pyramid(img1, a), a);
    var mn := BlendLevels(l1, l2, g);
    return Some(mn);
  }

  /**
   * The loop of lines 189-199: the coarsest levels mixed, then from the
   * coarse end each mixed level plus the expansion of the blend so far.
   */
  method BlendLevels(l1: seq<Matrix>, l2: seq<Matrix>, g: seq<Matrix>) returns (mn: Matrix)
    requires Shaped(l1) && |l1| > 0 && |l2| == |g| == |l1|
    ensures mn == Collapse(Mixed(l1, l2, g), 0, 0.4)
  {
    var n := |l1|;
    mn := Mix(l1[n - 1], l2[n - 1], g[n - 1]);
    var j := n - 1;
    while j > 0
      invariant 0 <= j < n && mn == Collapse(Mixed(l1, l2, g), j, 0.4)
    {
      mn := BlendLevel(l1, l2, g, j, mn);
      assert mn == Collapse(Mixed(l1, l2, g), j - 1, 0.4);
      j := j - 1;
      assert mn == Collapse(Mixed(l1, l2, g), j, 0.4);
    }
  }

  /** One pass of that loop: `_k` is the mixed level, added to the expanded blend cropped to it. */
  method BlendLevel(l1: seq<Matrix>, l2: seq<Matrix>, g: seq<Matrix>, j: nat, mn: Matrix) returns (r: Matrix)
    requires Shaped(l1) && |l2| == |g| == |l1| && 0 < j < |l1| && mn == Collapse(Mixed(l1, l2, g), j, 0.4)
    ensures r == Collapse(Mixed(l1, l2, g), j - 1, 0.4)
  {
    ghost var mixed := Mixed(l1, l2, g);
    ShapedLike(l1, mixed);
    var k := Mix(l1[j - 1], l2[j - 1], g[j - 1]);
    assert k == mixed[j - 1];
    CollapseStep(mixed, j, 0.4, mn, mn);
    r := AddUp(k, mn, 0.4);
    CollapseStep(mixed, j, 0.4, mn, r);
  }

  /** The Gaussian pyramid of a constant image is constant on every level. */
  lemma {:induction false} PyramidConstant(h: nat, w: nat, v: real, a: real)
    requires h >= 4 && w >= 4
    ensures forall k :: 0 <= k < |Pyramid(Constant(h, w, v), a)| ==>
      var p := Pyramid(Constant(h, w, v), a)[k]; p == Constant(|p|, Width(p), v)
    decreases h
  {
    var g := Constant(h, w, v);
    assert Width(g) == w;
    Reduced2Constant(h, w, v, a);
    var h2, w2 := (h + 1) / 2, (w + 1) / 2;
    var c := Constant(h2, w2, v);
    assert Width(c) == w2;
    var p := Pyramid(g, a);
    if h2 <= 3 || w2 <= 3 {
      assert p == [g, c];
    } else {
      PyramidConstant(h2, w2, v, a);
      assert p == [g] + Pyramid(c, a);
      assert forall k :: 1 <= k < |p| ==> p[k] == Pyramid(c, a)[k - 1];
    }
  }

  /** Mixing under a mask of ones keeps `p`; under a mask of zeros it gives `q`. */
  lemma {:induction false} MixConstant(p: Matrix, q: Matrix, v: real)
    requires Rect(p) && Rect(q) && |q| == |p| && Width(q) == Width(p) && (v == 1.0 || v == 0.0)
    ensures Mix(p, q, Constant(|p|, Width(p), v)) == if v == 1.0 then p else q
  {
    var m := Constant(|p|, Width(p), v);
    var r := Mix(p, q, m);
    forall i, j | 0 <= i < |p| && 0 <= j < Width(p)
      ensures r[i][j] == (if v == 1.0 then p else q)[i][j]
    {
      assert At(m, i, j) == v;
    }
    MatrixEq(r, if v == 1.0 then p else q, |p|, Width(p));
  }

  /** Mixing two lists of levels under constant masks of ones (zeros) keeps the first (second). */
  lemma {:induction false} MixedConstant(l1: seq<Matrix>, l2: seq<Matrix>, gm: seq<Matrix>, v: real)
    requires Like(l1, gm) && Like(l2, gm) && (v == 1.0 || v == 0.0)
    requires forall k :: 0 <= k < |gm| ==> gm[k] == Constant(|gm[k]|, Width(gm[k]), v)
    ensures Mixed(l1, l2, gm) == if v == 1.0 then l1 else l2
  {
    var mixed := Mixed(l1, l2, gm);
    forall k | 0 <= k < |gm|
      ensures mixed[k] == if v == 1.0 then l1[k] else l2[k]
    {
      assert gm[k] == Constant(|l1[k]|, Width(l1[k]), v);
      MixConstant(l1[k], l2[k], v);
    }
  }

  /**
   * With `_a` equal to the default 0.4 that `blend_` expands with, a mask of
   * ones returns the first image and a mask of zeros the second.
   */
  lemma {:induction false} BlendConstantMask(img1: Matrix, img2: Matrix, v: real)
    requires Rect(img1) && Rect(img2) && |img1| == |img2| >= 4 && Width(img1) == Width(img2) >= 4
    requires v == 1.0 || v == 0.0
    ensures var m := Constant(|img1|, Width(img1), v);
      |Pyramid(img1, 0.4)| == |Pyramid(img2, 0.4)| == |Pyramid(m, 0.4)| &&
      Collapse(Mixed(Laplacian(Pyramid(img1, 0.4), 0.4), Laplacian(Pyramid(img2, 0.4), 0.4), Pyramid(m, 0.4)), 0, 0.4) ==
        if v == 1.0 then img1 else img2
  {
    var m := Constant(|img1|, Width(img1), v);
    assert Rect(m) && Width(m) == Width(img1);
    var g1, g2, gm := Pyramid(img1, 0.4), Pyramid(img2, 0.4), Pyramid(m, 0.4);
    PyramidShapes(img1, img2, 0.4, 0.4);
    PyramidShapes(img1, m, 0.4, 0.4);
    PyramidShapes(m, img1, 0.4, 0.4);
    PyramidShaped(img1, 0.4);
    PyramidShaped(img2, 0.4);
    PyramidConstant(|img1|, Width(img1), v, 0.4);
    var l1, l2 := Laplacian(g1, 0.4), Laplacian(g2, 0.4);
    LaplacianShaped(g1, 0.4);
    LaplacianShaped(g2, 0.4);
    LikeTrans(l1, g1, gm);
    LikeTrans(l2, g2, g1);
    LikeTrans(l2, g1, gm);
    MixedConstant(l1, l2, gm, v);
    if v == 1.0 {
      RecreateInverts(img1, 0.4);
    } else {
      RecreateInverts(img2, 0.4);
    }
  }

  /** `np.where(abs(l) < _ctof, 0, l)`. */
  function Thresholded(g: Matrix, ctof: real): (r: Matrix)
    ensures IsMatrix(r, |g|, Width(g))
  {
    seq(|g|, i => seq(Width(g), j => if Abs(At(g, i, j)) < ctof then 0.0 else At(g, i, j)))
  }

  /** The levels after thresholding the `n` coarsest ones. */
  function Denoised(l: seq<Matrix>, ctof: real, n: int): (d: seq<Matrix>)
    ensures |d| == |l|
  {
    seq(|l|, k requires 0 <= k < |l| => if |l| - n <= k then Thresholded(l[k], ctof) else l[k])
  }

  /** Thresholding keeps the shape of every level. */
  lemma {:induction false} DenoisedLike(l: seq<Matrix>, ctof: real, n: int)
    requires Like(l, l)
    ensures Like(Denoised(l, ctof, n), l)
  {
    var d := Denoised(l, ctof, n);
    forall k | 0 <= k < |l|
      ensures Rect(d[k]) && |d[k]| == |l[k]| && Width(d[k]) == Width(l[k])
    {
      if |l| - n <= k {
        assert d[k] == Thresholded(l[k], ctof);
      }
    }
  }

  /** Thresholding one more level, from the coarse end. */
  lemma {:induction false} DenoisedStep(l: seq<Matrix>, ctof: real, i: nat)
    requires i < |l|
    ensures Denoised(l, ctof, i + 1) == Denoised(l, ctof, i)[|l| - 1 - i := Thresholded(l[|l| - 1 - i], ctof)]
  {
  }

  /** No level is thresholded for a count of zero or less. */
  lemma {:induction false} DenoisedNone(l: seq<Matrix>, ctof: real, n: int)
    requires n <= 0
    ensures Denoised(l, ctof, n) == l
  {
  }

  /**
   * `pyramid_denoise(_img, _ctof, _rng)`: with the default `_a`, the
   * `_rng` coarsest Laplacian levels (all of them for -1) have every entry
   * below `_ctof` in magnitude set to zero, then the pyramid is recreated.
   * Asking for more levels than there are is Python's `IndexError`.
   */
  method PyramidDenoise(img: Matrix, ctof: real, rng: int) returns (r: Option<Matrix>)
    requires Rect(img)
    ensures r.None? <==> |img| < 4 || Width(img) < 4 || rng > Levels(|img|, Width(img))
    ensures r.Some? ==> (r.value ==
      Collapse(Denoised(Laplacian(Pyramid(img, 0.4), 0.4), ctof, if rng == -1 then Levels(|img|, Width(img)) else rng), 0, 0.4))
  {
    var ol := LaplacianPyramids(img, 0.4);
    if ol.None? {
      return None;
    }
    var l := ol.value;
    var n := if rng == -1 then |l| else rng;
    var od := Threshold(l, ctof, n);
    if od.None? {
      return None;
    }
    PyramidShaped(img, 0.4);
    LaplacianShaped(Pyramid(img, 0.4), 0.4);
    DenoisedShaped(l, ctof, n);
    var rec := Recreate(od.value, 0.4);
    return rec;
  }

  /**
   * The loop of lines 214-215: level `-i-1` thresholded for `i` from 0 to
   * `n - 1`. Running past the first level is Python's `IndexError`.
   */
  method Threshold(l: seq<Matrix>, ctof: real, n: int) returns (r: Option<seq<Matrix>>)
    ensures r.None? <==> n > |l|
    ensures r.Some? ==> r.value == Denoised(l, ctof, n)
  {
    var d := l;
    var i := 0;
    while i < n
      invariant 0 <= i <= |l| && (i == 0 || i <= n) && d == Denoised(l, ctof, i)
    {
      if i >= |d| {
        return None;
      }
      DenoisedStep(l, ctof, i);
      d := d[|d| - 1 - i := Thresholded(d[|d| - 1 - i], ctof)];
      i := i + 1;
    }
    if n <= 0 {
      DenoisedNone(l, ctof, n);
      DenoisedNone(l, ctof, 0);
    }
    return Some(d);
  }

  /** Thresholding keeps a pyramid-shaped list pyramid-shaped. */
  lemma {:induction false} DenoisedShaped(l: seq<Matrix>, ctof: real, n: int)
    requires Shaped(l)
    ensures Shaped(Denoised(l, ctof, n))
  {
    assert Like(l, l);
    DenoisedLike(l, ctof, n);
    ShapedLike(l, Denoised(l, ctof, n));
  }

  /** A cutoff of zero or less thresholds nothing, so the image comes back. */
  lemma {:induction false} DenoiseNonPositive(img: Matrix, ctof: real, n: int)
    requires Rect(img) && |img| >= 4 && Width(img) >= 4 && ctof <= 0.0
    ensures Collapse(Denoised(Laplacian(Pyramid(img, 0.4), 0.4), ctof, n), 0, 0.4) == img
  {
    PyramidShaped(img, 0.4);
    var g := Pyramid(img, 0.4);
    var l := Laplacian(g, 0.4);
    LaplacianShaped(g, 0.4);
    DenoisedIdentity(l, ctof, n);
    RecreateInverts(img, 0.4);
  }

  /** Thresholding at a cutoff of zero or less changes no level. */
  lemma {:induction false} DenoisedIdentity(l: seq<Matrix>, ctof: real, n: int)
    requires Shaped(l) && ctof <= 0.0
    ensures Denoised(l, ctof, n) == l
  {
    forall k | 0 <= k < |l|
      ensures Thresholded(l[k], ctof) == l[k]
    {
      MatrixEq(Thresholded(l[k], ctof), l[k], |l[k]|, Width(l[k]));
    }
    assert forall k :: 0 <= k < |l| ==> Denoised(l, ctof, n)[k] == l[k];
  }
}
