/**
 * The 2D lifting transform shared by both sources: one level on the leading
 * `l1` rows (each of `l2` active slots) and the leading `l2` columns (each of
 * `l1` active slots), a quadrant reorganisation of the `l1` by `l2` block, and
 * recursion on the top-left quadrant. The inverse undoes the levels from the
 * coarsest one outwards.
 *
 * The two sources differ in the wrap slot of each level (`wrap`), the band
 * layout (`layout`) and the scale of the coarse band (`c`).
 */
module Lifting2D {
  import opened Images
  import opened LiftingSteps
  import opened LiftingPasses
  import opened Quadrants

  /** A boundary shape, or two powers of two that fit an `h` by `w` image. */
  predicate Shape2DOk(l1: int, l2: int, h: int, w: int) {
    l1 <= 2 || l2 <= 2 || (IsPow2(l1) && IsPow2(l2) && l1 <= h && l2 <= w)
  }

  /** The next level's shape is accepted too. */
  lemma HalfShape(l1: int, l2: int, h: int, w: int)
    requires Shape2DOk(l1, l2, h, w) && l1 > 2 && l2 > 2
    ensures Fits(w, l2) && Fits(h, l1) && Shape2DOk(l1 / 2, l2 / 2, h, w)
  {
    Pow2Half(l1);
    Pow2Half(l2);
  }

  /** The forward transform of the leading `l1` by `l2` block. */
  function Lift2D(g: Matrix, l1: int, l2: int, wrap: Wrap, layout: Layout, c: real): (r: Matrix)
    requires IsMatrix(g, |g|, Width(g)) && Shape2DOk(l1, l2, |g|, Width(g))
    ensures IsMatrix(r, |g|, Width(g)) && Width(r) == Width(g)
    decreases Size(l1)
  {
    if l1 <= 2 || l2 <= 2 then g
    else
      HalfShape(l1, l2, |g|, Width(g));
      var rows := RowPass(g, l1, l2, wrap, true);
      var cols := ColPass(rows, l2, l1, wrap, true);
      Lift2D(Quad(cols, l1, l2, layout, c), l1 / 2, l2 / 2, wrap, layout, c)
  }

  /** The inverse transform of the leading `l1` by `l2` block. */
  function Unlift2D(g: Matrix, l1: int, l2: int, wrap: Wrap, layout: Layout, c: real): (r: Matrix)
    requires IsMatrix(g, |g|, Width(g)) && Shape2DOk(l1, l2, |g|, Width(g)) && c != 0.0
    ensures IsMatrix(r, |g|, Width(g)) && Width(r) == Width(g)
    decreases Size(l1)
  {
    if l1 <= 2 || l2 <= 2 then g
    else
      HalfShape(l1, l2, |g|, Width(g));
      var inner := Unlift2D(g, l1 / 2, l2 / 2, wrap, layout, c);
      var q := UnQuad(inner, l1, l2, layout, c);
      var cols := ColPass(q, l2, l1, wrap, false);
      RowPass(cols, l1, l2, wrap, false)
  }

  /** One level of the inverse, below the coarser levels it undoes first. */
  lemma Unlift2DUnfold(g: Matrix, l1: int, l2: int, wrap: Wrap, layout: Layout, c: real)
    requires IsMatrix(g, |g|, Width(g)) && Shape2DOk(l1, l2, |g|, Width(g)) && c != 0.0 && l1 > 2 && l2 > 2
    ensures Fits(Width(g), l2) && Fits(|g|, l1) && Shape2DOk(l1 / 2, l2 / 2, |g|, Width(g))
    ensures Unlift2D(g, l1, l2, wrap, layout, c) ==
      RowPass(ColPass(UnQuad(Unlift2D(g, l1 / 2, l2 / 2, wrap, layout, c), l1, l2, layout, c), l2, l1, wrap, false),
        l1, l2, wrap, false)
  {
    HalfShape(l1, l2, |g|, Width(g));
  }

  /** One level of the forward transform, followed by the rest on the top-left quadrant. */
  lemma Lift2DUnfold(g: Matrix, l1: int, l2: int, wrap: Wrap, layout: Layout, c: real)
    requires IsMatrix(g, |g|, Width(g)) && Shape2DOk(l1, l2, |g|, Width(g)) && l1 > 2 && l2 > 2
    ensures Fits(Width(g), l2) && Fits(|g|, l1) && Shape2DOk(l1 / 2, l2 / 2, |g|, Width(g))
    ensures Lift2D(g, l1, l2, wrap, layout, c) ==
      Lift2D(Quad(ColPass(RowPass(g, l1, l2, wrap, true), l2, l1, wrap, true), l1, l2, layout, c), l1 / 2, l2 / 2, wrap, layout, c)
  {
    HalfShape(l1, l2, |g|, Width(g));
  }

  /** The inverse undoes the forward transform with the same shape. */
  lemma {:induction false} Unlift2DOfLift2D(g: Matrix, l1: int, l2: int, wrap: Wrap, layout: Layout, c: real)
    requires IsMatrix(g, |g|, Width(g)) && Shape2DOk(l1, l2, |g|, Width(g)) && c != 0.0
    ensures Unlift2D(Lift2D(g, l1, l2, wrap, layout, c), l1, l2, wrap, layout, c) == g
    decreases Size(l1)
  {
    if l1 > 2 && l2 > 2 {
      HalfShape(l1, l2, |g|, Width(g));
      var rows := RowPass(g, l1, l2, wrap, true);
      var cols := ColPass(rows, l2, l1, wrap, true);
      var q := Quad(cols, l1, l2, layout, c);
      Unlift2DOfLift2D(q, l1 / 2, l2 / 2, wrap, layout, c);
      UnQuadQuad(cols, l1, l2, layout, c);
      ColPassInverse(rows, l2, l1, wrap, true);
      RowPassInverse(g, l1, l2, wrap, true);
    }
  }

  /** The forward transform undoes the inverse with the same shape. */
  lemma {:induction false} Lift2DOfUnlift2D(g: Matrix, l1: int, l2: int, wrap: Wrap, layout: Layout, c: real)
    requires IsMatrix(g, |g|, Width(g)) && Shape2DOk(l1, l2, |g|, Width(g)) && c != 0.0
    ensures Lift2D(Unlift2D(g, l1, l2, wrap, layout, c), l1, l2, wrap, layout, c) == g
    decreases Size(l1)
  {
    if l1 > 2 && l2 > 2 {
      HalfShape(l1, l2, |g|, Width(g));
      var inner := Unlift2D(g, l1 / 2, l2 / 2, wrap, layout, c);
      var q := UnQuad(inner, l1, l2, layout, c);
      var cols := ColPass(q, l2, l1, wrap, false);
      RowPassInverse(cols, l1, l2, wrap, false);
      ColPassInverse(q, l2, l1, wrap, false);
      QuadUnQuad(inner, l1, l2, layout, c);
      Lift2DOfUnlift2D(g, l1 / 2, l2 / 2, wrap, layout, c);
    }
  }
}
