/**
 * The block-mean Gaussian and Laplacian pyramids of 5/lib/gaussian.py.
 * Each Gaussian level is the previous one with every 2 by 2 block
 * replaced by its mean; each Laplacian level is a Gaussian level minus the
 * next one blown back up by pixel replication, and the last Laplacian
 * level is the last Gaussian level. Adding the levels back up from the
 * coarsest one gives the image again.
 */
module Gaussian {
  import opened Wrappers
  import opened Images

  /** 2 to the power `k` (`pow(2, _lvl)`). */
  function Pow2(k: nat): (p: nat)
    ensures p >= 1
  {
    if k == 0 then 1 else 2 * Pow2(k - 1)
  }

  /** Division of an exact multiple. */
  lemma DivExact(x: int, p: int, q: int)
    requires p > 0 && x == q * p
    ensures x / p == q && x % p == 0
  {
    var r, m := x / p, x % p;
    assert x == p * r + m && 0 <= m < p;
    assert p * (q - r) == m;
    if q - r >= 1 {
      MulAtLeast(p, q - r);
    } else if q - r <= -1 {
      MulAtLeast(p, r - q);
    }
  }

  lemma MulAtLeast(p: nat, t: int)
    requires t >= 1
    ensures p * t >= p
  {
    assert p * t == p + p * (t - 1);
  }

  /**
   * A side divisible by 2^k is divisible by 2^(k-1), with twice the
   * quotient: one halving step of the pyramid.
   */
  lemma Halving(d: nat, k: nat)
    requires k > 0 && d % Pow2(k) == 0
    ensures d % Pow2(k - 1) == 0 && d / Pow2(k - 1) == 2 * (d / Pow2(k))
  {
    var q := d / Pow2(k);
    assert d == q * Pow2(k);
    assert d == (2 * q) * Pow2(k - 1);
    DivExact(d, Pow2(k - 1), 2 * q);
  }

  /** Divisibility by 2^lvl gives divisibility by every smaller power. */
  lemma {:induction false} DividesLower(d: nat, k: nat, lvl: nat)
    requires k <= lvl && d % Pow2(lvl) == 0
    ensures d % Pow2(k) == 0
    decreases lvl
  {
    if k < lvl {
      Halving(d, lvl);
      DividesLower(d, k, lvl - 1);
    }
  }

  // One reduction step along an axis.

  /** numpy broadcasts two lengths of one axis when they are equal or one of them is 1. */
  predicate Broadcastable(p: nat, q: nat) {
    p == q || p == 1 || q == 1
  }

  /** The length two broadcastable lengths give. */
  function Broadcast(p: nat, q: nat): nat
    requires Broadcastable(p, q)
  {
    if p == 1 then q else p
  }

  /**
   * Whether the sum of line 20 broadcasts along an axis of length `n`: the
   * four terms have the lengths of `[::2]` and `[1::2]` on that axis,
   * (n + 1) / 2 and n / 2. Otherwise numpy raises `ValueError`.
   */
  predicate Steps(n: nat) {
    Broadcastable((n + 1) / 2, n / 2)
  }

  /** The length of that axis after the sum (0 where numpy raises). */
  function Step(n: nat): nat {
    if Steps(n) then Broadcast((n + 1) / 2, n / 2) else 0
  }

  /**
   * The sum broadcasts exactly on even lengths and on 1 and 3: an even
   * length is halved, 1 gives 0 and 3 gives 2.
   */
  lemma StepsCases(n: nat)
    ensures Steps(n) <==> n % 2 == 0 || n == 1 || n == 3
    ensures n % 2 == 0 ==> Step(n) == n / 2
    ensures n == 1 ==> Step(n) == 0
    ensures n == 3 ==> Step(n) == 2
  {
  }

  /**
   * The row (or column) of the term `[1::2]` added at output row `i`: row
   * 2i + 1, or its single row 1, broadcast, when it has only one.
   */
  function Odd(n: nat, i: int): int {
    if n / 2 == 1 then 1 else 2 * i + 1
  }

  /**
   * One reduction step: entry (i, j) is the sum of the four strided slices
   * divided by 4, read where numpy's broadcasting reads them. On even
   * sides it is the mean of the 2 by 2 block at (2i, 2j).
   */
  function Half(g: Matrix): (r: Matrix)
    ensures IsMatrix(r, Step(|g|), Step(Width(g)))
  {
    Build(Step(|g|), Step(Width(g)), (i, j) =>
      (At(g, 2 * i, 2 * j) + At(g, Odd(|g|, i), 2 * j) + At(g, 2 * i, Odd(Width(g), j)) + At(g, Odd(|g|, i), Odd(Width(g), j))) / 4.0)
  }

  /**
   * Entry (i, j) of a reduction step with a full 2 by 2 block at (2i, 2j)
   * is the mean of that block.
   */
  lemma HalfEntry(g: Matrix, i: int, j: int)
    requires Steps(|g|) && Steps(Width(g))
    requires 0 <= i < |g| / 2 && 0 <= j < Width(g) / 2
    ensures Half(g)[i][j] == (At(g, 2 * i, 2 * j) + At(g, 2 * i + 1, 2 * j) + At(g, 2 * i, 2 * j + 1) + At(g, 2 * i + 1, 2 * j + 1)) / 4.0
  {
    StepsCases(|g|);
    StepsCases(Width(g));
  }

  /**
   * On a side of 3 the middle row is broadcast: it enters both output
   * rows, with the first and with the last row.
   */
  lemma HalfThree(g: Matrix, j: int)
    requires |g| == 3 && Steps(Width(g)) && 0 <= j < Width(g) / 2
    ensures Half(g)[0][j] == (At(g, 0, 2 * j) + At(g, 1, 2 * j) + At(g, 0, 2 * j + 1) + At(g, 1, 2 * j + 1)) / 4.0
    ensures Half(g)[1][j] == (At(g, 2, 2 * j) + At(g, 1, 2 * j) + At(g, 2, 2 * j + 1) + At(g, 1, 2 * j + 1)) / 4.0
  {
    StepsCases(3);
    StepsCases(Width(g));
  }

  /** Level `k` of the Gaussian pyramid of `g`: `k` reduction steps. */
  function Level(g: Matrix, k: nat): (r: Matrix)
    ensures k > 0 ==> IsMatrix(r, |r|, Width(r))
  {
    if k == 0 then g else Half(Level(g, k - 1))
  }

  // Sides.

  /** The length of an axis of length `n` after `k` steps. */
  function Side(n: nat, k: nat): nat {
    if k == 0 then n else Side(Step(n), k - 1)
  }

  /** Whether all `k` steps from an axis of length `n` broadcast. */
  predicate Chains(n: nat, k: nat) {
    k == 0 || (Steps(n) && Chains(Step(n), k - 1))
  }

  lemma {:induction false} SideStep(n: nat, k: nat)
    ensures Side(n, k + 1) == Step(Side(n, k))
    decreases k
  {
    if k > 0 {
      SideStep(Step(n), k - 1);
    }
  }

  /** One more step broadcasts when the current side does. */
  lemma {:induction false} ChainsStep(n: nat, k: nat)
    ensures Chains(n, k + 1) <==> Chains(n, k) && Steps(Side(n, k))
    decreases k
  {
    if k > 0 {
      ChainsStep(Step(n), k - 1);
    }
  }

  lemma {:induction false} ChainsLower(n: nat, k: nat, lvl: nat)
    requires k <= lvl && Chains(n, lvl)
    ensures Chains(n, k)
    decreases k
  {
    if k > 0 {
      ChainsLower(Step(n), k - 1, lvl - 1);
    }
  }

  /** On a side of at least 2^lvl, the side after k <= lvl steps is at least 2^(lvl-k). */
  lemma {:induction false} SideBound(n: nat, lvl: nat, k: nat)
    requires Pow2(lvl) <= n && Chains(n, k) && k <= lvl
    ensures Side(n, k) >= Pow2(lvl - k)
    decreases k
  {
    if k > 0 {
      StepsCases(n);
      assert Pow2(lvl) == 2 * Pow2(lvl - 1);
      SideBound(Step(n), lvl - 1, k - 1);
    }
  }

  /** On a side divisible by 2^k, each of the k steps halves it exactly. */
  lemma {:induction false} SideDivides(n: nat, k: nat)
    requires n % Pow2(k) == 0
    ensures Side(n, k) == n / Pow2(k)
    decreases k
  {
    if k > 0 {
      HalveDivisible(n, k);
      StepsCases(n);
      SideDivides(n / 2, k - 1);
    }
  }

  /** Halving a side divisible by 2^k leaves one divisible by 2^(k-1), with the same quotient. */
  lemma HalveDivisible(n: nat, k: nat)
    requires k > 0 && n % Pow2(k) == 0
    ensures n % 2 == 0 && (n / 2) % Pow2(k - 1) == 0 && (n / 2) / Pow2(k - 1) == n / Pow2(k)
  {
    DividesLower(n, 1, k);
    var q := n / Pow2(k);
    assert n == q * Pow2(k);
    assert n / 2 == q * Pow2(k - 1);
    DivExact(n / 2, Pow2(k - 1), q);
  }

  /** Level k has the sides after k steps. */
  lemma {:induction false} LevelShape(g: Matrix, h: nat, w: nat, k: nat)
    requires IsMatrix(g, h, w)
    ensures IsMatrix(Level(g, k), Side(h, k), Side(w, k))
  {
    if k > 0 {
      LevelShape(g, h, w, k - 1);
      SideStep(h, k - 1);
      SideStep(w, k - 1);
      HalfShape(Level(g, k - 1), Side(h, k - 1), Side(w, k - 1));
    }
  }

  lemma HalfShape(p: Matrix, h: nat, w: nat)
    requires IsMatrix(p, h, w)
    ensures IsMatrix(Half(p), Step(h), Step(w))
  {
    if h > 0 {
      assert Width(p) == w;
    }
  }

  // The sides `gaussian_special` accepts.

  /** A positive side divisible by 2^lvl. */
  predicate Divides(n: nat, lvl: nat) {
    n > 0 && n % Pow2(lvl) == 0
  }

  /**
   * The sides on which `gaussian_special` succeeds: divisible by 2^lvl, or
   * three times 2^(lvl-1), whose last step takes 3 to 2 by broadcasting.
   */
  predicate Viable(n: nat, lvl: nat) {
    Divides(n, lvl) || (lvl >= 1 && n == 3 * Pow2(lvl - 1))
  }

  lemma ModDouble(n: nat, p: nat)
    requires n % 2 == 0 && p > 0
    ensures n % (2 * p) == 0 <==> (n / 2) % p == 0
  {
    var m := n / 2;
    assert n == 2 * m;
    if m % p == 0 {
      var q := m / p;
      assert m == q * p;
      DivExact(n, 2 * p, q);
    }
    if n % (2 * p) == 0 {
      var q := n / (2 * p);
      assert n == q * (2 * p);
      DivExact(m, p, q);
    }
  }

  lemma OddNotDivisible(n: nat, p: nat)
    requires n % 2 == 1 && p > 0
    ensures n % (2 * p) != 0
  {
    var q, r := n / (2 * p), n % (2 * p);
    assert n == (2 * p) * q + r;
    assert n == 2 * (p * q) + r;
  }

  /**
   * The assertion of line 12 and the broadcasting of every step of line 20
   * hold together exactly on the `Viable` sides.
   */
  lemma {:induction false} ViableIff(n: nat, lvl: nat)
    ensures Pow2(lvl) <= n && Chains(n, lvl) <==> Viable(n, lvl)
    decreases lvl
  {
    StepsCases(n);
    if lvl > 0 {
      var p := Pow2(lvl - 1);
      assert Pow2(lvl) == 2 * p;
      if lvl >= 2 {
        assert p == 2 * Pow2(lvl - 2);
      }
      if n % 2 == 0 {
        ViableIff(n / 2, lvl - 1);
        ModDouble(n, p);
      } else {
        OddNotDivisible(n, p);
      }
    }
  }

  /**
   * `gaussian_special(_img, _lvl)`: the levels 0 to `lvl` of the pyramid.
   * It fails with the assertion of line 12 when 2^lvl exceeds a side, and
   * with numpy's `ValueError` when a step does not broadcast: exactly on
   * the sides that are not `Viable`.
   */
  method GaussianSpecial(img: Matrix, h: nat, w: nat, lvl: nat) returns (r: Option<seq<Matrix>>)
    requires IsMatrix(img, h, w)
    ensures r.None? <==> !Viable(h, lvl) || !Viable(w, lvl)
    ensures r.Some? ==> |r.value| == lvl + 1
    ensures r.Some? ==> forall k :: 0 <= k <= lvl ==> r.value[k] == Level(img, k)
  {
    if Pow2(lvl) > h || Pow2(lvl) > w {
      ViableIff(h, lvl);
      ViableIff(w, lvl);
      return None;
    }
    var g: seq<Matrix> := [];
    var cur := img;
    for k := 0 to lvl
      invariant g == Pyramid(img, k) && cur == Level(img, k)
      invariant Chains(h, k) && Chains(w, k)
    {
      g := g + [cur];
      LevelShape(img, h, w, k);
      SideBound(h, lvl, k);
      ChainsStep(h, k);
      ChainsStep(w, k);
      if !Steps(|cur|) || !Steps(Width(cur)) {
        ViableIff(h, lvl);
        ViableIff(w, lvl);
        if Chains(h, lvl) {
          ChainsLower(h, k + 1, lvl);
        }
        if Chains(w, lvl) {
          ChainsLower(w, k + 1, lvl);
        }
        return None;
      }
      cur := Half(cur);
    }
    g := g + [cur];
    ViableIff(h, lvl);
    ViableIff(w, lvl);
    PyramidLevels(img, lvl + 1);
    return Some(g);
  }

  /** The levels 0 to `n - 1`, one after another. */
  function Pyramid(img: Matrix, n: nat): (p: seq<Matrix>)
    ensures |p| == n
  {
    if n == 0 then [] else Pyramid(img, n - 1) + [Level(img, n - 1)]
  }

  /** Entry `k` of the pyramid is level `k`. */
  lemma {:induction false} PyramidLevels(img: Matrix, n: nat)
    ensures forall k :: 0 <= k < n ==> Pyramid(img, n)[k] == Level(img, k)
  {
    if n > 0 {
      PyramidLevels(img, n - 1);
    }
  }

  // Laplacian levels.

  /**
   * Whether a coarse axis of length `d` can be added in place to the
   * slices `[::2]` and `[1::2]` of an axis of length `n`: numpy broadcasts
   * it to each slice, so it must equal both slice lengths or be 1.
   */
  predicate AxisFits(n: nat, d: nat) {
    (d == (n + 1) / 2 || d == 1) && (d == n / 2 || d == 1)
  }

  /**
   * Whether the four strided `-=` of lines 37-40 (or `+=` of lines 57-60)
   * of `c` on a copy of `f` broadcast; otherwise numpy raises `ValueError`.
   */
  predicate Fits(f: Matrix, c: Matrix) {
    AxisFits(|f|, |c|) && AxisFits(Width(f), Width(c))
  }

  /** The row (or column) of `c` added at row `r`: r / 2, or the single row broadcast. */
  function Src(d: nat, r: int): int {
    if d == 1 then 0 else r / 2
  }

  /**
   * A Laplacian level: `f` minus `c` replicated over each 2 by 2 block
   * (the four strided `-=` on a copy of `f`), a single row or column of
   * `c` being broadcast.
   */
  function Detail(f: Matrix, c: Matrix): (e: Matrix)
    ensures IsMatrix(e, |f|, Width(f))
    ensures forall r, s :: 0 <= r < |f| && 0 <= s < Width(f) ==> e[r][s] == At(f, r, s) - At(c, Src(|c|, r), Src(Width(c), s))
  {
    Build(|f|, Width(f), (r, s) => At(f, r, s) - At(c, Src(|c|, r), Src(Width(c), s)))
  }

  /**
   * One step of the reconstruction: `e` plus `c` replicated over each
   * 2 by 2 block (the four strided `+=` on a copy of `e`), a single row or
   * column of `c` being broadcast.
   */
  function Restore(e: Matrix, c: Matrix): (f: Matrix)
    ensures IsMatrix(f, |e|, Width(e))
    ensures forall r, s :: 0 <= r < |e| && 0 <= s < Width(e) ==> f[r][s] == At(e, r, s) + At(c, Src(|c|, r), Src(Width(c), s))
  {
    Build(|e|, Width(e), (r, s) => At(e, r, s) + At(c, Src(|c|, r), Src(Width(c), s)))
  }

  /** Restoring a detail level with the coarse level it was taken against gives the fine level back. */
  lemma RestoreDetail(f: Matrix, c: Matrix)
    requires IsMatrix(f, |f|, Width(f))
    ensures Restore(Detail(f, c), c) == f
  {
    var e := Detail(f, c);
    var r := Restore(e, c);
    if |f| > 0 {
      assert Width(e) == Width(f);
    }
    MatrixEq(r, f, |f|, Width(f));
  }

  /** Against the block means, an entry of an even-sided level loses the mean of its block. */
  lemma DetailOfHalf(f: Matrix, h: nat, w: nat, r: int, s: int)
    requires IsMatrix(f, 2 * h, 2 * w) && 0 <= r < 2 * h && 0 <= s < 2 * w
    ensures Detail(f, Half(f))[r][s] == f[r][s] - Half(f)[r / 2][s / 2]
  {
    StepsCases(2 * h);
    StepsCases(2 * w);
    var c := Half(f);
    assert Width(f) == 2 * w;
    assert |c| == h && Width(c) == w;
    assert Src(h, r) == r / 2 && Src(w, s) == s / 2;
  }

  /**
   * A detail level taken against the block means carries no mean: each of
   * its 2 by 2 blocks sums to zero.
   */
  lemma DetailBlockZero(f: Matrix, h: nat, w: nat, i: nat, j: nat)
    requires IsMatrix(f, 2 * h, 2 * w) && i < h && j < w
    ensures var e := Detail(f, Half(f));
      e[2 * i][2 * j] + e[2 * i + 1][2 * j] + e[2 * i][2 * j + 1] + e[2 * i + 1][2 * j + 1] == 0.0
  {
    BlockMean(f, h, w, i, j);
    DetailBlock(f, h, w, i, j, 2 * i, 2 * j);
    DetailBlock(f, h, w, i, j, 2 * i + 1, 2 * j);
    DetailBlock(f, h, w, i, j, 2 * i, 2 * j + 1);
    DetailBlock(f, h, w, i, j, 2 * i + 1, 2 * j + 1);
  }

  /** On even sides each entry of the half-size level is the mean of its 2 by 2 block. */
  lemma BlockMean(f: Matrix, h: nat, w: nat, i: nat, j: nat)
    requires IsMatrix(f, 2 * h, 2 * w) && i < h && j < w
    ensures Half(f)[i][j] == (f[2 * i][2 * j] + f[2 * i + 1][2 * j] + f[2 * i][2 * j + 1] + f[2 * i + 1][2 * j + 1]) / 4.0
  {
    assert Width(f) == 2 * w;
    StepsCases(2 * h);
    StepsCases(2 * w);
    HalfEntry(f, i, j);
  }

  /** Each entry `(r, s)` of block `(i, j)` of the detail level is the fine entry minus the block mean. */
  lemma DetailBlock(f: Matrix, h: nat, w: nat, i: nat, j: nat, r: nat, s: nat)
    requires IsMatrix(f, 2 * h, 2 * w) && i < h && j < w
    requires 2 * i <= r <= 2 * i + 1 && 2 * j <= s <= 2 * j + 1
    ensures Detail(f, Half(f))[r][s] == f[r][s] - Half(f)[i][j]
  {
    DetailOfHalf(f, h, w, r, s);
    assert r / 2 == i && s / 2 == j;
  }

  /** Below level `lvl`, a side divisible by 2^lvl is twice the next one, which is positive. */
  lemma SideHalves(n: nat, lvl: nat, k: nat)
    requires Divides(n, lvl) && k < lvl
    ensures Side(n, k) == 2 * Side(n, k + 1) && Side(n, k + 1) >= 1
  {
    DividesLower(n, k + 1, lvl);
    Halving(n, k + 1);
    SideDivides(n, k);
    SideDivides(n, k + 1);
    var q := n / Pow2(k + 1);
    assert n == q * Pow2(k + 1);
    assert q >= 1;
  }

  /**
   * Below level `lvl` of sides divisible by 2^lvl every level has even
   * sides and the next level has half of them, so the in-place updates
   * broadcast.
   */
  lemma DividesFits(img: Matrix, h: nat, w: nat, lvl: nat, k: nat)
    requires IsMatrix(img, h, w) && k < lvl
    ensures Divides(h, lvl) && Divides(w, lvl) ==> Fits(Level(img, k), Level(img, k + 1))
  {
    if Divides(h, lvl) && Divides(w, lvl) {
      SideHalves(h, lvl, k);
      SideHalves(w, lvl, k);
      LevelShape(img, h, w, k);
      LevelShape(img, h, w, k + 1);
      var f, c := Level(img, k), Level(img, k + 1);
      assert |f| == 2 * |c| && |c| >= 1;
      assert Width(f) == 2 * Width(c);
    }
  }

  /**
   * On `Viable` sides one of which is not divisible by 2^lvl, that side is
   * 3 at level lvl - 1 and 2 at level lvl: the update of the last detail
   * level does not broadcast.
   */
  lemma LastMisfits(img: Matrix, h: nat, w: nat, lvl: nat)
    requires IsMatrix(img, h, w) && Viable(h, lvl) && Viable(w, lvl)
    ensures (Divides(h, lvl) && Divides(w, lvl)) || (lvl >= 1 && !Fits(Level(img, lvl - 1), Level(img, lvl)))
  {
    if !Divides(h, lvl) || !Divides(w, lvl) {
      var p := Pow2(lvl - 1);
      ViableIff(h, lvl);
      ChainsLower(h, lvl - 1, lvl);
      SideBound(h, lvl, lvl - 1);
      SideBound(h, lvl, lvl);
      LevelShape(img, h, w, lvl - 1);
      LevelShape(img, h, w, lvl);
      SideStep(h, lvl - 1);
      SideStep(w, lvl - 1);
      StepsCases(3);
      if !Divides(h, lvl) {
        DivExact(h, p, 3);
        SideDivides(h, lvl - 1);
      } else {
        DivExact(w, p, 3);
        SideDivides(w, lvl - 1);
      }
    }
  }

  /** When every update along the Gaussian levels broadcasts, `Viable` sides are divisible by 2^lvl. */
  lemma FitsDivide(img: Matrix, h: nat, w: nat, lvl: nat, g: seq<Matrix>)
    requires IsMatrix(img, h, w) && Viable(h, lvl) && Viable(w, lvl)
    requires |g| == lvl + 1 && forall k :: 0 <= k <= lvl ==> g[k] == Level(img, k)
    requires FitsAlong(g, lvl)
    ensures Divides(h, lvl) && Divides(w, lvl)
  {
    LastMisfits(img, h, w, lvl);
    if lvl >= 1 {
      assert g[lvl - 1] == Level(img, lvl - 1) && g[lvl] == Level(img, lvl - 1 + 1);
    }
  }

  /**
   * `laplacian_special(_img, _lvl)`: level `k < lvl` is the detail of
   * Gaussian level `k` against level `k + 1`; level `lvl` is the last
   * Gaussian level. Beyond the failures of `gaussian_special`, the update
   * of a level of side 3 against one of side 2 raises: it succeeds exactly
   * on sides divisible by 2^lvl.
   */
  method LaplacianSpecial(img: Matrix, h: nat, w: nat, lvl: nat) returns (r: Option<seq<Matrix>>)
    requires IsMatrix(img, h, w)
    ensures r.None? <==> !Divides(h, lvl) || !Divides(w, lvl)
    ensures r.Some? ==> IsLaplacian(r.value, img, lvl)
  {
    var gs := GaussianSpecial(img, h, w, lvl);
    if gs.None? {
      return None;
    }
    var g := gs.value;
    r := DetailLevels(g);
    if r.None? {
      DividesAlong(img, h, w, lvl, g, lvl);
    } else {
      FitsDivide(img, h, w, lvl, g);
      DetailsLaplacian(img, g, lvl);
    }
  }

  /**
   * The loop of `laplacian_special` over the Gaussian levels `g`: the
   * detail of each level against the next, then the last level; numpy's
   * `ValueError` when an update does not broadcast.
   */
  method DetailLevels(g: seq<Matrix>) returns (r: Option<seq<Matrix>>)
    requires |g| >= 1
    ensures r.None? <==> !FitsAlong(g, |g| - 1)
    ensures r.Some? ==> r.value == Details(g, |g| - 1) + [g[|g| - 1]]
  {
    var l: seq<Matrix> := [];
    for i := 1 to |g|
      invariant l == Details(g, i - 1)
      invariant FitsAlong(g, i - 1)
    {
      if !Fits(g[i - 1], g[i]) {
        AlongTail(g, i, |g| - 1);
        return None;
      }
      l := l + [Detail(g[i - 1], g[i])];
    }
    return Some(l + [g[|g| - 1]]);
  }

  /** Updates that broadcast up to level `m` broadcast up to every lower level. */
  lemma {:induction false} AlongTail(g: seq<Matrix>, n: nat, m: nat)
    requires n <= m < |g|
    ensures FitsAlong(g, m) ==> FitsAlong(g, n)
    decreases m - n
  {
    if n < m {
      AlongTail(g, n, m - 1);
    }
  }

  /** On sides divisible by 2^lvl every update along the Gaussian levels up to `n` broadcasts. */
  lemma {:induction false} DividesAlong(img: Matrix, h: nat, w: nat, lvl: nat, g: seq<Matrix>, n: nat)
    requires IsMatrix(img, h, w) && |g| == lvl + 1 && n <= lvl
    requires forall k :: 0 <= k <= lvl ==> g[k] == Level(img, k)
    ensures Divides(h, lvl) && Divides(w, lvl) ==> FitsAlong(g, n)
  {
    if n > 0 && Divides(h, lvl) && Divides(w, lvl) {
      DividesAlong(img, h, w, lvl, g, n - 1);
      DividesFits(img, h, w, lvl, n - 1);
      var f, c := g[n - 1], g[n];
      assert f == Level(img, n - 1) && c == Level(img, n);
      assert n - 1 + 1 == n;
      assert Fits(f, c);
    }
  }

  /** The first `n` detail levels of the Gaussian levels `g`. */
  function Details(g: seq<Matrix>, n: nat): (l: seq<Matrix>)
    requires n < |g|
    ensures |l| == n
  {
    if n == 0 then [] else Details(g, n - 1) + [Detail(g[n - 1], g[n])]
  }

  /** Every one of the levels `g` below `n` broadcasts onto the next. */
  predicate FitsAlong(g: seq<Matrix>, n: nat)
    requires n < |g|
  {
    n == 0 || (FitsAlong(g, n - 1) && Fits(g[n - 1], g[n]))
  }

  /** The detail levels followed by the last Gaussian level form the Laplacian pyramid. */
  lemma DetailsLaplacian(img: Matrix, g: seq<Matrix>, lvl: nat)
    requires |g| == lvl + 1 && forall k :: 0 <= k <= lvl ==> g[k] == Level(img, k)
    ensures IsLaplacian(Details(g, lvl) + [g[lvl]], img, lvl)
  {
    forall k | 0 <= k < lvl
      ensures Details(g, lvl)[k] == Detail(Level(img, k), Level(img, k + 1))
    {
      DetailsAt(g, lvl, k);
      assert g[k + 1] == Level(img, k + 1);
    }
  }

  /** Entry `k` of the detail levels is the detail of level `k` against level `k + 1`. */
  lemma {:induction false} DetailsAt(g: seq<Matrix>, n: nat, k: nat)
    requires k < n < |g|
    ensures Details(g, n)[k] == Detail(g[k], g[k + 1])
  {
    if k < n - 1 {
      DetailsAt(g, n - 1, k);
    }
  }

  /** `l` is the Laplacian pyramid of `img` with `lvl` detail levels. */
  predicate IsLaplacian(l: seq<Matrix>, img: Matrix, lvl: nat) {
    |l| == lvl + 1 && l[lvl] == Level(img, lvl) &&
    forall k :: 0 <= k < lvl ==> l[k] == Detail(Level(img, k), Level(img, k + 1))
  }

  /** The image rebuilt from the levels `j` and up of a Laplacian pyramid. */
  function Rebuild(l: seq<Matrix>, j: nat): (r: Matrix)
    requires j < |l|
    ensures |r| == |l[j]|
    ensures j + 1 < |l| ==> IsMatrix(r, |l[j]|, Width(l[j]))
    decreases |l| - j
  {
    if j == |l| - 1 then l[j] else Restore(l[j], Rebuild(l, j + 1))
  }

  /** Every `+=` of the reconstruction from level `j` on broadcasts. */
  predicate StacksFrom(l: seq<Matrix>, j: nat)
    decreases |l| - j
  {
    j + 1 >= |l| || (Fits(l[j], Rebuild(l, j + 1)) && StacksFrom(l, j + 1))
  }

  /** Every `+=` of the reconstruction broadcasts. */
  predicate Stacks(l: seq<Matrix>) {
    StacksFrom(l, 0)
  }

  /** A reconstruction that broadcasts from level `j` on does so from every later level. */
  lemma {:induction false} StacksTail(l: seq<Matrix>, j: nat, i: nat)
    requires j <= i < |l|
    ensures StacksFrom(l, j) ==> StacksFrom(l, i)
    decreases i - j
  {
    if j < i {
      StacksTail(l, j + 1, i);
    }
  }

  /**
   * `laplacian_create(_l)`: starting from the last level, restore each
   * earlier one in turn. An empty list is Python's `IndexError`; a level
   * the coarser image does not broadcast onto is numpy's `ValueError`.
   */
  method LaplacianCreate(l: seq<Matrix>) returns (r: Option<Matrix>)
    ensures r.None? <==> |l| == 0 || !Stacks(l)
    ensures r.Some? ==> r.value == Rebuild(l, 0)
  {
    if |l| == 0 {
      return None;
    }
    var imgr := l[|l| - 1];
    var i := |l| - 1;
    while i > 0
      invariant 0 <= i < |l| && imgr == Rebuild(l, i) && StacksFrom(l, i)
      decreases i
    {
      if !Fits(l[i - 1], imgr) {
        StacksTail(l, 0, i - 1);
        return None;
      }
      imgr := Restore(l[i - 1], imgr);
      i := i - 1;
    }
    return Some(imgr);
  }

  /** Rebuilding a Laplacian pyramid of `img` from any level gives that Gaussian level. */
  lemma {:induction false} RebuildLevel(l: seq<Matrix>, img: Matrix, lvl: nat, j: nat)
    requires IsMatrix(img, |img|, Width(img))
    requires IsLaplacian(l, img, lvl) && j <= lvl
    ensures Rebuild(l, j) == Level(img, j)
    decreases lvl - j
  {
    if j < lvl {
      RebuildLevel(l, img, lvl, j + 1);
      RestoreDetail(Level(img, j), Level(img, j + 1));
    }
  }

  /**
   * The round trip of the two: every level `laplacian_special` builds
   * broadcasts in `laplacian_create`, which returns the image.
   */
  lemma CreateInvertsSpecial(l: seq<Matrix>, img: Matrix, h: nat, w: nat, lvl: nat)
    requires IsMatrix(img, h, w) && Divides(h, lvl) && Divides(w, lvl) && IsLaplacian(l, img, lvl)
    ensures |l| > 0 && Stacks(l) && Rebuild(l, 0) == img
  {
    assert Width(img) == w;
    RebuildLevel(l, img, lvl, 0);
    SpecialStacks(l, img, h, w, lvl, 0);
  }

  /** On a Laplacian pyramid of sides divisible by 2^lvl every `+=` from level `j` on broadcasts. */
  lemma {:induction false} SpecialStacks(l: seq<Matrix>, img: Matrix, h: nat, w: nat, lvl: nat, j: nat)
    requires IsMatrix(img, h, w) && Divides(h, lvl) && Divides(w, lvl) && IsLaplacian(l, img, lvl)
    requires j < |l|
    ensures StacksFrom(l, j)
    decreases |l| - j
  {
    if j + 1 < |l| {
      SpecialStacks(l, img, h, w, lvl, j + 1);
      assert Width(img) == w;
      RebuildLevel(l, img, lvl, j + 1);
      DividesFits(img, h, w, lvl, j);
      LevelShape(img, h, w, j);
      var f := Level(img, j);
      if |f| > 0 {
        assert Width(l[j]) == Width(f);
      }
    }
  }
}
