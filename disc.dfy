/**
 * The disc-shaped blur kernel of 2/blurring.py (`disc(n)`) and
 * 2/lib/blurring.py (`disc(n, r)`): a (2n+1) by (2n+1) matrix of ones whose
 * cells farther than a radius from the centre are zeroed, four mirrored cells
 * at a time, and which is then divided by its sum.
 */
module Disc {
  import opened Wrappers
  import opened Images

  /** Squared distance of (i, j) from the centre (n, n). */
  function Dist2(i: int, j: int, n: int): int {
    Square(i - n) + Square(j - n)
  }

  function Square(x: int): (s: int)
    ensures s >= 0
  {
    if x < 0 then (-x) * (-x) else x * x
  }

  /**
   * The test `sqrt((i-n)^2 + (j-n)^2) > t`. For a radius `t` >= 0 both sides
   * are non-negative, so it is the test on squares.
   */
  predicate Outside(i: int, j: int, n: int, t: real)
    requires t >= 0.0
  {
    Dist2(i, j, n) as real > t * t
  }

  /** The zero pattern before normalisation: 0 outside the radius, 1 inside. */
  function Mask(n: nat, t: real): (m: Matrix)
    requires t >= 0.0
    ensures IsMatrix(m, 2 * n + 1, 2 * n + 1)
    ensures forall p, q :: 0 <= p < 2 * n + 1 && 0 <= q < 2 * n + 1 ==>
      m[p][q] == if Outside(p, q, n, t) then 0.0 else 1.0
  {
    Build(2 * n + 1, 2 * n + 1, (p, q) => if t >= 0.0 && Outside(p, q, n, t) then 0.0 else 1.0)
  }

  /** Index `p` folded onto 0..n: the loop cell whose mirrored writes reach `p`. */
  function Fold(p: int, n: int): int {
    if p <= n then p else 2 * n - p
  }

  lemma FoldDistance(p: int, q: int, n: int)
    ensures Dist2(p, q, n) == Dist2(Fold(p, n), Fold(q, n), n)
  {
  }

  /** The loop has visited the cell folding onto (i', j') when (i', j') comes before (i, j) in row order. */
  predicate Visited(p: int, q: int, n: int, i: int, j: int) {
    Fold(p, n) < i || (Fold(p, n) == i && Fold(q, n) < j)
  }

  /**
   * The loop of `disc`: start from ones and, for every (i, j) in the top-left
   * quarter (centre row and column included) that lies outside the radius,
   * zero it and its three mirror images.
   */
  method DiscMask(n: nat, t: real) returns (m: array2<real>)
    requires t >= 0.0
    ensures fresh(m) && m.Length0 == 2 * n + 1 && m.Length1 == 2 * n + 1
    ensures Grid(m) == Mask(n, t)
  {
    var size := 2 * n + 1;
    m := new real[size, size]((p, q) => 1.0);
    for i := 0 to n + 1
      invariant forall p, q :: 0 <= p < size && 0 <= q < size ==>
        m[p, q] == if Visited(p, q, n, i, 0) && Outside(Fold(p, n), Fold(q, n), n, t) then 0.0 else 1.0
    {
      for j := 0 to n + 1
        invariant forall p, q :: 0 <= p < size && 0 <= q < size ==>
          m[p, q] == if Visited(p, q, n, i, j) && Outside(Fold(p, n), Fold(q, n), n, t) then 0.0 else 1.0
      {
        if Outside(i, j, n, t) {
          ZeroMirrors(m, n, i, j);
        }
      }
    }
    forall p, q | 0 <= p < size && 0 <= q < size
      ensures Outside(p, q, n, t) == Outside(Fold(p, n), Fold(q, n), n, t)
    {
      FoldDistance(p, q, n);
    }
    MatrixEq(Grid(m), Mask(n, t), size, size);
  }

  /** Zero cell (i, j) of the top-left quarter and its three mirror images. */
  method ZeroMirrors(m: array2<real>, n: nat, i: int, j: int)
    requires m.Length0 == 2 * n + 1 && m.Length1 == 2 * n + 1
    requires 0 <= i <= n && 0 <= j <= n
    modifies m
    ensures forall p, q :: 0 <= p < 2 * n + 1 && 0 <= q < 2 * n + 1 ==>
      m[p, q] == if Fold(p, n) == i && Fold(q, n) == j then 0.0 else old(m[p, q])
  {
    m[i, j] := 0.0;
    m[2 * n - i, j] := 0.0;
    m[2 * n - i, 2 * n - j] := 0.0;
    m[i, 2 * n - j] := 0.0;
  }

  /** Every entry divided by `s`. */
  function Divide(g: Matrix, s: real): (r: Matrix)
    requires s != 0.0
    ensures |r| == |g| && forall i :: 0 <= i < |g| ==> |r[i]| == |g[i]|
    ensures forall i, j :: 0 <= i < |g| && 0 <= j < |g[i]| ==> r[i][j] == g[i][j] / s
  {
    seq(|g|, i requires 0 <= i < |g| => seq(|g[i]|, j requires 0 <= j < |g[i]| => g[i][j] / s))
  }

  lemma DivideShape(g: Matrix, s: real, h: int, w: int)
    requires s != 0.0 && IsMatrix(g, h, w)
    ensures IsMatrix(Divide(g, s), h, w)
  {
  }

  lemma {:induction false} RowSumDivide(s: seq<real>, t: seq<real>, c: real)
    requires c != 0.0 && |s| == |t| && forall j :: 0 <= j < |s| ==> t[j] == s[j] / c
    ensures RowSum(t) == RowSum(s) / c
  {
    if |s| > 0 {
      RowSumDivide(s[..|s| - 1], t[..|t| - 1], c);
    }
  }

  lemma {:induction false} TotalDivide(g: Matrix, c: real)
    requires c != 0.0
    ensures Total(Divide(g, c)) == Total(g) / c
  {
    if |g| > 0 {
      var n := |g|;
      assert Divide(g, c)[..n - 1] == Divide(g[..n - 1], c);
      TotalDivide(g[..n - 1], c);
      RowSumDivide(g[n - 1], Divide(g, c)[n - 1], c);
      AddDivided(Total(g[..n - 1]), RowSum(g[n - 1]), c);
    }
  }

  lemma AddDivided(a: real, b: real, c: real)
    requires c != 0.0
    ensures a / c + b / c == (a + b) / c
  {
  }

  lemma {:induction false} RowSumAtLeast(s: seq<real>, k: int)
    requires forall j :: 0 <= j < |s| ==> s[j] >= 0.0
    requires 0 <= k < |s|
    ensures RowSum(s) >= s[k] && RowSum(s) >= 0.0
  {
    if k < |s| - 1 {
      RowSumAtLeast(s[..|s| - 1], k);
    } else if |s| > 1 {
      RowSumAtLeast(s[..|s| - 1], 0);
    }
  }

  lemma {:induction false} TotalAtLeast(g: Matrix, i: int, j: int)
    requires forall p, q :: 0 <= p < |g| && 0 <= q < |g[p]| ==> g[p][q] >= 0.0
    requires 0 <= i < |g| && 0 <= j < |g[i]|
    ensures Total(g) >= g[i][j]
  {
    var n := |g|;
    if i < n - 1 {
      TotalAtLeast(g[..n - 1], i, j);
      if |g[n - 1]| > 0 {
        RowSumAtLeast(g[n - 1], 0);
      }
    } else {
      RowSumAtLeast(g[n - 1], j);
      if n > 1 && |g[0]| > 0 {
        TotalAtLeast(g[..n - 1], 0, 0);
      } else if n > 1 {
        TotalNonNegative(g[..n - 1]);
      }
    }
  }

  lemma {:induction false} TotalNonNegative(g: Matrix)
    requires forall p, q :: 0 <= p < |g| && 0 <= q < |g[p]| ==> g[p][q] >= 0.0
    ensures Total(g) >= 0.0
  {
    if |g| > 0 {
      TotalNonNegative(g[..|g| - 1]);
      if |g[|g| - 1]| > 0 {
        RowSumAtLeast(g[|g| - 1], 0);
      }
    }
  }

  /** The centre is never outside, so the mask sums to at least 1. */
  lemma MaskTotalPositive(n: nat, t: real)
    requires t >= 0.0
    ensures Total(Mask(n, t)) >= 1.0
  {
    var m := Mask(n, t);
    assert !Outside(n, n, n, t);
    TotalAtLeast(m, n, n);
  }

  /** The kernel `disc` returns: the mask divided by its sum. */
  function Kernel(n: nat, t: real): (k: Matrix)
    requires t >= 0.0
    ensures IsMatrix(k, 2 * n + 1, 2 * n + 1)
  {
    MaskTotalPositive(n, t);
    DivideShape(Mask(n, t), Total(Mask(n, t)), 2 * n + 1, 2 * n + 1);
    Divide(Mask(n, t), Total(Mask(n, t)))
  }

  /**
   * Every kernel cell outside the radius is 0 and every other cell holds the
   * same positive weight, one over the number of cells inside.
   */
  lemma KernelEntry(n: nat, t: real, p: int, q: int)
    requires t >= 0.0 && 0 <= p < 2 * n + 1 && 0 <= q < 2 * n + 1
    ensures Total(Mask(n, t)) >= 1.0
    ensures Kernel(n, t)[p][q] == if Outside(p, q, n, t) then 0.0 else 1.0 / Total(Mask(n, t))
    ensures (Kernel(n, t)[p][q] == 0.0 <==> Outside(p, q, n, t)) && Kernel(n, t)[p][q] >= 0.0
  {
    var s := Total(Mask(n, t));
    MaskTotalPositive(n, t);
    MaskDivided(n, t, s);
    DivideByTotal(s);
  }

  /** Dividing the mask by any `s` >= 1 gives 0 outside the radius and 1/`s` inside. */
  lemma MaskDivided(n: nat, t: real, s: real)
    requires t >= 0.0 && s >= 1.0
    ensures forall p, q :: 0 <= p < 2 * n + 1 && 0 <= q < 2 * n + 1 ==>
      Divide(Mask(n, t), s)[p][q] == if Outside(p, q, n, t) then 0.0 else 1.0 / s
  {
    var m := Mask(n, t);
    var k := Divide(m, s);
    forall p, q | 0 <= p < 2 * n + 1 && 0 <= q < 2 * n + 1
      ensures k[p][q] == if Outside(p, q, n, t) then 0.0 else 1.0 / s
    {
      assert k[p][q] == m[p][q] / s;
      if Outside(p, q, n, t) {
        assert m[p][q] == 0.0;
      } else {
        assert m[p][q] == 1.0;
      }
    }
  }

  /** The kernel sums to 1. */
  lemma KernelTotal(n: nat, t: real)
    requires t >= 0.0
    ensures Total(Kernel(n, t)) == 1.0
  {
    var s := Total(Mask(n, t));
    MaskTotalPositive(n, t);
    TotalDivide(Mask(n, t), s);
    DivideByTotal(s);
  }

  lemma DivideByTotal(s: real)
    requires s >= 1.0
    ensures s / s == 1.0 && 1.0 / s > 0.0 && 0.0 / s == 0.0
  {
  }

  /** The zero pattern, and so the kernel, is symmetric under both reflections. */
  lemma KernelSymmetric(n: nat, t: real, p: int, q: int)
    requires t >= 0.0 && 0 <= p < 2 * n + 1 && 0 <= q < 2 * n + 1
    ensures Kernel(n, t)[p][q] == Kernel(n, t)[2 * n - p][q] == Kernel(n, t)[p][2 * n - q]
  {
    assert Dist2(p, q, n) == Dist2(2 * n - p, q, n) == Dist2(p, 2 * n - q, n);
  }

  /**
   * `disc(n)` of 2/blurring.py: the radius is `n`. A negative `n` makes numpy
   * refuse the shape; the handler calls `trace()`, which reports the error and
   * ends the program with `sys.exit(2)` (2/mio.py:21). None stands for that
   * failure.
   */
  method DiscPlain(n: int) returns (res: Option<array2<real>>)
    ensures res.None? <==> n < 0
    ensures res.Some? ==> fresh(res.value) && Grid(res.value) == Kernel(n, n as real)
  {
    if n < 0 {
      return None;
    }
    var m := DiscMask(n, n as real);
    assert m[n, n] == Mask(n, n as real)[n][n] == 1.0;
    var k := Normalise(m);
    res := Some(k);
  }

  /**
   * `disc(n, r)` of 2/lib/blurring.py: the radius is `n / r`. A negative `n`
   * (bad shape) or `r` = 0 (division by zero) raise inside the `try`; the
   * handler calls `trace()`, which ends the program with `sys.exit(2)`. None
   * stands for that failure.
   */
  method DiscRatio(n: int, r: int) returns (res: Option<array2<real>>)
    requires r >= 0
    ensures res.None? <==> n < 0 || r == 0
    ensures res.Some? ==> fresh(res.value) && Grid(res.value) == Kernel(n, n as real / r as real)
  {
    if n < 0 || r == 0 {
      return None;
    }
    var m := DiscMask(n, n as real / r as real);
    assert m[n, n] == Mask(n, n as real / r as real)[n][n] == 1.0;
    var k := Normalise(m);
    res := Some(k);
  }

  /** `_m / _m.sum()`. */
  method Normalise(m: array2<real>) returns (k: array2<real>)
    requires forall p, q :: 0 <= p < m.Length0 && 0 <= q < m.Length1 ==> m[p, q] >= 0.0
    requires exists p, q :: 0 <= p < m.Length0 && 0 <= q < m.Length1 && m[p, q] > 0.0
    ensures fresh(k) && k.Length0 == m.Length0 && k.Length1 == m.Length1
    ensures Total(Grid(m)) > 0.0 && Grid(k) == Divide(Grid(m), Total(Grid(m)))
  {
    var g := Grid(m);
    var p, q :| 0 <= p < m.Length0 && 0 <= q < m.Length1 && m[p, q] > 0.0;
    TotalAtLeast(g, p, q);
    var s := Total(g);
    k := new real[m.Length0, m.Length1]((i, j) requires 0 <= i < m.Length0 && 0 <= j < m.Length1 reads m => m[i, j] / s);
    MatrixEq(Grid(k), Divide(g, s), m.Length0, m.Length1);
  }

  /** `disc(n, 1)` of 2/lib/blurring.py is `disc(n)` of 2/blurring.py. */
  lemma RatioOneIsPlain(n: nat)
    ensures Kernel(n, n as real / 1 as real) == Kernel(n, n as real)
  {
    assert n as real / 1 as real == n as real;
  }
}
