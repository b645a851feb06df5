/**
 * Thresholding of transform coefficients: the soft and hard `denoise` of
 * haar.cpp, haar_denoising.cpp and lazy/lazy_denoising.cpp (the same loop in
 * all three), and the `cutoff_reduce` of the three compression programs.
 * Each is an in-place loop over the cells of the matrix; each cell's new
 * value depends on that cell alone.
 */
module Thresholding {
  import opened Images

  /**
   * Soft thresholding of one entry, the two updates in the order the loop
   * makes them: the second test looks at the value the first one left.
   */
  function Soft(x: real, k: real): (y: real)
    ensures k >= 0.0 ==> y == if x > k then x - k else if x < -k then x + k else x
    ensures x > k && x - k >= -k ==> y == x - k
  {
    var x1 := if x > k then x - k else x;
    if x1 < -k then x1 + k else x1
  }

  /** Hard thresholding of one entry: zero when its magnitude is below `k`. */
  function Hard(x: real, k: real): (y: real)
    ensures y == 0.0 || y == x
    ensures y == x <==> Abs(x) >= k || x == 0.0
  {
    if Abs(x) < k then 0.0 else x
  }

  /** One cell of `denoise`: soft or hard, as the flag says. */
  function Denoised(x: real, k: real, smooth: bool): real {
    if smooth then Soft(x, k) else Hard(x, k)
  }

  /** The matrix with `Denoised` applied to every cell. */
  function DenoiseAll(g: Matrix, k: real, smooth: bool): (r: Matrix)
    ensures |r| == |g|
    ensures forall i :: 0 <= i < |g| ==> |r[i]| == |g[i]|
    ensures forall i, j :: 0 <= i < |g| && 0 <= j < |g[i]| ==> r[i][j] == Denoised(g[i][j], k, smooth)
  {
    seq(|g|, i requires 0 <= i < |g| => seq(|g[i]|, j requires 0 <= j < |g[i]| => Denoised(g[i][j], k, smooth)))
  }

  /**
   * `denoise(_matrix, _k, smooth)`: every cell is visited once, row by row,
   * and replaced by its thresholded value; the shape does not change.
   */
  method Denoise(m: array2<real>, k: real, smooth: bool)
    modifies m
    ensures Grid(m) == DenoiseAll(old(Grid(m)), k, smooth)
  {
    ghost var before := Grid(m);
    for i := 0 to m.Length0
      invariant forall p, q :: 0 <= p < m.Length0 && 0 <= q < m.Length1 ==>
        m[p, q] == if p < i then Denoised(before[p][q], k, smooth) else before[p][q]
    {
      for j := 0 to m.Length1
        invariant forall p, q :: 0 <= p < m.Length0 && 0 <= q < m.Length1 ==>
          m[p, q] == if p < i || (p == i && q < j) then Denoised(before[p][q], k, smooth) else before[p][q]
      {
        if smooth {
          if m[i, j] > k {
            m[i, j] := m[i, j] - k;
          }
          if m[i, j] < -k {
            m[i, j] := m[i, j] - -k;
          }
        } else {
          if Abs(m[i, j]) < k {
            m[i, j] := 0.0;
          }
        }
      }
    }
    MatrixEq(Grid(m), DenoiseAll(before, k, smooth), m.Length0, m.Length1);
  }

  /** The cutoff of `cutoff_reduce`: the percentage `ct` divided by 100. */
  function Cut(ct: real): real {
    ct / 100.0
  }

  /**
   * `cutoff_reduce(img, ct)`: every entry whose magnitude is below `ct`/100
   * becomes 0, every other entry is kept.
   */
  method CutoffReduce(m: array2<real>, ct: real)
    modifies m
    ensures Grid(m) == DenoiseAll(old(Grid(m)), Cut(ct), false)
  {
    var cut := Cut(ct);
    ghost var before := Grid(m);
    for i := 0 to m.Length0
      invariant forall p, q :: 0 <= p < m.Length0 && 0 <= q < m.Length1 ==>
        m[p, q] == if p < i then Hard(before[p][q], cut) else before[p][q]
    {
      for j := 0 to m.Length1
        invariant forall p, q :: 0 <= p < m.Length0 && 0 <= q < m.Length1 ==>
          m[p, q] == if p < i || (p == i && q < j) then Hard(before[p][q], cut) else before[p][q]
      {
        if Abs(m[i, j]) < cut {
          m[i, j] := 0.0;
        }
      }
    }
    MatrixEq(Grid(m), DenoiseAll(before, cut, false), m.Length0, m.Length1);
  }

  /**
   * C++ conversion of a float to `int`: the fractional part is dropped, so
   * the value moves toward zero.
   */
  function TruncateToInt(x: real): (n: int)
    ensures Abs(n as real) <= Abs(x) < Abs(n as real) + 1.0
    ensures (n >= 0) == (x > -1.0)
    ensures x == x.Floor as real ==> n == x.Floor
  {
    if x >= 0.0 then x.Floor else -((-x).Floor)
  }

  /**
   * The cutoff the lazy encoder applies when the command line asked for
   * `ct` percent: `encode` takes the percentage as an `int`.
   */
  function LazyEncodeCut(ct: real): real {
    Cut(TruncateToInt(ct) as real)
  }

  // Properties of the soft threshold for a non-negative `k`.

  /** Entries in [-k, k] are left as they are. */
  lemma SoftKeepsSmall(x: real, k: real)
    requires k >= 0.0 && -k <= x <= k
    ensures Soft(x, k) == x
  {
  }

  /** The soft threshold never flips a sign and never increases a magnitude. */
  lemma SoftShrinks(x: real, k: real)
    requires k >= 0.0
    ensures (x >= 0.0 ==> Soft(x, k) >= 0.0) && (x <= 0.0 ==> Soft(x, k) <= 0.0)
    ensures Abs(Soft(x, k)) <= Abs(x)
    ensures Abs(x - Soft(x, k)) <= k
  {
  }

  /** Outside [-k, k] the soft threshold takes exactly `k` off the magnitude. */
  lemma SoftMagnitude(x: real, k: real)
    requires k >= 0.0 && Abs(x) > k
    ensures Abs(Soft(x, k)) == Abs(x) - k
  {
  }

  /**
   * With a negative `k` the loop's second test undoes the first for the
   * entries in (k, 0): they end where they started.
   */
  lemma SoftNegativeK(x: real, k: real)
    requires k < x < 0.0
    ensures Soft(x, k) == x
  {
  }

  // Properties of the hard threshold.

  /** Hard thresholding zeroes exactly the entries whose magnitude is below `k`. */
  lemma HardZeroesExactlySmall(x: real, k: real)
    ensures Abs(x) < k ==> Hard(x, k) == 0.0
    ensures Abs(x) >= k ==> Hard(x, k) == x
  {
  }

  /** Applying the hard threshold twice is applying it once. */
  lemma HardIdempotent(x: real, k: real)
    ensures Hard(Hard(x, k), k) == Hard(x, k)
  {
  }

  /** `denoise` in hard mode, applied twice, gives the matrix it gives once. */
  lemma DenoiseHardIdempotent(g: Matrix, k: real)
    ensures DenoiseAll(DenoiseAll(g, k, false), k, false) == DenoiseAll(g, k, false)
  {
    var once := DenoiseAll(g, k, false);
    var twice := DenoiseAll(once, k, false);
    forall i | 0 <= i < |g|
      ensures twice[i] == once[i]
    {
      forall j | 0 <= j < |g[i]|
        ensures twice[i][j] == once[i][j]
      {
        HardIdempotent(g[i][j], k);
      }
    }
  }

  /** Soft mode with a non-negative `k` never enlarges any entry of the matrix. */
  lemma DenoiseSoftShrinks(g: Matrix, k: real, i: int, j: int)
    requires k >= 0.0 && 0 <= i < |g| && 0 <= j < |g[i]|
    ensures Abs(DenoiseAll(g, k, true)[i][j]) <= Abs(g[i][j])
    ensures -k <= g[i][j] <= k ==> DenoiseAll(g, k, true)[i][j] == g[i][j]
  {
    SoftShrinks(g[i][j], k);
  }

  /**
   * The lazy encoder's cutoff is never above the one asked for (for a
   * non-negative percentage) and is below it by less than 1/100.
   */
  lemma LazyEncodeCutBelow(ct: real)
    requires ct >= 0.0
    ensures LazyEncodeCut(ct) <= Cut(ct) < LazyEncodeCut(ct) + 0.01
  {
  }

  /**
   * An entry between the truncated cutoff and the asked-for one survives the
   * lazy encoder although `cutoff_reduce(img, ct)` would zero it.
   */
  lemma LazyEncodeKeepsMore()
    ensures LazyEncodeCut(2.5) == 0.02 && Cut(2.5) == 0.025
    ensures Hard(0.021, LazyEncodeCut(2.5)) == 0.021 && Hard(0.021, Cut(2.5)) == 0.0
  {
    assert TruncateToInt(2.5) == 2;
  }
}
