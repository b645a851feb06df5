/**
 * The spatial filters of 1/image_enhancement.cpp: the kernel constructors,
 * and `apply_filter`, which slides a kernel (or a 7 by 7 median window) over
 * a greyscale image and writes a fresh image, leaving a border of zeros.
 */
module Filters {
  import opened Wrappers
  import opened Images

  datatype FilterError = BoostBelowOne | BadOrientation

  // Kernel constructors

  /** The sizes `average_filter_i` accepts: odd and at least 3. */
  predicate AverageSize(size: int) {
    size >= 3 && size % 2 == 1
  }

  /**
   * `average_filter_i(_filter, _size)`: a `_size` by `_size` kernel of
   * 1/`_size`^2. Any other size throws an exception that the function
   * catches itself, so `_filter` keeps what it held (`current`).
   */
  function AverageFilterI(current: Matrix, size: int): (f: Matrix)
    ensures AverageSize(size) ==> IsMatrix(f, size, size)
    ensures AverageSize(size) ==> forall i, j :: 0 <= i < size && 0 <= j < size ==> f[i][j] * (size * size) as real == 1.0
    ensures !AverageSize(size) ==> f == current
  {
    // `(_size-1)%2` is non-zero exactly when `_size` is even, for either sign.
    if (size - 1) % 2 != 0 || size < 3 then current
    else
      var n := size * size;
      Reciprocal(n);
      seq(size, _ => seq(size, _ => 1.0 / n as real))
  }

  lemma Reciprocal(n: int)
    requires n > 0
    ensures (1.0 / n as real) * n as real == 1.0
  {
  }

  /** `average_filter_ii`: the fixed 3 by 3 kernel weighting the centre 4, edge neighbours 2 and corners 1, over 16. */
  function AverageFilterII(): (f: Matrix)
    ensures IsMatrix(f, 3, 3)
  {
    [[1.0 / 16.0, 2.0 / 16.0, 1.0 / 16.0],
     [2.0 / 16.0, 4.0 / 16.0, 2.0 / 16.0],
     [1.0 / 16.0, 2.0 / 16.0, 1.0 / 16.0]]
  }

  /** `boosting_filter_i`: the four-neighbour Laplacian with `4 + _boost` at the centre; it throws for `_boost` < 1. */
  function BoostingFilterI(boost: real): (r: Result<Matrix, FilterError>)
    ensures r.Err? <==> boost < 1.0
    ensures r.Ok? ==> IsMatrix(r.value, 3, 3) && r.value[1][1] == 4.0 + boost
  {
    if boost < 1.0 then Err(BoostBelowOne)
    else Ok([[0.0, -1.0, 0.0], [-1.0, 4.0 + boost, -1.0], [0.0, -1.0, 0.0]])
  }

  /** `boosting_filter_ii`: the eight-neighbour Laplacian with `8 + _boost` at the centre; it throws for `_boost` < 1. */
  function BoostingFilterII(boost: real): (r: Result<Matrix, FilterError>)
    ensures r.Err? <==> boost < 1.0
    ensures r.Ok? ==> IsMatrix(r.value, 3, 3) && r.value[1][1] == 8.0 + boost
  {
    if boost < 1.0 then Err(BoostBelowOne)
    else Ok([[-1.0, -1.0, -1.0], [-1.0, 8.0 + boost, -1.0], [-1.0, -1.0, -1.0]])
  }

  /** `prewitt`: the horizontal-edge kernel for 'H', the vertical one for 'V'; any other orientation throws. */
  function Prewitt(orientation: char): (r: Result<Matrix, FilterError>)
    ensures r.Err? <==> orientation != 'H' && orientation != 'V'
    ensures r.Ok? ==> IsMatrix(r.value, 3, 3)
  {
    if orientation == 'H' then Ok([[-1.0, -1.0, -1.0], [0.0, 0.0, 0.0], [1.0, 1.0, 1.0]])
    else if orientation == 'V' then Ok([[-1.0, 0.0, 1.0], [-1.0, 0.0, 1.0], [-1.0, 0.0, 1.0]])
    else Err(BadOrientation)
  }

  /** `sobel`: as `prewitt`, with weight 2 on the middle of each row or column. */
  function Sobel(orientation: char): (r: Result<Matrix, FilterError>)
    ensures r.Err? <==> orientation != 'H' && orientation != 'V'
    ensures r.Ok? ==> IsMatrix(r.value, 3, 3)
  {
    if orientation == 'H' then Ok([[-1.0, -2.0, -1.0], [0.0, 0.0, 0.0], [1.0, 2.0, 1.0]])
    else if orientation == 'V' then Ok([[-1.0, 0.0, 1.0], [-2.0, 0.0, 2.0], [-1.0, 0.0, 1.0]])
    else Err(BadOrientation)
  }

  // Kernel sums

  lemma {:induction false} RowSumConstant(s: seq<real>, v: real)
    requires forall j :: 0 <= j < |s| ==> s[j] == v
    ensures RowSum(s) == |s| as real * v
  {
    if |s| > 0 {
      RowSumConstant(s[..|s| - 1], v);
    }
  }

  lemma {:induction false} TotalConstant(g: Matrix, h: nat, w: nat, v: real)
    requires IsMatrix(g, h, w) && forall i, j :: 0 <= i < h && 0 <= j < w ==> g[i][j] == v
    ensures Total(g) == h as real * (w as real * v)
  {
    if h > 0 {
      TotalConstant(g[..h - 1], h - 1, w, v);
      RowSumConstant(g[h - 1], v);
      assert Total(g) == Total(g[..h - 1]) + RowSum(g[h - 1]);
      ScaledSum(h as real, (h - 1) as real, 1.0, w as real * v);
    }
  }

  /** `s * (s * (1 / s^2)) == 1`. */
  lemma SquareReciprocal(s: int)
    requires s > 0
    ensures s as real * (s as real * (1.0 / (s * s) as real)) == 1.0
  {
    var x := s as real;
    assert (s * s) as real == x * x;
    calc {
      x * (x * (1.0 / (x * x)));
      (x * x) * (1.0 / (x * x));
      1.0;
    }
  }

  /** Scaling distributes over a sum. */
  lemma ScaledSum(t: real, x: real, y: real, v: real)
    requires t == x + y
    ensures t * v == x * v + y * v
  {
  }

  lemma RowSum3(s: seq<real>)
    requires |s| == 3
    ensures RowSum(s) == s[0] + s[1] + s[2]
  {
    assert s[..1][..0] == [];
    assert RowSum(s[..1]) == s[0];
    assert s[..2][..1] == s[..1];
    assert RowSum(s[..2]) == s[0] + s[1];
  }

  lemma Total3(g: Matrix)
    requires IsMatrix(g, 3, 3)
    ensures Total(g) == g[0][0] + g[0][1] + g[0][2] + g[1][0] + g[1][1] + g[1][2] + g[2][0] + g[2][1] + g[2][2]
  {
    RowSum3(g[0]);
    assert g[..1][..0] == [];
    assert Total(g[..1]) == RowSum(g[0]);
    assert g[..2][..1] == g[..1];
    assert Total(g[..2]) == RowSum(g[0]) + RowSum(g[1]);
    RowSum3(g[1]);
    RowSum3(g[2]);
  }

  /** The `_size` by `_size` averaging kernel sums to 1, so it keeps a flat image's level. */
  lemma AverageFilterISumsToOne(current: Matrix, size: int)
    requires AverageSize(size)
    ensures Total(AverageFilterI(current, size)) == 1.0
  {
    var f := AverageFilterI(current, size);
    var v := 1.0 / (size * size) as real;
    assert forall i, j :: 0 <= i < size && 0 <= j < size ==> f[i][j] == v;
    TotalConstant(f, size, size, v);
    SquareReciprocal(size);
  }

  /** The weighted 3 by 3 averaging kernel sums to 1. */
  lemma AverageFilterIISumsToOne()
    ensures Total(AverageFilterII()) == 1.0
  {
    Total3(AverageFilterII());
  }

  /** The boosting kernels sum to the boost. */
  lemma BoostingFiltersSumToBoost(boost: real)
    requires boost >= 1.0
    ensures Total(BoostingFilterI(boost).value) == boost
    ensures Total(BoostingFilterII(boost).value) == boost
  {
    Total3(BoostingFilterI(boost).value);
    Total3(BoostingFilterII(boost).value);
  }

  /** The edge kernels sum to 0, and each vertical kernel is the transpose of the horizontal one. */
  lemma EdgeFilters()
    ensures Total(Prewitt('H').value) == 0.0 && Total(Prewitt('V').value) == 0.0
    ensures Total(Sobel('H').value) == 0.0 && Total(Sobel('V').value) == 0.0
    ensures Transpose(Prewitt('H').value) == Prewitt('V').value
    ensures Transpose(Sobel('H').value) == Sobel('V').value
  {
    Total3(Prewitt('H').value);
    Total3(Prewitt('V').value);
    Total3(Sobel('H').value);
    Total3(Sobel('V').value);
    MatrixEq(Transpose(Prewitt('H').value), Prewitt('V').value, 3, 3);
    MatrixEq(Transpose(Sobel('H').value), Sobel('V').value, 3, 3);
  }

  // Applying a filter

  /** `(flen-1)/2` with C++ division: 0 for an empty kernel. */
  function Pad(flen: nat): (pad: nat)
    ensures 2 * pad <= flen
    ensures flen % 2 == 1 ==> 2 * pad + 1 == flen
  {
    if flen == 0 then 0 else (flen - 1) / 2
  }

  /** The pixels `apply_filter` computes: those at least `pad` away from every border. */
  predicate Inside(r: int, c: int, h: int, w: int, pad: int) {
    pad <= r < h - pad && pad <= c < w - pad
  }

  /** Kernel row `k` against the window at (i, j), over its first `l` columns. */
  function ConvRow(f: Matrix, g: ByteMatrix, i: int, j: int, pad: int, k: int, l: nat): real {
    if l == 0 then 0.0
    else ConvRow(f, g, i, j, pad, k, l - 1) + At(f, k, l - 1) * ByteAt(g, i + k - pad, j + l - 1 - pad) as real
  }

  /** The convolution sum at (i, j) over the first `k` kernel rows of width `flen`. */
  function Conv(f: Matrix, g: ByteMatrix, i: int, j: int, pad: int, k: nat, flen: nat): real {
    if k == 0 then 0.0 else Conv(f, g, i, j, pad, k - 1, flen) + ConvRow(f, g, i, j, pad, k - 1, flen)
  }

  /** A sum written to the output: 0 when not positive, else capped at 255 and truncated. */
  function ClampToByte(v: real): (b: Byte)
    ensures v <= 0.0 ==> b == 0
    ensures 0.0 < v <= 255.0 ==> b as real <= v < b as real + 1.0
    ensures v >= 255.0 ==> b == 255
  {
    if v <= 0.0 then 0 else if v < 255.0 then v.Floor else 255
  }

  /** Sortedness of a byte sequence. */
  predicate Sorted(s: seq<Byte>) {
    forall p, q :: 0 <= p < q < |s| ==> s[p] <= s[q]
  }

  /** `x` put in front of the first entry it does not exceed. */
  function Insert(x: Byte, s: seq<Byte>): (r: seq<Byte>)
    ensures |r| == |s| + 1
  {
    if |s| == 0 || x <= s[0] then [x] + s
    else [s[0]] + Insert(x, s[1..])
  }

  /** Inserting into a sorted sequence keeps it sorted and adds exactly `x`. */
  lemma {:induction false} InsertSorted(x: Byte, s: seq<Byte>)
    requires Sorted(s)
    ensures Sorted(Insert(x, s)) && multiset(Insert(x, s)) == multiset(s) + multiset{x}
  {
    if |s| == 0 || x <= s[0] {
      assert forall k :: 0 <= k < |s| ==> s[0] <= s[k];
      SortedCons(x, s);
      assert Insert(x, s) == [x] + s;
    } else {
      InsertSorted(x, s[1..]);
      var tail := Insert(x, s[1..]);
      assert Insert(x, s) == [s[0]] + tail;
      SortedTail(s);
      LowerBound(s[0], tail, s[1..], x);
      SortedCons(s[0], tail);
    }
  }

  /** A value at most every entry of a sorted sequence can go in front. */
  lemma {:induction false} SortedCons(v: Byte, t: seq<Byte>)
    requires Sorted(t) && forall k :: 0 <= k < |t| ==> v <= t[k]
    ensures Sorted([v] + t)
  {
    var r := [v] + t;
    forall p, q | 0 <= p < q < |r|
      ensures r[p] <= r[q]
    {
      assert r[q] == t[q - 1];
      if p > 0 {
        assert r[p] == t[p - 1];
      }
    }
  }

  /** A lower bound of `s` and of `x` bounds every entry of a sequence holding exactly them. */
  lemma {:induction false} LowerBound(v: Byte, t: seq<Byte>, s: seq<Byte>, x: Byte)
    requires multiset(t) == multiset(s) + multiset{x} && v <= x
    requires forall k :: 0 <= k < |s| ==> v <= s[k]
    ensures forall k :: 0 <= k < |t| ==> v <= t[k]
  {
    forall k | 0 <= k < |t|
      ensures v <= t[k]
    {
      assert t[k] in multiset(t);
      if t[k] != x {
        assert t[k] in multiset(s);
        var i :| 0 <= i < |s| && s[i] == t[k];
      }
    }
  }

  /** The sorted arrangement of a sequence (the result of `std::sort`). */
  function Sort(s: seq<Byte>): (r: seq<Byte>)
    ensures Sorted(r) && multiset(r) == multiset(s) && |r| == |s|
  {
    if |s| == 0 then []
    else
      assert s == s[..|s| - 1] + [s[|s| - 1]];
      InsertSorted(s[|s| - 1], Sort(s[..|s| - 1]));
      Insert(s[|s| - 1], Sort(s[..|s| - 1]))
  }

  /**
   * A sequence has exactly one sorted arrangement: whatever algorithm
   * `std::sort` uses, its result is `Sort`.
   */
  lemma {:induction false} SortedUnique(a: seq<Byte>, b: seq<Byte>)
    requires Sorted(a) && Sorted(b) && multiset(a) == multiset(b)
    ensures a == b
  {
    assert |b| == |multiset(b)| == |multiset(a)| == |a|;
    if |a| > 0 {
      assert a[0] in multiset(b) && b[0] in multiset(a);
      SortedFirst(a, b[0]);
      SortedFirst(b, a[0]);
      assert a == [a[0]] + a[1..];
      assert b == [b[0]] + b[1..];
      assert a[0] == b[0];
      SortedTail(a);
      SortedTail(b);
      assert multiset(a[1..]) == multiset(b[1..]);
      SortedUnique(a[1..], b[1..]);
    }
  }

  /** The first entry of a sorted sequence is its least. */
  lemma {:induction false} SortedFirst(a: seq<Byte>, v: Byte)
    requires Sorted(a) && v in multiset(a)
    ensures |a| > 0 && a[0] <= v
  {
    var i :| 0 <= i < |a| && a[i] == v;
  }

  /** Dropping the first entry keeps a sorted sequence sorted and removes one copy from its multiset. */
  lemma {:induction false} SortedTail(a: seq<Byte>)
    requires Sorted(a) && |a| > 0
    ensures Sorted(a[1..]) && multiset(a[1..]) == multiset(a) - multiset{a[0]}
  {
    assert a == [a[0]] + a[1..];
  }

  /** Side of the median window, and the index of the median among its sorted values. */
  const MedianSide := 7
  const MedianIndex := 24

  /** The 7 by 7 window at (i, j), in the order `apply_filter` fills `_tab`: slot `l*7+k` holds offset (k, l). */
  function Window(g: ByteMatrix, i: int, j: int): (s: seq<Byte>)
    ensures |s| == MedianSide * MedianSide
  {
    seq(MedianSide * MedianSide, t => ByteAt(g, i + t % MedianSide - 3, j + t / MedianSide - 3))
  }

  /** The middle value of a window: element 24 of its 49 values in sorted order. */
  function Median(s: seq<Byte>): (m: Byte)
    requires |s| == MedianSide * MedianSide
    ensures m in multiset(s)
  {
    var t := Sort(s);
    assert t[MedianIndex] in multiset(t);
    t[MedianIndex]
  }

  /**
   * The median has at least 25 of the 49 window values at or below it and
   * at least 25 at or above it, in any sorted arrangement of the window.
   */
  lemma MedianIsMiddle(s: seq<Byte>, t: seq<Byte>)
    requires |s| == MedianSide * MedianSide && Sorted(t) && multiset(t) == multiset(s)
    ensures t[MedianIndex] == Median(s)
    ensures forall p :: 0 <= p <= MedianIndex ==> t[p] <= Median(s)
    ensures forall p :: MedianIndex <= p < |t| ==> t[p] >= Median(s)
  {
    SortedUnique(t, Sort(s));
  }

  /** A flat window has its own value as its median. */
  lemma MedianOfFlat(s: seq<Byte>, v: Byte)
    requires |s| == MedianSide * MedianSide && forall p :: 0 <= p < |s| ==> s[p] == v
    ensures Median(s) == v
  {
    assert Median(s) in multiset(s);
  }

  /** What `apply_filter` writes at (r, c). */
  function Filtered(f: Matrix, g: ByteMatrix, r: int, c: int, med: bool): Byte {
    var flen := if med then MedianSide else |f|;
    var pad := Pad(flen);
    if !Inside(r, c, |g|, if |g| == 0 then 0 else |g[0]|, pad) then 0
    else if med then Median(Window(g, r, c))
    else ClampToByte(Conv(f, g, r, c, pad, flen, flen))
  }

  /** The kernels `apply_filter` can run: square, with an odd side or empty. */
  predicate Runnable(f: Matrix) {
    IsMatrix(f, |f|, |f|) && (|f| == 0 || |f| % 2 == 1)
  }

  /** A flat image: every pixel has value `v`. */
  predicate Flat(g: ByteMatrix, v: Byte) {
    forall r, c :: 0 <= r < |g| && 0 <= c < |g[r]| ==> g[r][c] == v
  }

  lemma {:induction false} ConvRowFlat(f: Matrix, g: ByteMatrix, h: int, w: int, v: Byte, i: int, j: int, pad: int, k: int, l: nat)
    requires Flat(g, v) && IsByteMatrix(g, h, w) && IsMatrix(f, |f|, |f|) && 0 <= k < |f| && l <= |f|
    requires 0 <= i + k - pad < h && 0 <= j - pad && j + l - pad <= w
    ensures ConvRow(f, g, i, j, pad, k, l) == RowSum(f[k][..l]) * v as real
  {
    if l > 0 {
      ConvRowFlat(f, g, h, w, v, i, j, pad, k, l - 1);
      assert f[k][..l][..l - 1] == f[k][..l - 1];
      assert ByteAt(g, i + k - pad, j + l - 1 - pad) == v;
    }
  }

  lemma {:induction false} ConvFlat(f: Matrix, g: ByteMatrix, h: int, w: int, v: Byte, i: int, j: int, k: nat)
    requires Flat(g, v) && IsByteMatrix(g, h, w) && Runnable(f) && k <= |f|
    requires Inside(i, j, h, w, Pad(|f|))
    ensures Conv(f, g, i, j, Pad(|f|), k, |f|) == Total(f[..k]) * v as real
  {
    if k > 0 {
      ConvFlat(f, g, h, w, v, i, j, k - 1);
      ConvRowFlat(f, g, h, w, v, i, j, Pad(|f|), k - 1, |f|);
      assert f[k - 1][..|f|] == f[k - 1];
      ConvScaled(f, g, i, j, Pad(|f|), k, v as real);
    }
  }

  /** One more kernel row, each sum so far being the kernel's sum times `v`. */
  lemma ConvScaled(f: Matrix, g: ByteMatrix, i: int, j: int, pad: int, k: nat, v: real)
    requires 0 < k <= |f|
    requires Conv(f, g, i, j, pad, k - 1, |f|) == Total(f[..k - 1]) * v
    requires ConvRow(f, g, i, j, pad, k - 1, |f|) == RowSum(f[k - 1]) * v
    ensures Conv(f, g, i, j, pad, k, |f|) == Total(f[..k]) * v
  {
    assert f[..k][..k - 1] == f[..k - 1];
    assert Total(f[..k]) == Total(f[..k - 1]) + RowSum(f[k - 1]);
    ScaledSum(Total(f[..k]), Total(f[..k - 1]), RowSum(f[k - 1]), v);
  }

  /**
   * On a flat image of value `v` every computed pixel is `v` times the
   * kernel's sum, clamped: the averaging kernels keep `v`, the edge kernels
   * give 0.
   */
  lemma FlatConvolution(f: Matrix, g: ByteMatrix, h: int, w: int, v: Byte, i: int, j: int)
    requires Flat(g, v) && IsByteMatrix(g, h, w) && Runnable(f)
    requires Inside(i, j, h, w, Pad(|f|))
    ensures Filtered(f, g, i, j, false) == ClampToByte(Total(f) * v as real)
  {
    FilteredInside(f, g, h, w, i, j);
    ConvFull(f, g, h, w, v, i, j);
  }

  /** On a flat image the averaging kernel keeps the level and the edge kernels find no edge. */
  lemma FlatThroughKernels(g: ByteMatrix, h: int, w: int, v: Byte, i: int, j: int, orientation: char)
    requires Flat(g, v) && IsByteMatrix(g, h, w) && Inside(i, j, h, w, 1)
    requires orientation == 'H' || orientation == 'V'
    ensures Filtered(AverageFilterII(), g, i, j, false) == v
    ensures Filtered(Prewitt(orientation).value, g, i, j, false) == 0
    ensures Filtered(Sobel(orientation).value, g, i, j, false) == 0
  {
    AverageFilterIISumsToOne();
    EdgeFilters();
    FlatConvolution(AverageFilterII(), g, h, w, v, i, j);
    FlatConvolution(Prewitt(orientation).value, g, h, w, v, i, j);
    FlatConvolution(Sobel(orientation).value, g, h, w, v, i, j);
  }

  lemma FilteredInside(f: Matrix, g: ByteMatrix, h: int, w: int, i: int, j: int)
    requires IsByteMatrix(g, h, w) && Runnable(f)
    requires Inside(i, j, h, w, Pad(|f|))
    ensures Filtered(f, g, i, j, false) == ClampToByte(Conv(f, g, i, j, Pad(|f|), |f|, |f|))
  {
    assert |g[0]| == w;
  }

  lemma ConvFull(f: Matrix, g: ByteMatrix, h: int, w: int, v: Byte, i: int, j: int)
    requires Flat(g, v) && IsByteMatrix(g, h, w) && Runnable(f)
    requires Inside(i, j, h, w, Pad(|f|))
    ensures Conv(f, g, i, j, Pad(|f|), |f|, |f|) == Total(f) * v as real
  {
    ConvFlat(f, g, h, w, v, i, j, |f|);
    assert f[..|f|] == f;
  }

  /** On a flat image of value `v` the median filter gives `v` wherever it computes. */
  lemma FlatMedian(f: Matrix, g: ByteMatrix, h: int, w: int, v: Byte, i: int, j: int)
    requires Flat(g, v) && IsByteMatrix(g, h, w)
    requires Inside(i, j, h, w, Pad(MedianSide))
    ensures Filtered(f, g, i, j, true) == v
  {
    var s := Window(g, i, j);
    forall t | 0 <= t < |s|
      ensures s[t] == v
    {
      assert 0 <= t % MedianSide < MedianSide && 0 <= t / MedianSide < MedianSide;
    }
    MedianOfFlat(s, v);
  }

  /**
   * `apply_filter(_img, _filter, _new_img, _med)`: a fresh zero image of
   * the input's size whose pixels at least `pad` from the border get the
   * clamped convolution sum, or the window median when `_med` is set (the
   * kernel is then not read).
   */
  method ApplyFilter(img: array2<Byte>, f: Matrix, med: bool) returns (out: array2<Byte>)
    requires !med ==> Runnable(f)
    ensures fresh(out) && out.Length0 == img.Length0 && out.Length1 == img.Length1
    ensures forall r, c :: 0 <= r < img.Length0 && 0 <= c < img.Length1 ==> out[r, c] == Filtered(f, ByteGrid(img), r, c, med)
  {
    var h, w := img.Length0, img.Length1;
    var flen := if med then MedianSide else |f|;
    var pad := Pad(flen);
    ghost var g := ByteGrid(img);
    out := new Byte[h, w]((r, c) => 0);
    var i := pad;
    while i < h - pad
      invariant pad <= i
      invariant forall r, c :: 0 <= r < h && 0 <= c < w ==>
        out[r, c] == if r < i then Filtered(f, g, r, c, med) else 0
    {
      var j := pad;
      while j < w - pad
        invariant pad <= j
        invariant forall r, c :: 0 <= r < h && 0 <= c < w ==>
          out[r, c] == if r < i || (r == i && c < j) then Filtered(f, g, r, c, med) else 0
      {
        if med {
          out[i, j] := MedianAt(img, i, j);
        } else {
          var val := ConvolveAt(img, f, i, j);
          out[i, j] := ClampToByte(val);
        }
        j := j + 1;
      }
      i := i + 1;
    }
  }

  /** An odd kernel side is twice the padding plus one. */
  lemma PadOdd(flen: nat)
    requires flen % 2 == 1
    ensures 2 * Pad(flen) + 1 == flen
  {
  }

  /** The convolution loops at (i, j): the running sum over kernel rows, then columns. */
  method ConvolveAt(img: array2<Byte>, f: Matrix, i: int, j: int) returns (val: real)
    requires Runnable(f)
    requires Inside(i, j, img.Length0, img.Length1, Pad(|f|))
    ensures val == Conv(f, ByteGrid(img), i, j, Pad(|f|), |f|, |f|)
  {
    var flen, pad := |f|, Pad(|f|);
    val := 0.0;
    for k := 0 to flen
      invariant val == Conv(f, ByteGrid(img), i, j, pad, k, flen)
    {
      val := ConvolveRow(img, f, i, j, k, val);
    }
  }

  /** The inner loop over the columns of kernel row `k`, added to `before`. */
  method ConvolveRow(img: array2<Byte>, f: Matrix, i: int, j: int, k: nat, before: real) returns (val: real)
    requires Runnable(f) && k < |f|
    requires Inside(i, j, img.Length0, img.Length1, Pad(|f|))
    ensures val == before + ConvRow(f, ByteGrid(img), i, j, Pad(|f|), k, |f|)
  {
    var flen, pad := |f|, Pad(|f|);
    PadOdd(flen);
    ghost var g := ByteGrid(img);
    val := before;
    for l := 0 to flen
      invariant val == before + ConvRow(f, g, i, j, pad, k, l)
    {
      assert 0 <= i + k - pad < img.Length0 && 0 <= j + l - pad < img.Length1;
      var prod := f[k][l] * img[i + k - pad, j + l - pad] as real;
      val := val + prod;
    }
  }

  /** The median branch at (i, j): fill `_tab` column by column, sort it, take element 24. */
  method MedianAt(img: array2<Byte>, i: int, j: int) returns (v: Byte)
    requires Inside(i, j, img.Length0, img.Length1, Pad(MedianSide))
    ensures v == Median(Window(ByteGrid(img), i, j))
  {
    ghost var g := ByteGrid(img);
    var tab := new Byte[MedianSide * MedianSide];
    for k := 0 to MedianSide
      invariant forall t :: 0 <= t < MedianSide * MedianSide && t % MedianSide < k ==> tab[t] == Window(g, i, j)[t]
    {
      for l := 0 to MedianSide
        invariant forall t :: 0 <= t < MedianSide * MedianSide && (t % MedianSide < k || (t % MedianSide == k && t / MedianSide < l)) ==>
          tab[t] == Window(g, i, j)[t]
      {
        SlotOf(k, l);
        tab[l * MedianSide + k] := img[i + k - 3, j + l - 3];
      }
    }
    assert tab[..] == Window(g, i, j);
    var sorted := Sort(tab[..]);
    v := sorted[MedianIndex];
  }

  lemma SlotOf(k: int, l: int)
    requires 0 <= k < MedianSide && 0 <= l < MedianSide
    ensures (l * MedianSide + k) % MedianSide == k && (l * MedianSide + k) / MedianSide == l
    ensures 0 <= l * MedianSide + k < MedianSide * MedianSide
  {
  }
}
