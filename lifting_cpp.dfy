/**
 * The C++ lifting ("lazy") wavelet transform of 3/lib/lazy/lifting.hpp: a
 * single-level 1D transform on the first `_len` entries of a row, and a 2D
 * transform that runs one level on rows, then (through a transpose) on columns,
 * moves the four parity bands into quadrants with the coarse band scaled by
 * `__c`, and recurses on the top-left quadrant.
 *
 * `cv::transpose`, the row loop and the transpose back are modelled as a column
 * pass on the untransposed image; `TransposedRowPass` shows the two agree.
 */
module LiftingCpp {
  import opened Images
  import opened LiftingSteps
  import opened LiftingPasses
  import opened Quadrants
  import opened Lifting2D

  // ---------------------------------------------------------------------
  // 1D: lazy_wavelet_reduce and lazy_wavelet_inverse
  // ---------------------------------------------------------------------

  /**
   * The rows the 1D functions accept: `_len` passes the power-of-two assertion
   * and, when a level is run, its `_len` entries lie inside the row.
   */
  predicate RowFits(n: int, len: int) {
    PowTest(len) && (len > 2 ==> len <= n)
  }

  /** The row `lazy_wavelet_reduce(row, len)` leaves behind. */
  function CLevel(s: seq<real>, len: int): (r: seq<real>)
    requires RowFits(|s|, len)
    ensures |r| == |s|
  {
    if len <= 2 then s else Step(s, len, ActiveEnd, true)
  }

  /** The row `lazy_wavelet_inverse(row, len)` leaves behind. */
  function CUnLevel(s: seq<real>, len: int): (r: seq<real>)
    requires RowFits(|s|, len)
    ensures |r| == |s|
  {
    if len <= 2 then s else Step(s, len, ActiveEnd, false)
  }

  /** A length of at most 2 leaves the row untouched. */
  lemma ShortLevel(s: seq<real>, len: int)
    requires RowFits(|s|, len) && len <= 2
    ensures CLevel(s, len) == s && CUnLevel(s, len) == s
  {
  }

  /** Only the first `len` entries are read: the rest of the row is carried over unchanged. */
  lemma {:induction false} CLevelPrefix(s: seq<real>, len: int)
    requires RowFits(|s|, len) && 0 <= len <= |s|
    ensures CLevel(s, len) == CLevel(s[..len], len) + s[len..]
    ensures CUnLevel(s, len) == CUnLevel(s[..len], len) + s[len..]
  {
    if len > 2 {
      var t := s[..len];
      assert LevelShape(|s|, len, len - 1) && LevelShape(|t|, len, len - 1);
      PredictPrefix(s, len);
      UpdatePrefix(Predict(s, len, len - 1), len);
      UnUpdatePrefix(s, len);
      UnPredictPrefix(UnUpdate(s, len, len - 1), len);
    }
  }

  lemma PredictPrefix(s: seq<real>, len: int)
    requires LevelShape(|s|, len, len - 1)
    ensures Predict(s, len, len - 1) == Predict(s[..len], len, len - 1) + s[len..]
  {
  }

  lemma UpdatePrefix(s: seq<real>, len: int)
    requires LevelShape(|s|, len, len - 1)
    ensures Update(s, len, len - 1) == Update(s[..len], len, len - 1) + s[len..]
  {
  }

  lemma UnUpdatePrefix(s: seq<real>, len: int)
    requires LevelShape(|s|, len, len - 1)
    ensures UnUpdate(s, len, len - 1) == UnUpdate(s[..len], len, len - 1) + s[len..]
  {
  }

  lemma UnPredictPrefix(s: seq<real>, len: int)
    requires LevelShape(|s|, len, len - 1)
    ensures UnPredict(s, len, len - 1) == UnPredict(s[..len], len, len - 1) + s[len..]
  {
  }

  /** `lazy_wavelet_inverse` undoes `lazy_wavelet_reduce` with the same length. */
  lemma CUnLevelOfCLevel(s: seq<real>, len: int)
    requires RowFits(|s|, len)
    ensures CUnLevel(CLevel(s, len), len) == s
  {
    if len > 2 {
      StepStep(s, len, ActiveEnd, true);
    }
  }

  /** `lazy_wavelet_reduce` undoes `lazy_wavelet_inverse` with the same length. */
  lemma CLevelOfCUnLevel(s: seq<real>, len: int)
    requires RowFits(|s|, len)
    ensures CLevel(CUnLevel(s, len), len) == s
  {
    if len > 2 {
      StepStep(s, len, ActiveEnd, false);
    }
  }

  /** The first `len` entries of `a`, in a fresh buffer (`__temp`). */
  method Head(a: array<real>, len: int) returns (temp: array<real>)
    requires 0 <= len <= a.Length
    ensures fresh(temp) && temp[..] == a[..len]
  {
    temp := new real[len](k requires 0 <= k < len reads a => a[k]);
  }

  /** `temp` written over the first `temp.Length` entries of `a`. */
  method PutHead(a: array<real>, temp: array<real>)
    requires a != temp && temp.Length <= a.Length
    modifies a
    ensures a[..] == temp[..] + old(a[temp.Length..])
  {
    forall k | 0 <= k < temp.Length {
      a[k] := temp[k];
    }
  }

  /** `lazy_wavelet_reduce(_arr, _len)`: one forward level on the first `_len` entries, in place. */
  method LazyWaveletReduce(arr: array<real>, len: int)
    requires RowFits(arr.Length, len)
    modifies arr
    ensures arr[..] == CLevel(old(arr[..]), len)
  {
    if len <= 2 {
      return;
    }
    ghost var s := arr[..];
    var temp := Head(arr, len);
    PredictInPlace(temp, len, len - 1);
    UpdateInPlace(temp, len, len - 1);
    PutHead(arr, temp);
    CLevelPrefix(s, len);
  }

  /** `lazy_wavelet_inverse(_arr, _len)`: the update, then the predict, undone on the first `_len` entries. */
  method LazyWaveletInverse(arr: array<real>, len: int)
    requires RowFits(arr.Length, len)
    modifies arr
    ensures arr[..] == CUnLevel(old(arr[..]), len)
  {
    if len <= 2 {
      return;
    }
    ghost var s := arr[..];
    var temp := Head(arr, len);
    UnUpdateInPlace(temp, len, len - 1);
    UnPredictInPlace(temp, len, len - 1);
    PutHead(arr, temp);
    CLevelPrefix(s, len);
  }

  // ---------------------------------------------------------------------
  // 2D: lazy_transform and lazy_inverse
  // ---------------------------------------------------------------------

  /** `__c`: 1.4 when `_scl` is set, 1 otherwise. */
  function BandScale(scl: bool): (c: real)
    ensures c > 0.0
  {
    if scl then 1.4 else 1.0
  }

  /**
   * The shapes on which `lazy_transform` stays inside the image and passes
   * the power-of-two assertions: a boundary shape, or two powers of two no
   * larger than either side, because rows are run with length `l1` and
   * (transposed) columns with length `l2`.
   */
  predicate CFits(l1: int, l2: int, h: int, w: int) {
    l1 <= 2 || l2 <= 2 || (IsPow2(l1) && IsPow2(l2) && l1 <= h && l1 <= w && l2 <= h && l2 <= w)
  }

  /**
   * The shapes on which `lazy_inverse` stays inside the image: the block fits
   * at this level, and at the swapped, halved shape of the next one.
   */
  predicate CInvFits(l1: int, l2: int, h: int, w: int)
    decreases Size(l1) + Size(l2)
  {
    l1 <= 2 || l2 <= 2 || (IsPow2(l1) && IsPow2(l2) && l1 <= h && l2 <= w && CInvFits(l2 / 2, l1 / 2, h, w))
  }

  /** The level after (`l1`, `l2`) works on (`l2`/2, `l1`/2): `Size(__l1/2, __l2/2)` is (width, height). */
  lemma CHalf(l1: int, l2: int, h: int, w: int)
    requires CFits(l1, l2, h, w) && l1 > 2 && l2 > 2
    ensures Fits(w, l1) && Fits(h, l2) && Fits(h, l1) && Fits(w, l2)
    ensures CFits(l2 / 2, l1 / 2, h, w)
  {
    Pow2Half(l1);
    Pow2Half(l2);
  }

  lemma CInvHalf(l1: int, l2: int, h: int, w: int)
    requires CInvFits(l1, l2, h, w) && l1 > 2 && l2 > 2
    ensures Fits(h, l1) && Fits(w, l2) && CInvFits(l2 / 2, l1 / 2, h, w)
  {
    Pow2Half(l1);
    Pow2Half(l2);
  }

  /** The image `lazy_transform(img, Size(l2, l1), scl)` leaves behind. */
  function CTransform(g: Matrix, l1: int, l2: int, scl: bool): (r: Matrix)
    requires IsMatrix(g, |g|, Width(g)) && CFits(l1, l2, |g|, Width(g))
    ensures IsMatrix(r, |g|, Width(g)) && Width(r) == Width(g)
    decreases Size(l1) + Size(l2)
  {
    if l2 <= 2 || l1 <= 2 then g
    else
      CHalf(l1, l2, |g|, Width(g));
      var rows := RowPass(g, l1, l1, ActiveEnd, true);
      var cols := ColPass(rows, l2, l2, ActiveEnd, true);
      CTransform(Quad(cols, l1, l2, ParityBands, BandScale(scl)), l2 / 2, l1 / 2, scl)
  }

  /** The image `lazy_inverse(img, Size(l2, l1), scl)` leaves behind. */
  function CInverse(g: Matrix, l1: int, l2: int, scl: bool): (r: Matrix)
    requires IsMatrix(g, |g|, Width(g)) && CInvFits(l1, l2, |g|, Width(g))
    ensures IsMatrix(r, |g|, Width(g)) && Width(r) == Width(g)
    decreases Size(l1) + Size(l2)
  {
    if l2 <= 2 || l1 <= 2 then g
    else
      CInvHalf(l1, l2, |g|, Width(g));
      var inner := CInverse(g, l2 / 2, l1 / 2, scl);
      var q := UnQuad(inner, l1, l2, ParityBands, BandScale(scl));
      var cols := ColPass(q, l2, l1, ActiveEnd, false);
      RowPass(cols, l1, l2, ActiveEnd, false)
  }

  /** Either side at most 2 is the base case of both directions: nothing changes. */
  lemma CBase(g: Matrix, l1: int, l2: int, scl: bool)
    requires IsMatrix(g, |g|, Width(g)) && (l1 <= 2 || l2 <= 2)
    ensures CTransform(g, l1, l2, scl) == g && CInverse(g, l1, l2, scl) == g
  {
  }

  /** A square shape `lazy_transform` accepts is one `lazy_inverse` accepts. */
  lemma {:induction false} SquareInvFits(l: int, h: int, w: int)
    requires CFits(l, l, h, w)
    ensures CInvFits(l, l, h, w) && Shape2DOk(l, l, h, w)
    decreases Size(l)
  {
    if l > 2 {
      CHalf(l, l, h, w);
      SquareInvFits(l / 2, h, w);
    }
  }

  /** On a square block the C++ forward transform is the shared one with wrap slot `_len-1` and parity bands. */
  lemma {:induction false} SquareTransform(g: Matrix, l: int, scl: bool)
    requires IsMatrix(g, |g|, Width(g)) && CFits(l, l, |g|, Width(g))
    ensures Shape2DOk(l, l, |g|, Width(g))
    ensures CTransform(g, l, l, scl) == Lift2D(g, l, l, ActiveEnd, ParityBands, BandScale(scl))
    decreases Size(l)
  {
    SquareInvFits(l, |g|, Width(g));
    if l > 2 {
      CHalf(l, l, |g|, Width(g));
      var rows := RowPass(g, l, l, ActiveEnd, true);
      var cols := ColPass(rows, l, l, ActiveEnd, true);
      SquareTransform(Quad(cols, l, l, ParityBands, BandScale(scl)), l / 2, scl);
    }
  }

  /** On a square block the C++ inverse transform is the shared one. */
  lemma {:induction false} SquareInverse(g: Matrix, l: int, scl: bool)
    requires IsMatrix(g, |g|, Width(g)) && CFits(l, l, |g|, Width(g))
    ensures CInvFits(l, l, |g|, Width(g)) && Shape2DOk(l, l, |g|, Width(g))
    ensures CInverse(g, l, l, scl) == Unlift2D(g, l, l, ActiveEnd, ParityBands, BandScale(scl))
    decreases Size(l)
  {
    SquareInvFits(l, |g|, Width(g));
    if l > 2 {
      CHalf(l, l, |g|, Width(g));
      SquareInverse(g, l / 2, scl);
    }
  }

  /**
   * For a square power-of-two block, `lazy_inverse` undoes `lazy_transform`
   * when both calls use the same `_scl`.
   */
  lemma CInverseOfCTransform(g: Matrix, l: int, scl: bool)
    requires IsMatrix(g, |g|, Width(g)) && CFits(l, l, |g|, Width(g))
    ensures CInvFits(l, l, |g|, Width(g))
    ensures CInverse(CTransform(g, l, l, scl), l, l, scl) == g
  {
    SquareTransform(g, l, scl);
    var t := CTransform(g, l, l, scl);
    SquareInverse(t, l, scl);
    Unlift2DOfLift2D(g, l, l, ActiveEnd, ParityBands, BandScale(scl));
  }

  /** For a square power-of-two block, `lazy_transform` undoes `lazy_inverse`. */
  lemma CTransformOfCInverse(g: Matrix, l: int, scl: bool)
    requires IsMatrix(g, |g|, Width(g)) && CFits(l, l, |g|, Width(g))
    ensures CInvFits(l, l, |g|, Width(g))
    ensures CTransform(CInverse(g, l, l, scl), l, l, scl) == g
  {
    SquareInverse(g, l, scl);
    var t := CInverse(g, l, l, scl);
    SquareTransform(t, l, scl);
    Lift2DOfUnlift2D(g, l, l, ActiveEnd, ParityBands, BandScale(scl));
  }

  /**
   * `lazy_transform(img, img.size())` on a non-square image whose sides are
   * powers of two above 2 leaves the image: the row pass runs with the
   * height as its length, the transposed pass with the width.
   */
  lemma NonSquareRejected(h: int, w: int)
    requires IsPow2(h) && IsPow2(w) && h > 2 && w > 2 && h != w
    ensures !CFits(h, w, h, w)
  {
  }

  /**
   * The evidently intended transform: rows run with the block's width `l2`,
   * columns with its height `l1`, and the recursion keeps (height, width)
   * order. Any block of powers of two that fits is accepted.
   */
  function FixedTransform(g: Matrix, l1: int, l2: int, scl: bool): (r: Matrix)
    requires IsMatrix(g, |g|, Width(g)) && Shape2DOk(l1, l2, |g|, Width(g))
    ensures IsMatrix(r, |g|, Width(g)) && Width(r) == Width(g)
  {
    Lift2D(g, l1, l2, ActiveEnd, ParityBands, BandScale(scl))
  }

  /** The inverse of `FixedTransform`. */
  function FixedInverse(g: Matrix, l1: int, l2: int, scl: bool): (r: Matrix)
    requires IsMatrix(g, |g|, Width(g)) && Shape2DOk(l1, l2, |g|, Width(g))
    ensures IsMatrix(r, |g|, Width(g)) && Width(r) == Width(g)
  {
    Unlift2D(g, l1, l2, ActiveEnd, ParityBands, BandScale(scl))
  }

  /** Where the code as written works on a square block, the corrected transform agrees with it. */
  lemma FixedAgreesOnSquares(g: Matrix, l: int, scl: bool)
    requires IsMatrix(g, |g|, Width(g)) && CFits(l, l, |g|, Width(g))
    ensures Shape2DOk(l, l, |g|, Width(g)) && CInvFits(l, l, |g|, Width(g))
    ensures FixedTransform(g, l, l, scl) == CTransform(g, l, l, scl)
    ensures FixedInverse(g, l, l, scl) == CInverse(g, l, l, scl)
  {
    SquareTransform(g, l, scl);
    SquareInverse(g, l, scl);
  }

  /** The corrected transform round-trips on every block of powers of two that fits, square or not. */
  lemma FixedRoundTrip(g: Matrix, l1: int, l2: int, scl: bool)
    requires IsMatrix(g, |g|, Width(g)) && Shape2DOk(l1, l2, |g|, Width(g))
    ensures FixedInverse(FixedTransform(g, l1, l2, scl), l1, l2, scl) == g
    ensures FixedTransform(FixedInverse(g, l1, l2, scl), l1, l2, scl) == g
  {
    Unlift2DOfLift2D(g, l1, l2, ActiveEnd, ParityBands, BandScale(scl));
    Lift2DOfUnlift2D(g, l1, l2, ActiveEnd, ParityBands, BandScale(scl));
  }

  /** `lazy_wavelet_reduce(_img.row(i), len).copyTo(_img.row(i))`, or the same with `lazy_wavelet_inverse`. */
  method RowLevel(img: array2<real>, i: int, len: int, forward: bool)
    requires 0 <= i < img.Length0 && Fits(img.Length1, len) && IsPow2(len) && len > 2
    modifies img
    ensures Grid(img) == old(Grid(img))[i := Step(old(Grid(img))[i], len, ActiveEnd, forward)]
  {
    var n := img.Length1;
    var row := new real[n](k requires 0 <= k < n reads img => img[i, k]);
    assert row[..] == Grid(img)[i];
    if forward {
      LazyWaveletReduce(row, len);
    } else {
      LazyWaveletInverse(row, len);
    }
    WriteRow(img, i, row);
  }

  /** Row `j` of the transposed image through one level: column `j` of `img`. */
  method ColLevel(img: array2<real>, j: int, len: int, forward: bool)
    requires 0 <= j < img.Length1 && Fits(img.Length0, len) && IsPow2(len) && len > 2
    modifies img
    ensures Grid(img) == SetCol(old(Grid(img)), j, Step(Col(old(Grid(img)), j), len, ActiveEnd, forward))
  {
    var n := img.Length0;
    var col := new real[n](k requires 0 <= k < n reads img => img[k, j]);
    assert col[..] == Col(Grid(img), j);
    if forward {
      LazyWaveletReduce(col, len);
    } else {
      LazyWaveletInverse(col, len);
    }
    WriteCol(img, j, col);
  }

  /** The loop over the first `rows` rows, each through one level of length `len`. */
  method RowsLevel(img: array2<real>, rows: int, len: int, forward: bool)
    requires 0 < rows <= img.Length0 && Fits(img.Length1, len) && IsPow2(len) && len > 2
    modifies img
    ensures Grid(img) == RowPass(old(Grid(img)), rows, len, ActiveEnd, forward)
  {
    ghost var g0 := Grid(img);
    RowPassNone(g0, len, ActiveEnd, forward);
    var i := 0;
    while i < rows
      invariant 0 <= i <= rows
      invariant Grid(img) == RowPass(g0, i, len, ActiveEnd, forward)
    {
      RowLevel(img, i, len, forward);
      RowPassNext(g0, i, len, ActiveEnd, forward);
      i := i + 1;
    }
  }

  /**
   * `transpose`, the loop over the first `cols` rows of the transposed image,
   * and `transpose` back: a pass over the first `cols` columns (the two agree
   * by `LiftingPasses.TransposedRowPass`).
   */
  method ColsLevel(img: array2<real>, cols: int, len: int, forward: bool)
    requires 0 < cols <= img.Length1 && Fits(img.Length0, len) && IsPow2(len) && len > 2
    modifies img
    ensures Grid(img) == ColPass(old(Grid(img)), cols, len, ActiveEnd, forward)
  {
    ghost var g0 := Grid(img);
    assert Width(g0) == img.Length1 && |g0| == img.Length0;
    ColPassNone(g0, len, ActiveEnd, forward);
    var j := 0;
    while j < cols
      invariant 0 <= j <= cols
      invariant Grid(img) == ColPass(g0, j, len, ActiveEnd, forward)
    {
      NextCol(img, g0, j, len, forward);
      j := j + 1;
    }
  }

  /** One more column of the pass over `g0`. */
  method NextCol(img: array2<real>, ghost g0: Matrix, j: int, len: int, forward: bool)
    requires 0 <= j < img.Length1 && Fits(img.Length0, len) && IsPow2(len) && len > 2
    requires IsMatrix(g0, img.Length0, img.Length1) && Grid(img) == ColPass(g0, j, len, ActiveEnd, forward)
    modifies img
    ensures Grid(img) == ColPass(g0, j + 1, len, ActiveEnd, forward)
  {
    assert Width(g0) == img.Length1;
    ColPassNext(g0, j, len, ActiveEnd, forward);
    ColLevel(img, j, len, forward);
  }

  /** `lazy_transform(img, Size(l2, l1), scl)`: in place. */
  method LazyTransform(img: array2<real>, l1: int, l2: int, scl: bool)
    requires CFits(l1, l2, img.Length0, img.Length1)
    modifies img
    ensures Grid(img) == CTransform(old(Grid(img)), l1, l2, scl)
    decreases Size(l1) + Size(l2)
  {
    var c := if scl then 1.4 else 1.0;
    if l2 <= 2 || l1 <= 2 {
      return;
    }
    CHalf(l1, l2, img.Length0, img.Length1);
    RowsLevel(img, l1, l1, true);
    ColsLevel(img, l2, l2, true);
    Reorganise(img, l1, l2, c);
    LazyTransform(img, l2 / 2, l1 / 2, scl);
  }

  /** `lazy_inverse(img, Size(l2, l1), scl)`: in place. */
  method LazyInverse(img: array2<real>, l1: int, l2: int, scl: bool)
    requires CInvFits(l1, l2, img.Length0, img.Length1)
    modifies img
    ensures Grid(img) == CInverse(old(Grid(img)), l1, l2, scl)
    decreases Size(l1) + Size(l2)
  {
    var c := if scl then 1.4 else 1.0;
    if l2 <= 2 || l1 <= 2 {
      return;
    }
    CInvHalf(l1, l2, img.Length0, img.Length1);
    LazyInverse(img, l2 / 2, l1 / 2, scl);
    Restore(img, l1, l2, c);
    ColsLevel(img, l2, l1, false);
    RowsLevel(img, l1, l2, false);
  }
}
