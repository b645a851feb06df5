/**
 * The Python lifting ("lazy") wavelet transform of 3/lib/lazy_wavelet.py: a
 * recursive 1D transform that reorders each level to evens-then-odds, and a 2D
 * transform that runs one level on rows and columns, reorganises the quadrants
 * and recurses on the top-left one.
 */
module LazyWaveletPy {
  import opened Wrappers
  import opened Images
  import opened LiftingSteps
  import opened LiftingPasses
  import opened Quadrants
  import opened Lifting2D

  /** The exceptions of the 1D functions: the power-of-two assertion, or a numpy index or shape error. */
  datatype LiftError = NotPowerOfTwo | OutOfRange

  /** A call with an explicit `_len` of at most 2 returns its argument at once. */
  predicate Trivial(lenArg: Option<int>) {
    lenArg.Some? && lenArg.value <= 2
  }

  /** The length a call works on: `_len`, or the array's length when `_len` is None. */
  function ActiveLength(n: int, lenArg: Option<int>): int {
    if lenArg.Some? then lenArg.value else n
  }

  /** The calls that return normally: trivial ones, and lengths of 2 or more that are powers of two and fit. */
  predicate Accepts(n: int, lenArg: Option<int>) {
    var len := ActiveLength(n, lenArg);
    Trivial(lenArg) || (PowTest(len) && 2 <= len <= n)
  }

  function Measure(n: nat, lenArg: Option<int>): nat {
    if lenArg.Some? then (if lenArg.value < 0 then 0 else lenArg.value) else n + 1
  }

  /** What `lazy_wavelet_reduce(s, _len, _recurse)` returns or raises. */
  function ReduceSpec(s: seq<real>, lenArg: Option<int>, recurse: bool): (r: Result<seq<real>, LiftError>)
    ensures r.Ok? <==> Accepts(|s|, lenArg)
    ensures r.Err? ==> (r.error == NotPowerOfTwo <==> !PowTest(ActiveLength(|s|, lenArg)))
    ensures r.Ok? ==> |r.value| == |s|
    decreases Measure(|s|, lenArg)
  {
    if Trivial(lenArg) then Ok(s)
    else
      var len := ActiveLength(|s|, lenArg);
      if !PowTest(len) then Err(NotPowerOfTwo)
      else if len < 2 || len > |s| then Err(OutOfRange)
      else
        var t := Level(s, len, |s| - 1);
        if recurse then ReduceSpec(Deinterleave(t, len), Some(len / 2), true) else Ok(t)
  }

  /** What `lazy_wavelet_inverse(s, _len, _recurse)` returns or raises. */
  function InverseSpec(s: seq<real>, lenArg: Option<int>, recurse: bool): (r: Result<seq<real>, LiftError>)
    ensures r.Ok? <==> Accepts(|s|, lenArg)
    ensures r.Err? ==> (r.error == NotPowerOfTwo <==> !PowTest(ActiveLength(|s|, lenArg)))
    ensures r.Ok? ==> |r.value| == |s|
    decreases Measure(|s|, lenArg)
  {
    if Trivial(lenArg) then Ok(s)
    else
      var len := ActiveLength(|s|, lenArg);
      if !PowTest(len) then Err(NotPowerOfTwo)
      else
        var inner := if recurse then InverseSpec(s, Some(len / 2), true) else Ok(s);
        if inner.Err? then inner
        else if len < 2 || len > |s| then Err(OutOfRange)
        else
          var t := if recurse then Interleave(inner.value, len) else inner.value;
          Ok(UnLevel(t, len, |s| - 1))
  }

  /** The recursive call on half the length is accepted too. */
  lemma HalfAccepted(n: nat, len: int)
    requires PowTest(len) && 2 <= len <= n
    ensures Accepts(n, Some(len / 2))
  {
    if len > 2 {
      Pow2Half(len);
    }
  }

  /** One non-trivial call of `lazy_wavelet_reduce`: a level, then (when recursing) reorder and recurse. */
  lemma ReduceStep(s: seq<real>, lenArg: Option<int>, recurse: bool)
    requires Accepts(|s|, lenArg) && !Trivial(lenArg)
    ensures var len := ActiveLength(|s|, lenArg);
      var t := Level(s, len, |s| - 1);
      ReduceSpec(s, lenArg, recurse) == if recurse then ReduceSpec(Deinterleave(t, len), Some(len / 2), true) else Ok(t)
  {
  }

  /** One non-trivial call of `lazy_wavelet_inverse`: (when recursing) recurse and re-interleave, then undo a level. */
  lemma InverseStep(t: seq<real>, lenArg: Option<int>, recurse: bool)
    requires Accepts(|t|, lenArg) && !Trivial(lenArg)
    requires Accepts(|t|, Some(ActiveLength(|t|, lenArg) / 2))
    ensures var len := ActiveLength(|t|, lenArg);
      var x := if recurse then Interleave(InverseSpec(t, Some(len / 2), true).value, len) else t;
      InverseSpec(t, lenArg, recurse) == Ok(UnLevel(x, len, |t| - 1))
  {
  }

  /** `lazy_wavelet_inverse` undoes `lazy_wavelet_reduce` (same `_len` and `_recurse`). */
  lemma {:induction false} InverseOfReduce(s: seq<real>, lenArg: Option<int>, recurse: bool)
    requires Accepts(|s|, lenArg)
    ensures InverseSpec(ReduceSpec(s, lenArg, recurse).value, lenArg, recurse) == Ok(s)
    decreases Measure(|s|, lenArg), 1
  {
    if !Trivial(lenArg) {
      if recurse {
        InverseOfReduceRecursive(s, lenArg);
      } else {
        InverseOfReduceOnce(s, lenArg);
      }
    }
  }

  lemma InverseOfReduceOnce(s: seq<real>, lenArg: Option<int>)
    requires Accepts(|s|, lenArg) && !Trivial(lenArg)
    ensures InverseSpec(ReduceSpec(s, lenArg, false).value, lenArg, false) == Ok(s)
  {
    var len := ActiveLength(|s|, lenArg);
    ReduceStep(s, lenArg, false);
    HalfAccepted(|s|, len);
    InverseStep(ReduceSpec(s, lenArg, false).value, lenArg, false);
    UnLevelLevel(s, len, |s| - 1);
  }

  lemma {:induction false} InverseOfReduceRecursive(s: seq<real>, lenArg: Option<int>)
    requires Accepts(|s|, lenArg) && !Trivial(lenArg)
    ensures InverseSpec(ReduceSpec(s, lenArg, true).value, lenArg, true) == Ok(s)
    decreases Measure(|s|, lenArg), 0
  {
    var len := ActiveLength(|s|, lenArg);
    var t := Level(s, len, |s| - 1);
    var d := Deinterleave(t, len);
    HalfAccepted(|s|, len);
    ReduceStep(s, lenArg, true);
    var r := ReduceSpec(d, Some(len / 2), true).value;
    InverseOfReduce(d, Some(len / 2), true);
    InterleaveDeinterleave(t, len);
    InverseStep(r, lenArg, true);
    UnLevelLevel(s, len, |s| - 1);
  }

  /** `lazy_wavelet_reduce` undoes `lazy_wavelet_inverse` (same `_len` and `_recurse`). */
  lemma {:induction false} ReduceOfInverse(t: seq<real>, lenArg: Option<int>, recurse: bool)
    requires Accepts(|t|, lenArg)
    ensures ReduceSpec(InverseSpec(t, lenArg, recurse).value, lenArg, recurse) == Ok(t)
    decreases Measure(|t|, lenArg)
  {
    if !Trivial(lenArg) {
      var len := ActiveLength(|t|, lenArg);
      var w := |t| - 1;
      HalfAccepted(|t|, len);
      InverseStep(t, lenArg, recurse);
      var v := InverseSpec(t, lenArg, recurse).value;
      ReduceStep(v, lenArg, recurse);
      if recurse {
        var x := InverseSpec(t, Some(len / 2), true).value;
        var u := Interleave(x, len);
        LevelUnLevel(u, len, w);
        DeinterleaveInterleave(x, len);
        ReduceOfInverse(t, Some(len / 2), true);
      } else {
        LevelUnLevel(t, len, w);
      }
    }
  }

  /**
   * One level writes only below the active length and the last slot, and the
   * recursion works on shorter prefixes: everything else is returned unchanged.
   */
  lemma {:induction false} ReduceFrame(s: seq<real>, lenArg: Option<int>, recurse: bool, k: int)
    requires Accepts(|s|, lenArg) && 0 <= k && ActiveLength(|s|, lenArg) <= k < |s| - 1
    ensures ReduceSpec(s, lenArg, recurse).value[k] == s[k]
    decreases Measure(|s|, lenArg)
  {
    if !Trivial(lenArg) {
      var len := ActiveLength(|s|, lenArg);
      var t := Level(s, len, |s| - 1);
      ReduceStep(s, lenArg, recurse);
      LevelFrame(s, len, |s| - 1, k);
      if recurse {
        HalfAccepted(|s|, len);
        ReduceFrame(Deinterleave(t, len), Some(len / 2), true, k);
      }
    }
  }

  /** A single non-recursive level on a row or column: the lifting step with the last slot as wrap. */
  lemma SingleLevel(s: seq<real>, len: int)
    requires len > 2 && Accepts(|s|, Some(len))
    ensures Fits(|s|, len)
    ensures ReduceSpec(s, Some(len), false) == Ok(Step(s, len, LastSlot, true))
    ensures InverseSpec(s, Some(len), false) == Ok(Step(s, len, LastSlot, false))
  {
    Pow2Half(len);
  }

  /** The contents of a returned array, or the error. */
  function Contents(r: Result<array<real>, LiftError>): Result<seq<real>, LiftError>
    reads if r.Ok? then {r.value} else {}
  {
    if r.Ok? then Ok(r.value[..]) else Err(r.error)
  }

  /**
   * `lazy_wavelet_reduce`: works on a fresh copy (`__temp`), so the argument is
   * never modified; an explicit `_len` of at most 2 returns the argument itself.
   */
  method LazyWaveletReduce(arr: array<real>, lenArg: Option<int>, recurse: bool) returns (r: Result<array<real>, LiftError>)
    ensures Contents(r) == ReduceSpec(arr[..], lenArg, recurse)
    decreases Measure(arr.Length, lenArg)
  {
    if lenArg.Some? && lenArg.value <= 2 {
      return Ok(arr);
    }
    var len := if lenArg.Some? then lenArg.value else arr.Length;
    if !PowTest(len) {
      return Err(NotPowerOfTwo);
    }
    ReduceUnfold(arr[..], lenArg, recurse);
    if len < 2 || len > arr.Length {
      return Err(OutOfRange);
    }
    var temp := LevelCopy(arr, len, recurse);
    if recurse {
      r := LazyWaveletReduce(temp, Some(len / 2), true);
    } else {
      r := Ok(temp);
    }
  }

  /** A non-trivial call of `lazy_wavelet_reduce` whose length passes the power-of-two test. */
  lemma ReduceUnfold(s: seq<real>, lenArg: Option<int>, recurse: bool)
    requires !Trivial(lenArg) && PowTest(ActiveLength(|s|, lenArg))
    ensures var len := ActiveLength(|s|, lenArg);
      ReduceSpec(s, lenArg, recurse) ==
        if len < 2 || len > |s| then Err(OutOfRange)
        else if recurse then ReduceSpec(Deinterleave(Level(s, len, |s| - 1), len), Some(len / 2), true)
        else Ok(Level(s, len, |s| - 1))
  {
  }

  /** The fresh copy `__temp` after one forward level, deinterleaved when recursing. */
  method LevelCopy(arr: array<real>, len: int, recurse: bool) returns (temp: array<real>)
    requires PowTest(len) && 2 <= len <= arr.Length
    ensures fresh(temp) && temp.Length == arr.Length && LevelShape(arr.Length, len, arr.Length - 1)
    ensures var t := Level(old(arr[..]), len, arr.Length - 1);
      temp[..] == if recurse then Deinterleave(t, len) else t
  {
    ActiveEven(len);
    var w := arr.Length - 1;
    temp := CopyOf(arr);
    PredictInPlace(temp, len, w);
    UpdateInPlace(temp, len, w);
    if recurse {
      DeinterleaveInPlace(temp, len);
    }
  }

  /** A fresh copy of `arr` (`np.copy`). */
  method CopyOf(arr: array<real>) returns (temp: array<real>)
    ensures fresh(temp) && temp[..] == arr[..]
  {
    var n := arr.Length;
    temp := new real[n](k requires 0 <= k < n reads arr => arr[k]);
    assert temp[..] == arr[..];
  }

  /** A power of two of at least 2 is even. */
  lemma ActiveEven(len: int)
    requires PowTest(len) && len >= 2
    ensures len % 2 == 0
  {
  }

  /**
   * `lazy_wavelet_inverse`: inverts the coarser levels first (when recursing),
   * re-interleaves, then undoes the update and the predict on a fresh copy.
   */
  method LazyWaveletInverse(arr: array<real>, lenArg: Option<int>, recurse: bool) returns (r: Result<array<real>, LiftError>)
    ensures Contents(r) == InverseSpec(arr[..], lenArg, recurse)
    decreases Measure(arr.Length, lenArg)
  {
    if lenArg.Some? && lenArg.value <= 2 {
      return Ok(arr);
    }
    var len := if lenArg.Some? then lenArg.value else arr.Length;
    if !PowTest(len) {
      return Err(NotPowerOfTwo);
    }
    ghost var s := arr[..];
    InverseUnfold(s, lenArg, recurse);
    var a := arr;
    if recurse {
      var inner := LazyWaveletInverse(arr, Some(len / 2), true);
      if inner.Err? {
        return inner;
      }
      a := inner.value;
    }
    ghost var x := a[..];
    assert x == if recurse then InverseSpec(s, Some(len / 2), true).value else s;
    if len < 2 || len > a.Length {
      return Err(OutOfRange);
    }
    var temp := UnLevelCopy(a, len, recurse);
    assert temp[..] == UnLevel(if recurse then Interleave(x, len) else x, len, |s| - 1);
    r := Ok(temp);
  }

  /** A non-trivial call of `lazy_wavelet_inverse` whose length passes the power-of-two test. */
  lemma InverseUnfold(t: seq<real>, lenArg: Option<int>, recurse: bool)
    requires !Trivial(lenArg) && PowTest(ActiveLength(|t|, lenArg))
    ensures var len := ActiveLength(|t|, lenArg);
      var inner := if recurse then InverseSpec(t, Some(len / 2), true) else Ok(t);
      InverseSpec(t, lenArg, recurse) ==
        if inner.Err? then inner
        else if len < 2 || len > |t| then Err(OutOfRange)
        else Ok(UnLevel(if recurse then Interleave(inner.value, len) else inner.value, len, |t| - 1))
  {
  }

  /** The fresh copy `__temp` re-interleaved when recursing, then one inverse level. */
  method UnLevelCopy(a: array<real>, len: int, recurse: bool) returns (temp: array<real>)
    requires PowTest(len) && 2 <= len <= a.Length
    ensures fresh(temp) && LevelShape(a.Length, len, a.Length - 1)
    ensures var t := if recurse then Interleave(old(a[..]), len) else old(a[..]);
      temp[..] == UnLevel(t, len, a.Length - 1)
  {
    ActiveEven(len);
    var w := a.Length - 1;
    temp := CopyOf(a);
    if recurse {
      InterleaveInto(temp, a, len);
    }
    UnUpdateInPlace(temp, len, w);
    UnPredictInPlace(temp, len, w);
  }

  // ---------------------------------------------------------------------
  // 2D: lazy_transform and lazy_inverse
  // ---------------------------------------------------------------------

  /** `_img[i] = lazy_wavelet_reduce(_img[i], len, False)`, or the same with `lazy_wavelet_inverse`. */
  method RowLevel(img: array2<real>, i: int, len: int, forward: bool) returns (ok: bool)
    requires 0 <= i < img.Length0 && len > 2
    modifies img
    ensures ok == Accepts(img.Length1, Some(len))
    ensures ok ==> Fits(img.Length1, len)
    ensures ok ==> Grid(img) == old(Grid(img))[i := Step(old(Grid(img))[i], len, LastSlot, forward)]
    ensures !ok ==> Grid(img) == old(Grid(img))
  {
    var n := img.Length1;
    var row := new real[n](k requires 0 <= k < n reads img => img[i, k]);
    assert row[..] == Grid(img)[i];
    var res;
    if forward {
      res := LazyWaveletReduce(row, Some(len), false);
    } else {
      res := LazyWaveletInverse(row, Some(len), false);
    }
    if res.Err? {
      return false;
    }
    SingleLevel(row[..], len);
    WriteRow(img, i, res.value);
    ok := true;
  }

  /** `_img[:, j] = lazy_wavelet_reduce(_img[:, j], len, False)`, or the same with `lazy_wavelet_inverse`. */
  method ColLevel(img: array2<real>, j: int, len: int, forward: bool) returns (ok: bool)
    requires 0 <= j < img.Length1 && len > 2
    modifies img
    ensures ok == Accepts(img.Length0, Some(len))
    ensures ok ==> Fits(img.Length0, len)
    ensures ok ==> Grid(img) == SetCol(old(Grid(img)), j, Step(Col(old(Grid(img)), j), len, LastSlot, forward))
    ensures !ok ==> Grid(img) == old(Grid(img))
  {
    var n := img.Length0;
    var col := new real[n](k requires 0 <= k < n reads img => img[k, j]);
    assert col[..] == Col(Grid(img), j);
    var res;
    if forward {
      res := LazyWaveletReduce(col, Some(len), false);
    } else {
      res := LazyWaveletInverse(col, Some(len), false);
    }
    if res.Err? {
      return false;
    }
    SingleLevel(col[..], len);
    WriteCol(img, j, res.value);
    ok := true;
  }

  /** Line 86: the `np.r_`/`np.c_` reassembly of the even/odd rows and columns into quadrants. */
  method ReorganiseQuadrants(img: array2<real>, l1: int, l2: int)
    requires 0 < l1 <= img.Length0 && 0 <= l2 <= img.Length1 && l1 % 2 == 0 && l2 % 2 == 0
    modifies img
    ensures Grid(img) == Quad(old(Grid(img)), l1, l2, CrossedBands, 1.0)
  {
    ghost var before := Grid(img);
    var block := QuadBlock(img, l1, l2);
    Scatter(img, block, l1, l2);
    ghost var after := Grid(img);
    forall p, q | 0 <= p < l1 && 0 <= q < l2
      ensures after[p][q] == At(before, SrcRow(p, q, l1, l2, CrossedBands), SrcCol(p, q, l1, l2, CrossedBands))
    {
      assert after[p][q] == block[p, q];
    }
    QuadByCells(before, after, l1, l2, CrossedBands);
  }

  /** The reassembled `l1` by `l2` block, as a new array: its (p, q) entry is read from where `Quad` takes it. */
  method QuadBlock(img: array2<real>, l1: int, l2: int) returns (block: array2<real>)
    requires 0 < l1 <= img.Length0 && 0 <= l2 <= img.Length1 && l1 % 2 == 0 && l2 % 2 == 0
    ensures fresh(block) && block.Length0 == l1 && block.Length1 == l2
    ensures forall p, q :: 0 <= p < l1 && 0 <= q < l2 ==>
      block[p, q] == At(Grid(img), SrcRow(p, q, l1, l2, CrossedBands), SrcCol(p, q, l1, l2, CrossedBands))
  {
    forall p, q | 0 <= p < l1 && 0 <= q < l2
      ensures 0 <= SrcRow(p, q, l1, l2, CrossedBands) < l1 && 0 <= SrcCol(p, q, l1, l2, CrossedBands) < l2
    {
      DstSrc(p, q, l1, l2, CrossedBands);
    }
    block := new real[l1, l2]((p, q) requires 0 <= p < l1 && 0 <= q < l2 reads img =>
      img[SrcRow(p, q, l1, l2, CrossedBands), SrcCol(p, q, l1, l2, CrossedBands)]);
  }

  /** Writes `block` over the leading `l1` by `l2` block of `img`. */
  method Scatter(img: array2<real>, block: array2<real>, l1: int, l2: int)
    requires img != block && block.Length0 == l1 && block.Length1 == l2
    requires 0 <= l1 <= img.Length0 && 0 <= l2 <= img.Length1
    modifies img
    ensures forall p, q :: 0 <= p < l1 && 0 <= q < l2 ==> img[p, q] == block[p, q]
    ensures forall p, q :: 0 <= p < img.Length0 && 0 <= q < img.Length1 && !(p < l1 && q < l2) ==> img[p, q] == old(img[p, q])
  {
    forall p, q | 0 <= p < l1 && 0 <= q < l2 {
      img[p, q] := block[p, q];
    }
  }

  /** Lines 104-110: copy to `__temp`, then put each quadrant back on its even/odd rows and columns. */
  method RestoreQuadrants(img: array2<real>, l1: int, l2: int)
    requires 0 < l1 <= img.Length0 && 0 <= l2 <= img.Length1 && l1 % 2 == 0 && l2 % 2 == 0
    modifies img
    ensures Grid(img) == UnQuad(old(Grid(img)), l1, l2, CrossedBands, 1.0)
  {
    ghost var before := Grid(img);
    var temp := Copy(img);
    Gather(img, temp, l1, l2);
    ghost var after := Grid(img);
    forall p, q | 0 <= p < l1 && 0 <= q < l2
      ensures after[p][q] == At(before, DstRow(p, q, l1, CrossedBands), DstCol(p, q, l2, CrossedBands))
    {
      SrcDst(p, q, l1, l2, CrossedBands);
      var x, y := DstRow(p, q, l1, CrossedBands), DstCol(p, q, l2, CrossedBands);
      assert after[p][q] == temp[x, y];
      assert temp[x, y] == Grid(temp)[x][y];
    }
    UnQuadByCells(before, after, l1, l2, CrossedBands);
  }

  /** The four slice assignments of lines 107-110, reading the quadrants from `temp`. */
  method Gather(img: array2<real>, temp: array2<real>, l1: int, l2: int)
    requires img != temp && temp.Length0 == img.Length0 && temp.Length1 == img.Length1
    requires 0 < l1 <= img.Length0 && 0 <= l2 <= img.Length1 && l1 % 2 == 0 && l2 % 2 == 0
    modifies img
    ensures forall p, q :: 0 <= p < l1 && 0 <= q < l2 ==>
      img[p, q] == temp[DstRow(p, q, l1, CrossedBands), DstCol(p, q, l2, CrossedBands)]
    ensures forall p, q :: 0 <= p < img.Length0 && 0 <= q < img.Length1 && !(p < l1 && q < l2) ==> img[p, q] == old(img[p, q])
  {
    forall p, q | 0 <= p < l1 && 0 <= q < l2
      ensures 0 <= DstRow(p, q, l1, CrossedBands) < l1 && 0 <= DstCol(p, q, l2, CrossedBands) < l2
    {
      SrcDst(p, q, l1, l2, CrossedBands);
    }
    forall p, q | 0 <= p < l1 && 0 <= q < l2 {
      img[p, q] := temp[DstRow(p, q, l1, CrossedBands), DstCol(p, q, l2, CrossedBands)];
    }
  }

  /**
   * The row loop (`for _i in range(rows)`): each row through one level of
   * length `len`. Row `rows-1` past the image, or a length the 1D function
   * refuses, raises; the refusal happens at the first row.
   */
  method RowsLevel(img: array2<real>, rows: int, len: int, forward: bool) returns (ok: bool)
    requires 0 < rows && len > 2
    modifies img
    ensures ok == (rows <= img.Length0 && Accepts(img.Length1, Some(len)))
    ensures ok ==> Fits(img.Length1, len)
    ensures ok ==> Grid(img) == RowPass(old(Grid(img)), rows, len, LastSlot, forward)
  {
    ghost var g0 := Grid(img);
    var i := 0;
    while i < rows
      invariant 0 <= i <= rows && i <= img.Length0
      invariant i > 0 ==> Accepts(img.Length1, Some(len)) && Fits(img.Length1, len)
      invariant i > 0 ==> Grid(img) == RowPass(g0, i, len, LastSlot, forward)
      invariant i == 0 ==> Grid(img) == g0
    {
      if i >= img.Length0 {
        return false;
      }
      ok := RowLevel(img, i, len, forward);
      if !ok {
        return false;
      }
      if i == 0 {
        RowPassNone(g0, len, LastSlot, forward);
      }
      RowPassNext(g0, i, len, LastSlot, forward);
      i := i + 1;
    }
    ok := true;
  }

  /** The column loop (`for _i in range(cols)`): each column through one level of length `len`. */
  method ColsLevel(img: array2<real>, cols: int, len: int, forward: bool) returns (ok: bool)
    requires 0 < cols <= img.Length1 && len > 2
    modifies img
    ensures ok == Accepts(img.Length0, Some(len))
    ensures ok ==> Fits(img.Length0, len)
    ensures ok ==> Grid(img) == ColPass(old(Grid(img)), cols, len, LastSlot, forward)
  {
    ghost var g0 := Grid(img);
    var j := 0;
    while j < cols
      invariant 0 <= j <= cols
      invariant j > 0 ==> Accepts(img.Length0, Some(len)) && Fits(img.Length0, len)
      invariant j > 0 ==> Grid(img) == ColPass(g0, j, len, LastSlot, forward)
      invariant j == 0 ==> Grid(img) == g0
    {
      ok := ColLevel(img, j, len, forward);
      if !ok {
        return false;
      }
      assert Width(g0) == img.Length1 && |g0| == img.Length0;
      if j == 0 {
        ColPassNone(g0, len, LastSlot, forward);
      }
      ColPassNext(g0, j, len, LastSlot, forward);
      j := j + 1;
    }
    ok := true;
  }

  /**
   * `lazy_transform(img, (l1, l2))`: in place; reports whether it ran to the
   * end. On a shape outside `Shape2DOk` it raises, possibly after changing
   * some rows or columns, so nothing is promised about the image then.
   */
  method LazyTransform(img: array2<real>, l1: int, l2: int) returns (ok: bool)
    modifies img
    ensures ok == Shape2DOk(l1, l2, img.Length0, img.Length1)
    ensures ok ==> Grid(img) == Lift2D(old(Grid(img)), l1, l2, LastSlot, CrossedBands, 1.0)
    decreases Size(l1)
  {
    if l1 <= 2 || l2 <= 2 {
      return true;
    }
    ghost var g0 := Grid(img);
    ok := RowsLevel(img, l1, l2, true);
    if !ok {
      return false;
    }
    ghost var g1 := Grid(img);
    ok := ColsLevel(img, l2, l1, true);
    if !ok {
      return false;
    }
    ghost var g2 := Grid(img);
    assert g2 == ColPass(RowPass(g0, l1, l2, LastSlot, true), l2, l1, LastSlot, true);
    Lift2DUnfold(g0, l1, l2, LastSlot, CrossedBands, 1.0);
    ReorganiseQuadrants(img, l1, l2);
    assert Grid(img) == Quad(g2, l1, l2, CrossedBands, 1.0);
    ok := LazyTransform(img, l1 / 2, l2 / 2);
  }

  /** `lazy_inverse(img, (l1, l2))`: in place, on a shape `lazy_transform` accepts. */
  method LazyInverse(img: array2<real>, l1: int, l2: int)
    requires Shape2DOk(l1, l2, img.Length0, img.Length1)
    modifies img
    ensures Grid(img) == Unlift2D(old(Grid(img)), l1, l2, LastSlot, CrossedBands, 1.0)
    decreases Size(l1)
  {
    if l1 <= 2 || l2 <= 2 {
      return;
    }
    ghost var g0 := Grid(img);
    Unlift2DUnfold(g0, l1, l2, LastSlot, CrossedBands, 1.0);
    LazyInverse(img, l1 / 2, l2 / 2);
    ghost var g1 := Grid(img);
    RestoreQuadrants(img, l1, l2);
    ghost var g2 := Grid(img);
    assert g2 == UnQuad(g1, l1, l2, CrossedBands, 1.0);
    var ok := ColsLevel(img, l2, l1, false);
    assert ok;
    ghost var g3 := Grid(img);
    ok := RowsLevel(img, l1, l2, false);
    assert ok && Grid(img) == RowPass(g3, l1, l2, LastSlot, false);
  }
}
