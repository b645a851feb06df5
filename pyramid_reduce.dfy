/**
 * `reduce_` of 3/lib/pyramids.py: the Burt-Adelson 5-tap reduction with
 * weights c, b, a, b, c (b = 1/4, c = (1/2 - a)/2, so a + 2b + 2c = 1),
 * taken at every second row and then at every second column. The borders
 * fold the missing taps back onto the image.
 *
 * Rows of a matrix are the numpy row vectors of the first axis; the second
 * axis is the same reduction applied to the transpose.
 */
module PyramidReduce {
  import opened Wrappers
  import opened Images

  /** The weight `_b` of the two taps at distance one. */
  const B: real := 0.25

  /** The weight `_c` of the two taps at distance two. */
  function C(a: real): (c: real)
    ensures a + 2.0 * B + 2.0 * c == 1.0
  {
    (0.5 - a) / 2.0
  }

  /** A row of `w` ones (`np.ones`), the preallocated rows of `__temp`. */
  function Ones(w: nat): (v: seq<real>)
    ensures |v| == w && forall j :: 0 <= j < w ==> v[j] == 1.0
  {
    seq(w, _ => 1.0)
  }

  /** The `n` by `w` matrix of `v`s. */
  function Constant(n: nat, w: nat, v: real): (g: Matrix)
    ensures IsMatrix(g, n, w)
    ensures forall i, j :: 0 <= i < n && 0 <= j < w ==> g[i][j] == v
  {
    seq(n, _ => seq(w, _ => v))
  }

  /** Output row 0: the taps at -2 and -1 folded onto rows 2 and 1. */
  function Start(x: Matrix, w: nat, a: real): (v: seq<real>)
    ensures |v| == w
  {
    seq(w, j => a * At(x, 0, j) + 2.0 * At(x, 1, j) * B + 2.0 * At(x, 2, j) * C(a))
  }

  /** The output row centred on input row `i`: all five taps inside. */
  function Mid(x: Matrix, w: nat, a: real, i: int): (v: seq<real>)
    ensures |v| == w
  {
    seq(w, j => C(a) * At(x, i + 2, j) + B * At(x, i + 1, j) + a * At(x, i, j) + B * At(x, i - 1, j) + C(a) * At(x, i - 2, j))
  }

  /** The ending for odd `_len`: the last output row centred on the last input row. */
  function OddEnd(x: Matrix, w: nat, a: real): (v: seq<real>)
    ensures |v| == w
  {
    var n := |x|;
    seq(w, j => a * At(x, n - 1, j) + 2.0 * At(x, n - 2, j) * B + 2.0 * At(x, n - 3, j) * C(a))
  }

  /** The ending for even `_len`: the last output row centred on the last but one input row. */
  function EvenEnd(x: Matrix, w: nat, a: real): (v: seq<real>)
    ensures |v| == w
  {
    var n := |x|;
    seq(w, j => a * At(x, n - 2, j) + At(x, n - 3, j) * B + At(x, n - 1, j) * B + 2.0 * At(x, n - 4, j) * C(a))
  }

  /** Output row `k`; `odd` selects the ending formula. */
  function Row(x: Matrix, w: nat, a: real, k: int, odd: bool): (v: seq<real>)
    ensures |v| == w
  {
    if k == 0 then Start(x, w, a)
    else if k == (|x| + 1) / 2 - 1 then (if odd then OddEnd(x, w, a) else EvenEnd(x, w, a))
    else Mid(x, w, a, 2 * k)
  }

  /**
   * The first-axis reduction with the ending formula chosen by the parity
   * of the input length, so that output row k is centred on input row 2k.
   */
  function Reduced(x: Matrix, w: nat, a: real): (r: Matrix)
    ensures IsMatrix(r, (|x| + 1) / 2, w)
  {
    seq((|x| + 1) / 2, k => Row(x, w, a, k, |x| % 2 == 1))
  }

  /**
   * Whether lines 31 and 42 pick the odd ending for an input of length `n`:
   * they test the parity of the output length `_len` = (n + 1) / 2.
   */
  predicate OddEnding(n: nat) {
    ((n + 1) / 2) % 2 == 1
  }

  /**
   * The first-axis reduction as lines 23-32 write it: the ending formula is
   * chosen by `OddEnding`. It needs four rows: with three, `_len` is 2, the
   * even ending reads `_arr[-4]` and numpy raises `IndexError` (`Reduce`).
   */
  function ReducedAsWritten(x: Matrix, w: nat, a: real): (r: Matrix)
    requires |x| >= 4
    ensures IsMatrix(r, (|x| + 1) / 2, w)
  {
    seq((|x| + 1) / 2, k => Row(x, w, a, k, OddEnding(|x|)))
  }

  /**
   * One axis of `reduce_`: `__temp` starts as rows of ones, row 0 gets the
   * starting formula, the loop over even `i` fills row `i/2`, and the last
   * row gets the ending formula chosen by the parity of `_len`.
   */
  method ReduceAxis(x: Matrix, w: nat, a: real) returns (r: Matrix)
    requires IsMatrix(x, |x|, w) && |x| >= 4
    ensures r == ReducedAsWritten(x, w, a)
  {
    var n := |x|;
    var len := (n + 1) / 2;
    var temp := new seq<real>[len](_ => Ones(w));
    temp[0] := Start(x, w, a);
    ghost var spec := ReducedAsWritten(x, w, a);
    StartRow(x, w, a);
    var i := 2;
    while i < n - 2
      invariant 2 <= i && i % 2 == 0 && i / 2 <= len - 1
      invariant forall k :: 0 <= k < i / 2 ==> temp[k] == spec[k]
    {
      MidRow(x, w, a, i);
      temp[i / 2] := Mid(x, w, a, i);
      i := i + 2;
    }
    assert i / 2 == len - 1;
    temp[len - 1] := EndRow(x, w, a);
    assert forall k :: 0 <= k < len ==> temp[k] == spec[k];
    r := temp[..];
  }

  /** Row 0 of the first-axis reduction is the starting formula. */
  lemma StartRow(x: Matrix, w: nat, a: real)
    requires |x| >= 4
    ensures ReducedAsWritten(x, w, a)[0] == Start(x, w, a)
  {
    assert ReducedAsWritten(x, w, a)[0] == Row(x, w, a, 0, OddEnding(|x|));
  }

  /** Row `i/2` of the first-axis reduction is the one centred on even row `i`. */
  lemma MidRow(x: Matrix, w: nat, a: real, i: int)
    requires IsMatrix(x, |x|, w) && 2 <= i < |x| - 2 && i % 2 == 0
    ensures ReducedAsWritten(x, w, a)[i / 2] == Mid(x, w, a, i)
  {
    assert ReducedAsWritten(x, w, a)[i / 2] == Row(x, w, a, i / 2, OddEnding(|x|));
    assert 2 * (i / 2) == i;
  }

  /** Lines 31-32: the last row, by the parity of `_len`. */
  method EndRow(x: Matrix, w: nat, a: real) returns (v: seq<real>)
    requires IsMatrix(x, |x|, w) && |x| >= 4
    ensures v == ReducedAsWritten(x, w, a)[(|x| + 1) / 2 - 1]
    ensures OddEnding(|x|) ==> v == OddEnd(x, w, a)
    ensures !OddEnding(|x|) ==> v == EvenEnd(x, w, a)
  {
    assert ReducedAsWritten(x, w, a)[(|x| + 1) / 2 - 1] == Row(x, w, a, (|x| + 1) / 2 - 1, OddEnding(|x|));
    var len := (|x| + 1) / 2;
    if len % 2 == 1 {
      v := OddEnd(x, w, a);
    } else {
      v := EvenEnd(x, w, a);
    }
  }

  /**
   * The two passes of `reduce_`: the first axis, then the second through
   * the transpose, so that entry (k, l) of the result is entry (l, k) of
   * the second pass.
   */
  function Passes(g: Matrix, a: real): (u: Matrix)
    requires |g| >= 4 && Width(g) >= 4
    ensures IsMatrix(u, (Width(g) + 1) / 2, (|g| + 1) / 2)
  {
    var t := ReducedAsWritten(g, Width(g), a);
    ReducedAsWritten(Transpose(t), |t|, a)
  }

  /**
   * `reduce_` on a whole matrix, entry by entry: `(|g|+1)/2` by
   * `(Width(g)+1)/2`, entry (k, l) taken from the two passes. Its shape is
   * known without computing any entry.
   */
  function Reduced2(g: Matrix, a: real): (r: Matrix)
    requires |g| >= 4 && Width(g) >= 4
    ensures IsMatrix(r, (|g| + 1) / 2, (Width(g) + 1) / 2)
  {
    seq((|g| + 1) / 2, k => seq((Width(g) + 1) / 2, l => At(Passes(g, a), l, k)))
  }

  /** The transpose of the second pass is the whole reduction. */
  lemma PassesReduced2(g: Matrix, a: real)
    requires |g| >= 4 && Width(g) >= 4
    ensures Transpose(Passes(g, a)) == Reduced2(g, a)
  {
    var u := Passes(g, a);
    var h2, w2 := (|g| + 1) / 2, (Width(g) + 1) / 2;
    assert Width(u) == h2;
    MatrixEq(Transpose(u), Reduced2(g, a), h2, w2);
  }

  /**
   * `reduce_(_arr, _a)`: the matrix halved (rounding up) each way. Fewer
   * than three rows or columns is numpy's `IndexError` on `_arr[2]`;
   * exactly three makes `_len` 2, and the even ending's `_arr[-4]` raises
   * `IndexError` too.
   */
  method Reduce(g: Matrix, a: real) returns (r: Option<Matrix>)
    requires Rect(g)
    ensures r.None? <==> |g| < 4 || Width(g) < 4
    ensures r.Some? ==> r.value == Reduced2(g, a)
  {
    if |g| < 4 || Width(g) < 4 {
      return None;
    }
    var t := ReduceAxis(g, Width(g), a);
    assert Width(t) == Width(g);
    var u := ReduceAxis(Transpose(t), |t|, a);
    PassesReduced2(g, a);
    return Some(Transpose(u));
  }

  /** Weights `a`, `2b`, `2c` with a total of one keep a constant. */
  lemma Weighs(v: real, a: real)
    ensures a * v + 2.0 * v * B + 2.0 * v * C(a) == v
  {
    var c := C(a);
    assert a * v + 2.0 * v * B + 2.0 * v * c == (a + 2.0 * B + 2.0 * c) * v;
  }

  lemma StartConstant(n: nat, w: nat, v: real, a: real)
    requires n >= 3
    ensures Start(Constant(n, w, v), w, a) == seq(w, _ => v)
  {
    var r := Start(Constant(n, w, v), w, a);
    Weighs(v, a);
    forall j | 0 <= j < w
      ensures r[j] == v
    {
      assert r[j] == a * v + 2.0 * v * B + 2.0 * v * C(a);
    }
  }

  lemma MidConstant(n: nat, w: nat, v: real, a: real, i: int)
    requires 2 <= i < n - 2
    ensures Mid(Constant(n, w, v), w, a, i) == seq(w, _ => v)
  {
    var r := Mid(Constant(n, w, v), w, a, i);
    Weighs(v, a);
    forall j | 0 <= j < w
      ensures r[j] == v
    {
      assert r[j] == C(a) * v + B * v + a * v + B * v + C(a) * v;
    }
  }

  lemma OddEndConstant(n: nat, w: nat, v: real, a: real)
    requires n >= 3
    ensures OddEnd(Constant(n, w, v), w, a) == seq(w, _ => v)
  {
    var r := OddEnd(Constant(n, w, v), w, a);
    Weighs(v, a);
    forall j | 0 <= j < w
      ensures r[j] == v
    {
      assert r[j] == a * v + 2.0 * v * B + 2.0 * v * C(a);
    }
  }

  lemma EvenEndConstant(n: nat, w: nat, v: real, a: real)
    requires n >= 4
    ensures EvenEnd(Constant(n, w, v), w, a) == seq(w, _ => v)
  {
    var r := EvenEnd(Constant(n, w, v), w, a);
    Weighs(v, a);
    forall j | 0 <= j < w
      ensures r[j] == v
    {
      assert r[j] == a * v + v * B + v * B + 2.0 * v * C(a);
    }
  }

  /**
   * Every row formula weighs its taps with a total of one, so a constant row
   * stays, whichever ending is chosen.
   */
  lemma RowConstant(n: nat, w: nat, v: real, a: real, k: nat, odd: bool)
    requires n >= 4 && k < (n + 1) / 2
    ensures Row(Constant(n, w, v), w, a, k, odd) == seq(w, _ => v)
  {
    if k == 0 {
      StartConstant(n, w, v, a);
    } else if k == (n + 1) / 2 - 1 {
      OddEndConstant(n, w, v, a);
      EvenEndConstant(n, w, v, a);
    } else {
      MidConstant(n, w, v, a, 2 * k);
    }
  }

  /** A constant matrix reduces to the same constant along the first axis. */
  lemma ReducedConstant(n: nat, w: nat, v: real, a: real)
    requires n >= 4
    ensures ReducedAsWritten(Constant(n, w, v), w, a) == Constant((n + 1) / 2, w, v)
  {
    var r := ReducedAsWritten(Constant(n, w, v), w, a);
    forall k | 0 <= k < (n + 1) / 2
      ensures r[k] == Constant((n + 1) / 2, w, v)[k]
    {
      RowConstant(n, w, v, a, k, OddEnding(n));
    }
  }

  lemma TransposeConstant(n: nat, w: nat, v: real)
    requires n > 0
    ensures Transpose(Constant(n, w, v)) == Constant(w, n, v)
  {
    MatrixEq(Transpose(Constant(n, w, v)), Constant(w, n, v), w, n);
  }

  /** `reduce_` keeps a constant image constant: its weights sum to a + 2b + 2c = 1. */
  lemma Reduced2Constant(h: nat, w: nat, v: real, a: real)
    requires h >= 4 && w >= 4
    ensures Reduced2(Constant(h, w, v), a) == Constant((h + 1) / 2, (w + 1) / 2, v)
  {
    var g := Constant(h, w, v);
    assert Width(g) == w;
    ReducedConstant(h, w, v, a);
    var t := ReducedAsWritten(g, w, a);
    TransposeConstant((h + 1) / 2, w, v);
    ReducedConstant(w, (h + 1) / 2, v, a);
    TransposeConstant((w + 1) / 2, (h + 1) / 2, v);
    PassesReduced2(g, a);
  }

  /** One column with a single 1 at row `p`. */
  function Impulse(n: nat, p: int): (x: Matrix)
    ensures IsMatrix(x, n, 1)
    ensures forall i :: At(x, i, 0) == if i == p && 0 <= i < n then 1.0 else 0.0
  {
    seq(n, i => [if i == p then 1.0 else 0.0])
  }

  /**
   * Output row k is centred on input row 2k: the reduction of an impulse at
   * 2k has the centre weight `a` at k, for every k, both borders included.
   */
  lemma ReducedCentred(n: nat, k: nat, a: real)
    requires n >= 3 && k < (n + 1) / 2
    ensures Reduced(Impulse(n, 2 * k), 1, a)[k] == [a]
  {
    var x := Impulse(n, 2 * k);
    var r := Reduced(x, 1, a)[k];
    assert r == Row(x, 1, a, k, n % 2 == 1);
    if k == 0 {
      assert r[0] == a * 1.0 + 2.0 * 0.0 * B + 2.0 * 0.0 * C(a);
    } else if k == (n + 1) / 2 - 1 {
      if n % 2 == 1 {
        assert r[0] == a * 1.0 + 2.0 * 0.0 * B + 2.0 * 0.0 * C(a);
      } else {
        assert r[0] == a * 1.0 + 0.0 * B + 0.0 * B + 2.0 * 0.0 * C(a);
      }
    } else {
      assert r[0] == C(a) * 0.0 + B * 0.0 + a * 1.0 + B * 0.0 + C(a) * 0.0;
    }
  }

  /**
   * As written, a six-row input takes the odd ending (`_len` is 3): output
   * row 2 is centred on row 5 instead of row 4, and the impulse at row 4
   * gets weight 2b = 1/2 instead of `a`.
   */
  lemma AsWrittenOffCentre(a: real)
    requires a != 0.5
    ensures ReducedAsWritten(Impulse(6, 4), 1, a)[2] == [2.0 * B]
    ensures ReducedAsWritten(Impulse(6, 4), 1, a)[2] != [a]
    ensures Reduced(Impulse(6, 4), 1, a)[2] == [a]
  {
    var r := ReducedAsWritten(Impulse(6, 4), 1, a)[2];
    assert r == Row(Impulse(6, 4), 1, a, 2, true) == OddEnd(Impulse(6, 4), 1, a);
    assert r[0] == a * 0.0 + 2.0 * 1.0 * B + 2.0 * 0.0 * C(a);
    ReducedCentred(6, 2, a);
  }
}
