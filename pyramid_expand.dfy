/**
 * `expand_` of 3/lib/pyramids.py: the transpose of the 5-tap reduction.
 * Every input row deposits itself, with the doubled weights 2c, 2b, 2a,
 * 2b, 2c, onto the output rows 2i+2 down to 2i-2 of a zero matrix twice as
 * tall; the last input row writes the last output row outright and folds
 * its out-of-range tap back onto row 2m-2. The second axis is the same
 * expansion applied to the transpose.
 */
module PyramidExpand {
  import opened Images
  import opened PyramidReduce

  /** The doubled centre weight `2*_a` (line 82). */
  function A2(a: real): real {
    2.0 * a
  }

  /** The doubled weight `2*_b` of the taps at distance one. */
  const B2: real := 2.0 * B

  /** The doubled weight `2*_c` of the taps at distance two. */
  function C2(a: real): real {
    2.0 * C(a)
  }

  /** A row of `w` zeros (`np.zeros`). */
  function Zeros(w: nat): (v: seq<real>)
    ensures |v| == w && forall j :: 0 <= j < w ==> v[j] == 0.0
  {
    seq(w, _ => 0.0)
  }

  /** `u += c*v` on two rows of one length. */
  function AddScaled(u: seq<real>, c: real, v: seq<real>): (r: seq<real>)
    requires |u| == |v|
    ensures |r| == |u| && forall j :: 0 <= j < |u| ==> r[j] == u[j] + c * v[j]
  {
    seq(|u|, j requires 0 <= j < |u| => u[j] + c * v[j])
  }

  /** `c*v`. */
  function Scaled(c: real, v: seq<real>): (r: seq<real>)
    ensures |r| == |v| && forall j :: 0 <= j < |v| ==> r[j] == c * v[j]
  {
    seq(|v|, j requires 0 <= j < |v| => c * v[j])
  }

  /** The rows of `s` all have length `w`. */
  predicate Rows(s: Matrix, w: nat) {
    forall k :: 0 <= k < |s| ==> |s[k]| == w
  }

  /**
   * Input row `i` deposited on `s`: rows 2i+2, 2i+1 and 2i, and for `i > 0`
   * also 2i-1 and 2i-2, in the order of the source's `+=` statements.
   */
  function Deposit(s: Matrix, v: seq<real>, i: nat, a: real): (r: Matrix)
    requires Rows(s, |v|) && 2 * i + 2 < |s|
    ensures |r| == |s| && Rows(r, |v|)
  {
    var s1 := s[2 * i + 2 := AddScaled(s[2 * i + 2], C2(a), v)];
    var s2 := s1[2 * i + 1 := AddScaled(s1[2 * i + 1], B2, v)];
    var s3 := s2[2 * i := AddScaled(s2[2 * i], A2(a), v)];
    if i == 0 then s3
    else
      var s4 := s3[2 * i - 1 := AddScaled(s3[2 * i - 1], B2, v)];
      s4[2 * i - 2 := AddScaled(s4[2 * i - 2], C2(a), v)]
  }

  /** The weight input row `i` gives output row `k` in a deposit. */
  function Coef(i: int, k: int, a: real): (c: real)
    ensures (k < 2 * i - 2 || 2 * i + 2 < k) ==> c == 0.0
  {
    if k == 2 * i + 2 || k == 2 * i - 2 then C2(a)
    else if k == 2 * i + 1 || k == 2 * i - 1 then B2
    else if k == 2 * i then A2(a)
    else 0.0
  }

  lemma DepositCell(s: Matrix, v: seq<real>, i: nat, a: real, k: nat, j: nat)
    requires Rows(s, |v|) && 2 * i + 2 < |s| && k < |s| && j < |v|
    ensures Deposit(s, v, i, a)[k][j] == s[k][j] + Coef(i, k, a) * v[j]
  {
    var r := Deposit(s, v, i, a);
    if k == 2 * i + 2 || k == 2 * i + 1 || k == 2 * i {
      assert r[k] == AddScaled(s[k], Coef(i, k, a), v);
    } else if i > 0 && (k == 2 * i - 1 || k == 2 * i - 2) {
      assert r[k] == AddScaled(s[k], Coef(i, k, a), v);
    } else {
      assert r[k] == s[k];
    }
  }

  /** `__temp` after the input rows before `i` have been deposited. */
  function Part(x: Matrix, w: nat, a: real, i: nat): (s: Matrix)
    requires IsMatrix(x, |x|, w) && |x| >= 2 && i <= |x| - 1
    ensures |s| == 2 * |x| && Rows(s, w)
  {
    if i == 0 then seq(2 * |x|, _ => Zeros(w))
    else Deposit(Part(x, w, a, i - 1), x[i - 1], i - 1, a)
  }

  /**
   * Entry (k, j) of `__temp` once the input rows before `i` are in: every
   * tap of an input row below `i` that lands on row k.
   */
  function PartialAt(x: Matrix, a: real, i: int, k: nat, j: int): real {
    var q := k / 2;
    if k % 2 == 0 then
      (if 1 <= q <= i then C2(a) * At(x, q - 1, j) else 0.0)
      + (if q < i then A2(a) * At(x, q, j) else 0.0)
      + (if q + 1 < i then C2(a) * At(x, q + 1, j) else 0.0)
    else
      (if q < i then B2 * At(x, q, j) else 0.0)
      + (if q + 1 < i then B2 * At(x, q + 1, j) else 0.0)
  }

  /** Depositing input row `i` adds exactly its weight on each output row. */
  lemma PartialStep(x: Matrix, a: real, i: nat, k: nat, j: nat)
    requires i < |x| && j < |x[i]|
    ensures PartialAt(x, a, i + 1, k, j) == PartialAt(x, a, i, k, j) + Coef(i, k, a) * x[i][j]
  {
    var q := k / 2;
    assert k == 2 * q + k % 2;
    assert At(x, i, j) == x[i][j];
  }

  lemma {:induction false} PartCells(x: Matrix, w: nat, a: real, i: nat)
    requires IsMatrix(x, |x|, w) && |x| >= 2 && i <= |x| - 1
    ensures forall k, j :: 0 <= k < 2 * |x| && 0 <= j < w ==> Part(x, w, a, i)[k][j] == PartialAt(x, a, i, k, j)
  {
    if i > 0 {
      PartCells(x, w, a, i - 1);
      DepositCells(x, w, a, i - 1, Part(x, w, a, i - 1));
    }
  }

  lemma DepositCells(x: Matrix, w: nat, a: real, i: nat, prev: Matrix)
    requires IsMatrix(x, |x|, w) && i + 1 < |x| && |prev| == 2 * |x| && Rows(prev, w)
    requires forall k, j :: 0 <= k < 2 * |x| && 0 <= j < w ==> prev[k][j] == PartialAt(x, a, i, k, j)
    ensures forall k, j :: 0 <= k < 2 * |x| && 0 <= j < w ==> Deposit(prev, x[i], i, a)[k][j] == PartialAt(x, a, i + 1, k, j)
  {
    forall k, j | 0 <= k < 2 * |x| && 0 <= j < w
      ensures Deposit(prev, x[i], i, a)[k][j] == PartialAt(x, a, i + 1, k, j)
    {
      DepositOne(x, w, a, i, prev, k, j);
    }
  }

  lemma DepositOne(x: Matrix, w: nat, a: real, i: nat, prev: Matrix, k: nat, j: nat)
    requires IsMatrix(x, |x|, w) && i + 1 < |x| && |prev| == 2 * |x| && Rows(prev, w)
    requires k < 2 * |x| && j < w && prev[k][j] == PartialAt(x, a, i, k, j)
    ensures Deposit(prev, x[i], i, a)[k][j] == PartialAt(x, a, i + 1, k, j)
  {
    assert |x[i]| == w;
    PartialStep(x, a, i, k, j);
    DepositCellTo(prev, x[i], i, a, k, j, PartialAt(x, a, i + 1, k, j));
  }

  lemma DepositCellTo(s: Matrix, v: seq<real>, i: nat, a: real, k: nat, j: nat, target: real)
    requires Rows(s, |v|) && 2 * i + 2 < |s| && k < |s| && j < |v|
    requires target == s[k][j] + Coef(i, k, a) * v[j]
    ensures Deposit(s, v, i, a)[k][j] == target
  {
    DepositCell(s, v, i, a, k, j);
  }

  /**
   * The ending statements: row 2m-1 is overwritten with 2*(2b) times the last
   * input row, which also adds 2a+2c, 2b and 2c to rows 2m-2, 2m-3, 2m-4.
   */
  function Finish(s: Matrix, v: seq<real>, m: nat, a: real): (r: Matrix)
    requires |s| == 2 * m && m >= 2 && Rows(s, |v|)
    ensures |r| == |s| && Rows(r, |v|)
  {
    var s1 := s[2 * m - 1 := Scaled(2.0 * B2, v)];
    var s2 := s1[2 * m - 2 := AddScaled(s1[2 * m - 2], A2(a) + C2(a), v)];
    var s3 := s2[2 * m - 3 := AddScaled(s2[2 * m - 3], B2, v)];
    s3[2 * m - 4 := AddScaled(s3[2 * m - 4], C2(a), v)]
  }

  /** The weight the ending adds to output row `k`. */
  function EndCoef(m: int, k: int, a: real): real {
    if k == 2 * m - 2 then A2(a) + C2(a)
    else if k == 2 * m - 3 then B2
    else if k == 2 * m - 4 then C2(a)
    else 0.0
  }

  lemma FinishCell(s: Matrix, v: seq<real>, m: nat, a: real, k: nat, j: nat)
    requires |s| == 2 * m && m >= 2 && Rows(s, |v|) && k < |s| && j < |v|
    ensures Finish(s, v, m, a)[k][j] == if k == 2 * m - 1 then 2.0 * B2 * v[j] else s[k][j] + EndCoef(m, k, a) * v[j]
  {
  }

  /**
   * Entry (k, j) of the expansion of the `m` rows of `x`: output row 2q is
   * 2c, 2a, 2c times input rows q-1, q, q+1 and row 2q+1 is 2b, 2b times
   * rows q, q+1, with the missing row q-1 above the top taken as zero and
   * the missing row m below the bottom taken as row m-1.
   */
  function ExpandAt(x: Matrix, a: real, k: nat, j: int): real {
    var m := |x|;
    var q := k / 2;
    var e := if q + 1 < m then q + 1 else m - 1;
    if k % 2 == 0 then
      (if q >= 1 then C2(a) * At(x, q - 1, j) else 0.0) + A2(a) * At(x, q, j) + C2(a) * At(x, e, j)
    else
      B2 * At(x, q, j) + B2 * At(x, e, j)
  }

  /** The first-axis expansion: twice as many rows, entries `ExpandAt`. */
  function Expanded(x: Matrix, w: nat, a: real): (r: Matrix)
    ensures IsMatrix(r, 2 * |x|, w)
    ensures forall k, j :: 0 <= k < 2 * |x| && 0 <= j < w ==> r[k][j] == ExpandAt(x, a, k, j)
  {
    seq(2 * |x|, k requires 0 <= k => seq(w, j => ExpandAt(x, a, k, j)))
  }

  /** After the loop, the ending completes every row to its closed form. */
  lemma EndStep(x: Matrix, a: real, k: nat, j: int)
    requires |x| >= 2 && k < 2 * |x|
    ensures ExpandAt(x, a, k, j) ==
      if k == 2 * |x| - 1 then 2.0 * B2 * At(x, |x| - 1, j)
      else PartialAt(x, a, |x| - 1, k, j) + EndCoef(|x|, k, a) * At(x, |x| - 1, j)
  {
    var q := k / 2;
    assert k == 2 * q + k % 2;
  }

  lemma FinishIsExpanded(x: Matrix, w: nat, a: real)
    requires IsMatrix(x, |x|, w) && |x| >= 2
    ensures Finish(Part(x, w, a, |x| - 1), x[|x| - 1], |x|, a) == Expanded(x, w, a)
  {
    var m := |x|;
    var s := Part(x, w, a, m - 1);
    var f := Finish(s, x[m - 1], m, a);
    PartCells(x, w, a, m - 1);
    forall k, j | 0 <= k < 2 * m && 0 <= j < w
      ensures f[k][j] == Expanded(x, w, a)[k][j]
    {
      FinishOne(x, w, a, s, k, j);
    }
    MatrixEq(f, Expanded(x, w, a), 2 * m, w);
  }

  lemma FinishOne(x: Matrix, w: nat, a: real, s: Matrix, k: nat, j: nat)
    requires IsMatrix(x, |x|, w) && |x| >= 2 && |s| == 2 * |x| && Rows(s, w)
    requires k < 2 * |x| && j < w && s[k][j] == PartialAt(x, a, |x| - 1, k, j)
    ensures Finish(s, x[|x| - 1], |x|, a)[k][j] == ExpandAt(x, a, k, j)
  {
    FinishCell(s, x[|x| - 1], |x|, a, k, j);
    EndStep(x, a, k, j);
    assert At(x, |x| - 1, j) == x[|x| - 1][j];
  }

  /** The `+=` statements of one input row (`Deposit`) on `__temp`. */
  method DepositRow(temp: array<seq<real>>, v: seq<real>, i: nat, a: real)
    requires Rows(temp[..], |v|) && 2 * i + 2 < temp.Length
    modifies temp
    ensures temp[..] == Deposit(old(temp[..]), v, i, a)
  {
    temp[2 * i + 2] := AddScaled(temp[2 * i + 2], C2(a), v);
    temp[2 * i + 1] := AddScaled(temp[2 * i + 1], B2, v);
    temp[2 * i] := AddScaled(temp[2 * i], A2(a), v);
    if i > 0 {
      temp[2 * i - 1] := AddScaled(temp[2 * i - 1], B2, v);
      temp[2 * i - 2] := AddScaled(temp[2 * i - 2], C2(a), v);
    }
  }

  /** The ending statements (`Finish`) on `__temp`. */
  method FinishRows(temp: array<seq<real>>, v: seq<real>, m: nat, a: real)
    requires temp.Length == 2 * m && m >= 2 && Rows(temp[..], |v|)
    modifies temp
    ensures temp[..] == Finish(old(temp[..]), v, m, a)
  {
    temp[2 * m - 1] := Scaled(2.0 * B2, v);
    temp[2 * m - 2] := AddScaled(temp[2 * m - 2], A2(a) + C2(a), v);
    temp[2 * m - 3] := AddScaled(temp[2 * m - 3], B2, v);
    temp[2 * m - 4] := AddScaled(temp[2 * m - 4], C2(a), v);
  }

  /**
   * One axis of `expand_`: `__temp` starts as zeros, input row 0 deposits
   * on rows 2, 1, 0, the loop deposits rows 1 to m-2, and the ending
   * handles row m-1. The result is the closed form `Expanded`.
   */
  method ExpandAxis(x: Matrix, w: nat, a: real) returns (r: Matrix)
    requires IsMatrix(x, |x|, w) && |x| >= 2
    ensures r == Expanded(x, w, a)
  {
    var m := |x|;
    var temp := new seq<real>[2 * m](_ => Zeros(w));
    assert temp[..] == Part(x, w, a, 0);
    DepositRow(temp, x[0], 0, a);
    for i := 1 to m - 1
      invariant temp[..] == Part(x, w, a, i)
    {
      DepositRow(temp, x[i], i, a);
    }
    FinishRows(temp, x[m - 1], m, a);
    FinishIsExpanded(x, w, a);
    r := temp[..];
  }

  /** `expand_` on a whole matrix: the first axis, then the second through the transpose. */
  function Expanded2(g: Matrix, a: real): (r: Matrix)
    ensures Rect(g) && |g| > 0 && Width(g) > 0 ==> IsMatrix(r, 2 * |g|, 2 * Width(g))
  {
    var t := Expanded(g, Width(g), a);
    var u := Expanded(Transpose(t), |t|, a);
    assert Rect(g) && |g| > 0 && Width(g) > 0 ==> Width(t) == Width(g) && Width(u) == |t|;
    Transpose(u)
  }

  /**
   * `expand_(_arr, _a)`: the matrix doubled each way. It reads rows and
   * columns 0 to 3 of the output, so it needs two of each in the input.
   */
  method Expand(g: Matrix, a: real) returns (r: Matrix)
    requires Rect(g) && |g| >= 2 && Width(g) >= 2
    ensures r == Expanded2(g, a)
  {
    var t := ExpandAxis(g, Width(g), a);
    assert Width(t) == Width(g);
    var u := ExpandAxis(Transpose(t), |t|, a);
    return Transpose(u);
  }

  /**
   * A constant expands to itself everywhere but on the first output row,
   * where the tap of the row above the top is missing and the value is
   * scaled by 2a + 2c = a + 1/2.
   */
  lemma ExpandedConstant(m: nat, w: nat, v: real, a: real, k: nat, j: nat)
    requires m >= 2 && k < 2 * m && j < w
    ensures Expanded(Constant(m, w, v), w, a)[k][j] == if k == 0 then (a + 0.5) * v else v
  {
    var x := Constant(m, w, v);
    var q := k / 2;
    assert k == 2 * q + k % 2;
    assert At(x, q, j) == v;
    if k % 2 == 0 {
      if q >= 1 {
        assert At(x, q - 1, j) == v;
      }
    }
    var e := if q + 1 < m then q + 1 else m - 1;
    assert At(x, e, j) == v;
  }
}
