/**
 * The run-length codec of the compression programs (haar/haar_compression.cpp
 * and lazy/lazy_compression.cpp): coefficients are quantised to bytes, the
 * bytes are read row by row into (value, count) runs, and the decoder walks
 * the pixels from the last to the first, popping runs off the back of the list.
 * The earlier draft encoder of haar_compression.cpp is modelled beside them.
 */
module RunLength {
  import opened Wrappers
  import opened Images

  /** One `pair<uchar, int>` of the code: a byte value and its repeat count. */
  datatype Run = Run(value: Byte, count: int)

  // Quantisation

  /** Rounding to the nearest integer, ties to the even one (`cvRound`). */
  function RoundHalfEven(x: real): (n: int)
    ensures n as real - 0.5 <= x <= n as real + 0.5
    ensures x - x.Floor as real == 0.5 ==> n % 2 == 0
  {
    var f := x.Floor;
    var d := x - f as real;
    if d < 0.5 then f
    else if d > 0.5 then f + 1
    else if f % 2 == 0 then f else f + 1
  }

  /** The conversion of a float to `uchar` (`saturate_cast`): round, then clamp to [0, 255]. */
  function SaturateByte(x: real): (b: Byte)
    ensures -0.5 <= x <= 255.5 ==> b as real - 0.5 <= x <= b as real + 0.5
    ensures x < -0.5 ==> b == 0
    ensures x > 255.5 ==> b == 255
  {
    var n := RoundHalfEven(x);
    if n < 0 then 0 else if n > 255 then 255 else n
  }

  /** The byte an entry becomes once the matrix is scaled by `a`, shifted by `b` and converted. */
  function Quantise(x: real, a: real, b: real): Byte {
    SaturateByte(x * a + b)
  }

  /** The entry the decoder writes for the byte `v`: `(v - offset) / 128`. */
  function Dequantise(v: Byte, offset: real): real {
    (v as real - offset) / 128.0
  }

  /** The matrix scaled by `a` and shifted by `b`, entry by entry. */
  function ScaleAll(g: Matrix, a: real, b: real): (r: Matrix)
    ensures |r| == |g|
    ensures forall i :: 0 <= i < |g| ==> |r[i]| == |g[i]|
    ensures forall i, j :: 0 <= i < |g| && 0 <= j < |g[i]| ==> r[i][j] == g[i][j] * a + b
  {
    seq(|g|, i requires 0 <= i < |g| => seq(|g[i]|, j requires 0 <= j < |g[i]| => g[i][j] * a + b))
  }

  /** The byte matrix `convertTo` makes of a float matrix. */
  function ToBytes(g: Matrix): (r: ByteMatrix)
    ensures |r| == |g|
    ensures forall i :: 0 <= i < |g| ==> |r[i]| == |g[i]|
    ensures forall i, j :: 0 <= i < |g| && 0 <= j < |g[i]| ==> r[i][j] == SaturateByte(g[i][j])
  {
    seq(|g|, i requires 0 <= i < |g| => seq(|g[i]|, j requires 0 <= j < |g[i]| => SaturateByte(g[i][j])))
  }

  /** The float matrix the decoder writes for a byte matrix. */
  function DequantiseAll(q: ByteMatrix, offset: real): (r: Matrix)
    ensures |r| == |q|
    ensures forall i :: 0 <= i < |q| ==> |r[i]| == |q[i]|
    ensures forall i, j :: 0 <= i < |q| && 0 <= j < |q[i]| ==> r[i][j] == Dequantise(q[i][j], offset)
  {
    seq(|q|, i requires 0 <= i < |q| => seq(|q[i]|, j requires 0 <= j < |q[i]| => Dequantise(q[i][j], offset)))
  }

  /**
   * Quantising with scale 128 and then dequantising with the same offset
   * moves an entry by at most 1/256, as long as it is not clamped.
   */
  lemma QuantiseError(x: real, offset: real)
    requires -0.5 <= x * 128.0 + offset <= 255.5
    ensures Abs(Dequantise(Quantise(x, 128.0, offset), offset) - x) <= 1.0 / 256.0
  {
    var v := Quantise(x, 128.0, offset);
    assert v as real - 0.5 <= x * 128.0 + offset <= v as real + 0.5;
    assert Dequantise(v, offset) - x == (v as real - (x * 128.0 + offset)) / 128.0;
  }

  // Byte matrices as arrays and as a row-major sequence

  /** The entries of a byte matrix in row-major order. */
  function Flatten(g: ByteMatrix): (s: seq<Byte>)
  {
    if |g| == 0 then [] else Flatten(g[..|g| - 1]) + g[|g| - 1]
  }

  lemma {:induction false} FlattenLength(g: ByteMatrix, h: nat, w: nat)
    requires IsByteMatrix(g, h, w)
    ensures |Flatten(g)| == h * w
  {
    if h > 0 {
      FlattenLength(g[..h - 1], h - 1, w);
      assert (h - 1) * w + w == h * w;
    }
  }

  /** Two byte matrices of one shape with the same row-major entries are equal. */
  lemma {:induction false} FlattenInjective(g1: ByteMatrix, g2: ByteMatrix, h: nat, w: nat)
    requires IsByteMatrix(g1, h, w) && IsByteMatrix(g2, h, w)
    requires Flatten(g1) == Flatten(g2)
    ensures g1 == g2
  {
    if h > 0 {
      var p1, p2 := g1[..h - 1], g2[..h - 1];
      FlattenLength(p1, h - 1, w);
      FlattenLength(p2, h - 1, w);
      var n := (h - 1) * w;
      assert Flatten(g1) == Flatten(p1) + g1[h - 1];
      assert Flatten(g2) == Flatten(p2) + g2[h - 1];
      assert Flatten(p1) == Flatten(g1)[..n] == Flatten(g2)[..n] == Flatten(p2);
      assert g1[h - 1] == Flatten(g1)[n..] == Flatten(g2)[n..] == g2[h - 1];
      FlattenInjective(p1, p2, h - 1, w);
      assert g1 == p1 + [g1[h - 1]];
      assert g2 == p2 + [g2[h - 1]];
    }
  }

  // Runs

  /** `n` copies of `v` (none when `n` is not positive). */
  function Repeat(v: Byte, n: int): (s: seq<Byte>)
    ensures |s| == if n < 0 then 0 else n
    ensures forall i :: 0 <= i < |s| ==> s[i] == v
  {
    seq(if n < 0 then 0 else n, _ => v)
  }

  lemma RepeatSnoc(v: Byte, n: int)
    requires n >= 0
    ensures Repeat(v, n) + [v] == Repeat(v, n + 1)
  {
    assert (Repeat(v, n) + [v])[n] == v;
  }

  /** The bytes a list of runs stands for, first run first. */
  function Expand(rs: seq<Run>): seq<Byte>
  {
    if |rs| == 0 then [] else Expand(rs[..|rs| - 1]) + Repeat(rs[|rs| - 1].value, rs[|rs| - 1].count)
  }

  /** The sum of the counts. */
  function Sum(rs: seq<Run>): int
  {
    if |rs| == 0 then 0 else Sum(rs[..|rs| - 1]) + rs[|rs| - 1].count
  }

  predicate AllPositive(rs: seq<Run>) {
    forall i :: 0 <= i < |rs| ==> rs[i].count >= 1
  }

  /** Adjacent runs carry different values. */
  predicate Alternating(rs: seq<Run>) {
    forall i :: 0 < i < |rs| ==> rs[i - 1].value != rs[i].value
  }

  /** `rs` is a run-length code of `bs`: every count is positive, adjacent values differ, and it expands to `bs`. */
  predicate IsRunLength(rs: seq<Run>, bs: seq<Byte>) {
    AllPositive(rs) && Alternating(rs) && Expand(rs) == bs
  }

  lemma ExpandSnoc(rs: seq<Run>, r: Run)
    ensures Expand(rs + [r]) == Expand(rs) + Repeat(r.value, r.count)
    ensures Sum(rs + [r]) == Sum(rs) + r.count
  {
    assert (rs + [r])[..|rs|] == rs;
  }

  /** With positive counts the code is at least as long as it has runs, and its sum is the expanded length. */
  lemma {:induction false} SumOfPositive(rs: seq<Run>)
    requires AllPositive(rs)
    ensures Sum(rs) >= |rs| && Sum(rs) == |Expand(rs)|
  {
    if |rs| > 0 {
      SumOfPositive(rs[..|rs| - 1]);
    }
  }

  // The encoder

  /** The encoder's running state: the code so far, the current value `_cval` and its count `_run`. */
  datatype Coder = Coder(code: seq<Run>, cval: Byte, run: int)

  /** One pixel of the encoding loop. */
  function Next(s: Coder, v: Byte): Coder {
    if v == s.cval then s.(run := s.run + 1)
    else Coder(s.code + [Run(s.cval, s.run)], v, 1)
  }

  /** The encoding loop over the bytes `bs`, from the state `s`. */
  function Scan(bs: seq<Byte>, s: Coder): Coder
  {
    if |bs| == 0 then s else Next(Scan(bs[..|bs| - 1], s), bs[|bs| - 1])
  }

  lemma ScanSnoc(bs: seq<Byte>, v: Byte, s: Coder)
    ensures Scan(bs + [v], s) == Next(Scan(bs, s), v)
  {
    assert (bs + [v])[..|bs|] == bs;
  }

  /** The first `j` entries of row `i` after the rows above it, in row-major order. */
  function Prefix(g: ByteMatrix, i: int, j: int): seq<Byte>
    requires 0 <= i < |g| && 0 <= j <= |g[i]|
  {
    Flatten(g[..i]) + g[i][..j]
  }

  /** Reading entry (i, j) extends the prefix by one: the loop's step, and its row boundaries. */
  lemma PrefixStep(g: ByteMatrix, i: int, j: int, s: Coder)
    requires 0 <= i < |g| && 0 <= j < |g[i]|
    ensures Scan(Prefix(g, i, j + 1), s) == Next(Scan(Prefix(g, i, j), s), g[i][j])
  {
    assert g[i][..j + 1] == g[i][..j] + [g[i][j]];
    assert Prefix(g, i, j + 1) == Prefix(g, i, j) + [g[i][j]];
    ScanSnoc(Prefix(g, i, j), g[i][j], s);
  }

  lemma PrefixRows(g: ByteMatrix, i: int)
    requires 0 <= i < |g|
    ensures Prefix(g, i, 0) == Flatten(g[..i])
    ensures Prefix(g, i, |g[i]|) == Flatten(g[..i + 1])
  {
    assert g[..i + 1][..i] == g[..i];
    assert g[i][..|g[i]|] == g[i];
    assert Flatten(g[..i]) + [] == Flatten(g[..i]);
  }

  /**
   * `runlength_encode`: start with the first byte and a count of 0, scan every
   * byte, then push the last run.
   */
  function Encode(bs: seq<Byte>): seq<Run>
    requires |bs| > 0
  {
    var s := Scan(bs, Coder([], bs[0], 0));
    s.code + [Run(s.cval, s.run)]
  }

  /** Appending a run whose value differs from the last one keeps the values alternating. */
  lemma AlternatingSnoc(rs: seq<Run>, r: Run)
    requires Alternating(rs) && (|rs| > 0 ==> rs[|rs| - 1].value != r.value)
    ensures Alternating(rs + [r])
  {
    var c := rs + [r];
    forall i | 0 < i < |c|
      ensures c[i - 1].value != c[i].value
    {
      if i < |c| - 1 {
        assert c[i - 1] == rs[i - 1] && c[i] == rs[i];
      }
    }
  }

  /**
   * What the scan keeps, from an initial run of `r0` copies of `b0`: the code
   * pushed so far and the open run together expand to the initial run
   * followed by the bytes read `bs`; every pushed count is positive and
   * adjacent values differ, also from the open run.
   */
  predicate Scanned(s: Coder, b0: Byte, r0: int, bs: seq<Byte>) {
    AllPositive(s.code) && Alternating(s.code) && s.run >= 0 &&
    (|s.code| > 0 ==> s.code[|s.code| - 1].value != s.cval) &&
    (|bs| > 0 ==> s.run >= 1) &&
    Expand(s.code) + Repeat(s.cval, s.run) == Repeat(b0, r0) + bs
  }

  /** One step of the loop keeps what the scan keeps, when a new value only comes after a non-empty run. */
  lemma NextKeeps(t: Coder, v: Byte, b0: Byte, r0: int, p: seq<Byte>)
    requires Scanned(t, b0, r0, p) && (v != t.cval ==> t.run >= 1)
    ensures Scanned(Next(t, v), b0, r0, p + [v])
  {
    if v == t.cval {
      RepeatSnoc(t.cval, t.run);
      assert Expand(t.code) + Repeat(t.cval, t.run + 1) == (Expand(t.code) + Repeat(t.cval, t.run)) + [v];
      assert Repeat(b0, r0) + (p + [v]) == (Repeat(b0, r0) + p) + [v];
    } else {
      var r := Run(t.cval, t.run);
      ExpandSnoc(t.code, r);
      assert Repeat(v, 1) == [v];
      AlternatingSnoc(t.code, r);
    }
  }

  /** The scan from an initial run of `r0` copies of `b0` keeps `Scanned`. */
  lemma {:induction false} ScanFacts(bs: seq<Byte>, b0: Byte, r0: int)
    requires r0 >= 0 && (r0 == 0 && |bs| > 0 ==> bs[0] == b0)
    ensures Scanned(Scan(bs, Coder([], b0, r0)), b0, r0, bs)
  {
    var init := Coder([], b0, r0);
    if |bs| > 0 {
      var p, v := bs[..|bs| - 1], bs[|bs| - 1];
      assert bs == p + [v];
      ScanFacts(p, b0, r0);
      var t := Scan(p, init);
      ScanSnoc(p, v, init);
      if |p| == 0 {
        assert t == init && v == bs[0];
      }
      NextKeeps(t, v, b0, r0, p);
    } else {
      assert Scan(bs, init) == init;
    }
  }

  /** `runlength_encode` produces a run-length code of the bytes, whose counts sum to the pixel count. */
  lemma EncodeIsRunLength(bs: seq<Byte>)
    requires |bs| > 0
    ensures IsRunLength(Encode(bs), bs)
    ensures Sum(Encode(bs)) == |bs|
  {
    var s := Scan(bs, Coder([], bs[0], 0));
    ScanFacts(bs, bs[0], 0);
    var r := Run(s.cval, s.run);
    ExpandSnoc(s.code, r);
    var c := s.code + [r];
    AlternatingSnoc(s.code, r);
    SumOfPositive(c);
  }

  /**
   * The encoding loop of `runlength_encode` over a byte matrix, row by row,
   * with the last run pushed after the loop.
   */
  method EncodeRuns(img: array2<Byte>) returns (code: seq<Run>)
    requires img.Length0 > 0 && img.Length1 > 0
    ensures code == Encode(Flatten(ByteGrid(img)))
    ensures IsRunLength(code, Flatten(ByteGrid(img)))
    ensures Sum(code) == img.Length0 * img.Length1
  {
    ghost var g := ByteGrid(img);
    ghost var init := Coder([], img[0, 0], 0);
    code := [];
    var cval := img[0, 0];
    var run := 0;
    for i := 0 to img.Length0
      invariant Coder(code, cval, run) == Scan(Flatten(g[..i]), init)
    {
      PrefixRows(g, i);
      for j := 0 to img.Length1
        invariant Coder(code, cval, run) == Scan(Prefix(g, i, j), init)
      {
        PrefixStep(g, i, j, init);
        if img[i, j] == cval {
          run := run + 1;
        } else {
          code := code + [Run(cval, run)];
          cval := img[i, j];
          run := 1;
        }
      }
    }
    assert g[..img.Length0] == g;
    assert Flatten(g)[0] == g[0][0] by {
      FlattenLength(g[..img.Length0 - 1], img.Length0 - 1, img.Length1);
      assert Flatten(g) == Flatten(g[..img.Length0 - 1]) + g[img.Length0 - 1];
      if img.Length0 > 1 {
        FlattenHead(g[..img.Length0 - 1]);
        assert g[..img.Length0 - 1][0] == g[0];
      }
    }
    code := code + [Run(cval, run)];
    EncodeIsRunLength(Flatten(g));
    FlattenLength(g, img.Length0, img.Length1);
  }

  /** The first row-major entry of a byte matrix whose first row is not empty is its (0, 0) entry. */
  lemma {:induction false} FlattenHead(g: ByteMatrix)
    requires |g| > 0 && |g[0]| > 0
    ensures |Flatten(g)| > 0 && Flatten(g)[0] == g[0][0]
  {
    if |g| > 1 {
      FlattenHead(g[..|g| - 1]);
    }
  }

  /** The entry-wise scale and shift `img *= a; img += b` (`img /= d` is a scale by 1/d). */
  method ScaleShift(img: array2<real>, a: real, b: real)
    modifies img
    ensures Grid(img) == ScaleAll(old(Grid(img)), a, b)
  {
    ghost var before := Grid(img);
    for i := 0 to img.Length0
      invariant forall p, q :: 0 <= p < img.Length0 && 0 <= q < img.Length1 ==>
        img[p, q] == if p < i then before[p][q] * a + b else before[p][q]
    {
      for j := 0 to img.Length1
        invariant forall p, q :: 0 <= p < img.Length0 && 0 <= q < img.Length1 ==>
          img[p, q] == if p < i || (p == i && q < j) then before[p][q] * a + b else before[p][q]
      {
        img[i, j] := img[i, j] * a + b;
      }
    }
    MatrixEq(Grid(img), ScaleAll(before, a, b), img.Length0, img.Length1);
  }

  /** `convertTo(img, CV_8UC1)`: a fresh byte matrix of the rounded and clamped entries. */
  method ConvertToBytes(img: array2<real>) returns (bytes: array2<Byte>)
    ensures fresh(bytes) && bytes.Length0 == img.Length0 && bytes.Length1 == img.Length1
    ensures ByteGrid(bytes) == ToBytes(Grid(img))
  {
    bytes := new Byte[img.Length0, img.Length1]((i, j) requires 0 <= i < img.Length0 && 0 <= j < img.Length1 reads img =>
      SaturateByte(img[i, j]));
    assert IsByteMatrix(ByteGrid(bytes), img.Length0, img.Length1);
    assert IsByteMatrix(ToBytes(Grid(img)), img.Length0, img.Length1);
    forall i | 0 <= i < img.Length0
      ensures ByteGrid(bytes)[i] == ToBytes(Grid(img))[i]
    {
    }
  }

  /**
   * `runlength_encode(img)` of haar/haar_compression.cpp (offset 128) and of
   * lazy/lazy_compression.cpp (offset 127): the matrix is scaled by 128 and
   * shifted in place, converted to bytes (the byte matrix `convertTo` binds
   * back to `img` is returned as `bytes`), and coded.
   */
  method RunLengthEncode(img: array2<real>, offset: real) returns (bytes: array2<Byte>, code: seq<Run>)
    requires img.Length0 > 0 && img.Length1 > 0
    modifies img
    ensures fresh(bytes)
    ensures Grid(img) == ScaleAll(old(Grid(img)), 128.0, offset)
    ensures ByteGrid(bytes) == ToBytes(ScaleAll(old(Grid(img)), 128.0, offset))
    ensures code == Encode(Flatten(ByteGrid(bytes)))
    ensures IsRunLength(code, Flatten(ByteGrid(bytes))) && Sum(code) == img.Length0 * img.Length1
  {
    ScaleShift(img, 128.0, offset);
    bytes := ConvertToBytes(img);
    code := EncodeRuns(bytes);
  }

  // The decoder

  /** The decoder's running state: the runs not yet popped, the current value `_val` and the count `_run` left. */
  datatype Decoder = Decoder(rest: seq<Run>, val: Byte, run: int)

  /**
   * One pixel of `recreate_image`: pop the last run when the current one is
   * used up, then count one off. The pixel gets the new state's `val`.
   * Popping from an empty list has no result (`back()` of an empty vector).
   */
  function Step(d: Decoder): (r: Option<Decoder>)
    ensures r.None? <==> d.run == 0 && |d.rest| == 0
  {
    if d.run == 0 then
      if |d.rest| == 0 then None
      else
        var last := d.rest[|d.rest| - 1];
        Some(Decoder(d.rest[..|d.rest| - 1], last.value, last.count - 1))
    else Some(d.(run := d.run - 1))
  }

  /** A decoder state with the bytes it has written so far, in pixel order. */
  datatype Filled = Filled(dec: Decoder, pixels: seq<Byte>)

  /** `f` with `done` appended to its bytes. */
  function Glue(f: Option<Filled>, done: seq<Byte>): Option<Filled> {
    match f
    case None => None
    case Some(x) => Some(Filled(x.dec, x.pixels + done))
  }

  /**
   * The decoder run over `k` pixels that precede the ones already written:
   * the last of them is written first.
   */
  function Fill(d: Decoder, k: nat): (r: Option<Filled>)
    ensures r.Some? ==> |r.value.pixels| == k
    decreases k
  {
    if k == 0 then Some(Filled(d, []))
    else
      match Step(d)
      case None => None
      case Some(d1) => Glue(Fill(d1, k - 1), [d1.val])
  }

  /** A decoder state with the rows it has written so far, top row first. */
  datatype FilledRows = FilledRows(dec: Decoder, rows: ByteMatrix)

  function GlueRows(f: Option<FilledRows>, done: ByteMatrix): Option<FilledRows> {
    match f
    case None => None
    case Some(x) => Some(FilledRows(x.dec, x.rows + done))
  }

  /** The decoder run over `h` rows of `w` pixels, from the bottom row up. */
  function FillRows(d: Decoder, h: nat, w: nat): (r: Option<FilledRows>)
    ensures r.Some? ==> IsByteMatrix(r.value.rows, h, w)
    decreases h
  {
    if h == 0 then Some(FilledRows(d, []))
    else
      match Fill(d, w)
      case None => None
      case Some(f) => GlueRows(FillRows(f.dec, h - 1, w), [f.pixels])
  }

  /** How `recreate_image` ends. */
  datatype Outcome =
    | Complete    // every run used, the assertion holds
    | RanOut      // a run was needed but the list was empty: `back()` of an empty vector
    | Unconsumed  // runs or counts left over: the final assertion fails

  /** The outcome of a decoder that got through every pixel. */
  function Finish(d: Decoder): Outcome {
    if d.rest == [] && d.run == 0 then Complete else Unconsumed
  }

  /**
   * `recreate_image(_img, _decode)`: walk the pixels from the last row and
   * column to the first, popping a run from the back of `_decode` whenever
   * the current count reaches 0, and write `(_val - offset) / 128` (offset 128
   * in haar/haar_compression.cpp, 127 in lazy/lazy_compression.cpp). `rest`
   * is what is left of `_decode`.
   */
  method RecreateImage(img: array2<real>, decode: seq<Run>, offset: real) returns (rest: seq<Run>, outcome: Outcome)
    modifies img
    ensures match FillRows(Decoder(decode, 0, 0), img.Length0, img.Length1)
      case None => outcome == RanOut
      case Some(r) => rest == r.dec.rest && outcome == Finish(r.dec) && Grid(img) == DequantiseAll(r.rows, offset)
  {
    var h, w := img.Length0, img.Length1;
    ghost var start := Decoder(decode, 0, 0);
    var val: Byte := 0;
    var run := 0;
    rest := decode;
    ghost var done: ByteMatrix := [];
    GlueRowsTwice(FillRows(start, h, w), [], []);
    var i := h - 1;
    while i >= 0
      invariant -1 <= i < h
      invariant IsByteMatrix(done, h - 1 - i, w)
      invariant FillRows(start, h, w) == GlueRows(FillRows(Decoder(rest, val, run), i + 1, w), done)
      invariant forall p, q :: i < p < h && 0 <= q < w ==> img[p, q] == Dequantise(done[p - i - 1][q], offset)
    {
      ghost var rowStart := Decoder(rest, val, run);
      var ok;
      rest, val, run, ok := DecodeRow(img, i, offset, rest, val, run);
      if !ok {
        outcome := RanOut;
        return;
      }
      ghost var row := Fill(rowStart, w).value.pixels;
      GlueRowsTwice(FillRows(Decoder(rest, val, run), i, w), [row], done);
      done := [row] + done;
      i := i - 1;
    }
    outcome := if rest == [] && run == 0 then Complete else Unconsumed;
    MatrixEq(Grid(img), DequantiseAll(done, offset), h, w);
  }

  /**
   * The inner loop of `recreate_image` over row `i`, from its last column to
   * its first; `ok` is false when a run was needed and none was left.
   */
  method DecodeRow(img: array2<real>, i: int, offset: real, rest0: seq<Run>, val0: Byte, run0: int)
    returns (rest: seq<Run>, val: Byte, run: int, ok: bool)
    requires 0 <= i < img.Length0
    modifies img
    ensures ok == Fill(Decoder(rest0, val0, run0), img.Length1).Some?
    ensures ok ==> Decoder(rest, val, run) == Fill(Decoder(rest0, val0, run0), img.Length1).value.dec
    ensures ok ==> forall q :: 0 <= q < img.Length1 ==>
      img[i, q] == Dequantise(Fill(Decoder(rest0, val0, run0), img.Length1).value.pixels[q], offset)
    ensures forall p, q :: 0 <= p < img.Length0 && p != i && 0 <= q < img.Length1 ==> img[p, q] == old(img[p, q])
  {
    var w := img.Length1;
    ghost var rowStart := Decoder(rest0, val0, run0);
    rest, val, run := rest0, val0, run0;
    ghost var row: seq<Byte> := [];
    GlueTwice(Fill(rowStart, w), [], []);
    var j := w - 1;
    while j >= 0
      invariant -1 <= j < w
      invariant |row| == w - 1 - j
      invariant Fill(rowStart, w) == Glue(Fill(Decoder(rest, val, run), j + 1), row)
      invariant forall p, q :: 0 <= p < img.Length0 && p != i && 0 <= q < w ==> img[p, q] == old(img[p, q])
      invariant forall q :: j < q < w ==> img[i, q] == Dequantise(row[q - j - 1], offset)
    {
      ghost var d := Decoder(rest, val, run);
      if run == 0 {
        if |rest| == 0 {
          assert Fill(d, j + 1) == None;
          return rest, val, run, false;
        }
        val := rest[|rest| - 1].value;
        run := rest[|rest| - 1].count;
        rest := rest[..|rest| - 1];
      }
      img[i, j] := Dequantise(val, offset);
      run := run - 1;
      assert Step(d) == Some(Decoder(rest, val, run));
      GlueTwice(Fill(Decoder(rest, val, run), j), [val], row);
      row := [val] + row;
      j := j - 1;
    }
    assert Fill(Decoder(rest, val, run), 0) == Some(Filled(Decoder(rest, val, run), []));
    assert [] + row == row;
    assert Fill(rowStart, w) == Some(Filled(Decoder(rest, val, run), row));
    ok := true;
  }

  lemma GlueTwice(f: Option<Filled>, a: seq<Byte>, b: seq<Byte>)
    ensures Glue(Glue(f, a), b) == Glue(f, a + b)
    ensures Glue(f, []) == f
  {
    if f.Some? {
      assert f.value.pixels + a + b == f.value.pixels + (a + b);
      assert f.value.pixels + [] == f.value.pixels;
    }
  }

  lemma GlueRowsTwice(f: Option<FilledRows>, a: ByteMatrix, b: ByteMatrix)
    ensures GlueRows(GlueRows(f, a), b) == GlueRows(f, a + b)
    ensures GlueRows(f, []) == f
  {
    if f.Some? {
      assert f.value.rows + a + b == f.value.rows + (a + b);
      assert f.value.rows + [] == f.value.rows;
    }
  }

  // What the decoder computes

  /** A decoder holding a negative count never pops again: it repeats its value and the count keeps falling. */
  lemma {:induction false} FillNegative(d: Decoder, k: nat)
    requires d.run < 0
    ensures Fill(d, k).Some?
    ensures Fill(d, k).value.dec == d.(run := d.run - k)
    ensures Fill(d, k).value.pixels == Repeat(d.val, k)
    decreases k
  {
    if k > 0 {
      var d1 := d.(run := d.run - 1);
      FillNegative(d1, k - 1);
      RepeatSnoc(d.val, k - 1);
    }
  }

  /** The decoder got through and used every run and every count. */
  predicate Finished(f: Option<Filled>) {
    f.Some? && f.value.dec.rest == [] && f.value.dec.run == 0
  }

  /**
   * From a state with a count `run` >= 0 left, `k` pixels use up everything
   * exactly when all remaining counts are positive and they add up with
   * `run` to `k`; the pixels are then the remaining runs expanded, followed
   * by `run` copies of the current value.
   */
  lemma {:induction false} FillFacts(d: Decoder, k: nat)
    requires d.run >= 0
    ensures Finished(Fill(d, k)) <==> AllPositive(d.rest) && d.run + Sum(d.rest) == k
    ensures Finished(Fill(d, k)) ==> Fill(d, k).value.pixels == Expand(d.rest) + Repeat(d.val, d.run)
    decreases k, 1
  {
    if k == 0 {
      if AllPositive(d.rest) && d.run + Sum(d.rest) == 0 {
        SumOfPositive(d.rest);
      }
    } else if d.run > 0 {
      var d1 := d.(run := d.run - 1);
      FillFacts(d1, k - 1);
      RepeatSnoc(d.val, d.run - 1);
    } else if |d.rest| > 0 {
      FillFactsPop(d, k);
    }
  }

  /** `FillFacts` when the count is used up and the next run is popped from the back. */
  lemma {:induction false} FillFactsPop(d: Decoder, k: nat)
    requires d.run == 0 && |d.rest| > 0 && k > 0
    ensures Finished(Fill(d, k)) <==> AllPositive(d.rest) && d.run + Sum(d.rest) == k
    ensures Finished(Fill(d, k)) ==> Fill(d, k).value.pixels == Expand(d.rest) + Repeat(d.val, d.run)
    decreases k, 0
  {
    var n := |d.rest|;
    var last, front := d.rest[n - 1], d.rest[..n - 1];
    var d1 := Decoder(front, last.value, last.count - 1);
    assert d.rest == front + [last];
    ExpandSnoc(front, last);
    assert AllPositive(d.rest) <==> AllPositive(front) && last.count >= 1;
    assert Step(d) == Some(d1);
    assert Fill(d, k) == Glue(Fill(d1, k - 1), [last.value]);
    assert Finished(Fill(d, k)) <==> Finished(Fill(d1, k - 1));
    if last.count >= 1 {
      FillFacts(d1, k - 1);
      RepeatSnoc(last.value, last.count - 1);
    } else {
      FillNegative(d1, k - 1);
    }
  }

  /** Running `a + b` pixels is running `b` pixels, then `a` more in front of them. */
  lemma {:induction false} FillAdd(d: Decoder, a: nat, b: nat)
    ensures Fill(d, a + b) == match Fill(d, b)
      case None => None
      case Some(f) => Glue(Fill(f.dec, a), f.pixels)
    decreases b
  {
    if b > 0 {
      match Step(d)
      case None =>
      case Some(d1) =>
        FillAdd(d1, a, b - 1);
        assert a + b - 1 == a + (b - 1);
        match Fill(d1, b - 1)
        case None =>
        case Some(f) =>
          GlueTwice(Fill(f.dec, a), f.pixels, [d1.val]);
    } else {
      match Fill(d, a)
      case None =>
      case Some(f) =>
        assert f.pixels + [] == f.pixels;
    }
  }

  /** The row-by-row decoder computes what the pixel-by-pixel one computes over all `h * w` pixels. */
  predicate Agrees(r: Option<FilledRows>, f: Option<Filled>) {
    r.Some? == f.Some? && (r.Some? ==> r.value.dec == f.value.dec && Flatten(r.value.rows) == f.value.pixels)
  }

  lemma {:induction false} FillRowsIsFill(d: Decoder, h: nat, w: nat)
    ensures Agrees(FillRows(d, h, w), Fill(d, h * w))
    decreases h
  {
    if h > 0 {
      assert h * w == (h - 1) * w + w;
      FillAdd(d, (h - 1) * w, w);
      match Fill(d, w)
      case None =>
      case Some(f) =>
        FillRowsIsFill(f.dec, h - 1, w);
        match FillRows(f.dec, h - 1, w)
        case None =>
        case Some(x) =>
          var rows := x.rows + [f.pixels];
          assert rows[..|rows| - 1] == x.rows;
    }
  }

  /**
   * The exact-consumption assertion of `recreate_image` holds exactly when
   * every count is positive and the counts add up to the pixel count; the
   * image then holds the runs expanded in row-major order.
   */
  lemma DecodeCompleteIff(rs: seq<Run>, h: nat, w: nat)
    ensures var r := FillRows(Decoder(rs, 0, 0), h, w);
      (r.Some? && Finish(r.value.dec) == Complete) <==> AllPositive(rs) && Sum(rs) == h * w
    ensures var r := FillRows(Decoder(rs, 0, 0), h, w);
      r.Some? && Finish(r.value.dec) == Complete ==> Flatten(r.value.rows) == Expand(rs)
  {
    var d := Decoder(rs, 0, 0);
    FillRowsIsFill(d, h, w);
    FillFacts(d, h * w);
    assert Repeat(0, 0) == [];
    assert Expand(rs) + [] == Expand(rs);
  }

  /**
   * Round trip: the decoder run on the code of a byte matrix uses every run
   * and gives back that matrix.
   */
  lemma DecodeEncoded(q: ByteMatrix, h: nat, w: nat)
    requires IsByteMatrix(q, h, w) && h > 0 && w > 0
    ensures var r := FillRows(Decoder(Encode(Flatten(q)), 0, 0), h, w);
      r.Some? && Finish(r.value.dec) == Complete && r.value.rows == q
  {
    var bs := Flatten(q);
    FlattenLength(q, h, w);
    assert |bs| > 0 by {
      assert h * w >= 1 * w;
    }
    var code := Encode(bs);
    EncodeIsRunLength(bs);
    DecodeCompleteIff(code, h, w);
    var r := FillRows(Decoder(code, 0, 0), h, w);
    FlattenInjective(r.value.rows, q, h, w);
  }

  /**
   * Round trip of the whole codec: encoding a float matrix with an offset and
   * decoding with the same offset writes, at every pixel, `(q - offset) / 128`
   * for that pixel's quantised byte `q`.
   */
  lemma CodecRoundTrip(g: Matrix, h: nat, w: nat, offset: real)
    requires IsMatrix(g, h, w) && h > 0 && w > 0
    ensures var q := ToBytes(ScaleAll(g, 128.0, offset));
      var r := FillRows(Decoder(Encode(Flatten(q)), 0, 0), h, w);
      r.Some? && Finish(r.value.dec) == Complete &&
      forall i, j :: 0 <= i < h && 0 <= j < w ==>
        DequantiseAll(r.value.rows, offset)[i][j] == Dequantise(Quantise(g[i][j], 128.0, offset), offset)
  {
    var q := ToBytes(ScaleAll(g, 128.0, offset));
    DecodeEncoded(q, h, w);
  }

  // The draft encoder of haar_compression.cpp

  /** The draft's loop: the count starts at 1 and nothing is pushed after the loop. */
  function DraftRuns(bs: seq<Byte>): seq<Run>
    requires |bs| > 0
  {
    Scan(bs, Coder([], bs[0], 1)).code
  }

  /**
   * What the draft emits: the pushed runs followed by the run still open at
   * the end (which it drops) expand to the first byte followed by all bytes;
   * the pushed counts are positive and adjacent pushed values differ.
   */
  lemma DraftExpands(bs: seq<Byte>)
    requires |bs| > 0
    ensures var s := Scan(bs, Coder([], bs[0], 1));
      DraftRuns(bs) == s.code && s.run >= 1 &&
      (|s.code| > 0 ==> s.code[|s.code| - 1].value != s.cval) &&
      Expand(s.code) + Repeat(s.cval, s.run) == [bs[0]] + bs &&
      AllPositive(DraftRuns(bs)) && Alternating(DraftRuns(bs))
  {
    ScanFacts(bs, bs[0], 1);
    assert Repeat(bs[0], 1) == [bs[0]];
  }

  /** The draft's code never stands for all the pixels: it is always short of the last run. */
  lemma DraftIsShort(bs: seq<Byte>)
    requires |bs| > 0
    ensures |Expand(DraftRuns(bs))| <= |bs|
    ensures Expand(DraftRuns(bs)) != bs
  {
    DraftExpands(bs);
    var s := Scan(bs, Coder([], bs[0], 1));
    var e := Expand(s.code);
    var n := |bs|;
    assert |e| + s.run == 1 + n;
    if |e| == n {
      assert (e + Repeat(s.cval, s.run))[n] == s.cval;
      assert ([bs[0]] + bs)[n] == bs[n - 1];
      if |s.code| > 0 {
        ExpandLast(s.code);
        assert e[n - 1] != bs[n - 1];
      }
    }
  }

  /** With positive counts, the last expanded byte is the last run's value. */
  lemma ExpandLast(rs: seq<Run>)
    requires |rs| > 0 && AllPositive(rs)
    ensures |Expand(rs)| > 0 && Expand(rs)[|Expand(rs)| - 1] == rs[|rs| - 1].value
  {
    var r := rs[|rs| - 1];
    assert Expand(rs) == Expand(rs[..|rs| - 1]) + Repeat(r.value, r.count);
  }

  /**
   * Concrete inputs: a constant image gives an empty code, and for the bytes
   * 1, 1, 2 the first count is 3 and the run of 2 is missing.
   */
  lemma DraftCounterexamples()
    ensures DraftRuns([7, 7, 7, 7]) == []
    ensures DraftRuns([1, 1, 2]) == [Run(1, 3)]
    ensures Encode([1, 1, 2]) == [Run(1, 2), Run(2, 1)]
  {
    var s7 := Coder([], 7, 1);
    assert [7, 7, 7, 7][..3] == [7, 7, 7];
    assert [7, 7, 7][..2] == [7, 7];
    assert [7, 7][..1] == [7];
    assert Scan([7], s7) == s7.(run := 2);
    assert Scan([7, 7], s7) == s7.(run := 3);
    assert Scan([7, 7, 7], s7) == s7.(run := 4);
    var s1 := Coder([], 1, 1);
    assert [1, 1, 2][..2] == [1, 1];
    assert [1, 1][..1] == [1];
    assert Scan([1], s1) == s1.(run := 2);
    assert Scan([1, 1], s1) == s1.(run := 3);
    var s0 := Coder([], 1, 0);
    assert Scan([1], s0) == s0.(run := 1);
    assert Scan([1, 1], s0) == s0.(run := 2);
  }

  /** The draft encoding loop over a byte matrix. */
  method DraftEncodeRuns(img: array2<Byte>) returns (code: seq<Run>)
    requires img.Length0 > 0 && img.Length1 > 0
    ensures code == DraftRuns(Flatten(ByteGrid(img)))
    ensures AllPositive(code) && Alternating(code) && |Expand(code)| <= img.Length0 * img.Length1
  {
    ghost var g := ByteGrid(img);
    ghost var init := Coder([], img[0, 0], 1);
    code := [];
    var cval := img[0, 0];
    var run := 1;
    for i := 0 to img.Length0
      invariant Coder(code, cval, run) == Scan(Flatten(g[..i]), init)
    {
      PrefixRows(g, i);
      for j := 0 to img.Length1
        invariant Coder(code, cval, run) == Scan(Prefix(g, i, j), init)
      {
        PrefixStep(g, i, j, init);
        if img[i, j] == cval {
          run := run + 1;
        } else {
          code := code + [Run(cval, run)];
          cval := img[i, j];
          run := 1;
        }
      }
    }
    assert g[..img.Length0] == g;
    FlattenHead(g);
    DraftExpands(Flatten(g));
    DraftIsShort(Flatten(g));
    FlattenLength(g, img.Length0, img.Length1);
  }

  /**
   * The draft `runlength_encode(img)`: divide by the first entry plus one,
   * scale by 128, shift by 128, convert to bytes and code. A first entry of
   * -1 would divide by zero.
   */
  method DraftRunLengthEncode(img: array2<real>) returns (bytes: array2<Byte>, code: seq<Run>)
    requires img.Length0 > 0 && img.Length1 > 0 && img[0, 0] != -1.0
    modifies img
    ensures fresh(bytes)
    ensures Grid(img) == ScaleAll(old(Grid(img)), 128.0 / (old(img[0, 0]) + 1.0), 128.0)
    ensures ByteGrid(bytes) == ToBytes(Grid(img))
    ensures code == DraftRuns(Flatten(ByteGrid(bytes)))
  {
    var first := img[0, 0];
    ScaleShift(img, 128.0 / (first + 1.0), 128.0);
    bytes := ConvertToBytes(img);
    code := DraftEncodeRuns(bytes);
  }
}
