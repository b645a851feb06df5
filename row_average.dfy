/**
 * Row averaging of a colour image: every pixel of row i is replaced by the
 * mean colour of row i, channel by channel. 0/img_process.py does it in
 * floating point over 64-bit sums; the loop in 0/img_process.cpp sums into
 * `int`s and divides with integer division.
 */
module RowAverage {
  import opened Images

  /** A pixel: one byte per channel. */
  type Pixel = seq<Byte>

  /** `img` has `h` rows of `w` pixels of `c` channels each. */
  predicate IsImage(img: seq<seq<Pixel>>, h: int, w: int, c: int) {
    |img| == h && forall i :: 0 <= i < h ==> |img[i]| == w && forall j :: 0 <= j < w ==> |img[i][j]| == c
  }

  /** Channel `ch` of a pixel, 0 when the pixel has no such channel. */
  function Channel(p: Pixel, ch: int): Byte {
    if 0 <= ch < |p| then p[ch] else 0
  }

  /** Sum of channel `ch` over a row (`row.sum(axis=0)[ch]`). */
  function ChannelSum(row: seq<Pixel>, ch: int): (s: nat)
    ensures s <= 255 * |row|
  {
    if |row| == 0 then 0 else ChannelSum(row[..|row| - 1], ch) + Channel(row[|row| - 1], ch)
  }

  /**
   * The mean colour of a row, over `c` channels: `row.sum(axis=0) / row_len`.
   * Every channel of the mean lies in [0, 255], and the mean times the row's
   * length gives back the sum.
   */
  function Mean(row: seq<Pixel>, c: nat): (m: seq<real>)
    ensures |m| == c
    ensures forall ch :: 0 <= ch < c ==> 0.0 <= m[ch] <= 255.0
    ensures |row| > 0 ==> forall ch :: 0 <= ch < c ==> m[ch] * |row| as real == ChannelSum(row, ch) as real
  {
    seq(c, ch requires 0 <= ch < c => MeanOf(ChannelSum(row, ch), |row|))
  }

  /** A channel sum divided by the row length (0 for an empty row, whose mean is never stored). */
  function MeanOf(s: nat, w: nat): (m: real)
    requires s <= 255 * w
    ensures 0.0 <= m <= 255.0
    ensures w > 0 ==> m * w as real == s as real
  {
    if w == 0 then 0.0 else DivideBounded(s, w); s as real / w as real
  }

  lemma DivideBounded(s: nat, w: nat)
    requires w > 0 && s <= 255 * w
    ensures 0.0 <= s as real / w as real <= 255.0
    ensures (s as real / w as real) * w as real == s as real
  {
    var q := s as real / w as real;
    assert q * w as real == s as real;
    assert (s as real) <= 255.0 * w as real;
  }

  /** Number of pixels in a row (`img.shape[1]`), 0 for an image with no rows. */
  function RowLength(img: seq<seq<Pixel>>): nat {
    if |img| == 0 then 0 else |img[0]|
  }

  /** Number of channels, read off the first pixel. */
  function Channels(img: seq<seq<Pixel>>): nat {
    if |img| == 0 || |img[0]| == 0 then 0 else |img[0][0]|
  }

  /**
   * `process(img)` of 0/img_process.py: one output row per input row, each
   * made of `row_len` copies of that row's mean colour.
   */
  method Process(img: seq<seq<Pixel>>) returns (out: seq<seq<seq<real>>>)
    requires IsImage(img, |img|, RowLength(img), Channels(img))
    ensures |out| == |img|
    ensures forall i :: 0 <= i < |img| ==> |out[i]| == RowLength(img)
    ensures forall i, j :: 0 <= i < |img| && 0 <= j < RowLength(img) ==> out[i][j] == Mean(img[i], Channels(img))
  {
    var rowLen := RowLength(img);
    var c := Channels(img);
    out := [];
    for i := 0 to |img|
      invariant |out| == i
      invariant forall p :: 0 <= p < i ==> |out[p]| == rowLen
      invariant forall p, j :: 0 <= p < i && 0 <= j < rowLen ==> out[p][j] == Mean(img[p], c)
    {
      var avg := Mean(img[i], c);
      out := out + [seq(rowLen, _ => avg)];
    }
  }

  // The C++ loop.

  /** Largest row length whose channel sums fit in a 32-bit `int`. */
  const MaxWidth := 8421504

  /** Rows up to `MaxWidth` pixels keep every channel sum within `int`; one more pixel may not. */
  lemma MaxWidthIsTight()
    ensures 255 * MaxWidth <= IntMax < 255 * (MaxWidth + 1)
  {
  }

  /** The pixel the C++ loop writes for a row: each channel sum divided by the width, truncated. */
  function CppMean(row: seq<Pixel>): (m: Pixel)
    requires |row| > 0
    ensures |m| == 3
    ensures forall ch :: 0 <= ch < 3 ==> m[ch] * |row| <= ChannelSum(row, ch) < (m[ch] + 1) * |row|
  {
    [ByteQuotient(ChannelSum(row, 0), |row|), ByteQuotient(ChannelSum(row, 1), |row|), ByteQuotient(ChannelSum(row, 2), |row|)]
  }

  /** `s / w` on non-negative `int`s (C++ truncation and Euclidean division agree here); it fits a byte. */
  function ByteQuotient(s: nat, w: nat): (q: Byte)
    requires w > 0 && s <= 255 * w
    ensures q * w <= s < (q + 1) * w
  {
    QuotientBounds(s, w);
    s / w
  }

  lemma QuotientBounds(s: nat, w: nat)
    requires w > 0 && s <= 255 * w
    ensures 0 <= s / w < 256
    ensures (s / w) * w <= s < (s / w + 1) * w
  {
    var q := s / w;
    assert s == q * w + s % w;
    CancelFactor(q, 255, w);
  }

  lemma CancelFactor(a: int, b: int, w: int)
    requires w > 0 && a * w <= b * w
    ensures a <= b
  {
  }

  /** Row `i` of a pixel array. */
  function RowOf(img: array2<Pixel>, i: int): (row: seq<Pixel>)
    requires 0 <= i < img.Length0
    reads img
    ensures |row| == img.Length1 && forall j :: 0 <= j < img.Length1 ==> row[j] == img[i, j]
  {
    seq(img.Length1, j requires 0 <= j < img.Length1 reads img => img[i, j])
  }

  /**
   * The averaging loop of 0/img_process.cpp on a 3-channel image: a fresh
   * zero image of the same size, whose every pixel in row i becomes
   * `CppMean` of row i of the input. An image with rows but no columns
   * divides by zero, and a row wider than `MaxWidth` overflows `int`; the
   * loop does neither.
   */
  method AverageRows(img: array2<Pixel>) returns (out: array2<Pixel>)
    requires forall i, j :: 0 <= i < img.Length0 && 0 <= j < img.Length1 ==> |img[i, j]| == 3
    requires img.Length0 == 0 || img.Length1 > 0
    requires img.Length1 <= MaxWidth
    ensures fresh(out) && out.Length0 == img.Length0 && out.Length1 == img.Length1
    ensures forall i, j :: 0 <= i < img.Length0 && 0 <= j < img.Length1 ==> out[i, j] == CppMean(RowOf(img, i))
  {
    var h, w := img.Length0, img.Length1;
    out := new Pixel[h, w]((i, j) => [0, 0, 0]);
    for i := 0 to h
      invariant forall p, q :: 0 <= p < h && 0 <= q < w ==> out[p, q] == if p < i then CppMean(RowOf(img, p)) else [0, 0, 0]
    {
      var b0, b1, b2 := RowSums(img, i);
      b0, b1, b2 := b0 / w, b1 / w, b2 / w;
      assert [b0, b1, b2] == CppMean(RowOf(img, i));
      for j := 0 to w
        invariant forall p, q :: 0 <= p < h && 0 <= q < w ==>
          out[p, q] == if p < i || (p == i && q < j) then CppMean(RowOf(img, p)) else [0, 0, 0]
      {
        out[i, j] := [b0, b1, b2];
      }
    }
  }

  /** The summing loop for row `i`: the three channel sums, each within `int`. */
  method RowSums(img: array2<Pixel>, i: int) returns (b0: nat, b1: nat, b2: nat)
    requires 0 <= i < img.Length0 && img.Length1 <= MaxWidth
    requires forall j :: 0 <= j < img.Length1 ==> |img[i, j]| == 3
    ensures b0 == ChannelSum(RowOf(img, i), 0) && b1 == ChannelSum(RowOf(img, i), 1) && b2 == ChannelSum(RowOf(img, i), 2)
    ensures b0 <= IntMax && b1 <= IntMax && b2 <= IntMax
  {
    ghost var row := RowOf(img, i);
    b0, b1, b2 := 0, 0, 0;
    for j := 0 to img.Length1
      invariant b0 == ChannelSum(row[..j], 0) && b1 == ChannelSum(row[..j], 1) && b2 == ChannelSum(row[..j], 2)
    {
      assert row[..j + 1][..j] == row[..j];
      var x := img[i, j];
      b0, b1, b2 := b0 + x[0], b1 + x[1], b2 + x[2];
    }
    assert row[..img.Length1] == row;
  }

  /**
   * The C++ pixel is the Python mean rounded down: both programs agree up to
   * the fraction the integer division drops.
   */
  lemma CppIsFloorOfMean(row: seq<Pixel>, ch: int)
    requires |row| > 0 && 0 <= ch < 3
    ensures CppMean(row)[ch] as real <= Mean(row, 3)[ch] < CppMean(row)[ch] as real + 1.0
  {
    var s, w := ChannelSum(row, ch), |row|;
    assert Mean(row, 3)[ch] == s as real / w as real;
    FloorOfQuotient(s, w, CppMean(row)[ch]);
  }

  /** An integer quotient bracketed by products is the floor of the real quotient. */
  lemma FloorOfQuotient(s: nat, w: nat, q: int)
    requires w > 0 && q * w <= s < (q + 1) * w
    ensures q as real <= s as real / w as real < q as real + 1.0
  {
    var m := s as real / w as real;
    CastProduct(q, w);
    CastProduct(q + 1, w);
    assert m * w as real == s as real;
    CancelReal(q as real, m, w as real);
    CancelReal(m, (q + 1) as real, w as real);
  }

  lemma CastProduct(a: int, b: int)
    ensures (a * b) as real == a as real * b as real
  {
  }

  lemma CancelReal(a: real, b: real, w: real)
    requires w > 0.0
    ensures a * w <= b * w ==> a <= b
    ensures a * w < b * w ==> a < b
  {
  }
}
