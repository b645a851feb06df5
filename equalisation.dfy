/**
 * Histogram equalisation of a grey image (1/image_enhancement.cpp).
 * `CDF_map` turns a 256-entry `int` array into the transformation map in
 * three loops: count the pixels of each level, accumulate the counts, and
 * stretch the non-zero cumulative counts onto [0, 220].
 * `global_histogram_equilisation` sends every pixel through a map, the
 * caller's or a fresh CDF map.
 */
module Equalisation {
  import opened Wrappers
  import opened Images

  /** Number of grey levels, the length of a map. */
  const Levels := 256

  /** The top of the range the CDF map stretches onto. */
  const Span := 220

  /** A map of all zeros (the `calloc`ed array). */
  const Zeros: seq<int> := seq(Levels, _ => 0)

  // Counting.

  /**
   * The pixels of an image with `h` rows, in the order the counting loop
   * visits them: whole columns 0..i-1, then rows 0..j-1 of column i.
   */
  function Visited(g: ByteMatrix, h: nat, i: nat, j: nat): (s: seq<Byte>)
    requires j <= h
    decreases i, j
  {
    if j > 0 then Visited(g, h, i, j - 1) + [ByteAt(g, j - 1, i)]
    else if i > 0 then Visited(g, h, i - 1, h) else []
  }

  /** Every pixel of the image, column by column. */
  function Pixels(img: array2<Byte>): (s: seq<Byte>)
    reads img
    ensures |s| == img.Length0 * img.Length1
  {
    VisitedLength(ByteGrid(img), img.Length0, img.Length1, 0);
    Visited(ByteGrid(img), img.Length0, img.Length1, 0)
  }

  /** `i` whole columns of `h` pixels and `j` more. */
  lemma {:induction false} VisitedLength(g: ByteMatrix, h: nat, i: nat, j: nat)
    requires j <= h
    ensures |Visited(g, h, i, j)| == i * h + j
    decreases i, j
  {
    if j > 0 {
      VisitedLength(g, h, i, j - 1);
    } else if i > 0 {
      VisitedLength(g, h, i - 1, h);
    }
  }

  /** The map `m0` after counting `s`: entry v grows by the number of pixels of level v. */
  function Counted(m0: seq<int>, s: seq<Byte>): (hs: seq<int>)
    requires |m0| == Levels
    ensures |hs| == Levels
  {
    seq(Levels, v requires 0 <= v < Levels => m0[v] + multiset(s)[v])
  }

  /** Counting one more pixel adds one at its level and nowhere else. */
  lemma CountOne(m0: seq<int>, s: seq<Byte>, v: Byte)
    requires |m0| == Levels
    ensures Counted(m0, s + [v]) == Counted(m0, s)[v := Counted(m0, s)[v] + 1]
  {
    assert multiset(s + [v]) == multiset(s) + multiset{v};
  }

  // Accumulating.

  /** Sum of the first `n` entries. */
  function SumTo(hs: seq<int>, n: nat): int
    requires n <= |hs|
  {
    if n == 0 then 0 else SumTo(hs, n - 1) + hs[n - 1]
  }

  /** The running sums the second loop leaves: entry k holds the sum of entries 0..k. */
  function Cumulated(hs: seq<int>): (cs: seq<int>)
    ensures |cs| == |hs|
    ensures forall k :: 0 <= k < |hs| ==> cs[k] == SumTo(hs, k + 1)
  {
    seq(|hs|, k requires 0 <= k < |hs| => SumTo(hs, k + 1))
  }

  /** `min` once the loop has looked at `cs[0..n-1]`: the least non-zero entry, or `INT32_MAX`. */
  function LowOf(cs: seq<int>, n: nat): (r: int)
    requires n <= |cs|
    ensures r <= IntMax
    ensures forall k :: 0 <= k < n && cs[k] != 0 ==> r <= cs[k]
    ensures r == IntMax || exists k :: 0 <= k < n && cs[k] == r && r != 0
  {
    if n == 0 then IntMax
    else
      var m := LowOf(cs, n - 1);
      if cs[n - 1] != 0 && cs[n - 1] < m then cs[n - 1] else m
  }

  /** `max` once the loop has looked at `cs[1..n]`: the greatest of 0 and those entries. */
  function HighOf(cs: seq<int>, n: nat): (r: int)
    requires n < |cs|
    ensures r >= 0
    ensures forall k :: 1 <= k <= n ==> cs[k] <= r
    ensures r == 0 || exists k :: 1 <= k <= n && cs[k] == r
  {
    if n == 0 then 0
    else
      var m := HighOf(cs, n - 1);
      if cs[n] > m then cs[n] else m
  }

  // Stretching.

  /** `std::round`: to the nearest integer, halves away from zero. */
  function Round(x: real): (n: int)
    ensures n as real - 0.5 <= x <= n as real + 0.5
    ensures x >= 0.0 ==> x < n as real + 0.5
    ensures x <= 0.0 ==> n as real - 0.5 < x
  {
    if x >= 0.0 then (x + 0.5).Floor else -((-x + 0.5).Floor)
  }

  /** The value the third loop gives a cumulative count `c`, for the loop's `min` and `max`. */
  function Stretched(c: int, lo: int, hi: int): (s: int)
    requires c != 0 ==> hi != lo
    ensures c == 0 ==> s == 0
    ensures lo <= c <= hi && lo < hi ==> 0 <= s <= Span
  {
    if c == 0 then 0
    else
      var x := (c - lo) as real / (hi - lo) as real * Span as real;
      if lo <= c <= hi && lo < hi then
        Scale(c - lo, hi - lo, hi - lo);
        RoundBounds(x);
        Round(x)
      else Round(x)
  }

  /**
   * The third loop divides by `max - min` whenever some entry is non-zero;
   * it is defined only when that difference is not zero.
   */
  predicate Divides(cs: seq<int>)
    requires |cs| == Levels
  {
    HighOf(cs, Levels - 1) != LowOf(cs, Levels - 1) || forall k :: 0 <= k < Levels ==> cs[k] == 0
  }

  /** The map after the third loop. */
  function Stretch(cs: seq<int>): (m: seq<int>)
    requires |cs| == Levels && Divides(cs)
    ensures |m| == Levels
  {
    var lo, hi := LowOf(cs, Levels - 1), HighOf(cs, Levels - 1);
    seq(Levels, k requires 0 <= k < Levels => Stretched(cs[k], lo, hi))
  }

  /** What `CDF_map` leaves in a map that held `m0`, for an image whose pixels are `s`. */
  function CdfMapOf(m0: seq<int>, s: seq<Byte>): (m: seq<int>)
    requires |m0| == Levels && Divides(Cumulated(Counted(m0, s)))
    ensures |m| == Levels
  {
    Stretch(Cumulated(Counted(m0, s)))
  }

  /**
   * `CDF_map(img, _map)`: counts every pixel into the map, column by column,
   * accumulates the counts, and stretches every non-zero cumulative count
   * onto [0, 220] between the least non-zero entry and the greatest one.
   */
  method CdfMap(img: array2<Byte>, table: array<int>)
    requires table.Length == Levels
    requires Divides(Cumulated(Counted(table[..], Pixels(img))))
    modifies table
    ensures table[..] == CdfMapOf(old(table[..]), Pixels(img))
  {
    Count(img, table);
    var low, high := Accumulate(table);
    StretchAll(table, low, high);
  }

  /** The counting loop of `CDF_map`: one more at the level of every pixel. */
  method Count(img: array2<Byte>, table: array<int>)
    requires table.Length == Levels
    modifies table
    ensures table[..] == Counted(old(table[..]), Pixels(img))
  {
    ghost var m0 := table[..];
    ghost var g := ByteGrid(img);
    var h, w := img.Length0, img.Length1;
    for i := 0 to w
      invariant table[..] == Counted(m0, Visited(g, h, i, 0))
    {
      for j := 0 to h
        invariant table[..] == Counted(m0, Visited(g, h, i, j))
      {
        var v := img[j, i];
        ghost var seen := Visited(g, h, i, j);
        assert Visited(g, h, i, j + 1) == seen + [v];
        CountOne(m0, seen, v);
        table[v] := table[v] + 1;
      }
      assert Visited(g, h, i + 1, 0) == Visited(g, h, i, h);
    }
  }

  /**
   * The accumulation loop of `CDF_map`: the running sums, with the least
   * non-zero entry among the first 255 and the greatest among the last 255.
   */
  method Accumulate(table: array<int>) returns (low: int, high: int)
    requires table.Length == Levels
    modifies table
    ensures table[..] == Cumulated(old(table[..]))
    ensures low == LowOf(table[..], Levels - 1) && high == HighOf(table[..], Levels - 1)
  {
    ghost var hs := table[..];
    ghost var cs := Cumulated(hs);
    assert SumTo(hs, 1) == hs[0];
    low, high := IntMax, 0;
    for i := 1 to Levels
      invariant forall k :: 0 <= k < Levels ==> table[k] == if k < i then cs[k] else hs[k]
      invariant low == LowOf(cs, i - 1) && high == HighOf(cs, i - 1)
    {
      table[i] := table[i] + table[i - 1];
      assert table[i] == cs[i] && table[i - 1] == cs[i - 1];
      if table[i - 1] != 0 && table[i - 1] < low {
        low := table[i - 1];
      }
      if table[i] > high {
        high := table[i];
      }
    }
    assert table[..] == cs;
  }

  /** The stretching loop of `CDF_map`. */
  method StretchAll(table: array<int>, low: int, high: int)
    requires table.Length == Levels && Divides(table[..])
    requires low == LowOf(table[..], Levels - 1) && high == HighOf(table[..], Levels - 1)
    modifies table
    ensures table[..] == Stretch(old(table[..]))
  {
    ghost var cs := table[..];
    for i := 0 to Levels
      invariant forall k :: 0 <= k < Levels ==> table[k] == if k < i then Stretched(cs[k], low, high) else cs[k]
    {
      if table[i] != 0 {
        table[i] := Round((table[i] - low) as real / (high - low) as real * Span as real);
      }
    }
    assert table[..] == Stretch(cs);
  }

  // Equalising.

  /** The `(uchar)` conversion of an `int`: its value modulo 256. */
  function ToUchar(x: int): (b: Byte)
    ensures 0 <= x < 256 ==> b == x
    ensures (b - x) % 256 == 0
  {
    x % 256
  }

  /**
   * `global_histogram_equilisation(_img, _new_img, _map)`: a fresh image of
   * the same size whose pixel (r, c) is the map's entry at the input pixel,
   * converted to `uchar`. Without a map, a zeroed map goes through `CDF_map`
   * first.
   */
  method Equalise(img: array2<Byte>, given: Option<array<int>>) returns (out: array2<Byte>)
    requires given.Some? ==> given.value.Length >= Levels
    requires given.None? ==> Divides(Cumulated(Counted(Zeros, Pixels(img))))
    ensures fresh(out) && out.Length0 == img.Length0 && out.Length1 == img.Length1
    ensures given.Some? ==> forall r, c :: 0 <= r < img.Length0 && 0 <= c < img.Length1 ==>
      out[r, c] == ToUchar(given.value[img[r, c]])
    ensures given.None? ==> forall r, c :: 0 <= r < img.Length0 && 0 <= c < img.Length1 ==>
      out[r, c] == ToUchar(CdfMapOf(Zeros, Pixels(img))[img[r, c]])
  {
    var table: array<int>;
    if given.None? {
      table := new int[Levels](_ => 0);
      assert table[..] == Zeros;
      CdfMap(img, table);
    } else {
      table := given.value;
    }
    out := Apply(img, table);
  }

  /** The writing loop of `global_histogram_equilisation`, column by column. */
  method Apply(img: array2<Byte>, table: array<int>) returns (out: array2<Byte>)
    requires table.Length >= Levels
    ensures fresh(out) && out.Length0 == img.Length0 && out.Length1 == img.Length1
    ensures forall r, c :: 0 <= r < img.Length0 && 0 <= c < img.Length1 ==> out[r, c] == ToUchar(table[img[r, c]])
  {
    var h, w := img.Length0, img.Length1;
    out := new Byte[h, w]((_, _) => 0);
    for i := 0 to w
      invariant forall r, c :: 0 <= r < h && 0 <= c < w ==>
        out[r, c] == if c < i then ToUchar(table[img[r, c]]) else 0
    {
      for j := 0 to h
        invariant forall r, c :: 0 <= r < h && 0 <= c < w ==>
          out[r, c] == if c < i || (c == i && r < j) then ToUchar(table[img[r, c]]) else 0
      {
        out[j, i] := ToUchar(table[img[j, i]]);
      }
    }
  }

  // Properties of the counting and accumulating loops.

  /** Entries that are all at least 0 (a zeroed map, and every map counted into it). */
  predicate NonNegative(hs: seq<int>) {
    forall k :: 0 <= k < |hs| ==> hs[k] >= 0
  }

  /** Entries that never decrease from left to right. */
  predicate Rising(cs: seq<int>) {
    forall i, k :: 0 <= i <= k < |cs| ==> cs[i] <= cs[k]
  }

  /** The number of pixels of `s` at level `k` or below. */
  function AtMost(s: seq<Byte>, k: int): (n: nat)
    ensures n <= |s|
  {
    if |s| == 0 then 0 else AtMost(s[..|s| - 1], k) + (if s[|s| - 1] <= k then 1 else 0)
  }

  lemma {:induction false} SumMonotone(hs: seq<int>, m: nat, n: nat)
    requires NonNegative(hs) && m <= n <= |hs|
    ensures SumTo(hs, m) <= SumTo(hs, n)
  {
    if m < n {
      SumMonotone(hs, m, n - 1);
    }
  }

  lemma {:induction false} SumBump(hs: seq<int>, v: nat, n: nat)
    requires v < |hs| && n <= |hs|
    ensures SumTo(hs[v := hs[v] + 1], n) == SumTo(hs, n) + (if v < n then 1 else 0)
  {
    if n > 0 {
      SumBump(hs, v, n - 1);
    }
  }

  lemma {:induction false} SumZeros(n: nat)
    requires n <= Levels
    ensures SumTo(Zeros, n) == 0
  {
    if n > 0 {
      SumZeros(n - 1);
    }
  }

  /**
   * Counting into a zeroed map and accumulating gives, at entry k, the
   * number of pixels at level k or below.
   */
  lemma {:induction false} CountsAtMost(s: seq<Byte>, k: nat)
    requires k < Levels
    ensures SumTo(Counted(Zeros, s), k + 1) == AtMost(s, k)
  {
    if |s| == 0 {
      assert Counted(Zeros, s) == Zeros;
      SumZeros(k + 1);
    } else {
      var t, v := s[..|s| - 1], s[|s| - 1];
      assert s == t + [v];
      CountsAtMost(t, k);
      CountOne(Zeros, t, v);
      SumBump(Counted(Zeros, t), v, k + 1);
    }
  }

  /**
   * The first two loops of `CDF_map` on a zeroed map leave a non-negative,
   * non-decreasing cumulative histogram: entry k is the number of pixels at
   * level k or below, and the last entry is the number of pixels.
   */
  lemma CumulativeHistogram(s: seq<Byte>)
    ensures forall k :: 0 <= k < Levels ==> Cumulated(Counted(Zeros, s))[k] == AtMost(s, k)
    ensures NonNegative(Cumulated(Counted(Zeros, s))) && Rising(Cumulated(Counted(Zeros, s)))
    ensures Cumulated(Counted(Zeros, s))[Levels - 1] == |s|
  {
    var hs := Counted(Zeros, s);
    var cs := Cumulated(hs);
    forall k | 0 <= k < Levels
      ensures cs[k] == AtMost(s, k)
    {
      CountsAtMost(s, k);
    }
    assert NonNegative(hs);
    forall i, k | 0 <= i <= k < Levels
      ensures cs[i] <= cs[k]
    {
      SumMonotone(hs, i + 1, k + 1);
    }
    AllAtMost(s, Levels - 1);
  }

  /** With every pixel at level `k` or below, all are counted; with every pixel above, none is. */
  lemma {:induction false} AllAtMost(s: seq<Byte>, k: int)
    ensures (forall x :: x in s ==> x <= k) ==> AtMost(s, k) == |s|
    ensures (forall x :: x in s ==> x > k) ==> AtMost(s, k) == 0
  {
    if |s| > 0 {
      var t := s[..|s| - 1];
      assert s == t + [s[|s| - 1]];
      assert s[|s| - 1] in s;
      assert forall x :: x in t ==> x in s;
      AllAtMost(t, k);
    }
  }

  /** A pixel at level `k` or below is counted; a pixel above it is left out. */
  lemma {:induction false} SomeAtMost(s: seq<Byte>, k: int, x: int)
    requires x in s
    ensures x <= k ==> AtMost(s, k) >= 1
    ensures x > k ==> AtMost(s, k) <= |s| - 1
  {
    var t := s[..|s| - 1];
    var last := s[|s| - 1];
    assert AtMost(s, k) == AtMost(t, k) + (if last <= k then 1 else 0);
    if x != last {
      assert s == t + [last];
      assert x in t;
      SomeAtMost(t, k, x);
    }
  }

  // Properties of the stretching loop.

  /** The loop's `max` is the last entry of a non-negative, non-decreasing map. */
  lemma HighIsLast(cs: seq<int>)
    requires |cs| == Levels && NonNegative(cs) && Rising(cs)
    ensures HighOf(cs, Levels - 1) == cs[Levels - 1]
  {
  }

  /** Non-negative values that rise by at least 0 keep their order after scaling. */
  lemma Scale(a: int, b: int, d: int)
    requires 0 <= a <= b <= d && d > 0
    ensures 0.0 <= a as real / d as real * Span as real <= b as real / d as real * Span as real <= Span as real
  {
    var x, y := a as real / d as real, b as real / d as real;
    assert x * d as real == a as real && y * d as real == b as real;
    assert x <= y <= 1.0;
  }

  lemma RoundMonotone(x: real, y: real)
    requires x <= y
    ensures Round(x) <= Round(y)
  {
  }

  lemma RoundBounds(x: real)
    requires 0.0 <= x <= Span as real
    ensures 0 <= Round(x) <= Span
  {
    RoundMonotone(0.0, x);
    RoundMonotone(x, Span as real);
  }

  /**
   * A non-zero entry of a non-negative, non-decreasing map lies between the
   * loop's `min` and `max`, or is the `max` itself; `max` and `min` differ.
   */
  lemma StretchedEntry(cs: seq<int>, k: int)
    requires |cs| == Levels && NonNegative(cs) && Rising(cs) && Divides(cs)
    requires 0 <= k < Levels && cs[k] != 0
    ensures InStretch(cs[k], LowOf(cs, Levels - 1), HighOf(cs, Levels - 1))
  {
    HighIsLast(cs);
  }

  /** A non-zero entry between `min` and `max`, or equal to `max`, as `StretchedEntry` finds it. */
  predicate InStretch(c: int, lo: int, hi: int) {
    c != 0 && c <= hi != lo && (c < hi ==> lo <= c)
  }

  lemma DivSelf(d: real)
    requires d != 0.0
    ensures d / d == 1.0
  {
  }

  /** Such an entry is stretched into [0, 220], and `max` itself to 220. */
  lemma StretchedBounds(c: int, lo: int, hi: int)
    requires InStretch(c, lo, hi)
    ensures 0 <= Stretched(c, lo, hi) <= Span
    ensures c == hi ==> Stretched(c, lo, hi) == Span
  {
    if c == hi {
      DivSelf((hi - lo) as real);
    } else {
      Scale(c - lo, hi - lo, hi - lo);
      RoundBounds((c - lo) as real / (hi - lo) as real * Span as real);
    }
  }

  /** Stretching keeps the order of two such entries. */
  lemma StretchedOrder(a: int, b: int, lo: int, hi: int)
    requires InStretch(a, lo, hi) && InStretch(b, lo, hi) && a <= b
    ensures Stretched(a, lo, hi) <= Stretched(b, lo, hi)
  {
    StretchedBounds(a, lo, hi);
    StretchedBounds(b, lo, hi);
    if b < hi {
      Scale(a - lo, b - lo, hi - lo);
      RoundMonotone((a - lo) as real / (hi - lo) as real * Span as real, (b - lo) as real / (hi - lo) as real * Span as real);
    }
  }

  /**
   * On a non-negative, non-decreasing cumulative map, the stretched map lies
   * in [0, 220], keeps every zero entry at 0, and sends a non-zero last
   * entry to 220.
   */
  lemma StretchRange(cs: seq<int>, k: int)
    requires |cs| == Levels && NonNegative(cs) && Rising(cs) && Divides(cs) && 0 <= k < Levels
    ensures 0 <= Stretch(cs)[k] <= Span
    ensures cs[k] == 0 ==> Stretch(cs)[k] == 0
    ensures cs[Levels - 1] != 0 ==> Stretch(cs)[Levels - 1] == Span
  {
    var lo, hi := LowOf(cs, Levels - 1), HighOf(cs, Levels - 1);
    HighIsLast(cs);
    if cs[k] != 0 {
      StretchedEntry(cs, k);
      StretchedBounds(cs[k], lo, hi);
    }
    if cs[Levels - 1] != 0 {
      StretchedEntry(cs, Levels - 1);
      StretchedBounds(cs[Levels - 1], lo, hi);
    }
  }

  /** On a non-negative, non-decreasing cumulative map, the stretched map is non-decreasing. */
  lemma StretchMonotone(cs: seq<int>, i: int, k: int)
    requires |cs| == Levels && NonNegative(cs) && Rising(cs) && Divides(cs) && 0 <= i <= k < Levels
    ensures Stretch(cs)[i] <= Stretch(cs)[k]
  {
    var lo, hi := LowOf(cs, Levels - 1), HighOf(cs, Levels - 1);
    if cs[i] == 0 {
      StretchRange(cs, k);
    } else {
      StretchedEntry(cs, i);
      StretchedEntry(cs, k);
      StretchedOrder(cs[i], cs[k], lo, hi);
    }
  }

  // Properties of `CDF_map` on a zeroed map.

  /** Every pixel at the same level `v`, and at least one pixel. */
  predicate SingleLevel(s: seq<Byte>, v: int) {
    |s| > 0 && forall x :: x in s ==> x == v
  }

  /**
   * On a zeroed map and an image of fewer than `INT32_MAX` pixels, the
   * stretching loop divides by zero exactly when every pixel has the same
   * level and that level is below 255.
   */
  lemma DividesByZeroIff(s: seq<Byte>)
    requires |s| < IntMax
    ensures !Divides(Cumulated(Counted(Zeros, s))) <==> exists v :: 0 <= v < Levels - 1 && SingleLevel(s, v)
  {
    var cs := Cumulated(Counted(Zeros, s));
    CumulativeHistogram(s);
    HighIsLast(cs);
    var lo, hi := LowOf(cs, Levels - 1), HighOf(cs, Levels - 1);
    if v :| 0 <= v < Levels - 1 && SingleLevel(s, v) {
      AllAtMost(s, v);
      SomeAtMost(s, v, v);
      forall k | 0 <= k < v
        ensures cs[k] == 0
      {
        AllAtMost(s, k);
      }
      assert lo <= cs[v] == |s|;
      assert !Divides(cs);
    } else if |s| == 0 {
      assert forall k :: 0 <= k < Levels ==> cs[k] == 0;
    } else if forall x :: x in s ==> x == Levels - 1 {
      AllAtMost(s, Levels - 2);
      assert cs[Levels - 2] == 0;
      assert lo == IntMax;
    } else {
      var x :| x in s && x < Levels - 1;
      assert !SingleLevel(s, x);
      var y :| y in s && y != x;
      var a := if x < y then x else y;
      SomeAtMost(s, a, x);
      SomeAtMost(s, a, y);
      assert lo <= cs[a] < hi;
    }
  }

  /**
   * The map `CDF_map` makes from a zeroed map lies in [0, 220], is
   * non-decreasing, is 0 below the darkest pixel, and is 220 at level 255
   * when the image has a pixel.
   */
  lemma CdfMapShape(s: seq<Byte>, i: int, k: int)
    requires Divides(Cumulated(Counted(Zeros, s))) && 0 <= i <= k < Levels
    ensures 0 <= CdfMapOf(Zeros, s)[k] <= Span
    ensures CdfMapOf(Zeros, s)[i] <= CdfMapOf(Zeros, s)[k]
    ensures AtMost(s, k) == 0 ==> CdfMapOf(Zeros, s)[k] == 0
    ensures |s| > 0 ==> CdfMapOf(Zeros, s)[Levels - 1] == Span
  {
    var cs := Cumulated(Counted(Zeros, s));
    CumulativeHistogram(s);
    StretchRange(cs, k);
    StretchMonotone(cs, i, k);
  }

  /**
   * Equalising with the CDF map keeps the order of grey levels: a darker
   * input pixel never comes out brighter, and no output exceeds 220.
   */
  lemma EqualiseKeepsOrder(s: seq<Byte>, a: Byte, b: Byte)
    requires Divides(Cumulated(Counted(Zeros, s))) && a <= b
    ensures ToUchar(CdfMapOf(Zeros, s)[a]) == CdfMapOf(Zeros, s)[a]
    ensures ToUchar(CdfMapOf(Zeros, s)[a]) <= ToUchar(CdfMapOf(Zeros, s)[b]) <= Span
  {
    CdfMapShape(s, a, b);
    CdfMapShape(s, a, a);
  }
}
