/**
 * Histogram matching, `match_hist` of 5/lib/histogram.py, for a float
 * source. Both images are taken flattened (`ravel`); the result has the
 * source's length and is reshaped back to its shape. Each distinct source
 * value goes to the template value at the same position of the cumulative
 * distribution, found by linear interpolation (`np.interp`).
 */
module Histogram {
  import opened Wrappers

  /** Strictly increasing entries. */
  predicate Increasing(u: seq<real>) {
    forall i, j :: 0 <= i < j < |u| ==> u[i] < u[j]
  }

  /** Entries that never decrease. */
  predicate NonDecreasing(u: seq<real>) {
    forall i, j :: 0 <= i <= j < |u| ==> u[i] <= u[j]
  }

  // `np.unique`.

  /** `x` put into its place in an increasing sequence, unless it is there already. */
  function Insert(x: real, u: seq<real>): (r: seq<real>)
    requires Increasing(u)
    ensures Increasing(r) && |r| > 0
    ensures forall y :: y in r <==> y in u || y == x
  {
    if |u| == 0 then [x]
    else if x < u[0] then
      assert forall k :: 0 <= k < |u| ==> x < u[k];
      IncreasingCons(x, u);
      [x] + u
    else if x == u[0] then u
    else
      var tail := Insert(x, u[1..]);
      assert u == [u[0]] + u[1..];
      AboveFirst(u, tail, x);
      IncreasingCons(u[0], tail);
      [u[0]] + tail
  }

  /** A value below every entry of an increasing sequence can go in front. */
  lemma {:induction false} IncreasingCons(v: real, t: seq<real>)
    requires Increasing(t) && forall k :: 0 <= k < |t| ==> v < t[k]
    ensures Increasing([v] + t)
  {
    var r := [v] + t;
    forall i, j | 0 <= i < j < |r|
      ensures r[i] < r[j]
    {
      assert r[j] == t[j - 1];
      if i > 0 {
        assert r[i] == t[i - 1];
      }
    }
  }

  /** Entries drawn from the rest of `u` or equal to `x` above its first entry lie above that entry. */
  lemma {:induction false} AboveFirst(u: seq<real>, tail: seq<real>, x: real)
    requires Increasing(u) && |u| > 0 && u[0] < x
    requires forall y :: y in tail ==> y in u[1..] || y == x
    ensures forall k :: 0 <= k < |tail| ==> u[0] < tail[k]
  {
    forall k | 0 <= k < |tail|
      ensures u[0] < tail[k]
    {
      assert tail[k] in tail;
      if tail[k] != x {
        var i :| 0 <= i < |u| - 1 && u[1..][i] == tail[k];
        assert u[i + 1] == tail[k];
      }
    }
  }

  /** The distinct values of `s` in increasing order (`np.unique(s)`). */
  function Unique(s: seq<real>): (u: seq<real>)
    ensures Increasing(u)
    ensures forall y :: y in u <==> y in s
    ensures forall i :: 0 <= i < |u| ==> u[i] in s
    ensures |u| > 0 <==> |s| > 0
  {
    if |s| == 0 then [] else Insert(s[|s| - 1], Unique(s[..|s| - 1]))
  }

  /**
   * The increasing sequence of a set of values is unique: `Unique` is the
   * sorted list of distinct values, whatever order it was built in.
   */
  lemma {:induction false} IncreasingIsCanonical(u: seq<real>, v: seq<real>)
    requires Increasing(u) && Increasing(v)
    requires forall y :: y in u <==> y in v
    ensures u == v
  {
    assert |u| > 0 ==> u[0] in u && u[0] in v;
    assert |v| > 0 ==> v[0] in v && v[0] in u;
    if |u| > 0 {
      assert u[0] == v[0];
      forall y
        ensures y in u[1..] <==> y in v[1..]
      {
        if y in u[1..] {
          assert y in v && y != v[0];
        }
        if y in v[1..] {
          assert y in u && y != u[0];
        }
      }
      IncreasingIsCanonical(u[1..], v[1..]);
      assert u == [u[0]] + u[1..] && v == [v[0]] + v[1..];
    }
  }

  /** Where `x` sits in `u` (the `return_inverse` index). */
  function IndexOf(u: seq<real>, x: real): (i: nat)
    requires x in u
    ensures i < |u| && u[i] == x
  {
    if u[0] == x then 0 else 1 + IndexOf(u[1..], x)
  }

  /** In an increasing sequence, positions follow the order of the values. */
  lemma IndexOrder(u: seq<real>, x: real, y: real)
    requires Increasing(u) && x in u && y in u && x <= y
    ensures IndexOf(u, x) <= IndexOf(u, y)
  {
    var i, j := IndexOf(u, x), IndexOf(u, y);
    assert u[i] == x && u[j] == y;
  }

  /** How often each value of `u` occurs in `s` (`return_counts`). */
  function Counts(u: seq<real>, s: seq<real>): (c: seq<nat>)
    ensures |c| == |u|
    ensures (forall i :: 0 <= i < |u| ==> u[i] in s) ==> forall i :: 0 <= i < |c| ==> c[i] >= 1
  {
    seq(|u|, i requires 0 <= i < |u| => multiset(s)[u[i]])
  }

  // `np.cumsum` and the normalised distribution.

  /** Running sums (`np.cumsum`): entry i is the sum of entries 0..i. */
  function CumSum(c: seq<nat>): (r: seq<nat>)
    ensures |r| == |c|
    ensures |c| > 0 ==> r[0] == c[0]
    ensures forall i :: 0 < i < |c| ==> r[i] == r[i - 1] + c[i]
  {
    if |c| == 0 then []
    else
      var p := CumSum(c[..|c| - 1]);
      p + [(if |p| == 0 then 0 else p[|p| - 1]) + c[|c| - 1]]
  }

  /** With every count at least 1, the running sums strictly increase from at least 1. */
  lemma {:induction false} CumSumIncreases(c: seq<nat>, i: int, j: int)
    requires forall k :: 0 <= k < |c| ==> c[k] >= 1
    requires 0 <= i <= j < |c|
    ensures 1 <= CumSum(c)[i] && (i < j ==> CumSum(c)[i] < CumSum(c)[j])
  {
    if i < j {
      CumSumIncreases(c, i, j - 1);
      assert CumSum(c)[j] == CumSum(c)[j - 1] + c[j];
    } else if i > 0 {
      CumSumIncreases(c, i - 1, i - 1);
    }
  }

  /**
   * The normalised cumulative distribution of the counts: running sums
   * divided by the last one. It increases strictly and ends at 1.
   */
  function Cdf(c: seq<nat>): (p: seq<real>)
    requires |c| > 0 && forall k :: 0 <= k < |c| ==> c[k] >= 1
    ensures |p| == |c| && Increasing(p) && p[|c| - 1] == 1.0
  {
    CumSumStrict(c);
    Normalise(CumSum(c))
  }

  /** Every running sum is at least 1, and they strictly increase. */
  lemma CumSumStrict(c: seq<nat>)
    requires forall k :: 0 <= k < |c| ==> c[k] >= 1
    ensures forall i :: 0 <= i < |c| ==> CumSum(c)[i] >= 1
    ensures forall i, j :: 0 <= i < j < |c| ==> CumSum(c)[i] < CumSum(c)[j]
  {
    forall i, j | 0 <= i <= j < |c|
      ensures 1 <= CumSum(c)[i] && (i < j ==> CumSum(c)[i] < CumSum(c)[j])
    {
      CumSumIncreases(c, i, j);
    }
  }

  /** Strictly increasing positive sums, each divided by the last. */
  function Normalise(cs: seq<nat>): (p: seq<real>)
    requires |cs| > 0 && cs[|cs| - 1] > 0
    requires forall i, j :: 0 <= i < j < |cs| ==> cs[i] < cs[j]
    ensures |p| == |cs| && Increasing(p) && p[|cs| - 1] == 1.0
  {
    var last := cs[|cs| - 1];
    var p := seq(|cs|, i requires 0 <= i < |cs| => cs[i] as real / last as real);
    NormaliseIncreasing(cs, p);
    SelfQuotient(last);
    p
  }

  lemma NormaliseIncreasing(cs: seq<nat>, p: seq<real>)
    requires |cs| > 0 && cs[|cs| - 1] > 0 && |p| == |cs|
    requires forall i, j :: 0 <= i < j < |cs| ==> cs[i] < cs[j]
    requires forall i :: 0 <= i < |cs| ==> p[i] == cs[i] as real / cs[|cs| - 1] as real
    ensures Increasing(p)
  {
    forall i, j | 0 <= i < j < |cs|
      ensures p[i] < p[j]
    {
      Quotients(cs[i], cs[j], cs[|cs| - 1]);
    }
  }

  lemma SelfQuotient(d: nat)
    requires d > 0
    ensures d as real / d as real == 1.0
  {
    var q := d as real / d as real;
    assert q * d as real == d as real;
  }

  lemma Quotients(a: nat, b: nat, d: nat)
    requires a < b && d > 0
    ensures a as real / d as real < b as real / d as real
  {
  }

  // `np.interp`.

  /**
   * `np.interp(x, xp, fp)` for increasing `xp`: `fp[0]` at or left of
   * `xp[0]`, the last `fp` at or right of the last `xp`, and the straight
   * line through the two neighbouring points in between.
   */
  function Interp(x: real, xp: seq<real>, fp: seq<real>): (r: real)
    requires |xp| == |fp| > 0 && Increasing(xp)
    ensures x <= xp[0] ==> r == fp[0]
    ensures x >= xp[|xp| - 1] ==> r == fp[|fp| - 1]
    decreases |xp|
  {
    if x <= xp[0] || |xp| == 1 then fp[0]
    else if x < xp[1] then Line(x, xp[0], xp[1], fp[0], fp[1])
    else Interp(x, xp[1..], fp[1..])
  }

  /** The point at `x` of the line through (x0, f0) and (x1, f1), in numpy's slope form. */
  function Line(x: real, x0: real, x1: real, f0: real, f1: real): real
    requires x0 < x1
  {
    (f1 - f0) / (x1 - x0) * (x - x0) + f0
  }

  /** On a rising segment the line lies between its end values and rises with `x`. */
  lemma LineBetween(x: real, y: real, x0: real, x1: real, f0: real, f1: real)
    requires x0 <= x <= y <= x1 && x0 < x1 && f0 <= f1
    ensures f0 <= Line(x, x0, x1, f0, f1) <= Line(y, x0, x1, f0, f1) <= f1
  {
    var slope := (f1 - f0) / (x1 - x0);
    assert slope * (x1 - x0) == f1 - f0;
    assert slope >= 0.0;
    ScaleMonotone(slope, 0.0, x - x0);
    ScaleMonotone(slope, x - x0, y - x0);
    ScaleMonotone(slope, y - x0, x1 - x0);
    assert slope * 0.0 == 0.0;
    assert Line(x, x0, x1, f0, f1) == slope * (x - x0) + f0;
    assert Line(y, x0, x1, f0, f1) == slope * (y - x0) + f0;
  }

  /** Multiplying by a non-negative factor keeps the order. */
  lemma ScaleMonotone(k: real, a: real, b: real)
    requires k >= 0.0 && a <= b
    ensures k * a <= k * b
  {
    assert k * b - k * a == k * (b - a);
  }

  /**
   * For non-decreasing `fp`, interpolation stays within [fp[0], last fp],
   * and reaches the last `fp` from the last `xp` on.
   */
  lemma {:induction false} InterpBounds(x: real, xp: seq<real>, fp: seq<real>)
    requires |xp| == |fp| > 0 && Increasing(xp) && NonDecreasing(fp)
    ensures fp[0] <= Interp(x, xp, fp) <= fp[|fp| - 1]
    ensures x >= xp[|xp| - 1] ==> Interp(x, xp, fp) == fp[|fp| - 1]
    decreases |xp|
  {
    if x <= xp[0] || |xp| == 1 {
    } else if x < xp[1] {
      LineBetween(x, x, xp[0], xp[1], fp[0], fp[1]);
    } else {
      InterpBounds(x, xp[1..], fp[1..]);
    }
  }

  /** For non-decreasing `fp`, interpolation never decreases with `x`. */
  lemma {:induction false} InterpMonotone(x: real, y: real, xp: seq<real>, fp: seq<real>)
    requires |xp| == |fp| > 0 && Increasing(xp) && NonDecreasing(fp) && x <= y
    ensures Interp(x, xp, fp) <= Interp(y, xp, fp)
    decreases |xp|
  {
    InterpBounds(x, xp, fp);
    InterpBounds(y, xp, fp);
    if x <= xp[0] || |xp| == 1 {
    } else if y < xp[1] {
      LineBetween(x, y, xp[0], xp[1], fp[0], fp[1]);
    } else if x < xp[1] {
      LineBetween(x, x, xp[0], xp[1], fp[0], fp[1]);
      InterpBounds(y, xp[1..], fp[1..]);
    } else {
      InterpMonotone(x, y, xp[1..], fp[1..]);
    }
  }

  // `match_hist`.

  /** The template value each distinct source value is sent to. */
  function Matched(src: seq<real>, temp: seq<real>): (m: seq<real>)
    requires |src| > 0 && |temp| > 0
    ensures |m| == |Unique(src)|
  {
    var sval, tval := Unique(src), Unique(temp);
    var cdfS, cdfT := Cdf(Counts(sval, src)), Cdf(Counts(tval, temp));
    seq(|sval|, i requires 0 <= i < |sval| => Interp(cdfS[i], cdfT, tval))
  }

  /**
   * `match_hist(_src, _temp)`: every source pixel replaced by the matched
   * template value of its level. An empty source or template has no last
   * cumulative count to divide by, and numpy raises `IndexError`.
   */
  function MatchHist(src: seq<real>, temp: seq<real>): (r: Option<seq<real>>)
    ensures r.None? <==> |src| == 0 || |temp| == 0
    ensures r.Some? ==> |r.value| == |src|
    ensures r.Some? ==> forall a, b :: 0 <= a < |src| && 0 <= b < |src| && src[a] == src[b] ==> r.value[a] == r.value[b]
  {
    if |src| == 0 || |temp| == 0 then None
    else
      var sval, m := Unique(src), Matched(src, temp);
      Some(seq(|src|, k requires 0 <= k < |src| => m[IndexOf(sval, src[k])]))
  }

  /** The least template value, `np.unique(_t)[0]`. */
  function Lowest(t: seq<real>): (m: real)
    requires |t| > 0
    ensures m in t && forall x :: x in t ==> m <= x
  {
    var u := Unique(t);
    assert forall x :: x in t ==> x in u;
    u[0]
  }

  /** The greatest template value, `np.unique(_t)[-1]`. */
  function Highest(t: seq<real>): (m: real)
    requires |t| > 0
    ensures m in t && forall x :: x in t ==> x <= m
  {
    var u := Unique(t);
    assert forall x :: x in t ==> x in u;
    u[|u| - 1]
  }

  /** Every output value lies between the least and the greatest template value. */
  lemma MatchRange(src: seq<real>, temp: seq<real>, k: int)
    requires |src| > 0 && |temp| > 0 && 0 <= k < |src|
    ensures Lowest(temp) <= MatchHist(src, temp).value[k] <= Highest(temp)
  {
    var sval, tval := Unique(src), Unique(temp);
    var cdfT := Cdf(Counts(tval, temp));
    var i := IndexOf(sval, src[k]);
    InterpBounds(Cdf(Counts(sval, src))[i], cdfT, tval);
  }

  /** A smaller source value never comes out above a larger one. */
  lemma MatchMonotone(src: seq<real>, temp: seq<real>, a: int, b: int)
    requires |src| > 0 && |temp| > 0 && 0 <= a < |src| && 0 <= b < |src| && src[a] <= src[b]
    ensures MatchHist(src, temp).value[a] <= MatchHist(src, temp).value[b]
  {
    var sval, tval := Unique(src), Unique(temp);
    var cdfS, cdfT := Cdf(Counts(sval, src)), Cdf(Counts(tval, temp));
    var i, j := IndexOf(sval, src[a]), IndexOf(sval, src[b]);
    IndexOrder(sval, src[a], src[b]);
    InterpMonotone(cdfS[i], cdfS[j], cdfT, tval);
  }

  /** The greatest source value goes to the greatest template value: both distributions end at 1. */
  lemma MatchTop(src: seq<real>, temp: seq<real>, k: int)
    requires |src| > 0 && |temp| > 0 && 0 <= k < |src|
    requires forall j :: 0 <= j < |src| ==> src[j] <= src[k]
    ensures MatchHist(src, temp).value[k] == Highest(temp)
  {
    var sval, tval := Unique(src), Unique(temp);
    var cdfS, cdfT := Cdf(Counts(sval, src)), Cdf(Counts(tval, temp));
    var last := |sval| - 1;
    assert sval[last] in src;
    IndexOrder(sval, sval[last], src[k]);
    InterpBounds(cdfS[last], cdfT, tval);
  }
}
