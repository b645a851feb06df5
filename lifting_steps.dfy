/**
 * The lifting steps shared by the Python and C++ lazy wavelet transforms: the
 * LeGall 5/3 predict (minus half the even neighbours) and update (plus a quarter
 * of the odd neighbours) of ISO/IEC 15444-1 Annex F, with periodic wrap-around
 * instead of symmetric extension and exact reals instead of floored integers.
 *
 * One level works on the `len` active slots of a sequence and on a wrap-around
 * slot `w`: the last slot of the whole array in Python (`__temp[-1]`), slot
 * `len - 1` in C++.
 */
module LiftingSteps {

  /** `n` is a power of two (1, 2, 4, ...). */
  predicate IsPow2(n: int)
    decreases if n < 0 then 0 else n
  {
    if n < 1 then false else n == 1 || (n % 2 == 0 && IsPow2(n / 2))
  }

  /** The test `n & (n - 1) == 0` of the sources, which also accepts 0. */
  predicate PowTest(n: int) {
    n == 0 || IsPow2(n)
  }

  lemma Pow2Half(n: int)
    requires IsPow2(n) && n > 2
    ensures n % 2 == 0 && n / 2 >= 2 && IsPow2(n / 2)
  {
  }

  /** A non-negative measure of a length, for recursions on halved lengths. */
  function Size(l: int): nat {
    if l < 0 then 0 else l
  }

  /** Shape of one lifting level: `len` active slots (even, at least 2) and a wrap slot `w`. */
  predicate LevelShape(n: int, len: int, w: int) {
    2 <= len <= n && len % 2 == 0 && len - 1 <= w < n
  }

  /** Predict: each odd slot loses half the sum of its even neighbours; slot `w` wraps to slot 0. */
  function Predict(s: seq<real>, len: int, w: int): (r: seq<real>)
    requires LevelShape(|s|, len, w)
    ensures |r| == |s|
  {
    seq(|s|, k requires 0 <= k < |s| =>
      if k % 2 == 1 && k < len - 1 then s[k] - 0.5 * (s[k - 1] + s[k + 1])
      else if k == w then s[k] - 0.5 * (s[len - 2] + s[0])
      else s[k])
  }

  /** Update: each even slot gains a quarter of the sum of its odd neighbours; slot 0 wraps to `w`. */
  function Update(t: seq<real>, len: int, w: int): (r: seq<real>)
    requires LevelShape(|t|, len, w)
    ensures |r| == |t|
  {
    seq(|t|, k requires 0 <= k < |t| =>
      if k % 2 == 0 && 2 <= k < len then t[k] + 0.25 * (t[k - 1] + t[k + 1])
      else if k == 0 then t[k] + 0.25 * (t[1] + t[w])
      else t[k])
  }

  /** The update step undone: even slots lose what `Update` added. */
  function UnUpdate(t: seq<real>, len: int, w: int): (r: seq<real>)
    requires LevelShape(|t|, len, w)
    ensures |r| == |t|
  {
    seq(|t|, k requires 0 <= k < |t| =>
      if k % 2 == 0 && 2 <= k < len then t[k] - 0.25 * (t[k - 1] + t[k + 1])
      else if k == 0 then t[k] - 0.25 * (t[1] + t[w])
      else t[k])
  }

  /** The predict step undone: odd slots and slot `w` regain what `Predict` took. */
  function UnPredict(t: seq<real>, len: int, w: int): (r: seq<real>)
    requires LevelShape(|t|, len, w)
    ensures |r| == |t|
  {
    seq(|t|, k requires 0 <= k < |t| =>
      if k % 2 == 1 && k < len - 1 then t[k] + 0.5 * (t[k - 1] + t[k + 1])
      else if k == w then t[k] + 0.5 * (t[len - 2] + t[0])
      else t[k])
  }

  /** One forward level: predict, then update. */
  function Level(s: seq<real>, len: int, w: int): (r: seq<real>)
    requires LevelShape(|s|, len, w)
    ensures |r| == |s|
  {
    Update(Predict(s, len, w), len, w)
  }

  /** One inverse level: the update undone, then the predict undone. */
  function UnLevel(t: seq<real>, len: int, w: int): (r: seq<real>)
    requires LevelShape(|t|, len, w)
    ensures |r| == |t|
  {
    UnPredict(UnUpdate(t, len, w), len, w)
  }

  /** A level writes only the active slots and the wrap slot. */
  lemma LevelFrame(s: seq<real>, len: int, w: int, k: int)
    requires LevelShape(|s|, len, w) && len <= k < |s| && k != w
    ensures Level(s, len, w)[k] == s[k] && UnLevel(s, len, w)[k] == s[k]
  {
  }

  lemma UnUpdateUpdate(t: seq<real>, len: int, w: int)
    requires LevelShape(|t|, len, w)
    ensures UnUpdate(Update(t, len, w), len, w) == t
  {
    var u := Update(t, len, w);
    var r := UnUpdate(u, len, w);
    forall k | 0 <= k < |t|
      ensures r[k] == t[k]
    {
      if k % 2 == 0 && 2 <= k < len {
        assert (k - 1) % 2 == 1 && (k + 1) % 2 == 1;
        assert u[k - 1] == t[k - 1] && u[k + 1] == t[k + 1];
      } else if k == 0 {
        assert w % 2 == 1 || w >= len;
        assert u[1] == t[1] && u[w] == t[w];
      }
    }
  }

  lemma UpdateUnUpdate(t: seq<real>, len: int, w: int)
    requires LevelShape(|t|, len, w)
    ensures Update(UnUpdate(t, len, w), len, w) == t
  {
    var u := UnUpdate(t, len, w);
    var r := Update(u, len, w);
    forall k | 0 <= k < |t|
      ensures r[k] == t[k]
    {
      if k % 2 == 0 && 2 <= k < len {
        assert (k - 1) % 2 == 1 && (k + 1) % 2 == 1;
        assert u[k - 1] == t[k - 1] && u[k + 1] == t[k + 1];
      } else if k == 0 {
        assert w % 2 == 1 || w >= len;
        assert u[1] == t[1] && u[w] == t[w];
      }
    }
  }

  lemma UnPredictPredict(s: seq<real>, len: int, w: int)
    requires LevelShape(|s|, len, w)
    ensures UnPredict(Predict(s, len, w), len, w) == s
  {
    var p := Predict(s, len, w);
    var r := UnPredict(p, len, w);
    forall k | 0 <= k < |s|
      ensures r[k] == s[k]
    {
      if k % 2 == 1 && k < len - 1 {
        assert p[k - 1] == s[k - 1] && p[k + 1] == s[k + 1];
      } else if k == w {
        assert p[len - 2] == s[len - 2] && p[0] == s[0];
      }
    }
  }

  lemma PredictUnPredict(t: seq<real>, len: int, w: int)
    requires LevelShape(|t|, len, w)
    ensures Predict(UnPredict(t, len, w), len, w) == t
  {
    var p := UnPredict(t, len, w);
    var r := Predict(p, len, w);
    forall k | 0 <= k < |t|
      ensures r[k] == t[k]
    {
      if k % 2 == 1 && k < len - 1 {
        assert p[k - 1] == t[k - 1] && p[k + 1] == t[k + 1];
      } else if k == w {
        assert p[len - 2] == t[len - 2] && p[0] == t[0];
      }
    }
  }

  /** Each step is a lifting step, so one inverse level undoes one forward level exactly. */
  lemma UnLevelLevel(s: seq<real>, len: int, w: int)
    requires LevelShape(|s|, len, w)
    ensures UnLevel(Level(s, len, w), len, w) == s
  {
    UnUpdateUpdate(Predict(s, len, w), len, w);
    UnPredictPredict(s, len, w);
  }

  /** ... and one forward level undoes one inverse level. */
  lemma LevelUnLevel(t: seq<real>, len: int, w: int)
    requires LevelShape(|t|, len, w)
    ensures Level(UnLevel(t, len, w), len, w) == t
  {
    PredictUnPredict(UnUpdate(t, len, w), len, w);
    UpdateUnUpdate(t, len, w);
  }

  /** An odd index below the last of an even bound is at least two below it. */
  lemma OddBelow(m: int, n: int)
    requires n % 2 == 0 && 2 * m + 1 < n - 1
    ensures (2 * m + 1) % 2 == 1 && 2 * m + 3 <= n - 1
  {
  }

  /** An even index below an even bound is at least two below it. */
  lemma EvenBelow(m: int, n: int)
    requires n % 2 == 0 && 2 * m < n
    ensures (2 * m) % 2 == 0 && 2 * m + 2 <= n
  {
  }

  /** `c` is `s` with the slots before `i` predicted. */
  predicate PredictedBelow(c: seq<real>, s: seq<real>, len: int, w: int, i: int)
    requires LevelShape(|s|, len, w)
  {
    |c| == |s| && forall k :: 0 <= k < |s| ==> c[k] == (if k < i then Predict(s, len, w)[k] else s[k])
  }

  lemma PredictSlot(c: seq<real>, s: seq<real>, len: int, w: int, i: int)
    requires LevelShape(|s|, len, w) && PredictedBelow(c, s, len, w, i)
    requires 1 <= i < len - 1 && i % 2 == 1
    ensures PredictedBelow(c[i := c[i] - 0.5 * (c[i - 1] + c[i + 1])], s, len, w, i + 2)
  {
    PredictOdd(s, len, w, i);
    var r := c[i := c[i] - 0.5 * (c[i - 1] + c[i + 1])];
    assert c[i - 1] == s[i - 1] && c[i + 1] == s[i + 1] && c[i] == s[i];
    forall k | 0 <= k < |s|
      ensures r[k] == (if k < i + 2 then Predict(s, len, w)[k] else s[k])
    {
      if k != i && k != i + 1 {
        assert r[k] == c[k];
      }
    }
  }

  /** Predict at odd slot `i` and at the even slot after it. */
  lemma PredictOdd(s: seq<real>, len: int, w: int, i: int)
    requires LevelShape(|s|, len, w) && 1 <= i < len - 1 && i % 2 == 1
    ensures i + 1 < len - 1 && Predict(s, len, w)[i] == s[i] - 0.5 * (s[i - 1] + s[i + 1])
    ensures Predict(s, len, w)[i + 1] == s[i + 1] && Predict(s, len, w)[i - 1] == s[i - 1]
  {
    assert (i + 1) % 2 == 0 && (i - 1) % 2 == 0 && i + 1 < w;
  }

  lemma PredictWrap(c: seq<real>, s: seq<real>, len: int, w: int)
    requires LevelShape(|s|, len, w) && PredictedBelow(c, s, len, w, len - 1)
    ensures c[w := c[w] - 0.5 * (c[len - 2] + c[0])] == Predict(s, len, w)
  {
    var p := Predict(s, len, w);
    PredictTail(s, len, w);
    var r := c[w := c[w] - 0.5 * (c[len - 2] + c[0])];
    assert c[len - 2] == s[len - 2] && c[0] == s[0] && c[w] == s[w];
    forall k | 0 <= k < |s|
      ensures r[k] == p[k]
    {
      if k != w {
        assert r[k] == c[k];
      }
    }
  }

  /** Predict at the slots the odd-slot loop does not reach. */
  lemma PredictTail(s: seq<real>, len: int, w: int)
    requires LevelShape(|s|, len, w)
    ensures Predict(s, len, w)[len - 2] == s[len - 2] && Predict(s, len, w)[0] == s[0]
    ensures Predict(s, len, w)[w] == s[w] - 0.5 * (s[len - 2] + s[0])
    ensures forall k :: len - 1 <= k < |s| && k != w ==> Predict(s, len, w)[k] == s[k]
  {
    assert (len - 2) % 2 == 0;
  }

  /** The predict loop over the odd slots, then the wrap slot, in place. */
  method PredictInPlace(a: array<real>, len: int, w: int)
    requires LevelShape(a.Length, len, w)
    modifies a
    ensures a[..] == Predict(old(a[..]), len, w)
  {
    ghost var s := a[..];
    var i := 1;
    ghost var m := 0;
    while i < len - 1
      invariant 1 <= i <= len - 1 && i == 2 * m + 1
      invariant PredictedBelow(a[..], s, len, w, i)
    {
      OddBelow(m, len);
      PredictSlot(a[..], s, len, w, i);
      a[i] := a[i] - 0.5 * (a[i - 1] + a[i + 1]);
      i, m := i + 2, m + 1;
    }
    PredictWrap(a[..], s, len, w);
    a[w] := a[w] - 0.5 * (a[len - 2] + a[0]);
  }

  /** `c` is `p` with the slots from 2 up to before `i` updated. */
  predicate UpdatedBelow(c: seq<real>, p: seq<real>, len: int, w: int, i: int)
    requires LevelShape(|p|, len, w)
  {
    |c| == |p| && forall k :: 0 <= k < |p| ==> c[k] == (if 2 <= k < i then Update(p, len, w)[k] else p[k])
  }

  lemma UpdateSlot(c: seq<real>, p: seq<real>, len: int, w: int, i: int)
    requires LevelShape(|p|, len, w) && UpdatedBelow(c, p, len, w, i)
    requires 2 <= i < len && i % 2 == 0
    ensures UpdatedBelow(c[i := c[i] + 0.25 * (c[i - 1] + c[i + 1])], p, len, w, i + 2)
  {
    UpdateEven(p, len, w, i);
    var r := c[i := c[i] + 0.25 * (c[i - 1] + c[i + 1])];
    assert c[i - 1] == p[i - 1] && c[i + 1] == p[i + 1] && c[i] == p[i];
    forall k | 0 <= k < |p|
      ensures r[k] == (if 2 <= k < i + 2 then Update(p, len, w)[k] else p[k])
    {
      if k != i && k != i + 1 {
        assert r[k] == c[k];
      }
    }
  }

  /** Update at even slot `i` and at the odd slot after it. */
  lemma UpdateEven(p: seq<real>, len: int, w: int, i: int)
    requires LevelShape(|p|, len, w) && 2 <= i < len && i % 2 == 0
    ensures i + 1 < len && Update(p, len, w)[i] == p[i] + 0.25 * (p[i - 1] + p[i + 1])
    ensures Update(p, len, w)[i + 1] == p[i + 1] && Update(p, len, w)[i - 1] == p[i - 1]
  {
    assert (i + 1) % 2 == 1 && (i - 1) % 2 == 1;
  }

  lemma UpdateWrap(c: seq<real>, p: seq<real>, len: int, w: int)
    requires LevelShape(|p|, len, w) && UpdatedBelow(c, p, len, w, len)
    ensures c[0 := c[0] + 0.25 * (c[1] + c[w])] == Update(p, len, w)
  {
    var u := Update(p, len, w);
    UpdateTail(p, len, w);
    assert c[0] == p[0] && c[1] == p[1] && c[w] == p[w];
    var r := c[0 := c[0] + 0.25 * (c[1] + c[w])];
    forall k | 0 <= k < |p|
      ensures r[k] == u[k]
    {
      if k != 0 {
        assert r[k] == c[k];
      }
    }
  }

  /** Update at the slots the even-slot loop does not reach. */
  lemma UpdateTail(p: seq<real>, len: int, w: int)
    requires LevelShape(|p|, len, w)
    ensures Update(p, len, w)[0] == p[0] + 0.25 * (p[1] + p[w])
    ensures Update(p, len, w)[1] == p[1] && Update(p, len, w)[w] == p[w]
    ensures forall k :: len <= k < |p| ==> Update(p, len, w)[k] == p[k]
  {
    assert w % 2 == 1 || w >= len;
  }

  /** The update loop over the even slots, then slot 0, in place. */
  method UpdateInPlace(a: array<real>, len: int, w: int)
    requires LevelShape(a.Length, len, w)
    modifies a
    ensures a[..] == Update(old(a[..]), len, w)
  {
    ghost var p := a[..];
    var i := 2;
    ghost var m := 1;
    while i < len
      invariant 2 <= i <= len && i == 2 * m
      invariant UpdatedBelow(a[..], p, len, w, i)
    {
      EvenBelow(m, len);
      UpdateSlot(a[..], p, len, w, i);
      a[i] := a[i] + 0.25 * (a[i - 1] + a[i + 1]);
      i, m := i + 2, m + 1;
    }
    UpdateWrap(a[..], p, len, w);
    a[0] := a[0] + 0.25 * (a[1] + a[w]);
  }

  /** Slot 0, then the even slots, lose what the update added, in place. */
  method UnUpdateInPlace(a: array<real>, len: int, w: int)
    requires LevelShape(a.Length, len, w)
    modifies a
    ensures a[..] == UnUpdate(old(a[..]), len, w)
  {
    ghost var t := a[..];
    ghost var v := UnUpdate(t, len, w);
    a[0] := a[0] - 0.25 * (a[1] + a[w]);
    var i := 2;
    while i < len
      invariant 2 <= i <= len && i % 2 == 0
      invariant forall k :: 0 <= k < a.Length ==> a[k] == (if k == 0 || (k % 2 == 0 && 2 <= k < i) then v[k] else t[k])
    {
      assert (i - 1) % 2 == 1 && (i + 1) % 2 == 1;
      a[i] := a[i] - 0.25 * (a[i - 1] + a[i + 1]);
      i := i + 2;
    }
    assert a[..] == v;
  }

  /** The wrap slot, then the odd slots, regain what the predict took, in place. */
  method UnPredictInPlace(a: array<real>, len: int, w: int)
    requires LevelShape(a.Length, len, w)
    modifies a
    ensures a[..] == UnPredict(old(a[..]), len, w)
  {
    ghost var v := a[..];
    ghost var x := UnPredict(v, len, w);
    a[w] := a[w] + 0.5 * (a[len - 2] + a[0]);
    var i := 1;
    while i < len - 1
      invariant 1 <= i <= len - 1 && i % 2 == 1
      invariant forall k :: 0 <= k < a.Length ==> a[k] == (if k == w || (k % 2 == 1 && k < i) then x[k] else v[k])
    {
      assert (i - 1) % 2 == 0 && (i + 1) % 2 == 0;
      a[i] := a[i] + 0.5 * (a[i - 1] + a[i + 1]);
      i := i + 2;
    }
    assert a[..] == x;
  }

  /** Evens of the first `len` slots, then its odds; later slots stay. */
  function Deinterleave(s: seq<real>, len: int): (r: seq<real>)
    requires 0 <= len <= |s| && len % 2 == 0
    ensures |r| == |s|
  {
    seq(|s|, k requires 0 <= k < |s| =>
      if k < len / 2 then s[2 * k]
      else if k < len then s[2 * (k - len / 2) + 1]
      else s[k])
  }

  /** Slot 2k of the first `len` takes slot k, slot 2k+1 takes slot len/2 + k; later slots stay. */
  function Interleave(s: seq<real>, len: int): (r: seq<real>)
    requires 0 <= len <= |s| && len % 2 == 0
    ensures |r| == |s|
  {
    seq(|s|, k requires 0 <= k < |s| =>
      if k < len then (if k % 2 == 0 then s[k / 2] else s[len / 2 + k / 2])
      else s[k])
  }

  /** The evens-then-odds reordering of the first `len` slots, in place. */
  method DeinterleaveInPlace(a: array<real>, len: int)
    requires 0 <= len <= a.Length && len % 2 == 0
    modifies a
    ensures a[..] == Deinterleave(old(a[..]), len)
  {
    var t := a[..];
    forall k | 0 <= k < len {
      a[k] := if k < len / 2 then t[2 * k] else t[2 * (k - len / 2) + 1];
    }
    assert forall k :: 0 <= k < a.Length ==> a[k] == Deinterleave(t, len)[k];
  }

  /** The re-interleaving of the first `len` slots of `src` into `a`, which holds a copy of `src`. */
  method InterleaveInto(a: array<real>, src: array<real>, len: int)
    requires a != src && a.Length == src.Length && a[..] == src[..]
    requires 0 <= len <= a.Length && len % 2 == 0
    modifies a
    ensures a[..] == Interleave(src[..], len)
  {
    forall k | 0 <= k < len {
      a[k] := if k % 2 == 0 then src[k / 2] else src[len / 2 + k / 2];
    }
    assert forall k :: 0 <= k < a.Length ==> a[k] == Interleave(src[..], len)[k];
  }

  lemma InterleaveDeinterleave(s: seq<real>, len: int)
    requires 0 <= len <= |s| && len % 2 == 0
    ensures Interleave(Deinterleave(s, len), len) == s
  {
    var d := Deinterleave(s, len);
    var r := Interleave(d, len);
    forall k | 0 <= k < |s|
      ensures r[k] == s[k]
    {
      if k < len {
        if k % 2 == 0 {
          var m := k / 2;
          assert k == 2 * m && m < len / 2;
          assert r[k] == d[m] == s[2 * m];
        } else {
          var m := k / 2;
          assert k == 2 * m + 1 && m < len / 2;
          assert r[k] == d[len / 2 + m] == s[2 * m + 1];
        }
      }
    }
  }

  lemma DeinterleaveInterleave(s: seq<real>, len: int)
    requires 0 <= len <= |s| && len % 2 == 0
    ensures Deinterleave(Interleave(s, len), len) == s
  {
    var t := Interleave(s, len);
    var r := Deinterleave(t, len);
    forall k | 0 <= k < |s|
      ensures r[k] == s[k]
    {
      if k < len / 2 {
        assert r[k] == t[2 * k] == s[k];
      } else if k < len {
        var m := k - len / 2;
        assert (2 * m + 1) / 2 == m;
        assert r[k] == t[2 * m + 1] == s[len / 2 + m];
      }
    }
  }
}

/**
 * A lifting level applied to the leading rows or columns of a matrix: the row and
 * column passes of the 2D transforms in both sources.
 */
module LiftingPasses {
  import opened Images
  import opened LiftingSteps

  /**
   * Where a level wraps: the last slot of the whole row or column (Python's
   * `__temp[-1]`) or the last active slot (C++'s `__temp[_len-1]`).
   */
  datatype Wrap = LastSlot | ActiveEnd

  function WrapSlot(n: int, len: int, wrap: Wrap): int {
    if wrap == LastSlot then n - 1 else len - 1
  }

  /** A level of `len` active slots fits a row or column of `n` entries. */
  predicate Fits(n: int, len: int) {
    2 <= len <= n && len % 2 == 0
  }

  /** One forward (`forward`) or inverse level of `len` active slots on `s`. */
  function Step(s: seq<real>, len: int, wrap: Wrap, forward: bool): (r: seq<real>)
    requires Fits(|s|, len)
    ensures |r| == |s|
  {
    var w := WrapSlot(|s|, len, wrap);
    assert LevelShape(|s|, len, w);
    if forward then Level(s, len, w) else UnLevel(s, len, w)
  }

  lemma StepStep(s: seq<real>, len: int, wrap: Wrap, forward: bool)
    requires Fits(|s|, len)
    ensures Step(Step(s, len, wrap, forward), len, wrap, !forward) == s
  {
    var w := WrapSlot(|s|, len, wrap);
    if forward {
      UnLevelLevel(s, len, w);
    } else {
      LevelUnLevel(s, len, w);
    }
  }

  /** The level applied to each of the first `rows` rows. */
  function RowPass(g: Matrix, rows: int, len: int, wrap: Wrap, forward: bool): (r: Matrix)
    requires IsMatrix(g, |g|, Width(g)) && 0 <= rows <= |g| && Fits(Width(g), len)
    ensures IsMatrix(r, |g|, Width(g)) && Width(r) == Width(g)
    ensures forall i :: rows <= i < |g| ==> r[i] == g[i]
  {
    seq(|g|, i requires 0 <= i < |g| => if i < rows then Step(g[i], len, wrap, forward) else g[i])
  }

  /** The level applied to each of the first `cols` columns. */
  function ColPass(g: Matrix, cols: int, len: int, wrap: Wrap, forward: bool): (r: Matrix)
    requires IsMatrix(g, |g|, Width(g)) && 0 <= cols <= Width(g) && Fits(|g|, len)
    ensures IsMatrix(r, |g|, Width(g)) && Width(r) == Width(g)
    ensures forall i, j :: 0 <= i < |g| && cols <= j < Width(g) ==> r[i][j] == g[i][j]
  {
    seq(|g|, i requires 0 <= i < |g| =>
      seq(Width(g), j requires 0 <= j < Width(g) =>
        if j < cols then Step(Col(g, j), len, wrap, forward)[i] else g[i][j]))
  }

  lemma RowPassNone(g: Matrix, len: int, wrap: Wrap, forward: bool)
    requires IsMatrix(g, |g|, Width(g)) && Fits(Width(g), len)
    ensures RowPass(g, 0, len, wrap, forward) == g
  {
  }

  /** Passing one more row is updating that row. */
  lemma RowPassNext(g: Matrix, rows: int, len: int, wrap: Wrap, forward: bool)
    requires IsMatrix(g, |g|, Width(g)) && 0 <= rows < |g| && Fits(Width(g), len)
    ensures RowPass(g, rows, len, wrap, forward)[rows := Step(g[rows], len, wrap, forward)]
      == RowPass(g, rows + 1, len, wrap, forward)
  {
  }

  lemma ColPassNone(g: Matrix, len: int, wrap: Wrap, forward: bool)
    requires IsMatrix(g, |g|, Width(g)) && Fits(|g|, len)
    ensures ColPass(g, 0, len, wrap, forward) == g
  {
    MatrixEq(ColPass(g, 0, len, wrap, forward), g, |g|, Width(g));
  }

  /** Passing one more column is replacing that column. */
  lemma ColPassNext(g: Matrix, cols: int, len: int, wrap: Wrap, forward: bool)
    requires IsMatrix(g, |g|, Width(g)) && 0 <= cols < Width(g) && Fits(|g|, len)
    ensures var c := ColPass(g, cols, len, wrap, forward);
      Col(c, cols) == Col(g, cols) &&
      SetCol(c, cols, Step(Col(c, cols), len, wrap, forward)) == ColPass(g, cols + 1, len, wrap, forward)
  {
    var c := ColPass(g, cols, len, wrap, forward);
    assert Col(c, cols) == Col(g, cols);
    MatrixEq(SetCol(c, cols, Step(Col(c, cols), len, wrap, forward)), ColPass(g, cols + 1, len, wrap, forward), |g|, Width(g));
  }

  /** Undoing a row pass with the opposite direction restores the matrix. */
  lemma RowPassInverse(g: Matrix, rows: int, len: int, wrap: Wrap, forward: bool)
    requires IsMatrix(g, |g|, Width(g)) && 0 <= rows <= |g| && Fits(Width(g), len)
    ensures RowPass(RowPass(g, rows, len, wrap, forward), rows, len, wrap, !forward) == g
  {
    var r := RowPass(g, rows, len, wrap, forward);
    var b := RowPass(r, rows, len, wrap, !forward);
    forall i | 0 <= i < |g|
      ensures b[i] == g[i]
    {
      if i < rows {
        StepStep(g[i], len, wrap, forward);
      }
    }
  }

  /** Column `j` after a column pass is the level applied to column `j`. */
  lemma ColOfColPass(g: Matrix, cols: int, len: int, wrap: Wrap, forward: bool, j: int)
    requires IsMatrix(g, |g|, Width(g)) && 0 <= cols <= Width(g) && Fits(|g|, len)
    requires 0 <= j < cols
    ensures Col(ColPass(g, cols, len, wrap, forward), j) == Step(Col(g, j), len, wrap, forward)
  {
  }

  /** Undoing a column pass with the opposite direction restores the matrix. */
  lemma ColPassInverse(g: Matrix, cols: int, len: int, wrap: Wrap, forward: bool)
    requires IsMatrix(g, |g|, Width(g)) && 0 <= cols <= Width(g) && Fits(|g|, len)
    ensures ColPass(ColPass(g, cols, len, wrap, forward), cols, len, wrap, !forward) == g
  {
    var r := ColPass(g, cols, len, wrap, forward);
    var b := ColPass(r, cols, len, wrap, !forward);
    forall i, j | 0 <= i < |g| && 0 <= j < Width(g)
      ensures b[i][j] == g[i][j]
    {
      if j < cols {
        ColOfColPass(g, cols, len, wrap, forward, j);
        StepStep(Col(g, j), len, wrap, forward);
      }
    }
    MatrixEq(b, g, |g|, Width(g));
  }

  /** Transposing, passing rows and transposing back (the C++ column pass) is a column pass. */
  lemma TransposedRowPass(g: Matrix, cols: int, len: int, wrap: Wrap, forward: bool)
    requires IsMatrix(g, |g|, Width(g)) && 0 < Width(g) && 0 <= cols <= Width(g) && Fits(|g|, len)
    ensures Width(Transpose(g)) == |g|
    ensures Transpose(RowPass(Transpose(g), cols, len, wrap, forward)) == ColPass(g, cols, len, wrap, forward)
  {
    var t := Transpose(g);
    assert Width(t) == |g|;
    var r := RowPass(t, cols, len, wrap, forward);
    var c := ColPass(g, cols, len, wrap, forward);
    forall i, j | 0 <= i < |g| && 0 <= j < Width(g)
      ensures Transpose(r)[i][j] == c[i][j]
    {
      if j < cols {
        assert t[j] == Col(g, j);
      }
    }
    MatrixEq(Transpose(r), c, |g|, Width(g));
  }
}
