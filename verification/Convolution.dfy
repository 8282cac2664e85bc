/** The two convolutions, with arrays indexed as the pointers move. */
module Convolution {
  import opened Basics

  /** The element at i, and zero outside the sequence. */
  function Tap(s: seq<real>, i: int): real {
    if 0 <= i < |s| then s[i] else 0.0
  }

  /** The sum of x[k] * y[i - k] over k < n. */
  function Dot(x: seq<real>, y: seq<real>, i: int, n: nat): real {
    if n == 0 then 0.0 else Dot(x, y, i, n - 1) + Tap(x, n - 1) * Tap(y, i - (n - 1))
  }

  /** Element i of the full convolution. */
  function Full(x: seq<real>, y: seq<real>, i: int): real {
    Dot(x, y, i, |x|)
  }

  function Constant(c: real, n: nat): (s: seq<real>)
    ensures |s| == n && forall k :: 0 <= k < n ==> s[k] == c
  {
    seq(n, _ => c)
  }

  ghost predicate Positive(y: seq<real>) {
    y != [] && forall k :: 0 <= k < |y| ==> y[k] > 0.0
  }

  // ---------- where the terms vanish ----------

  lemma {:induction false} NothingBelow(x: seq<real>, y: seq<real>, i: int, n: nat)
    requires n <= i - |y| + 1 || n == 0
    ensures Dot(x, y, i, n) == 0.0
  {
    if n > 0 { NothingBelow(x, y, i, n - 1); }
  }

  lemma {:induction false} NothingAbove(x: seq<real>, y: seq<real>, i: int, m: nat, n: nat)
    requires m <= n && (m >= i + 1 || m >= |x|)
    ensures Dot(x, y, i, n) == Dot(x, y, i, m)
  {
    if m < n { NothingAbove(x, y, i, m, n - 1); }
  }

  // ---------- the programs ----------

  /** The inner loop for output i: from the first to the last pair that overlaps. */
  method Accumulate(x: array<real>, y: array<real>, i: nat) returns (sum: real)
    requires i < x.Length + y.Length - 1 && x.Length >= 1 && y.Length >= 1
    ensures sum == Full(x[..], y[..], i)
  {
    var lo := if 0 > i - y.Length + 1 then 0 else i - y.Length + 1;
    var hi := if x.Length - 1 < i then x.Length - 1 else i;
    NothingBelow(x[..], y[..], i, lo);
    sum := 0.0;
    var xptr, yptr := lo, i - lo;
    for n := lo to hi + 1
      invariant xptr == n && yptr == i - n
      invariant sum == Dot(x[..], y[..], i, n)
    {
      sum := sum + x[xptr] * y[yptr];
      xptr, yptr := xptr + 1, yptr - 1;
    }
    NothingAbove(x[..], y[..], i, hi + 1, x.Length);
  }

  method LinearConvolution(x: array<real>, y: array<real>, z: array<real>)
    requires x.Length >= 1 && y.Length >= 1 && z.Length >= x.Length + y.Length - 1
    requires z != x && z != y
    modifies z
    ensures forall i :: 0 <= i < x.Length + y.Length - 1 ==> z[i] == Full(x[..], y[..], i)
    ensures forall i :: x.Length + y.Length - 1 <= i < z.Length ==> z[i] == old(z[i])
  {
    var lenz := x.Length + y.Length - 1;
    for i := 0 to lenz
      invariant forall k :: 0 <= k < i ==> z[k] == Full(x[..], y[..], k)
      invariant forall k :: i <= k < z.Length ==> z[k] == old(z[k])
    {
      z[i] := Accumulate(x, y, i);
    }
  }

  /** Element k of the convolution of the same length as x: the full one, normalised by the part of
      the filter that overlaps x. */
  function Same(x: seq<real>, y: seq<real>, k: nat): real
    requires Positive(y) && k < |x|
  {
    NormalizerIsPositive(|x|, y, k);
    Full(x, y, k + |y| / 2) / Full(Constant(1.0, |x|), y, k + |y| / 2)
  }

  /** What Same divides: element k + leny / 2 of the full convolution by what ones would give there. */
  lemma SameIsNormalised(x: seq<real>, y: seq<real>, k: nat)
    requires Positive(y) && k < |x|
    ensures Same(x, y, k) * Full(Constant(1.0, |x|), y, k + |y| / 2) == Full(x, y, k + |y| / 2)
  {
    NormalizerIsPositive(|x|, y, k);
  }

  /** The inner loop with its normalising sum. */
  method AccumulateBoth(x: array<real>, y: array<real>, i: nat) returns (sum: real, normalize: real)
    requires y.Length >= 1 && i < x.Length + y.Length - 1
    ensures sum == Full(x[..], y[..], i) && normalize == Full(Constant(1.0, x.Length), y[..], i)
  {
    var lo := if 0 > i - y.Length + 1 then 0 else i - y.Length + 1;
    var hi := if x.Length - 1 < i then x.Length - 1 else i;
    ghost var ones := Constant(1.0, x.Length);
    NothingBelow(x[..], y[..], i, lo);
    NothingBelow(ones, y[..], i, lo);
    sum, normalize := 0.0, 0.0;
    var xptr, yptr := lo, i - lo;
    var n := lo;
    while n <= hi
      invariant lo <= n && (n <= hi + 1 || n == lo) && xptr == n && yptr == i - n
      invariant sum == Dot(x[..], y[..], i, n) && normalize == Dot(ones, y[..], i, n)
    {
      sum := sum + x[xptr] * y[yptr];
      normalize := normalize + y[yptr];
      xptr, yptr, n := xptr + 1, yptr - 1, n + 1;
    }
    NothingAbove(x[..], y[..], i, n, x.Length);
    NothingAbove(ones, y[..], i, n, x.Length);
  }

  method LinearConvolutionSame(x: array<real>, y: array<real>, z: array<real>)
    requires Positive(y[..]) && z.Length >= x.Length && z != x && z != y
    modifies z
    ensures forall k :: 0 <= k < x.Length ==> z[k] == Same(x[..], y[..], k)
    ensures forall k :: x.Length <= k < z.Length ==> z[k] == old(z[k])
  {
    var lenz := x.Length + y.Length - 1;
    var half := y.Length / 2;
    var zptr := 0;
    var i := 0;
    while i < lenz
      invariant 0 <= i <= lenz && zptr == (if i < half then 0 else i - half) <= x.Length
      invariant forall k :: 0 <= k < zptr ==> z[k] == Same(x[..], y[..], k)
      invariant forall k :: zptr <= k < z.Length ==> z[k] == old(z[k])
    {
      if i - half >= x.Length { return; }
      var sum, normalize := AccumulateBoth(x, y, i);
      if i >= half {
        NormalizerIsPositive(x.Length, y[..], zptr);
        z[zptr] := sum / normalize;
        zptr := zptr + 1;
      }
      i := i + 1;
    }
  }

  // ---------- weighted sums ----------

  /** The positions of x that output k of the same-length convolution looks at. */
  predicate InWindow(lenx: nat, leny: nat, k: nat, n: int) {
    0 <= n < lenx && 0 <= k + leny / 2 - n < leny
  }

  lemma {:induction false} DotBounds(x: seq<real>, lenx: nat, y: seq<real>, i: int, n: nat, lo: real, hi: real)
    requires Positive(y) && |x| == lenx && n <= lenx
    requires forall k :: 0 <= k < lenx && 0 <= i - k < |y| ==> lo <= x[k] <= hi
    ensures Bounded(lo, Dot(Constant(1.0, lenx), y, i, n), Dot(x, y, i, n), hi)
  {
    if n > 0 {
      DotBounds(x, lenx, y, i, n - 1, lo, hi);
      var w, a, d := Tap(y, i - (n - 1)), Dot(x, y, i, n - 1), Dot(Constant(1.0, lenx), y, i, n - 1);
      LastTerm(x, y, i, n);
      LastTerm(Constant(1.0, lenx), y, i, n);
      BoundsStep(a, d, x[n - 1], w, lo, hi);
    } else {
      NothingIsBounded(lo, hi);
    }
  }

  /** a lies between lo and hi times d. */
  predicate Bounded(lo: real, d: real, a: real, hi: real) {
    lo * d <= a <= hi * d
  }

  lemma NothingIsBounded(lo: real, hi: real)
    ensures Bounded(lo, 0.0, 0.0, hi)
  {
  }

  lemma LastTerm(x: seq<real>, y: seq<real>, i: int, n: nat)
    requires 0 < n <= |x|
    ensures Dot(x, y, i, n) == Dot(x, y, i, n - 1) + x[n - 1] * Tap(y, i - (n - 1))
  {
  }

  lemma BoundsStep(a: real, d: real, v: real, w: real, lo: real, hi: real)
    requires Bounded(lo, d, a, hi) && w >= 0.0
    requires w != 0.0 ==> lo <= v <= hi
    ensures Bounded(lo, d + 1.0 * w, a + v * w, hi)
  {
    Distribute(lo, d, w);
    Distribute(hi, d, w);
    if w != 0.0 {
      Scale(lo, v, w);
      Scale(v, hi, w);
    }
  }

  lemma Distribute(c: real, d: real, w: real)
    ensures c * (d + w) == c * d + c * w
  {
  }

  lemma Scale(a: real, b: real, w: real)
    requires a <= b && w >= 0.0
    ensures a * w <= b * w
  {
    assert b * w - a * w == (b - a) * w;
  }

  lemma {:induction false} OnesOnlyGrow(lenx: nat, y: seq<real>, i: int, n: nat, m: nat)
    requires Positive(y) && n <= m
    ensures 0.0 <= Dot(Constant(1.0, lenx), y, i, n) <= Dot(Constant(1.0, lenx), y, i, m)
    decreases m
  {
    if n < m {
      OnesOnlyGrow(lenx, y, i, n, m - 1);
    } else if m > 0 {
      OnesOnlyGrow(lenx, y, i, m - 1, m - 1);
    }
  }

  lemma NormalizerIsPositive(lenx: nat, y: seq<real>, k: nat)
    requires Positive(y) && k < lenx
    ensures Full(Constant(1.0, lenx), y, k + |y| / 2) > 0.0
  {
    var one, i := Constant(1.0, lenx), k + |y| / 2;
    OnesOnlyGrow(lenx, y, i, k, k);
    OnesOnlyGrow(lenx, y, i, k + 1, lenx);
    assert Dot(one, y, i, k + 1) == Dot(one, y, i, k) + y[|y| / 2];
  }

  /** Every output lies between the least and the greatest input of its window. */
  lemma SameStaysInWindow(x: seq<real>, y: seq<real>, k: nat, lo: real, hi: real)
    requires Positive(y) && k < |x|
    requires forall n :: InWindow(|x|, |y|, k, n) ==> lo <= x[n] <= hi
    ensures lo <= Same(x, y, k) <= hi
  {
    var i := k + |y| / 2;
    forall n | 0 <= n < |x| && 0 <= i - n < |y| ensures lo <= x[n] <= hi {
      assert InWindow(|x|, |y|, k, n);
    }
    DotBounds(x, |x|, y, i, |x|, lo, hi);
    NormalizerIsPositive(|x|, y, k);
    QuotientBounds(Full(x, y, i), Full(Constant(1.0, |x|), y, i), lo, hi);
  }

  lemma QuotientBounds(a: real, b: real, lo: real, hi: real)
    requires b > 0.0 && lo * b <= a <= hi * b
    ensures lo <= a / b <= hi
  {
    var q := a / b;
    assert q * b == a;
    ScaleOrder(b, lo, q);
    ScaleOrder(b, q, hi);
  }

  // ---------- linearity ----------

  function Plus(x: seq<real>, w: seq<real>): (s: seq<real>)
    requires |x| == |w|
    ensures |s| == |x| && forall k :: 0 <= k < |x| ==> s[k] == x[k] + w[k]
  {
    seq(|x|, k requires 0 <= k < |x| => x[k] + w[k])
  }

  lemma {:induction false} DotIsAdditive(x: seq<real>, w: seq<real>, y: seq<real>, i: int, n: nat)
    requires |x| == |w|
    ensures Dot(Plus(x, w), y, i, n) == Dot(x, y, i, n) + Dot(w, y, i, n)
  {
    if n > 0 {
      DotIsAdditive(x, w, y, i, n - 1);
      var t := Tap(y, i - (n - 1));
      assert (Tap(x, n - 1) + Tap(w, n - 1)) * t == Tap(x, n - 1) * t + Tap(w, n - 1) * t;
    }
  }

  /** Smoothing a sum is summing what was smoothed. */
  lemma SameIsAdditive(x: seq<real>, w: seq<real>, y: seq<real>, k: nat)
    requires Positive(y) && |x| == |w| && k < |x|
    ensures Same(Plus(x, w), y, k) == Same(x, y, k) + Same(w, y, k)
  {
    var i := k + |y| / 2;
    DotIsAdditive(x, w, y, i, |x|);
    NormalizerIsPositive(|x|, y, k);
    SumOverQuotient(Full(x, y, i), Full(w, y, i), Full(Constant(1.0, |x|), y, i));
  }

  lemma SumOverQuotient(a: real, b: real, d: real)
    requires d > 0.0
    ensures (a + b) / d == a / d + b / d
  {
    assert ((a + b) / d) * d == a + b;
    assert (a / d) * d == a && (b / d) * d == b;
    assert (a / d + b / d) * d == a + b;
  }

  /** Constants are kept, and adding a constant to the input adds it to the output. */
  lemma SameKeepsConstantsAndTranslations(x: seq<real>, y: seq<real>, c: real, k: nat)
    requires Positive(y) && k < |x|
    ensures Same(Constant(c, |x|), y, k) == c
    ensures Same(Plus(x, Constant(c, |x|)), y, k) == Same(x, y, k) + c
  {
    SameStaysInWindow(Constant(c, |x|), y, k, c, c);
    SameIsAdditive(x, Constant(c, |x|), y, k);
  }

  // ---------- a filter with a single tap ----------

  /** Zero but for c at position d. */
  ghost predicate IsImpulse(y: seq<real>, d: nat, c: real) {
    d < |y| && forall k :: 0 <= k < |y| ==> y[k] == if k == d then c else 0.0
  }

  lemma {:induction false} DotOfImpulse(x: seq<real>, y: seq<real>, d: nat, c: real, i: int, n: nat)
    requires IsImpulse(y, d, c)
    ensures Dot(x, y, i, n) == if 0 <= i - d < n then c * Tap(x, i - d) else 0.0
  {
    if n > 0 {
      DotOfImpulse(x, y, d, c, i, n - 1);
      assert Tap(y, i - (n - 1)) == if i - (n - 1) == d then c else 0.0;
    }
  }

  /** Convolving with a single tap c at position d moves the input by d and scales it by c.  With the additivity in
      either input this decides every value of the convolution. */
  lemma FullOfImpulse(x: seq<real>, y: seq<real>, d: nat, c: real, i: int)
    requires IsImpulse(y, d, c)
    ensures Full(x, y, i) == if 0 <= i - d < |x| then c * x[i - d] else 0.0
  {
    DotOfImpulse(x, y, d, c, i, |x|);
  }

  lemma {:induction false} DotIsAdditiveInFilter(x: seq<real>, y: seq<real>, w: seq<real>, i: int, n: nat)
    requires |y| == |w|
    ensures Dot(x, Plus(y, w), i, n) == Dot(x, y, i, n) + Dot(x, w, i, n)
  {
    if n > 0 {
      DotIsAdditiveInFilter(x, y, w, i, n - 1);
      var a, k := Tap(x, n - 1), i - (n - 1);
      assert Tap(Plus(y, w), k) == Tap(y, k) + Tap(w, k);
      assert a * (Tap(y, k) + Tap(w, k)) == a * Tap(y, k) + a * Tap(w, k);
    }
  }

  /** The filter may be taken apart as well. */
  lemma FullIsAdditive(x: seq<real>, y: seq<real>, w: seq<real>, i: int)
    requires |y| == |w|
    ensures Full(x, Plus(y, w), i) == Full(x, y, i) + Full(x, w, i)
  {
    DotIsAdditiveInFilter(x, y, w, i, |x|);
  }

  // ---------- mass and commutation ----------

  function Sum(s: seq<real>): real {
    if s == [] then 0.0 else Sum(s[..|s| - 1]) + s[|s| - 1]
  }

  /** The first n outputs, each with only the first m elements of x. */
  function Mass(x: seq<real>, y: seq<real>, m: nat, n: nat): real {
    if n == 0 then 0.0 else Mass(x, y, m, n - 1) + Dot(x, y, n - 1, m)
  }

  /** The sum of the taps y[i - m] over i < n. */
  function TapSum(y: seq<real>, m: nat, n: nat): real {
    if n == 0 then 0.0 else TapSum(y, m, n - 1) + Tap(y, n - 1 - m)
  }

  lemma {:induction false} MassStep(x: seq<real>, y: seq<real>, m: nat, n: nat)
    ensures Mass(x, y, m + 1, n) == Mass(x, y, m, n) + Tap(x, m) * TapSum(y, m, n)
  {
    if n > 0 {
      MassStep(x, y, m, n - 1);
      var a := Tap(x, m);
      assert a * (TapSum(y, m, n - 1) + Tap(y, n - 1 - m)) == a * TapSum(y, m, n - 1) + a * Tap(y, n - 1 - m);
    }
  }

  lemma {:induction false} MassOfNothing(x: seq<real>, y: seq<real>, n: nat)
    ensures Mass(x, y, 0, n) == 0.0
  {
    if n > 0 { MassOfNothing(x, y, n - 1); }
  }

  lemma {:induction false} TapSumIsSum(y: seq<real>, m: nat, n: nat)
    ensures TapSum(y, m, n) == if n <= m then 0.0 else if n - m <= |y| then Sum(y[..n - m]) else Sum(y)
  {
    if n > 0 {
      TapSumIsSum(y, m, n - 1);
      if m < n && n - m <= |y| {
        assert y[..n - m][..n - m - 1] == y[..n - m - 1];
      }
      assert y[..|y|] == y;
    }
  }

  lemma {:induction false} MassOfPrefix(x: seq<real>, y: seq<real>, m: nat, n: nat)
    requires m <= |x| && n >= m + |y| - 1 && y != []
    ensures Mass(x, y, m, n) == Sum(x[..m]) * Sum(y)
  {
    if m == 0 {
      MassOfNothing(x, y, n);
      assert x[..0] == [];
    } else {
      MassOfPrefix(x, y, m - 1, n);
      MassStep(x, y, m - 1, n);
      TapSumIsSum(y, m - 1, n);
      assert y[..|y|] == y && x[..m][..m - 1] == x[..m - 1];
      Distribute(Sum(y), Sum(x[..m - 1]), x[m - 1]);
    }
  }

  /** The outputs of the full convolution, as LinearConvolution writes them. */
  function FullSeq(x: seq<real>, y: seq<real>): (z: seq<real>)
    requires x != [] && y != []
    ensures |z| == |x| + |y| - 1 && forall i :: 0 <= i < |z| ==> z[i] == Full(x, y, i)
  {
    seq(|x| + |y| - 1, i requires 0 <= i => Full(x, y, i))
  }

  lemma {:induction false} MassIsSum(x: seq<real>, y: seq<real>, n: nat)
    requires x != [] && y != [] && n <= |x| + |y| - 1
    ensures Mass(x, y, |x|, n) == Sum(FullSeq(x, y)[..n])
  {
    if n > 0 {
      MassIsSum(x, y, n - 1);
      assert FullSeq(x, y)[..n][..n - 1] == FullSeq(x, y)[..n - 1];
    }
  }

  /** The outputs of the full convolution sum to the product of the sums of its inputs. */
  lemma FullConservesMass(x: seq<real>, y: seq<real>)
    requires x != [] && y != []
    ensures Sum(FullSeq(x, y)) == Sum(x) * Sum(y)
  {
    var n := |x| + |y| - 1;
    MassOfPrefix(x, y, |x|, n);
    MassIsSum(x, y, n);
    assert FullSeq(x, y)[..n] == FullSeq(x, y) && x[..|x|] == x;
  }

  lemma {:induction false} Reflect(x: seq<real>, y: seq<real>, i: nat, n: nat)
    requires n <= i + 1
    ensures Dot(x, y, i, n) + Dot(y, x, i, i + 1 - n) == Dot(x, y, i, i + 1)
    decreases i + 1 - n
  {
    if n <= i { Reflect(x, y, i, n + 1); }
  }

  /** Convolving x with y is convolving y with x. */
  lemma FullCommutes(x: seq<real>, y: seq<real>)
    requires x != [] && y != []
    ensures FullSeq(x, y) == FullSeq(y, x)
  {
    forall i: nat | i < |x| + |y| - 1 ensures Full(x, y, i) == Full(y, x, i) {
      Reflect(x, y, i, 0);
      ExtendToAll(x, y, i);
      ExtendToAll(y, x, i);
    }
  }

  lemma ExtendToAll(x: seq<real>, y: seq<real>, i: nat)
    ensures Full(x, y, i) == Dot(x, y, i, i + 1)
  {
    if |x| <= i + 1 { NothingAbove(x, y, i, |x|, i + 1); } else { NothingAbove(x, y, i, i + 1, |x|); }
  }

  lemma {:induction false} DotWithOnes(y: seq<real>, lenx: nat, i: int, n: nat)
    requires n <= |y| && n - 1 <= i < lenx
    ensures Dot(y, Constant(1.0, lenx), i, n) == Sum(y[..n])
  {
    if n > 0 {
      DotWithOnes(y, lenx, i, n - 1);
      assert y[..n][..n - 1] == y[..n - 1];
    }
  }

  lemma FullOverlapNormalizer(lenx: nat, y: seq<real>, i: nat)
    requires y != [] && |y| - 1 <= i < lenx
    ensures Full(Constant(1.0, lenx), y, i) == Sum(y)
  {
    var one := Constant(1.0, lenx);
    FullCommutes(one, y);
    assert FullSeq(one, y)[i] == FullSeq(y, one)[i];
    DotWithOnes(y, lenx, i, |y|);
    assert y[..|y|] == y;
  }

  /** Where the filter overlaps x completely, the same-length convolution is the full one shifted by
      half the filter and divided by the sum of the filter. */
  lemma SameIsShiftedFull(x: seq<real>, y: seq<real>, k: nat)
    requires Positive(y) && k < |x| && |y| - 1 <= k + |y| / 2 < |x|
    ensures Sum(y) > 0.0 && Same(x, y, k) == Full(x, y, k + |y| / 2) / Sum(y)
  {
    FullOverlapNormalizer(|x|, y, k + |y| / 2);
    NormalizerIsPositive(|x|, y, k);
  }
}
