/** The right edge of a smoothed face against the right edges of the series: it exceeds the greatest of
    them by at most one, and this says exactly when. */
module SmoothedEdges {
  import opened Basics
  import opened Tracks
  import opened Rounding
  import opened Convolution
  import opened FaceSeries

  // ---------- smoothing is taking the mean of a window ----------

  /** The window of position k, for an odd number of taps: from one position up to another. */
  function WindowFrom(taps: nat, k: nat): nat {
    if k < taps / 2 then 0 else k - taps / 2
  }

  function WindowTo(len: nat, taps: nat, k: nat): (hi: nat)
    ensures hi <= len
  {
    Min(len, k + taps / 2 + 1)
  }

  lemma WindowIsRange(len: nat, taps: nat, k: nat)
    requires taps % 2 == 1 && k < len
    ensures WindowFrom(taps, k) <= k < WindowTo(len, taps, k)
    ensures forall n :: InWindow(len, taps, k, n) <==> WindowFrom(taps, k) <= n < WindowTo(len, taps, k)
  {
  }

  function RangeSum(x: seq<real>, lo: nat, hi: nat): real
    requires lo <= hi <= |x|
  {
    if lo == hi then 0.0 else RangeSum(x, lo, hi - 1) + x[hi - 1]
  }

  /** With equal taps of one, the first n terms add up the elements of the window before n. */
  lemma {:induction false} DotOfOnes(x: seq<real>, taps: nat, k: nat, n: nat)
    requires taps % 2 == 1 && k < |x| && n <= |x|
    ensures var lo, hi := WindowFrom(taps, k), WindowTo(|x|, taps, k);
      lo <= hi && Dot(x, Constant(1.0, taps), k + taps / 2, n) == RangeSum(x, lo, if n < lo then lo else Min(n, hi))
  {
    if n > 0 {
      DotOfOnes(x, taps, k, n - 1);
      var lo, hi := WindowFrom(taps, k), WindowTo(|x|, taps, k);
      assert Tap(Constant(1.0, taps), k + taps / 2 - (n - 1)) == if lo <= n - 1 < hi then 1.0 else 0.0;
    }
  }

  lemma {:induction false} SumOfOnes(len: nat, lo: nat, hi: nat)
    requires lo <= hi <= len
    ensures RangeSum(Constant(1.0, len), lo, hi) == (hi - lo) as real
    decreases hi
  {
    if lo < hi { SumOfOnes(len, lo, hi - 1); }
  }

  lemma FullOfOnes(x: seq<real>, taps: nat, k: nat)
    requires taps % 2 == 1 && k < |x|
    ensures Full(x, Constant(1.0, taps), k + taps / 2) == RangeSum(x, WindowFrom(taps, k), WindowTo(|x|, taps, k))
  {
    DotOfOnes(x, taps, k, |x|);
  }

  /** The sum of a coordinate over the faces from lo up to hi. */
  function CoordinateSum(faces: seq<Face>, c: Coordinate, lo: nat, hi: nat): int
    requires lo <= hi <= |faces|
  {
    if lo == hi then 0 else CoordinateSum(faces, c, lo, hi - 1) + Get(faces[hi - 1].box, c)
  }

  lemma {:induction false} SumOfValues(faces: seq<Face>, c: Coordinate, lo: nat, hi: nat)
    requires lo <= hi <= |faces|
    ensures RangeSum(Values(faces, c), lo, hi) == CoordinateSum(faces, c, lo, hi) as real
    decreases hi
  {
    if lo < hi { SumOfValues(faces, c, lo, hi - 1); }
  }

  function Mean(sum: int, count: int): real
    requires count >= 1
  {
    sum as real / count as real
  }

  /** The same-length convolution with equal taps is the mean over the window. */
  lemma SameOfOnes(x: seq<real>, taps: nat, k: nat)
    requires taps % 2 == 1 && k < |x|
    ensures var lo, hi := WindowFrom(taps, k), WindowTo(|x|, taps, k);
      lo < hi && Same(x, Constant(1.0, taps), k) == RangeSum(x, lo, hi) / (hi - lo) as real
  {
    WindowIsRange(|x|, taps, k);
    FullOfOnes(x, taps, k);
    FullOfOnes(Constant(1.0, |x|), taps, k);
    SumOfOnes(|x|, WindowFrom(taps, k), WindowTo(|x|, taps, k));
  }

  /** Before it is rounded, a smoothed coordinate is the mean over its window. */
  lemma SmoothingIsMean(faces: seq<Face>, c: Coordinate, k: nat)
    requires k < |faces|
    ensures var lo, hi := WindowFrom(TapsFor(c), k), WindowTo(|faces|, TapsFor(c), k);
      lo < hi && Same(Values(faces, c), Filter(c), k) == Mean(CoordinateSum(faces, c, lo, hi), hi - lo)
  {
    var taps := TapsFor(c);
    SameOfOnes(Values(faces, c), taps, k);
    SumOfValues(faces, c, WindowFrom(taps, k), WindowTo(|faces|, taps, k));
  }

  // ---------- the right edge ----------

  function Right(f: Face): int {
    f.box.x + f.box.width
  }

  /** edge is not exceeded by any right edge of the series. */
  ghost predicate NoneBeyond(faces: seq<Face>, edge: int) {
    forall n :: 0 <= n < |faces| ==> Right(faces[n]) <= edge
  }

  ghost predicate AllReach(faces: seq<Face>, lo: nat, hi: nat, edge: int)
    requires hi <= |faces|
  {
    forall n :: lo <= n < hi ==> Right(faces[n]) == edge
  }

  lemma OneMore(n: int, edge: int)
    ensures n * edge == (n - 1) * edge + edge
  {
  }

  lemma {:induction false} EdgesAddUp(faces: seq<Face>, lo: nat, hi: nat, edge: int)
    requires NoneBeyond(faces, edge) && lo <= hi <= |faces|
    ensures var sum := CoordinateSum(faces, X, lo, hi) + CoordinateSum(faces, Width, lo, hi);
      sum <= (hi - lo) * edge && (sum == (hi - lo) * edge <==> AllReach(faces, lo, hi, edge))
    decreases hi
  {
    if lo < hi {
      EdgesAddUp(faces, lo, hi - 1, edge);
      OneMore(hi - lo, edge);
      assert Right(faces[hi - 1]) <= edge;
    }
  }

  /** The mean of so many integers with this sum lies half-way between two integers. */
  predicate Halfway(sum: int, count: int)
    requires count >= 1
  {
    2 * (sum % count) == count
  }

  lemma HalfwayIsEven(sum: int, count: int)
    requires count >= 1 && Halfway(sum, count)
    ensures count % 2 == 0
  {
  }

  lemma ProductAsReal(d: int, count: int)
    ensures (d * count) as real == d as real * count as real
  {
  }

  /** A sum divided: whole part and fraction. */
  lemma Divided(sum: int, count: int, d: int, r: int)
    requires count >= 1 && sum == d * count + r
    ensures Mean(sum, count) == d as real + Mean(r, count)
  {
    ProductAsReal(d, count);
    SumOverQuotient(d as real * count as real, r as real, count as real);
  }

  lemma Fraction(r: int, count: int, f: real)
    requires 0 <= r < count && f * count as real == r as real
    ensures 0.0 <= f < 1.0
    ensures f == 0.5 <==> 2 * r == count
  {
    var m := count as real;
    ScaleOrder(m, f, 1.0);
    ScaleOrder(m, 0.0, f);
    ScaleOrder(m, f, 0.5);
    ScaleOrder(m, 0.5, f);
  }

  lemma MeanTimesCount(sum: int, count: int)
    requires count >= 1
    ensures Mean(sum, count) * count as real == sum as real
  {
  }

  lemma FloorIs(q: real, d: int)
    requires d as real <= q < d as real + 1.0
    ensures q.Floor == d
  {
    var e := q.Floor;
    assert e as real <= q < (e + 1) as real;
    assert e < d + 1 && d < e + 1;
  }

  lemma HalfwayByRest(q: real, sum: int, count: int, d: int, r: int)
    requires count >= 1 && sum == d * count + r && 0 <= r < count && q == Mean(sum, count)
    ensures q - q.Floor as real == 0.5 <==> 2 * r == count
  {
    Divided(sum, count, d, r);
    MeanTimesCount(r, count);
    Fraction(r, count, Mean(r, count));
    FloorIs(q, d);
  }

  lemma HalfwayIff(sum: int, count: int)
    requires count >= 1
    ensures var q := Mean(sum, count); q - q.Floor as real == 0.5 <==> Halfway(sum, count)
  {
    HalfwayByRest(Mean(sum, count), sum, count, sum / count, sum % count);
  }

  /** Two means of integers over the same window: their sum is the mean of the sums. */
  lemma MeansAdd(a: int, b: int, count: int)
    requires count >= 1
    ensures Mean(a, count) + Mean(b, count) == Mean(a + b, count)
  {
    SumOverQuotient(a as real, b as real, count as real);
  }

  lemma MeanAgainst(sum: int, count: int, edge: int)
    requires count >= 1
    ensures sum <= count * edge ==> Mean(sum, count) <= edge as real
    ensures Mean(sum, count) == edge as real <==> sum == count * edge
  {
    var m, q := count as real, Mean(sum, count);
    MeanTimesCount(sum, count);
    assert edge as real * m == (count * edge) as real;
    ScaleOrder(m, q, edge as real);
    ScaleOrder(m, edge as real, q);
  }

  /** Of two reals that add up to at most an integer, rounded halves upwards, the sum exceeds the integer
      exactly if both are half-way and add up to it; and then by one. */
  lemma RoundingsExceedIff(a: real, b: real, edge: int)
    requires a + b <= edge as real
    ensures MyRound(a) + MyRound(b) <= edge + 1
    ensures MyRound(a) + MyRound(b) > edge <==> a + b == edge as real && a - a.Floor as real == 0.5
  {
    RoundsHalfUp(a);
    RoundsHalfUp(b);
  }

  ghost predicate IsRoundedMean(v: int, sum: int, count: int) {
    count >= 1 && v == MyRound(Mean(sum, count))
  }

  /** The same for two means, by the sums of integers that they are taken of. */
  lemma MeansExceedIff(x: int, w: int, a: int, b: int, count: int, edge: int)
    requires IsRoundedMean(x, a, count) && IsRoundedMean(w, b, count) && a + b <= count * edge
    ensures x + w <= edge + 1
    ensures x + w > edge <==> a + b == count * edge && Halfway(a, count)
  {
    MeansAdd(a, b, count);
    MeanAgainst(a + b, count, edge);
    HalfwayIff(a, count);
    RoundingsExceedIff(Mean(a, count), Mean(b, count), edge);
  }

  /** v is the rounded mean of a coordinate over the window of k. */
  ghost predicate IsWindowMean(faces: seq<Face>, c: Coordinate, k: nat, v: int)
    requires k < |faces|
  {
    var lo, hi := WindowFrom(TapsFor(c), k), WindowTo(|faces|, TapsFor(c), k);
    lo < hi && IsRoundedMean(v, CoordinateSum(faces, c, lo, hi), hi - lo)
  }

  /** A smoothed coordinate is the rounded mean over its window. */
  lemma SmoothValueIsMean(faces: seq<Face>, c: Coordinate, k: nat)
    requires k < |faces|
    ensures IsWindowMean(faces, c, k, SmoothValue(faces, c, k))
  {
    SmoothingIsMean(faces, c, k);
  }

  lemma SmoothedIsMean(before: seq<Face>, after: seq<Face>, c: Coordinate, k: nat)
    requires Smoothed(before, after) && k < |before|
    ensures IsWindowMean(before, c, k, Get(after[k].box, c))
  {
    SmoothValueIsMean(before, c, k);
  }

  // ---------- a smoothed face, in numbers ----------

  function Total(v: seq<int>): int {
    if v == [] then 0 else Total(v[..|v| - 1]) + v[|v| - 1]
  }

  /** v is the integer nearest to the mean of the values, halves upwards. */
  ghost predicate NearestToMean(v: int, values: seq<int>) {
    NearestTo(v, Total(values), |values|)
  }

  ghost predicate NearestTo(v: int, sum: int, count: int) {
    count >= 1 && -count < 2 * (v * count - sum) <= count
  }

  /** The values in the window of k, reach positions to either side of it. */
  function Around(v: seq<int>, k: nat, reach: nat): (w: seq<int>)
    requires k < |v|
    ensures w != []
  {
    v[if k < reach then 0 else k - reach..Min(|v|, k + reach + 1)]
  }

  lemma {:induction false} TotalIsSum(faces: seq<Face>, c: Coordinate, v: seq<int>, lo: nat, hi: nat)
    requires |v| == |faces| && lo <= hi <= |v| && forall n :: 0 <= n < |v| ==> v[n] == Get(faces[n].box, c)
    ensures Total(v[lo..hi]) == CoordinateSum(faces, c, lo, hi)
    decreases hi
  {
    if lo < hi {
      TotalIsSum(faces, c, v, lo, hi - 1);
      assert v[lo..hi][..hi - 1 - lo] == v[lo..hi - 1];
    }
  }

  lemma NearestInReals(v: real, m: real, count: real, sum: real)
    requires count > 0.0 && m * count == sum && m - 0.5 < v <= m + 0.5
    ensures -count < 2.0 * (v * count - sum) <= count
  {
    var d := v - m;
    assert d * count == v * count - sum;
    ScaleOrder(count, -0.5, d);
    ScaleOrder(count, d, 0.5);
    assert count * d == d * count && count * 0.5 == 0.5 * count && count * -0.5 == -(0.5 * count);
  }

  lemma NearestInIntegers(v: int, sum: int, count: int)
    requires count >= 1 && -(count as real) < 2.0 * (v as real * count as real - sum as real) <= count as real
    ensures -count < 2 * (v * count - sum) <= count
  {
    ProductAsReal(v, count);
    var d := v * count - sum;
    assert d as real == v as real * count as real - sum as real;
  }

  lemma RoundedMeanIsNearest(v: int, sum: int, count: int)
    requires IsRoundedMean(v, sum, count)
    ensures NearestTo(v, sum, count)
  {
    RoundsHalfUp(Mean(sum, count));
    MeanTimesCount(sum, count);
    NearestInReals(v as real, Mean(sum, count), count as real, sum as real);
    NearestInIntegers(v, sum, count);
  }

  lemma WindowMeanIsNearest(faces: seq<Face>, c: Coordinate, v: seq<int>, k: nat, value: int)
    requires k < |faces| && IsWindowMean(faces, c, k, value)
    requires |v| == |faces| && forall n :: 0 <= n < |v| ==> v[n] == Get(faces[n].box, c)
    ensures NearestToMean(value, Around(v, k, TapsFor(c) / 2))
  {
    var lo, hi := WindowFrom(TapsFor(c), k), WindowTo(|faces|, TapsFor(c), k);
    TotalIsSum(faces, c, v, lo, hi);
    RoundedMeanIsNearest(value, CoordinateSum(faces, c, lo, hi), hi - lo);
    assert Around(v, k, TapsFor(c) / 2) == v[lo..hi];
  }

  lemma SmoothedCoordinateIsNearest(before: seq<Face>, after: seq<Face>, c: Coordinate, v: seq<int>, k: nat)
    requires Smoothed(before, after) && k < |before|
    requires |v| == |before| && forall n :: 0 <= n < |v| ==> v[n] == Get(before[n].box, c)
    ensures NearestToMean(Get(after[k].box, c), Around(v, k, TapsFor(c) / 2))
  {
    SmoothedIsMean(before, after, c, k);
    WindowMeanIsNearest(before, c, v, k, Get(after[k].box, c));
  }

  /** The lists of what the boxes of the faces hold. */
  ghost predicate AreCoordinates(faces: seq<Face>, xs: seq<int>, ys: seq<int>, widths: seq<int>, heights: seq<int>) {
    && |xs| == |ys| == |widths| == |heights| == |faces|
    && forall n :: 0 <= n < |faces| ==> faces[n].box == Box(xs[n], ys[n], widths[n], heights[n])
  }

  lemma ListedIsNearest(before: seq<Face>, after: seq<Face>, k: nat, c: Coordinate, v: seq<int>, value: int, reach: nat)
    requires Smoothed(before, after) && k < |before| == |v|
    requires forall n :: 0 <= n < |v| ==> v[n] == Get(before[n].box, c)
    requires value == Get(after[k].box, c) && reach == TapsFor(c) / 2
    ensures NearestToMean(value, Around(v, k, reach))
  {
    SmoothedCoordinateIsNearest(before, after, c, v, k);
  }

  /** A smoothed face: x, y and width are the rounded means over the faces up to three before and three after it,
      the height is that over the faces next to it; the frame stays. */
  lemma SmoothedFaceIsMean(before: seq<Face>, after: seq<Face>, k: nat,
                           xs: seq<int>, ys: seq<int>, widths: seq<int>, heights: seq<int>)
    requires Smoothed(before, after) && k < |before| && AreCoordinates(before, xs, ys, widths, heights)
    ensures NearestToMean(after[k].box.x, Around(xs, k, 3)) && NearestToMean(after[k].box.y, Around(ys, k, 3))
    ensures NearestToMean(after[k].box.width, Around(widths, k, 3))
    ensures NearestToMean(after[k].box.height, Around(heights, k, 1))
    ensures after[k].frameId == before[k].frameId
  {
    ListedIsNearest(before, after, k, X, xs, after[k].box.x, 3);
    ListedIsNearest(before, after, k, Y, ys, after[k].box.y, 3);
    ListedIsNearest(before, after, k, Width, widths, after[k].box.width, 3);
    ListedIsNearest(before, after, k, Height, heights, after[k].box.height, 1);
  }

  // ---------- where the right edge grows ----------

  /** Every face of the window of k reaches the edge, and the x in the window add up to an odd multiple of half
      their number. */
  ghost predicate GrowsAt(faces: seq<Face>, k: nat, edge: int)
    requires k < |faces|
  {
    var lo, hi := WindowFrom(7, k), WindowTo(|faces|, 7, k);
    lo < hi && AllReach(faces, lo, hi, edge) && Halfway(CoordinateSum(faces, X, lo, hi), hi - lo)
  }

  lemma WindowMeansGrowIff(faces: seq<Face>, k: nat, edge: int, x: int, w: int)
    requires k < |faces| && NoneBeyond(faces, edge)
    requires IsWindowMean(faces, X, k, x) && IsWindowMean(faces, Width, k, w)
    ensures x + w <= edge + 1
    ensures x + w > edge <==> GrowsAt(faces, k, edge)
  {
    var lo, hi := WindowFrom(7, k), WindowTo(|faces|, 7, k);
    EdgesAddUp(faces, lo, hi, edge);
    MeansExceedIff(x, w, CoordinateSum(faces, X, lo, hi), CoordinateSum(faces, Width, lo, hi), hi - lo, edge);
  }

  /** The smoothed right edge exceeds the greatest original right edge by at most one; and exactly where the
      window says so. */
  lemma RightEdgeGrowsIff(before: seq<Face>, after: seq<Face>, k: nat, edge: int)
    requires Smoothed(before, after) && k < |before| && NoneBeyond(before, edge)
    ensures Right(after[k]) <= edge + 1
    ensures Right(after[k]) > edge <==> GrowsAt(before, k, edge)
  {
    SmoothedIsMean(before, after, X, k);
    SmoothedIsMean(before, after, Width, k);
    WindowMeansGrowIff(before, k, edge, after[k].box.x, after[k].box.width);
  }

  /** With an odd number of faces in the window the edge is kept; so it can grow only at the first three and
      the last three positions, where the window is cut off. */
  lemma RightEdgeIsKeptInside(before: seq<Face>, after: seq<Face>, k: nat, edge: int)
    requires Smoothed(before, after) && k < |before| && NoneBeyond(before, edge)
    ensures (WindowTo(|before|, 7, k) - WindowFrom(7, k)) % 2 == 1 ==> Right(after[k]) <= edge
    ensures 3 <= k < |before| - 3 ==> Right(after[k]) <= edge
  {
    RightEdgeGrowsIff(before, after, k, edge);
    OddWindowKeeps(before, k, edge);
  }

  lemma OddWindowKeeps(faces: seq<Face>, k: nat, edge: int)
    requires k < |faces|
    ensures GrowsAt(faces, k, edge) ==> (WindowTo(|faces|, 7, k) - WindowFrom(7, k)) % 2 == 0
  {
    var lo, hi := WindowFrom(7, k), WindowTo(|faces|, 7, k);
    if GrowsAt(faces, k, edge) { HalfwayIsEven(CoordinateSum(faces, X, lo, hi), hi - lo); }
  }

  /** The smoothed series keeps within the edge exactly if there is no such position. */
  lemma SeriesKeepsEdgeIff(before: seq<Face>, after: seq<Face>, edge: int)
    requires Smoothed(before, after) && NoneBeyond(before, edge)
    ensures NoneBeyond(after, edge) <==> forall k: nat :: k < |before| ==> !GrowsAt(before, k, edge)
  {
    forall k: nat | k < |before| ensures Right(after[k]) <= edge <==> !GrowsAt(before, k, edge) {
      RightEdgeGrowsIff(before, after, k, edge);
    }
  }

  lemma TwoFacesGrow(before: seq<Face>)
    requires |before| == 2 && before[0].box == Box(0, 0, 3, 1) && before[1].box == Box(1, 0, 2, 1)
    ensures NoneBeyond(before, 3) && GrowsAt(before, 0, 3)
  {
    assert CoordinateSum(before, X, 0, 1) == CoordinateSum(before, X, 0, 0) + before[0].box.x == 0;
    assert CoordinateSum(before, X, 0, 2) == CoordinateSum(before, X, 0, 1) + before[1].box.x == 1;
  }

  /** A case in which it grows: two faces that both reach 3. */
  lemma RightEdgeCanGrowByOne(before: seq<Face>, after: seq<Face>)
    requires before == [Face(Box(0, 0, 3, 1), 1), Face(Box(1, 0, 2, 1), 2)] && Smoothed(before, after)
    ensures NoneBeyond(before, 3) && Right(after[0]) == 4
  {
    TwoFacesGrow(before);
    RightEdgeGrowsIff(before, after, 0, 3);
  }
}
