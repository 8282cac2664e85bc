/** The post-processing of the faces of a track: filling its gaps and smoothing its coordinates. */
module FaceSeries {
  import opened Tracks
  import opened Rounding
  import opened Convolution

  // ---------- gap filling ----------

  /** The change of a coordinate per frame. */
  function StepOf(from: int, to: int, diff: int): real
    requires diff != 0
  {
    (to as real - from as real) / diff as real
  }

  /** A coordinate i steps on. */
  function InterpolateBy(from: int, step: real, i: int): int {
    from + MyRound(i as real * step)
  }

  /** A coordinate i frames after the first of two faces that lie diff frames apart. */
  function Interpolate(from: int, to: int, diff: int, i: int): int
    requires diff != 0
  {
    InterpolateBy(from, StepOf(from, to, diff), i)
  }

  function Between(a: Face, b: Face, i: int): Face
    requires b.frameId != a.frameId
  {
    var diff := b.frameId - a.frameId;
    Face(Box(Interpolate(a.box.x, b.box.x, diff, i), Interpolate(a.box.y, b.box.y, diff, i),
             Interpolate(a.box.width, b.box.width, diff, i), Interpolate(a.box.height, b.box.height, diff, i)),
         a.frameId + i)
  }

  /** The faces inserted between two neighbours. */
  function Missing(a: Face, b: Face): (r: seq<Face>)
    ensures |r| == if b.frameId - a.frameId > 1 then b.frameId - a.frameId - 1 else 0
    ensures forall i :: 0 <= i < |r| ==> r[i] == Between(a, b, i + 1)
  {
    if b.frameId - a.frameId > 1
    then seq(b.frameId - a.frameId - 1, i requires 0 <= i => Between(a, b, i + 1))
    else []
  }

  /** The first n faces with what fill puts between each two neighbours. */
  function Weave(faces: seq<Face>, n: nat, fill: (Face, Face) -> seq<Face>): (r: seq<Face>)
    requires 1 <= n <= |faces|
    ensures r != [] && r[|r| - 1] == faces[n - 1]
  {
    if n == 1 then [faces[0]]
    else Weave(faces, n - 1, fill) + fill(faces[n - 2], faces[n - 1]) + [faces[n - 1]]
  }

  function Filled(faces: seq<Face>): seq<Face> {
    if faces == [] then [] else Weave(faces, |faces|, Missing)
  }

  predicate SeemsContiguous(faces: seq<Face>)
    requires faces != []
  {
    faces[|faces| - 1].frameId - faces[0].frameId + 1 == |faces|
  }

  // ---------- what gap filling achieves ----------

  /** The frame ids count on from first, without a gap. */
  ghost predicate Consecutive(r: seq<Face>, first: int) {
    forall k :: 0 <= k < |r| ==> r[k].frameId == first + k
  }

  lemma ConsecutiveParts(r: seq<Face>, m: seq<Face>, last: Face, first: int)
    requires Consecutive(r, first) && Consecutive(m, first + |r|) && last.frameId == first + |r| + |m|
    ensures Consecutive(r + m + [last], first)
  {
  }

  lemma MissingIds(a: Face, b: Face)
    requires a.frameId < b.frameId
    ensures |Missing(a, b)| == b.frameId - a.frameId - 1 && Consecutive(Missing(a, b), a.frameId + 1)
  {
  }

  lemma {:induction false} FillingIds(faces: seq<Face>, n: nat)
    requires InOrder(faces) && 1 <= n <= |faces|
    ensures var r, first := Weave(faces, n, Missing), faces[0].frameId;
      |r| == faces[n - 1].frameId - first + 1 && Consecutive(r, first)
  {
    if n > 1 {
      FillingIds(faces, n - 1);
      MissingIds(faces[n - 2], faces[n - 1]);
      var m := Missing(faces[n - 2], faces[n - 1]);
      ConsecutiveParts(Weave(faces, n - 1, Missing), m, faces[n - 1], faces[0].frameId);
    }
  }

  ghost predicate Extends(whole: seq<Face>, r: seq<Face>) {
    |r| <= |whole| && forall k :: 0 <= k < |r| ==> whole[k] == r[k]
  }

  lemma ExtendsMore(whole: seq<Face>, r: seq<Face>, m: seq<Face>, x: Face)
    requires Extends(whole, r)
    ensures Extends(whole + m + [x], r)
  {
  }

  lemma {:induction false} WeaveOfPrefix(faces: seq<Face>, n: nat, m: nat, fill: (Face, Face) -> seq<Face>)
    requires 1 <= n <= m <= |faces|
    ensures Extends(Weave(faces, m, fill), Weave(faces, n, fill))
    decreases m
  {
    if n < m {
      WeaveOfPrefix(faces, n, m - 1, fill);
      ExtendsMore(Weave(faces, m - 1, fill), Weave(faces, n, fill), fill(faces[m - 2], faces[m - 1]), faces[m - 1]);
    }
  }

  lemma WeaveKeeps(faces: seq<Face>, n: nat, fill: (Face, Face) -> seq<Face>)
    requires 1 <= n <= |faces|
    ensures var r, whole := Weave(faces, n, fill), Weave(faces, |faces|, fill);
      |r| <= |whole| && whole[|r| - 1] == faces[n - 1]
  {
    WeaveOfPrefix(faces, n, |faces|, fill);
  }

  lemma FillingKeeps(faces: seq<Face>, j: nat)
    requires InOrder(faces) && j < |faces|
    ensures var r, d := Filled(faces), faces[j].frameId - faces[0].frameId; 0 <= d < |r| && r[d] == faces[j]
  {
    FillingIds(faces, j + 1);
    WeaveKeeps(faces, j + 1, Missing);
  }

  /** Every frame from the first face to the last is there exactly once, and every original face is
      in its place, unchanged. */
  lemma FillingIsComplete(faces: seq<Face>)
    requires faces != [] && InOrder(faces)
    ensures var r, first := Filled(faces), faces[0].frameId;
      && |r| == faces[|faces| - 1].frameId - first + 1 && Consecutive(r, first)
      && (forall j :: 0 <= j < |faces| ==>
            0 <= faces[j].frameId - first < |r| && r[faces[j].frameId - first] == faces[j])
  {
    FillingIds(faces, |faces|);
    forall j | 0 <= j < |faces|
      ensures 0 <= faces[j].frameId - faces[0].frameId < |Filled(faces)|
      ensures Filled(faces)[faces[j].frameId - faces[0].frameId] == faces[j]
    {
      FillingKeeps(faces, j);
    }
  }

  lemma {:induction false} AtLeast(faces: seq<Face>, i: nat, j: nat)
    requires i <= j < |faces| && InOrder(faces)
    ensures faces[j].frameId - faces[i].frameId >= j - i
    decreases j - i
  {
    if i < j { AtLeast(faces, i, j - 1); }
  }

  /** The list is left alone exactly when nothing is missing. */
  lemma ContiguousIffUnchanged(faces: seq<Face>)
    requires faces != [] && InOrder(faces)
    ensures SeemsContiguous(faces) <==> Filled(faces) == faces
    ensures SeemsContiguous(faces) <==> Consecutive(faces, faces[0].frameId)
  {
    FillingIsComplete(faces);
    if SeemsContiguous(faces) {
      NothingIsMissing(faces);
      InPlaceIsSame(faces, Filled(faces));
    }
  }

  lemma InPlaceIsSame(faces: seq<Face>, r: seq<Face>)
    requires faces != [] && |r| == |faces| && Consecutive(faces, faces[0].frameId)
    requires forall j :: 0 <= j < |faces| ==>
      0 <= faces[j].frameId - faces[0].frameId < |r| && r[faces[j].frameId - faces[0].frameId] == faces[j]
    ensures r == faces
  {
    forall k | 0 <= k < |faces| ensures r[k] == faces[k] {
      assert faces[k].frameId - faces[0].frameId == k;
    }
  }

  lemma NothingIsMissing(faces: seq<Face>)
    requires faces != [] && InOrder(faces) && SeemsContiguous(faces)
    ensures Consecutive(faces, faces[0].frameId)
  {
    forall k | 0 <= k < |faces| ensures faces[k].frameId == faces[0].frameId + k {
      AtLeast(faces, 0, k);
      AtLeast(faces, k, |faces| - 1);
    }
  }

  /** Filling a filled list changes nothing. */
  lemma FillingIsIdempotent(faces: seq<Face>)
    requires faces != [] && InOrder(faces)
    ensures SeemsContiguous(Filled(faces)) && Filled(Filled(faces)) == Filled(faces)
  {
    FillingIsComplete(faces);
    ContiguousIffUnchanged(Filled(faces));
  }

  /** The exact value on the line between two coordinates. */
  function Line(from: int, to: int, diff: int, i: int): real
    requires diff > 0
  {
    from as real + i as real * StepOf(from, to, diff)
  }

  lemma LineEnds(from: int, to: int, diff: int)
    requires diff > 0
    ensures Line(from, to, diff, 0) == from as real && Line(from, to, diff, diff) == to as real
  {
    var step := StepOf(from, to, diff);
    assert diff as real * step == to as real - from as real;
  }

  lemma LineIsMonotone(from: int, to: int, diff: int, i: int, j: int)
    requires diff > 0 && i <= j
    ensures from <= to ==> Line(from, to, diff, i) <= Line(from, to, diff, j)
    ensures from >= to ==> Line(from, to, diff, i) >= Line(from, to, diff, j)
  {
    var step := StepOf(from, to, diff);
    assert j as real * step - i as real * step == (j - i) as real * step;
    assert step * diff as real == to as real - from as real;
    SignOfProduct(step, diff as real);
    SignOfProduct((j - i) as real, step);
  }

  lemma SignOfProduct(a: real, b: real)
    ensures a >= 0.0 && b >= 0.0 ==> a * b >= 0.0
    ensures a >= 0.0 && b <= 0.0 ==> a * b <= 0.0
    ensures a > 0.0 && b > 0.0 ==> a * b > 0.0
    ensures a < 0.0 && b > 0.0 ==> a * b < 0.0
  {
  }

  lemma InterpolateRounds(from: int, to: int, diff: int, i: int)
    requires diff > 0
    ensures Interpolate(from, to, diff, i) == MyRound(Line(from, to, diff, i))
  {
    RoundShift(from, i as real * StepOf(from, to, diff));
  }

  /** Every inserted coordinate is within one half of the exact line, and the coordinates run
      monotonically from the one face to the other, so each lies between its two neighbours. */
  lemma InsertedCoordinates(from: int, to: int, diff: int, i: int)
    requires 0 <= i < diff
    ensures Line(from, to, diff, i) - 0.5 < Interpolate(from, to, diff, i) as real <= Line(from, to, diff, i) + 0.5
    ensures Interpolate(from, to, diff, 0) == from && Interpolate(from, to, diff, diff) == to
    ensures from <= to ==> from <= Interpolate(from, to, diff, i) <= Interpolate(from, to, diff, i + 1) <= to
    ensures from >= to ==> from >= Interpolate(from, to, diff, i) >= Interpolate(from, to, diff, i + 1) >= to
  {
    InterpolateRounds(from, to, diff, 0);
    InterpolateRounds(from, to, diff, i);
    InterpolateRounds(from, to, diff, i + 1);
    InterpolateRounds(from, to, diff, diff);
    LineEnds(from, to, diff);
    RoundOfInteger(from);
    RoundOfInteger(to);
    RoundsHalfUp(Line(from, to, diff, i));
    LineIsMonotone(from, to, diff, 0, i);
    LineIsMonotone(from, to, diff, i, i + 1);
    LineIsMonotone(from, to, diff, i + 1, diff);
    if from <= to {
      RoundIsMonotone(Line(from, to, diff, 0), Line(from, to, diff, i));
      RoundIsMonotone(Line(from, to, diff, i), Line(from, to, diff, i + 1));
      RoundIsMonotone(Line(from, to, diff, i + 1), Line(from, to, diff, diff));
    } else {
      RoundIsMonotone(Line(from, to, diff, i), Line(from, to, diff, 0));
      RoundIsMonotone(Line(from, to, diff, i + 1), Line(from, to, diff, i));
      RoundIsMonotone(Line(from, to, diff, diff), Line(from, to, diff, i + 1));
    }
  }

  lemma WeaveInserts(faces: seq<Face>, n: nat, i: nat, fill: (Face, Face) -> seq<Face>)
    requires 1 <= n < |faces| && i < |fill(faces[n - 1], faces[n])|
    ensures var r, whole := Weave(faces, n, fill), Weave(faces, |faces|, fill);
      |r| + i < |whole| && whole[|r| + i] == fill(faces[n - 1], faces[n])[i]
  {
    var r, m := Weave(faces, n, fill), fill(faces[n - 1], faces[n]);
    WeaveOfPrefix(faces, n + 1, |faces|, fill);
    assert (r + m + [faces[n]])[|r| + i] == m[i];
  }

  /** v is the value i frames on from a value from to a value to, diff frames later: within one half of the line
      between them, halves upwards, and between the two. */
  ghost predicate OnLine(v: int, from: int, to: int, diff: int, i: int) {
    && diff > 0 && Line(from, to, diff, i) - 0.5 < v as real <= Line(from, to, diff, i) + 0.5
    && (from <= to ==> from <= v <= to) && (from >= to ==> from >= v >= to)
  }

  /** The line through the two values, without the division. */
  lemma LineIsExact(from: int, to: int, diff: int, i: int)
    requires diff > 0
    ensures (Line(from, to, diff, i) - from as real) * diff as real == (i * (to - from)) as real
  {
    var step := StepOf(from, to, diff);
    assert step * diff as real == (to - from) as real;
    assert (i as real * step) * diff as real == i as real * (step * diff as real);
    assert i as real * (to - from) as real == (i * (to - from)) as real;
  }

  /** f stands i frames after a on the way to b, in every coordinate. */
  ghost predicate StandsBetween(f: Face, a: Face, b: Face, i: int) {
    var diff := b.frameId - a.frameId;
    && f.frameId == a.frameId + i
    && OnLine(f.box.x, a.box.x, b.box.x, diff, i) && OnLine(f.box.y, a.box.y, b.box.y, diff, i)
    && OnLine(f.box.width, a.box.width, b.box.width, diff, i)
    && OnLine(f.box.height, a.box.height, b.box.height, diff, i)
  }

  lemma InterpolatedIsOnLine(from: int, to: int, diff: int, i: int)
    requires 0 <= i < diff
    ensures OnLine(Interpolate(from, to, diff, i), from, to, diff, i)
  {
    InsertedCoordinates(from, to, diff, i);
  }

  lemma BetweenStandsBetween(a: Face, b: Face, i: int)
    requires 0 <= i < b.frameId - a.frameId
    ensures StandsBetween(Between(a, b, i), a, b, i)
  {
    var diff := b.frameId - a.frameId;
    InterpolatedIsOnLine(a.box.x, b.box.x, diff, i);
    InterpolatedIsOnLine(a.box.y, b.box.y, diff, i);
    InterpolatedIsOnLine(a.box.width, b.box.width, diff, i);
    InterpolatedIsOnLine(a.box.height, b.box.height, diff, i);
  }

  lemma PlaceOfInserted(faces: seq<Face>, j: nat, i: nat)
    requires InOrder(faces) && j + 1 < |faces| && 0 < i < faces[j + 1].frameId - faces[j].frameId
    ensures var d := faces[j].frameId - faces[0].frameId + i;
            0 <= d < |Filled(faces)| && Filled(faces)[d] == Between(faces[j], faces[j + 1], i)
  {
    MissingIds(faces[j], faces[j + 1]);
    FillingIds(faces, j + 1);
    WeaveInserts(faces, j + 1, i - 1, Missing);
  }

  /** The face inserted i frames after face j of the list stands, in each coordinate, on the line from that face
      to the next. */
  lemma InsertedFace(faces: seq<Face>, j: nat, i: nat)
    requires InOrder(faces) && j + 1 < |faces| && 0 < i < faces[j + 1].frameId - faces[j].frameId
    ensures var d := faces[j].frameId - faces[0].frameId + i;
            0 <= d < |Filled(faces)| && StandsBetween(Filled(faces)[d], faces[j], faces[j + 1], i)
  {
    PlaceOfInserted(faces, j, i);
    BetweenStandsBetween(faces[j], faces[j + 1], i);
  }

  /** Between two neighbours a and b of the old list, r has a face for every frame. */
  ghost predicate GapFilled(r: seq<Face>, first: int, a: Face, b: Face) {
    forall d :: a.frameId < first + d < b.frameId ==> StandsAt(r, first, d, a, b)
  }

  ghost predicate StandsAt(r: seq<Face>, first: int, d: int, a: Face, b: Face) {
    0 <= d < |r| && StandsBetween(r[d], a, b, first + d - a.frameId)
  }

  /** r is was with its gaps filled: one face for every frame, the old ones in their places, and the new ones, in
      every coordinate, on the line between the neighbours. */
  ghost predicate GapsFilled(was: seq<Face>, r: seq<Face>)
    requires was != []
  {
    var first := was[0].frameId;
    && |r| == was[|was| - 1].frameId - first + 1
    && (forall j :: 0 <= j < |was| ==> 0 <= was[j].frameId - first < |r| && r[was[j].frameId - first] == was[j])
    && (forall j, k :: 0 <= j && k == j + 1 < |was| ==> GapFilled(r, first, was[j], was[k]))
  }

  lemma InsertedAt(faces: seq<Face>, j: nat, d: int)
    requires InOrder(faces) && j + 1 < |faces|
    requires faces[j].frameId < faces[0].frameId + d < faces[j + 1].frameId
    ensures StandsAt(Filled(faces), faces[0].frameId, d, faces[j], faces[j + 1])
  {
    var i := faces[0].frameId + d - faces[j].frameId;
    InsertedFace(faces, j, i);
    assert faces[j].frameId - faces[0].frameId + i == d;
  }

  lemma FillingFillsGap(faces: seq<Face>, j: nat)
    requires InOrder(faces) && j + 1 < |faces|
    ensures GapFilled(Filled(faces), faces[0].frameId, faces[j], faces[j + 1])
  {
    var first, r, a, b := faces[0].frameId, Filled(faces), faces[j], faces[j + 1];
    forall d | a.frameId < first + d < b.frameId ensures StandsAt(r, first, d, a, b) {
      InsertedAt(faces, j, d);
    }
  }

  lemma FillingFillsGaps(faces: seq<Face>)
    requires faces != [] && InOrder(faces)
    ensures GapsFilled(faces, Filled(faces))
  {
    FillingIsComplete(faces);
    forall j, k | 0 <= j && k == j + 1 < |faces|
      ensures GapFilled(Filled(faces), faces[0].frameId, faces[j], faces[k])
    {
      FillingFillsGap(faces, j);
    }
  }

  /** The same for a list of any kind: what is promised is promised of faces in order. */
  ghost predicate FillsGaps(was: seq<Face>, r: seq<Face>)
    requires was != []
  {
    InOrder(was) ==> GapsFilled(was, r)
  }

  lemma FillsGapsInOrder(faces: seq<Face>)
    requires faces != []
    ensures FillsGaps(faces, if SeemsContiguous(faces) then faces else Filled(faces))
  {
    if InOrder(faces) {
      FillingFillsGaps(faces);
      ContiguousIffUnchanged(faces);
    }
  }

  // ---------- smoothing ----------

  datatype Coordinate = X | Y | Width | Height

  function Get(b: Box, c: Coordinate): int {
    match c case X => b.x case Y => b.y case Width => b.width case Height => b.height
  }

  function Put(b: Box, c: Coordinate, v: int): Box {
    match c
    case X => b.(x := v)
    case Y => b.(y := v)
    case Width => b.(width := v)
    case Height => b.(height := v)
  }

  /** The filter of the compiled program has seven equal taps; the height uses three of them. */
  function TapsFor(c: Coordinate): nat {
    if c == Height then 3 else 7
  }

  function Filter(c: Coordinate): (y: seq<real>)
    ensures Positive(y)
  {
    Constant(1.0, TapsFor(c))
  }

  function Values(faces: seq<Face>, c: Coordinate): (v: seq<real>)
    ensures |v| == |faces| && forall k :: 0 <= k < |v| ==> v[k] == Get(faces[k].box, c) as real
  {
    seq(|faces|, k requires 0 <= k < |faces| => Get(faces[k].box, c) as real)
  }

  function SmoothValue(faces: seq<Face>, c: Coordinate, k: nat): int
    requires k < |faces|
  {
    MyRound(Same(Values(faces, c), Filter(c), k))
  }

  /** One coordinate of every face is replaced by its smoothed value. */
  ghost predicate SmoothedIn(before: seq<Face>, after: seq<Face>, c: Coordinate) {
    && |after| == |before|
    && forall k :: 0 <= k < |before| ==>
         after[k] == before[k].(box := Put(before[k].box, c, SmoothValue(before, c, k)))
  }

  /** Every coordinate of every face is smoothed; frame ids stay. */
  ghost predicate Smoothed(before: seq<Face>, after: seq<Face>) {
    && |after| == |before|
    && forall k :: 0 <= k < |before| ==>
         after[k] == Face(Box(SmoothValue(before, X, k), SmoothValue(before, Y, k),
                              SmoothValue(before, Width, k), SmoothValue(before, Height, k)), before[k].frameId)
  }

  /** A smoothed coordinate stays between the least and the greatest of its window, hence of the
      series. */
  lemma SmoothValueStaysInWindow(faces: seq<Face>, c: Coordinate, k: nat, lo: int, hi: int)
    requires k < |faces|
    requires forall n :: InWindow(|faces|, TapsFor(c), k, n) ==> lo <= Get(faces[n].box, c) <= hi
    ensures lo <= SmoothValue(faces, c, k) <= hi
  {
    SameStaysInWindow(Values(faces, c), Filter(c), k, lo as real, hi as real);
    RoundStaysBetween(Same(Values(faces, c), Filter(c), k), lo, hi);
  }

  lemma MissingStandBetween(a: Face, b: Face)
    ensures forall i :: 0 <= i < |Missing(a, b)| ==> StandsBetween(Missing(a, b)[i], a, b, i + 1)
  {
    forall i | 0 <= i < |Missing(a, b)| ensures StandsBetween(Missing(a, b)[i], a, b, i + 1) {
      BetweenStandsBetween(a, b, i + 1);
    }
  }

  lemma InsertAfter(pre: seq<Face>, mid: seq<Face>, post: seq<Face>, f: Face)
    ensures var s, k := pre + mid + post, |pre| + |mid|;
            s[..k] + [f] + s[k..] == pre + (mid + [f]) + post
  {
    var s, k := pre + mid + post, |pre| + |mid|;
    assert s[..k] == pre + mid && s[k..] == post;
  }

  lemma SplitRest(was: seq<Face>, done: nat)
    requires done < |was|
    ensures was[done..] == [was[done]] + was[done + 1..]
  {
  }

  lemma Reassociate(head: seq<Face>, m: seq<Face>, x: Face, tail: seq<Face>)
    ensures var s := head + ([x] + tail); s[..|head|] + m + s[|head|..] == (head + m + [x]) + tail
  {
    var s := head + ([x] + tail);
    assert s[..|head|] == head && s[|head|..] == [x] + tail;
    assert head + m + ([x] + tail) == (head + m + [x]) + tail;
  }

  // ---------- the programs ----------

  /** The list of faces of a track, rewritten in place. */
  class Series {
    var faces: seq<Face>

    constructor (faces: seq<Face>)
      ensures this.faces == faces
    {
      this.faces := faces;
    }

    /** Inserts a face behind what was inserted already; the result is the position behind it. */
    method InsertAt(itr: nat, f: Face, ghost pre: seq<Face>, ghost m: seq<Face>, ghost post: seq<Face>)
      returns (itr': nat)
      requires faces == pre + m + post && itr == |pre| + |m|
      modifies this
      ensures faces == pre + (m + [f]) + post && itr' == itr + 1
    {
      InsertAfter(pre, m, post, f);
      faces := faces[..itr] + [f] + faces[itr..];
      itr' := itr + 1;
    }

    /** Inserts the faces missing between positions prev and itr; the result is the new position of
        the face that was at itr. */
    method InsertMissing(prev: nat, itr: nat) returns (itr': nat)
      requires prev + 1 == itr < |faces|
      modifies this
      ensures var m := Missing(old(faces)[prev], old(faces)[itr]);
        && itr' == itr + |m|
        && faces == old(faces)[..itr] + m + old(faces)[itr..]
      ensures forall k :: itr <= k < itr' ==>
        StandsBetween(faces[k], old(faces)[prev], old(faces)[itr], k - prev)
    {
      var a, b := faces[prev], faces[itr];
      var diff := b.frameId - a.frameId;
      itr' := itr;
      ghost var pre, m, post := faces[..itr], Missing(a, b), faces[itr..];
      if diff > 1 {
        var xStep, yStep := StepOf(a.box.x, b.box.x, diff), StepOf(a.box.y, b.box.y, diff);
        var widthStep := StepOf(a.box.width, b.box.width, diff);
        var heightStep := StepOf(a.box.height, b.box.height, diff);
        assert faces == pre + m[..0] + post;
        for i := 1 to diff
          invariant itr' == itr + i - 1
          invariant faces == pre + m[..i - 1] + post
        {
          var f := Face(Box(InterpolateBy(a.box.x, xStep, i), InterpolateBy(a.box.y, yStep, i),
                            InterpolateBy(a.box.width, widthStep, i), InterpolateBy(a.box.height, heightStep, i)),
                        a.frameId + i);
          assert m[..i] == m[..i - 1] + [m[i - 1]];
          itr' := InsertAt(itr', f, pre, m[..i - 1], post);
        }
        assert m[..diff - 1] == m;
        MissingStandBetween(a, b);
      } else {
        assert faces == pre + m + post;
      }
    }

    /** The body of the loop: the faces missing before x are inserted; the result is the new position of x. */
    method FillUpTo(prev: nat, itr: nat, ghost filled: seq<Face>, ghost x: Face, ghost tail: seq<Face>)
      returns (itr': nat)
      requires prev + 1 == itr == |filled| && faces == filled + ([x] + tail)
      modifies this
      ensures var m := Missing(filled[prev], x);
        itr' == itr + |m| && faces == (filled + m + [x]) + tail
    {
      assert faces[prev] == filled[prev] && faces[itr] == x;
      Reassociate(filled, Missing(filled[prev], x), x, tail);
      itr' := InsertMissing(prev, itr);
    }

    /** The first done faces of what the list was are filled up, and end before position itr. */
    ghost predicate FilledUp(was: seq<Face>, done: nat, itr: nat)
      requires 1 <= done <= |was|
      reads this
    {
      itr == |Weave(was, done, Missing)| && faces == Weave(was, done, Missing) + was[done..]
    }

    /** The body of the loop, for the face that comes next. */
    method FillNext(prev: nat, itr: nat, ghost was: seq<Face>, ghost done: nat) returns (itr': nat)
      requires 1 <= done < |was| && FilledUp(was, done, itr) && prev + 1 == itr
      modifies this
      ensures FilledUp(was, done + 1, itr' + 1)
    {
      SplitRest(was, done);
      itr' := FillUpTo(prev, itr, Weave(was, done, Missing), was[done], was[done + 1..]);
    }

    /** The loop of addMissingFrames. */
    method FillAll()
      requires faces != []
      modifies this
      ensures faces == Filled(old(faces))
    {
      ghost var was, done := faces, 1;
      var prev, itr := 0, 1;
      assert [was[0]] + was[1..] == was;
      while itr < |faces|
        invariant 1 <= done <= |was| && 1 <= itr == prev + 1 && FilledUp(was, done, itr)
        decreases |was| - done
      {
        prev := FillNext(prev, itr, was, done);
        itr, done := prev + 1, done + 1;
      }
    }

    /** addMissingFrames: true if the list was changed. */
    method AddMissingFrames() returns (modified: bool)
      requires faces != []
      modifies this
      ensures modified <==> !SeemsContiguous(old(faces))
      ensures faces == if modified then Filled(old(faces)) else old(faces)
      ensures FillsGaps(old(faces), faces)
    {
      FillsGapsInOrder(faces);
      if faces[|faces| - 1].frameId - faces[0].frameId + 1 == |faces| { return false; }
      FillAll();
      modified := true;
    }

    /** One of the four blocks of smoothFaceSeries. */
    method SmoothCoordinate(c: Coordinate, input: array<real>, output: array<real>, filter: array<real>)
      requires input.Length == output.Length == |faces| && filter[..] == Filter(c)
      requires output != input && output != filter && input != filter
      modifies this, input, output
      ensures SmoothedIn(old(faces), faces, c)
    {
      ghost var was := faces;
      for i := 0 to |faces|
        invariant faces == was
        invariant forall k :: 0 <= k < i ==> input[k] == Get(was[k].box, c) as real
        invariant filter[..] == Filter(c)
      {
        input[i] := Get(faces[i].box, c) as real;
      }
      assert input[..] == Values(was, c);
      LinearConvolutionSame(input, filter, output);
      for i := 0 to |faces|
        invariant |faces| == |was|
        invariant forall k :: 0 <= k < |was| ==> output[k] == Same(Values(was, c), Filter(c), k)
        invariant forall k :: 0 <= k < i ==> faces[k] == was[k].(box := Put(was[k].box, c, SmoothValue(was, c, k)))
        invariant forall k :: i <= k < |was| ==> faces[k] == was[k]
      {
        faces := faces[i := faces[i].(box := Put(faces[i].box, c, MyRound(output[i])))];
      }
    }

    /** smoothFaceSeries. */
    method SmoothFaceSeries()
      modifies this
      ensures Smoothed(old(faces), faces)
    {
      ghost var f0 := faces;
      var input, output := new real[|faces|], new real[|faces|];
      var sizeFilter, locationLength := new real[7](_ => 1.0), new real[3](_ => 1.0);
      assert sizeFilter[..] == Filter(X) && locationLength[..] == Filter(Height);
      SmoothCoordinate(X, input, output, sizeFilter);
      ghost var f1 := faces;
      SmoothCoordinate(Y, input, output, sizeFilter);
      ghost var f2 := faces;
      SmoothCoordinate(Width, input, output, sizeFilter);
      ghost var f3 := faces;
      SmoothCoordinate(Height, input, output, locationLength);
      BlocksCompose(f0, f1, f2, f3, faces);
    }
  }

  lemma SameValues(a: seq<Face>, b: seq<Face>, c: Coordinate)
    requires |a| == |b| && forall k :: 0 <= k < |a| ==> Get(a[k].box, c) == Get(b[k].box, c)
    ensures Values(a, c) == Values(b, c)
  {
  }

  /** The four blocks do not disturb each other. */
  lemma BlocksCompose(f0: seq<Face>, f1: seq<Face>, f2: seq<Face>, f3: seq<Face>, f4: seq<Face>)
    requires SmoothedIn(f0, f1, X) && SmoothedIn(f1, f2, Y) && SmoothedIn(f2, f3, Width) && SmoothedIn(f3, f4, Height)
    ensures Smoothed(f0, f4)
  {
    SameValues(f0, f1, Y);
    SameValues(f0, f2, Width);
    SameValues(f0, f3, Height);
  }
}
