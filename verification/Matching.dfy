/** How the detections of one frame are matched to the live tracks.

    Detections are taken in turn.  Each one chooses a track whose last face is near enough, and
    competes there with the detections that chose the same track before it. */
module Matching {
  import opened Basics
  import opened Tracks

  /** The two configured distances, and the square root of the vision library. */
  datatype Rules = Rules(distThresh: real, veryClose: real, sqrt: real -> real)

  // ---------- geometry ----------

  /** Integer division by two that truncates towards zero. */
  function Half(n: int): int {
    if n >= 0 then n / 2 else -(-n / 2)
  }

  function Distance(r: Rules, a: Box, b: Box): real {
    var dx := (b.x + Half(b.width)) - (a.x + Half(a.width));
    var dy := (b.y + Half(b.height)) - (a.y + Half(a.height));
    r.sqrt((dx * dx + dy * dy) as real)
  }

  datatype Point = Point(x: int, y: int)

  /** Half of a size n, rounded towards zero. */
  ghost predicate IsHalf(n: int, h: int) {
    if n >= 0 then 0 <= n - 2 * h <= 1 else 0 <= 2 * h - n <= 1
  }

  ghost predicate IsCentre(b: Box, c: Point) {
    IsHalf(b.width, c.x - b.x) && IsHalf(b.height, c.y - b.y)
  }

  ghost predicate LieApart(r: Rules, c: Point, e: Point, d: real) {
    d == r.sqrt(((e.x - c.x) * (e.x - c.x) + (e.y - c.y) * (e.y - c.y)) as real)
  }

  /** d is the distance between the centres of the boxes. */
  ghost predicate CentresApart(r: Rules, a: Box, b: Box, d: real) {
    exists c: Point, e: Point :: IsCentre(a, c) && IsCentre(b, e) && LieApart(r, c, e, d)
  }

  lemma HalfIs(n: int, h: int)
    ensures IsHalf(n, h) <==> h == Half(n)
  {
  }

  lemma CentreIs(b: Box, c: Point)
    ensures IsCentre(b, c) <==> c == Point(b.x + Half(b.width), b.y + Half(b.height))
  {
    HalfIs(b.width, c.x - b.x);
    HalfIs(b.height, c.y - b.y);
  }

  /** Distance measures from centre to centre. */
  lemma DistanceIsBetweenCentres(r: Rules, a: Box, b: Box, c: Point, e: Point)
    requires IsCentre(a, c) && IsCentre(b, e)
    ensures LieApart(r, c, e, Distance(r, a, b))
  {
    CentreIs(a, c);
    CentreIs(b, e);
  }

  lemma DistanceIs(r: Rules, a: Box, b: Box, d: real)
    ensures CentresApart(r, a, b, d) <==> d == Distance(r, a, b)
  {
    var c, e := Point(a.x + Half(a.width), a.y + Half(a.height)), Point(b.x + Half(b.width), b.y + Half(b.height));
    CentreIs(a, c);
    CentreIs(b, e);
    assert LieApart(r, c, e, Distance(r, a, b));
    if CentresApart(r, a, b, d) {
      var c', e' :| IsCentre(a, c') && IsCentre(b, e') && LieApart(r, c', e', d);
      DistanceIsBetweenCentres(r, a, b, c', e');
    }
  }

  function Area(b: Box): int {
    b.height * b.width
  }

  /** The value of a floating-point quotient; division by zero does not trap. */
  datatype Ratio = Finite(q: real) | PosInf | NegInf | NotANumber

  /** The area of the candidate relative to the area of the reference. */
  function SizeDiff(reference: Box, candidate: Box): Ratio {
    var num, den := Area(candidate), Area(reference);
    if den != 0 then Finite(num as real / den as real)
    else if num > 0 then PosInf
    else if num < 0 then NegInf
    else NotANumber
  }

  predicate Less(a: Ratio, b: Ratio) {
    match (a, b)
    case (NotANumber, _) => false
    case (_, NotANumber) => false
    case (Finite(p), Finite(q)) => p < q
    case (NegInf, _) => b != NegInf
    case (_, PosInf) => a != PosInf
    case (_, _) => false
  }

  // ---------- choosing a track for one detection ----------

  /** The rectangle of a face that was never assigned. */
  const NULL_BOX := Box(-1, -1, -1, -1)

  /** What a track holds of the detections seen so far in this frame; `index` is the position of the
      held detection. */
  datatype Match = Unfound | Found(face: Face, distance: real, index: nat)

  datatype Choice = Nobody | Chosen(track: nat, distance: real)

  function HeldBox(m: Match): Box {
    if m.Found? then m.face.box else NULL_BOX
  }

  predicate InRange(r: Rules, box: Box, last: Box) {
    Distance(r, box, last) <= r.distThresh
  }

  /** May a track at distance d take over from the one chosen so far, at distance best? */
  predicate TakesOver(r: Rules, box: Box, last: Box, held: Match, best: real) {
    && Distance(r, box, last) < best
    && best < r.veryClose
    && Less(SizeDiff(box, last), SizeDiff(box, HeldBox(held)))
  }

  /** The choice after looking at the first n tracks. */
  function ChooseAmong(r: Rules, box: Box, lasts: seq<Box>, matches: seq<Match>, n: nat): (c: Choice)
    requires n <= |lasts| == |matches|
    ensures c.Chosen? ==> c.track < n && InRange(r, box, lasts[c.track])
    ensures c.Chosen? ==> c.distance == Distance(r, box, lasts[c.track])
  {
    if n == 0 then Nobody
    else
      var c := ChooseAmong(r, box, lasts, matches, n - 1);
      var i := n - 1;
      if !InRange(r, box, lasts[i]) then c
      else if c.Nobody? || TakesOver(r, box, lasts[i], matches[i], c.distance)
      then Chosen(i, Distance(r, box, lasts[i]))
      else c
  }

  function Choose(r: Rules, box: Box, lasts: seq<Box>, matches: seq<Match>): Choice
    requires |lasts| == |matches|
  {
    ChooseAmong(r, box, lasts, matches, |lasts|)
  }

  lemma {:induction false} NobodyIffNoneInRange(r: Rules, box: Box, lasts: seq<Box>, matches: seq<Match>, n: nat)
    requires n <= |lasts| == |matches|
    ensures ChooseAmong(r, box, lasts, matches, n).Nobody?
       <==> forall i :: 0 <= i < n ==> !InRange(r, box, lasts[i])
  {
    if n > 0 { NobodyIffNoneInRange(r, box, lasts, matches, n - 1); }
  }

  /** ds are the distances from the centre of box to the centres of lasts. */
  ghost predicate AreDistances(r: Rules, box: Box, lasts: seq<Box>, ds: seq<real>) {
    |ds| == |lasts| && forall i :: 0 <= i < |lasts| ==> CentresApart(r, box, lasts[i], ds[i])
  }

  lemma DistancesAre(r: Rules, box: Box, lasts: seq<Box>, ds: seq<real>)
    requires AreDistances(r, box, lasts, ds)
    ensures forall i :: 0 <= i < |lasts| ==> ds[i] == Distance(r, box, lasts[i])
  {
    forall i | 0 <= i < |lasts| ensures ds[i] == Distance(r, box, lasts[i]) {
      DistanceIs(r, box, lasts[i], ds[i]);
    }
  }

  /** A detection is left over exactly when the centre of no track's last face is within the threshold of its
      own; otherwise it goes to a track within the threshold. */
  lemma LeftOverIffNobodyNear(r: Rules, box: Box, lasts: seq<Box>, matches: seq<Match>, ds: seq<real>)
    requires |lasts| == |matches| && AreDistances(r, box, lasts, ds)
    ensures var c := Choose(r, box, lasts, matches);
      && (c.Nobody? <==> forall i :: 0 <= i < |ds| ==> ds[i] > r.distThresh)
      && (c.Chosen? ==> c.track < |ds| && c.distance == ds[c.track] <= r.distThresh)
  {
    DistancesAre(r, box, lasts, ds);
    NobodyIffNoneInRange(r, box, lasts, matches, |lasts|);
  }

  ghost predicate IsFirstInRange(r: Rules, box: Box, lasts: seq<Box>, f: nat) {
    f < |lasts| && InRange(r, box, lasts[f]) && forall i :: 0 <= i < f ==> !InRange(r, box, lasts[i])
  }

  /** Can track i be chosen when f is the first one in range?  A later track needs f to be very close
      and itself to pass the test of sizes. */
  ghost predicate Eligible(r: Rules, box: Box, lasts: seq<Box>, matches: seq<Match>, f: nat, i: nat)
    requires f < |lasts| == |matches| && i < |lasts|
  {
    || i == f
    || (f < i && InRange(r, box, lasts[i]) && Distance(r, box, lasts[f]) < r.veryClose
        && Less(SizeDiff(box, lasts[i]), SizeDiff(box, HeldBox(matches[i]))))
  }

  /** w is the earliest nearest of the eligible tracks before n. */
  ghost predicate EarliestNearestEligible(r: Rules, box: Box, lasts: seq<Box>, matches: seq<Match>, f: nat,
                                          w: nat, n: nat)
    requires f < |lasts| == |matches| && n <= |lasts|
  {
    && w < n && Eligible(r, box, lasts, matches, f, w)
    && forall i: nat :: i < n && Eligible(r, box, lasts, matches, f, i) ==>
         && Distance(r, box, lasts[w]) <= Distance(r, box, lasts[i])
         && (i < w ==> Distance(r, box, lasts[w]) < Distance(r, box, lasts[i]))
  }

  /** The choice declared: with f the first track in range, the earliest nearest of the eligible ones. */
  lemma {:induction false} ChoiceIsDeclared(r: Rules, box: Box, lasts: seq<Box>, matches: seq<Match>, f: nat, n: nat)
    requires f < n <= |lasts| == |matches| && IsFirstInRange(r, box, lasts, f)
    ensures var c := ChooseAmong(r, box, lasts, matches, n);
      c.Chosen? && EarliestNearestEligible(r, box, lasts, matches, f, c.track, n)
  {
    if n == f + 1 {
      NobodyIffNoneInRange(r, box, lasts, matches, f);
    } else {
      ChoiceIsDeclared(r, box, lasts, matches, f, n - 1);
    }
  }

  /** The test of sizes for taking over from the track chosen so far: seen from a detection of positive area, the
      last face of the track is smaller than what the track holds; a track that holds nothing counts as one
      pixel.  A detection without area makes the quotients infinite, or not numbers. */
  ghost predicate SmallerThanHeld(box: Box, last: Box, held: Match) {
    var own, size := box.width * box.height, last.width * last.height;
    var other := if held.Found? then held.face.box.width * held.face.box.height else 1;
    if own > 0 then size < other else if own < 0 then other < size else size < 0 < other
  }

  lemma QuotientsOrder(p: real, q: real, n: real)
    requires n != 0.0
    ensures n > 0.0 ==> (p / n < q / n <==> p < q)
    ensures n < 0.0 ==> (p / n < q / n <==> q < p)
  {
    var x, y := p / n, q / n;
    assert x * n == p && y * n == q;
    if n > 0.0 {
      ScaleOrder(n, x, y);
    } else {
      ScaleOrder(-n, y, x);
    }
  }

  /** The test of sizes, for all boxes. */
  lemma TakeOverComparesAreas(box: Box, last: Box, held: Match)
    ensures Less(SizeDiff(box, last), SizeDiff(box, HeldBox(held))) <==> SmallerThanHeld(box, last, held)
  {
    if box.width * box.height != 0 {
      QuotientsOrder((last.width * last.height) as real, (HeldBox(held).width * HeldBox(held).height) as real,
                     (box.width * box.height) as real);
    }
  }

  /** May track i be chosen, when f is the first track within the threshold? */
  ghost predicate MayBeChosen(r: Rules, box: Box, lasts: seq<Box>, matches: seq<Match>, ds: seq<real>, f: nat, i: nat)
    requires f < |lasts| == |matches| == |ds| && i < |lasts|
  {
    i == f || (f < i && ds[i] <= r.distThresh && ds[f] < r.veryClose && SmallerThanHeld(box, lasts[i], matches[i]))
  }

  /** The choice by centres and areas: with f the first track within the threshold, the earliest nearest of those
      that may be chosen. */
  lemma ChoiceByCentresAndAreas(r: Rules, box: Box, lasts: seq<Box>, matches: seq<Match>, ds: seq<real>, f: nat)
    requires |lasts| == |matches| && AreDistances(r, box, lasts, ds)
    requires f < |ds| && ds[f] <= r.distThresh && forall i :: 0 <= i < f ==> ds[i] > r.distThresh
    ensures var c := Choose(r, box, lasts, matches);
      && c.Chosen? && c.track < |ds| && c.distance == ds[c.track]
      && MayBeChosen(r, box, lasts, matches, ds, f, c.track)
      && forall i: nat :: i < |ds| && MayBeChosen(r, box, lasts, matches, ds, f, i) ==>
           ds[c.track] <= ds[i] && (i < c.track ==> ds[c.track] < ds[i])
  {
    DistancesAre(r, box, lasts, ds);
    ChoiceIsDeclared(r, box, lasts, matches, f, |lasts|);
    forall i: nat | i < |lasts|
      ensures Eligible(r, box, lasts, matches, f, i) <==> MayBeChosen(r, box, lasts, matches, ds, f, i)
    {
      TakeOverComparesAreas(box, lasts[i], matches[i]);
    }
  }

  /** w is in range, and no track in range is nearer. */
  ghost predicate NearestInRange(r: Rules, box: Box, lasts: seq<Box>, w: nat) {
    && w < |lasts| && InRange(r, box, lasts[w])
    && forall i :: 0 <= i < |lasts| && InRange(r, box, lasts[i]) ==>
         Distance(r, box, lasts[w]) <= Distance(r, box, lasts[i])
  }

  /** The comment in the source asks for the best track in range.  The code chooses a nearest one
      exactly when some nearest one is eligible. */
  lemma NearestIsChosenIff(r: Rules, box: Box, lasts: seq<Box>, matches: seq<Match>, f: nat)
    requires |lasts| == |matches| && IsFirstInRange(r, box, lasts, f)
    ensures var c := Choose(r, box, lasts, matches);
      c.Chosen? && (NearestInRange(r, box, lasts, c.track)
        <==> exists w: nat :: NearestInRange(r, box, lasts, w) && Eligible(r, box, lasts, matches, f, w))
  {
    ChoiceIsDeclared(r, box, lasts, matches, f, |lasts|);
  }

  /** The first track in range is the choice exactly when no later one takes over from it. */
  lemma FirstInRangeIsKept(r: Rules, box: Box, lasts: seq<Box>, matches: seq<Match>, f: nat)
    requires |lasts| == |matches| && IsFirstInRange(r, box, lasts, f)
    ensures Choose(r, box, lasts, matches) == Chosen(f, Distance(r, box, lasts[f]))
       <==> forall i :: f < i < |lasts| && InRange(r, box, lasts[i])
              ==> !TakesOver(r, box, lasts[i], matches[i], Distance(r, box, lasts[f]))
  {
    ChoiceIsDeclared(r, box, lasts, matches, f, |lasts|);
    forall i | f < i < |lasts| && InRange(r, box, lasts[i])
      ensures TakesOver(r, box, lasts[i], matches[i], Distance(r, box, lasts[f]))
         <==> Eligible(r, box, lasts, matches, f, i) && Distance(r, box, lasts[i]) < Distance(r, box, lasts[f])
    {
    }
  }

  /** The comment is not met: the farther of two tracks in range is chosen when it comes first, with any
      thresholds that have both in range. */
  lemma NearestIsNotAlwaysChosen(r: Rules)
    requires r.sqrt(0.0) == 0.0 && r.sqrt(64.0) == 8.0 && r.distThresh >= 8.0
    ensures var box, far, near := Box(0, 0, 2, 2), Box(8, 0, 2, 2), Box(0, 0, 2, 2);
            && Distance(r, box, near) == 0.0 && Distance(r, box, far) == 8.0
            && Choose(r, box, [far, near], [Unfound, Unfound]) == Chosen(0, 8.0)
  {
    var box, far, near := Box(0, 0, 2, 2), Box(8, 0, 2, 2), Box(0, 0, 2, 2);
    var lasts, none := [far, near], [Unfound, Unfound];
    assert Distance(r, box, far) == 8.0 && Distance(r, box, near) == 0.0;
    FirstInRangeIsKept(r, box, lasts, none, 0);
  }

  // ---------- competing for a track ----------

  /** Does a detection at distance d displace what the track holds? */
  predicate Displaces(r: Rules, last: Box, held: Match, box: Box, d: real) {
    || held.Unfound?
    || (d < held.distance && held.distance > r.veryClose)
    || (held.distance < r.veryClose && d < r.veryClose
        && Less(SizeDiff(box, last), SizeDiff(held.face.box, last)))
  }

  /** What the tracks hold, and what each detection chose, after a number of detections. */
  datatype Assignment = Assignment(matches: seq<Match>, chosen: seq<Choice>)

  function Place(r: Rules, lasts: seq<Box>, a: Assignment, face: Face): Assignment
    requires |a.matches| == |lasts|
  {
    var c := Choose(r, face.box, lasts, a.matches);
    var matches :=
      if c.Chosen? && Displaces(r, lasts[c.track], a.matches[c.track], face.box, c.distance)
      then a.matches[c.track := Found(face, c.distance, |a.chosen|)]
      else a.matches;
    Assignment(matches, a.chosen + [c])
  }

  function Assign(r: Rules, lasts: seq<Box>, faces: seq<Face>): (a: Assignment)
    ensures |a.matches| == |lasts| && |a.chosen| == |faces|
  {
    if faces == [] then Assignment(seq(|lasts|, _ => Unfound), [])
    else Place(r, lasts, Assign(r, lasts, faces[..|faces| - 1]), faces[|faces| - 1])
  }

  predicate Picks(a: Assignment, j: nat, i: nat) {
    j < |a.chosen| && a.chosen[j].Chosen? && a.chosen[j].track == i
  }

  /** What is held is a detection that chose the track, and something is held if any did. */
  ghost predicate Consistent(r: Rules, lasts: seq<Box>, faces: seq<Face>, a: Assignment) {
    && |a.matches| == |lasts| && |a.chosen| == |faces|
    && (forall j :: 0 <= j < |faces| && a.chosen[j].Chosen? ==>
          && a.chosen[j].track < |lasts|
          && a.chosen[j].distance == Distance(r, faces[j].box, lasts[a.chosen[j].track])
          && a.chosen[j].distance <= r.distThresh
          && a.matches[a.chosen[j].track].Found?)
    && (forall j :: 0 <= j < |faces| ==>
          (a.chosen[j].Nobody? <==> forall i :: 0 <= i < |lasts| ==> !InRange(r, faces[j].box, lasts[i])))
    && (forall i :: 0 <= i < |lasts| && a.matches[i].Found? ==>
          var m := a.matches[i];
          Picks(a, m.index, i) && m.face == faces[m.index] && m.distance == a.chosen[m.index].distance)
  }

  lemma PlaceKeepsConsistent(r: Rules, lasts: seq<Box>, front: seq<Face>, a: Assignment, face: Face)
    requires Consistent(r, lasts, front, a)
    ensures Consistent(r, lasts, front + [face], Place(r, lasts, a, face))
  {
    NobodyIffNoneInRange(r, face.box, lasts, a.matches, |lasts|);
    var c := Choose(r, face.box, lasts, a.matches);
    var b, faces := Place(r, lasts, a, face), front + [face];
    assert forall j :: 0 <= j < |front| ==> b.chosen[j] == a.chosen[j] && faces[j] == front[j];
    assert b.chosen[|front|] == c && faces[|front|] == face;
    forall i | 0 <= i < |lasts| && b.matches[i].Found?
      ensures var m := b.matches[i];
              Picks(b, m.index, i) && m.face == faces[m.index] && m.distance == b.chosen[m.index].distance
    {
      if b.matches[i] == a.matches[i] { assert Picks(a, a.matches[i].index, i); }
    }
  }

  lemma {:induction false} AssignIsConsistent(r: Rules, lasts: seq<Box>, faces: seq<Face>)
    ensures Consistent(r, lasts, faces, Assign(r, lasts, faces))
  {
    if faces != [] {
      var front, face := faces[..|faces| - 1], faces[|faces| - 1];
      AssignIsConsistent(r, lasts, front);
      PlaceKeepsConsistent(r, lasts, front, Assign(r, lasts, front), face);
      assert front + [face] == faces;
    }
  }

  // ---------- every detection has exactly one fate ----------

  predicate Keeps(a: Assignment, j: nat) {
    && j < |a.chosen| && a.chosen[j].Chosen? && a.chosen[j].track < |a.matches|
    && var m := a.matches[a.chosen[j].track]; m.Found? && m.index == j
  }

  /** Displaced by a rival that chose the same track. */
  predicate Loses(a: Assignment, j: nat) {
    && j < |a.chosen| && a.chosen[j].Chosen? && a.chosen[j].track < |a.matches|
    && var m := a.matches[a.chosen[j].track]; m.Found? && m.index != j && Picks(a, m.index, a.chosen[j].track)
  }

  predicate Seeds(a: Assignment, j: nat) {
    j < |a.chosen| && a.chosen[j].Nobody?
  }

  /** Each detection is held by the one track it chose, or lost that track to a rival, or chose
      no track because none is in range; and a track holds a detection iff one chose it. */
  lemma EveryDetectionHasOneFate(r: Rules, lasts: seq<Box>, faces: seq<Face>)
    ensures var a := Assign(r, lasts, faces);
      && (forall j :: 0 <= j < |faces| ==>
            && (Keeps(a, j) || Loses(a, j) || Seeds(a, j))
            && !(Keeps(a, j) && Loses(a, j)) && !(Keeps(a, j) && Seeds(a, j)) && !(Loses(a, j) && Seeds(a, j))
            && (Seeds(a, j) <==> forall i :: 0 <= i < |lasts| ==> !InRange(r, faces[j].box, lasts[i]))
            && (Keeps(a, j) <==> exists i :: 0 <= i < |lasts| && a.matches[i].Found? && a.matches[i].index == j))
      && (forall i :: 0 <= i < |lasts| ==>
            (a.matches[i].Found? <==> exists j: nat :: Picks(a, j, i)))
  {
    AssignIsConsistent(r, lasts, faces);
    var a := Assign(r, lasts, faces);
    forall i, j: nat | 0 <= i < |lasts| && Picks(a, j, i)
      ensures a.matches[i].Found?
    {
    }
  }

  function LeftOver(faces: seq<Face>, chosen: seq<Choice>): seq<Face>
    requires |faces| == |chosen|
  {
    if faces == [] then []
    else LeftOver(faces[..|faces| - 1], chosen[..|faces| - 1])
         + (if chosen[|faces| - 1].Nobody? then [faces[|faces| - 1]] else [])
  }

  predicate IsNobody(chosen: seq<Choice>, k: int) {
    0 <= k < |chosen| && chosen[k].Nobody?
  }

  /** ks are the positions of the detections that chose no track, and left holds these detections. */
  ghost predicate LeftAt(left: seq<Face>, faces: seq<Face>, chosen: seq<Choice>, ks: seq<int>)
    requires |faces| == |chosen|
  {
    && Ascending(ks) && |ks| == |left|
    && (forall k :: k in ks <==> IsNobody(chosen, k))
    && (forall m :: 0 <= m < |ks| ==> 0 <= ks[m] < |faces| && left[m] == faces[ks[m]])
  }

  lemma LeaveOneMore(left: seq<Face>, faces: seq<Face>, chosen: seq<Choice>, ks: seq<int>, face: Face)
    requires |faces| == |chosen| && LeftAt(left, faces, chosen, ks)
    ensures LeftAt(left + [face], faces + [face], chosen + [Nobody], ks + [|faces|])
  {
    var js := ks + [|faces|];
    assert forall m :: 0 <= m < |ks| ==> ks[m] in ks;
    forall k ensures k in js <==> IsNobody(chosen + [Nobody], k) {
      assert k in js <==> k in ks || k == |faces|;
      assert k in ks <==> IsNobody(chosen, k);
    }
  }

  lemma PlaceOneMore(left: seq<Face>, faces: seq<Face>, chosen: seq<Choice>, ks: seq<int>, face: Face, c: Choice)
    requires |faces| == |chosen| && LeftAt(left, faces, chosen, ks) && c.Chosen?
    ensures LeftAt(left, faces + [face], chosen + [c], ks)
  {
    forall k ensures k in ks <==> IsNobody(chosen + [c], k) {
      assert k in ks <==> IsNobody(chosen, k);
    }
  }

  /** The detections left over are those that chose no track, in their order. */
  lemma {:induction false} LeftOverInOrder(faces: seq<Face>, chosen: seq<Choice>) returns (ks: seq<int>)
    requires |faces| == |chosen|
    ensures LeftAt(LeftOver(faces, chosen), faces, chosen, ks)
  {
    if faces == [] {
      ks := [];
    } else {
      var n := |faces| - 1;
      var front, face, c := faces[..n], faces[n], chosen[n];
      ks := LeftOverInOrder(front, chosen[..n]);
      assert faces == front + [face] && chosen == chosen[..n] + [c];
      if c.Nobody? {
        LeaveOneMore(LeftOver(front, chosen[..n]), front, chosen[..n], ks, face);
        ks := ks + [n];
      } else {
        PlaceOneMore(LeftOver(front, chosen[..n]), front, chosen[..n], ks, face, c);
      }
    }
  }

  // ---------- what part 1 finds, by the centres of the boxes ----------

  /** The centres of the boxes lie within the threshold. */
  ghost predicate CentresWithin(r: Rules, a: Box, b: Box) {
    exists d: real :: CentresApart(r, a, b, d) && d <= r.distThresh
  }

  ghost predicate NearNone(r: Rules, box: Box, lasts: seq<Box>) {
    forall i :: 0 <= i < |lasts| ==> !CentresWithin(r, box, lasts[i])
  }

  lemma InRangeIff(r: Rules, a: Box, b: Box)
    ensures InRange(r, a, b) <==> CentresWithin(r, a, b)
  {
    DistanceIs(r, a, b, Distance(r, a, b));
    if CentresWithin(r, a, b) {
      var d :| CentresApart(r, a, b, d) && d <= r.distThresh;
      DistanceIs(r, a, b, d);
    }
  }

  lemma NearNoneIff(r: Rules, box: Box, lasts: seq<Box>)
    ensures NearNone(r, box, lasts) <==> forall i :: 0 <= i < |lasts| ==> !InRange(r, box, lasts[i])
  {
    forall i | 0 <= i < |lasts| ensures InRange(r, box, lasts[i]) <==> CentresWithin(r, box, lasts[i]) {
      InRangeIff(r, box, lasts[i]);
    }
  }

  /** The choice goes to a track within the threshold, at the distance of the centres, if there is one. */
  ghost predicate ChoiceIsNear(r: Rules, box: Box, lasts: seq<Box>, c: Choice) {
    && (c.Nobody? <==> NearNone(r, box, lasts))
    && (c.Chosen? ==>
          c.track < |lasts| && CentresApart(r, box, lasts[c.track], c.distance) && c.distance <= r.distThresh)
  }

  lemma ChosenIsNear(r: Rules, box: Box, lasts: seq<Box>, matches: seq<Match>)
    requires |lasts| == |matches|
    ensures ChoiceIsNear(r, box, lasts, Choose(r, box, lasts, matches))
  {
    var c := Choose(r, box, lasts, matches);
    NobodyIffNoneInRange(r, box, lasts, matches, |lasts|);
    NearNoneIff(r, box, lasts);
    if c.Chosen? { DistanceIs(r, box, lasts[c.track], c.distance); }
  }

  /** A track that found a face holds a detection of this frame, at the distance of the centres. */
  ghost predicate MatchIsNear(r: Rules, last: Box, faces: seq<Face>, m: Match) {
    m.Found? ==>
      && m.index < |faces| && m.face == faces[m.index]
      && CentresApart(r, m.face.box, last, m.distance) && m.distance <= r.distThresh
  }

  /** The detections left over are those near no track, in their order. */
  ghost predicate AreLeftOver(r: Rules, lasts: seq<Box>, faces: seq<Face>, unmatched: seq<Face>) {
    exists ks: seq<int> ::
      && Ascending(ks) && |ks| == |unmatched|
      && (forall k :: k in ks <==> 0 <= k < |faces| && NearNone(r, faces[k].box, lasts))
      && (forall m :: 0 <= m < |ks| ==> 0 <= ks[m] < |faces| && unmatched[m] == faces[ks[m]])
  }

  /** What part 1 leaves behind. */
  ghost predicate IsMatching(r: Rules, lasts: seq<Box>, faces: seq<Face>, matches: seq<Match>, unmatched: seq<Face>) {
    && |matches| == |lasts| && AreLeftOver(r, lasts, faces, unmatched)
    && forall i :: 0 <= i < |lasts| ==> MatchIsNear(r, lasts[i], faces, matches[i])
  }

  lemma AssignIsMatching(r: Rules, lasts: seq<Box>, faces: seq<Face>)
    ensures var a := Assign(r, lasts, faces); IsMatching(r, lasts, faces, a.matches, LeftOver(faces, a.chosen))
  {
    LeftOverAreFar(r, lasts, faces);
    forall i | 0 <= i < |lasts| ensures MatchIsNear(r, lasts[i], faces, Assign(r, lasts, faces).matches[i]) {
      MatchesAreNear(r, lasts, faces, i);
    }
  }

  lemma MatchesAreNear(r: Rules, lasts: seq<Box>, faces: seq<Face>, i: nat)
    requires i < |lasts|
    ensures MatchIsNear(r, lasts[i], faces, Assign(r, lasts, faces).matches[i])
  {
    AssignIsConsistent(r, lasts, faces);
    var m := Assign(r, lasts, faces).matches[i];
    if m.Found? { DistanceIs(r, m.face.box, lasts[i], m.distance); }
  }

  lemma LeftOverAreFar(r: Rules, lasts: seq<Box>, faces: seq<Face>)
    ensures AreLeftOver(r, lasts, faces, LeftOver(faces, Assign(r, lasts, faces).chosen))
  {
    AssignIsConsistent(r, lasts, faces);
    var chosen := Assign(r, lasts, faces).chosen;
    var ks := LeftOverInOrder(faces, chosen);
    forall k ensures k in ks <==> 0 <= k < |faces| && NearNone(r, faces[k].box, lasts) {
      assert k in ks <==> IsNobody(chosen, k);
      if 0 <= k < |faces| { NearNoneIff(r, faces[k].box, lasts); }
    }
  }

  ghost function FoundTracks(matches: seq<Match>): set<nat> {
    set i: nat | i < |matches| && matches[i].Found?
  }

  ghost function Losers(a: Assignment): set<nat> {
    set j: nat | j < |a.chosen| && Loses(a, j)
  }

  /** No detection is lost or counted twice: tracks that gain a face, displaced detections and
      detections left over add up to the detections of the frame. */
  lemma DetectionsAreConserved(r: Rules, lasts: seq<Box>, faces: seq<Face>)
    ensures var a := Assign(r, lasts, faces);
            |faces| == |FoundTracks(a.matches)| + |Losers(a)| + |LeftOver(faces, a.chosen)|
  {
    AssignIsConsistent(r, lasts, faces);
    ConsistentCounts(r, lasts, faces, Assign(r, lasts, faces));
  }

  lemma ConsistentCounts(r: Rules, lasts: seq<Box>, faces: seq<Face>, a: Assignment)
    requires Consistent(r, lasts, faces, a)
    ensures |faces| == |FoundTracks(a.matches)| + |Losers(a)| + |LeftOver(faces, a.chosen)|
  {
    KeptSetIsImage(r, lasts, faces, a);
    CountKept(a, FoundTracks(a.matches), Kept(a));
    CountSeeds(faces, a.chosen);
    PartitionSize(Below(|faces|), Kept(a), Losers(a), Leftovers(a.chosen));
  }

  lemma PartitionSize(all: set<nat>, p: set<nat>, q: set<nat>, r: set<nat>)
    requires forall j :: j in all <==> j in p || j in q || j in r
    requires p !! q && p !! r && q !! r
    ensures |all| == |p| + |q| + |r|
  {
    assert all == p + q + r;
  }

  ghost function Kept(a: Assignment): set<nat> {
    set j: nat | j < |a.chosen| && Keeps(a, j)
  }

  ghost function Leftovers(chosen: seq<Choice>): set<nat> {
    set j: nat | j < |chosen| && chosen[j].Nobody?
  }

  lemma KeptSetIsImage(r: Rules, lasts: seq<Box>, faces: seq<Face>, a: Assignment)
    requires Consistent(r, lasts, faces, a)
    ensures forall i :: i in FoundTracks(a.matches) ==> Picks(a, a.matches[i].index, i)
    ensures forall j :: j in Kept(a) <==> exists i :: i in FoundTracks(a.matches) && a.matches[i].index == j
    ensures forall j: nat :: j < |faces| ==> Keeps(a, j) || Loses(a, j) || a.chosen[j].Nobody?
  {
    forall j ensures j in Kept(a) <==> exists i :: i in FoundTracks(a.matches) && a.matches[i].index == j
    {
      if j in Kept(a) { assert a.chosen[j].track in FoundTracks(a.matches); }
    }
  }

  lemma {:induction false} CountSeeds(faces: seq<Face>, chosen: seq<Choice>)
    requires |faces| == |chosen|
    ensures |LeftOver(faces, chosen)| == |Leftovers(chosen)|
  {
    if faces != [] {
      var n := |faces| - 1;
      CountSeeds(faces[..n], chosen[..n]);
      assert Leftovers(chosen) == Leftovers(chosen[..n]) + (if chosen[n].Nobody? then {n} else {});
    }
  }

  /** A track and the detection it holds determine each other. */
  lemma {:induction false} CountKept(a: Assignment, found: set<nat>, kept: set<nat>)
    requires forall i :: i in found ==> i < |a.matches| && a.matches[i].Found? && Picks(a, a.matches[i].index, i)
    requires forall j :: j in kept <==> exists i :: i in found && a.matches[i].index == j
    ensures |found| == |kept|
    decreases found
  {
    if found == {} {
      assert kept == {};
    } else {
      var i :| i in found;
      var j := a.matches[i].index;
      assert j in kept;
      var found', kept' := found - {i}, kept - {j};
      forall k ensures k in kept' <==> exists i' :: i' in found' && a.matches[i'].index == k
      {
        if k in kept' {
          var i' :| i' in found && a.matches[i'].index == k;
          assert i' in found';
        }
      }
      CountKept(a, found', kept');
    }
  }

  // ---------- which detection a track keeps ----------

  ghost predicate PositiveAreas(lasts: seq<Box>, faces: seq<Face>) {
    && (forall i :: 0 <= i < |lasts| ==> Area(lasts[i]) > 0)
    && (forall j :: 0 <= j < |faces| ==> Area(faces[j].box) > 0)
  }

  lemma SizeDiffComparesAreas(last: Box, a: Box, b: Box)
    requires last.width * last.height > 0 && a.width * a.height > 0 && b.width * b.height > 0
    ensures Less(SizeDiff(a, last), SizeDiff(b, last)) <==> b.width * b.height < a.width * a.height
  {
    QuotientOrder(Area(last) as real, Area(a) as real, Area(b) as real);
  }

  lemma SizeDiffByArea(last: Box, a: Box, b: Box)
    requires Area(last) > 0 && Area(a) > 0 && Area(b) > 0
    ensures Less(SizeDiff(a, last), SizeDiff(b, last)) <==> Area(b) < Area(a)
  {
    SizeDiffComparesAreas(last, a, b);
  }

  /** Both sides multiplied by p * q. */
  lemma QuotientOrder(n: real, p: real, q: real)
    requires n > 0.0 && p > 0.0 && q > 0.0
    ensures n / p < n / q <==> q < p
  {
    var x, y := n / p, n / q;
    assert x * p == n && y * q == n;
    ScaleOrder(p * q, x, y);
    ScaleOrder(n, q, p);
    assert (p * q) * x == n * q by { assert (p * q) * x == (x * p) * q; }
    assert (p * q) * y == n * p by { assert (p * q) * y == (y * q) * p; }
  }

  function DistOf(a: Assignment, j: nat): real
    requires j < |a.chosen| && a.chosen[j].Chosen?
  {
    a.chosen[j].distance
  }

  /** j is the first detection of track i that is not farther than the very-close distance. */
  ghost predicate FirstNotFar(r: Rules, a: Assignment, i: nat, j: nat) {
    && Picks(a, j, i) && DistOf(a, j) <= r.veryClose
    && forall k: nat :: k < j && Picks(a, k, i) ==> DistOf(a, k) > r.veryClose
  }

  ghost predicate EarliestNearest(a: Assignment, i: nat, w: nat) {
    && Picks(a, w, i)
    && forall k: nat :: Picks(a, k, i) ==> DistOf(a, w) <= DistOf(a, k) && (k < w ==> DistOf(a, w) < DistOf(a, k))
  }

  ghost predicate EarliestLargestClose(r: Rules, faces: seq<Face>, a: Assignment, i: nat, w: nat)
    requires |a.chosen| == |faces|
  {
    && Picks(a, w, i) && DistOf(a, w) < r.veryClose
    && forall k: nat :: Picks(a, k, i) && DistOf(a, k) < r.veryClose ==>
         && Area(faces[k].box) <= Area(faces[w].box)
         && (k < w ==> Area(faces[k].box) < Area(faces[w].box))
  }

  /** The winner of track i in full: the earliest nearest detection if all are far; a detection at
      exactly the very-close distance if it is the first that is not far; and otherwise the
      earliest largest of the close ones. */
  ghost predicate IsWinner(r: Rules, faces: seq<Face>, a: Assignment, i: nat, w: nat)
    requires |a.chosen| == |faces|
  {
    && Picks(a, w, i)
    && ((forall k: nat :: Picks(a, k, i) ==> DistOf(a, k) > r.veryClose) ==> EarliestNearest(a, i, w))
    && (forall j: nat :: FirstNotFar(r, a, i, j) ==>
          if DistOf(a, j) == r.veryClose then w == j else EarliestLargestClose(r, faces, a, i, w))
  }

  /** The same by the distance of the winner w, as the scan maintains it. */
  ghost predicate WinnerShape(r: Rules, faces: seq<Face>, a: Assignment, i: nat, w: nat)
    requires |a.chosen| == |faces|
  {
    && Picks(a, w, i)
    && (DistOf(a, w) > r.veryClose ==> EarliestNearest(a, i, w))
    && (DistOf(a, w) == r.veryClose ==> FirstNotFar(r, a, i, w))
    && (DistOf(a, w) < r.veryClose ==>
          && EarliestLargestClose(r, faces, a, i, w)
          && forall k: nat :: Picks(a, k, i) && DistOf(a, k) == r.veryClose ==> CloseBefore(r, a, i, k))
  }

  ghost predicate CloseBefore(r: Rules, a: Assignment, i: nat, k: nat) {
    exists j: nat :: j < k && Picks(a, j, i) && DistOf(a, j) < r.veryClose
  }

  lemma ShapeDecidesWinner(r: Rules, faces: seq<Face>, a: Assignment, i: nat, w: nat)
    requires |a.chosen| == |faces| && WinnerShape(r, faces, a, i, w)
    ensures IsWinner(r, faces, a, i, w)
  {
    forall j: nat | FirstNotFar(r, a, i, j)
      ensures if DistOf(a, j) == r.veryClose then w == j else EarliestLargestClose(r, faces, a, i, w)
    {
    }
  }

  /** b extends a by the detection at position n, which chose track i. */
  ghost predicate ExtendsBy(a: Assignment, b: Assignment, i: nat, n: nat) {
    && |a.chosen| == n
    && Picks(b, n, i)
    && (forall j: nat :: Picks(b, j, i) <==> Picks(a, j, i) || j == n)
    && (forall j: nat :: Picks(a, j, i) ==> DistOf(b, j) == DistOf(a, j))
  }

  lemma ShapeWhenNothingIsHeld(r: Rules, faces: seq<Face>, a: Assignment, b: Assignment, i: nat, n: nat)
    requires ExtendsBy(a, b, i, n) && |b.chosen| == |faces| == n + 1
    requires forall j: nat :: !Picks(a, j, i)
    ensures WinnerShape(r, faces, b, i, n)
  {
  }

  lemma ShapeWhenFarIsHeld(r: Rules, faces: seq<Face>, a: Assignment, b: Assignment, i: nat, n: nat, w: nat)
    requires ExtendsBy(a, b, i, n) && |b.chosen| == |faces| == n + 1
    requires Picks(a, w, i) && DistOf(a, w) > r.veryClose && EarliestNearest(a, i, w)
    ensures WinnerShape(r, faces, b, i, if DistOf(b, n) < DistOf(a, w) then n else w)
  {
    var v := if DistOf(b, n) < DistOf(a, w) then n else w;
    assert forall k: nat :: Picks(a, k, i) ==> k < n && DistOf(b, k) > r.veryClose;
  }

  lemma ShapeWhenCloseIsHeld(r: Rules, faces: seq<Face>, a: Assignment, b: Assignment, i: nat, n: nat, w: nat)
    requires ExtendsBy(a, b, i, n) && |b.chosen| == |faces| == n + 1
    requires WinnerShape(r, faces[..n], a, i, w) && DistOf(a, w) < r.veryClose
    ensures WinnerShape(r, faces, b, i,
              if DistOf(b, n) < r.veryClose && Area(faces[w].box) < Area(faces[n].box) then n else w)
  {
    var v := if DistOf(b, n) < r.veryClose && Area(faces[w].box) < Area(faces[n].box) then n else w;
    forall k: nat | Picks(b, k, i) && DistOf(b, k) == r.veryClose
      ensures CloseBefore(r, b, i, k)
    {
      if k == n {
        assert w < n && Picks(b, w, i) && DistOf(b, w) < r.veryClose;
      } else {
        var j: nat :| j < k && Picks(a, j, i) && DistOf(a, j) < r.veryClose;
        assert Picks(b, j, i) && DistOf(b, j) < r.veryClose;
      }
    }
    forall k: nat | Picks(b, k, i) && DistOf(b, k) < r.veryClose
      ensures Area(faces[k].box) <= Area(faces[v].box) && (k < v ==> Area(faces[k].box) < Area(faces[v].box))
    {
      if k != n {
        assert Picks(a, k, i) && faces[..n][k] == faces[k];
      }
    }
  }

  lemma ShapeIsKept(r: Rules, faces: seq<Face>, a: Assignment, b: Assignment, i: nat, n: nat, w: nat)
    requires |a.chosen| == n && |b.chosen| == |faces| == n + 1 && WinnerShape(r, faces[..n], a, i, w)
    requires forall j: nat :: Picks(b, j, i) <==> Picks(a, j, i) || (j == n && Picks(b, n, i))
    requires forall j: nat :: Picks(a, j, i) ==> Picks(b, j, i) && DistOf(b, j) == DistOf(a, j)
    requires Picks(b, n, i) ==> DistOf(a, w) == r.veryClose
    ensures WinnerShape(r, faces, b, i, w)
  {
    if DistOf(a, w) < r.veryClose {
      forall k: nat | Picks(b, k, i) && DistOf(b, k) == r.veryClose
        ensures CloseBefore(r, b, i, k)
      {
        var j: nat :| j < k && Picks(a, j, i) && DistOf(a, j) < r.veryClose;
        assert Picks(b, j, i);
      }
    }
  }

  lemma PlaceKeepsShape(r: Rules, lasts: seq<Box>, faces: seq<Face>, a: Assignment, i: nat)
    requires faces != [] && PositiveAreas(lasts, faces) && i < |lasts|
    requires Consistent(r, lasts, faces[..|faces| - 1], a)
    requires a.matches[i].Found? ==> WinnerShape(r, faces[..|faces| - 1], a, i, a.matches[i].index)
    ensures var b := Place(r, lasts, a, faces[|faces| - 1]);
            b.matches[i].Found? ==> WinnerShape(r, faces, b, i, b.matches[i].index)
  {
    var n := |faces| - 1;
    var b, held := Place(r, lasts, a, faces[n]), a.matches[i];
    assert forall j: nat :: j < n ==> b.chosen[j] == a.chosen[j];
    if held.Unfound? {
      if Picks(b, n, i) { ShapeWhenNothingIsHeld(r, faces, a, b, i, n); }
    } else if !Picks(b, n, i) || held.distance == r.veryClose {
      ShapeIsKept(r, faces, a, b, i, n, held.index);
    } else if held.distance > r.veryClose {
      ShapeWhenFarIsHeld(r, faces, a, b, i, n, held.index);
    } else {
      ShapeWhenCloseIsHeld(r, faces, a, b, i, n, held.index);
      SizeDiffByArea(lasts[i], faces[n].box, faces[held.index].box);
    }
  }

  lemma {:induction false} WinnerHasShape(r: Rules, lasts: seq<Box>, faces: seq<Face>, i: nat)
    requires PositiveAreas(lasts, faces) && i < |lasts|
    ensures var a := Assign(r, lasts, faces);
            a.matches[i].Found? ==> WinnerShape(r, faces, a, i, a.matches[i].index)
  {
    if faces != [] {
      var front := faces[..|faces| - 1];
      WinnerHasShape(r, lasts, front, i);
      AssignIsConsistent(r, lasts, front);
      PlaceKeepsShape(r, lasts, faces, Assign(r, lasts, front), i);
    }
  }

  lemma WinnerIsDeclared(r: Rules, lasts: seq<Box>, faces: seq<Face>, i: nat)
    requires PositiveAreas(lasts, faces) && i < |lasts|
    ensures var a := Assign(r, lasts, faces);
            a.matches[i].Found? ==> IsWinner(r, faces, a, i, a.matches[i].index)
  {
    WinnerHasShape(r, lasts, faces, i);
    var a := Assign(r, lasts, faces);
    if a.matches[i].Found? { ShapeDecidesWinner(r, faces, a, i, a.matches[i].index); }
  }

  /** The rule the code is after: the earliest largest of the close detections, and the earliest
      nearest one when none is close. */
  ghost predicate IntendedWinner(r: Rules, faces: seq<Face>, a: Assignment, i: nat, w: nat)
    requires |a.chosen| == |faces|
  {
    if exists k: nat :: Picks(a, k, i) && DistOf(a, k) < r.veryClose
    then EarliestLargestClose(r, faces, a, i, w)
    else EarliestNearest(a, i, w)
  }

  /** The intended rule is met unless a detection at exactly the very-close distance comes before
      every close one and a close one follows: that detection is never displaced. */
  lemma IntendedWinnerIff(r: Rules, lasts: seq<Box>, faces: seq<Face>, i: nat)
    requires PositiveAreas(lasts, faces) && i < |lasts|
    ensures var a := Assign(r, lasts, faces);
      a.matches[i].Found? ==>
        (IntendedWinner(r, faces, a, i, a.matches[i].index)
         <==> !exists j: nat, k: nat :: FirstNotFar(r, a, i, j) && DistOf(a, j) == r.veryClose
                                     && Picks(a, k, i) && DistOf(a, k) < r.veryClose)
  {
    WinnerHasShape(r, lasts, faces, i);
    var a := Assign(r, lasts, faces);
    if a.matches[i].Found? {
      var w := a.matches[i].index;
      if exists j: nat, k: nat :: FirstNotFar(r, a, i, j) && DistOf(a, j) == r.veryClose
                               && Picks(a, k, i) && DistOf(a, k) < r.veryClose {
        var j: nat, k: nat :| FirstNotFar(r, a, i, j) && DistOf(a, j) == r.veryClose
                           && Picks(a, k, i) && DistOf(a, k) < r.veryClose;
        ShapeDecidesWinner(r, faces, a, i, w);
      }
    }
  }

  /** Such a case, with any square root that has the true values here: the held face, at exactly the
      very-close distance of 5, is not displaced by a larger face right on the track. */
  lemma IntendedWinnerIsNotAlwaysKept(r: Rules)
    requires r.veryClose == 5.0 && r.distThresh >= 5.0 && r.sqrt(0.0) == 0.0 && r.sqrt(25.0) == 5.0
    ensures var lasts, faces := [Box(0, 0, 2, 2)], [Face(Box(3, 4, 2, 2), 1), Face(Box(0, 0, 3, 3), 1)];
            var a := Assign(r, lasts, faces);
            a.matches[0].Found? && a.matches[0].index == 0 && !IntendedWinner(r, faces, a, 0, 0)
  {
    var lasts, faces := [Box(0, 0, 2, 2)], [Face(Box(3, 4, 2, 2), 1), Face(Box(0, 0, 3, 3), 1)];
    var none := Assign(r, lasts, []);
    assert faces[..1] == [faces[0]] && faces[..1][..0] == [];
    ChoiceOfOne(r, faces[0].box, lasts, none.matches);
    var one := Assign(r, lasts, faces[..1]);
    assert one == Place(r, lasts, none, faces[0]);
    assert one.matches[0] == Found(faces[0], 5.0, 0);
    ChoiceOfOne(r, faces[1].box, lasts, one.matches);
    var two := Assign(r, lasts, faces);
    assert two == Place(r, lasts, one, faces[1]);
    assert Picks(two, 1, 0) && DistOf(two, 1) == 0.0 && DistOf(two, 0) == 5.0;
  }

  lemma ChoiceOfOne(r: Rules, box: Box, lasts: seq<Box>, matches: seq<Match>)
    requires |lasts| == |matches| == 1 && InRange(r, box, lasts[0])
    ensures Choose(r, box, lasts, matches) == Chosen(0, Distance(r, box, lasts[0]))
  {
    FirstInRangeIsKept(r, box, lasts, matches, 0);
  }
}
