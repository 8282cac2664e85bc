/** The two-cursor walk with which a saver pairs the faces of a track with the frames of the
    history. */
module SaverWalk {
  import opened Tracks
  import PruneProtocol
  import PruneInvariants
  import PruneSafety
  import FaceSeries

  /** One picture taken during a walk: its number in the series, the frame it was cut from, the face
      it shows, and whether it could be written. */
  datatype Shot = Shot(number: int, frame: int, face: Face, written: bool)

  ghost predicate Unbroken(history: seq<int>) {
    forall k :: 0 <= k < |history| ==> history[k] == history[0] + k
  }

  /** What the pruning protocol guarantees: the history covers the span of the faces. */
  ghost predicate Covers(history: seq<int>, faces: seq<Face>) {
    && history != [] && faces != []
    && history[0] <= faces[0].frameId
    && faces[|faces| - 1].frameId <= history[|history| - 1]
  }

  /** The shots are of the first faces, in order, once each: every face is cut from the frame of its own id, and
      numbered by its distance from the first. */
  ghost predicate ShowFaces(shots: seq<Shot>, faces: seq<Face>, writes: seq<bool>)
    requires |faces| <= |writes|
  {
    && |shots| <= |faces|
    && forall k :: 0 <= k < |shots| ==>
         && shots[k].face == faces[k] && shots[k].frame == faces[k].frameId
         && shots[k].number == faces[k].frameId - faces[0].frameId && shots[k].written == writes[k]
  }

  lemma OneMoreShown(shots: seq<Shot>, faces: seq<Face>, writes: seq<bool>, shot: Shot)
    requires |shots| < |faces| <= |writes| && ShowFaces(shots, faces, writes)
    requires shot == Shot(faces[|shots|].frameId - faces[0].frameId, faces[|shots|].frameId, faces[|shots|],
                          writes[|shots|])
    ensures ShowFaces(shots + [shot], faces, writes)
  {
  }

  /** The pictures among the first n that could be written. */
  ghost function WrittenBefore(writes: seq<bool>, n: nat): (w: set<nat>)
    ensures forall k: nat :: k in w <==> k < n && k < |writes| && writes[k]
  {
    set k: nat | k < n && k < |writes| && writes[k]
  }

  lemma OneMoreWritten(writes: seq<bool>, n: nat)
    requires n < |writes|
    ensures |WrittenBefore(writes, n + 1)| == |WrittenBefore(writes, n)| + if writes[n] then 1 else 0
  {
    assert WrittenBefore(writes, n + 1) == WrittenBefore(writes, n) + if writes[n] then {n} else {};
  }

  /** At none of the first n pictures was the wanted number reached. */
  ghost predicate NotReached(writes: seq<bool>, n: nat, wanted: int)
    requires n <= |writes|
  {
    forall m :: 0 < m <= n && writes[m - 1] ==> |WrittenBefore(writes, m)| != wanted
  }

  lemma SomeWritten(writes: seq<bool>, n: nat)
    requires n <= |writes|
    ensures |WrittenBefore(writes, n)| > 0 <==> exists k :: 0 <= k < n && writes[k]
  {
    if k: nat :| k < n && writes[k] {
      assert k in WrittenBefore(writes, n);
    } else {
      assert WrittenBefore(writes, n) == {};
    }
  }

  /** The scan for the first frame to use, under the history lock. */
  method FindFirst(history: seq<int>, faces: seq<Face>) returns (h: nat)
    requires Unbroken(history) && Covers(history, faces) && InOrder(faces)
    ensures h < |history| && history[h] == faces[0].frameId
  {
    h := 0;
    while history[h] < faces[0].frameId
      invariant h < |history| && history[h] <= faces[0].frameId
      decreases |history| - h
    {
      h := h + 1;
    }
  }

  /** saveThreadImages: every face in order, exactly once, with the frame of its id, until the
      wanted number of images has been written; writes tells which images can be written. */
  method SaveImages(history: seq<int>, faces: seq<Face>, maxImages: int, writes: seq<bool>)
    returns (shots: seq<Shot>, ok: bool)
    requires faces != [] ==> Unbroken(history) && Covers(history, faces) && InOrder(faces)
    requires |writes| >= |faces|
    ensures |shots| <= |faces|
    ensures forall k :: 0 <= k < |shots| ==>
      && shots[k].face == faces[k] && shots[k].frame == faces[k].frameId
      && shots[k].number == faces[k].frameId - faces[0].frameId && shots[k].written == writes[k]
    ensures ok <==> exists k :: 0 <= k < |shots| && writes[k]
    ensures |shots| < |faces| ==> shots != [] && writes[|shots| - 1] && |WrittenBefore(writes, |shots|)| == maxImages
    ensures shots != [] ==> NotReached(writes, |shots| - 1, maxImages)
  {
    if |faces| == 0 { return [], false; }
    var h := FindFirst(history, faces);
    shots := [];
    var f, number, saved := 0, 0, 0;
    while f < |faces|
      invariant 0 <= f <= |faces| && |shots| == f && ShowFaces(shots, faces, writes)
      invariant number == h - (faces[0].frameId - history[0])
      invariant f < |faces| ==> h < |history| && faces[0].frameId <= history[h] <= faces[f].frameId
      invariant saved == |WrittenBefore(writes, f)|
      invariant NotReached(writes, f, maxImages)
      decreases if f < |faces| then faces[|faces| - 1].frameId - history[h] + 1 else 0
    {
      if history[h] < faces[f].frameId {
        // the face is missing in this frame
      } else {
        assert history[h] == faces[f].frameId;
        OneMoreShown(shots, faces, writes, Shot(number, history[h], faces[f], writes[f]));
        shots := shots + [Shot(number, history[h], faces[f], writes[f])];
        OneMoreWritten(writes, f);
        f := f + 1;
        if writes[f - 1] {
          saved := saved + 1;
          if saved == maxImages { return shots, true; }
        }
      }
      h, number := h + 1, number + 1;
    }
    SomeWritten(writes, f);
    ok := saved > 0;
  }

  /** saveThreadVideo: the same walk, given up at the first frame that cannot be written. */
  method SaveVideo(history: seq<int>, faces: seq<Face>, minFrames: int, writes: seq<bool>)
    returns (shots: seq<Shot>, ok: bool)
    requires faces != [] ==> Unbroken(history) && Covers(history, faces) && InOrder(faces)
    requires |writes| >= |faces|
    ensures |shots| <= |faces|
    ensures forall k :: 0 <= k < |shots| ==>
      && shots[k].face == faces[k] && shots[k].frame == faces[k].frameId
      && shots[k].number == faces[k].frameId - faces[0].frameId && shots[k].written == writes[k]
    ensures ok <==> |faces| >= minFrames && faces != [] && forall k :: 0 <= k < |faces| ==> writes[k]
    ensures ok ==> |shots| == |faces|
    ensures !ok && |faces| >= minFrames && faces != [] ==>
      shots != [] && !writes[|shots| - 1] && forall k :: 0 <= k < |shots| - 1 ==> writes[k]
  {
    if |faces| < minFrames { return [], false; }
    if |faces| == 0 { return [], false; }
    var h := FindFirst(history, faces);
    ghost var h0 := h;
    shots := [];
    var f := 0;
    while f < |faces|
      invariant 0 <= f <= |faces| && |shots| == f && ShowFaces(shots, faces, writes)
      invariant f < |faces| ==> h0 <= h < |history| && history[h] <= faces[f].frameId
      invariant forall k :: 0 <= k < f ==> writes[k]
      decreases if f < |faces| then faces[|faces| - 1].frameId - history[h] + 1 else 0
    {
      if history[h] < faces[f].frameId {
        // the face is missing in this frame
      } else {
        assert history[h] == faces[f].frameId;
        OneMoreShown(shots, faces, writes,
                     Shot(faces[f].frameId - faces[0].frameId, history[h], faces[f], writes[f]));
        shots := shots + [Shot(faces[f].frameId - faces[0].frameId, history[h], faces[f], writes[f])];
        if !writes[f] { return shots, false; }
        f := f + 1;
      }
      h := h + 1;
    }
    ok := true;
  }

  /** On a list without gaps the numbers of the shots are 0, 1, 2, ...: every frame from the first
      face to the last is visited. */
  lemma GaplessWalkVisitsEveryFrame(faces: seq<Face>, writes: seq<bool>, shots: seq<Shot>)
    requires faces != [] && |faces| <= |writes| && InOrder(faces)
    requires faces[|faces| - 1].frameId - faces[0].frameId + 1 == |faces|
    requires |shots| == |faces| && ShowFaces(shots, faces, writes)
    ensures forall k :: 0 <= k < |shots| ==> shots[k].number == k && shots[k].frame == faces[0].frameId + k
  {
    forall k | 0 <= k < |faces| ensures faces[k].frameId == faces[0].frameId + k {
      FaceSeries.AtLeast(faces, 0, k);
      FaceSeries.AtLeast(faces, k, |faces| - 1);
    }
  }

  /** In every state that the pruning theorem allows, a saver's walk can be made. */
  lemma KeptFramesCoverFaces(s: PruneProtocol.State, t: Track)
    requires PruneInvariants.HistoryOk(s) && PruneSafety.SpanKept(s, t) && ValidTrack(t)
    ensures Unbroken(s.history) && Covers(s.history, t.faces) && InOrder(t.faces)
  {
    IdsAreOrdered(t);
    LastFaceAndMisses(t);
    assert FirstId(t) in s.history && LastId(t) in s.history;
  }

  /** The frames a saver walks over for the smoothed video are the frames of the gap-filled copy. */
  lemma SmoothTargetsAreFilled(t: Track)
    requires ValidTrack(t)
    ensures Ids(FaceSeries.Filled(t.faces)) == PruneProtocol.Targets(t, true)
  {
    IdsAreOrdered(t);
    LastFaceAndMisses(t);
    FillingMeetsRange(t.faces, t);
  }

  lemma FillingMeetsRange(faces: seq<Face>, t: Track)
    requires faces == t.faces && faces != [] && InOrder(faces) && FirstId(t) <= LastId(t)
    ensures Ids(FaceSeries.Filled(faces)) == PruneProtocol.Targets(t, true)
  {
    FaceSeries.FillingIds(faces, |faces|);
    RangeIds(FaceSeries.Filled(faces), FirstId(t), LastId(t) - FirstId(t) + 1);
  }

  lemma RangeIds(r: seq<Face>, first: int, n: nat)
    requires |r| == n && forall k :: 0 <= k < n ==> r[k].frameId == first + k
    ensures Ids(r) == seq(n, k => first + k)
  {
  }
}
