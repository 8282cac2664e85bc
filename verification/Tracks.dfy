/** Faces, tracks and the counters the tracker keeps for each track.

    A track ages by one hit or one miss per frame.  Besides the fields of the program, the value
    type `Track` carries two history variables, the frame in which the track was created and the
    log of its hits and misses, so that the counters can be compared with what they stand for. */
module Tracks {
  import opened Basics

  /** A detection or face rectangle in pixel coordinates. */
  datatype Box = Box(x: int, y: int, width: int, height: int)

  datatype Face = Face(box: Box, frameId: int)

  /** The configuration values that limit a track. */
  datatype Limits = Limits(maxMissed: nat, maxConsecutive: nat, maxFaces: nat, pruneInterval: nat)

  ghost predicate Sane(lim: Limits) {
    lim.maxFaces >= 1 && lim.pruneInterval >= 1
  }

  datatype Track = Track(
    id: nat,                       // stands for the address of the list node
    faces: seq<Face>,
    totalCount: int,
    missedCount: int,
    nonMissedCount: int,
    consecutiveMissedCount: int,
    born: int,                     // history variable: the frame of the first face
    log: seq<bool>)                // history variable: one entry per later frame, true for a hit

  function Ids(faces: seq<Face>): (ids: seq<int>)
    ensures |ids| == |faces|
    ensures forall k :: 0 <= k < |ids| ==> ids[k] == faces[k].frameId
  {
    seq(|faces|, k requires 0 <= k < |faces| => faces[k].frameId)
  }

  /** The faces are in the order of their frames, one for each frame. */
  ghost predicate InOrder(faces: seq<Face>) {
    forall i, j :: 0 <= i < j < |faces| ==> faces[i].frameId < faces[j].frameId
  }

  // ---------- the operations on one track ----------

  function NewTrack(id: nat, face: Face): Track {
    Track(id, [face], 0, 0, 0, 0, face.frameId, [])
  }

  function Hit(t: Track, face: Face): Track {
    t.(faces := t.faces + [face],
       totalCount := t.totalCount + 1,
       nonMissedCount := t.nonMissedCount + 1,
       consecutiveMissedCount := 0,
       missedCount := if t.missedCount > 0 then t.missedCount - 1 else t.missedCount,
       log := t.log + [true])
  }

  function Miss(t: Track): Track {
    t.(totalCount := t.totalCount + 1,
       consecutiveMissedCount := t.consecutiveMissedCount + 1,
       missedCount := t.missedCount + 1,
       log := t.log + [false])
  }

  predicate IsDead(t: Track, lim: Limits) {
    t.missedCount > lim.maxMissed || t.consecutiveMissedCount > lim.maxConsecutive
  }

  /** Drops the oldest faces until at most maxFaces are left. */
  function Trim(t: Track, lim: Limits): Track {
    if |t.faces| > lim.maxFaces then t.(faces := t.faces[|t.faces| - lim.maxFaces..]) else t
  }

  // ---------- what the counters mean ----------

  /** Misses minus hits over a stretch of frames. */
  ghost function Score(w: seq<bool>): int {
    if w == [] then 0 else Score(w[..|w| - 1]) + (if w[|w| - 1] then -1 else 1)
  }

  ghost function Hits(w: seq<bool>): nat {
    if w == [] then 0 else Hits(w[..|w| - 1]) + (if w[|w| - 1] then 1 else 0)
  }

  /** m is the greatest score of any suffix of the log, the empty suffix included. */
  ghost predicate IsWorstSuffix(log: seq<bool>, m: int) {
    && (forall k :: 0 <= k <= |log| ==> Score(log[k..]) <= m)
    && (exists k :: 0 <= k <= |log| && Score(log[k..]) == m)
  }

  /** n is the length of the run of misses at the end of the log. */
  ghost predicate IsTrailingMisses(log: seq<bool>, n: int) {
    && 0 <= n <= |log|
    && (forall k :: |log| - n <= k < |log| ==> !log[k])
    && (n < |log| ==> log[|log| - n - 1])
  }

  /** Every frame in which the track was seen, oldest first. */
  ghost function SeenIn(born: int, log: seq<bool>): seq<int> {
    if log == [] then [born]
    else SeenIn(born, log[..|log| - 1]) + (if log[|log| - 1] then [born + |log|] else [])
  }

  /** The meaning of a track: its counters summarise its log and its faces are the most recent
      frames in which it was seen. */
  ghost predicate ValidTrack(t: Track) {
    && t.totalCount == |t.log|
    && t.nonMissedCount == Hits(t.log)
    && IsWorstSuffix(t.log, t.missedCount)
    && IsTrailingMisses(t.log, t.consecutiveMissedCount)
    && t.faces != []
    && IsSuffix(Ids(t.faces), SeenIn(t.born, t.log))
  }

  /** The frame up to which the track has been aged. */
  ghost function Clock(t: Track): int {
    t.born + |t.log|
  }

  function FirstId(t: Track): int
    requires t.faces != []
  {
    t.faces[0].frameId
  }

  function LastId(t: Track): int
    requires t.faces != []
  {
    t.faces[|t.faces| - 1].frameId
  }

  // ---------- every operation keeps the meaning ----------

  lemma NewTrackIsValid(id: nat, face: Face)
    ensures ValidTrack(NewTrack(id, face))
  {
    var t := NewTrack(id, face);
    assert Score(t.log[0..]) == 0;
    assert Ids(t.faces) == [face.frameId];
  }

  lemma ScoreOfExtendedSuffix(log: seq<bool>, hit: bool, k: nat)
    requires k <= |log|
    ensures Score((log + [hit])[k..]) == Score(log[k..]) + (if hit then -1 else 1)
  {
    assert (log + [hit])[k..] == log[k..] + [hit];
    assert (log[k..] + [hit])[..|log| - k] == log[k..];
  }

  lemma WorstSuffixStep(log: seq<bool>, m: int, hit: bool)
    requires IsWorstSuffix(log, m)
    ensures IsWorstSuffix(log + [hit], if !hit then m + 1 else if m > 0 then m - 1 else m)
  {
    var log' := log + [hit];
    var m' := if !hit then m + 1 else if m > 0 then m - 1 else m;
    assert log[|log|..] == [] && log'[|log'|..] == [];
    forall k | 0 <= k <= |log'|
      ensures Score(log'[k..]) <= m'
    {
      if k <= |log| { ScoreOfExtendedSuffix(log, hit, k); }
    }
    var k :| 0 <= k <= |log| && Score(log[k..]) == m;
    ScoreOfExtendedSuffix(log, hit, k);
    assert Score(log'[if hit && m == 0 then |log'| else k..]) == m';
  }

  lemma ExtendLog(born: int, log: seq<bool>, hit: bool)
    ensures (log + [hit])[..|log|] == log
    ensures Hits(log + [hit]) == Hits(log) + (if hit then 1 else 0)
    ensures SeenIn(born, log + [hit]) == SeenIn(born, log) + (if hit then [born + |log| + 1] else [])
  {
    assert (log + [hit])[..|log|] == log;
  }

  lemma HitKeepsMeaning(t: Track, face: Face)
    requires ValidTrack(t) && face.frameId == Clock(t) + 1
    ensures ValidTrack(Hit(t, face))
  {
    WorstSuffixStep(t.log, t.missedCount, true);
    ExtendLog(t.born, t.log, true);
    assert Ids(t.faces + [face]) == Ids(t.faces) + [face.frameId];
  }

  lemma MissKeepsMeaning(t: Track)
    requires ValidTrack(t)
    ensures ValidTrack(Miss(t))
  {
    WorstSuffixStep(t.log, t.missedCount, false);
    ExtendLog(t.born, t.log, false);
  }

  lemma DropKeepsSuffix(faces: seq<Face>, k: nat, all: seq<int>)
    requires k <= |faces| && IsSuffix(Ids(faces), all)
    ensures IsSuffix(Ids(faces[k..]), all)
  {
    assert Ids(faces[k..]) == Ids(faces)[k..];
    SuffixIsTransitive(Ids(faces[k..]), Ids(faces), all);
  }

  lemma EndsOfNewest(faces: seq<Face>, k: nat)
    requires k < |faces| && InOrder(faces)
    ensures var r := faces[k..];
      r[|r| - 1] == faces[|faces| - 1] && r[0].frameId >= faces[0].frameId && IsSuffix(r, faces)
  {
  }

  /** t' is t with only the newest faces, as many as n allows. */
  ghost predicate NewestLeft(t: Track, t': Track, n: nat) {
    t' == t.(faces := t'.faces) && IsSuffix(t'.faces, t.faces) && |t'.faces| == Min(|t.faces|, n)
  }

  /** What pruning leaves: exactly the newest faces, as many as allowed, and everything else as it was. */
  lemma TrimLeavesNewest(t: Track, lim: Limits)
    ensures var n := Min(|t.faces|, lim.maxFaces); Trim(t, lim) == t.(faces := t.faces[|t.faces| - n..])
    ensures NewestLeft(t, Trim(t, lim), lim.maxFaces)
  {
    assert t.faces[0..] == t.faces;
  }

  lemma TrimKeepsMeaning(t: Track, lim: Limits)
    requires ValidTrack(t) && Sane(lim)
    ensures ValidTrack(Trim(t, lim))
    ensures |Trim(t, lim).faces| == Min(|t.faces|, lim.maxFaces) && IsSuffix(Trim(t, lim).faces, t.faces)
    ensures LastId(Trim(t, lim)) == LastId(t)
    ensures FirstId(Trim(t, lim)) >= FirstId(t)
  {
    if |t.faces| > lim.maxFaces {
      DropKeepsSuffix(t.faces, |t.faces| - lim.maxFaces, SeenIn(t.born, t.log));
      IdsAreOrdered(t);
      EndsOfNewest(t.faces, |t.faces| - lim.maxFaces);
    }
  }

  // ---------- consequences ----------

  lemma {:induction false} SeenInIsOrdered(born: int, log: seq<bool>)
    ensures var ids := SeenIn(born, log);
            && ids != [] && ids[0] == born
            && (forall i, j :: 0 <= i < j < |ids| ==> ids[i] < ids[j])
            && ids[|ids| - 1] <= born + |log|
  {
    if log != [] { SeenInIsOrdered(born, log[..|log| - 1]); }
  }

  lemma {:induction false} LastSeen(born: int, log: seq<bool>, n: int)
    requires IsTrailingMisses(log, n)
    ensures var ids := SeenIn(born, log); ids != [] && ids[|ids| - 1] == born + |log| - n
  {
    if log != [] && n > 0 {
      LastSeen(born, log[..|log| - 1], n - 1);
    }
  }

  /** The face ids of a track are strictly increasing. */
  lemma IdsAreOrdered(t: Track)
    requires ValidTrack(t)
    ensures InOrder(t.faces)
  {
    SeenInIsOrdered(t.born, t.log);
    var all, ids := SeenIn(t.born, t.log), Ids(t.faces);
    forall i, j | 0 <= i < j < |t.faces|
      ensures t.faces[i].frameId < t.faces[j].frameId
    {
      assert ids[i] == all[|all| - |ids| + i] && ids[j] == all[|all| - |ids| + j];
    }
  }

  /** The last face lies exactly consecutiveMissedCount frames back. */
  lemma LastFaceAndMisses(t: Track)
    requires ValidTrack(t)
    ensures LastId(t) + t.consecutiveMissedCount == Clock(t)
    ensures t.born <= FirstId(t) <= LastId(t)
  {
    LastSeen(t.born, t.log, t.consecutiveMissedCount);
    SeenInIsOrdered(t.born, t.log);
    var all, ids := SeenIn(t.born, t.log), Ids(t.faces);
    assert ids[|ids| - 1] == all[|all| - 1];
    assert ids[0] == all[|all| - |ids|];
  }

  // ---------- whole-run health ----------

  /** A track that is still live was within the limits after every frame of its life. */
  ghost predicate Survived(log: seq<bool>, lim: Limits) {
    forall n :: 0 <= n <= |log| ==> WithinLimits(log[..n], lim)
  }

  ghost predicate WithinLimits(log: seq<bool>, lim: Limits) {
    && (forall m | IsWorstSuffix(log, m) :: m <= lim.maxMissed)
    && (forall n | IsTrailingMisses(log, n) :: n <= lim.maxConsecutive)
  }

  lemma WorstSuffixIsUnique(log: seq<bool>, m: int, m': int)
    requires IsWorstSuffix(log, m) && IsWorstSuffix(log, m')
    ensures m == m'
  {
  }

  lemma TrailingMissesIsUnique(log: seq<bool>, n: int, n': int)
    requires IsTrailingMisses(log, n) && IsTrailingMisses(log, n')
    ensures n == n'
  {
  }

  lemma {:induction false} WorstSuffixExists(log: seq<bool>) returns (m: int)
    ensures IsWorstSuffix(log, m) && m >= 0
  {
    if log == [] {
      assert Score(log[0..]) == 0;
      m := 0;
    } else {
      var front, hit := log[..|log| - 1], log[|log| - 1];
      var m' := WorstSuffixExists(front);
      WorstSuffixStep(front, m', hit);
      assert front + [hit] == log;
      m := if !hit then m' + 1 else if m' > 0 then m' - 1 else m';
    }
  }

  lemma {:induction false} TrailingMissesExists(log: seq<bool>) returns (n: int)
    ensures IsTrailingMisses(log, n)
  {
    if log == [] || log[|log| - 1] {
      n := 0;
    } else {
      var n' := TrailingMissesExists(log[..|log| - 1]);
      n := n' + 1;
    }
  }

  /** A valid track is dead exactly when its log is outside the limits. */
  lemma DeathIsBeingOutsideLimits(t: Track, lim: Limits)
    requires ValidTrack(t)
    ensures IsDead(t, lim) <==> !WithinLimits(t.log, lim)
  {
    forall m | IsWorstSuffix(t.log, m)
      ensures m == t.missedCount
    {
      WorstSuffixIsUnique(t.log, m, t.missedCount);
    }
    forall n | IsTrailingMisses(t.log, n)
      ensures n == t.consecutiveMissedCount
    {
      TrailingMissesIsUnique(t.log, n, t.consecutiveMissedCount);
    }
  }

  lemma SurvivalStep(log: seq<bool>, hit: bool, lim: Limits)
    requires Survived(log, lim) && WithinLimits(log + [hit], lim)
    ensures Survived(log + [hit], lim)
  {
    var log' := log + [hit];
    forall n | 0 <= n <= |log'|
      ensures WithinLimits(log'[..n], lim)
    {
      if n <= |log| { assert log'[..n] == log[..n]; } else { assert log'[..n] == log'; }
    }
  }

  /** In the whole life of a live track no window of frames holds more than maxMissed misses
      beyond its hits, and no run of misses is longer than maxConsecutive. */
  lemma EveryWindowIsHealthy(log: seq<bool>, lim: Limits, a: nat, b: nat)
    requires Survived(log, lim) && a <= b <= |log|
    ensures Score(log[a..b]) <= lim.maxMissed
    ensures (forall k :: a <= k < b ==> !log[k]) ==> b - a <= lim.maxConsecutive
  {
    var past := log[..b];
    assert WithinLimits(past, lim);
    var m := WorstSuffixExists(past);
    var n := TrailingMissesExists(past);
    assert past[a..] == log[a..b];
    assert n < |past| ==> past[|past| - n - 1];
    assert n < b - a ==> log[b - n - 1];
  }

  ghost predicate GapsAtMost(ids: seq<int>, gap: nat) {
    forall j, k :: 0 <= j < |ids| && k == j + 1 < |ids| ==> ids[k] - ids[j] <= gap
  }

  /** Between two faces of a track that survived lie at most maxConsecutive frames. */
  lemma {:induction false} SeenGaps(born: int, log: seq<bool>, lim: Limits)
    requires Survived(log, lim)
    ensures GapsAtMost(SeenIn(born, log), lim.maxConsecutive + 1)
  {
    if log != [] {
      var front := log[..|log| - 1];
      assert forall n :: 0 <= n <= |front| ==> front[..n] == log[..n];
      SeenGaps(born, front, lim);
      var n := TrailingMissesExists(front);
      LastSeen(born, front, n);
      assert WithinLimits(front[..|front|], lim) && front[..|front|] == front;
    }
  }

  lemma {:induction false} SpanOfBoundedGaps(ids: seq<int>, gap: nat)
    requires ids != [] && GapsAtMost(ids, gap)
    ensures ids[|ids| - 1] - ids[0] <= (|ids| - 1) * gap
  {
    if |ids| > 1 {
      var front := ids[..|ids| - 1];
      SpanOfBoundedGaps(front, gap);
      OneGapMore(|front|, gap);
    }
  }

  /** The faces held are neighbours among the frames seen, so their gaps are bounded too. */
  lemma GapsOfSuffix(ids: seq<int>, all: seq<int>, gap: nat)
    requires IsSuffix(ids, all) && GapsAtMost(all, gap)
    ensures GapsAtMost(ids, gap)
  {
    var d := |all| - |ids|;
    forall j, k | 0 <= j < |ids| && k == j + 1 < |ids| ensures ids[k] - ids[j] <= gap {
      assert ids[k] == all[d + k] && ids[j] == all[d + j];
    }
  }

  lemma OneGapMore(n: int, gap: int)
    ensures n * gap == (n - 1) * gap + gap
  {
  }

  /** From its first face to the present a live track spans at most (maxConsecutive + 1) frames
      for each face it holds. */
  lemma SpanOfTrack(t: Track, lim: Limits)
    requires ValidTrack(t) && Survived(t.log, lim)
    ensures Clock(t) - FirstId(t) + 1 <= |t.faces| * (lim.maxConsecutive + 1)
  {
    var ids, gap := Ids(t.faces), lim.maxConsecutive + 1;
    SeenGaps(t.born, t.log, lim);
    GapsOfSuffix(ids, SeenIn(t.born, t.log), gap);
    SpanOfBoundedGaps(ids, gap);
    LastFaceAndMisses(t);
    WithinLimitsNow(t, lim);
    OneGapMore(|ids|, gap);
  }

  lemma WithinLimitsNow(t: Track, lim: Limits)
    requires ValidTrack(t) && Survived(t.log, lim)
    ensures t.missedCount <= lim.maxMissed && t.consecutiveMissedCount <= lim.maxConsecutive
  {
    assert WithinLimits(t.log[..|t.log|], lim) && t.log[..|t.log|] == t.log;
  }
}
