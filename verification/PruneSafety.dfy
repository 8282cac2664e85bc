/** The pruner never removes a frame that a track or a saver still needs, exactly as long as fewer
    than the minimum list size of frames arrive during a pass that found no track. */
module PruneSafety {
  import opened Basics
  import opened Tracks
  import opened PruneProtocol
  import opened PruneInvariants

  // ---------- the timing assumption ----------

  /** Fewer than `bound` frames were appended since a pass that found no track read so. */
  predicate Timely(bound: nat, s: State) {
    s.pruner.Erasing? && s.pruner.keepFrom == INT_MAX ==> s.frame - s.pruner.readAt < bound
  }

  predicate TimelyRun(p: Params, bound: nat, s: State, acts: seq<Action>)
    requires SaneParams(p) && IsRun(p, s, acts)
    decreases |acts|
  {
    Timely(bound, s) && (acts == [] || TimelyRun(p, bound, Apply(p, s, acts[0]), acts[1..]))
  }

  // ---------- safety ----------

  /** No track needs a frame before the history begins. */
  ghost predicate Protected(s: State) {
    && (s.live != [] || s.saving != [] ==> s.history != [])
    && (s.history != [] ==> AllFrom(s, s.history[0]))
  }

  /** A walking saver stands on a frame of its track's span, not beyond the frame it looks for. */
  ghost predicate SaverOk(t: Track, ph: SaverPhase) {
    match ph
    case Created => true
    case Choosing => true
    case Crashed => false
    case Walking(targets, cursor, next) =>
      && t.faces != []
      && next <= |targets| && Ascending(targets)
      && (forall k :: 0 <= k < |targets| ==> FirstId(t) <= targets[k] <= LastId(t))
      && (next < |targets| ==> cursor.At? && FirstId(t) <= cursor.frame <= targets[next])
  }

  ghost predicate PhasesOk(saving: seq<Track>, savers: map<nat, SaverPhase>) {
    forall i :: 0 <= i < |saving| && saving[i].id in savers ==> SaverOk(saving[i], savers[saving[i].id])
  }

  ghost predicate SaversOk(s: State) {
    PhasesOk(s.saving, s.savers)
  }

  /** Every frame from the first to the last face of a track is in the history. */
  ghost predicate SpanKept(s: State, t: Track) {
    t.faces != [] && forall id :: FirstId(t) <= id <= LastId(t) ==> id in s.history
  }

  ghost predicate FramesKept(s: State) {
    && (forall i :: 0 <= i < |s.live| ==> SpanKept(s, s.live[i]))
    && (forall i :: 0 <= i < |s.saving| ==> SpanKept(s, s.saving[i]))
  }

  lemma InHistory(s: State, id: int)
    requires HistoryOk(s) && s.history != [] && s.history[0] <= id <= s.frame
    ensures id in s.history
  {
    assert s.history[id - s.history[0]] == id;
  }

  lemma ProtectionKeepsSpan(s: State, t: Track)
    requires HistoryOk(s) && ValidTrack(t) && Clock(t) <= s.frame
    requires s.history != [] && s.history[0] <= MinRequiredFrame(t)
    ensures SpanKept(s, t)
  {
    LastFaceAndMisses(t);
    forall id | FirstId(t) <= id <= LastId(t) ensures id in s.history {
      InHistory(s, id);
    }
  }

  lemma ProtectionKeepsFrames(p: Params, s: State)
    requires SaneParams(p) && Inv(p, s) && Protected(s)
    ensures FramesKept(s)
  {
    forall i | 0 <= i < |s.live| ensures SpanKept(s, s.live[i]) {
      assert LiveOk(p, s, i);
      ProtectionKeepsSpan(s, s.live[i]);
    }
    forall i | 0 <= i < |s.saving| ensures SpanKept(s, s.saving[i]) {
      ProtectionKeepsSpan(s, s.saving[i]);
    }
  }

  /** A track is protected when the first frame of the history is not after any it needs. */
  lemma AllFromProtects(p: Params, s: State)
    requires SaneParams(p) && Inv(p, s)
    requires s.frame > 0 ==> AllFrom(s, s.history[0])
    ensures Protected(s)
  {
    FrontIsKnown(p, s);
    if s.live != [] { assert 1 <= MinRequiredFrame(s.live[0]) <= s.frame; }
    if s.saving != [] { assert 1 <= MinRequiredFrame(s.saving[0]) <= s.frame; }
  }

  lemma ProtectedStep(p: Params, bound: nat, s: State, a: Action)
    requires SaneParams(p) && Inv(p, s) && Enabled(p, s, a)
    requires Protected(s) && Timely(bound, s) && bound <= p.minListSize
    ensures Protected(Apply(p, s, a))
  {
    var s' := Apply(p, s, a);
    InvStep(p, s, a);
    FrontIsKnown(p, s);
    if a == Erase {
      AllFromProtects(p, s');
    } else if s.history != [] {
      assert AllFrom(s, s.history[0]);
      NeedsOnlyMoveUp(p, s, a, s.history[0]);
      AllFromProtects(p, s');
    } else {
      AllFromProtects(p, s');
    }
  }

  lemma LocateFinds(history: seq<int>, id: int, k: nat)
    requires k < |history| && history[k] == id && forall i :: 0 <= i < k ==> history[i] < id
    ensures Locate(history, id) == At(id)
  {
    if k > 0 { LocateFinds(history[1..], id, k - 1); }
  }

  lemma LocateFirst(s: State, t: Track)
    requires HistoryOk(s) && ValidTrack(t) && SpanKept(s, t)
    ensures Locate(s.history, FirstId(t)) == At(FirstId(t)) && FirstId(t) <= LastId(t)
  {
    LastFaceAndMisses(t);
    assert FirstId(t) in s.history;
    LocateFinds(s.history, FirstId(t), FirstId(t) - s.history[0]);
  }

  lemma TargetsOk(t: Track, smooth: bool)
    requires ValidTrack(t)
    ensures var targets := Targets(t, smooth);
      && Ascending(targets) && targets != [] && targets[0] == FirstId(t)
      && forall k :: 0 <= k < |targets| ==> FirstId(t) <= targets[k] <= LastId(t)
  {
    IdsAreOrdered(t);
    LastFaceAndMisses(t);
  }

  lemma FindSaverOk(p: Params, s: State, id: nat, smooth: bool)
    requires SaneParams(p) && Inv(p, s) && FramesKept(s) && Enabled(p, s, SaverFind(id, smooth))
    ensures var k := Find(s.saving, id);
            k < |s.saving| && SaverOk(s.saving[k], Apply(p, s, SaverFind(id, smooth)).savers[id])
  {
    FindKnown(s.saving, id);
    var t := s.saving[Find(s.saving, id)];
    assert SavedOk(s.frame, t);
    LocateFirst(s, t);
    TargetsOk(t, smooth);
  }

  lemma AdvanceSaverOk(s: State, t: Track, ph: SaverPhase)
    requires HistoryOk(s) && SpanKept(s, t) && SaverOk(t, ph) && ph.Walking? && ph.next < |ph.targets|
    ensures SaverOk(t, Advance(s.history, ph))
  {
    assert ph.cursor.frame in s.history;
    var next := if ph.cursor.frame < ph.targets[ph.next] then ph.next else ph.next + 1;
    if next < |ph.targets| {
      assert ph.cursor.frame + 1 <= ph.targets[next] <= LastId(t);
      assert ph.cursor.frame + 1 in s.history;
    }
  }

  /** One saver changes its phase, and perhaps its track. */
  lemma PhaseChanges(saving: seq<Track>, savers: map<nat, SaverPhase>, k: nat, t: Track, ph: SaverPhase)
    requires PhasesOk(saving, savers) && DistinctIds(saving)
    requires k < |saving| && t.id == saving[k].id && SaverOk(t, ph)
    ensures PhasesOk(saving[k := t], savers[t.id := ph])
  {
    var saving', savers' := saving[k := t], savers[t.id := ph];
    forall i | 0 <= i < |saving'| && saving'[i].id in savers' ensures SaverOk(saving'[i], savers'[saving'[i].id]) {
      if i != k { assert saving[i].id != saving[k].id && SaverOk(saving[i], savers[saving[i].id]); }
    }
  }

  /** A saver is done with its track. */
  lemma PhaseEnds(saving: seq<Track>, savers: map<nat, SaverPhase>, k: nat)
    requires PhasesOk(saving, savers) && k < |saving|
    ensures PhasesOk(Without(saving, k), savers - {saving[k].id})
  {
    var saving', savers' := Without(saving, k), savers - {saving[k].id};
    forall i | 0 <= i < |saving'| && saving'[i].id in savers' ensures SaverOk(saving'[i], savers'[saving'[i].id]) {
      var j := if i < k then i else i + 1;
      assert saving'[i] == saving[j] && SaverOk(saving[j], savers[saving[j].id]);
    }
  }

  /** A saver starts with a track that was not being saved. */
  lemma PhaseStarts(saving: seq<Track>, savers: map<nat, SaverPhase>, t: Track)
    requires PhasesOk(saving, savers) && t.id !in IdsOf(saving)
    ensures PhasesOk(saving + [t], savers[t.id := Created])
  {
    var saving', savers' := saving + [t], savers[t.id := Created];
    forall i | 0 <= i < |saving'| && saving'[i].id in savers' ensures SaverOk(saving'[i], savers'[saving'[i].id]) {
      if i < |saving| { assert saving[i].id in IdsOf(saving) && SaverOk(saving[i], savers[saving[i].id]); }
    }
  }

  lemma SaverTrimStep(p: Params, s: State, id: nat)
    requires SaneParams(p) && LifeOk(s) && SaversOk(s) && Enabled(p, s, SaverTrim(id))
    ensures SaversOk(Apply(p, s, SaverTrim(id)))
  {
    FindKnown(s.saving, id);
    var k := Find(s.saving, id);
    PhaseChanges(s.saving, s.savers, k, Trim(s.saving[k], p.limits), Choosing);
  }

  lemma SaverFindStep(p: Params, s: State, id: nat, smooth: bool)
    requires SaneParams(p) && Inv(p, s) && SaversOk(s) && FramesKept(s) && Enabled(p, s, SaverFind(id, smooth))
    ensures SaversOk(Apply(p, s, SaverFind(id, smooth)))
  {
    FindSaverOk(p, s, id, smooth);
    var k := Find(s.saving, id);
    PhaseChanges(s.saving, s.savers, k, s.saving[k], Apply(p, s, SaverFind(id, smooth)).savers[id]);
    assert s.saving[k := s.saving[k]] == s.saving;
  }

  lemma SaverAdvanceStep(p: Params, s: State, id: nat)
    requires SaneParams(p) && HistoryOk(s) && LifeOk(s) && SaversOk(s) && FramesKept(s)
    requires Enabled(p, s, SaverAdvance(id))
    ensures SaversOk(Apply(p, s, SaverAdvance(id)))
  {
    FindKnown(s.saving, id);
    var k := Find(s.saving, id);
    AdvanceSaverOk(s, s.saving[k], s.savers[id]);
    PhaseChanges(s.saving, s.savers, k, s.saving[k], Advance(s.history, s.savers[id]));
    assert s.saving[k := s.saving[k]] == s.saving;
  }

  lemma SaverStopStep(p: Params, s: State, id: nat)
    requires SaneParams(p) && LifeOk(s) && SaversOk(s) && Enabled(p, s, SaverStop(id))
    ensures SaversOk(Apply(p, s, SaverStop(id)))
  {
    FindKnown(s.saving, id);
    var k := Find(s.saving, id);
    PhaseChanges(s.saving, s.savers, k, s.saving[k], Choosing);
    assert s.saving[k := s.saving[k]] == s.saving;
  }

  lemma SaverFinishStep(p: Params, s: State, id: nat)
    requires SaneParams(p) && LifeOk(s) && SaversOk(s) && Enabled(p, s, SaverFinish(id))
    ensures SaversOk(Apply(p, s, SaverFinish(id)))
  {
    FindKnown(s.saving, id);
    PhaseEnds(s.saving, s.savers, Find(s.saving, id));
  }

  lemma BuryStep(p: Params, s: State)
    requires SaneParams(p) && LifeOk(s) && SaversOk(s) && Enabled(p, s, CheckTrack)
    ensures SaversOk(Apply(p, s, CheckTrack))
  {
    var t := s.live[s.main.next];
    assert t.id in IdsOf(s.live);
    PhaseStarts(s.saving, s.savers, t);
  }

  lemma SaversStep(p: Params, s: State, a: Action)
    requires SaneParams(p) && Inv(p, s) && Enabled(p, s, a) && Protected(s) && SaversOk(s)
    ensures SaversOk(Apply(p, s, a))
  {
    ProtectionKeepsFrames(p, s);
    match a
    case SaverTrim(id) => SaverTrimStep(p, s, id);
    case SaverFind(id, smooth) => SaverFindStep(p, s, id, smooth);
    case SaverAdvance(id) => SaverAdvanceStep(p, s, id);
    case SaverStop(id) => SaverStopStep(p, s, id);
    case SaverFinish(id) => SaverFinishStep(p, s, id);
    case CheckTrack => BuryStep(p, s);
    case _ =>
  }

  lemma {:induction false} SafeThroughout(p: Params, bound: nat, s: State, acts: seq<Action>)
    requires SaneParams(p) && bound <= p.minListSize
    requires Inv(p, s) && Protected(s) && SaversOk(s)
    requires IsRun(p, s, acts) && TimelyRun(p, bound, s, acts)
    ensures var e := After(p, s, acts); Inv(p, e) && Protected(e) && SaversOk(e)
    decreases |acts|
  {
    if acts != [] {
      InvStep(p, s, acts[0]);
      ProtectedStep(p, bound, s, acts[0]);
      SaversStep(p, s, acts[0]);
      SafeThroughout(p, bound, Apply(p, s, acts[0]), acts[1..]);
    }
  }

  /** Main safety theorem.  After any interleaving of main, the pruner and any number of savers in
      which fewer than minListSize frames arrive during a pass that found no track, every frame
      that a track spans is in the history, no saver has crashed, the history is an unbroken
      interval, and it is no shorter than minListSize once pruning has begun. */
  lemma PruningIsSafe(p: Params, acts: seq<Action>)
    requires SaneParams(p) && IsRun(p, Init(), acts) && TimelyRun(p, p.minListSize, Init(), acts)
    ensures var s := After(p, Init(), acts);
      && FramesKept(s)
      && (forall id :: id in s.savers ==> !s.savers[id].Crashed?)
      && HistoryOk(s)
      && (!s.pruner.Waiting? ==> |s.history| >= p.minListSize)
  {
    InvHoldsInitially(p);
    SafeThroughout(p, p.minListSize, Init(), acts);
    var s := After(p, Init(), acts);
    ProtectionKeepsFrames(p, s);
    forall id | id in s.savers ensures !s.savers[id].Crashed? {
      FindKnown(s.saving, id);
    }
  }

  // ---------- health and memory over whole runs ----------

  /** Between frames every live track has a face, its last face lies consecutiveMissedCount frames
      back, and no window of its life breaks a limit. */
  lemma LiveTracksAreHealthy(p: Params, acts: seq<Action>, i: nat, a: nat, b: nat)
    requires SaneParams(p) && IsRun(p, Init(), acts)
    requires var s := After(p, Init(), acts);
             s.main.Idle? && i < |s.live| && a <= b <= |s.live[i].log|
    ensures var s := After(p, Init(), acts); var t := s.live[i];
      && t.faces != [] && LastId(t) + t.consecutiveMissedCount == s.frame
      && IsWorstSuffix(t.log, t.missedCount) && t.missedCount <= p.limits.maxMissed
      && IsTrailingMisses(t.log, t.consecutiveMissedCount) && t.consecutiveMissedCount <= p.limits.maxConsecutive
      && t.born + |t.log| == s.frame
      && Score(t.log[a..b]) <= p.limits.maxMissed
      && ((forall k :: a <= k < b ==> !t.log[k]) ==> b - a <= p.limits.maxConsecutive)
      && InOrder(t.faces) && |t.faces| <= p.limits.maxFaces + s.frame % p.limits.pruneInterval
  {
    InvHoldsInitially(p);
    InvHoldsThroughout(p, Init(), acts);
    var s := After(p, Init(), acts);
    var t := s.live[i];
    assert LiveOk(p, s, i);
    LastFaceAndMisses(t);
    IdsAreOrdered(t);
    EveryWindowIsHealthy(t.log, p.limits, a, b);
    WithinLimitsNow(t, p.limits);
  }

  /** A pass without interruption: size, minimum, a number of erasures, and the end of the loop. */
  predicate IsQuietPass(acts: seq<Action>) {
    && |acts| >= 3 && acts[0] == ReadSize && acts[1] == ReadMinimum && acts[|acts| - 1] == EndPass
    && forall k :: 2 <= k < |acts| - 1 ==> acts[k] == Erase
  }

  function MemoryBound(p: Params): int {
    var perTrack := (p.limits.maxFaces + p.limits.pruneInterval) * (p.limits.maxConsecutive + 1);
    if perTrack > p.minListSize then perTrack else p.minListSize
  }

  lemma {:induction false} ErasuresReachBound(p: Params, s: State, acts: seq<Action>)
    requires SaneParams(p) && Inv(p, s) && s.main.Idle? && s.saving == []
    requires s.pruner.Erasing? && s.listSize == |s.history|
    requires var m := MinFrameToKeep(s.live, []); s.pruner.keepFrom == KeepFrom(m)
    requires acts != [] && acts[|acts| - 1] == EndPass && forall k :: 0 <= k < |acts| - 1 ==> acts[k] == Erase
    requires IsRun(p, s, acts)
    ensures |After(p, s, acts).history| <= MemoryBound(p)
    decreases |acts|
  {
    InvStep(p, s, acts[0]);
    if |acts| == 1 {
      assert acts[1..] == [] && After(p, s, acts) == Apply(p, s, EndPass);
      EndOfPassIsBounded(p, s);
    } else {
      ErasuresReachBound(p, Apply(p, s, acts[0]), acts[1..]);
    }
  }

  lemma EndOfPassIsBounded(p: Params, s: State)
    requires SaneParams(p) && Inv(p, s) && s.main.Idle? && s.saving == []
    requires s.pruner.Erasing? && s.listSize == |s.history| && !MayErase(p, s)
    requires var m := MinFrameToKeep(s.live, []); s.pruner.keepFrom == KeepFrom(m)
    ensures |s.history| <= MemoryBound(p)
  {
    if s.listSize > p.minListSize {
      ReadMinimumIsExact(p, s);
      var i :| 0 <= i < |s.live| && MinRequiredFrame(s.live[i]) == s.pruner.keepFrom;
      var t, gap := s.live[i], p.limits.maxConsecutive + 1;
      assert LiveOk(p, s, i);
      SpanOfTrack(t, p.limits);
      MulMonotone(|t.faces|, p.limits.maxFaces + p.limits.pruneInterval, gap);
    }
  }

  lemma MulMonotone(a: int, b: int, c: int)
    requires a <= b && c >= 0
    ensures a * c <= b * c
  {
    assert b * c - a * c == (b - a) * c;
  }

  /** History memory bound: a pass run between frames, with nothing being saved and no frame added
      meanwhile, leaves at most max(minListSize, (maxFaces + pruneInterval) * (maxConsecutive + 1))
      frames. */
  lemma QuietPassBoundsHistory(p: Params, before: seq<Action>, pass: seq<Action>)
    requires SaneParams(p) && IsRun(p, Init(), before) && IsQuietPass(pass)
    requires var s := After(p, Init(), before); s.main.Idle? && s.saving == [] && IsRun(p, s, pass)
    ensures |After(p, After(p, Init(), before), pass).history| <= MemoryBound(p)
  {
    InvHoldsInitially(p);
    InvHoldsThroughout(p, Init(), before);
    var s := After(p, Init(), before);
    var s1 := Apply(p, s, ReadSize);
    assert pass[1..][0] == ReadMinimum && pass[1..][1..] == pass[2..];
    assert IsRun(p, s1, pass[1..]);
    var s2 := Apply(p, s1, ReadMinimum);
    InvStep(p, s, ReadSize);
    InvStep(p, s1, ReadMinimum);
    ErasuresReachBound(p, s2, pass[2..]);
    assert After(p, s1, pass[1..]) == After(p, s2, pass[2..]);
  }
}
