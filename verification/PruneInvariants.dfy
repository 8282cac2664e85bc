/** What every step of main, the pruner and the savers keeps, whatever their interleaving. */
module PruneInvariants {
  import opened Tracks
  import opened PruneProtocol

  // ---------- history ----------

  /** The history is an unbroken interval of frame ids that ends with the newest frame. */
  ghost predicate HistoryOk(s: State) {
    && 0 <= s.frame < INT_MAX && |s.history| <= s.frame
    && (s.frame > 0 ==> s.history != [])
    && forall k :: 0 <= k < |s.history| ==> s.history[k] == s.frame - |s.history| + 1 + k
  }

  ghost predicate SizesOk(p: Params, s: State) {
    !s.pruner.Waiting? ==> p.minListSize <= |s.history| && s.listSize <= |s.history| && p.minListSize < s.frame
  }

  // ---------- live tracks ----------

  /** Has main still to age track i in this frame? */
  ghost predicate Behind(s: State, i: nat) {
    s.main.Aging? && s.main.next <= i
  }

  /** Was track i aged but not yet checked against the limits? */
  ghost predicate Unchecked(s: State, i: nat) {
    (s.main.Aging? && i < s.main.next) || (s.main.Burying? && s.main.next <= i)
  }

  /** The most faces a live track can hold at this point of the frame. */
  ghost function Room(lim: Limits, frame: int, idle: bool, behind: bool): int
    requires Sane(lim)
  {
    lim.maxFaces + (if behind then (frame - 1) % lim.pruneInterval
                    else if idle then frame % lim.pruneInterval
                    else (frame - 1) % lim.pruneInterval + 1)
  }

  ghost predicate SurvivedUntil(t: Track, unchecked: bool, lim: Limits) {
    if unchecked then t.log != [] && Survived(t.log[..|t.log| - 1], lim) else Survived(t.log, lim)
  }

  ghost predicate TrackOk(lim: Limits, frame: int, idle: bool, t: Track, behind: bool, unchecked: bool)
    requires Sane(lim)
  {
    && ValidTrack(t) && t.born >= 1
    && Clock(t) == (if behind then frame - 1 else frame)
    && SurvivedUntil(t, unchecked, lim)
    && |t.faces| <= Room(lim, frame, idle, behind)
  }

  ghost predicate LiveOk(p: Params, s: State, i: nat)
    requires SaneParams(p) && i < |s.live|
  {
    TrackOk(p.limits, s.frame, s.main.Idle?, s.live[i], Behind(s, i), Unchecked(s, i))
  }

  ghost predicate TracksOk(p: Params, s: State)
    requires SaneParams(p)
  {
    && (s.main.Aging? ==> s.main.next <= |s.live|)
    && (s.main.Burying? ==> s.main.next <= |s.live|)
    && (s.main.Trimming? ==> s.frame % p.limits.pruneInterval == 0)
    && (!s.main.Idle? ==> s.frame > 0)
    && (forall i :: 0 <= i < |s.live| ==> LiveOk(p, s, i))
    && AllSavedOk(s.frame, s.saving)
  }

  ghost predicate SavedOk(frame: int, t: Track) {
    ValidTrack(t) && t.born >= 1 && Clock(t) <= frame
  }

  lemma StepLength(n: int, d: int)
    requires n >= 1 && d >= 1
    ensures (n - 1) % d < d
    ensures n % d != 0 ==> n % d == (n - 1) % d + 1
    ensures n % d == 0 ==> (n - 1) % d == d - 1
  {
    var q, m := (n - 1) / d, (n - 1) % d;
    assert n == q * d + (m + 1);
    if m + 1 < d {
      DivModUnique(n, d, q, m + 1);
    } else {
      assert n == (q + 1) * d by { assert (q + 1) * d == q * d + d; }
      DivModUnique(n, d, q + 1, 0);
    }
  }

  lemma DivModUnique(n: int, d: int, q: int, m: int)
    requires d >= 1 && 0 <= m < d && n == q * d + m
    ensures n % d == m
  {
    var e := n / d - q;
    assert n == d * (n / d) + n % d;
    assert d * (n / d) == d * q + d * e;
    Multiples(d, e);
  }

  lemma Multiples(d: int, e: int)
    requires d >= 1
    ensures e >= 1 ==> d * e >= d
    ensures e <= -1 ==> d * e <= -d
  {
    assert d * e - d == d * (e - 1);
    assert d * e + d == d * (e + 1);
  }

  lemma AgingKeepsLive(p: Params, s: State, d: Detection, i: nat)
    requires SaneParams(p) && HistoryOk(s) && TracksOk(p, s) && Enabled(p, s, AgeTrack(d)) && i < |s.live|
    ensures LiveOk(p, Apply(p, s, AgeTrack(d)), i)
  {
    var k := s.main.next;
    assert LiveOk(p, s, i);
    if i == k {
      var t := s.live[k];
      if d.Seen? { HitKeepsMeaning(t, d.face); } else { MissKeepsMeaning(t); }
      assert (t.log + [d.Seen?])[..|t.log|] == t.log;
    }
  }

  lemma BuryKeepsLive(p: Params, s: State, i: nat)
    requires SaneParams(p) && TracksOk(p, s) && Enabled(p, s, CheckTrack)
    requires IsDead(s.live[s.main.next], p.limits) && i < |s.live| - 1
    ensures LiveOk(p, Apply(p, s, CheckTrack), i)
  {
    var k, s' := s.main.next, Apply(p, s, CheckTrack);
    var j := if i < k then i else i + 1;
    assert s'.live == Without(s.live, k) && s'.live[i] == s.live[j];
    assert Behind(s', i) == Behind(s, j) && Unchecked(s', i) == Unchecked(s, j);
    assert LiveOk(p, s, j);
  }

  /** A track that passes the check was within the limits in every frame of its life. */
  lemma CheckedSurvived(t: Track, lim: Limits)
    requires ValidTrack(t) && SurvivedUntil(t, true, lim) && !IsDead(t, lim)
    ensures Survived(t.log, lim)
  {
    DeathIsBeingOutsideLimits(t, lim);
    assert t.log[..|t.log| - 1] + [t.log[|t.log| - 1]] == t.log;
    SurvivalStep(t.log[..|t.log| - 1], t.log[|t.log| - 1], lim);
  }

  lemma SpareKeepsLive(p: Params, s: State, i: nat)
    requires SaneParams(p) && TracksOk(p, s) && Enabled(p, s, CheckTrack)
    requires !IsDead(s.live[s.main.next], p.limits) && i < |s.live|
    ensures LiveOk(p, Apply(p, s, CheckTrack), i)
  {
    assert LiveOk(p, s, i);
    if i == s.main.next { CheckedSurvived(s.live[i], p.limits); }
  }

  lemma BeginKeepsLive(p: Params, s: State, i: nat)
    requires SaneParams(p) && HistoryOk(s) && TracksOk(p, s) && Enabled(p, s, BeginFrame) && i < |s.live|
    ensures LiveOk(p, Apply(p, s, BeginFrame), i)
  {
    assert LiveOk(p, s, i);
  }

  lemma SeedKeepsLive(p: Params, s: State, faces: seq<Face>, i: nat)
    requires SaneParams(p) && HistoryOk(s) && TracksOk(p, s) && Enabled(p, s, Seed(faces))
    requires i < |s.live| + |faces|
    ensures LiveOk(p, Apply(p, s, Seed(faces)), i)
  {
    var s' := Apply(p, s, Seed(faces));
    StepLength(s.frame, p.limits.pruneInterval);
    if i < |s.live| {
      assert LiveOk(p, s, i);
    } else {
      var face := faces[i - |s.live|];
      assert s'.live[i] == NewTrack(s.nextId + (i - |s.live|), face);
      NewTrackIsValid(s.nextId + (i - |s.live|), face);
      NothingBreaksLimits(p.limits);
    }
  }

  lemma NothingBreaksLimits(lim: Limits)
    ensures Survived([], lim)
  {
    forall m | IsWorstSuffix([], m) ensures m == 0 {
      assert Score([][0..]) == 0;
    }
  }

  lemma RoomIsEnough(lim: Limits, frame: int, idle: bool, behind: bool)
    requires Sane(lim)
    ensures Room(lim, frame, idle, behind) >= lim.maxFaces
  {
  }

  /** A track that is pruned at the end of a frame. */
  lemma TrimmedIsOk(lim: Limits, frame: int, t: Track)
    requires Sane(lim) && TrackOk(lim, frame, false, t, false, false)
    ensures TrackOk(lim, frame, true, Trim(t, lim), false, false)
  {
    TrimKeepsMeaning(t, lim);
    RoomIsEnough(lim, frame, true, false);
  }

  lemma TrimKeepsLive(p: Params, s: State, i: nat)
    requires SaneParams(p) && HistoryOk(s) && TracksOk(p, s) && Enabled(p, s, TrimAll) && i < |s.live|
    ensures LiveOk(p, Apply(p, s, TrimAll), i)
  {
    assert LiveOk(p, s, i);
    TrimmedIsOk(p.limits, s.frame, s.live[i]);
  }

  ghost predicate AllSavedOk(frame: int, ts: seq<Track>) {
    forall i :: 0 <= i < |ts| ==> SavedOk(frame, ts[i])
  }

  lemma SavedWithout(frame: int, ts: seq<Track>, k: nat)
    requires AllSavedOk(frame, ts) && k < |ts|
    ensures AllSavedOk(frame, Without(ts, k))
  {
    var r := Without(ts, k);
    forall i | 0 <= i < |r| ensures SavedOk(frame, r[i]) {
      assert r[i] == ts[if i < k then i else i + 1];
    }
  }

  lemma SavedWithTrimmed(frame: int, ts: seq<Track>, k: nat, lim: Limits)
    requires AllSavedOk(frame, ts) && k < |ts| && Sane(lim)
    ensures AllSavedOk(frame, ts[k := Trim(ts[k], lim)])
  {
    TrimKeepsMeaning(ts[k], lim);
  }

  lemma SavingStep(p: Params, s: State, a: Action)
    requires SaneParams(p) && HistoryOk(s) && TracksOk(p, s) && Enabled(p, s, a)
    ensures AllSavedOk(Apply(p, s, a).frame, Apply(p, s, a).saving)
  {
    assert AllSavedOk(s.frame, s.saving);
    match a
    case CheckTrack => assert LiveOk(p, s, s.main.next);
    case SaverTrim(id) =>
      var k := Find(s.saving, id);
      if k < |s.saving| { SavedWithTrimmed(s.frame, s.saving, k, p.limits); }
    case SaverFinish(id) =>
      var k := Find(s.saving, id);
      if k < |s.saving| { SavedWithout(s.frame, s.saving, k); }
    case _ =>
  }

  /** What is known of live tracks depends on main, the frame and the live tracks only. */
  lemma LiveUntouched(p: Params, s: State, s': State, i: nat)
    requires SaneParams(p) && i < |s.live| && LiveOk(p, s, i)
    requires s'.live == s.live && s'.main == s.main && s'.frame == s.frame
    ensures LiveOk(p, s', i)
  {
  }

  /** Main goes on to the next phase. */
  lemma PhaseKeepsLive(p: Params, s: State, a: Action, i: nat)
    requires SaneParams(p) && TracksOk(p, s) && Enabled(p, s, a) && a in {DoneAging, DoneBurying} && i < |s.live|
    ensures LiveOk(p, Apply(p, s, a), i)
  {
    assert LiveOk(p, s, i);
  }

  lemma LiveStep(p: Params, s: State, a: Action, i: nat)
    requires SaneParams(p) && HistoryOk(s) && TracksOk(p, s) && Enabled(p, s, a)
    requires i < |Apply(p, s, a).live|
    ensures LiveOk(p, Apply(p, s, a), i)
  {
    match a
    case BeginFrame => BeginKeepsLive(p, s, i);
    case AgeTrack(d) => AgingKeepsLive(p, s, d, i);
    case DoneAging => PhaseKeepsLive(p, s, a, i);
    case DoneBurying => PhaseKeepsLive(p, s, a, i);
    case CheckTrack =>
      if IsDead(s.live[s.main.next], p.limits) { BuryKeepsLive(p, s, i); } else { SpareKeepsLive(p, s, i); }
    case Seed(faces) => SeedKeepsLive(p, s, faces, i);
    case TrimAll => TrimKeepsLive(p, s, i);
    case _ => LiveUntouched(p, s, Apply(p, s, a), i);
  }

  /** Every step keeps the meaning, the age and the health of every track. */
  lemma TracksStep(p: Params, s: State, a: Action)
    requires SaneParams(p) && HistoryOk(s) && TracksOk(p, s) && Enabled(p, s, a)
    ensures TracksOk(p, Apply(p, s, a))
  {
    var s' := Apply(p, s, a);
    SavingStep(p, s, a);
    forall i | 0 <= i < |s'.live| ensures LiveOk(p, s', i) {
      LiveStep(p, s, a, i);
    }
  }

  lemma HistoryStep(p: Params, s: State, a: Action)
    requires SaneParams(p) && HistoryOk(s) && SizesOk(p, s) && Enabled(p, s, a)
    ensures HistoryOk(Apply(p, s, a)) && SizesOk(p, Apply(p, s, a))
  {
  }

  // ---------- what the pruner read ----------

  ghost predicate NeedFrom(ts: seq<Track>, bound: int) {
    forall i :: 0 <= i < |ts| ==> bound <= MinRequiredFrame(ts[i])
  }

  ghost predicate AllFrom(s: State, bound: int) {
    NeedFrom(s.live, bound) && NeedFrom(s.saving, bound)
  }

  /** While a pass runs, no track needs a frame before the one the pruner read; if it found no
      track, none needs a frame before the newest of that moment. */
  ghost predicate PassOk(s: State) {
    s.pruner.Erasing? ==>
      && s.pruner.readAt <= s.frame
      && (s.pruner.keepFrom == INT_MAX ==> AllFrom(s, s.pruner.readAt))
      && (s.pruner.keepFrom != INT_MAX ==> s.pruner.keepFrom <= s.frame && AllFrom(s, s.pruner.keepFrom))
  }

  lemma {:induction false} MinOverIsLeast(tracks: seq<Track>, start: int)
    ensures var m := MinOver(tracks, start);
      && m <= start && (forall i :: 0 <= i < |tracks| ==> m <= MinRequiredFrame(tracks[i]))
      && (m == start || exists i :: 0 <= i < |tracks| && m == MinRequiredFrame(tracks[i]))
  {
    if tracks != [] { MinOverIsLeast(tracks[..|tracks| - 1], start); }
  }

  lemma FrontIsKnown(p: Params, s: State)
    requires SaneParams(p) && HistoryOk(s) && TracksOk(p, s)
    ensures forall i :: 0 <= i < |s.live| ==> 1 <= MinRequiredFrame(s.live[i]) <= s.frame
    ensures forall i :: 0 <= i < |s.saving| ==> 1 <= MinRequiredFrame(s.saving[i]) <= s.frame
  {
    forall i | 0 <= i < |s.live| ensures 1 <= MinRequiredFrame(s.live[i]) <= s.frame {
      assert LiveOk(p, s, i);
      LastFaceAndMisses(s.live[i]);
    }
    forall i | 0 <= i < |s.saving| ensures 1 <= MinRequiredFrame(s.saving[i]) <= s.frame {
      LastFaceAndMisses(s.saving[i]);
    }
  }

  /** getMinFrameToKeep returns -1 exactly when there is no track, and otherwise the least frame
      that any track, live or being saved, needs. */
  lemma ReadMinimumIsExact(p: Params, s: State)
    requires SaneParams(p) && HistoryOk(s) && TracksOk(p, s)
    ensures var m := MinFrameToKeep(s.live, s.saving);
      && (m == -1 <==> s.live == [] && s.saving == [])
      && (m != -1 ==>
           && m <= s.frame && AllFrom(s, m)
           && ((exists i :: 0 <= i < |s.live| && MinRequiredFrame(s.live[i]) == m)
            || (exists i :: 0 <= i < |s.saving| && MinRequiredFrame(s.saving[i]) == m)))
  {
    FrontIsKnown(p, s);
    MinOverIsLeast(s.live, INT_MAX);
    MinOverIsLeast(s.saving, MinOver(s.live, INT_MAX));
  }

  lemma FirstMovesUp(t: Track, lim: Limits)
    requires ValidTrack(t) && Sane(lim)
    ensures MinRequiredFrame(Trim(t, lim)) >= MinRequiredFrame(t)
  {
    TrimKeepsMeaning(t, lim);
  }

  lemma NeedFromWithout(ts: seq<Track>, k: nat, bound: int)
    requires NeedFrom(ts, bound) && k < |ts|
    ensures NeedFrom(Without(ts, k), bound)
  {
    var r := Without(ts, k);
    forall i | 0 <= i < |r| ensures bound <= MinRequiredFrame(r[i]) {
      assert r[i] == ts[if i < k then i else i + 1];
    }
  }

  lemma LiveNeedsMoveUp(p: Params, s: State, a: Action, bound: int)
    requires SaneParams(p) && HistoryOk(s) && TracksOk(p, s) && Enabled(p, s, a)
    requires bound <= s.frame && NeedFrom(s.live, bound)
    ensures NeedFrom(Apply(p, s, a).live, bound)
  {
    match a
    case AgeTrack(d) => assert LiveOk(p, s, s.main.next);
    case CheckTrack => NeedFromWithout(s.live, s.main.next, bound);
    case TrimAll =>
      forall i | 0 <= i < |s.live| ensures bound <= MinRequiredFrame(Trim(s.live[i], p.limits)) {
        assert LiveOk(p, s, i);
        FirstMovesUp(s.live[i], p.limits);
      }
    case _ =>
  }

  lemma SavedNeedsMoveUp(p: Params, s: State, a: Action, bound: int)
    requires SaneParams(p) && HistoryOk(s) && TracksOk(p, s) && Enabled(p, s, a)
    requires bound <= s.frame && AllFrom(s, bound)
    ensures NeedFrom(Apply(p, s, a).saving, bound)
  {
    match a
    case SaverTrim(id) =>
      var k := Find(s.saving, id);
      if k < |s.saving| { FirstMovesUp(s.saving[k], p.limits); }
    case SaverFinish(id) =>
      var k := Find(s.saving, id);
      if k < |s.saving| { NeedFromWithout(s.saving, k, bound); }
    case _ =>
  }

  /** No step makes a track need an older frame than before. */
  lemma NeedsOnlyMoveUp(p: Params, s: State, a: Action, bound: int)
    requires SaneParams(p) && HistoryOk(s) && TracksOk(p, s) && Enabled(p, s, a)
    requires bound <= s.frame && AllFrom(s, bound)
    ensures AllFrom(Apply(p, s, a), bound)
  {
    LiveNeedsMoveUp(p, s, a, bound);
    SavedNeedsMoveUp(p, s, a, bound);
  }

  lemma PassStep(p: Params, s: State, a: Action)
    requires SaneParams(p) && HistoryOk(s) && TracksOk(p, s) && PassOk(s) && Enabled(p, s, a)
    ensures PassOk(Apply(p, s, a))
  {
    if s.pruner.Erasing? {
      NeedsOnlyMoveUp(p, s, a, if s.pruner.keepFrom == INT_MAX then s.pruner.readAt else s.pruner.keepFrom);
    } else if a == ReadMinimum {
      ReadMinimumIsExact(p, s);
      FrontIsKnown(p, s);
    }
  }

  // ---------- the life of a track ----------

  function IdsOf(ts: seq<Track>): set<nat> {
    set i | 0 <= i < |ts| :: ts[i].id
  }

  ghost predicate DistinctIds(ts: seq<Track>) {
    forall i, j :: 0 <= i < j < |ts| ==> ts[i].id != ts[j].id
  }

  /** Every created track is in exactly one place, and the savers are those of the tracks being
      saved. */
  ghost predicate LifeOk(s: State) {
    && DistinctIds(s.live) && DistinctIds(s.saving)
    && IdsOf(s.live) !! IdsOf(s.saving) !! s.finished
    && (forall id: nat :: id < s.nextId <==> id in IdsOf(s.live) || id in IdsOf(s.saving) || id in s.finished)
    && s.savers.Keys == IdsOf(s.saving)
  }

  datatype Stage = Unborn | Live | BeingSaved | Finished

  function StageOf(s: State, id: nat): Stage {
    if id in s.finished then Finished
    else if id in IdsOf(s.saving) then BeingSaved
    else if id in IdsOf(s.live) then Live
    else Unborn
  }

  function Rank(g: Stage): nat {
    match g case Unborn => 0 case Live => 1 case BeingSaved => 2 case Finished => 3
  }

  lemma FindKnown(ts: seq<Track>, id: nat)
    requires id in IdsOf(ts)
    ensures Find(ts, id) < |ts|
  {
  }

  /** The search for the id of a track finds that track. */
  lemma FindOwn(ts: seq<Track>, k: nat)
    requires k < |ts| && DistinctIds(ts)
    ensures Find(ts, ts[k].id) == k
  {
    assert forall i :: 0 <= i < k ==> ts[i].id != ts[k].id;
  }

  /** What the saver of the k-th track being saved does when it takes that track off the list. */
  function AfterFinish(s: State, k: nat): State
    requires k < |s.saving|
  {
    s.(saving := Without(s.saving, k), savers := s.savers - {s.saving[k].id},
       finished := s.finished + {s.saving[k].id})
  }

  /** What the saver of the k-th track being saved does when it prunes the faces of that track. */
  function AfterTrimOf(p: Params, s: State, k: nat): State
    requires SaneParams(p) && k < |s.saving|
  {
    s.(saving := s.saving[k := Trim(s.saving[k], p.limits)], savers := s.savers[s.saving[k].id := Choosing])
  }

  lemma TrimIsAStep(p: Params, s: State, k: nat)
    requires SaneParams(p) && DistinctIds(s.saving) && k < |s.saving|
    requires Enabled(p, s, SaverTrim(s.saving[k].id))
    ensures Apply(p, s, SaverTrim(s.saving[k].id)) == AfterTrimOf(p, s, k)
  {
    FindOwn(s.saving, k);
  }

  lemma FinishIsAStep(p: Params, s: State, k: nat)
    requires SaneParams(p) && DistinctIds(s.saving) && k < |s.saving|
    requires Enabled(p, s, SaverFinish(s.saving[k].id))
    ensures Apply(p, s, SaverFinish(s.saving[k].id)) == AfterFinish(s, k)
  {
    FindOwn(s.saving, k);
  }

  lemma WithoutIds(ts: seq<Track>, k: nat)
    requires k < |ts| && DistinctIds(ts)
    ensures DistinctIds(Without(ts, k))
    ensures IdsOf(Without(ts, k)) == IdsOf(ts) - {ts[k].id}
  {
    var r := Without(ts, k);
    forall i | 0 <= i < |r| ensures r[i].id in IdsOf(ts) - {ts[k].id} {
      assert r[i] == ts[if i < k then i else i + 1];
    }
    forall i | 0 <= i < |ts| && i != k ensures ts[i].id in IdsOf(r) {
      assert r[if i < k then i else i - 1] == ts[i];
    }
    DistinctWithout(ts, k);
  }

  lemma DistinctWithout(ts: seq<Track>, k: nat)
    requires k < |ts| && DistinctIds(ts)
    ensures DistinctIds(Without(ts, k))
  {
    var r := Without(ts, k);
    forall i, j | 0 <= i < j < |r| ensures r[i].id != r[j].id {
      assert r[i] == ts[if i < k then i else i + 1] && r[j] == ts[if j < k then j else j + 1];
    }
  }

  lemma SameIds(ts: seq<Track>, us: seq<Track>)
    requires |ts| == |us| && forall k :: 0 <= k < |ts| ==> us[k].id == ts[k].id
    ensures IdsOf(us) == IdsOf(ts)
    ensures DistinctIds(ts) ==> DistinctIds(us)
  {
  }

  lemma AppendIds(ts: seq<Track>, us: seq<Track>)
    ensures IdsOf(ts + us) == IdsOf(ts) + IdsOf(us)
    ensures DistinctIds(ts) && DistinctIds(us) && IdsOf(ts) !! IdsOf(us) ==> DistinctIds(ts + us)
  {
    var r := ts + us;
    forall i | 0 <= i < |ts| ensures ts[i].id in IdsOf(r) { assert r[i] == ts[i]; }
    forall i | 0 <= i < |us| ensures us[i].id in IdsOf(r) { assert r[|ts| + i] == us[i]; }
  }

  lemma NewIds(firstId: nat, faces: seq<Face>)
    ensures var ts := NewTracks(firstId, faces);
      && DistinctIds(ts)
      && forall id :: id in IdsOf(ts) <==> firstId <= id < firstId + |faces|
  {
    var ts := NewTracks(firstId, faces);
    forall id | firstId <= id < firstId + |faces| ensures id in IdsOf(ts) {
      assert ts[id - firstId].id == id;
    }
  }

  /** Where the ids go in a step. */
  lemma IdSetsStep(p: Params, s: State, a: Action)
    requires SaneParams(p) && LifeOk(s) && Enabled(p, s, a)
    ensures var s' := Apply(p, s, a);
      && DistinctIds(s'.live) && DistinctIds(s'.saving)
      && match a {
         case CheckTrack =>
           var t := s.live[s.main.next];
           && t.id in IdsOf(s.live)
           && (if IsDead(t, p.limits)
               then IdsOf(s'.live) == IdsOf(s.live) - {t.id} && IdsOf(s'.saving) == IdsOf(s.saving) + {t.id}
               else IdsOf(s'.live) == IdsOf(s.live) && IdsOf(s'.saving) == IdsOf(s.saving))
         case Seed(faces) =>
           && (forall id :: id in IdsOf(s'.live) <==> id in IdsOf(s.live) || s.nextId <= id < s.nextId + |faces|)
           && IdsOf(s'.saving) == IdsOf(s.saving)
         case SaverFinish(id) =>
           && Find(s.saving, id) < |s.saving|
           && IdsOf(s'.live) == IdsOf(s.live) && IdsOf(s'.saving) == IdsOf(s.saving) - {id}
         case _ => IdsOf(s'.live) == IdsOf(s.live) && IdsOf(s'.saving) == IdsOf(s.saving)
         }
  {
    var s' := Apply(p, s, a);
    match a
    case AgeTrack(d) => SameIds(s.live, s'.live);
    case TrimAll => SameIds(s.live, s'.live);
    case CheckTrack =>
      var t := s.live[s.main.next];
      assert t.id in IdsOf(s.live);
      WithoutIds(s.live, s.main.next);
      assert IdsOf([t]) == {t.id} by { assert [t][0].id in IdsOf([t]); }
      AppendIds(s.saving, [t]);
    case Seed(faces) =>
      NewIds(s.nextId, faces);
      AppendIds(s.live, NewTracks(s.nextId, faces));
    case SaverTrim(id) => FindKnown(s.saving, id); SameIds(s.saving, s'.saving);
    case SaverFinish(id) => FindKnown(s.saving, id); WithoutIds(s.saving, Find(s.saving, id));
    case _ =>
  }

  lemma LifeStep(p: Params, s: State, a: Action)
    requires SaneParams(p) && LifeOk(s) && Enabled(p, s, a)
    ensures LifeOk(Apply(p, s, a))
  {
    IdSetsStep(p, s, a);
    match a
    case SaverTrim(id) => FindKnown(s.saving, id);
    case _ =>
  }

  /** A saver that finishes finds its own track among those being saved, and is the last to hold it. */
  lemma FinishEndsTrack(p: Params, s: State, id: nat)
    requires SaneParams(p) && LifeOk(s) && Enabled(p, s, SaverFinish(id))
    ensures Find(s.saving, id) < |s.saving|
    ensures StageOf(s, id) == BeingSaved && StageOf(Apply(p, s, SaverFinish(id)), id) == Finished
  {
    FindKnown(s.saving, id);
  }

  lemma StagesRise(p: Params, s: State, a: Action, id: nat)
    requires SaneParams(p) && LifeOk(s) && Enabled(p, s, a)
    ensures Rank(StageOf(s, id)) <= Rank(StageOf(Apply(p, s, a), id)) <= Rank(StageOf(s, id)) + 1
  {
    IdSetsStep(p, s, a);
    if a.SaverFinish? { FindKnown(s.saving, a.id); }
  }

  /** A track only moves forward through its stages, and a saver that finishes finds its own track
      among those being saved. */
  lemma StagesMoveForward(p: Params, s: State, a: Action, id: nat)
    requires SaneParams(p) && LifeOk(s) && Enabled(p, s, a)
    ensures Rank(StageOf(s, id)) <= Rank(StageOf(Apply(p, s, a), id)) <= Rank(StageOf(s, id)) + 1
    ensures a == SaverFinish(id) ==>
      && Find(s.saving, id) < |s.saving|
      && StageOf(s, id) == BeingSaved && StageOf(Apply(p, s, a), id) == Finished
  {
    StagesRise(p, s, a, id);
    if a == SaverFinish(id) { FinishEndsTrack(p, s, id); }
  }

  // ---------- everything that needs no timing assumption ----------

  ghost predicate Inv(p: Params, s: State)
    requires SaneParams(p)
  {
    HistoryOk(s) && SizesOk(p, s) && TracksOk(p, s) && PassOk(s) && LifeOk(s)
  }

  lemma InvHoldsInitially(p: Params)
    requires SaneParams(p)
    ensures Inv(p, Init())
  {
  }

  lemma InvStep(p: Params, s: State, a: Action)
    requires SaneParams(p) && Inv(p, s) && Enabled(p, s, a)
    ensures Inv(p, Apply(p, s, a))
  {
    HistoryStep(p, s, a);
    TracksStep(p, s, a);
    PassStep(p, s, a);
    LifeStep(p, s, a);
  }

  /** The invariant holds after every run from every state in which it holds. */
  lemma {:induction false} InvHoldsThroughout(p: Params, s: State, acts: seq<Action>)
    requires SaneParams(p) && Inv(p, s) && IsRun(p, s, acts)
    ensures Inv(p, After(p, s, acts))
    decreases |acts|
  {
    if acts != [] {
      InvStep(p, s, acts[0]);
      InvHoldsThroughout(p, Apply(p, s, acts[0]), acts[1..]);
    }
  }
}
