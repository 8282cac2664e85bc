/** The faces that a track holds, over whole runs: the newest of those it was given, and never fewer than the
    limit allows. */
module TrackFaces {
  import opened Basics
  import opened Tracks
  import opened PruneProtocol
  import opened PruneInvariants

  /** The faces that one action gives to the track of this id. */
  function Gives(s: State, a: Action, id: nat): seq<Face> {
    match a
    case AgeTrack(Seen(face)) =>
      if s.main.Aging? && s.main.next < |s.live| && s.live[s.main.next].id == id then [face] else []
    case Seed(faces) =>
      if s.nextId <= id < s.nextId + |faces| then [faces[id - s.nextId]] else []
    case _ => []
  }

  /** The faces that a run gives to it, in their order. */
  function Given(p: Params, s: State, acts: seq<Action>, id: nat): seq<Face>
    requires SaneParams(p) && IsRun(p, s, acts)
    decreases |acts|
  {
    if acts == [] then [] else Gives(s, acts[0], id) + Given(p, Apply(p, s, acts[0]), acts[1..], id)
  }

  /** Of the faces given, the newest are held: all of them, or as many as the limit. */
  ghost predicate HoldsNewest(lim: Limits, held: seq<Face>, given: seq<Face>) {
    IsSuffix(held, given) && |held| >= Min(|given|, lim.maxFaces)
  }

  /** Wherever the track of this id is, it holds the newest of the faces given. */
  ghost predicate Holds(lim: Limits, s: State, id: nat, given: seq<Face>) {
    && HoldIn(lim, s.live, id, given) && HoldIn(lim, s.saving, id, given)
    && (id >= s.nextId ==> given == [])
  }

  ghost predicate HoldIn(lim: Limits, ts: seq<Track>, id: nat, given: seq<Face>) {
    forall i :: 0 <= i < |ts| && ts[i].id == id ==> HoldsNewest(lim, ts[i].faces, given)
  }

  lemma OneMoreIsHeld(lim: Limits, held: seq<Face>, given: seq<Face>, face: Face)
    requires HoldsNewest(lim, held, given)
    ensures HoldsNewest(lim, held + [face], given + [face])
  {
    assert (given + [face])[|given| - |held|..] == given[|given| - |held|..] + [face];
  }

  lemma NewestAreHeld(lim: Limits, t: Track, given: seq<Face>)
    requires HoldsNewest(lim, t.faces, given)
    ensures HoldsNewest(lim, Trim(t, lim).faces, given)
  {
    TrimLeavesNewest(t, lim);
    SuffixIsTransitive(Trim(t, lim).faces, t.faces, given);
  }

  lemma HoldWithout(lim: Limits, ts: seq<Track>, k: nat, id: nat, given: seq<Face>)
    requires k < |ts| && HoldIn(lim, ts, id, given)
    ensures HoldIn(lim, Without(ts, k), id, given)
  {
    var r := Without(ts, k);
    assert forall i :: 0 <= i < |r| ==> r[i] == ts[if i < k then i else i + 1];
  }

  lemma AgingHolds(p: Params, s: State, d: Detection, id: nat, given: seq<Face>)
    requires SaneParams(p) && LifeOk(s) && Holds(p.limits, s, id, given) && Enabled(p, s, AgeTrack(d))
    ensures Holds(p.limits, Apply(p, s, AgeTrack(d)), id, given + Gives(s, AgeTrack(d), id))
  {
    var k := s.main.next;
    assert s.live[k].id in IdsOf(s.live);
    if d.Seen? && s.live[k].id == id {
      OneMoreIsHeld(p.limits, s.live[k].faces, given, d.face);
    } else {
      assert given + [] == given;
    }
  }

  lemma AbsentHold(lim: Limits, ts: seq<Track>, id: nat, given: seq<Face>)
    requires id !in IdsOf(ts)
    ensures HoldIn(lim, ts, id, given)
  {
    assert forall i :: 0 <= i < |ts| ==> ts[i].id in IdsOf(ts);
  }

  lemma AppendedHold(lim: Limits, ts: seq<Track>, us: seq<Track>, id: nat, given: seq<Face>)
    requires HoldIn(lim, ts, id, given) && HoldIn(lim, us, id, given)
    ensures HoldIn(lim, ts + us, id, given)
  {
    var r := ts + us;
    assert forall i :: 0 <= i < |r| ==> r[i] == if i < |ts| then ts[i] else us[i - |ts|];
  }

  lemma NewTracksHold(lim: Limits, firstId: nat, faces: seq<Face>, id: nat)
    requires firstId <= id < firstId + |faces|
    ensures HoldIn(lim, NewTracks(firstId, faces), id, [faces[id - firstId]])
  {
  }

  lemma UnbornIsAbsent(s: State, id: nat)
    requires LifeOk(s) && id >= s.nextId
    ensures id !in IdsOf(s.live) && id !in IdsOf(s.saving)
  {
  }

  /** The tracks that are added, and the one of this id among them. */
  lemma SeededHold(lim: Limits, s: State, faces: seq<Face>, id: nat)
    requires s.nextId <= id < s.nextId + |faces| && id !in IdsOf(s.live) && id !in IdsOf(s.saving)
    ensures Holds(lim, AfterAdding(s, faces), id, [faces[id - s.nextId]])
  {
    var g := [faces[id - s.nextId]];
    NewTracksHold(lim, s.nextId, faces, id);
    AbsentHold(lim, s.live, id, g);
    AbsentHold(lim, s.saving, id, g);
    AppendedHold(lim, s.live, NewTracks(s.nextId, faces), id, g);
  }

  lemma OthersSeeded(lim: Limits, s: State, faces: seq<Face>, id: nat, given: seq<Face>)
    requires Holds(lim, s, id, given) && !(s.nextId <= id < s.nextId + |faces|)
    ensures Holds(lim, AfterAdding(s, faces), id, given)
  {
    NewIds(s.nextId, faces);
    AbsentHold(lim, NewTracks(s.nextId, faces), id, given);
    AppendedHold(lim, s.live, NewTracks(s.nextId, faces), id, given);
  }

  lemma SeedingHolds(p: Params, s: State, faces: seq<Face>, id: nat, given: seq<Face>)
    requires SaneParams(p) && Holds(p.limits, s, id, given) && Enabled(p, s, Seed(faces))
    requires id >= s.nextId ==> id !in IdsOf(s.live) && id !in IdsOf(s.saving)
    ensures Holds(p.limits, AfterAdding(s, faces), id, given + Gives(s, Seed(faces), id))
  {
    if s.nextId <= id < s.nextId + |faces| {
      SeededHold(p.limits, s, faces, id);
      assert given + Gives(s, Seed(faces), id) == [faces[id - s.nextId]];
    } else {
      OthersSeeded(p.limits, s, faces, id, given);
      assert given + Gives(s, Seed(faces), id) == given;
    }
  }

  /** Only the lists of tracks and the next id matter. */
  lemma SameTracksHold(lim: Limits, s: State, s': State, id: nat, given: seq<Face>)
    requires Holds(lim, s, id, given) && s'.live == s.live && s'.saving == s.saving && s'.nextId == s.nextId
    ensures Holds(lim, s', id, given)
  {
  }

  lemma TrimmingHolds(p: Params, s: State, id: nat, given: seq<Face>)
    requires SaneParams(p) && Holds(p.limits, s, id, given) && Enabled(p, s, TrimAll)
    ensures Holds(p.limits, Apply(p, s, TrimAll), id, given)
  {
    forall i | 0 <= i < |s.live| && s.live[i].id == id
      ensures HoldsNewest(p.limits, Trim(s.live[i], p.limits).faces, given)
    {
      NewestAreHeld(p.limits, s.live[i], given);
    }
  }

  lemma SaverHolds(p: Params, s: State, a: Action, id: nat, given: seq<Face>)
    requires SaneParams(p) && Holds(p.limits, s, id, given) && Enabled(p, s, a) && (a.SaverTrim? || a.SaverFinish?)
    ensures Holds(p.limits, Apply(p, s, a), id, given)
  {
    var k := Find(s.saving, a.id);
    if k < |s.saving| {
      if a.SaverFinish? {
        HoldWithout(p.limits, s.saving, k, id, given);
      } else if a.id == id {
        NewestAreHeld(p.limits, s.saving[k], given);
      }
    }
  }

  /** Every step keeps, for each track, the newest of the faces it was given; no step changes a face. */
  lemma FacesStep(p: Params, s: State, a: Action, id: nat, given: seq<Face>)
    requires SaneParams(p) && LifeOk(s) && Holds(p.limits, s, id, given) && Enabled(p, s, a)
    ensures Holds(p.limits, Apply(p, s, a), id, given + Gives(s, a, id))
  {
    match a {
      case AgeTrack(d) => AgingHolds(p, s, d, id, given);
      case Seed(faces) =>
        if id >= s.nextId { UnbornIsAbsent(s, id); }
        SeedingHolds(p, s, faces, id, given);
        SameTracksHold(p.limits, AfterAdding(s, faces), Apply(p, s, a), id, given + Gives(s, a, id));
      case _ => OtherStepsHold(p, s, a, id, given);
    }
  }

  lemma OtherStepsHold(p: Params, s: State, a: Action, id: nat, given: seq<Face>)
    requires SaneParams(p) && Holds(p.limits, s, id, given) && Enabled(p, s, a) && !a.AgeTrack? && !a.Seed?
    ensures Holds(p.limits, Apply(p, s, a), id, given + Gives(s, a, id))
  {
    assert given + [] == given;
    match a
    case TrimAll => TrimmingHolds(p, s, id, given);
    case CheckTrack => HoldWithout(p.limits, s.live, s.main.next, id, given);
    case SaverTrim(other) => SaverHolds(p, s, a, id, given);
    case SaverFinish(other) => SaverHolds(p, s, a, id, given);
    case _ =>
  }

  lemma {:induction false} FacesThroughout(p: Params, s: State, acts: seq<Action>, id: nat, given: seq<Face>)
    requires SaneParams(p) && LifeOk(s) && Holds(p.limits, s, id, given) && IsRun(p, s, acts)
    ensures Holds(p.limits, After(p, s, acts), id, given + Given(p, s, acts, id))
    decreases |acts|
  {
    if acts == [] {
      assert given + [] == given;
    } else {
      var s', more := Apply(p, s, acts[0]), Gives(s, acts[0], id);
      LifeStep(p, s, acts[0]);
      FacesStep(p, s, acts[0], id, given);
      FacesThroughout(p, s', acts[1..], id, given + more);
      assert given + more + Given(p, s', acts[1..], id) == given + (more + Given(p, s', acts[1..], id));
    }
  }

  lemma InitIsAlive()
    ensures LifeOk(Init())
  {
  }

  lemma HeldBySome(lim: Limits, s: State, t: Track, given: seq<Face>)
    requires Holds(lim, s, t.id, given) && (t in s.live || t in s.saving)
    ensures HoldsNewest(lim, t.faces, given)
  {
  }

  /** In every run, a track that is live or being saved holds exactly the last of the detections it was given,
      boxes included: all of them, or at least as many as the limit. */
  lemma TracksHoldNewestFaces(p: Params, acts: seq<Action>, t: Track)
    requires SaneParams(p) && IsRun(p, Init(), acts)
    requires t in After(p, Init(), acts).live || t in After(p, Init(), acts).saving
    ensures var given := Given(p, Init(), acts, t.id);
      && |t.faces| <= |given| && t.faces == given[|given| - |t.faces|..]
      && |t.faces| >= Min(|given|, p.limits.maxFaces)
  {
    InitIsAlive();
    FacesThroughout(p, Init(), acts, t.id, []);
    assert [] + Given(p, Init(), acts, t.id) == Given(p, Init(), acts, t.id);
    HeldBySome(p.limits, After(p, Init(), acts), t, Given(p, Init(), acts, t.id));
  }
}
