/** What processing one frame does to the state of the program, as a function, and the proof that
    it is a run of main in the protocol. */
module Frames {
  import opened Tracks
  import opened Matching
  import opened PruneProtocol

  function Aged(t: Track, m: Match): Track {
    if m.Found? then Hit(t, m.face) else Miss(t)
  }

  function AgeEach(ts: seq<Track>, ms: seq<Match>): (r: seq<Track>)
    requires |ms| == |ts|
    ensures |r| == |ts| && forall k :: 0 <= k < |ts| ==> r[k] == Aged(ts[k], ms[k])
  {
    seq(|ts|, k requires 0 <= k < |ts| => Aged(ts[k], ms[k]))
  }

  function Alive(ts: seq<Track>, lim: Limits): seq<Track> {
    if ts == [] then [] else (if IsDead(ts[0], lim) then [] else [ts[0]]) + Alive(ts[1..], lim)
  }

  function Dead(ts: seq<Track>, lim: Limits): seq<Track> {
    if ts == [] then [] else (if IsDead(ts[0], lim) then [ts[0]] else []) + Dead(ts[1..], lim)
  }

  /** The savers that are started for tracks handed over, in order. */
  function Started(savers: map<nat, SaverPhase>, dead: seq<Track>): map<nat, SaverPhase>
    decreases |dead|
  {
    if dead == [] then savers else Started(savers[dead[0].id := Created], dead[1..])
  }

  /** The detections of a frame are taken from the back of the input sequence. */
  function FaceList(input: seq<Box>, frame: int): (faces: seq<Face>)
    ensures |faces| == |input|
    ensures forall k :: 0 <= k < |faces| ==> faces[k] == Face(input[|input| - 1 - k], frame)
  {
    seq(|input|, k requires 0 <= k < |input| => Face(input[|input| - 1 - k], frame))
  }

  ghost predicate AllHaveFaces(ts: seq<Track>) {
    forall k :: 0 <= k < |ts| ==> ts[k].faces != []
  }

  ghost function LastBoxes(ts: seq<Track>): (boxes: seq<Box>)
    requires AllHaveFaces(ts)
    ensures |boxes| == |ts|
    ensures forall k :: 0 <= k < |ts| ==> boxes[k] == ts[k].faces[|ts[k].faces| - 1].box
  {
    seq(|ts|, k requires 0 <= k < |ts| => ts[k].faces[|ts[k].faces| - 1].box)
  }

  // ---------- the phases of a frame ----------

  ghost function AfterAging(s: State, ms: seq<Match>): State
    requires |ms| == |s.live|
  {
    s.(live := AgeEach(s.live, ms), main := Burying(0))
  }

  ghost function AfterBurying(p: Params, s: State): State {
    s.(live := Alive(s.live, p.limits), saving := s.saving + Dead(s.live, p.limits),
       savers := Started(s.savers, Dead(s.live, p.limits)), main := Seeding)
  }

  /** The whole of processThreads2, in a state where main is about to age the tracks. */
  ghost function AfterThreads(r: Rules, p: Params, s: State, input: seq<Box>): State
    requires AllHaveFaces(s.live)
  {
    var faces := FaceList(input, s.frame);
    var a := Assign(r, LastBoxes(s.live), faces);
    AfterAdding(AfterBurying(p, AfterAging(s, a.matches)), LeftOver(faces, a.chosen))
  }

  ghost function AfterPruning(p: Params, s: State): State
    requires SaneParams(p)
  {
    s.(live := if s.frame % p.limits.pruneInterval == 0 then TrimEach(s.live, p.limits) else s.live, main := Idle)
  }

  /** The whole of FdProcessFaces. */
  ghost function AfterFrame(r: Rules, p: Params, s: State, input: seq<Box>): State
    requires SaneParams(p) && AllHaveFaces(s.live)
  {
    AfterPruning(p, AfterThreads(r, p, AfterBegin(s), input))
  }

  ghost function FrameAssignment(r: Rules, s: State, input: seq<Box>): Assignment
    requires AllHaveFaces(s.live)
  {
    Assign(r, LastBoxes(s.live), FaceList(input, s.frame + 1))
  }

  // ---------- a frame is a run ----------

  ghost predicate Leads(p: Params, s: State, acts: seq<Action>, s': State)
    requires SaneParams(p)
  {
    IsRun(p, s, acts) && After(p, s, acts) == s'
  }

  lemma OneMore(p: Params, s: State, acts: seq<Action>, t: State, a: Action)
    requires SaneParams(p) && Leads(p, s, acts, t) && Enabled(p, t, a)
    ensures Leads(p, s, acts + [a], Apply(p, t, a))
  {
    assert [a][1..] == [];
    assert IsRun(p, Apply(p, t, a), []);
    assert Leads(p, t, [a], Apply(p, t, a)) by {
      assert After(p, t, [a]) == After(p, Apply(p, t, a), []);
    }
    RunsCompose(p, s, acts, [a]);
  }

  lemma Then(p: Params, s: State, acts: seq<Action>, t: State, a: Action) returns (acts': seq<Action>)
    requires SaneParams(p) && Leads(p, s, acts, t) && Enabled(p, t, a)
    ensures Leads(p, s, acts', Apply(p, t, a))
  {
    OneMore(p, s, acts, t, a);
    acts' := acts + [a];
  }

  ghost predicate Erasures(acts: seq<Action>) {
    forall k :: 0 <= k < |acts| ==> acts[k] == Erase
  }

  /** The erase loop of the pruner: erasures, then the end of the pass. */
  ghost predicate IsErasePass(acts: seq<Action>) {
    acts != [] && acts[|acts| - 1] == EndPass && Erasures(acts[..|acts| - 1])
  }

  /** acts are the erasures that lead from s to t. */
  ghost predicate ErasesTo(p: Params, s: State, acts: seq<Action>, t: State)
    requires SaneParams(p)
  {
    Leads(p, s, acts, t) && Erasures(acts)
  }

  lemma OneErasure(p: Params, s: State, acts: seq<Action>, t: State)
    requires SaneParams(p) && ErasesTo(p, s, acts, t) && Enabled(p, t, Erase)
    ensures ErasesTo(p, s, acts + [Erase], Apply(p, t, Erase))
  {
    OneMore(p, s, acts, t, Erase);
  }

  lemma EndOfErasures(p: Params, s: State, acts: seq<Action>, t: State)
    requires SaneParams(p) && ErasesTo(p, s, acts, t) && Enabled(p, t, EndPass)
    ensures Leads(p, s, acts + [EndPass], Apply(p, t, EndPass)) && IsErasePass(acts + [EndPass])
  {
    OneMore(p, s, acts, t, EndPass);
    assert (acts + [EndPass])[..|acts|] == acts;
  }

  /** What an erase pass leaves: a rear part of the history; what is gone is older than the bound, and the pass
      ends at the bound or at the minimum size. */
  lemma {:induction false} ErasePassMeaning(p: Params, s: State, acts: seq<Action>, t: State)
    requires SaneParams(p) && Leads(p, s, acts, t) && IsErasePass(acts) && s.listSize <= |s.history|
    ensures var gone := |s.history| - |t.history|;
      && gone == |acts| - 1 && t.history == s.history[gone..]
      && (forall k :: 0 <= k < gone ==> s.history[k] < s.pruner.keepFrom)
      && (t.history == [] || t.history[0] >= s.pruner.keepFrom || t.listSize <= p.minListSize)
      && t.listSize == (if gone > 0 then |t.history| else s.listSize)
      && (gone > 0 ==> |t.history| >= p.minListSize)
    decreases |acts|
  {
    var s', rest := Apply(p, s, acts[0]), acts[1..];
    if |acts| == 1 {
      assert After(p, s', rest) == s';
    } else {
      assert acts[0] == acts[..|acts| - 1][0] == Erase;
      assert rest[..|rest| - 1] == acts[..|acts| - 1][1..];
      ErasePassMeaning(p, s', rest, t);
    }
  }

  /** One turn of the pruner's loop. */
  ghost predicate IsPrunePass(acts: seq<Action>) {
    |acts| >= 3 && acts[0] == ReadMinimum && IsErasePass(acts[1..|acts| - 1]) && acts[|acts| - 1] == ReadSize
  }

  lemma PassIsARun(p: Params, s: State, t: State, pass: seq<Action>, u: State) returns (acts: seq<Action>)
    requires SaneParams(p) && Enabled(p, s, ReadMinimum) && t == Apply(p, s, ReadMinimum)
    requires Leads(p, t, pass, u) && IsErasePass(pass) && Enabled(p, u, ReadSize)
    ensures IsPrunePass(acts) && Leads(p, s, acts, Apply(p, u, ReadSize))
  {
    OneMore(p, s, [], s, ReadMinimum);
    RunsCompose(p, s, [] + [ReadMinimum], pass);
    OneMore(p, s, [] + [ReadMinimum] + pass, u, ReadSize);
    acts := [] + [ReadMinimum] + pass + [ReadSize];
    assert acts[1..|acts| - 1] == pass;
  }

  function DetectionOf(m: Match): Detection {
    if m.Found? then Seen(m.face) else Missed
  }

  ghost predicate FacesAt(faces: seq<Face>, frame: int) {
    forall k :: 0 <= k < |faces| ==> faces[k].frameId == frame
  }

  ghost predicate MatchesAt(ms: seq<Match>, frame: int) {
    forall i :: 0 <= i < |ms| && ms[i].Found? ==> ms[i].face.frameId == frame
  }

  lemma {:induction false} AgingRun(p: Params, s: State, acts: seq<Action>, t: State, ms: seq<Match>, n: nat)
    returns (acts': seq<Action>)
    requires SaneParams(p) && Leads(p, s, acts, t) && t.main == Aging(0)
    requires n <= |ms| == |t.live| && MatchesAt(ms, t.frame)
    ensures Leads(p, s, acts', t.(live := AgeEach(t.live, ms)[..n] + t.live[n..], main := Aging(n)))
  {
    if n == 0 {
      acts' := acts;
      assert AgeEach(t.live, ms)[..0] + t.live[0..] == t.live;
    } else {
      acts' := AgingRun(p, s, acts, t, ms, n - 1);
      var u := t.(live := AgeEach(t.live, ms)[..n - 1] + t.live[n - 1..], main := Aging(n - 1));
      acts' := Then(p, s, acts', u, AgeTrack(DetectionOf(ms[n - 1])));
      assert u.live[n - 1 := AgeEach(t.live, ms)[n - 1]] == AgeEach(t.live, ms)[..n] + t.live[n..];
    }
  }

  /** The outcome of the delete loop from position k on. */
  ghost function BuriedFrom(p: Params, t: State, k: nat): State
    requires k <= |t.live|
  {
    var rest := t.live[k..];
    t.(live := t.live[..k] + Alive(rest, p.limits), saving := t.saving + Dead(rest, p.limits),
       savers := Started(t.savers, Dead(rest, p.limits)), main := Seeding)
  }

  lemma BuriedFromStart(p: Params, t: State)
    ensures BuriedFrom(p, t, 0) == AfterBurying(p, t)
  {
    assert t.live[0..] == t.live && t.live[..0] + Alive(t.live, p.limits) == Alive(t.live, p.limits);
  }

  lemma BuriedAtEnd(p: Params, t: State)
    ensures BuriedFrom(p, t, |t.live|) == t.(main := Seeding)
  {
    assert t.live[..|t.live|] + [] == t.live && t.saving + [] == t.saving;
  }

  lemma BuryOne(p: Params, t: State, k: nat)
    requires k < |t.live| && IsDead(t.live[k], p.limits)
    ensures BuriedFrom(p, AfterHandOver(t, k), k) == BuriedFrom(p, t, k)
  {
    var u, rest := AfterHandOver(t, k), t.live[k..];
    assert u.live[..k] == t.live[..k] && u.live[k..] == rest[1..];
    assert Alive(rest, p.limits) == [] + Alive(rest[1..], p.limits) == Alive(rest[1..], p.limits);
    var d := Dead(rest[1..], p.limits);
    assert Dead(rest, p.limits) == [rest[0]] + d;
    assert (t.saving + [rest[0]]) + d == t.saving + ([rest[0]] + d);
    assert ([rest[0]] + d)[1..] == d;
  }

  lemma KeepOne(p: Params, t: State, k: nat)
    requires k < |t.live| && !IsDead(t.live[k], p.limits)
    ensures BuriedFrom(p, t.(main := Burying(k + 1)), k + 1) == BuriedFrom(p, t, k)
  {
    var rest := t.live[k..];
    var l := Alive(rest[1..], p.limits);
    assert t.live[k + 1..] == rest[1..];
    assert t.live[..k + 1] == t.live[..k] + [rest[0]];
    assert (t.live[..k] + [rest[0]]) + l == t.live[..k] + ([rest[0]] + l);
    assert Dead(rest, p.limits) == [] + Dead(rest[1..], p.limits) == Dead(rest[1..], p.limits);
  }

  /** The delete loop, from position k on. */
  lemma {:induction false} BuryingRun(p: Params, s: State, acts: seq<Action>, t: State, k: nat)
    returns (acts': seq<Action>)
    requires SaneParams(p) && Leads(p, s, acts, t) && t.main == Burying(k) && k <= |t.live|
    ensures Leads(p, s, acts', BuriedFrom(p, t, k))
    decreases |t.live| - k
  {
    if k == |t.live| {
      acts' := Then(p, s, acts, t, DoneBurying);
      assert BuriedFrom(p, t, k) == Apply(p, t, DoneBurying);
    } else {
      acts' := Then(p, s, acts, t, CheckTrack);
      if IsDead(t.live[k], p.limits) {
        BuryOne(p, t, k);
        assert Apply(p, t, CheckTrack) == AfterHandOver(t, k);
        acts' := BuryingRun(p, s, acts', Apply(p, t, CheckTrack), k);
      } else {
        KeepOne(p, t, k);
        acts' := BuryingRun(p, s, acts', Apply(p, t, CheckTrack), k + 1);
      }
    }
  }

  lemma NewTracksSnoc(firstId: nat, faces: seq<Face>, face: Face)
    ensures NewTracks(firstId, faces + [face]) == NewTracks(firstId, faces) + [NewTrack(firstId + |faces|, face)]
  {
  }

  lemma SeedingRun(p: Params, s: State, acts: seq<Action>, t: State, faces: seq<Face>) returns (acts': seq<Action>)
    requires SaneParams(p) && Leads(p, s, acts, t) && t.main.Seeding? && FacesAt(faces, t.frame)
    ensures Leads(p, s, acts', AfterPruning(p, AfterAdding(t, faces)))
  {
    acts' := Then(p, s, acts, t, Seed(faces));
    var u := Apply(p, t, Seed(faces));
    if u.main.Trimming? { acts' := Then(p, s, acts', u, TrimAll); }
  }

  lemma {:induction false} LeftOverFrames(faces: seq<Face>, chosen: seq<Choice>, frame: int)
    requires |faces| == |chosen| && FacesAt(faces, frame)
    ensures FacesAt(LeftOver(faces, chosen), frame)
  {
    if faces != [] { LeftOverFrames(faces[..|faces| - 1], chosen[..|faces| - 1], frame); }
  }

  lemma MatchedFrames(r: Rules, lasts: seq<Box>, faces: seq<Face>, frame: int)
    requires FacesAt(faces, frame)
    ensures MatchesAt(Assign(r, lasts, faces).matches, frame)
  {
    AssignIsConsistent(r, lasts, faces);
  }

  /** All tracks are aged, and main goes on. */
  lemma AgingPhase(p: Params, s: State, acts: seq<Action>, t: State, ms: seq<Match>) returns (acts': seq<Action>)
    requires SaneParams(p) && Leads(p, s, acts, t) && t.main == Aging(0) && |ms| == |t.live| && MatchesAt(ms, t.frame)
    ensures Leads(p, s, acts', AfterAging(t, ms))
  {
    acts' := AgingRun(p, s, acts, t, ms, |t.live|);
    var aged := AgeEach(t.live, ms);
    assert aged[..|t.live|] + t.live[|t.live|..] == aged;
    acts' := Then(p, s, acts', t.(live := aged, main := Aging(|t.live|)), DoneAging);
  }

  /** The rest of processThreads2 and the pruning of the tracks. */
  lemma ThreadsPhase(p: Params, s: State, acts: seq<Action>, t: State, ms: seq<Match>, seeds: seq<Face>)
    returns (acts': seq<Action>)
    requires SaneParams(p) && Leads(p, s, acts, t) && t.main == Aging(0) && |ms| == |t.live| && MatchesAt(ms, t.frame)
    requires FacesAt(seeds, t.frame)
    ensures Leads(p, s, acts', AfterPruning(p, AfterAdding(AfterBurying(p, AfterAging(t, ms)), seeds)))
  {
    acts' := AgingPhase(p, s, acts, t, ms);
    var u := AfterAging(t, ms);
    acts' := BuryingRun(p, s, acts', u, 0);
    BuriedFromStart(p, u);
    acts' := SeedingRun(p, s, acts', AfterBurying(p, u), seeds);
  }

  /** The matches and left-over detections of a frame, and what the frame does with them. */
  lemma FrameByAssignment(r: Rules, p: Params, s: State, input: seq<Box>) returns (ms: seq<Match>, seeds: seq<Face>)
    requires SaneParams(p) && AllHaveFaces(s.live)
    ensures |ms| == |s.live| && MatchesAt(ms, s.frame + 1) && FacesAt(seeds, s.frame + 1)
    ensures AfterFrame(r, p, s, input)
         == AfterPruning(p, AfterAdding(AfterBurying(p, AfterAging(AfterBegin(s), ms)), seeds))
  {
    var a, faces := FrameAssignment(r, s, input), FaceList(input, s.frame + 1);
    MatchedFrames(r, LastBoxes(s.live), faces, s.frame + 1);
    LeftOverFrames(faces, a.chosen, s.frame + 1);
    ms, seeds := a.matches, LeftOver(faces, a.chosen);
  }

  /** Processing a frame, alone, takes the protocol from an idle state to an idle state. */
  lemma FrameIsARun(r: Rules, p: Params, s: State, input: seq<Box>) returns (acts: seq<Action>)
    requires SaneParams(p) && AllHaveFaces(s.live) && s.main.Idle? && s.frame + 1 < INT_MAX
    ensures Leads(p, s, acts, AfterFrame(r, p, s, input))
  {
    var ms, seeds := FrameByAssignment(r, p, s, input);
    acts := Then(p, s, [], s, BeginFrame);
    acts := ThreadsPhase(p, s, acts, AfterBegin(s), ms, seeds);
  }

  /** Did track t become t' by the face of the detection that holds track i? */
  ghost predicate GainsWinner(a: Assignment, faces: seq<Face>, t: Track, t': Track, i: nat) {
    exists j: nat :: j < |faces| && Keeps(a, j) && Picks(a, j, i) && t'.faces == t.faces + [faces[j]]
  }

  lemma TrackGains(r: Rules, lasts: seq<Box>, faces: seq<Face>, a: Assignment, t: Track, i: nat)
    requires Consistent(r, lasts, faces, a) && i < |lasts|
    ensures if exists j: nat :: Picks(a, j, i)
            then GainsWinner(a, faces, t, Aged(t, a.matches[i]), i)
            else Aged(t, a.matches[i]).faces == t.faces
  {
    if a.matches[i].Found? {
      var j := a.matches[i].index;
      assert Picks(a, j, i) && Keeps(a, j);
    }
  }

  ghost predicate EachTrackGainsItsWinner(a: Assignment, faces: seq<Face>, ts: seq<Track>)
    requires |a.matches| == |ts|
  {
    forall i :: 0 <= i < |ts| ==>
      if exists j: nat :: Picks(a, j, i)
      then GainsWinner(a, faces, ts[i], AgeEach(ts, a.matches)[i], i)
      else AgeEach(ts, a.matches)[i].faces == ts[i].faces
  }

  lemma TracksGain(r: Rules, lasts: seq<Box>, faces: seq<Face>, a: Assignment, ts: seq<Track>)
    requires Consistent(r, lasts, faces, a) && |ts| == |lasts|
    ensures EachTrackGainsItsWinner(a, faces, ts)
  {
    forall i | 0 <= i < |ts|
      ensures if exists j: nat :: Picks(a, j, i)
              then GainsWinner(a, faces, ts[i], AgeEach(ts, a.matches)[i], i)
              else AgeEach(ts, a.matches)[i].faces == ts[i].faces
    {
      TrackGains(r, lasts, faces, a, ts[i], i);
    }
  }

  lemma AssignmentConserves(r: Rules, lasts: seq<Box>, faces: seq<Face>, ts: seq<Track>, a: Assignment)
    requires a == Assign(r, lasts, faces) && |ts| == |lasts|
    ensures EachTrackGainsItsWinner(a, faces, ts)
    ensures |faces| == |FoundTracks(a.matches)| + |Losers(a)| + |LeftOver(faces, a.chosen)|
  {
    AssignIsConsistent(r, lasts, faces);
    ConsistentCounts(r, lasts, faces, a);
    TracksGain(r, lasts, faces, a, ts);
  }

  /** A track gains exactly one face in a frame if a detection chose it, namely the winning one,
      and none otherwise; and the detections of the frame are those kept, those displaced and those
      that start new tracks. */
  lemma FrameConservesDetections(r: Rules, s: State, input: seq<Box>, a: Assignment)
    requires AllHaveFaces(s.live) && a == FrameAssignment(r, s, input)
    ensures var faces := FaceList(input, s.frame + 1);
      && EachTrackGainsItsWinner(a, faces, s.live)
      && |input| == |FoundTracks(a.matches)| + |Losers(a)| + |LeftOver(faces, a.chosen)|
  {
    AssignmentConserves(r, LastBoxes(s.live), FaceList(input, s.frame + 1), s.live, a);
  }
}
