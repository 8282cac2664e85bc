/** The tracker as the program runs it: global lists changed in place, one frame at a time.

    Every method states the state it leaves behind by the functions of `Tracks`, `Matching`,
    `Frames` and `PruneProtocol`. */
module FaceProcessor {
  import opened Basics
  import opened Tracks
  import opened Matching
  import opened PruneProtocol
  import opened Frames
  import PruneInvariants

  /** A track record.  Its ghost part gives it an identity and remembers its hits and misses. */
  class FaceThread {
    var faces: seq<Face>
    var totalCount: int
    var missedCount: int
    var nonMissedCount: int
    var consecutiveMissedCount: int
    ghost const id: nat
    ghost const born: int
    ghost var log: seq<bool>

    ghost function View(): Track
      reads this
    {
      Track(id, faces, totalCount, missedCount, nonMissedCount, consecutiveMissedCount, born, log)
    }

    /** A new record; its first face is added at once. */
    constructor (ghost id: nat, face: Face)
      ensures View() == NewTrack(id, face)
      ensures faces == [face]
      ensures totalCount == missedCount == nonMissedCount == consecutiveMissedCount == 0
    {
      this.id, this.born, this.log := id, face.frameId, [];
      totalCount, missedCount, nonMissedCount, consecutiveMissedCount := 0, 0, 0, 0;
      faces := [face];
    }

    constructor Copy(other: FaceThread)
      ensures View() == other.View()
    {
      id, born, log := other.id, other.born, other.log;
      totalCount, missedCount := other.totalCount, other.missedCount;
      nonMissedCount, consecutiveMissedCount := other.nonMissedCount, other.consecutiveMissedCount;
      faces := other.faces;
    }

    /** The counter updates of part 2 of processThreads2. */
    method Update(m: Match)
      modifies this
      ensures View() == Aged(old(View()), m)
      ensures faces == old(faces) + if m.Found? then [m.face] else []
      ensures totalCount == old(totalCount) + 1
      ensures nonMissedCount == old(nonMissedCount) + if m.Found? then 1 else 0
      ensures consecutiveMissedCount == if m.Found? then 0 else old(consecutiveMissedCount) + 1
      ensures missedCount == if !m.Found? then old(missedCount) + 1
                             else if old(missedCount) > 0 then old(missedCount) - 1 else old(missedCount)
    {
      totalCount := totalCount + 1;
      if m.Found? {
        nonMissedCount := nonMissedCount + 1;
        consecutiveMissedCount := 0;
        if missedCount > 0 { missedCount := missedCount - 1; }
        faces := faces + [m.face];
      } else {
        consecutiveMissedCount := consecutiveMissedCount + 1;
        missedCount := missedCount + 1;
      }
      log := log + [m.Found?];
    }

    /** pruneFacesList: the oldest faces are popped until the limit is met; nothing else changes. */
    method PruneFacesList(lim: Limits)
      modifies this`faces
      ensures faces == old(faces)[|old(faces)| - Min(|old(faces)|, lim.maxFaces)..]
      ensures View() == Trim(old(View()), lim)
    {
      while |faces| > lim.maxFaces
        invariant View() == old(View()).(faces := faces)
        invariant |faces| <= |old(faces)| && faces == old(faces)[|old(faces)| - |faces|..]
        invariant |faces| == |old(faces)| || |faces| >= lim.maxFaces
      {
        faces := faces[1..];
      }
    }
  }

  /** The records show these tracks. */
  ghost predicate Show(ts: seq<FaceThread>, vs: seq<Track>)
    reads ts
  {
    |ts| == |vs| && forall k :: 0 <= k < |ts| ==> ts[k].View() == vs[k]
  }

  ghost predicate Distinct(ts: seq<FaceThread>) {
    forall i, j :: 0 <= i < j < |ts| ==> ts[i] != ts[j]
  }

  lemma HandOver(ts: seq<FaceThread>, vs: seq<Track>, us: seq<FaceThread>, k: nat)
    requires k < |ts| && Distinct(ts) && Show(ts, vs) && Apart(ts, us)
    ensures Distinct(Without(ts, k)) && Show(Without(ts, k), Without(vs, k)) && Apart(Without(ts, k), us)
  {
    var r, w := Without(ts, k), Without(vs, k);
    assert forall i :: 0 <= i < |r| ==>
      r[i] == ts[if i < k then i else i + 1] && w[i] == vs[if i < k then i else i + 1];
  }

  ghost predicate Apart(ts: seq<FaceThread>, us: seq<FaceThread>) {
    forall i, j :: 0 <= i < |ts| && 0 <= j < |us| ==> ts[i] != us[j]
  }

  /** The last faces of the tracks seen often enough to be shown. */
  function Visible(ts: seq<Track>, minOccurrences: int): seq<Face>
    requires AllHaveFaces(ts)
  {
    if ts == [] then []
    else
      var t := ts[|ts| - 1];
      Visible(ts[..|ts| - 1], minOccurrences)
      + (if t.nonMissedCount > minOccurrences then [t.faces[|t.faces| - 1]] else [])
  }

  ghost predicate IsFrequent(ts: seq<Track>, minOccurrences: int, k: int) {
    0 <= k < |ts| && ts[k].nonMissedCount > minOccurrences
  }

  /** ks are the positions of the tracks that are shown, and shown their last faces. */
  ghost predicate ShowsAt(shown: seq<Face>, ts: seq<Track>, minOccurrences: int, ks: seq<int>) {
    && Ascending(ks) && |ks| == |shown|
    && (forall k :: k in ks <==> IsFrequent(ts, minOccurrences, k))
    && (forall m :: 0 <= m < |ks| ==> 0 <= ks[m] < |ts| && ShowsLast(ts[ks[m]], shown[m]))
  }

  ghost predicate ShowsLast(t: Track, face: Face) {
    t.faces != [] && face == t.faces[|t.faces| - 1]
  }

  /** What is shown: of the tracks with more than so many hits, in their order, the face seen last. */
  ghost predicate ShowsNewestFaces(shown: seq<Face>, ts: seq<Track>, minOccurrences: int) {
    exists ks: seq<int> :: ShowsAt(shown, ts, minOccurrences, ks)
  }

  lemma ShowOneMore(shown: seq<Face>, ts: seq<Track>, minOccurrences: int, ks: seq<int>, t: Track, face: Face)
    requires ShowsAt(shown, ts, minOccurrences, ks) && ShowsLast(t, face) && t.nonMissedCount > minOccurrences
    ensures ShowsAt(shown + [face], ts + [t], minOccurrences, ks + [|ts|])
  {
    var js := ks + [|ts|];
    assert forall m :: 0 <= m < |ks| ==> ks[m] in ks;
    forall k ensures k in js <==> IsFrequent(ts + [t], minOccurrences, k) {
      assert k in js <==> k in ks || k == |ts|;
      assert k in ks <==> IsFrequent(ts, minOccurrences, k);
    }
  }

  lemma SkipOneMore(shown: seq<Face>, ts: seq<Track>, minOccurrences: int, ks: seq<int>, t: Track)
    requires ShowsAt(shown, ts, minOccurrences, ks) && t.nonMissedCount <= minOccurrences
    ensures ShowsAt(shown, ts + [t], minOccurrences, ks)
  {
    forall k ensures k in ks <==> IsFrequent(ts + [t], minOccurrences, k) {
      assert k in ks <==> IsFrequent(ts, minOccurrences, k);
    }
  }

  lemma {:induction false} VisibleAre(ts: seq<Track>, minOccurrences: int) returns (ks: seq<int>)
    requires AllHaveFaces(ts)
    ensures ShowsAt(Visible(ts, minOccurrences), ts, minOccurrences, ks)
  {
    if ts == [] {
      ks := [];
    } else {
      var front, t := ts[..|ts| - 1], ts[|ts| - 1];
      ks := VisibleAre(front, minOccurrences);
      assert ts == front + [t];
      if t.nonMissedCount > minOccurrences {
        ShowOneMore(Visible(front, minOccurrences), front, minOccurrences, ks, t, t.faces[|t.faces| - 1]);
        ks := ks + [|front|];
      } else {
        SkipOneMore(Visible(front, minOccurrences), front, minOccurrences, ks, t);
      }
    }
  }

  /** lasts are the boxes of the last faces of the threads. */
  ghost predicate LastBoxesAre(ts: seq<FaceThread>, lasts: seq<Box>)
    reads ts
  {
    && |lasts| == |ts|
    && forall k :: 0 <= k < |ts| ==> ts[k].faces != [] && lasts[k] == ts[k].faces[|ts[k].faces| - 1].box
  }

  /** Part 1 for one detection: look at the last face of every track. */
  method ChooseTrack(r: Rules, face: Face, threads: seq<FaceThread>, matches: array<Match>, ghost lasts: seq<Box>)
    returns (choice: Choice)
    requires matches.Length == |threads| && LastBoxesAre(threads, lasts)
    ensures choice == Choose(r, face.box, lasts, matches[..]) && ChoiceIsNear(r, face.box, lasts, choice)
  {
    ChosenIsNear(r, face.box, lasts, matches[..]);
    choice := Nobody;
    for i := 0 to |threads|
      invariant choice == ChooseAmong(r, face.box, lasts, matches[..], i)
    {
      var last := threads[i].faces[|threads[i].faces| - 1].box;
      var dist := Distance(r, face.box, last);
      if dist <= r.distThresh {
        if choice.Nobody? {
          choice := Chosen(i, dist);
        } else if dist < choice.distance {
          if choice.distance < r.veryClose && Less(SizeDiff(face.box, last), SizeDiff(face.box, HeldBox(matches[i]))) {
            choice := Chosen(i, dist);
          }
        }
      }
    }
  }

  /** Part 1 for a detection that chose track k: is it better than what the track holds? */
  method Compete(r: Rules, face: Face, j: nat, k: nat, d: real, threads: seq<FaceThread>, matches: array<Match>,
                 ghost lasts: seq<Box>)
    requires k < |threads| == matches.Length && LastBoxesAre(threads, lasts)
    modifies matches
    ensures matches[..] == if Displaces(r, lasts[k], old(matches[k]), face.box, d)
                           then old(matches[..])[k := Found(face, d, j)]
                           else old(matches[..])
  {
    var last := threads[k].faces[|threads[k].faces| - 1].box;
    if matches[k].Unfound?
       || (d < matches[k].distance && matches[k].distance > r.veryClose)
       || (matches[k].distance < r.veryClose && d < r.veryClose
           && Less(SizeDiff(face.box, last), SizeDiff(matches[k].face.box, last)))
    {
      matches[k] := Found(face, d, j);
    }
  }

  /** What part 1 has found out when these detections are placed. */
  ghost predicate Matched(r: Rules, lasts: seq<Box>, faces: seq<Face>, matches: seq<Match>, unmatched: seq<Face>) {
    var a := Assign(r, lasts, faces);
    matches == a.matches && unmatched == LeftOver(faces, a.chosen)
  }

  lemma MatchedOneMore(r: Rules, lasts: seq<Box>, faces: seq<Face>, j: nat, before: seq<Match>, unmatched: seq<Face>)
    requires j < |faces| && Matched(r, lasts, faces[..j], before, unmatched)
    ensures var c := Choose(r, faces[j].box, lasts, before);
      if c.Nobody? then Matched(r, lasts, faces[..j + 1], before, unmatched + [faces[j]])
      else Matched(r, lasts, faces[..j + 1],
                   if Displaces(r, lasts[c.track], before[c.track], faces[j].box, c.distance)
                   then before[c.track := Found(faces[j], c.distance, j)] else before,
                   unmatched)
  {
    var a := Assign(r, lasts, faces[..j]);
    var b := Place(r, lasts, a, faces[j]);
    assert faces[..j + 1][..j] == faces[..j] && b.chosen[..j] == a.chosen;
    assert Assign(r, lasts, faces[..j + 1]) == b;
  }

  /** Part 1 for detection j: the new list of detections left over. */
  method MatchFace(r: Rules, faces: seq<Face>, j: nat, threads: seq<FaceThread>, matches: array<Match>,
                   unmatched: seq<Face>, ghost lasts: seq<Box>)
    returns (unmatched': seq<Face>)
    requires LastBoxesAre(threads, lasts) && matches.Length == |threads|
    requires j < |faces| && Matched(r, lasts, faces[..j], matches[..], unmatched)
    modifies matches
    ensures Matched(r, lasts, faces[..j + 1], matches[..], unmatched')
  {
    MatchedOneMore(r, lasts, faces, j, matches[..], unmatched);
    unmatched' := unmatched;
    var choice := ChooseTrack(r, faces[j], threads, matches, lasts);
    if choice.Nobody? {
      unmatched' := unmatched' + [faces[j]];
    } else {
      Compete(r, faces[j], j, choice.track, choice.distance, threads, matches, lasts);
    }
  }

  /** Part 1: every detection chooses a track and competes for it; those that find no track in
      range are left over. */
  method MatchFaces(r: Rules, faces: seq<Face>, threads: seq<FaceThread>, ghost lasts: seq<Box>)
    returns (matches: array<Match>, unmatched: seq<Face>)
    requires LastBoxesAre(threads, lasts)
    ensures fresh(matches)
    ensures var a := Assign(r, lasts, faces);
            matches[..] == a.matches && unmatched == LeftOver(faces, a.chosen)
    ensures IsMatching(r, lasts, faces, matches[..], unmatched)
  {
    matches := new Match[|threads|](_ => Unfound);
    unmatched := [];
    assert matches[..] == Assign(r, lasts, []).matches;
    for j := 0 to |faces|
      invariant Matched(r, lasts, faces[..j], matches[..], unmatched)
    {
      unmatched := MatchFace(r, faces, j, threads, matches, unmatched, lasts);
    }
    assert faces[..|faces|] == faces;
    AssignIsMatching(r, lasts, faces);
  }

  /** The loop of part 2. */
  method AgeRecords(ts: seq<FaceThread>, ghost vs: seq<Track>, matches: array<Match>)
    requires Distinct(ts) && Show(ts, vs) && matches.Length == |ts|
    modifies ts
    ensures Show(ts, AgeEach(vs, matches[..]))
  {
    for i := 0 to |ts|
      invariant forall k :: 0 <= k < i ==> ts[k].View() == Aged(vs[k], matches[k])
      invariant forall k :: i <= k < |ts| ==> ts[k].View() == vs[k]
    {
      ts[i].Update(matches[i]);
    }
  }

  ghost predicate EachNewestLeft(ts: seq<Track>, us: seq<Track>, n: nat) {
    |us| == |ts| && forall k :: 0 <= k < |ts| ==> NewestLeft(ts[k], us[k], n)
  }

  lemma TrimEachLeavesNewest(ts: seq<Track>, lim: Limits)
    ensures EachNewestLeft(ts, TrimEach(ts, lim), lim.maxFaces)
  {
    forall k | 0 <= k < |ts| ensures NewestLeft(ts[k], TrimEach(ts, lim)[k], lim.maxFaces) {
      TrimLeavesNewest(ts[k], lim);
    }
  }

  method PruneRecords(ts: seq<FaceThread>, ghost vs: seq<Track>, lim: Limits)
    requires Distinct(ts) && Show(ts, vs)
    modifies ts
    ensures Show(ts, TrimEach(vs, lim)) && EachNewestLeft(vs, TrimEach(vs, lim), lim.maxFaces)
  {
    for i := 0 to |ts|
      invariant forall k :: 0 <= k < i ==> ts[k].View() == Trim(vs[k], lim)
      invariant forall k :: i <= k < |ts| ==> ts[k].View() == vs[k]
    {
      ts[i].PruneFacesList(lim);
    }
    TrimEachLeavesNewest(vs, lim);
  }

  /** To the tracks ts, a new one was added for each of these faces, with that face alone and nothing counted. */
  ghost predicate FoundedBy(ts: seq<Track>, us: seq<Track>, faces: seq<Face>) {
    && |us| == |ts| + |faces| && us[..|ts|] == ts
    && forall j :: 0 <= j < |faces| ==>
         var t := us[|ts| + j];
         && t.faces == [faces[j]] && t.born == faces[j].frameId
         && t.totalCount == t.missedCount == t.nonMissedCount == t.consecutiveMissedCount == 0
  }

  lemma StartOfAdding(s: State)
    ensures AfterAdding(s, []) == s
  {
  }

  lemma AddingFounds(s: State, faces: seq<Face>)
    ensures FoundedBy(s.live, AfterAdding(s, faces).live, faces)
  {
  }

  /** Every record of us is one of ts. */
  ghost predicate Among(us: seq<FaceThread>, ts: seq<FaceThread>) {
    forall i :: 0 <= i < |us| ==> us[i] in ts
  }

  class Tracker {
    const rules: Rules
    const params: Params
    const minOccurrences: int

    var history: seq<int>
    var frameCounter: int
    var threads: seq<FaceThread>
    var beingSerialized: seq<FaceThread>
    var facesInCurrentFrame: seq<Face>
    var listSize: nat

    ghost var live: seq<Track>      // what threads shows
    ghost var saving: seq<Track>    // what beingSerialized shows
    ghost var savers: map<nat, SaverPhase>
    ghost var finished: set<nat>
    ghost var nextId: nat
    ghost var main: MainPhase
    ghost var pruner: PrunerPhase

    ghost predicate Valid()
      reads this, threads, beingSerialized
    {
      && SaneParams(params)
      && Distinct(threads) && Distinct(beingSerialized) && Apart(threads, beingSerialized)
      && Show(threads, live) && Show(beingSerialized, saving)
      && AllHaveFaces(live) && AllHaveFaces(saving)
    }

    /** The tracker as a state of the protocol. */
    ghost function Model(): State
      reads this
    {
      State(history, frameCounter, live, saving, savers, finished, nextId, main, pruner, listSize)
    }

    constructor (rules: Rules, params: Params, minOccurrences: int)
      requires SaneParams(params)
      ensures Valid() && Model() == Init()
      ensures this.rules == rules && this.params == params && this.minOccurrences == minOccurrences
    {
      this.rules, this.params, this.minOccurrences := rules, params, minOccurrences;
      history, frameCounter, threads, beingSerialized, facesInCurrentFrame, listSize := [], 0, [], [], [], 0;
      live, saving, savers, finished, nextId, main, pruner := [], [], map[], {}, 0, Idle, Waiting;
    }

    /** addToHistory, under the history lock, with the advance of the frame counter before it. */
    method AddToHistory()
      requires Valid()
      modifies this`history, this`frameCounter, this`main
      ensures Valid() && Model() == AfterBegin(old(Model()))
    {
      frameCounter := frameCounter + 1;
      history := history + [frameCounter];
      main := Aging(0);
    }

    /** Moves the detections out of the input, last one first. */
    method TakeFaces(input: seq<Box>) returns (faces: seq<Face>)
      ensures faces == FaceList(input, frameCounter)
    {
      faces := [];
      var rest := input;
      while |rest| > 0
        invariant |faces| + |rest| == |input| && rest == input[..|rest|]
        invariant faces == FaceList(input, frameCounter)[..|faces|]
      {
        faces := faces + [Face(rest[|rest| - 1], frameCounter)];
        rest := rest[..|rest| - 1];
      }
    }

    /** Part 2: every track is aged by one frame. */
    method UpdateCounters(matches: array<Match>)
      requires Valid() && matches.Length == |threads|
      modifies threads, this`live, this`main
      ensures Valid() && Model() == AfterAging(old(Model()), matches[..])
    {
      AgeRecords(threads, live, matches);
      live := AgeEach(live, matches[..]);
      main := Burying(0);
    }

    /** The record is copied into the list of those being saved, and a saver is created for it. */
    method CopyToSaving(k: nat)
      requires Valid() && k < |threads|
      modifies this`beingSerialized, this`saving, this`savers
      ensures Valid()
      ensures Model() == old(Model()).(saving := old(saving) + [live[k]], savers := old(savers)[live[k].id := Created])
    {
      var copy := new FaceThread.Copy(threads[k]);
      savers := savers[live[k].id := Created];
      beingSerialized, saving := beingSerialized + [copy], saving + [live[k]];
    }

    /** deleteThread: hands track k over to the list of tracks being saved, under one lock, and
        starts its saver.  The record is copied into its new list. */
    method DeleteThread(k: nat)
      requires Valid() && k < |threads|
      modifies this`threads, this`beingSerialized, this`live, this`saving, this`savers
      ensures Valid() && Model() == AfterHandOver(old(Model()), k)
      ensures threads == Without(old(threads), k)
    {
      CopyToSaving(k);
      HandOver(threads, live, beingSerialized, k);
      threads, live := Without(threads, k), Without(live, k);
    }

    /** The delete loop stands at position k; what it will leave is target, and all records were there at the
        start. */
    ghost predicate Deleting(k: nat, target: State, start: seq<FaceThread>)
      reads this, threads, beingSerialized
    {
      Valid() && k <= |threads| && BuriedFrom(params, Model(), k) == target && Among(threads, start)
    }

    /** One round of the delete loop, at position k; the result is the next position. */
    method DeleteIfDead(k: nat, ghost target: State, ghost start: seq<FaceThread>) returns (k': nat)
      requires Deleting(k, target, start) && k < |threads|
      modifies this`threads, this`beingSerialized, this`live, this`saving, this`savers, this`main
      ensures Deleting(k', target, start) && |threads| - k' < |old(threads)| - k
    {
      ghost var s := Model();
      if threads[k].missedCount > params.limits.maxMissed
         || threads[k].consecutiveMissedCount > params.limits.maxConsecutive
      {
        BuryOne(params, s, k);
        DeleteThread(k);
        k' := k;
      } else {
        KeepOne(params, s, k);
        k' := k + 1;
        main := Burying(k');
      }
    }

    /** The end of the delete loop. */
    method EndBurying(ghost target: State, ghost start: seq<FaceThread>)
      requires Deleting(|threads|, target, start)
      modifies this`main
      ensures Valid() && Model() == target && Among(threads, start)
    {
      BuriedAtEnd(params, Model());
      main := Seeding;
    }

    /** The delete loop: every track outside the limits is handed over. */
    method DeleteDead()
      requires Valid()
      modifies this`threads, this`beingSerialized, this`live, this`saving, this`savers, this`main
      ensures Valid() && Model() == AfterBurying(params, old(Model()))
      ensures Among(threads, old(threads))
    {
      ghost var target, start := AfterBurying(params, Model()), threads;
      BuriedFromStart(params, Model());
      var k: nat := 0;
      while k < |threads|
        invariant k <= |threads| && Deleting(k, target, start)
        decreases |threads| - k
      {
        k := DeleteIfDead(k, target, start);
      }
      EndBurying(target, start);
    }

    /** addNewThread, with its first face. */
    method AddNewThread(face: Face)
      requires Valid()
      modifies this`threads, this`live, this`nextId
      ensures Valid()
      ensures Model() == old(Model()).(live := old(live) + [NewTrack(old(nextId), face)], nextId := old(nextId) + 1)
      ensures forall i :: 0 <= i < |threads| ==> threads[i] in old(threads) || fresh(threads[i])
    {
      var t := new FaceThread(nextId, face);
      threads, live := threads + [t], live + [NewTrack(nextId, face)];
      nextId := nextId + 1;
    }

    /** The first j of the detections left over have their tracks; start was the state before. */
    ghost predicate Adding(j: nat, start: State, unmatched: seq<Face>)
      reads this, threads, beingSerialized
    {
      Valid() && j <= |unmatched| && Model() == AfterAdding(start, unmatched[..j])
    }

    method AddNext(j: nat, ghost start: State, unmatched: seq<Face>)
      requires j < |unmatched| && Adding(j, start, unmatched)
      modifies this`threads, this`live, this`nextId
      ensures Adding(j + 1, start, unmatched)
      ensures forall i :: 0 <= i < |threads| ==> threads[i] in old(threads) || fresh(threads[i])
    {
      NewTracksSnoc(start.nextId, unmatched[..j], unmatched[j]);
      assert unmatched[..j + 1] == unmatched[..j] + [unmatched[j]];
      AddNewThread(unmatched[j]);
    }

    /** Part 3: a new track for every detection left over, under one lock. */
    method AddNewThreads(unmatched: seq<Face>)
      requires Valid()
      modifies this`threads, this`live, this`nextId
      ensures Valid() && Model() == AfterAdding(old(Model()), unmatched)
      ensures FoundedBy(old(live), live, unmatched)
      ensures forall i :: 0 <= i < |threads| ==> threads[i] in old(threads) || fresh(threads[i])
    {
      ghost var start := Model();
      StartOfAdding(start);
      for j := 0 to |unmatched|
        invariant Adding(j, start, unmatched)
        invariant forall i :: 0 <= i < |threads| ==> threads[i] in old(threads) || fresh(threads[i])
      {
        AddNext(j, start, unmatched);
      }
      assert unmatched[..|unmatched|] == unmatched;
      AddingFounds(start, unmatched);
    }

    /** Prunes the faces of every live track, under one lock. */
    method PruneAllFaces()
      requires Valid()
      modifies threads, this`live
      ensures Valid() && Model() == old(Model()).(live := TrimEach(old(live), params.limits))
      ensures EachNewestLeft(old(live), live, params.limits.maxFaces)
    {
      PruneRecords(threads, live, params.limits);
      live := TrimEach(live, params.limits);
    }

    /** Parts 0 and 1 of processThreads2. */
    method MatchInput(input: seq<Box>) returns (matches: array<Match>, unmatched: seq<Face>)
      requires Valid()
      ensures fresh(matches) && matches.Length == |threads|
      ensures var faces := FaceList(input, frameCounter);
        var a := Assign(rules, LastBoxes(live), faces);
        matches[..] == a.matches && unmatched == LeftOver(faces, a.chosen)
    {
      var faces := TakeFaces(input);
      matches, unmatched := MatchFaces(rules, faces, threads, LastBoxes(live));
    }

    /** Parts 0 to 2 of processThreads2. */
    method MatchAndAge(input: seq<Box>) returns (unmatched: seq<Face>)
      requires Valid() && main == Aging(0)
      modifies threads, this`live, this`main
      ensures Valid()
      ensures var faces := FaceList(input, old(frameCounter));
        var a := Assign(rules, LastBoxes(old(live)), faces);
        Model() == AfterAging(old(Model()), a.matches) && unmatched == LeftOver(faces, a.chosen)
    {
      var matches;
      matches, unmatched := MatchInput(input);
      UpdateCounters(matches);
    }

    /** processThreads2. */
    method ProcessThreads(input: seq<Box>)
      requires Valid() && main == Aging(0)
      modifies this, threads
      ensures Valid() && Model() == AfterThreads(rules, params, old(Model()), input)
      ensures forall i :: 0 <= i < |threads| ==> threads[i] in old(threads) || fresh(threads[i])
    {
      var unmatched := MatchAndAge(input);
      DeleteDead();
      AddNewThreads(unmatched);
    }

    /** Step 3 of FdProcessFaces: every pruneInterval frames the tracks are shortened. */
    method PruneWhenDue()
      requires Valid()
      modifies threads, this`live, this`main
      ensures Valid() && Model() == AfterPruning(params, old(Model()))
      ensures if frameCounter % params.limits.pruneInterval == 0
              then EachNewestLeft(old(live), live, params.limits.maxFaces) else live == old(live)
    {
      if frameCounter % params.limits.pruneInterval == 0 {
        PruneAllFaces();
      }
      main := Idle;
    }

    /** FdProcessFaces. */
    method ProcessFaces(input: seq<Box>) returns (visible: seq<Face>)
      requires Valid() && main.Idle?
      modifies this, threads
      ensures Valid() && Model() == AfterFrame(rules, params, old(Model()), input)
      ensures visible == facesInCurrentFrame == Visible(live, minOccurrences)
      ensures ShowsNewestFaces(visible, live, minOccurrences)
      ensures frameCounter == old(frameCounter) + 1 && history == old(history) + [frameCounter]
      ensures frameCounter % params.limits.pruneInterval == 0 ==>
        forall i :: 0 <= i < |live| ==> |live[i].faces| <= params.limits.maxFaces
    {
      AddToHistory();
      ProcessThreads(input);
      PruneWhenDue();
      CollectVisible();
      visible := facesInCurrentFrame;
    }

    /** Step 4 of FdProcessFaces: the last face of every track seen often enough. */
    method CollectVisible()
      requires Valid()
      modifies this`facesInCurrentFrame
      ensures Valid() && facesInCurrentFrame == Visible(live, minOccurrences)
      ensures ShowsNewestFaces(facesInCurrentFrame, live, minOccurrences)
    {
      facesInCurrentFrame := [];
      for i := 0 to |threads|
        invariant Valid() && facesInCurrentFrame == Visible(live[..i], minOccurrences)
      {
        assert live[..i + 1][..i] == live[..i];
        if threads[i].nonMissedCount > minOccurrences {
          facesInCurrentFrame := facesInCurrentFrame + [threads[i].faces[|threads[i].faces| - 1]];
        }
      }
      assert live[..|threads|] == live;
      ghost var ks := VisibleAre(live, minOccurrences);
    }

    // ---------- the pruner and the savers ----------

    /** getMinFrameToKeep, under the tracks' lock: a scan of both lists. */
    method GetMinFrameToKeep() returns (minFrame: int)
      requires Valid()
      requires forall i :: 0 <= i < |live| ==> MinRequiredFrame(live[i]) < INT_MAX
      requires forall i :: 0 <= i < |saving| ==> MinRequiredFrame(saving[i]) < INT_MAX
      ensures minFrame == MinFrameToKeep(live, saving)
    {
      if |threads| == 0 && |beingSerialized| == 0 { return -1; }
      minFrame := INT_MAX;
      for i := 0 to |threads|
        invariant minFrame == MinOver(live[..i], INT_MAX)
      {
        assert live[..i + 1][..i] == live[..i];
        if threads[i].faces[0].frameId < minFrame { minFrame := threads[i].faces[0].frameId; }
      }
      assert live[..|threads|] == live;
      ghost var overLive := minFrame;
      for i := 0 to |beingSerialized|
        invariant minFrame == MinOver(saving[..i], overLive)
      {
        assert saving[..i + 1][..i] == saving[..i];
        if beingSerialized[i].faces[0].frameId < minFrame { minFrame := beingSerialized[i].faces[0].frameId; }
      }
      assert saving[..|beingSerialized|] == saving;
    }

    /** One erasure, under the history lock. */
    method EraseFront()
      requires Valid() && Enabled(params, Model(), Erase)
      modifies this`history, this`listSize
      ensures Valid() && Model() == Apply(params, old(Model()), Erase)
    {
      history := history[1..];
      listSize := |history|;
    }

    /** The erase loop of pruneHistory, when nothing interferes: a run of erasures and the end of the pass. */
    method ErasePass(minFrameToKeep: int) returns (ghost acts: seq<Action>)
      requires Valid() && history != [] && listSize <= |history|
      requires pruner.Erasing? && pruner.keepFrom == KeepFrom(minFrameToKeep)
      modifies this`history, this`listSize, this`pruner
      ensures Valid() && history != [] && pruner == Sleeping
      ensures Leads(params, old(Model()), acts, Model()) && IsErasePass(acts)
    {
      var keepFrom := if minFrameToKeep == -1 then INT_MAX else minFrameToKeep;
      ghost var start := Model();
      acts := [];
      while history[0] < keepFrom && listSize > params.minListSize
        invariant Valid() && history != [] && pruner == old(pruner) && listSize <= |history|
        invariant ErasesTo(params, start, acts, Model())
        decreases |history|
      {
        OneErasure(params, start, acts, Model());
        acts := acts + [Erase];
        EraseFront();
      }
      EndOfErasures(params, start, acts, Model());
      acts := acts + [EndPass];
      pruner := Sleeping;
    }

    /** The start of a pass: the bound is read. */
    method BeginPass() returns (minFrameToKeep: int)
      requires Valid() && pruner.Reading?
      requires forall i :: 0 <= i < |live| ==> MinRequiredFrame(live[i]) < INT_MAX
      requires forall i :: 0 <= i < |saving| ==> MinRequiredFrame(saving[i]) < INT_MAX
      modifies this`pruner
      ensures Valid() && Model() == Apply(params, old(Model()), ReadMinimum)
      ensures pruner.Erasing? && pruner.keepFrom == KeepFrom(minFrameToKeep)
    {
      minFrameToKeep := GetMinFrameToKeep();
      pruner := Erasing(KeepFrom(minFrameToKeep), frameCounter);
    }

    /** After the sleep the size is read again. */
    method ReadHistorySize()
      requires Valid() && pruner.Sleeping?
      modifies this`listSize, this`pruner
      ensures Valid() && Model() == Apply(params, old(Model()), ReadSize)
    {
      listSize := |history|;
      pruner := Reading;
    }

    /** One turn of the loop of pruneHistory, when nothing interferes. */
    method PrunePass() returns (ghost acts: seq<Action>)
      requires Valid() && pruner.Reading? && history != [] && listSize <= |history|
      requires forall i :: 0 <= i < |live| ==> MinRequiredFrame(live[i]) < INT_MAX
      requires forall i :: 0 <= i < |saving| ==> MinRequiredFrame(saving[i]) < INT_MAX
      modifies this`history, this`listSize, this`pruner
      ensures Valid() && IsPrunePass(acts) && Leads(params, old(Model()), acts, Model())
    {
      ghost var start := Model();
      var minFrameToKeep := BeginPass();
      ghost var middle := Model();
      ghost var pass := ErasePass(minFrameToKeep);
      acts := PassIsARun(params, start, middle, pass, Model());
      ReadHistorySize();
    }

    /** The k-th record being saved loses its oldest faces. */
    method PruneAt(t: FaceThread, ghost k: nat)
      requires Valid() && k < |beingSerialized| && beingSerialized[k] == t
      modifies t, this`saving, this`savers
      ensures Valid() && Model() == PruneInvariants.AfterTrimOf(params, old(Model()), k)
      ensures t.View() == Trim(old(t.View()), params.limits)
    {
      t.PruneFacesList(params.limits);
      saving := saving[k := Trim(saving[k], params.limits)];
      savers := savers[t.id := Choosing];
    }

    /** The start of saveAndDeleteThread, under the tracks' lock: the saver prunes the faces of its track. */
    method PruneSerialized(t: FaceThread)
      requires Valid() && t in beingSerialized
      requires PruneInvariants.LifeOk(Model()) && Enabled(params, Model(), SaverTrim(t.id))
      modifies t, this`saving, this`savers
      ensures Valid() && Model() == Apply(params, old(Model()), SaverTrim(t.id))
      ensures NewestLeft(old(t.View()), t.View(), params.limits.maxFaces)
    {
      TrimLeavesNewest(t.View(), params.limits);
      ghost var k :| 0 <= k < |beingSerialized| && beingSerialized[k] == t;
      PruneInvariants.TrimIsAStep(params, Model(), k);
      PruneAt(t, k);
    }

    /** The erasure of the k-th record being saved. */
    method RemoveAt(k: nat)
      requires Valid() && k < |beingSerialized|
      modifies this`beingSerialized, this`saving, this`savers, this`finished
      ensures Valid() && beingSerialized == Without(old(beingSerialized), k)
      ensures Model() == PruneInvariants.AfterFinish(old(Model()), k)
    {
      savers, finished := savers - {beingSerialized[k].id}, finished + {beingSerialized[k].id};
      beingSerialized, saving := Without(beingSerialized, k), Without(saving, k);
    }

    /** deleteThreadFromgThreads_beingSerialized: finds the record by its address and erases it. */
    method RemoveSerialized(t: FaceThread) returns (found: bool)
      requires Valid()
      modifies this`beingSerialized, this`saving, this`savers, this`finished
      ensures Valid() && found == (t in old(beingSerialized))
      ensures found ==>
        exists k :: 0 <= k < |old(beingSerialized)| && old(beingSerialized)[k] == t
          && beingSerialized == Without(old(beingSerialized), k)
          && Model() == old(Model()).(saving := Without(old(saving), k), savers := old(savers) - {t.id},
                                      finished := old(finished) + {t.id})
      ensures !found ==> Model() == old(Model())
      ensures found && PruneInvariants.LifeOk(old(Model())) && Enabled(params, old(Model()), SaverFinish(t.id)) ==>
        Model() == Apply(params, old(Model()), SaverFinish(t.id))
    {
      ghost var before := Model();
      for k := 0 to |beingSerialized|
        invariant t !in beingSerialized[..k] && Valid() && Model() == before
        invariant beingSerialized == old(beingSerialized)
      {
        if beingSerialized[k] == t {
          if PruneInvariants.LifeOk(before) && Enabled(params, before, SaverFinish(t.id)) {
            PruneInvariants.FinishIsAStep(params, before, k);
          }
          RemoveAt(k);
          return true;
        }
      }
      return false;
    }
  }
}
