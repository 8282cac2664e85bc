/** The timing assumption of the pruning theorem cannot be weakened: with one frame more there is
    a run that erases a frame which a track still needs. */
module PruneTightness {
  import opened Tracks
  import opened PruneProtocol
  import opened PruneInvariants
  import opened PruneSafety

  /** acts leads from the initial state to s, within the timing bound. */
  ghost predicate Reaches(p: Params, bound: nat, acts: seq<Action>, s: State)
    requires SaneParams(p)
  {
    IsRun(p, Init(), acts) && TimelyRun(p, bound, Init(), acts) && After(p, Init(), acts) == s
  }

  /** All frames that tracks span are kept, in every run within the bound. */
  ghost predicate SafeUnder(p: Params, bound: nat)
    requires SaneParams(p)
  {
    forall acts, s :: Reaches(p, bound, acts, s) ==> FramesKept(s)
  }

  lemma {:induction false} ExtendRun(p: Params, bound: nat, s: State, acts: seq<Action>, a: Action)
    requires SaneParams(p) && IsRun(p, s, acts) && TimelyRun(p, bound, s, acts)
    requires Enabled(p, After(p, s, acts), a) && Timely(bound, Apply(p, After(p, s, acts), a))
    ensures IsRun(p, s, acts + [a]) && TimelyRun(p, bound, s, acts + [a])
    ensures After(p, s, acts + [a]) == Apply(p, After(p, s, acts), a)
    decreases |acts|
  {
    if acts == [] {
      assert acts + [a] == [a] && [a][1..] == [];
    } else {
      ExtendRun(p, bound, Apply(p, s, acts[0]), acts[1..], a);
      assert (acts + [a])[1..] == acts[1..] + [a];
    }
  }

  lemma Take(p: Params, bound: nat, acts: seq<Action>, s: State, a: Action) returns (acts': seq<Action>)
    requires SaneParams(p) && Reaches(p, bound, acts, s) && Enabled(p, s, a) && Timely(bound, Apply(p, s, a))
    ensures Reaches(p, bound, acts', Apply(p, s, a))
  {
    ExtendRun(p, bound, Init(), acts, a);
    acts' := acts + [a];
  }

  /** Main is between frames, nothing was ever detected, and the history holds all n frames. */
  ghost predicate Blank(s: State, n: nat) {
    && s.main.Idle? && s.frame == n && s.live == [] && s.saving == [] && s.pruner.Waiting?
    && s.history == seq(n, k => k + 1)
  }

  /** One frame without tracks, up to the point where new tracks are added. */
  lemma BlankFrame(p: Params, bound: nat, acts: seq<Action>, s: State, n: nat) returns (acts': seq<Action>, s': State)
    requires SaneParams(p) && Reaches(p, bound, acts, s) && Blank(s, n) && n + 1 < INT_MAX
    ensures Reaches(p, bound, acts', s')
    ensures s'.main.Seeding? && Blank(s'.(main := Idle), n + 1)
  {
    acts' := Take(p, bound, acts, s, BeginFrame);
    s' := Apply(p, s, BeginFrame);
    acts' := Take(p, bound, acts', s', DoneAging);
    s' := Apply(p, s', DoneAging);
    acts' := Take(p, bound, acts', s', DoneBurying);
    s' := Apply(p, s', DoneBurying);
    assert s'.history == seq(n + 1, k => k + 1);
  }

  lemma FinishFrame(p: Params, bound: nat, acts: seq<Action>, s: State, faces: seq<Face>)
    returns (acts': seq<Action>, s': State)
    requires SaneParams(p) && Reaches(p, bound, acts, s) && s.main.Seeding? && Timely(bound, s)
    requires Enabled(p, s, Seed(faces))
    requires forall i :: 0 <= i < |s.live| ==> |s.live[i].faces| == 1
    ensures Reaches(p, bound, acts', s')
    ensures s' == s.(live := s.live + NewTracks(s.nextId, faces), nextId := s.nextId + |faces|, main := Idle)
  {
    acts' := Take(p, bound, acts, s, Seed(faces));
    s' := Apply(p, s, Seed(faces));
    if s'.main.Trimming? {
      assert TrimEach(s'.live, p.limits) == s'.live;
      acts' := Take(p, bound, acts', s', TrimAll);
      s' := Apply(p, s', TrimAll);
    }
  }

  lemma {:induction false} BlankFrames(p: Params, bound: nat, n: nat) returns (acts: seq<Action>, s: State)
    requires SaneParams(p) && n < INT_MAX
    ensures Reaches(p, bound, acts, s) && Blank(s, n)
  {
    if n == 0 {
      acts, s := [], Init();
    } else {
      acts, s := BlankFrames(p, bound, n - 1);
      acts, s := BlankFrame(p, bound, acts, s, n - 1);
      acts, s := FinishFrame(p, bound, acts, s, []);
    }
  }

  /** A pass that found no track is under way; since then one track was created, in the newest frame
      of that moment, and n frames went by in which it was not seen. */
  ghost predicate Stale(p: Params, s: State, n: nat) {
    s.main.Idle? && StaleWithin(p, s, n)
  }

  /** The same at any point of a frame. */
  ghost predicate StaleWithin(p: Params, s: State, n: nat) {
    var m := p.minListSize;
    && s.frame == m + 1 + n
    && s.pruner == Erasing(INT_MAX, m + 1) && s.listSize == m + 1
    && s.history == seq(m + 1 + n, k => k + 1)
    && |s.live| + |s.saving| == 1
    && (s.live != [] ==> HoldsOnly(s.live[0], m + 1))
    && (s.saving != [] ==> HoldsOnly(s.saving[0], m + 1))
  }

  ghost predicate HoldsOnly(t: Track, frame: int) {
    |t.faces| == 1 && t.faces[0].frameId == frame
  }

  lemma FirstTrack(p: Params, bound: nat) returns (acts: seq<Action>, s: State)
    requires SaneParams(p) && bound > p.minListSize && p.minListSize + 1 < INT_MAX
    ensures Reaches(p, bound, acts, s) && Stale(p, s, 0)
  {
    var m := p.minListSize;
    acts, s := BlankFrames(p, bound, m);
    acts, s := BlankFrame(p, bound, acts, s, m);
    acts := Take(p, bound, acts, s, WaitForHistory);
    s := Apply(p, s, WaitForHistory);
    acts := Take(p, bound, acts, s, ReadMinimum);
    s := Apply(p, s, ReadMinimum);
    var face := Face(Box(0, 0, 1, 1), m + 1);
    acts, s := FinishFrame(p, bound, acts, s, [face]);
  }

  /** A frame in which the track is not seen, up to the check of the track. */
  lemma MissedAging(p: Params, bound: nat, acts: seq<Action>, s: State, n: nat) returns (acts': seq<Action>, s': State)
    requires SaneParams(p) && Reaches(p, bound, acts, s) && Stale(p, s, n)
    requires n + 1 < bound && s.frame + 1 < INT_MAX
    ensures Reaches(p, bound, acts', s') && s'.main == Burying(0) && StaleWithin(p, s', n + 1)
  {
    acts' := Take(p, bound, acts, s, BeginFrame);
    s' := Apply(p, s, BeginFrame);
    if s'.live != [] {
      acts' := Take(p, bound, acts', s', AgeTrack(Missed));
      s' := Apply(p, s', AgeTrack(Missed));
    }
    acts' := Take(p, bound, acts', s', DoneAging);
    s' := Apply(p, s', DoneAging);
    assert s'.history == seq(p.minListSize + 2 + n, k => k + 1);
  }

  lemma MissedFrame(p: Params, bound: nat, acts: seq<Action>, s: State, n: nat) returns (acts': seq<Action>, s': State)
    requires SaneParams(p) && Reaches(p, bound, acts, s) && Stale(p, s, n)
    requires n + 1 < bound && s.frame + 1 < INT_MAX
    ensures Reaches(p, bound, acts', s') && Stale(p, s', n + 1)
  {
    acts', s' := MissedAging(p, bound, acts, s, n);
    if s'.live != [] {
      acts' := Take(p, bound, acts', s', CheckTrack);
      s' := Apply(p, s', CheckTrack);
    }
    acts' := Take(p, bound, acts', s', DoneBurying);
    s' := Apply(p, s', DoneBurying);
    acts', s' := FinishFrame(p, bound, acts', s', []);
  }

  lemma {:induction false} MissedFrames(p: Params, bound: nat, n: nat) returns (acts: seq<Action>, s: State)
    requires SaneParams(p) && bound > p.minListSize && n <= p.minListSize && p.minListSize + 1 + n < INT_MAX
    ensures Reaches(p, bound, acts, s) && Stale(p, s, n)
  {
    if n == 0 {
      acts, s := FirstTrack(p, bound);
    } else {
      acts, s := MissedFrames(p, bound, n - 1);
      acts, s := MissedFrame(p, bound, acts, s, n - 1);
    }
  }

  /** The pass goes on erasing while the list is longer than the minimum. */
  lemma EraseDown(p: Params, bound: nat, acts: seq<Action>, s: State) returns (acts': seq<Action>, s': State)
    requires SaneParams(p) && Reaches(p, bound, acts, s) && Timely(bound, s)
    requires s.pruner.Erasing? && s.pruner.keepFrom == INT_MAX && s.listSize > p.minListSize
    requires |s.history| >= p.minListSize
    requires forall k :: 0 <= k < |s.history| ==> s.history[k] == s.frame - |s.history| + 1 + k
    requires s.frame < INT_MAX && |s.history| > p.minListSize
    ensures Reaches(p, bound, acts', s')
    ensures s'.live == s.live && s'.saving == s.saving && |s'.history| == p.minListSize
    ensures forall k :: 0 <= k < |s'.history| ==> s'.history[k] == s.frame - p.minListSize + 1 + k
    decreases |s.history|
  {
    acts' := Take(p, bound, acts, s, Erase);
    s' := Apply(p, s, Erase);
    if |s'.history| > p.minListSize {
      acts', s' := EraseDown(p, bound, acts', s');
    }
  }

  lemma UnsafeRun(p: Params, bound: nat) returns (acts: seq<Action>, s: State)
    requires SaneParams(p) && bound > p.minListSize && 2 * p.minListSize + 1 < INT_MAX
    ensures Reaches(p, bound, acts, s) && !FramesKept(s)
  {
    var m := p.minListSize;
    acts, s := MissedFrames(p, bound, m);
    acts, s := EraseDown(p, bound, acts, s);
    assert m + 1 !in s.history;
    var t := if s.live != [] then s.live[0] else s.saving[0];
    assert !SpanKept(s, t);
  }

  /** The claim that the pruner cannot pass a frame a saver needs holds exactly when the number of
      frames that can arrive during a pass that found no track stays below minListSize. */
  lemma SafeIffFewerFramesThanMinimum(p: Params, bound: nat)
    requires SaneParams(p) && 2 * p.minListSize + 1 < INT_MAX
    ensures SafeUnder(p, bound) <==> bound <= p.minListSize
  {
    if bound <= p.minListSize {
      forall acts, s | Reaches(p, bound, acts, s) ensures FramesKept(s) {
        InvHoldsInitially(p);
        SafeThroughout(p, bound, Init(), acts);
        ProtectionKeepsFrames(p, s);
      }
    } else {
      var acts, s := UnsafeRun(p, bound);
    }
  }
}
