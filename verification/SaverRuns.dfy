/** A saver's walk over whole runs of the protocol: main appends frames, the pruner erases them and other
    savers work while the walk goes on. */
module SaverRuns {
  import opened Tracks
  import opened PruneProtocol
  import opened PruneInvariants
  import opened PruneSafety

  /** Is this an action of the saver that ends or restarts its walk? */
  predicate BreaksWalk(a: Action, id: nat) {
    match a
    case SaverTrim(other) => other == id
    case SaverFind(other, _) => other == id
    case SaverStop(other) => other == id
    case SaverFinish(other) => other == id
    case _ => false
  }

  predicate WalksOn(acts: seq<Action>, id: nat) {
    forall k :: 0 <= k < |acts| ==> !BreaksWalk(acts[k], id)
  }

  function Advances(acts: seq<Action>, id: nat): nat {
    if acts == [] then 0 else (if acts[0] == SaverAdvance(id) then 1 else 0) + Advances(acts[1..], id)
  }

  /** The frame that an advance shows to the saver, if it stands on the one it looks for. */
  function VisitOf(ph: SaverPhase): seq<int> {
    if ph.Walking? && ph.next < |ph.targets| && ph.cursor == At(ph.targets[ph.next]) then [ph.cursor.frame] else []
  }

  function Visit(s: State, a: Action, id: nat): seq<int> {
    if a == SaverAdvance(id) && id in s.savers then VisitOf(s.savers[id]) else []
  }

  /** The frames visited in a run, in their order. */
  function Visits(p: Params, s: State, acts: seq<Action>, id: nat): seq<int>
    requires SaneParams(p) && IsRun(p, s, acts)
    decreases |acts|
  {
    if acts == [] then [] else Visit(s, acts[0], id) + Visits(p, Apply(p, s, acts[0]), acts[1..], id)
  }

  /** Everything that safety needs, and keeps. */
  ghost predicate Safe(p: Params, s: State)
    requires SaneParams(p)
  {
    Inv(p, s) && Protected(s) && SaversOk(s)
  }

  lemma SafeStep(p: Params, s: State, a: Action)
    requires SaneParams(p) && Safe(p, s) && Enabled(p, s, a) && Timely(p.minListSize, s)
    ensures Safe(p, Apply(p, s, a))
  {
    InvStep(p, s, a);
    ProtectedStep(p, p.minListSize, s, a);
    SaversStep(p, s, a);
  }

  /** The others leave a saver where it is. */
  lemma OthersLeaveSaver(p: Params, s: State, a: Action, id: nat)
    requires SaneParams(p) && LifeOk(s) && Enabled(p, s, a)
    requires id in s.savers && !BreaksWalk(a, id) && a != SaverAdvance(id)
    ensures var s' := Apply(p, s, a); id in s'.savers && s'.savers[id] == s.savers[id]
  {
    if a == CheckTrack { assert s.live[s.main.next].id in IdsOf(s.live); }
  }

  /** The phase of a walking saver after n of its targets. */
  ghost predicate WalkedTo(ph: SaverPhase, targets: seq<int>, n: nat) {
    && ph.Walking? && ph.targets == targets && ph.next == n <= |targets|
    && targets != [] && (n < |targets| ==> ph.cursor.At?)
  }

  /** How many advances are still to be made. */
  ghost function ToGo(ph: SaverPhase, targets: seq<int>, n: nat): int
    requires WalkedTo(ph, targets, n)
  {
    if n == |targets| then 0 else targets[|targets| - 1] - ph.cursor.frame + 1
  }

  /** One advance of a saver that is not at the end of its walk, and stands in the span that is kept. */
  lemma AdvanceMoves(history: seq<int>, ph: SaverPhase, targets: seq<int>, n: nat, t: Track) returns (n': nat)
    requires WalkedTo(ph, targets, n) && n < |targets| && SaverOk(t, ph)
    requires forall id :: FirstId(t) <= id <= LastId(t) ==> id in history
    ensures n <= n' <= |targets| && WalkedTo(Advance(history, ph), targets, n')
    ensures VisitOf(ph) == targets[n..n']
    ensures ToGo(Advance(history, ph), targets, n') == ToGo(ph, targets, n) - 1
  {
    var frame, last := ph.cursor.frame, |targets| - 1;
    assert frame in history;
    assert n < last ==> targets[n] < targets[last];
    assert frame < targets[last] ==> frame + 1 in history;
    n' := if frame == targets[n] then n + 1 else n;
  }

  lemma OwnAdvance(p: Params, s: State, id: nat, targets: seq<int>, n: nat) returns (n': nat)
    requires SaneParams(p) && Safe(p, s) && Enabled(p, s, SaverAdvance(id)) && WalkedTo(s.savers[id], targets, n)
    ensures n <= n' <= |targets| && Visit(s, SaverAdvance(id), id) == targets[n..n']
    ensures var s' := Apply(p, s, SaverAdvance(id));
      id in s'.savers && WalkedTo(s'.savers[id], targets, n')
      && ToGo(s'.savers[id], targets, n') == ToGo(s.savers[id], targets, n) - 1
  {
    ProtectionKeepsFrames(p, s);
    FindKnown(s.saving, id);
    var t := s.saving[Find(s.saving, id)];
    assert SaverOk(t, s.savers[id]) && SpanKept(s, t);
    n' := AdvanceMoves(s.history, s.savers[id], targets, n, t);
  }

  lemma WalkStep(p: Params, s: State, a: Action, id: nat, targets: seq<int>, n: nat) returns (n': nat)
    requires SaneParams(p) && Safe(p, s) && Enabled(p, s, a) && !BreaksWalk(a, id)
    requires id in s.savers && WalkedTo(s.savers[id], targets, n)
    ensures n <= n' <= |targets| && Visit(s, a, id) == targets[n..n']
    ensures var s' := Apply(p, s, a);
      id in s'.savers && WalkedTo(s'.savers[id], targets, n')
      && ToGo(s'.savers[id], targets, n') == ToGo(s.savers[id], targets, n) - if a == SaverAdvance(id) then 1 else 0
  {
    if a == SaverAdvance(id) {
      n' := OwnAdvance(p, s, id, targets, n);
    } else {
      OthersLeaveSaver(p, s, a, id);
      n' := n;
    }
  }

  lemma Glue(targets: seq<int>, n: nat, m: nat, n': nat)
    requires n <= m <= n' <= |targets|
    ensures targets[n..m] + targets[m..n'] == targets[n..n']
  {
  }

  /** From n targets on, the run has visited those up to n', at the price of its advances. */
  ghost predicate WalkedFromTo(p: Params, s: State, acts: seq<Action>, id: nat, targets: seq<int>, n: nat, n': nat)
    requires SaneParams(p)
  {
    && IsRun(p, s, acts) && id in s.savers && WalkedTo(s.savers[id], targets, n)
    && var e := After(p, s, acts);
    && n <= n' <= |targets| && Visits(p, s, acts, id) == targets[n..n']
    && id in e.savers && WalkedTo(e.savers[id], targets, n')
    && Advances(acts, id) == ToGo(s.savers[id], targets, n) - ToGo(e.savers[id], targets, n')
  }

  lemma WalkNil(p: Params, s: State, id: nat, targets: seq<int>, n: nat)
    requires SaneParams(p) && id in s.savers && WalkedTo(s.savers[id], targets, n)
    ensures WalkedFromTo(p, s, [], id, targets, n, n)
  {
  }

  /** One action takes the walk from n targets to m. */
  ghost predicate StepsTo(s: State, a: Action, s': State, id: nat, targets: seq<int>, n: nat, m: nat) {
    && id in s.savers && WalkedTo(s.savers[id], targets, n) && id in s'.savers && WalkedTo(s'.savers[id], targets, m)
    && n <= m && Visit(s, a, id) == targets[n..m]
    && ToGo(s'.savers[id], targets, m) == ToGo(s.savers[id], targets, n) - if a == SaverAdvance(id) then 1 else 0
  }

  lemma WalkCons(p: Params, s: State, acts: seq<Action>, id: nat, targets: seq<int>, n: nat, m: nat, n': nat)
    requires SaneParams(p) && IsRun(p, s, acts) && acts != []
    requires StepsTo(s, acts[0], Apply(p, s, acts[0]), id, targets, n, m)
    requires WalkedFromTo(p, Apply(p, s, acts[0]), acts[1..], id, targets, m, n')
    ensures WalkedFromTo(p, s, acts, id, targets, n, n')
  {
    Glue(targets, n, m, n');
  }

  lemma StepOfWalk(p: Params, s: State, acts: seq<Action>, id: nat, targets: seq<int>, n: nat)
    returns (s': State, m: nat)
    requires SaneParams(p) && Safe(p, s) && id in s.savers && WalkedTo(s.savers[id], targets, n)
    requires IsRun(p, s, acts) && acts != [] && TimelyRun(p, p.minListSize, s, acts) && WalksOn(acts, id)
    ensures s' == Apply(p, s, acts[0]) && IsRun(p, s', acts[1..]) && StepsTo(s, acts[0], s', id, targets, n, m)
    ensures Safe(p, s') && TimelyRun(p, p.minListSize, s', acts[1..]) && WalksOn(acts[1..], id)
  {
    s' := Apply(p, s, acts[0]);
    SafeStep(p, s, acts[0]);
    m := WalkStep(p, s, acts[0], id, targets, n);
  }

  lemma {:induction false} WalkVisits(p: Params, s: State, acts: seq<Action>, id: nat, targets: seq<int>, n: nat)
    returns (n': nat)
    requires SaneParams(p) && Safe(p, s) && id in s.savers && WalkedTo(s.savers[id], targets, n)
    requires IsRun(p, s, acts) && TimelyRun(p, p.minListSize, s, acts) && WalksOn(acts, id)
    ensures WalkedFromTo(p, s, acts, id, targets, n, n')
    decreases |acts|
  {
    if acts == [] {
      n' := n;
      WalkNil(p, s, id, targets, n);
    } else {
      var s', m := StepOfWalk(p, s, acts, id, targets, n);
      n' := WalkVisits(p, s', acts[1..], id, targets, m);
      WalkCons(p, s, acts, id, targets, n, m, n');
    }
  }

  lemma TargetsEnd(t: Track, smooth: bool)
    requires ValidTrack(t)
    ensures var targets := Targets(t, smooth); targets != [] && targets[|targets| - 1] == LastId(t)
  {
    LastFaceAndMisses(t);
  }

  lemma WalkBegins(p: Params, s: State, id: nat, smooth: bool) returns (t: Track)
    requires SaneParams(p) && Safe(p, s) && Enabled(p, s, SaverFind(id, smooth))
    ensures ValidTrack(t) && t in s.saving && t.id == id
    ensures var s1, targets := Apply(p, s, SaverFind(id, smooth)), Targets(t, smooth);
      id in s1.savers && WalkedTo(s1.savers[id], targets, 0)
      && ToGo(s1.savers[id], targets, 0) == LastId(t) - FirstId(t) + 1
  {
    ProtectionKeepsFrames(p, s);
    FindKnown(s.saving, id);
    t := s.saving[Find(s.saving, id)];
    assert SavedOk(s.frame, t);
    LocateFirst(s, t);
    TargetsOk(t, smooth);
    TargetsEnd(t, smooth);
  }

  /** The k-th frame that a saver wants: that of the k-th face, or with smoothing the k-th of all frames from the
      first face on. */
  ghost predicate IsWanted(t: Track, smooth: bool, k: nat, frame: int)
    requires t.faces != []
  {
    if smooth then frame == t.faces[0].frameId + k else k < |t.faces| && frame == t.faces[k].frameId
  }

  ghost predicate Span(t: Track, n: nat)
    requires t.faces != []
  {
    n == t.faces[|t.faces| - 1].frameId - t.faces[0].frameId + 1
  }

  /** How many frames it wants: one for every face, or with smoothing all from the first face to the last. */
  ghost predicate WantsSoMany(t: Track, smooth: bool, n: nat)
    requires t.faces != []
  {
    if smooth then Span(t, n) else n == |t.faces|
  }

  lemma TargetsAreWanted(t: Track, smooth: bool)
    requires ValidTrack(t)
    ensures var targets := Targets(t, smooth);
      WantsSoMany(t, smooth, |targets|) && forall k :: 0 <= k < |targets| ==> IsWanted(t, smooth, k, targets[k])
  {
    LastFaceAndMisses(t);
  }

  lemma VisitsAreWanted(t: Track, smooth: bool, visits: seq<int>, n: nat)
    requires ValidTrack(t) && n <= |Targets(t, smooth)| && visits == Targets(t, smooth)[..n]
    ensures |visits| == n && forall k :: 0 <= k < n ==> IsWanted(t, smooth, k, visits[k])
    ensures WantsSoMany(t, smooth, n) <==> n == |Targets(t, smooth)|
  {
    TargetsAreWanted(t, smooth);
  }

  /** A saver's walk, whatever main, the pruner and the other savers do meanwhile: the frames visited are the
      first ones of those wanted, in their order, each once; the walk is over after exactly as many
      advances as there are frames from the first face to the last; and then all were visited. */
  lemma WalkIsFaithful(p: Params, before: seq<Action>, id: nat, smooth: bool, walk: seq<Action>)
    returns (t: Track, n: nat)
    requires SaneParams(p) && IsRun(p, Init(), before) && TimelyRun(p, p.minListSize, Init(), before)
    requires Enabled(p, After(p, Init(), before), SaverFind(id, smooth)) && WalksOn(walk, id)
    requires var s1 := Apply(p, After(p, Init(), before), SaverFind(id, smooth));
             IsRun(p, s1, walk) && TimelyRun(p, p.minListSize, s1, walk)
    ensures t in After(p, Init(), before).saving && t.id == id && t.faces != []
    ensures var visits := Visits(p, Apply(p, After(p, Init(), before), SaverFind(id, smooth)), walk, id);
      |visits| == n && forall k :: 0 <= k < n ==> IsWanted(t, smooth, k, visits[k])
    ensures Advances(walk, id) <= LastId(t) - FirstId(t) + 1
    ensures Span(t, Advances(walk, id)) <==> WantsSoMany(t, smooth, n)
  {
    InvHoldsInitially(p);
    SafeThroughout(p, p.minListSize, Init(), before);
    var s := After(p, Init(), before);
    TimelyAtEnd(p, Init(), before);
    t := WalkBegins(p, s, id, smooth);
    SafeStep(p, s, SaverFind(id, smooth));
    var s1, targets := Apply(p, s, SaverFind(id, smooth)), Targets(t, smooth);
    n := WalkVisits(p, s1, walk, id, targets, 0);
    SafeThroughout(p, p.minListSize, s1, walk);
    var e := After(p, s1, walk);
    FindKnown(e.saving, id);
    StillToGo(e.saving[Find(e.saving, id)], e.savers[id], targets, n);
    VisitsAreWanted(t, smooth, Visits(p, s1, walk, id), n);
  }

  lemma {:induction false} TimelyAtEnd(p: Params, s: State, acts: seq<Action>)
    requires SaneParams(p) && IsRun(p, s, acts) && TimelyRun(p, p.minListSize, s, acts)
    ensures Timely(p.minListSize, After(p, s, acts))
    decreases |acts|
  {
    if acts != [] { TimelyAtEnd(p, Apply(p, s, acts[0]), acts[1..]); }
  }

  /** A walk that is not over has at least one advance to go. */
  lemma StillToGo(t: Track, ph: SaverPhase, targets: seq<int>, n: nat)
    requires WalkedTo(ph, targets, n) && SaverOk(t, ph)
    ensures ToGo(ph, targets, n) >= 0 && (ToGo(ph, targets, n) == 0 <==> n == |targets|)
  {
    var last := |targets| - 1;
    if n < last { assert targets[n] < targets[last]; }
  }
}
