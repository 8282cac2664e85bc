/** The lock discipline of main, the pruner and the savers.

    Each actor is a control-flow graph whose edges enter or leave one of the two critical sections;
    a critical section may be entered again by its owner.  No actor ever waits for one lock while
    it holds the other, and from this no reachable state is deadlocked. */
module Locking {
  datatype Lock = HistoryLock | TracksLock

  datatype Place =
    // main
    | FrameStart | Appending | Matching | HandingOver | Spawning | Seeding | Seeded | PruningFaces
    // the pruner
    | Waiting | FirstSize | Waited | PassStart | ReadingMinimum | ErasingLoop | ErasingOne | Slept | Sizing
    // a saver
    | SaverStart | SaverPruning | SaverJobs | Locating | Walking | Copying | Removing | RemovingAgain | Removed | Done

  datatype Instr = Acquire(lock: Lock) | Release(lock: Lock) | Local | Spawn

  datatype Edge = Edge(instr: Instr, to: Place)

  function Edges(at: Place): seq<Edge> {
    match at
    case FrameStart => [Edge(Acquire(HistoryLock), Appending)]
    case Appending => [Edge(Release(HistoryLock), Matching)]
    case Matching => [Edge(Acquire(TracksLock), HandingOver), Edge(Acquire(TracksLock), Seeding)]
    case HandingOver => [Edge(Release(TracksLock), Spawning)]
    case Spawning => [Edge(Spawn, Matching)]
    case Seeding => [Edge(Release(TracksLock), Seeded)]
    case Seeded => [Edge(Acquire(TracksLock), PruningFaces), Edge(Local, FrameStart)]
    case PruningFaces => [Edge(Release(TracksLock), FrameStart)]
    case Waiting => [Edge(Acquire(HistoryLock), FirstSize)]
    case FirstSize => [Edge(Release(HistoryLock), Waited)]
    case Waited => [Edge(Local, Waiting), Edge(Local, PassStart)]
    case PassStart => [Edge(Acquire(TracksLock), ReadingMinimum)]
    case ReadingMinimum => [Edge(Release(TracksLock), ErasingLoop)]
    case ErasingLoop => [Edge(Acquire(HistoryLock), ErasingOne), Edge(Local, Slept)]
    case ErasingOne => [Edge(Release(HistoryLock), ErasingLoop)]
    case Slept => [Edge(Acquire(HistoryLock), Sizing)]
    case Sizing => [Edge(Release(HistoryLock), PassStart)]
    case SaverStart => [Edge(Acquire(TracksLock), SaverPruning)]
    case SaverPruning => [Edge(Release(TracksLock), SaverJobs)]
    case SaverJobs => [Edge(Acquire(HistoryLock), Locating), Edge(Acquire(TracksLock), Removing)]
    case Locating => [Edge(Release(HistoryLock), Walking)]
    case Walking => [Edge(Acquire(HistoryLock), Copying), Edge(Local, SaverJobs)]
    case Copying => [Edge(Release(HistoryLock), Walking)]
    case Removing => [Edge(Acquire(TracksLock), RemovingAgain), Edge(Release(TracksLock), Done)]
    case RemovingAgain => [Edge(Release(TracksLock), Removed)]
    case Removed => [Edge(Release(TracksLock), Done)]
    case Done => []
  }

  /** How often an actor at this place has entered the lock. */
  function Depth(at: Place, lock: Lock): nat {
    match lock
    case HistoryLock =>
      (match at case Appending | FirstSize | ErasingOne | Sizing | Locating | Copying => 1 case _ => 0)
    case TracksLock =>
      (match at
       case HandingOver | Seeding | PruningFaces | ReadingMinimum | SaverPruning | Removing | Removed => 1
       case RemovingAgain => 2
       case _ => 0)
  }

  /** owner and depth as the operating system keeps them for each critical section. */
  datatype Section = Free | Owned(owner: nat, depth: nat)

  datatype State = State(places: map<nat, Place>, sections: map<Lock, Section>)

  function Init(): State {
    State(map[0 := FrameStart, 1 := Waiting], map[HistoryLock := Free, TracksLock := Free])
  }

  predicate CanTake(s: State, a: nat, k: nat)
    requires a in s.places && HistoryLock in s.sections && TracksLock in s.sections
  {
    && k < |Edges(s.places[a])|
    && match Edges(s.places[a])[k].instr
       case Acquire(l) => KnownSection(s, l).Free? || KnownSection(s, l).owner == a
       case _ => true
  }

  function KnownSection(s: State, l: Lock): Section
    requires HistoryLock in s.sections && TracksLock in s.sections
  {
    match l case HistoryLock => s.sections[HistoryLock] case TracksLock => s.sections[TracksLock]
  }

  /** Actor a takes edge k; a new saver gets the id `newcomer`. */
  ghost predicate Step(s: State, a: nat, k: nat, newcomer: nat, s': State) {
    && HistoryLock in s.sections && TracksLock in s.sections
    && a in s.places && CanTake(s, a, k) && newcomer !in s.places
    && var e := Edges(s.places[a])[k];
       match e.instr
       case Acquire(l) =>
         var sec := KnownSection(s, l);
         s' == State(s.places[a := e.to],
                     s.sections[l := Owned(a, if sec.Free? then 1 else sec.depth + 1)])
       case Release(l) =>
         var sec := KnownSection(s, l);
         s' == State(s.places[a := e.to],
                     s.sections[l := if sec.Free? || sec.depth <= 1 then Free else Owned(sec.owner, sec.depth - 1)])
       case Local => s' == s.(places := s.places[a := e.to])
       case Spawn => s' == s.(places := s.places[a := e.to][newcomer := SaverStart])
  }

  /** The sections agree with the places of the actors. */
  ghost predicate SectionOk(s: State, l: Lock)
    requires HistoryLock in s.sections && TracksLock in s.sections
  {
    match KnownSection(s, l)
    case Free => forall a :: a in s.places ==> Depth(s.places[a], l) == 0
    case Owned(o, d) =>
      && o in s.places && Depth(s.places[o], l) == d && d > 0
      && forall a :: a in s.places && a != o ==> Depth(s.places[a], l) == 0
  }

  predicate OfMain(at: Place) {
    at in {FrameStart, Appending, Matching, HandingOver, Spawning, Seeding, Seeded, PruningFaces}
  }

  ghost predicate Inv(s: State) {
    && HistoryLock in s.sections && TracksLock in s.sections
    && SectionOk(s, HistoryLock) && SectionOk(s, TracksLock)
    && 0 in s.places && OfMain(s.places[0])
  }

  /** Every edge changes the depth of one lock by one, as it says, and of no other. */
  lemma EdgesKeepDepth(at: Place, k: nat)
    requires k < |Edges(at)|
    ensures var e := Edges(at)[k];
      forall l: Lock :: Depth(e.to, l) == Depth(at, l)
        + (if e.instr == Acquire(l) then 1 else 0) - (if e.instr == Release(l) then 1 else 0)
  {
  }

  /** No place that asks for a lock it does not hold holds the other one. */
  lemma NeverAsksWhileHolding(at: Place, k: nat, l: Lock)
    requires k < |Edges(at)| && Edges(at)[k].instr == Acquire(l)
    ensures forall l': Lock :: l' != l ==> Depth(at, l') == 0
  {
  }

  /** Inside a critical section an actor can always go on: it leaves, or enters again. */
  lemma HoldersGoOn(at: Place, l: Lock)
    requires Depth(at, l) > 0
    ensures Edges(at) != []
    ensures forall k :: 0 <= k < |Edges(at)| ==> Edges(at)[k].instr == Acquire(l) || Edges(at)[k].instr == Release(l)
  {
  }

  lemma StepKeepsInv(s: State, a: nat, k: nat, newcomer: nat, s': State)
    requires Inv(s) && Step(s, a, k, newcomer, s')
    ensures Inv(s')
  {
    EdgesKeepDepth(s.places[a], k);
    SectionStep(s, a, k, newcomer, s', HistoryLock);
    SectionStep(s, a, k, newcomer, s', TracksLock);
  }

  lemma SectionStep(s: State, a: nat, k: nat, newcomer: nat, s': State, l: Lock)
    requires Inv(s) && Step(s, a, k, newcomer, s')
    requires var e := Edges(s.places[a])[k];
      forall m: Lock :: Depth(e.to, m) == Depth(s.places[a], m)
        + (if e.instr == Acquire(m) then 1 else 0) - (if e.instr == Release(m) then 1 else 0)
    ensures SectionOk(s', l)
  {
    assert SectionOk(s, l);
  }

  /** An actor that cannot go on waits for a lock whose owner can. */
  lemma BlockedByOneWhoCanGoOn(s: State, a: nat) returns (b: nat)
    requires Inv(s) && a in s.places && Edges(s.places[a]) != []
    ensures b in s.places && CanTake(s, b, 0)
    ensures b == a || !CanTake(s, a, 0)
  {
    if CanTake(s, a, 0) {
      b := a;
    } else {
      var l := Edges(s.places[a])[0].instr.lock;
      assert SectionOk(s, l);
      b := KnownSection(s, l).owner;
      HoldersGoOn(s.places[b], l);
    }
  }

  // ---------- runs ----------

  datatype Move = Move(actor: nat, edge: nat, newcomer: nat)

  /** states is a run: it starts initially and each state follows by a move. */
  ghost predicate IsRun(states: seq<State>, moves: seq<Move>) {
    && |states| == |moves| + 1 && states[0] == Init()
    && forall i :: 0 <= i < |moves| ==>
         Step(states[i], moves[i].actor, moves[i].edge, moves[i].newcomer, states[i + 1])
  }

  lemma {:induction false} InvThroughout(states: seq<State>, moves: seq<Move>, n: nat)
    requires IsRun(states, moves) && n < |states|
    ensures Inv(states[n])
  {
    if n > 0 {
      InvThroughout(states, moves, n - 1);
      var m := moves[n - 1];
      StepKeepsInv(states[n - 1], m.actor, m.edge, m.newcomer, states[n]);
    }
  }

  /** In every state of every run two actors are never inside the same critical section. */
  lemma MutualExclusion(states: seq<State>, moves: seq<Move>, n: nat, a: nat, b: nat, l: Lock)
    requires IsRun(states, moves) && n < |states|
    requires a in states[n].places && b in states[n].places && a != b
    ensures Depth(states[n].places[a], l) == 0 || Depth(states[n].places[b], l) == 0
  {
    InvThroughout(states, moves, n);
    assert SectionOk(states[n], l);
  }

  /** In every state of every run, with any number of savers, some actor can take a step; and any
      actor that is not finished either can go on itself or waits for one that can. */
  lemma NoDeadlock(states: seq<State>, moves: seq<Move>, n: nat)
    requires IsRun(states, moves) && n < |states|
    ensures var s := states[n];
      && Inv(s)
      && (exists b :: b in s.places && CanTake(s, b, 0))
      && forall a :: a in s.places && s.places[a] != Done ==>
           exists b :: b in s.places && CanTake(s, b, 0) && (b == a || !CanTake(s, a, 0))
  {
    InvThroughout(states, moves, n);
    var s := states[n];
    forall a | a in s.places && s.places[a] != Done
      ensures exists b :: b in s.places && CanTake(s, b, 0) && (b == a || !CanTake(s, a, 0))
    {
      var b := BlockedByOneWhoCanGoOn(s, a);
    }
    var c := BlockedByOneWhoCanGoOn(s, 0);
  }
}
