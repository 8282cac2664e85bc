/** The main thread, the history pruner and any number of saver threads, as steps over the frame
    history, the live tracks and the tracks being saved.

    Every region that the program protects with a lock is one step.  What main does to a track
    between locks is one step per track.  The model is a transition system: `Enabled` says when an
    action can be taken and `Apply` what it does. */
module PruneProtocol {
  import opened Tracks

  const INT_MAX: int := 0x7fff_ffff

  datatype Params = Params(limits: Limits, minListSize: nat)

  ghost predicate SaneParams(p: Params) {
    Sane(p.limits) && p.minListSize >= 1
  }

  /** Where main is in processing a frame. */
  datatype MainPhase = Idle | Aging(next: nat) | Burying(next: nat) | Seeding | Trimming

  /** keepFrom is the pruner's minFrameToKeep; readAt is a history variable, the newest frame when
      it was read. */
  datatype PrunerPhase = Waiting | Reading | Erasing(keepFrom: int, readAt: int) | Sleeping

  /** An iterator into the history: at the node of some frame, or past the end. */
  datatype Cursor = At(frame: int) | End

  /** Crashed stands for a failed assertion, or for using an iterator without a node. */
  datatype SaverPhase = Created | Choosing | Walking(targets: seq<int>, cursor: Cursor, next: nat) | Crashed

  datatype State = State(
    history: seq<int>,
    frame: int,
    live: seq<Track>,
    saving: seq<Track>,
    savers: map<nat, SaverPhase>,
    finished: set<nat>,
    nextId: nat,
    main: MainPhase,
    pruner: PrunerPhase,
    listSize: nat)

  function Init(): State {
    State([], 0, [], [], map[], {}, 0, Idle, Waiting, 0)
  }

  datatype Detection = Missed | Seen(face: Face)

  datatype Action =
    | BeginFrame
    | AgeTrack(detection: Detection)
    | DoneAging
    | CheckTrack
    | DoneBurying
    | Seed(faces: seq<Face>)
    | TrimAll
    | WaitForHistory
    | ReadMinimum
    | Erase
    | EndPass
    | ReadSize
    | SaverTrim(id: nat)
    | SaverFind(id: nat, smooth: bool)
    | SaverAdvance(id: nat)
    | SaverStop(id: nat)
    | SaverFinish(id: nat)

  // ---------- pieces of the steps ----------

  /** FDFaceThread::minRequiredFrame. */
  function MinRequiredFrame(t: Track): int {
    if t.faces == [] then INT_MAX else FirstId(t)
  }

  function MinOver(tracks: seq<Track>, start: int): int {
    if tracks == [] then start
    else
      var m := MinOver(tracks[..|tracks| - 1], start);
      var f := MinRequiredFrame(tracks[|tracks| - 1]);
      if f < m then f else m
  }

  /** getMinFrameToKeep: -1 when there is no track at all. */
  function MinFrameToKeep(live: seq<Track>, saving: seq<Track>): int {
    if live == [] && saving == [] then -1 else MinOver(saving, MinOver(live, INT_MAX))
  }

  /** The pruner treats "no track" as "keep nothing". */
  function KeepFrom(minFrameToKeep: int): int {
    if minFrameToKeep == -1 then INT_MAX else minFrameToKeep
  }

  function NewTracks(firstId: nat, faces: seq<Face>): (ts: seq<Track>)
    ensures |ts| == |faces|
    ensures forall k :: 0 <= k < |ts| ==> ts[k] == NewTrack(firstId + k, faces[k])
  {
    seq(|faces|, k requires 0 <= k < |faces| => NewTrack(firstId + k, faces[k]))
  }

  function TrimEach(ts: seq<Track>, lim: Limits): (r: seq<Track>)
    ensures |r| == |ts|
    ensures forall k :: 0 <= k < |ts| ==> r[k] == Trim(ts[k], lim)
  {
    seq(|ts|, k requires 0 <= k < |ts| => Trim(ts[k], lim))
  }

  function Without<T>(s: seq<T>, i: nat): seq<T>
    requires i < |s|
  {
    s[..i] + s[i + 1..]
  }

  /** The position of a track in a list, or the length of the list. */
  function Find(ts: seq<Track>, id: nat): (k: nat)
    ensures k <= |ts|
    ensures k < |ts| ==> ts[k].id == id
    ensures forall i :: 0 <= i < k ==> ts[i].id != id
  {
    if ts == [] then 0
    else if ts[0].id == id then 0
    else 1 + Find(ts[1..], id)
  }

  /** The frames a saver walks over: those of the faces, or with smoothing every frame from the
      first face to the last. */
  function Targets(t: Track, smooth: bool): seq<int>
    requires t.faces != []
  {
    if smooth && FirstId(t) <= LastId(t)
    then seq(LastId(t) - FirstId(t) + 1, k => FirstId(t) + k)
    else Ids(t.faces)
  }

  /** Scan the history from its beginning for the first frame that is not before id. */
  function Locate(history: seq<int>, id: int): Cursor {
    if history == [] then End
    else if history[0] < id then Locate(history[1..], id)
    else At(history[0])
  }

  /** The step of an iterator to the following node. */
  function Following(history: seq<int>, c: Cursor): Cursor {
    if c.At? && c.frame + 1 in history then At(c.frame + 1) else End
  }

  function Advance(history: seq<int>, ph: SaverPhase): SaverPhase
    requires ph.Walking? && ph.next < |ph.targets|
  {
    if ph.cursor.End? || ph.cursor.frame !in history then Crashed
    else if ph.cursor.frame < ph.targets[ph.next] then ph.(cursor := Following(history, ph.cursor))
    else if ph.cursor.frame == ph.targets[ph.next]
    then ph.(cursor := Following(history, ph.cursor), next := ph.next + 1)
    else Crashed
  }

  // ---------- what main does to the state ----------

  function AfterBegin(s: State): State {
    s.(frame := s.frame + 1, history := s.history + [s.frame + 1], main := Aging(0))
  }

  /** The hand-over of track k to the savers. */
  function AfterHandOver(s: State, k: nat): State
    requires k < |s.live|
  {
    s.(live := Without(s.live, k), saving := s.saving + [s.live[k]], savers := s.savers[s.live[k].id := Created])
  }

  function AfterAdding(s: State, faces: seq<Face>): State {
    s.(live := s.live + NewTracks(s.nextId, faces), nextId := s.nextId + |faces|)
  }

  // ---------- the transition system ----------

  predicate Enabled(p: Params, s: State, a: Action)
    requires SaneParams(p)
  {
    match a
    case BeginFrame => s.main.Idle? && s.frame + 1 < INT_MAX
    case AgeTrack(d) => s.main.Aging? && s.main.next < |s.live| && (d.Seen? ==> d.face.frameId == s.frame)
    case DoneAging => s.main.Aging? && s.main.next == |s.live|
    case CheckTrack => s.main.Burying? && s.main.next < |s.live|
    case DoneBurying => s.main.Burying? && s.main.next == |s.live|
    case Seed(faces) => s.main.Seeding? && forall k :: 0 <= k < |faces| ==> faces[k].frameId == s.frame
    case TrimAll => s.main.Trimming?
    case WaitForHistory => s.pruner.Waiting?
    case ReadMinimum => s.pruner.Reading?
    case Erase => MayErase(p, s)
    case EndPass => s.pruner.Erasing? && !MayErase(p, s)
    case ReadSize => s.pruner.Sleeping?
    case SaverTrim(id) => id in s.savers && s.savers[id].Created?
    case SaverFind(id, _) => id in s.savers && s.savers[id].Choosing?
    case SaverAdvance(id) => id in s.savers && s.savers[id].Walking? && s.savers[id].next < |s.savers[id].targets|
    case SaverStop(id) => id in s.savers && s.savers[id].Walking?
    case SaverFinish(id) => id in s.savers && s.savers[id].Choosing?
  }

  /** The condition of the pruner's erase loop. */
  predicate MayErase(p: Params, s: State) {
    && s.pruner.Erasing?
    && s.history != [] && s.history[0] < s.pruner.keepFrom
    && s.listSize > p.minListSize
  }

  function Apply(p: Params, s: State, a: Action): State
    requires SaneParams(p) && Enabled(p, s, a)
  {
    match a
    case BeginFrame =>
      AfterBegin(s)
    case AgeTrack(d) =>
      var k := s.main.next;
      var t := if d.Seen? then Hit(s.live[k], d.face) else Miss(s.live[k]);
      s.(live := s.live[k := t], main := Aging(k + 1))
    case DoneAging =>
      s.(main := Burying(0))
    case CheckTrack =>
      var k := s.main.next;
      if IsDead(s.live[k], p.limits) then AfterHandOver(s, k) else s.(main := Burying(k + 1))
    case DoneBurying =>
      s.(main := Seeding)
    case Seed(faces) =>
      AfterAdding(s, faces).(main := if s.frame % p.limits.pruneInterval == 0 then Trimming else Idle)
    case TrimAll =>
      s.(live := TrimEach(s.live, p.limits), main := Idle)
    case WaitForHistory =>
      s.(listSize := |s.history|, pruner := if |s.history| > p.minListSize then Reading else Waiting)
    case ReadMinimum =>
      var m := MinFrameToKeep(s.live, s.saving);
      s.(pruner := Erasing(KeepFrom(m), s.frame))
    case Erase =>
      s.(history := s.history[1..], listSize := |s.history| - 1)
    case EndPass =>
      s.(pruner := Sleeping)
    case ReadSize =>
      s.(listSize := |s.history|, pruner := Reading)
    case SaverTrim(id) =>
      var k := Find(s.saving, id);
      if k < |s.saving|
      then s.(saving := s.saving[k := Trim(s.saving[k], p.limits)], savers := s.savers[id := Choosing])
      else s.(savers := s.savers[id := Crashed])
    case SaverFind(id, smooth) =>
      var k := Find(s.saving, id);
      if k < |s.saving| && s.saving[k].faces != []
      then
        var targets := Targets(s.saving[k], smooth);
        s.(savers := s.savers[id := Walking(targets, Locate(s.history, FirstId(s.saving[k])), 0)])
      else s.(savers := s.savers[id := Crashed])
    case SaverAdvance(id) =>
      s.(savers := s.savers[id := Advance(s.history, s.savers[id])])
    case SaverStop(id) =>
      s.(savers := s.savers[id := Choosing])
    case SaverFinish(id) =>
      var k := Find(s.saving, id);
      if k < |s.saving|
      then s.(saving := Without(s.saving, k), savers := s.savers - {id}, finished := s.finished + {id})
      else s.(savers := s.savers[id := Crashed])
  }

  // ---------- runs ----------

  /** Every action can be taken when its turn comes. */
  predicate IsRun(p: Params, s: State, acts: seq<Action>)
    requires SaneParams(p)
    decreases |acts|
  {
    acts == [] || (Enabled(p, s, acts[0]) && IsRun(p, Apply(p, s, acts[0]), acts[1..]))
  }

  function After(p: Params, s: State, acts: seq<Action>): State
    requires SaneParams(p) && IsRun(p, s, acts)
    decreases |acts|
  {
    if acts == [] then s else After(p, Apply(p, s, acts[0]), acts[1..])
  }

  lemma {:induction false} RunsCompose(p: Params, s: State, first: seq<Action>, second: seq<Action>)
    requires SaneParams(p) && IsRun(p, s, first) && IsRun(p, After(p, s, first), second)
    ensures IsRun(p, s, first + second)
    ensures After(p, s, first + second) == After(p, After(p, s, first), second)
    decreases |first|
  {
    if first == [] {
      assert first + second == second;
    } else {
      RunsCompose(p, Apply(p, s, first[0]), first[1..], second);
      assert (first + second)[1..] == first[1..] + second;
    }
  }
}
