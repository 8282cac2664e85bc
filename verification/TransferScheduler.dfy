/** The capped transfer scheduler: a list of URLs is fetched with a bounded number of transfers at a
    time, a new one being started for every message that the multi handle gives out. */
module TransferScheduler {
  import opened Basics

  /** A transfer is known by the index of its URL. */
  datatype Message = Done(handle: nat) | Other

  datatype Read = NoMessage | Message(msg: Message)

  /** One call of perform: the messages that come up in it, and whether the waiting afterwards fails. */
  datatype Round = Round(messages: seq<Message>, waitFails: bool)

  function Announced(m: Message): set<nat> {
    if m.Done? then {m.handle} else {}
  }

  /** The handles whose completion is announced. */
  function DoneIn(queue: seq<Message>): set<nat> {
    if queue == [] then {} else Announced(queue[0]) + DoneIn(queue[1..])
  }

  ghost predicate CompletionsOnly(messages: seq<Message>) {
    forall k :: 0 <= k < |messages| ==> messages[k].Done?
  }

  ghost predicate CompletionsToCome(rounds: seq<Round>) {
    rounds == [] || (CompletionsOnly(rounds[0].messages) && CompletionsToCome(rounds[1..]))
  }

  /** Every finished handle is announced once. */
  ghost predicate AnnouncedOnce(queue: seq<Message>) {
    queue == [] || (Announced(queue[0]) !! DoneIn(queue[1..]) && AnnouncedOnce(queue[1..]))
  }

  lemma {:induction false} QueueGrows(queue: seq<Message>, m: Message)
    requires AnnouncedOnce(queue) && Announced(m) !! DoneIn(queue)
    ensures AnnouncedOnce(queue + [m]) && DoneIn(queue + [m]) == DoneIn(queue) + Announced(m)
  {
    if queue == [] {
      assert [] + [m] == [m] && [m][1..] == [];
    } else {
      QueueGrows(queue[1..], m);
      assert (queue + [m])[1..] == queue[1..] + [m];
    }
  }

  function Upto(n: nat): seq<nat> {
    if n == 0 then [] else Upto(n - 1) + [n - 1]
  }

  function Listed(xs: seq<nat>): set<nat> {
    set x | x in xs
  }

  ghost predicate NoRepeats(xs: seq<nat>) {
    forall j, k :: 0 <= j < k < |xs| ==> xs[j] != xs[k]
  }

  /** The first c transfers are each in flight or reported, and not twice. */
  ghost predicate Accounted(handles: set<nat>, reported: seq<nat>, c: nat) {
    && NoRepeats(reported)
    && (forall i :: i in handles ==> i < c && i !in reported)
    && (forall i :: i in reported ==> i < c)
    && (forall i: nat :: i < c ==> i in handles || i in reported)
  }

  lemma {:induction false} ListedCount(xs: seq<nat>)
    requires NoRepeats(xs)
    ensures |Listed(xs)| == |xs|
  {
    if xs != [] {
      var n := |xs| - 1;
      ListedCount(xs[..n]);
      assert xs == xs[..n] + [xs[n]];
      assert Listed(xs) == Listed(xs[..n]) + {xs[n]};
    }
  }

  lemma AccountedCount(handles: set<nat>, reported: seq<nat>, c: nat)
    requires Accounted(handles, reported, c)
    ensures |handles| + |reported| == c
  {
    ListedCount(reported);
    assert handles + Listed(reported) == Below(c);
    assert |handles + Listed(reported)| == |handles| + |Listed(reported)|;
  }

  lemma AccountStart(handles: set<nat>, reported: seq<nat>, c: nat)
    requires Accounted(handles, reported, c)
    ensures c !in handles && Accounted(handles + {c}, reported, c + 1) && |handles| + |reported| == c
  {
    AccountedCount(handles, reported, c);
  }

  lemma AccountReport(handles: set<nat>, reported: seq<nat>, c: nat, h: nat)
    requires Accounted(handles, reported, c) && h in handles
    ensures Accounted(handles - {h}, reported + [h], c)
  {
  }

  /** Every handle is running or announced, and not twice. */
  ghost predicate Tidy(running: set<nat>, queue: seq<Message>, handles: set<nat>) {
    AnnouncedOnce(queue) && DoneIn(queue) !! running && handles == running + DoneIn(queue)
  }

  lemma TidyWhenPosted(running: set<nat>, queue: seq<Message>, handles: set<nat>, m: Message)
    requires Tidy(running, queue, handles) && Announced(m) <= running
    ensures Tidy(running - Announced(m), queue + [m], handles)
  {
    QueueGrows(queue, m);
  }

  lemma TidyWhenRead(running: set<nat>, queue: seq<Message>, handles: set<nat>, first: Message, rest: seq<Message>)
    requires Tidy(running, queue, handles) && queue != [] && first == queue[0] && rest == queue[1..]
    ensures Tidy(running, rest, handles - Announced(first)) && Announced(first) <= handles
    ensures |handles - Announced(first)| <= |handles|
    ensures CompletionsOnly(queue) ==> CompletionsOnly(rest) && first.Done?
  {
  }

  lemma TidyWhenAdded(running: set<nat>, queue: seq<Message>, handles: set<nat>, h: nat)
    requires Tidy(running, queue, handles) && h !in handles
    ensures h !in running && Tidy(running + {h}, queue, handles + {h})
    ensures |running + {h}| == |running| + 1 && |handles + {h}| == |handles| + 1
  {
  }

  /** The multi handle, with a schedule of what the network will do.  When the schedule is over, every
      call of perform finishes all that is running. */
  class Multi {
    var running: set<nat>
    var queue: seq<Message>
    var rounds: seq<Round>
    ghost const onlyDone: bool   // no messages but completions
    ghost var handles: set<nat>  // the transfers added and not yet removed
    ghost var peak: nat          // the most of them that there ever were

    ghost predicate Valid()
      reads this
    {
      && Tidy(running, queue, handles)
      && |handles| <= peak
      && (onlyDone ==> CompletionsOnly(queue) && CompletionsToCome(rounds))
    }

    constructor (rounds: seq<Round>)
      ensures Valid() && handles == {} && running == {} && queue == [] && this.rounds == rounds && peak == 0
      ensures onlyDone <==> CompletionsToCome(rounds)
    {
      onlyDone := CompletionsToCome(rounds);
      running, queue, this.rounds, handles, peak := {}, [], rounds, {}, 0;
    }

    method Add(h: nat)
      requires Valid() && h !in handles
      modifies this`running, this`handles, this`peak
      ensures Valid() && running == old(running) + {h} && |running| == |old(running)| + 1
      ensures handles == old(handles) + {h}
      ensures old(peak) <= peak && (peak == old(peak) || peak == |old(handles)| + 1)
    {
      TidyWhenAdded(running, queue, handles, h);
      running, handles := running + {h}, handles + {h};
      if |handles| > peak { peak := |handles|; }
    }

    /** A message comes up.  The completion of a transfer that is not running is no message. */
    method Post(m: Message)
      requires Valid() && (onlyDone ==> m.Done?)
      modifies this`running, this`queue
      ensures Valid()
      ensures running == old(running) - Announced(m)
    {
      if Announced(m) <= running {
        TidyWhenPosted(running, queue, handles, m);
        queue := queue + [m];
        running := running - Announced(m);
      }
    }

    method PostAll(messages: seq<Message>)
      requires Valid() && (onlyDone ==> CompletionsOnly(messages))
      modifies this`running, this`queue
      ensures Valid()
    {
      for i := 0 to |messages|
        invariant Valid()
      {
        Post(messages[i]);
      }
    }

    method FinishAll()
      requires Valid()
      modifies this`running, this`queue
      ensures Valid() && running == {}
    {
      while running != {}
        invariant Valid()
        decreases |running|
      {
        var h :| h in running;
        Post(Done(h));
      }
    }

    /** perform: the number of transfers still running. */
    method Perform() returns (u: nat, waitFails: bool)
      requires Valid()
      modifies this`running, this`queue, this`rounds
      ensures Valid() && u == |running|
      ensures old(rounds) != [] ==> rounds == old(rounds)[1..]
      ensures old(rounds) == [] ==> rounds == [] && u == 0
    {
      waitFails := false;
      if rounds != [] {
        waitFails := rounds[0].waitFails;
        PostAll(rounds[0].messages);
        rounds := rounds[1..];
      } else {
        FinishAll();
      }
      u := |running|;
    }

    /** info_read; a finished handle that is read is removed from the multi handle by the caller at once. */
    method InfoRead() returns (r: Read)
      requires Valid()
      modifies this`queue, this`handles
      ensures Valid()
      ensures old(queue) == [] ==> r == NoMessage && queue == []
      ensures old(queue) != [] ==> r == Read.Message(old(queue)[0]) && queue == old(queue)[1..]
      ensures onlyDone && r.Message? ==> r.msg.Done?
      ensures r.NoMessage? ==> handles == old(handles)
      ensures r.Message? ==> handles == old(handles) - Announced(r.msg) && Announced(r.msg) <= old(handles)
    {
      if queue == [] { return NoMessage; }
      var first, rest := queue[0], queue[1..];
      TidyWhenRead(running, queue, handles, first, rest);
      handles, queue := handles - Announced(first), rest;
      r := Read.Message(first);
    }
  }

  /** All that runs ran before or was started since, as a transfer from c on. */
  ghost predicate NewOnly(before: set<nat>, c: nat, running: set<nat>) {
    forall h :: h in running ==> h in before || h >= c
  }

  class Scheduler {
    const cnt: nat
    const max: nat
    const cm: Multi
    var c: nat                     // C: the next URL to start
    var u: int                     // U: how many are still running
    var reported: seq<nat>         // the transfers reported as finished, in that order
    ghost var others: nat          // messages that reported nothing
    ghost var started: seq<nat>

    /** The started transfers are the first c URLs in their order; each is in flight or reported; and
        there were never more in flight than the cap and the messages that reported nothing allow. */
    ghost predicate Valid()
      reads this, cm
    {
      && cm.Valid() && 1 <= max <= cnt && c <= cnt
      && started == Upto(c)
      && Accounted(cm.handles, reported, c)
      && cm.peak <= max + others && (cm.onlyDone ==> others == 0)
    }

    /** The cap is in force: another transfer was started for every message, as long as there was one. */
    ghost predicate Loaded()
      reads this
    {
      c == Min(cnt, max + |reported| + others)
    }

    constructor (cnt: nat, max: nat, rounds: seq<Round>)
      requires 1 <= max <= cnt
      ensures Valid() && c == 0 && u == -1 && fresh(cm)
      ensures this.cnt == cnt && this.max == max && reported == [] && others == 0
      ensures cm.onlyDone <==> CompletionsToCome(rounds)
      ensures cm.rounds == rounds && cm.running == {} && cm.queue == []
    {
      this.cnt, this.max, c, u := cnt, max, 0, -1;
      cm := new Multi(rounds);
      reported, others, started := [], 0, [];
    }

    /** init(cm, C++). */
    method StartNext()
      requires Valid() && c < cnt && c < max + |reported| + others
      modifies this`c, this`started, cm`running, cm`handles, cm`peak
      ensures Valid() && c == old(c) + 1 && cm.peak >= old(cm.peak)
      ensures cm.running == old(cm.running) + {old(c)} && |cm.running| == |old(cm.running)| + 1
    {
      var i := c;
      AccountStart(cm.handles, reported, i);
      c := c + 1;
      started := started + [i];
      cm.Add(i);
    }

    /** The transfer of a read message is reported. */
    method Report(h: nat, ghost before: set<nat>)
      requires cm.Valid() && 1 <= max <= cnt && c <= cnt && started == Upto(c)
      requires Accounted(before, reported, c) && cm.peak <= max + others
      requires h in before && cm.handles == before - {h} && (cm.onlyDone ==> others == 0)
      modifies this`reported
      ensures Valid() && reported == old(reported) + [h]
    {
      AccountReport(before, reported, c, h);
      reported := reported + [h];
    }

    /** A read message is taken account of. */
    method Take(m: Message, ghost before: set<nat>)
      requires cm.Valid() && 1 <= max <= cnt && c <= cnt && started == Upto(c)
      requires Accounted(before, reported, c) && cm.peak <= max + others
      requires Announced(m) <= before && cm.handles == before - Announced(m)
      requires cm.onlyDone ==> m.Done? && others == 0
      modifies this`reported, this`others
      ensures Valid() && |reported| + others == old(|reported| + others) + 1
      ensures old(reported) <= reported && others == old(others) + if m.Done? then 0 else 1
    {
      match m {
        case Done(h) =>
          Report(h, before);
        case Other =>
          others := others + 1;
      }
    }

    /** The next URL, if there is one, in exchange for a message. */
    method Refill()
      requires Valid() && u == |cm.running| && c == Min(cnt, max + |reported| + others - 1)
      modifies this`c, this`u, this`started, cm`running, cm`handles, cm`peak
      ensures Valid() && Loaded() && u == |cm.running| && NewOnly(old(cm.running), old(c), cm.running)
      ensures cm.peak >= old(cm.peak)
    {
      if c < cnt {
        StartNext();
        u := u + 1;
      }
    }

    /** Reads a message, if there is one, and takes account of it. */
    method TakeNext() returns (more: bool)
      requires Valid()
      modifies this`reported, this`others, cm`handles, cm`queue
      ensures Valid() && (more <==> old(cm.queue) != [])
      ensures |cm.queue| == if more then |old(cm.queue)| - 1 else 0
      ensures old(reported) <= reported && |reported| + others == old(|reported| + others) + if more then 1 else 0
    {
      ghost var before := cm.handles;
      var r := cm.InfoRead();
      if r.NoMessage? { return false; }
      Take(r.msg, before);
      more := true;
    }

    /** One turn of the message loop; more is false when there is no message. */
    method HandleMessage() returns (more: bool)
      requires Valid() && Loaded() && u == |cm.running|
      modifies this`c, this`u, this`reported, this`others, this`started, cm`running, cm`handles, cm`peak, cm`queue
      ensures Valid() && Loaded() && u == |cm.running|
      ensures more <==> old(cm.queue) != []
      ensures |cm.queue| == if more then |old(cm.queue)| - 1 else 0
      ensures old(reported) <= reported && c >= old(c) && NewOnly(old(cm.running), old(c), cm.running)
      ensures cm.peak >= old(cm.peak)
    {
      more := TakeNext();
      if more { Refill(); }
    }

    /** The message loop: all that had finished is reported. */
    method HandleMessages()
      requires Valid() && Loaded() && u == |cm.running|
      modifies this`c, this`u, this`reported, this`others, this`started, cm`running, cm`handles, cm`peak, cm`queue
      ensures Valid() && Loaded() && u == |cm.running| && cm.queue == []
      ensures old(reported) <= reported
      ensures forall h :: h in old(cm.handles) && h !in old(cm.running) ==> h in reported
      ensures cm.peak >= old(cm.peak)
    {
      var more := HandleMessage();
      while more
        invariant Valid() && Loaded() && u == |cm.running|
        invariant !more ==> cm.queue == []
        invariant old(reported) <= reported && c >= old(c) && NewOnly(old(cm.running), old(c), cm.running)
        invariant cm.peak >= old(cm.peak)
        decreases more, |cm.queue|
      {
        more := HandleMessage();
      }
      NothingForgotten(cm.handles, reported, c, old(cm.handles), old(cm.running), old(c));
    }

    /** One turn of the main loop: the schedule advances, or something is reported. */
    method Turn() returns (failed: bool)
      requires Valid() && Loaded() && cm.queue == [] && cm.running != {}
      modifies this`c, this`u, this`reported, this`others, this`started, cm
      ensures Valid() && Loaded()
      ensures cm.peak >= old(cm.peak)
      ensures !failed ==> cm.queue == [] && u == |cm.running|
      ensures !failed ==> |cm.rounds| <= |old(cm.rounds)| && |reported| >= |old(reported)|
      ensures !failed ==> |cm.rounds| < |old(cm.rounds)| || |reported| > |old(reported)|
    {
      ghost var before := reported;
      var h: nat :| h in cm.running;
      assert h in cm.handles && h !in before;
      u, failed := cm.Perform();
      if u != 0 && failed { return true; }
      failed := false;
      HandleMessages();
      assert old(cm.rounds) == [] ==> h in reported;
    }

    /** The whole program; ok is false where it gives up because waiting failed. */
    method Run() returns (ok: bool)
      requires Valid() && c == 0 && u == -1 && others == 0 && reported == [] && cm.running == {} && cm.queue == []
      modifies this`c, this`u, this`reported, this`others, this`started, cm
      ensures Valid() && Loaded()
      ensures max <= cm.peak <= max + others
      ensures cm.onlyDone ==> cm.peak == max
      ensures ok ==> |reported| == cnt && NoRepeats(reported) && (forall i: nat :: i < cnt ==> i in reported)
      ensures ok ==> started == Upto(cnt) && cm.handles == {}
    {
      while c < max
        invariant Valid() && c <= max && reported == [] && others == 0 && u == -1
        invariant cm.queue == [] && |cm.running| == c <= cm.peak && cm.rounds == old(cm.rounds)
      {
        StartNext();
        assert cm.handles == cm.running;
      }
      while u != 0
        invariant Valid() && Loaded() && cm.queue == []
        invariant u == |cm.running| || (u == -1 && cm.running != {})
        invariant |reported| <= cnt && cm.peak >= max
        decreases |cm.rounds|, cnt - |reported|
      {
        var failed := Turn();
        if failed { return false; }
        AccountedCount(cm.handles, reported, c);
      }
      AccountedCount(cm.handles, reported, c);
      assert cm.handles == {};
      ok := true;
    }
  }

  /** Between two messages exactly as many transfers are in flight as the cap allows, or all that are left;
      a message that is no completion would raise the number by one. */
  lemma InFlight(s: Scheduler)
    requires s.Valid() && s.Loaded()
    ensures |s.cm.handles| == Min(s.cnt - |s.reported|, s.max + s.others)
  {
    AccountedCount(s.cm.handles, s.reported, s.c);
  }

  /** What is neither in flight any more nor still running has been reported. */
  lemma NothingForgotten(handles: set<nat>, reported: seq<nat>, c: nat, before: set<nat>, running: set<nat>, c0: nat)
    requires Accounted(handles, reported, c) && c0 <= c && NewOnly(running, c0, handles)
    requires forall h :: h in before ==> h < c0
    ensures forall h :: h in before && h !in running ==> h in reported
  {
  }
}
