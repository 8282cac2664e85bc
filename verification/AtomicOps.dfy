/** Atomic operations on a shared 32-bit cell: retry loops around compare-and-swap, run by any number
    of threads, against the plain sequential bodies that a mutex would protect. */
module AtomicOps {
  import opened Basics

  const WORDS: int := 0x1_0000_0000

  type word = x: int | 0 <= x < WORDS

  datatype Op = Add(v: word) | Fas(v: word) | Load | Store(v: word) | Cas(expected: word, desired: word)

  datatype Result = Value(value: word) | Nothing | Compared(swapped: bool, cmp: word)

  /** The bodies for use under a mutex: the new cell and what is returned. */
  function Sequential(cell: word, op: Op): (word, Result) {
    match op
    case Add(v) => (Wrap(cell + v, WORDS), Value(cell))
    case Fas(v) => (v, Value(cell))
    case Load => (cell, Value(cell))
    case Store(v) => (v, Nothing)
    case Cas(expected, desired) =>
      if cell == expected then (desired, Compared(true, expected)) else (cell, Compared(false, cell))
  }

  // ---------- the lock-free bodies, one atomic access at a time ----------

  /** Operations that retry until their exchange succeeds; the others try once. */
  predicate Retries(op: Op) {
    op.Add? || op.Fas? || op.Store?
  }

  /** The value that the exchange puts into the cell if it still holds tmp. */
  function Desired(op: Op, tmp: word): word {
    match op
    case Add(v) => Wrap(tmp + v, WORDS)
    case Fas(v) => v
    case Load => tmp
    case Store(v) => v
    case Cas(_, desired) => desired
  }

  /** The compare-exchange with its wrapper: the new cell, the outcome, and the updated comparand. */
  function CompareExchange(cell: word, desired: word, cmp: word): (word, bool, word) {
    if cell == cmp then (desired, true, cmp) else (cell, false, cell)
  }

  /** What is returned after an exchange with this outcome and comparand. */
  function ResultOf(op: Op, swapped: bool, cmp: word): Result {
    match op
    case Add(_) => Value(cmp)
    case Fas(_) => Value(cmp)
    case Load => Value(cmp)
    case Store(_) => Nothing
    case Cas(_, _) => Compared(swapped, cmp)
  }

  /** Where a thread is in its operation.  The counts are for the proof only: how many operations had
      taken effect when this one was invoked (invokedAt) and when tmp was read (seen). */
  datatype Phase =
    | Idle
    | Reading(op: Op, invokedAt: nat)
    | Trying(op: Op, tmp: word, invokedAt: nat, seen: nat, failures: nat)
    | Finished(at: nat)

  /** The end of a call: not yet, or when so many operations had taken effect. */
  datatype End = Pending | Returned(at: nat)

  /** An operation that has taken effect. */
  datatype Entry = Entry(thread: nat, op: Op, result: Result, invokedAt: nat, end: End)

  datatype State = State(cell: word, threads: seq<Phase>, log: seq<Entry>)

  datatype Action = Invoke(t: nat, op: Op) | Read(t: nat) | Attempt(t: nat) | Return(t: nat)

  predicate Enabled(s: State, a: Action) {
    && a.t < |s.threads|
    && match a
       case Invoke(t, _) => s.threads[t].Idle?
       case Read(t) => s.threads[t].Reading?
       case Attempt(t) => s.threads[t].Trying?
       case Return(t) => s.threads[t].Finished? && s.threads[t].at < |s.log|
  }

  /** load and compare-and-swap know their comparand; the retry loops first read the cell. */
  function Begin(op: Op, n: nat): Phase {
    match op
    case Load => Trying(op, 0, n, n, 0)
    case Cas(expected, _) => Trying(op, expected, n, n, 0)
    case _ => Reading(op, n)
  }

  function AfterAttempt(s: State, t: nat): State
    requires t < |s.threads| && s.threads[t].Trying?
  {
    var p := s.threads[t];
    var (cell, swapped, cmp) := CompareExchange(s.cell, Desired(p.op, p.tmp), p.tmp);
    if swapped || !Retries(p.op) then
      State(cell, s.threads[t := Finished(|s.log|)],
            s.log + [Entry(t, p.op, ResultOf(p.op, swapped, cmp), p.invokedAt, Pending)])
    else
      State(cell, s.threads[t := Trying(p.op, cmp, p.invokedAt, |s.log|, p.failures + 1)], s.log)
  }

  function Apply(s: State, a: Action): State
    requires Enabled(s, a)
  {
    match a
    case Invoke(t, op) => s.(threads := s.threads[t := Begin(op, |s.log|)])
    case Read(t) =>
      var p := s.threads[t];
      s.(threads := s.threads[t := Trying(p.op, s.cell, p.invokedAt, |s.log|, 0)])
    case Attempt(t) => AfterAttempt(s, t)
    case Return(t) =>
      var at := s.threads[t].at;
      s.(threads := s.threads[t := Idle], log := s.log[at := s.log[at].(end := Returned(|s.log|))])
  }

  predicate IsRun(s: State, run: seq<Action>)
    decreases |run|
  {
    run != [] ==> Enabled(s, run[0]) && IsRun(Apply(s, run[0]), run[1..])
  }

  function After(s: State, run: seq<Action>): State
    requires IsRun(s, run)
    decreases |run|
  {
    if run == [] then s else After(Apply(s, run[0]), run[1..])
  }

  function Initial(cell: word, threads: nat): State {
    State(cell, seq(threads, _ => Idle), [])
  }

  // ---------- replaying the log ----------

  /** The cell after the first k logged operations, done one after the other by the plain bodies. */
  function CellAfter(init: word, log: seq<Entry>, k: nat): word
    requires k <= |log|
  {
    if k == 0 then init else Sequential(CellAfter(init, log, k - 1), log[k - 1].op).0
  }

  /** How many of the operations from a to b changed the cell. */
  function Changes(init: word, log: seq<Entry>, a: nat, b: nat): nat
    requires a <= b <= |log|
    decreases b - a
  {
    if a == b then 0
    else Changes(init, log, a, b - 1) + if CellAfter(init, log, b) != CellAfter(init, log, b - 1) then 1 else 0
  }

  ghost predicate SameOps(log: seq<Entry>, log': seq<Entry>) {
    |log| <= |log'| && forall k :: 0 <= k < |log| ==> log[k].op == log'[k].op
  }

  lemma {:induction false} CellAfterByOps(init: word, log: seq<Entry>, log': seq<Entry>, k: nat)
    requires SameOps(log, log') && k <= |log|
    ensures CellAfter(init, log, k) == CellAfter(init, log', k)
  {
    if k > 0 { CellAfterByOps(init, log, log', k - 1); }
  }

  lemma {:induction false} ChangesByOps(init: word, log: seq<Entry>, log': seq<Entry>, a: nat, b: nat)
    requires SameOps(log, log') && a <= b <= |log|
    ensures Changes(init, log, a, b) == Changes(init, log', a, b)
    decreases b - a
  {
    if a < b {
      ChangesByOps(init, log, log', a, b - 1);
      CellAfterByOps(init, log, log', b);
      CellAfterByOps(init, log, log', b - 1);
    }
  }

  lemma {:induction false} ChangesAddUp(init: word, log: seq<Entry>, a: nat, b: nat, c: nat)
    requires a <= b <= c <= |log|
    ensures Changes(init, log, a, c) == Changes(init, log, a, b) + Changes(init, log, b, c)
    decreases c - b
  {
    if b < c { ChangesAddUp(init, log, a, b, c - 1); }
  }

  /** A different value means that some operation in between changed the cell. */
  lemma {:induction false} DifferenceIsAChange(init: word, log: seq<Entry>, a: nat, b: nat)
    requires a <= b <= |log| && CellAfter(init, log, a) != CellAfter(init, log, b)
    ensures Changes(init, log, a, b) >= 1
    decreases b - a
  {
    if CellAfter(init, log, b) == CellAfter(init, log, b - 1) { DifferenceIsAChange(init, log, a, b - 1); }
  }

  // ---------- the invariant ----------

  /** The log explains the cell and every result, and each operation took effect between its
      invocation and its return. */
  ghost predicate LogOk(init: word, s: State) {
    && s.cell == CellAfter(init, s.log, |s.log|)
    && forall k :: 0 <= k < |s.log| ==> EntryOk(init, s.log, k)
  }

  ghost predicate EntryOk(init: word, log: seq<Entry>, k: nat)
    requires k < |log|
  {
    && log[k].result == Sequential(CellAfter(init, log, k), log[k].op).1
    && log[k].invokedAt <= k
    && (log[k].end.Returned? ==> k < log[k].end.at <= |log|)
  }

  ghost predicate PhaseOk(init: word, log: seq<Entry>, t: nat, p: Phase) {
    match p
    case Idle => true
    case Reading(op, invokedAt) => Retries(op) && invokedAt <= |log|
    case Trying(op, tmp, invokedAt, seen, failures) =>
      && invokedAt <= seen <= |log|
      && (Retries(op) ==> tmp == CellAfter(init, log, seen) && failures <= Changes(init, log, invokedAt, seen))
      && (op.Cas? ==> tmp == op.expected)
      && (op.Load? ==> tmp == 0)
    case Finished(at) => at < |log| && log[at].thread == t && log[at].end.Pending?
  }

  ghost predicate ThreadsOk(init: word, s: State) {
    forall t :: 0 <= t < |s.threads| ==> PhaseOk(init, s.log, t, s.threads[t])
  }

  /** An operation that took effect and has not returned is the one that its thread is finishing. */
  ghost predicate PendingOk(s: State) {
    forall k :: 0 <= k < |s.log| && s.log[k].end.Pending? ==>
      s.log[k].thread < |s.threads| && s.threads[s.log[k].thread] == Finished(k)
  }

  ghost predicate Inv(init: word, s: State) {
    LogOk(init, s) && ThreadsOk(init, s) && PendingOk(s)
  }

  /** A thread about to return returns the result of its own operation. */
  ghost predicate FinishedOk(s: State) {
    forall t :: 0 <= t < |s.threads| && s.threads[t].Finished? ==>
      var at := s.threads[t].at; at < |s.log| && s.log[at].thread == t && s.log[at].end.Pending?
  }

  /** One exchange does what the plain body does, or fails having changed nothing. */
  lemma AttemptIsSequential(cell: word, op: Op, tmp: word)
    requires op.Cas? ==> tmp == op.expected
    requires op.Load? ==> tmp == 0
    ensures var (cell', swapped, cmp) := CompareExchange(cell, Desired(op, tmp), tmp);
      if swapped || !Retries(op) then (cell', ResultOf(op, swapped, cmp)) == Sequential(cell, op)
      else cell' == cell == cmp && cell != tmp
  {
  }

  lemma PhaseStays(init: word, log: seq<Entry>, log': seq<Entry>, t: nat, p: Phase)
    requires PhaseOk(init, log, t, p) && SameOps(log, log')
    requires p.Finished? ==> log'[p.at] == log[p.at]
    ensures PhaseOk(init, log', t, p)
  {
    if p.Trying? && Retries(p.op) {
      CellAfterByOps(init, log, log', p.seen);
      ChangesByOps(init, log, log', p.invokedAt, p.seen);
    }
  }

  lemma EntryStays(init: word, log: seq<Entry>, log': seq<Entry>, k: nat)
    requires k < |log| && EntryOk(init, log, k) && SameOps(log, log')
    requires log'[k].result == log[k].result && log'[k].invokedAt == log[k].invokedAt
    requires log'[k].end == log[k].end || log'[k].end == Returned(|log'|)
    ensures EntryOk(init, log', k)
  {
    CellAfterByOps(init, log, log', k);
  }

  lemma SucceedKeepsInv(init: word, s: State, t: nat)
    requires Inv(init, s) && t < |s.threads| && s.threads[t].Trying?
    requires s.cell == s.threads[t].tmp || !Retries(s.threads[t].op)
    ensures Inv(init, AfterAttempt(s, t))
  {
    var p, s' := s.threads[t], AfterAttempt(s, t);
    assert PhaseOk(init, s.log, t, p);
    AttemptIsSequential(s.cell, p.op, p.tmp);
    var n := |s.log|;
    assert SameOps(s.log, s'.log);
    CellAfterByOps(init, s.log, s'.log, n);
    assert s'.log[n].op == p.op;
    forall k | 0 <= k < |s'.log| ensures EntryOk(init, s'.log, k) {
      if k < n { EntryStays(init, s.log, s'.log, k); }
    }
    forall u | 0 <= u < |s'.threads| ensures PhaseOk(init, s'.log, u, s'.threads[u]) {
      if u != t { PhaseStays(init, s.log, s'.log, u, s.threads[u]); }
    }
    assert forall k :: 0 <= k < n && s.log[k].end.Pending? ==> s.log[k].thread != t;
  }

  lemma FailKeepsInv(init: word, s: State, t: nat)
    requires Inv(init, s) && t < |s.threads| && s.threads[t].Trying?
    requires s.cell != s.threads[t].tmp && Retries(s.threads[t].op)
    ensures Inv(init, AfterAttempt(s, t))
  {
    var p, s' := s.threads[t], AfterAttempt(s, t);
    assert PhaseOk(init, s.log, t, p);
    DifferenceIsAChange(init, s.log, p.seen, |s.log|);
    ChangesAddUp(init, s.log, p.invokedAt, p.seen, |s.log|);
    assert PhaseOk(init, s.log, t, s'.threads[t]);
    assert forall u :: 0 <= u < |s'.threads| && u != t ==> s'.threads[u] == s.threads[u];
  }

  lemma ReturnKeepsInv(init: word, s: State, t: nat)
    requires Inv(init, s) && Enabled(s, Return(t))
    ensures Inv(init, Apply(s, Return(t)))
  {
    var s', at := Apply(s, Return(t)), s.threads[t].at;
    assert PhaseOk(init, s.log, t, s.threads[t]);
    assert SameOps(s.log, s'.log);
    CellAfterByOps(init, s.log, s'.log, |s.log|);
    forall k | 0 <= k < |s'.log| ensures EntryOk(init, s'.log, k) {
      assert EntryOk(init, s.log, k);
      EntryStays(init, s.log, s'.log, k);
    }
    forall u | 0 <= u < |s'.threads| ensures PhaseOk(init, s'.log, u, s'.threads[u]) {
      assert PhaseOk(init, s.log, u, s.threads[u]);
      if u != t { PhaseStays(init, s.log, s'.log, u, s.threads[u]); }
    }
  }

  lemma StepKeepsInv(init: word, s: State, a: Action)
    requires Inv(init, s) && Enabled(s, a)
    ensures Inv(init, Apply(s, a))
  {
    assert PhaseOk(init, s.log, a.t, s.threads[a.t]);
    match a {
      case Invoke(t, op) =>
        assert PhaseOk(init, s.log, t, Begin(op, |s.log|));
      case Read(t) =>
        assert PhaseOk(init, s.log, t, Apply(s, a).threads[t]);
      case Attempt(t) =>
        if s.cell == s.threads[t].tmp || !Retries(s.threads[t].op) {
          SucceedKeepsInv(init, s, t);
        } else {
          FailKeepsInv(init, s, t);
        }
      case Return(t) =>
        ReturnKeepsInv(init, s, t);
    }
  }

  lemma {:induction false} RunKeepsInv(init: word, s: State, run: seq<Action>)
    requires Inv(init, s) && IsRun(s, run)
    ensures Inv(init, After(s, run))
    decreases |run|
  {
    if run != [] {
      StepKeepsInv(init, s, run[0]);
      RunKeepsInv(init, Apply(s, run[0]), run[1..]);
    }
  }

  /** One operation returned before the other was invoked. */
  predicate Precedes(e: Entry, f: Entry) {
    e.end.Returned? && e.end.at <= f.invokedAt
  }

  /** Linearizability: after any interleaving, replaying the plain bodies in the order of the log gives
      the cell and every result; and each operation lies in the log between its invocation and its
      return, so that operations that do not overlap stand there in their real order. */
  lemma RunsAreLinearizable(init: word, threads: nat, run: seq<Action>)
    requires IsRun(Initial(init, threads), run)
    ensures var s := After(Initial(init, threads), run);
      && s.cell == CellAfter(init, s.log, |s.log|)
      && (forall k :: 0 <= k < |s.log| ==>
            s.log[k].result == Sequential(CellAfter(init, s.log, k), s.log[k].op).1)
      && (forall j, k :: 0 <= j < |s.log| && 0 <= k < |s.log| && Precedes(s.log[j], s.log[k]) ==> j < k)
      && PendingOk(s) && FinishedOk(s)
  {
    RunKeepsInv(init, Initial(init, threads), run);
    var s := After(Initial(init, threads), run);
    forall k | 0 <= k < |s.log|
      ensures s.log[k].result == Sequential(CellAfter(init, s.log, k), s.log[k].op).1
    {
      assert EntryOk(init, s.log, k);
    }
    forall j, k | 0 <= j < |s.log| && 0 <= k < |s.log| && Precedes(s.log[j], s.log[k]) ensures j < k {
      assert EntryOk(init, s.log, j) && EntryOk(init, s.log, k);
    }
    assert forall t :: 0 <= t < |s.threads| ==> PhaseOk(init, s.log, t, s.threads[t]);
  }

  ghost predicate OnlyAdds(log: seq<Entry>) {
    forall k :: 0 <= k < |log| ==> log[k].op.Add?
  }

  /** What the first k operations add up to. */
  function Added(log: seq<Entry>, k: nat): int
    requires k <= |log| && OnlyAdds(log)
  {
    if k == 0 then 0 else Added(log, k - 1) + log[k - 1].op.v
  }

  /** x is the initial value and what the first k operations add. */
  ghost predicate IsSum(x: word, init: word, log: seq<Entry>, k: nat)
    requires k <= |log| && OnlyAdds(log)
  {
    x == (init + Added(log, k)) % 0x1_0000_0000
  }

  lemma {:induction false} AddsAddUp(init: word, log: seq<Entry>, k: nat)
    requires k <= |log| && OnlyAdds(log)
    ensures IsSum(CellAfter(init, log, k), init, log, k)
  {
    if k > 0 { AddsAddUp(init, log, k - 1); }
  }

  lemma AddReturns(init: word, log: seq<Entry>, k: nat)
    requires k < |log| && OnlyAdds(log) && EntryOk(init, log, k)
    ensures log[k].result == Value(CellAfter(init, log, k))
  {
  }

  /** The cell holds the initial value and all that was added, and each addition returned what the cell held after
      those before it. */
  ghost predicate NothingLost(init: word, s: State)
    requires OnlyAdds(s.log)
  {
    && IsSum(s.cell, init, s.log, |s.log|)
    && forall k :: 0 <= k < |s.log| ==> s.log[k].result.Value? && IsSum(s.log[k].result.value, init, s.log, k)
  }

  lemma LoggedAddsAreKept(init: word, s: State)
    requires LogOk(init, s) && OnlyAdds(s.log)
    ensures NothingLost(init, s)
  {
    AddsAddUp(init, s.log, |s.log|);
    forall k | 0 <= k < |s.log| ensures s.log[k].result.Value? && IsSum(s.log[k].result.value, init, s.log, k) {
      AddReturns(init, s.log, k);
      AddsAddUp(init, s.log, k);
    }
  }

  /** No increment is lost, whatever the interleaving, if all operations that took effect are additions. */
  lemma NoIncrementIsLost(init: word, threads: nat, run: seq<Action>)
    requires IsRun(Initial(init, threads), run) && OnlyAdds(After(Initial(init, threads), run).log)
    ensures NothingLost(init, After(Initial(init, threads), run))
  {
    RunKeepsInv(init, Initial(init, threads), run);
    LoggedAddsAreKept(init, After(Initial(init, threads), run));
  }

  /** Every failed exchange of a pending operation is paid for by another operation that took effect
      since the invocation and changed the cell; loads never make anyone retry. */
  lemma RetriesArePaidFor(init: word, threads: nat, run: seq<Action>, t: nat)
    requires IsRun(Initial(init, threads), run)
    requires var s := After(Initial(init, threads), run); t < |s.threads| && s.threads[t].Trying?
    ensures var s := After(Initial(init, threads), run); var p := s.threads[t];
      && p.invokedAt <= |s.log|
      && (Retries(p.op) ==> p.failures <= Changes(init, s.log, p.invokedAt, |s.log|))
  {
    RunKeepsInv(init, Initial(init, threads), run);
    var s := After(Initial(init, threads), run);
    var p := s.threads[t];
    assert PhaseOk(init, s.log, t, p);
    ChangesAddUp(init, s.log, p.invokedAt, p.seen, |s.log|);
  }

  /** Left alone, a thread needs at most two exchanges. */
  lemma AloneTwoAttemptsSuffice(s: State, t: nat)
    requires t < |s.threads| && s.threads[t].Trying?
    ensures var s' := AfterAttempt(s, t);
      s'.threads[t].Finished? || (s'.threads[t].Trying? && AfterAttempt(s', t).threads[t].Finished?)
  {
  }

  /** The exchange of a load never changes the cell. */
  lemma LoadChangesNothing(s: State, t: nat)
    requires t < |s.threads| && s.threads[t].Trying? && s.threads[t].op.Load?
    ensures var s' := AfterAttempt(s, t);
      s'.cell == s.cell && s'.threads[t] == Finished(|s.log|) && s'.log[|s.log|].result == Value(s.cell)
  {
    assert Desired(Load, s.threads[t].tmp) == s.threads[t].tmp;
  }

  // ---------- the bodies as they are written ----------

  /** The shared cell.  Before each access of the running thread, the other threads may put a value
      into it; others lists what they will put there. */
  class Cell {
    var a: word
    var others: seq<word>
    ghost var met: word      // what the cell held at the last exchange

    constructor (a: word, others: seq<word>)
      ensures this.a == a && this.others == others
    {
      this.a, this.others, met := a, others, a;
    }

    method Interfere()
      modifies this`a, this`others
      ensures old(others) == [] ==> a == old(a) && others == []
      ensures old(others) != [] ==> a == old(others)[0] && others == old(others)[1..]
    {
      if others != [] {
        a, others := others[0], others[1..];
      }
    }

    /** The compare-and-swap over the exchange primitive; cmp' is the updated comparand. */
    method CompareAndSwap(cmp: word, desired: word) returns (ret: bool, cmp': word)
      modifies this
      ensures met == if old(others) == [] then old(a) else old(others)[0]
      ensures others == if old(others) == [] then [] else old(others)[1..]
      ensures (a, ret, cmp') == CompareExchange(met, desired, cmp)
      ensures (a, Compared(ret, cmp')) == Sequential(met, Op.Cas(cmp, desired))
      ensures (ret <==> met == cmp) && a == (if ret then desired else met) && cmp' == (if ret then cmp else met)
    {
      Interfere();
      met := a;
      var initialCmp := cmp;
      var initialA := a;
      if a == initialCmp { a := desired; }
      ret := initialA == initialCmp;
      cmp' := cmp;
      if !ret { cmp' := initialA; }
    }

    /** Add by retries: whatever the others do, the effect is that of the plain body at the moment of
        the last exchange. */
    method Add(v: word) returns (r: word)
      modifies this
      ensures met == old(a) || met in old(others)
      ensures (a, Value(r)) == Sequential(met, Op.Add(v))
      ensures r == met && a == (met + v) % 0x1_0000_0000
    {
      Interfere();
      var tmp: word := a;
      var done := false;
      while !done
        invariant !done ==> tmp == a
        invariant done ==> (a, Value(tmp)) == Sequential(met, Op.Add(v))
        invariant done ==> met == old(a) || met in old(others)
        invariant a == old(a) || a in old(others) || done
        invariant forall x :: x in others ==> x in old(others)
        decreases !done, |others|
      {
        done, tmp := CompareAndSwap(tmp, Wrap(tmp + v, WORDS));
      }
      r := tmp;
    }

    /** Fetch-and-store by retries. */
    method FetchAndStore(v: word) returns (r: word)
      modifies this
      ensures met == old(a) || met in old(others)
      ensures (a, Value(r)) == Sequential(met, Op.Fas(v))
      ensures (a, Nothing) == Sequential(met, Op.Store(v))
      ensures r == met && a == v
    {
      Interfere();
      var tmp: word := a;
      var done := false;
      while !done
        invariant !done ==> tmp == a
        invariant done ==> (a, Value(tmp)) == Sequential(met, Op.Fas(v))
        invariant done ==> met == old(a) || met in old(others)
        invariant a == old(a) || a in old(others) || done
        invariant forall x :: x in others ==> x in old(others)
        decreases !done, |others|
      {
        done, tmp := CompareAndSwap(tmp, v);
      }
      r := tmp;
    }

    /** Load by one exchange of a value for itself: the value that the others left, which stays. */
    method Load() returns (ret: word)
      modifies this
      ensures met == if old(others) == [] then old(a) else old(others)[0]
      ensures (a, Value(ret)) == Sequential(met, Op.Load)
      ensures ret == met == a
    {
      ret := 0;
      var swapped;
      swapped, ret := CompareAndSwap(ret, ret);
    }
  }
}
