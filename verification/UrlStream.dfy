/** The buffered URL stream: data arrives in chunks of any size and is read in portions of any size.

    The transfer library is an environment: a schedule of rounds, in each of which it either does
    nothing or delivers some chunks through the write callback.  The transfer is running as long as
    a delivering round is still to come. */
module UrlStream {
  import opened Basics

  const NEWLINE: byte := 10

  /** A round of the select loop: a timeout or error, or the deliveries of curl_multi_perform. */
  datatype Round = Idle | Perform(chunks: seq<seq<byte>>)

  function Concat(chunks: seq<seq<byte>>): seq<byte> {
    if chunks == [] then [] else chunks[0] + Concat(chunks[1..])
  }

  /** What one round delivers. */
  function Delivery(r: Round): seq<byte> {
    match r case Idle => [] case Perform(chunks) => Concat(chunks)
  }

  /** Everything that the schedule will deliver. */
  function Incoming(schedule: seq<Round>): seq<byte> {
    if schedule == [] then [] else Delivery(schedule[0]) + Incoming(schedule[1..])
  }

  /** The transfer ends with a delivering round. */
  predicate Wellformed(schedule: seq<Round>) {
    schedule != [] ==> schedule[|schedule| - 1].Perform?
  }

  // ---------- what a request takes from the bytes in front of it ----------

  datatype Request = Fread(size: nat, nmemb: nat) | Fgets(size: nat)

  /** What the program can be asked at all: fread divides by the item size, and fgets needs room for
      the terminating zero. */
  predicate IsServable(q: Request) {
    q.size >= 1
  }

  /** fgets needs room for one byte of the line as well. */
  predicate IsProper(q: Request) {
    match q case Fread(size, _) => size >= 1 case Fgets(size) => size >= 2
  }

  predicate AllProper(qs: seq<Request>) {
    forall k :: 0 <= k < |qs| ==> IsProper(qs[k])
  }

  /** The most bytes that a request may take. */
  function Want(q: Request): nat
    requires IsServable(q)
  {
    match q case Fread(size, nmemb) => nmemb * size case Fgets(size) => size - 1
  }

  /** The length of the line at the front of s, its newline included, within a limit. */
  function LineLength(s: seq<byte>, limit: nat): (n: nat)
    requires limit <= |s|
    ensures n <= limit
    ensures forall k :: 0 <= k < n - 1 ==> s[k] != NEWLINE
    ensures n < limit ==> n > 0 && s[n - 1] == NEWLINE
    decreases limit
  {
    if limit == 0 then 0
    else if s[0] == NEWLINE then 1
    else 1 + LineLength(s[1..], limit - 1)
  }

  /** How many of the bytes b a request takes. */
  function Cut(b: seq<byte>, q: Request): (n: nat)
    requires IsServable(q)
    ensures n <= |b|
  {
    var n := Min(Want(q), |b|);
    if q.Fgets? then LineLength(b, n) else n
  }

  /** What the caller sees: the item count of fread, or whether fgets returned a line; and the bytes. */
  datatype Reply = Items(count: nat, data: seq<byte>) | Line(found: bool, data: seq<byte>)

  /** The item count that fread reports; bytes of a partial item are taken but not counted. */
  function WholeItems(bytes: nat, size: nat): (count: nat)
    requires size >= 1
    ensures count * size <= bytes < (count + 1) * size
  {
    bytes / size
  }

  function ReplyFrom(b: seq<byte>, q: Request): Reply
    requires IsServable(q)
  {
    var data := b[..Cut(b, q)];
    match q case Fread(size, _) => Items(WholeItems(|data|, size), data) case Fgets(_) => Line(b != [], data)
  }

  /** The replies to a sequence of requests, as a function of the byte stream alone. */
  function Replies(stream: seq<byte>, qs: seq<Request>): seq<Reply>
    requires AllProper(qs)
  {
    if qs == [] then []
    else [ReplyFrom(stream, qs[0])] + Replies(stream[Cut(stream, qs[0])..], qs[1..])
  }

  // ---------- what the program does with its buffer ----------

  /** The bytes waiting in the buffer and the rounds still to come. */
  datatype Source = Source(buffered: seq<byte>, schedule: seq<Round>)

  function RestOf(f: Source): seq<byte> {
    f.buffered + Incoming(f.schedule)
  }

  function NextRound(f: Source): Source
    requires f.schedule != []
  {
    Source(f.buffered + Delivery(f.schedule[0]), f.schedule[1..])
  }

  /** The do-while loop of fill_buffer. */
  function FillLoop(f: Source, want: nat): Source
    requires f.schedule != []
    decreases |f.schedule|
  {
    var g := NextRound(f);
    if g.schedule != [] && |g.buffered| < want then FillLoop(g, want) else g
  }

  function Fill(f: Source, want: nat): Source {
    if f.schedule == [] || |f.buffered| > want then f else FillLoop(f, want)
  }

  /** url_fread and url_fgets fill the buffer and then answer from the buffer only. */
  function Filled(f: Source, q: Request): Source
    requires IsServable(q)
  {
    Fill(f, Want(q))
  }

  function ServeReply(f: Source, q: Request): Reply
    requires IsServable(q)
  {
    ReplyFrom(Filled(f, q).buffered, q)
  }

  function AfterServing(f: Source, q: Request): Source
    requires IsServable(q)
  {
    var g := Filled(f, q);
    Source(g.buffered[Cut(g.buffered, q)..], g.schedule)
  }

  function ServeAll(f: Source, qs: seq<Request>): seq<Reply>
    requires AllProper(qs)
    decreases |qs|
  {
    if qs == [] then [] else [ServeReply(f, qs[0])] + ServeAll(AfterServing(f, qs[0]), qs[1..])
  }

  /** url_feof. */
  predicate AtEof(f: Source) {
    f.buffered == [] && f.schedule == []
  }

  // ---------- the replies do not depend on the chunks ----------

  lemma {:induction false} FillLoopKeepsRest(f: Source, want: nat)
    requires f.schedule != []
    ensures var g := FillLoop(f, want);
            RestOf(g) == RestOf(f) && (|g.buffered| >= want || g.schedule == [])
    decreases |f.schedule|
  {
    var g := NextRound(f);
    assert f.buffered + (Delivery(f.schedule[0]) + Incoming(f.schedule[1..])) == g.buffered + Incoming(g.schedule);
    if g.schedule != [] && |g.buffered| < want { FillLoopKeepsRest(g, want); }
  }

  /** Filling changes nothing about what is still to be read, and stops short of the wanted bytes
      only at the end of the transfer. */
  lemma FillKeepsRest(f: Source, want: nat)
    ensures var g := Fill(f, want);
            RestOf(g) == RestOf(f) && (|g.buffered| >= want || g.schedule == [])
  {
    if !(f.schedule == [] || |f.buffered| > want) { FillLoopKeepsRest(f, want); }
  }

  lemma {:induction false} LineLengthOfPrefix(s: seq<byte>, t: seq<byte>, limit: nat)
    requires limit <= |s| && s <= t
    ensures LineLength(s, limit) == LineLength(t, limit)
  {
    if limit > 0 && s[0] != NEWLINE { LineLengthOfPrefix(s[1..], t[1..], limit - 1); }
  }

  /** A buffer that holds enough is cut like the stream of which it is the front. */
  lemma CutOfPrefix(b: seq<byte>, rest: seq<byte>, q: Request)
    requires IsServable(q) && b <= rest && (|b| >= Want(q) || b == rest)
    ensures Cut(b, q) == Cut(rest, q) && b[..Cut(b, q)] == rest[..Cut(rest, q)]
  {
    LineLengthOfPrefix(b, rest, Min(Want(q), |b|));
  }

  /** One request is answered from the stream alone. */
  lemma ServeReadsStream(f: Source, q: Request)
    requires IsProper(q)
    ensures ServeReply(f, q) == ReplyFrom(RestOf(f), q)
    ensures RestOf(AfterServing(f, q)) == RestOf(f)[Cut(RestOf(f), q)..]
  {
    var g, rest := Filled(f, q), RestOf(f);
    FillKeepsRest(f, Want(q));
    assert g.buffered + Incoming(g.schedule) == rest;
    assert g.schedule == [] ==> g.buffered == rest;
    CutOfPrefix(g.buffered, rest, q);
    var n := Cut(rest, q);
    assert (g.buffered + Incoming(g.schedule))[n..] == g.buffered[n..] + Incoming(g.schedule);
    assert q.Fgets? ==> (g.buffered == [] <==> rest == []);
  }

  /** fread hands out exactly the next nmemb * size bytes of the stream, or all that is left, and counts the whole
      items among them. */
  lemma FreadTakes(f: Source, size: nat, nmemb: nat)
    requires size >= 1
    ensures var r, rest := ServeReply(f, Fread(size, nmemb)), RestOf(f);
      && r.Items? && r.data == rest[..Min(nmemb * size, |rest|)]
      && r.count * size <= |r.data| < (r.count + 1) * size
      && RestOf(AfterServing(f, Fread(size, nmemb))) == rest[|r.data|..]
  {
    ServeReadsStream(f, Fread(size, nmemb));
  }

  /** data is the line at the front of rest: it ends with the first newline, or after size - 1 bytes, or where
      rest ends. */
  ghost predicate IsLine(data: seq<byte>, rest: seq<byte>, size: nat) {
    && data <= rest && |data| <= size - 1
    && (forall k :: 0 <= k < |data| - 1 ==> data[k] != NEWLINE)
    && (|data| < size - 1 && |data| < |rest| ==> data != [] && data[|data| - 1] == NEWLINE)
  }

  /** fgets hands out exactly the next line of the stream, and nothing only where the stream is over. */
  lemma FgetsTakes(f: Source, size: nat)
    requires size >= 2
    ensures var r, rest := ServeReply(f, Fgets(size)), RestOf(f);
      && r.Line? && IsLine(r.data, rest, size) && (r.found <==> rest != []) && (rest != [] ==> r.data != [])
      && RestOf(AfterServing(f, Fgets(size))) == rest[|r.data|..]
  {
    ServeReadsStream(f, Fgets(size));
    var rest := RestOf(f);
    var n := Cut(rest, Fgets(size));
    assert rest[..n] <= rest;
  }

  function AfterRounds(f: Source, n: nat): Source
    requires n <= |f.schedule|
    decreases n
  {
    if n == 0 then f else AfterRounds(NextRound(f), n - 1)
  }

  lemma {:induction false} FillLoopIsLazy(f: Source, want: nat) returns (n: nat)
    requires f.schedule != []
    ensures 0 < n <= |f.schedule| && FillLoop(f, want) == AfterRounds(f, n)
    ensures forall m :: 0 < m < n ==> |AfterRounds(f, m).buffered| < want
    decreases |f.schedule|
  {
    var g := NextRound(f);
    if g.schedule != [] && |g.buffered| < want {
      var k := FillLoopIsLazy(g, want);
      n := k + 1;
      forall m | 0 < m < n ensures |AfterRounds(f, m).buffered| < want {
        assert AfterRounds(f, m) == AfterRounds(g, m - 1);
      }
    } else {
      n := 1;
      assert AfterRounds(g, 0) == g;
    }
  }

  /** Filling makes a round exactly if the transfer goes on and no more than the wanted bytes are there, and no
      round more once the bytes wanted are there. */
  lemma FillIsLazy(f: Source, want: nat) returns (n: nat)
    ensures n <= |f.schedule| && Fill(f, want) == AfterRounds(f, n)
    ensures n > 0 <==> f.schedule != [] && |f.buffered| <= want
    ensures forall m :: 0 < m < n ==> |AfterRounds(f, m).buffered| < want
  {
    if f.schedule != [] && |f.buffered| <= want { n := FillLoopIsLazy(f, want); } else { n := 0; }
  }

  lemma {:induction false} ServeAllReadsStream(f: Source, qs: seq<Request>)
    requires AllProper(qs)
    ensures ServeAll(f, qs) == Replies(RestOf(f), qs)
    decreases |qs|
  {
    if qs != [] {
      ServeReadsStream(f, qs[0]);
      ServeAllReadsStream(AfterServing(f, qs[0]), qs[1..]);
    }
  }

  /** Chunking independence: two streams with the same bytes ahead, however they are split between
      buffer, chunks and rounds, give the same replies to the same requests. */
  lemma RepliesDoNotDependOnChunks(f: Source, g: Source, qs: seq<Request>)
    requires RestOf(f) == RestOf(g) && AllProper(qs)
    ensures ServeAll(f, qs) == ServeAll(g, qs)
  {
    ServeAllReadsStream(f, qs);
    ServeAllReadsStream(g, qs);
  }

  /** For fgets a size of two is needed: with room for the terminating zero alone, the answer depends
      on whether the first round delivers something. */
  lemma FgetsIsIndependentIff(size: nat)
    requires size >= 1
    ensures (forall f: Source, g: Source :: RestOf(f) == RestOf(g) ==>
               ServeReply(f, Fgets(size)) == ServeReply(g, Fgets(size)))
       <==> size >= 2
  {
    if size >= 2 {
      forall f: Source, g: Source | RestOf(f) == RestOf(g)
        ensures ServeReply(f, Fgets(size)) == ServeReply(g, Fgets(size))
      {
        ServeReadsStream(f, Fgets(size));
        ServeReadsStream(g, Fgets(size));
      }
    } else {
      AnswerOfFgetsOneDepends();
    }
  }

  lemma AnswerOfFgetsOneDepends()
    ensures exists f: Source, g: Source ::
      RestOf(f) == RestOf(g) && ServeReply(f, Fgets(1)) != ServeReply(g, Fgets(1))
  {
    var last := [Perform([[65]])];
    var early, late := Source([], last), Source([], [Perform([])] + last);
    assert late.schedule[1..] == last && last[1..] == [] && [[65]][1..] == [];
    assert Concat([[65]]) == [65] + Concat([]) == [65];
    assert Incoming(last) == Concat([[65]]) + Incoming([]) == [65];
    assert Incoming(late.schedule) == Concat([]) + Incoming(last) == [65];
    assert RestOf(early) == [65] == RestOf(late);
    assert Delivery(last[0]) == [65] && Delivery(late.schedule[0]) == [];
    assert Filled(early, Fgets(1)).buffered == [] + [65] == [65];
    assert Filled(late, Fgets(1)).buffered == [] + [] == [];
    assert ServeReply(early, Fgets(1)).found && !ServeReply(late, Fgets(1)).found;
  }

  /** A line without a newline that is shorter than its limit ends the stream. */
  lemma ShortLineEndsStream(f: Source, size: nat)
    requires size >= 2
    ensures var data := ServeReply(f, Fgets(size)).data;
      data != [] && data[|data| - 1] != NEWLINE && |data| < size - 1 ==>
        data == RestOf(f) && RestOf(AfterServing(f, Fgets(size))) == []
  {
    ServeReadsStream(f, Fgets(size));
    var rest := RestOf(f);
    if Cut(rest, Fgets(size)) == |rest| { assert rest[..|rest|] == rest; }
  }

  /** End of file is never reported early, and is reported once a read has come back empty. */
  lemma EofIsSound(f: Source, q: Request)
    requires IsProper(q) && Want(q) >= 1
    ensures AtEof(f) ==> RestOf(f) == []
    ensures ServeReply(f, q).data == [] ==> AtEof(AfterServing(f, q)) && RestOf(f) == []
  {
    ServeReadsStream(f, q);
    FillKeepsRest(f, Want(q));
  }

  // ---------- the stream object ----------

  class UrlFile {
    var buffer: array?<byte>
    var bufferLen: int
    var bufferPos: int
    var stillRunning: bool
    var schedule: seq<Round>         // the environment
    ghost var delivered: seq<byte>   // everything the callback has accepted
    ghost var copied: seq<byte>      // everything handed to the caller

    ghost predicate Valid()
      reads this, buffer
    {
      && 0 <= bufferPos <= bufferLen
      && (if buffer == null then bufferLen == 0 else bufferLen == buffer.Length)
      && Wellformed(schedule)
      && (stillRunning <==> schedule != [])
      && delivered == copied + Buffered()
    }

    /** The bytes waiting in the buffer. */
    ghost function Buffered(): seq<byte>
      reads this, buffer
    {
      if buffer == null || !(0 <= bufferPos <= buffer.Length) then [] else buffer[..bufferPos]
    }

    /** What the caller has not yet read: the buffer and all that is still to come. */
    ghost function Rest(): seq<byte>
      reads this, buffer
    {
      Buffered() + Incoming(schedule)
    }

    /** A stream that was just opened, before the first round. */
    constructor (schedule: seq<Round>)
      requires Wellformed(schedule)
      ensures Valid() && Rest() == Incoming(schedule) && copied == [] && delivered == []
    {
      buffer, bufferLen, bufferPos := null, 0, 0;
      stillRunning := |schedule| > 0;
      this.schedule := schedule;
      delivered, copied := [], [];
    }

    /** url_fopen from the first curl_multi_perform on; ok is false where the program returns NULL. */
    method Start() returns (ok: bool)
      requires Valid() && Buffered() == [] && copied == [] && schedule != [] && schedule[0].Perform?
      modifies this`buffer, this`bufferLen, this`bufferPos, this`delivered, this`schedule, this`stillRunning, buffer
      ensures Valid() && Rest() == Incoming(old(schedule)) && copied == []
      ensures !ok <==> AtEof(State())
    {
      ghost var before := schedule;
      OneRound();
      assert [] + Delivery(before[0]) == Delivery(before[0]);
      ok := !(bufferPos == 0 && !stillRunning);
    }

    /** realloc: a longer buffer with the same contents. */
    method Grow(extra: nat)
      requires Valid()
      modifies this`buffer, this`bufferLen
      ensures Valid() && buffer != null && fresh(buffer)
      ensures Buffered() == old(Buffered()) && bufferLen == old(bufferLen) + extra
    {
      var newbuff := new byte[bufferLen + extra];
      if buffer != null {
        forall k | 0 <= k < bufferPos { newbuff[k] := buffer[k]; }
      }
      ghost var before := Buffered();
      bufferLen, buffer := bufferLen + extra, newbuff;
      assert Buffered() == before;
    }

    /** memcpy to the end of the data. */
    method CopyIn(chunk: seq<byte>)
      requires Valid() && |chunk| <= bufferLen - bufferPos
      modifies this`bufferPos, this`delivered, buffer
      ensures Valid() && Buffered() == old(Buffered()) + chunk && delivered == old(delivered) + chunk
    {
      ghost var before := Buffered();
      if buffer != null {
        forall k | 0 <= k < |chunk| { buffer[bufferPos + k] := chunk[k]; }
      }
      bufferPos := bufferPos + |chunk|;
      delivered := delivered + chunk;
      assert Buffered() == before + chunk;
    }

    /** write_callback.  reallocOk tells whether realloc succeeds, should it be needed; if it does not,
        only what fits is accepted. */
    method WriteCallback(chunk: seq<byte>, reallocOk: bool) returns (accepted: nat)
      requires Valid()
      modifies this`buffer, this`bufferLen, this`bufferPos, this`delivered, buffer
      ensures Valid() && (buffer == old(buffer) || fresh(buffer))
      ensures accepted <= |chunk| && Buffered() == old(Buffered()) + chunk[..accepted]
      ensures delivered == old(delivered) + chunk[..accepted]
      ensures var room := old(bufferLen - bufferPos);
              accepted == if reallocOk || |chunk| <= room then |chunk| else room
    {
      var size := |chunk|;
      var rembuff := bufferLen - bufferPos;
      if size > rembuff {
        if !reallocOk {
          size := rembuff;
        } else {
          Grow(size - rembuff);
        }
      }
      CopyIn(chunk[..size]);
      accepted := size;
    }

    /** memmove from within an array to its front. */
    static method MoveDown(a: array<byte>, from: nat, n: nat)
      requires from + n <= a.Length
      modifies a
      ensures a[..n] == old(a[from..from + n])
    {
      for k := 0 to n
        invariant forall i :: 0 <= i < k ==> a[i] == old(a[from + i])
        invariant forall i :: k <= i < a.Length ==> a[i] == old(a[i])
      {
        a[k] := a[from + k];
      }
    }

    /** use_buffer: drops the first want bytes, moving the others down in place. */
    method UseBuffer(want: nat)
      requires Valid() && want <= bufferPos
      modifies this`buffer, this`bufferLen, this`bufferPos, this`copied, buffer
      ensures Valid() && Buffered() == old(Buffered())[want..] && copied == old(copied) + old(Buffered())[..want]
      ensures buffer == old(buffer) || buffer == null
    {
      ghost var all := Buffered();
      copied := copied + all[..want];
      assert all == all[..want] + all[want..];
      if bufferPos - want <= 0 {
        buffer, bufferPos, bufferLen := null, 0, 0;
      } else {
        var n := bufferPos - want;
        MoveDown(buffer, want, n);
        bufferPos := n;
        assert Buffered() == all[want..];
      }
    }

    ghost function State(): Source
      reads this, buffer
    {
      Source(Buffered(), schedule)
    }

    /** The deliveries of one call of curl_multi_perform; every realloc succeeds. */
    method Deliver(chunks: seq<seq<byte>>)
      requires Valid()
      modifies this`buffer, this`bufferLen, this`bufferPos, this`delivered, buffer
      ensures Valid() && (buffer == old(buffer) || fresh(buffer))
      ensures Buffered() == old(Buffered()) + Concat(chunks)
    {
      ghost var before := Buffered();
      for i := 0 to |chunks|
        invariant Valid() && (buffer == old(buffer) || fresh(buffer))
        invariant Buffered() + Concat(chunks[i..]) == before + Concat(chunks)
      {
        ghost var b := Buffered();
        assert chunks[i..][1..] == chunks[i + 1..];
        var n := WriteCallback(chunks[i], true);
        assert chunks[i][..n] == chunks[i];
        assert (b + chunks[i]) + Concat(chunks[i + 1..]) == b + (chunks[i] + Concat(chunks[i + 1..]));
      }
      assert Buffered() + [] == Buffered();
    }

    /** One round of the loop of fill_buffer. */
    method OneRound()
      requires Valid() && schedule != []
      modifies this`buffer, this`bufferLen, this`bufferPos, this`delivered, this`schedule, this`stillRunning, buffer
      ensures Valid() && (buffer == old(buffer) || fresh(buffer))
      ensures State() == NextRound(old(State()))
    {
      match schedule[0] {
        case Idle =>
          assert Buffered() + [] == Buffered();
          schedule := schedule[1..];
        case Perform(chunks) =>
          Deliver(chunks);
          schedule := schedule[1..];
          stillRunning := |schedule| > 0;
      }
    }

    /** fill_buffer. */
    method FillBuffer(want: nat) returns (rc: int)
      requires Valid()
      modifies this`buffer, this`bufferLen, this`bufferPos, this`delivered, this`schedule, this`stillRunning, buffer
      ensures Valid() && (buffer == old(buffer) || fresh(buffer))
      ensures State() == Fill(old(State()), want)
      ensures rc == if old(!stillRunning || bufferPos > want) then 0 else 1
    {
      if !stillRunning || bufferPos > want { return 0; }
      ghost var goal, now := FillLoop(State(), want), NextRound(State());
      OneRound();
      while stillRunning && bufferPos < want
        invariant Valid() && (buffer == old(buffer) || fresh(buffer)) && State() == now
        invariant goal == if now.schedule != [] && |now.buffered| < want then FillLoop(now, want) else now
        decreases |schedule|
      {
        now := NextRound(now);
        OneRound();
      }
      rc := 1;
    }

    /** Copies the first want bytes out of the buffer and drops them there. */
    method CopyOut(want: nat) returns (data: seq<byte>)
      requires Valid() && want <= bufferPos && bufferPos > 0
      modifies this`buffer, this`bufferLen, this`bufferPos, this`copied, buffer
      ensures Valid() && data == old(Buffered())[..want]
      ensures Buffered() == old(Buffered())[want..] && copied == old(copied) + data
    {
      data := buffer[..want];
      assert data == Buffered()[..want];
      UseBuffer(want);
    }

    /** url_fread between the product and the quotient: at most want bytes are filled in and copied out. */
    method ReadUpTo(want: nat) returns (data: seq<byte>)
      requires Valid()
      modifies this, buffer
      ensures Valid()
      ensures var g := Fill(old(State()), want); var n := Min(want, |g.buffered|);
              data == g.buffered[..n] && State() == Source(g.buffered[n..], g.schedule)
      ensures copied == old(copied) + data
    {
      var rc := FillBuffer(want);
      if bufferPos == 0 { return []; }
      var n := want;
      if bufferPos < want { n := bufferPos; }
      data := CopyOut(n);
    }

    /** url_fread. */
    method Fread(size: nat, nmemb: nat) returns (count: nat, data: seq<byte>)
      requires Valid() && size >= 1
      modifies this, buffer
      ensures Valid()
      ensures Items(count, data) == ServeReply(old(State()), Request.Fread(size, nmemb))
      ensures State() == AfterServing(old(State()), Request.Fread(size, nmemb))
      ensures copied == old(copied) + data
      ensures data == old(Rest())[..Min(nmemb * size, |old(Rest())|)] && Rest() == old(Rest())[|data|..]
      ensures count * size <= |data| < (count + 1) * size
    {
      FreadTakes(State(), size, nmemb);
      data := ReadUpTo(nmemb * size);
      count := WholeItems(|data|, size);
    }

    /** The scan for the end of the line, within the first limit bytes of the buffer. */
    method FindLineEnd(limit: nat) returns (want: nat)
      requires Valid() && limit <= bufferPos
      ensures want == LineLength(Buffered(), limit)
    {
      ghost var b := Buffered();
      want := limit;
      var i := 0;
      while i < want
        invariant 0 <= i <= want == limit
        invariant LineLength(b, limit) == i + LineLength(b[i..], limit - i)
      {
        if buffer[i] == NEWLINE {
          return i + 1;
        }
        assert b[i..][1..] == b[i + 1..];
        i := i + 1;
      }
    }

    /** A line of at most limit bytes is copied out of the buffer. */
    method LineOfBuffer(limit: nat) returns (found: bool, data: seq<byte>)
      requires Valid()
      modifies this`buffer, this`bufferLen, this`bufferPos, this`copied, buffer
      ensures Valid()
      ensures var b := old(Buffered()); var n := LineLength(b, Min(limit, |b|));
              found == (b != []) && data == b[..n] && Buffered() == b[n..]
      ensures copied == old(copied) + data
    {
      if bufferPos == 0 { return false, []; }
      var want := limit;
      if bufferPos < want { want := bufferPos; }
      want := FindLineEnd(want);
      data := CopyOut(want);
      found := true;
    }

    /** url_fgets between the size and the terminating zero: the buffer is filled and a line copied out. */
    method LineFrom(limit: nat) returns (found: bool, data: seq<byte>)
      requires Valid()
      modifies this, buffer
      ensures Valid()
      ensures var g := Fill(old(State()), limit); var n := LineLength(g.buffered, Min(limit, |g.buffered|));
              found == (g.buffered != []) && data == g.buffered[..n] && State() == Source(g.buffered[n..], g.schedule)
      ensures copied == old(copied) + data
    {
      var rc := FillBuffer(limit);
      found, data := LineOfBuffer(limit);
    }

    /** url_fgets; found is false where the program returns NULL. */
    method Fgets(size: nat) returns (found: bool, data: seq<byte>)
      requires Valid() && size >= 1
      modifies this, buffer
      ensures Valid()
      ensures Line(found, data) == ServeReply(old(State()), Request.Fgets(size))
      ensures State() == AfterServing(old(State()), Request.Fgets(size))
      ensures copied == old(copied) + data
      ensures size >= 2 ==> IsLine(data, old(Rest()), size) && Rest() == old(Rest())[|data|..]
      ensures size >= 2 ==> (found <==> old(Rest()) != []) && (found ==> data != [])
      ensures size == 1 ==> data == []
    {
      if size >= 2 { FgetsTakes(State(), size); }
      var limit := size - 1;
      found, data := LineFrom(limit);
    }

    /** url_feof. */
    method Feof() returns (ret: int)
      requires Valid()
      ensures ret == if AtEof(State()) then 1 else 0
      ensures ret == 1 <==> Buffered() == [] && schedule == []
    {
      ret := 0;
      if bufferPos == 0 && !stillRunning { ret := 1; }
    }
  }
}
