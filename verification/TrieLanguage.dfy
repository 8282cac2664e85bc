/** Strings, the paths of a trie, and the longest suffix of a text that is a path. */
module TrieLanguage {
  import opened Basics

  type Text = seq<byte>

  ghost predicate PrefixClosed(paths: set<Text>) {
    [] in paths && forall p: Text, c: byte :: p + [c] in paths ==> p in paths
  }

  /** s is the longest path that is a suffix of t. */
  ghost predicate IsLongest(paths: set<Text>, t: Text, s: Text) {
    s in paths && IsSuffix(s, t) && forall u {:trigger IsSuffix(u, t)} :: u in paths && IsSuffix(u, t) ==> |u| <= |s|
  }

  /** q is the longest path that is a suffix of p other than p itself. */
  ghost predicate IsFailure(paths: set<Text>, p: Text, q: Text) {
    && q in paths && IsSuffix(q, p) && |q| < |p|
    && forall u {:trigger IsSuffix(u, p)} :: u in paths && IsSuffix(u, p) && |u| < |p| ==> |u| <= |q|
  }

  /** u is a suffix of t from which no longer one can be extended by c within the trie. */
  ghost predicate Candidate(paths: set<Text>, t: Text, c: byte, u: Text) {
    && u in paths && IsSuffix(u, t)
    && forall v {:trigger IsSuffix(v, t)} :: v in paths && IsSuffix(v, t) && v + [c] in paths ==> |v| <= |u|
  }

  lemma SuffixOfSuffix(u: Text, v: Text, t: Text)
    requires IsSuffix(u, t) && IsSuffix(v, t) && |u| <= |v|
    ensures IsSuffix(u, v)
  {
    assert v[|v| - |u|..] == t[|t| - |v|..][|v| - |u|..] == t[|t| - |u|..];
  }

  lemma SuffixGrows(u: Text, t: Text, c: byte)
    ensures IsSuffix(u + [c], t + [c]) <==> IsSuffix(u, t)
  {
    if |u| <= |t| {
      assert (t + [c])[|t| + 1 - (|u| + 1)..] == t[|t| - |u|..] + [c];
      if IsSuffix(u + [c], t + [c]) {
        assert (u + [c])[..|u|] == u && (t[|t| - |u|..] + [c])[..|u|] == t[|t| - |u|..];
      }
    }
  }

  lemma LongestIsUnique(paths: set<Text>, t: Text, s: Text, s': Text)
    requires IsLongest(paths, t, s) && IsLongest(paths, t, s')
    ensures s == s'
  {
  }

  /** Following a failure link loses no candidate. */
  lemma FailureKeepsCandidate(paths: set<Text>, t: Text, c: byte, u: Text, q: Text)
    requires Candidate(paths, t, c, u) && u + [c] !in paths && IsFailure(paths, u, q)
    ensures Candidate(paths, t, c, q)
  {
    SuffixIsTransitive(q, u, t);
    forall v | v in paths && IsSuffix(v, t) && v + [c] in paths ensures |v| <= |q| {
      assert |v| == |u| ==> v == u;
      SuffixOfSuffix(v, u, t);
    }
  }

  /** A candidate that can be extended gives the longest suffix of the longer text. */
  lemma ExtendedCandidateIsLongest(paths: set<Text>, t: Text, c: byte, u: Text)
    requires PrefixClosed(paths) && Candidate(paths, t, c, u) && u + [c] in paths
    ensures IsLongest(paths, t + [c], u + [c])
  {
    SuffixGrows(u, t, c);
    forall v | v in paths && IsSuffix(v, t + [c]) ensures |v| <= |u| + 1 {
      LongerTextSuffix(v, t, c);
      if v != [] { assert v == v[..|v| - 1] + [c]; }
    }
  }

  lemma EmptyCandidateLeavesSingles(paths: set<Text>, t: Text, c: byte, v: Text)
    requires PrefixClosed(paths) && Candidate(paths, t, c, [])
    requires v in paths && IsSuffix(v, t + [c])
    ensures v == [] || v == [c]
  {
    LongerTextSuffix(v, t, c);
    if v != [] { assert v[..|v| - 1] + [c] in paths; }
  }

  /** If not even the empty candidate can be extended, the longest suffix is empty. */
  lemma StuckAtRootIsLongest(paths: set<Text>, t: Text, c: byte)
    requires PrefixClosed(paths) && Candidate(paths, t, c, []) && [c] !in paths
    ensures IsLongest(paths, t + [c], [])
  {
    forall v | v in paths && IsSuffix(v, t + [c]) ensures |v| <= 0 {
      EmptyCandidateLeavesSingles(paths, t, c, v);
    }
  }

  lemma LongerTextSuffix(v: Text, t: Text, c: byte)
    requires IsSuffix(v, t + [c])
    ensures v != [] ==> v == v[..|v| - 1] + [c] && IsSuffix(v[..|v| - 1], t)
  {
    if v != [] {
      assert v[|v| - 1] == (t + [c])[|t|];
      assert v == v[..|v| - 1] + [c];
      SuffixGrows(v[..|v| - 1], t, c);
    }
  }

  // ---------- how the scan moves ----------

  /** k failure links lead from the path a to the path b. */
  ghost predicate FailChain(paths: set<Text>, a: Text, b: Text, k: nat)
    decreases k
  {
    if k == 0 then a == b else exists m :: FailChain(paths, a, m, k - 1) && IsFailure(paths, m, b)
  }

  /** On the byte c the scan goes from one path to the other: k failure links, then the edge for c; or it ends
      at the root, which has none. */
  ghost predicate Moves(paths: set<Text>, from: Text, to: Text, c: byte, k: nat) {
    exists m :: FailChain(paths, from, m, k) && (to == m + [c] || to == m == [])
  }

  /** The paths that a scan of the text from the root goes through, with the failure links followed on each
      byte. */
  ghost predicate Trail(paths: set<Text>, text: Text, trail: seq<Text>, steps: seq<nat>) {
    && |trail| == |text| + 1 && |steps| == |text| && trail[0] == []
    && forall k {:trigger steps[k]} :: 0 <= k < |text| ==> Moves(paths, trail[k], trail[k + 1], text[k], steps[k])
  }

  ghost function Sum(steps: seq<nat>): nat {
    if steps == [] then 0 else Sum(steps[..|steps| - 1]) + steps[|steps| - 1]
  }

  /** s is the longest suffix of the text that is a path, the scan has led there, and what it gained in depth
      has paid for the failure links. */
  ghost predicate ScanOk(paths: set<Text>, text: Text, s: Text, trail: seq<Text>, steps: seq<nat>) {
    && IsLongest(paths, text, s)
    && Trail(paths, text, trail, steps) && trail[|text|] == s
    && Sum(steps) + |s| <= |text|
  }

  /** While failure links are followed from the path start for the byte c: u was reached by so many links, and
      no longer suffix can be extended. */
  ghost predicate Following(paths: set<Text>, text: Text, c: byte, start: Text, u: Text, links: nat) {
    Candidate(paths, text, c, u) && FailChain(paths, start, u, links) && links + |u| <= |start|
  }

  lemma FollowingStarts(paths: set<Text>, text: Text, c: byte, start: Text)
    requires IsLongest(paths, text, start)
    ensures Following(paths, text, c, start, start, 0)
  {
  }

  lemma FollowingOn(paths: set<Text>, text: Text, c: byte, start: Text, u: Text, links: nat, q: Text)
    requires Following(paths, text, c, start, u, links) && u + [c] !in paths && IsFailure(paths, u, q)
    ensures Following(paths, text, c, start, q, links + 1)
  {
    FailureKeepsCandidate(paths, text, c, u, q);
  }

  /** Where an edge for the byte is found, or the root reached, the longest suffix of the longer text is known. */
  lemma FollowingEnds(paths: set<Text>, text: Text, c: byte, start: Text, u: Text, links: nat, to: Text)
    requires PrefixClosed(paths) && Following(paths, text, c, start, u, links) && (u + [c] in paths || u == [])
    requires to == if u + [c] in paths then u + [c] else []
    ensures IsLongest(paths, text + [c], to) && Moves(paths, start, to, c, links) && links + |to| <= |start| + 1
  {
    if u + [c] in paths {
      ExtendedCandidateIsLongest(paths, text, c, u);
    } else {
      assert u + [c] == [c];
      StuckAtRootIsLongest(paths, text, c);
    }
  }

  lemma TrailGrows(paths: set<Text>, text: Text, trail: seq<Text>, steps: seq<nat>, c: byte, to: Text, k: nat)
    requires Trail(paths, text, trail, steps) && Moves(paths, trail[|text|], to, c, k)
    ensures Trail(paths, text + [c], trail + [to], steps + [k])
  {
    var text', trail', steps' := text + [c], trail + [to], steps + [k];
    forall j | 0 <= j < |text'| ensures Moves(paths, trail'[j], trail'[j + 1], text'[j], steps'[j]) {
      if j < |text| { assert Moves(paths, trail[j], trail[j + 1], text[j], steps[j]); }
    }
  }

  lemma ScanGrows(paths: set<Text>, text: Text, s: Text, trail: seq<Text>, steps: seq<nat>, c: byte, to: Text, k: nat)
    requires ScanOk(paths, text, s, trail, steps) && IsLongest(paths, text + [c], to)
    requires Moves(paths, s, to, c, k) && k + |to| <= |s| + 1
    ensures ScanOk(paths, text + [c], to, trail + [to], steps + [k])
  {
    TrailGrows(paths, text, trail, steps, c, to, k);
    assert (steps + [k])[..|steps|] == steps;
  }

  // ---------- what the scan reports ----------

  /** Some word ends where the text ends. */
  ghost predicate WordEnds(words: set<Text>, t: Text) {
    exists w :: w in words && IsSuffix(w, t)
  }

  /** What ac_trie_next reports after the text t: the state is the longest suffix path, and it
      reports exactly when that path is itself a word. */
  ghost predicate Reports(paths: set<Text>, words: set<Text>, t: Text) {
    exists s :: IsLongest(paths, t, s) && s in words
  }

  lemma {:induction false} LongestExists(paths: set<Text>, t: Text, n: nat) returns (s: Text)
    requires [] in paths && n <= |t|
    requires forall u :: u in paths && IsSuffix(u, t) ==> |u| <= n
    ensures IsLongest(paths, t, s)
  {
    var v := t[|t| - n..];
    if v in paths {
      s := v;
    } else if n == 0 {
      s := [];
    } else {
      forall u | u in paths && IsSuffix(u, t) ensures |u| <= n - 1 {
        assert |u| == n ==> u == v;
      }
      s := LongestExists(paths, t, n - 1);
    }
  }

  /** A report is never wrong. */
  lemma ReportsAreSound(paths: set<Text>, words: set<Text>, t: Text)
    requires Reports(paths, words, t)
    ensures WordEnds(words, t)
  {
  }

  /** The scan reports every end of a word, in every text, exactly when each path that ends with a
      word is itself a word. */
  lemma ScanIsCompleteIff(paths: set<Text>, words: set<Text>)
    requires PrefixClosed(paths) && words <= paths
    ensures (forall t :: WordEnds(words, t) ==> Reports(paths, words, t))
       <==> (forall p :: p in paths && WordEnds(words, p) ==> p in words)
  {
    if forall t :: WordEnds(words, t) ==> Reports(paths, words, t) {
      forall p | p in paths && WordEnds(words, p) ensures p in words {
        assert Reports(paths, words, p);
        var s :| IsLongest(paths, p, s) && s in words;
        assert IsSuffix(p, p);
      }
    }
    if forall p :: p in paths && WordEnds(words, p) ==> p in words {
      forall t | WordEnds(words, t) ensures Reports(paths, words, t) {
        var w :| w in words && IsSuffix(w, t);
        var s := LongestExists(paths, t, |t|);
        SuffixOfSuffix(w, s, t);
      }
    }
  }

  // ---------- an example ----------

  const A: byte := 97
  const B: byte := 98
  const C: byte := 99

  /** The words "abc" and "b", and the paths of their trie. */
  const WORDS: set<Text> := {[A, B, C], [B]}
  const PATHS: set<Text> := {[], [A], [A, B], [A, B, C], [B]}

  lemma ExamplePathsAreClosed()
    ensures PrefixClosed(PATHS) && WORDS <= PATHS
  {
    assert [A, B, C][..2] == [A, B] && [A, B][..1] == [A] && [A][..0] == [] && [B][..0] == [];
  }

  lemma NotReported(t: Text)
    requires t in PATHS && t !in WORDS
    ensures !Reports(PATHS, WORDS, t)
  {
    assert IsSuffix(t, t);
  }

  /** The scan can miss a word: the text "ab" ends with "b", and nothing is reported. */
  lemma ScanCanMissAWord()
    ensures PrefixClosed(PATHS) && WORDS <= PATHS && WordEnds(WORDS, [A, B]) && !Reports(PATHS, WORDS, [A, B])
  {
    ExamplePathsAreClosed();
    NotReported([A, B]);
    assert [B] in WORDS && IsSuffix([B], [A, B]);
  }
}
