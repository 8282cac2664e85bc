/** The trie of the words "abc" and "b", and a scan over it that misses an occurrence. */
module TrieExample {
  import opened Basics
  import opened TrieLanguage
  import opened AhoCorasick

  lemma FailureOfOne(x: byte)
    ensures IsFailure(PATHS, [x], [])
  {
    assert [x][1..] == [];
  }

  lemma FailureOfTwo()
    ensures IsFailure(PATHS, [A, B], [B])
  {
    assert [A, B][1..] == [B];
  }

  lemma FailureOfThree()
    ensures IsFailure(PATHS, [A, B, C], [])
  {
    var p: Text := [A, B, C];
    assert p[3..] == [] && p[2..] == [C] && p[1..] == [B, C];
    assert !IsSuffix([A], p) && !IsSuffix([B], p) && !IsSuffix([A, B], p);
  }

  /** Which paths go on with which labels. */
  lemma Edges(c: byte)
    ensures [] + [c] in PATHS ==> c == A || c == B
    ensures [A] + [c] in PATHS ==> c == B
    ensures [A, B] + [c] in PATHS ==> c == C
    ensures [A, B, C] + [c] !in PATHS && [B] + [c] !in PATHS
  {
    assert ([] + [c])[0] == c && ([A] + [c])[1] == c && ([A, B] + [c])[2] == c && ([B] + [c])[0] == B;
  }

  /** The labels of the nodes and their leaf marks. */
  ghost predicate Named(root: TrieNode, a: TrieNode, ab: TrieNode, abc: TrieNode, b: TrieNode)
    reads root, a, ab, abc, b
  {
    && root.path == [] && a.path == [A] && ab.path == [A, B] && abc.path == [A, B, C] && b.path == [B]
    && a.c == A && ab.c == B && abc.c == C && b.c == B
    && root.leaf == 0 && a.leaf == 0 && ab.leaf == 0 && abc.leaf == 3 && b.leaf == 1
  }

  /** The links between the nodes. */
  ghost predicate Linked(root: TrieNode, a: TrieNode, ab: TrieNode, abc: TrieNode, b: TrieNode)
    reads root, a, ab, abc, b
  {
    && root.links == a && a.next == b && b.next == null && root.kids == [a, b]
    && a.links == ab && ab.next == null && a.kids == [ab]
    && ab.links == abc && abc.next == null && ab.kids == [abc]
    && abc.links == null && abc.kids == [] && b.links == null && b.kids == []
    && a.fail == root && b.fail == root && ab.fail == b && abc.fail == root
  }

  /** The trie of the five nodes. */
  ghost predicate Shape(t: Trie, a: TrieNode, ab: TrieNode, abc: TrieNode, b: TrieNode)
    reads t, t.root, a, ab, abc, b
  {
    && Named(t.root, a, ab, abc, b) && Linked(t.root, a, ab, abc, b)
    && t.nodes.Keys == PATHS && t.nodes[[]] == t.root && t.nodes[[A]] == a && t.nodes[[A, B]] == ab
    && t.nodes[[A, B, C]] == abc && t.nodes[[B]] == b
    && t.all == {t.root, a, ab, abc, b}
  }

  lemma RootOk(t: Trie, a: TrieNode, ab: TrieNode, abc: TrieNode, b: TrieNode)
    requires Shape(t, a, ab, abc, b)
    ensures t.NodeOk(t.root)
  {
    forall c: byte | t.root.path + [c] in t.nodes ensures t.root.HasKid(c) {
      Edges(c);
      assert t.root.kids[0].c == A && t.root.kids[1].c == B;
    }
  }

  lemma FirstOk(t: Trie, a: TrieNode, ab: TrieNode, abc: TrieNode, b: TrieNode)
    requires Shape(t, a, ab, abc, b)
    ensures t.NodeOk(a)
  {
    FailureOfOne(A);
    forall c: byte | a.path + [c] in t.nodes ensures a.HasKid(c) {
      Edges(c);
      assert a.kids[0].c == B;
    }
  }

  lemma SecondOk(t: Trie, a: TrieNode, ab: TrieNode, abc: TrieNode, b: TrieNode)
    requires Shape(t, a, ab, abc, b)
    ensures t.NodeOk(ab)
  {
    FailureOfTwo();
    forall c: byte | ab.path + [c] in t.nodes ensures ab.HasKid(c) {
      Edges(c);
      assert ab.kids[0].c == C;
    }
  }

  lemma ThirdOk(t: Trie, a: TrieNode, ab: TrieNode, abc: TrieNode, b: TrieNode)
    requires Shape(t, a, ab, abc, b)
    ensures t.NodeOk(abc)
  {
    FailureOfThree();
    forall c: byte ensures abc.path + [c] !in t.nodes {
      Edges(c);
    }
  }

  lemma OtherOk(t: Trie, a: TrieNode, ab: TrieNode, abc: TrieNode, b: TrieNode)
    requires Shape(t, a, ab, abc, b)
    ensures t.NodeOk(b)
  {
    FailureOfOne(B);
    forall c: byte ensures b.path + [c] !in t.nodes {
      Edges(c);
    }
  }

  lemma NodesAreFound(t: Trie, a: TrieNode, ab: TrieNode, abc: TrieNode, b: TrieNode, p: Text)
    requires Shape(t, a, ab, abc, b) && p in t.nodes
    ensures t.nodes[p] in t.all && t.nodes[p].path == p
  {
    assert p in PATHS;
  }

  lemma ShapeIsValid(t: Trie, a: TrieNode, ab: TrieNode, abc: TrieNode, b: TrieNode)
    requires Shape(t, a, ab, abc, b)
    ensures t.Valid()
  {
    ExamplePathsAreClosed();
    forall p | p in t.nodes ensures t.nodes[p] in t.all && t.nodes[p].path == p {
      NodesAreFound(t, a, ab, abc, b, p);
    }
    forall n {:trigger t.NodeOk(n)} | n in t.all ensures t.NodeOk(n) {
      RootOk(t, a, ab, abc, b);
      FirstOk(t, a, ab, abc, b);
      SecondOk(t, a, ab, abc, b);
      ThirdOk(t, a, ab, abc, b);
      OtherOk(t, a, ab, abc, b);
    }
  }

  lemma ShapeHasWords(t: Trie, a: TrieNode, ab: TrieNode, abc: TrieNode, b: TrieNode)
    requires Shape(t, a, ab, abc, b) && t.Valid()
    ensures t.Words() == WORDS
  {
    forall p ensures p in t.Words() <==> p in WORDS {
      if p in t.nodes { assert p in PATHS; }
    }
  }

  method Link(root: TrieNode, a: TrieNode, ab: TrieNode, abc: TrieNode, b: TrieNode)
    requires |{root, a, ab, abc, b}| == 5 && b.next == ab.next == abc.next == null
    requires abc.links == b.links == null && abc.kids == b.kids == []
    modifies root`links, root`kids, a`links, a`next, a`kids, a`fail, ab`links, ab`kids, ab`fail, abc`fail, b`fail
    ensures Linked(root, a, ab, abc, b)
  {
    root.links, root.kids := a, [a, b];
    a.links, a.next, a.kids, a.fail := ab, b, [ab], root;
    ab.links, ab.kids, ab.fail := abc, [abc], b;
    abc.fail, b.fail := root, root;
  }

  /** The nodes are entered under their paths. */
  method Enter(t: Trie, a: TrieNode, ab: TrieNode, abc: TrieNode, b: TrieNode)
    requires Named(t.root, a, ab, abc, b) && Linked(t.root, a, ab, abc, b)
    modifies t`nodes, t`all
    ensures Shape(t, a, ab, abc, b)
  {
    t.nodes := map[[] := t.root, [A] := a, [A, B] := ab, [A, B, C] := abc, [B] := b];
    t.all := {t.root, a, ab, abc, b};
    assert t.nodes.Keys == PATHS;
  }

  method Assemble() returns (t: Trie, ghost a: TrieNode, ghost ab: TrieNode, ghost abc: TrieNode, ghost b: TrieNode)
    ensures Shape(t, a, ab, abc, b)
  {
    t := new Trie();
    var n1 := new TrieNode.At([A], 0);
    var n2 := new TrieNode.At([A, B], 0);
    var n3 := new TrieNode.At([A, B, C], 3);
    var n4 := new TrieNode.At([B], 1);
    Link(t.root, n1, n2, n3, n4);
    a, ab, abc, b := n1, n2, n3, n4;
    assert Named(t.root, a, ab, abc, b);
    Enter(t, n1, n2, n3, n4);
  }

  /** The trie as the builder would leave it. */
  method Build() returns (t: Trie)
    ensures t.Valid() && t.nodes.Keys == PATHS && t.Words() == WORDS
  {
    ghost var a, ab, abc, b;
    t, a, ab, abc, b := Assemble();
    ShapeIsValid(t, a, ab, abc, b);
    ShapeHasWords(t, a, ab, abc, b);
  }

  lemma NothingAfterOne(text: Text)
    requires text == [A, B]
    ensures !Reports(PATHS, WORDS, text[..1])
  {
    assert text[..1] == [A];
    NotReported(text[..1]);
  }

  lemma NothingAfterTwo(text: Text)
    requires text == [A, B]
    ensures !Reports(PATHS, WORDS, text[..2])
  {
    assert text[..2] == [A, B];
    NotReported(text[..2]);
  }

  lemma TwoZeros(paths: set<Text>, words: set<Text>, text: Text, results: seq<nat>)
    requires |text| == |results| == 2 && ResultsOk(paths, words, text, results)
    requires !Reports(paths, words, text[..1]) && !Reports(paths, words, text[..2])
    ensures results == [0, 0]
  {
    assert ResultOk(paths, words, text[..0 + 1], results[0]) && ResultOk(paths, words, text[..1 + 1], results[1]);
  }

  method ScanText(t: Trie, text: Text) returns (results: seq<nat>)
    requires t.Valid() && t.nodes.Keys == PATHS && t.Words() == WORDS && text == [A, B]
    ensures results == [0, 0]
  {
    ghost var trail, steps;
    results, trail, steps := Scan(t, text);
    NothingAfterOne(text);
    NothingAfterTwo(text);
    TwoZeros(PATHS, WORDS, text, results);
  }

  /** On the text "ab" the program reports nothing, although it finds that "b" is a word. */
  method MissedWord() returns (results: seq<nat>, found: bool)
    ensures results == [0, 0] && found
  {
    var t := Build();
    results := ScanText(t, [A, B]);
    found := Search(t, [B]);
  }
}
