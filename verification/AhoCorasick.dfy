/** The Aho-Corasick scan over linked trie nodes.

    How a trie is built is not part of this model: `Trie.Valid` says what the builder leaves, namely
    one node for each path, siblings with different labels, failure links to the longest proper
    suffix that is a path, and a leaf mark that is zero or the depth. */
module AhoCorasick {
  import opened Basics
  import opened TrieLanguage

  class TrieNode {
    var leaf: nat
    var c: byte
    var next: TrieNode?
    var links: TrieNode?
    var fail: TrieNode?
    ghost var path: Text             // the labels from the root to this node
    ghost var kids: seq<TrieNode>    // the nodes listed from links through next

    constructor ()
      ensures leaf == 0 && next == null && links == null && fail == null && path == [] && kids == []
    {
      leaf, c, next, links, fail, path, kids := 0, 0, null, null, null, [], [];
    }

    /** The node of a path, before it is linked. */
    constructor At(path: Text, leaf: nat)
      requires path != []
      ensures this.path == path && c == path[|path| - 1] && this.leaf == leaf
      ensures next == null && links == null && fail == null && kids == []
    {
      this.leaf, c, next, links, fail := leaf, path[|path| - 1], null, null, null;
      this.path, kids := path, [];
    }

    /** links and next list the children in order. */
    ghost predicate ListsKids()
      reads this, kids
    {
      && links == (if kids == [] then null else kids[0])
      && forall i :: 0 <= i < |kids| ==> kids[i].next == (if i + 1 < |kids| then kids[i + 1] else null)
    }

    ghost predicate HasKid(edge: byte)
      reads this, kids
    {
      exists i :: 0 <= i < |kids| && kids[i].c == edge
    }
  }

  class Trie {
    const root: TrieNode
    ghost var nodes: map<Text, TrieNode>
    ghost var all: set<TrieNode>

    /** A trie without words. */
    constructor ()
      ensures Valid() && nodes.Keys == {[]} && fresh(root) && root.path == [] && root.leaf == 0 && root.next == null
    {
      root := new TrieNode();
      new;
      nodes, all := map[[] := root], {root};
    }

    ghost predicate Holds(n: TrieNode)
      reads this, n
    {
      n in all && n.path in nodes && nodes[n.path] == n
    }

    /** The children of a node are the nodes one label further on. */
    ghost predicate KidsOk(n: TrieNode)
      requires n in all && forall k :: k in n.kids ==> k in all
      reads this, all
    {
      && n.ListsKids()
      && (forall i :: 0 <= i < |n.kids| ==> Holds(n.kids[i]) && n.kids[i].path == n.path + [n.kids[i].c])
      && (forall c: byte :: n.path + [c] in nodes ==> n.HasKid(c))
    }

    ghost predicate FailOk(n: TrieNode)
      requires n in all
      reads this, all
    {
      n.fail != null && n.fail in all && Holds(n.fail) && IsFailure(nodes.Keys, n.path, n.fail.path)
    }

    ghost predicate NodeOk(n: TrieNode)
      requires n in all
      reads this, all
    {
      && Holds(n) && (n.leaf == 0 || n.leaf == |n.path|)
      && (forall k :: k in n.kids ==> k in all) && KidsOk(n)
      && (n != root ==> FailOk(n))
    }

    ghost predicate Valid()
      reads this, all
    {
      && PrefixClosed(nodes.Keys) && [] in nodes && nodes[[]] == root
      && (forall p :: p in nodes ==> nodes[p] in all && nodes[p].path == p)
      && (forall n {:trigger NodeOk(n)} :: n in all ==> NodeOk(n))
    }

    /** The words of the trie: the paths with a leaf mark. */
    ghost function Words(): (w: set<Text>)
      requires Valid()
      reads this, all
      ensures w <= nodes.Keys
    {
      set p | p in nodes && nodes[p].leaf > 0
    }
  }

  /** Siblings have different labels. */
  lemma SiblingsDiffer(t: Trie, n: TrieNode, i: nat, j: nat)
    requires t.Valid() && t.Holds(n) && i < |n.kids| && j < |n.kids| && n.kids[i].c == n.kids[j].c
    ensures n.kids[i] == n.kids[j]
  {
    assert t.NodeOk(n);
  }

  /** trie_goto. */
  method Goto(ghost t: Trie, root: TrieNode, node: TrieNode, c: byte) returns (r: TrieNode?)
    requires t.Valid() && root == t.root && t.Holds(node)
    ensures r == null <==> node.path + [c] !in t.nodes && node != root
    ensures r != null ==> t.Holds(r) && r.path == if node.path + [c] in t.nodes then node.path + [c] else []
  {
    assert t.NodeOk(node);
    var next := node.links;
    ghost var i := 0;
    while next != null
      invariant 0 <= i <= |node.kids| && next == (if i < |node.kids| then node.kids[i] else null)
      invariant forall k :: 0 <= k < i ==> node.kids[k].c != c
      decreases |node.kids| - i
    {
      if next.c == c {
        assert t.Holds(node.kids[i]);
        return next;
      }
      next := next.next;
      i := i + 1;
    }
    assert !node.HasKid(c);
    if root == node { return root; }
    return null;
  }

  /** The scanning state.  Its ghost part remembers the text scanned from the root, the paths of the nodes gone
      through, and how many failure links were followed on each byte. */
  class AcState {
    const trie: Trie
    var node: TrieNode?
    ghost const paths: set<Text>
    ghost const words: set<Text>
    ghost var text: Text
    ghost var trail: seq<Text>
    ghost var steps: seq<nat>

    constructor (trie: Trie)
      requires trie.Valid()
      ensures Valid() && text == [] && this.trie == trie
      ensures paths == trie.nodes.Keys && words == trie.Words()
    {
      this.trie := trie;
      node := trie.root;
      paths, words := trie.nodes.Keys, trie.Words();
      text, trail, steps := [], [[]], [];
    }

    ghost predicate Valid()
      reads this, trie, trie.all
    {
      && trie.Valid() && paths == trie.nodes.Keys && words == trie.Words()
      && node != null && node in trie.all && trie.Holds(node)
      && ScanOk(paths, text, node.path, trail, steps)
    }

    /** ac_trie_next. */
    method Next(c: byte) returns (matched: nat)
      requires Valid()
      modifies this
      ensures Valid() && text == old(text) + [c]
      ensures trail == old(trail) + [node.path] && |steps| == |old(steps)| + 1 && old(steps) <= steps
      ensures matched == node.leaf && ResultOk(paths, words, text, matched)
    {
      ghost var k, from := 0, node.path;
      node, k := Follow(trie, trie.root, node, c, text);
      ScanGrows(paths, text, from, trail, steps, c, node.path, k);
      text, trail, steps := text + [c], trail + [node.path], steps + [k];
      matched := node.leaf;
      ResultFromState(paths, words, text, node.path, matched);
    }
  }

  method FailOf(ghost t: Trie, n: TrieNode) returns (q: TrieNode)
    requires t.Valid() && t.Holds(n) && n != t.root
    ensures q == n.fail && t.Holds(q) && IsFailure(t.nodes.Keys, n.path, q.path)
  {
    assert t.NodeOk(n);
    q := n.fail;
  }

  lemma LeafMarks(t: Trie, n: TrieNode)
    requires t.Valid() && t.Holds(n)
    ensures n.leaf == 0 || n.leaf == |n.path|
    ensures n.leaf > 0 <==> n.path in t.Words()
  {
    assert t.NodeOk(n);
  }

  /** The loop of ac_trie_next: failure links are followed until some node has an edge for c, or the
      root is reached. */
  method Follow(ghost t: Trie, root: TrieNode, start: TrieNode, c: byte, ghost text: Text)
    returns (r: TrieNode, ghost steps: nat)
    requires t.Valid() && root == t.root && t.Holds(start) && IsLongest(t.nodes.Keys, text, start.path)
    ensures t.Holds(r) && IsLongest(t.nodes.Keys, text + [c], r.path)
    ensures Moves(t.nodes.Keys, start.path, r.path, c, steps) && steps + |r.path| <= |start.path| + 1
    ensures (r.leaf == 0 || r.leaf == |r.path|) && (r.leaf > 0 <==> r.path in t.Words())
  {
    ghost var paths := t.nodes.Keys;
    var n: TrieNode := start;
    steps := 0;
    FollowingStarts(paths, text, c, start.path);
    var next := Goto(t, root, n, c);
    while next == null
      invariant t.Holds(n) && Following(paths, text, c, start.path, n.path, steps)
      invariant next == null <==> n.path + [c] !in paths && n != root
      invariant next != null ==> t.Holds(next) && next.path == if n.path + [c] in paths then n.path + [c] else []
      decreases |n.path|
    {
      var q := FailOf(t, n);
      FollowingOn(paths, text, c, start.path, n.path, steps, q.path);
      n := q;
      steps := steps + 1;
      next := Goto(t, root, n, c);
    }
    r := next;
    LeafMarks(t, r);
    FollowingEnds(paths, text, c, start.path, n.path, steps, r.path);
  }

  /** One level of trie_search: the child with the label p, if there is one. */
  method Descend(ghost t: Trie, parent: TrieNode, p: byte) returns (child: TrieNode?)
    requires t.Valid() && t.Holds(parent)
    ensures child == null <==> parent.path + [p] !in t.nodes
    ensures child != null ==> t.Holds(child) && child.path == parent.path + [p]
  {
    assert t.NodeOk(parent);
    child := parent.links;
    if child == null { return; }
    ghost var i := 0;
    while p != child.c
      invariant 0 <= i < |parent.kids| && child == parent.kids[i]
      invariant forall j :: 0 <= j < i ==> parent.kids[j].c != p
      decreases |parent.kids| - i
    {
      assert parent.ListsKids();
      assert parent.kids[i].next == if i + 1 < |parent.kids| then parent.kids[i + 1] else null;
      child := child.next;
      if child == null {
        assert i + 1 == |parent.kids| && !parent.HasKid(p);
        return;
      }
      i := i + 1;
    }
    assert t.Holds(parent.kids[i]);
  }

  /** trie_search: is the key a word? */
  method Search(t: Trie, key: Text) returns (found: bool)
    requires t.Valid()
    ensures found <==> key in t.Words()
  {
    var node: TrieNode := t.root;
    assert key[..0] == [];
    for k := 0 to |key|
      invariant t.Holds(node) && node.path == key[..k]
    {
      assert key[..k + 1] == key[..k] + [key[k]];
      var child := Descend(t, node, key[k]);
      if child == null {
        PrefixMissing(t.nodes.Keys, key, k + 1);
        return false;
      }
      node := child;
    }
    assert key[..|key|] == key;
    return node.leaf > 0;
  }

  lemma PrefixMissing(paths: set<Text>, key: Text, n: nat)
    requires PrefixClosed(paths) && n <= |key| && key[..n] !in paths
    ensures key !in paths
  {
    if key in paths { PrefixOfPath(paths, key, n); }
  }

  lemma {:induction false} PrefixOfPath(paths: set<Text>, key: Text, n: nat)
    requires PrefixClosed(paths) && n <= |key| && key in paths
    ensures key[..n] in paths
    decreases |key|
  {
    if n < |key| {
      assert key == key[..|key| - 1] + [key[|key| - 1]];
      PrefixOfPath(paths, key[..|key| - 1], n);
      assert key[..|key| - 1][..n] == key[..n];
    } else {
      assert key[..n] == key;
    }
  }

  /** A whole scan from the root: results[i] is what ac_trie_next returns for text[i].  It is the length of
      the longest suffix path of the text up to there if that path is a word, and zero otherwise; a
      positive result n means that trie_search accepts the last n bytes; and no more failure links are
      followed than there are bytes. */
  method Scan(t: Trie, text: Text) returns (results: seq<nat>, ghost trail: seq<Text>, ghost steps: seq<nat>)
    requires t.Valid()
    ensures |results| == |text| && ResultsOk(t.nodes.Keys, t.Words(), text, results)
    ensures Trail(t.nodes.Keys, text, trail, steps) && Sum(steps) <= |text|
  {
    var state := new AcState(t);
    results := [];
    ghost var paths, words := t.nodes.Keys, t.Words();
    var i := 0;
    while i < |text|
      invariant 0 <= i <= |text| && state.Valid() && state.text == text[..i]
      invariant state.trie == t && state.paths == paths && state.words == words
      invariant |results| == i && ResultsOk(paths, words, text, results)
    {
      var r := state.Next(text[i]);
      assert text[..i + 1] == text[..i] + [text[i]];
      ResultsSnoc(paths, words, text, results, r);
      results := results + [r];
      i := i + 1;
    }
    assert text[..i] == text;
    trail, steps := state.trail, state.steps;
  }

  lemma ResultsSnoc(paths: set<Text>, words: set<Text>, text: Text, results: seq<nat>, r: nat)
    requires |results| < |text| && ResultsOk(paths, words, text, results)
    requires ResultOk(paths, words, text[..|results| + 1], r)
    ensures ResultsOk(paths, words, text, results + [r])
  {
    var all := results + [r];
    forall k | 0 <= k < |all| ensures ResultOk(paths, words, text[..k + 1], all[k]) {
      if k < |results| { assert all[k] == results[k]; }
    }
  }

  /** results[k] is right for the first k + 1 bytes of the text. */
  ghost predicate ResultsOk(paths: set<Text>, words: set<Text>, text: Text, results: seq<nat>) {
    |results| <= |text| && forall k :: 0 <= k < |results| ==> ResultOk(paths, words, text[..k + 1], results[k])
  }

  ghost predicate ResultOk(paths: set<Text>, words: set<Text>, upTo: Text, r: nat) {
    && (r > 0 <==> Reports(paths, words, upTo))
    && (r > 0 ==> r <= |upTo| && upTo[|upTo| - r..] in words && IsLongest(paths, upTo, upTo[|upTo| - r..]))
  }

  lemma ResultFromState(paths: set<Text>, words: set<Text>, upTo: Text, s: Text, r: nat)
    requires IsLongest(paths, upTo, s) && (r > 0 <==> s in words) && (r > 0 ==> r == |s|)
    ensures ResultOk(paths, words, upTo, r)
  {
    if Reports(paths, words, upTo) {
      var u :| IsLongest(paths, upTo, u) && u in words;
      LongestIsUnique(paths, upTo, s, u);
    }
  }
}
