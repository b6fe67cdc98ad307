/**
 * The character trie of synthesizer_interface/trie.py: `insert` walks down
 * the lower-cased word creating the missing nodes, and the two collectors
 * append the terminals of a subtree to an accumulator in pre-order.
 *
 * A `Trie` is a value holding its nodes: they are the records of `nodes`,
 * the root first, and a child is referred to by its position there. An
 * operation that changes the trie returns the new value. Each `Trie` keeps,
 * as ghost state, the abstract value of the whole trie (`shape`, see module
 * TrieShape), the position of the node at every path (`at`) and the path of
 * every node (`paths`); `Valid()` ties the records to that value.
 */
module TrieModel {
  import opened Options
  import opened Text
  import opened TrieShape
  import opened Ranking

  /** `TrieNode`: the children keyed by character (in creation order), the frequency, the terminal flag and the stored word. */
  datatype TrieNode = TrieNode(children: seq<(char, nat)>, frequency: int, isEnd: bool, word: Option<string>)

  /** `TrieNode()`: no children, frequency 0, not terminal, no word. */
  const NewNode: TrieNode := TrieNode([], 0, false, None)

  /** The position of the child keyed `c`, or `|kids|` when `c not in node.children`. */
  function ChildIndex(kids: seq<(char, nat)>, c: char): (k: nat)
    ensures k <= |kids|
    ensures k < |kids| ==> kids[k].0 == c
    ensures forall j | 0 <= j < k :: kids[j].0 != c
  {
    if kids == [] then 0
    else if kids[0].0 == c then 0
    else 1 + ChildIndex(kids[1..], c)
  }

  /** A node's fields agree with what the abstract value says the node at its path holds. */
  ghost predicate Agrees(n: TrieNode, info: Info) {
    n.isEnd == info.entry.Some? &&
    (n.isEnd ==> n.word == Some(info.entry.value.0) && n.frequency == info.entry.value.1) &&
    (!n.isEnd ==> n.word == None) &&
    Firsts(n.children) == info.kids
  }

  /**
   * The records `nodes` represent `shape`: `at` places the node of every path
   * (the root first) and `paths` inverts it, so distinct paths have distinct
   * nodes; every node holds what the shape says of its path, and the child
   * keyed `c` of the node at `p` is the node at `p + [c]`.
   */
  ghost predicate Represents(shape: Shape, at: map<string, nat>, paths: seq<string>, nodes: seq<TrieNode>) {
    WF(shape) && at.Keys == shape.Keys && [] in at && at[[]] == 0 && |paths| == |nodes| &&
    NodesAgree(shape, at, paths, nodes) && EdgesAgree(at, nodes)
  }

  /** Every path has its own node, holding what the shape says of the path. */
  ghost predicate NodesAgree(shape: Shape, at: map<string, nat>, paths: seq<string>, nodes: seq<TrieNode>) {
    forall p {:trigger at[p]} | p in at ::
      at[p] < |nodes| && at[p] < |paths| && paths[at[p]] == p && p in shape && Agrees(nodes[at[p]], shape[p])
  }

  /** The child keyed `c` of the node at `p` is the node at `p + [c]`. */
  ghost predicate EdgesAgree(at: map<string, nat>, nodes: seq<TrieNode>) {
    forall p, i | p in at && at[p] < |nodes| && 0 <= i < |nodes[at[p]].children| ::
      p + [nodes[at[p]].children[i].0] in at && at[p + [nodes[at[p]].children[i].0]] == nodes[at[p]].children[i].1
  }

  /** `node.children[c] = TrieNode()` at the node of path `p` keeps the records representing the shape. */
  lemma RepresentsAddChild(shape: Shape, at: map<string, nat>, paths: seq<string>, nodes: seq<TrieNode>,
                           p: string, c: char,
                           shape': Shape, at': map<string, nat>, paths': seq<string>, nodes': seq<TrieNode>)
    requires Represents(shape, at, paths, nodes) && p in at && c !in shape[p].kids
    requires shape' == AddChild(shape, p, c) && at' == at[p + [c] := |nodes|] && paths' == paths + [p + [c]]
    requires nodes' == nodes[at[p] := nodes[at[p]].(children := nodes[at[p]].children + [(c, |nodes|)])] + [NewNode]
    ensures Represents(shape', at', paths', nodes')
  {
    AddChildWF(shape, p, c);
    NodesAfterAddChild(shape, at, paths, nodes, p, c, shape', at', paths', nodes');
    NodesDistinct(shape, at, paths, nodes, p);
    EdgesAfterAddChild(at, nodes, p, c, at', nodes');
  }

  /** Distinct paths have distinct nodes, since `paths` inverts `at`. */
  lemma NodesDistinct(shape: Shape, at: map<string, nat>, paths: seq<string>, nodes: seq<TrieNode>, p: string)
    requires NodesAgree(shape, at, paths, nodes) && p in at
    ensures forall q | q in at && q != p :: at[q] != at[p] && at[q] < |nodes|
  {
    forall q | q in at && q != p ensures at[q] != at[p] && at[q] < |nodes| {
      assert paths[at[q]] == q && paths[at[p]] == p;
    }
  }

  lemma NodesAfterAddChild(shape: Shape, at: map<string, nat>, paths: seq<string>, nodes: seq<TrieNode>,
                           p: string, c: char,
                           shape': Shape, at': map<string, nat>, paths': seq<string>, nodes': seq<TrieNode>)
    requires NodesAgree(shape, at, paths, nodes) && |paths| == |nodes| && p in at && p + [c] !in at
    requires shape' == AddChild(shape, p, c) && at' == at[p + [c] := |nodes|] && paths' == paths + [p + [c]]
    requires nodes' == nodes[at[p] := nodes[at[p]].(children := nodes[at[p]].children + [(c, |nodes|)])] + [NewNode]
    ensures NodesAgree(shape', at', paths', nodes')
  {
    var k := at[p];
    assert Firsts(nodes'[k].children) == Firsts(nodes[k].children) + [c];
    forall q | q in at'
      ensures at'[q] < |nodes'| && at'[q] < |paths'| && paths'[at'[q]] == q && q in shape' && Agrees(nodes'[at'[q]], shape'[q])
    {
      if q != p + [c] && q != p {
        assert at[q] != k;
      }
    }
  }

  lemma EdgesAfterAddChild(at: map<string, nat>, nodes: seq<TrieNode>, p: string, c: char,
                           at': map<string, nat>, nodes': seq<TrieNode>)
    requires EdgesAgree(at, nodes) && p in at && at[p] < |nodes| && p + [c] !in at
    requires forall q | q in at && q != p :: at[q] != at[p] && at[q] < |nodes|
    requires at' == at[p + [c] := |nodes|]
    requires nodes' == nodes[at[p] := nodes[at[p]].(children := nodes[at[p]].children + [(c, |nodes|)])] + [NewNode]
    ensures EdgesAgree(at', nodes')
  {
    var pc := p + [c];
    var k := at[p];
    forall q, i | q in at' && at'[q] < |nodes'| && 0 <= i < |nodes'[at'[q]].children|
      ensures q + [nodes'[at'[q]].children[i].0] in at' && at'[q + [nodes'[at'[q]].children[i].0]] == nodes'[at'[q]].children[i].1
    {
      if q == p {
        if i < |nodes[k].children| {
          assert nodes'[k].children[i] == nodes[k].children[i];
        }
      } else if q != pc {
        var d := nodes[at[q]].children[i].0;
        assert (q + [d])[..|q|] == q && pc[..|p|] == p;
      }
    }
  }

  /** Making the node at `lw` terminal with entry `e` keeps the records representing the shape. */
  lemma RepresentsMark(shape: Shape, at: map<string, nat>, paths: seq<string>, nodes: seq<TrieNode>,
                       lw: string, e: Entry, shape': Shape, nodes': seq<TrieNode>)
    requires Represents(shape, at, paths, nodes) && lw in at && Lower(e.0) == lw
    requires shape' == shape[lw := Info(Some(e), shape[lw].kids)]
    requires nodes' == nodes[at[lw] := nodes[at[lw]].(isEnd := true, frequency := e.1, word := Some(e.0))]
    ensures Represents(shape', at, paths, nodes')
  {
    InsertEndFacts(shape, lw, e);
    NodesAfterMark(shape, at, paths, nodes, lw, e, shape', nodes');
    assert EdgesAgree(at, nodes') by {
      forall q | q in at ensures at[q] < |nodes| && nodes'[at[q]].children == nodes[at[q]].children {
      }
    }
  }

  lemma NodesAfterMark(shape: Shape, at: map<string, nat>, paths: seq<string>, nodes: seq<TrieNode>,
                       lw: string, e: Entry, shape': Shape, nodes': seq<TrieNode>)
    requires NodesAgree(shape, at, paths, nodes) && lw in at
    requires shape' == shape[lw := Info(Some(e), shape[lw].kids)]
    requires nodes' == nodes[at[lw] := nodes[at[lw]].(isEnd := true, frequency := e.1, word := Some(e.0))]
    ensures NodesAgree(shape', at, paths, nodes')
  {
    forall q | q in at
      ensures at[q] < |nodes'| && at[q] < |paths| && paths[at[q]] == q && q in shape' && Agrees(nodes'[at[q]], shape'[q])
    {
      if q != lw {
        assert at[q] != at[lw] by {
          assert paths[at[q]] == q && paths[at[lw]] == lw;
        }
      }
    }
  }

  /** The node at path `p` holds what the shape says the path holds, with one child per key. */
  lemma NodeAt(shape: Shape, at: map<string, nat>, paths: seq<string>, nodes: seq<TrieNode>, p: string)
    requires Represents(shape, at, paths, nodes) && p in at
    ensures at[p] < |nodes| && p in shape && Agrees(nodes[at[p]], shape[p])
    ensures |nodes[at[p]].children| == |shape[p].kids|
  {
  }

  /** The `i`-th child of the node at path `p` is the node at `p` extended by the `i`-th key. */
  lemma ChildAt(shape: Shape, at: map<string, nat>, paths: seq<string>, nodes: seq<TrieNode>, p: string, i: nat)
    requires Represents(shape, at, paths, nodes) && p in at
    requires at[p] < |nodes| && i < |nodes[at[p]].children|
    ensures i < |shape[p].kids| && nodes[at[p]].children[i].0 == shape[p].kids[i]
    ensures p + [shape[p].kids[i]] in at && at[p + [shape[p].kids[i]]] == nodes[at[p]].children[i].1
  {
    assert Firsts(nodes[at[p]].children)[i] == nodes[at[p]].children[i].0;
  }

  /** A character of `lw` with no child on the way down means `lw` is not a path. */
  lemma MissingStep(shape: Shape, at: map<string, nat>, paths: seq<string>, nodes: seq<TrieNode>, lw: string, i: nat)
    requires Represents(shape, at, paths, nodes) && i < |lw| && lw[..i] in at && at[lw[..i]] < |nodes|
    requires ChildIndex(nodes[at[lw[..i]]].children, lw[i]) == |nodes[at[lw[..i]]].children|
    ensures lw !in shape
  {
    NodeAt(shape, at, paths, nodes, lw[..i]);
    assert lw[i] !in shape[lw[..i]].kids by {
      assert Firsts(nodes[at[lw[..i]]].children) == shape[lw[..i]].kids;
    }
    if lw in shape {
      PrefixClosed(shape, lw, i);
    }
  }
  /**
   * A trie: the node records, the root first, together with (as ghost
   * state) the abstract value they represent, the position of the node at
   * every path and the path of every node.
   */
  datatype Trie = Trie(nodes: seq<TrieNode>, ghost shape: Shape, ghost at: map<string, nat>, ghost paths: seq<string>)
  {
    /** The invariant: the records represent the abstract value `shape`. */
    ghost predicate Valid() {
      Represents(shape, at, paths, nodes)
    }

    /**
     * `node.children[c] = TrieNode()`: a fresh, empty child of the node at
     * path `p`, appended after its existing children.
     */
    method AddChildNode(node: nat, ghost p: string, c: char) returns (t: Trie, child: nat)
      requires Valid() && p in at && at[p] == node && c !in shape[p].kids
      ensures t.Valid() && child == |nodes|
      ensures t.shape == AddChild(shape, p, c) && t.at == at[p + [c] := child]
    {
      child := |nodes|;
      t := Trie(nodes[node := nodes[node].(children := nodes[node].children + [(c, child)])] + [NewNode],
                AddChild(shape, p, c), at[p + [c] := child], paths + [p + [c]]);
      RepresentsAddChild(shape, at, paths, nodes, p, c, t.shape, t.at, t.paths, t.nodes);
    }

    /** The end of `insert`: the node at path `Lower(w)` becomes terminal with `w` and `f`. */
    method MarkEnd(node: nat, w: string, f: int) returns (t: Trie)
      requires Valid() && Lower(w) in at && at[Lower(w)] == node
      ensures t.Valid() && t.at == at
      ensures t.shape == shape[Lower(w) := Info(Some((w, f)), shape[Lower(w)].kids)]
    {
      t := Trie(nodes[node := nodes[node].(isEnd := true, frequency := f, word := Some(w))],
                shape[Lower(w) := Info(Some((w, f)), shape[Lower(w)].kids)], at, paths);
      RepresentsMark(shape, at, paths, nodes, Lower(w), (w, f), t.shape, t.nodes);
    }

    /**
     * One step of `insert`'s walk from the node at path `p`: create the child
     * keyed `c` when it is missing, then move to it.
     */
    method Descend(node: nat, ghost p: string, c: char) returns (t: Trie, child: nat)
      requires Valid() && p in at && at[p] == node
      ensures t.Valid() && p + [c] in t.at && t.at[p + [c]] == child
      ensures t.shape == if c in shape[p].kids then shape else AddChild(shape, p, c)
    {
      var kids := nodes[node].children;
      var k := ChildIndex(kids, c);
      assert Firsts(kids) == shape[p].kids;
      if k == |kids| {
        t, child := AddChildNode(node, p, c);
      } else {
        assert Firsts(kids)[k] == c;
        t, child := this, kids[k].1;
      }
    }

    /**
     * `insert(word, frequency)`: walk down the lower-cased word, creating the
     * missing children, and make the last node terminal with this word and
     * frequency, whatever it held before.
     */
    method Insert(w: string, f: int) returns (t: Trie)
      requires Valid()
      ensures t.Valid()
      ensures t.shape == Inserted(shape, w, f)
    {
      var node := 0;
      var lw := Lower(w);
      var i := 0;
      t := this;
      assert lw[..0] == [];
      while i < |lw|
        invariant 0 <= i <= |lw|
        invariant t.Valid()
        invariant lw[..i] in t.at && t.at[lw[..i]] == node
        invariant InsertFrom(t.shape, lw, i, (w, f)) == InsertFrom(shape, lw, 0, (w, f))
      {
        TakeStep(lw, i);
        t, node := t.Descend(node, lw[..i], lw[i]);
        i := i + 1;
      }
      assert lw[..i] == lw;
      t := t.MarkEnd(node, w, f);
    }

    /**
     * `_collect_words(node, words_freq)`: the (word, frequency) pair of every
     * terminal at or below the node at path `p`, appended in pre-order (the
     * node itself, then its children in creation order).
     */
    method CollectWords(node: nat, ghost p: string, acc: seq<Entry>) returns (r: seq<Entry>)
      requires Valid() && p in at && at[p] == node
      ensures r == acc + PreOrder(shape, p)
      decreases Below(shape, p)
    {
      NodeAt(shape, at, paths, nodes, p);
      var n := nodes[node];
      r := acc;
      if n.isEnd {
        r := r + [(n.word.value, n.frequency)];
      }
      AppendAssoc(acc, Own(shape[p]), PreOrderKids(shape, p, 0));
      var i := 0;
      while i < |n.children|
        invariant 0 <= i <= |n.children|
        invariant r + PreOrderKids(shape, p, i) == acc + PreOrder(shape, p)
      {
        ChildAt(shape, at, paths, nodes, p, i);
        var c := n.children[i].0;
        BelowShrinks(shape, p, c);
        PreOrderKidsStep(shape, p, i);
        AppendAssoc(r, PreOrder(shape, p + [c]), PreOrderKids(shape, p, i + 1));
        r := CollectWords(n.children[i].1, p + [c], r);
        i := i + 1;
      }
    }

    /**
     * `_collect_words_with_prefix(node, prefix, words_freq)`: the same
     * traversal, keeping only the terminals whose lower-cased word starts
     * with the lower-cased prefix.
     */
    method CollectWordsWithPrefix(node: nat, ghost p: string, prefix: string, acc: seq<Entry>) returns (r: seq<Entry>)
      requires Valid() && p in at && at[p] == node
      ensures r == acc + Matching(PreOrder(shape, p), Lower(prefix))
      decreases Below(shape, p)
    {
      NodeAt(shape, at, paths, nodes, p);
      var n := nodes[node];
      var lp := Lower(prefix);
      r := acc;
      if n.isEnd && lp <= Lower(n.word.value) {
        r := r + [(n.word.value, n.frequency)];
      }
      MatchingOwn(shape[p], lp);
      MatchingLoopStart(shape, p, lp, acc, r);
      ghost var goal := acc + Matching(PreOrder(shape, p), lp);
      var i := 0;
      while i < |n.children|
        invariant 0 <= i <= |n.children|
        invariant r + Matching(PreOrderKids(shape, p, i), lp) == goal
      {
        ChildAt(shape, at, paths, nodes, p, i);
        var c := n.children[i].0;
        BelowShrinks(shape, p, c);
        ghost var r0 := r;
        r := CollectWordsWithPrefix(n.children[i].1, p + [c], prefix, r);
        MatchingLoopStep(shape, p, i, lp, goal, r0, r);
        i := i + 1;
      }
    }

    /**
     * `get_top_n_prefixed(prefix, n)`: walk down the lower-cased prefix,
     * giving up with no words when a character has no child; otherwise
     * collect the words below, sort them by frequency (stably, highest
     * first) and keep the first `n` of them (Python's `[:n]`).
     */
    method GetTopNPrefixed(prefix: string, n: int) returns (r: seq<string>)
      requires Valid()
      ensures r == TopN(shape, Lower(prefix), n)
    {
      var node := 0;
      var lp := Lower(prefix);
      var i := 0;
      assert lp[..0] == [];
      while i < |lp|
        invariant 0 <= i <= |lp|
        invariant lp[..i] in at && at[lp[..i]] == node
      {
        NodeAt(shape, at, paths, nodes, lp[..i]);
        var kids := nodes[node].children;
        var k := ChildIndex(kids, lp[i]);
        TakeStep(lp, i);
        if k == |kids| {
          MissingStep(shape, at, paths, nodes, lp, i);
          TopNFacts(shape, lp, n);
          return [];
        }
        ChildAt(shape, at, paths, nodes, lp[..i], k);
        node := kids[k].1;
        i := i + 1;
      }
      assert lp[..i] == lp;
      var wordsFreq := CollectWords(node, lp, []);
      assert wordsFreq == PreOrder(shape, lp);
      r := Firsts(SliceTo(SortByFreq(wordsFreq), n));
    }
  }

  /** `Trie()`: a root with no children. */
  function NewTrie(): (t: Trie)
    ensures t.Valid() && t.shape == Empty()
  {
    Trie([NewNode], Empty(), map[[] := 0], [[]])
  }
}
