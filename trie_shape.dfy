/**
 * The abstract value of a character trie (synthesizer_interface/trie.py).
 *
 * A trie is described by the set of root-to-node paths it contains. Each
 * path carries what its node holds: the stored word and frequency when the
 * node is terminal, and the characters of its children in the order they
 * were created (Python dicts iterate in insertion order, so this order is
 * observable in every traversal).
 */
module TrieShape {
  import opened Options
  import opened Text

  /** A stored word (with its original casing) and its frequency. */
  type Entry = (string, int)

  /** What the node at one path holds. */
  datatype Info = Info(entry: Option<Entry>, kids: seq<char>)

  /** Every node of a trie, keyed by its path from the root. */
  type Shape = map<string, Info>

  /** A freshly constructed trie: a root with no children, not terminal. */
  ghost function Empty(): (m: Shape)
    ensures WF(m)
  {
    map[[] := Info(None, [])]
  }

  predicate NoDup<T(==)>(s: seq<T>) {
    forall i, j :: 0 <= i < j < |s| ==> s[i] != s[j]
  }

  /** The first components of a list of pairs, in order: the keys of a children list, the words of (word, frequency) pairs. */
  function Firsts<K, V>(s: seq<(K, V)>): (r: seq<K>)
    ensures |r| == |s| && forall i :: 0 <= i < |s| ==> r[i] == s[i].0
  {
    seq(|s|, i requires 0 <= i < |s| => s[i].0)
  }

  /**
   * The shape of a trie reachable by insertions: the root exists, children
   * are exactly the one-character extensions present, child keys are unique,
   * and a terminal's lower-cased word spells its own path.
   */
  ghost predicate WF(m: Shape) {
    [] in m &&
    (forall p, c | p + [c] in m :: p in m) &&
    (forall p, c {:trigger p + [c]} | p in m :: c in m[p].kids <==> p + [c] in m) &&
    (forall p | p in m :: NoDup(m[p].kids)) &&
    (forall p | p in m && m[p].entry.Some? :: Lower(m[p].entry.value.0) == p)
  }

  /** The stored entries, keyed by path. */
  ghost function Entries(m: Shape): map<string, Entry> {
    map q | q in m && m[q].entry.Some? :: m[q].entry.value
  }

  /** The paths at or below `p`: the footprint of a subtree, used as a termination measure. */
  ghost function Below(m: Shape, p: string): set<string> {
    set q | q in m && p <= q
  }

  lemma BelowShrinks(m: Shape, p: string, c: char)
    requires p in m
    ensures Below(m, p + [c]) < Below(m, p)
  {
    forall q | q in Below(m, p + [c]) ensures q in Below(m, p) {
      assert q[..|p|] == (p + [c])[..|p|] == p;
    }
    assert p in Below(m, p);
  }

  /** Every prefix of a path in a well-formed shape is a path, and each step is a child edge. */
  lemma {:induction false} PrefixClosed(m: Shape, p: string, k: nat)
    requires WF(m) && p in m && k <= |p|
    ensures p[..k] in m
    ensures k < |p| ==> p[k] in m[p[..k]].kids
    decreases |p| - k
  {
    if k < |p| {
      PrefixClosed(m, p, k + 1);
      assert p[..k + 1] == p[..k] + [p[k]];
    } else {
      assert p[..k] == p;
    }
  }

  /** One more character of a path walked so far. */
  lemma TakeStep(s: string, i: nat)
    requires i < |s|
    ensures s[..i + 1] == s[..i] + [s[i]]
  {
  }

  // ---------------------------------------------------------------------------
  // Insertion (Trie.insert)
  // ---------------------------------------------------------------------------

  /**
   * `Trie.insert` walking the lower-cased word `lw` from its `i`-th character:
   * a missing child is appended to its parent's children, and the node at the
   * end of the walk becomes terminal with entry `e` (overwriting any earlier one).
   */
  ghost function InsertFrom(m: Shape, lw: string, i: nat, e: Entry): (r: Shape)
    requires WF(m) && i <= |lw| && lw[..i] in m
    decreases |lw| - i
  {
    if i == |lw| then
      assert lw[..i] == lw;
      m[lw := Info(Some(e), m[lw].kids)]
    else
      var p := lw[..i];
      var c := lw[i];
      assert lw[..i + 1] == p + [c];
      if c in m[p].kids then
        InsertFrom(m, lw, i + 1, e)
      else
        AddChildWF(m, p, c);
        InsertFrom(AddChild(m, p, c), lw, i + 1, e)
  }

  /** The shape after `node.children[c] = TrieNode()` at the node of path `p`. */
  ghost function AddChild(m: Shape, p: string, c: char): Shape
    requires p in m
  {
    m[p := Info(m[p].entry, m[p].kids + [c])][p + [c] := Info(None, [])]
  }

  lemma AddChildWF(m: Shape, p: string, c: char)
    requires WF(m) && p in m && c !in m[p].kids
    ensures WF(AddChild(m, p, c))
    ensures p + [c] !in m
  {
    var r := AddChild(m, p, c);
    var pc := p + [c];
    assert forall q, d | q + [d] in r :: q in r by {
      forall q, d | q + [d] in r ensures q in r {
        if q + [d] != pc {
          assert q + [d] in m;
        } else {
          assert q == p by {
            assert (q + [d])[..|q|] == q && pc[..|p|] == p;
          }
        }
      }
    }
    AddChildEdges(m, p, c);
    assert forall q | q in r :: NoDup(r[q].kids) by {
      assert NoDup(m[p].kids);
    }
    assert forall q | q in r && r[q].entry.Some? :: Lower(r[q].entry.value.0) == q;
  }

  /** After adding the child `c` at `p`, every node's children are exactly its one-character extensions. */
  lemma AddChildEdges(m: Shape, p: string, c: char)
    requires WF(m) && p in m && c !in m[p].kids
    ensures var r := AddChild(m, p, c);
      forall q, d {:trigger q + [d]} | q in r :: d in r[q].kids <==> q + [d] in r
  {
    var r := AddChild(m, p, c);
    var pc := p + [c];
    assert pc !in m;
    forall q, d | q in r ensures d in r[q].kids <==> q + [d] in r {
      if q == pc {
        assert q + [d] !in m by {
          assert pc !in m;
          assert forall q', d' | q' + [d'] in m :: q' in m;
        }
        assert q + [d] != pc by {
          assert |q + [d]| > |pc|;
        }
      } else if q == p {
        if d != c {
          assert (q + [d])[|p|] == d;
        }
      } else {
        assert (q + [d])[..|q|] == q && pc[..|p|] == p;
      }
    }
  }

  /** Adding an empty child leaves the stored entries as they were. */
  lemma AddChildEntries(m: Shape, p: string, c: char)
    requires p in m && p + [c] !in m
    ensures Entries(AddChild(m, p, c)) == Entries(m)
  {
    var r := AddChild(m, p, c);
    assert Entries(r).Keys == Entries(m).Keys by {
      forall q ensures q in Entries(r) <==> q in Entries(m) {
        if q != p + [c] && q != p {
          assert q in r <==> q in m;
        }
      }
    }
  }

  /** `Trie.insert(w, f)` on the abstract value. */
  ghost function Inserted(m: Shape, w: string, f: int): (r: Shape)
    requires WF(m)
  {
    assert Lower(w)[..0] == [];
    InsertFrom(m, Lower(w), 0, (w, f))
  }

  /**
   * What one walk of insertion does: the shape stays well formed, the paths
   * added are exactly the prefixes of `lw`, existing children keep their order
   * (new ones go last), and only the entry at `lw` changes, to `e`.
   */
  lemma {:induction false} InsertFromFacts(m: Shape, lw: string, i: nat, e: Entry)
    requires WF(m) && i <= |lw| && lw[..i] in m
    requires Lower(e.0) == lw
    ensures var r := InsertFrom(m, lw, i, e);
      WF(r) &&
      (forall q :: q in r <==> q in m || q <= lw) &&
      (forall q | q in m :: m[q].kids <= r[q].kids) &&
      Entries(r) == Entries(m)[lw := e]
    decreases |lw| - i
  {
    if i == |lw| {
      assert lw[..i] == lw;
      InsertEndFacts(m, lw, e);
    } else {
      var p := lw[..i];
      var c := lw[i];
      assert lw[..i + 1] == p + [c];
      if c in m[p].kids {
        InsertFromFacts(m, lw, i + 1, e);
      } else {
        AddChildWF(m, p, c);
        AddChildEntries(m, p, c);
        var m1 := AddChild(m, p, c);
        InsertFromFacts(m1, lw, i + 1, e);
        assert InsertFrom(m, lw, i, e) == InsertFrom(m1, lw, i + 1, e);
        ChildThenRest(m, p, c, InsertFrom(m1, lw, i + 1, e), lw, e);
      }
    }
  }

  /** A walk that first adds the child `c` at `p` and then inserts the rest extends the shape before the child was added. */
  lemma ChildThenRest(m: Shape, p: string, c: char, r: Shape, lw: string, e: Entry)
    requires p in m && p + [c] !in m && p + [c] <= lw
    requires Entries(AddChild(m, p, c)) == Entries(m)
    requires forall q :: q in r <==> q in AddChild(m, p, c) || q <= lw
    requires forall q | q in AddChild(m, p, c) :: AddChild(m, p, c)[q].kids <= r[q].kids
    requires Entries(r) == Entries(AddChild(m, p, c))[lw := e]
    ensures forall q :: q in r <==> q in m || q <= lw
    ensures forall q | q in m :: m[q].kids <= r[q].kids
    ensures Entries(r) == Entries(m)[lw := e]
  {
    var m1 := AddChild(m, p, c);
    forall q | q in m ensures m[q].kids <= r[q].kids {
      assert m[q].kids <= m1[q].kids;
    }
  }

  /** The last step of an insertion walk: the node reached becomes terminal. */
  lemma InsertEndFacts(m: Shape, lw: string, e: Entry)
    requires WF(m) && lw in m
    requires Lower(e.0) == lw
    ensures var r := m[lw := Info(Some(e), m[lw].kids)];
      WF(r) &&
      (forall q :: q in r <==> q in m || q <= lw) &&
      (forall q | q in m :: m[q].kids <= r[q].kids) &&
      Entries(r) == Entries(m)[lw := e]
  {
    var r := m[lw := Info(Some(e), m[lw].kids)];
    assert forall q | q <= lw :: q in m by {
      forall q | q <= lw ensures q in m {
        PrefixClosed(m, lw, |q|);
        assert lw[..|q|] == q;
      }
    }
    assert WF(r);
    assert Entries(r).Keys == Entries(m)[lw := e].Keys;
  }

  /** Insertion at the lower-cased word: the facts of one whole walk. */
  lemma InsertFacts(m: Shape, w: string, f: int)
    requires WF(m)
    ensures var r := Inserted(m, w, f);
      WF(r) &&
      (forall q :: q in r <==> q in m || q <= Lower(w)) &&
      (forall q | q in m :: m[q].kids <= r[q].kids) &&
      Entries(r) == Entries(m)[Lower(w) := (w, f)]
  {
    assert Lower(w)[..0] == [];
    InsertFromFacts(m, Lower(w), 0, (w, f));
  }

  /** Insertion stores the word at its lower-cased path and leaves every other entry as it was. */
  lemma InsertedEntries(m: Shape, w: string, f: int)
    requires WF(m)
    ensures Entries(Inserted(m, w, f)) == Entries(m)[Lower(w) := (w, f)]
  {
    InsertFacts(m, w, f);
  }

  /** Insertion keeps a shape well formed. */
  lemma InsertedWF(m: Shape, w: string, f: int)
    requires WF(m)
    ensures WF(Inserted(m, w, f))
  {
    InsertFacts(m, w, f);
  }

  /** Nothing rejects the empty word: inserting it makes the root terminal. */
  lemma InsertEmptyMarksRoot(m: Shape, f: int)
    requires WF(m)
    ensures var r := Inserted(m, "", f);
      r.Keys == m.Keys && r[[]].entry == Some(("", f))
  {
    InsertFacts(m, "", f);
    assert Lower("") == [];
  }

  // ---------------------------------------------------------------------------
  // Pre-order traversal (Trie._collect_words)
  // ---------------------------------------------------------------------------

  /** The entry of a node, if it is terminal, as a list of at most one element. */
  function Own(info: Info): seq<Entry> {
    if info.entry.Some? then [info.entry.value] else []
  }

  /** The terminals of the subtree at `p`, in pre-order: the node itself, then its children in insertion order. */
  ghost function PreOrder(m: Shape, p: string): seq<Entry>
    requires WF(m) && p in m
    decreases Below(m, p), 1, 0
  {
    Own(m[p]) + PreOrderKids(m, p, 0)
  }

  /** The pre-order traversals of the children of `p` from the `i`-th on, concatenated. */
  ghost function PreOrderKids(m: Shape, p: string, i: nat): seq<Entry>
    requires WF(m) && p in m && i <= |m[p].kids|
    decreases Below(m, p), 0, |m[p].kids| - i
  {
    if i == |m[p].kids| then []
    else
      var c := m[p].kids[i];
      BelowShrinks(m, p, c);
      PreOrder(m, p + [c]) + PreOrderKids(m, p, i + 1)
  }

  /** Appending is associative. */
  lemma AppendAssoc<T>(a: seq<T>, b: seq<T>, c: seq<T>)
    ensures a + (b + c) == (a + b) + c
  {
  }

  /** The traversal below the `i`-th child, followed by the traversals below its later siblings. */
  lemma PreOrderKidsStep(m: Shape, p: string, i: nat)
    requires WF(m) && p in m && i < |m[p].kids|
    ensures p + [m[p].kids[i]] in m
    ensures PreOrderKids(m, p, i) == PreOrder(m, p + [m[p].kids[i]]) + PreOrderKids(m, p, i + 1)
  {
  }

  /**
   * Each entry the traversal lists is the one stored at the path its
   * lower-cased word spells, and that path lies at or below `p`.
   */
  lemma {:induction false} PreOrderSound(m: Shape, p: string)
    requires WF(m) && p in m
    ensures forall e | e in PreOrder(m, p) ::
      Lower(e.0) in m && p <= Lower(e.0) && m[Lower(e.0)].entry == Some(e)
    decreases Below(m, p), 1, 0
  {
    PreOrderKidsSound(m, p, 0);
  }

  lemma {:induction false} PreOrderKidsSound(m: Shape, p: string, i: nat)
    requires WF(m) && p in m && i <= |m[p].kids|
    ensures forall e | e in PreOrderKids(m, p, i) ::
      var q := Lower(e.0);
      q in m && p < q && q[|p|] in m[p].kids[i..] && m[q].entry == Some(e)
    decreases Below(m, p), 0, |m[p].kids| - i
  {
    if i < |m[p].kids| {
      var c := m[p].kids[i];
      BelowShrinks(m, p, c);
      PreOrderSound(m, p + [c]);
      PreOrderKidsSound(m, p, i + 1);
      forall e | e in PreOrder(m, p + [c])
        ensures var q := Lower(e.0); p < q && q[|p|] in m[p].kids[i..]
      {
        var q := Lower(e.0);
        assert q[..|p| + 1] == p + [c];
        assert q[|p|] == c;
      }
    }
  }

  /** Distinct entries of a list sit at distinct paths (so their words differ too). */
  ghost predicate DistinctPaths(s: seq<Entry>) {
    forall i, j :: 0 <= i < j < |s| ==> Lower(s[i].0) != Lower(s[j].0)
  }

  lemma DistinctPathsAppend(a: seq<Entry>, b: seq<Entry>)
    requires DistinctPaths(a) && DistinctPaths(b)
    requires forall x, y | x in a && y in b :: Lower(x.0) != Lower(y.0)
    ensures DistinctPaths(a + b)
  {
    forall i, j | 0 <= i < j < |a + b| ensures Lower((a + b)[i].0) != Lower((a + b)[j].0) {
      if j >= |a| && i < |a| {
        assert (a + b)[i] in a && (a + b)[j] in b;
      } else if i >= |a| {
        assert (a + b)[i] == b[i - |a|] && (a + b)[j] == b[j - |a|];
      }
    }
  }

  /** The traversal lists every terminal at most once. */
  lemma {:induction false} PreOrderDistinct(m: Shape, p: string)
    requires WF(m) && p in m
    ensures DistinctPaths(PreOrder(m, p))
    decreases Below(m, p), 1, 0
  {
    PreOrderKidsDistinct(m, p, 0);
    PreOrderKidsSound(m, p, 0);
    DistinctPathsAppend(Own(m[p]), PreOrderKids(m, p, 0));
  }

  lemma {:induction false} PreOrderKidsDistinct(m: Shape, p: string, i: nat)
    requires WF(m) && p in m && i <= |m[p].kids|
    ensures DistinctPaths(PreOrderKids(m, p, i))
    decreases Below(m, p), 0, |m[p].kids| - i
  {
    if i < |m[p].kids| {
      var kids := m[p].kids;
      var c := kids[i];
      BelowShrinks(m, p, c);
      PreOrderDistinct(m, p + [c]);
      PreOrderKidsDistinct(m, p, i + 1);
      PreOrderSound(m, p + [c]);
      PreOrderKidsSound(m, p, i + 1);
      assert NoDup(kids);
      forall x, y | x in PreOrder(m, p + [c]) && y in PreOrderKids(m, p, i + 1)
        ensures Lower(x.0) != Lower(y.0)
      {
        var qx := Lower(x.0);
        assert qx[..|p| + 1] == p + [c];
        assert qx[|p|] == c;
        assert c !in kids[i + 1..];
      }
      DistinctPathsAppend(PreOrder(m, p + [c]), PreOrderKids(m, p, i + 1));
    }
  }

  /** The children listed from the `i`-th on contribute every traversal of theirs. */
  lemma {:induction false} PreOrderKidsCover(m: Shape, p: string, i: nat, k: nat)
    requires WF(m) && p in m && i <= k < |m[p].kids|
    ensures forall e | e in PreOrder(m, p + [m[p].kids[k]]) :: e in PreOrderKids(m, p, i)
    decreases k - i
  {
    if i < k {
      PreOrderKidsCover(m, p, i + 1, k);
    }
  }

  /** Every terminal at or below `p` is listed by the traversal of `p`. */
  lemma {:induction false} PreOrderComplete(m: Shape, p: string, q: string)
    requires WF(m) && p in m && q in m && p <= q && m[q].entry.Some?
    ensures m[q].entry.value in PreOrder(m, p)
    decreases |q| - |p|
  {
    if q != p {
      var c := q[|p|];
      PrefixClosed(m, q, |p|);
      PrefixClosed(m, q, |p| + 1);
      assert q[..|p|] == p && q[..|p| + 1] == p + [c];
      var k :| 0 <= k < |m[p].kids| && m[p].kids[k] == c;
      PreOrderComplete(m, p + [c], q);
      PreOrderKidsCover(m, p, 0, k);
    }
  }

  // ---------------------------------------------------------------------------
  // Prefix filtering (Trie._collect_words_with_prefix)
  // ---------------------------------------------------------------------------

  /** The entries whose lower-cased word starts with `lp`, in their order: the test applied at each terminal. */
  function Matching(s: seq<Entry>, lp: string): (r: seq<Entry>)
    ensures forall e | e in r :: e in s && lp <= Lower(e.0)
    ensures forall e | e in s && lp <= Lower(e.0) :: e in r
  {
    if s == [] then []
    else (if lp <= Lower(s[0].0) then [s[0]] else []) + Matching(s[1..], lp)
  }

  lemma {:induction false} MatchingAppend(a: seq<Entry>, b: seq<Entry>, lp: string)
    ensures Matching(a + b, lp) == Matching(a, lp) + Matching(b, lp)
  {
    if a == [] {
      assert a + b == b;
    } else {
      assert (a + b)[0] == a[0] && (a + b)[1..] == a[1..] + b;
      MatchingAppend(a[1..], b, lp);
    }
  }

  lemma {:induction false} MatchingAll(s: seq<Entry>, lp: string)
    requires forall e | e in s :: lp <= Lower(e.0)
    ensures Matching(s, lp) == s
  {
    if s != [] {
      MatchingAll(s[1..], lp);
    }
  }

  lemma {:induction false} MatchingNone(s: seq<Entry>, lp: string)
    requires forall e | e in s :: !(lp <= Lower(e.0))
    ensures Matching(s, lp) == []
  {
    if s != [] {
      MatchingNone(s[1..], lp);
    }
  }

  /**
   * Filtering the traversal of a node strictly above `lp` leaves exactly the
   * traversal of the node at `lp`, or nothing when the trie has no such node.
   */
  lemma {:induction false} MatchingFromAbove(m: Shape, p: string, lp: string)
    requires WF(m) && p in m && p < lp
    ensures Matching(PreOrder(m, p), lp) == if lp in m then PreOrder(m, lp) else []
    decreases Below(m, p), 1, 0
  {
    PreOrderKidsMatching(m, p, lp, 0);
    MatchingAppend(Own(m[p]), PreOrderKids(m, p, 0), lp);
    MatchingNone(Own(m[p]), lp);
    assert m[p].kids[0..] == m[p].kids;
    if lp in m {
      PrefixClosed(m, lp, |p|);
      assert lp[..|p|] == p;
    }
  }

  lemma {:induction false} PreOrderKidsMatching(m: Shape, p: string, lp: string, i: nat)
    requires WF(m) && p in m && p < lp && i <= |m[p].kids|
    ensures Matching(PreOrderKids(m, p, i), lp) ==
      if lp in m && lp[|p|] in m[p].kids[i..] then PreOrder(m, lp) else []
    decreases Below(m, p), 0, |m[p].kids| - i
  {
    var kids := m[p].kids;
    if i < |kids| {
      var c := kids[i];
      BelowShrinks(m, p, c);
      MatchingAppend(PreOrder(m, p + [c]), PreOrderKids(m, p, i + 1), lp);
      PreOrderKidsMatching(m, p, lp, i + 1);
      ChildMatching(m, p, lp, c);
      SuffixMembership(kids, i, lp[|p|]);
    }
  }

  /** Membership in a suffix, one element at a time; a unique element is not repeated after itself. */
  lemma SuffixMembership<T>(s: seq<T>, i: nat, x: T)
    requires i < |s| && NoDup(s)
    ensures x in s[i..] <==> x == s[i] || x in s[i + 1..]
    ensures s[i] !in s[i + 1..]
  {
    assert s[i..] == [s[i]] + s[i + 1..];
  }

  /** Filtering the traversal of one child of a node above `lp`. */
  lemma {:induction false} ChildMatching(m: Shape, p: string, lp: string, c: char)
    requires WF(m) && p + [c] in m && p < lp
    ensures Matching(PreOrder(m, p + [c]), lp) ==
      if c == lp[|p|] && lp in m then PreOrder(m, lp) else []
    decreases Below(m, p + [c]), 2
  {
    var child := p + [c];
    if c == lp[|p|] {
      assert child == lp[..|p| + 1];
      if child == lp {
        PreOrderSound(m, child);
        MatchingAll(PreOrder(m, child), lp);
      } else {
        MatchingFromAbove(m, child, lp);
      }
    } else {
      PreOrderSound(m, child);
      forall e | e in PreOrder(m, child) ensures !(lp <= Lower(e.0)) {
        var q := Lower(e.0);
        assert q[..|p| + 1] == child;
        assert q[|p|] == c;
      }
      MatchingNone(PreOrder(m, child), lp);
    }
  }

  /** The filter applied to a node's own entry. */
  lemma MatchingOwn(info: Info, lp: string)
    ensures Matching(Own(info), lp) ==
      if info.entry.Some? && lp <= Lower(info.entry.value.0) then [info.entry.value] else []
  {
    if info.entry.Some? {
      assert [info.entry.value][1..] == [];
    }
  }

  /** The filter over a subtree: the node's own entry, then its children's subtrees. */
  lemma MatchingPreOrderStart(m: Shape, p: string, lp: string)
    requires WF(m) && p in m
    ensures Matching(PreOrder(m, p), lp) == Matching(Own(m[p]), lp) + Matching(PreOrderKids(m, p, 0), lp)
  {
    MatchingAppend(Own(m[p]), PreOrderKids(m, p, 0), lp);
  }

  /** Before the first child: what was collected, then the filtered children's subtrees, is the filtered subtree. */
  lemma MatchingLoopStart(m: Shape, p: string, lp: string, acc: seq<Entry>, r: seq<Entry>)
    requires WF(m) && p in m
    requires r == acc + Matching(Own(m[p]), lp)
    ensures r + Matching(PreOrderKids(m, p, 0), lp) == acc + Matching(PreOrder(m, p), lp)
  {
    MatchingPreOrderStart(m, p, lp);
    AppendAssoc(acc, Matching(Own(m[p]), lp), Matching(PreOrderKids(m, p, 0), lp));
  }

  /** After the `i`-th child: the same holds one child further on. */
  lemma MatchingLoopStep(m: Shape, p: string, i: nat, lp: string, goal: seq<Entry>, r: seq<Entry>, r': seq<Entry>)
    requires WF(m) && p in m && i < |m[p].kids|
    requires p + [m[p].kids[i]] in m
    requires r + Matching(PreOrderKids(m, p, i), lp) == goal
    requires r' == r + Matching(PreOrder(m, p + [m[p].kids[i]]), lp)
    ensures r' + Matching(PreOrderKids(m, p, i + 1), lp) == goal
  {
    MatchingKidsStep(m, p, i, lp);
    AppendAssoc(r, Matching(PreOrder(m, p + [m[p].kids[i]]), lp), Matching(PreOrderKids(m, p, i + 1), lp));
  }

  /** The filter over the `i`-th child's subtree, then over its later siblings' subtrees. */
  lemma MatchingKidsStep(m: Shape, p: string, i: nat, lp: string)
    requires WF(m) && p in m && i < |m[p].kids|
    ensures p + [m[p].kids[i]] in m
    ensures Matching(PreOrderKids(m, p, i), lp) ==
      Matching(PreOrder(m, p + [m[p].kids[i]]), lp) + Matching(PreOrderKids(m, p, i + 1), lp)
  {
    PreOrderKidsStep(m, p, i);
    MatchingAppend(PreOrder(m, p + [m[p].kids[i]]), PreOrderKids(m, p, i + 1), lp);
  }

  /**
   * What `_collect_words_with_prefix` gathers when started at the root: the
   * pre-order traversal of the node at the lower-cased prefix, or nothing
   * when some character of it has no child.
   */
  lemma MatchingFromRoot(m: Shape, lp: string)
    requires WF(m)
    ensures Matching(PreOrder(m, []), lp) == if lp in m then PreOrder(m, lp) else []
  {
    if lp == [] {
      PreOrderSound(m, []);
      MatchingAll(PreOrder(m, []), lp);
    } else {
      MatchingFromAbove(m, [], lp);
    }
  }
}
