/**
 * The learning memory of synthesizer_interface/user_memory.py: a unigram
 * trie and one bigram trie per preceding word, fed from the text the user
 * typed, saved to and loaded from a JSON document of word -> frequency maps.
 *
 * This module states what each step does to the abstract shapes of the
 * tries (module TrieShape); module UserMemoryModel runs the same steps on
 * `Trie` values and is proved against it.
 */
module UserMemorySpec {
  import opened Options
  import opened Text
  import opened TrieShape
  import opened TrieModel

  /** `self.frequency_threshold`: a user word is suggested once typed this often. */
  const FrequencyThreshold: int := 6

  // ---------------------------------------------------------------------------
  // One update step on the abstract shapes
  // ---------------------------------------------------------------------------

  /**
   * The frequency `update_from_text` reads for token `w`: the first pair that
   * `_collect_words_with_prefix(root, w)` lists, or 0 when it lists none.
   */
  ghost function FirstFreq(m: Shape, w: string): int
    requires WF(m)
  {
    var s := Matching(PreOrder(m, []), Lower(w));
    if s == [] then 0 else s[0].1
  }

  /** `trie.insert(w, current_freq + 1)` with the frequency read as above. */
  ghost function Bump(m: Shape, w: string): (r: Shape)
    requires WF(m)
    ensures WF(r)
  {
    InsertedWF(m, w, FirstFreq(m, w) + 1);
    Inserted(m, w, FirstFreq(m, w) + 1)
  }

  /** A bump inserts the token with the count the rule reads plus one. */
  lemma BumpIsInsert(m: Shape, w: string, f: int, r: Shape)
    requires WF(m) && f == FirstFreq(m, w) && r == Inserted(m, w, f + 1)
    ensures r == Bump(m, w)
  {
  }

  /** The unigram loop of `update_from_text` over the tokens `ws`, in order. */
  ghost function BumpAll(m: Shape, ws: seq<string>): (r: Shape)
    requires WF(m)
    ensures WF(r)
  {
    if ws == [] then m else Bump(BumpAll(m, ws[..|ws| - 1]), ws[|ws| - 1])
  }

  /** One more token of the unigram loop. */
  lemma BumpAllStep(m: Shape, ws: seq<string>, i: nat)
    requires WF(m) && i < |ws|
    ensures BumpAll(m, ws[..i + 1]) == Bump(BumpAll(m, ws[..i]), ws[i])
  {
    assert ws[..i + 1][..i] == ws[..i];
  }

  /** The loop form of `BumpAllStep`: bumping the next token extends the tokens done by one. */
  lemma BumpAllNext(m: Shape, ws: seq<string>, i: nat, before: Shape, after: Shape)
    requires WF(m) && i < |ws| && before == BumpAll(m, ws[..i])
    requires WF(before) && after == Bump(before, ws[i])
    ensures after == BumpAll(m, ws[..i + 1])
  {
    BumpAllStep(m, ws, i);
  }

  /** Every trie of a word -> trie mapping is well formed. */
  ghost predicate AllWF(b: map<string, Shape>) {
    forall s | s in b.Values :: WF(s)
  }

  /** Storing a well-formed shape keeps a map of shapes well formed. */
  lemma AllWFUpdate(b: map<string, Shape>, w: string, s: Shape)
    requires AllWF(b) && WF(s)
    ensures AllWF(b[w := s])
  {}

  /** One bigram step: the trie of `w1` (created empty if missing) has `w2` bumped. */
  ghost function BumpPair(b: map<string, Shape>, w1: string, w2: string): (r: map<string, Shape>)
    requires AllWF(b)
    ensures AllWF(r)
  {
    b[w1 := Bump(ShapeOr(b, w1), w2)]
  }

  /** The trie stored for `w`, or a new empty one. */
  ghost function ShapeOr(b: map<string, Shape>, w: string): (m: Shape)
    requires AllWF(b)
    ensures WF(m)
  {
    if w in b then b[w] else Empty()
  }

  /** The number of adjacent pairs `range(len(words) - 1)` visits. */
  function PairCount(ws: seq<string>): nat {
    if ws == [] then 0 else |ws| - 1
  }

  /** The first `k` steps of the bigram loop of `update_from_text`. */
  ghost function BumpPairs(b: map<string, Shape>, ws: seq<string>, k: nat): (r: map<string, Shape>)
    requires AllWF(b) && k <= PairCount(ws)
    ensures AllWF(r)
  {
    if k == 0 then b else BumpPair(BumpPairs(b, ws, k - 1), ws[k - 1], ws[k])
  }

  /** A stored word whose path no token spells keeps its entry through the unigram loop. */
  lemma {:induction false} BumpAllKeeps(m: Shape, ws: seq<string>, q: string)
    requires WF(m) && q in Entries(m)
    requires forall i | 0 <= i < |ws| :: Lower(ws[i]) != q
    ensures q in Entries(BumpAll(m, ws)) && Entries(BumpAll(m, ws))[q] == Entries(m)[q]
    decreases |ws|
  {
    if ws != [] {
      var init := ws[..|ws| - 1];
      BumpAllKeeps(m, init, q);
      BumpEntries(BumpAll(m, init), ws[|ws| - 1]);
    }
  }

  /** The first words of the first `k` pairs. */
  function FirstWordsOf(ws: seq<string>, k: nat): set<string>
    requires k <= |ws|
  {
    set i | 0 <= i < k :: ws[i]
  }

  lemma FirstWordsStep(ws: seq<string>, k: nat)
    requires 0 < k <= |ws|
    ensures FirstWordsOf(ws, k) == FirstWordsOf(ws, k - 1) + {ws[k - 1]}
  {
    var before := FirstWordsOf(ws, k - 1);
    forall w | w in FirstWordsOf(ws, k) ensures w in before + {ws[k - 1]} {
      var i :| 0 <= i < k && ws[i] == w;
      if i < k - 1 {
        assert w in before;
      }
    }
  }

  /** The second word of each pair is bumped in the trie of the first. */
  lemma BumpPairsLast(b: map<string, Shape>, ws: seq<string>, k: nat)
    requires AllWF(b) && 0 < k <= PairCount(ws)
    ensures var r := BumpPairs(b, ws, k);
      ws[k - 1] in r && r[ws[k - 1]] == Bump(ShapeOr(BumpPairs(b, ws, k - 1), ws[k - 1]), ws[k])
  {
  }

  /** The tokens `text.strip().split()`. */
  function Tokens(text: string): seq<string> {
    Split(Strip(text))
  }

  /**
   * The increment rule. A token whose lower-cased path is stored gets its own
   * count plus one. A token whose path is missing starts at 1. A token whose
   * path exists but is not stored takes one more than the first word below it
   * in traversal order (the first-prefix-match behaviour): whatever count it
   * reads belongs to a stored word extending the token.
   */
  lemma FirstFreqRule(m: Shape, w: string)
    requires WF(m)
    ensures Lower(w) !in m ==> FirstFreq(m, w) == 0
    ensures Lower(w) in m ==>
      FirstFreq(m, w) == (if PreOrder(m, Lower(w)) == [] then 0 else PreOrder(m, Lower(w))[0].1)
    ensures Lower(w) in Entries(m) ==> FirstFreq(m, w) == Entries(m)[Lower(w)].1
    ensures (forall q | q in Entries(m) :: !(Lower(w) <= q)) ==> FirstFreq(m, w) == 0
    ensures FirstFreq(m, w) != 0 ==>
      exists q | q in Entries(m) :: Lower(w) <= q && Entries(m)[q].1 == FirstFreq(m, w)
  {
    var lw := Lower(w);
    MatchingFromRoot(m, lw);
    if lw in m {
      var s := PreOrder(m, lw);
      assert s == Own(m[lw]) + PreOrderKids(m, lw, 0);
      if s != [] {
        PreOrderSound(m, lw);
        assert s[0] in s;
        assert Lower(s[0].0) in Entries(m);
      }
    }
  }

  /**
   * What one bump does to the stored words: the token is stored as typed,
   * with the count the rule above reads plus one, and every other stored
   * word keeps its entry.
   */
  lemma BumpEntries(m: Shape, w: string)
    requires WF(m)
    ensures var r := Bump(m, w);
      Entries(r) == Entries(m)[Lower(w) := (w, FirstFreq(m, w) + 1)] &&
      (Lower(w) in Entries(m) ==> Entries(r)[Lower(w)].1 == Entries(m)[Lower(w)].1 + 1) &&
      (Lower(w) !in m ==> Entries(r)[Lower(w)].1 == 1) &&
      (forall q | q in Entries(m) && q != Lower(w) :: Entries(r)[q] == Entries(m)[q])
  {
    InsertedEntries(m, w, FirstFreq(m, w) + 1);
    FirstFreqRule(m, w);
  }

  /** A bump adds the token's path and its prefixes, and no other path. */
  lemma BumpPaths(m: Shape, w: string)
    requires WF(m)
    ensures forall q :: q in Bump(m, w) <==> q in m || q <= Lower(w)
  {
    InsertFacts(m, w, FirstFreq(m, w) + 1);
  }

  /** A token whose path is missing is stored with count 1. */
  lemma FreshBump(m: Shape, w: string)
    requires WF(m) && Lower(w) !in m
    ensures Entries(Bump(m, w)) == Entries(m)[Lower(w) := (w, 1)]
  {
    BumpEntries(m, w);
    FirstFreqRule(m, w);
  }

  /** A token whose path is stored gets that entry's count plus one. */
  lemma StoredBump(m: Shape, w: string)
    requires WF(m) && Lower(w) in Entries(m)
    ensures Entries(Bump(m, w)) == Entries(m)[Lower(w) := (w, Entries(m)[Lower(w)].1 + 1)]
  {
    BumpEntries(m, w);
    FirstFreqRule(m, w);
  }

  /**
   * A token that spells a prefix of stored words without being stored itself
   * inherits the count of the first of them in traversal order, plus one:
   * its count is not the number of times it was typed.
   */
  lemma PrefixBump(m: Shape, w: string)
    requires WF(m) && Lower(w) in m && Lower(w) !in Entries(m) && PreOrder(m, Lower(w)) != []
    ensures Entries(Bump(m, w)) == Entries(m)[Lower(w) := (w, PreOrder(m, Lower(w))[0].1 + 1)]
  {
    BumpEntries(m, w);
    FirstFreqRule(m, w);
  }

  /** The tokens of "кот сидит". */
  lemma ExampleTokens(text: string)
    requires text == "кот сидит"
    ensures Tokens(text) == ["кот", "сидит"]
  {
    assert text == "кот" + [' '] + "сидит";
    StripOfStripped(text);
    SplitTwo("кот", "сидит");
  }

  /**
   * Feeding "кот сидит" twice into an empty memory: each word, and the pair,
   * ends up with count 2.
   */
  lemma TwiceTyped(text: string)
    requires text == "кот сидит"
    ensures var ws := Tokens(text);
      var u := BumpAll(BumpAll(Empty(), ws), ws);
      var b := BumpPairs(BumpPairs(map[], ws, PairCount(ws)), ws, PairCount(ws));
      Entries(u) == map["кот" := ("кот", 2), "сидит" := ("сидит", 2)] &&
      b.Keys == {"кот"} && Entries(b["кот"]) == map["сидит" := ("сидит", 2)]
  {
    ExampleTokens(text);
    var cat, sits := "кот", "сидит";
    LowerOfLowerCase(cat);
    LowerOfLowerCase(sits);
    assert !(sits <= cat) by {
      assert sits[0] != cat[0];
    }
    EmptyFacts();
    TwiceTypedWords(Empty(), [cat, sits]);
  }

  /**
   * Two tokens typed twice into a memory storing nothing on their paths
   * (the second not spelling a prefix of the first): each word, and the
   * pair, ends up with count 2.
   */
  lemma TwiceTypedWords(m: Shape, ws: seq<string>)
    requires WF(m) && Entries(m) == map[] && |ws| == 2
    requires Lower(ws[0]) !in m && Lower(ws[1]) !in m && !(Lower(ws[1]) <= Lower(ws[0]))
    ensures var u := BumpAll(BumpAll(m, ws), ws);
      var b := BumpPairs(BumpPairs(map[], ws, PairCount(ws)), ws, PairCount(ws));
      Entries(u) == map[Lower(ws[0]) := (ws[0], 2), Lower(ws[1]) := (ws[1], 2)] &&
      b.Keys == {ws[0]} && Entries(b[ws[0]]) == map[Lower(ws[1]) := (ws[1], 2)]
  {
    UnigramsTwiceTyped(m, ws);
    assert Lower(ws[1]) !in Empty() by {
      assert Lower(ws[1]) != [];
    }
    PairTwiceTyped(ws);
  }

  lemma UnigramsTwiceTyped(m: Shape, ws: seq<string>)
    requires WF(m) && Entries(m) == map[] && |ws| == 2
    requires Lower(ws[0]) !in m && Lower(ws[1]) !in m && !(Lower(ws[1]) <= Lower(ws[0]))
    ensures Entries(BumpAll(BumpAll(m, ws), ws)) == map[Lower(ws[0]) := (ws[0], 2), Lower(ws[1]) := (ws[1], 2)]
  {
    var cat, sits := ws[0], ws[1];
    assert ws == [cat, sits];
    var u2 := Bump(Bump(m, cat), sits);
    BumpAllTwo(m, cat, sits);
    UnigramsOnce(m, cat, sits);
    BumpAllTwo(u2, cat, sits);
    UnigramsAgain(u2, cat, sits);
  }

  lemma PairTwiceTyped(ws: seq<string>)
    requires |ws| == 2 && Lower(ws[1]) !in Empty()
    ensures var b := BumpPairs(BumpPairs(map[], ws, PairCount(ws)), ws, PairCount(ws));
      b.Keys == {ws[0]} && Entries(b[ws[0]]) == map[Lower(ws[1]) := (ws[1], 2)]
  {
    EmptyFacts();
    PairOnce(ws);
    PairAgain(ws, BumpPairs(map[], ws, PairCount(ws)));
    BigramsTwice(Empty(), ws[1]);
  }

  /** A new trie stores nothing and has only its root. */
  lemma EmptyFacts()
    ensures Entries(Empty()) == map[] && Empty().Keys == {[]}
  {
  }

  lemma PairOnce(ws: seq<string>)
    requires |ws| == 2
    ensures var b := BumpPairs(map[], ws, PairCount(ws));
      b.Keys == {ws[0]} && b[ws[0]] == Bump(Empty(), ws[1])
  {
    var none: map<string, Shape> := map[];
    assert PairCount(ws) == 1;
    assert BumpPairs(none, ws, 0) == none;
    assert ShapeOr(none, ws[0]) == Empty();
    assert BumpPairs(none, ws, 1) == none[ws[0] := Bump(Empty(), ws[1])];
  }

  lemma PairAgain(ws: seq<string>, b: map<string, Shape>)
    requires |ws| == 2 && b.Keys == {ws[0]} && WF(b[ws[0]])
    ensures AllWF(b)
    ensures var r := BumpPairs(b, ws, PairCount(ws));
      r.Keys == {ws[0]} && r[ws[0]] == Bump(b[ws[0]], ws[1])
  {
    assert PairCount(ws) == 1;
  }

  lemma BumpAllOne(m: Shape, a: string)
    requires WF(m)
    ensures BumpAll(m, [a]) == Bump(m, a)
  {
    assert [a][..0] == [];
  }

  lemma BumpAllTwo(m: Shape, a: string, b: string)
    requires WF(m)
    ensures BumpAll(m, [a, b]) == Bump(Bump(m, a), b)
  {
    var ab := [a, b];
    assert ab[..|ab| - 1] == [a] && ab[|ab| - 1] == b;
    assert BumpAll(m, ab) == Bump(BumpAll(m, [a]), b);
    BumpAllOne(m, a);
  }

  /** Two words typed once each into a trie storing nothing, the second not spelling a prefix of the first. */
  lemma UnigramsOnce(m: Shape, cat: string, sits: string)
    requires WF(m) && Entries(m) == map[] && Lower(cat) !in m && Lower(sits) !in m
    requires !(Lower(sits) <= Lower(cat))
    ensures Entries(Bump(Bump(m, cat), sits)) == map[Lower(cat) := (cat, 1), Lower(sits) := (sits, 1)]
  {
    FreshBump(m, cat);
    BumpPaths(m, cat);
    FreshBump(Bump(m, cat), sits);
  }

  /** Two distinct stored words with count 1 typed again: both reach count 2. */
  lemma UnigramsAgain(m: Shape, cat: string, sits: string)
    requires WF(m) && Lower(cat) != Lower(sits)
    requires Entries(m) == map[Lower(cat) := (cat, 1), Lower(sits) := (sits, 1)]
    ensures Entries(Bump(Bump(m, cat), sits)) == map[Lower(cat) := (cat, 2), Lower(sits) := (sits, 2)]
  {
    StoredBump(m, cat);
    StoredBump(Bump(m, cat), sits);
  }

  /** A word typed twice into a trie storing nothing on its path. */
  lemma BigramsTwice(m: Shape, sits: string)
    requires WF(m) && Entries(m) == map[] && Lower(sits) !in m
    ensures Entries(Bump(Bump(m, sits), sits)) == map[Lower(sits) := (sits, 2)]
  {
    FreshBump(m, sits);
    StoredBump(Bump(m, sits), sits);
  }

  // ---------------------------------------------------------------------------
  // The JSON document of `save_memory` / `load_memory`
  // ---------------------------------------------------------------------------

  /** `{'unigrams': {word: freq}, 'bigrams': {word1: {word2: freq}}}`. */
  datatype MemoryData = MemoryData(unigrams: map<string, int>, bigrams: map<string, map<string, int>>)

  /** A dictionary filled from (word, freq) pairs in order, a later pair overwriting an earlier one. */
  function ToMap(s: seq<Entry>): map<string, int> {
    if s == [] then map[] else ToMap(s[..|s| - 1])[s[|s| - 1].0 := s[|s| - 1].1]
  }

  /** The stored words of a shape with their frequencies. */
  ghost function WordFreqs(m: Shape): (d: map<string, int>)
    requires WF(m)
  {
    map q | q in Entries(m) :: Entries(m)[q].0 := Entries(m)[q].1
  }

  /** The document `save_memory` writes; a bigram trie holding no word is left out. */
  ghost function Snapshot(u: Shape, b: map<string, Shape>): MemoryData
    requires WF(u) && AllWF(b)
  {
    MemoryData(ToMap(PreOrder(u, [])), SavedTries(b, b.Keys))
  }

  /** The dictionaries saved for the bigram tries of the words in `ks`. */
  ghost function SavedTries(b: map<string, Shape>, ks: set<string>): map<string, map<string, int>>
    requires AllWF(b)
  {
    map w | w in b && w in ks && PreOrder(b[w], []) != [] :: ToMap(PreOrder(b[w], []))
  }

  /** Saving one more bigram trie adds its dictionary, unless it holds no word. */
  lemma SavedTriesStep(b: map<string, Shape>, ks: set<string>, w: string)
    requires AllWF(b) && w in b
    ensures SavedTries(b, ks + {w}) ==
      if PreOrder(b[w], []) != [] then SavedTries(b, ks)[w := ToMap(PreOrder(b[w], []))] else SavedTries(b, ks)
  {}

  /** Which pairs a dictionary filled from `s` holds. */
  lemma {:induction false} ToMapFacts(s: seq<Entry>)
    ensures forall w :: w in ToMap(s) <==> exists e | e in s :: e.0 == w
    ensures DistinctPaths(s) ==> forall e | e in s :: ToMap(s)[e.0] == e.1
  {
    if s != [] {
      var init := s[..|s| - 1];
      var last := s[|s| - 1];
      ToMapFacts(init);
      assert s == init + [last];
      forall w ensures w in ToMap(s) <==> exists e | e in s :: e.0 == w {
        if w in ToMap(init) {
          var e :| e in init && e.0 == w;
          assert e in s;
        }
      }
      if DistinctPaths(s) {
        assert DistinctPaths(init) by {
          forall i, j | 0 <= i < j < |init| ensures Lower(init[i].0) != Lower(init[j].0) {
            assert init[i] == s[i] && init[j] == s[j];
          }
        }
        forall e | e in s ensures ToMap(s)[e.0] == e.1 {
          if e != last {
            var i :| 0 <= i < |init| && init[i] == e;
            assert Lower(s[i].0) != Lower(s[|s| - 1].0);
          }
        }
      }
    }
  }

  /** The dictionary `save_memory` builds from a trie holds exactly its stored words. */
  lemma SavedWords(m: Shape)
    requires WF(m)
    ensures ToMap(PreOrder(m, [])) == WordFreqs(m)
  {
    SavedKeys(m);
    SavedValues(m);
  }

  lemma SavedKeys(m: Shape)
    requires WF(m)
    ensures forall w :: w in ToMap(PreOrder(m, [])) <==> w in WordFreqs(m)
  {
    var s := PreOrder(m, []);
    PreOrderSound(m, []);
    ToMapFacts(s);
    forall w | w in WordFreqs(m) ensures w in ToMap(s) {
      var q :| q in Entries(m) && Entries(m)[q].0 == w;
      PreOrderComplete(m, [], q);
      assert Entries(m)[q] in s;
    }
    forall w | w in ToMap(s) ensures w in WordFreqs(m) {
      var e :| e in s && e.0 == w;
      assert Lower(w) in Entries(m);
    }
  }

  lemma SavedValues(m: Shape)
    requires WF(m)
    ensures forall w | w in ToMap(PreOrder(m, [])) && w in WordFreqs(m) ::
      ToMap(PreOrder(m, []))[w] == WordFreqs(m)[w]
  {
    var s := PreOrder(m, []);
    PreOrderSound(m, []);
    PreOrderDistinct(m, []);
    ToMapFacts(s);
    forall w | w in ToMap(s) && w in WordFreqs(m) ensures ToMap(s)[w] == WordFreqs(m)[w] {
      var e :| e in s && e.0 == w;
      var q := Lower(w);
      assert q in Entries(m) && Entries(m)[q] == e;
    }
  }

  /** `if words_freq:` — a trie lists no pair exactly when it stores no word. */
  lemma SavedNothing(m: Shape)
    requires WF(m)
    ensures PreOrder(m, []) == [] <==> Entries(m) == map[]
  {
    var s := PreOrder(m, []);
    if s != [] {
      PreOrderSound(m, []);
      assert s[0] in s;
      assert Lower(s[0].0) in Entries(m);
    }
    if Entries(m) != map[] {
      var q :| q in Entries(m);
      PreOrderComplete(m, [], q);
    }
  }

  // ---------------------------------------------------------------------------
  // Loading
  // ---------------------------------------------------------------------------

  /** The paths the words of a dictionary spell once lower-cased. */
  ghost function LowerKeys(d: map<string, int>): set<string> {
    set w | w in d :: Lower(w)
  }

  /**
   * The stored entries `E'` result from inserting every pair of `d`, in some
   * order, over the entries `E`: the paths of `d` are added; the other paths
   * keep their entries; each path of `d` holds one of the words of `d` that
   * spell it, with that word's frequency.
   */
  ghost predicate LoadedFrom(E: map<string, Entry>, E': map<string, Entry>, d: map<string, int>) {
    E'.Keys == E.Keys + LowerKeys(d) &&
    (forall q | q in E && q !in LowerKeys(d) :: E'[q] == E[q]) &&
    (forall q | q in LowerKeys(d) :: E'[q].0 in d && Lower(E'[q].0) == q && E'[q].1 == d[E'[q].0])
  }

  /** The pairs of `d` whose word is in `ws`. */
  function Restrict(d: map<string, int>, ws: set<string>): (r: map<string, int>)
    ensures r.Keys == d.Keys * ws && forall w | w in r :: r[w] == d[w]
  {
    map w | w in d && w in ws :: d[w]
  }

  /** Restricting a dictionary to all of its words leaves it as it is. */
  lemma RestrictAll(d: map<string, int>)
    ensures Restrict(d, d.Keys) == d
  {
  }

  /** Inserting one more pair of `d` extends what was loaded by that pair. */
  lemma LoadStep(E: map<string, Entry>, m: Shape, d: map<string, int>, done: set<string>, w: string)
    requires WF(m) && LoadedFrom(E, Entries(m), Restrict(d, done)) && w in d
    ensures WF(Inserted(m, w, d[w]))
    ensures LoadedFrom(E, Entries(Inserted(m, w, d[w])), Restrict(d, done + {w}))
  {
    InsertedWF(m, w, d[w]);
    InsertedEntries(m, w, d[w]);
    LowerKeysStep(d, done, w);
    LoadedStep(E, Entries(m), d, done, w);
  }

  /** The lowered words of `d` restricted to one more word gain that word's path. */
  lemma LowerKeysStep(d: map<string, int>, done: set<string>, w: string)
    requires w in d
    ensures LowerKeys(Restrict(d, done + {w})) == LowerKeys(Restrict(d, done)) + {Lower(w)}
  {
    var d0 := Restrict(d, done);
    var d1 := Restrict(d, done + {w});
    assert w in d1;
    forall q | q in LowerKeys(d1) ensures q in LowerKeys(d0) + {Lower(w)} {
      var v :| v in d1 && Lower(v) == q;
      if v != w {
        assert v in d0;
      }
    }
  }

  /** Storing `w` with its frequency extends what was loaded from `d` by `w`. */
  lemma LoadedStep(E: map<string, Entry>, E0: map<string, Entry>, d: map<string, int>, done: set<string>, w: string)
    requires w in d && LoadedFrom(E, E0, Restrict(d, done))
    requires LowerKeys(Restrict(d, done + {w})) == LowerKeys(Restrict(d, done)) + {Lower(w)}
    ensures LoadedFrom(E, E0[Lower(w) := (w, d[w])], Restrict(d, done + {w}))
  {
  }

  /**
   * The round trip: loading the document saved from shapes `u`, `b` into an
   * empty memory restores every stored word with its frequency, in the
   * unigram trie and in each bigram trie that held a word; a bigram trie
   * that held none is not restored.
   */
  lemma RoundTrip(u: Shape, b: map<string, Shape>, u': map<string, Entry>, b': map<string, map<string, Entry>>)
    requires WF(u) && AllWF(b)
    requires var data := Snapshot(u, b);
      LoadedFrom(map[], u', data.unigrams) &&
      b'.Keys == data.bigrams.Keys &&
      (forall w | w in b' :: LoadedFrom(map[], b'[w], data.bigrams[w]))
    ensures u' == Entries(u)
    ensures b'.Keys == set w | w in b && Entries(b[w]) != map[]
    ensures forall w | w in b' :: b'[w] == Entries(b[w])
  {
    SavedWords(u);
    LoadedWords(u, u');
    SavedBigrams(u, b);
    forall w | w in b' ensures b'[w] == Entries(b[w]) {
      LoadedWords(b[w], b'[w]);
    }
  }

  /** The bigram part of the saved document: one dictionary per trie storing a word. */
  lemma SavedBigrams(u: Shape, b: map<string, Shape>)
    requires WF(u) && AllWF(b)
    ensures var d := Snapshot(u, b).bigrams;
      d.Keys == (set w | w in b && Entries(b[w]) != map[]) &&
      forall w | w in d :: d[w] == WordFreqs(b[w])
  {
    var d := Snapshot(u, b).bigrams;
    forall w | w in b ensures w in d <==> Entries(b[w]) != map[] {
      SavedNothing(b[w]);
    }
    forall w | w in d ensures d[w] == WordFreqs(b[w]) {
      SavedWords(b[w]);
    }
  }

  /** Loading the stored words of a shape into an empty trie gives back its entries. */
  lemma LoadedWords(m: Shape, E': map<string, Entry>)
    requires WF(m) && LoadedFrom(map[], E', WordFreqs(m))
    ensures E' == Entries(m)
  {
    WordFreqsPaths(m);
    forall q | q in E' ensures E'[q] == Entries(m)[q] {
      WordFreqsAt(m, E'[q].0);
    }
  }

  /** The words of `WordFreqs(m)` spell exactly the stored paths. */
  lemma WordFreqsPaths(m: Shape)
    requires WF(m)
    ensures LowerKeys(WordFreqs(m)) == Entries(m).Keys
  {
    var d := WordFreqs(m);
    forall q | q in Entries(m) ensures q in LowerKeys(d) {
      assert Entries(m)[q].0 in d;
    }
    forall q | q in LowerKeys(d) ensures q in Entries(m) {
      var w :| w in d && Lower(w) == q;
      WordFreqsAt(m, w);
    }
  }

  /** Each word of `WordFreqs(m)` is the one stored at the path it spells, with its frequency. */
  lemma WordFreqsAt(m: Shape, w: string)
    requires WF(m) && w in WordFreqs(m)
    ensures Lower(w) in Entries(m) && Entries(m)[Lower(w)] == (w, WordFreqs(m)[w])
  {
    var q :| q in Entries(m) && Entries(m)[q].0 == w;
  }

  // ---------------------------------------------------------------------------
  // Dictionaries of tries
  // ---------------------------------------------------------------------------

  /** Once nothing is left to do, everything is done. */
  lemma AllDone(keys: set<string>, todo: set<string>)
    requires todo == {}
    ensures keys - todo == keys
  {}

  /** Taking `w` off the words still to load adds it to the words loaded. */
  lemma MoveToDone(keys: set<string>, todo: set<string>, w: string)
    requires todo <= keys && w in todo
    ensures keys - todo + {w} == keys - (todo - {w})
  {}

  /** Every trie of a word -> trie dictionary is valid. */
  ghost predicate AllValid(tries: map<string, Trie>) {
    forall w | w in tries :: tries[w].Valid()
  }

  /** The abstract values of a word -> trie dictionary. */
  ghost function Shapes(tries: map<string, Trie>): (b: map<string, Shape>)
    ensures b.Keys == tries.Keys && forall w | w in tries :: b[w] == tries[w].shape
    ensures AllValid(tries) ==> AllWF(b)
  {
    map w | w in tries :: tries[w].shape
  }

  /** Storing a trie under `w` stores its value under `w`. */
  lemma ShapesUpdate(tries: map<string, Trie>, w: string, t: Trie)
    ensures Shapes(tries[w := t]) == Shapes(tries)[w := t.shape]
  {}

  /** Storing the bumped trie of `w1` is one step of the bigram loop. */
  lemma StoreBumped(tries: map<string, Trie>, w1: string, w2: string, t: Trie)
    requires AllValid(tries) && t.shape == Bump(ShapeOr(Shapes(tries), w1), w2)
    ensures Shapes(tries[w1 := t]) == BumpPair(Shapes(tries), w1, w2)
  {
    ShapesUpdate(tries, w1, t);
  }

  /** Storing a trie under `w` adds `w` if missing and leaves the other tries as they were. */
  lemma StoreKeys(tries: map<string, Trie>, w: string, t: Trie)
    ensures tries[w := t].Keys == tries.Keys + {w}
    ensures forall v | v in tries && v != w :: tries[w := t][v] == tries[v]
  {}

  /**
   * `r` is `tries` with tries added or replaced for the words of `done` and
   * no other change.
   */
  ghost predicate GrownBy(tries: map<string, Trie>, r: map<string, Trie>, done: set<string>) {
    r.Keys == tries.Keys + done && forall w | w in tries && w !in done :: r[w] == tries[w]
  }

  lemma GrownByNothing(tries: map<string, Trie>, ws: seq<string>)
    ensures GrownBy(tries, tries, FirstWordsOf(ws, 0))
  {}

  /** Growing by the words `done`, then storing under one more word. */
  lemma KeysGrow(tries: map<string, Trie>, r: map<string, Trie>, r': map<string, Trie>,
                 done: set<string>, done': set<string>, w1: string)
    requires GrownBy(tries, r, done)
    requires r'.Keys == r.Keys + {w1} && forall w | w in r && w != w1 :: r'[w] == r[w]
    requires done' == done + {w1}
    ensures GrownBy(tries, r', done')
  {}

  /** Storing a valid trie keeps every trie valid. */
  lemma StoreValid(tries: map<string, Trie>, w: string, t: Trie)
    requires AllValid(tries) && t.Valid()
    ensures AllValid(tries[w := t])
  {}

  /** The stored entries of the trie of `w`, none when `w` has no trie. */
  ghost function EntriesOr(b: map<string, Shape>, w: string): map<string, Entry> {
    if w in b then Entries(b[w]) else map[]
  }

  /**
   * The bigram tries have been loaded from `d` for the words in `done`,
   * starting from the values `b0`: each such word has a trie (created if
   * missing) into which its dictionary was inserted; every other trie is as
   * it was.
   */
  ghost predicate BigramsLoaded(b0: map<string, Shape>, b: map<string, Shape>, d: map<string, map<string, int>>, done: set<string>) {
    b.Keys == b0.Keys + done &&
    (forall w | w in b && w !in done :: b[w] == b0[w]) &&
    (forall w | w in done :: w in d && LoadedFrom(EntriesOr(b0, w), Entries(b[w]), d[w]))
  }

  /** One step of the bigram loop of `load_memory`: the trie of `w` is loaded, giving `b'`. */
  lemma BigramsLoadStep(b0: map<string, Shape>, b: map<string, Shape>, b': map<string, Shape>,
                        d: map<string, map<string, int>>, done: set<string>, done': set<string>, w: string)
    requires BigramsLoaded(b0, b, d, done) && w in d && w !in done && done' == done + {w}
    requires w in b' && b' == b[w := b'[w]]
    requires LoadedFrom(EntriesOr(b, w), Entries(b'[w]), d[w])
    ensures BigramsLoaded(b0, b', d, done')
  {}
}
