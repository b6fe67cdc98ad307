/**
 * The memory object of synthesizer_interface/user_memory.py, run step by
 * step on tries and proved against the shapes of module UserMemorySpec.
 */
module UserMemoryModel {
  import opened Options
  import opened Text
  import opened TrieShape
  import opened TrieModel
  import opened UserMemorySpec

  /** `for word, freq in words_freq: d[word] = freq` (also the comprehension `{w: f for w, f in words_freq}`). */
  method ToDict(s: seq<Entry>) returns (d: map<string, int>)
    ensures d == ToMap(s)
  {
    d := map[];
    var i := 0;
    while i < |s|
      invariant 0 <= i <= |s| && d == ToMap(s[..i])
    {
      assert s[..i + 1][..i] == s[..i];
      d := d[s[i].0 := s[i].1];
      i := i + 1;
    }
    assert s[..i] == s;
  }

  /** `for word, freq in d.items(): trie.insert(word, freq)`, the items taken in an unspecified order. */
  method InsertAll(trie: Trie, d: map<string, int>) returns (t: Trie)
    requires trie.Valid()
    ensures t.Valid()
    ensures LoadedFrom(Entries(trie.shape), Entries(t.shape), d)
  {
    var todo := d.Keys;
    t := trie;
    ghost var E := Entries(trie.shape);
    assert LowerKeys(Restrict(d, d.Keys - todo)) == {};
    while todo != {}
      invariant todo <= d.Keys && t.Valid()
      invariant LoadedFrom(E, Entries(t.shape), Restrict(d, d.Keys - todo))
      decreases todo
    {
      var w :| w in todo;
      LoadStep(E, t.shape, d, d.Keys - todo, w);
      t := t.Insert(w, d[w]);
      MoveToDone(d.Keys, todo, w);
      todo := todo - {w};
    }
    AllDone(d.Keys, todo);
    RestrictAll(d);
  }

  /**
   * `current_freq` in `update_from_text`: the frequency of the first stored
   * word the lowered `w` is a prefix of, in pre-order, or 0 when none is.
   */
  method CurrentFreq(trie: Trie, w: string) returns (currentFreq: int)
    requires trie.Valid()
    ensures currentFreq == FirstFreq(trie.shape, w)
  {
    assert [] in trie.at && trie.at[[]] == 0;
    var wordsFreq := trie.CollectWordsWithPrefix(0, [], w, []);
    currentFreq := 0;
    if wordsFreq != [] {
      currentFreq := wordsFreq[0].1;
    }
  }

  /** The body of both loops of `update_from_text`: `w` stored with its current frequency plus one. */
  method BumpTrie(trie: Trie, w: string) returns (t: Trie)
    requires trie.Valid()
    ensures t.Valid() && t.shape == Bump(trie.shape, w)
  {
    var currentFreq := CurrentFreq(trie, w);
    t := trie.Insert(w, currentFreq + 1);
    BumpIsInsert(trie.shape, w, currentFreq, t.shape);
  }

  /** One pass of the unigram loop: the `i`-th token is bumped. */
  method BumpNext(t: Trie, ghost m: Shape, words: seq<string>, i: nat) returns (t': Trie)
    requires WF(m) && i < |words| && t.Valid() && t.shape == BumpAll(m, words[..i])
    ensures t'.Valid() && t'.shape == BumpAll(m, words[..i + 1])
  {
    t' := BumpTrie(t, words[i]);
    BumpAllNext(m, words, i, t.shape, t'.shape);
  }

  /** The unigram loop of `update_from_text`: each token is bumped in turn. */
  method BumpUnigrams(trie: Trie, words: seq<string>) returns (t: Trie)
    requires trie.Valid()
    ensures t.Valid() && t.shape == BumpAll(trie.shape, words)
  {
    t := trie;
    var i := 0;
    while i < |words|
      invariant 0 <= i <= |words| && t.Valid()
      invariant t.shape == BumpAll(trie.shape, words[..i])
    {
      t := BumpNext(t, trie.shape, words, i);
      i := i + 1;
    }
    assert words[..i] == words;
  }

  /** One step of the bigram loop of `update_from_text`. */
  method BumpBigram(tries: map<string, Trie>, word1: string, word2: string) returns (r: map<string, Trie>)
    requires AllValid(tries)
    ensures AllValid(r) && Shapes(r) == BumpPair(Shapes(tries), word1, word2)
    ensures r.Keys == tries.Keys + {word1}
    ensures forall w | w in tries && w != word1 :: r[w] == tries[w]
  {
    var trie := BigramTrie(tries, word1);
    var t := BumpTrie(trie, word2);
    StoreValid(tries, word1, t);
    StoreBumped(tries, word1, word2, t);
    StoreKeys(tries, word1, t);
    r := tries[word1 := t];
  }

  /**
   * The bigram loop of `update_from_text` over the adjacent pairs of
   * `words`. Its tries are keyed by the raw tokens: afterwards there is one
   * for the first word of every pair, created when missing, no other is
   * added, and one whose word begins no pair is left as it was.
   */
  method BumpBigrams(tries: map<string, Trie>, words: seq<string>) returns (r: map<string, Trie>)
    requires AllValid(tries)
    ensures AllValid(r) && Shapes(r) == BumpPairs(Shapes(tries), words, PairCount(words))
    ensures GrownBy(tries, r, FirstWordsOf(words, PairCount(words)))
  {
    r := tries;
    var i := 0;
    GrownByNothing(tries, words);
    while i < |words| - 1
      invariant 0 <= i <= PairCount(words) && AllValid(r)
      invariant Shapes(r) == BumpPairs(Shapes(tries), words, i)
      invariant GrownBy(tries, r, FirstWordsOf(words, i))
    {
      FirstWordsStep(words, i + 1);
      ghost var before := r;
      r := BumpBigram(r, words[i], words[i + 1]);
      KeysGrow(tries, before, r, FirstWordsOf(words, i), FirstWordsOf(words, i + 1), words[i]);
      i := i + 1;
    }
    assert i == PairCount(words);
  }

  /** The bigram half of `save_memory`: the dictionary of every trie holding a word. */
  method SaveBigrams(tries: map<string, Trie>) returns (saved: map<string, map<string, int>>)
    requires AllValid(tries)
    ensures saved == SavedTries(Shapes(tries), tries.Keys)
  {
    saved := map[];
    var todo := tries.Keys;
    while todo != {}
      invariant todo <= tries.Keys
      invariant saved == SavedTries(Shapes(tries), tries.Keys - todo)
      decreases todo
    {
      var word1 :| word1 in todo;
      var wordsFreq := SaveTrie(tries[word1]);
      SavedTriesStep(Shapes(tries), tries.Keys - todo, word1);
      if wordsFreq != [] {
        var d := ToDict(wordsFreq);
        saved := saved[word1 := d];
      }
      MoveToDone(tries.Keys, todo, word1);
      todo := todo - {word1};
    }
    AllDone(tries.Keys, todo);
  }

  /** `trie.collect_words(trie.root)`: the stored pairs in traversal order. */
  method SaveTrie(trie: Trie) returns (s: seq<Entry>)
    requires trie.Valid()
    ensures s == PreOrder(trie.shape, [])
  {
    assert [] in trie.at && trie.at[[]] == 0;
    s := trie.CollectWords(0, [], []);
  }

  /** The trie of `word1` as `update_from_text` uses it, a new `Trie()` when it has none yet. */
  method BigramTrie(tries: map<string, Trie>, word1: string) returns (trie: Trie)
    requires AllValid(tries)
    ensures trie.Valid() && trie.shape == ShapeOr(Shapes(tries), word1)
  {
    if word1 in tries {
      trie := tries[word1];
    } else {
      trie := NewTrie();
    }
  }

  /** `self.bigram_tries[word1]`, or a new `Trie()` when `word1` has none yet. */
  method TrieOf(tries: map<string, Trie>, word1: string) returns (trie: Trie)
    requires AllValid(tries)
    ensures trie.Valid()
    ensures Entries(trie.shape) == EntriesOr(Shapes(tries), word1)
  {
    if word1 in tries {
      trie := tries[word1];
    } else {
      EmptyFacts();
      trie := NewTrie();
    }
  }

  /**
   * One step of the bigram loop of `load_memory`: the trie of `word1` is
   * created if missing and the pairs of `next` are inserted into it.
   */
  method LoadBigram(tries: map<string, Trie>, word1: string, next: map<string, int>) returns (r: map<string, Trie>)
    requires AllValid(tries)
    ensures AllValid(r) && word1 in Shapes(r) && Shapes(r) == Shapes(tries)[word1 := Shapes(r)[word1]]
    ensures LoadedFrom(EntriesOr(Shapes(tries), word1), Entries(Shapes(r)[word1]), next)
  {
    var trie := TrieOf(tries, word1);
    var t := InsertAll(trie, next);
    ShapesUpdate(tries, word1, t);
    StoreValid(tries, word1, t);
    r := tries[word1 := t];
  }

  /**
   * The bigram loop of `load_memory`: for every preceding word of `d`, its
   * trie is created if missing and its pairs are inserted.
   */
  method LoadBigrams(tries: map<string, Trie>, d: map<string, map<string, int>>) returns (r: map<string, Trie>)
    requires AllValid(tries)
    ensures AllValid(r)
    ensures BigramsLoaded(Shapes(tries), Shapes(r), d, d.Keys)
  {
    r := tries;
    var todo := d.Keys;
    while todo != {}
      invariant todo <= d.Keys && AllValid(r)
      invariant BigramsLoaded(Shapes(tries), Shapes(r), d, d.Keys - todo)
      decreases todo
    {
      var word1 :| word1 in todo;
      ghost var before := Shapes(r);
      r := LoadBigram(r, word1, d[word1]);
      MoveToDone(d.Keys, todo, word1);
      BigramsLoadStep(Shapes(tries), before, Shapes(r), d, d.Keys - todo, d.Keys - (todo - {word1}), word1);
      todo := todo - {word1};
    }
    AllDone(d.Keys, todo);
  }

  /**
   * `UserMemory`: the unigram trie and the dictionary of bigram tries, one
   * per preceding word. The file path, and the file itself, are replaced by
   * the document handed to the constructor and returned by `SaveMemory`.
   */
  class UserMemory {
    var unigramTrie: Trie
    var bigramTries: map<string, Trie>

    /** Every trie is valid. */
    ghost predicate Valid()
      reads this
    {
      unigramTrie.Valid() && AllValid(bigramTries)
    }

    /** The abstract value of the unigram trie. */
    ghost function Unigrams(): Shape
      reads this
    {
      unigramTrie.shape
    }

    /** The abstract values of the bigram tries. */
    ghost function Bigrams(): map<string, Shape>
      reads this
    {
      Shapes(bigramTries)
    }

    /**
     * `UserMemory()`: empty tries, then `load_memory()` from the stored
     * document when there is one (`None`: no file, or one that failed to
     * parse).
     */
    constructor (stored: Option<MemoryData>)
      ensures Valid()
      ensures stored.None? ==> Unigrams() == Empty() && Bigrams() == map[]
      ensures stored.Some? ==>
        LoadedFrom(map[], Entries(Unigrams()), stored.value.unigrams) &&
        BigramsLoaded(map[], Bigrams(), stored.value.bigrams, stored.value.bigrams.Keys)
    {
      unigramTrie := NewTrie();
      bigramTries := map[];
      new;
      EmptyFacts();
      if stored.Some? {
        LoadMemory(stored.value);
      }
    }

    /**
     * `load_memory`: every unigram pair is inserted into the unigram trie;
     * then, for every preceding word, its bigram trie is created if missing
     * and its pairs are inserted.
     */
    method LoadMemory(data: MemoryData)
      requires Valid()
      modifies this
      ensures Valid()
      ensures LoadedFrom(old(Entries(Unigrams())), Entries(Unigrams()), data.unigrams)
      ensures BigramsLoaded(old(Bigrams()), Bigrams(), data.bigrams, data.bigrams.Keys)
    {
      unigramTrie := InsertAll(unigramTrie, data.unigrams);
      bigramTries := LoadBigrams(bigramTries, data.bigrams);
    }
  
    /**
     * `update_from_text`: no tokens, no change and no save. Otherwise every
     * token is bumped in the unigram trie, then every adjacent pair in the
     * bigram trie of its first word (keyed by the raw token, the trie created
     * when missing, the other tries untouched), and the memory is saved.
     */
    method UpdateFromText(text: string) returns (saved: Option<MemoryData>)
      requires Valid()
      modifies this
      ensures Valid()
      ensures Unigrams() == BumpAll(old(Unigrams()), Tokens(text))
      ensures Bigrams() == BumpPairs(old(Bigrams()), Tokens(text), PairCount(Tokens(text)))
      ensures GrownBy(old(bigramTries), bigramTries, FirstWordsOf(Tokens(text), PairCount(Tokens(text))))
      ensures saved == if Tokens(text) == [] then None else Some(Snapshot(Unigrams(), Bigrams()))
    {
      var words := Split(Strip(text));
      if words == [] {
        GrownByNothing(bigramTries, words);
        return None;
      }
      unigramTrie := BumpUnigrams(unigramTrie, words);
      bigramTries := BumpBigrams(bigramTries, words);
      var data := SaveMemory();
      saved := Some(data);
    }

    /**
     * `save_memory`: the document written to the memory file, every unigram
     * pair and the pairs of every bigram trie that holds a word.
     */
    method SaveMemory() returns (data: MemoryData)
      requires Valid()
      ensures data == Snapshot(Unigrams(), Bigrams())
    {
      var wordsFreq := SaveTrie(unigramTrie);
      var unigrams := ToDict(wordsFreq);
      var bigrams := SaveBigrams(bigramTries);
      data := MemoryData(unigrams, bigrams);
    }
  }
}
