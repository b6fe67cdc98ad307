/**
 * The suggester object of synthesizer_interface/word_suggestions.py: the
 * corpus unigram trie, the corpus bigram tries and the user memory, the two
 * loaders run over the lines of the corpus files, and the lookups run step
 * by step on tries, proved against module SuggestionsSpec.
 */
module SuggestionsModel {
  import opened Options
  import opened Text
  import opened TrieShape
  import opened Ranking
  import opened TrieModel
  import opened UserMemorySpec
  import opened UserMemoryModel
  import opened SuggestionsSpec

  /** `list(s)` for a set of words: each element once, in whatever order iteration yields. */
  method SetToList(s: set<string>) returns (order: seq<string>)
    ensures Lists(order, s)
  {
    order := [];
    var rest := s;
    while rest != {}
      invariant rest <= s && Lists(order, s - rest)
      decreases rest
    {
      var w :| w in rest;
      ListsStep(order, s, rest, w);
      order := order + [w];
      rest := rest - {w};
    }
    AllDone(s, rest);
  }

  /**
   * The user-memory half of both lookups: `_collect_words_with_prefix` from
   * the root, then every word whose frequency reaches the threshold added
   * to a set.
   */
  method CollectUserWords(trie: Trie, prefix: string) returns (users: set<string>)
    requires trie.Valid()
    ensures users == UserWords(trie.shape, prefix)
  {
    assert [] in trie.at && trie.at[[]] == 0;
    var wordsFreq := trie.CollectWordsWithPrefix(0, [], prefix, []);
    ghost var matching := Matching(PreOrder(trie.shape, []), Lower(prefix));
    assert wordsFreq == matching;
    users := {};
    var i := 0;
    assert wordsFreq[..0] == [];
    while i < |wordsFreq|
      invariant 0 <= i <= |wordsFreq| && users == Frequent(wordsFreq[..i])
    {
      FrequentStep(wordsFreq, i);
      var (word, freq) := wordsFreq[i];
      if freq >= FrequencyThreshold {
        users := users + {word};
      }
      i := i + 1;
    }
    assert wordsFreq[..i] == wordsFreq;
  }

  /** The corpus half of both lookups: the words of `allMain` not yet suggested, while there is room. */
  method AddCorpus(users: set<string>, allMain: seq<string>, n: int) returns (main: seq<string>)
    ensures main == Admitted(allMain, users, n - |users|)
  {
    main := [];
    var i := 0;
    assert allMain[..0] == [];
    while i < |allMain|
      invariant 0 <= i <= |allMain| && main == Admitted(allMain[..i], users, n - |users|)
    {
      AdmittedStep(allMain, users, n - |users|, i);
      var word := allMain[i];
      if word !in users && |main| < n - |users| {
        main := main + [word];
      }
      i := i + 1;
    }
    assert allMain[..i] == allMain;
  }

  /** The loop of `_load_unigrams` over the lines of the unigram file. */
  method LoadUnigramLines(trie: Trie, lines: seq<string>) returns (t: Trie)
    requires trie.Valid()
    ensures t.Valid() && t.shape == LoadedUnigrams(trie.shape, lines)
  {
    t := trie;
    var i := 0;
    assert lines[..0] == [];
    while i < |lines|
      invariant 0 <= i <= |lines| && t.Valid()
      invariant t.shape == LoadedUnigrams(trie.shape, lines[..i])
    {
      LoadedUnigramsStep(trie.shape, lines, i);
      match UnigramLine(lines[i]) {
        case None =>
        case Some(e) => t := t.Insert(e.0, e.1);
      }
      i := i + 1;
    }
    assert lines[..i] == lines;
  }

  /** One insertion of `_load_bigrams`: the trie of `word1` is created if missing, then `word2` inserted. */
  method InsertBigram(tries: map<string, Trie>, word1: string, word2: string, f: int) returns (r: map<string, Trie>)
    requires AllValid(tries)
    ensures AllValid(r) && Shapes(r) == InsertPair(Shapes(tries), word1, word2, f)
  {
    var trie := BigramTrie(tries, word1);
    var t := trie.Insert(word2, f);
    StoreValid(tries, word1, t);
    StoreInserted(tries, word1, word2, f, t);
    r := tries[word1 := t];
  }

  /** The loop of `_load_bigrams` over the lines of the bigram file. */
  method LoadBigramLines(tries: map<string, Trie>, lines: seq<string>) returns (r: map<string, Trie>)
    requires AllValid(tries)
    ensures AllValid(r) && Shapes(r) == LoadedBigrams(Shapes(tries), lines)
  {
    r := tries;
    var i := 0;
    ghost var b0 := Shapes(tries);
    assert lines[..0] == [];
    while i < |lines|
      invariant 0 <= i <= |lines| && AllValid(r)
      invariant Shapes(r) == LoadedBigrams(b0, lines[..i])
    {
      LoadedBigramsStep(b0, lines, i);
      match BigramLine(lines[i]) {
        case None =>
        case Some(x) => r := InsertBigram(r, x.0, x.1, x.2);
      }
      i := i + 1;
    }
    assert lines[..i] == lines;
  }

  /**
   * `load_ngrams`: `_load_unigrams` into an empty trie, then `_load_bigrams`
   * into an empty dictionary of tries.
   */
  method LoadNgrams(unigramLines: seq<string>, bigramLines: seq<string>)
    returns (unigrams: Trie, bigrams: map<string, Trie>)
    ensures unigrams.Valid() && unigrams.shape == LoadedUnigrams(Empty(), unigramLines)
    ensures AllValid(bigrams) && Shapes(bigrams) == LoadedBigrams(map[], bigramLines)
  {
    unigrams := LoadUnigramLines(NewTrie(), unigramLines);
    var none: map<string, Trie> := map[];
    assert AllValid(none) && Shapes(none) == map[];
    bigrams := LoadBigramLines(none, bigramLines);
  }

  /** The user half of `get_bigram_suggestions`: nothing unless the memory has a trie for `prevWord`. */
  method BigramUserWordsOf(tries: map<string, Trie>, prevWord: string, prefix: string) returns (users: set<string>)
    requires AllValid(tries)
    ensures users == BigramUserWords(Shapes(tries), prevWord, prefix)
  {
    users := {};
    if prevWord in tries {
      users := CollectUserWords(tries[prevWord], prefix);
    }
  }

  /**
   * The corpus part of both lookups, from one corpus trie: when the user
   * words leave room, the top `n` of the trie for `prefix` not among them.
   */
  method CorpusWordsOf(trie: Trie, prefix: string, n: int, users: set<string>) returns (main: seq<string>)
    requires trie.Valid()
    ensures main == Admitted(TopN(trie.shape, Lower(prefix), n), users, n - |users|)
  {
    main := [];
    if |users| < n {
      var allMain := trie.GetTopNPrefixed(prefix, n);
      main := AddCorpus(users, allMain, n);
    } else {
      AdmittedNoRoom(TopN(trie.shape, Lower(prefix), n), users, n - |users|);
    }
  }

  /**
   * The corpus half of `get_bigram_suggestions`: nothing unless the user
   * words are fewer than `n` and the corpus has a trie for `prevWord`.
   */
  method BigramCorpusWords(tries: map<string, Trie>, prevWord: string, prefix: string, n: int, users: set<string>)
    returns (main: seq<string>)
    requires AllValid(tries)
    ensures main == Admitted(BigramCorpus(Shapes(tries), prevWord, prefix, n), users, n - |users|)
  {
    BigramCorpusOf(tries, prevWord, prefix, n);
    if prevWord in tries {
      main := CorpusWordsOf(tries[prevWord], prefix, n, users);
    } else {
      main := [];
    }
  }

  class WordSuggester {
    var unigramTrie: Trie
    var bigramTries: map<string, Trie>
    var userMemory: UserMemory

    /** Every trie is valid, the memory's too. */
    ghost predicate Valid()
      reads this, userMemory
    {
      unigramTrie.Valid() && AllValid(bigramTries) && userMemory.Valid()
    }

    /**
     * `WordSuggester()`: empty corpus tries filled by `load_ngrams` from the
     * lines of the two corpus files, and the user memory (built, and loaded
     * from its file, by the caller).
     */
    constructor (memory: UserMemory, unigramLines: seq<string>, bigramLines: seq<string>)
      requires memory.Valid()
      ensures Valid() && userMemory == memory
      ensures unigramTrie.shape == LoadedUnigrams(Empty(), unigramLines)
      ensures Shapes(bigramTries) == LoadedBigrams(map[], bigramLines)
    {
      var unigrams, bigrams := LoadNgrams(unigramLines, bigramLines);
      unigramTrie := unigrams;
      bigramTries := bigrams;
      userMemory := memory;
    }

    /** A unigram lookup's answer: the user words of `prefix`, then the corpus top `n` not among them. */
    ghost predicate UnigramAnswer(prefix: string, n: int, r: seq<string>)
      requires Valid()
      reads this, userMemory
    {
      Answer(r, UserWords(userMemory.Unigrams(), prefix), TopN(unigramTrie.shape, Lower(prefix), n), n)
    }

    /** A bigram lookup's answer: the user words after `prev`, then the corpus top `n` after it not among them. */
    ghost predicate BigramAnswer(prev: string, prefix: string, n: int, r: seq<string>)
      requires Valid()
      reads this, userMemory
    {
      Answer(r, BigramUserWords(userMemory.Bigrams(), prev, prefix), BigramCorpus(Shapes(bigramTries), prev, prefix, n), n)
    }

    /**
     * `get_unigram_suggestions`: the user words matching `prefix`, then, when
     * they are fewer than `n`, the corpus top `n` for `prefix` not already
     * among them, up to `n` words in all.
     */
    method GetUnigramSuggestions(prefix: string, n: int) returns (r: seq<string>)
      requires Valid()
      ensures UnigramAnswer(prefix, n, r)
    {
      var users := CollectUserWords(userMemory.unigramTrie, prefix);
      var main := CorpusWordsOf(unigramTrie, prefix, n, users);
      var order := SetToList(users);
      r := order + main;
      Assembled(order, main, users, TopN(unigramTrie.shape, Lower(prefix), n), n);
    }

    /**
     * `get_bigram_suggestions`: the user words after `prevWord` matching
     * `currentPrefix` (none when the memory has no trie for `prevWord`),
     * then, when they are fewer than `n` and the corpus has a trie for
     * `prevWord`, its top `n` not already among them, up to `n` in all.
     */
    method GetBigramSuggestions(prevWord: string, currentPrefix: string, n: int) returns (r: seq<string>)
      requires Valid()
      ensures BigramAnswer(prevWord, currentPrefix, n, r)
    {
      var users := BigramUserWordsOf(userMemory.bigramTries, prevWord, currentPrefix);
      var main := BigramCorpusWords(bigramTries, prevWord, currentPrefix, n, users);
      var order := SetToList(users);
      r := order + main;
      Assembled(order, main, users, BigramCorpus(Shapes(bigramTries), prevWord, currentPrefix, n), n);
    }

    /**
     * `get_suggestions`: the cleaned words of the text; none, no suggestions;
     * after a completed word, the words following it; while a word is being
     * typed, its completions, after the word before it when there is one.
     */
    method GetSuggestions(text: string, n: int) returns (r: seq<string>)
      requires Valid()
      ensures match Classify(text)
        case NoQuery => r == []
        case UnigramQuery(prefix) => UnigramAnswer(prefix, n, r)
        case BigramQuery(prev, prefix) => BigramAnswer(prev, prefix, n, r)
    {
      var words := CleanTokens(text);
      ghost var q := Classify(text);
      if words == [] {
        return [];
      }
      var isWordCompleted := WordCompleted(text);
      assert q == Dispatch(words, isWordCompleted);
      if isWordCompleted {
        r := GetBigramSuggestions(words[|words| - 1], "", n);
        assert q == BigramQuery(words[|words| - 1], "");
      } else {
        var lastWord := words[|words| - 1];
        if |words| == 1 {
          r := GetUnigramSuggestions(lastWord, n);
          assert q == UnigramQuery(lastWord);
        } else {
          var prevWord := words[|words| - 2];
          r := GetBigramSuggestions(prevWord, lastWord, n);
          assert q == BigramQuery(prevWord, lastWord);
        }
      }
    }
  }
}
