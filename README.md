# Word suggestions for the speech synthesizer interface

This project models the autocomplete core of the `synthesizer_interface` package. That package suggests the next word for a user who types text that is then spoken aloud. The core has three parts:

- **The prefix trie** (`trie.py`). Words are stored under their lower-cased spelling, keeping the original spelling and a frequency. `get_top_n_prefixed` walks to the node of a prefix, collects the words below it in traversal order, sorts them by frequency with Python's stable sort and keeps the first `n`.
- **The user memory** (`user_memory.py`). It keeps a unigram trie and one bigram trie per word. `update_from_text` counts every token and every adjacent pair of tokens, then saves. `save_memory` and `load_memory` turn the tries into JSON-shaped dictionaries and back. A word is "frequent" from a stored count of 6 on.
- **The suggester** (`word_suggestions.py`). It loads the corpus tries from tab-separated lines and cleans the typed words. It then decides between a unigram lookup (one unfinished word) and a bigram lookup (a previous word, plus the unfinished word or nothing). User words come first, in set order, followed by the corpus words not already listed, up to the room left.

The Dafny modules follow that structure:

| module | file | models |
|---|---|---|
| `Options`, `Text` | `text.dfy` | `Option`; Python's `str.lower`, `str.strip`, `str.split()`, `str.split(sep)`, `int()` and `str(int)` |
| `TrieShape` | `trie_shape.dfy` | the abstract value of a trie: a map from path to (entry, ordered children); insertion; pre-order traversal; the prefix filter |
| `TrieModel` | `trie.dfy` | the trie's node records and its operations, proved against `TrieShape` |
| `Ranking` | `ranking.dfy` | the stable frequency sort, `[:n]`, and the top-`n` result |
| `UserMemorySpec` | `user_memory_spec.dfy` | the increment rule, the unigram and bigram loops, the saved document, loading |
| `UserMemoryModel` | `user_memory.dfy` | the class `UserMemory` and the loops of its methods |
| `SuggestionsSpec` | `word_suggestions_spec.dfy` | cleaning, completion, dispatch, corpus line parsing, the merge of user and corpus words |
| `SuggestionsModel` | `word_suggestions.dfy` | the class `WordSuggester`, the loading loops and the lookups |

A trie is a value: `TrieModel.Trie` holds its node records (`children` as an ordered list of (character, node index) pairs) together with a ghost abstract value `shape`. Each operation returns the new trie. Every method is proved against a function of the abstract value (`Inserted`, `PreOrder`, `Matching`, `TopN`, `Bump`, `BumpAll`, `BumpPairs`, `Snapshot`, `LoadedFrom`, `LoadedUnigrams`, `LoadedBigrams`, `Answer`). The lemmas then state the properties of those functions.

Behaviours of the code worth knowing:

- **Trailing whitespace does not complete a word.** `get_suggestions` tests the last character of `text.strip()`, which is never whitespace. So typing "кот " still asks for unigram completions of "кот", not for the words following it (`CompletedByPunctuationOnly`).
- **Ties keep traversal order.** Words of equal frequency keep their pre-order (insertion) order, because Python's sort is stable (`TopNTies`).
- **User suggestions are not capped.** Every frequent user word is returned, even when there are more than `n` of them (`MergeLength`).
- **A new token can inherit a count.** The count read for a token is that of the first stored word, in traversal order, whose lower-cased spelling starts with the token's. A token that is only a prefix of stored words therefore starts above 1. For example, after "кот" has been typed five times, typing "ко" once stores "ко" with count 6, which already makes it a user suggestion (`FirstFreqRule`, `PrefixBump`). Counts loaded from the memory document are not uses either.
- **The empty word is stored.** `Trie.insert("")` marks the root as a word (`InsertEmptyMarksRoot`).
- **Bigram memory uses raw tokens.** `update_from_text` keys and inserts the raw tokens of `text.strip().split()`, with no cleaning. The suggester looks tries up under cleaned words (`UserMemory.UpdateFromText`, `BumpBigrams`).

## Model

| member | source | states |
|---|---|---|
| TrieModel.NewTrie | synthesizer_interface/trie.py:1-10 | a new trie is a lone root node that is not a word end: the empty abstract value |
| TrieModel.Trie.Insert | synthesizer_interface/trie.py:12-20 | the walk over `word.lower()` creates the missing children and marks the last node with the original word and the frequency; the records keep representing the abstract value, which becomes `Inserted(shape, w, f)` |
| TrieShape.InsertFacts | synthesizer_interface/trie.py:12-20 | insertion adds exactly the lower-cased word's path and its prefixes, never removes a child, and sets the entry at that path to (word, frequency), keeping every other entry |
| TrieShape.InsertedEntries | synthesizer_interface/trie.py:18-20 | after insertion the stored entries are the old ones with the lower-cased word's path mapped to (word, frequency): a later insertion of the same lower-cased word overwrites the earlier one |
| TrieShape.InsertEmptyMarksRoot | synthesizer_interface/trie.py:12-20 | inserting the empty word adds no path and makes the root a word end holding ("", f) |
| TrieModel.Trie.CollectWords | synthesizer_interface/trie.py:50-56 | the recursion appends to the accumulator the pre-order list of the subtree: own entry first, then the children in insertion order |
| TrieShape.PreOrderSound | synthesizer_interface/trie.py:50-56 | every collected pair is the entry stored at its own lower-cased path, which lies at or below the start node |
| TrieShape.PreOrderComplete | synthesizer_interface/trie.py:50-56 | every word stored at or below the start node is collected |
| TrieShape.PreOrderDistinct | synthesizer_interface/trie.py:50-56 | no two collected pairs share a path, so each stored word is collected once |
| TrieModel.Trie.CollectWordsWithPrefix | synthesizer_interface/trie.py:22-30 | the recursion appends the pre-order entries whose lower-cased word starts with the lower-cased prefix |
| TrieShape.MatchingFromRoot | synthesizer_interface/trie.py:22-30 | collecting from the root with prefix `lp` gives the pre-order list of the node at `lp`, or nothing when that path is missing |
| Ranking.SortByFreqCorrect | synthesizer_interface/trie.py:47 | the sort by frequency in descending order gives a descending list that is a permutation of its input; entries of equal frequency keep their relative order (stability) |
| Ranking.SliceToFacts | synthesizer_interface/trie.py:48 | `[:n]` is a prefix of the list: `n` elements when `0 <= n <= len`, the whole list when `n >= len`, all but the last `-n` for a negative `n`, and nothing when `-n > len` |
| TrieModel.Trie.GetTopNPrefixed | synthesizer_interface/trie.py:32-48 | the prefix walk and the ranking return `TopN(shape, lower(prefix), n)`, with the empty list when a prefix character has no child |
| Ranking.TopNFacts | synthesizer_interface/trie.py:32-48 | a missing prefix gives `[]`; at most `n` words for `n >= 0`; every word returned is stored, starts with the prefix, and comes from a frequency-descending list; no word twice |
| Ranking.TopNLeavesOutLowest | synthesizer_interface/trie.py:44-48 | every word under the prefix that is left out has frequency at most the last one kept; when `n` covers them all, all are kept |
| Ranking.TopNTies | synthesizer_interface/trie.py:44-48 | among the kept words of one frequency, the order is that of the pre-order traversal (ties are not broken alphabetically) |
| UserMemorySpec.FirstFreqRule | synthesizer_interface/user_memory.py:78-82 | the count read for a token: that of its own path when stored; 0 when the path is missing or nothing extends it; otherwise the count of the first stored word extending it in traversal order |
| UserMemorySpec.BumpEntries | synthesizer_interface/user_memory.py:77-83 | one token stores (token, read count + 1) at its lower-cased path: a stored word gains one, a new path starts at 1, and every other entry is unchanged |
| UserMemorySpec.PrefixBump | synthesizer_interface/user_memory.py:78-83 | a token that is a prefix of stored words, without being stored, is stored with the count of the first of them in traversal order plus one |
| UserMemorySpec.BumpPaths | synthesizer_interface/user_memory.py:77-83 | a bump adds the token's path and its prefixes and no other path |
| UserMemorySpec.FreshBump | synthesizer_interface/user_memory.py:78-83 | a token whose path is missing is stored with count 1 |
| UserMemorySpec.StoredBump | synthesizer_interface/user_memory.py:78-83 | a token whose path is stored gets that count plus one, under its own spelling |
| UserMemoryModel.CurrentFreq | synthesizer_interface/user_memory.py:78-82 | the loop reads `FirstFreq`: 0 when nothing is collected, otherwise the first collected frequency |
| UserMemoryModel.BumpTrie | synthesizer_interface/user_memory.py:78-83 | one token's update of a trie is `Bump` |
| UserMemoryModel.BumpUnigrams | synthesizer_interface/user_memory.py:77-83 | the unigram loop applies `Bump` to every token in order |
| UserMemorySpec.BumpAllKeeps | synthesizer_interface/user_memory.py:77-83 | a stored word that no token spells keeps its entry through the unigram loop |
| UserMemoryModel.BumpBigram | synthesizer_interface/user_memory.py:87-97 | one pair creates the first word's trie when missing and bumps the second word in it; the other tries are unchanged |
| UserMemoryModel.BumpBigrams | synthesizer_interface/user_memory.py:86-97 | the bigram loop applies the pair step to the `len(words) - 1` adjacent pairs in order; exactly the first words of the pairs are added as keys, and every other trie stays as it was |
| UserMemorySpec.BumpPairsLast | synthesizer_interface/user_memory.py:87-97 | after a pair step, the second word of the pair has been bumped in the trie of the first |
| UserMemorySpec.TwiceTyped | synthesizer_interface/user_memory.py:70-97 | typing "кот сидит" twice into an empty memory gives both words count 2 and the pair count 2 under "кот" |
| UserMemorySpec.TwiceTypedWords | synthesizer_interface/user_memory.py:70-97 | the same for any two words whose paths are new and where the second does not spell a prefix of the first |
| UserMemorySpec.ToMapFacts | synthesizer_interface/user_memory.py:54-55 | the dictionary filled from pairs holds exactly their words and, when no two pairs share a path, each pair's frequency |
| UserMemorySpec.SavedWords | synthesizer_interface/user_memory.py:52-55 | the dictionary saved for a trie is the map from each stored word to its frequency |
| UserMemorySpec.SavedNothing | synthesizer_interface/user_memory.py:61 | a trie lists no pair exactly when it stores no word |
| UserMemorySpec.SavedBigrams | synthesizer_interface/user_memory.py:57-62 | the saved bigram part has one dictionary for each word whose trie stores a word, and that dictionary is its stored words with their frequencies |
| UserMemorySpec.SavedTriesStep | synthesizer_interface/user_memory.py:58-62 | saving one more bigram trie adds its dictionary unless it is empty |
| UserMemoryModel.ToDict | synthesizer_interface/user_memory.py:54-55 | the loop builds the dictionary `ToMap` of the collected pairs, a later pair overwriting an earlier one |
| UserMemoryModel.SaveTrie | synthesizer_interface/user_memory.py:52-53 | collecting a whole trie gives its pre-order list from the root |
| UserMemoryModel.SaveBigrams | synthesizer_interface/user_memory.py:57-62 | the loop over the bigram tries builds the saved bigram part |
| UserMemoryModel.UserMemory.SaveMemory | synthesizer_interface/user_memory.py:42-62 | the document built is `Snapshot` of the unigram and bigram tries, and nothing changes |
| UserMemoryModel.InsertAll | synthesizer_interface/user_memory.py:31-32 | inserting every pair of a dictionary adds the paths of its words and keeps the other entries; each such path holds one of the dictionary's words spelling it, with that word's frequency |
| UserMemoryModel.LoadBigram | synthesizer_interface/user_memory.py:35-38 | one word's dictionary is inserted into its trie, created first when missing; the other tries are unchanged |
| UserMemoryModel.LoadBigrams | synthesizer_interface/user_memory.py:34-38 | every word of the bigram dictionary gets a trie loaded with its dictionary; the other tries are as they were |
| UserMemoryModel.UserMemory.LoadMemory | synthesizer_interface/user_memory.py:24-38 | the unigram trie is loaded from the unigram dictionary and the bigram tries from the bigram dictionary, over what was there |
| UserMemoryModel.UserMemory.constructor | synthesizer_interface/user_memory.py:6-12 | a new memory has empty tries, loaded from the stored document when there is one |
| UserMemorySpec.RoundTrip | synthesizer_interface/user_memory.py:24-62 | loading the saved document into empty tries gives back the unigram entries, and the bigram entries of every word whose trie stores a word |
| UserMemorySpec.LoadedWords | synthesizer_interface/user_memory.py:31-32 | loading a trie's saved dictionary into an empty trie gives back its entries |
| UserMemoryModel.UserMemory.UpdateFromText | synthesizer_interface/user_memory.py:70-100 | no tokens: nothing changes and nothing is saved; otherwise the unigram trie becomes `BumpAll` and the bigram tries `BumpPairs` of the raw tokens, only the pairs' first words are added, and the saved document is the snapshot of the new state |
| SuggestionsSpec.RemovePunct | synthesizer_interface/word_suggestions.py:74 | deleting the punctuation class keeps only non-punctuation characters of the input, and no more of them |
| SuggestionsSpec.RemovePunctAppend | synthesizer_interface/word_suggestions.py:74 | deleting the punctuation of a concatenation deletes it from each part and keeps the rest in order |
| SuggestionsSpec.RemovePunctOne | synthesizer_interface/word_suggestions.py:74 | one character is deleted exactly when it is in the punctuation class; with the append law this fixes the whole result |
| SuggestionsSpec.RemovePunctNone | synthesizer_interface/word_suggestions.py:74 | a word without punctuation is left as it is |
| SuggestionsSpec.CleanWordFacts | synthesizer_interface/word_suggestions.py:71-77 | a cleaned word is lower-case, has no punctuation and no whitespace at either end, and cleaning it again changes nothing |
| SuggestionsSpec.CleanIsFixed | synthesizer_interface/word_suggestions.py:71-77 | a clean word is its own cleaning |
| SuggestionsSpec.CleanTokensFacts | synthesizer_interface/word_suggestions.py:82-84 | every word kept is non-empty and clean |
| SuggestionsSpec.NonEmpty | synthesizer_interface/word_suggestions.py:84 | the filter keeps exactly the non-empty words |
| SuggestionsSpec.NonEmptyAppend | synthesizer_interface/word_suggestions.py:84 | filtering a concatenation filters each part, keeping order and repetition, which `words[-1]` and `words[-2]` rely on |
| SuggestionsSpec.NonEmptyOne | synthesizer_interface/word_suggestions.py:84 | one word is dropped exactly when it is empty |
| SuggestionsSpec.CompletedByPunctuationOnly | synthesizer_interface/word_suggestions.py:90-91 | the last word is completed exactly when the stripped text ends in `, . ! ? ; :`; whitespace typed after it changes nothing |
| SuggestionsSpec.Dispatch | synthesizer_interface/word_suggestions.py:86-105 | no words: no query; a unigram query exactly when there is one word and it is not completed; a bigram query with an empty prefix exactly when the word is completed |
| SuggestionsSpec.Classify | synthesizer_interface/word_suggestions.py:79-105 | the same dispatch stated on the typed text |
| SuggestionsSpec.ClassifyWords | synthesizer_interface/word_suggestions.py:93-105 | after a completed word the query is `(words[-1], "")`; for one unfinished word it is `words[0]`; otherwise it is `(words[-2], words[-1])` |
| SuggestionsSpec.ClassifyClean | synthesizer_interface/word_suggestions.py:95-105 | the words a query is made of are clean words of the text |
| SuggestionsSpec.NoWordsNoQuery | synthesizer_interface/word_suggestions.py:82-87 | an empty text, or one made only of punctuation, asks for nothing |
| SuggestionsModel.WordSuggester.GetSuggestions | synthesizer_interface/word_suggestions.py:79-105 | returns `[]` for no words, the unigram answer for one unfinished word, and the bigram answer for the previous word and the unfinished or empty prefix |
| SuggestionsSpec.UnigramLineRoundTrip | synthesizer_interface/word_suggestions.py:28-32 | a line `word<TAB>freq` read with its newline is parsed back as (word, freq) |
| SuggestionsSpec.BigramLineRoundTrip | synthesizer_interface/word_suggestions.py:50-60 | a line `word1 word2<TAB>freq` is parsed back as (word1, word2, freq) |
| SuggestionsSpec.BigramLineSound | synthesizer_interface/word_suggestions.py:53-57 | a line that is inserted is exactly two space-free words joined by one space, a tab and a field that `int()` reads as the frequency |
| Text.ParseIntToString | synthesizer_interface/word_suggestions.py:31 | `int()` reads back the decimal form of every integer |
| SuggestionsSpec.LastLineWins | synthesizer_interface/word_suggestions.py:28-37 | a well-formed line not followed by another for the same lower-cased word decides that word's entry |
| SuggestionsSpec.OtherLineKeeps | synthesizer_interface/word_suggestions.py:28-37 | a malformed line, or one for another word, leaves an entry as it was |
| SuggestionsModel.LoadUnigramLines | synthesizer_interface/word_suggestions.py:22-37 | the loop applies each line in order, skipping malformed ones |
| SuggestionsModel.InsertBigram | synthesizer_interface/word_suggestions.py:58-60 | the first word's trie is created when missing and gets the second word inserted |
| SuggestionsModel.LoadBigramLines | synthesizer_interface/word_suggestions.py:44-64 | the loop applies each line in order, skipping malformed ones |
| SuggestionsSpec.LoadedBigramsKeys | synthesizer_interface/word_suggestions.py:50-60 | the corpus has a trie for exactly the first words of the lines inserted |
| SuggestionsModel.LoadNgrams | synthesizer_interface/word_suggestions.py:15-20 | the corpus tries are the unigram lines loaded into an empty trie and the bigram lines loaded into no tries |
| SuggestionsModel.WordSuggester.constructor | synthesizer_interface/word_suggestions.py:8-13 | a new suggester holds the loaded corpus tries and the given user memory |
| SuggestionsSpec.UserWordsMeaning | synthesizer_interface/word_suggestions.py:109-117 | a word is a user suggestion exactly when it is stored under its own lower-cased path, starts with the prefix and has count at least 6 |
| SuggestionsModel.CollectUserWords | synthesizer_interface/word_suggestions.py:111-117 | the loop collects exactly `UserWords` |
| SuggestionsModel.BigramUserWordsOf | synthesizer_interface/word_suggestions.py:133-141 | the user words of the previous word's memory trie, none when it has no trie |
| SuggestionsModel.SetToList | synthesizer_interface/word_suggestions.py:129 | `list(set)` lists each element once, in some order |
| SuggestionsSpec.AdmittedIsPrefix | synthesizer_interface/word_suggestions.py:124-126 | the filter keeps the first corpus words that are not user words, as many as there is room for |
| SuggestionsSpec.AdmittedNoRoom | synthesizer_interface/word_suggestions.py:121-126 | with no room left, no corpus word is added |
| SuggestionsModel.AddCorpus | synthesizer_interface/word_suggestions.py:124-126 | the loop builds `Admitted` |
| SuggestionsModel.CorpusWordsOf | synthesizer_interface/word_suggestions.py:120-126 | the corpus part from one corpus trie is the admitted words of its top `n` under the prefix, none when the user words fill `n` |
| SuggestionsModel.BigramCorpusWords | synthesizer_interface/word_suggestions.py:144-150 | the same over the corpus trie of the previous word, none when it has no trie |
| SuggestionsSpec.BigramCorpusOf | synthesizer_interface/word_suggestions.py:145-146 | the corpus words of a bigram lookup are the top `n` of the previous word's trie, or none |
| SuggestionsModel.WordSuggester.GetUnigramSuggestions | synthesizer_interface/word_suggestions.py:107-129 | the result is the user words in some order followed by the admitted corpus words |
| SuggestionsModel.WordSuggester.GetBigramSuggestions | synthesizer_interface/word_suggestions.py:131-153 | the same for the previous word's memory and corpus tries |
| SuggestionsSpec.Assembled | synthesizer_interface/word_suggestions.py:129 | user words listed and then admitted corpus words make an answer |
| SuggestionsSpec.MergeFacts | synthesizer_interface/word_suggestions.py:128-129 | user words come first; every later word is a corpus word that is not a user word, in corpus order |
| SuggestionsSpec.MergeNoDup | synthesizer_interface/word_suggestions.py:119-129 | no word is suggested twice |
| SuggestionsSpec.MergeLength | synthesizer_interface/word_suggestions.py:121-129 | at most `max(n, number of user words)` suggestions; exactly the user words when they reach `n` |
| SuggestionsSpec.UserWordsFirst | synthesizer_interface/word_suggestions.py:128-129 | in every answer, each user word comes before each word that is not a user word, whatever their frequencies |
| SuggestionsSpec.AdmittedNoUserWord | synthesizer_interface/word_suggestions.py:124-126 | the corpus filter never admits a user word |
| SuggestionsSpec.UserWordFirst | synthesizer_interface/word_suggestions.py:128-129 | with one user word `u`, one different corpus word `c` and `n = 2`, the answer is exactly `[u, c]` |
| SuggestionsSpec.CorpusNoDup | synthesizer_interface/word_suggestions.py:143-146 | the bigram corpus list holds each word once (for the unigram list, `TopNFacts` states it) |

## Left out

- File system: paths, `os.path.exists`, `get_data_dir`, opening files and JSON encoding are not modelled. Loading takes the file's lines, or the decoded document (`Option<MemoryData>`, `None` when there is no file), as parameters. Saving returns the document instead of writing it.
- Error handling around I/O: the `try`/`except` that prints and gives up on a broken file, with the load possibly half done, is not modelled. The line-level `ValueError` skip in the corpus loaders is modelled.
- The `print` output, the `traceback` and the `cnt` counters of the loaders only report; they are not modelled.
- JSON value types: frequencies in the memory document are taken to be integers.
- `str.lower` is a fixed table covering ASCII `A`-`Z` and the Cyrillic capitals `U+0400`-`U+042F`. Other scripts and multi-character lowerings are not modelled.
- `str.strip` and `str.split()` use a fixed set of whitespace characters.
- `int()` accepts surrounding whitespace, one sign and ASCII digits. Underscores and non-ASCII digits are not modelled.
- Python set iteration order is not modelled: `list(user_suggestions)` is any order listing each element once, and every property holds for all orders.
- TrieModel.Trie: node objects, their identity and in-place mutation are not modelled. A trie is a value; each operation returns the new trie and the owner stores it back. Aliasing between tries therefore cannot be expressed.
- Dictionary iteration order of `load_memory` is not modelled: the pairs of a dictionary are inserted in any order. Two JSON keys spelling the same lower-cased path may therefore leave either one (`LoadedFrom`).
- UserMemoryModel.UserMemory.UpdateFromText: the save is returned rather than written, and `save_memory`'s file write is not modelled.
- SuggestionsModel.WordSuggester.constructor: the user memory and the corpus lines are parameters, instead of being built from files inside the constructor.
- The default `n=5` of `get_suggestions`, `get_unigram_suggestions` and `get_bigram_suggestions` is not modelled. The model takes `n` as an argument, and its contracts hold for every `n`, 5 included.
- The GUI, text-to-speech and `main.py` callers, and `utils.py`, are outside the core.
