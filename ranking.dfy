/**
 * The ranking step of `Trie.get_top_n_prefixed` (synthesizer_interface/trie.py):
 * a stable sort by descending frequency, Python's `[:n]` slice, and the
 * projection onto the words.
 */
module Ranking {
  import opened Options
  import opened Text
  import opened TrieShape

  /** How many elements Python's `s[:n]` keeps of a list of length `len`; a negative `n` counts from the end. */
  function SliceLength(len: nat, n: int): (k: nat)
    ensures k <= len
  {
    if n >= 0 then (if n < len then n else len)
    else if len + n > 0 then len + n else 0
  }

  /** Python's `s[:n]`. */
  function SliceTo<T>(s: seq<T>, n: int): seq<T> {
    s[..SliceLength(|s|, n)]
  }

  /**
   * What `s[:n]` keeps: a prefix of `s`; `n` elements when `0 <= n <= len(s)`;
   * all of `s` when `n` reaches its length; all but the last `-n` elements
   * for a negative `n`, and nothing once `-n` exceeds the length.
   */
  lemma SliceToFacts<T>(s: seq<T>, n: int)
    ensures SliceTo(s, n) <= s
    ensures 0 <= n <= |s| ==> |SliceTo(s, n)| == n
    ensures n >= |s| ==> SliceTo(s, n) == s
    ensures -|s| <= n < 0 ==> SliceTo(s, n) + s[|s| + n..] == s
    ensures n < -|s| ==> SliceTo(s, n) == []
  {
    if -|s| <= n < 0 {
      assert s[..|s| + n] + s[|s| + n..] == s;
    }
  }

  /** Frequencies never increase along the list. */
  ghost predicate Descending(s: seq<Entry>) {
    forall i, j :: 0 <= i < j < |s| ==> s[i].1 >= s[j].1
  }

  /** The entries of frequency `f`, in their order in `s`. */
  function WithFreq(s: seq<Entry>, f: int): seq<Entry> {
    if s == [] then []
    else (if s[0].1 == f then [s[0]] else []) + WithFreq(s[1..], f)
  }

  /** Puts `x` after every entry of higher frequency and before all the others. */
  function InsertByFreq(x: Entry, s: seq<Entry>): seq<Entry> {
    if s == [] || s[0].1 <= x.1 then [x] + s
    else [s[0]] + InsertByFreq(x, s[1..])
  }

  /** `words_freq.sort(key=lambda x: x[1], reverse=True)`: Python's sort, which is stable. */
  function SortByFreq(s: seq<Entry>): seq<Entry> {
    if s == [] then [] else InsertByFreq(s[0], SortByFreq(s[1..]))
  }

  lemma {:induction false} InsertByFreqDescending(x: Entry, s: seq<Entry>)
    requires Descending(s)
    ensures Descending(InsertByFreq(x, s))
  {
    if !(s == [] || s[0].1 <= x.1) {
      var t := InsertByFreq(x, s[1..]);
      InsertByFreqDescending(x, s[1..]);
      InsertByFreqMultiset(x, s[1..]);
      forall k | 0 <= k < |t| ensures t[k].1 <= s[0].1 {
        assert t[k] in multiset([x] + s[1..]);
        if t[k] != x {
          assert t[k] in s[1..];
        }
      }
    }
  }

  lemma {:induction false} InsertByFreqWithFreq(x: Entry, s: seq<Entry>, f: int)
    ensures WithFreq(InsertByFreq(x, s), f) == WithFreq([x] + s, f)
  {
    if !(s == [] || s[0].1 <= x.1) {
      InsertByFreqWithFreq(x, s[1..], f);
      assert ([x] + s)[1..] == s;
      assert ([x] + s[1..])[1..] == s[1..];
      assert ([s[0]] + InsertByFreq(x, s[1..]))[1..] == InsertByFreq(x, s[1..]);
    }
  }

  /**
   * The sort orders by descending frequency, is a permutation, and is stable:
   * for every frequency, the entries having it keep their relative order.
   */
  lemma {:induction false} SortByFreqCorrect(s: seq<Entry>)
    ensures var r := SortByFreq(s);
      Descending(r) && multiset(r) == multiset(s) &&
      forall f :: WithFreq(r, f) == WithFreq(s, f)
  {
    if s != [] {
      SortByFreqCorrect(s[1..]);
      var t := SortByFreq(s[1..]);
      InsertByFreqDescending(s[0], t);
      InsertByFreqMultiset(s[0], t);
      assert s == [s[0]] + s[1..];
      forall f ensures WithFreq(SortByFreq(s), f) == WithFreq(s, f) {
        InsertByFreqWithFreq(s[0], t, f);
        assert ([s[0]] + t)[1..] == t;
      }
    }
  }

  /** Sorting keeps a list free of two entries at the same path. */
  lemma {:induction false} SortKeepsDistinctPaths(s: seq<Entry>)
    requires DistinctPaths(s)
    ensures DistinctPaths(SortByFreq(s))
  {
    if s != [] {
      SortKeepsDistinctPaths(s[1..]);
      SortByFreqCorrect(s[1..]);
      var t := SortByFreq(s[1..]);
      forall y | y in t ensures Lower(y.0) != Lower(s[0].0) {
        assert y in multiset(s[1..]);
        var j :| 0 <= j < |s[1..]| && s[1..][j] == y;
        assert s[j + 1] == y;
      }
      InsertKeepsDistinctPaths(s[0], t);
    }
  }

  lemma {:induction false} InsertKeepsDistinctPaths(x: Entry, t: seq<Entry>)
    requires DistinctPaths(t)
    requires forall y | y in t :: Lower(y.0) != Lower(x.0)
    ensures DistinctPaths(InsertByFreq(x, t))
  {
    if t == [] || t[0].1 <= x.1 {
      DistinctPathsAppend([x], t);
    } else {
      InsertKeepsDistinctPaths(x, t[1..]);
      assert DistinctPaths(t[1..]) by {
        forall i, j | 0 <= i < j < |t[1..]| ensures Lower(t[1..][i].0) != Lower(t[1..][j].0) {
          assert t[1..][i] == t[i + 1] && t[1..][j] == t[j + 1];
        }
      }
      var u := InsertByFreq(x, t[1..]);
      assert multiset(u) == multiset([x] + t[1..]) by {
        InsertByFreqMultiset(x, t[1..]);
      }
      forall y | y in u ensures Lower(y.0) != Lower(t[0].0) {
        assert y in multiset([x] + t[1..]);
        if y != x {
          assert y in t[1..];
          var j :| 0 <= j < |t[1..]| && t[1..][j] == y;
          assert t[j + 1] == y;
        }
      }
      DistinctPathsAppend([t[0]], u);
    }
  }

  lemma {:induction false} InsertByFreqMultiset(x: Entry, s: seq<Entry>)
    ensures multiset(InsertByFreq(x, s)) == multiset([x] + s)
  {
    if !(s == [] || s[0].1 <= x.1) {
      InsertByFreqMultiset(x, s[1..]);
      assert s == [s[0]] + s[1..];
    }
  }

  /** Taking a prefix keeps, for every frequency, a prefix of the entries having it. */
  lemma {:induction false} WithFreqOfPrefix(s: seq<Entry>, k: nat, f: int)
    requires k <= |s|
    ensures WithFreq(s[..k], f) <= WithFreq(s, f)
  {
    if k > 0 {
      WithFreqOfPrefix(s[1..], k - 1, f);
      assert s[..k][1..] == s[1..][..k - 1];
      assert s[..k][0] == s[0];
    }
  }

  /** The (word, frequency) pairs `get_top_n_prefixed` keeps before dropping the frequencies. */
  ghost function Ranked(m: Shape, lp: string, n: int): seq<Entry>
    requires WF(m)
  {
    if lp in m then SliceTo(SortByFreq(PreOrder(m, lp)), n) else []
  }

  /** `get_top_n_prefixed` on the abstract value, for the lower-cased prefix `lp`. */
  ghost function TopN(m: Shape, lp: string, n: int): seq<string>
    requires WF(m)
  {
    Firsts(Ranked(m, lp, n))
  }

  /**
   * What `get_top_n_prefixed` promises about what it returns: nothing when
   * the prefix path is missing; otherwise at most `n` distinct words, each
   * stored under the prefix with the frequency listed, by non-increasing
   * frequency.
   */
  lemma TopNFacts(m: Shape, lp: string, n: int)
    requires WF(m)
    ensures lp !in m ==> TopN(m, lp, n) == []
    ensures n >= 0 ==> |TopN(m, lp, n)| <= n
    ensures var r := Ranked(m, lp, n);
      (forall i | 0 <= i < |r| ::
        lp <= Lower(r[i].0) && Lower(r[i].0) in m && m[Lower(r[i].0)].entry == Some(r[i])) &&
      NoDup(TopN(m, lp, n)) &&
      Descending(r)
  {
    if lp in m {
      var s := PreOrder(m, lp);
      var sorted := SortByFreq(s);
      var r := Ranked(m, lp, n);
      assert r == sorted[..SliceLength(|sorted|, n)];
      SortByFreqCorrect(s);
      PreOrderSound(m, lp);
      assert |sorted| == |s| by {
        assert |multiset(sorted)| == |multiset(s)|;
      }
      forall i | 0 <= i < |r|
        ensures lp <= Lower(r[i].0) && Lower(r[i].0) in m && m[Lower(r[i].0)].entry == Some(r[i])
      {
        assert r[i] in multiset(s);
      }
      assert NoDup(TopN(m, lp, n)) by {
        PreOrderDistinct(m, lp);
        SortKeepsDistinctPaths(s);
        var w := TopN(m, lp, n);
        forall i, j | 0 <= i < j < |w| ensures w[i] != w[j] {
          assert Lower(sorted[i].0) != Lower(sorted[j].0);
        }
      }
    }
  }

  /**
   * What `get_top_n_prefixed` leaves out: nothing of higher frequency than
   * the last word it keeps, and nothing at all when `n` covers every word
   * under the prefix.
   */
  lemma TopNLeavesOutLowest(m: Shape, lp: string, n: int)
    requires WF(m) && lp in m
    ensures var r := Ranked(m, lp, n);
      (forall e | e in PreOrder(m, lp) && e !in r && r != [] :: e.1 <= r[|r| - 1].1) &&
      (n >= |PreOrder(m, lp)| ==> forall e | e in PreOrder(m, lp) :: e in r)
  {
    SliceLeavesOutLowest(PreOrder(m, lp), n);
  }

  /** Sorting keeps the length and the members. */
  lemma SortedMembers(s: seq<Entry>)
    ensures |SortByFreq(s)| == |s|
    ensures forall e :: e in SortByFreq(s) <==> e in s
  {
    SortByFreqCorrect(s);
    assert |multiset(SortByFreq(s))| == |multiset(s)|;
    forall e ensures e in SortByFreq(s) <==> e in s {
      assert e in SortByFreq(s) <==> e in multiset(SortByFreq(s));
    }
  }

  /** A prefix of the sorted entries leaves out nothing above its last frequency. */
  lemma SliceLeavesOutLowest(s: seq<Entry>, n: int)
    ensures var r := SliceTo(SortByFreq(s), n);
      (forall e | e in s && e !in r && r != [] :: e.1 <= r[|r| - 1].1) &&
      (n >= |s| ==> forall e | e in s :: e in r)
  {
    var sorted := SortByFreq(s);
    SortByFreqCorrect(s);
    SortedMembers(s);
    var k := SliceLength(|sorted|, n);
    var r := sorted[..k];
    forall e | e in s && e !in r && r != [] ensures e.1 <= r[|r| - 1].1 {
      var j :| 0 <= j < |sorted| && sorted[j] == e;
      forall i | 0 <= i < k ensures sorted[i] != e {
        assert r[i] == sorted[i] && r[i] in r;
      }
      assert r[|r| - 1] == sorted[k - 1];
    }
    if n >= |s| {
      assert r == sorted;
    }
  }

  /**
   * Ties are broken by traversal order: for every frequency, the words kept
   * with that frequency are the first ones having it in pre-order.
   */
  lemma TopNTies(m: Shape, lp: string, n: int, f: int)
    requires WF(m) && lp in m
    ensures WithFreq(Ranked(m, lp, n), f) <= WithFreq(PreOrder(m, lp), f)
  {
    var sorted := SortByFreq(PreOrder(m, lp));
    SortByFreqCorrect(PreOrder(m, lp));
    WithFreqOfPrefix(sorted, SliceLength(|sorted|, n), f);
  }
}
