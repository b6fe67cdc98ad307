/** The Option type used for Python's `None`-or-value results. */
module Options {
  datatype Option<+T> = None | Some(value: T)
}

/**
 * The string primitives of the Python runtime that the autocomplete core
 * relies on: `str.lower`, `str.isspace`, `str.strip`, `str.split()`,
 * `str.split(sep)` and `int()` on a frequency field.
 */
module Text {
  import opened Options

  /** Python's `str.isspace` for one character (the set `str.split()` and `str.strip()` cut on). */
  predicate IsSpace(c: char) {
    var k := c as int;
    (9 <= k <= 13) || (28 <= k <= 32) || k == 0x85 || k == 0xA0 || k == 0x1680 ||
    (0x2000 <= k <= 0x200A) || k == 0x2028 || k == 0x2029 || k == 0x202F || k == 0x205F || k == 0x3000
  }

  /**
   * `str.lower` on one character, for the alphabets the corpus uses:
   * ASCII capitals and the Cyrillic capitals U+0400..U+042F.
   */
  function LowerChar(c: char): char {
    var k := c as int;
    if 'A' <= c <= 'Z' then (k + 32) as char
    else if 0x410 <= k <= 0x42F then (k + 32) as char
    else if 0x400 <= k <= 0x40F then (k + 80) as char
    else c
  }

  /** Lower-casing neither makes nor unmakes whitespace. */
  lemma LowerCharSpace(c: char)
    ensures IsSpace(LowerChar(c)) <==> IsSpace(c)
  {
  }

  /** `str.lower`: character by character. */
  function Lower(s: string): (r: string)
    ensures |r| == |s|
    ensures forall i :: 0 <= i < |s| ==> r[i] == LowerChar(s[i])
  {
    seq(|s|, i requires 0 <= i < |s| => LowerChar(s[i]))
  }

  /** Lower-casing a character twice is lower-casing it once. */
  lemma LowerCharTwice(c: char)
    ensures LowerChar(LowerChar(c)) == LowerChar(c)
  {
  }

  predicate IsLowerCase(s: string) {
    forall i :: 0 <= i < |s| ==> LowerChar(s[i]) == s[i]
  }

  lemma LowerIsLowerCase(s: string)
    ensures IsLowerCase(Lower(s))
    ensures Lower(Lower(s)) == Lower(s)
  {
    forall i | 0 <= i < |s| ensures LowerChar(LowerChar(s[i])) == LowerChar(s[i]) {
      LowerCharTwice(s[i]);
    }
  }

  lemma LowerOfLowerCase(s: string)
    requires IsLowerCase(s)
    ensures Lower(s) == s
  {
  }

  lemma LowerPrefix(s: string, k: nat)
    requires k <= |s|
    ensures Lower(s[..k]) == Lower(s)[..k]
  {
  }

  /** Leading whitespace removed (the left half of `str.strip`). */
  function TrimLeft(s: string): (r: string)
    ensures |r| <= |s| && r == s[|s| - |r|..]
    ensures r == [] || !IsSpace(r[0])
    decreases |s|
  {
    if s != [] && IsSpace(s[0]) then TrimLeft(s[1..]) else s
  }

  /** Trailing whitespace removed (the right half of `str.strip`). */
  function TrimRight(s: string): (r: string)
    ensures |r| <= |s| && r == s[..|r|]
    ensures r == [] || !IsSpace(r[|r| - 1])
    decreases |s|
  {
    if s != [] && IsSpace(s[|s| - 1]) then TrimRight(s[..|s| - 1]) else s
  }

  /** `str.strip()`. */
  function Strip(s: string): (r: string)
    ensures r == [] || (!IsSpace(r[0]) && !IsSpace(r[|r| - 1]))
  {
    TrimRight(TrimLeft(s))
  }

  /** Every character `str.strip()` keeps comes from its argument. */
  lemma StripChars(s: string)
    ensures forall k :: 0 <= k < |Strip(s)| ==> Strip(s)[k] in s
  {
    var l := TrimLeft(s);
    var r := TrimRight(l);
    forall k | 0 <= k < |r| ensures r[k] in s {
      assert r[k] == l[k] == s[|s| - |l| + k];
    }
  }

  /** A string with no whitespace at either end is its own `str.strip()`. */
  lemma StripOfStripped(s: string)
    requires s == [] || (!IsSpace(s[0]) && !IsSpace(s[|s| - 1]))
    ensures Strip(s) == s
  {
  }

  lemma {:induction false} TrimLeftSnoc(s: string, c: char)
    requires IsSpace(c)
    ensures TrimLeft(s + [c]) == (if TrimLeft(s) == [] then [] else TrimLeft(s) + [c])
    decreases |s|
  {
    if s == [] {
    } else if IsSpace(s[0]) {
      assert (s + [c])[1..] == s[1..] + [c];
      TrimLeftSnoc(s[1..], c);
    } else {
    }
  }

  /** Whitespace appended to a text does not change what `str.strip()` makes of it. */
  lemma StripSnocSpace(s: string, c: char)
    requires IsSpace(c)
    ensures Strip(s + [c]) == Strip(s)
  {
    TrimLeftSnoc(s, c);
    if TrimLeft(s) != [] {
      assert (TrimLeft(s) + [c])[..|TrimLeft(s)|] == TrimLeft(s);
    }
  }

  /**
   * `str.split()` with no separator, continuing a token `cur` already begun:
   * runs of whitespace separate tokens and no token is empty.
   */
  function SplitFrom(s: string, cur: string): (r: seq<string>)
    ensures forall i :: 0 <= i < |r| ==> r[i] != []
    ensures (forall k :: 0 <= k < |cur| ==> !IsSpace(cur[k])) ==>
              forall i, k :: 0 <= i < |r| && 0 <= k < |r[i]| ==> !IsSpace(r[i][k])
    decreases |s|
  {
    if s == [] then
      (if cur == [] then [] else [cur])
    else if IsSpace(s[0]) then
      (if cur == [] then [] else [cur]) + SplitFrom(s[1..], [])
    else
      SplitFrom(s[1..], cur + [s[0]])
  }

  /** `str.split()`. */
  function Split(s: string): (r: seq<string>)
    ensures forall i :: 0 <= i < |r| ==> r[i] != []
    ensures forall i, k :: 0 <= i < |r| && 0 <= k < |r[i]| ==> !IsSpace(r[i][k])
  {
    SplitFrom(s, [])
  }

  lemma {:induction false} SplitFromSnocSpace(s: string, cur: string, c: char)
    requires IsSpace(c)
    ensures SplitFrom(s + [c], cur) == SplitFrom(s, cur)
    decreases |s|
  {
    if s == [] {
      assert SplitFrom([c], cur) == (if cur == [] then [] else [cur]) + SplitFrom([], []);
    } else {
      assert (s + [c])[1..] == s[1..] + [c];
      if IsSpace(s[0]) {
        SplitFromSnocSpace(s[1..], [], c);
      } else {
        SplitFromSnocSpace(s[1..], cur + [s[0]], c);
      }
    }
  }

  /** Whitespace appended to a text adds no token. */
  lemma SplitSnocSpace(s: string, c: char)
    requires IsSpace(c)
    ensures Split(s + [c]) == Split(s)
  {
    SplitFromSnocSpace(s, [], c);
  }

  /** A run of non-whitespace characters extends the token being read. */
  lemma {:induction false} SplitFromWord(w: string, rest: string, cur: string)
    requires forall k :: 0 <= k < |w| ==> !IsSpace(w[k])
    ensures SplitFrom(w + rest, cur) == SplitFrom(rest, cur + w)
    decreases |w|
  {
    if w == [] {
      assert w + rest == rest && cur + w == cur;
    } else {
      assert (w + rest)[0] == w[0] && (w + rest)[1..] == w[1..] + rest;
      SplitFromWord(w[1..], rest, cur + [w[0]]);
      assert cur + [w[0]] + w[1..] == cur + w;
    }
  }

  /** Two words separated by one space are two tokens. */
  lemma SplitTwo(a: string, b: string)
    requires a != [] && b != []
    requires forall k :: 0 <= k < |a| ==> !IsSpace(a[k])
    requires forall k :: 0 <= k < |b| ==> !IsSpace(b[k])
    ensures Split(a + [' '] + b) == [a, b]
  {
    assert a + [' '] + b == a + ([' '] + b);
    SplitFromWord(a, [' '] + b, []);
    var empty: string := [];
    assert empty + a == a;
    assert ([' '] + b)[1..] == b;
    assert b == b + [];
    SplitFromWord(b, [], []);
    assert empty + b == b;
  }

  /** A text whose `str.strip()` is empty has no tokens. */
  lemma {:induction false} SplitOfBlank(s: string)
    requires forall k :: 0 <= k < |s| ==> IsSpace(s[k])
    ensures Split(s) == []
    decreases |s|
  {
    if s != [] {
      SplitOfBlank(s[1..]);
    }
  }

  /** `str.split(sep)` with an explicit one-character separator: empty pieces are kept. */
  function SplitOn(s: string, sep: char): (r: seq<string>)
    ensures |r| >= 1
    ensures forall i, k :: 0 <= i < |r| && 0 <= k < |r[i]| ==> r[i][k] != sep
    decreases |s|
  {
    if s == [] then [""]
    else
      var rest := SplitOn(s[1..], sep);
      if s[0] == sep then [""] + rest else [[s[0]] + rest[0]] + rest[1..]
  }

  /** Joining the pieces of `str.split(sep)` with `sep` gives the string back. */
  lemma {:induction false} SplitOnJoin(s: string, sep: char)
    ensures Join(SplitOn(s, sep), sep) == s
    decreases |s|
  {
    if s != [] {
      var rest := SplitOn(s[1..], sep);
      SplitOnJoin(s[1..], sep);
      if s[0] != sep {
        JoinCons(rest, sep, s[0]);
      }
    }
  }

  /** A string that splits into two pieces is the pieces joined by the separator. */
  lemma SplitInTwo(s: string, sep: char)
    requires |SplitOn(s, sep)| == 2
    ensures s == SplitOn(s, sep)[0] + [sep] + SplitOn(s, sep)[1]
  {
    var r := SplitOn(s, sep);
    SplitOnJoin(s, sep);
    assert r[1..] == [r[1]];
  }

  /** A character missing from a string is missing from both pieces it splits into. */
  lemma SplitInTwoLacks(s: string, sep: char, c: char)
    requires |SplitOn(s, sep)| == 2 && forall k :: 0 <= k < |s| ==> s[k] != c
    ensures forall i, k :: 0 <= i < 2 && 0 <= k < |SplitOn(s, sep)[i]| ==> SplitOn(s, sep)[i][k] != c
  {
    var r := SplitOn(s, sep);
    SplitInTwo(s, sep);
    forall k | 0 <= k < |r[0]| ensures r[0][k] != c {
      assert r[0][k] == s[k];
    }
    forall k | 0 <= k < |r[1]| ensures r[1][k] != c {
      assert r[1][k] == s[|r[0]| + 1 + k];
    }
  }

  function Join(parts: seq<string>, sep: char): string
    requires |parts| >= 1
    decreases |parts|
  {
    if |parts| == 1 then parts[0] else parts[0] + [sep] + Join(parts[1..], sep)
  }

  lemma JoinCons(parts: seq<string>, sep: char, c: char)
    requires |parts| >= 1
    ensures Join([[c] + parts[0]] + parts[1..], sep) == [c] + Join(parts, sep)
  {
    var q := [[c] + parts[0]] + parts[1..];
    assert q[1..] == parts[1..];
  }

  /** Pieces free of the separator come back from `str.split(sep)` on their join. */
  lemma {:induction false} SplitOnOfJoin(a: string, b: string, sep: char)
    requires forall k :: 0 <= k < |a| ==> a[k] != sep
    requires forall k :: 0 <= k < |b| ==> b[k] != sep
    ensures SplitOn(a + [sep] + b, sep) == [a, b]
    decreases |a|
  {
    if a == [] {
      assert ([sep] + b)[1..] == b;
      SplitOnNoSep(b, sep);
    } else {
      assert (a + [sep] + b)[1..] == a[1..] + [sep] + b;
      SplitOnOfJoin(a[1..], b, sep);
      assert [a[0]] + a[1..] == a;
    }
  }

  lemma {:induction false} SplitOnNoSep(s: string, sep: char)
    requires forall k :: 0 <= k < |s| ==> s[k] != sep
    ensures SplitOn(s, sep) == [s]
    decreases |s|
  {
    if s != [] {
      SplitOnNoSep(s[1..], sep);
      assert [s[0]] + s[1..] == s;
    }
  }

  predicate IsDigit(c: char) {
    '0' <= c <= '9'
  }

  /** The value of a string of decimal digits. */
  function DigitsValue(d: string): (v: nat)
    requires forall k :: 0 <= k < |d| ==> IsDigit(d[k])
    decreases |d|
  {
    if d == [] then 0
    else
      var last := d[|d| - 1];
      assert IsDigit(last);
      DigitsValue(d[..|d| - 1]) * 10 + (last as int - '0' as int)
  }

  /**
   * `int()` applied to a frequency field: surrounding whitespace, an optional
   * sign and at least one ASCII digit; anything else is `None` (Python's ValueError).
   */
  function ParseInt(s: string): (r: Option<int>) {
    var t := Strip(s);
    var neg := t != [] && t[0] == '-';
    var d := if t != [] && (t[0] == '-' || t[0] == '+') then t[1..] else t;
    if d != [] && forall k :: 0 <= k < |d| ==> IsDigit(d[k]) then
      Some(if neg then -(DigitsValue(d) as int) else DigitsValue(d))
    else None
  }

  /** The decimal spelling of a natural number, as Python's `str()` writes it. */
  function NatToString(v: nat): (s: string)
    ensures s != [] && forall k :: 0 <= k < |s| ==> IsDigit(s[k])
    ensures DigitsValue(s) == v
    decreases v
  {
    var last := [('0' as int + v % 10) as char];
    if v < 10 then last
    else
      var s := NatToString(v / 10) + last;
      assert s[..|s| - 1] == NatToString(v / 10);
      s
  }

  /** The decimal spelling of an integer, with a leading `-` when negative. */
  function IntToString(v: int): string {
    if v < 0 then "-" + NatToString(-v) else NatToString(v)
  }

  /** What follows the sign of a signed digit string is a digit string. */
  lemma DigitsAfterSign(s: string)
    requires |s| >= 2
    requires forall k :: 1 <= k < |s| ==> IsDigit(s[k])
    ensures forall k :: 0 <= k < |s[1..]| ==> IsDigit(s[1..][k])
  {
    forall k | 0 <= k < |s[1..]| ensures IsDigit(s[1..][k]) {
      assert s[1..][k] == s[k + 1];
    }
  }

  /** A minus sign followed by digits reads as the negated digit value. */
  lemma ParseNegative(s: string)
    requires |s| >= 2 && s[0] == '-'
    requires forall k :: 1 <= k < |s| ==> IsDigit(s[k])
    ensures ParseInt(s) == Some(-(DigitsValue(s[1..]) as int))
  {
    DigitsAfterSign(s);
    assert !IsSpace(s[|s| - 1]) by { assert IsDigit(s[|s| - 1]); }
    StripOfStripped(s);
  }

  /** Reading back the spelling of a natural number gives the number. */
  lemma ParseNatToString(v: nat)
    ensures ParseInt(NatToString(v)) == Some(v)
  {
    var n := NatToString(v);
    assert IsDigit(n[0]) && IsDigit(n[|n| - 1]);
    StripOfStripped(n);
    assert Strip(n) == n;
  }

  /** `int(str(v)) == v`: reading back a written frequency gives the frequency. */
  lemma ParseIntToString(v: int)
    ensures ParseInt(IntToString(v)) == Some(v)
  {
    if v < 0 {
      var s := IntToString(v);
      assert s[1..] == NatToString(-v);
      ParseNegative(s);
    } else {
      ParseNatToString(v);
    }
  }
}
