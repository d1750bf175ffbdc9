/**
 * The string primitives both scripts lean on: Python's character classes on the
 * ASCII range, `str.split()` on whitespace with a split limit, `str.split(sep)`,
 * `str.rstrip(c)`, and the code-point order `sorted` uses on `str` keys.
 */
module Strings {

  /** Python's `str.isspace()` on ASCII: tab through carriage return, the four
      information separators 0x1C-0x1F, and the space. */
  predicate IsSpace(c: char) {
    c == ' ' || 9 <= c as int <= 13 || 28 <= c as int <= 31
  }

  predicate IsLetter(c: char) {
    'A' <= c <= 'Z' || 'a' <= c <= 'z'
  }

  predicate IsDigit(c: char) {
    '0' <= c <= '9'
  }

  /** ASCII lower-casing: the case folding `re.IGNORECASE` applies to ASCII letters. */
  function Fold(c: char): char {
    if 'A' <= c <= 'Z' then (c as int + 32) as char else c
  }

  predicate AllSpace(s: string) {
    forall i :: 0 <= i < |s| ==> IsSpace(s[i])
  }

  predicate NoSpace(s: string) {
    forall i :: 0 <= i < |s| ==> !IsSpace(s[i])
  }

  predicate IsSuffix(t: string, s: string) {
    |t| <= |s| && s[|s| - |t|..] == t
  }

  /** Python's `s.endswith(c)` for a one-character suffix. */
  predicate EndsWith(s: string, c: char) {
    |s| > 0 && s[|s| - 1] == c
  }

  lemma SuffixTransitive(a: string, b: string, c: string)
    requires IsSuffix(a, b) && IsSuffix(b, c)
    ensures IsSuffix(a, c)
  {
    assert c[|c| - |a|..] == c[|c| - |b|..][|b| - |a|..];
  }

  /** The input with its leading whitespace removed. */
  function SkipSpace(s: string): (t: string)
    ensures |t| <= |s|
    ensures t == [] || !IsSpace(t[0])
  {
    if s != [] && IsSpace(s[0]) then SkipSpace(s[1..]) else s
  }

  /** What SkipSpace removes is a whitespace prefix; what it keeps is the rest. */
  lemma {:induction false} SkipSpaceShape(s: string)
    ensures IsSuffix(SkipSpace(s), s)
    ensures AllSpace(s[..|s| - |SkipSpace(s)|])
  {
    if s != [] && IsSpace(s[0]) {
      SkipSpaceShape(s[1..]);
      var t := SkipSpace(s[1..]);
      assert s[..|s| - |t|] == [s[0]] + s[1..][..|s| - 1 - |t|];
    }
  }

  /** The length of the leading run of non-whitespace characters. */
  function WordLength(s: string): (n: nat)
    ensures n <= |s|
    ensures n == |s| || IsSpace(s[n])
    ensures s != [] && !IsSpace(s[0]) ==> n > 0
  {
    if s == [] || IsSpace(s[0]) then 0 else 1 + WordLength(s[1..])
  }

  lemma {:induction false} WordLengthShape(s: string)
    ensures NoSpace(s[..WordLength(s)])
  {
    if s != [] && !IsSpace(s[0]) {
      WordLengthShape(s[1..]);
      assert s[..WordLength(s)] == [s[0]] + s[1..][..WordLength(s[1..])];
    }
  }

  /** Python's `s.split(None, maxsplit)`: leading whitespace is skipped, at most
      `maxsplit` words are cut off, and what follows the last cut (after its
      leading whitespace) is returned whole, trailing whitespace included. */
  function SplitWhitespace(s: string, maxsplit: nat): seq<string>
    decreases |s|
  {
    var t := SkipSpace(s);
    if t == [] then []
    else if maxsplit == 0 then [t]
    else
      var n := WordLength(t);
      [t[..n]] + SplitWhitespace(t[n..], maxsplit - 1)
  }

  /** Python's `s.split()`: every maximal run of non-whitespace characters. */
  function Words(s: string): (words: seq<string>)
    decreases |s|
  {
    var t := SkipSpace(s);
    if t == [] then []
    else
      var n := WordLength(t);
      [t[..n]] + Words(t[n..])
  }

  /** One step of both splits on input with a word left: they cut off the same word. */
  lemma SplitStep(s: string, k: nat)
    requires SkipSpace(s) != [] && k > 0
    ensures var t := SkipSpace(s); var n := WordLength(t);
      && n > 0
      && SplitWhitespace(s, k) == [t[..n]] + SplitWhitespace(t[n..], k - 1)
      && Words(s) == [t[..n]] + Words(t[n..])
  {
  }

  /** A split limited to k cuts has min(words, k + 1) parts. */
  lemma {:induction false} SplitWhitespaceCount(s: string, k: nat)
    ensures |SplitWhitespace(s, k)| == if |Words(s)| <= k then |Words(s)| else k + 1
    decreases |s|
  {
    var t := SkipSpace(s);
    if t == [] {
      assert SplitWhitespace(s, k) == [];
      assert Words(s) == [];
    } else if k == 0 {
      assert SplitWhitespace(s, k) == [t];
      assert |Words(s)| >= 1;
    } else {
      SplitStep(s, k);
      SplitWhitespaceCount(t[WordLength(t)..], k - 1);
    }
  }

  /** A split limited to k cuts agrees with the unlimited split on its first k parts. */
  lemma {:induction false} SplitWhitespacePrefix(s: string, k: nat, i: nat)
    requires i < k && i < |SplitWhitespace(s, k)| && i < |Words(s)|
    ensures SplitWhitespace(s, k)[i] == Words(s)[i]
    decreases |s|
  {
    var t := SkipSpace(s);
    SplitStep(s, k);
    if i > 0 {
      SplitWhitespacePrefix(t[WordLength(t)..], k - 1, i - 1);
    }
  }

  /** When there are more than k words, part k of the limited split is the suffix of
      the input that starts at word k, and its own words are the remaining words. */
  lemma {:induction false} SplitWhitespaceLast(s: string, k: nat)
    requires |Words(s)| > k
    ensures |SplitWhitespace(s, k)| == k + 1
    ensures var last := SplitWhitespace(s, k)[k];
      IsSuffix(last, s) && last != [] && !IsSpace(last[0]) && Words(last) == Words(s)[k..]
    decreases |s|
  {
    SplitWhitespaceCount(s, k);
    var t := SkipSpace(s);
    if k == 0 {
      SkipSpaceShape(s);
      assert SkipSpace(t) == t;
    } else {
      SplitStep(s, k);
      var n := WordLength(t);
      var rest := t[n..];
      SplitWhitespaceLast(rest, k - 1);
      var last := SplitWhitespace(rest, k - 1)[k - 1];
      assert SplitWhitespace(s, k)[k] == last;
      SkipSpaceShape(s);
      assert IsSuffix(rest, t);
      SuffixTransitive(last, rest, t);
      SuffixTransitive(last, t, s);
      DropCons(t[..n], Words(rest), k);
    }
  }

  lemma DropCons<T>(x: T, s: seq<T>, k: nat)
    requires 1 <= k <= |s| + 1
    ensures ([x] + s)[k..] == s[k - 1..]
  {
  }

  lemma {:induction false} SkipSpaceExact(s: string, m: nat)
    requires m <= |s| && AllSpace(s[..m]) && (m == |s| || !IsSpace(s[m]))
    ensures SkipSpace(s) == s[m..]
  {
    SkipSpaceShape(s);
  }

  lemma {:induction false} WordLengthExact(s: string, n: nat)
    requires n <= |s| && NoSpace(s[..n]) && (n == |s| || IsSpace(s[n]))
    ensures WordLength(s) == n
  {
    WordLengthShape(s);
  }

  /** Python's `s.split(sep)` for a one-character separator. */
  function SplitOn(s: string, sep: char): (parts: seq<string>)
    ensures |parts| >= 1
    ensures forall i :: 0 <= i < |parts| ==> sep !in parts[i]
  {
    if s == [] then [[]]
    else
      var rest := SplitOn(s[1..], sep);
      if s[0] == sep then [[]] + rest
      else [[s[0]] + rest[0]] + rest[1..]
  }

  /** Python's `sep.join(parts)`. */
  function Join(parts: seq<string>, sep: char): string {
    if |parts| == 0 then []
    else if |parts| == 1 then parts[0]
    else parts[0] + [sep] + Join(parts[1..], sep)
  }

  lemma JoinConsHead(a: string, parts: seq<string>, sep: char)
    requires |parts| >= 1
    ensures Join([a + parts[0]] + parts[1..], sep) == a + Join(parts, sep)
  {
    if |parts| > 1 {
      assert ([a + parts[0]] + parts[1..])[1..] == parts[1..];
    }
  }

  /** Joining the parts of a split with the separator gives back the input: with
      the fact that no part contains the separator, this determines the split. */
  lemma {:induction false} JoinSplitOn(s: string, sep: char)
    ensures Join(SplitOn(s, sep), sep) == s
  {
    if s != [] {
      var rest := SplitOn(s[1..], sep);
      JoinSplitOn(s[1..], sep);
      if s[0] == sep {
        assert ([[]] + rest)[1..] == rest;
        assert s == [] + [sep] + s[1..];
      } else {
        JoinConsHead([s[0]], rest, sep);
        assert s == [s[0]] + s[1..];
      }
    }
  }

  /** A split yields a single part exactly when the separator does not occur. */
  lemma {:induction false} SplitOnSingle(s: string, sep: char)
    ensures |SplitOn(s, sep)| == 1 <==> sep !in s
    ensures sep !in s ==> SplitOn(s, sep) == [s]
  {
    if s != [] {
      SplitOnSingle(s[1..], sep);
      assert s == [s[0]] + s[1..];
    }
  }

  /** The first part of a split is the text before the first separator. */
  lemma {:induction false} SplitOnFirst(a: string, b: string, sep: char)
    requires sep !in a
    ensures SplitOn(a + [sep] + b, sep) == [a] + SplitOn(b, sep)
  {
    var s := a + [sep] + b;
    if a == [] {
      assert s[1..] == b;
    } else {
      assert s[1..] == a[1..] + [sep] + b;
      SplitOnFirst(a[1..], b, sep);
      assert [a[0]] + a[1..] == a;
    }
  }

  /** Python's `s.rstrip(c)` for one character: the shortest prefix after which
      only copies of `c` follow, so it never ends in `c`. */
  function StripTrailing(s: string, c: char): (r: string)
    ensures |r| <= |s| && r == s[..|r|]
    ensures r == [] || r[|r| - 1] != c
    ensures forall i :: |r| <= i < |s| ==> s[i] == c
  {
    if s != [] && s[|s| - 1] == c then StripTrailing(s[..|s| - 1], c) else s
  }

  /** Python's `<=` on `str`: lexicographic by code point. */
  predicate LexLe(a: string, b: string) {
    a == [] || (b != [] && (a[0] < b[0] || (a[0] == b[0] && LexLe(a[1..], b[1..]))))
  }

  lemma {:induction false} LexLeReflexive(a: string)
    ensures LexLe(a, a)
  {
    if a != [] {
      LexLeReflexive(a[1..]);
    }
  }

  lemma {:induction false} LexLeTotal(a: string, b: string)
    ensures LexLe(a, b) || LexLe(b, a)
  {
    if a != [] && b != [] && a[0] == b[0] {
      LexLeTotal(a[1..], b[1..]);
    }
  }

  lemma {:induction false} LexLeAntisymmetric(a: string, b: string)
    requires LexLe(a, b) && LexLe(b, a)
    ensures a == b
  {
    if a != [] && b != [] {
      LexLeAntisymmetric(a[1..], b[1..]);
      assert a == [a[0]] + a[1..] && b == [b[0]] + b[1..];
    }
  }

  lemma {:induction false} LexLeTransitive(a: string, b: string, c: string)
    requires LexLe(a, b) && LexLe(b, c)
    ensures LexLe(a, c)
  {
    if a != [] && a[0] == b[0] && b[0] == c[0] {
      LexLeTransitive(a[1..], b[1..], c[1..]);
    }
  }
}
