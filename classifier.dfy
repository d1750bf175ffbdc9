/**
 * `extract_type_and_product`: a path is cut at "/" into a type (first segment),
 * a subfolder (second segment, when there are at least three) and a file name
 * (last segment), and a product name is pulled out of the file name by the
 * first of two regular expressions that matches.
 *
 * Both expressions begin with the group `([A-Za-z][A-Za-z0-9\-]*?)`. The
 * group's characters exclude whitespace, "_" and "(", and each expression
 * demands one of those right after the group, so the lazy group can only end
 * where the maximal run of group characters ends. The matchers below compute
 * that run directly, and `Pattern1Exact` / `Pattern2Exact` prove them equal to
 * the regular expressions' match semantics stated as predicates.
 */
module Classifier {
  import opened Wrappers
  import opened Strings

  datatype Classification = Classification(fileType: string, subfolder: string, product: string)

  /** A character of the class `[A-Za-z0-9\-]`. */
  predicate IsRunChar(c: char) {
    IsLetter(c) || IsDigit(c) || c == '-'
  }

  /** The length of the leading run of group characters. */
  function RunLength(s: string): (n: nat)
    ensures n <= |s|
    ensures n == |s| || !IsRunChar(s[n])
  {
    if s == [] || !IsRunChar(s[0]) then 0 else 1 + RunLength(s[1..])
  }

  lemma {:induction false} RunLengthShape(s: string)
    ensures forall i :: 0 <= i < RunLength(s) ==> IsRunChar(s[i])
  {
    if s != [] && IsRunChar(s[0]) {
      RunLengthShape(s[1..]);
      assert forall i :: 1 <= i < RunLength(s) ==> s[i] == s[1..][i - 1];
    }
  }

  /** A run of group characters ended by a character outside the class has
      exactly that length. */
  lemma {:induction false} RunLengthOf(word: string, rest: string)
    requires forall i :: 0 <= i < |word| ==> IsRunChar(word[i])
    requires rest == [] || !IsRunChar(rest[0])
    ensures RunLength(word + rest) == |word|
  {
    if word != [] {
      assert (word + rest)[1..] == word[1..] + rest;
      RunLengthOf(word[1..], rest);
    } else {
      assert word + rest == rest;
    }
  }

  /** `s` starts with `p` up to ASCII case (`p` is written in lower case). */
  predicate StartsFolded(s: string, p: string) {
    |p| <= |s| && forall i :: 0 <= i < |p| ==> Fold(s[i]) == p[i]
  }

  /** The alternation `(?:[0-9]|en_|v[0-9]|Build|Rel|dist)` under `re.IGNORECASE`,
      matched at the start of `s`. */
  predicate MarkerAt(s: string) {
    || (|s| >= 1 && IsDigit(s[0]))
    || StartsFolded(s, "en_")
    || (|s| >= 2 && Fold(s[0]) == 'v' && IsDigit(s[1]))
    || StartsFolded(s, "build")
    || StartsFolded(s, "rel")
    || StartsFolded(s, "dist")
  }

  /** Every marker begins with a non-whitespace character. */
  lemma MarkerNotSpace(s: string)
    requires MarkerAt(s)
    ensures s != [] && !IsSpace(s[0])
  {
    if StartsFolded(s, "en_") { assert Fold(s[0]) == 'e'; }
    if StartsFolded(s, "build") { assert Fold(s[0]) == 'b'; }
    if StartsFolded(s, "rel") { assert Fold(s[0]) == 'r'; }
    if StartsFolded(s, "dist") { assert Fold(s[0]) == 'd'; }
  }

  /** The group `([A-Za-z][A-Za-z0-9\-]*?)` can span `f[..m]`. */
  ghost predicate GroupSpans(f: string, m: nat) {
    1 <= m <= |f| && IsLetter(f[0]) && forall i :: 1 <= i < m ==> IsRunChar(f[i])
  }

  /** Pattern 1 matches with the group spanning `f[..m]` and `\s+` spanning `k`
      characters. */
  ghost predicate Pattern1Spans(f: string, m: nat, k: nat) {
    GroupSpans(f, m) && 1 <= k && m + k <= |f| && AllSpace(f[m..m + k]) && MarkerAt(f[m + k..])
  }

  /** The regular expression `^([A-Za-z][A-Za-z0-9\-]*?)\s+(?:[0-9]|en_|v[0-9]|Build|Rel|dist)`
      matches with the group spanning `f[..m]`. */
  ghost predicate Pattern1Matches(f: string, m: nat) {
    exists k: nat :: Pattern1Spans(f, m, k)
  }

  /** The regular expression `^([A-Za-z][A-Za-z0-9\-]*?)[_\(]` matches with the
      group spanning `f[..m]`. */
  ghost predicate Pattern2Matches(f: string, m: nat) {
    GroupSpans(f, m) && m < |f| && (f[m] == '_' || f[m] == '(')
  }

  /** Pattern 1, computed: the group end, when the expression matches. */
  function Pattern1(f: string): Option<nat> {
    if f == [] || !IsLetter(f[0]) then None
    else
      var n := 1 + RunLength(f[1..]);
      var gap := f[n..];
      var tail := SkipSpace(gap);
      if |tail| < |gap| && MarkerAt(tail) then Some(n) else None
  }

  /** Pattern 2, computed: the group end, when the expression matches. */
  function Pattern2(f: string): Option<nat> {
    if f == [] || !IsLetter(f[0]) then None
    else
      var n := 1 + RunLength(f[1..]);
      if n < |f| && (f[n] == '_' || f[n] == '(') then Some(n) else None
  }

  /** A group that spans `f[..m]` and is followed by a character outside the
      class ends where the maximal run ends. */
  lemma GroupEnd(f: string, m: nat)
    requires GroupSpans(f, m) && m < |f| && !IsRunChar(f[m])
    ensures m == 1 + RunLength(f[1..])
  {
    RunLengthShape(f[1..]);
  }

  lemma GroupOfRun(f: string)
    requires f != [] && IsLetter(f[0])
    ensures GroupSpans(f, 1 + RunLength(f[1..]))
  {
    RunLengthShape(f[1..]);
    forall i | 1 <= i < 1 + RunLength(f[1..]) ensures IsRunChar(f[i]) {
      assert f[i] == f[1..][i - 1];
    }
  }

  /** The computed pattern 1 reports exactly the group ends at which the
      regular expression matches. */
  lemma Pattern1Exact(f: string, m: nat)
    ensures Pattern1(f) == Some(m) <==> Pattern1Matches(f, m)
  {
    if Pattern1Matches(f, m) {
      var k: nat :| Pattern1Spans(f, m, k);
      Pattern1Complete(f, m, k);
    }
    if Pattern1(f) == Some(m) {
      Pattern1Sound(f, m);
    }
  }

  lemma Pattern1Complete(f: string, m: nat, k: nat)
    requires Pattern1Spans(f, m, k)
    ensures Pattern1(f) == Some(m)
  {
    assert IsSpace(f[m..m + k][0]);
    GroupEnd(f, m);
    var gap := f[m..];
    MarkerNotSpace(f[m + k..]);
    assert gap[..k] == f[m..m + k];
    SkipSpaceExact(gap, k);
    assert gap[k..] == f[m + k..];
  }

  lemma Pattern1Sound(f: string, m: nat)
    requires Pattern1(f) == Some(m)
    ensures Pattern1Matches(f, m)
  {
    GroupOfRun(f);
    var gap := f[m..];
    SkipSpaceShape(gap);
    var k := |gap| - |SkipSpace(gap)|;
    assert f[m..m + k] == gap[..k];
    assert f[m + k..] == SkipSpace(gap);
    assert Pattern1Spans(f, m, k);
  }

  /** The computed pattern 2 reports exactly the group ends at which the
      regular expression matches. */
  lemma Pattern2Exact(f: string, m: nat)
    ensures Pattern2(f) == Some(m) <==> Pattern2Matches(f, m)
  {
    if Pattern2Matches(f, m) {
      GroupEnd(f, m);
    }
    if Pattern2(f) == Some(m) {
      GroupOfRun(f);
    }
  }

  /** The product name: the group of the first pattern that matches, with
      trailing hyphens removed. */
  function Product(filename: string): Option<string> {
    match Pattern1(filename)
    case Some(n) => Some(StripTrailing(filename[..n], '-'))
    case None =>
      match Pattern2(filename)
      case Some(n) => Some(StripTrailing(filename[..n], '-'))
      case None => None
  }

  /** The product is the maximal letter-initial run of group characters at the
      start of the file name with trailing hyphens stripped: it is non-empty,
      starts with a letter, holds only group characters and does not end in "-".
      Whichever pattern matched, the group is the same run. */
  lemma ProductShape(filename: string)
    requires Product(filename).Some?
    ensures var p := Product(filename).value;
      && p == StripTrailing(filename[..1 + RunLength(filename[1..])], '-')
      && p != [] && IsLetter(p[0]) && !EndsWith(p, '-')
      && p == filename[..|p|]
      && forall i :: 0 <= i < |p| ==> IsRunChar(p[i])
  {
    var run := filename[..1 + RunLength(filename[1..])];
    GroupOfRun(filename);
    var p := StripTrailing(run, '-');
    assert run[0] == filename[0];
  }

  /** The product is absent exactly when neither regular expression matches. */
  lemma ProductNone(filename: string)
    ensures Product(filename).None? <==>
      forall m: nat :: !Pattern1Matches(filename, m) && !Pattern2Matches(filename, m)
  {
    if Product(filename).None? {
      forall m: nat ensures !Pattern1Matches(filename, m) && !Pattern2Matches(filename, m) {
        Pattern1Exact(filename, m);
        Pattern2Exact(filename, m);
      }
    } else {
      match Pattern1(filename)
      case Some(n) => Pattern1Exact(filename, n);
      case None =>
        var n := Pattern2(filename).value;
        Pattern2Exact(filename, n);
    }
  }

  /** Pattern 2 is consulted only when pattern 1 does not match anywhere. */
  lemma ProductPrefersPattern1(filename: string, m: nat)
    requires Pattern1Matches(filename, m)
    ensures Product(filename) == Some(StripTrailing(filename[..m], '-'))
  {
    Pattern1Exact(filename, m);
  }

  /** Pattern 1 fails when the run is followed by a non-whitespace character. */
  lemma Pattern1StopsAt(f: string)
    requires f != [] && IsLetter(f[0])
    requires 1 + RunLength(f[1..]) < |f| && !IsSpace(f[1 + RunLength(f[1..])])
    ensures Pattern1(f) == None
  {
    var gap := f[1 + RunLength(f[1..])..];
    assert SkipSpace(gap) == gap;
  }

  /** A run followed by "_" or "(" yields the run, hyphens stripped, as product. */
  lemma ProductOfRun(run: string, sep: char, rest: string)
    requires run != [] && IsLetter(run[0]) && forall i :: 0 <= i < |run| ==> IsRunChar(run[i])
    requires sep == '_' || sep == '('
    ensures Product(run + [sep] + rest) == Some(StripTrailing(run, '-'))
  {
    var f := run + [sep] + rest;
    RunThenSeparator(run, sep, rest);
    Pattern1StopsAt(f);
    assert f[..|run|] == run;
  }

  lemma RunThenSeparator(run: string, sep: char, rest: string)
    requires run != [] && IsLetter(run[0]) && forall i :: 0 <= i < |run| ==> IsRunChar(run[i])
    requires sep == '_' || sep == '('
    ensures var f := run + [sep] + rest;
      f != [] && IsLetter(f[0]) && 1 + RunLength(f[1..]) == |run| && f[|run|] == sep
  {
    var f := run + [sep] + rest;
    var gap := [sep] + rest;
    assert f == run + gap;
    assert f[1..] == run[1..] + gap;
    RunLengthOf(run[1..], gap);
  }

  /** `extract_type_and_product`. */
  function Classify(fullpath: string): Option<Classification> {
    var parts := SplitOn(fullpath, '/');
    if |parts| < 2 then None
    else
      var fileType := parts[0];
      var subfolder := if |parts| >= 3 then parts[1] else "";
      var filename := if |parts| >= 3 then parts[|parts| - 1] else parts[1];
      match Product(filename)
      case None => None
      case Some(p) => Some(Classification(fileType, subfolder, p))
  }

  /** A path without "/" is never classified. */
  lemma ClassifyNeedsSlash(fullpath: string)
    requires '/' !in fullpath
    ensures Classify(fullpath) == None
  {
    SplitOnSingle(fullpath, '/');
  }

  /** The last part of a split is the text after the last separator. */
  lemma {:induction false} SplitOnLast(a: string, b: string, sep: char)
    requires sep !in b
    ensures var parts := SplitOn(a + [sep] + b, sep); |parts| >= 2 && parts[|parts| - 1] == b
  {
    var s := a + [sep] + b;
    if a == [] {
      assert s == [sep] + b && s[1..] == b;
      SplitOnSingle(b, sep);
    } else {
      assert s[1..] == a[1..] + [sep] + b;
      SplitOnLast(a[1..], b, sep);
    }
  }

  /** A two-segment path `type/name`: subfolder "", product from `name`. */
  lemma ClassifyTwoSegments(fileType: string, name: string)
    requires '/' !in fileType && '/' !in name
    ensures Classify(fileType + "/" + name) ==
      match Product(name)
      case None => None
      case Some(p) => Some(Classification(fileType, "", p))
  {
    SplitOnFirst(fileType, name, '/');
    SplitOnSingle(name, '/');
  }

  /** A three-segment path `type/sub/name`. */
  lemma ClassifyThreeSegments(fileType: string, sub: string, name: string)
    requires '/' !in fileType && '/' !in sub && '/' !in name
    ensures |SplitOn(fileType + "/" + sub + "/" + name, '/')| == 3
    ensures SplitOn(fileType + "/" + sub + "/" + name, '/') == [fileType, sub, name]
  {
    assert fileType + "/" + sub + "/" + name == fileType + ['/'] + (sub + ['/'] + name);
    SplitOnFirst(fileType, sub + ['/'] + name, '/');
    SplitOnFirst(sub, name, '/');
    SplitOnSingle(name, '/');
  }

  /** A path of four or more segments `type/sub/dirs/name`. */
  lemma SplitDeeper(fileType: string, sub: string, dirs: string, name: string)
    requires '/' !in fileType && '/' !in sub && '/' !in name
    ensures var parts := SplitOn(fileType + "/" + sub + "/" + dirs + "/" + name, '/');
      |parts| >= 3 && parts[0] == fileType && parts[1] == sub && parts[|parts| - 1] == name
  {
    var rest := sub + ['/'] + (dirs + ['/'] + name);
    assert fileType + "/" + sub + "/" + dirs + "/" + name == fileType + ['/'] + rest;
    SplitOnFirst(fileType, rest, '/');
    SplitOnFirst(sub, dirs + ['/'] + name, '/');
    SplitOnLast(dirs, name, '/');
  }

  /** The segments between the subfolder and the file name play no part. */
  lemma ClassifyDeeper(fileType: string, sub: string, dirs: string, name: string)
    requires '/' !in fileType && '/' !in sub && '/' !in name
    ensures Classify(fileType + "/" + sub + "/" + name) ==
      match Product(name)
      case None => None
      case Some(p) => Some(Classification(fileType, sub, p))
    ensures Classify(fileType + "/" + sub + "/" + dirs + "/" + name) ==
      Classify(fileType + "/" + sub + "/" + name)
  {
    ClassifyThreeSegments(fileType, sub, name);
    SplitDeeper(fileType, sub, dirs, name);
  }

  /** An example path: type "Router_Setup", subfolder "firmware",
      product "TL-WR841N" (pattern 1 fails at "_", pattern 2 matches there). */
  lemma ClassifyExample()
    ensures Classify("Router_Setup" + "/" + "firmware" + "/" + ("TL-WR841N" + "_" + "V14_en_1.2.3.bin"))
         == Some(Classification("Router_Setup", "firmware", "TL-WR841N"))
  {
    var run, tail := "TL-WR841N", "V14_en_1.2.3.bin";
    assert forall i :: 0 <= i < |run| ==> IsRunChar(run[i]);
    ProductOfRun(run, '_', tail);
    assert StripTrailing(run, '-') == run;
    var name := run + "_" + tail;
    assert '/' !in run && '/' !in tail;
    assert '/' !in name by {
      assert forall c :: c in name ==> c in run || c == '_' || c in tail;
    }
    ClassifyDeeper("Router_Setup", "firmware", "", name);
  }
}
