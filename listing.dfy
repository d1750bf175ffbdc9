/**
 * Reading an object-listing: `parse_s3_line` turns one line of `aws s3 ls
 * --recursive` output into (creation, size, path), and the first loop of
 * `sync_files` collects the parsed lines into a path-keyed snapshot.
 */
module Listing {
  import opened Wrappers
  import opened Strings

  /** A parsed listing line: `creation` is "date time", `size` is verbatim. */
  datatype Entry = Entry(creation: string, size: string, fullpath: string)

  /** The snapshot `file_data`: path to (creation, size). */
  type Snapshot = map<string, (string, string)>

  /** `parse_s3_line`: split at most three times on whitespace; anything but four
      parts, or a path ending in "/" (a directory marker), is rejected. */
  function ParseLine(line: string): Option<Entry> {
    var parts := SplitWhitespace(line, 3);
    if |parts| != 4 then None
    else if EndsWith(parts[3], '/') then None
    else Some(Entry(parts[0] + " " + parts[1], parts[2], parts[3]))
  }

  /** A line is rejected exactly when it has fewer than four whitespace-separated
      tokens or ends in "/". */
  lemma ParseLineRejects(line: string)
    ensures ParseLine(line).None? <==> |Words(line)| < 4 || EndsWith(line, '/')
  {
    SplitWhitespaceCount(line, 3);
    if |Words(line)| >= 4 {
      SplitWhitespaceLast(line, 3);
      var path := SplitWhitespace(line, 3)[3];
      assert path[|path| - 1] == line[|line| - |path|..][|path| - 1];
    }
  }

  /** An accepted line gives creation = token 0 + " " + token 1 and size = token 2;
      the path is the suffix of the line that starts at token 3, so whatever
      whitespace it holds is kept, and its own tokens are tokens 3 onwards. */
  lemma ParseLineFields(line: string)
    requires ParseLine(line).Some?
    ensures var e, words := ParseLine(line).value, Words(line);
      && |words| >= 4
      && e.creation == words[0] + " " + words[1]
      && e.size == words[2]
      && IsSuffix(e.fullpath, line)
      && e.fullpath != [] && !IsSpace(e.fullpath[0]) && !EndsWith(e.fullpath, '/')
      && Words(e.fullpath) == words[3..]
  {
    SplitWhitespaceCount(line, 3);
    SplitWhitespaceLast(line, 3);
    SplitWhitespacePrefix(line, 3, 0);
    SplitWhitespacePrefix(line, 3, 1);
    SplitWhitespacePrefix(line, 3, 2);
  }

  /** The converse: optional leading blanks, three blank-separated tokens, blanks,
      and a path that starts with a non-blank and does not end in "/" parse to
      exactly those fields. */
  lemma ParseLineOf(lead: string, date: string, sep1: string, time: string, sep2: string,
                    size: string, sep3: string, path: string)
    requires AllSpace(lead)
    requires date != [] && NoSpace(date) && time != [] && NoSpace(time) && size != [] && NoSpace(size)
    requires sep1 != [] && AllSpace(sep1) && sep2 != [] && AllSpace(sep2) && sep3 != [] && AllSpace(sep3)
    requires path != [] && !IsSpace(path[0]) && !EndsWith(path, '/')
    ensures ParseLine(lead + date + sep1 + time + sep2 + size + sep3 + path)
         == Some(Entry(date + " " + time, size, path))
  {
    var s3 := sep3 + path;
    var s2 := sep2 + size + s3;
    var s1 := sep1 + time + s2;
    CutWord(lead, date, s1, 3);
    CutWord(sep1, time, s2, 2);
    CutWord(sep2, size, s3, 1);
    SkipTo(sep3, path);
    assert SplitWhitespace(s3, 0) == [path];
    assert lead + date + s1 == lead + date + sep1 + time + sep2 + size + sep3 + path;
  }

  /** A split with cuts left takes off a blank-preceded word ended by a blank. */
  lemma CutWord(blank: string, word: string, rest: string, k: nat)
    requires AllSpace(blank) && word != [] && NoSpace(word) && rest != [] && IsSpace(rest[0]) && k > 0
    ensures SplitWhitespace(blank + word + rest, k) == [word] + SplitWhitespace(rest, k - 1)
  {
    var r := word + rest;
    assert blank + word + rest == blank + r;
    SkipTo(blank, r);
    TakeWord(word, rest);
  }

  lemma SkipTo(blank: string, rest: string)
    requires AllSpace(blank) && (rest == [] || !IsSpace(rest[0]))
    ensures SkipSpace(blank + rest) == rest
  {
    assert (blank + rest)[..|blank|] == blank;
    SkipSpaceExact(blank + rest, |blank|);
    assert (blank + rest)[|blank|..] == rest;
  }

  lemma TakeWord(word: string, rest: string)
    requires NoSpace(word) && rest != [] && IsSpace(rest[0])
    ensures WordLength(word + rest) == |word|
    ensures (word + rest)[..|word|] == word && (word + rest)[|word|..] == rest
  {
    assert (word + rest)[..|word|] == word;
    WordLengthExact(word + rest, |word|);
    assert (word + rest)[|word|..] == rest;
  }

  /** A listing line in the shape `aws s3 ls` prints: date, time, a padded size and
      the key. */
  lemma ParseLineExample()
    ensures var key := "Router_Setup" + "/" + "firmware" + "/" + ("TL-WR841N" + "_" + "V14_en_1.2.3.bin");
      ParseLine("2024-01-01" + " " + "10:00:00" + "      " + "1234" + " " + key)
        == Some(Entry("2024-01-01" + " " + "10:00:00", "1234", key))
  {
    var key := "Router_Setup" + "/" + "firmware" + "/" + ("TL-WR841N" + "_" + "V14_en_1.2.3.bin");
    assert NoSpace("2024-01-01") && NoSpace("10:00:00") && NoSpace("1234");
    assert AllSpace("      ");
    assert key[0] == 'R' && key[|key| - 1] == 'n';
    ParseLineOf("", "2024-01-01", " ", "10:00:00", "      ", "1234", " ", key);
    assert "" + "2024-01-01" == "2024-01-01";
  }

  predicate ParsesTo(line: string, path: string) {
    ParseLine(line).Some? && ParseLine(line).value.fullpath == path
  }

  /** The snapshot of a listing: each accepted line sets its path to its
      (creation, size), later lines overwriting earlier ones. */
  function SnapshotOf(lines: seq<string>): Snapshot {
    if lines == [] then map[]
    else
      var earlier := SnapshotOf(lines[..|lines| - 1]);
      match ParseLine(lines[|lines| - 1])
      case None => earlier
      case Some(e) => earlier[e.fullpath := (e.creation, e.size)]
  }

  /** The snapshot's paths are exactly the paths of the accepted lines. */
  lemma {:induction false} SnapshotKeys(lines: seq<string>, path: string)
    ensures path in SnapshotOf(lines) <==> exists i :: 0 <= i < |lines| && ParsesTo(lines[i], path)
  {
    if lines != [] {
      var init := lines[..|lines| - 1];
      SnapshotKeys(init, path);
      if exists i :: 0 <= i < |init| && ParsesTo(init[i], path) {
        var i :| 0 <= i < |init| && ParsesTo(init[i], path);
        assert lines[i] == init[i];
      }
      if exists i :: 0 <= i < |lines| && ParsesTo(lines[i], path) {
        var i :| 0 <= i < |lines| && ParsesTo(lines[i], path);
        if i < |init| {
          assert init[i] == lines[i];
        }
      }
    }
  }

  /** The value stored for a path comes from the last line that gives that path. */
  lemma {:induction false} SnapshotLastWins(lines: seq<string>, i: nat)
    requires i < |lines| && ParseLine(lines[i]).Some?
    requires forall j :: i < j < |lines| ==> !ParsesTo(lines[j], ParseLine(lines[i]).value.fullpath)
    ensures var e := ParseLine(lines[i]).value;
      e.fullpath in SnapshotOf(lines) && SnapshotOf(lines)[e.fullpath] == (e.creation, e.size)
  {
    var init := lines[..|lines| - 1];
    if i < |lines| - 1 {
      assert init[i] == lines[i];
      forall j | i < j < |init| ensures !ParsesTo(init[j], ParseLine(init[i]).value.fullpath) {
        assert init[j] == lines[j];
      }
      SnapshotLastWins(init, i);
    }
  }

  /** The first loop of `sync_files`: parse every line, skip rejected ones, and
      record (creation, size) under the path in `file_data` and the path in
      `current_files`. */
  method ParseListing(lines: seq<string>) returns (fileData: Snapshot, currentFiles: set<string>)
    ensures fileData == SnapshotOf(lines)
    ensures currentFiles == fileData.Keys
  {
    fileData, currentFiles := map[], {};
    for i := 0 to |lines|
      invariant fileData == SnapshotOf(lines[..i])
      invariant currentFiles == fileData.Keys
    {
      assert lines[..i + 1][..i] == lines[..i];
      var parsed := ParseLine(lines[i]);
      if parsed.Some? {
        var e := parsed.value;
        fileData := fileData[e.fullpath := (e.creation, e.size)];
        currentFiles := currentFiles + {e.fullpath};
      }
    }
    assert lines[..|lines|] == lines;
  }
}
