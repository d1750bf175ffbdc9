/**
 * The inventory record shared by both scripts, the CSV table it is stored in,
 * and what it means for a list of records to hold exactly the records of a
 * table keyed by path.
 */
module Records {

  /** One inventory entry; every field is kept as the string the listing or the
      CSV file gave. An empty `removed` means still present, an empty
      `waybackUrl` means not archived yet. */
  datatype FileRecord = FileRecord(
    creation: string,
    size: string,
    fullpath: string,
    added: string,
    removed: string,
    waybackUrl: string)

  /** The CSV header, in column order. */
  const FieldNames: seq<string> := ["creation", "size", "fullpath", "added", "removed", "wayback_url"]

  /** A CSV file as its header row and data rows; quoting and bytes are not modelled. */
  datatype CsvTable = CsvTable(header: seq<string>, rows: seq<FileRecord>)

  /** A path-keyed table of records, the `Dict[str, FileRecord]` of both scripts. */
  type Table = map<string, FileRecord>

  /** Every record is stored under its own path. */
  predicate WellKeyed(table: Table) {
    forall p :: p in table ==> table[p].fullpath == p
  }

  /** Tables with the same paths and the same record under each are equal. */
  lemma TableExt(a: Table, b: Table)
    requires a.Keys == b.Keys && forall p :: p in a ==> a[p] == b[p]
    ensures a == b
  {
  }

  /** Python's `value or fallback` on strings (`None` is folded into ""). */
  function OrElse(value: string, fallback: string): string {
    if value == "" then fallback else value
  }

  /** The `FileRecord` constructor: a missing or empty `added` becomes the current
      date, missing `removed` and `wayback_url` become "". */
  function NewRecord(creation: string, size: string, fullpath: string, added: string,
                     removed: string, waybackUrl: string, today: string): (r: FileRecord)
    ensures r.creation == creation && r.size == size && r.fullpath == fullpath
    ensures r.added == (if added == "" then today else added)
    ensures r.removed == removed && r.waybackUrl == waybackUrl
  {
    FileRecord(creation, size, fullpath, OrElse(added, today), OrElse(removed, ""), OrElse(waybackUrl, ""))
  }

  /** The set of paths occurring in a list of records. */
  function Paths(s: seq<FileRecord>): set<string> {
    set r | r in s :: r.fullpath
  }

  predicate DistinctPaths(s: seq<FileRecord>) {
    forall i, j :: 0 <= i < j < |s| ==> s[i].fullpath != s[j].fullpath
  }

  /** `s` holds every record of `table` exactly once, each stored under its own path. */
  predicate Lists(s: seq<FileRecord>, table: Table) {
    && DistinctPaths(s)
    && Paths(s) == table.Keys
    && forall r :: r in s ==> r.fullpath in table && table[r.fullpath] == r
  }

  lemma PathsCons(x: FileRecord, s: seq<FileRecord>)
    ensures Paths([x] + s) == {x.fullpath} + Paths(s)
  {
    assert forall r :: r in [x] + s <==> r == x || r in s;
  }

  lemma DistinctCons(x: FileRecord, s: seq<FileRecord>)
    ensures DistinctPaths([x] + s) <==> x.fullpath !in Paths(s) && DistinctPaths(s)
  {
    var t := [x] + s;
    if DistinctPaths(t) {
      forall r | r in s ensures r.fullpath != x.fullpath {
        var j :| 0 <= j < |s| && s[j] == r;
        assert t[j + 1] == r && t[0] == x;
      }
      assert x.fullpath !in Paths(s);
      forall i, j | 0 <= i < j < |s| ensures s[i].fullpath != s[j].fullpath {
        assert t[i + 1] == s[i] && t[j + 1] == s[j];
      }
    }
    if x.fullpath !in Paths(s) && DistinctPaths(s) {
      forall i, j | 0 <= i < j < |t| ensures t[i].fullpath != t[j].fullpath {
        if i == 0 {
          assert t[j] in s;
        } else {
          assert t[i] == s[i - 1] && t[j] == s[j - 1];
        }
      }
    }
  }

  /** Appending a record for a new path lists the table extended by that record. */
  lemma ListsAppend(s: seq<FileRecord>, table: Table, r: FileRecord)
    requires Lists(s, table) && r.fullpath !in table
    ensures Lists(s + [r], table[r.fullpath := r])
  {
    var t := s + [r];
    assert forall x :: x in t <==> x in s || x == r;
    assert Paths(t) == Paths(s) + {r.fullpath};
    forall i, j | 0 <= i < j < |t| ensures t[i].fullpath != t[j].fullpath {
      if j == |s| {
        assert t[i] in s;
      } else {
        assert t[i] == s[i] && t[j] == s[j];
      }
    }
  }

  /** Two lists of the same table hold the same records. */
  lemma ListsSameMembers(a: seq<FileRecord>, b: seq<FileRecord>, table: Table)
    requires Lists(a, table) && Lists(b, table)
    ensures forall x :: x in a <==> x in b
  {
    forall x | x in a ensures x in b {
      assert x.fullpath in Paths(b);
      var y :| y in b && y.fullpath == x.fullpath;
    }
    forall x | x in b ensures x in a {
      assert x.fullpath in Paths(a);
      var y :| y in a && y.fullpath == x.fullpath;
    }
  }

  /** Dropping the last record of a listing lists the table without its path. */
  lemma ListsDropLast(s: seq<FileRecord>, table: Table)
    requires Lists(s, table) && s != []
    ensures var last := s[|s| - 1];
      Lists(s[..|s| - 1], table - {last.fullpath}) && table == (table - {last.fullpath})[last.fullpath := last]
  {
    var init, last := s[..|s| - 1], s[|s| - 1];
    assert s == init + [last];
    forall r | r in init ensures r.fullpath != last.fullpath {
      var j :| 0 <= j < |init| && init[j] == r;
      assert s[j] == r;
    }
    assert forall r :: r in s <==> r in init || r == last;
    assert Paths(init) == Paths(s) - {last.fullpath};
  }

  /** A list has distinct paths exactly when it has as many paths as records. */
  lemma {:induction false} DistinctByCount(s: seq<FileRecord>)
    ensures |Paths(s)| <= |s|
    ensures DistinctPaths(s) <==> |Paths(s)| == |s|
  {
    if s != [] {
      var x, rest := s[0], s[1..];
      assert s == [x] + rest;
      DistinctByCount(rest);
      PathsCons(x, rest);
      DistinctCons(x, rest);
    }
  }

  /** Two lists of equal length with the same members are path-distinct together. */
  lemma DistinctByMembers(s: seq<FileRecord>, t: seq<FileRecord>)
    requires DistinctPaths(s) && |t| == |s|
    requires forall x :: x in t <==> x in s
    ensures DistinctPaths(t)
  {
    assert Paths(t) == Paths(s);
    DistinctByCount(s);
    DistinctByCount(t);
  }
}
