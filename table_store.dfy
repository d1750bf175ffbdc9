/**
 * The inventory file `all_keys.csv`: `load_existing_csv` reads it into a table
 * keyed by path, and `save_csv` writes a header naming the six fields and then
 * the records sorted by path.
 */
module TableStore {
  import opened Wrappers
  import opened Strings
  import opened Records

  /** A row read back into a record: the constructor's defaults fill an empty
      `added` with the current date and leave the other fields as read. */
  function LoadRecord(row: FileRecord, today: string): (r: FileRecord)
    ensures r.fullpath == row.fullpath && r.creation == row.creation && r.size == row.size
    ensures r.removed == row.removed && r.waybackUrl == row.waybackUrl
    ensures r.added == (if row.added == "" then today else row.added)
  {
    NewRecord(row.creation, row.size, row.fullpath, row.added, row.removed, row.waybackUrl, today)
  }

  /** The table built from the rows in order, each row stored under its path,
      later rows overwriting earlier ones. */
  function TableOf(rows: seq<FileRecord>, today: string): Table {
    if rows == [] then map[]
    else
      var row := rows[|rows| - 1];
      TableOf(rows[..|rows| - 1], today)[row.fullpath := LoadRecord(row, today)]
  }

  /** What `load_existing_csv` returns: nothing for a missing file. */
  function Loaded(file: Option<CsvTable>, today: string): Table {
    match file
    case None => map[]
    case Some(csv) => TableOf(csv.rows, today)
  }

  /** `load_existing_csv`: read the rows one by one into a dict keyed by path. */
  method LoadExistingCsv(file: Option<CsvTable>, today: string) returns (records: Table)
    ensures records == Loaded(file, today)
  {
    records := map[];
    if file.None? {
      return;
    }
    var rows := file.value.rows;
    for i := 0 to |rows|
      invariant records == TableOf(rows[..i], today)
    {
      assert rows[..i + 1][..i] == rows[..i];
      var row := rows[i];
      records := records[row.fullpath := LoadRecord(row, today)];
    }
    assert rows[..|rows|] == rows;
  }

  /** The loaded paths are exactly the paths of the rows. */
  lemma {:induction false} TableOfKeys(rows: seq<FileRecord>, today: string)
    ensures TableOf(rows, today).Keys == Paths(rows)
  {
    if rows != [] {
      var init := rows[..|rows| - 1];
      TableOfKeys(init, today);
      assert rows == init + [rows[|rows| - 1]];
      assert forall r :: r in rows <==> r in init || r == rows[|rows| - 1];
    }
  }

  /** A path is loaded from the last row that carries it. */
  lemma {:induction false} TableOfLastWins(rows: seq<FileRecord>, today: string, i: nat)
    requires i < |rows|
    requires forall j :: i < j < |rows| ==> rows[j].fullpath != rows[i].fullpath
    ensures rows[i].fullpath in TableOf(rows, today)
    ensures TableOf(rows, today)[rows[i].fullpath] == LoadRecord(rows[i], today)
  {
    var init := rows[..|rows| - 1];
    if i < |rows| - 1 {
      forall j | i < j < |init| ensures init[j].fullpath != init[i].fullpath {
        assert init[j] == rows[j];
      }
      TableOfLastWins(init, today, i);
    }
  }

  /** A loaded table is well keyed, and with a non-empty date no record has an
      empty `added`. */
  lemma {:induction false} TableOfWellKeyed(rows: seq<FileRecord>, today: string)
    ensures WellKeyed(TableOf(rows, today))
    ensures today != "" ==> forall p :: p in TableOf(rows, today) ==> TableOf(rows, today)[p].added != ""
  {
    if rows != [] {
      TableOfWellKeyed(rows[..|rows| - 1], today);
    }
  }

  /** Python's `sorted(records, key=lambda r: r.fullpath)` is ascending by path. */
  predicate SortedByPath(s: seq<FileRecord>) {
    forall i, j :: 0 <= i < j < |s| ==> LexLe(s[i].fullpath, s[j].fullpath)
  }

  /** Every record of `s` has a path at least `p`. */
  predicate AllAtLeast(p: string, s: seq<FileRecord>) {
    forall r :: r in s ==> LexLe(p, r.fullpath)
  }

  lemma SortedCons(x: FileRecord, s: seq<FileRecord>)
    requires AllAtLeast(x.fullpath, s) && SortedByPath(s)
    ensures SortedByPath([x] + s)
  {
    var t := [x] + s;
    forall i, j | 0 <= i < j < |t| ensures LexLe(t[i].fullpath, t[j].fullpath) {
      if i == 0 {
        assert t[j] in s;
      } else {
        assert t[i] == s[i - 1] && t[j] == s[j - 1];
      }
    }
  }

  /** Insert one record into a sorted list in front of the first record whose
      path is not smaller. */
  function Insert(x: FileRecord, s: seq<FileRecord>): (r: seq<FileRecord>)
    requires SortedByPath(s)
    ensures SortedByPath(r)
    ensures multiset(r) == multiset(s) + multiset{x}
  {
    if s == [] then [x]
    else if LexLe(x.fullpath, s[0].fullpath) then
      assert AllAtLeast(x.fullpath, s) by {
        forall y | y in s ensures LexLe(x.fullpath, y.fullpath) {
          var j :| 0 <= j < |s| && s[j] == y;
          if j > 0 {
            LexLeTransitive(x.fullpath, s[0].fullpath, y.fullpath);
          }
        }
      }
      SortedCons(x, s);
      [x] + s
    else
      LexLeTotal(x.fullpath, s[0].fullpath);
      var head, tail := s[0], s[1..];
      assert s == [head] + tail;
      SortedTail(s);
      var rest := Insert(x, tail);
      assert AllAtLeast(head.fullpath, rest) by {
        forall y | y in rest ensures LexLe(head.fullpath, y.fullpath) {
          assert y in multiset(rest);
          if y != x {
            assert y in multiset(tail);
            var j :| 0 <= j < |tail| && tail[j] == y;
            assert s[j + 1] == y;
          }
        }
      }
      SortedCons(head, rest);
      [head] + rest
  }

  lemma SortedTail(s: seq<FileRecord>)
    requires SortedByPath(s) && s != []
    ensures SortedByPath(s[1..])
  {
    var tail := s[1..];
    forall i, j | 0 <= i < j < |tail| ensures LexLe(tail[i].fullpath, tail[j].fullpath) {
      assert tail[i] == s[i + 1] && tail[j] == s[j + 1];
    }
  }

  /** An insertion sort by path: sorted and a permutation of its input. */
  function SortByPath(s: seq<FileRecord>): (r: seq<FileRecord>)
    ensures SortedByPath(r)
    ensures multiset(r) == multiset(s)
  {
    if s == [] then []
    else
      assert s == [s[0]] + s[1..];
      Insert(s[0], SortByPath(s[1..]))
  }

  /** Lists that are permutations of each other have the same members. */
  lemma SameMembers(a: seq<FileRecord>, b: seq<FileRecord>)
    requires multiset(a) == multiset(b)
    ensures |a| == |b|
    ensures forall x :: x in a <==> x in b
  {
    assert |a| == |multiset(a)| == |multiset(b)| == |b|;
    forall x ensures x in a <==> x in b {
      assert x in a <==> x in multiset(a);
      assert x in b <==> x in multiset(b);
    }
  }

  /** `save_csv`: the fixed header, then every record once, ascending by path. */
  function SaveCsv(records: seq<FileRecord>): (csv: CsvTable)
    ensures csv.header == FieldNames
    ensures SortedByPath(csv.rows) && multiset(csv.rows) == multiset(records)
  {
    CsvTable(FieldNames, SortByPath(records))
  }

  /** Sorting a listing of a table lists the same table. */
  lemma ListsSorted(s: seq<FileRecord>, table: Table)
    requires Lists(s, table)
    ensures Lists(SortByPath(s), table)
  {
    SameMembers(SortByPath(s), s);
    DistinctByMembers(s, SortByPath(s));
    assert Paths(SortByPath(s)) == Paths(s);
  }

  /** Two sorted path-distinct lists with the same members are the same
      sequence: such a list has one sorted order only. */
  lemma {:induction false} SortedListingUnique(a: seq<FileRecord>, b: seq<FileRecord>)
    requires SortedByPath(a) && SortedByPath(b) && DistinctPaths(a) && DistinctPaths(b)
    requires forall x :: x in a <==> x in b
    ensures a == b
  {
    if a != [] { assert a[0] in b; }
    if b != [] { assert b[0] in a; }
    if a != [] && b != [] {
      var i :| 0 <= i < |b| && b[i] == a[0];
      var j :| 0 <= j < |a| && a[j] == b[0];
      LexLeReflexive(a[0].fullpath);
      assert LexLe(b[0].fullpath, a[0].fullpath) by {
        if i > 0 { assert LexLe(b[0].fullpath, b[i].fullpath); }
      }
      assert LexLe(a[0].fullpath, b[0].fullpath) by {
        if j > 0 { assert LexLe(a[0].fullpath, a[j].fullpath); }
      }
      LexLeAntisymmetric(a[0].fullpath, b[0].fullpath);
      assert j == 0;
      var ta, tb := a[1..], b[1..];
      assert a == [a[0]] + ta && b == [b[0]] + tb;
      DistinctCons(a[0], ta);
      DistinctCons(b[0], tb);
      forall x | x in ta ensures x in tb {
        assert x.fullpath in Paths(ta);
        assert x != b[0] && x in b;
      }
      forall x | x in tb ensures x in ta {
        assert x.fullpath in Paths(tb);
        assert x != a[0] && x in a;
      }
      SortedTail(a);
      SortedTail(b);
      SortedListingUnique(ta, tb);
    }
  }

  /** The saved file depends only on the table listed, not on the order in
      which the records were gathered. */
  lemma SaveOrderIrrelevant(a: seq<FileRecord>, b: seq<FileRecord>, table: Table)
    requires Lists(a, table) && Lists(b, table)
    ensures SaveCsv(a) == SaveCsv(b)
  {
    ListsSorted(a, table);
    ListsSorted(b, table);
    ListsSameMembers(SortByPath(a), SortByPath(b), table);
    SortedListingUnique(SortByPath(a), SortByPath(b));
  }

  /** Any sorted permutation of a path-distinct list, whatever sort produced it,
      is the one `SaveCsv` writes. */
  lemma SaveCsvCanonical(records: seq<FileRecord>, sorted: seq<FileRecord>)
    requires DistinctPaths(records)
    requires SortedByPath(sorted) && multiset(sorted) == multiset(records)
    ensures SaveCsv(records).rows == sorted
  {
    SameMembers(sorted, records);
    SameMembers(SortByPath(records), records);
    DistinctByMembers(records, sorted);
    DistinctByMembers(records, SortByPath(records));
    SortedListingUnique(SortByPath(records), sorted);
  }

  /** Loading a saved listing gives back the table it lists, provided no record
      has an empty `added` (which loading would replace by the date). */
  lemma SaveLoadRoundTrip(records: seq<FileRecord>, table: Table, today: string)
    requires Lists(records, table)
    requires forall r :: r in records ==> r.added != ""
    ensures Loaded(Some(SaveCsv(records)), today) == table
  {
    ListsSorted(records, table);
    TableOfListing(SortByPath(records), table, today);
  }

  lemma {:induction false} TableOfListing(rows: seq<FileRecord>, table: Table, today: string)
    requires Lists(rows, table)
    requires forall r :: r in rows ==> r.added != ""
    ensures TableOf(rows, today) == table
  {
    if rows == [] {
      assert table.Keys == Paths(rows) == {};
    } else {
      var init, last := rows[..|rows| - 1], rows[|rows| - 1];
      ListsDropLast(rows, table);
      TableOfListing(init, table - {last.fullpath}, today);
      assert LoadRecord(last, today) == last;
    }
  }
}
