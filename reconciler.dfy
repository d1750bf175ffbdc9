/**
 * The reconciliation in `sync_files`: the listing snapshot is merged into the
 * table loaded from `all_keys.csv`. Paths seen again keep their history and
 * take the snapshot's creation and size; new paths get a fresh record; outside
 * an initial crawl, paths that have disappeared are kept and marked removed
 * (once). The result is saved sorted by path.
 *
 * The source walks a `set` and a `dict` whose iteration orders are not fixed;
 * the methods below choose each next path arbitrarily, and their contracts hold
 * for every choice. Because `save_csv` sorts, the file written is the same for
 * every order (`TableStore.SaveOrderIrrelevant`).
 */
module Reconciler {
  import opened Wrappers
  import opened Records
  import opened Listing
  import opened TableStore

  /** The `added` value of records created during an initial crawl. */
  const InitialCrawl: string := "initial crawl"

  /** A run is an initial crawl when flagged so or when there is no history. */
  predicate IsInitial(prior: Table, initialCrawl: bool) {
    initialCrawl || |prior| == 0
  }

  /** The `added` value given to records created in this run. */
  function AddedDate(prior: Table, initialCrawl: bool, today: string): string {
    if IsInitial(prior, initialCrawl) then InitialCrawl else today
  }

  /** The record the first loop appends for a snapshot path: the known record
      with the snapshot's creation and size, or a new record. */
  function Refreshed(p: string, snapshot: Snapshot, prior: Table, added: string, today: string): FileRecord
    requires p in snapshot
  {
    if p in prior then prior[p].(creation := snapshot[p].0, size := snapshot[p].1)
    else NewRecord(snapshot[p].0, snapshot[p].1, p, added, "", "", today)
  }

  /** A record of a path that has disappeared: `removed` is set to the date
      only if it was empty. */
  function Retired(r: FileRecord, today: string): FileRecord {
    if r.removed == "" then r.(removed := today) else r
  }

  /** The records the first loop produces for the snapshot paths in `keys`. */
  function Present(snapshot: Snapshot, prior: Table, added: string, today: string, keys: set<string>): Table
    requires keys <= snapshot.Keys
  {
    map p | p in keys :: Refreshed(p, snapshot, prior, added, today)
  }

  /** The records the second loop produces for the known paths in `keys`. */
  function Absent(snapshot: Snapshot, prior: Table, today: string, keys: set<string>): Table
    requires keys <= prior.Keys
  {
    map p | p in keys && p !in snapshot :: Retired(prior[p], today)
  }

  /** The table `sync_files` saves, keyed by path. */
  function Reconciled(snapshot: Snapshot, prior: Table, initialCrawl: bool, today: string): Table {
    var present := Present(snapshot, prior, AddedDate(prior, initialCrawl, today), today, snapshot.Keys);
    if IsInitial(prior, initialCrawl) then present
    else present + Absent(snapshot, prior, today, prior.Keys)
  }

  /** The value of `new_urls`: snapshot paths without a known record. */
  function NewCount(snapshot: Snapshot, prior: Table): nat {
    |snapshot.Keys - prior.Keys|
  }

  /** Known paths that have disappeared and were not yet marked removed. */
  function NewlyRemoved(snapshot: Snapshot, prior: Table): set<string> {
    set p | p in prior && p !in snapshot && prior[p].removed == ""
  }

  /** The value of `removed_urls`. */
  function RemovedCount(snapshot: Snapshot, prior: Table, initialCrawl: bool): nat {
    if IsInitial(prior, initialCrawl) then 0 else |NewlyRemoved(snapshot, prior)|
  }

  /** The two loops of `sync_files` (lines 182-205) over the parsed snapshot and
      the loaded table. */
  method ReconcileRecords(fileData: Snapshot, currentFiles: set<string>, existingRecords: Table,
                          initialCrawl: bool, today: string)
    returns (updated: seq<FileRecord>, newUrls: nat, removedUrls: nat)
    requires currentFiles == fileData.Keys
    requires WellKeyed(existingRecords)
    ensures Lists(updated, Reconciled(fileData, existingRecords, initialCrawl, today))
    ensures newUrls == NewCount(fileData, existingRecords)
    ensures removedUrls == RemovedCount(fileData, existingRecords, initialCrawl)
  {
    var isInitialCrawl := initialCrawl || |existingRecords| == 0;
    var addedDate := if isInitialCrawl then InitialCrawl else today;
    updated, newUrls := ListPresent(fileData, currentFiles, existingRecords, addedDate, today);
    removedUrls := 0;
    ghost var present := Present(fileData, existingRecords, addedDate, today, fileData.Keys);
    if !isInitialCrawl {
      updated, removedUrls := ListAbsent(fileData, currentFiles, existingRecords, today, updated, present);
    }
    Assemble(fileData, existingRecords, initialCrawl, today, present, updated, removedUrls);
  }

  /** The two loops together list the reconciled table. */
  lemma Assemble(fileData: Snapshot, existingRecords: Table, initialCrawl: bool, today: string,
                 present: Table, updated: seq<FileRecord>, removedUrls: nat)
    requires present == Present(fileData, existingRecords, AddedDate(existingRecords, initialCrawl, today),
                                today, fileData.Keys)
    requires IsInitial(existingRecords, initialCrawl) ==> Lists(updated, present) && removedUrls == 0
    requires !IsInitial(existingRecords, initialCrawl) ==>
      RetiredSoFar(fileData, existingRecords, today, present, existingRecords.Keys, updated, removedUrls)
    ensures Lists(updated, Reconciled(fileData, existingRecords, initialCrawl, today))
    ensures removedUrls == RemovedCount(fileData, existingRecords, initialCrawl)
  {
    if !IsInitial(existingRecords, initialCrawl) {
      assert NewlyRemoved(fileData, existingRecords) * existingRecords.Keys == NewlyRemoved(fileData, existingRecords);
    }
  }

  /** The loop over `current_files` (lines 186-197): a known path's record takes
      the snapshot's creation and size, an unknown path gets a new record and
      bumps `new_urls`; either is appended to `updated_records`. */
  method ListPresent(fileData: Snapshot, currentFiles: set<string>, existingRecords: Table,
                     addedDate: string, today: string)
    returns (updated: seq<FileRecord>, newUrls: nat)
    requires currentFiles == fileData.Keys
    requires WellKeyed(existingRecords)
    ensures Lists(updated, Present(fileData, existingRecords, addedDate, today, fileData.Keys))
    ensures newUrls == NewCount(fileData, existingRecords)
  {
    updated, newUrls := [], 0;
    var todo := currentFiles;
    ghost var done: set<string> := {};
    while todo != {}
      invariant todo + done == currentFiles && todo !! done
      invariant Lists(updated, Present(fileData, existingRecords, addedDate, today, done))
      invariant newUrls == |done - existingRecords.Keys|
      decreases |todo|
    {
      var fullpath :| fullpath in todo;
      var (creation, size) := fileData[fullpath];
      var record;
      if fullpath in existingRecords {
        record := existingRecords[fullpath].(creation := creation, size := size);
      } else {
        record := NewRecord(creation, size, fullpath, addedDate, "", "", today);
        newUrls := newUrls + 1;
      }
      NewCountStep(existingRecords, done, fullpath);
      PresentStep(fileData, existingRecords, addedDate, today, updated, done, fullpath, record);
      updated := updated + [record];
      MoveOne(todo, done, fullpath);
      todo, done := todo - {fullpath}, done + {fullpath};
    }
  }

  /** Moving one element from the work set to the finished set keeps their union. */
  lemma MoveOne(todo: set<string>, done: set<string>, p: string)
    requires p in todo && todo !! done
    ensures (todo - {p}) + (done + {p}) == todo + done && (todo - {p}) !! (done + {p})
  {
  }

  lemma NewCountStep(prior: Table, done: set<string>, p: string)
    requires p !in done
    ensures |(done + {p}) - prior.Keys| == |done - prior.Keys| + (if p in prior then 0 else 1)
  {
    if p in prior {
      assert (done + {p}) - prior.Keys == done - prior.Keys;
    } else {
      assert (done + {p}) - prior.Keys == (done - prior.Keys) + {p};
    }
  }

  lemma PresentStep(snapshot: Snapshot, prior: Table, added: string, today: string,
                    s: seq<FileRecord>, done: set<string>, p: string, r: FileRecord)
    requires WellKeyed(prior) && done <= snapshot.Keys && p in snapshot && p !in done
    requires Lists(s, Present(snapshot, prior, added, today, done))
    requires r == Refreshed(p, snapshot, prior, added, today)
    ensures Lists(s + [r], Present(snapshot, prior, added, today, done + {p}))
  {
    var table := Present(snapshot, prior, added, today, done);
    assert r.fullpath == p;
    ListsAppend(s, table, r);
    assert table[p := r] == Present(snapshot, prior, added, today, done + {p});
  }

  /** What the loop over `existing_records` has produced once it has visited
      the known paths in `seen`. */
  ghost predicate RetiredSoFar(fileData: Snapshot, existingRecords: Table, today: string, present: Table,
                               seen: set<string>, updated: seq<FileRecord>, removedUrls: nat)
  {
    && seen <= existingRecords.Keys
    && Lists(updated, present + Absent(fileData, existingRecords, today, seen))
    && removedUrls == |NewlyRemoved(fileData, existingRecords) * seen|
  }

  /** The loop over `existing_records` outside an initial crawl (lines 199-205):
      a known path missing from the snapshot has an empty `removed` set to
      `today`, bumping `removed_urls`, and is appended either way. */
  method ListAbsent(fileData: Snapshot, currentFiles: set<string>, existingRecords: Table, today: string,
                    updated0: seq<FileRecord>, ghost present: Table)
    returns (updated: seq<FileRecord>, removedUrls: nat)
    requires currentFiles == fileData.Keys
    requires WellKeyed(existingRecords)
    requires Lists(updated0, present) && present.Keys == fileData.Keys
    ensures RetiredSoFar(fileData, existingRecords, today, present, existingRecords.Keys, updated, removedUrls)
  {
    updated, removedUrls := updated0, 0;
    var rest := existingRecords.Keys;
    ghost var seen: set<string> := {};
    AbsentNone(fileData, existingRecords, today, present);
    while rest != {}
      invariant rest + seen == existingRecords.Keys && rest !! seen
      invariant RetiredSoFar(fileData, existingRecords, today, present, seen, updated, removedUrls)
      decreases |rest|
    {
      var fullpath :| fullpath in rest;
      updated, removedUrls := RetireOne(fileData, currentFiles, existingRecords, today, present, seen,
                                        fullpath, updated, removedUrls);
      MoveOne(rest, seen, fullpath);
      rest, seen := rest - {fullpath}, seen + {fullpath};
    }
    assert seen == existingRecords.Keys;
  }

  /** One pass of that loop, for the known path `fullpath`. */
  method RetireOne(fileData: Snapshot, currentFiles: set<string>, existingRecords: Table, today: string,
                   ghost present: Table, ghost seen: set<string>, fullpath: string,
                   updated0: seq<FileRecord>, removedUrls0: nat)
    returns (updated: seq<FileRecord>, removedUrls: nat)
    requires currentFiles == fileData.Keys && present.Keys == fileData.Keys && WellKeyed(existingRecords)
    requires fullpath in existingRecords && fullpath !in seen
    requires RetiredSoFar(fileData, existingRecords, today, present, seen, updated0, removedUrls0)
    ensures RetiredSoFar(fileData, existingRecords, today, present, seen + {fullpath}, updated, removedUrls)
  {
    updated, removedUrls := updated0, removedUrls0;
    var record := existingRecords[fullpath];
    if fullpath !in currentFiles {
      if record.removed == "" {
        record := record.(removed := today);
        removedUrls := removedUrls + 1;
      }
      AbsentStep(fileData, existingRecords, today, updated, present, seen, fullpath, record);
      updated := updated + [record];
    } else {
      AbsentSkip(fileData, existingRecords, today, seen, fullpath);
    }
    RemovedStep(fileData, existingRecords, seen, fullpath);
  }

  lemma AbsentNone(snapshot: Snapshot, prior: Table, today: string, present: Table)
    ensures present + Absent(snapshot, prior, today, {}) == present
  {
    assert Absent(snapshot, prior, today, {}) == map[];
  }

  lemma AbsentSkip(snapshot: Snapshot, prior: Table, today: string, seen: set<string>, p: string)
    requires seen <= prior.Keys && p in prior && p in snapshot
    ensures Absent(snapshot, prior, today, seen + {p}) == Absent(snapshot, prior, today, seen)
  {
    var a, b := Absent(snapshot, prior, today, seen + {p}), Absent(snapshot, prior, today, seen);
    assert a.Keys == b.Keys;
  }

  lemma AbsentAdd(snapshot: Snapshot, prior: Table, today: string, seen: set<string>, p: string)
    requires seen <= prior.Keys && p in prior && p !in snapshot
    ensures Absent(snapshot, prior, today, seen + {p}) == Absent(snapshot, prior, today, seen)[p := Retired(prior[p], today)]
  {
    var a, b := Absent(snapshot, prior, today, seen + {p}), Absent(snapshot, prior, today, seen)[p := Retired(prior[p], today)];
    assert a.Keys == b.Keys;
  }

  lemma AbsentStep(snapshot: Snapshot, prior: Table, today: string, s: seq<FileRecord>,
                   present: Table, seen: set<string>, p: string, r: FileRecord)
    requires WellKeyed(prior) && seen <= prior.Keys && p in prior && p !in seen && p !in snapshot
    requires present.Keys == snapshot.Keys
    requires Lists(s, present + Absent(snapshot, prior, today, seen))
    requires r == Retired(prior[p], today)
    ensures Lists(s + [r], present + Absent(snapshot, prior, today, seen + {p}))
  {
    var absent := Absent(snapshot, prior, today, seen);
    var table := present + absent;
    assert r.fullpath == p;
    ListsAppend(s, table, r);
    AbsentAdd(snapshot, prior, today, seen, p);
    MergeUpdate(present, absent, p, r);
  }

  lemma MergeUpdate(a: Table, b: Table, p: string, r: FileRecord)
    requires p !in a
    ensures (a + b)[p := r] == a + b[p := r]
  {
    var x, y := (a + b)[p := r], a + b[p := r];
    assert x.Keys == y.Keys;
  }

  lemma RemovedStep(snapshot: Snapshot, prior: Table, seen: set<string>, p: string)
    requires p in prior && p !in seen
    ensures |NewlyRemoved(snapshot, prior) * (seen + {p})| ==
      |NewlyRemoved(snapshot, prior) * seen| + (if p !in snapshot && prior[p].removed == "" then 1 else 0)
  {
    var gone := NewlyRemoved(snapshot, prior);
    if p !in snapshot && prior[p].removed == "" {
      assert gone * (seen + {p}) == (gone * seen) + {p};
    } else {
      assert gone * (seen + {p}) == gone * seen;
    }
  }

  /** `sync_files` from the listing lines to the saved file: parse the listing,
      load the table (absent file: `None`), reconcile, save. Returns the file
      written and the two counters of `sync_stats.txt`. */
  method SyncFiles(lines: seq<string>, existingFile: Option<CsvTable>, initialCrawl: bool, today: string)
    returns (saved: CsvTable, newUrls: nat, removedUrls: nat)
    ensures var prior := Loaded(existingFile, today);
      && saved == SaveCsv(saved.rows)
      && Lists(saved.rows, Reconciled(SnapshotOf(lines), prior, initialCrawl, today))
      && newUrls == NewCount(SnapshotOf(lines), prior)
      && removedUrls == RemovedCount(SnapshotOf(lines), prior, initialCrawl)
  {
    var fileData, currentFiles := ParseListing(lines);
    var existingRecords := LoadExistingCsv(existingFile, today);
    TableOfWellKeyedLoaded(existingFile, today);
    var updated;
    updated, newUrls, removedUrls := ReconcileRecords(fileData, currentFiles, existingRecords, initialCrawl, today);
    saved := SaveCsv(updated);
    ListsSorted(updated, Reconciled(fileData, existingRecords, initialCrawl, today));
    SaveCsvCanonical(SortByPath(updated), SortByPath(updated));
  }

  lemma TableOfWellKeyedLoaded(file: Option<CsvTable>, today: string)
    ensures WellKeyed(Loaded(file, today))
  {
    if file.Some? {
      TableOfWellKeyed(file.value.rows, today);
    }
  }

  // ---------------------------------------------------------------------------
  // What the reconciled table holds.
  // ---------------------------------------------------------------------------

  /** The saved paths are the snapshot's, plus the known ones outside an
      initial crawl: no record is ever dropped except in an initial crawl. */
  lemma ReconciledKeys(snapshot: Snapshot, prior: Table, initialCrawl: bool, today: string)
    ensures Reconciled(snapshot, prior, initialCrawl, today).Keys ==
      if IsInitial(prior, initialCrawl) then snapshot.Keys else snapshot.Keys + prior.Keys
  {
  }

  /** A path both known and listed keeps `added`, `removed` and `wayback_url`
      and takes creation and size from the snapshot. */
  lemma ReconciledKnown(snapshot: Snapshot, prior: Table, initialCrawl: bool, today: string, p: string)
    requires WellKeyed(prior) && p in snapshot && p in prior
    ensures var r, was := Reconciled(snapshot, prior, initialCrawl, today)[p], prior[p];
      && r.fullpath == p && r.creation == snapshot[p].0 && r.size == snapshot[p].1
      && r.added == was.added && r.removed == was.removed && r.waybackUrl == was.waybackUrl
  {
  }

  /** A listed path without a known record gets a new record dated "initial
      crawl" in an initial crawl and `today` otherwise, not removed and not
      archived. */
  lemma ReconciledNew(snapshot: Snapshot, prior: Table, initialCrawl: bool, today: string, p: string)
    requires p in snapshot && p !in prior
    ensures var r := Reconciled(snapshot, prior, initialCrawl, today)[p];
      && r.fullpath == p && r.creation == snapshot[p].0 && r.size == snapshot[p].1
      && r.added == (if initialCrawl || |prior| == 0 then "initial crawl" else today)
      && r.removed == "" && r.waybackUrl == ""
  {
  }

  /** Outside an initial crawl, a known path missing from the snapshot is kept
      unchanged except that an empty `removed` becomes `today`. */
  lemma ReconciledGone(snapshot: Snapshot, prior: Table, initialCrawl: bool, today: string, p: string)
    requires !IsInitial(prior, initialCrawl) && p in prior && p !in snapshot
    ensures p in Reconciled(snapshot, prior, initialCrawl, today)
    ensures var r, was := Reconciled(snapshot, prior, initialCrawl, today)[p], prior[p];
      && r == was.(removed := r.removed)
      && r.removed == (if was.removed == "" then today else was.removed)
  {
  }

  /** A set `removed` is never cleared or overwritten, even when the path is
      listed again. */
  lemma RemovedNeverCleared(snapshot: Snapshot, prior: Table, initialCrawl: bool, today: string, p: string)
    requires p in prior && prior[p].removed != ""
    requires p in Reconciled(snapshot, prior, initialCrawl, today)
    ensures Reconciled(snapshot, prior, initialCrawl, today)[p].removed == prior[p].removed
  {
  }

  /** An initial crawl marks nothing removed: every saved `removed` is the one
      loaded, or empty for a new path. */
  lemma InitialCrawlNeverRemoves(snapshot: Snapshot, prior: Table, initialCrawl: bool, today: string)
    requires IsInitial(prior, initialCrawl)
    ensures forall p :: p in Reconciled(snapshot, prior, initialCrawl, today) ==>
      Reconciled(snapshot, prior, initialCrawl, today)[p].removed == (if p in prior then prior[p].removed else "")
    ensures RemovedCount(snapshot, prior, initialCrawl) == 0
  {
  }

  /** `added` is never changed for a known path. */
  lemma AddedKept(snapshot: Snapshot, prior: Table, initialCrawl: bool, today: string, p: string)
    requires p in prior && p in Reconciled(snapshot, prior, initialCrawl, today)
    ensures Reconciled(snapshot, prior, initialCrawl, today)[p].added == prior[p].added
  {
  }

  /** `new_urls` counts exactly the saved records whose path was not known. */
  lemma NewCountMeaning(snapshot: Snapshot, prior: Table, initialCrawl: bool, today: string)
    ensures var table := Reconciled(snapshot, prior, initialCrawl, today);
      NewCount(snapshot, prior) == |set p | p in table && p !in prior|
  {
    var table := Reconciled(snapshot, prior, initialCrawl, today);
    assert (set p | p in table && p !in prior) == snapshot.Keys - prior.Keys;
  }

  /** With a non-empty date, `removed_urls` counts exactly the saved records
      whose `removed` went from empty to set. */
  lemma RemovedCountMeaning(snapshot: Snapshot, prior: Table, initialCrawl: bool, today: string)
    requires today != ""
    ensures var table := Reconciled(snapshot, prior, initialCrawl, today);
      RemovedCount(snapshot, prior, initialCrawl) ==
        |set p | p in table && p in prior && prior[p].removed == "" && table[p].removed != ""|
  {
    var table := Reconciled(snapshot, prior, initialCrawl, today);
    var changed := set p | p in table && p in prior && prior[p].removed == "" && table[p].removed != "";
    if IsInitial(prior, initialCrawl) {
      assert changed == {};
    } else {
      assert changed == NewlyRemoved(snapshot, prior);
    }
  }

  /** A second run with the same snapshot on the table the first run produced,
      not flagged as an initial crawl and on any later date, changes nothing and
      counts nothing. */
  lemma ReconcileIdempotent(snapshot: Snapshot, prior: Table, initialCrawl: bool, today: string, today2: string)
    requires WellKeyed(prior) && today != ""
    ensures var table := Reconciled(snapshot, prior, initialCrawl, today);
      && Reconciled(snapshot, table, false, today2) == table
      && NewCount(snapshot, table) == 0
      && RemovedCount(snapshot, table, false) == 0
  {
    var table := Reconciled(snapshot, prior, initialCrawl, today);
    ReconciledKeys(snapshot, prior, initialCrawl, today);
    assert snapshot.Keys - table.Keys == {};
    if |table| == 0 {
      assert snapshot.Keys == {};
      EmptyReconciled(snapshot, table, today2);
    } else {
      NothingNewlyRemoved(snapshot, prior, initialCrawl, today);
      SameTableAgain(snapshot, prior, initialCrawl, today, today2);
    }
  }

  lemma EmptyReconciled(snapshot: Snapshot, table: Table, today: string)
    requires snapshot.Keys == {} && table == map[]
    ensures Reconciled(snapshot, table, false, today) == table
  {
    assert Reconciled(snapshot, table, false, today).Keys == {};
  }

  /** After one run, outside an initial crawl, every unlisted path is already
      marked removed. */
  lemma NothingNewlyRemoved(snapshot: Snapshot, prior: Table, initialCrawl: bool, today: string)
    requires WellKeyed(prior) && today != ""
    ensures NewlyRemoved(snapshot, Reconciled(snapshot, prior, initialCrawl, today)) == {}
  {
    var table := Reconciled(snapshot, prior, initialCrawl, today);
    forall p | p in table && p !in snapshot ensures table[p].removed != "" {
      ReconciledGone(snapshot, prior, initialCrawl, today, p);
    }
  }

  lemma SameTableAgain(snapshot: Snapshot, prior: Table, initialCrawl: bool, today: string, today2: string)
    requires WellKeyed(prior) && today != ""
    requires |Reconciled(snapshot, prior, initialCrawl, today)| != 0
    ensures var table := Reconciled(snapshot, prior, initialCrawl, today);
      Reconciled(snapshot, table, false, today2) == table
  {
    var table := Reconciled(snapshot, prior, initialCrawl, today);
    var again := Reconciled(snapshot, table, false, today2);
    ReconciledKeys(snapshot, prior, initialCrawl, today);
    ReconciledKeys(snapshot, table, false, today2);
    assert again.Keys == table.Keys;
    forall p | p in table ensures again[p] == table[p] {
      RefreshStable(snapshot, prior, initialCrawl, today, today2, p);
    }
    TableExt(again, table);
  }

  /** One path of the idempotence argument: reconciling its reconciled record
      again, on any date, gives the same record. */
  lemma RefreshStable(snapshot: Snapshot, prior: Table, initialCrawl: bool, today: string, today2: string, p: string)
    requires WellKeyed(prior) && today != ""
    requires p in Reconciled(snapshot, prior, initialCrawl, today)
    requires |Reconciled(snapshot, prior, initialCrawl, today)| != 0
    ensures var table := Reconciled(snapshot, prior, initialCrawl, today);
      p in Reconciled(snapshot, table, false, today2) && Reconciled(snapshot, table, false, today2)[p] == table[p]
  {
    var table := Reconciled(snapshot, prior, initialCrawl, today);
    ReconciledKeys(snapshot, table, false, today2);
    if p !in snapshot {
      ReconciledGone(snapshot, prior, initialCrawl, today, p);
    }
  }

  /** Running the whole sync twice on the same listing, the second time on the
      file the first run saved, without the initial-crawl flag and on any later
      date, writes the same file again and reports no new and no removed paths. */
  lemma SyncIdempotent(lines: seq<string>, existingFile: Option<CsvTable>, initialCrawl: bool,
                       today: string, today2: string, first: CsvTable, second: CsvTable)
    requires today != ""
    requires var prior := Loaded(existingFile, today);
      first == SaveCsv(first.rows) && Lists(first.rows, Reconciled(SnapshotOf(lines), prior, initialCrawl, today))
    requires var prior := Loaded(Some(first), today2);
      second == SaveCsv(second.rows) && Lists(second.rows, Reconciled(SnapshotOf(lines), prior, false, today2))
    ensures second == first
    ensures NewCount(SnapshotOf(lines), Loaded(Some(first), today2)) == 0
    ensures RemovedCount(SnapshotOf(lines), Loaded(Some(first), today2), false) == 0
  {
    var snapshot := SnapshotOf(lines);
    var prior := Loaded(existingFile, today);
    TableOfWellKeyedLoaded(existingFile, today);
    var table := Reconciled(snapshot, prior, initialCrawl, today);
    AddedNonEmpty(snapshot, prior, initialCrawl, today, existingFile);
    TableOfListing(first.rows, table, today2);
    ReconcileIdempotent(snapshot, prior, initialCrawl, today, today2);
    SortedListingUnique(first.rows, second.rows) by {
      ListsSameMembers(first.rows, second.rows, table);
      assert SortedByPath(SaveCsv(first.rows).rows);
    }
  }

  /** With a non-empty date, no saved record has an empty `added`. */
  lemma AddedNonEmpty(snapshot: Snapshot, prior: Table, initialCrawl: bool, today: string,
                      existingFile: Option<CsvTable>)
    requires today != "" && prior == Loaded(existingFile, today)
    ensures forall p :: p in Reconciled(snapshot, prior, initialCrawl, today) ==>
      Reconciled(snapshot, prior, initialCrawl, today)[p].added != ""
  {
    if existingFile.Some? {
      TableOfWellKeyed(existingFile.value.rows, today);
    }
  }

  // ---------------------------------------------------------------------------
  // Scenarios.
  // ---------------------------------------------------------------------------

  /** First run on an empty table: one listed file gives one record dated
      "initial crawl", not removed. */
  lemma FirstRunScenario(today: string)
    ensures var snapshot: Snapshot, prior: Table := map["a/b/file1.bin" := ("t1", "100")], map[];
      var table := Reconciled(snapshot, prior, false, today);
      && table.Keys == {"a/b/file1.bin"}
      && table["a/b/file1.bin"] == FileRecord("t1", "100", "a/b/file1.bin", "initial crawl", "", "")
      && NewCount(snapshot, prior) == 1
  {
    var snapshot: Snapshot, prior: Table := map["a/b/file1.bin" := ("t1", "100")], map[];
    assert snapshot.Keys - prior.Keys == {"a/b/file1.bin"};
  }

  /** A known path omitted from the listing on a normal run is marked removed
      with the run's date and keeps its `added`. */
  lemma DisappearedScenario(x: FileRecord)
    requires x.removed == ""
    ensures var snapshot: Snapshot, prior := map[], map[x.fullpath := x];
      var table := Reconciled(snapshot, prior, false, "2024-01-01");
      && table == map[x.fullpath := x.(removed := "2024-01-01")]
      && RemovedCount(snapshot, prior, false) == 1
  {
    var snapshot: Snapshot, prior := map[], map[x.fullpath := x];
    assert NewlyRemoved(snapshot, prior) == {x.fullpath};
  }
}
