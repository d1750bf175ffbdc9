/**
 * The archiving job of `archive_files.py`: walk the loaded rows in file order,
 * submit every row that is neither archived nor removed to the Wayback Machine's
 * save endpoint, store the archived location in the row, and rewrite the file
 * after every success and once at the end.
 *
 * The network is an oracle: `outcomes[i]` is what submitting row `i` would give.
 * The clock is an oracle too: `overTime[i]` says whether the time budget is
 * exhausted when the loop reaches row `i`.
 */
module Archive {
  import opened Records

  /** What submitting one row gives: a response (its `Content-Location` header,
      "" when absent or empty, and its final URL), HTTP 429, or any other HTTP
      or network error. */
  datatype Outcome = Archived(contentLocation: string, finalUrl: string) | RateLimited | Failed

  /** The three counters of `archive_stats.txt`. */
  datatype Stats = Stats(newArchives: nat, alreadyArchived: nat, failed: nat)

  const WaybackHost: string := "https://web.archive.org"
  const SaveEndpoint: string := "https://web.archive.org/save/"
  const DownloadHost: string := "http://download.tplinkcloud.com/"

  /** The `save_url` string built for a row's path. */
  function SaveUrl(fullpath: string): string {
    SaveEndpoint + DownloadHost + fullpath
  }

  /** The `save_url` string is the save endpoint, the download host, then the
      path verbatim; so distinct paths give distinct strings. */
  lemma SaveUrlShape(a: string, b: string)
    ensures var prefix := SaveEndpoint + DownloadHost;
      SaveUrl(a)[..|prefix|] == prefix && SaveUrl(a)[|prefix|..] == a
    ensures SaveUrl(a) == SaveUrl(b) ==> a == b
  {
    var prefix := SaveEndpoint + DownloadHost;
    assert SaveUrl(a)[|prefix|..] == a;
    assert SaveUrl(b)[|prefix|..] == b;
  }

  /** The value stored in `wayback_url` after a successful submission. */
  function StoredUrl(contentLocation: string, finalUrl: string): string {
    if contentLocation != "" then WaybackHost + contentLocation else finalUrl
  }

  /** A row the job submits: not archived yet and not removed. */
  predicate Pending(r: FileRecord) {
    r.waybackUrl == "" && r.removed == ""
  }

  /** The loop stops before the first row at which the budget is exhausted. */
  function StopIndex(overTime: seq<bool>): (n: nat)
    ensures n <= |overTime|
    ensures forall i :: 0 <= i < n ==> !overTime[i]
    ensures n == |overTime| || overTime[n]
  {
    if overTime == [] || overTime[0] then 0 else 1 + StopIndex(overTime[1..])
  }

  /** A row after the loop has visited it. */
  function Visit(r: FileRecord, o: Outcome): FileRecord {
    if Pending(r) && o.Archived? then r.(waybackUrl := StoredUrl(o.contentLocation, o.finalUrl)) else r
  }

  /** The rows once the loop has visited the first `n`. */
  function ArchivedRows(rows: seq<FileRecord>, outcomes: seq<Outcome>, n: nat): (out: seq<FileRecord>)
    requires |outcomes| == |rows| && n <= |rows|
    ensures |out| == |rows|
  {
    seq(|rows|, j requires 0 <= j < |rows| => if j < n then Visit(rows[j], outcomes[j]) else rows[j])
  }

  /** Only `wayback_url` ever changes, only for a visited pending row with a
      response, and then to the stored location; later rows are untouched. */
  lemma ArchivedRowsMeaning(rows: seq<FileRecord>, outcomes: seq<Outcome>, n: nat, j: nat)
    requires |outcomes| == |rows| && n <= |rows| && j < |rows|
    ensures var out := ArchivedRows(rows, outcomes, n);
      && out[j] == rows[j].(waybackUrl := out[j].waybackUrl)
      && (n <= j ==> out[j] == rows[j])
      && (out[j] != rows[j] ==> j < n && Pending(rows[j]) && outcomes[j].Archived?)
      && (j < n && Pending(rows[j]) && outcomes[j].Archived? ==>
          out[j].waybackUrl == StoredUrl(outcomes[j].contentLocation, outcomes[j].finalUrl))
  {
  }

  /** `archived`: visited pending rows with a response. */
  function SuccessCount(rows: seq<FileRecord>, outcomes: seq<Outcome>, n: nat): nat
    requires |outcomes| == |rows| && n <= |rows|
  {
    if n == 0 then 0
    else SuccessCount(rows, outcomes, n - 1) + (if Pending(rows[n - 1]) && outcomes[n - 1].Archived? then 1 else 0)
  }

  /** `skipped`: visited rows that already had a `wayback_url`. */
  function SkipCount(rows: seq<FileRecord>, n: nat): nat
    requires n <= |rows|
  {
    if n == 0 then 0 else SkipCount(rows, n - 1) + (if rows[n - 1].waybackUrl != "" then 1 else 0)
  }

  /** The submission attempts made while visiting the first `n` rows, in order. */
  function Requests(rows: seq<FileRecord>, n: nat): seq<string>
    requires n <= |rows|
  {
    if n == 0 then [] else Requests(rows, n - 1) + (if Pending(rows[n - 1]) then [SaveUrl(rows[n - 1].fullpath)] else [])
  }

  /** The files written after each success among the first `n` rows: the whole
      row list, in its loaded order, as it stood right after that success. */
  function Checkpoints(rows: seq<FileRecord>, outcomes: seq<Outcome>, n: nat): seq<CsvTable>
    requires |outcomes| == |rows| && n <= |rows|
  {
    if n == 0 then []
    else
      Checkpoints(rows, outcomes, n - 1)
      + (if Pending(rows[n - 1]) && outcomes[n - 1].Archived?
         then [CsvTable(FieldNames, ArchivedRows(rows, outcomes, n))] else [])
  }

  /** The loop's state after visiting the first `i` rows. */
  ghost predicate Progress(current: seq<FileRecord>, rows: seq<FileRecord>, outcomes: seq<Outcome>, i: nat,
                           archived: nat, skipped: nat, requests: seq<string>, writes: seq<CsvTable>)
  {
    && |outcomes| == |rows| && i <= |rows|
    && current == ArchivedRows(rows, outcomes, i)
    && archived == SuccessCount(rows, outcomes, i) && skipped == SkipCount(rows, i)
    && requests == Requests(rows, i)
    && writes == Checkpoints(rows, outcomes, i)
  }

  /** Visiting row `i` advances the state by that row's contribution. */
  lemma Advance(rows: seq<FileRecord>, outcomes: seq<Outcome>, i: nat,
                archived: nat, skipped: nat, requests: seq<string>, writes: seq<CsvTable>)
    requires i < |rows| && |outcomes| == |rows|
    requires Progress(ArchivedRows(rows, outcomes, i), rows, outcomes, i, archived, skipped, requests, writes)
    ensures var r, next := rows[i], ArchivedRows(rows, outcomes, i + 1);
      var success := Pending(r) && outcomes[i].Archived?;
      && ArchivedRows(rows, outcomes, i)[i] == r
      && next == ArchivedRows(rows, outcomes, i)[i := Visit(r, outcomes[i])]
      && Progress(next, rows, outcomes, i + 1,
                  archived + (if success then 1 else 0),
                  skipped + (if r.waybackUrl != "" then 1 else 0),
                  requests + (if Pending(r) then [SaveUrl(r.fullpath)] else []),
                  writes + (if success then [CsvTable(FieldNames, next)] else []))
  {
  }

  /** The loop of `main` (lines 44-93) over the loaded rows, then the final
      rewrite (lines 95-98). Returns the counters, the submission attempts and
      every file written. */
  method ArchivePass(records: array<FileRecord>, outcomes: seq<Outcome>, overTime: seq<bool>)
    returns (stats: Stats, requests: seq<string>, writes: seq<CsvTable>)
    requires |outcomes| == records.Length && |overTime| == records.Length
    modifies records
    ensures var stop, rows := StopIndex(overTime), old(records[..]);
      && records[..] == ArchivedRows(rows, outcomes, stop)
      && stats == Stats(SuccessCount(rows, outcomes, stop), SkipCount(rows, stop), 0)
      && requests == Requests(rows, stop)
      && writes == Checkpoints(rows, outcomes, stop) + [CsvTable(FieldNames, records[..])]
  {
    ghost var rows := records[..];
    var archived, skipped := 0, 0;
    requests, writes := [], [];
    var i := 0;
    while i < records.Length
      invariant i <= records.Length
      invariant forall j :: 0 <= j < i ==> !overTime[j]
      invariant Progress(records[..], rows, outcomes, i, archived, skipped, requests, writes)
      decreases records.Length - i
    {
      if overTime[i] {
        break;
      }
      Advance(rows, outcomes, i, archived, skipped, requests, writes);
      var row := records[i];
      if row.waybackUrl != "" {
        skipped := skipped + 1;
        i := i + 1;
        continue;
      }
      if row.removed != "" {
        i := i + 1;
        continue;
      }
      requests := requests + [SaveUrl(row.fullpath)];
      match outcomes[i] {
        case Archived(contentLocation, finalUrl) =>
          records[i] := row.(waybackUrl := StoredUrl(contentLocation, finalUrl));
          archived := archived + 1;
          writes := writes + [CsvTable(FieldNames, records[..])];
        case RateLimited =>
          // HTTP 429: wait, then go on with the next row; this row is not retried.
          i := i + 1;
          continue;
        case Failed =>
      }
      i := i + 1;
    }
    assert i == StopIndex(overTime) by {
      StopIndexUnique(overTime, i);
    }
    writes := writes + [CsvTable(FieldNames, records[..])];
    stats := Stats(archived, skipped, 0);
  }

  /** The stop index is the one position before which the budget holds and at
      which it is exhausted (or the rows run out). */
  lemma {:induction false} StopIndexUnique(overTime: seq<bool>, i: nat)
    requires i <= |overTime| && forall j :: 0 <= j < i ==> !overTime[j]
    requires i == |overTime| || overTime[i]
    ensures i == StopIndex(overTime)
  {
    if i > 0 {
      StopIndexUnique(overTime[1..], i - 1);
    }
  }

  // ---------------------------------------------------------------------------
  // What the counters and the request log mean.
  // ---------------------------------------------------------------------------

  /** The indices, among the first `n`, of the rows that were pending and got a
      response. */
  function SuccessRows(rows: seq<FileRecord>, outcomes: seq<Outcome>, n: nat): set<nat>
    requires |outcomes| == |rows| && n <= |rows|
  {
    set j: nat | j < n && Pending(rows[j]) && outcomes[j].Archived?
  }

  /** The indices, among the first `n`, of the rows that already had a
      `wayback_url`. */
  function ArchivedBefore(rows: seq<FileRecord>, n: nat): set<nat>
    requires n <= |rows|
  {
    set j: nat | j < n && rows[j].waybackUrl != ""
  }

  /** The indices, among the first `n`, of the pending rows. */
  function PendingRows(rows: seq<FileRecord>, n: nat): set<nat>
    requires n <= |rows|
  {
    set j: nat | j < n && Pending(rows[j])
  }

  /** `archived` is the number of visited rows that were pending and got a
      response; a failure or a 429 adds nothing. */
  lemma {:induction false} SuccessCountMeaning(rows: seq<FileRecord>, outcomes: seq<Outcome>, n: nat)
    requires |outcomes| == |rows| && n <= |rows|
    ensures SuccessCount(rows, outcomes, n) == |SuccessRows(rows, outcomes, n)|
  {
    if n > 0 {
      SuccessCountMeaning(rows, outcomes, n - 1);
      var before, after := SuccessRows(rows, outcomes, n - 1), SuccessRows(rows, outcomes, n);
      if Pending(rows[n - 1]) && outcomes[n - 1].Archived? {
        assert after == before + {n - 1};
      } else {
        assert after == before;
      }
    }
  }

  /** `skipped` is the number of visited rows that already had a `wayback_url`,
      whether or not they are removed: that test comes first. */
  lemma {:induction false} SkipCountMeaning(rows: seq<FileRecord>, n: nat)
    requires n <= |rows|
    ensures SkipCount(rows, n) == |ArchivedBefore(rows, n)|
  {
    if n > 0 {
      SkipCountMeaning(rows, n - 1);
      var before, after := ArchivedBefore(rows, n - 1), ArchivedBefore(rows, n);
      if rows[n - 1].waybackUrl != "" {
        assert after == before + {n - 1};
      } else {
        assert after == before;
      }
    }
  }

  /** One request per visited pending row, whatever its outcome: a 429 moves on
      and no row is retried. */
  lemma {:induction false} RequestsCount(rows: seq<FileRecord>, n: nat)
    requires n <= |rows|
    ensures |Requests(rows, n)| == |PendingRows(rows, n)|
  {
    if n > 0 {
      RequestsCount(rows, n - 1);
      var before, after := PendingRows(rows, n - 1), PendingRows(rows, n);
      if Pending(rows[n - 1]) {
        assert after == before + {n - 1};
      } else {
        assert after == before;
      }
    }
  }

  /** Every visited pending row is submitted. */
  lemma {:induction false} RequestsCover(rows: seq<FileRecord>, n: nat, j: nat)
    requires j < n <= |rows| && Pending(rows[j])
    ensures SaveUrl(rows[j].fullpath) in Requests(rows, n)
  {
    if j < n - 1 {
      RequestsCover(rows, n - 1, j);
    }
  }

  /** Only pending rows are submitted: an archived or a removed row never is. */
  lemma {:induction false} RequestsOnlyPending(rows: seq<FileRecord>, n: nat, u: string)
    requires n <= |rows| && u in Requests(rows, n)
    ensures exists j :: 0 <= j < n && Pending(rows[j]) && u == SaveUrl(rows[j].fullpath)
  {
    var last := if Pending(rows[n - 1]) then [SaveUrl(rows[n - 1].fullpath)] else [];
    assert Requests(rows, n) == Requests(rows, n - 1) + last;
    if u in Requests(rows, n - 1) {
      RequestsOnlyPending(rows, n - 1, u);
      var j :| 0 <= j < n - 1 && Pending(rows[j]) && u == SaveUrl(rows[j].fullpath);
    } else {
      assert u in last;
      assert Pending(rows[n - 1]) && u == SaveUrl(rows[n - 1].fullpath);
    }
  }

  /** A row the pass archived is not pending any more, provided the stored
      location is not empty, so a later run does not submit it again; and no
      row becomes pending. */
  lemma PendingShrinks(rows: seq<FileRecord>, outcomes: seq<Outcome>, n: nat, j: nat)
    requires |outcomes| == |rows| && n <= |rows| && j < |rows|
    ensures Pending(ArchivedRows(rows, outcomes, n)[j]) ==> Pending(rows[j])
    ensures j < n && outcomes[j].Archived? && StoredUrl(outcomes[j].contentLocation, outcomes[j].finalUrl) != "" ==>
      !Pending(ArchivedRows(rows, outcomes, n)[j])
  {
  }

  /** The stored location is the archive host followed by `Content-Location`
      when that header is present, else the response's final URL; either way it
      is non-empty when the final URL is. */
  lemma StoredUrlShape(contentLocation: string, finalUrl: string)
    ensures contentLocation != "" ==> StoredUrl(contentLocation, finalUrl) == "https://web.archive.org" + contentLocation
    ensures contentLocation == "" ==> StoredUrl(contentLocation, finalUrl) == finalUrl
    ensures finalUrl != "" ==> StoredUrl(contentLocation, finalUrl) != ""
  {
  }

  /** A pass with the budget never exhausted visits every row. */
  lemma NoTimeoutVisitsAll(overTime: seq<bool>)
    requires forall i :: 0 <= i < |overTime| ==> !overTime[i]
    ensures StopIndex(overTime) == |overTime|
  {
    StopIndexUnique(overTime, |overTime|);
  }

  /** A scenario: of an archived row, a removed row and a pending
      row, only the pending one is submitted, and the archived one is counted
      as skipped. */
  lemma ScenarioOnlyPendingSubmitted(archived: FileRecord, removed: FileRecord, pending: FileRecord)
    requires archived.waybackUrl != ""
    requires removed.waybackUrl == "" && removed.removed != ""
    requires Pending(pending)
    ensures Requests([archived, removed, pending], 3) == [SaveUrl(pending.fullpath)]
    ensures SkipCount([archived, removed, pending], 3) == 1
  {
    var rows := [archived, removed, pending];
    assert !Pending(rows[0]) && !Pending(rows[1]) && Pending(rows[2]);
    assert Requests(rows, 1) == [];
    assert Requests(rows, 2) == [];
    assert SkipCount(rows, 1) == 1;
    assert SkipCount(rows, 2) == 1;
  }
}
