# Tapo-Directory inventory and archiver, modelled in Dafny

Tapo-Directory keeps an inventory of the files in the public download bucket
`download.tplinkcloud.com` as one CSV table, `all_keys.csv`. Each record has six
fields: creation, size, fullpath, added, removed and wayback_url. Two batch
scripts share the table:

* `sync_keys.py` parses a recursive object listing (`aws s3 ls` lines) into a
  snapshot and reconciles it with the table. Paths seen again keep their
  history and take the new creation and size. New paths get a fresh record.
  Outside an initial crawl, vanished paths are kept and stamped `removed` once.
  The table is saved sorted by path. A stand-alone helper classifies a path
  into type, subfolder and product name.
* `archive_files.py` walks the table in file order, submits every row that is
  neither archived nor removed to the Wayback Machine's save endpoint, and
  stores the archived location in the row. It rewrites the file after every
  success and again at the end.

The Dafny modules follow the program's structure:

| file | module | models |
|---|---|---|
| `wrappers.dfy` | `Wrappers` | `Option` (Python's `None`) |
| `strings.dfy` | `Strings` | `str.isspace` on ASCII, `str.split(None, n)`, `str.split(sep)`, `str.rstrip(c)`, `str` ordering |
| `records.dfy` | `Records` | `FileRecord` with its defaults; the CSV table as header plus rows; a list that holds exactly the records of a path-keyed table |
| `listing.dfy` | `Listing` | `parse_s3_line` and the parsing loop of `sync_files` |
| `classifier.dfy` | `Classifier` | `extract_type_and_product`, with both regular expressions stated as match predicates |
| `table_store.dfy` | `TableStore` | `load_existing_csv` (a loop building the dict) and `save_csv` (header, then sorted by path) |
| `reconciler.dfy` | `Reconciler` | the two reconciliation loops of `sync_files`, then the whole sync from listing lines to the saved file |
| `archive.dfy` | `Archive` | the loop of `archive_files.py`'s `main` over an `array<FileRecord>`, mutated in place |

Inputs the scripts read from the environment are parameters of the model:
* `today` stands for the clock read by `datetime.now()`;
* `initialCrawl` stands for the `--initial-crawl` flag;
* `outcomes[i]` stands for the HTTP response to row `i`: archived with a
  `Content-Location` header and a final URL, HTTP 429, or any other error;
* `overTime[i]` says whether the time budget is exhausted when the loop reaches
  row `i`.

The reconciler's loops walk a `set` and a `dict`, whose iteration order is not
fixed. The methods pick each next path with `:|`, and their contracts hold for
every order. `SaveOrderIrrelevant` proves the saved file is the same for every
order.

Three behaviours are easy to misread; the model follows the code:
* In an initial crawl, known records absent from the listing are **dropped** from
  the saved table, not retained. The retain-and-stamp loop runs only when
  `not is_initial_crawl` (`sync_keys.py:199-205`; `Reconciler.ReconciledKeys`).
  The flag's help text, "never mark removed" (`sync_keys.py:237`), holds, but
  the records are dropped rather than kept unmarked.
* An HTTP 429 `continue`s with the **next** row, so the rate-limited row is not
  retried in that run (`archive_files.py:84-87`; `Archive.RequestsCount`).
* A path whose `removed` is set keeps that value when it reappears in the
  listing (`sync_keys.py:189-192`; `Reconciler.RemovedNeverCleared`).

## Model

| member | source | states |
|---|---|---|
| Strings.SplitWhitespace | sync_keys.py:67 | `str.split(None, maxsplit)`; its meaning is stated by `SplitWhitespaceCount`, `SplitWhitespacePrefix` and `SplitWhitespaceLast` |
| Strings.SplitWhitespaceCount | sync_keys.py:67-69 | `split(None, k)` has min(number of words, k + 1) parts, so a line gives four parts exactly when it has at least four whitespace-separated tokens |
| Strings.SplitWhitespacePrefix | sync_keys.py:67-74 | the first k parts of `split(None, k)` are the first k words |
| Strings.SplitWhitespaceLast | sync_keys.py:67-75 | with more than k words, part k is a suffix of the input that starts at word k with a non-blank, and its own words are the remaining words, so inner whitespace is kept |
| Strings.SkipSpaceShape | sync_keys.py:67 | skipping leading whitespace removes a whitespace prefix and keeps the rest as a suffix |
| Strings.SplitOn | sync_keys.py:85 | `str.split("/")` gives at least one part and no part contains the separator |
| Strings.JoinSplitOn | sync_keys.py:85 | joining the parts of `split(sep)` with the separator gives the input back |
| Strings.SplitOnFirst | sync_keys.py:85-90 | a separator-free head before the first separator is the first part, followed by the parts of the rest |
| Strings.StripTrailing | sync_keys.py:104 | `rstrip(c)` is the prefix after which only copies of `c` follow, and it does not end in `c` |
| Strings.LexLeTotal | sync_keys.py:148 | the code-point order on paths used by `sorted` is total |
| Strings.LexLeAntisymmetric | sync_keys.py:148 | it is antisymmetric |
| Strings.LexLeTransitive | sync_keys.py:148 | it is transitive |
| Listing.ParseLine | sync_keys.py:66-81 | `parse_s3_line`; its meaning is stated by `ParseLineRejects`, `ParseLineFields` and `ParseLineOf` |
| Listing.ParseLineRejects | sync_keys.py:66-78 | a line is rejected exactly when it has fewer than four whitespace-separated tokens or ends in "/" |
| Listing.ParseLineFields | sync_keys.py:67-81 | an accepted line gives creation = token 0 + " " + token 1 and size = token 2 verbatim; the path is the suffix of the line from token 3 on, keeps its inner whitespace and does not end in "/" |
| Listing.ParseLineOf | sync_keys.py:66-81 | conversely, leading blanks, date, blanks, time, blanks, size, blanks and a path that starts with a non-blank and does not end in "/" parse to exactly those fields |
| Listing.ParseLineExample | sync_keys.py:66-81 | a padded `aws s3 ls` line with date, time, size and key parses to ("2024-01-01 10:00:00", "1234", "Router_Setup/firmware/TL-WR841N_V14_en_1.2.3.bin"), the path `Classifier.ClassifyExample` classifies |
| Listing.SnapshotOf | sync_keys.py:162-169 | the snapshot `file_data` built by the parsing loop; its meaning is stated by `SnapshotKeys` and `SnapshotLastWins` |
| Listing.SnapshotKeys | sync_keys.py:162-169 | a path is in the snapshot exactly when some accepted line gives it |
| Listing.SnapshotLastWins | sync_keys.py:168 | a path's creation and size come from the last line that gives that path |
| Listing.ParseListing | sync_keys.py:158-169 | the parsing loop builds the snapshot of the lines, and `current_files` is exactly its key set |
| Classifier.Pattern1 | sync_keys.py:100 | the first regular expression, computed; `Pattern1Exact` proves it equal to the expression's match semantics |
| Classifier.Pattern2 | sync_keys.py:107 | the second regular expression, computed; `Pattern2Exact` proves it equal to the expression's match semantics |
| Classifier.Product | sync_keys.py:100-114 | the product of a file name; its meaning is stated by `ProductShape`, `ProductNone`, `ProductPrefersPattern1` and `ProductOfRun` |
| Classifier.Classify | sync_keys.py:84-114 | `extract_type_and_product`; its meaning is stated by `ClassifyNeedsSlash`, `ClassifyTwoSegments`, `ClassifyThreeSegments`, `ClassifyDeeper` and `ClassifyExample` |
| Classifier.RunLength | sync_keys.py:100 | the leading run of `[A-Za-z0-9-]` characters is maximal |
| Classifier.Pattern1Exact | sync_keys.py:100 | the computed pattern 1 reports a group end exactly when the first expression matches with the group ending there: a letter, `[A-Za-z0-9-]` characters, whitespace, then a digit, "en_", "v" and a digit, "Build", "Rel" or "dist", ignoring case |
| Classifier.Pattern2Exact | sync_keys.py:107 | the computed pattern 2 reports a group end exactly when the second expression matches with the group ending there: a letter, `[A-Za-z0-9-]` characters, then "_" or "(" |
| Classifier.MarkerNotSpace | sync_keys.py:100 | every alternative of the marker group starts with a non-whitespace character |
| Classifier.GroupEnd | sync_keys.py:100-107 | a group followed by a character outside its class ends where the maximal run ends, so the lazy group is that run |
| Classifier.ProductShape | sync_keys.py:100-112 | the product is the maximal letter-initial run at the start of the file name with trailing "-" stripped; it is non-empty, starts with a letter, holds only `[A-Za-z0-9-]` and does not end in "-" |
| Classifier.ProductNone | sync_keys.py:100-114 | there is no product exactly when neither regular expression matches |
| Classifier.ProductPrefersPattern1 | sync_keys.py:100-105 | when pattern 1 matches, its group (hyphens stripped) is the product, and pattern 2 is not consulted |
| Classifier.ProductOfRun | sync_keys.py:107-112 | a run followed by "_" or "(" gives that run, hyphens stripped, as the product |
| Classifier.ClassifyNeedsSlash | sync_keys.py:85-88 | a path without "/" is not classified |
| Classifier.ClassifyTwoSegments | sync_keys.py:90-97 | for `type/name`, the type is the first segment, the subfolder is "", and the product comes from `name` |
| Classifier.ClassifyThreeSegments | sync_keys.py:90-94 | `type/sub/name` splits into exactly those three segments |
| Classifier.ClassifyDeeper | sync_keys.py:90-114 | with three or more segments the subfolder is the second and the file name the last; the segments between them do not matter |
| Classifier.ClassifyExample | sync_keys.py:84-114 | `Router_Setup/firmware/TL-WR841N_V14_en_1.2.3.bin` gives type "Router_Setup", subfolder "firmware" and product "TL-WR841N" via pattern 2 |
| Records.NewRecord | sync_keys.py:15-21 | the `FileRecord` constructor keeps creation, size and path, replaces an empty `added` by the current date, and keeps `removed` and `wayback_url` (their default "" is the empty string already) |
| TableStore.TableOf | sync_keys.py:125-134 | the dict the reading loop builds; its meaning is stated by `TableOfKeys`, `TableOfLastWins` and `TableOfWellKeyed` |
| TableStore.Loaded | sync_keys.py:117-136 | `load_existing_csv`'s result: empty for a missing file, else `TableOf` the rows; `LoadExistingCsv` computes it and `SaveLoadRoundTrip` relates it to `save_csv` |
| TableStore.LoadRecord | sync_keys.py:127-134 | a row read back through the `FileRecord` defaults keeps every field, except that an empty `added` becomes the current date |
| TableStore.LoadExistingCsv | sync_keys.py:117-136 | the loop builds the table of the rows: empty for a missing file, each row stored under its path, later rows overwriting earlier ones |
| TableStore.TableOfKeys | sync_keys.py:125-127 | the loaded paths are exactly the paths of the rows |
| TableStore.TableOfLastWins | sync_keys.py:126-134 | a path is loaded from the last row carrying it |
| TableStore.TableOfWellKeyed | sync_keys.py:126-134 | every loaded record is stored under its own path, and with a non-empty date none has an empty `added` |
| TableStore.Insert | sync_keys.py:148 | inserting into a sorted list keeps it sorted by path and adds exactly that record |
| TableStore.SortByPath | sync_keys.py:148 | the sort is ascending by path and a permutation of its input |
| TableStore.SaveCsv | sync_keys.py:139-150 | the saved file has the six field names in fixed order as header, then every record once, ascending by path |
| TableStore.SortedListingUnique | sync_keys.py:148 | two sorted path-distinct lists with the same records are equal, so the sort order is unique |
| TableStore.SaveOrderIrrelevant | sync_keys.py:182-207 | two lists of the same table are saved identically, whatever order the loops gathered them in |
| TableStore.SaveCsvCanonical | sync_keys.py:148 | any sorted permutation of a path-distinct list is the one `save_csv` writes |
| TableStore.SaveLoadRoundTrip | sync_keys.py:117-150 | loading a saved table gives the same table back when no record has an empty `added` |
| Reconciler.Reconciled | sync_keys.py:179-205 | the table `sync_files` saves, keyed by path; its meaning is stated by `ReconciledKeys`, `ReconciledKnown`, `ReconciledNew`, `ReconciledGone` and the lemmas after them |
| Reconciler.ReconcileRecords | sync_keys.py:179-205 | the two loops produce a list of exactly the reconciled table, with `new_urls` and `removed_urls` as counted |
| Reconciler.ListPresent | sync_keys.py:186-197 | the loop over `current_files` lists one refreshed or new record per snapshot path, and `new_urls` is the number of unknown paths |
| Reconciler.ListAbsent | sync_keys.py:199-205 | the loop over known records appends each unlisted record, its `removed` stamped if empty, and counts the stamps |
| Reconciler.RetireOne | sync_keys.py:200-205 | one pass of the second loop keeps the loop invariant: the listed records so far are the unlisted known ones seen so far, stamped if their `removed` was empty, and `removed_urls` counts the stamps |
| Reconciler.SyncFiles | sync_keys.py:153-209 | from listing lines and the loaded file, the saved file is the sorted form of the reconciled table, and the two counters are as counted |
| Reconciler.ReconciledKeys | sync_keys.py:179-205 | the saved paths are the snapshot's, plus the known ones outside an initial crawl; absent records are dropped in an initial crawl |
| Reconciler.ReconciledKnown | sync_keys.py:189-192 | a known, listed path keeps `added`, `removed` and `wayback_url` and takes creation and size from the snapshot |
| Reconciler.ReconciledNew | sync_keys.py:179-195 | a new path gets `added` "initial crawl" (flag set or empty table) or today, with empty `removed` and `wayback_url` (the constructor defaults at lines 19-21 leave these as given) |
| Reconciler.ReconciledGone | sync_keys.py:199-205 | outside an initial crawl, a known unlisted path is kept unchanged except that an empty `removed` becomes today |
| Reconciler.RemovedNeverCleared | sync_keys.py:189-203 | a set `removed` is never cleared or overwritten, even when the path is listed again |
| Reconciler.InitialCrawlNeverRemoves | sync_keys.py:179-205 | an initial crawl stamps nothing and reports `removed_urls` = 0 |
| Reconciler.AddedKept | sync_keys.py:189-205 | `added` of a known path never changes |
| Reconciler.NewCountMeaning | sync_keys.py:193-195 | `new_urls` is the number of saved records whose path was not known |
| Reconciler.RemovedCountMeaning | sync_keys.py:202-204 | `removed_urls` is the number of saved records whose `removed` went from empty to set |
| Reconciler.ReconcileIdempotent | sync_keys.py:173-205 | reconciling the same snapshot again on the reconciled table, on any date, changes nothing and reports 0 new and 0 removed |
| Reconciler.SyncIdempotent | sync_keys.py:153-209 | a second full sync of the same listing on the file the first one saved, on any date, writes the same file and reports 0 new and 0 removed |
| Reconciler.AddedNonEmpty | sync_keys.py:180-194 | with a non-empty date, no saved record has an empty `added` |
| Reconciler.FirstRunScenario | sync_keys.py:179-197 | a first run with one listed file on an empty table gives one record dated "initial crawl" and `new_urls` = 1 |
| Reconciler.DisappearedScenario | sync_keys.py:199-205 | a known path missing from the listing on a normal run is stamped with the run's date and counted once |
| Archive.SaveUrlShape | archive_files.py:56-60 | the `save_url` string is "https://web.archive.org/save/" + "http://download.tplinkcloud.com/" + the path, so distinct paths give distinct strings |
| Archive.StopIndex | archive_files.py:44-47 | the loop stops before the first row at which the budget is exhausted, or after the last row |
| Archive.Visit | archive_files.py:49-71 | one row after the loop visits it; its meaning is stated by `ArchivedRowsMeaning` and `StoredUrlShape` |
| Archive.ArchivedRows | archive_files.py:44-71 | the rows once the loop has visited a prefix; it keeps the row count, and `ArchivedRowsMeaning` states what changes |
| Archive.ArchivedRowsMeaning | archive_files.py:63-98 | only `wayback_url` changes, only for a visited pending row that got a response, and then to the stored location; rows after the stop are unchanged |
| Archive.ArchivePass | archive_files.py:44-98 | the in-place loop leaves the rows as `ArchivedRows` gives them, returns `archived`, `skipped` and `failed` = 0, makes one submission attempt per visited pending row in order, and writes the whole row list in its loaded order after each success and at the end |
| Archive.SuccessCountMeaning | archive_files.py:63-91 | `archived` counts the visited pending rows that got a response; a 429 or another error adds nothing |
| Archive.SkipCountMeaning | archive_files.py:49-51 | `skipped` counts the visited rows with a `wayback_url`, removed or not |
| Archive.RequestsCount | archive_files.py:49-87 | there is one submission attempt per visited pending row; a rate-limited row is not retried |
| Archive.RequestsCover | archive_files.py:49-60 | every visited row without `wayback_url` and without `removed` is submitted |
| Archive.RequestsOnlyPending | archive_files.py:49-54 | only such rows are submitted; an archived or a removed row never is |
| Archive.PendingShrinks | archive_files.py:49-68 | no row becomes pending, and a row archived with a non-empty location is not pending in a later run |
| Archive.StoredUrlShape | archive_files.py:64-68 | the stored value is "https://web.archive.org" + `Content-Location` when the header is present, else the final URL |
| Archive.NoTimeoutVisitsAll | archive_files.py:44-47 | without a timeout every row is visited |
| Archive.ScenarioOnlyPendingSubmitted | archive_files.py:44-54 | of an archived, a removed and a pending row, only the pending one is submitted, and the archived one counts as skipped |

## Left out

- Fetching the listing (`fetch_s3_listing`, `sync_keys.py:34-63`) is left out; the model takes the listing lines as given. The file branch (`sync_keys.py:38`) strips every line and drops blank ones. The docker branch (`sync_keys.py:53`) runs aws-cli, strips the whole output once and splits it on newlines, so its lines keep their own whitespace and blank lines stay in the list. `Listing.ParseLine` rejects a blank line either way.
- The clocks are parameters: `today` for `datetime.now()` (`sync_keys.py:19, 173`) and `overTime` for `time.time()` (`archive_files.py:42, 45`). The model uses one `today` for both reads, although the constructor default and line 173 read the clock separately.
- CSV encoding and decoding (`csv.DictReader`/`DictWriter`) are not modelled. A file is a header plus rows of six strings. Quoting and bytes are not modelled. Because a missing column (`None`) and an empty one behave the same under `or`, both are "".
- Extra CSV columns are not modelled. `save_csv` writes `record.to_dict()` (`sync_keys.py:150`), which has exactly the six fields, so the sync drops extra columns without a word. `archive_files.py` writes back the dicts it read (lines 74-76 and 96-98), so its `DictWriter` would reject a row with an extra column.
- The network (`urllib.request.urlopen`, the `Content-Location` header, `geturl()`) is the `outcomes` oracle. The sleeps (`archive_files.py:86, 93`) have no effect on the table and are left out.
- `Requests` lists submission attempts: the `save_url` strings of line 60, not the requests that reach the network. The path goes into the URL without percent-encoding, and three cases are not modelled. (1) `urllib.request.Request` first strips the whole URL, so a path whose only blanks are trailing is sent without them. (2) It then cuts off everything after the last `#` as a fragment, so the paths `x#1` and `x#2` request the same target, and `a#b#c` requests `a#b`. (3) After that stripping, `http.client` refuses a URL that still holds a blank or a control character, and it cannot encode a non-ASCII character in the request line; either way nothing is sent and the row fails. The model does not enforce that `outcomes[i]` is `Failed` for such a path.
- A failure of the rewrite itself is not modelled: an I/O error on the CSV or stats write inside the `try` would be caught like a network error.
- The exit code and the zeroed stats written when `all_keys.csv` is missing (`archive_files.py:25-32`) are left out with the other front-end code. The same goes for argparse, `print` logging, `KeyboardInterrupt` handling, directory creation and the stats-file writes. The model returns the counter values those files would contain.
- Whitespace and case folding are ASCII only, because Python's Unicode `str.isspace`, `\s` and `re.IGNORECASE` tables are not modelled. `Strings.IsSpace` is ASCII 9-13, 28-31 and space, and `Strings.Fold` folds A-Z only.
- `sorted` is stable. The model proves uniqueness of the sorted order only for path-distinct lists, which is what the reconciler produces, so stability plays no part.
- In-place mutation in `sync_files` (`record.creation`, `record.size`, `record.removed` on objects shared with `existing_records`) is modelled as building new record values. The second loop reads only records the first loop did not touch, so the sharing is not observable.
- `FileRecord.to_dict` is the identity on the modelled record.
- Archive.ArchivePass: the rows of `archive_files.py` are plain dicts read from the file, without `FileRecord` defaults. The model uses the same six-field record, with a missing field read as "".
