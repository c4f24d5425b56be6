# AutoPrintServer change detection, in Dafny

AutoPrintServer watches a Firebase Storage bucket and is meant to send newly
uploaded files to a printer. As written, `print_file` lists the printers and
formats an `lp` command, but the call that would submit it is commented out.
The program's one piece of real logic is the poll loop of `monitor_storage` in
`listen.py`. It keeps a snapshot, a dict from object name to last-updated time
built by `list_files`. On each pass it lists the bucket again and handles every
listed name the snapshot lacks, walking the new dict in insertion order. For
each such name it downloads the object and calls `print_file`. If the pass
finishes, the new dict replaces the snapshot wholesale. If anything raises, the
handler prints the error and sleeps, so the old snapshot survives into the next
pass. Not every upload is handled: objects present at start-up never are, and
neither are names listed after an object whose download always fails.

The model has three modules:

- `Snapshots` (`snapshot.dfy`) covers `list_files`. The dict comprehension is
  modelled as a Python dict with insertion order: `Dict(order, entries)`, built
  by one `Store` per blob. A repeated name keeps its first position and takes
  the last blob's timestamp.
- `PollCycle` (`cycle.dfy`) covers one pass. `NewNames` filters the dict
  against the snapshot. `Scan` is the diff-and-replace step and `Cycle` is
  listing followed by scan. `RunScan` is the same pass written as the source's
  item-by-item loop, and it is proved equal to `Scan`.
- `Monitor` (`monitor.dfy`) covers the whole function. `MonitorStorage` takes
  the first listing as the snapshot. `Loop` folds `Cycle` over a finite
  sequence of polls.

A poll is a `Listing` plus a `Fault`. The listing is `ListError` when listing
the bucket raised, or `Listed(blobs)` otherwise. `RaisesAt(k)` says that
downloading or printing the k-th new name of the pass raises. That name has
already been announced as detected, so it counts as reported. The rest of the
pass is skipped, and so is the snapshot update.

## Model

| member | source | states |
|---|---|---|
| Snapshots.Store | listen.py:37 | one `d[k] = v` of the comprehension keeps the dict well-formed: each key once in the order, and the order and the map hold the same keys |
| Snapshots.StoreUpdates | listen.py:37 | after `d[k] = v`, `k` maps to `v`, every other key keeps its presence and value, existing keys keep their positions, and the order grows by one exactly when `k` is new |
| Snapshots.ListFiles | listen.py:34-37 | the listing becomes a well-formed dict: each key once in the iteration order, and the order and the map hold the same keys |
| Snapshots.ListFilesKeys | listen.py:37 | the dict's keys are exactly the names in the listing (both directions) |
| Snapshots.ListFilesLastWins | listen.py:37 | when a name is listed several times, the dict keeps the timestamp of its last blob |
| Snapshots.ListFilesFirstSeenOrder | listen.py:37 | the dict iterates names in the order they first appear in the listing |
| Snapshots.ListFilesOrderByNames | listen.py:37 | two listings with the same names in the same order give dicts with the same keys in the same order, whatever their timestamps |
| Snapshots.ListFilesOfDistinctNames | listen.py:36-37 | for a listing with each name once, the dict iterates the names in listing order |
| Snapshots.ListFilesStoresEachBlob | listen.py:36-37 | for a listing with each name once, every blob's timestamp is stored under its name |
| PollCycle.NewNames | listen.py:49-50 | the filter of the `for` loop: the dict's names missing from the snapshot, in dict order; it carries no contract of its own and is characterised by `NewNamesMembers`, `NewNamesInOrder` and `NewNamesDistinct` |
| PollCycle.NewNamesMembers | listen.py:49-50 | a name is reported exactly when it is a key of the current dict and not a key of the previous snapshot (both directions) |
| PollCycle.NewNamesInOrder | listen.py:49-50 | the reported names are a subsequence of the dict's iteration order |
| PollCycle.NewNamesDistinct | listen.py:49-50 | no name is reported twice in one pass |
| PollCycle.NewNamesAgree | listen.py:50 | only `in` on the snapshot is consulted: snapshots that agree on membership of the scanned names give the same reports |
| PollCycle.Scan | listen.py:49-69 | a finished scan installs the current dict and an aborted one keeps the previous snapshot; every report is a current name absent from the snapshot; the scan aborts exactly when the failing index is below the number of new names, after reporting that many plus one |
| PollCycle.Cycle | listen.py:45-69 | a failed listing reports nothing and keeps the snapshot; a finished pass installs exactly the listing's dict; every report is a listed name missing from the snapshot |
| PollCycle.ScanEmitsExactlyNew | listen.py:49-64 | for a well-formed dict, a finished scan reports exactly its names missing from the snapshot, each once, and installs the dict itself |
| PollCycle.ScanQuietWhenKeysUnchanged | listen.py:49-64 | a dict with exactly the snapshot's keys makes the scan report nothing, finish whatever would have raised, and install the dict |
| PollCycle.ScanOfSnapshotIsNoOp | listen.py:49-64 | scanning the snapshot's own dict reports nothing, cannot fail, and leaves the snapshot as it is |
| PollCycle.ScanIgnoresUnlistedEntries | listen.py:49-50 | snapshots that agree on which of the dict's names they hold give the same reports and the same outcome |
| PollCycle.ScanBySameOrder | listen.py:49-52 | the dict's timestamps are only displayed: dicts with the same key order give the same reports and outcome |
| PollCycle.RunScan | listen.py:49-64 | the item-by-item loop that stops at the first raise computes the same reports, snapshot and outcome as `Scan` |
| PollCycle.CompletedCycleEmitsExactlyNew | listen.py:49-64 | a finished pass reports exactly the listed names missing from the snapshot, each once, and its new snapshot is the listing's dict with no old entry merged in |
| PollCycle.CycleEmitsInListingOrder | listen.py:37-51 | reports follow the order of first appearance in the listing, for finished and aborted passes alike |
| PollCycle.QuietWhenKeysUnchanged | listen.py:49-64 | if the listed names equal the snapshot's keys, the pass reports nothing, cannot fail and installs the listing |
| PollCycle.UnchangedListingIsNoOp | listen.py:49-64 | a pass over a listing whose dict equals the snapshot reports nothing and leaves the snapshot as it is |
| PollCycle.CycleIgnoresUnlistedEntries | listen.py:49-50 | deletions and stored timestamps are invisible: snapshots that agree on which listed names they hold give the same reports and outcome |
| PollCycle.CycleIgnoresTimestamps | listen.py:49-52 | a changed timestamp is not detected: listings with the same names in the same order give the same reports and outcome |
| PollCycle.ScanStopsAtFailingName | listen.py:49-69 | when the download of a given name raises, the scan has reported exactly the new names before it in dict order, then the name, and keeps the snapshot |
| PollCycle.AbortedCycleReportsUpToFailure | listen.py:37-69 | a pass whose download of a given name raises reports exactly that name and the new names first listed before it (both directions), and keeps the snapshot |
| PollCycle.AbortedCycleIsRepeated | listen.py:55-69 | after a pass aborts at the k-th new name, the next clean pass over the same listing finishes; it reports the aborted pass's k + 1 names again as a prefix, then the rest |
| Monitor.Loop | listen.py:44-69 | a well-formed snapshot stays well-formed through any number of passes; a run in which every listing raised reports nothing and keeps the snapshot |
| Monitor.MonitorStorage | listen.py:39-46 | the function crashes exactly when the first listing raises, since that call is outside the handler; otherwise the first listing's dict is the starting snapshot |
| Monitor.ListErrorIsNoOp | listen.py:45-46 | a poll whose listing raised can be dropped from the run without changing anything |
| Monitor.ListedNameNeverReported | listen.py:49-64 | a name held by the snapshot and shown by every later successful listing is never reported |
| Monitor.StartupNamesNeverReported | listen.py:42-50 | objects present at start-up are never printed while they stay in the bucket, so a restart skips the backlog |
| Monitor.SteadyBucketReportsNothing | listen.py:44-64 | while every listing holds the snapshot's names, however their timestamps change, nothing is reported and the snapshot keeps those names |
| Monitor.FailedPassIsRepeated | listen.py:55-69 | a pass failing at the k-th new name, followed by a clean pass over the same bucket, reports those k + 1 names and then all new names; the ones before the failure are printed twice |
| Monitor.FailingObjectBlocksTheRest | listen.py:49-69 | over an unchanged listing whose first new object always fails to download, every pass reports only that object and the snapshot never moves, so the other new names of that listing, all listed after it, are never printed |
| Monitor.FailingObjectHoldsTheSnapshot | listen.py:44-69 | while the download of one object raises in every pass, however the listing changes around it, the snapshot never moves and every pass is run against the same snapshot |
| Monitor.NamesListedAfterFailureNeverReported | listen.py:49-69 | while the download of one object raises in every pass, a name no listing shows before that object is never reported, however often it is uploaded |
| Monitor.NamesListedBeforeFailureReportedEachPass | listen.py:49-69 | while the download of one object raises in every pass, a new name listed before it in some pass is reported by that pass, so it is printed again on every such pass |

## Consequences of the error handling

Two properties of the exception handler at listen.py:67-69 follow from the code
and are proved:

- A failed download or print is not dropped. The exception skips the snapshot
  update at line 64, so the next pass reports every new name of the failed pass
  again, including those already printed (`FailedPassIsRepeated`,
  `AbortedCycleIsRepeated`).
- One failing object stops the rest of its pass, because the exception leaves
  the `for` loop. The new names listed after it wait for a later pass
  (`AbortedCycleReportsUpToFailure`). An object whose download always fails
  holds the snapshot for good (`FailingObjectHoldsTheSnapshot`). Names listed
  after it are then never printed (`NamesListedAfterFailureNeverReported`).
  New names listed before it are printed again on every pass
  (`NamesListedBeforeFailureReportedEachPass`).

## Left out

- Firebase Admin SDK initialisation, credentials and the bucket handle
  (listen.py:1-15) are external library set-up. The listing is an input sequence
  of blobs.
- `print_file` (listen.py:17-32) only runs `lpstat` and formats an `lp` command;
  the submit line is commented out. It is part of the opaque download-and-print
  step, which either returns or raises (`Fault`).
- The download, `os.path.join`, `os.makedirs` and the `downloads` directory
  (listen.py:55-59, 73) are filesystem I/O. They also live inside the opaque
  step.
- `time.sleep(10)` and the endless `while True` (listen.py:44, 65, 69) are
  timing and non-termination. A run is a finite sequence of polls, and the
  sleep after an error is not distinguished from the one after a success.
- The console messages, including the displayed upload time (listen.py:51-52,
  59, 68), are output only. Reports carry the name alone.
- Which exception type is raised, and where inside the opaque step, is not
  modelled. Any raise during the download or print of a name aborts the pass
  in the same way.
- Timestamps are `int` rather than `datetime`. They are stored and never
  compared.
