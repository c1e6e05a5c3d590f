# The credential scanner's boundary lifecycle

A boundary is one repository whose scan targets, Titus report, deduplicated credentials and retained evidence live in one
directory. Four JSON documents (record, scan targets, report, credentials) are each replaced atomically, but nothing spans
two of them and there are no locks. Commands (enrol, refresh, scan, judge, extract and their `--failed` variants) may stop
between any two writes. Safety rests on the order of writes and on the `phase` in the record, which moves
`scan -> judge -> extract -> done`, is written last when a stage hands the boundary on, and first when a stage is reopened.

The project models that protocol and everything that feeds its invariant:

- `Documents` holds the documents and their validators. `Lifecycle` states which single write each actor may make
  (`Allowed`), the invariant a crash must leave behind (`Consistent`: validators hold, the phase never claims more than the
  documents hold, retained evidence has the recorded bytes, skip reasons are true) and what no write takes back (`Evolves`).
  `Runs` lifts one write to whole runs of commands that crash and restart.
- `BoundaryRules` and `BoundaryOperations` hold the boundary object with its in-memory documents. Every write it makes is
  appended to a log that its contracts keep legal, so each invariant holds at every prefix of the writes of a command, not
  only when the command returns. `Batches` runs one stage over many boundaries.
- `Interleaving` lets one scan, one judge and one extract process act on any number of boundaries, one document read or
  one write at a time, with crashes and restarts anywhere.
- `CredentialMerge` (values) and `MergeInPlace` (shared mutable objects) are the history merge; `Conversion` turns a report
  into credentials; `Identity` decides when two secrets are one; `Titus` settles one target; `Services` are the judge and
  the reader; `InventoryMerge` reuses results.
- `Evidence` has destinations, percent-encoding (section 2.1 of RFC 3986) and a file system of names and inodes;
  `TornOrphans` is the run that ends in an obstructed boundary.
- `Migration` and `MigrationRun` are the offline upgrade of legacy workspaces: phase choice, preflight, backups, records last.
- `Discovery` has pagination, newest-manifest selection and new boundaries; `Locators` has provenance parsing, path
  normal forms and archive search; `Settling` has the loops that outlive repeated cancellation. `Text` has whitespace.

Parameters of the model: the digest function, the file name and the immutable bytes that a locator denotes, the finding
identity, the location resolver, the exclusion tests, the registry's responses and manifests, and the clock. Scanner, judge
and reader answer arbitrarily within their contracts, and each keeps a record of every question and its answer, so that
contracts can say what was saved: `Told`, `Publishes`, `JudgedAs` and `ExtractedAs` tie each result to its answer. A flag `faults` says whether errors that are not saved, failed reads and storage faults may occur at all; with it
off the reader returns what the locator denotes, and Titus exports exactly from a datastore that exists.

Results that differ from what the documentation says, or hold only under a condition:

- "Conflicting bytes are never overwritten" (`doc/end-to-end.html:436`) fails in one window. A crash after the hard link
  and before the temporary name is removed leaves two names on one inode. The next attempt opens the temporary name for
  writing, which empties the linked evidence at once and then rewrites it. `Evidence.CrashedLinkIsOverwritten` is a
  concrete case; `Evidence.LinkedBytesSurvive` is the exact condition over every point at which an attempt may stop.
  Retained (indexed) evidence is never affected: `Runs.EvidenceForEver`.
- A fault-free pass does not always reach done. If the attempt in that window is itself stopped, torn bytes stay at the
  destination under one name, and from then on every extraction raises a conflict (`TornOrphans.TornOrphanIsReached`).
  And a scan with targets of which no run left a datastore has nothing to export, and stays in scan.
  `BoundaryOperations.Boundary.Pass` states exactly when done is reached, and a condition on the starting directory
  that suffices: a datastore or no targets, every file the evidence of a known credential or its temporary name, and
  no destination that may be owed holding other bytes than its locator denotes.
- A merge keeps the known occurrence list as a prefix exactly when that list repeats nothing (`CredentialMerge.MergeKeepsHistory`).
- The decoded text of a key and its base64 are one credential exactly when the text does not end in whitespace
  (`Identity.KeyHasOneForm`).
- A printed layer locator parses back exactly when its path holds no second locator tail (`Locators.RoundTrip`).
- A migration interrupted in the middle of one boundary, or in the middle of one backup, is rejected when it is run again
  (`MigrationRun.RerunAfterCrash`).
- A migration accepts histories that the runtime invariant does not (repeated occurrences, evidence that is not what was
  recorded); the invariant holds afterwards exactly for faithful ones (`Migration.MigrationEstablishes`).

## Model

| member | source | states |
|---|---|---|
| `Lifecycle.StepKeeps` | src/cred_scan/orch/boundary.py:126-139 | any single write the commands may make, from any consistent directory, leaves a consistent directory and takes nothing published back |
| `Lifecycle.CredentialsWriteKeeps` | src/cred_scan/orch/boundary.py:266-280 | publishing, judging or extracting keeps every credential valid, its evidence and skip reason true, its history extended only |
| `Lifecycle.FileWriteKeeps` | src/cred_scan/extract/evidence.py:48-75 | no step of a retention disturbs the bytes of any retained credential, and shared inodes occur only between a destination and its own temporary name |
| `Lifecycle.PathsApart` | src/cred_scan/extract/evidence.py:23-32 | two credentials with different non-empty IDs never use each other's evidence file or temporary file |
| `Runs.RunKeeps` | src/cred_scan/orch/boundary.py:266-280 | every legal run of writes, of any length, keeps the invariant and extends the history |
| `Runs.SessionIsRun` | src/cred_scan/orch/boundary.py:210-245 | commands that crash after any number of writes and are started again leave the writes of one legal run |
| `Runs.CrashConsistency` | src/cred_scan/orch/boundary.py:67-113 | from an empty directory, at any two points of any crashing commands, the directory is consistent and the later one keeps everything published at the earlier one |
| `Runs.EvidenceForEver` | src/cred_scan/extract/evidence.py:48-75 | occurrence 0 never changes, and retained evidence keeps its record, its file, its bytes, its size and its digest through every later write |
| `Runs.EvidenceIsDisjoint` | src/cred_scan/extract/evidence.py:23-32 | two retained credentials never name one file |
| `Runs.ScannedOnce` | src/cred_scan/backend/inventory.py:18-22 | a scanned target that stays in every inventory keeps its result through any run, so it is not run again |
| `Runs.LoweringIsLicensed` | src/cred_scan/orch/boundary.py:229-236 | a command whose writes lower the phase at any point started with failures to retry saved for its stage, or was a refresh that found other target IDs or an unavailable boundary |
| `Runs.SessionAscends` | src/cred_scan/orch/boundary.py:315-325 | a session of commands without such a licence, crashing anywhere, never has a lower phase later than a higher one |
| `Runs.NoStageBypassed` | src/cred_scan/orch/boundary.py:193-194 | between two phases of a run every phase in between is entered |
| `BoundaryRules.SelectedIsLoadable` | src/cred_scan/orch/boundary.py:161-208 | after any crash neither selection nor loading meets a missing document, and selection admits exactly the owning phase, the done audit, or an explicit retry where something of the stage has failed |
| `BoundaryRules.PublicationAllowed` | src/cred_scan/orch/boundary.py:409-417 | the merge of converted findings into the loaded history is a legal publication carrying the stamp of the report |
| `BoundaryRules.SkipIsTruthful` | src/cred_scan/orch/boundary.py:519-532 | a skip in the extract phase says invalid exactly when the verdict is invalid, because no judgment is pending there |
| `BoundaryRules.ErrorText` | src/cred_scan/orch/boundary.py:544-547 | a saved error is never empty, and it is the whole message or its first 500 characters if there is one |
| `BoundaryRules.LinkedIsSole` | src/cred_scan/extract/evidence.py:64-74 | once the temporary name is gone no other name reaches linked evidence |
| `BoundaryRules.TornMeans` | src/cred_scan/extract/evidence.py:58-74 | a torn write leaves a free destination free and the bytes of an occupied one, except those that share the temporary inode |
| `BoundaryRules.AttemptSpares` | src/cred_scan/extract/evidence.py:48-75 | an attempt on one credential neither raises nor removes an obstruction of another |
| `BoundaryRules.RefusalObstructsAgain` | src/cred_scan/extract/evidence.py:67-74 | an attempt that raised a conflict leaves the same conflict for the next one |
| `BoundaryRules.RetainedExists` | src/cred_scan/extract/evidence.py:35-45 | the existence check succeeds for every retained credential of a consistent directory |
| `BoundaryRules.MissingIsAbsent` | src/cred_scan/extract/evidence.py:35-45 | the audit misses a retained credential with a path of its own exactly when no file has that name |
| `BoundaryRules.RetentionMeans` | src/cred_scan/extract/evidence.py:64-71 | a conflict means different bytes were there; success means the destination holds the content under one name |
| `BoundaryRules.FaultlessRetains` | src/cred_scan/orch/boundary.py:533-548 | without faults every owed credential with a plain file name ends retained, with the content of its first occurrence at its own path and the size and digest of those bytes, and every other owed one ends failed for its name |
| `BoundaryRules.AnsweredAnother` | src/cred_scan/orch/boundary.py:533-550 | a later extraction leaves every earlier saved result true: what was retained still holds the bytes that were read |
| `BoundaryRules.JudgedAnother` | src/cred_scan/orch/boundary.py:459-478 | saving one more answer keeps every earlier judgment equal to what the judge answered, and everything it was not asked about as it was |
| `BoundaryRules.RequeueCredentialsAllowed` | src/cred_scan/orch/boundary.py:229-236 | the requeued credentials differ from the saved ones in exactly the failed results of the stage, which are pending with everything else kept, and writing them is legal in the reopened stage |
| `BoundaryRules.ReopenedIsRequeued` | src/cred_scan/orch/boundary.py:229-236 | a retry leaves nothing of its stage failed: exactly the failed items are pending with all their other fields kept, every other item, report and file is as it was, and the record names the stage |
| `BoundaryRules.RefreshAllowed` | src/cred_scan/orch/boundary.py:314-343 | the order record-then-targets on a reopening and targets-then-record otherwise is legal write by write |
| `BoundaryOperations.Boundary.Write` | src/cred_scan/orch/boundary.py:126-139 | one atomic replacement, logged, after which the directory is consistent; the phase goes back only with a licence |
| `BoundaryOperations.Boundary.LoadState` | src/cred_scan/orch/boundary.py:67-113 | on any directory: a missing record or document is the error of the source, an absent boundary is declined, and after a load memory equals the directory |
| `BoundaryOperations.Boundary.Checkpoint` | src/cred_scan/orch/boundary.py:266-280 | targets, then report, then credentials are written, each legal when its turn comes |
| `BoundaryOperations.Boundary.Operation` | src/cred_scan/orch/boundary.py:210-245 | a missing record is refused; an eligible command either serves in its own phase or audits a done boundary without a write; a served retry has requeued exactly the failed items of its stage and leaves none failed, and any other entry writes nothing |
| `BoundaryOperations.Boundary.Requeue` | src/cred_scan/orch/boundary.py:229-236 | the record is written before the requeued documents; exactly the failed items of the stage are pending, everything else is as it was |
| `BoundaryOperations.Boundary.Advance` | src/cred_scan/orch/boundary.py:261-264 | the phase moves to its successor only with services closed and the results of the stage complete |
| `BoundaryOperations.Boundary.ResetInterrupted` | src/cred_scan/orch/boundary.py:362-370 | exactly the running targets become pending |
| `BoundaryOperations.Boundary.AttemptNext` | src/cred_scan/orch/boundary.py:378-386 | one target is attempted by at most three runs of the scanner, on no other target, and its saved result tells how the last of them ended; interrupted, it is saved as running |
| `BoundaryOperations.Boundary.AttemptTargets` | src/cred_scan/orch/boundary.py:372-392 | the record of the scanner gains between one and three runs for each pending target and none for any other; each saved result tells how the last run on that target ended, and no other target changes; an interruption leaves at most the last target running |
| `BoundaryOperations.Boundary.Publish` | src/cred_scan/orch/boundary.py:394-417 | exactly one export is made when there is a datastore or a target, and none otherwise; the saved report has the stamp and the findings of that export and the errors of the inventory; without faults the export fails exactly for targets without a datastore; the first checkpoint saves the report beside the old credentials, the second the merge of the history with what the report converts to; an error between them leaves exactly the first |
| `BoundaryOperations.Boundary.ScanBoundary` | src/cred_scan/orch/boundary.py:348-417 | a finished scan ran the scanner one to three times on each unfinished target and on no other, saved for each how its last run ended, published the findings of its one export and the credentials they convert to, changed nothing else, and wrote the phase last; without faults it raises exactly when there are targets and no datastore to export; an error leaves the phase at scan, the credentials alone, and no false result |
| `BoundaryOperations.Boundary.JudgeOne` | src/cred_scan/orch/boundary.py:459-477 | the judge is asked once; a ruling is saved with its verdict and reasoning, any other answer but a fatal one as a failure with its text |
| `BoundaryOperations.Boundary.RunJudge` | src/cred_scan/orch/boundary.py:448-479 | the judge is asked exactly once about each pending credential and about no other, and each saved judgment is what it answered; what was answered before a fatal error stays saved and nothing else changed |
| `BoundaryOperations.Boundary.JudgeBoundary` | src/cred_scan/orch/boundary.py:440-446 | a finished judge asked once about exactly the pending judgments, saved the verdict and reasoning of each ruling and the text of each failure, changed nothing but them and the phase, and counts them; after a fatal answer the earlier ones are saved and the phase is judge |
| `BoundaryOperations.Boundary.AuditEvidence` | src/cred_scan/orch/boundary.py:492-507 | the audit reports exactly the retained credentials whose file is gone, and none in a consistent directory |
| `BoundaryOperations.Boundary.RetainEvidence` | src/cred_scan/extract/evidence.py:48-75 | the file steps equal the specified retention, and adoption is reported exactly when the destination was free, equal, or on the temporary inode |
| `BoundaryOperations.Boundary.ExtractOne` | src/cred_scan/extract/evidence.py:84-98 | the reader is asked once; raised exactly for conflicting bytes that are reached; a reading error, an unsafe name, each storage fault (no directory, unopened, torn or late) and success leave the files and the saved result that the code leaves, and retained metadata is true |
| `BoundaryOperations.Boundary.RunExtract` | src/cred_scan/orch/boundary.py:509-550 | each pending extraction is settled once, skipped with the true reason where the judgment forbids it; the reader is asked exactly once for each of the others, and each saved result says what came of it: the bytes read are at the recorded path with their size and digest, or the reading error, the unsafe name or the storage fault is the saved text; it raises only for a conflict, and without faults exactly when one of them is obstructed |
| `BoundaryOperations.Boundary.ExtractBoundary` | src/cred_scan/orch/boundary.py:481-490 | a done boundary is only audited; without faults the command raises exactly when something it owes is obstructed, and otherwise everything owed is retained with the content of its first occurrence, as far as its file name is plain; nothing is left pending and the phase is done; a conflict leaves every earlier result true and its own credential as it was |
| `BoundaryOperations.Boundary.RefreshInventory` | src/cred_scan/orch/boundary.py:289-346 | the phase survives exactly when an available boundary keeps its target IDs; readiness is revoked before targets change; failures and absence write what they must and no more |
| `BoundaryOperations.Boundary.EnrollInventory` | src/cred_scan/orch/boundary.py:282-287 | only an unregistered boundary is enrolled, under its own backend, and it starts in scan |
| `BoundaryOperations.Boundary.PassScan` | src/cred_scan/orch/boundary.py:348-417 | the fault-free scan from any live directory: what it wrote, ran, exported, published and left, and that it raises exactly when a due scan has targets but no datastore |
| `BoundaryOperations.Boundary.Pass` | src/cred_scan/orch/boundary.py:348-490 | from any available consistent state, with any retry flags, the three logs of one fault-free scan, judge and extract lead from the starting directory to the last; each command did its whole work or was not due: the exported findings are published, each judgment is what the judge answered, each owed first occurrence is retained byte by byte; it ends in done unless the scan has nothing to export or extraction owes an obstructed destination, and always in done from an exportable directory with tended files |
| `BoundaryRules.TendedIsClear` | src/cred_scan/orch/boundary.py:509-550 | when every file belongs to a known credential and nothing that may be owed is obstructed, no scan or judge can bring about an obstruction |
| `BoundaryRules.FilesStay` | src/cred_scan/extract/evidence.py:78-98 | only the extract command touches evidence files |
| `TornOrphans.TornOrphanIsReached` | src/cred_scan/extract/evidence.py:57-74 | two attempts that are stopped, the first after the link and the second after it opened the temporary name, lead from an empty directory to an obstructed boundary |
| `Batches.RunStage` | src/cred_scan/orch/workspace.py:274-284 | an ineligible boundary is untouched and counts nothing; on an eligible one the whole work of the stage is done, retries included, it is handed on, and it counts one scan or the questions put to judge or reader; without faults only a missing export or an obstruction raises |
| `Batches.SelectBatch` | src/cred_scan/orch/workspace.py:264-272 | the batch is exactly the boundaries eligible at the start |
| `Batches.RunBatch` | src/cred_scan/orch/workspace.py:216-228 | each boundary of the batch keeps its history, has the work of the stage done and is handed on, and the total is the sum of their counts, unless something raised |
| `Batches.RunSources` | src/cred_scan/orch/runtime.py:58-80 | the whole batch is captured before any work; the other boundaries are not touched; the total is the sum over the batch |
| `Interleaving.OneHolder` | src/cred_scan/orch/workspace.py:264-284 | in any interleaving no boundary is held by two commands, from selection to hand-off or crash |
| `Interleaving.HeldIsUndisturbed` | src/cred_scan/orch/boundary.py:210-264 | while a command holds a boundary no other write reaches it, so no earlier owner's write lands after a later load began |
| `Interleaving.MemoryIsCurrent` | src/cred_scan/orch/boundary.py:67-113 | what a task has read, document by document, still is what the directory holds; the second eligibility test never changes the decision and loading never fails |
| `Interleaving.HistoriesAreSequential` | src/cred_scan/orch/runtime.py:58-80 | each boundary's history is a sequence of legal single-stage turns, whatever happened concurrently, and its directory is consistent |
| `Interleaving.OrdinaryCommandPlays` | src/cred_scan/orch/boundary.py:210-264 | an ordinary command of the boundary object, step by step: selection, the second look, four reads, and then every write of its log as one that a task may decide from its own memory, up to the hand-off |
| `Interleaving.CommandIsTurn` | src/cred_scan/orch/boundary.py:210-264 | a retry or a refresh of the boundary object is one admissible turn on a boundary nobody holds and takes the directory where the command did |
| `Interleaving.WriteKeeps` | src/cred_scan/orch/boundary.py:266-280 | a write decided from private memory is legal on the directory as it is |
| `Interleaving.MoveKeeps` | src/cred_scan/orch/runtime.py:58-80 | every move of every process keeps every boundary sound |
| `Interleaving.OrdinaryMovesAdvance` | src/cred_scan/orch/boundary.py:180-194 | ordinary commands only move a boundary forward, one stage at a time, and never write to a done one |
| `Interleaving.BatchIsFixed` | src/cred_scan/orch/runtime.py:66-80 | a running process takes no boundary on that its snapshot did not select |
| `InventoryMerge.MergeInventory` | src/cred_scan/backend/inventory.py:8-24 | rejected exactly for an incomplete discovery; otherwise discovered scopes with the results of known IDs and fresh results elsewhere |
| `InventoryMerge.MergeIsStable` | src/cred_scan/backend/inventory.py:18-24 | the merged inventory is valid and merging the same discovery again changes nothing |
| `Titus.Scanner.ScanOnce` | src/cred_scan/scan/titus.py:121-212 | one run of the process; the saved result tells whether it was clean, and a retry is advised exactly when it may help |
| `Titus.Scanner.Scan` | src/cred_scan/scan/titus.py:108-119 | the attempts made are at most three, all on this target, ended by the first clean or permanent one, and settle it by the last of them; a datastore is there afterwards exactly when it was before or one of them made it; a raised error leaves the target running |
| `CredentialMerge.DistinctInFirstSeenOrder` | src/cred_scan/orch/credentials.py:38-45 | occurrences are kept in first-seen order |
| `CredentialMerge.MergeOccurrencesAssociative` | src/cred_scan/orch/credentials.py:38-45 | merging occurrences is associative |
| `CredentialMerge.MergeOccurrencesAbsorbs` | src/cred_scan/orch/credentials.py:38-45 | x, then y, then x again equals x, then y |
| `CredentialMerge.MergeOccurrencesExtends` | src/cred_scan/orch/credentials.py:38-45 | the known list stays as a prefix exactly when it repeats nothing; its head always stays |
| `CredentialMerge.MergeScanAssociative` | src/cred_scan/orch/credentials.py:6-35 | merging scans in any grouping gives one document |
| `CredentialMerge.MergeIdempotent` | src/cred_scan/orch/credentials.py:6-35 | merging a document into itself changes nothing exactly when it repeats no occurrence |
| `CredentialMerge.MergeKeepsHistory` | src/cred_scan/orch/credentials.py:6-35 | IDs, judgments, extractions and first occurrences always stay; the whole history is extended exactly when known lists repeat nothing |
| `CredentialMerge.MergeScanMeans` | src/cred_scan/orch/credentials.py:6-35 | a known credential keeps everything but an empty value and gains the new occurrences after its own, a new one is taken as found without repetition, and stamp and errors are those of the new scan |
| `MergeInPlace.MergeOccurrences` | src/cred_scan/orch/credentials.py:38-45 | the filling loop computes the specified merge |
| `MergeInPlace.MergeScan` | src/cred_scan/orch/credentials.py:6-35 | the in-place merge shows the pure merge of the old contents even when both documents are one object or share credentials, adopts new ones by reference, and leaves a separate discovered document's own fields alone |
| `Conversion.OccurrencesAreSightings` | src/cred_scan/scan/credentials.py:146-182 | the occurrences of an ID are exactly the locators of its surviving sightings over all its findings |
| `Conversion.OccurrencesInSightingOrder` | src/cred_scan/scan/credentials.py:161-182 | occurrences stand in the order of their first sightings in the report, so occurrence 0, the one evidence is taken from, is the first sighting of all |
| `Conversion.ExcludedStaysOut` | src/cred_scan/scan/credentials.py:176-177 | a locator that every match of an ID reaches only under an excluded source path is in no published credential of that ID |
| `Conversion.ValueIsFirstSeen` | src/cred_scan/scan/credentials.py:150-160 | the value is that of the first finding of the ID that has one |
| `Conversion.ResolveMatches` | src/cred_scan/scan/credentials.py:161-182 | one finding adds its new surviving locators in order and one error per failed resolution |
| `Conversion.Activate` | src/cred_scan/scan/credentials.py:184-199 | an ID is active exactly when a location survives and its value is not excluded |
| `Conversion.ComplaintsAreFailures` | src/cred_scan/scan/credentials.py:165-175 | the conversion errors are exactly one for each failed resolution of a match, in report order, each with its text |
| `Conversion.Deduplicate` | src/cred_scan/scan/credentials.py:136-205 | said of the findings alone: an ID is published exactly when it is sighted and its first value is not excluded; its occurrences are its sightings, each once and in report order; the document has the stamp of the report and all three kinds of errors |
| `Conversion.PublishedIsFresh` | src/cred_scan/scan/credentials.py:192-199 | a published credential satisfies its validators, repeats no occurrence and never has an empty ID |
| `Identity.DecodeEncode` | src/cred_scan/scan/credentials.py:65-73 | strict base64 decoding undoes encoding on all data (section 4 of RFC 4648) |
| `Identity.PemForm` | src/cred_scan/scan/credentials.py:60-66 | a PEM block has the form of its data under any layout, labels and surrounding space |
| `Identity.BareForm` | src/cred_scan/scan/credentials.py:67-73 | bare base64 of a key has the form of the key under any layout |
| `Identity.KeyHasOneForm` | src/cred_scan/scan/credentials.py:56-73 | base64 and PEM spellings of a key are one credential, and its decoded text joins them exactly when it does not end in whitespace |
| `Identity.FormsNeverMeet` | src/cred_scan/scan/credentials.py:56-73 | canonical bytes agree exactly when kind and contents agree, so text and binary never coincide |
| `Identity.OrdinaryForm` | src/cred_scan/scan/credentials.py:56-77 | any other secret is its own form without the surrounding space |
| `Identity.BrokenPemForm` | src/cred_scan/scan/credentials.py:60-66 | marked text that is no base64 has its compact text as form |
| `Evidence.QuoteInjective` | src/cred_scan/extract/evidence.py:32 | credential directories agree exactly when the IDs do |
| `Evidence.QuoteIsOneComponent` | src/cred_scan/extract/evidence.py:32 | an encoded ID never contains a separator |
| `Evidence.DestinationsMeet` | src/cred_scan/extract/evidence.py:23-32 | two destinations agree exactly when file names and IDs agree, or both IDs vanish from the path |
| `Evidence.DestinationsStayInside` | src/cred_scan/extract/evidence.py:23-32 | a destination lies in the evidence directory exactly when the ID is not ".." |
| `Evidence.TemporaryIsApart` | src/cred_scan/extract/evidence.py:58 | a temporary name is never another credential's destination |
| `Evidence.RetainFrame` | src/cred_scan/extract/evidence.py:48-75 | every name on another inode keeps its bytes, the temporary name is gone, and success leaves the content at the destination |
| `Evidence.OrphanAdoption` | src/cred_scan/extract/evidence.py:64-71 | an attempt that runs to its end adopts existing bytes exactly when they are equal or left with their temporary name, and replaces them only in the latter case |
| `Evidence.OccupiedDestination` | src/cred_scan/extract/evidence.py:57-74 | after every number of steps of any attempt, complete or torn: the bytes at an occupied destination, which the first step already empties when they share the temporary inode |
| `Evidence.LinkedBytesSurvive` | src/cred_scan/extract/evidence.py:57-74 | linked bytes survive every stop of an attempt exactly when they do not share the temporary inode (or all bytes concerned are empty) |
| `Evidence.FreeDestination` | src/cred_scan/extract/evidence.py:57-74 | after every number of steps a free destination is still free or, once linked, complete |
| `Evidence.CrashedLinkIsOverwritten` | src/cred_scan/extract/evidence.py:60-74 | a concrete crash between link and unlink after which another attempt replaces the linked bytes |
| `Migration.PlanBecomes` | src/cred_scan/tools/migrate_workspace_schema.py:138-232 | the writes of an accepted boundary leave exactly the converted documents and the chosen phase |
| `Migration.ChosenPhase` | src/cred_scan/tools/migrate_workspace_schema.py:79-112 | the chosen phase never claims more than the legacy documents show |
| `Migration.PhaseOfMigrated` | src/cred_scan/tools/migrate_workspace_schema.py:79-112 | on the disk after the writes of an accepted boundary: an override names the recorded phase, an absent boundary and a pending legacy publication are scanned again, and in every other case the recorded phase is sound for the documents and no later phase is |
| `Migration.PlanIsAccepted` | src/cred_scan/tools/migrate_workspace_schema.py:138-232 | a boundary is accepted exactly when every document has its legacy schema, its identity and recognised, valid contents, targets are there exactly for an available boundary, and the override is a rescan or reached, or without one the publication is not ambiguous |
| `Migration.MigrationIsSound` | src/cred_scan/tools/migrate_workspace_schema.py:126-234 | every accepted boundary, under any accepted override, ends in a phase that its documents deserve and in valid documents |
| `Migration.MigrationEstablishes` | src/cred_scan/tools/migrate_workspace_schema.py:126-234 | the whole runtime invariant holds after migration exactly when the legacy history was faithful: known IDs, distinct occurrences, evidence as recorded, no stray hard links |
| `Migration.MigrationKeepsHistory` | src/cred_scan/tools/migrate_workspace_schema.py:46-76 | every ID, value, occurrence, ruling, diagnostic, evidence record, finding, target result and document error is kept; a partial target has failed |
| `Migration.OverrideIsAcceptedWhenSound` | src/cred_scan/tools/migrate_workspace_schema.py:176-185 | without a pending legacy publication an override is accepted exactly when that phase is sound for the converted documents |
| `MigrationRun.PlanIsPlanned` | src/cred_scan/tools/migrate_workspace_schema.py:189-232 | a plan rewrites each legacy document of its boundary once, with its original bytes, and the record last |
| `MigrationRun.PartialPlan` | src/cred_scan/tools/migrate_workspace_schema.py:146-150 | a boundary stopped between its first and last write is rejected, so nothing is converted twice; a finished one has nothing left |
| `MigrationRun.CrashPoint` | src/cred_scan/tools/migrate_workspace_schema.py:255-257 | after any number of document writes a current record has only converted documents beside it, and a rerun is accepted exactly between boundaries with exactly the missing writes |
| `MigrationRun.AlwaysRecoverable` | src/cred_scan/tools/migrate_workspace_schema.py:235-257 | between any two file operations each document has its original bytes or a complete backup of them |
| `MigrationRun.RerunAfterCrash` | src/cred_scan/tools/migrate_workspace_schema.py:242-257 | a rerun is accepted exactly when no boundary is half converted and no backup is torn, and ends in the documents of the uninterrupted run |
| `MigrationRun.RerunIsIdle` | src/cred_scan/tools/migrate_workspace_schema.py:146-148 | after a complete run a second one finds nothing to do |
| `MigrationRun.WholeRunEstablishes` | src/cred_scan/tools/migrate_workspace_schema.py:115-258 | after any accepted whole run each legacy boundary has the phase that is due to it, valid documents and its own history, and the whole invariant exactly when that history was faithful |
| `MigrationRun.PreflightIsAccepted` | src/cred_scan/tools/migrate_workspace_schema.py:130-258 | the workspace is accepted exactly when each of its boundaries is, and the count is the number of legacy ones |
| `MigrationRun.ConvertCredentials` | src/cred_scan/tools/migrate_workspace_schema.py:46-76 | the conversion loop accepts exactly recognised verdicts and statuses and computes the specified document |
| `MigrationRun.ConvertTargets` | src/cred_scan/tools/migrate_workspace_schema.py:190-200 | the target loop accepts exactly recognised statuses and turns partial into failed |
| `MigrationRun.Workspace.PlanBoundary` | src/cred_scan/tools/migrate_workspace_schema.py:138-232 | preflight of one boundary, writing nothing; `Migration.PlanIsAccepted` and `Migration.PhaseOfMigrated` say what is accepted and what it becomes |
| `MigrationRun.Workspace.PreflightAll` | src/cred_scan/tools/migrate_workspace_schema.py:130-234 | one rejected boundary rejects the whole workspace |
| `MigrationRun.Workspace.BackUp` | src/cred_scan/tools/migrate_workspace_schema.py:239-254 | an equal backup is kept, a different one refused, a missing one made in two steps |
| `MigrationRun.Workspace.Migrate` | src/cred_scan/tools/migrate_workspace_schema.py:115-258 | accepted exactly when the markers and overrides fit, every boundary can be converted without guessing, and no legacy document is edited or differs from its backup; afterwards each legacy boundary is in the phase due to it with its history kept and backed up, and no other document has changed; a rejection changes no document; the recorded history misses no file operation and each of them ends in a safe point, so backups precede conversions |
| `Discovery.SortNames` | src/cred_scan/backend/adapters/artifactory/docker.py:512 | the names of a set, in strictly ascending order |
| `Discovery.SortedFormIsUnique` | src/cred_scan/backend/adapters/artifactory/docker.py:512 | sorted results carry no trace of the order of arrival |
| `Discovery.BelowMeans` | src/cred_scan/backend/adapters/artifactory/docker.py:512 | names are ordered by their first difference, a prefix before what it starts |
| `Discovery.PaginatedNames` | src/cred_scan/backend/adapters/artifactory/docker.py:456-512 | succeeds exactly when the link chain is complete, with exactly its names in order; requests no URL twice; missing exactly for a 404 on the first page |
| `Discovery.CompleteIsDistinct` | src/cred_scan/backend/adapters/artifactory/docker.py:463-470 | a complete chain has no loop, so a repeated URL is rightly an error |
| `Discovery.Choose` | src/cred_scan/backend/adapters/artifactory/docker.py:634-657 | ambiguity is raised exactly when two digests share the newest timestamp; otherwise newest digest, all its tags, first newest index digest |
| `Discovery.SelectionIgnoresOrder` | src/cred_scan/backend/adapters/artifactory/docker.py:634-657 | digest, timestamp, aliases and ambiguity do not depend on tag order |
| `Discovery.SelectionIgnoresPaging` | src/cred_scan/backend/adapters/artifactory/docker.py:621-657 | registries with the same tags and manifests, paged and ordered in any way, give the same whole selection, index digest included |
| `Discovery.LatestIsFunctional` | src/cred_scan/backend/adapters/artifactory/docker.py:621-657 | one registry and image have one selection |
| `Discovery.LatestMeans` | src/cred_scan/backend/adapters/artifactory/docker.py:621-657 | said of the tags and their manifests: no tag is newer than the selection, exactly the tags of its digest are named, no other digest is as new, and one tag has its root digest, digest and timestamp |
| `Discovery.SelectLatest` | src/cred_scan/backend/adapters/artifactory/docker.py:621-657 | succeeds exactly when all tags are listed and resolved with timestamps and the newest digest is beyond doubt, and then returns what `Discovery.LatestMeans` says |
| `Discovery.TakeInventory` | src/cred_scan/backend/adapters/artifactory/docker.py:659-697 | absent exactly for a missing catalog; otherwise a valid inventory with one untouched target, its image and version, for each image that has a digest, or an error and some image that could not be settled |
| `Discovery.IdsDiffer` | src/cred_scan/backend/models.py:48-50 | target IDs of different images never meet |
| `Discovery.NewBoundaryIds` | src/cred_scan/orch/workspace.py:107-129 | the first unregistered IDs, each once, up to the limit, consuming discovery no further than the last of them |
| `Locators.NormalizeIsCanonical` | src/cred_scan/backend/adapters/artifactory/docker.py:115-127 | every normalised path is in normal form and a path is left alone exactly when it is in normal form |
| `Locators.SameMember` | src/cred_scan/backend/adapters/artifactory/docker.py:115-127 | two spellings have one key exactly when they lead to the same place from every directory, and a path is refused exactly when it leads nowhere else |
| `Locators.FileNameIsPlain` | src/cred_scan/backend/adapters/artifactory/docker.py:356-360 | the file name of a normal path is a safe evidence name exactly when it is not ".." |
| `Locators.ParseIsGreedy` | src/cred_scan/backend/adapters/artifactory/docker.py:59-66 | parsing finds the layer match with the longest image, and nothing exactly when nothing matches |
| `Locators.RoundTrip` | src/cred_scan/backend/adapters/artifactory/docker.py:130-161 | a printed layer locator parses back to every field exactly when its path holds no second locator tail |
| `Locators.OrdinaryRoundTrip` | src/cred_scan/backend/adapters/artifactory/docker.py:130-161 | a path without "@sha256:" always survives, normalised, and metadata parsing never captures it |
| `Locators.MetadataComesFirst` | src/cred_scan/backend/adapters/artifactory/docker.py:134-145 | a locator is read as metadata exactly when the metadata pattern matches it |
| `Locators.MetadataRoundTrip` | src/cred_scan/backend/adapters/artifactory/docker.py:134-145 | a printed metadata locator parses back to every field |
| `Locators.FindFile` | src/cred_scan/backend/adapters/artifactory/docker.py:302-328 | the first regular, non-whiteout member with the same normal form decides, and nothing is found exactly when there is none |
| `Settling.Owner.JoinFrom` | src/cred_scan/scan/titus.py:61-67 | the loop awaits exactly until the work has settled and remembers exactly whether a cancellation arrived |
| `Settling.Owner.Reap` | src/cred_scan/scan/titus.py:55-70 | a live child is killed, awaited until it has settled whatever is cancelled, and only then looked at; the cancellation surfaces unless reaping fails |
| `Settling.ReapedIsJoined` | src/cred_scan/scan/titus.py:55-70 | in that trace no result is looked at before a settling await, and every work started is seen to settle |
| `Settling.Owner.Spawn` | src/cred_scan/scan/titus.py:73-88 | the launch is awaited until it has settled, and a child that no caller receives is then reaped; the exit is exact |
| `Settling.SpawnedIsJoined` | src/cred_scan/scan/titus.py:73-88 | the owner leaves only after launch and reaping have settled, and a live child that no caller received was killed and reaped |
| `Settling.Owner.ReadArchive` | src/cred_scan/backend/adapters/artifactory/docker.py:164-181 | the archive is deleted last, after the awaits of its worker up to settlement; an arriving cancellation always surfaces |
| `Settling.ArchiveOutlivesWorker` | src/cred_scan/backend/adapters/artifactory/docker.py:164-181 | no deletion and no look at the result precedes a settling await, so at every point before it the archive still exists |
| `Settling.Lifetime.Close` | src/cred_scan/orch/workspace.py:301-325 | closing runs once, awaits its cleanup until it has settled under any cancellations, and surfaces them unless cleanup fails |
| `Settling.ClosedIsJoined` | src/cred_scan/orch/workspace.py:301-325 | the owner leaves only after the cleanup has settled |

## Left out

- Layout of stored text: JSON, timestamps as text, temporary files and fsync of document writes are one atomic replacement; stored documents are compared as payloads, not bytes.
- Iteration order: documents that index by a unique ID are maps, so the order in which items of one document are attempted is arbitrary; every contract holds for all orders.
- Duplicate IDs: scan targets are a map from ID to target, so the validator that rejects a repeated ID has no counterpart.
- Error texts: which of several errors is reported first, and exact messages, are not modelled, except that a saved failure always has a text.
- The ID "..": its evidence directory is the boundary directory itself (`Evidence.DestinationsStayInside`); the four documents and the evidence files are separate in the model, so a collision there is not represented.
- Symbolic links, file name length limits and edits of the directory by others: hypotheses. The inventory-alone and idle-before-retry operating rules are hypotheses too; in `Interleaving` such commands act only on a boundary that no other command is concerned with.
- File names and contents: both are functions of the locator, which is immutable and fully qualified; a reader that answers differently on two fault-free reads is not represented.
- MigrationRun.Workspace.Migrate: boundaries are given in a list; enumerating directories is not modelled, and an already migrated boundary contributes an empty plan.
- Batches.RunBatch: see the next line; it stops at the first error, where the source cancels the other boundaries of the batch.
- Batches.RunSources: boundaries of one batch run one after another there; their concurrency is the subject of `Interleaving`, which abstracts each command to the single reads and writes the protocol allows it (the same rule that `BoundaryOperations.Boundary.Write` demands of every write).
- Titus.Scanner.Scan: an attempt whose arguments cannot be built counts as one attempt, although no process is started.
- Titus.Scanner.ExportReport: which findings and which stamp an export yields is arbitrary; what is published is tied to them.
- Secret selection: which group or named match of a finding is its secret (`credential_identity`) is a parameter; only the canonical form of the secret is modelled. Surrogate code points do not exist in the model.
- Registry transport: HTTP, redirects and JSON of registry responses are one answer per URL; platform resolution of an index manifest is a parameter, as is the version hash, of which only the length is used.
- Layer lookup: matching a layer digest against the manifest or the image configuration.
- Settling.Lifetime.Close: closing every boundary and then the backend is one work; nothing is said about the order inside it, nor that all boundaries finish when one fails.
- An endless stream of cancellations.
- Judge prompts, rate limits, Titus output parsing, exclusion pattern syntax, configuration, logging, the command line, package and GHES scopes: no property of the lifecycle depends on them.
