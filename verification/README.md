# Service portal: verified model of the backend's state machines

The backend is a set of small machines over SQL tables and files: resumable ingestion
of logs into a Bronze/Silver/Gold lakehouse, the life of lakehouse files, a ticket
lifecycle with an SLA sweep, content moderation, a login lockout, a rate limiter,
cursor pagination and bounded uploads. This project models them in Dafny and proves
what they keep over whole runs. `dafny verify dfyconfig.toml` checks everything.

How the parts are modelled:

- A SQL table is a map, or a sequence in id order; one statement or file operation is
  one atomic step; `NOW()` is an explicit clock that does not go back. Where calls
  overlap (ingestion, the SLA sweep, the lifecycle sweep) there is a datatype of
  events, a total `Apply` and runs `Exec` over any sequence of events; an event that
  cannot happen where the system stands changes nothing.
- Every fallible operation has an outcome in the event or in a parameter, so theorems
  hold for every combination of failures they do not exclude by name.
- What the service updates in place is a class whose methods follow the source branch
  by branch and are proved against the same specification functions the run theorems
  are about.
- Hashes stand for what they are taken of, and JSON for the value that is read back from
  it. For texts that is not always the value written: bytes that are not valid UTF-8 are
  replaced (`Utf8.dfy`). The column that stores schema snapshots is modelled by its text,
  because the code compares texts there: whatever text the column gives back, it decodes
  to the value written.
- Bytes of a log are characters. Times are whole seconds, and nanoseconds for file names.

| file | content |
|---|---|
| `Runs.dfy` | maximal runs of characters: the theory behind log lines and tokens |
| `LogFile.dfy`, `FilesystemDrop.dfy` | the pullers |
| `Utf8.dfy`, `Marking.dfy` | what JSON keeps of a text; texts that can be told apart when put together |
| `Lexicographic.dfy`, `Silver.dfy` | string order, the stable sort of the Silver layer |
| `IngestProtocol.dfy`, `IngestJobs.dfy` | RunJob as interleaved steps; no loss; job rows |
| `CatalogueFiles.dfy` | ingestion and the life of lakehouse files together; no loss, down to the disk |
| `IngestRuns.dfy`, `IngestService.dfy`, `IngestExactlyOnce.dfy` | RunJob as one call, as the service performs it, and what sequential calls ingest |
| `SchemaVersions.dfy` | breaking changes, version history, canonical form |
| `Lakehouse.dfy`, `LakehouseSweep.dfy`, `SweepEffects.dfy`, `LakehouseService.dfy`, `Lineage.dfy` | files, holds, sweeps, lineage |
| `Tickets.dfy`, `TicketStore.dfy` | ticket lifecycle and SLA sweep |
| `SlidingWindow.dfy`, `RateLimiter.dfy`, `ClientKey.dfy` | the rate limiter and its reference |
| `Screening.dfy`, `TermCache.dfy`, `Freezes.dfy` | moderation |
| `Lockout.dfy`, `Pagination.dfy`, `Upload.dfy` | login lockout, cursors, uploads |

Where the code and its documentation disagree, the model follows the code:

- `repo/README.md:349` and the comment at `repo/backend/internal/lakehouse/service.go:216`
  promise that a legal hold on a job protects files. The sweep discards job ids, so it
  does not (`LakehouseSweep.JobHoldsProtectNothing`).
- `repo/README.md:382` promises a 15-minute lock. The account is free again ten minutes
  after its fifth last failure; the 15 minutes only show in the announced time
  (`Lockout.RefusedExactly`, `Lockout.ReleaseExactly`).
- The comment at `repo/backend/internal/ticket/sla.go:58-60` says a second notification
  is avoided because the flag is set. A ticket that leaves the open states between the
  two statements is missed by the second: it is notified and not flagged. A ticket is
  notified at most once more than it is missed (`Tickets.NotifiedOncePerMiss`), and after
  a miss it can be notified again if and only if it was then Completed, because an
  administrator can reopen it (`Tickets.NotifiedAgainExactly`).
- `repo/backend/internal/ticket/sla.go:21-22` promises a notification for each newly
  breached ticket. A flagged ticket is ever notified if and only if the first statement
  listed it (`Tickets.FlaggedHeardExactly`). One that falls due or is reopened between the
  two statements is not in the list, and neither is one that was lost because the result
  set broke off, which nothing checks (`Tickets.UnheardRoutes`, `Tickets.ReopenedUnheard`,
  `Tickets.BrokenOffUnheard`).
- `repo/backend/internal/lakehouse/service.go:167-168` promises the full input chain; the
  walk stops after eight steps (`Lineage.CapTruncates`), which is enough for every graph
  that ingestion builds (`Lineage.LineageComplete`). But a write whose lineage statement
  fails leaves its row without inputs, and then the chain is not in the table at all
  (`Lineage.AncestorsShownExactly`).
- The comment at `repo/backend/internal/ingest/service.go:348-351` says an identical schema
  inserts nothing. `schema_json` is a JSON column, which gives a text back with its own
  spacing, and the code compares that text with the one it would write. Unless the column
  keeps the text, every recording of the same schema adds a version
  (`SchemaVersions.RepeatExactly`, `SchemaVersions.LineTwice`).
- The comment at `repo/backend/internal/ingest/service.go:290-297` lists narrowing rules;
  the code treats every change of type as breaking (`SchemaVersions.IsTypeNarrowing`).
- The comment at `repo/backend/internal/ingest/runner.go:61-62` says an error is also
  persisted on the job row. The update that does it may fail, which the code ignores; then
  the row says running for ever and no call on the job is let in again
  (`IngestRuns.JobAfterCall`, `IngestJobs.StuckExactly`).
- The filesystem puller is described as resumable; with every checkpoint saved and found, a
  file that arrives with a modification time not after the checkpoint is never ingested
  (`FilesystemDrop.OnceIfNewer`), and a failed save or lookup, both of which the code
  ignores, ingests files again (`FilesystemDrop.AgainExactly`).
- The log puller emits one record per line, but not every byte of a line survives: a byte
  that is part of no UTF-8 character is replaced, and both halves of a character that a
  read boundary cuts are (`IngestProtocol.ReadBackExactly`, `IngestExactlyOnce.CutCharacterLost`).

## Model

| member | source | states |
|---|---|---|
| Runs.CutTexts | repo/backend/internal/ingest/runner.go:301-308 | cutting a text commutes with listing its runs if and only if the cut is next to a delimiter or at an end |
| Runs.TextsConserve | repo/backend/internal/ingest/runner.go:301-308 | the runs put end to end are the text without its delimiters: nothing lost, nothing invented |
| Runs.SpotsComplete | repo/backend/internal/moderation/service.go:219-226 | an interval is a maximal run exactly when it is one of the listed ones |
| LogFile.PullLines | repo/backend/internal/ingest/runner.go:301-309 | the trim, split and skip-empty loop yields exactly the lines of the bytes read |
| LogFile.SplitIsLines | repo/backend/internal/ingest/runner.go:301-308 | splitting at newlines and dropping empty pieces lists the maximal newline-free runs |
| LogFile.ReadConserves | repo/backend/internal/ingest/runner.go:296-309 | one read's records, end to end, are its bytes without newlines |
| LogFile.ResumeCommutes | repo/backend/internal/ingest/runner.go:282-313 | resuming at an offset gives the same lines as one read if and only if the offset is next to a newline or at an end; otherwise one record more |
| LogFile.StartOffset | repo/backend/internal/ingest/runner.go:290-292 | a resumed offset within the file is kept, one past the end restarts at 0 |
| Utf8.StoredExactly | repo/backend/internal/ingest/runner.go:309 | a text is read back from JSON as it was written if and only if it is valid UTF-8 |
| Utf8.KeepsExactly | repo/backend/internal/ingest/runner.go:309 | the byte sequence that the encoder takes a byte with is read back in its place, and unchanged if and only if it is a character |
| Utf8.ValidExactly | repo/backend/internal/ingest/runner.go:309 | a text is valid if and only if each of its bytes is part of a character |
| Utf8.AsciiSurvives | repo/backend/internal/ingest/runner.go:309 | a byte below 0x80 is a character by itself wherever it stands |
| Utf8.InvalidByte | repo/backend/internal/ingest/runner.go:309 | the byte 0xFF is read back as U+FFFD |
| Utf8.UnitExactly | repo/backend/internal/ingest/runner.go:309 | what the encoder keeps whole are the encodings of the code points other than surrogates, of one to four bytes, and nothing else |
| FilesystemDrop.PullFilesystemDrop | repo/backend/internal/ingest/runner.go:337-389 | the walk returns the files newer than the checkpoint and the new checkpoint, or fails as a whole at the first entry that cannot be examined or new file that cannot be read, and names it |
| FilesystemDrop.PulledInPlace | repo/backend/internal/ingest/runner.go:337-389 | every newer file of the walk is pulled at its place between the newer ones before and behind it, and nothing else is |
| FilesystemDrop.CheckpointCovers | repo/backend/internal/ingest/runner.go:384-388 | the saved time never goes back and no file of the directory is later than it |
| FilesystemDrop.IngestedExactly | repo/backend/internal/ingest/runner.go:330-389 | a pull ingests exactly the files it sees that are newer than the checkpoint it reads; if the lookup fails, all of them |
| FilesystemDrop.OnceIfNewer | repo/backend/internal/ingest/runner.go:350-352 | when every checkpoint is saved and found, a new or rewritten file is ingested by the first pull that sees it, and no other, if it is newer than every file seen before, and else never |
| FilesystemDrop.OlderNeverIngested | repo/backend/internal/ingest/runner.go:350-352 | when every checkpoint is saved and found, a file with time 10 that arrives after one with time 20 is in no pull |
| FilesystemDrop.FirstSightDecides | repo/backend/internal/ingest/runner.go:85-145 | while lookups succeed, whatever saves fail, a file is ever ingested if and only if it is newer than the checkpoint standing when it is first seen |
| FilesystemDrop.AgainExactly | repo/backend/internal/ingest/runner.go:143-146 | while lookups succeed, a later pull ingests it again if and only if the checkpoint standing then has not reached it; none does after a saved pull that saw it |
| FilesystemDrop.OlderIngestedAfterFailure | repo/backend/internal/ingest/runner.go:85 | one failed save or lookup, and the older file is ingested and the newer one twice |
| Silver.SortStable | repo/backend/internal/ingest/runner.go:402-407 | the in-place sort leaves the array as the stable sorted order of what it held |
| Silver.BuildSilver | repo/backend/internal/ingest/runner.go:397-411 | Silver is Bronze sorted by the first schema field, with the row count preserved |
| Silver.SortedInOrder | repo/backend/internal/ingest/runner.go:404-406 | the Silver order is nondecreasing in the key and has as many rows |
| Silver.SilverAscends | repo/backend/internal/ingest/runner.go:402-407 | of two Silver records the earlier has the smaller text in that field or the same, where a missing or null field counts as the text `<nil>` |
| Lexicographic.LessMeans | repo/backend/internal/ingest/runner.go:405 | one text is below another if and only if after a common beginning it ends or has the smaller character |
| Silver.SortedStable | repo/backend/internal/ingest/runner.go:404-406 | records with equal keys keep their Bronze order and none is added or dropped |
| Silver.StableSortUnique | repo/backend/internal/ingest/runner.go:404-406 | any stable sort of Bronze by that key is this one |
| IngestProtocol.StepKeepsInv | repo/backend/internal/ingest/runner.go:63-160 | every step of every interleaved call, failing or not, keeps: checkpoints and resume offsets cover only bytes already written to Bronze, and completed jobs report a Bronze row count |
| IngestProtocol.NoLoss | repo/backend/internal/ingest/runner.go:84-146 | in any interleaving with any failures and stops, every byte below a checkpoint ever saved, newlines apart, is in a line of a stretch that some Bronze row was read from and holds the record of, from then on |
| IngestProtocol.ReadBackExactly | repo/backend/internal/ingest/runner.go:296-309 | and the byte sequence around it stands unchanged in the stored text if and only if in the line as read it is part of a UTF-8 character; bytes below 0x80 always do |
| IngestProtocol.LinesKeptExactly | repo/backend/internal/ingest/runner.go:301-309 | the records of a read give its lines back if and only if all of them are valid UTF-8 |
| IngestProtocol.NeverSeesTruncation | repo/backend/internal/ingest/runner.go:290-292 | on append-only logs no call ever resumes past the end of the file |
| IngestProtocol.LayersAgree | repo/backend/internal/lakehouse/service.go:66-101 | every Silver payload is the sorted records of one earlier Bronze row, with its row count, every Gold payload is one row that reports that count of one earlier Silver row; the lineage table links a row to that one or to none |
| IngestProtocol.LinkedExactly | repo/backend/internal/lakehouse/service.go:79-98 | a row has an input exactly when it is not Bronze and the lineage statement of the write that made it went through |
| IngestProtocol.CompletedJobsHonest | repo/backend/internal/ingest/runner.go:148-156 | however calls overlap, a completed job has no error, an end time and, as both its row counts, that of a Bronze row of its source |
| IngestJobs.FailedCallCanRunAgain | repo/backend/internal/ingest/runner.go:104-126 | however calls overlap, a call that ends at the pull or at Bronze, with its status saved, leaves its job failed, with an error and an end time, and open to another call |
| IngestJobs.MarkedShutsOut | repo/backend/internal/ingest/runner.go:64-82 | a call that marks its job leaves it running, with the first start kept and no error, and no other call on it is let in |
| IngestJobs.StuckExactly | repo/backend/internal/ingest/runner.go:68-82 | the row of a job that no call is working on changes in some run if and only if it is neither running nor completed: a call that stops half-way or cannot save its last status leaves it running for ever |
| IngestProtocol.ByteInRecord | repo/backend/internal/ingest/runner.go:296-309 | a byte of a read that is no newline is inside one of its records, at its place in the log |
| IngestRuns.RunOnceIsExec | repo/backend/internal/ingest/runner.go:63-160 | a call that nothing interleaves with is a run of the protocol |
| IngestRuns.RunOnceIsPerformed | repo/backend/internal/ingest/runner.go:79-160 | the nine steps of an admitted call amount to one closed-form change of the tables, early returns included |
| IngestRuns.JobAfterCall | repo/backend/internal/ingest/runner.go:79-160 | the job row after a call that is let in, field by field: failed with an error and an end if it ends at the pull or at Bronze, completed if it gets to the end, running if that status cannot be saved; the first start is kept, and no other row changes |
| IngestRuns.TurnedAway | repo/backend/internal/ingest/runner.go:64-82 | a call on an unknown, running or completed job, or whose source cannot be read or whose first status update fails, leaves no trace |
| IngestService.Service.RunJob | repo/backend/internal/ingest/runner.go:63-160 | the procedure ends in the state the protocol's steps lead to; a call is turned away exactly on an unknown, running or completed job, an unreadable source or a failed first update; otherwise the job row ends with the reported status, failed with error and end included, or running if that could not be saved; it resumes from a newest checkpoint; it records the schema of what it pulled; it reports exactly the layer rows it wrote, each made from the one before, the Bronze row count, the status and whether the schema broke |
| IngestService.Service.Continue | repo/backend/internal/ingest/runner.go:95-160 | from a given resume offset on: which tables change at each early return and at the end, the schema-version step, and what is reported; a missing log fails the job |
| IngestService.Service.LatestCheckpointForSource | repo/backend/internal/ingest/service.go:249-261 | returns a checkpoint of the source that none of its others is newer than, and none only if there is none or the query fails |
| IngestService.Service.SaveCheckpoint | repo/backend/internal/ingest/service.go:219-231 | upserts the row of (source, job) and no other: the offset given, and the time of now unless the offset is unchanged |
| IngestService.Service.UpdateJobProgress | repo/backend/internal/ingest/service.go:200-214 | if the statement goes through, the row of that job has the status, both row counts and the error given, its first start, and as its end the time of this update if the status is an ending; nothing else changes |
| IngestService.Service.PullLogFile | repo/backend/internal/ingest/runner.go:282-314 | reads from the resume offset to where the read call stops and returns the lines in between |
| IngestService.Service.WriteLayers | repo/backend/internal/ingest/runner.go:130-141 | Silver from Bronze, then Gold from Silver only if Silver was reported written; the ids are those of the new rows; a failed lineage statement leaves the row unlinked |
| IngestExactlyOnce.SequentialTiles | repo/backend/internal/ingest/runner.go:282-314 | after sequential runs of any sources, of which those of this one fail nowhere after Bronze, the Bronze stretches tile the log up to the checkpoint, each byte once |
| IngestExactlyOnce.ExactlyOnce | repo/backend/internal/ingest/runner.go:282-314 | the records of all such runs of the source are the lines up to the checkpoint, each once and in order, if and only if no read started inside a line; else one record too many per such read |
| IngestExactlyOnce.TornLineComesTwice | repo/backend/internal/ingest/runner.go:296-309 | whenever a first read ends inside a line and a second goes on from there, two smooth runs store one record more than there are lines |
| IngestExactlyOnce.CutCharacterLost | repo/backend/internal/ingest/runner.go:296-309 | two smooth runs over a valid log whose reads part the bytes of one character store neither of them |
| IngestExactlyOnce.SavedLevel | repo/backend/internal/ingest/service.go:219-261 | with later update times the saved checkpoint is the one the next run finds, also when the upsert changes nothing |
| SchemaVersions.IsTypeNarrowing | repo/backend/internal/ingest/service.go:315-336 | for all its cases: narrowing is any change of type |
| SchemaVersions.IsBreakingSchemaChange | repo/backend/internal/ingest/service.go:298-313 | breaking exactly when some old field is not found again by name with its type |
| SchemaVersions.CarriesKeeps | repo/backend/internal/ingest/service.go:298-313 | a change that is not breaking keeps every (name, type) pair; where names decide types this is exactly its meaning |
| SchemaVersions.SelfBreaking | repo/backend/internal/ingest/service.go:298-313 | a schema is breaking against itself if and only if one of its names has two types |
| SchemaVersions.HistoryWellNumbered | repo/backend/internal/ingest/service.go:352-401 | whatever text the column gives back, versions are 1..n, each flag says whether the version drops something of the one before, and the last one is the last schema recorded |
| SchemaVersions.RepeatExactly | repo/backend/internal/ingest/service.go:364-371 | recording the current schema again adds nothing if and only if the column keeps its text; otherwise it adds an equal version, flagged if and only if a name has two types |
| SchemaVersions.NeighboursDifferExactly | repo/backend/internal/ingest/service.go:352-401 | neighbouring versions differ in every history if and only if the column gives every text back unchanged |
| SchemaVersions.BothColumnsExist | repo/backend/internal/ingest/service.go:356-365 | there are columns that keep every text and columns that keep none, both of which decode what they were given |
| SchemaVersions.LineTwice | repo/backend/internal/db/migrations/000015_lakehouse.up.sql:33 | the schema of a log source, given back with spaces and recorded twice, makes two equal versions |
| SchemaVersions.UnflaggedKeeps | repo/backend/internal/ingest/service.go:364-379 | with no breaking flag after version i up to j, every (name, type) of i is still in j, repeated names included |
| SchemaVersions.Registry.RecordSchemaVersion | repo/backend/internal/ingest/service.go:352-401 | appends to the history of that source only: nothing when the text is the stored one, else the next number with the flag that tells whether a field is lost; reports a breaking version after storing it; reading the row back may fail |
| SchemaVersions.CanonicalFaithful | repo/backend/internal/ingest/service.go:339-346 | canonical forms of lists with deciding names are equal exactly when the lists are permutations of each other |
| SchemaVersions.CanonicalAmbiguous | repo/backend/internal/ingest/service.go:342 | where equal names carry different types the unstable sort has two outcomes, so the hash is not determined |
| Lakehouse.FilesIntact | repo/backend/internal/lakehouse/service.go:66-101 | whatever file operations fail, while row updates succeed and writes read fresh nanoseconds, the file of every non-purged row holds exactly its payload and no other row names it |
| Lakehouse.ClashExact | repo/backend/internal/lakehouse/service.go:72-77 | a write under the name of a live row leaves that row intact if and only if it writes nothing or the same bytes |
| Lakehouse.StepKeepsInv | repo/backend/internal/lakehouse/service.go:217-321 | every statement of writer and sweep keeps files and rows together |
| Lakehouse.ArchiveExact | repo/backend/internal/lakehouse/service.go:295-321 | after an archive attempt the row is intact if and only if its update went through or the file operations that went through do not take the file from its old place |
| Lakehouse.LostUpdateBreaks | repo/backend/internal/lakehouse/service.go:304-318 | a run in which a rename succeeds and the row update is lost: the row names a file that is gone |
| Lakehouse.PurgeExact | repo/backend/internal/lakehouse/service.go:285-289 | after a purge the row is purged or intact if and only if its update went through or the file was not removed |
| Lakehouse.MoveFileOwn | repo/backend/internal/lakehouse/service.go:301-314 | a reported move has the file's bytes at the backup path; a failed one leaves them at the old path |
| SweepEffects.MoveFileExact | repo/backend/internal/lakehouse/service.go:295-314 | everything an archive attempt does to the files: the bytes are at the backup path if and only if the rename or the copy went through, the old path is gone if and only if the rename or the copy and the delete did, no other file changes |
| SweepEffects.PurgeRemoves | repo/backend/internal/lakehouse/service.go:285-289 | after a purge turn on a row that is not held its file is gone if the removal went through, whether or not the row was updated, and only that file |
| SweepEffects.SweepFiles | repo/backend/internal/lakehouse/service.go:250-321 | after both loops: the file of every listed, unheld row is gone if its removal went through; old paths of moved files are gone and their bytes are at the backup paths; rows that are held or not listed keep their files |
| LakehouseService.SweepDone | repo/backend/internal/lakehouse/service.go:250-321 | and the rows and counts: exactly the listed, unheld rows whose steps went through are archived or purged, and each listed row is counted once as what happened to it |
| LakehouseSweep.AgesRespected | repo/backend/internal/lakehouse/service.go:226-290 | over any run only Bronze rows are archived, none too young, and purge comes after archive and more than the purge days later |
| LakehouseSweep.HeldRowsUntouched | repo/backend/internal/lakehouse/service.go:221-284 | rows of sources held when a sweep reads its holds, and their files, stay as they are through that sweep, whatever fails and whatever happens to the holds meanwhile |
| LakehouseSweep.JobHoldsProtectNothing | repo/backend/internal/lakehouse/service.go:221 | a hold on a job alone changes nothing about which sources a sweep skips |
| LakehouseSweep.SweepConserves | repo/backend/internal/lakehouse/service.go:250-290 | archived, purged, held, failed and still to do add up to the rows selected, at every point of every sweep |
| LakehouseSweep.NotCountedTwice | repo/backend/internal/lakehouse/service.go:227-266 | no row is in both lists of a sweep whose two queries are no further apart than the purge days |
| LakehouseService.Service.RunLifecycle | repo/backend/internal/lakehouse/service.go:217-293 | with time passing, queries failing and result sets breaking off: ends as the protocol does; the lists hold exactly the rows past their days; the file of every row whose removal went through is gone, and so is the old file of every row that was moved; held and unlisted rows keep theirs; the counts are the numbers of rows archived, held and purged; the lists are disjoint unless the sweep takes longer than the purge days; a sweep in which nothing fails or is lost leaves of what it looked for only held rows; one that finds only held rows changes nothing |
| LakehouseService.Service.ArchiveAll | repo/backend/internal/lakehouse/service.go:250-259 | the loop is a run of protocol turns; each listed row is counted as held, archived or failed, as it ended; it is archived exactly if it is not held and its bytes and its update went through; the old file of a row that was moved is gone; all other rows and files stay |
| LakehouseService.Service.PurgeAll | repo/backend/internal/lakehouse/service.go:280-291 | the same for the purge loop: exactly the files of listed, unheld rows whose removal went through are gone, whatever became of the row; a listed, unheld row ends purged if and only if its update went through |
| LakehouseService.Service.SelectToArchive | repo/backend/internal/lakehouse/service.go:227-248 | lists exactly those live Bronze rows older than the days, of 86400 seconds, that are read before the result set breaks off, each once |
| LakehouseService.Service.SelectToPurge | repo/backend/internal/lakehouse/service.go:262-278 | lists exactly those archived, unpurged rows archived more than the days before, that are read before the result set breaks off, each once |
| LakehouseService.Service.ArchiveFile | repo/backend/internal/lakehouse/service.go:295-321 | rename or copy-and-delete, then the row; failure reported exactly when the row was not updated |
| LakehouseService.Service.Write | repo/backend/internal/lakehouse/service.go:66-101 | the file first and then the row, which names the file and its payload; what is left at each failure; an id exactly when the row was inserted |
| LakehouseService.Service.PlaceHold | repo/backend/internal/lakehouse/service.go:326-339 | refused if it names neither source nor job; otherwise the hold is there exactly if the INSERT went through, and its id is returned if it can be read back |
| LakehouseService.Service.ReleaseHold | repo/backend/internal/lakehouse/service.go:373-383 | releases exactly an active hold, if the statement goes through, and no other; its source is free unless another active hold names it |
| LakehouseService.Service.ActiveHoldFilter | repo/backend/internal/lakehouse/service.go:387-409 | the loop collects exactly the held sources |
| LakehouseService.SweptSettled | repo/backend/internal/lakehouse/service.go:250-290 | after two loops in which nothing failed, of what the SELECTs looked for only rows under a hold are left |
| Lineage.BuildExact | repo/backend/internal/lakehouse/service.go:173-201 | the tree shows exactly the existing rows that went into the root over at most `depth` steps |
| Lineage.LineageIsTree | repo/backend/internal/lakehouse/service.go:169-201 | the answer is the one tree in which under each row, down to eight steps, are its recorded inputs that exist, in their order, and nothing else |
| Lineage.LineageComplete | repo/backend/internal/lakehouse/service.go:169-201 | for every catalogue that ingestion builds the tree shows all ancestors that the lineage table knows and only them |
| Lineage.AncestorsShownExactly | repo/backend/internal/lakehouse/service.go:79-98 | the tree shows every row that a row was computed from if and only if the row is Bronze or its own lineage statement went through |
| Lineage.MissingAncestor | repo/backend/internal/lakehouse/service.go:79-98 | a run after which the tree of a Silver row does not show the Bronze row it was computed from |
| Lineage.CapTruncates | repo/backend/internal/lakehouse/service.go:167-181 | on a chain the first row is an ancestor of row n and is shown if and only if n is at most 8 |
| Lineage.WriteLineage | repo/backend/internal/lakehouse/service.go:89-98 | links each existing input once, up to a failing statement; inputs that existed before keep every edge going to a smaller id |
| Lineage.ChainsDescend | repo/backend/internal/lakehouse/service.go:89-98 | in such a graph every step of a chain lowers the id, so there are no cycles |
| Lineage.ChainsAreShort | repo/backend/internal/ingest/runner.go:132-137 | chains of ingested rows have at most two steps |
| CatalogueFiles.PayloadsOnDisk | repo/backend/internal/lakehouse/service.go:66-101 | with ingestion, writers, holds and sweeps interleaving, what is read from the file of every catalogue row is its payload, unless the row is an archived Bronze one that was purged |
| CatalogueFiles.NoLossOnDisk | repo/backend/internal/ingest/runner.go:84-146 | every byte below a checkpoint ever saved, newlines apart, is in a line that a Bronze row has the record of, and that record is read from its file, until the row is purged |
| CatalogueFiles.ReadBackExactly | repo/backend/internal/ingest/runner.go:309 | a payload of lines comes back from its JSON as it was written if and only if all its texts are valid UTF-8 |
| CatalogueFiles.JsonLikeExists | repo/backend/internal/ingest/runner.go:309 | there are encodings with that law |
| Tickets.NeverUndone | repo/backend/internal/ticket/service.go:200-291 | in any run Closed and Cancelled are never left, and an assigned agent, a deadline and a breach flag stay |
| Tickets.MatrixExact | repo/backend/internal/ticket/service.go:254-291 | which moves the role matrix lets through, and which refusal is a forbidden one |
| Tickets.AgentIsDispatcher | repo/backend/internal/ticket/service.go:217-228 | an agent found on a ticket that began without one is the caller of a move of that ticket to Dispatched, made with the service agent role when it had no agent |
| Tickets.ReasonIsCancellers | repo/backend/internal/ticket/service.go:217-228 | a reason found on a ticket that began without one is that of a move of that ticket to Cancelled |
| Tickets.ReasonMeansCancelled | repo/backend/internal/ticket/service.go:217-228 | a non-empty cancel reason implies Cancelled |
| Tickets.AtMostThreeChanges | repo/backend/internal/ticket/service.go:267-291 | without administrators every status change climbs in rank, so there are at most three per ticket |
| Tickets.NotifiedOncePerMiss | repo/backend/internal/ticket/sla.go:61-110 | in any run, administrators included, a ticket is notified at most once more than an UPDATE finds it selected but no longer open |
| Tickets.UnmissedNotifiedOnce | repo/backend/internal/ticket/sla.go:58-110 | without such a miss at most once |
| Tickets.NotifiedAgainExactly | repo/backend/internal/ticket/sla.go:92-107 | after a miss some continuation notifies the ticket again if and only if it was Completed |
| Tickets.FlaggedHeardExactly | repo/backend/internal/ticket/sla.go:61-110 | a ticket that the UPDATE flags is notified in some continuation if and only if it is in the list that the SELECT gave |
| Tickets.UnheardRoutes | repo/backend/internal/ticket/sla.go:62-99 | a flagged ticket that is not in the list had not passed its deadline at the SELECT, or was not open and has been reopened, or was due and lost from the result set |
| Tickets.ReopenedUnheard | repo/backend/internal/ticket/sla.go:62-99 | a run at one instant in which a reopened ticket is flagged and no continuation notifies it |
| Tickets.BrokenOffUnheard | repo/backend/internal/ticket/sla.go:76-84 | a run in which a ticket lost from the result set is flagged and no continuation notifies it |
| Tickets.NotifiedOncePerReopening | repo/backend/internal/ticket/sla.go:61-110 | in any interleaving a ticket is notified at most once more than it is taken back from Completed to an open status |
| Tickets.AtMostOneNotification | repo/backend/internal/ticket/sla.go:58-110 | without administrator moves no ticket is notified twice |
| Tickets.ReopeningNotifiesTwice | repo/backend/internal/ticket/sla.go:62-107 | a run with one miss, one reopening and two notifications of the same ticket: the bounds are met |
| TicketStore.SweepExact | repo/backend/internal/ticket/sla.go:62-99 | given whom the SELECT listed and what happened since, the flagged are the listed without the missed, and those left out, fallen due and reopened; they coincide if and only if there are none of these; no flagged ticket is selected later |
| TicketStore.WaitingIsSince | repo/backend/internal/ticket/sla.go:62-99 | in every run of the protocol between the two statements the tickets of before and after are so related |
| TicketStore.AtomicSweep | repo/backend/internal/ticket/sla.go:61-110 | the protocol's sweep with nothing in between flags what is due and notifies what was listed, complete or not |
| TicketStore.Store.SweepBreachesOnceWithNotify | repo/backend/internal/ticket/sla.go:61-110 | notifies exactly those open, unflagged tickets past their deadline at the SELECT that are read before the result set breaks off; flags exactly those at the update, if anyone was listed, and changes nothing else; at one instant with nothing lost the notified are exactly the newly flagged |
| TicketStore.Store.UpdateStatus | repo/backend/internal/ticket/service.go:200-250 | changes the row exactly when the matrix, written out by role, allows it and the write goes through: the status; the caller as agent exactly on an agent's move to Dispatched of a ticket without one; the reason exactly on a cancellation that has one; owner, deadline, flag and every other ticket stay; an error after that means only that reading back failed |
| TicketStore.Store.Create | repo/backend/internal/ticket/service.go:106-129 | if the INSERT goes through: left alone, the new ticket is due for the sweep from the first second past its deadline and not before, and changes nothing for other tickets; its owner may cancel it and any agent may take it; only reading it back can still fail |
| SlidingWindow.NeverOverLimit | repo/backend/internal/middleware/ratelimit.go:36-57 | a replayed log is in order and no window of the given length, wherever it ends, holds more admissions than the limit |
| SlidingWindow.AdmitsMeans | repo/backend/internal/middleware/ratelimit.go:41-50 | a request is admitted if and only if fewer than the limit of the entries of the full log lie in the window before it |
| SlidingWindow.AfterTwice | repo/backend/internal/middleware/ratelimit.go:41-47 | trimming twice with a later cutoff is trimming once with it |
| RateLimiter.Limiter.Limit | repo/backend/internal/middleware/ratelimit.go:32-61 | a request is admitted if and only if fewer than the limit of all admissions there ever were of its key lie in the window before it; only this key's log grows, and only by an admission; no window of time holds more than the limit of a key |
| RateLimiter.Limiter.Trim | repo/backend/internal/middleware/ratelimit.go:41-54 | the in-place compaction keeps the entries after the cutoff; on the deny path the unstored bucket is still in order |
| RateLimiter.Compact | repo/backend/internal/middleware/ratelimit.go:41-47 | the loop over the shared backing array leaves the filtered prefix, and leaves everything when nothing is dropped |
| ClientKey.Uint64ToStr | repo/backend/internal/middleware/ratelimit.go:70-80 | the digits denote the number, without leading zeros, in at most 20 bytes |
| ClientKey.CanonicalUnique | repo/backend/internal/middleware/ratelimit.go:70-80 | decimal numerals without leading zeros are unique |
| ClientKey.BucketsApart | repo/backend/internal/middleware/ratelimit.go:63-68 | two requests share a key exactly when they are of the same user, or of no user and the same address |
| ClientKey.Key | repo/backend/internal/middleware/ratelimit.go:63-68 | user requests get the prefix u: and the id, others ip: and the address |
| Screening.Tokenize | repo/backend/internal/moderation/service.go:209-228 | the builder-and-flush loop yields exactly the tokens, which are the words of the text in small letters |
| Screening.TokensAreMaximalRuns | repo/backend/internal/moderation/service.go:207-228 | tokens are all maximal alphanumeric runs of the lowered text, left to right |
| Screening.TokensExact | repo/backend/internal/moderation/service.go:207-228 | on the characters of the text: the tokens are its stretches of ASCII letters and digits between other characters, capitals 32 code points up, all of them, left to right |
| Screening.TokensIgnoreCase | repo/backend/internal/moderation/service.go:210 | two texts that differ only in the case of ASCII letters have the same tokens |
| Screening.WordIsToken | repo/backend/internal/moderation/service.go:207-228 | a text of letters and digits is a single token, of the same length, in small letters |
| Screening.TokensAcrossSpace | repo/backend/internal/moderation/middleware.go:79-88 | tokens of texts joined by a space are the tokens of the parts |
| Screening.ScanText | repo/backend/internal/moderation/service.go:183-205 | flagged terms and class are those of the tokens, computed with the seen-set loop |
| Screening.FlaggedExact | repo/backend/internal/moderation/service.go:188-197 | the flagged list is exactly the dictionary tokens, each once |
| Screening.FlaggedInOrder | repo/backend/internal/moderation/service.go:188-197 | in the order of first occurrence |
| Screening.JoinFields | repo/backend/internal/moderation/middleware.go:79-88 | the joined text is the fields that are there, each with a space behind it; it has exactly the tokens of the fields, and is empty only if no field is there |
| Screening.ScreenContent | repo/backend/internal/moderation/middleware.go:79-107 | blocked if and only if some field by itself spells a prohibited word between delimiters, in letters of either case, noted with the joined text if and only if none does but some spells a borderline one; reported words are those of all fields, each once |
| Screening.CaseDecidesNothing | repo/backend/internal/moderation/middleware.go:79-107 | requests whose fields differ only in the case of ASCII letters have the same words and hit the same classes |
| TermCache.Service.ReloadTerms | repo/backend/internal/moderation/service.go:54-78 | whatever the row order, the new cache is the dictionary of the table; a failed read keeps the old one |
| TermCache.Service.AddTerm | repo/backend/internal/moderation/service.go:114-140 | stores exactly the non-empty terms whose key is free; the cache is fresh afterwards unless the reload fails, and then it is not; an error may also mean that only reading the row back failed |
| TermCache.Service.DeleteTerm | repo/backend/internal/moderation/service.go:143-152 | removes that row; the cache is fresh afterwards unless the reload fails, and then it is not |
| TermCache.Service.Screen | repo/backend/internal/moderation/service.go:171-179 | with a fresh cache, or one that loads now, the result is the scan with the dictionary of the current table |
| TermCache.Serve | repo/backend/internal/moderation/service.go:54-179 | over any sequence of adds, deletes and screens each screen, and nothing else, is answered, with the scan of the table that the calls before it left |
| TermCache.DictUnique | repo/backend/internal/moderation/service.go:61-68 | a table with unique keys has one dictionary |
| TermCache.TermIsFound | repo/backend/internal/moderation/service.go:67 | the key of a term of letters and digits, in whatever case, is the one token of every text that spells it in whatever case |
| TermCache.TrimExact | repo/backend/internal/moderation/service.go:115 | trimming takes off the white space at both ends, all of it and nothing else |
| Freezes.DecidedOnce | repo/backend/internal/moderation/service.go:312-358 | a decided item is never decided again |
| Freezes.ViolationsAreRejections | repo/backend/internal/moderation/service.go:370-428 | an author has as many violation records as rejected items |
| Freezes.DeadlineNeverEarlier | repo/backend/internal/moderation/service.go:399-420 | a freeze deadline never moves to an earlier time |
| Freezes.FrozenExactly | repo/backend/internal/moderation/service.go:506-522 | frozen if and only if some violation's own freeze still runs, 24 hours of 3600 seconds for the first and 168 for any later one, and until the end of the latest |
| Freezes.Service.RejectItem | repo/backend/internal/moderation/service.go:351-435 | decides the item, records the violation of its author and freezes the author for 24 hours at the first violation and 168 at any later one, as one transaction, or changes nothing; an error after that means only that reading back failed |
| Freezes.Service.ApproveItem | repo/backend/internal/moderation/service.go:312-346 | approves exactly a pending item and touches nothing else; an error after that means only that reading back failed |
| Lockout.RefusedExactly | repo/backend/internal/auth/service.go:297-326 | refused if and only if five failures lie in the last ten minutes; the 15-minute comparison never frees an account |
| Lockout.RefusedMeans | repo/backend/internal/auth/service.go:297-326 | on the rows of the table: refused if and only if five failed attempts of the user are less than 600 seconds old; announced is 900 seconds after the newest of them |
| Lockout.LockMeans | repo/backend/internal/auth/service.go:297-326 | and for a check that takes its time: refused if and only if both queries are answered, five failures were recent at the first, and the newest at the second is less than 900 seconds old at the comparison; that one gives the announced end |
| Lockout.RefusedAfterFive | repo/backend/internal/auth/service.go:150-196 | over any run from an empty table, whatever fails and overlaps: a check at an instant refuses if and only if five logins of the user that got past their checks were wrong and were recorded less than ten minutes before |
| Lockout.CheckMeans | repo/backend/internal/auth/service.go:297-326 | however long the queries and the comparison take, who is refused had five recent failures when they were counted, and who is let through has fewer than five at the end |
| Lockout.ReleaseExactly | repo/backend/internal/auth/service.go:309-325 | without new failures a locked account is free ten minutes after its fifth last failure, at least five minutes before the announced time |
| Lockout.FailuresBounded | repo/backend/internal/auth/service.go:150-196 | in every sequential run every ten-minute window holds at most five recorded failures of a user |
| Lockout.NotifiedOnLocking | repo/backend/internal/auth/service.go:337-358 | with the hook set and its lookups answered, a notice goes out exactly when a login takes an existing user from unlocked to locked, and otherwise never |
| Lockout.Service.LogIn | repo/backend/internal/auth/service.go:150-196 | who is not refused is logged in exactly with the right credentials of an existing user; then one attempt of that user is appended at the time of recording, a failure exactly if not logged in; at one instant, refused exactly after five failures within 600 seconds; notices go out exactly on the fifth; fail-open when a check query fails |
| Lockout.Service.CheckLockout | repo/backend/internal/auth/service.go:297-326 | count, maximum and comparison, each at its own time and each query with its own failure, give the announced end |
| Lockout.Service.RecordAttempt | repo/backend/internal/auth/service.go:328-360 | appends one attempt and, if the hook is set and the count can be read, notifies when a failure brings the count to five |
| Pagination.Store.List | repo/backend/internal/notification/service.go:208-259 | returns the newest rows of the user in the read state asked for below the cursor, as many as the limit, or 20 for a limit outside 1 to 100, and a next cursor, the last id shown, exactly when more remain |
| Pagination.PageMeans | repo/backend/internal/notification/service.go:208-259 | what a page is: only wanted rows, newest first, none left out that is newer than one shown, and all of them without a next cursor |
| Pagination.Store.Query | repo/backend/internal/notification/service.go:213-241 | the newest matching rows below the cursor, at most n |
| Pagination.FollowAll | repo/backend/internal/notification/service.go:208-259 | following the cursor ends and gives every row that matched at the first read exactly once in descending order, whatever larger ids are inserted meanwhile |
| Pagination.FollowWhileMarking | repo/backend/internal/notification/service.go:208-259 | while rows are added and marked read or unread between the reads, no row is listed twice, only rows that matched when their page was read, and every row that matches at all reads |
| Pagination.InsertsInvisible | repo/backend/internal/notification/service.go:221-224 | rows inserted after a page was read do not show below its cursor |
| Upload.FileStore.Save | repo/backend/internal/upload/safe.go:86-190 | success leaves the whole source at the path given within the cap and nothing else changed, and reports that path, the original name, type and size; failure leaves nothing unless the removal fails; with no I/O error it succeeds if and only if the checks pass and the source fits; what each refusal means |
| Upload.FileStore.Stream | repo/backend/internal/upload/safe.go:159-180 | head plus capped copy keeps the whole source or reports it too large, without overflow at any cap |
| Upload.Stored | repo/backend/internal/upload/safe.go:166-171 | without a cap the copy is the whole source if and only if it is no longer than 512 bytes plus 2^62 |

## Left out

- Handlers, routing, CSRF, cookies, the front end, configuration, migrations and seeding: plumbing.
- AES-GCM, HMAC, bcrypt, SHA-256, UUID and JSON encoding: library code; hashes stand for their input.
- `pullDBTable`: its `LIMIT 10000` without `ORDER BY` supports no resume property; the protocol models log sources.
- Log truncation or rotation and changes to a source's configuration while jobs run: files are append-only.
- Two checkpoints of a source saved within one second: the newest-checkpoint query may then return either, and re-read a stretch; no loss still holds, exactly-once assumes distinct times.
- Collations: names and terms are compared up to ASCII letter case, and a user of the lockout is a name up to case. `RowsAffected` details and rounding in `HasRowCountDiscrepancy`, whose two arguments are always equal in RunJob.
- Two lifecycle sweeps at the same time: one sweep runs at a time, writes and holds interleave with it.
- Two UpdateStatus calls on one ticket at the same time, two reviewers on one item, and overlapping logins of one user: their checks are not transactional, so each call is atomic here.
- Texts of error messages on job rows: whether there is one is modelled.
- A lineage query that fails while the tree is built, which shows the row as if it had no inputs.
- The session that a successful login creates.
- A relative base directory against an absolute file path, where the archive name falls back to the bare file name.
- Input checks of ticket creation (ids, time window, delivery method, address owner) and of sources and jobs: simple validations of single fields.
- Content status changes made by approving and rejecting, and the moderation action log: plain assignments beside the modelled ones.
- Screening.Tokenize: characters outside ASCII that do not lower to ASCII are left as they are; they are delimiters either way.
- `SanitizeFilename`: its result enters an upload as a given; its Unicode handling is library behaviour.
- Upload.FileStore.Save: type detection is a parameter, and a source is at most as long as a 64-bit size can say.
- The same pagination code in the catalogue, review, Q&A and profile services.
- ETA and shipping, privacy exports, addresses, role membership and offerings: small or mostly library behaviour.
