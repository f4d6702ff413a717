# BackupToDrive — a verified model of the backup pipeline

BackupToDrive backs up MySQL databases and groups of local files to Google Drive.
One run does the following, in order:

1. Checks the OAuth credentials and the target folder id.
2. Prunes old backups in the Drive folder. Names are matched against glob patterns,
   then old files are chosen by age or by a keep-last count.
3. Dumps the databases with `mysqldump`: all of them together, or one by one under the
   `individual` or `except` strategy.
4. Packs every file group into a `.tar.gz`.
5. Uploads each artifact. A failed token is refreshed and the upload retried. When the
   folder is reported missing, the upload falls back to the Drive root.
6. Removes the local artifacts and prunes the Drive folder a second time.

Progress goes to the console through a tracker. On a terminal it redraws one progress
line; elsewhere it prints only milestone percents.

This project models that decision logic in Dafny. Every external effect is an input to
the model:

- the exit code, stdout and chunk sizes of a `mysql` or `mysqldump` run;
- whether the archiver fails, and its chunk sizes;
- a map from local paths to what `existsSync`/`statSync` report;
- the responses of the Drive API and of token refreshes, each failed upload attempt with the number of file chunks its stream delivered before it failed;
- the success of each remote delete and each local removal;
- the two clock readings of a run.

These inputs are mostly functions from a call's index to its outcome. The stages can
therefore be composed without length preconditions.

One module per source file:

| file | module | what it holds |
|---|---|---|
| `util.dfy` | `Util` | Option/Result, order-preserving filter, percent rounding and the capped streaming estimator, decimal rendering, the ISO file stamp, `path.basename`, `String.includes` |
| `cleanup_manager.dfy` | `Glob`, `Cleanup` | glob-to-regex translation and its meaning; remote retention (filter, strategy, delete loop) and local cleanup |
| `database_exporter.dfy` | `DatabaseExport` | `SHOW DATABASES` parsing, dump naming and progress, strategy dispatch |
| `file_compressor.dfy` | `FileCompression` | size estimate, archive entries, `createTarGz`, `compressGroups` |
| `drive_uploader.dfy` | `DriveUpload` | MIME type, one upload with refresh retries, the batch with the root fallback |
| `backup_manager.dfy` | `Backup` | `formatDuration`, `getBackupTypeName`, the reference run and the `BackupManager` class |
| `progress_tracker.dfy` | `Progress` | the 20-cell bar and the `ProgressTracker` class over an output sequence |

Imperative code in the source is modelled as Dafny methods with loop invariants:

- the delete and local-cleanup loops;
- the chunk handlers;
- the export, compression and upload loops;
- the tracker's methods.

Each of these methods is proved equal to a specification function. Lemmas then prove
the properties of that function.

## Model

| member | source | states |
|---|---|---|
| Glob.MatchesFilePattern | lib/CleanupManager.js:10-18 | a name is accepted iff some pattern matches the whole name; an empty pattern list accepts nothing |
| Glob.RegexBodyIsTranslate | lib/CleanupManager.js:12-14 | the two textual replacements (`*`→`.*`, then `?`→`.`) equal a character-by-character translation of the glob |
| Glob.ReplaceAllAppend | lib/CleanupManager.js:12-14 | a global replacement distributes over concatenation |
| Glob.TranslateAgrees | lib/CleanupManager.js:12-16 | the anchored regex built from a pattern matches a name exactly when the glob reading of the pattern does |
| Glob.StarMatchesAnyRun | lib/CleanupManager.js:13 | `*` followed by a pattern matches a name iff some prefix, the empty one included, is free of line terminators and the rest matches |
| Glob.StarAbsorbs | lib/CleanupManager.js:13 | any run without line terminators can be absorbed by `*` |
| Glob.StarSplits | lib/CleanupManager.js:13 | a match of `*` splits the name into such a run and a match of the rest |
| Glob.StarFreeMatchLength | lib/CleanupManager.js:14-15 | without `*`, each `?` and `.` consumes exactly one character, so a match has the pattern's length |
| Glob.LiteralPatternMatchesOnlyItself | lib/CleanupManager.js:12-16 | a pattern with no `*`, `?` or `.` matches exactly itself |
| Glob.StarFreeMatchesItself | lib/CleanupManager.js:12-16 | a star-free pattern without line terminators matches itself |
| Glob.LiteralPrefix | lib/CleanupManager.js:15-16 | a literal prefix of the pattern must be a prefix of the name, and the rest matches the rest |
| Glob.PrefixStarAccepts | lib/CleanupManager.js:12-16 | `pre*suf` accepts `pre` + any line + a match of `suf` |
| Glob.PrefixStarShape | lib/CleanupManager.js:12-16 | every name accepted by `pre*suf` starts with `pre` and ends with a match of `suf` |
| Glob.DbGlobAcceptsDumpNames | lib/CleanupManager.js:12-16 | `db-*.sql` accepts `db-` + any line + `.sql` |
| Glob.DbGlobShape | lib/CleanupManager.js:12-16 | every name accepted by `db-*.sql` starts with `db-` and ends with any non-terminator followed by `sql` |
| Glob.DotSqlShape | lib/CleanupManager.js:14-15 | the unescaped `.` of `.sql` matches one arbitrary character |
| Glob.DbGlobDotIsWildcard | lib/CleanupManager.js:12-15 | `db-*.sql` also accepts names such as `db-xXsql`, because `.` is not escaped |
| Cleanup.BackupFiles | lib/CleanupManager.js:52-57 | the filtered listing is a subsequence of the listing (order kept) and holds exactly the entries whose names match |
| Cleanup.BackupFilesIdempotent | lib/CleanupManager.js:55-57 | filtering twice equals filtering once |
| Cleanup.NoPatternsNoBackupFiles | lib/CleanupManager.js:10-18 | with no patterns nothing is kept |
| Cleanup.SelectByAge | lib/CleanupManager.js:65-71 | the age selection keeps, in order, exactly the files created strictly before the cutoff |
| Cleanup.SelectByCount | lib/CleanupManager.js:77 | the count selection is exactly the files from index keepLast on: max(0, n − keepLast) of them, in order |
| Cleanup.SelectForDeletion | lib/CleanupManager.js:61-79 | the age branch runs iff the strategy is 'age' and maxAgeDays is non-zero, with cutoff now − days·86400000; otherwise count |
| Cleanup.CountDeletesOldest | lib/CleanupManager.js:77 | on a listing sorted newest first (line 30), every file the count strategy deletes is no newer than every kept file |
| Cleanup.AgeDeletesSuffix | lib/CleanupManager.js:65-71 | on a listing sorted newest first (line 30), the age selection is a suffix of the listing |
| Cleanup.Confirmed | lib/CleanupManager.js:91-108 | the confirmed deletions number exactly the successful delete calls, and each one was selected |
| Cleanup.ConfirmedContainsEverySuccess | lib/CleanupManager.js:93-97 | every selected file whose delete succeeded is among the confirmed deletions |
| Cleanup.DeleteFiles | lib/CleanupManager.js:88-108 | the loop tries every selected file, and a failure does not stop it; deletedCount is the number of confirmed deletions, at most the selection size; progress is reported only after a success, in [0,100] |
| Cleanup.CleanupRemote | lib/CleanupManager.js:41-116 | disabled cleanup lists and deletes nothing; otherwise the report holds the filtered listing, the selection and the confirmed deletions; a failed listing reads as empty; everything deleted was listed and matched |
| Cleanup.CleanupLocal | lib/CleanupManager.js:118-144 | cleanedCount counts the files that existed and were removed, at most the number of files; an empty list does nothing; progress is reported for every iteration that did not throw |
| Util.Filter | lib/CleanupManager.js:55-57 | a filter keeps, in order, exactly the elements that satisfy the predicate |
| Util.FilterCounts | lib/CleanupManager.js:55-57 | a kept element occurs in the result exactly as often as in the input; a dropped one does not occur |
| Util.FilterIdempotent | lib/CleanupManager.js:55-57 | filtering a filtered sequence changes nothing |
| Util.FilterAppend | lib/FileCompressor.js:86 | filtering distributes over concatenation |
| Util.RoundPercent | lib/CleanupManager.js:99 | exact-rational rounding of `Math.round(part / whole * 100)`: the p with 2·whole·p ≤ 200·part + whole < 2·whole·(p+1) |
| Util.RoundPercentMonotone | lib/CleanupManager.js:99 | a larger part never rounds to a smaller percent |
| Util.RoundPercentWhole | lib/CleanupManager.js:99 | the last iteration reports exactly 100 |
| Util.RoundPercentAtMost100 | lib/CleanupManager.js:99 | a part no larger than the whole rounds to at most 100 |
| Util.LoopReports | lib/CleanupManager.js:99-103 | one report per successful iteration, each in [0,100] |
| Util.LoopReportsEndAt100 | lib/CleanupManager.js:99-103 | when the last iteration succeeds, the last report is 100 |
| Util.CappedPercent | lib/DatabaseExporter.js:71 | the streamed percent is `min(95, round(done/total·100))` with exact-rational rounding, and 95 when the estimate is 0 (division yields Infinity) |
| Util.CappedPercentMonotone | lib/FileCompressor.js:50-51 | more bytes processed never lower the capped percent |
| Util.StreamPercents | lib/DriveUploader.js:41-48 | each chunk reports the capped percent of the bytes so far, in [0,95] |
| Util.StreamProgress | lib/FileCompressor.js:49-56 | the chunk handler's reports are the stream percents and never decrease |
| Util.StreamEndsAtCap | lib/DriveUploader.js:41-48 | when the chunks add up to the total, the last streamed report is the cap, 95 |
| Util.NatToString | lib/ProgressTracker.js:14 | a number renders as decimal digits, without a leading zero |
| Util.NatToStringRoundTrip | lib/ProgressTracker.js:14 | reading the rendered digits back gives the number |
| Util.FileStamp | lib/DatabaseExporter.js:49 | `replace(/[:.]/g, '-')` keeps the length and turns exactly the colons and dots into dashes |
| Util.FileStampIsSafe | lib/DatabaseExporter.js:49 | a stamp holds no colon and no dot |
| Util.Basename | lib/DriveUploader.js:27 | `path.basename` drops trailing slashes and keeps the text after the last slash, which holds none |
| Util.BasenameOfJoin | lib/FileCompressor.js:65-67 | the basename of `dir/name` is `name` |
| Util.BasenameOfName | lib/DriveUploader.js:27 | a slash-free name is its own basename |
| Util.ContainsIff | lib/DriveUploader.js:68 | `includes` holds iff the text occurs at some position |
| DatabaseExport.Leading | lib/DatabaseExporter.js:37 | counts the leading white space: every counted character is white space and the next one, if any, is not |
| DatabaseExport.Trailing | lib/DatabaseExporter.js:37 | counts the trailing white space: every counted character is white space and the one before them, if any, is not |
| DatabaseExport.TrimStart | lib/DatabaseExporter.js:37 | the result is a suffix; everything dropped is whitespace, and the result does not start with whitespace |
| DatabaseExport.TrimEnd | lib/DatabaseExporter.js:37 | the result is a prefix; everything dropped is whitespace, and the result does not end with whitespace |
| DatabaseExport.TrimSlice | lib/DatabaseExporter.js:37 | the trimmed line is the slice of the input that starts where the leading white space ends |
| DatabaseExport.TrimIsSlice | lib/DatabaseExporter.js:37 | `trim` gives a slice of the input with only whitespace outside it and none at either end |
| DatabaseExport.TrimEmptyIffBlank | lib/DatabaseExporter.js:37-38 | a line trims to '' iff it is all whitespace |
| DatabaseExport.Split | lib/DatabaseExporter.js:36 | `split` gives at least one part and no part holds the separator |
| DatabaseExport.SplitJoinRoundTrip | lib/DatabaseExporter.js:36 | joining the split parts with the separator gives back the text |
| DatabaseExport.ListDatabases | lib/DatabaseExporter.js:34-43 | the listing succeeds iff the exit code is 0, and otherwise fails with stderr; the names keep the line order, none is '' or excluded, and every qualifying line is kept |
| DatabaseExport.DumpFileNameMatchesDbGlob | lib/DatabaseExporter.js:49-50 | a dump name `db-<name>-<stamp>.sql` is matched by the default cleanup pattern `db-*.sql` |
| DatabaseExport.DumpProgress | lib/DatabaseExporter.js:61-76 | the total is fixed at 10× the first chunk; every report is the capped percent, in [0,95], and reports never decrease |
| DatabaseExport.RunDump | lib/DatabaseExporter.js:84-92 | exit code 0 resolves with the file and reports 100 last; any other code rejects and never reports 100 |
| DatabaseExport.ExportSingleDatabase | lib/DatabaseExporter.js:47-94 | resolves with `db-<name>-<stamp>.sql` iff the dump exits 0; 100 is reported iff it does; the streamed reports are the capped percents |
| DatabaseExport.ExportAllDatabases | lib/DatabaseExporter.js:96-140 | resolves with `all-databases-<stamp>.sql` iff the dump exits 0, with the same report facts |
| DatabaseExport.SuccessfulDumps | lib/DatabaseExporter.js:166-174 | one file per dump that exited 0 |
| Util.IndicesPickExactly | lib/DatabaseExporter.js:166-174 | the indices a loop over n items picks out are exactly the qualifying ones, each once, in strictly increasing order, as many as the count |
| Util.PickedIndices | lib/DatabaseExporter.js:166-174 | what a loop pushing one value per qualifying index collects is the value at each picked index, in index order |
| DatabaseExport.DumpsOfPrefixInOrder | lib/DatabaseExporter.js:166-174 | after the first n targets, the files collected are those of the successful dumps among them, in target order |
| DatabaseExport.SuccessfulDumpsInTargetOrder | lib/DatabaseExporter.js:166-174 | the files are, in target order, the dump names of exactly the targets whose dump exited 0, one each |
| DatabaseExport.SuccessfulDumpOrigin | lib/DatabaseExporter.js:166-174 | every exported file is the dump name of a target whose dump succeeded |
| DatabaseExport.SuccessfulDumpIncluded | lib/DatabaseExporter.js:168-171 | every target whose dump succeeded has its file in the result; a failure does not stop later targets |
| DatabaseExport.Export | lib/DatabaseExporter.js:142-204 | disabled or unrecognised strategy gives []; 'all' gives the one file or [] on failure; 'individual'/'except' give the successful dumps in target order, or [] when the listing fails |
| DatabaseExport.ExportEach | lib/DatabaseExporter.js:166-174 | the per-database loop collects exactly the successful dumps, in order |
| DatabaseExport.IndividualUsesConfiguredList | lib/DatabaseExporter.js:160-162 | 'individual' with a non-empty configured list exports that list, ignoring the listing |
| DatabaseExport.ExceptNeverExportsExcluded | lib/DatabaseExporter.js:179-182 | every file 'except' exports belongs to a database that is not excluded |
| FileCompression.EstimatedSizeAppend | lib/FileCompressor.js:18-31 | the estimate of a concatenation is the sum of the estimates |
| FileCompression.EstimateIgnoresMissing | lib/FileCompressor.js:19 | paths that do not exist add nothing: the estimate equals that of the existing paths |
| FileCompression.EstimateCoversDirectories | lib/FileCompressor.js:22-23 | every existing directory adds 100 MiB |
| FileCompression.EstimateTotalSize | lib/FileCompressor.js:14-31 | the loop computes the estimate: file sizes, 100 MiB per directory, 10 MiB per stat failure, 0 per missing path |
| FileCompression.ArchiveEntries | lib/FileCompressor.js:61-70 | at most one entry per path |
| FileCompression.ArchiveEntriesMembers | lib/FileCompressor.js:61-70 | entries are named by basename; each existing path has its entry (a directory entry for a directory) and missing paths have none |
| FileCompression.AddEntries | lib/FileCompressor.js:61-70 | adding succeeds iff no existing path fails its stat; a failure names a listed, existing, unstatable path |
| FileCompression.CreateTarGz | lib/FileCompressor.js:12-74 | resolves with the output path iff every path stats and the archiver does not fail; streamed reports are capped at 95 against the estimate, and 100 is reported only on close |
| FileCompression.ValidFiles | lib/FileCompressor.js:86 | a group's valid files are exactly its existing paths, as a subsequence in their order, each as often as it is listed |
| FileCompression.CompressedArchives | lib/FileCompressor.js:84-99 | one archive per group that has existing paths and archives successfully |
| FileCompression.ArchivesOfPrefixInOrder | lib/FileCompressor.js:84-99 | after the first n groups, the archives collected are those of the archived groups among them, in group order |
| FileCompression.CompressedArchivesInGroupOrder | lib/FileCompressor.js:84-99 | the archives are, in group order, the archive names of exactly the groups whose archiving succeeded, one each |
| FileCompression.CompressedArchiveOrigin | lib/FileCompressor.js:88-92 | every archive is `<group>-<stamp>.tar.gz` of a group with existing paths whose archiving succeeded |
| FileCompression.ArchivedGroupIncluded | lib/FileCompressor.js:90-95 | every group that archives successfully has its archive in the result; a failed group does not stop later ones |
| FileCompression.CompressGroups | lib/FileCompressor.js:76-103 | the loop returns the archives above, in group order, with one stamp for the call; there are at most as many as groups |
| DriveUpload.Extname | lib/DriveUploader.js:12 | an extension is '' or a dot followed by no dot and no slash |
| DriveUpload.ExtnameOfName | lib/DriveUploader.js:12 | the extension of `stem.word` is `.word` |
| DriveUpload.Lower | lib/DriveUploader.js:12 | lower-casing maps each character and keeps the length |
| DriveUpload.MimeTypeOfExtension | lib/DriveUploader.js:13-20 | the type is one of the table's values or the default |
| DriveUpload.SqlGzKeyUnreachable | lib/DriveUploader.js:18 | no path's lower-cased extension is '.sql.gz', so that entry is never used |
| DriveUpload.MimeTypeCases | lib/DriveUploader.js:11-21 | .gz/.tgz → gzip, .sql → sql, .tar → x-tar, in any case; anything else → octet-stream |
| DriveUpload.MimeTypeOfName | lib/DriveUploader.js:11-21 | the type of `stem.word` depends only on `.word` |
| DriveUpload.GzExtensionMime | lib/DriveUploader.js:14 | '.gz' maps to application/gzip |
| DriveUpload.SqlExtensionMime | lib/DriveUploader.js:15 | '.sql' maps to application/sql |
| DriveUpload.DumpUploadedAsSql | lib/DriveUploader.js:11-21 | a database dump is uploaded as application/sql |
| DriveUpload.ArchiveUploadedAsGzip | lib/DriveUploader.js:11-21 | a group archive is uploaded as application/gzip |
| DriveUpload.RequestFor | lib/DriveUploader.js:26-29 | the metadata names the basename, which holds no slash, with exactly one parent, the configured folder |
| DriveUpload.AttemptsMade | lib/DriveUploader.js:50-78 | an upload makes at least one attempt and no more than the script holds |
| DriveUpload.UploadOutcomeShape | lib/DriveUploader.js:64-77 | the last attempt decides the outcome; every earlier one failed with an auth error and a successful refresh; a non-auth error, or an auth error with a failed refresh, is rethrown without retry |
| DriveUpload.Delivered | lib/DriveUploader.js:41-51 | an attempt's stream delivers at most the file's chunks, and all of them when the file is created |
| DriveUpload.UploadReports | lib/DriveUploader.js:41-58 | every attempt reports the capped percents of the chunks its stream delivered; reports stay in [0,100]; 100 appears iff the upload succeeds, and then it is last |
| DriveUpload.UploadReportsLength | lib/DriveUploader.js:41-58 | the reports are one per chunk delivered over the attempts made, plus the final 100 of a success: at most one per chunk per attempt, and exactly that when every failed attempt read the whole file |
| DriveUpload.UploadFile | lib/DriveUploader.js:23-79 | the result is the scripted outcome, the request carries the basename and `[folderId]`, and the reports are the ones above |
| DriveUpload.UploadStep | lib/DriveUploader.js:99-127 | a missing file changes nothing; the count never decreases and grows by at most one; a successful upload to the current folder is counted and keeps the folder; a failed one is counted only through a root fallback, which runs only when the error names a missing file and the batch folder, and succeeds; the folder becomes undefined only when that fallback fails |
| DriveUpload.UploadLoop | lib/DriveUploader.js:98-128 | successes never exceed the number of existing files |
| DriveUpload.UploadLoopCounts | lib/DriveUploader.js:98-128 | when no root fallback fails, the count is exactly the number of existing files whose upload, or triggered root fallback, succeeds |
| DriveUpload.FailedFallbackClearsFolder | lib/DriveUploader.js:116-125 | after a root fallback fails, the folder stays undefined for the rest of the batch and after it |
| DriveUpload.FolderRestoredWithoutFailedFallback | lib/DriveUploader.js:112-122 | when no fallback fails, the batch ends with the folder it started with |
| DriveUpload.UploadFiles | lib/DriveUploader.js:80-132 | an empty list resolves with 0 without authenticating; a failed authentication rejects; otherwise the count and the final folder are those of the batch function |
| DriveUpload.UploadCountBounded | lib/DriveUploader.js:98-131 | successCount ≤ files.length |
| Backup.FormatDuration | lib/BackupManager.js:30-42 | every duration text ends in 's' |
| Backup.DurationFieldsRecompose | lib/BackupManager.js:30-42 | the minute and second fields are below 60 and h·3600 + m·60 + s is the whole seconds |
| Backup.FormatDurationShowsFields | lib/BackupManager.js:35-36 | from one hour on, the text is `Hh Mm Ss` with those fields |
| Backup.FormatDurationShowsMinutes | lib/BackupManager.js:37-38 | from one minute up to an hour, the text is `Mm Ss` with those fields, the hour field being 0 |
| Backup.FormatDurationShowsSeconds | lib/BackupManager.js:39-40 | below one minute, the text is `Ss` with the second field, the other two being 0 |
| Backup.GetBackupTypeName | lib/BackupManager.js:230-237 | the name is 'Completo' exactly for types other than full, database and files |
| Backup.PreflightFailsBeforeStages | lib/BackupManager.js:50-62 | missing OAuth id/secret or folder id fails before any stage, with the credential error checked first |
| Backup.FailureCases | lib/BackupManager.js:44-128 | a run fails iff preflight fails, no artifact is produced, or authentication fails; an artifact-less run stops after the first cleanup and producers, before upload |
| Backup.SuccessfulRunShape | lib/BackupManager.js:65-117 | a successful run goes cleanupRemote, export, compress, upload, cleanupLocal, cleanupRemote; filesProcessed ≤ totalFiles = number of artifacts > 0 |
| Backup.UnknownTypeFails | lib/BackupManager.js:160-177 | an unknown backup type runs no producer and fails with no artifacts |
| Backup.FailedFallbackBlocksLaterRuns | lib/BackupManager.js:58-62 | a run whose root fallback failed leaves the folder undefined, so every later run fails preflight |
| Backup.Produce | lib/BackupManager.js:64-76 | the first cleanup runs, then the producers; the artifacts are the dumps followed by the archives |
| Backup.BackupManager.Stages | lib/BackupManager.js:47-117 | the stages, outcome and folder left match the reference run |
| Backup.BackupManager.Run | lib/BackupManager.js:44-128 | sets startTime; the result is the reference run's, reported with the formatted duration; filesProcessed ≤ totalFiles |
| Backup.BackupManager.ExecuteManualBackup | lib/BackupManager.js:131-227 | the same, with the producers chosen by the type ('full' both, 'database' export, 'files' compression) and the type in the record |
| Progress.FilledCells | lib/ProgressTracker.js:41 | `round(progress/5)` is at most 20, and 5·cells is within 2 of progress (cells within 2/5 of progress/5) |
| Progress.FilledCellsMonotone | lib/ProgressTracker.js:41 | a higher percent never fills fewer cells |
| Progress.FilledCellsEnds | lib/ProgressTracker.js:41-42 | the bar is full iff progress ≥ 98 and empty iff progress ≤ 2 |
| Progress.CreateProgressBar | lib/ProgressTracker.js:39-44 | the bar is 20 cells between brackets: the filled cells first, then the empty ones |
| Progress.ProgressTracker.constructor | lib/ProgressTracker.js:2-8 | a new tracker has no operation, no pending line and no output |
| Progress.ProgressTracker.UpdateProgress | lib/ProgressTracker.js:10-37 | on a terminal, a pending line is cleared and the new line written; it stays pending unless progress is 100, which ends it; off a terminal only 0/25/50/75/100 are shown, and the pending line stays '' |
| Progress.ProgressTracker.StartOperation | lib/ProgressTracker.js:46-53 | sets currentOperation; ends a pending line first, then prints the header |
| Progress.ProgressTracker.EndOperation | lib/ProgressTracker.js:55-65 | ends a pending line, then prints '✅ op concluído' or '❌ op falhou'; currentOperation unchanged |
| Progress.ProgressTracker.Log | lib/ProgressTracker.js:67-74 | ends a pending line, then logs; currentOperation unchanged |
| Progress.ProgressTracker.Error | lib/ProgressTracker.js:76-83 | ends a pending line, then writes to stderr; currentOperation unchanged |
| Progress.ProgressTracker.ReportAll | lib/ProgressTracker.js:10-37 | a stream of reports through a tracker that is not a terminal appends exactly the stream's off-terminal output, and leaves no pending line |
| Progress.OffTerminalOutput | lib/ProgressTracker.js:30-35 | off a terminal, a stream writes at most one line per report |
| Progress.MilestoneReports | lib/ProgressTracker.js:32-33 | the milestone reports of a stream: in order, exactly the reports equal to 0, 25, 50, 75 or 100 |
| Progress.MilestoneLines | lib/ProgressTracker.js:34 | one logged line per milestone report |
| Progress.MilestoneLinesAt | lib/ProgressTracker.js:34 | the line at position i is the 'Progresso' line of the i-th milestone report |
| Progress.OffTerminalOutputIsMilestones | lib/ProgressTracker.js:30-35 | off a terminal, a stream writes exactly the lines of its milestone reports, in order, and nothing else |
| Progress.CompletionAlwaysPrinted | lib/ProgressTracker.js:32-35 | a report stream ending at 100 ends its off-terminal output with the 100% line |
| Progress.StreamingNeverPrintsCompletion | lib/ProgressTracker.js:32-35 | streamed reports, capped at 95, write off a terminal only the lines of their milestones, all of them 0, 25, 50 or 75, never 100 |

## Left out

- The processes (`mysql`, `mysqldump`), the archiver, the Drive API, the filesystem and the clock are inputs, as listed above. Stream piping, file writes and real removal are not modelled.
- `AuthManager` is only the outcome of `ensureAuthenticated` and of each `refreshToken`. `getDriveClient` throwing is not modelled.
- The Discord bot and the console entry point are not part of this model.
- The MB figures, and the loop that logs sizes before upload, use floating point. They are left out, as is the `totalSizeMB` field of the result record.
- Cleanup.SelectForDeletion: the cutoff is now − maxAgeDays·86400000. The source steps back calendar days in local time, which differs across daylight-saving changes.
- Glob.MatchesFilePattern: only `*`, `?` and `.` are given regex meaning; every other character of a pattern is read literally. Patterns holding other metacharacters (`+`, `(`, `[`, `\` and so on) are outside the model. Names and patterns are sequences of Unicode scalar values, so `?` and `.` match one scalar value. The source's regex has no `u` flag and matches UTF-16 code units, so a character outside the Basic Multilingual Plane counts as two there: for example, `backup-?.tar.gz` matches `backup-😀.tar.gz` in the model but not in the source.
- Object.entries order over backup groups, including the integer-like keys JavaScript puts first, is taken to be the given sequence order.
- DriveUpload.Lower: lower-casing is ASCII only; non-ASCII case mapping is not modelled.
- Backup.GetBackupTypeName and DriveUpload.MimeTypeOfExtension: keys inherited from the object prototype (such as `toString`) are not modelled.
- DriveUpload.UploadFile: the recursion on repeated token errors is modelled only for response scripts that end (`Completes`). A run in which every refresh succeeds and every attempt fails with a token error forever is outside the model.
- A file removed between the existence check and the upload makes the stat in `uploadFile` throw. Because `uploadFile` is async, that becomes a rejected upload, which the batch counts as failed before moving to the next file. The model reads the file map once, so it has no such race.
- FileCompression.CreateTarGz: progress reports that the archiver emits after a stat failure has already rejected the promise are not modelled.
- Division by a zero total: the estimate from a first empty chunk is excluded, since streams deliver non-empty chunks. A positive amount over a zero estimate is modelled as the cap, 95, which is what JavaScript's Infinity gives.
- Three callers pass the number 100 where `updateProgress` expects the operation text: local cleanup (lib/CleanupManager.js:136) and the all-databases dump (lib/DatabaseExporter.js:121 and :132). The renderer here takes an operation string, so those calls are not modelled with that argument. Remote cleanup passes its text, 'Limpando backups antigos'.
- Log and error message text is not modelled, except in the tracker, which models it exactly. The per-file "(i/total)" strings of the progress labels are not modelled either.
- The tracker's `config` and `lastProgress` fields are never read and are left out.
- The Drive API's answers are a script indexed by the file's position in the batch and the parent folder the request names. This keying is a choice of the model: the rest of each request (name, MIME type, body) is fixed by the file path. One consequence: two calls for the same file and folder get the same answer. That happens once a root fallback has failed, when a later file's first attempt and its fallback both go to an undefined folder. The source makes two independent calls there.
- DriveUpload.UploadReports / UploadFile: an abandoned attempt's stream may go on delivering chunks after the retry has started, so its late reports can interleave with the retry's. The model puts every report of an attempt before those of the next one.
- DriveUpload.UploadOutcome: a response script that runs out is read as a failure with an empty message. Scripts that satisfy `Completes` never run out, and for those the outcome is the source's.
- Util.RoundPercent / Util.CappedPercent: float rounding error is not modelled. The source rounds the double `(a/b)*100`, which can fall just below a half. For example, 23/40 gives 57.49999999999999, which rounds to 57, where the exact rational rounds to 58. Bounds, monotonicity and the 100 of a finished loop are unaffected. The same holds for every report built on them: LoopReports, StreamPercents, DumpProgress, CreateTarGz and UploadReports.
- Backup.BackupManager.ExecuteManualBackup: the model takes the backup type as a parameter and has no default. The source's callers (main.js:76 and lib/DiscordBot.js:164) pass no argument, so every manual backup they start runs the default 'full', which is `ExecuteManualBackup("full", …)` here. The type the Discord command computes is dropped by the source at that call.
