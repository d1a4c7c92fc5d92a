# py-image-storage ingestion pipeline, modelled in Dafny

py-image-storage watches an "uncompressed" directory. It moves every file
that lands there into a "compressed" tree. Files directly in the watched
root go into a `YYYY-MM` bucket named after their modification month.
Files in sub-directories keep their relative path. JPEG and PNG images of
at least `MIN_FILE_SIZE_KB` KiB are re-encoded to WebP and the original is
deleted. Other files are moved unchanged. Emptied source directories are
pruned, but never the watched root itself.

This project models the current pipeline and the older `legacy/` one:

- the configuration loaded from the environment, and its validation
  (`config.py`);
- the compressor's decisions and its `(source, dest)` cache
  (`compressor.py`);
- the per-file workflow and the batch of results (`processor.py`);
- the event handler, the start-up and periodic scans, the queue drain with
  its de-duplication, and the bottom-up removal of empty directories
  (`watcher.py`);
- the legacy event handler and `handle_file` (`legacy/file_handler.py`);
- the legacy start-up scan and periodic task (`legacy/observer.py`).

## How the model is built

The filesystem is a class `Fs.FileSystem`. Its one field is a map from
literal path strings to entries: a file with a size and a modification
time, or a directory with a modification time. The pure functions
`RemoveOp`, `RmdirOp`, `RenameOp` and `MakedirsOp` say what each `os` call
does to that map. The class's methods are proved equal to them.

Objects that the source mutates are classes: the job queue, the
compressor's cache, the event handlers' caches and the watcher. Each
method of those classes is proved against a specification function of the
old state. For example, `FileProcessor.ProcessFile` equals `ProcessFileOp`
and `FileWatcher.ProcessQueue` equals `DrainOp`. The lemmas about those
functions carry the properties the source promises.

Everything the program learns from the outside world is an input:

- The stability wait is a sequence of `Poll` observations, one per poll
  that fits in the timeout.
- The encoder's verdict is a `CodecResult`. The legacy encoder call is a
  `LegacyCall`, which either raises or returns.
- `os.walk` listings and the bottom-up directory order are given as
  sequences. They may be stale with respect to the tree.
- The clock is an integer `now`, in seconds.
- The environment is a map from names to values.

## Model

| member | source | states |
|---|---|---|
| Calendar.MonthOf | watcher.py:84 | `strftime('%Y-%m')` of the modification time: the bucket name of the civil month the time falls in, always seven characters |
| Calendar.CivilMonth | watcher.py:84 | the civil month of a day number is between 1 and 12 |
| Calendar.ReadDigitsOfDigits | watcher.py:84 | reading a zero-padded rendering of `n` digits back gives the number modulo `10^n` |
| Calendar.FormatMonthReadsBack | watcher.py:84 | `%Y-%m` reads back as the year, modulo 10000, then a dash, then the month |
| Calendar.MonthOfReadsBack | watcher.py:84 | the bucket name of a modification time reads back as the civil year and month of the day it falls on |
| Calendar.MonthOfShape | watcher.py:84 | the `%Y-%m` bucket name is four digits, a dash and two digits, and it has no slash, so it is a single path component |
| Calendar.MonthOfJune2023 | watcher.py:84 | a timestamp on 15 June 2023 lands in bucket `2023-06` |
| Calendar.MonthOfMarch2024 | watcher.py:170 | midnight on 1 March 2024 lands in bucket `2024-03` |
| PathOps.Dirname | processor.py:128 | `os.path.dirname` returns a prefix of the path |
| PathOps.Basename | processor.py:134 | `os.path.basename` has no slash and ends the path |
| PathOps.JoinEndsWithLast | watcher.py:85 | `os.path.join` ends with its last part; an absolute last part discards the first; otherwise the first part is a prefix of the result |
| PathOps.JoinSplits | watcher.py:76-77 | dirname and basename of `join(d, n)` give back `d` and `n` when `d` has no trailing slash and `n` is one component |
| PathOps.SplitextParts | compressor.py:159 | `splitext` cuts the path into base and extension; the extension is empty or is a dot followed by no slash |
| PathOps.ReplaceAbsent | watcher.py:93 | `str.replace` leaves a string with no occurrence of the pattern unchanged |
| PathOps.ReplacePrefixOnly | watcher.py:93 | when the pattern occurs only as the prefix, `replace` swaps that prefix and keeps the rest |
| PathOps.NormPath | processor.py:183 | `normpath` never returns the empty string (the empty path normalises to `.`) |
| Fs.ListdirEmpty | processor.py:187 | listing a directory gives the empty list exactly when the directory has no children |
| Fs.MakedirsOp | processor.py:131 | `makedirs` only adds entries; on success the target is a directory |
| Fs.MakedirsAddsAncestors | processor.py:131 | every entry `makedirs` adds is the target or one of its ancestors |
| Fs.RemoveFrame | processor.py:150 | removing a file deletes that entry and keeps every other entry |
| Fs.RenameMoves | processor.py:139 | a rename moves the entry to its new name and keeps every other entry |
| Fs.FileSystem.Remove | processor.py:150 | `os.remove` succeeds exactly when the path is a file and then deletes that entry; on failure nothing changes |
| Fs.FileSystem.Rmdir | processor.py:188 | `os.rmdir` succeeds exactly when the path is an empty directory; on failure nothing changes |
| Fs.FileSystem.Rename | processor.py:139 | `os.rename` of a file succeeds and moves the entry, or fails and changes nothing |
| Fs.FileSystem.Makedirs | processor.py:131 | `os.makedirs` creates the missing ancestors and then the target, or reports that it failed |
| Fs.FileSystem.WriteFile | compressor.py:86-91 | writing the WebP succeeds exactly when the path is not a directory and its parent directory exists; it then stores a file of the given size, stamped now |
| Jobs.JobQueue.PutNowait | watcher.py:116 | a job goes to the back of the queue |
| Jobs.JobQueue.GetNowait | watcher.py:199-204 | jobs come out first-in first-out; an empty queue yields nothing and stays empty |
| Configuration.ParseInt | config.py:99-103 | `int()` on a variable's text: an optional sign and decimal digits with single underscores between them, inside surrounding whitespace; anything else gives no value; the round trip, whitespace, sign, underscore and rejection lemmas below state this |
| Configuration.GetInt | config.py:80-103 | an unset variable gives the default; a valid integer gives its value; anything else is an error naming the variable and the value |
| Configuration.ParseIntRoundTrip | config.py:99 | `int()` reads back every integer written in decimal |
| Configuration.ParseIntStripsSpace | config.py:99 | `int()` ignores surrounding whitespace |
| Configuration.ParseIntSignAndUnderscore | config.py:99 | `int()` accepts a leading sign and single underscores between digits |
| Configuration.ParseIntRejects | config.py:99-103 | doubled underscores, letters, a lone sign and a blank value are all rejected |
| Configuration.FromEnv | config.py:36-78 | `Config.from_env` on a given environment: both paths are required, each integer is read with its default, the log level is upper-cased and the skip flag compared with `true`; the lemmas below state these cases |
| Configuration.FromEnvRequiresPaths | config.py:53-54 | a missing `UNCOMPRESSED` is reported first, then a missing `COMPRESSED`; a loaded configuration holds both paths verbatim |
| Configuration.FromEnvDefaults | config.py:57-69 | with only the two paths set, every other field takes its documented default |
| Configuration.FromEnvNormalises | config.py:66-68 | the log level is upper-cased, and skip-existing is on exactly when the value lower-cases to `true` |
| Configuration.FromEnvRejectsBadInteger | config.py:60 | a non-integer cleanup interval makes loading fail with an error naming the variable and its value |
| Configuration.Validate | config.py:105-155 | validation passes exactly when both paths exist, the interval is positive, the minimum size is non-negative, quality is in 1..100, resolution is positive, the log level is one of the five names and concurrency is positive |
| Configuration.ValidateReportsFirstFailure | config.py:113-155 | the checks run in source order (uncompressed path, compressed path, interval, minimum size, quality, resolution, log level, concurrency), and each failing check is reported with its own error exactly when all earlier ones passed |
| Configuration.DefaultsAreValid | config.py:105-155 | the defaults pass validation |
| Configuration.ValidateBoundaries | config.py:129-149 | minimum size 0 and quality 100 pass; quality 0 and a lower-case log level fail |
| Configuration.ValidateIgnoresCache | config.py:105-155 | the cache size and TTL are not validated |
| Compression.EnsureWebpExtension | compressor.py:149-160 | the WebP destination always ends in `.webp` |
| Compression.EnsureWebpReplacesExtension | compressor.py:159-160 | the dropped part is empty or starts with a dot, so at most the last extension is replaced by `.webp` |
| Compression.EnsureWebpOfTestNames | compressor.py:159-160 | `test.jpg` becomes `test.webp`, and `test.webp` stays `test.webp` |
| Compression.EnsureWebpInSubdirectory | compressor.py:159-160 | `path/to/file.jpeg` becomes `path/to/file.webp` |
| Compression.EnsureWebpIdempotent | compressor.py:159-160 | applying it twice is the same as once, unless the base name is made only of dots |
| Compression.EnsureWebpNotIdempotentOnEmptyName | compressor.py:159-160 | `dir/` becomes `dir/.webp` and then `dir/.webp.webp`, so the proviso is needed |
| Compression.ShouldCompress | compressor.py:162-188 | `should_compress`: a JPEG or PNG name, in any case, whose size can be read and is at least the threshold in KiB; `ShouldCompressRule` states the cases |
| Compression.ShouldCompressRule | compressor.py:162-188 | no image extension, no readable size or a size below the threshold means no compression; an image exactly at the threshold is compressed |
| Compression.ImageExtensionSamples | compressor.py:173 | the extension test ignores case and rejects other extensions |
| Compression.EncodeOp | compressor.py:50-111 | `_compress_sync` with the encoder as an oracle: a missing source or a failed encode changes nothing and answers false; a success writes the WebP file, if it can be written |
| Compression.CompressOp | compressor.py:113-147 | `compress`: a cached pair answers true at once; otherwise the pair is cached and the encoder's answer for the WebP destination is returned; the lemmas below state these cases |
| Compression.CompressRecordsKey | compressor.py:125-131 | every call leaves its `(source, dest)` pair in the cache and adds nothing else |
| Compression.CompressCachedIsTrue | compressor.py:126-128 | a cached pair answers true and touches nothing, whatever the encoder would do |
| Compression.CompressForwardsVerdict | compressor.py:131-147 | an uncached call succeeds exactly when the encoder succeeds and the WebP path is writable; success writes only the WebP file, and failure changes nothing |
| Compression.CompressOnlyWritesWebp | compressor.py:134-145 | compression keeps every existing entry other than the WebP destination, and adds no other entry |
| Compression.FailureThenCachedSuccess | compressor.py:125-131 | a failed compression still caches its pair, so repeating it answers true although no WebP was written |
| Compression.ImageCompressor.Compress | compressor.py:113-147 | the method's result, tree and cache are those of the compress specification |
| Compression.ImageCompressor.Expire | compressor.py:47 | entries whose time-to-live ran out leave the cache and no others do |
| Processing.WaitFrom | processor.py:60-82 | the wait loop from a remembered size, over the polls that fit in the timeout; `WaitFromIff` gives its answer in closed form |
| Processing.Settles | processor.py:43-82 | `wait_for_file_ready`: the loop started with remembered size -1; `SettlesIff` gives its answer in closed form |
| Processing.WaitFromIff | processor.py:60-82 | the wait loop, from a remembered size, answers ready exactly when some later poll repeats a positive size with only readable sizes before it |
| Processing.SettlesIff | processor.py:60-82 | a file is ready exactly when two consecutive polls read the same positive size and every earlier poll read a size |
| Processing.FirstPollNeverReady | processor.py:60 | the first poll can never succeed, because the remembered size starts at -1 |
| Processing.SteadySizeIsReady | processor.py:70-72 | two equal positive sizes in a row make the file ready |
| Processing.EmptyFileNeverReady | processor.py:70 | a file that stays empty never becomes ready |
| Processing.FailedPollEndsWait | processor.py:64-79 | a vanished or unreadable file before any stable pair ends the wait with false |
| Processing.FileProcessor.WaitForFileReady | processor.py:43-82 | the loop's answer is the one the wait specification gives |
| Processing.CleanupParentOp | processor.py:172-192 | `_cleanup_empty_directory`: the file's directory is removed when it is an empty directory and not the root, however spelled; the lemmas below state this |
| Processing.CleanupParentRemovesOnlyParent | processor.py:172-192 | the prune removes the file's directory or nothing; it removes it exactly when it is an empty directory that is not the root |
| Processing.CleanupParentKeepsRoot | processor.py:183-184 | the watched root is never pruned, however it is spelled |
| Processing.FileProcessor.CleanupEmptyDirectory | processor.py:172-192 | the method's new tree is that of the prune specification |
| Processing.ActOp | processor.py:133-166 | the action step on the prepared tree: a `.webp` name is renamed, a compressible file is compressed and then deleted and pruned, anything else is renamed and pruned |
| Processing.ProcessFileOp | processor.py:84-170 | `process_file`: the existence, skip-existing and readiness checks in that order, then the destination directory and the action step; the lemmas below state each route |
| Processing.MissingOrDirectoryRefused | processor.py:101-108 | a missing source or a directory is refused with false and nothing changes |
| Processing.SkipExistingDeletesSource | processor.py:111-120 | with skip-existing on and the destination or its WebP already there, the source is deleted and true is returned, whatever the polls or the encoder |
| Processing.NotReadyLeftAlone | processor.py:123-125 | a file that does not settle is left alone and false is returned |
| Processing.PrepareDirGrows | processor.py:128-131 | making the destination directory only adds entries, each an ancestor of the destination |
| Processing.WebpIsMoved | processor.py:137-140 | a `.webp` source, in any case, is renamed to the destination without touching the cache or pruning; it succeeds exactly when the rename does, and a failed rename leaves the prepared tree as it was |
| Processing.CompressionDecidesSource | processor.py:143-156 | on the compress route the result is the compressor's; success removes the source, and failure keeps the source and the prepared tree |
| Processing.ActCompressDecides | processor.py:143-156 | the same statement, for the act step on an already prepared tree |
| Processing.OtherFileIsMoved | processor.py:157-164 | a file that should not be compressed is renamed to the destination and its directory is pruned; it succeeds exactly when the rename does, and a failed rename leaves the prepared tree as it was |
| Processing.CachedPairLosesSource | processor.py:143-151 | a cached pair reports success and deletes the source although no WebP exists |
| Processing.CleanupKeeps | processor.py:186-188 | the prune keeps every file and every entry other than the parent |
| Processing.ActFrameCompress | processor.py:143-164 | compression changes no entry other than the source, its directory and the WebP destination |
| Processing.ActFrameMove | processor.py:157-164 | a move changes no entry other than the source, its directory and the destination |
| Processing.ActFrame | processor.py:133-164 | the act step changes no entry other than the source, its directory, the destination and the WebP destination |
| Processing.ProcessFrame | processor.py:84-170 | the whole workflow changes no entry other than the source, its directory, the destination and the WebP destination |
| Processing.FileProcessor.Act | processor.py:133-166 | the method's result, tree and cache are those of the act specification |
| Processing.FileProcessor.ProcessFile | processor.py:84-170 | the method's result, tree and cache are those of the workflow specification |
| Processing.BatchOp | processor.py:209-214 | a batch yields one result per pair |
| Processing.CountTrue | processor.py:216 | the success count never exceeds the number of results |
| Processing.Tally | processor.py:216-217 | successes and failures add up to the number of results |
| Processing.CountTrueBounds | processor.py:216 | all results succeed exactly when the count equals the length; none succeed exactly when it is 0 |
| Processing.TallyFacts | processor.py:204-217 | an empty batch gives (0, 0); no failures exactly when all succeed; no successes exactly when all fail |
| Processing.TallyAppend | processor.py:216-217 | one more result adds one to exactly one of the counts |
| Processing.FileProcessor.ProcessBatch | processor.py:194-224 | the counts are the tally of processing the pairs in order, and the tree and cache end as that sequence leaves them |
| Walks.ScanOne | watcher.py:160-177 | one listed name of the start-up scan: skipped unless admitted, otherwise queued with its bucketed or mirrored destination; `ScanOneSkipsExactly` and `ScanOneDestination` state this |
| Walks.ScanJobs | watcher.py:155-181 | the jobs of a whole walk, directory by directory in listing order; `ScanJobsCount` and `ScanJobsAdmitted` state their number and admission |
| Walks.MonthDestSplits | watcher.py:171 | the bucketed destination has the file's name, the bucket as its directory and the destination root above that |
| Walks.ScanOneSkipsExactly | watcher.py:164-165 | a listed name is skipped exactly when it fails the scan's admission test (regular file, existing path, or anything listed); otherwise its job starts with the joined path |
| Walks.ScanOneDestination | watcher.py:168-177 | a regular file directly in the root is bucketed by month; anything else has the root replaced by the destination root |
| Walks.ScanFilesCount | watcher.py:180-181 | the jobs from one directory number the admitted names |
| Walks.ScanJobsCount | watcher.py:180-181 | the jobs from a whole walk number the admitted names |
| Walks.ScanJobsAdmitted | watcher.py:159-181 | every queued job's source passed the admission test |
| Walks.EveryListedAdmitsAll | legacy/observer.py:91-103 | when every listed name is admitted, the admitted count is the listed count |
| Walks.LegacyScanQueuesAll | legacy/observer.py:91-103 | the legacy start-up scan queues one job per listed name |
| Walks.CleanupPassOp | watcher.py:276-288 | the bottom-up sweep: every directory given other than the root is listed and removed when empty; a listing error aborts the sweep; the lemmas below state what it removes |
| Walks.CleanupPassOnlyRemovesListedDirs | watcher.py:276-288 | the sweep only deletes entries, and each deleted entry is a directory it was given other than the root |
| Walks.CleanupPassKeepsTopAndFiles | watcher.py:277-279 | the root and every regular file survive the sweep |
| Walks.ChainVanishes | watcher.py:276-288 | a chain of nested directories, each empty but for the next, is removed entirely when the walk yields its members deepest-first at increasing positions, with other entries in between, provided every directory up to the last member lists cleanly |
| Walks.CleanupPassLeavesNoOrphans | watcher.py:276-288 | a directory is removed only when empty at that moment: nothing left after the sweep lies directly inside a directory the sweep removed |
| Walks.ScanInto | watcher.py:155-181 | the queue grows by exactly the walk's jobs in order, and the count is their number |
| Walks.ScanDirInto | watcher.py:159-181 | one directory's jobs are appended in listing order, and the count is their number |
| Walks.ScanEntry | watcher.py:160-177 | one listed name yields the job the scan specification gives, or none |
| Walks.RemoveEmptyDirs | watcher.py:270-291 | the sweep's abort flag and new tree are those of the cleanup specification |
| Watching.ResolveDestination | watcher.py:63-93 | `_calculate_destination_path`: a regular file directly in the root goes to its month bucket, anything else has the root text replaced by the destination root; the lemmas below state both |
| Watching.ResolveRootFile | watcher.py:76-87 | a regular file directly in the root goes to the destination root, then its month bucket, then its own name |
| Watching.ResolveMirrorsRelativePath | watcher.py:92-93 | any other path keeps its part below the root under the destination root |
| Watching.ResolveExample | watcher.py:63-93 | `/in/photo.jpg` last modified on 1 March 2024 goes to `/out/2024-03/photo.jpg` |
| Watching.ResolveReplacesInnerOccurrence | watcher.py:93 | mirroring replaces every occurrence of the root text, so `/in/x/in.jpg` becomes `/out/x/out.jpg` |
| Watching.ReplaceInnerOccurrence | watcher.py:93 | `replace` turns `/in/x/in.jpg` into `/out/x/out.jpg` |
| Watching.ScanAgreesWithEvent | watcher.py:164-177 | the start-up scan and the event handler give a regular file the same destination |
| Watching.DuplicateOp | watcher.py:46-61 | `_is_duplicate_event`: an event is a duplicate exactly when its (second, path) key is cached, and the key is cached afterwards in any case |
| Watching.DuplicateWithinOneSecond | watcher.py:56-61 | the first event for a path in a second is new and is recorded; a repeat in the same second is a duplicate; the next second is new again |
| Watching.OnModifiedOp | watcher.py:95-116 | `on_modified`: directory events and duplicate events are ignored, anything else queues the job with its resolved destination |
| Watching.OnModifiedQueuesAtMostOne | watcher.py:102-116 | directory events and duplicates change nothing; a new file event queues exactly one job, with the resolved destination |
| Watching.EventBurstQueuesOnce | watcher.py:95-116 | any burst of events for one file within a second queues it once |
| Watching.FileEventHandler.constructor | watcher.py:32-44 | the handler starts with the configured roots, the given queue and an empty cache |
| Watching.FileEventHandler.IsDuplicateEvent | watcher.py:46-61 | the answer and the new cache are those of the duplicate specification |
| Watching.FileEventHandler.CalculateDestinationPath | watcher.py:63-93 | the destination is the resolution specification's |
| Watching.FileEventHandler.OnModified | watcher.py:95-117 | the new cache and queue are those of the event specification |
| Watching.FileEventHandler.Expire | watcher.py:43 | expired event keys leave the cache and no others do |
| Watching.Dict.Assign | watcher.py:210 | `seen[source] = dest`: the key maps to the new value, other keys keep theirs, an existing key keeps its place, and a well-formed dict stays well-formed |
| Watching.Dict.Items | watcher.py:212 | `seen.items()`: one pair per listed key |
| Watching.Collapse | watcher.py:208-210 | the `seen` dict built by assigning each drained pair in turn; `CollapseValid`, `CollapseKeepsLast` and `CollapseKeepsFirstOrder` state its keys and values |
| Watching.Dedup | watcher.py:206-212 | the de-duplicated batch, the dict's items; the lemmas below state its sources, values, order and size |
| Watching.CollapseValid | watcher.py:208-210 | the `seen` dictionary has exactly the sources that were queued, each key once |
| Watching.CollapseKeepsLast | watcher.py:207-210 | each source maps to the destination of its last occurrence |
| Watching.CollapseKeepsFirstOrder | watcher.py:208-210 | keys keep the order of their first occurrence |
| Watching.CollapseOfDistinct | watcher.py:208-210 | with no repeated source, the dictionary holds the jobs in their own order |
| Watching.DedupDistinct | watcher.py:206-212 | the de-duplicated batch has no repeated source and has the same sources as the queue |
| Watching.DedupKeepsLast | watcher.py:207-212 | every kept job is the last one queued for its source |
| Watching.DedupKeepsFirstOrder | watcher.py:208-212 | kept jobs come in the order their sources were first queued |
| Watching.DedupOfDistinct | watcher.py:208-212 | a queue with no repeated source is kept as it is |
| Watching.DedupSize | watcher.py:208-215 | de-duplication never grows the batch; it keeps the size exactly when no source repeats; it is empty exactly when the queue was |
| Watching.CollapseSizeAgrees | watcher.py:208-212 | the dict's length is the number of its listed keys |
| Watching.DedupLogNeverFires | watcher.py:214-215 | the rebuilt list has exactly as many pairs as `seen` has keys, so the de-duplication log condition never holds |
| Watching.DedupBySource | watcher.py:208-212 | the loop over the drained pairs yields the de-duplicated batch |
| Watching.DrainOp | watcher.py:190-219 | `process_queue` after the drain: the de-duplicated batch is processed when it is not empty |
| Watching.DrainProcessesEachSourceOnce | watcher.py:194-219 | the drain processes one job per distinct source, all of them when none repeats, and nothing when the queue is empty |
| Watching.FileWatcher.constructor | watcher.py:130-143 | the watcher starts with the given configuration and processor and a fresh empty queue |
| Watching.FileWatcher.ScanInitialFiles | watcher.py:145-188 | the queue grows by the start-up scan's jobs, which admit only regular files, and the count is their number |
| Watching.FileWatcher.ProcessQueue | watcher.py:190-219 | the queue ends empty, and the tree and cache are those of processing the de-duplicated batch |
| Watching.FileWatcher.CleanupEmptyDirectories | watcher.py:270-291 | the abort flag and the new tree are those of the bottom-up sweep of the uncompressed root |
| Watching.FileWatcher.PeriodicCleanupOnce | watcher.py:221-268 | one round queues every listed path that still exists, counts them, then sweeps empty directories; a listing error ends only that round |
| LegacyHandling.LegacyDestination | legacy/file_handler.py:41-47 | the legacy destination: month bucket for a regular file directly in the root, else the root text replaced |
| LegacyHandling.LegacyOnModifiedOp | legacy/file_handler.py:31-49 | the legacy `on_modified`: a cached (second, path) key is dropped, anything else, directories included, is cached and queued |
| LegacyHandling.LegacyDestinationAgrees | legacy/file_handler.py:41-47 | the legacy handler resolves destinations exactly as the current handler does |
| LegacyHandling.LegacyOnModifiedQueuesAtMostOne | legacy/file_handler.py:31-49 | a repeat in the same second changes nothing; a new event is recorded and queues one job; unlike the current handler it does not skip directory events |
| LegacyHandling.LegacyEventCache.constructor | legacy/file_handler.py:20 | the shared cache starts empty |
| LegacyHandling.LegacyEventCache.Expire | legacy/file_handler.py:20 | expired keys leave the shared cache and no others do |
| LegacyHandling.FileChangeHandler.constructor | legacy/file_handler.py:22-26 | the handler keeps its two roots, its queue and the shared cache |
| LegacyHandling.FileChangeHandler.OnModified | legacy/file_handler.py:31-49 | the shared cache and the queue change as the legacy event specification says |
| LegacyHandling.SharedCacheAcrossHandlers | legacy/file_handler.py:20-37 | given two handlers holding the one cache, as the class attribute makes them, the same event seen by the second handler in the same second is dropped there |
| LegacyHandling.LegacyWaitFrom | legacy/file_handler.py:56-68 | the legacy wait loop from a remembered size, which can also end with `getsize` raising; `LegacyWaitFromIff` gives its outcome in closed form |
| LegacyHandling.LegacyWaitFromIff | legacy/file_handler.py:56-68 | the legacy wait, from a remembered size, is ready exactly when some later poll repeats a size, with only readable sizes before it |
| LegacyHandling.LegacyWaitIff | legacy/file_handler.py:52-71 | a file is ready exactly when two consecutive polls read the same size, zero included, with every earlier poll read |
| LegacyHandling.LegacyWaitIsLaxer | legacy/file_handler.py:63-65 | every file the current wait accepts the legacy wait accepts too, and an empty file is accepted only by the legacy wait |
| LegacyHandling.LegacyWaitForFileReady | legacy/file_handler.py:52-71 | the loop's outcome (ready, not ready, or raised by `getsize`) is the legacy wait specification's |
| LegacyHandling.LegacyPruneOp | legacy/file_handler.py:145-149 | the legacy prune: the file's directory is removed when it lists empty and is not the root |
| LegacyHandling.LegacyActOp | legacy/file_handler.py:111-142 | the legacy action step: `.webp` renamed, an unreadable size stops, a too-small file renamed, an image compressed and its source deleted and pruned, anything else renamed and pruned |
| LegacyHandling.HandleFileOp | legacy/file_handler.py:74-152 | `handle_file`: the configuration is loaded, then the checks (existence, directory, readiness, destination directory), the action step and the prune run in that order |
| LegacyHandling.LegacyPruneAgrees | legacy/file_handler.py:145-149 | the legacy prune has the same effect as the current one |
| LegacyHandling.HandleFileLoadsConfig | legacy/file_handler.py:85-87 | the configuration is loaded first; a load error ends the call without changing anything; otherwise the loaded configuration is used |
| LegacyHandling.ConfiguredNeverBadConfig | legacy/file_handler.py:89-149 | once loaded, the configuration is never the reason a call stops |
| LegacyHandling.LegacyPrepareKeepsSource | legacy/file_handler.py:105-109 | making the destination directory only adds entries and keeps the source file |
| LegacyHandling.HandleFileEarlyExits | legacy/file_handler.py:91-109 | existence, then directory, then readiness, then the destination directory are checked in that order; the early exits change nothing |
| LegacyHandling.ActRoutes | legacy/file_handler.py:111-142 | after the directory step, a `.webp` name is checked first, then the size, then the image name, all case-sensitive |
| LegacyHandling.UpperCaseNamesAreNotImages | legacy/file_handler.py:126 | a large `A.JPG` is moved as a non-image, not compressed |
| LegacyHandling.EarlyMovesSkipPrune | legacy/file_handler.py:112-123 | `.webp` and too-small files are renamed and their directory is not pruned |
| LegacyHandling.NotImageMovedThenPruned | legacy/file_handler.py:126-149 | a non-image is renamed and then its directory is pruned; a failed rename changes nothing |
| LegacyHandling.CompressRemovesSourceUnlessRaised | legacy/file_handler.py:129-142 | the source is deleted whenever the encoder call returns, and kept when the call raises |
| LegacyHandling.HandleFileKeepsRoot | legacy/file_handler.py:145-149 | the source's directory survives when it is the uncompressed root |
| LegacyHandling.Encode | legacy/file_handler.py:133 | the encoder call changes the tree as the encode specification says |
| LegacyHandling.LegacyPrune | legacy/file_handler.py:145-149 | the method's new tree is the legacy prune specification's |
| LegacyHandling.HandleFile | legacy/file_handler.py:74-152 | the method's new tree is that of `handle_file`'s specification |
| LegacyHandling.HandleConfigured | legacy/file_handler.py:89-149 | with a loaded configuration, the method's new tree is the specification's |
| LegacyHandling.HandleReadyFile | legacy/file_handler.py:111-149 | for a ready file, the method's new tree is that of the act specification |
| LegacyObserving.PeriodicRootHasNoFileTest | legacy/observer.py:28-34 | the legacy periodic scan buckets a directory directly in the root by its own time, where the current start-up scan skips it |
| LegacyObserving.InitialScanQueuesGonePaths | legacy/observer.py:91-103 | the legacy start-up scan queues a listed path even after it has gone, mirroring its path |
| LegacyObserving.InitialFileHandle | legacy/observer.py:83-110 | every listed name is queued in order, and the count is the number of listed names |
| LegacyObserving.PeriodicCleanupOnce | legacy/observer.py:19-56 | one round queues every listed path that still exists, then sweeps empty directories; a listing error is reported as the periodic loop crashing |

## Left out

- Timestamps are bucketed in UTC. The program uses the local time zone, which is not modelled.
- Calendar.MonthOf: a modification time outside years 1 to 9999 gets the year modulo 10000, e.g. `0000-01` for 1 January 10000. In the program `datetime.fromtimestamp` raises `ValueError` there, and the `OSError` handlers around it do not catch it, so it escapes the event handler or scan that asked (only the periodic round's broad `except` stops it, ending that round). That raise is not modelled.
- Configuration.ParseInt: integer text of any length is accepted. Python's `int()` rejects more than 4300 digits by default, which `_get_int` would report as a configuration error. That limit is not modelled.
- LegacyHandling.FileChangeHandler.constructor: the shared event cache is passed in, because Dafny has no static mutable state. In the program the class attribute makes every handler share it, whereas here sharing is the caller's convention, and `SharedCacheAcrossHandlers` assumes it.
- `lower()` and `upper()` map ASCII letters only, and whitespace is ASCII whitespace only.
- Paths are literal strings. The model resolves `.`, `..` and repeated slashes only where the program calls `normpath`.
- Renaming a directory is refused; the program only renames files.
- `getsize` is read only from files.
- Concurrency is left out: `asyncio.gather`, the semaphore, the thread pool and the `multiprocessing` workers. `process_batch` is modelled as processing the pairs one after another.
- Processing.FileProcessor.ProcessBatch: `gather(return_exceptions=True)` turns an escaped exception into a failure. Sequential order fixes an interleaving the program does not promise.
- The TTL caches have no clock. Entries leave only through explicit `Expire` calls, and the `maxsize` eviction is not modelled.
- Time is whole seconds, and the polling interval and timeout are represented only by the number of polls.
- `load_dotenv` and reading a `.env` file are left out. The environment is given as a map.
- Configuration.Validate: whether the two paths exist is given as two booleans, and the error messages are not modelled.
- The encoder itself is an oracle. This covers the libvips resize and encode in `_compress_sync`, `image_handler.py` and `legacy/image_handler.py` with its own cache. Its verdict and the written size are inputs.
- `task_handler.py` is not part of this model. The legacy queue consumer is left out.
- The lifecycle is left out: `start`, `stop`, `observe_directory`, `main`, the watchdog observer thread and the loops that repeat the periodic tasks forever. The model runs one round of each.
- Logging is left out, including the sizes the program logs. The de-duplication message at `watcher.py:214-215` is never printed, because its condition can never hold; `Watching.DedupLogNeverFires` states this.
- A file's modification time is always readable, so the `OSError` fallbacks around `getmtime` are not reached: the one at `watcher.py:88-90` and the one in the legacy scans.
- The `os.walk` listings and the bottom-up directory order are inputs. They are not derived from the tree.
- LegacyObserving.PeriodicCleanupOnce: one round only. A listing error raised by the sweep ends the legacy periodic task for good, and it is modelled as the `crashed` result.
- Watching.FileWatcher.PeriodicCleanupOnce: the `except Exception` at watcher.py:267-268 is modelled only for the listing error of the sweep.
- `benchmark.py`, `diagnose.py`, `application.py`, `main.py`, `logger.py` and the tests are not part of this model.
