# A verified model of BorgBackup Manager's state machines

BorgBackup Manager drives Borg on many devices, follows the output of long
backup runs, keeps a bounded log of each run, schedules jobs, and backs itself up
and restores itself. The parts of it that change state step by step are
modelled here, and the promises they make are proved for all inputs, all
chunkings, all failure schedules, all interleavings and all runs.

* **Stream filters.** Subprocess output arrives in arbitrary chunks. Each filter
  (`NetworkFilter`, `ItemActivity`, `RestoreProgress`, `ProgressFilter`) is a class
  with a carry buffer that removes or counts records; `WarningCollector` reads
  two interleaved streams. A reference that looks at the whole stream line by line
  is defined for each, and the chunked classes with their fast paths are proved
  to agree with it. What the references read is pinned to what is written: `NetworkFrames`
  and `ProgressGrammar` say which frames there are, what each one reports and what a
  stream of them leaves, on the patterns in `NetworkFilter` and `ProgressFrame`, and
  `RestoreEvents` gives the log and every column of a restore's snapshot from the history
  of its records. `ByteLines`, `Newlines`, `Numerals`, `ItemPrefix` and `Options` hold what
  the filters share.
* **Restoring.** `PreparedRestore` exchanges a set of components by rename with
  rollback, `CacheSwap` swaps the two Borg directories of the manager, `Envelope`
  is the encrypted backup file. Every rename and removal may fail, by an arbitrary
  schedule (`Attempts`).
* **Live logs.** `RunLog` is the buffered writer that compacts its file and the
  reader that shows a window of it; `RunLogDelta` is the offset-based reader and
  the client that follows it.
* **Tables.** `Schedules` holds hosts, repositories, jobs and schedules with every
  operation that changes them; `ArchiveOwners` attributes archives to jobs, and
  `ArchiveHistory` follows the owner of an archive through any operations on the tables;
  `RunRetention` cleans up the run history.
* **Smaller machines.** `HealthNotification` debounces health messages,
  `SingleFlight` shares one probe among concurrent callers, `DuplicateSecurity`
  resolves several security directories of one location.

Methods that follow the source's loops are proved against functions on values, and
the lemmas state what those functions mean. `dafny verify dfyconfig.toml`
checks everything, with the verifier's default limits.

## Where the code does not do what one would expect

Each of these is a lemma or contract with the exact condition; where a second member is named, it
gives an input.

* What a reader sees of a compacted log is what an uncompacted log would show, except when
  the file is exactly as long as the reader's limit and holds a carriage return, which
  reading as text translates, or when it is shorter than the limit, as with a view larger
  than the log (`RunLog.CompactionIsInvisible`; both occur right after a compaction,
  `RunLog.FreshCompaction`).
* A log that was replaced and grew past the client's offset again is not noticed
  (`RunLogDelta.LogView.PollReplaced`, `RunLogDelta.ReplacedUnnoticed`).
* `ProgressFilter.CutVisibleExactly` says exactly which cuts a progress stream shows. A frame cut
  inside its first number is one: between two digits the beginning is let through, and the rest
  is taken for a frame with a wrong size; at the decimal point everything is let
  through (`ProgressFrame.CutInsideFirstNumber`, `CutBetweenDigits`, `CutBeforePoint`).
* A restore line longer than 256 KiB is copied where it is cut, and what follows the cut is read as
  a record of its own (`RestoreProgress.CutVisibleExactly` for the output,
  `RestoreProgress.CutChangesResult` for the counts as well, `RestoreProgress.PlainLineLosesItsEnd`).
* The warning collector classifies an unterminated last line that the item-line skip
  would drop if it were terminated (`WarningCollector.UnterminatedExactly`,
  `WarningCollector.UnterminatedWitness`).
* Target repair counts schedules that lost their repository earlier every time it runs,
  while the preview never counts them (`Schedules.RepairTwice`, `Schedules.Manager.RepairTargets`).
* The comment at `app/client_cache.py:826-830` says active state is never made deletable merely
  because another timestamp is newer. That holds for directories whose Borg ID an active cache
  confirms (`DuplicateSecurity.ConfirmedStaysProtected`), but not for those that are active by
  their location only (`DuplicateSecurity.LocationAloneDoesNotProtect`,
  `DuplicateSecurity.AssignedButSelectable`). The model follows the code.

## Model

| member | source | states |
|---|---|---|
| ByteLines.LinesAppend | app/borg_progress.py:488-503 | cutting a stream anywhere and carrying the unterminated rest over loses and splits no line |
| ByteLines.SplitAtLastLf | app/borg_progress.py:492-500 | the last line feed separates exactly the complete lines from the carry |
| Newlines.CrLfCut | app/borg_warnings.py:182 | a CRLF pair cut in two is normalized to one extra line feed and nothing else |
| Newlines.NormalizedIdentity | app/run_logs.py:188-189 | universal newlines change exactly the texts that contain a CR |
| Newlines.NormalizedLines | app/run_logs.py:188-189 | universal newlines keep every line and make each LF, CR LF or lone CR one LF |
| Newlines.TextIsLines | app/run_logs.py:188-189 | every text is a sequence of such lines |
| Newlines.NormalizedLength | app/run_logs.py:188-189 | the translation shortens a text to no less than half |
| Newlines.NormalizedJoin | app/run_logs.py:188-189 | translating two joined texts joins at most one pair more than translating each |
| NetworkFilter.ScanIsReference | app/borg_progress.py:620-652 | the cursor scan for markers yields, line by line, what precedes each valid frame and every valid counter |
| NetworkFilter.FeedExtends | app/borg_progress.py:620-652 | output, counters and carry for s, extended by one feed of x, are those for s + x, wherever a marker is cut |
| NetworkFilter.ChunkInvariance | app/borg_progress.py:568-660 | any chunking plus finalize gives the output, the counter records and the traffic totals of the whole stream |
| NetworkFilter.ParserRejectsShort | app/borg_progress.py:426-431 | the frame pattern never matches less than the whole marker, as the invariance needs |
| NetworkFrames.ParseExactly | app/borg_progress.py:426-431 | exactly the written frames parse, each to its interface, address, received and sent numbers and route, leading zeros aside |
| NetworkFrames.WrittenParses | app/borg_progress.py:568-576 | parsing inverts writing for all labels, numbers and route fields |
| NetworkFilter.TrafficIsDelta | app/borg_progress.py:592-604 | while the route keeps its interface and its counters never go back, the totals are newest minus first counter |
| NetworkFrames.TrafficExactly | app/borg_progress.py:592-606 | for any counters: the totals count from the first counter since the route has its interface to the newest that did not go back, and name the newest interface and address |
| NetworkFrames.ReferenceOfPieces | app/borg_progress.py:620-660 | output interleaved with written frames reads as the output without the frames and their line feeds, and as the frames' counters |
| NetworkFilter.FastPath | app/borg_progress.py:623-624 | without carry and without RS the zero-copy path is what the cursor loop would give |
| NetworkFilter.BorgNetworkStreamFilter.FeedData | app/borg_progress.py:620-652 | the mutating cursor loop emits, carries and counts exactly what the scan of carry + data says |
| NetworkFilter.BorgNetworkStreamFilter.ParseRecord | app/borg_progress.py:568-618 | one record updates baseline and totals only if it parses, and then as the traffic function says |
| NetworkFilter.BorgNetworkStreamFilter.FinalizeStream | app/borg_progress.py:654-660 | the carry is parsed once more without trailing line ends, dropped if valid and returned otherwise |
| NetworkFilter.FilterStream | app/borg_progress.py:534-660 | feeding the object any chunks returns the reference output and totals of their concatenation |
| NetworkFrames.FilterPieces | app/borg_progress.py:534-660 | a stream of output and written frames, chunked in any way, leaves the output, and totals as above |
| Numerals.NaturalOfPadded | app/borg_progress.py:575-576 | digits read as the number they were written for, whatever the leading zeros |
| Numerals.DigitsArePadded | app/borg_progress.py:575-576 | every string of digits is its number with leading zeros |
| ItemActivity.ChunkInvariance | app/borg_progress.py:453-513 | pass-through returns the input, strip mode the input without its A/M lines, and each counter is the number of matching lines, under every chunking |
| ItemActivity.FeedExtends | app/borg_progress.py:488-503 | one feed turns the state for s into the state for s + x |
| ItemActivity.TallyCounts | app/borg_progress.py:460-472 | the running counters are counts of the lines with that status |
| ItemActivity.ItemExactly | app/borg_progress.py:420-422 | item lines are exactly blanks, perhaps the marker, A, M, C or E for added, modified, changed or error, a blank and more, with at most one CR at the end |
| ItemActivity.RemovedExactly | app/borg_progress.py:423-425 | a terminated line is removed exactly if it is such a line with A or M, blanks alone being enough |
| ItemActivity.RemovedRestExactly | app/borg_progress.py:505-513 | the unterminated end likewise, without any CR |
| ItemActivity.TallyShowsNewest | app/borg_progress.py:460-486 | the last status and path are those of the newest item line |
| ItemActivity.BorgItemActivityStreamFilter.ConsumeComplete | app/borg_progress.py:460-486 | the search loop counts every matching line of the block once |
| ItemActivity.BorgItemActivityStreamFilter.DeleteAddedModified | app/borg_progress.py:423-425 | the substitution removes exactly the A/M lines of a block |
| ItemActivity.BorgItemActivityStreamFilter.FeedData | app/borg_progress.py:488-503 | output, carry and counters after one feed, for both modes |
| ItemActivity.BorgItemActivityStreamFilter.FinalizeStream | app/borg_progress.py:505-513 | the unterminated rest is counted and, in strip mode, kept unless it is an A/M line |
| ItemActivity.FilterStream | app/borg_progress.py:443-513 | any chunks through the object give the stripped or unchanged stream, the line counts and the newest item |
| WarningCollector.BulkPatternExactly | app/borg_warnings.py:38-42 | the bulk pattern accepts exactly blanks, perhaps the marker and blanks, a harmless letter, a blank, and no CR |
| WarningCollector.BulkPatternIsSkipped | app/borg_warnings.py:38-42 | a line the bulk pattern accepts is one the per-line skip drops |
| WarningCollector.BulkSkipIsSound | app/borg_warnings.py:188-190 | skipping an accepted block as a whole loses no warning |
| WarningCollector.SkippedExactly | app/borg_warnings.py:121-129 | skipped are exactly the lines of spaces, perhaps the marker and spaces, one of the harmless letters, and a space |
| WarningCollector.ErrorLinesCount | app/borg_warnings.py:166-200 | a line with status C or E is never skipped, so no warning about it is lost |
| WarningCollector.WarningsExactly | app/borg_warnings.py:166-211 | a warning is found exactly if the classifier finds it in a line that is not skipped or in the unterminated end |
| WarningCollector.BlankLineIsNothing | app/borg_warnings.py:166-200 | a blank line, such as the half of a cut CRLF, contributes no warning |
| WarningCollector.FeedExtends | app/borg_warnings.py:171-200 | feeding b after a finds the warnings of a + b wherever the cut is, CRLF included |
| WarningCollector.InterleavingInvariance | app/borg_warnings.py:166-211 | the warnings found depend only on the bytes of each stream, not on chunking or interleaving |
| WarningCollector.TerminatedWarnings | app/borg_warnings.py:186-211 | terminating the last line gives the warnings of all lines with the item-line skip applied to the last one too |
| WarningCollector.UnterminatedExactly | app/borg_warnings.py:202-211 | a last line feed leaves the warnings unchanged if and only if the unterminated rest is empty, not skipped, not classified, or its warning is among those of the lines |
| WarningCollector.UnterminatedWitness | app/borg_warnings.py:121-129 | `A x: file changed while we backed it up` is a warning without its line feed and none with it |
| WarningCollector.BorgWarningCollector.Record | app/borg_warnings.py:152-164 | distinct warnings are counted once per kind and in total, and the first ones are listed up to the limit |
| WarningCollector.BorgWarningCollector.FeedBytes | app/borg_warnings.py:171-200 | the object's state after a feed is that of the reference |
| WarningCollector.BorgWarningCollector.FinalizeStreams | app/borg_warnings.py:202-211 | both remainders are classified without the item-line skip and the buffers are emptied |
| WarningCollector.BorgWarningCollector.Summarize | app/borg_warnings.py:213-223 | no summary without warnings; otherwise totals, items and the number of items left out |
| WarningCollector.CollectAll | app/borg_warnings.py:136-211 | total and every kind count are sizes of the set of distinct warnings of the two whole streams |
| RestoreProgress.ChunkInvariance | app/borg_progress.py:281-397 | while no chunk leaves an overlong rest, the readable output, counts, baselines and last snapshot are those of the stream read record by record |
| RestoreProgress.ShortLinesSuffice | app/borg_progress.py:381-389 | a stream without lines over 256 KiB leaves no overlong rest under any chunking |
| RestoreProgress.CutVisibleExactly | app/borg_progress.py:366-397 | from any state, a cut changes the readable output if and only if the rest before it is over 256 KiB and the joined first record is written differently from the copied rest followed by what the cut record writes |
| RestoreProgress.CutResults | app/borg_progress.py:366-397 | a cut before which the rest fits changes nothing at all; otherwise both runs go on from the two effects of the first record |
| RestoreProgress.CutChangesResult | app/borg_progress.py:366-397 | output, counts and snapshot together change only if the first effects differ, and do so if the outputs differ or nothing follows |
| RestoreProgress.PlainLineLosesItsEnd | app/borg_progress.py:345-390 | an overlong plain line ending in `{}` is copied whole, but loses the `{}` when cut before it |
| RestoreProgress.PercentInRange | app/borg_progress.py:226-274 | every percentage ever reported is absent or within 0..100 |
| RestoreEvents.ReferenceIsEvents | app/borg_progress.py:215-358 | reading any stream gives the log of its records and a snapshot whose columns each follow from the history of the records |
| RestoreEvents.FilesExactly | app/borg_progress.py:285-293 | after the newest successful end, or without one, the file count grows by one for every listed path and by nothing else |
| RestoreEvents.FilesAtEnd | app/borg_progress.py:302-309 | without a successful end the files are the listed paths; at one they are at least the announced files |
| RestoreEvents.LastExtract | app/borg_progress.py:331-344 | after a last extract record the snapshot holds its current, its total or else the announced one, its path, and the share of the two up to 100 |
| RestoreEvents.LastListed | app/borg_progress.py:349-353 | after a last listed path there is one file more, this path, and the bytes as before |
| RestoreEvents.LastPhase | app/borg_progress.py:278-358 | every record that reports leaves its own phase |
| RestoreEvents.LastComplete | app/borg_progress.py:256-259 | a completed extraction or successful end is at 100 percent of a known total |
| RestoreEvents.StripExactly | app/borg_progress.py:360-364 | a record loses the spaces at both ends and nothing else before it is taken for an object |
| RestoreEvents.RStripCrExactly | app/borg_progress.py:376-396 | a record loses the CRs at its end and nothing else |
| RestoreProgress.BorgRestoreProgressStreamFilter.FeedData | app/borg_progress.py:366-390 | the record loop consumes the complete lines of carry + data in order and passes an overlong rest through |
| RestoreProgress.BorgRestoreProgressStreamFilter.FinalizeStream | app/borg_progress.py:392-397 | the carry is consumed as a last record |
| RestoreProgress.FilterStream | app/borg_progress.py:202-397 | any chunks of any stream through the object give the output and the progress of the specification, in range, and those of the reference while no overlong rest is left |
| RestoreEvents.FilterEvents | app/borg_progress.py:202-397 | through the object, chunks without an overlong rest give the log of all records in order, and the snapshot of their history |
| ProgressFilter.Conservation | app/borg_progress.py:95-163 | input equals, in order, removed records interleaved with the output, and only complete frames are removed |
| ProgressFilter.CutVisibleExactly | app/borg_progress.py:111-163 | a cut changes the total output if and only if the listed condition on the unterminated tail and the next record holds, or it splits the CRLF of a frame |
| ProgressFilter.InvisibleCuts | app/borg_progress.py:111-163 | a chunking none of whose cuts is visible gives the output of the stream in one piece |
| ProgressFilter.FrameCut | app/borg_progress.py:100-152 | a frame cut where its beginning is not plausible lets the beginning through, and the rest too unless it is a frame itself |
| ProgressFilter.FrameCutExactly | app/borg_progress.py:100-152 | a frame cut in two is removed completely if and only if its beginning is plausible |
| ProgressFilter.FastPath | app/borg_progress.py:118-124 | data without CR and without the O marker contains no frame, so only the tail can be held back |
| ProgressFilter.BorgProgressStreamFilter.FeedData | app/borg_progress.py:111-152 | output, carry of at most 16 KiB and newest frame of one feed, fast path included |
| ProgressFilter.BorgProgressStreamFilter.FinalizeStream | app/borg_progress.py:154-163 | a carried frame is removed and reported, any other carry is returned |
| ProgressFilter.FilterStream | app/borg_progress.py:72-163 | any chunks through the object lose nothing but complete frames, and where no cut is visible give the output of the stream in one piece |
| ProgressFrame.CutInsideFirstNumber | app/borg_progress.py:9-109 | a frame cut inside its first number: the beginning is let through, and the rest is removed and reported with the size of the shorter number if and only if that is a number |
| ProgressFrame.CutBetweenDigits | app/borg_progress.py:9-109 | `1` and `2.5 kB O ...`: only the `1` is let through and 2.5 kB is reported |
| ProgressFrame.CutBeforePoint | app/borg_progress.py:9-109 | `12` and `.5 kB O ...`: the whole frame is let through |
| ProgressFrame.SmallFrame | app/borg_progress.py:9-15 | a number of at most four bytes followed by ` kB O 3 kB C 4 kB D 5 N` is a frame |
| ProgressGrammar.ParseExactly | app/borg_progress.py:9-67 | exactly the written frames parse, each to the sizes its three amounts stand for, its file count and its path |
| ProgressGrammar.SizeIsExact | app/borg_progress.py:17-51 | a written amount is its digits times its unit, rounded down, from B to EB and kiB to EiB; iB and what is too large for a float have no size |
| ProgressGrammar.FrameExactly | app/borg_progress.py:95-98 | a record counts as a frame exactly if it is a written frame with its letters between single spaces |
| ProgressGrammar.HeldBackExactly | app/borg_progress.py:100-109 | at the end of a chunk, held back are exactly up to 16 KiB that hold an O between spaces, or are a number and a unit, with nothing or the word O behind |
| ProgressGrammar.CutFrameExactly | app/borg_progress.py:100-152 | any frame cut anywhere disappears completely if and only if what stands before the cut is held back |
| ProgressGrammar.RecordRemovedExactly | app/borg_progress.py:126-148 | a terminated record is removed exactly if it is such a frame, and then what it says is reported |
| PreparedRestore.DataDirectory.Apply | app/backups.py:1444-1513 | without a failing rename every component in the backup holds the backup's content, a missing notifications file and the sidecars of a restored database are gone, and every other name is as it was; with exactly one failure the directory is the original one, with more it is a reported double failure in which all but as many components as rollback renames failed are as before; after every single rename nothing is lost and no name outside the backup is touched |
| PreparedRestore.NothingIsLost | app/backups.py:1482-1505 | in every state of an exchange each original is in its live slot or in `old`, and each prepared component in its live slot or in `new` |
| PreparedRestore.SafeIsAccounted | app/backups.py:1482-1505 | in the middle each original is live or set aside, each live name holds its original or the backup's content, and names that are neither in the backup nor cleared are as they were |
| PreparedRestore.ReplacedAt | app/backups.py:1464-1481 | a completed restore holds the backup's content or nothing for selected names and the original for all others |
| PreparedRestore.ReplacedIsInstalled | app/backups.py:1464-1481 | the replaced directory is, name by name, the one a completed restore promises |
| PreparedRestore.ComponentsDistinct | app/backups.py:1464-1480 | no component is exchanged twice, and every prepared one is exchanged |
| PreparedRestore.RenameMoves | app/backups.py:1482-1505 | each of the four renames is legal, overwrites nothing, and moves one component to its next stage leaving all others |
| Attempts.FailuresWithin | app/backups.py:1482-1509 | the exchange completes if and only if none of the renames it needs is scheduled to fail |
| PreparedRestore.InstalledIsReplaced | app/backups.py:1510-1513 | an exchanged directory without its transaction directory is the replaced directory |
| PreparedRestore.UntouchedIsBefore | app/backups.py:1510-1513 | a rolled back directory without its transaction directory is the original directory |
| PreparedRestore.DataDirectory.CopyComponents | app/backups.py:1464-1476 | copies finish or fail before any live slot is touched |
| PreparedRestore.DataDirectory.Exchange | app/backups.py:1482-1490 | the rename loop stops at its first failure with its bookkeeping matching the directory |
| PreparedRestore.DataDirectory.Rollback | app/backups.py:1491-1509 | each changed component is put back or counted as an error, going on after errors |
| CacheSwap.Directories.Swap | app/backups.py:1293-1323 | swapped without failing steps, both targets as before after exactly one, and after every step the previous content is live or under its `pre-bbm-restore` name |
| CacheSwap.Directories.ExchangePair | app/backups.py:1301-1312 | one pair is exchanged completely or left in a state the rollback's bookkeeping describes |
| CacheSwap.Directories.RemoveInstalled | app/backups.py:1314-1319 | installed directories are removed, failures ignored, without losing previous content |
| CacheSwap.Directories.RestorePrevious | app/backups.py:1320-1323 | previous directories move back where the target is free until a rename raises |
| Envelope.BigEndianInverse | app/backups.py:635 | the length field read back is the header length |
| Envelope.FromBigEndianInverse | app/backups.py:968 | the four bytes written for a read length are the bytes read |
| Envelope.FromBigEndianOrder | app/backups.py:968 | the most significant byte comes first |
| Envelope.MaskedAt | app/backups.py:644-657 | every byte is masked for its own position |
| Envelope.MaskedAppend | app/backups.py:644-657 | chunkwise encryption is encryption of the whole payload |
| Envelope.Encrypt | app/backups.py:635-660 | the chunk loop writes prefix, ciphertext of the whole payload, and tag |
| Envelope.HeaderRead | app/backups.py:921-989 | a header is read exactly from files that start with its authenticated prefix and are not too large for it, with the offset and prefix that were written |
| Envelope.WrittenHeaderRead | app/backups.py:954-989 | a written header is refused for its size, as unsupported, or with a file too large for it, in this order, and else read |
| Envelope.OtherFileRead | app/backups.py:954-977 | the reason for which any other file is refused |
| Envelope.Decrypt | app/backups.py:992-1032 | decryption returns a payload if and only if the file is what encrypting that non-empty payload under an admissible header writes, and else the first reason against it |
| Envelope.RoundTrip | app/backups.py:596-660 | decrypting an encrypted file returns the payload, or exactly one reason: header size, unsupported header, file over the limit its header sets, or empty payload |
| RunLog.CompactionIsOne | app/run_logs.py:45-72 | compacting an already compacted file equals compacting everything ever written once |
| RunLog.CompactionIsInvisible | app/run_logs.py:182-202 | for every reader limit the file reads as if nothing had ever been compacted if and only if nothing was, or it is longer than the limit, or exactly as long and without a CR |
| RunLog.WholeFileDiffers | app/run_logs.py:182-189 | a compacted file read whole is shorter than the stream read whole, line ends translated or not |
| RunLog.LongerFile | app/run_logs.py:190-200 | a compacted file longer than a limit shows the same window as the stream, also for limits above the writer's |
| RunLog.FreshCompaction | app/run_logs.py:45-72 | right after a compaction the file has exactly the writer's limit: a reader with that limit is misled if and only if it contains a CR, one with a larger limit always |
| RunLog.WindowOfShape | app/run_logs.py:190-200 | any window of at most the writer's limit is the same window of the whole stream |
| RunLog.NewestKept | app/run_logs.py:45-72 | the last tail-size bytes written, followed by the buffer, are the newest bytes accepted, and a compacted file keeps the first head bytes |
| RunLog.RunLogWriter.Compact | app/run_logs.py:45-72 | the file stays as it was or becomes head, marker and tail of the stream, within the bound if nothing fails |
| RunLog.RunLogWriter.Flush | app/run_logs.py:131-147 | the buffer reaches the file, the shape is kept, and without failures the file ends within its bound |
| RunLog.RunLogWriter.AppendBytes | app/run_logs.py:123-129 | all accepted bytes are in stream plus buffer, and the buffer stays below its limit |
| RunLog.RunLogWriter.FlushIfDue | app/run_logs.py:149-157 | flushes exactly when bytes are pending and the interval has elapsed |
| RunLog.RunLogWriter.Close | app/run_logs.py:159-166 | a successful close has written everything accepted |
| RunLog.WriteRun | app/run_logs.py:75-173 | over any events and for every reader limit the readers' view is that of an uncompacted log exactly under that condition, and without failures the file is at most the limit plus 1 MiB |
| RunLogDelta.ReadDelta | app/run_logs.py:205-244 | which bytes a poll returns and when it resets, with the file changing between stat and read |
| RunLogDelta.LogView.Follow | app/run_logs.py:205-244 | over any polls of a growing log the view is a contiguous part ending at the offset, and the whole prefix if never reset |
| RunLogDelta.LogView.CatchUp | app/run_logs.py:205-244 | when the log stands still one poll reaches its end |
| RunLogDelta.LogView.PollReplaced | app/run_logs.py:225-231 | whatever a client was shown before, a replaced log is signalled exactly when it is shorter than the offset or too far ahead; otherwise the view is right if and only if the shown slice did not change |
| RunLogDelta.ReplacedUnnoticed | app/run_logs.py:225-231 | a concrete replacement that goes unnoticed |
| Schedules.ScheduleFits | app/schedules.py:74-110 | target and conflict validation accept a schedule row if and only if the resulting tables are consistent |
| Schedules.ConsistentIsSound | app/schedules.py:39-125 | consistent tables are exactly those, column by column, in which every row's targets exist and no job is covered by two enabled rows |
| Schedules.StorableExactly | app/schedules.py:74-110 | storing a request keeps the tables consistent exactly if its ids are positive, its targets given and existing, and, enabled, it covers no job of another enabled row |
| Schedules.JobFits | app/schedules.py:112-125 | at most one matching enabled schedule if and only if the tables with the job are consistent |
| Schedules.FreshIdsAlike | app/main.py:2922-2927 | whether a new job is accepted does not depend on the id it gets |
| Schedules.FewerTargets | app/schedules.py:39-59 | removing targets, schedules or jobs never breaks exclusiveness |
| Schedules.HostRemoved | app/main.py:2149-2163 | removing an unused host and its references keeps the tables consistent |
| Schedules.JobRemoved | app/main.py:3011-3029 | removing a job and its references keeps the tables consistent |
| Schedules.OthersStay | app/main.py:2752-2787 | only the schedules of a deleted repository go, the others stay as they are |
| Schedules.RepositoryRemoved | app/main.py:2752-2787 | removing an unused repository and its schedules keeps the tables consistent |
| Schedules.RepairIsSafe | app/database_maintenance.py:238-265 | repair on any tables adds no target, enables nothing, keeps exclusiveness, leaves the preview empty and what stays enabled without dangling targets |
| Schedules.RepairExactly | app/database_maintenance.py:238-265 | which rows the repair changes, and what it leaves in each column |
| Schedules.RepairTwice | app/database_maintenance.py:238-265 | a second repair changes nothing but still reports the schedules without a repository |
| Schedules.Manager.ConflictsOf | app/schedules.py:95-110 | the loop finds exactly the jobs other enabled schedules already have |
| Schedules.Manager.MatchesOf | app/schedules.py:112-123 | the loop finds exactly the enabled schedules a job falls into |
| Schedules.Manager.CreateSchedule | app/main.py:2837-2859 | accepted if and only if the request can be stored as above and the result is consistent; the row keeps the request's mode, targets and enabled flag and covers the same jobs; unchanged otherwise |
| Schedules.Manager.UpdateSchedule | app/main.py:2862-2881 | the same for a row that exists, which is not compared with itself |
| Schedules.Manager.AllocateJobId | app/main.py:741-750 | larger than every id of a job, reservation or run |
| Schedules.Manager.CreateJob | app/main.py:2915-2935 | accepted if and only if the tables with the job are consistent; the id was never reserved or issued |
| Schedules.Manager.UpdateJob | app/main.py:2938-2962 | accepted if and only if the job exists and the result is consistent, unchanged otherwise |
| Schedules.Manager.DeleteHost | app/main.py:2149-2163 | refused for a used host; otherwise host and references are gone and the tables consistent |
| Schedules.Manager.DeleteJob | app/main.py:3011-3029 | refused while a run is active; otherwise job and references are gone, runs keep no id |
| Schedules.Manager.DeleteRepository | app/main.py:2752-2787 | refused while used, mounted or active; otherwise repository and its schedules are gone |
| Schedules.Manager.DropHostReferences | app/main.py:2973-2980 | the loop shortens the host lists and deletes schedules left without hosts |
| Schedules.Manager.DropJobReferences | app/main.py:2964-2971 | the loop shortens the job lists and deletes schedules left without jobs |
| Schedules.Manager.RepairTargets | app/database_maintenance.py:238-265 | repaired rows are the previewed ones plus the repository schedules without a repository; consistent tables are left alone |
| Schedules.Perform | app/main.py:2837-3029 | one operation, accepted or not, keeps the tables consistent, and a job id that appears was never reserved |
| Schedules.Operate | app/main.py:2837-3029 | over any operations the tables are consistent and sound in every state, job ids strictly increase, and a deleted job never comes back |
| ArchiveOwners.BothWaysAgree | app/main.py:596-627 | searching the prefixes sorted by length finds the owner that taking the longest match finds, for any jobs and histories |
| ArchiveOwners.LongestMatch | app/main.py:617-627 | the owner's prefix matches, no matching prefix is longer, and equally long ones come later; no owner means no match |
| ArchiveOwners.OwnerExactly | app/main.py:617-627 | the owner is the first job with the longest matching prefix among its own, or the compact one if it has none, and its earlier ones; nobody if none matches |
| ArchiveOwners.AssignArchiveOwners | app/main.py:596-614 | every archive gets the owner the single lookup gives |
| ArchiveOwners.CompactExclusive | app/main.py:2925 | no archive name starts with the prefixes of two job ids |
| ArchiveOwners.OwnerIsCreator | app/main.py:617-627 | among jobs with only their own prefix the owner is the job whose prefix the name has, whatever the order, and nobody if that job is gone |
| ArchiveOwners.DecimalInjective | app/runner.py:599-604 | distinct ids have distinct decimal forms |
| ArchiveOwners.DecimalReads | app/runner.py:599-604 | an id is written in decimal digits without leading zeros |
| ArchiveHistory.OwnersOver | app/main.py:596-627 | over any history of the tables an archive belongs to the existing job whose prefix its name has, and to nobody ever after that job was deleted |
| RunRetention.RunHistory.Cleanup | app/main.py:785-810 | removes exactly the expired finished runs that are not the newest successful or warned backup of an existing job, or all finished ones; active runs stay |
| RunRetention.RunHistory.DeleteExecution | app/main.py:4578-4591 | refused exactly for missing and active runs and for the newest successful or warned backup of an existing job |
| RunRetention.RunHistory.FinishRun | app/main.py:753-773 | a run that ends reliably can only move a job's newest baseline forward |
| RunRetention.RunHistory.DeleteJob | app/main.py:3011-3029 | a deleted job's runs lose their job and their protection |
| RunRetention.Step | app/main.py:753-810 | one event keeps what the tables demand; a new job has an id no job had, newest baselines only move forward, and no active run disappears |
| RunRetention.Replay | app/main.py:753-810 | over any history, creations and deletions of jobs included, a job that exists keeps a newest reliable backup at least as new as any it ever had, and no active run disappears |
| HealthNotification.StretchIsEqual | app/notifications.py:242-247 | the stored count is the length of the last stretch of equal observations |
| HealthNotification.HealthNotifier.Observe | app/notifications.py:230-272 | a message is sent exactly when the status is confirmed, allowed, deliverable and new to the recipients |
| HealthNotification.ObserveAll | app/notifications.py:230-272 | messages alternate from degraded on; a message repeats what the demanded number of observations said, while allowed and deliverable, and then the recipients know it; without a confirmed stretch nothing is sent |
| SingleFlight.StepKeeps | app/header_network.py:279-331 | a step of one caller keeps the protocol for all callers |
| SingleFlight.OneProbePerKey | app/header_network.py:280-290 | at most one probe per key is in flight |
| SingleFlight.NothingLeftBehind | app/header_network.py:324-331 | a finished owner has no in-flight entry, and a waiter's owner is at work or has answered |
| SingleFlight.RatesOfProbe | app/header_network.py:303-320 | rates compare with the previous probe, and a repeated interface has none |
| SingleFlight.Rates | app/header_network.py:306-312 | both rates are known exactly for a later time and counters that did not go back; download times the interval is eight times the bytes received, and upload likewise for sent |
| SingleFlight.Measure | app/header_network.py:299-323 | the counter loop yields these samples, address and scope included, and remembers exactly the interfaces it saw |
| SingleFlight.Sampler.Enter | app/header_network.py:278-290 | a caller gets a recent sample, becomes owner, or waits for the owner |
| SingleFlight.Sampler.Probed | app/header_network.py:292-328 | a probe that raises changes no sample, one that returns stores it |
| SingleFlight.Sampler.Leave | app/header_network.py:324-331 | the owner removes its entry and returns its outcome |
| SingleFlight.Interleave | app/header_network.py:267-331 | over every interleaving: one probe per key, shared outcomes are the owner's, no entry without an owner |
| DuplicateSecurity.NewestAndOlder | app/client_cache.py:831-871 | one newest per location, older ones strictly older than it, ambiguous ones otherwise unchanged |
| DuplicateSecurity.ResolvedOnce | app/client_cache.py:831-871 | the resolution is determined by the entries, not by their order |
| DuplicateSecurity.SelectableExactly | app/client_cache.py:776-871 | after a client scan an entry is selectable if and only if it is a directory with a Borg ID as name that is not confirmed, and its location is not assigned or another directory of that location is strictly the newest; which are selected by default, and which are old duplicates |
| DuplicateSecurity.ConfirmedStaysProtected | app/client_cache.py:776-871 | an entry with a confirmed Borg ID never becomes selectable |
| DuplicateSecurity.LocationAloneDoesNotProtect | app/client_cache.py:802-871 | an entry active by its location only is selectable if and only if another entry of that location is strictly the newest |
| DuplicateSecurity.AssignedButSelectable | app/client_cache.py:826-871 | two directories of one assigned location: the older is selected for removal by default |
| DuplicateSecurity.ManagerProtectsConfirmed | app/manager_cache.py:170-250 | on the manager confirmed and irregular entries are never selectable |
| DuplicateSecurity.ManagerSelectsExactly | app/manager_cache.py:170-250 | the same for the manager, where an empty location is none and whatever is selectable is selected by default |
| DuplicateSecurity.NewestOf | app/client_cache.py:845-846 | the strictly newest entry of a group, or a witness for each that there is none |
| DuplicateSecurity.GroupByLocation | app/client_cache.py:831-834 | the dictionary holds exactly the comparable entries of each location |
| DuplicateSecurity.Resolve | app/client_cache.py:831-871 | the in-place loops leave the resolution of the scanned entries |
| DuplicateSecurity.ScanClient | app/client_cache.py:776-871 | the in-place loops leave an entry selectable exactly under the condition of `SelectableExactly`, which is over the directories found, and mark no confirmed one as an old duplicate |
| DuplicateSecurity.CleanupSecurity | app/manager_cache.py:283-304 | removes exactly the requested, or without a request all, entries a fresh classification still allows and that did not vanish, never a confirmed one; exactly the other ones asked for are skipped |

## Left out

- Text, regular expressions and JSON: UTF-8 decoding, the warning patterns, restore records and header JSON are functions or predicates on a line; the item line, network and progress patterns are spelled out.
- NetworkFilter.ChunkInvariance: transfer rates and the list of the three newest interfaces are not modelled; they depend on the clock and on display order.
- RestoreProgress.ChunkInvariance: rates and remaining time are not modelled; the parsing of control and JSON records is a function on the record.
- RestoreProgress.CutChangesResult: where the outputs agree, counts that differ after the first record can be overwritten by a later one; when that happens is not characterized.
- ProgressGrammar.SizeIsExact: sizes are exact decimal numbers, not rounded floats, and the text of a path is a function of its bytes.
- WarningCollector.BorgWarningCollector.FeedBytes: which kind and path a line yields is a function of the line.
- PreparedRestore.DataDirectory.Apply: failures are failing renames and copies; an asynchronous interrupt between a rename and its bookkeeping, power loss and concurrent writers are not modelled.
- CacheSwap.Directories.Swap: creating the parent directory is not a separate step, and a dangling symbolic link as a target is not modelled.
- Envelope.Decrypt: the cipher is an abstract position-wise stream cipher with a 16-byte tag as in NIST SP 800-38D sections 6.5, 7.1 and 7.2; cryptographic strength, scrypt and passphrase rules are not modelled.
- RunLog.CompactionIsInvisible: a reader's limit above the writer's is covered for writers of at least 256 KiB, and the settings accept none below 1 MiB; a maximum that changes during a run and a file deleted while it is open are not modelled.
- RunLog.RunLogWriter.Flush: a write that fails halfway is not modelled.
- RunLogDelta.LogView.Follow: is stated for logs that only grow; `PollReplaced` says exactly what a compaction in between does.
- Schedules.Operate: names, cron expressions, parallel limits and enabled flags of hosts and jobs do not influence the invariants; target id lists are sets, and the unique-name check is an input.
- Schedules.RepairIsSafe: ids that are not positive are ignored by the repair and therefore exempt in the last clause.
- ArchiveOwners.OwnerIsCreator: is stated for jobs that carry only the prefix they were created with, and so is `ArchiveHistory.OwnersOver`; `BothWaysAgree` covers all others.
- RunRetention.Replay: the explicit removal of all finished runs is left out of the history, as it removes protected runs on purpose.
- HealthNotification.ObserveAll: calls do not overlap, as the only caller is one loop that waits for each call (`app/main.py:964-980`), and the stored state is neither lost nor damaged.
- SingleFlight.Interleave: the probe itself is an input.
- DuplicateSecurity.CleanupSecurity: removal errors are not modelled, and cache directories, which are not compared with each other, are left out.
- Routes, authentication, web pages, SSH, Borg, tar, SMTP and the scheduler: calls into other systems.
- The admission queue in `app/service.py`, settings defaults, message texts and log rotation are not part of this model.
