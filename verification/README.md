# Verified model of WAL-G

WAL-G takes full and incremental PostgreSQL and MySQL backups, records which blocks the WAL touched, and restores chains
of increments. This project models its core in Dafny and proves what that core promises, for all inputs and all runs.
`dafny verify dfyconfig.toml` checks everything.

## Parts

**Incremental page files.** `PageFiles`, `IncrementFormat`, `Restore` and `IncrementReader` model the increment format, its
writer and the in-place restore operations. `RestoreEquivalence` proves when the fast restore (newest to oldest, filling
"missing" pages) equals the simple one (oldest to newest) over chains of any length. The plain equality is false: a page
whose header is zero in an increment, such as a vacuumed or new page, is taken for missing and replaced by an older copy.
The exact condition is proved as an if-and-only-if, with two counterexamples. `FetchFiles`, `FetchPerFile` and
`FetchEquivalence` lift this to whole fetches, and `FetchSuccess` proves when those succeed. `FetchSkipping` and
`SkippingExactness` treat the counters that let the fast one skip files: what they count, when a file is dropped, and
exactly when skipping changes what is restored.

**WAL records, pages and delta recording.** `XLogRecords` and `WalPages` model the parser. `RecordWriter` and
`WalWriter` write records and pages, and parsing undoes them. `WalLayout` proves that parsing page by page returns
exactly the laid records wherever pages cut them or switch records end them. `WalParts`, `SegmentRecording` and
`DeltaRecording` prove that recording segments independently and in any order, then gluing saved heads and tails, equals
one sequential run. `RecordingReader` adds the reader that passes the file on while recording it, and `RecordingFiles`
the files that carry recording state between processes. `DeltaRange` and `DeltaMap` prove which segments a delta backup
reads and that the resulting map holds exactly the blocks of the records that end there, and `RecordedDeltas` that delta
files left by recording are what the map needs.

**Backups as a forest.** `BackupForest`, `BackupMarks`, `BackupDeletion` and `BackupLifecycle` cover permanence marks after
every single write, deletion of targets, delete-before and retain, and how the two sides rely on each other.

**Protocols and streams.** `TarBallQueue` is the tarball queue as a state machine over atomic steps, `TarBallBytes` proves
that it loses no byte, and `TarBallProgress` that finishing it ends and where it can get stuck. `WalStream` cuts a replication stream into segments, `Binlog`
filters a binlog by time.

**Segments and names.** `IntegrityScan` covers wal-verify's scan and wal-show's gaps, `WalNames` the names of WAL files.

## Where the code and its intent differ

Each of these is modelled as the code has it, with inputs that show it and the exact condition proved:

- Zero-header pages inside increments come back from older backups under the fast restore
  (`RestoreEquivalence.EmptiedPageReturns`, `ReverseRefinesForward`).
- The counters of the fast restore take such a page for one supplied, so a file can be dropped while blocks are missing or
  older copies are still to come (`MissingBlockForgotten`, `SkippingExactness.EmptiedPageStays`, `CounterDrifts`,
  `SkippingExactly`).
- The bitmap loop computes the successor of a block number in 32 bits, which wraps for the last one (`LastBlockIsTaken`,
  `BreakEqualsFilter`, `BitmapHeld`).
- The delta before the first one wraps around in 64 bits (`FirstDeltaWraps`, `CoverageExactly`).
- A parser made from an empty record head claims a beginning it does not have until it is saved and loaded
  (`EmptyHeadFails`, `HeadFlagExactly`).
- A location equal to the terminal one ends a delta file early (`DeltaFilesBothWays`, `DeltaRoundTrip`).
- The recording reader drops a partial last page instead of passing it on (`RecordingReader.PushWalFile`).
- A replication message that reaches past the next segment makes the receiver refuse what follows, unless enough keepalives
  come in between (`TooLongIsRefused`, `EnoughKeepalives`, `StreamExactly`).
- FinishQueue waits forever for tarballs that a failed close has lost (`LostTarballStops`, `StuckExactly`).
- Deleting before a full backup can orphan a delta whose parent is older than the target (`DeltaOrphaned`,
  `DeleteBeforeSafe`).
- Pushing over an existing backup name can break the forest (`ReplacedBaseBreaks`, `StepKeepsValid`).

## Model

| member | source | states |
|---|---|---|
| `IncrementFormat.ParseEncode` | internal/databases/postgres/pagefile_new.go:182-205 | reading the header, size, count and diff map of a written increment gives the same increment back |
| `IncrementFormat.EncodeParse` | internal/databases/postgres/pagefile.go:239-253 | only encodings are accepted: any input the reader accepts is the encoding of what it read |
| `IncrementFormat.IncrementLayout` | internal/databases/postgres/incremental_page_reader.go:82-103 | where everything is in an increment: signature, size, count, one number per block, then the pages |
| `IncrementFormat.SignatureExactly` | internal/databases/postgres/pagefile.go:239-253 | the signature is accepted if and only if it is the four bytes written; another version character gives its own error |
| `PageFiles.ResizeKeepsPages` | internal/databases/postgres/pagefile.go:212-215 | truncating keeps every page that stays and extends with empty ones |
| `PageFiles.WriteReplacesOnePage` | internal/databases/postgres/pagefile_new.go:157-161 | writing a page replaces that page, keeps all others and grows the file only past its end |
| `PageFiles.MissingExactly` | internal/databases/postgres/pagefile_new.go:165-174 | a page counts as missing if and only if its first 24 bytes are zero |
| `Restore.ApplyFileIncrement` | internal/databases/postgres/pagefile.go:173-237 | the file becomes the old one resized and overwritten page by page; otherwise exactly the error of the header, the missing file, the size, the short body or the trailing data |
| `Restore.ApplyPages` | internal/databases/postgres/pagefile.go:197-237 | the part after the header: open, truncate, overwrite, insist on the end of the data, with the same verdict |
| `Restore.VerdictExactly` | internal/databases/postgres/pagefile.go:197-234 | which increments give which error: no file, a size that is negative as an int64, or data after the last page |
| `Restore.OverwritePages` | internal/databases/postgres/pagefile.go:217-237 | the page loop: every page of the increment is written; a short body gives the error of where it ends, trailing data its own |
| `Restore.CreateFileFromIncrement` | internal/databases/postgres/pagefile_new.go:68-104 | a new file whose recorded blocks are the increment's pages in order and whose others are empty; the result is the number of blocks not supplied, or the error of the header or of the place where the body ends |
| `Restore.CreatePages` | internal/databases/postgres/pagefile_new.go:76-104 | the page loop of the creation, tied to the page-wise description of the created file |
| `Restore.WritePagesFromIncrement` | internal/databases/postgres/pagefile_new.go:107-138 | only missing pages inside the file are written (all of them, when overwriting); the result counts the pages written, or is the error of the header, the short body or the trailing data |
| `Restore.FillPages` | internal/databases/postgres/pagefile_new.go:114-138 | the page loop of the filling, tied to the page-wise description of the filled file |
| `Restore.RestoreMissingPages` | internal/databases/postgres/pagefile_new.go:45-64 | missing pages are taken from the base; a base that ends between pages is fine, one that ends inside a page is an error if and only if that page would have been read |
| `RestoreEquivalence.AppliedBlock` | internal/databases/postgres/pagefile.go:217-229 | block i of a forward step is the increment's page for it, else the old page, else zeros |
| `RestoreEquivalence.CreatedBlock` | internal/databases/postgres/pagefile_new.go:85-98 | block i of a created file is the increment's page for it or empty |
| `RestoreEquivalence.FilledBlock` | internal/databases/postgres/pagefile_new.go:116-132 | block i of a filled file changes only if it was missing and the increment holds it |
| `RestoreEquivalence.ReplacedBlock` | internal/databases/postgres/pagefile_new.go:141-163 | when overwriting, block i of the file is the increment's page for it if there is one, missing or not |
| `RestoreEquivalence.OverwriteCounts` | internal/databases/postgres/pagefile_new.go:107-138 | when overwriting, the count is the number of blocks of the increment inside the file |
| `RestoreEquivalence.RestoredBlock` | internal/databases/postgres/pagefile_new.go:49-57 | block i of a restored file changes only if it was missing and the base holds it |
| `RestoreEquivalence.ForwardBlock` | internal/databases/postgres/backup_fetch_handler.go:65-90 | a forward chain leaves in every block its newest version |
| `RestoreEquivalence.ReverseBlock` | internal/databases/postgres/backup_fetch_handler_new.go:44-85 | a reverse chain leaves in every block the newest copy with a non-zero header, or the oldest copy |
| `RestoreEquivalence.ReverseRefinesForward` | internal/databases/postgres/pagefile_new.go:45-174 | for every well-formed chain of any length, reverse restore gives the bytes of forward restore if and only if every block satisfies the stated condition on its copies |
| `RestoreEquivalence.ReverseEqualsForward` | internal/databases/postgres/pagefile_new.go:45-174 | with non-zero page headers and recorded growth the two restores give the same bytes |
| `RestoreEquivalence.EmptiedPageReturns` | internal/databases/postgres/pagefile_new.go:165-174 | counterexample: a page emptied after the base backup comes back under reverse restore |
| `RestoreEquivalence.TruncatedBlockReturns` | internal/databases/postgres/pagefile_new.go:68-104 | counterexample: a block cut off and added back unrecorded comes back from the base under reverse restore; the files have two, one and two pages |
| `IncrementReader.ValidPageHasHeader` | internal/databases/postgres/postgres_page_header.go:24-36 | a valid page is never mistaken for a missing one |
| `IncrementReader.HeaderMeans` | internal/databases/postgres/postgres_page_header.go:20-36 | for a page with any header fields: its LSN is high times 2^32 plus low, it is new if and only if upper is zero, and valid if and only if the fields are in order, flags below eight, LSN not zero and version 4 |
| `IncrementReader.BreakEqualsFilter` | internal/databases/postgres/incremental_page_reader.go:105-115 | the early break over an ascending bitmap equals filtering by "fits in the file" if and only if the 32-bit successor of the last block does not wrap into range |
| `IncrementReader.LastBlockIsTaken` | internal/databases/postgres/incremental_page_reader.go:105-115 | witness: a bitmap that ends with the last block number keeps that block, which no file holds |
| `IncrementReader.BitmapHeld` | internal/databases/postgres/incremental_page_reader.go:105-115 | the blocks taken from a bitmap are all in the file if and only if the last one does not wrap |
| `IncrementReader.TakenAscending` | internal/databases/postgres/incremental_page_reader.go:105-115 | the blocks taken are strictly increasing |
| `IncrementReader.ScanAscending` | internal/databases/postgres/incremental_page_reader.go:117-134 | a full scan selects strictly increasing blocks |
| `IncrementReader.ScanMembers` | internal/databases/postgres/incremental_page_reader.go:117-167 | a scan that gets through selects exactly the pages that are new or have an LSN not before the start |
| `IncrementReader.FilterMembers` | internal/databases/postgres/incremental_page_reader.go:105-115 | bitmap selection keeps exactly the blocks that fit |
| `IncrementReader.FilterAscending` | internal/databases/postgres/incremental_page_reader.go:105-115 | bitmap selection gives strictly increasing blocks |
| `IncrementReader.IncrementalPageReader.constructor` | internal/databases/postgres/incremental_page_reader.go:19-26 | a reader over the whole paged file with nothing selected |
| `IncrementReader.IncrementalPageReader.Initialize` | internal/databases/postgres/incremental_page_reader.go:82-103 | blocks are those of the chosen strategy and the header bytes are the encoded header; the announced size is the length of what will be streamed if and only if the file holds every selected block |
| `IncrementReader.IncrementalPageReader.DeltaBitmapInitialize` | internal/databases/postgres/incremental_page_reader.go:105-115 | the selected blocks are the bitmap's up to the first that does not fit |
| `IncrementReader.IncrementalPageReader.FullScanInitialize` | internal/databases/postgres/incremental_page_reader.go:117-134 | the selected blocks are those of the scan; fails exactly at a page that is neither valid nor new |
| `IncrementReader.IncrementalPageReader.SelectNewValidPage` | internal/databases/postgres/incremental_page_reader.go:147-167 | a block is added exactly when its page is new or valid with an LSN not before the start |
| `IncrementReader.IncrementalPageReader.Read` | internal/databases/postgres/incremental_page_reader.go:28-73 | every call returns the next bytes of what remains, whatever the buffer size; past the end of the file it reports the end, inside a page an error |
| `IncrementReader.IncrementalPageReader.DrainMoreData` | internal/databases/postgres/incremental_page_reader.go:47-73 | the page of the next block is fetched; with nothing fetched nothing remained; no error when the file holds all blocks or has only whole pages |
| `IncrementReader.IncrementalPageReader.CopyNext` | internal/databases/postgres/incremental_page_reader.go:28-36 | the next bytes of what remains go to the caller, as many as fit |
| `IncrementReader.Drain` | internal/databases/postgres/incremental_page_reader.go:28-73 | chunks read with buffers of any sizes join to a prefix of what remained, to all of it when they are large enough, and the status says whether the end or an error was met |
| `IncrementReader.PagesOfComplete` | internal/databases/postgres/incremental_page_reader.go:52-73 | the pages streamed are as many as selected if and only if the file holds every selected block |
| `IncrementReader.StreamParses` | internal/databases/postgres/incremental_page_reader.go:82-103 | the streamed bytes parse back to the increment, and are as many as announced if and only if the file holds every selected block |
| `IncrementReader.IncrementRoundTrip` | internal/databases/postgres/pagefile.go:173-237 | applying the increment of a file to its old version gives the new one if and only if no unselected page differs |
| `IncrementReader.FullScanRoundTrip` | internal/databases/postgres/incremental_page_reader.go:117-167 | the full scan's increment turns the old file into the new one if and only if every page that differs is new or has an LSN not before the start |
| `IncrementReader.BitmapRoundTrip` | internal/databases/postgres/incremental_page_reader.go:105-115 | unless the last block wraps, the increment of a bitmap turns the old file into the new one if and only if every page outside the bitmap is unchanged |
| `IncrementReader.ChosenHeld` | internal/databases/postgres/incremental_page_reader.go:82-134 | for either strategy, exactly when the file holds every selected block |
| `IncrementReader.FullScanHeaders` | internal/databases/postgres/incremental_page_reader.go:147-167 | with only valid pages a full scan's increment has a header on every page, as reverse restore needs |
| `IncrementReader.BackupThenApply` | internal/databases/postgres/pagefile.go:117-138 | end to end for a full scan or a bitmap: select, stream through buffers of any sizes, apply to the old file; success and equality with the new file each under their exact condition, for a scan in terms of page LSNs |
| `FetchFiles.DataDirectory.UnwrapRegularFile` | internal/databases/postgres/tar_interpreter_new.go:14-43 | one tar member: create, fill, restore missing pages or skip, with the outcome reported to the accounting or the exact error; no other file is touched |
| `FetchFiles.DataDirectory.Unwrap` | internal/databases/postgres/backup_new.go:70-112 | every wanted stored file is unwrapped once, in any order, with the same result; it fails exactly when one of them does, with the error of one of them, and unwanted files stay |
| `FetchFiles.GetBaseFilesToUnwrap` | internal/databases/postgres/backup_fetch_handler.go:110-125 | the files to take from the parent are those marked incremented or skipped, and the call fails exactly when a wanted file is neither described nor a utility file |
| `FetchFiles.FetchConfig.constructor` | internal/databases/postgres/fetch_config.go:8-20 | the wanted files and no counts yet |
| `FetchFiles.FetchConfig.ProcessCreatedPageFiles` | internal/databases/postgres/fetch_config.go:44-57 | created files enter the accounting with their missing count, complete ones are excluded |
| `FetchFiles.FetchConfig.ProcessWrittenIncrementFiles` | internal/databases/postgres/fetch_config.go:59-80 | counts drop by the blocks restored, files that reach zero are excluded |
| `FetchFiles.FetchConfig.ExcludeCompletedFiles` | internal/databases/postgres/fetch_config.go:82-86 | completed files leave the wanted set, the counts stay |
| `FetchFiles.FetchConfig.SkipRedundantFiles` | internal/databases/postgres/fetch_config.go:33-37 | the configuration after one unwrapped backup |
| `FetchFiles.DeltaFetchRecursionNew` | internal/databases/postgres/backup_fetch_handler_new.go:44-85 | the recursion newest to oldest succeeds exactly when the fold over the chain does and leaves the same directory; files not wanted are never touched |
| `FetchSkipping.CreatedAccounting` | internal/databases/postgres/pagefile_new.go:82-103 | a created file misses exactly the announced count plus the zero-header pages it was given |
| `FetchSkipping.FilledAccounting` | internal/databases/postgres/pagefile_new.go:115-137 | the count of restored pages is the drop in missing pages plus the zero-header pages written |
| `FetchPerFile.RunIsPerFile` | internal/databases/postgres/backup_fetch_handler_new.go:44-85 | a file after a whole fetch is that file run through the chain on its own |
| `FetchPerFile.SkippingSucceeds` | internal/databases/postgres/backup_fetch_handler_new.go:44-85 | whenever the run without skipping succeeds, the run with skipping succeeds and restores the same set of files |
| `FetchSuccess.FetchSucceedsExactly` | internal/databases/postgres/backup_fetch_handler_new.go:44-85 | a new fetch succeeds if and only if every file can be unwrapped on its own and, while an older backup remains, is described or a utility file |
| `FetchSuccess.NewSucceeds` | internal/databases/postgres/backup_fetch_handler_new.go:12-85 | with and without skipping, a fetch into an empty directory succeeds when every wanted file is stored along the chain |
| `FetchSuccess.OldSucceeds` | internal/databases/postgres/backup_fetch_handler.go:65-125 | so does the old fetch, and every such file is there afterwards |
| `FetchSuccess.StoredChainsAreFetched` | internal/databases/postgres/backup_fetch_handler_new.go:12-85 | on such chains all three fetches succeed, the old one gives the forward-restored file, and the new one gives it too if and only if the block condition holds |
| `FetchSuccess.FullCopyEnds` | internal/databases/postgres/fetch_config.go:82-86 | with skipping, a full copy ends the search for older versions, except for a file that was there already and is not a page file |
| `FetchSuccess.CutCopyFails` | internal/databases/postgres/pagefile_new.go:45-64 | restoring from a full copy fails if and only if the copy ends inside a page that the file on disk has |
| `SkippingExactness.CounterDrifts` | internal/databases/postgres/fetch_config.go:44-80 | for all increments: the counter is the number of missing pages less the zero-header pages given so far, and the file is dropped if and only if no more pages are missing than that |
| `SkippingExactness.RunSettles` | internal/databases/postgres/pagefile_new.go:107-174 | a file that stays wanted ends in every block with the first page with a header, or the last page, of what the chain offers |
| `SkippingExactness.FileExactly` | internal/databases/postgres/fetch_config.go:44-86 | for one file: both runs give the same bytes if and only if nothing offered after the drop would change the page on disk |
| `SkippingExactness.SkippingExactly` | internal/databases/postgres/backup_fetch_handler_new.go:53-78 | for whole fetches: when the run without skipping succeeds so does the other, and a file comes out the same if and only if it is undisturbed |
| `SkippingExactness.WholeFilesAreRestored` | internal/databases/postgres/tar_interpreter_new.go:14-43 | a file that no backup stores as an increment, page file or not, comes out of the new fetch byte for byte, with and without skipping, and the same out of the old one |
| `SkippingExactness.OtherFilesStay` | internal/databases/postgres/tar_interpreter_new.go:99-110 | a file that is not a page file and is there already is left alone |
| `SkippingExactness.EmptiedPageStays` | internal/databases/postgres/fetch_config.go:44-57 | counterexample: one page emptied since the base comes back without skipping and stays empty with it |
| `SkippingExactness.MissingBlockForgotten` | internal/databases/postgres/fetch_config.go:59-80 | counterexample: an emptied block refilled by an older increment is counted for one still missing, which stays empty |
| `FetchSkipping.CountersStayExact` | internal/databases/postgres/fetch_config.go:44-80 | the case of increments whose pages all have headers: after every reverse step each counter equals the number of pages still missing |
| `FetchSkipping.SkippingPreservesRestore` | internal/databases/postgres/backup_fetch_handler_new.go:53-78 | in that case, if the run without skipping succeeds, the run with skipping succeeds with the same files |
| `FetchEquivalence.UnwrapOld` | internal/databases/postgres/backup.go:178-209 | the old unwrapping applies or writes every wanted file once, and fails exactly when one of them does, with its error |
| `FetchEquivalence.DeltaFetchRecursionOld` | internal/databases/postgres/backup_fetch_handler.go:65-90 | the old recursion equals the fold over the chain, oldest first |
| `FetchEquivalence.OldRestores` | internal/databases/postgres/backup_fetch_handler.go:65-90 | the old fetch leaves a page file in its forward-restored state |
| `FetchEquivalence.NewRestores` | internal/databases/postgres/backup_fetch_handler_new.go:44-85 | the new fetch leaves a page file in its reverse-restored state |
| `FetchEquivalence.NewEqualsOld` | internal/databases/postgres/backup_fetch_handler_new.go:12-85 | whole fetches from an empty directory, without skipping, agree on a page file if and only if the block condition holds |
| `SkippingExactness.SkippingAgainstOld` | internal/databases/postgres/backup_fetch_handler_new.go:12-85 | with skipping: an undisturbed file agrees with the old fetch if and only if the block condition holds, a disturbed one for which it holds never does |
| `XLogRecords.ReadRecordHeader` | internal/walparser/read_xlog_record.go:11-33 | accepted exactly when 24 bytes are there, the length is at least that and the resource manager is known; then it is the fields of those bytes |
| `XLogRecords.ReadField` | internal/walparser/shrinkable_reader.go:29-43 | a field is read exactly when both budget and data reach over it, and moves both |
| `XLogRecords.ReadImageHeader` | internal/walparser/read_xlog_record.go:78-103 | position and budget move together, and an accepted image has consistent hole and length |
| `XLogRecords.ImageRules` | internal/walparser/read_xlog_record.go:78-103 | which images are refused for their hole and which for their length, in terms of the two info bits and the numbers |
| `XLogRecords.ReadLocation` | internal/walparser/read_xlog_record.go:105-127 | position and budget move together, and the same-relation flag takes the relation of the block before |
| `XLogRecords.ReadBlockHeader` | internal/walparser/read_xlog_record.go:129-175 | ids increase and stay within 32, flags agree with data and image, and the budget pays for header and payload |
| `XLogRecords.BlockFlags` | internal/walparser/read_xlog_record.go:129-175 | what the flag byte of an accepted header says: 32 for data, 16 for an image, 128 for the relation of the block before, without which no block before is needed |
| `XLogRecords.HeaderStep` | internal/walparser/read_xlog_record.go:177-224 | every turn of the header loop lowers the budget |
| `XLogRecords.HeaderLoop` | internal/walparser/read_xlog_record.go:177-224 | the loop ends with the budget used up |
| `XLogRecords.ReadBlockHeaderPart` | internal/walparser/read_xlog_record.go:177-224 | the imperative header loop computes the recursive one |
| `XLogRecords.ReadBlockDataAndImages` | internal/walparser/read_xlog_record.go:57-76 | images and data are cut block by block from behind the headers |
| `XLogRecords.ReadBody` | internal/walparser/read_xlog_record.go:226-249 | blocks and main data, or a short read |
| `XLogRecords.ParseXLogRecordFromBytes` | internal/walparser/read_xlog_record.go:48-55 | the imperative parser computes the specification, error for error |
| `XLogRecords.StepAccounts` | internal/walparser/read_xlog_record.go:177-224 | one turn of the loop keeps the account of header bytes, payload and replaced main-data lengths |
| `XLogRecords.LoopAccounts` | internal/walparser/read_xlog_record.go:177-224 | the account holds at the end of the loop, ids strictly increase |
| `XLogRecords.ParseAccounts` | internal/walparser/read_xlog_record.go:48-249 | a parse consumes its total length less replaced main-data lengths, exactly the total with at most one main-data header, and has at most 33 blocks with increasing ids |
| `XLogRecords.LocationFits` | internal/walparser/read_xlog_record.go:105-127 | object and block numbers of a location read stay 32 bits wide |
| `XLogRecords.ParsedLocationsValid` | internal/walparser/read_xlog_record.go:48-249 | every location of a parsed record is one that can be saved |
| `RecordWriter.HeaderReads` | internal/walparser/read_xlog_record.go:11-33 | a written record header reads back field by field |
| `RecordWriter.ImageReads` | internal/walparser/read_xlog_record.go:78-103 | a written image header reads back, hole length implied or stored |
| `RecordWriter.LocationReads` | internal/walparser/read_xlog_record.go:105-127 | a written location reads back, with or without its own relation |
| `RecordWriter.BlockRestReads` | internal/walparser/read_xlog_record.go:129-175 | a written block header reads back and sets its payload aside |
| `RecordWriter.HeadersRead` | internal/walparser/read_xlog_record.go:177-224 | all block headers, origin and main-data header read back in order |
| `RecordWriter.PayloadReads` | internal/walparser/read_xlog_record.go:57-76 | images and data read back block by block |
| `RecordWriter.ParseEncodeRecord` | internal/walparser/read_xlog_record.go:48-249 | parsing a written record gives exactly that record and consumes all of it |
| `WalPages.HeaderExactly` | internal/walparser/read_xlog_page.go:71-112 | a header is accepted if and only if it is there, not zero, has info below eight, announces remaining data exactly when bit one is set, and is followed by the long part when bit two is; then it gives its fields; a zero page is reported if and only if all its bytes are zero |
| `WalPages.TryReadExactly` | internal/walparser/read_xlog_page.go:39-69 | the bytes from the position on: a whole record of exactly its announced length, or a part that uses up the page |
| `WalPages.WalParser.constructor` | internal/walparser/wal_parser.go:62-64 | no data and no beginning |
| `WalPages.WalParser.FromHead` | internal/walparser/wal_parser.go:223-225 | claims a beginning even for an empty head |
| `WalPages.WalParser.Loaded` | internal/walparser/wal_parser.go:209-221 | a parser with the saved state |
| `WalPages.WalParser.Invalidate` | internal/walparser/wal_parser.go:71-73 | back to the fresh state |
| `WalPages.WalParser.ParseRecordsFromPage` | internal/walparser/wal_parser.go:78-151 | new state and result are those of the specification, error for error |
| `WalPages.WalParser.FinishRecord` | internal/walparser/wal_parser.go:90-151 | the same once the previous record's end has been read |
| `WalPages.ReadXLogPage` | internal/walparser/wal_parser.go:153-189 | the record loop of a page computes its specification, WAL switches and zero tails included |
| `WalLayout.ReadLaid` | internal/walparser/wal_parser.go:153-176 | reading a page of laid records gives those that fit whole up to the first switch, the beginning of the next one, and the partial-page flag exactly when zeros are left |
| `WalLayout.SwitchKind` | internal/walparser/xlog_record.go:26-29 | a switch is a record of manager zero and kind four, whatever its flag bits |
| `WalLayout.ReadsOn` | internal/walparser/wal_parser.go:153-176 | after a whole record reading goes on behind its padding, or stops when its manager is zero and its kind four |
| `WalLayout.SwitchEndsPage` | internal/walparser/wal_parser.go:153-176 | of a page laid with records, the first switch at k: exactly the records up to it are returned, with no beginning of another and no partial page |
| `WalLayout.StepLaid` | internal/walparser/wal_parser.go:78-111 | one page of a laid stream completes the right records and leaves the parser in the right state, wherever the boundary cuts and wherever switches end a page |
| `WalLayout.RunLaid` | internal/walparser/wal_parser.go:78-111 | a run over laid pages never fails, returns exactly the completed records and ends in the expected state |
| `WalLayout.StepConserves` | internal/walparser/wal_parser.go:78-111 | completed records, the one in progress and those to come are always the same list |
| `WalLayout.RunConserves` | internal/walparser/wal_parser.go:78-111 | the same over any number of pages |
| `WalLayout.PagesGiveRecords` | internal/walparser/wal_parser.go:78-176 | page-by-page parsing of laid records gives exactly the records that end on the pages, in order, and the parser holds the beginning of the cut one |
| `WalWriter.WrittenIsLaid` | internal/walparser/read_xlog_page.go:83-112 | a page written with aligned records, switches and correct remaining length is laid as the parser expects |
| `WalWriter.ReadBack` | internal/walparser/wal_parser.go:78-176 | records written over any number of pages are read back in order |
| `WalWriter.ValuesReadBack` | internal/walparser/wal_parser.go:78-176 | from record values, switches included, to bytes to pages and back: the parsed records are the values completed on the pages, and all of them if and only if the pages have room for all records, their padding and what switches leave unused |
| `WalWriter.AdvanceLoad` | internal/walparser/wal_parser.go:78-176 | a page takes its width off the bytes up to the next switch, or all of them, and then the rest comes next |
| `WalWriter.PagesSuffice` | internal/walparser/wal_parser.go:78-176 | enough pages always make enough room, whatever the switches |
| `WalWriter.RoomWithoutSwitch` | internal/walparser/wal_parser.go:78-176 | without a switch there is room if and only if the widths of the pages add up to the bytes to be written |
| `WalParts.DeltaFileManager.constructor` | internal/databases/postgres/delta_file_manager.go:40-64 | no part files, no locations, nothing cancelled |
| `DeltaRecording.RecordedSetsSlots` | internal/databases/postgres/wal_part_recorder.go:34-71 | recording a segment sets its own tail and head slots and, after the last segment of a delta, the head before the next delta |
| `DeltaRecording.RecordedKeepsSlots` | internal/databases/postgres/wal_part_recorder.go:34-71 | recording another segment leaves them as they are |
| `DeltaRecording.NoHeadForFirst` | internal/databases/postgres/wal_part_recorder.go:50-71 | no segment supplies the head before the first delta, so its part file never becomes complete |
| `DeltaRecording.CompleteExactly` | internal/databases/postgres/wal_part_file.go:24-40 | for any set of segments recorded in any order, a part file is complete if and only if the seventeen segments it needs are among them and the sixteen of its own left a tail |
| `WalParts.DeltaFileManager.RecordSegment` | internal/databases/postgres/wal_delta_recording_reader.go:56-113 | recording a whole segment: part files, locations and cancellations are those of the page-by-page specification |
| `WalParts.DeltaFileManager.RecordOutput` | internal/databases/postgres/wal_delta_recording_reader.go:88-113 | the bookkeeping for one parsed page |
| `WalParts.LocationsAreBlocks` | internal/walparser/block_locations_util.go:8-20 | a location is extracted from records if and only if some block of some record has it |
| `WalParts.OneRecordLocations` | internal/walparser/block_locations_util.go:8-20 | a record gives the locations of its blocks one by one, in order |
| `WalParts.CancelledExactly` | internal/databases/postgres/wal_delta_recording_reader.go:88-113 | a delta is cancelled by a segment if and only if one of its pages does not parse or throws away data after the first |
| `WalParts.CancelsWhatNeedsIt` | internal/databases/postgres/delta_file_manager.go:208-225 | a segment given up cancels exactly the deltas that need one of its parts: its own, and the next one when it is the last of its delta |
| `WalParts.PaddingIgnored` | internal/databases/postgres/wal_delta_recording_reader.go:92-96 | zero pages behind the records of a segment change nothing of what is recorded |
| `RecordingReader.WalDeltaRecordingReader.constructor` | internal/databases/postgres/wal_delta_recording_reader.go:39-54 | nothing read, nothing left over |
| `RecordingReader.WalDeltaRecordingReader.ReadPageData` | internal/walparser/wal_file_page_reader.go:18-25 | a whole page, the end, or an error inside a page |
| `RecordingReader.WalDeltaRecordingReader.NextPage` | internal/databases/postgres/wal_delta_recording_reader.go:74-85 | the next page is recorded as it is read |
| `RecordingReader.WalDeltaRecordingReader.Read` | internal/databases/postgres/wal_delta_recording_reader.go:64-86 | a read returns the next bytes of the file unchanged; an end means all whole pages were delivered and recorded |
| `RecordingReader.WalDeltaRecordingReader.ReadAll` | internal/databases/postgres/wal_delta_recording_reader.go:64-86 | with buffers of any sizes the file passes through up to its last whole page and its pages are recorded in order |
| `RecordingReader.PushWalFile` | internal/databases/postgres/wal_delta_recording_reader.go:39-113 | reading a WAL file through the recorder delivers it and leaves the manager as recording its pages does; a partial last page is cut off and gives up the recording |
| `SegmentRecording.KnownRecording` | internal/databases/postgres/wal_delta_recording_reader.go:88-113 | a recording that knows the record in progress records every record that ends |
| `SegmentRecording.UnknownRecording` | internal/databases/postgres/wal_delta_recording_reader.go:88-113 | a recording that starts inside a record saves the rest of that record as the tail |
| `SegmentRecording.SegmentRecorded` | internal/databases/postgres/wal_delta_recording_reader.go:88-113 | a fresh recording is never cancelled, records exactly the records that begin and end in the segment, and fills the tail slot exactly when some record ends |
| `SegmentRecording.KnownAddsCut` | internal/walparser/wal_parser.go:90-110 | knowing the beginning of the cut record adds that record and nothing else |
| `SegmentRecording.ParallelEqualsSequential` | internal/databases/postgres/wal_part_file.go:59-85 | records found segment by segment plus those glued across boundaries are the records of one run, as multisets |
| `SegmentRecording.SequentialIsOneRun` | internal/walparser/wal_parser.go:78-111 | parsing segment after segment with one parser is one run over all pages |
| `DeltaRecording.CombineRecords` | internal/databases/postgres/wal_part_file.go:59-85 | the records glued from heads and tails, empty joints passed over, first error returned |
| `DeltaRecording.PartCombines` | internal/databases/postgres/wal_part_file.go:59-85 | heads and tails of a recorded delta glue to exactly the records cut at its boundaries |
| `DeltaRecording.DeltaCombines` | internal/databases/postgres/wal_part_file.go:59-85 | the slots of a recorded delta make a complete part file; what it glues and what the segments recorded are together what one run finds, and its last head is what that run is left with |
| `DeltaRecording.RecordAll` | internal/databases/postgres/wal_delta_recording_reader.go:56-113 | segments recorded in any order leave all their slots, the sum of their locations and an open writer for each of their deltas |
| `DeltaRecording.TotalPermuted` | internal/databases/postgres/delta_file_manager.go:66-72 | the locations recorded do not depend on the order of the segments |
| `DeltaRecording.CombinePartFile` | internal/databases/postgres/delta_file_manager.go:227-243 | a complete part file adds the locations of its glued records; without a writer, or when gluing fails, the error and no change |
| `DeltaRecording.LastHead` | internal/databases/postgres/delta_file_manager.go:233-233 | the head saved after the last segment is what the parser of one run holds at the end |
| `DeltaRecording.RecordDelta` | internal/databases/postgres/wal_part_file.go:59-85 | recording the segments of a delta in any order, zero pages behind them included, and combining adds the locations of one sequential run: a location is there if and only if it was before or some block of some record of that run has it; and the parser state of that run |
| `DeltaRecording.NeverCancelled` | internal/databases/postgres/delta_file_manager.go:208-225 | recording a laid delta is never cancelled |
| `RecordingFiles.WriteLocationsTo` | internal/walparser/block_location_writer.go:16-41 | the locations one after the other, four numbers each |
| `RecordingFiles.LocationLayout` | internal/walparser/block_location_writer.go:16-30 | a location is written as tablespace, database, relation and block, four bytes each |
| `RecordingFiles.PartLayout` | internal/databases/postgres/wal_part.go:28-40 | a part is written as kind, slot, length in four bytes and data |
| `RecordingFiles.ReadCut` | internal/walparser/block_location_reader.go:34-48 | a list of locations cut short ends there if the cut is between two numbers, and does not load if it is inside one |
| `RecordingFiles.AnyPartLoads` | internal/databases/postgres/wal_part.go:52-70 | a part with any kind and slot loads, except a tail or head beyond the table |
| `RecordingFiles.LoadCutPart` | internal/databases/postgres/wal_part_file.go:98-110 | a part cut short is the end of the file where a read finds nothing left, and does not load anywhere else |
| `RecordingFiles.ReadLocationsFrom` | internal/walparser/block_location_reader.go:19-47 | locations up to the terminal one or the end of the data, and what follows |
| `RecordingFiles.DecodeEncodeLocation` | internal/walparser/block_location_reader.go:19-32 | a written location reads back |
| `RecordingFiles.ReadTerminated` | internal/walparser/block_location_reader.go:34-47 | reading stops at the first terminal location, whatever follows |
| `RecordingFiles.LoadSavedParser` | internal/walparser/wal_parser.go:191-221 | a saved parser loads with its data and the flag "data non-empty" |
| `RecordingFiles.DeltaRoundTrip` | internal/databases/postgres/delta_file.go:36-54 | loading a saved delta file gives back locations and parser if and only if no location is the terminal one |
| `RecordingFiles.DeltaFilesBothWays` | internal/databases/postgres/delta_file.go:36-54 | witnesses: a delta file that comes back as it was, and one that loses its locations behind a terminal one |
| `RecordingFiles.EmptyHeadFails` | internal/walparser/wal_parser.go:223-225 | a parser made from an empty head fails on a page that starts with a new record; saved and loaded it is fresh |
| `RecordingFiles.HeadFlagExactly` | internal/walparser/wal_parser.go:223-225 | on every page after what the parser knows, the flag set for any head does no harm if and only if the head is not empty |
| `RecordingFiles.SavePartFile` | internal/databases/postgres/wal_part_file.go:41-57 | tails, previous head and heads that are present, in slot order |
| `RecordingFiles.SaveParts` | internal/databases/postgres/wal_part.go:28-50 | kind, slot, length and data of every part |
| `RecordingFiles.LoadPartFile` | internal/databases/postgres/wal_part_file.go:98-110 | parts are set until the end of the data, errors included |
| `RecordingFiles.LoadEncodedPart` | internal/databases/postgres/wal_part.go:52-70 | a written part loads back and leaves what follows |
| `RecordingFiles.PartFileRoundTrip` | internal/databases/postgres/wal_part_file.go:41-110 | loading a saved part file gives the same slots, absent and empty told apart, so completeness survives |
| `DeltaRange.CoverageIsRange` | internal/databases/postgres/delta_map_downloader.go:9-55 | from the second delta on, delta files and WAL files read cover one contiguous range ending at the last position used |
| `DeltaRange.CoveredOnce` | internal/databases/postgres/delta_map_downloader.go:23-36 | no segment is read twice |
| `DeltaRange.PositionsAreCovered` | internal/databases/postgres/delta_map_downloader.go:44-55 | every segment touched by a position of the interval is read |
| `DeltaRange.CoverageExactly` | internal/databases/postgres/delta_no.go:28-39 | coverage is the promised range if and only if the last delta number is at least 16; below that the 64-bit subtraction wraps |
| `DeltaRange.SegmentHolds` | internal/databases/postgres/wal_segment_no.go:9-11 | a position lies in its segment |
| `DeltaRange.FirstDeltaWraps` | internal/databases/postgres/delta_no.go:28-39 | witness: for the first segment the last delta file of all is read |
| `DeltaMap.ExtractLocationsFromWalFile` | internal/walparser/block_locations_util.go:22-43 | locations of the pages of a WAL file, zero pages passed over, parser advanced |
| `DeltaMap.ExtractLaid` | internal/walparser/block_locations_util.go:22-43 | laid WAL files give the locations of exactly the records that end in them |
| `DeltaMap.ExtractedBlocks` | internal/walparser/block_locations_util.go:8-43 | a location is extracted from laid WAL files if and only if some block of some record that ends in them has it |
| `DeltaMap.ExtractPadded` | internal/walparser/block_locations_util.go:34-41 | zero pages behind the records of a WAL file change neither the locations nor the parser |
| `DeltaMap.PagedFileDeltaMap.constructor` | internal/databases/postgres/paged_file_delta_map.go:51-55 | an empty map |
| `DeltaMap.PagedFileDeltaMap.AddLocationToDelta` | internal/databases/postgres/paged_file_delta_map.go:57-65 | the map gains exactly this location |
| `DeltaMap.PagedFileDeltaMap.AddLocationsToDelta` | internal/databases/postgres/paged_file_delta_map.go:67-71 | the map gains exactly these locations |
| `DeltaMap.PagedFileDeltaMap.GetLocationsFromDeltas` | internal/databases/postgres/paged_file_delta_map.go:144-158 | succeeds exactly when every delta file of the range is stored, and adds their locations |
| `DeltaMap.PagedFileDeltaMap.GetLocationsFromWals` | internal/databases/postgres/paged_file_delta_map.go:160-191 | succeeds exactly when every WAL file is stored and parses, and adds their locations |
| `DeltaMap.PagedFileDeltaMap.GetDeltaBitmapFor` | internal/databases/postgres/paged_file_delta_map.go:74-89 | the blocks of one file of a relation, or nothing for an unknown relation |
| `DeltaMap.SelectRelFileBlocks` | internal/databases/postgres/paged_file_delta_map.go:91-101 | block x of file k is selected exactly when block 131072 k + x of the relation is in the map |
| `DeltaMap.GetDeltaMap` | internal/databases/postgres/delta_map_downloader.go:9-42 | succeeds exactly when the covered files are stored and parse, and then holds exactly their locations |
| `DeltaMap.DeltaMapIsExact` | internal/databases/postgres/delta_map_downloader.go:9-42 | over faithful delta files and laid WAL, a location is in the map if and only if some block of some record that ends in the covered range has it |
| `RecordedDeltas.RunIsSavable` | internal/databases/postgres/delta_file.go:36-43 | what one run over a delta leaves can be saved: 32-bit locations and a head below the length limit |
| `RecordedDeltas.RecordAndSave` | internal/databases/postgres/delta_file_manager.go:164-243 | recording, combining, saving and loading a delta gives the blocks of the records of one run and its parser, unless a location is the terminal one |
| `RecordedDeltas.RecordedIsFaithful` | internal/databases/postgres/delta_map_downloader.go:9-42 | consecutive recorded deltas are faithful, and the last one has the parser that goes on behind them |
| `RecordedDeltas.RecordedMapIsExact` | internal/databases/postgres/delta_map_downloader.go:9-42 | from recorded WAL to the map: a location is in it if and only if some block of some record that ends in the covered range has it |
| `BackupForest.PermanentAncestors` | internal/backup_mark.go:44-63 | in a closed forest a permanent backup has only permanent ancestors |
| `BackupMarks.SetKeepsClosed` | internal/backup_mark.go:65-94 | one flag write keeps permanence closed if and only if the parent is permanent or there is none |
| `BackupMarks.ClearKeepsClosed` | internal/backup_mark.go:96-120 | clearing a flag keeps permanence closed if and only if no direct increment is permanent |
| `BackupMarks.DirectChildrenSuffice` | internal/backup_mark.go:123-139 | some direct increment is permanent if and only if some descendant is |
| `BackupMarks.ToMarkMembers` | internal/backup_mark.go:65-94 | the list to mark is exactly the impermanent part of the chain |
| `BackupMarks.ToMarkIsLadder` | internal/backup_mark.go:65-94 | the list is an unbroken piece of the chain on top of a permanent backup or none |
| `BackupMarks.LadderWrites` | internal/backup_mark.go:25-35 | after every single write of such a list permanence is closed, and in the end exactly the list is marked |
| `BackupMarks.MarkingKeepsClosed` | internal/backup_mark.go:25-35 | marking permanent passes only through valid states and ends with exactly the chain marked |
| `BackupMarks.NewNameFits` | internal/databases/postgres/backup_push_handler.go:221-228 | a push under a new name always fits |
| `BackupMarks.StepKeepsValid` | internal/databases/postgres/backup_push_handler.go:183-228 | every write of an operation keeps the forest valid if and only if a pushed backup fits its place |
| `BackupMarks.ReplacedBaseBreaks` | internal/databases/postgres/backup_push_handler.go:221-228 | witness: an impermanent backup pushed under the name of the base of a permanent increment |
| `BackupMarks.RunsKeepValid` | internal/backup_mark.go:25-120 | over every run of pushes and marks, and after each single write, the forest is valid |
| `BackupMarks.UnmarkingRefused` | internal/backup_mark.go:96-120 | unmarking is refused if and only if some descendant is permanent |
| `BackupMarks.PushRefusedExactly` | internal/databases/postgres/backup_push_handler.go:183-190 | a push is refused if and only if its parent is missing or was finished after the push started |
| `BackupMarks.OperationLeaves` | internal/databases/postgres/backup_push_handler.go:183-228 | what an operation leaves: its own backup as asked for, exactly the chain marked permanent, and everything else as it was |
| `BackupMarks.BackupFolder.GetBackupsToMarkPermanent` | internal/backup_mark.go:65-94 | the recursion returns the list to mark, or not found |
| `BackupMarks.BackupFolder.GetGraphFromBaseToIncrement` | internal/backup_mark.go:142-161 | the graph has exactly the increment links of the store |
| `BackupMarks.BackupFolder.GetPermanentBackups` | internal/backup_mark.go:190-210 | exactly the permanent backups |
| `BackupMarks.BackupFolder.HasPermanentInFuture` | internal/backup_mark.go:123-139 | true if and only if some direct increment is permanent |
| `BackupMarks.BackupFolder.MarkPermanent` | internal/backup_mark.go:25-63 | the store passes through exactly the specified writes and ends with the chain marked |
| `BackupMarks.BackupFolder.SetAll` | internal/backup_mark.go:31-34 | the marking loop performs its writes in order |
| `BackupMarks.BackupFolder.MarkImpermanent` | internal/backup_mark.go:96-120 | refused, without effect, or one flag cleared |
| `BackupMarks.BackupFolder.Push` | internal/databases/postgres/backup_push_handler.go:183-228 | refused for a missing or later parent; else the parent's chain is marked first and the metadata written last |
| `BackupDeletion.IncrementsByBackup` | internal/delete_handler.go:396-402 | the increments of every backup in listing order |
| `BackupDeletion.FindDependantBackups` | internal/delete_handler.go:393-412 | terminates on every acyclic graph with the target and all its transitive increments, each exactly once |
| `BackupDeletion.DeleteTargets` | internal/delete_handler.go:343-356 | refused exactly when a target is permanent, else exactly the targets are gone |
| `BackupDeletion.TargetDeletionKeepsChains` | internal/delete_handler.go:393-412 | every surviving delta keeps its parent and its whole chain |
| `BackupDeletion.FindRelatedBackups` | internal/delete_handler.go:360-388 | exactly the related backups, each once |
| `BackupDeletion.RelatedIsWholeTree` | internal/delete_handler.go:360-388 | when base names are chain roots, the related backups are the full backup and everything that descends from it |
| `BackupDeletion.DeleteTarget` | internal/delete_handler.go:171-199 | refused exactly when something doomed is permanent; else survivors are parent-closed, keep their chains, and include every permanent backup |
| `BackupDeletion.DeleteBeforeTarget` | internal/delete_handler.go:331-341 | forbidden for an increment; else keeps what is not less than the target or permanent |
| `BackupDeletion.DeleteBeforeSafe` | internal/delete_handler.go:331-341 | no delta is orphaned if and only if no impermanent increment straddles the target |
| `BackupDeletion.DeltaOrphaned` | internal/delete_handler.go:331-341 | witness: a delta taken after the target on top of a full backup before it |
| `BackupDeletion.DeleteBeforeKeepsTrees` | internal/delete_handler.go:331-341 | when no full backup lies between a delta and its base, no delta is orphaned |
| `BackupDeletion.RetainChoice.constructor` | internal/delete_handler.go:445-446 | the count starts at zero |
| `BackupDeletion.RetainChoice.IsTarget` | internal/delete_handler.go:445-474 | the counting closure of each modifier |
| `BackupDeletion.FindTargetRetain` | internal/delete_handler.go:414-427 | the first backup, newest first, that the closure chooses |
| `BackupDeletion.RetainKeepsCount` | internal/delete_handler.go:448-453 | exactly n backups are not less than the target; none found if and only if there are too few |
| `BackupDeletion.RetainKeepsFulls` | internal/delete_handler.go:454-463 | the target is full with exactly n full backups not less than it; none found if and only if there are fewer |
| `BackupDeletion.RetainFindsFull` | internal/delete_handler.go:464-471 | the target is the newest full backup with at least n backups not less than it; none found if and only if no full backup has as many |
| `BackupDeletion.DeleteRetain` | internal/delete_handler.go:133-146 | nothing is done if and only if no target is found or it is an increment; else exactly what is less than the target and not permanent is gone, and at least the retained number survives |
| `BackupLifecycle.ValidStoreIsDeletable` | internal/delete_handler.go:393-412 | a store kept valid by marking is acyclic, parent-closed and closed in permanence, as deletion needs |
| `BackupLifecycle.DeletionKeepsValid` | internal/delete_handler.go:343-356 | a deletion that orphans nothing leaves a valid store |
| `BackupLifecycle.DeleteTargetFrom` | internal/delete_handler.go:171-199 | deleting a target from a valid store leaves a valid store with all permanent backups unchanged |
| `TarBallQueue.StartQueue` | internal/tar_ball_queue.go:36-59 | the queue starts with the fill channel full of new tarballs |
| `TarBallQueue.WorkerConserves` | internal/tar_ball_queue.go:63-159 | every step of a worker keeps each tarball in exactly one place and the accounts of slots and sizes balanced |
| `TarBallQueue.FinisherConserves` | internal/tar_ball_queue.go:82-112 | every step of FinishQueue does the same |
| `TarBallQueue.MutexKept` | internal/tar_ball_queue.go:118-139 | at most one worker is inside FinishTarBall, the one that holds the mutex |
| `TarBallQueue.LastKept` | internal/tar_ball_queue.go:135-137 | the shared last-created tarball is the one its creator sends |
| `TarBallQueue.UploadsKept` | internal/tar_ball_queue.go:127-133 | the upload channel never exceeds its maximum by more than the one being drained |
| `TarBallQueue.SlotsAddUp` | internal/tar_ball_queue.go:36-139 | queued, owed, taken and lost tarballs always add up to the parallelism |
| `TarBallQueue.RoomToSend` | internal/tar_ball_queue.go:114-148 | a send never finds its channel full and neither channel outgrows its capacity |
| `TarBallQueue.PendingUploadsBounded` | internal/tar_ball_queue.go:127-139 | after a FinishTarBall, and whenever none runs, no more uploads pend than allowed |
| `TarBallQueue.NothingLeftBehind` | internal/tar_ball_queue.go:88-101 | once every tarball is taken none is queued, owed or lost and no upload is sent any more |
| `TarBallQueue.StepKeepsInvariant` | internal/tar_ball_queue.go:36-159 | every step keeps the invariant |
| `TarBallQueue.InitialInvariant` | internal/tar_ball_queue.go:36-59 | the started queue satisfies it |
| `TarBallQueue.RunKeepsInvariant` | internal/tar_ball_queue.go:36-159 | every run keeps it |
| `TarBallQueue.QueueIsSafe` | internal/tar_ball_queue.go:36-159 | in every interleaving slots add up, channels stay within capacity and uploads stay bounded |
| `TarBallQueue.FinishedAccounting` | internal/tar_ball_queue.go:82-112 | after success every tarball was closed and awaited exactly once or dropped unused, and the total is the sum of the awaited sizes |
| `TarBallQueue.SuccessfulRun` | internal/tar_ball_queue.go:82-159 | the same at the end of every run in which FinishQueue succeeds |
| `TarBallProgress.StepKeepsOrder` | internal/tar_ball_queue.go:82-148 | nobody looks into an empty upload queue, no worker starts once FinishQueue runs, FinishQueue fails only with a tarball it could not close and closes only tarballs that were written to |
| `TarBallProgress.WorkerDescends` | internal/tar_ball_queue.go:63-148 | once FinishQueue is called every step of a worker but a write lowers the measure |
| `TarBallProgress.FinisherDescends` | internal/tar_ball_queue.go:82-112 | so does every step of FinishQueue |
| `TarBallProgress.RunIsBounded` | internal/tar_ball_queue.go:82-148 | once FinishQueue is called every run has a bounded number of steps other than writes |
| `TarBallProgress.StuckExactly` | internal/tar_ball_queue.go:88-101 | while FinishQueue runs, it or a worker in its way can go on if and only if it does not wait for tarballs that failed closes have lost |
| `TarBallProgress.LostTarballStops` | internal/tar_ball_queue.go:88-126 | witness: one worker, one tarball whose close fails, and FinishQueue waits for it |
| `TarBallProgress.FinishQueueEnds` | internal/tar_ball_queue.go:82-148 | in every interleaving: a bounded number of steps is left, and when none is possible FinishQueue has succeeded unless a close has failed |
| `TarBallBytes.StepBytes` | internal/tar_ball_queue.go:63-148 | every step accounts for its bytes: those in open tarballs and the size counted for closed ones grow by exactly what is written |
| `TarBallBytes.StepKeepsMarks` | internal/tar_ball_queue.go:63-148 | a tarball that holds bytes is always one that was written to |
| `TarBallBytes.RunBytes` | internal/tar_ball_queue.go:63-148 | over every run the bytes of open and closed tarballs together are the bytes written |
| `TarBallBytes.EveryByteIsAwaited` | internal/tar_ball_queue.go:82-126 | in every interleaving in which FinishQueue succeeds, all bytes written in the run are in tarballs that were closed and awaited, and AllTarballsSize is their number |
| `WalStream.AcceptedExactly` | internal/databases/postgres/wal_segment.go:107-159 | a message is accepted if and only if it starts at the write position or reaches into an empty segment; it is a mismatch if and only if it misses the segment, and any other is a gap; neither changes anything |
| `WalStream.WalSegment.constructor` | internal/databases/postgres/wal_segment.go:52-66 | an empty segment starting at the boundary at or before the location |
| `WalStream.WalSegment.IsComplete` | internal/databases/postgres/wal_segment.go:217-219 | complete exactly when filled to its end |
| `WalStream.WalSegment.ProcessMessage` | internal/databases/postgres/wal_segment.go:107-159 | outcome and new state for every kind of message |
| `WalStream.WalSegment.Copy` | internal/databases/postgres/wal_segment.go:147-148 | as much as fits is appended to what is written |
| `WalStream.WalSegment.NextWalSegment` | internal/databases/postgres/wal_segment.go:71-91 | refused before completion; else the next segment with the rest of the boundary message |
| `WalStream.Receive` | internal/databases/postgres/wal_receive_handler.go:84-122 | the receiver loop computes the run of its specification |
| `WalStream.DataIsReceived` | internal/databases/postgres/wal_segment.go:122-151 | with nothing left over a message is received completely and at most one segment uploaded |
| `WalStream.LeftOverRefuses` | internal/databases/postgres/wal_segment.go:125-129 | with something left over every further message is refused |
| `WalStream.KeepaliveMakesRoom` | internal/databases/postgres/wal_segment.go:71-121 | a keepalive loses and doubles nothing and, after a full segment, makes room for one more |
| `WalStream.RunExactly` | internal/databases/postgres/wal_segment.go:52-159 | a run of contiguous messages succeeds if and only if every message comes when everything before it is stored |
| `WalStream.EnoughKeepalives` | internal/databases/postgres/wal_segment.go:71-121 | between two messages: the next one comes in time if and only if there was at least one keepalive for every segment still outstanding |
| `WalStream.StreamExactly` | internal/databases/postgres/wal_segment.go:52-159 | from a boundary on: the receiver goes through if and only if the messages keep up, and then uploads, the current segment and what is left over are exactly the WAL bytes received |
| `WalStream.TooLongIsRefused` | internal/databases/postgres/wal_segment.go:125-129 | after a message that runs past the next segment, a continuation that comes right away is refused |
| `WalStream.StreamIsAssembled` | internal/databases/postgres/wal_segment.go:52-159 | messages no longer than a segment always keep up, and nothing is ever left over |
| `WalStream.StepReports` | internal/databases/postgres/wal_segment.go:161-214 | a position is reported to the server if and only if a segment is begun or a reply is requested, and it is the start of the current segment |
| `WalStream.ReportsAreUploaded` | internal/databases/postgres/wal_segment.go:161-214 | in every run, whatever the messages: uploads are whole and contiguous, and no position behind them is ever reported |
| `Binlog.SelectedMembers` | internal/databases/mysql/mysql_binlog.go:149-162 | an event is delivered if and only if it lies in the interval and no event that ends it comes before |
| `Binlog.WholeEvents` | internal/databases/mysql/mysql_binlog.go:141-162 | of whole events exactly the selected ones are delivered |
| `Binlog.EventReads` | internal/databases/mysql/mysql_binlog.go:141-162 | an event written field by field is read with its length and its timestamp |
| `Binlog.SelectedIsWanted` | internal/databases/mysql/mysql_binlog.go:149-162 | over written events the selection is by their timestamp fields: from the start on, and up to the first at or behind the end |
| `Binlog.CutEventDelivered` | internal/databases/mysql/mysql_binlog.go:104-162 | a last event cut behind its header is delivered as far as it goes if and only if its timestamp field lies in the interval |
| `Binlog.CutHeaderDropped` | internal/databases/mysql/mysql_binlog.go:141-148 | less than an event header is never delivered |
| `Binlog.ReadPrologue` | internal/databases/mysql/mysql_binlog.go:77-95 | magic and header event are split off unchanged, or refused |
| `Binlog.PrologueExactly` | internal/databases/mysql/mysql_binlog.go:77-95 | how each prologue ends: saved with the length its header event claims, or refused for bad magic, length or the first thing missing |
| `Binlog.BinlogReader.constructor` | internal/databases/mysql/mysql_binlog.go:69-75 | nothing read yet |
| `Binlog.BinlogReader.SaveMagicAndHeaderEvent` | internal/databases/mysql/mysql_binlog.go:77-95 | the prologue is saved for later, or the error returned |
| `Binlog.BinlogReader.ReadMagicAndHeaderEvent` | internal/databases/mysql/mysql_binlog.go:97-102 | the next bytes of the prologue, as many as fit |
| `Binlog.BinlogReader.ReadEvent` | internal/databases/mysql/mysql_binlog.go:104-109 | the next bytes of the current event, any positive number up to the limit, and the end when the data ends inside the event |
| `Binlog.BinlogReader.NextEvent` | internal/databases/mysql/mysql_binlog.go:141-162 | skips, stops before, or enters the next event without changing what is pending |
| `Binlog.BinlogReader.Read` | internal/databases/mysql/mysql_binlog.go:111-165 | each call returns the next pending bytes, at least one unless the end is reached |
| `Binlog.BinlogReader.ReadAll` | internal/databases/mysql/mysql_binlog.go:111-165 | with buffers of any sizes everything pending is delivered |
| `Binlog.FilterBinlog` | internal/databases/mysql/mysql_binlog.go:77-165 | whatever the buffers and short reads, for any bytes: magic, header event and what there is to deliver, or nothing when no event lies in the interval; a last event cut short is delivered as far as it goes |
| `Binlog.FilterEvents` | internal/databases/mysql/mysql_binlog.go:77-165 | filtering a binlog written from a header event and events: the magic, the header event and the events whose timestamp fields lie in the interval, in order and unchanged, or nothing if there is none |
| `IntegrityScan.TimelineIsNearest` | internal/databases/postgres/wal_segment_runner.go:100-108 | the timeline of a segment is that of the nearest history record above it, or the one the scan started on |
| `IntegrityScan.WalSegmentRunner.GetNextSegment` | internal/databases/postgres/wal_segment_runner.go:100-108 | the segment before, on the timeline of the history |
| `IntegrityScan.WalSegmentRunner.Next` | internal/databases/postgres/wal_segment_runner.go:81-91 | stops at the stop segment, moves to a stored segment, stays before a missing one |
| `IntegrityScan.WalSegmentRunner.ForceMoveNext` | internal/databases/postgres/wal_segment_runner.go:94-97 | moves whether stored or not |
| `IntegrityScan.WalSegmentScanner.Scan` | internal/databases/postgres/wal_segment_scanner.go:71-93 | reports every segment passed, Found if and only if stored, and ends where limit, stop and first find say |
| `IntegrityScan.RunWalIntegrityScan` | internal/databases/postgres/integrity_check_runner.go:156-182 | the three scans one after the other |
| `IntegrityScan.ScanIsComplete` | internal/databases/postgres/integrity_check_runner.go:156-182 | every segment from before the start down to the stop is visited exactly once on its timeline with the status of its range |
| `IntegrityScan.StatusRanges` | internal/databases/postgres/integrity_check_runner.go:156-182 | no segment of the delayed range is stored below the start; that range ends at its size, at a stored segment or at the stop, and the uploading range has exactly its size unless the stop comes first |
| `IntegrityScan.WalSegmentsSequence.AddWalSegmentNo` | internal/databases/postgres/wal_show_handler.go:84-92 | the collection with its smallest and largest number |
| `IntegrityScan.WalSegmentsSequence.FindMissingSegments` | internal/databases/postgres/wal_show_handler.go:95-115 | exactly the numbers between smallest and largest that are not there, each once |
| `IntegrityScan.Gaps` | internal/databases/postgres/wal_show_handler.go:95-115 | the missing reports of a scan on one timeline are exactly the range less what is stored |
| `IntegrityScan.GetMissingSegments` | internal/databases/postgres/wal_segment_scanner.go:96-104 | the reports that are not Found, in order |
| `IntegrityScan.SortTurnsAround` | internal/databases/postgres/integrity_check_runner.go:191-194 | sorting the reports of a scan turns them around |
| `IntegrityScan.CollapseSegments` | internal/databases/postgres/integrity_check_runner.go:186-215 | sorting and grouping compute the rows of the specification |
| `IntegrityScan.CollapseIsLossless` | internal/databases/postgres/integrity_check_runner.go:186-215 | the rows expand to the very list they were made from and their counts add up to it |
| `IntegrityScan.RowsAreMaximal` | internal/databases/postgres/integrity_check_runner.go:200-211 | neighbouring rows differ in status or timeline |
| `IntegrityScan.SameStatuses` | internal/databases/postgres/integrity_check_runner.go:186-215 | a status occurs among the rows if and only if it occurs among the segments |
| `IntegrityScan.CheckResult` | internal/databases/postgres/integrity_check_runner.go:110-125 | failure if and only if a row is Lost, OK if and only if all are Found |
| `IntegrityScan.Judge` | internal/databases/postgres/integrity_check_runner.go:94-99 | the same for the segments before collapsing |
| `IntegrityScan.IntegrityCheck` | internal/databases/postgres/integrity_check_runner.go:84-100 | OK if and only if every segment of the range is stored, failure if and only if one is missing below the delayed and uploading ranges |
| `WalNames.ParseFormatName` | internal/databases/postgres/timeline.go:111-141 | parsing undoes formatting if and only if the high part fits 32 bits |
| `WalNames.FormatParseName` | internal/databases/postgres/timeline.go:111-141 | formatting undoes parsing, up to the case of the digits |
| `WalNames.NameOrder` | internal/databases/postgres/wal_segment_no.go:38-42 | on one timeline names order as segment numbers do |
| `WalNames.NextCarries` | internal/databases/postgres/timeline.go:177-184 | the low part counts on and carries into the high part |
| `WalNames.NextIsSuccessor` | internal/databases/postgres/timeline.go:177-184 | the next name is that of the next segment if and only if its high part fits 32 bits |
| `WalNames.NamesLookLike` | internal/databases/postgres/wal_segment.go:95-103 | two names in full: segment 42 and one that needs the high part |
| `WalNames.DigitsExactly` | internal/databases/postgres/timeline.go:111-141 | which characters are digits, and that lower-case letters mean what upper-case ones do |

## Left out

- Compression, encryption, storage folders, database connections, configuration and command-line handling: foreign
  libraries and plumbing; storage is a map and the clock does not occur.
- Tar archives: tar members are given by path and content, and skipping of whole archives is not modelled.
- pg_control handling, tablespace specifications, symbolic links and the catchup file unwrapper.
- Path and regular-expression handling: whether a file is paged or a utility file is part of its model value.
- Underlying I/O errors of readers and files, except short input.
- Full scans beyond 2^32 pages, where the 32-bit block counter of the source would wrap.
- LSN arithmetic near 2^64 in the replication stream: positions are natural numbers there.
- The channel between recorder and delta file writer: the manager keeps locations in a map, with a key for every open writer.
- Goroutines and channels of the tarball queue are values in a state machine, with every interleaving of their steps.
- Status messages of the WAL receiver that are due by the clock; they report the same position as the others.
- Reading of a finished WAL segment for its upload, and timeline switches of the WAL receiver.
- `retain ... --after`, delete by time or user data, and delete everything: they combine the parts modelled here.
- The choice of the earliest backup for wal-verify and the grouping of segments by timeline for wal-show.
- MongoDB, SQL Server, Redis, Greenplum and FoundationDB commands, and page checksum verification.
- BackupMarks.BackupFolder.Push: takes the time stamps of a backup as given, with the start before the finish.
- Binlog.FilterBinlog: excludes reaching an event that claims length zero, at which the source loops without end.
- DeltaRecording.RecordDelta: excludes the first delta, whose part file never becomes complete (`NoHeadForFirst`).
- IncrementFormat.EncodeParse: a block count of 2^30 or more is an error here; the source computes the length of its map in
  32 bits, accepts the header with a shorter map, and panics when a block beyond it is looked up.
- WalStream.StreamIsAssembled: starts at a segment boundary, where the receiver starts replication.
