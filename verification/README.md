# Block tracking, deduplication, transfer and retention

Dafny models of the parts of OBS Backup that keep books about bytes, and proofs about them.
One module stands for one source file or for the value it works on.

| file | models |
|---|---|
| `BlockRuns.dfy`, `RunLength.dfy`, `ChangedBlockTracking.dfy` | the changed-block bitmap: export to byte ranges, 16-bit run-length code, save and load |
| `DirtyLedger.dfy`, `DirtyBufferManager.dfy` | the table of dirty blocks, its marks and queries |
| `GearHash.dfy`, `ContentChunking.dfy`, `InputStream.dfy`, `DedupIndex.dfy`, `DedupEngine.dfy` | content-defined chunking and the reference-counted chunk index |
| `ChunkStore.dfy` | the content-addressed store of the default engine |
| `Transfer.dfy`, `DataMover.dfy` | the checkpointed transfer, with crashes, cancels and restarts |
| `CdpEngine.dfy` | monitor threads over one shared journal |
| `BackupJob.dfy` | a worker thread against a cancelling thread |
| `IsoCalendar.dfy`, `Retention.dfy` | ISO week numbers and the retention pass |
| `Residues.dfy`, `Placement.dfy`, `ScaleOutRepository.dfy` | placement of writes over storage extents |
| `RateLimit.dfy`, `LimiterBounds.dfy` | the fixed-window request counter, and how much it lets through |
| `Sequences.dfy`, `Arithmetic.dfy`, `MachineTypes.dfy` | shared vocabulary |

Two habits run through the project. Code that changes state step by step is a class whose
methods are tied to a function of the old state, or to a history of events kept in a ghost
field; the properties are then lemmas about that function over every history. Code that
runs on several threads is a machine: a total function `Do(state, action)` in which an action
that cannot happen changes nothing, so that a statement about every sequence of actions is a
statement about every interleaving.

Fixed-width arithmetic is written out wherever the source relies on it: 64-bit offsets and
32-bit sizes of exported ranges, the 32-bit length in the saved file, the signed binding of
chunk sizes, the unsigned remainder by a signed interval, and the placement counter.

## What the code does not meet

Some properties hold only under a condition. In each case the condition is proved exact, or
an input on which the property fails is given.

- Exported ranges: sizes are cast to 32 bits. Sizes add up, and replaying the ranges rebuilds
  the bitmap, exactly when no run reaches 2^32 bytes (and no run starts at or beyond 2^64).
- Saved bitmaps: the length header has 32 bits. Save and load is the identity exactly when the
  compressed form is shorter than 2^32 bytes.
- Chunking: after a short read the stream's fail flag is set, so the re-seek behind a cut has no
  effect and the loop ends. The file is covered exactly when the final short read has no cut;
  `TailLost` gives a file of 65537 bytes that loses its last one.
- The gear table names 96 of its 256 entries; the rest are zero, so any 18 bytes from 96 up make
  a cut (`HighBytesCut`).
- Transfer: a cancel removes the checkpoint (`CancelForgets`), and a crash between the two steps of
  a save, or during the clean-up, loses it; any other crash does not (`CrashLoses`). Zero chunks
  skip the save: the checkpoint stays within the interval exactly when every stretch of one
  interval holds a chunk that is not zero and ends where a save is due (`LagExactly`).
- Backup job: the cancel flag is never cleared. A run that nothing disturbs completes exactly when
  the flag was clear when it was called (`RunCompletesExactly`).
- Retention: a backup dated in the future can move to a younger tier (`FutureBackupMovesBack`). It
  never does exactly when it is not in the future or falls in the current week of the current
  month (`TierMonotoneExactly`).
- Placement: the counter wraps at 2^64. A stretch of selections is fair exactly when it does not
  wrap, or the number of extents divides 2^64, or what comes up twice around the wrap makes up for
  what is left out (`RoundRobinFair`). The counter is shared by all repositories: one that sees
  every s-th value is served evenly exactly when s has no common divisor with its number of
  extents (`SharedCounterFair`). A write reports success even when no extent was chosen
  (`WriteIsPlaced`). Free space is an unsigned difference: an extent with more bytes used than
  it has wraps to nearly 2^64, and the capacity policy prefers it (`OverfullPicked`).
- Rate limit: while a window lasts its counter is never reset (`CounterNeverReset`), but a request
  whose increment comes late can find its window's key gone. A counter stays right, and lets no
  more than the limit through, exactly as long as no increment comes at or after that time
  (`CountExactly`, `KeyLimitExactly`). Twice the limit in any stretch one window long is a bound by
  the time of reading the clock. By the time of counting it is not (`ThreePass`): it holds in every
  run with delays up to a given one exactly when there is no delay, or a delay of one tick and a
  limit or window of one, or a limit that lets nothing through (`DelayExactly`).
- Dirty blocks: offsets from 2^63 up sort in front of the smaller ones (`RecordedBitmap`), and the
  time stamp of a single record is read from freed memory (`RecordDirtyBlock`).

## Model

| member | source | states |
|---|---|---|
| `BlockRuns.RunsIsRunList` | core/src/backup_engine/cbt.cpp:23-47 | the exported runs are non-empty, ascending, never adjacent, and cover exactly the set bits |
| `BlockRuns.RunListUnique` | core/src/backup_engine/cbt.cpp:23-47 | a bitmap has only one such list, so the export is canonical |
| `BlockRuns.LengthsTotal` | core/src/backup_engine/cbt.cpp:10-15 | the run lengths add up to the number of set bits |
| `BlockRuns.SizesTotal` | core/src/backup_engine/cbt.cpp:36-44 | the exported sizes add up to changed blocks times block size if and only if every run is under 2^32 bytes |
| `BlockRuns.SizesModulo` | core/src/backup_engine/cbt.cpp:36-44 | whatever is truncated, the exported sizes total changed blocks times block size modulo 2^32 |
| `BlockRuns.RangeOfRun` | core/src/backup_engine/cbt.cpp:36-44 | the whole blocks of an exported range are those of its run, or miss the run's last block when the size was truncated |
| `BlockRuns.WrappedStartLost` | core/src/backup_engine/cbt.cpp:36-44 | a run beyond 64-bit offsets is lost on replay |
| `BlockRuns.ReplayRestores` | core/src/backup_engine/cbt.cpp:17-47 | marking every exported range on a fresh bitmap rebuilds it if and only if no offset and no size was truncated |
| `RunLength.DecodeLength` | core/src/backup_engine/cbt.cpp:73-84 | for arbitrary records the decoded length is the smaller of the capacity and the sum of the counts |
| `RunLength.CompressRoundTrip` | core/src/backup_engine/cbt.cpp:49-84 | decompressing what compressing wrote gives the bitmap back |
| `RunLength.AppendRun` | core/src/backup_engine/cbt.cpp:56-66 | up to 65535 equal bits more cost at most one record more |
| `RunLength.Optimal` | core/src/backup_engine/cbt.cpp:49-84 | no list of 16-bit records that decodes to the same bitmap, at any capacity, is shorter than the encoder's |
| `RunLength.CompressOptimal` | core/src/backup_engine/cbt.cpp:49-84 | the same for byte strings, trailing bytes and zero counts included |
| `RunLength.EncodedCount` | core/src/backup_engine/cbt.cpp:49-71 | the encoder emits the sum of ceil(length / 65535) over the maximal spans of equal bits |
| `RunLength.CompressedLength` | core/src/backup_engine/cbt.cpp:49-71 | the compressed form takes three bytes for each of those records |
| `RunLength.CompressedBytes` | core/src/backup_engine/cbt.cpp:56-70 | record k stands at byte 3k: 1 or 0 for its bit, then its count with the higher byte first |
| `RunLength.SavedFile` | core/src/backup_engine/cbt.cpp:86-94 | the file is the compressed size modulo 2^32, lowest byte first, followed by the compressed bytes |
| `RunLength.SaveLoadRoundTrip` | core/src/backup_engine/cbt.cpp:86-105 | load after save is the identity if and only if the compressed form is under 2^32 bytes |
| `ChangedBlocks.ChangedBlockTracking.constructor` | core/src/backup_engine/cbt.cpp:7-8 | a new tracker is all clear, with count 0 |
| `ChangedBlocks.ChangedBlockTracking.MarkChanged` | core/src/backup_engine/cbt.cpp:10-15 | sets the block if it exists and keeps the cached count equal to the set bits |
| `ChangedBlocks.ChangedBlockTracking.MarkRange` | core/src/backup_engine/cbt.cpp:17-21 | sets exactly the existing blocks from start up to end, count included |
| `ChangedBlocks.ChangedBlockTracking.GetChangedBlocks` | core/src/backup_engine/cbt.cpp:23-47 | one 64-bit offset and 32-bit size for each maximal run |
| `ChangedBlocks.ChangedBlockTracking.CompressBitmapRle` | core/src/backup_engine/cbt.cpp:49-71 | the bytes of the optimal encoding |
| `ChangedBlocks.ChangedBlockTracking.DecompressBitmapRle` | core/src/backup_engine/cbt.cpp:73-84 | for any bytes, the bitmap is the decoded records cut at the device size, and the count is recomputed |
| `ChangedBlocks.ChangedBlockTracking.Save` | core/src/backup_engine/cbt.cpp:86-94 | a 32-bit length followed by the compressed bitmap |
| `ChangedBlocks.ChangedBlockTracking.Load` | core/src/backup_engine/cbt.cpp:96-105 | reads as many bytes as the header says, zeros where the file ends early; a missing file changes nothing |
| `ChangedBlocks.ChangedBlockTracking.Reset` | core/src/backup_engine/cbt.cpp:107-110 | clears every bit and the count |
| `ChangedBlocks.ExportAndReplay` | core/src/backup_engine/cbt.cpp:17-47 | a tracker rebuilt from the exported ranges has the same bitmap, and then the same count, if and only if no offset and no size was truncated |
| `ChangedBlocks.LoadForeign` | core/src/backup_engine/cbt.cpp:73-105 | loading arbitrary bytes keeps the class invariant if and only if the record counts reach the number of blocks |
| `ChangedBlocks.SaveThenLoad` | core/src/backup_engine/cbt.cpp:86-105 | saving one tracker and loading into another copies bitmap and count if and only if the compressed form is under 2^32 bytes |
| `DirtyLedger.RowHistory` | core/src/backup_engine/dirty_buffer_manager.cpp:73-93 | a recorded block keeps its row, whose flag is set if and only if a later mark covers it |
| `DirtyLedger.SelectAnswer` | core/src/backup_engine/dirty_buffer_manager.cpp:152-158 | the query's answer is in the order of the offsets as signed 64-bit values and holds each matching row as often as the table |
| `DirtyLedger.UnbackedExactly` | core/src/backup_engine/dirty_buffer_manager.cpp:223-256 | over any history, an offset is listed as unbacked if and only if some record of it came after the last mark covering its row |
| `DirtyLedger.SetBitsAscending` | core/src/backup_engine/dirty_buffer_manager.cpp:133-145 | the loop over the bitmap visits exactly the set bits in ascending order |
| `DirtyLedger.RecordedBitmap` | core/src/backup_engine/dirty_buffer_manager.cpp:125-150 | recording a bitmap in an empty job makes both queries list its set bits in order, those from 2^63 up first, with their byte positions as lba, and each under the job, path, block size, write reason and time stamp given, without checksums |
| `DirtyLedger.LedgerAgreesWithRanges` | core/src/backup_engine/dirty_buffer_manager.cpp:138-140 | the lba values equal the block starts of the tracker's exported ranges if and only if every run is under 2^32 bytes |
| `DirtyBuffers.DirtyBufferManager.RecordDirtyBlock` | core/src/backup_engine/dirty_buffer_manager.cpp:73-93 | appends one row with the next id, not backed up; a missing time stamp becomes whatever the freed text holds |
| `DirtyBuffers.DirtyBufferManager.RecordDirtyBlocksBatch` | core/src/backup_engine/dirty_buffer_manager.cpp:95-123 | appends one such row for each block, in order, stamped with the time if it had none |
| `DirtyBuffers.DirtyBufferManager.RecordFromBitmap` | core/src/backup_engine/dirty_buffer_manager.cpp:125-150 | appends one row for each set bit; in an empty job the sizes then add up to set bits times block size |
| `DirtyBuffers.DirtyBufferManager.MarkBackedUp` | core/src/backup_engine/dirty_buffer_manager.cpp:306-315 | sets the flag on the job's rows and changes nothing else |
| `DirtyBuffers.DirtyBufferManager.MarkBlockBackedUp` | core/src/backup_engine/dirty_buffer_manager.cpp:317-325 | sets the flag on the row with the id and changes nothing else |
| `DirtyBuffers.DirtyBufferManager.GetDirtyBlocks` | core/src/backup_engine/dirty_buffer_manager.cpp:152-184 | all rows of the job in signed offset order |
| `DirtyBuffers.DirtyBufferManager.GetUnbackedBlocks` | core/src/backup_engine/dirty_buffer_manager.cpp:223-256 | the unmarked rows of the job in signed offset order, and which offsets they hold in terms of the history |
| `DirtyBuffers.DirtyBufferManager.GetStats` | core/src/backup_engine/dirty_buffer_manager.cpp:258-283 | over any history of records and marks: how many blocks were ever recorded for the job, and the sum of their sizes |
| `GearHash.FastcdcBoundary` | core/src/dedup/dedup_engine.cpp:133-139 | the gear hash, modulo 2^32, of at most the first 32 bytes |
| `GearHash.LastBytesDecide` | core/src/dedup/dedup_engine.cpp:133-139 | modulo 2^n the hash of a history is the hash of its last n bytes |
| `GearHash.WindowIsHistory` | core/src/dedup/dedup_engine.cpp:133-139 | the 32-byte hash equals the hash of any longer history ending in those bytes |
| `GearHash.CutLast18` | core/src/dedup/dedup_engine.cpp:160-161 | the masked cut test depends only on the last 18 bytes |
| `GearHash.CutIsRolling` | core/src/dedup/dedup_engine.cpp:160-161 | testing 32 bytes at a time agrees with a hash rolled over everything before |
| `GearHash.HighBytesCut` | core/src/dedup/dedup_engine.cpp:10-27 | eighteen bytes beyond the filled part of the table always make a cut |
| `GearHash.TextCuts` | core/src/dedup/dedup_engine.cpp:10-27 | a text of eighteen letters behind which, by the table as it is, a chunk may always end |
| `GearHash.CutIsLocal` | core/src/dedup/dedup_engine.cpp:160-161 | equal 18-byte neighbourhoods give equal cuts, wherever they lie |
| `ContentChunking.IntendedIsChunking` | core/src/dedup/dedup_engine.cpp:152-177 | with a working re-seek the chunks make up the whole file, each within the size limits and ending at its first cut or at the maximum |
| `ContentChunking.ChunkingUnique` | core/src/dedup/dedup_engine.cpp:152-177 | no other list of chunks has those properties |
| `ContentChunking.ChunkSizes` | core/src/dedup/dedup_engine.cpp:142-177 | in figures: no chunk above 4194304 bytes, and none but the last below 65536 |
| `ContentChunking.HighBytesChunks` | core/src/dedup/dedup_engine.cpp:142-177 | a file of bytes beyond the filled part of the table is cut at every 65536 bytes |
| `ContentChunking.LetterXChunks` | core/src/dedup/dedup_engine.cpp:142-177 | a file of one letter that never makes a cut is split by the size limit alone, at every 4194304 bytes |
| `ContentChunking.ReportedAndDropped` | core/src/dedup/dedup_engine.cpp:152-177 | the reported chunks followed by what lies behind a cut in the final short read are the file |
| `ContentChunking.CodeChunksPrefix` | core/src/dedup/dedup_engine.cpp:152-177 | the reported chunks are a prefix of the intended ones |
| `ContentChunking.CodeChunksAreChunking` | core/src/dedup/dedup_engine.cpp:152-177 | the reported chunks are the chunking of the part they cover |
| `ContentChunking.CoversExactly` | core/src/dedup/dedup_engine.cpp:173-177 | the whole file is reported if and only if the final short read has no cut |
| `ContentChunking.TailLost` | core/src/dedup/dedup_engine.cpp:173-177 | a concrete file whose last byte is never reported |
| `ContentChunking.Resynchronised` | core/src/dedup/dedup_engine.cpp:152-177 | two files that agree behind a chunk end of each have the same chunks from there |
| `ContentChunking.PrefixKept` | core/src/dedup/dedup_engine.cpp:152-177 | files that agree up to a chunk end have the same chunks up to it |
| `ContentChunking.EditStaysLocal` | core/src/dedup/dedup_engine.cpp:152-177 | replacing the bytes of one chunk leaves all other chunks as they were if and only if the new bytes are a chunk: no cut inside, and an end where they end |
| `ContentChunking.EditBeforeEnd` | core/src/dedup/dedup_engine.cpp:152-177 | an edit in front of a chunk's last 18 bytes changes that chunk only, unless it makes a new cut or an oversized chunk |
| `DedupIndex.RefCounts` | core/src/dedup/dedup_engine.cpp:80-116 | a hash is known if and only if it was added; its size is that of the first add and its count one plus the lookups since |
| `DedupIndex.SavedIsSumOfHits` | core/src/dedup/dedup_engine.cpp:118-131 | the reported saving is the stored size summed over the successful lookups |
| `DedupIndex.OfferedIsUniquePlusSaved` | core/src/dedup/dedup_engine.cpp:80-131 | with lookup, then add on a miss, and one size per hash, bytes offered are unique plus saved bytes if and only if every size is under 2^31 |
| `Dedup.DedupEngine.Lookup` | core/src/dedup/dedup_engine.cpp:80-105 | a hit returns the first add's size and the count before this lookup, which it raises |
| `Dedup.DedupEngine.AddChunk` | core/src/dedup/dedup_engine.cpp:107-116 | inserts an unknown hash and leaves a known one alone |
| `Dedup.DedupEngine.GetStats` | core/src/dedup/dedup_engine.cpp:118-131 | the number of rows and the saving, as an unsigned 64-bit value |
| `Dedup.DedupEngine.ProcessFile` | core/src/dedup/dedup_engine.cpp:141-178 | reports the chunks of the loop as it is, nothing for a missing file |
| `Dedup.DedupEngine.SplitPoint` | core/src/dedup/dedup_engine.cpp:157-166 | the first cut from the minimum size on, or the end of the buffer |
| `Dedup.FileIsUniqueSavedAndDropped` | core/src/dedup/dedup_engine.cpp:80-178 | indexing every chunk of a file splits its bytes into stored, saved and dropped ones |
| `ChunkStores.FileBlocksCover` | core/src/engine/engine_factory.cpp:203-215 | the blocks make up the file; none is empty, and all but the last have 262144 bytes |
| `ChunkStores.FirstStoreWins` | core/src/engine/engine_factory.cpp:160-178 | under every hash the chunk stored first is kept |
| `ChunkStores.RetrievableExactly` | core/src/engine/engine_factory.cpp:160-197 | every reported chunk is retrieved unchanged if and only if no hash collided |
| `ChunkStores.FileRecoverable` | core/src/engine/engine_factory.cpp:160-215 | the retrieved chunks concatenate to the file, also after any later stores |
| `ChunkStores.NewHashesCount` | core/src/engine/engine_factory.cpp:172-176 | rows inserted are the distinct hashes stored that the database did not hold |
| `ChunkStores.DefaultDedupEngine.ChunkExists` | core/src/engine/engine_factory.cpp:150-158 | true for what the database held and what was stored |
| `ChunkStores.DefaultDedupEngine.StoreChunk` | core/src/engine/engine_factory.cpp:160-178 | the unique counter is the number of distinct new hashes stored so far |
| `ChunkStores.DefaultDedupEngine.RetrieveChunk` | core/src/engine/engine_factory.cpp:180-197 | returns what was stored first under the hash, or nothing |
| `ChunkStores.DefaultDedupEngine.ProcessFile` | core/src/engine/engine_factory.cpp:203-215 | reports every block with its hash, the short last one included |
| `Transfer.CheckpointNeverLies` | core/src/data_mover/data_mover.cpp:57-67 | over any starts, crashes, cancels and resumes, a checkpoint c means all bytes below c were handled, and a loop that did not end because it saw a cancel has handled and counted the whole file, even if a cancel comes later |
| `Transfer.CancelForgets` | core/src/data_mover/data_mover.cpp:152-154 | after a cancelled and joined transfer the next one begins at 0 |
| `Transfer.CancelStops` | core/src/data_mover/data_mover.cpp:33-161 | in every run, once the cancel flag is set no further chunk is begun, and the worker has ended after eight steps of its own |
| `Transfer.CrashLoses` | core/src/data_mover/data_mover.cpp:57-67 | in every run, after a crash the next worker goes on at the offset last saved or loaded if and only if the crash fell neither between the two steps of a save nor into the clean-up, or that offset was 0; otherwise it begins at 0 |
| `Transfer.SavedExactly` | core/src/data_mover/data_mover.cpp:112-150 | in every run, a turn ends at a checkpoint if and only if some byte of its chunk's whole words is not zero and the chunk ends less than 4194304 bytes behind a multiple of the interval, taken as unsigned |
| `Transfer.CheckpointLag` | core/src/data_mover/data_mover.cpp:103-150 | over any crashes, cancels and restarts, at every loop head: less than one interval lies beyond the checkpoint if and only if the run is less than one behind its start or behind the end of a chunk that was saved |
| `Transfer.LagExactly` | core/src/data_mover/data_mover.cpp:103-150 | a worker left alone keeps that bound at every loop head if and only if, for every position it reaches an interval or more behind its start, a non-zero chunk within the last interval ends where a save is due |
| `Transfer.LagWithoutZeroChunks` | core/src/data_mover/data_mover.cpp:112-150 | if no chunk at a position the loop can come to is zero (or else it stays inside its interval), the bound always holds |
| `Transfer.ZeroChunksOutrun` | core/src/data_mover/data_mover.cpp:117-124 | two zero chunks at an interval of one chunk leave no checkpoint |
| `DataMovers.DataMover.IsZeroBlock` | core/src/data_mover/data_mover.cpp:44-51 | true if and only if every byte is zero but for the last length mod 8 ones, which are not looked at |
| `DataMovers.DataMover.SaveCheckpoint` | core/src/data_mover/data_mover.cpp:57-60 | two steps of the machine, after which the file holds the offset |
| `DataMovers.DataMover.LoadCheckpoint` | core/src/data_mover/data_mover.cpp:62-67 | the saved offset, 0 for a missing or empty file |
| `DataMovers.DataMover.LoopTurn` | core/src/data_mover/data_mover.cpp:112-150 | one turn of the loop is a step of the machine, followed by a save where due |
| `DataMovers.DataMover.DoTransfer` | core/src/data_mover/data_mover.cpp:69-161 | ends with the checkpoint removed however it is cancelled; unless its loop saw the cancel it has handled every byte and counted the file size |
| `DataMovers.DataMover.StartTransfer` | core/src/data_mover/data_mover.cpp:27-31 | terminates the process over a worker that was never joined, and otherwise starts one |
| `DataMovers.DataMover.CancelTransfer` | core/src/data_mover/data_mover.cpp:33-37 | sets the flag, waits for the worker wherever it is, and joins it; its checkpoint is then gone |
| `Cdp.RowsMatchCounter` | core/src/cdp/cdp_engine.cpp:161-194 | in every interleaving a session's rows equal its tracked blocks up to its program point, with one recovery point per hundred |
| `Cdp.KthPoint` | core/src/cdp/cdp_engine.cpp:175-224 | the k-th recovery point records 100k blocks and 409600k bytes if and only if the journal held nothing under the session's id when the process began |
| `Cdp.RunsOn` | core/src/cdp/cdp_engine.cpp:161-181 | in every interleaving a session that was never asked to stop does not exit, and n turns of its own have logged at least n / 5 rows |
| `Cdp.StoppedEnds` | core/src/cdp/cdp_engine.cpp:107-181 | in every interleaving a session asked to stop logs at most one row more, and has exited after five turns of its own |
| `Cdp.CdpEngine.Start` | core/src/cdp/cdp_engine.cpp:82-105 | a fresh id becomes a running session with no blocks tracked |
| `Cdp.CdpEngine.Stop` | core/src/cdp/cdp_engine.cpp:107-112 | clears the running flag, sets the status and leaves the journal and all other sessions alone |
| `Cdp.CdpEngine.LogBlockChange` | core/src/cdp/cdp_engine.cpp:183-194 | appends one row |
| `Cdp.CdpEngine.CreateRecoveryPoint` | core/src/cdp/cdp_engine.cpp:196-224 | appends a point with the session's row count and byte total |
| `Cdp.CdpEngine.MonitorStep` | core/src/cdp/cdp_engine.cpp:161-181 | each statement of the monitor loop is a step of the machine |
| `Backup.TerminalAbsorbs` | core/src/backup_engine/backup_job.cpp:14-29 | in every interleaving a terminal status stays until run is called again |
| `Backup.OneTerminalCallback` | core/src/backup_engine/backup_job.cpp:73-130 | at most one terminal callback fires, last, after one for RUNNING, and it reports the status |
| `Backup.SettledForGood` | core/src/backup_engine/backup_job.cpp:20-29 | once a cancel issued after run has returned, status and callbacks are final and terminal |
| `Backup.CancelReturns` | core/src/backup_engine/backup_job.cpp:20-29 | the step in which cancel returns settles any job that was ever run |
| `Backup.CancelInTimeWins` | core/src/backup_engine/backup_job.cpp:118-123 | a cancel before the worker's last look at the flag excludes COMPLETED for ever |
| `Backup.CompletedExactly` | core/src/backup_engine/backup_job.cpp:73-130 | whatever cancels and exceptions come in between, a run that has ended has completed if and only if the flag was clear at the worker's last look, and has failed if and only if its flush or its scan threw |
| `Backup.RerunNeverCompletes` | core/src/backup_engine/backup_job.cpp:14-29 | a job that was cancelled can be run again but never completes |
| `Backup.UndisturbedOutcome` | core/src/backup_engine/backup_job.cpp:73-130 | in every interleaving without throws, cancels or further runs, a run that has ended has completed if and only if the flag was clear when it was called |
| `Backup.RunCompletesExactly` | core/src/backup_engine/backup_job.cpp:14-130 | in every interleaving in which nothing disturbs it, a run with the flag clear ends with its worker's step number 29 beyond the entries to scan and no sooner, after twelve callbacks for RUNNING and one for COMPLETED; with the flag set its worker ends with the second step and never calls back |
| `Backup.ReportsAfterCancel` | core/src/backup_engine/backup_job.cpp:73-130 | in every interleaving, once the cancel flag is set no RUNNING callback fires but one already under way |
| `Backup.NeverScans` | core/src/backup_engine/backup_job.cpp:73-76 | a worker cancelled before its first look at the flag never scans, reports or completes, and no later one does |
| `Backup.CancelEndsSoon` | core/src/backup_engine/backup_job.cpp:73-130 | in every interleaving a cancelled worker ends within three steps, or three beyond the entries ahead of it where it does not break its scan off, however many reports were still ahead |
| `Backup.WorkProgresses` | core/src/backup_engine/backup_job.cpp:73-130 | every step of the worker brings it nearer its end, so that a cancel's join returns |
| `Backup.BackupJob.Start` | core/src/backup_engine/backup_job.cpp:14-18 | sets RUNNING, calls back, and starts the worker |
| `Backup.BackupJob.WorkerStep` | core/src/backup_engine/backup_job.cpp:73-130 | each statement of the worker is a step of the machine |
| `Backup.BackupJob.Cancel` | core/src/backup_engine/backup_job.cpp:20-29 | returns whatever the worker does, with a terminal status and its callback fired |
| `IsoCalendar.OrdinalOrder` | backend/app/services/retention_cleaner.py:48-49 | day numbers follow the order of dates |
| `IsoCalendar.EveryDay` | backend/app/services/retention_cleaner.py:48-49 | the days of the years 1 to 9999 have all the numbers from 1 to 3652059 |
| `IsoCalendar.WeekNumberRange` | backend/app/services/retention_cleaner.py:60-61 | ISO week numbers run from 1 to 53 |
| `IsoCalendar.WeekNumberMeaning` | backend/app/services/retention_cleaner.py:60-61 | a week counts for the year its Thursday lies in, and its number is the number of that Thursday within the year |
| `IsoCalendar.WeekNumberInMonth` | backend/app/services/retention_cleaner.py:59-63 | within a calendar month equal ISO week numbers mean the same week, at both ends of the year too |
| `Retention.TierNeverYounger` | backend/app/services/retention_cleaner.py:43-66 | a backup that is not in the future never moves to a younger tier |
| `Retention.TierMonotoneExactly` | backend/app/services/retention_cleaner.py:43-66 | from now on the tier never moves to a younger one between any two times if and only if the backup is not in the future or falls in the current week of the current month |
| `Retention.FutureBackupMovesBack` | backend/app/services/retention_cleaner.py:43-66 | a backup dated a year ahead is daily, then monthly, then daily again |
| `Retention.TierMeaning` | backend/app/services/retention_cleaner.py:43-66 | a past backup is daily in the current week of the month, weekly in the current month, monthly in the current year and yearly before |
| `Retention.KeptPerTier` | backend/app/services/retention_cleaner.py:173-193 | each tier keeps as many jobs as there are, up to the number configured for that tier: daily, weekly, monthly or yearly |
| `Retention.ListedExactly` | backend/app/services/retention_cleaner.py:173-193 | the list of deletions holds exactly the ids of the jobs that come behind the configured number of their tier |
| `Retention.SurvivorsAreKept` | backend/app/services/retention_cleaner.py:173-193 | exactly the jobs within the newest N of their tier survive |
| `Retention.UnfinishedSurvives` | backend/app/services/retention_cleaner.py:176-177 | a job without a finish time survives |
| `Retention.DeletedAreOldest` | backend/app/services/retention_cleaner.py:173-193 | no deleted job is newer than a kept one of its tier |
| `Retention.SecondPassDeletesNothing` | backend/app/services/retention_cleaner.py:136-212 | a second pass at the same time deletes nothing, in whatever order the query returns what was left |
| `Retention.HigherQuotasDeleteLess` | backend/app/services/retention_cleaner.py:184-193 | raising any of the four configured numbers never adds to the list of deletions and never takes from the survivors |
| `Retention.DeletingLeavesSurvivors` | backend/app/services/retention_cleaner.py:195-205 | deleting the listed ids leaves exactly the survivors |
| `Retention.ListExpired` | backend/app/services/retention_cleaner.py:173-193 | the counting loop lists exactly the ids beyond each tier's quota |
| `Retention.Database.ProcessBackupRetention` | backend/app/services/retention_cleaner.py:136-212 | leaves the survivors, in each tier as many as there were up to the number configured for it; kept plus deleted is the total; without a policy nothing happens |
| `Placement.TimesChosenFormula` | core/src/scaleout/scaleout_repository.cpp:181-194 | how often an extent is chosen, for any counter and over any number of wraps |
| `Placement.RoundRobinFair` | core/src/scaleout/scaleout_repository.cpp:178-194 | over k consecutive selections with m extents online each is chosen floor(k/m) or ceil(k/m) times if and only if the counter does not wrap, m divides 2^64, or the repeats and omissions around the wrap balance |
| `Placement.WrapRepeats` | core/src/scaleout/scaleout_repository.cpp:181-185 | at the wrap, with three extents online, the same one comes up twice running |
| `Placement.SharedCounterFair` | core/src/scaleout/scaleout_repository.cpp:181-194 | a repository that sees every s-th value of the shared counter is served evenly before the wrap if and only if s has no common divisor with its number of extents |
| `Placement.SharedCounterStarves` | core/src/scaleout/scaleout_repository.cpp:181-185 | where the stride has a common divisor d with the number of extents, only every d-th extent is ever chosen |
| `ScaleOut.ScaleOutRepository.AddExtent` | core/src/scaleout/scaleout_repository.cpp:49-57 | appends the extent and keeps recorded capacity minus extent sizes, modulo 2^64 |
| `ScaleOut.ScaleOutRepository.RemoveExtent` | core/src/scaleout/scaleout_repository.cpp:59-72 | removes the first extent with the id, keeping the same difference; fails if and only if there is none |
| `ScaleOut.ScaleOutRepository.SelectRoundRobin` | core/src/scaleout/scaleout_repository.cpp:178-194 | the walk always reaches the counter's extent, and the counter advances modulo 2^64; only with nothing online is the id empty |
| `ScaleOut.ScaleOutRepository.SelectPerformance` | core/src/scaleout/scaleout_repository.cpp:196-203 | the first online extent of the performance tier, and round robin without one |
| `ScaleOut.ScaleOutRepository.SelectCapacity` | core/src/scaleout/scaleout_repository.cpp:205-217 | the first online extent with the most free space, and the empty id when none has any; where no extent is overfull, the free space is total minus used bytes |
| `ScaleOut.OverfullPicked` | core/src/scaleout/scaleout_repository.cpp:205-217 | an overfull extent, whose free space wraps, is chosen if and only if some online one shows more free space that way than every online extent in bounds, or as much in front of it |
| `ScaleOut.ScaleOutRepository.Write` | core/src/scaleout/scaleout_repository.cpp:122-142 | the extent is the policy's choice, and success means only that the repository exists |
| `ScaleOut.WriteIsPlaced` | core/src/scaleout/scaleout_repository.cpp:122-142 | the chosen id names an online extent if and only if one is online and, by capacity, has free space or no name |
| `ScaleOut.ScaleOutRepository.EvacuateExtent` | core/src/scaleout/scaleout_repository.cpp:74-107 | takes only the named extent offline, and only when another online one remains |
| `RateLimit.WindowBounds` | backend/app/core/rate_limit.py:23 | a window is one half-open stretch of time |
| `RateLimit.WindowSpan` | backend/app/core/rate_limit.py:23 | a window is as many seconds long as configured |
| `RateLimit.CounterNeverReset` | backend/app/core/rate_limit.py:22-33 | in every run, while a window is not over its counter is stored exactly if it was counted in, and shows the plain count |
| `RateLimit.TimelyVerdict` | backend/app/core/rate_limit.py:22-33 | whatever other requests do, a request counted within its own window gets the verdict of a counter that never expires |
| `RateLimit.CountExactly` | backend/app/core/rate_limit.py:23-26 | a stored counter shows the plain count if and only if no request was counted at or after one window from the first expire command |
| `LimiterBounds.KeyLimitExactly` | backend/app/core/rate_limit.py:22-35 | of all requests for a key, late ones included, at most `limit` pass if and only if there were no more, or none was counted after the key went and none passed unjudged behind the first `limit`; in time, exactly the first `limit` and the unjudged ones pass |
| `LimiterBounds.ReadIntervalTwiceLimit` | backend/app/core/rate_limit.py:22-35 | of all requests that read the clock within one window's length at most twice the limit pass when both windows' limits are kept |
| `LimiterBounds.DelayExactly` | backend/app/core/rate_limit.py:22-35 | counted within any window's length, at most twice the limit pass in every run with delays up to d if and only if d is 0, or d is one tick and the limit or the window is one, or the limit is below 1 |
| `LimiterBounds.ThreePass` | backend/app/core/rate_limit.py:22-35 | a limit of 1 and a window of two ticks: three requests pass within two ticks although no key was gone |
| `RateLimit.LateRequestResets` | backend/app/core/rate_limit.py:23-26 | a late increment starts a new count, so that two requests pass a limit of one |
| `RateLimit.RateLimitMiddleware.Dispatch` | backend/app/core/rate_limit.py:14-37 | the request that finds n others counted in its window passes if and only if n is below the limit; it passes in any case when the path is exempt, when the store fails, or when the reply or the expire command of a first request is lost; an expiry one window ahead is stored exactly when n is 0 and the expire command took effect |
| `RateLimit.ServeWindow` | backend/app/core/rate_limit.py:14-37 | of one client's requests within one window, without faults, the n-th that the window sees passes if and only if n is at most the limit |

## Left out

- Replay and the combined calls: `ChangedBlocks.Replay`, `ExportAndReplay`, `LoadForeign` and `SaveThenLoad` are callers written for the proofs; the source has the operations they call, not these combinations.
- RateLimit.ServeWindow: a caller written for the proof; the source has single requests.
- DataMovers.DataMover.constructor: requires a non-zero interval, because the remainder by zero ends the process; `Transfer.DoLoop` models that as a crash.
- DataMovers.DataMover.IsZeroBlock: says nothing of the last size mod 8 bytes, because the code never looks at them.
- ScaleOut.ScaleOutRepository.Write: nothing is written; the result is all there is in the source too.
- RateLimit.RateLimitMiddleware.Dispatch: one request at a time with a clock that does not go back; the interleaving of requests is in the step machine.
- Backup.BackupJob.Start: requires that no joinable worker is left, because assigning a thread over one terminates the process.
- Cdp.CdpEngine.Start: requires an id that is not in use; starting a second session under a live id replaces the map entry while both threads go on.
- Retention.Database.ProcessBackupRetention: finish times are dates in one time zone; the date of an aware time in another zone is not modelled.
- DataMovers.DataMover.StartTransfer: requires that no cancel is under way; one thread controls the transfer.
- Placement.SharedCounterFair: before the counter wraps; `Placement.SharedCounterStarves` also covers the wrap where d divides 2^64.
- DirtyBuffers.DirtyBufferManager.GetDirtyBlocks: rows of equal offset come in some fixed order; the query does not promise one.
- Query orders by time, `get_dirty_blocks_since`, hot spots, change frequency, clean-up by age and `record_stats`: they only read or group by time strings.
- `get_keep_dates`: lists calendar dates that the retention pass never consults.
- `should_keep`, policy defaults and `process_cdp_retention`: single comparisons.
- Transfer progress, speed, remaining time and bandwidth delay; transport mode detection.
- A source path that is a directory: the transfer then reads nothing.
- `create_repo`, `update_repo`, `delete_repo`, maintenance mode and `get_best_extent`: single map or field updates.
- Files, databases and the network failing: SQLite statements and file operations are taken to succeed, except for a missing file and, for the rate limiter, its store.
- Sums beyond 64 bits in SQL, and sizes of BLOBs beyond SQLite's own limit.
- `DefaultDedupEngine::bytes_saved`: it adds every stored size, new or not.
- The hash function: chunks carry the value of an arbitrary function, taken to be collision-free where a theorem says so; an allocation failure inside it, which reports no chunk, is not part of this model.
- Recovery point ids are taken to be distinct, and `stop_session` is modelled without its join, which waits for a thread that may need the same lock.
- Exceptions thrown by callbacks.
