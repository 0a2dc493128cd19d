# Verification of evlog

evlog is an event-logging system. This project models the code that decides what ends up in its logs and what
readers see of them, and proves properties of that model in Dafny. The model follows the code at the level of bytes,
file positions, slots and pointers: each operation that loops or changes state is a method proved against a
specification function, and the results are lemmas about those functions.

- **The record log** (`Bytes`, `Framing`, `LogAccess`, `LogDescriptors`): a file header and frames of record header,
  data and a trailing size word, readable in both directions.
- **Maintenance** (`Compaction`, `LogManager`, `Repair`, `RepairShift`): deleting records in place, predicting that, and cutting out
  a bad block.
- **Writing** (`EventWriter`, `WriterProperties`, `DaemonRuns`, `DaemonRestart`, `DaemonKill`, `LogDaemon`): record ids,
  the secondary buffer used while the log is locked, draining it, and restarting, for single events and over whole runs.
- **Viewing** (`EvlView`): copying forward and finding the place again after the log was reorganised.
- **All three at once** (`MaintenanceProtocol`, `ProtocolSafety`, `ProtocolRefinement`, `ProtocolRuns`, `ReaderLanding`,
  `ReaderRace`, `ReaderAfterDrops`): one log shared by writer, compactor and reader, as a step system over the bytes of
  the file. The invariant is proved for every run, and the steps done without a break are proved to be the daemon's, the
  manager's and the viewer's operations.
- **Queries** (`QueryTree`, `QueryOptimizer`, `QueryEvaluator`): dividing a query in place by recycling its nodes, the
  predictions for missing attributes, and lazy evaluation. `OptimizeAndEvaluate` ties all of it to plain evaluation.
- **Duplicate suppression** (`DupSuppression`, `DupBuffers`): what is remembered, replaced and reported, and the pool of
  record slots that both logs share.
- **The facility registry** (`Primes`, `FacilityHash`, `FacilityRegistry`): open addressing as a finite map, reading
  the registry file, lookups and the snapshot.
- **Template grouping** (`TemplateGroups`) and **printf-style records** (`PrintfRecord`, `PrintfChunks`, `PrintfPacking`).

`dafny verify dfyconfig.toml` checks everything.

## Where the code does not do what is expected of it

Each is modelled as the code has it, with a lemma that shows it and the exact condition under which the expected
property holds.

- The forward reader can miss a record: one filed after the resync seek found nothing newer and before the seek to the
  end that follows (user/cmd/evlview/evlview.c:1491-1500). `ReaderRace.RaceLosesRecord`; copied exactly when not jumped
  over, `ProtocolSafety.ReaderCopiesWhatWasNotJumped`. It can also miss the record that a note about drops outran:
  `ReaderAfterDrops.NoteHidesRecord`. In every run it has copied all that matches exactly when it had copied what stands
  before the place in the log where it last landed: `ReaderLanding.ReaderCopiesFromLandingOn`.
- A log's record ids are out of order after dropped events were reported, because the report takes its id after the
  record waiting behind it has one. `WriterProperties.OrderBreaksExactlyOnReport`. A daemon killed then gives
  an id out again that is in use (`DaemonRestart.RestartAfterReportReusesId`): over every run, it resumes at or above all
  ids present exactly when the last write to a file reported no drops, `DaemonRestart.RestartResumesAboveExactlyWhen`;
  killed in the middle of logging an event, `DaemonKill.KilledDuringWriteExactlyWhen`.
- Repair of a log with one bad block is sure to cut out the block, whatever the block, exactly when no record behind it
  is longer than a record may be: `Repair.BlockIsCutOutExactlyWhen`. With a longer one it may never return, on the first
  pass (`Repair.OverlongRecordSpins`) or on a later one (`Repair.LaterPassSpins`, `Repair.StrayByteSpins`), return with
  records duplicated (`Repair.RepairDuplicates`), or by chance cut out the block (`RepairShift.OverlongCanSurvive`). On
  any file it fails to return exactly when the file that some number of passes leave is stuck:
  `Repair.SpinsExactlyWhenSomePassIsStuck`.
- The prediction of a compaction counts records that bear the compaction's own start message; the compaction spares
  them. `Compaction.PredictionMatchesCompaction`.
- Lowering the discard count while duplicates are pending can make a current element be replaced before an expired one.
  `DupSuppression.LoweredLimitSparesExpired`, `DupSuppression.ExpiredYieldsExactlyWhen`.
- The registry reader compares a 64-bit number with the 32-bit reserved code, so -1 and other numbers that truncate to
  the reserved code are accepted, and the facility is nowhere to be found. `FacilityRegistry.ReservedNumberSlipsThrough`,
  `FacilityRegistry.FoundExactlyWhen`.
- The trial division takes 1 for a prime (`Primes.IsPrime`); the registry works all the same.

## Model

| member | source | states |
|---|---|---|
| `Bytes.FromToBytes` | user/lib/posix2.c:176-189 | A word written to the log and read back is the same number, whenever it fits the word |
| `Bytes.ToFromBytes` | user/lib/posix2.c:287-302 | Every word read from a log is in range and writes back as the same bytes |
| `Framing.EntryRoundTrip` | user/include/linux/evl_log.h:70-92 | A record header survives being laid out and read back |
| `Framing.HeaderRoundTrip` | user/include/evlog.h:122-131 | A file header survives being laid out and read back |
| `Framing.MappedHeaderOf` | user/lib/posix2.c:238-246 | The header seen through a mapping of the first page is the file's header, whatever follows it |
| `Framing.FrameAt` | user/lib/posix2.c:176-189 | Header, data and size word of a frame stand where a reader at its start looks for them |
| `Framing.FramesInjective` | user/lib/posix2.c:176-189 | Two record lists with the same bytes are the same list: the framing is unambiguous |
| `LogAccess.ReadAt` | user/lib/posix2.c:308-377 | Reading at a record boundary of a well-formed log yields exactly the record there and moves to the next boundary; at the end it reports EAGAIN and moves nowhere |
| `LogAccess.SeekFwdFindsNearest` | user/lib/posix2.c:407-445 | From any boundary a forward seek stops at the nearest matching record at or after it, or returns ENOENT with the pointer where it started |
| `LogAccess.SeekBkwdFindsNearest` | user/lib/posix2.c:448-510 | From any boundary a backward seek stops at the nearest matching record before it, or returns ENOENT with the pointer where it started |
| `LogAccess.BackThenRead` | user/lib/posix2.c:448-510 | A backward seek without a query followed by a read returns to the start and yields the record stepped over |
| `LogAccess.ReadBackWhatWasWritten` | user/lib/posix2.c:308-377 | Reading on from any boundary yields the rest of the records, in order, unchanged |
| `LogAccess.AppendKeepsLog` | user/lib/posix2.c:176-189 | Appending a record with its size word extends a well-formed log by that record |
| `LogDescriptors.LogFile.WriteRecord` | user/lib/posix2.c:176-189 | The file grows by header, data and the size word of both |
| `LogDescriptors.LogDesc.Open` | user/lib/posix2.c:211-267 | A log opens exactly when it has the magic number and an even generation; the descriptor has that generation and stands behind the header |
| `LogDescriptors.LogDesc.Read` | user/lib/posix2.c:308-377 | The loop-free read with all its error returns does what the record-level function says, short buffers and skipped data included |
| `LogDescriptors.LogDesc.SeekFwd` | user/lib/posix2.c:407-445 | The loop terminates and leaves status and pointer as the forward search does, on any bytes |
| `LogDescriptors.LogDesc.SeekBkwd` | user/lib/posix2.c:448-510 | The loop terminates and leaves status and pointer as the backward search does, on any bytes |
| `LogDescriptors.LogDesc.ReadLog` | user/lib/posix1.c:436-448 | A read is refused with EBADF, and moves nothing, exactly when the generation has changed |
| `LogDescriptors.LogDesc.Seek` | user/lib/posix1.c:470-516 | The same gate for seeks, and the six directions with their EINVAL cases |
| `EvlView.FromStartLands` | user/cmd/evlview/evlview.c:1399-1423 | Resynchronising from the start, with the fallback for ENOENT, ends at the first record above (or at least) the last copied id |
| `EvlView.FromEndLands` | user/cmd/evlview/evlview.c:1381-1398 | Resynchronising from the end of a log sorted by id ends at that same record, although the last copied record may be gone |
| `EvlView.StrategiesAgree` | user/cmd/evlview/evlview.c:1375-1424 | Both strategies leave the read pointer at the same place, for BEFORELAST and AFTERLAST |
| `EvlView.TargetSplits` | user/cmd/evlview/evlview.c:1358-1374 | On a sorted log the place divides the records by id exactly |
| `EvlView.Viewer.FigureResyncStrategy` | user/cmd/evlview/evlview.c:1375-1424 | The strategy filled in field by field is the one the landing lemmas are about |
| `EvlView.Viewer.HandleReadOrSeekFailure` | user/cmd/evlview/evlview.c:1436-1551 | The log is reopened exactly when it is a log and not under maintenance; then the read pointer is where the action and its strategy put it |
| `EvlView.Viewer.CopyForward` | user/cmd/evlview/evlview.c:1045-1079 | Copying forward adds exactly the matching records from the read pointer to the end, in order |
| `Compaction.SetGenerationKeepsBody` | user/cmd/evlogmgr/evl_logmgmt.c:462-510 | Setting the generation changes the generation and no other byte of the file |
| `Compaction.KeptIsFilter` | user/cmd/evlogmgr/evl_logmgmt.c:135-144 | Records kept are those that do not match or that bear the start message, and the deleted ones are counted exactly |
| `Compaction.TurnSlides` | user/cmd/evlogmgr/evl_logmgmt.c:281-322 | Each turn of the loop keeps the file in the sliding shape: kept records packed behind the header, unread ones untouched at the end |
| `Compaction.CompactionIsFilter` | user/cmd/evlogmgr/evl_logmgmt.c:257-334 | Compacting in place leaves header and kept records byte for byte in order; the shrinkage is the size of the deleted records and both counters are exact |
| `Compaction.CompactionRenewsLog` | user/cmd/evlogmgr/evl_logmgmt.c:789-876 | The whole operation leaves a well-formed log with a new even generation, so every older descriptor is out of date |
| `Compaction.PredictionMatchesCompaction` | user/cmd/evlogmgr/evl_logmgmt.c:191-252 | What the counting pass predicts differs from what the compaction does by exactly the matching records that bear its own start message |
| `LogManager.Manager.SetGenerationNumber` | user/cmd/evlogmgr/evl_logmgmt.c:462-510 | The file after the call is the one with the new generation, or unchanged when it is no log |
| `LogManager.Manager.DoesRecMatchForDel` | user/cmd/evlogmgr/evl_logmgmt.c:135-144 | The answer is the deletion predicate, and the two counters advance exactly when it is yes |
| `LogManager.Manager.MoveRecordUp` | user/cmd/evlogmgr/evl_logmgmt.c:148-186 | The record is written at the hole and the hole moves behind it; an overlong record moves nothing |
| `LogManager.Manager.CompactNext` | user/cmd/evlogmgr/evl_logmgmt.c:281-322 | One turn deletes, moves or leaves the record at the offset, with the counters |
| `LogManager.Manager.Compact` | user/cmd/evlogmgr/evl_logmgmt.c:257-334 | The loop terminates and leaves file, status and counters of the compaction |
| `LogManager.Manager.CountRecsForDeletion` | user/cmd/evlogmgr/evl_logmgmt.c:191-252 | The counting loop terminates with the prediction's three numbers, the stale data buffer included |
| `LogManager.Manager.CompactFile` | user/cmd/evlogmgr/evl_logmgmt.c:789-876 | The generation is made even on every path, and the compaction goes on without a backup only when forced |
| `Repair.FramedLogUnchanged` | user/cmd/evlogmgr/evl_logmgmt.c:381-455 | A log of well-framed records, overlong ones included, is left as it is, with status 0 |
| `Repair.SearchCrosses` | user/cmd/evlogmgr/evl_logmgmt.c:341-375 | The byte scan crosses a block in which no offset passes the magic test |
| `Repair.FoundValidates` | user/cmd/evlogmgr/evl_logmgmt.c:341-375 | What the scan finds is a record that validates |
| `Repair.SearchFindsFirst` | user/cmd/evlogmgr/evl_logmgmt.c:341-375 | It is the first that does; when the scan finds none, none validates up to the end of the file or a candidate cut short by it |
| `Repair.SingleBadBlockIsCutOut` | user/cmd/evlogmgr/evl_logmgmt.c:381-455 | Well-framed records, one bad block, valid records: the repair returns with status 1 and exactly the block gone; with no record behind, the file is cut at the block |
| `Repair.BlockIsCutOutExactlyWhen` | user/cmd/evlogmgr/evl_logmgmt.c:381-455 | Repair is sure to return with exactly the block gone, whatever the bad block among well-framed records, if and only if no record behind it is longer than POSIX_LOG_ENTRY_MAXLEN |
| `Repair.FirstPassCutsOutExactlyWhen` | user/cmd/evlogmgr/evl_logmgmt.c:148-155 | For each such block by itself the same condition decides what the first pass does |
| `Repair.PassStopsAtOverlong` | user/cmd/evlogmgr/evl_logmgmt.c:413-439 | Otherwise it moves the records before the first overlong one and starts over, the end of the gap standing behind them |
| `Repair.AgainMakesProgress` | user/cmd/evlogmgr/evl_logmgmt.c:381-455 | A pass that starts over has lengthened the valid front, unless it is stuck |
| `Repair.StartsOverExactlyWhenStuck` | user/cmd/evlogmgr/evl_logmgmt.c:393-435 | A pass starts over on an unchanged file exactly when the first record behind the bad block is too long to be moved |
| `Repair.SpinsExactlyWhenSomePassIsStuck` | user/cmd/evlogmgr/evl_logmgmt.c:381-455 | Repair never returns exactly when the file that some number of passes leave is stuck |
| `Repair.OverlongRecordSpins` | user/cmd/evlogmgr/evl_logmgmt.c:381-455 | An overlong well-framed record directly behind a bad block makes the repair go on for ever |
| `Repair.LaterPassSpins` | user/cmd/evlogmgr/evl_logmgmt.c:381-455 | So it may one pass later: valid records are moved up first, and the file, not stuck at the start, is after that |
| `Repair.StrayByteSpins` | user/cmd/evlogmgr/evl_logmgmt.c:381-455 | One stray byte of any value in front of valid records and an overlong one is enough for that |
| `Repair.RepairDuplicates` | user/cmd/evlogmgr/evl_logmgmt.c:381-455 | When the block is as long as the records moved over it, repair returns with status 1 and these records in the file twice |
| `RepairShift.ShiftedRecordIsFound` | user/cmd/evlogmgr/evl_logmgmt.c:381-455 | When the stale end of the moved records and the overlong record repeat one pattern, the next pass reads the record where the moved ones stop, and the block is cut out after all |
| `RepairShift.OverlongCanSurvive` | user/cmd/evlogmgr/evl_logmgmt.c:381-455 | Such a file, byte for byte: 24 zeros, a short record and one of 8208 bytes, of which only the zeros go |
| `LogManager.Manager.ValidateRecord` | user/cmd/evlogmgr/evl_logmgmt.c:86-114 | The record validates exactly when header, data and size word agree, and leads behind it |
| `LogManager.Manager.SearchForNextGoodRecord` | user/cmd/evlogmgr/evl_logmgmt.c:341-375 | The byte scan terminates at the first good record |
| `LogManager.Manager.RepairPass` | user/cmd/evlogmgr/evl_logmgmt.c:381-455 | One pass leaves the outcome and the file of the pass function |
| `LogManager.Manager.RepairFile` | user/cmd/evlogmgr/evl_logmgmt.c:381-455 | Repeating the pass returns with value, status and file of the repair function, an empty file being EIO, or spins as it says |
| `EventWriter.NextRecId` | user/cmd/evlogd/evlogd.c:919-929 | Ids increase; public ones are odd, private ones even |
| `EventWriter.EventKeeps` | user/cmd/evlogd/evlogd.c:3063-3098 | Logging an event keeps file and secondary buffer bytes the frames of the book of records filed and waiting |
| `DaemonRuns.RunStores` | user/cmd/evlogd/evlogd.c:3005-3098 | Over every run the bytes of both files and buffers are the frames of both books |
| `DaemonRuns.FilesConserveEvents` | user/cmd/evlogd/evlogd.c:2888-3098 | After every run from two new logs, file and buffer of each hold, in order, a subsequence of the events offered, those missing being as many as the notes there and the pending count say, and no two records share an id |
| `DaemonRuns.DropsAreReached` | user/cmd/evlogd/evlogd.c:2888-2923 | From two new logs a run in which one event keeps failing to get the lock leads to dropped events, in either log |
| `WriterProperties.EventsAreConserved` | user/cmd/evlogd/evlogd.c:3005-3045 | Over every run each log holds a subsequence, in order, of the events offered to it, and those missing are as many as its notes report and its drop count says |
| `WriterProperties.RunKeepsInvariant` | user/cmd/evlogd/evlogd.c:2888-3098 | Over every run ids are unique, of their log's parity, and in order as long as nothing overflowed |
| `WriterProperties.IdsGloballyUnique` | user/cmd/evlogd/evlogd.c:919-929 | No record of the public log shares an id with one of the private log |
| `WriterProperties.OrderBreaksExactlyOnReport` | user/cmd/evlogd/evlogd.c:2930-2990 | The order is broken by exactly those writes that report drops: the note outruns the event behind it |
| `WriterProperties.LockedOutOverflows` | user/cmd/evlogd/evlogd.c:2888-2923 | Over a run without the lock the buffer fills to its size and more events than it has bytes are not all kept; files and the other log stay as they are |
| `DaemonRestart.LastRecIdOfLog` | user/cmd/evlogd/evlogd.c:1818-1847 | Following the last size word of a log back leads to its last record's id |
| `DaemonRestart.KilledAfterFiling` | user/cmd/evlogd/evlogd.c:1809-1859 | Killed after one write to either log, the daemon resumes at or above all ids present exactly when the write reported no drops; otherwise it gives the note's id out again |
| `DaemonRestart.RestartResumesAboveExactlyWhen` | user/cmd/evlogd/evlogd.c:1809-1859 | Over every run of the daemon: killed at the end of it, it resumes at or above all ids present exactly when the last write that reached a file reported no drops |
| `DaemonRestart.FreshResumesAbove` | user/cmd/evlogd/evlogd.c:427-439 | In particular after every run from two new logs |
| `DaemonRestart.RestartResumesAbove` | user/cmd/evlogd/evlogd.c:1830-1859 | Any two logs are resumed at or above all ids present exactly when no id is above what headers and last records of both yield |
| `DaemonRestart.ResumableLogsResume` | user/cmd/evlogd/evlogd.c:1830-1859 | So are two logs that are each in order, or have the id of a clean shutdown in the header |
| `DaemonKill.FileAfterIsLog` | user/cmd/evlogd/evlogd.c:2966-2984 | After each of the three writes that logging an event may consist of, buffer, note and event, the file is the log of the items written so far |
| `DaemonKill.RunInOrder` | user/cmd/evlogd/evlogd.c:3005-3098 | Over every run the last id of a log is its highest, or second to the note that outran it, and what waits is newer than all that is filed |
| `DaemonKill.KilledDuringWriteExactlyWhen` | user/cmd/evlogd/evlogd.c:1809-1859 | Over every run, killed after any of the three writes of the next event: it resumes at or above all ids present exactly when the notes that outran the end of either log are reached; after the note that is so, after the event unless there was a note, after the buffer unless the other log ends in such a note |
| `DaemonKill.BufferLeavesNoteBehind` | user/cmd/evlogd/evlogd.c:2966-2984 | A run from two new logs leads to such a note of the other log, which a kill after the buffer leaves out of reach |
| `DaemonRestart.RestartAfterReportReusesId` | user/cmd/evlogd/evlogd.c:1830-1859 | With either log ending in a note and the event it outran, the next record of that log gets the note's id again |
| `LogDaemon.LogInfo.WriteRecToBuf` | user/cmd/evlogd/evlogd.c:2888-2923 | The record goes behind the watermark, or is counted as dropped when it does not fit |
| `LogDaemon.EvlogDaemon.GetNextRecId` | user/cmd/evlogd/evlogd.c:919-929 | The counter becomes the next id of the log's parity |
| `LogDaemon.EvlogDaemon.DrainBufToLog` | user/cmd/evlogd/evlogd.c:2930-2990 | The whole buffer reaches the file, then a note with the drop count under a fresh id, and the buffer is freed |
| `LogDaemon.EvlogDaemon.WriteRecToLog` | user/cmd/evlogd/evlogd.c:3005-3045 | Without the lock the record goes to the buffer; with it the buffer is drained first |
| `LogDaemon.EvlogDaemon.LogEvlRec` | user/cmd/evlogd/evlogd.c:3063-3098 | Logging an event is the write path's function of counter, file and buffer |
| `ProtocolSafety.StepKeeps` | user/cmd/evlogmgr/evl_logmgmt.c:789-876 | Every step of writer, compactor and reader keeps the protocol's invariant |
| `ProtocolSafety.RunKeeps` | user/cmd/evlview/evlview.c:1045-1079 | The invariant holds after every run from a log in order |
| `ProtocolSafety.GenerationSafety` | user/lib/posix2.c:274-284 | While a descriptor's generation is the file's, no compaction has started since it was opened, the log it opened is a prefix of the log, and its read pointer is on a record boundary |
| `ProtocolSafety.ReaderCopiesWhatWasNotJumped` | user/cmd/evlview/evlview.c:1045-1079 | In every interleaving the reader's output is strictly increasing and matching, and on return a matching record of the log was copied exactly when the seek to the end did not jump over it |
| `ProtocolSafety.ReaderIsComplete` | user/cmd/evlview/evlview.c:1436-1551 | If no record was filed between a failed resync seek and the seek to the end, every matching record then in the log has been copied |
| `ReaderLanding.ReaderCopiesFromLandingOn` | user/cmd/evlview/evlview.c:1045-1079 | On return from any run, notes about drops and races included, the output is what was copied before the read pointer last landed somewhere and then every matching record from there to the end of the log; so everything matching was copied exactly when what stands before the landing was |
| `ReaderRace.RaceLosesRecord` | user/cmd/evlview/evlview.c:1479-1544 | Without that proviso it fails: from every one-record log a run leads to a matching record left uncopied |
| `ProtocolRuns.CompactNothing` | user/cmd/evlogmgr/evl_logmgmt.c:789-876 | From every idle state a compaction that deletes nothing can run to its end, records and reader untouched and the generation two higher |
| `ReaderAfterDrops.NoteHidesRecord` | user/cmd/evlview/evlview.c:1479-1544 | Nor does it hold in runs with a filed note about drops: from every log a run without the race leads to a matching record left uncopied |
| `ProtocolRefinement.WriterStepsLogEvent` | user/cmd/evlogd/evlogd.c:3005-3098 | The writer's protocol steps done without a break are the daemon's logging of an event, on the bytes of file and buffer |
| `ProtocolRefinement.ManagerStepsCompactLog` | user/cmd/evlogmgr/evl_logmgmt.c:789-876 | The compactor's protocol steps done without a break leave the file of the compaction |
| `ProtocolRefinement.ResyncStepsLand` | user/cmd/evlview/evlview.c:1479-1544 | The reader's resync steps done without a break land where the strategy's seeks do |
| `QueryTree.PureIgnoresAtts` | user/lib/query/qopt.c:116-150 | A tree that refers to no non-standard attribute means the same on every attribute table |
| `QueryTree.DividePreservesMeaning` | user/lib/query/qopt.c:209-283 | Dividing a tree preserves its meaning for every record and table; the left part refers to no non-standard attribute, the right part does |
| `QueryTree.PredictionSound` | user/lib/query/qopt.c:298-363 | A prediction other than maybe is what the query evaluates to on every record that lacks the attribute, or every attribute |
| `QueryTree.PredictionsAgree` | user/lib/query/qopt.c:298-363 | Certain predictions from two missing attributes never contradict each other |
| `QueryOptimizer.TakenApart` | user/lib/query/qopt.c:153-167 | Taking a tree apart yields all its nodes, once each, with one operand more than operator nodes |
| `QueryOptimizer.DivInfo.Classify` | user/lib/query/qopt.c:153-167 | The three lists grow by the pure operands, the impure operands and the operator nodes, in order |
| `QueryOptimizer.DivInfo.BeheadList` | user/lib/query/qopt.c:174-182 | The first node comes off one list and the other is untouched |
| `QueryOptimizer.DivInfo.RebuildSubtree` | user/lib/query/qopt.c:191-206 | The list is used up, one recycled node less than it had nodes, and the nodes are linked as the right-leaning tree of its operands |
| `QueryOptimizer.SplitCounts` | user/lib/query/qopt.c:228-283 | Both rebuilt sides together need exactly the recycled nodes there are, and no node stands in two places |
| `QueryOptimizer.PDivideShape` | user/lib/query/qopt.c:228-283 | Node for node, the rebuilt tree is the division of the original tree |
| `QueryOptimizer.PDivideTidy` | user/lib/query/qopt.c:228-283 | The rebuilt tree is again a tree, over exactly the same nodes |
| `QueryOptimizer.DivideTree` | user/lib/query/qopt.c:228-283 | The pointers at the root are rewritten into the divided tree; the assertions that all three lists are empty hold |
| `QueryOptimizer.RefsNonStd` | user/lib/query/qopt.c:116-150 | Walking the pointers finds a non-standard attribute exactly when the tree refers to one |
| `QueryOptimizer.SimulateNode` | user/lib/query/qopt.c:298-363 | Walking the pointers gives the prediction for the tree |
| `QueryOptimizer.NonStdAtts.Annotate` | user/lib/query/qopt.c:388-396 | Every attribute, and the query as a whole, gets its prediction and keeps everything else |
| `QueryOptimizer.OptimizeTree` | user/lib/query/qopt.c:379-397 | The tree at the root becomes its division over the same nodes, and the annotations are those of the divided tree |
| `QueryEvaluator.EvalContext.StoreUsefulAtts` | user/lib/query/evaluate.c:379-420 | The pointer array says of each attribute whether it is useful and where it is; the flags say whether any is, or is not |
| `QueryEvaluator.EvalContext.Predict` | user/lib/query/evaluate.c:436-450 | The first certain prediction from a useless attribute agrees with the query on the record |
| `QueryEvaluator.EvalContext.ScreenUnpopulatedTemplate` | user/lib/query/evaluate.c:362-451 | Screening an unpopulated template answers only what the query evaluates to with its useless attributes missing |
| `QueryEvaluator.EvalContext.FixStructRefs` | user/lib/query/evaluate.c:458-478 | After populating, struct members that the clone lacks are dropped and all other useful ones point into the clone |
| `QueryEvaluator.EvalContext.PrepareNonStdAtts` | user/lib/query/evaluate.c:496-550 | A certain answer is the query's; otherwise evaluation will see the record's attributes, invalid ones being missing |
| `QueryEvaluator.EvaluateNode` | user/lib/query/evaluate.c:151-198 | Walking the pointers evaluates the tree |
| `QueryEvaluator.EvaluateLeft` | user/lib/query/evaluate.c:560-587 | The cheap part under the root node decides the query exactly when the later operator lets it |
| `QueryEvaluator.EvaluateNsaTree` | user/lib/query/evaluate.c:594-637 | Lazy evaluation of the nodes of an optimised query returns what its tree means, for every template: absent, lacking attributes, or populated |
| `QueryEvaluator.OptimizeAndEvaluate` | user/lib/query/evaluate.c:594-637 | Optimising in place and then evaluating the rewritten nodes lazily returns what plain evaluation returns on the original query |
| `DupSuppression.FirstMatch` | user/cmd/evlogd/evlogd.c:2296-2337 | The first remembered event that is identical and younger than the timeout |
| `DupSuppression.LeastScore` | user/cmd/evlogd/evlogd.c:2296-2308 | The first element whose score no other undercuts |
| `DupSuppression.DroppedExactlyWhen` | user/cmd/evlogd/evlogd.c:2256-2373 | An event is dropped exactly when it repeats a remembered one younger than the timeout, and otherwise is the last thing logged |
| `DupSuppression.ArriveHeld` | user/cmd/evlogd/evlogd.c:2313-2372 | An arriving event is logged or counted, once, and nothing already accounted for is lost |
| `DupSuppression.CheckHeld` | user/cmd/evlogd/evlogd.c:3163-3209 | A timeout check moves counts into reports without changing what is accounted for |
| `DupSuppression.DumpHeld` | user/cmd/evlogd/evlogd.c:3216-3242 | So does dumping a lookback array |
| `DupSuppression.DoKeeps` | user/cmd/evlogd/evlogd.c:2256-2373 | Every operation keeps the log's own count equal to the sum over its elements, and the round-robin index in range |
| `DupSuppression.DuplicatesAreConserved` | user/cmd/evlogd/evlogd.c:2256-2373 | Over every run, for each log and each kind of event, events offered are those logged, those reported as discarded, and those pending |
| `DupSuppression.CheckLeavesNothingDue` | user/cmd/evlogd/evlogd.c:3305-3312 | After a check nothing pending is overdue; the wait is the least time left over both logs, and 0 exactly when nothing is pending |
| `DupSuppression.ScoreFollowsRank` | user/cmd/evlogd/evlogd.c:2391-2412 | With counts below the reporting limit a lower class always scores lower, so equal scores mean one class |
| `DupSuppression.EvictionOrder` | user/cmd/evlogd/evlogd.c:2339-2350 | No element is replaced while one of a lower class is there: empty before expired before current |
| `DupSuppression.EvictionOrderOverRuns` | user/cmd/evlogd/evlogd.c:2339-2350 | That holds after every run that never lowers the limit, intervals, switching and resizing included |
| `DupSuppression.ExpiredYieldsExactlyWhen` | user/cmd/evlogd/evlogd.c:2391-2412 | An expired element scores below all current ones exactly when its start and count come to less than now and the limit |
| `DupSuppression.LoweredLimitSparesExpired` | user/cmd/evlogd/evlogd.c:1652-1661 | A run from the daemon's start in which lowering the limit makes the next event replace a current element and spare an expired one |
| `DupSuppression.RunReportsWithin` | user/cmd/evlogd/evlogd.c:2313-2332 | Under a fixed limit every report counts at least one event and at most the limit |
| `DupSuppression.OneMemoMatches` | user/cmd/evlogd/evlogd.c:2313-2314 | At any time at most one remembered event is repeated by an arriving one |
| `DupBuffers.FreeSlotExists` | user/cmd/evlogd/evlogd.c:3277-3285 | With more slots than lookback elements one slot is always free |
| `DupBuffers.FreeSlotUnseen` | user/cmd/evlogd/evlogd.c:782-796 | Reading an event into a free slot overwrites no remembered record |
| `DupBuffers.Released` | user/cmd/evlogd/evlogd.c:2326-2331 | Emptying an element frees its slot and keeps ownership exact |
| `DupBuffers.Taken` | user/cmd/evlogd/evlogd.c:2362-2370 | Pointing an empty element to a free slot keeps ownership exact |
| `DupBuffers.ComputeScore` | user/cmd/evlogd/evlogd.c:2391-2412 | The score over element, clock and settings is the score of what the element remembers |
| `DupBuffers.LogInfo.Scan` | user/cmd/evlogd/evlogd.c:2286-2337 | One pass finds the first repeat, else the first least score and whether all are equal |
| `DupBuffers.LogInfo.CountDuplicate` | user/cmd/evlogd/evlogd.c:2316-2334 | A repeat is counted, and reported with the element freed when there are enough or the first is old enough |
| `DupBuffers.LogInfo.Replace` | user/cmd/evlogd/evlogd.c:2352-2372 | The replaced element's count is reported, its slot freed, and the new event's slot taken |
| `DupBuffers.LogInfo.DropDupRecord` | user/cmd/evlogd/evlogd.c:2256-2373 | The answer, the log and the round-robin index are those of the specification, and slots stay owned |
| `DupBuffers.LogInfo.CheckDupEventTimeoutForLog` | user/cmd/evlogd/evlogd.c:3163-3209 | The loop settles every due element and shortens the wait as specified |
| `DupBuffers.LogInfo.DumpDuplicatesBuffer` | user/cmd/evlogd/evlogd.c:3216-3242 | Every pending count is reported and the array is gone |
| `DupBuffers.Daemon.constructor` | user/cmd/evlogd/evlogd.c:588-589 | The daemon starts with a pool of the right size and nothing remembered |
| `DupBuffers.Daemon.NextSlot` | user/cmd/evlogd/evlogd.c:782-796 | The search ends at the first free slot, within the pool |
| `DupBuffers.Daemon.ProcessEvent` | user/cmd/evlogd/evlogd.c:2761-2765 | An event through slot, duplicate test and log is the specification's step, and slots stay owned exactly |
| `DupBuffers.Daemon.CheckDupEventTimeout` | user/cmd/evlogd/evlogd.c:3305-3312 | Both logs are checked in turn, and the wait is the specification's |
| `DupBuffers.Daemon.ReallocBuffer` | user/cmd/evlogd/evlogd.c:3270-3286 | Both logs are dumped when duplicates were being discarded, and the pool is replaced by an empty one of the new size |
| `DupBuffers.Daemon.UpdateConfValue` | user/cmd/evlogd/evlogd.c:1651-1695 | Each setting, switching and resizing included, is the specification's step, and slots stay owned exactly |
| `Primes.IsPrime` | user/lib/facreg.c:236-248 | The trial division decides primality from 2 up; it also takes 1 for a prime |
| `Primes.PrimeAtOrAbove` | user/lib/facreg.c:251-257 | There is a prime at or above every number |
| `Primes.NextPrimeUp` | user/lib/facreg.c:251-257 | The search terminates, at the least number from n up taken for a prime |
| `FacilityHash.ProbeFindsWhatIsStored` | user/lib/facreg.c:265-281 | The probe finds every stored code, and answers -1 exactly when the table is full and the code absent |
| `FacilityHash.StoreUpdatesMap` | user/lib/facreg.c:338-345 | Storing in the slot the probe gave updates the map and keeps every other code reachable |
| `FacilityHash.RoomFor` | user/lib/facreg.c:328-338 | A table with fewer codes than slots has room for any code |
| `FacilityHash.FindHashSlotFor` | user/lib/facreg.c:265-281 | The wrapping loop terminates with the slot, or -1, of the probe |
| `FacilityHash.ReallocFacHash` | user/lib/facreg.c:290-315 | The larger table holds the same map; the assertion about the slot holds |
| `FacilityRegistry.FacReg.constructor` | user/lib/facreg.c:359-369 | A new registry is empty and of prime size |
| `FacilityRegistry.FacReg.AddFacToHash` | user/lib/facreg.c:322-351 | The map gains the facility, growing when full; the assertion after the retry holds |
| `FacilityRegistry.FacReg.GetFacNameByCode` | user/lib/facreg.c:371-386 | The name is the one the map has for the code, or none |
| `FacilityRegistry.FacReg.GetFacCodeByCIName` | user/lib/facreg.c:403-417 | The code found has that name up to case; EMPTY means no facility has it |
| `FacilityRegistry.FacReg.TakeLine` | user/lib/facreg.c:624-734 | One line is refused, ignored or added as the specification says, and the error count follows |
| `FacilityRegistry.CheckPosixFacility` | user/lib/facreg.c:434-463 | Name and code agree with the table of standard facilities, both ways |
| `FacilityRegistry.FacReg.CheckMissingPosixFacilities` | user/lib/facreg.c:482-497 | The number of standard facilities missing |
| `FacilityRegistry.ReadFacilities` | user/lib/facreg.c:579-752 | A registry results exactly when the file is acceptable, and it holds the file's facilities |
| `FacilityRegistry.ReadsAreConsistent` | user/lib/facreg.c:680-702 | In every registry read each facility is under its code and no two names are the same up to case |
| `FacilityRegistry.CodeNameCode` | user/lib/facreg.c:680-693 | Code to name to code is the identity |
| `FacilityRegistry.NameCodeName` | user/lib/facreg.c:680-693 | The code found for a name is the only one whose facility has that name up to case, in every registry read |
| `FacilityRegistry.AcceptedHasStandard` | user/lib/facreg.c:482-497 | An accepted registry has every standard facility under its own code with its own name |
| `FacilityRegistry.FoundExactlyWhen` | user/lib/facreg.c:650-659 | A line in order at its turn is under its code in the registry read from the whole file exactly when that code is not the reserved one |
| `FacilityRegistry.EveryFacilityHasItsLine` | user/lib/facreg.c:650-659 | And every facility of that registry comes from a line that was in order at its turn |
| `FacilityRegistry.ReservedNumberSlipsThrough` | user/lib/facreg.c:650-659 | Wherever its line stands, a number that truncates to the reserved code is taken without an error unless it is that code, and no facility is under the reserved code in the registry read from the whole file |
| `FacilityRegistry.FacReg.Snapshot` | user/lib/facreg.c:983-1012 | The snapshot lists each facility once, with its name |
| `TemplateGroups.BeforeIsTotal` | user/cmd/evlgentmpls/evlgentmpls.c:595-615 | Of two calls exactly one comes before the other |
| `TemplateGroups.BeforeIsTransitive` | user/cmd/evlgentmpls/evlgentmpls.c:595-615 | The order of calls is transitive, in both versions |
| `TemplateGroups.AddDup` | user/cmd/evlgentmpls/evlgentmpls.c:622-633 | The list gains the call and stays in order |
| `TemplateGroups.PrepareMetaInfo` | user/cmd/evlgentmpls/evlgentmpls.c:741-806 | Exactly one call of every class is no NthDup; in a class of two or more it heads the list of exactly the class, in order; collisions are reported exactly when some class holds different events |
| `TemplateGroups.HeadIsFirst` | user/cmd/evlgentmpls/evlgentmpls.c:741-806 | The call that stands for a class comes before every other of it |
| `TemplateGroups.GroupingIsUnique` | user/cmd/evlgentmpls/evlgentmpls.c:741-806 | There is only one grouping of given calls |
| `TemplateGroups.CollisionWithHead` | user/cmd/evlgentmpls/evlgentmpls.c:564-588 | Comparing with the head of the class alone finds every collision |
| `PrintfRecord.StringCollected` | user/lib/formatrec.c:698-710 | A packed string is collected whole |
| `PrintfRecord.WstringCollected` | user/lib/formatrec.c:719-729 | So is a packed wide string |
| `PrintfRecord.ArgRoundTrip` | user/lib/formatrec.c:766-884 | One argument, scalar, string or array with its delimiter, is collected as it was packed |
| `PrintfRecord.RecordRoundTrip` | user/lib/formatrec.c:897-996 | A packed record formats to the values packed, in the places its format gives them; it is used up and never ends early |
| `PrintfRecord.SizeWordCountsArguments` | user/lib/evl_log_write.c:829-904 | The word behind the format is the number of bytes behind it |
| `PrintfRecord.PackingLosesNothing` | user/lib/evl_log_write.c:797-915 | Two argument lists for the same conversions that pack alike are the same, dimensions and delimiters included |
| `PrintfPacking.MemcpyEx` | user/lib/evl_log_write.c:121-143 | As many bytes are copied as there is room for; the length counts on past the end of the buffer once and then stands still |
| `PrintfPacking.PackString` | user/lib/evl_log_write.c:158-173 | The string and its null are written, or as much as fits with a null in the last byte, and nothing else changes; the length is that of the whole |
| `PrintfPacking.PackWstring` | user/lib/evl_log_write.c:179-185 | The wide string and its null are written as far as they fit, at any length of the record, and nothing else changes |
| `PrintfPacking.PackArray` | user/lib/evl_log_write.c:743-776 | Dimension, delimiter and elements are written as far as they fit, and nothing else changes |
| `PrintfPacking.PackFormatAndArgs` | user/lib/evl_log_write.c:797-915 | A record that fits stands behind what the buffer held, size word patched in; EMSGSIZE is returned exactly for one that does not, which then fills the buffer, all but its last byte as packed; an unknown conversion leaves the length as it was |
| `PrintfChunks.FitsWhole` | user/lib/evl_log_write.c:121-185 | Chunks that fit are put as they are, and the length is the number of bytes |
| `PrintfChunks.CutsShort` | user/lib/evl_log_write.c:121-185 | Chunks that do not fit fill the buffer and raise the length beyond it; only the last byte may differ from theirs, being a null then |
| `PrintfChunks.RecordIsCutShort` | user/lib/evl_log_write.c:797-915 | So it is for format, size word and arguments together |
| `PrintfPacking.RecBuf.CollectBytes` | user/lib/formatrec.c:680-689 | Collects the bytes, or goes to the end when there are too few |
| `PrintfPacking.RecBuf.CollectString` | user/lib/formatrec.c:698-710 | Collects up to the first null, or goes to the end |
| `PrintfPacking.RecBuf.CollectWstring` | user/lib/formatrec.c:719-729 | Collects up to the first wide null, or goes to the end |
| `PrintfPacking.RecBuf.FormatConversion` | user/lib/formatrec.c:766-884 | The values of one conversion are handed on in order, with the delimiter between them, until the record ends |
| `PrintfPacking.FormatPrintfRec` | user/lib/formatrec.c:897-996 | The segments are formatted in order, conversions only while there is data |

## Left out

- Sockets, select loops, fork and exec, signals, daemonising, shared memory and gzip: a log is a byte sequence with a read pointer, and getting a lock is an input.
- I/O errors of the system calls, backup and restore files, and the management messages written around a compaction: only the steps between them are modelled; whether the backup succeeded is an input.
- Layout: the sizes are those of a 64-bit build (header 88, file header 40, size word 4 bytes); the bytes of the record header that the log machinery does not read are kept as one block.
- Wrap-around of record ids and of the generation number at 2^32: the steps that would wrap are not enabled in the protocol, and the lemmas about generations assume two more fit.
- File offsets, clock values, scores and lengths are mathematical integers, except where a value is stored in a word of the log, of a packed record, or as a facility code.
- Stack buffers of the compactor are as long as the record read into them; a record image shorter than a header, which backward seeking may read from bytes that are no log, is completed with zeros.
- EvlView.Viewer.HandleReadOrSeekFailure: sequential; waiting for the end of maintenance and the retry after another change of generation are steps of MaintenanceProtocol instead.
- The --tail, --reverse and --new driving loops of evlview, except the landing of their resync strategy.
- EvlView.Viewer.CopyForward: one undisturbed pass; counting the tail records and leaving the loop to resynchronise are not in it (the latter are steps of MaintenanceProtocol).
- ProtocolSafety.ReaderCopiesWhatWasNotJumped: runs in which a note about dropped events was filed are excluded, as NoteHidesRecord shows they must be; ReaderCopiesFromLandingOn is about all runs.
- ProtocolSafety.ReaderIsComplete: one public log, one compactor and one reader; the private log only takes ids (PrivateEvent). Runs with a filed note about dropped events are excluded, as NoteHidesRecord shows they must be.
- DaemonRestart.RestartResumesAboveExactlyWhen: the kill comes between two events; KilledDuringWriteExactlyWhen is about one between the writes of an event. A write that the kill itself cuts short is not modelled.
- Repair.SingleBadBlockIsCutOut: one bad block; with several, later passes read what earlier moves left behind, and only when they go on for ever and the growth of the valid front are proved.
- Repair.FirstPassCutsOutExactlyWhen: about the first pass; what later ones make of a single block with an overlong record behind it depends on the bytes that the broken-off move leaves (RepairDuplicates, LaterPassSpins, OverlongCanSurvive).
- LogManager.Manager.RepairFile: Spins stands for never returning.
- Query parsing and normalisation, template parsing and population: queries are trees, comparisons with standard attributes and the right-hand sides of the others are uninterpreted, and a template is what its attributes yield before and after population.
- Lists that the C code links by pointers (the optimiser's three lists, the duplicates of a template group) are sequences.
- Duplicate suppression: the record id, time and magic of a record are not part of an event, as they are not compared; the event filter, access checks and backends around it are left out, and so is the secondary buffer beneath the log.
- DupBuffers.LogInfo.DumpDuplicatesBuffer: leaves slots marked in use for elements without a pending count, as the code does; its callers replace the pool or exit.
- The registry's file is a sequence of tokenised lines; re-reading it when it changes, event-filter queries beyond whether they parse, and locking are left out.
- TemplateGroups.PrepareMetaInfo: facility codes and event types are inputs, not computed from names and formats.
- PrintfPacking.PackString: where the length is not yet beyond the buffer, as the code needs to stay inside it; PackArray and PackFormatAndArgs ask the same of their strings.
- PrintfRecord.RecordRoundTrip: parsing of format strings is an arbitrary function that both sides share, the text formatting of a value is not modelled, and %n is left out.
- Kernel symbol lookup, remote forwarding, the threshold window of evlactiond, config-file editing and command lines are not modelled.
