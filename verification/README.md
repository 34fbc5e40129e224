# A verified model of RocksDB's core

This project models, in Dafny, the parts of RocksDB 4.6.1 on which its reads, its compactions and its
clean-up rest, and proves what they promise:

* **Compaction of records** (`Format`, `CompactionFiles`, `CompactionRules`, `CompactionSafety`,
  `CompactionOrder`, `CompactionLean`, `CompactionIterator`, `CompactionJob`, `SubcompactionBounds`,
  `Subcompaction`, `SplitExactness`).
  `CompactionRules` says what becomes of each input record, record by record, as a function of the records
  before it and the one after it. `CompactionIteratorImpl.CompactionIterator` is the iterator of the source,
  with its fields and its loop, proved to write exactly those records. The theorems are about the rules:
  a read of a key at a snapshot or at the tip survives exactly when a stated condition holds, and always when
  the key is used as SingleDelete asks; the output is sorted, zeroed sequence numbers included, and holds no
  tombstone and no version without need; evidence of writes survives; splitting a compaction into ranges keeps
  reads just so, and changes the records written exactly when a second condition holds.
* **The database iterator** (`DBIterSpec`, `DBIter`, `DBIterRuns`). `DBIterImpl.DBIter` is the iterator of
  the source: two directions, saved keys, three ways of merging, reseeks. It is proved to be a cursor
  over the visible map at its sequence number, for any run of calls.
* **Both together** (`Transparency`). No run of iterator calls at a protected snapshot can tell the
  records before a compaction from those after it, whatever was written since, unless a single deletion was
  misused so that a value resurfaces.
* **SuperVersions** (`SuperVersion`, `SuperVersionRuns`). Readers, iterators, exiting threads and an
  installer, interleaved step by step over thread-local slots, reference counts and the mutex.
* **Obsolete files** (`ObsoleteFiles`, `ObsoleteFilesRuns`, `ObsoleteFilesImpl`). Background jobs, flushed
  files that another job commits, versions, scans under the mutex and deletions after it, as a protocol;
  and the lists and counters of the source, proved to take the steps of that protocol.
* **Choosing inputs** (`Universal`, `UniversalPick`, `CompactFiles`, `CompactFilesImpl`, `CompactFilesInputs`,
  `LevelInputs`). Universal picks over every run of flushes, picks and ends of compactions; completing the
  input of CompactFiles to the least complete choice, and the compaction it becomes; growing level inputs to
  a clean cut.
* **Searching files, and keys** (`FileIndexer`, `FilePicker`, `InternalKey`). The bounds that one level's
  search hands to the next, the search through all levels that uses them, and internal keys as bytes.

User keys are integers: the code only compares keys, and any finite set of keys under a total order can be
numbered. `InternalKey` works on bytes with an arbitrary user comparator instead. Sizes and numbers are
unbounded.

## Findings

* A file that a flush has written can be deleted while it is live. A flush that finds an older memtable not
  yet flushed, or a commit under way, ends without installing its file, and gives up its element of
  `pending_outputs_`; another flush commits the file later. If the flush of the older memtable fails and its
  full scan falls between, the file is taken for garbage: `LiveFileIsLost`. This takes two flush threads, and
  `paranoid_checks == false`, since otherwise the failed flush stops the background work.
  `DeletionsAreSafeExactly` says when deletions are safe: exactly when no scan finds such a file below the
  first pending output. `GuardSpares` says that a running job with an element not above the file rules that
  out.
* The flag that a key has been written (`has_outputted_key_`) is raised in `Next`, so not for the first
  record of a run. A range of a split compaction starts a run, and so a single deletion that the unsplit
  compaction drops can be kept: `UnsplitDropsPair` and `SplitRetainsPair`. `SplitRunIsExact` says exactly
  when the outputs agree, `WholeIsTwoRuns` what the difference is, and `SplitReadsArePreserved` that no read of
  a key used as SingleDelete asks notices.
* Without the discipline that SingleDelete asks of its users, reads can change: `OverwriteResurfaces`.
  `ReadsArePreservedExactly` says, for every key, when one does: exactly when the read finds a single deletion
  and a walk from it over the older records of the key, past the records and pairs that the compaction drops,
  ends on a put, or on a value in the deeper data (`Resurfaces`). `SplitReadsArePreservedExactly` says the same
  of split compactions, piece by piece, and `ResurfacedIsSeen` that a seek then tells.
* `CompactFiles` can leave older level-0 files behind that hold keys of the files it takes:
  `RequestLeavesOlder`. `ClosedExactly` says when it does: exactly when a level-0 file that is not chosen is
  older than one asked for and meets the range of the chosen files. A compaction of level style looks at
  deeper levels only before it drops a tombstone; into the last level, that test is wrong about some key
  exactly when such a file is left: `OpenIsMisled`.
* The walk from old to new in `FindValueForCurrentKey` uses what it last stored as the base of a merge when
  the record below the operands is a single deletion; only an assertion guards this. The contract of
  `FindValueForCurrentKey` says what it returns in every case, and `WalkIsRight` that this is what a read
  returns exactly when the newest version is not an operand that rests on a single deletion.
* With a skip limit of 0, the forward scan stands still exactly on a deletion with sequence number 0 of
  the key being skipped: `ScanIsStuck`.
* The comment at db/column_family.cc:790-792 says that a SuperVersion that cannot be put back is obsolete.
  It can be the current one: `ReturnFailsOnCurrent`. `ReturnGoesThrough` says when a SuperVersion can be put
  back.
* An exiting thread never drops the last reference of a SuperVersion, so its branch that takes the
  database mutex while the thread-local mutex is held is never entered: `NotTheLastReference`.
* The comments at db/dbformat.h:149-161 call the key with the largest number the largest of its user key
  and the key with number 0 the smallest. In the order of internal keys it is the other way round:
  `ExtremesOfUserKey`.
* The bounds of `FileIndexer` are right exactly when no two files of the upper level share an end key that
  is also an end key on the lower level: `LowerBoundsExact`, `UpperBoundsExact`. `BoundsAreExact` says what
  this means for one look at a file. A whole search keeps only the bounds of its last look on a level, so ties
  on the right bound cost nothing: `SearchAll` says that the search misses a wanted file exactly when, on some
  level that it looks at, the left bound of the last look is past one (`Misses`), and `PassesExactly` that the
  bound is past a file with the key exactly when two files of the level start at the key, or two end at it
  with another behind them, and a file of the next level ends at it. `TieHidesAFile` is a search that misses
  one.

## Model

| member | source | states |
|---|---|---|
| CompactionIteratorImpl.FindEarliestVisibleSnapshot | db/compaction_iterator.cc:423-438 | the result is the first snapshot that sees the record, or the largest number, and the other result is the snapshot before it |
| CompactionIteratorImpl.CompactionIterator.constructor | db/compaction_iterator.cc:13-52 | a new iterator satisfies the invariant that ties its fields to the rules, with nothing consumed |
| CompactionIteratorImpl.CompactionIterator.LoadRecord | db/compaction_iterator.cc:141-206 | the per-key fields describe the loaded record, and the saved snapshots are equal exactly when a newer record of the key hides it in every view |
| CompactionIteratorImpl.CompactionIterator.StepSingleDeletion | db/compaction_iterator.cc:218-329 | one step over a single deletion gives it, and the record after it, the fates of the rules |
| CompactionIteratorImpl.CompactionIterator.StepPlain | db/compaction_iterator.cc:330-362 | one step over a put or a deletion gives it the fate of the rules |
| CompactionIteratorImpl.CompactionIterator.NextFromInput | db/compaction_iterator.cc:108-403 | the loop stops at the next record that the rules write, in its unprepared form, or at the end of the input, and writes nothing in between |
| CompactionIteratorImpl.CompactionIterator.PrepareOutput | db/compaction_iterator.cc:405-421 | the record on offer is the rewritten record of the rules, sequence number zeroed where they say so |
| CompactionIteratorImpl.CompactionIterator.SeekToFirst | db/compaction_iterator.cc:60-63 | the first record on offer is the first one the rules write |
| CompactionIteratorImpl.CompactionIterator.Next | db/compaction_iterator.cc:65-106 | the next record on offer is the next one the rules write, and the written-key flag agrees with what was written |
| CompactionIteratorImpl.FatesAreUnique | db/compaction_iterator.cc:108-403 | the rules leave no choice: any sequence of fates that follows them is the one they compute |
| CompactionSafety.ReadsArePreservedExactly | db/compaction_iterator.cc:108-403 | at every listed snapshot and at the tip, for every key whatever its history, output over deeper data answers as input over deeper data did if and only if nothing resurfaces: the read finds a single deletion, and past the records and pairs dropped below it, in the order of the input, comes a put that is kept, or a value in the deeper data |
| CompactionSafety.ReadsArePreserved | db/compaction_iterator.cc:108-403 | so every disciplined key reads the same |
| CompactionSafety.DisciplinedStaysDown | db/compaction_iterator.cc:218-329 | of a key with puts and deletions only, or with puts and single deletions in turns, nothing resurfaces |
| CompactionSafety.SingleDeletionStaysDeleted | db/compaction_iterator.cc:218-329 | from a visible single deletion on, with nothing newer written for the reader, an alternating key stays deleted, through dropped pairs, kept pairs with cleared values and dropped lone single deletions |
| CompactionSafety.NewestPutIsKept | db/compaction_iterator.cc:330-362 | the put that a protected read returns is written |
| CompactionSafety.NothingBelowObsolete | db/compaction_iterator.cc:330-362 | below a record not newer than the earliest snapshot every older input record of a put-and-delete key is hidden, and below a tombstone that may be dropped as obsolete no older record of the key is written, whatever its history, so dropping it uncovers nothing |
| CompactionSafety.OverwriteResurfaces | db/compaction_iterator.cc:218-329 | in a legal environment, for every key and values, a put overwritten before a single deletion shows again at the tip after the compaction |
| CompactionOrder.TombstonesAreNotZeroed | db/compaction_iterator.cc:405-421 | no tombstone that is written has its sequence number zeroed |
| CompactionOrder.OutputIsSorted | db/compaction_iterator.cc:405-421 | the output is strictly ordered, zeroed sequence numbers included |
| CompactionOrder.EvidenceOfWritesSurvives | db/compaction_iterator.cc:219-230 | if the newest record of a disciplined key is newer than the write-conflict snapshot, the output has a record of the key with that sequence number |
| CompactionLean.WrittenTombstoneIsNeeded | db/compaction_iterator.cc:343-362 | a tombstone in the output that every snapshot sees is there for a file below the output level whose range has its key; in universal style, for a compaction that is not bottommost |
| CompactionLean.OutputIsLean | db/compaction_iterator.cc:218-362 | two neighbours of one key in the output are told apart by a snapshot, or the older is a single deletion below another kind of record, or they are a single deletion newer than the write-conflict snapshot and a record without its value |
| CompactionLean.OutputIsRenumbered | db/compaction_iterator.cc:405-421 | every output record is an input record with its key and kind; its number is 0 exactly at the bottommost level, below all snapshots and off the last key, and else its own |
| CompactionFiles.GetBoundaryKeys | db/compaction.cc:43-82 | the results are the least and the greatest user key of all input files |
| CompactionFiles.IsBottommostLevel | db/compaction.cc:86-118 | a positive answer means that no older file meets the range of the inputs, and a negative one that an older file does, or is on level 0, or exists at all when the output level is 0 |
| CompactionFiles.NewCompaction | db/compaction.cc:142-195 | the flags stored in a compaction say what they should about its files: bottommost only if no older file meets its range, and not bottommost only if one does, or is on level 0, or exists when the output stays on level 0 |
| CompactionFiles.KeyNotExistsBeyondOutputLevel | db/compaction.cc:263-291 | with cursors behind the key, the answer is that of a scan of all deeper files, and the cursors stay behind the key |
| CompactionFiles.CursorsStayBehind | db/compaction.cc:263-291 | cursors behind a key are behind every later key |
| CompactionFiles.QueryAll | db/compaction.cc:263-291 | for every nondecreasing sequence of keys the remembered cursors give the answers of stateless scans |
| CompactionFiles.NotExistsIsSound | db/compaction.cc:263-291 | a positive answer means that no older file contains the key |
| CompactionFiles.BottommostImpliesNotExists | db/compaction.cc:86-118 | at the bottommost level every key within the boundary keys passes the tombstone test |
| CompactionJob.ProcessKeyValueCompaction | db/compaction_job.cc:598-758 | the records written for a range are the compaction of the records of that range alone |
| CompactionJob.PrefixCompacts | db/compaction_job.cc:640-672 | a prefix that ends between two user keys is compacted as if the rest were not there |
| SubcompactionBounds.GenSubcompactionBoundaries | db/compaction_job.cc:349-458 | boundaries strictly increase, come from file ends and lie strictly within them; there is one size more than boundaries, at most the allowed number, and the sizes add up to the total; with more than one group wanted, the groups are as below |
| SubcompactionBounds.WantedIs | db/compaction_job.cc:424-433 | the number of groups wanted is the least number of output files that hold the total when each is filled to four fifths, or the number of ranges or the number allowed if that is less |
| SubcompactionBounds.GroupHoldsItsShare | db/compaction_job.cc:434-452 | each group but the last runs from one boundary to the next, weighs what its ranges weigh, holds its share of the total, and without its last range holds less, or nothing |
| SubcompactionBounds.LastGroupHoldsTheRest | db/compaction_job.cc:434-457 | the last group weighs the rest, and without its last range holds less than its share, or nothing, unless it is the last one wanted |
| SubcompactionBounds.BoundsReachOut | db/compaction_job.cc:359-391 | the bounds reach from the first key of the input files to the last, and have both ends of every level-0 file and the start of every file on the output level |
| SubcompactionBounds.BoundsAreEnds | db/compaction_job.cc:359-391 | every bound is such an end, or the end of a whole level |
| SubcompactionBounds.SizeIsEstimated | db/compaction_job.cc:404-420 | a range between neighbouring bounds weighs what is estimated between them |
| SubcompactionBounds.GroupRanges | db/compaction_job.cc:434-457 | grouping ranges keeps the total, cuts only between ranges and respects the limit; every group but the last reaches the mean with its last range and not before, and the last one is cut off by the limit or had not reached it |
| SubcompactionBounds.CollectBounds | db/compaction_job.cc:349-402 | the bounds are exactly the file ends that count, each once, in order |
| Subcompaction.PiecesJoinToInput | db/compaction_job.cc:324-328 | the ranges partition the records |
| Subcompaction.PiecesAreCut | db/compaction_job.cc:324-328 | no user key is on both sides of a boundary |
| Subcompaction.RunSubcompactions | db/compaction_job.cc:460-523 | each subcompaction writes the compaction of its piece |
| SplitExactness.WholeIsTwoRuns | db/compaction_iterator.cc:271-327 | a run of records after another one with smaller keys writes what it would write alone, less one pair: exactly when something was written before it and it keeps a single deletion, newer than the write-conflict snapshot, and the record it cancels, with a single record of the key written before them |
| SplitExactness.SplitRunIsExact | db/compaction_job.cc:640-672 | the outputs of the pieces join to the output of the unsplit compaction if and only if no piece, after something was written for an earlier one, has such a pair |
| SplitExactness.SplitWithoutConflicts | db/compaction_job.cc:640-672 | so they do for every input without a single deletion that cancels a record and is newer than the write-conflict snapshot, and always when there is no such snapshot |
| Subcompaction.SplitReadsArePreservedExactly | db/compaction_job.cc:640-672 | the joined outputs read like the input over the deeper data if and only if nothing resurfaces in any piece |
| Subcompaction.SplitReadsArePreserved | db/compaction_job.cc:640-672 | so they do for disciplined keys |
| SplitExactness.UnsplitDropsPair | db/compaction_iterator.cc:281-300 | for every compaction, two keys and values: a legal input from which the unsplit compaction drops a single deletion and its put |
| SplitExactness.SplitRetainsPair | db/compaction_iterator.cc:281-300 | the pieces of that input, cut at the second key, and that the second piece keeps the pair and clears the value |
| DBIterSpec.SeekFindsNewest | db/dbformat.h:45-62 | seeking a key, a number and the seek type lands on the record that a read of the key at that number uses; if there is none, on no record of the key that a read could use |
| DBIterSpec.ReadAtNewest | db/db_iter.cc:646-709 | the record there alone tells whether the key is visible, unless it is a merge operand |
| DBIterSpec.MergedRead | db/db_iter.cc:405-470 | the operands collected from new to old, and the record they end on, give the merged value of a read |
| Format.ReadIs | db/db_iter.cc:405-470 | what a read returns in closed form: the newest version decides, and operands on top are merged, oldest first, over the put below them or over nothing |
| Format.VersionsHave | db/db_iter.cc:328-397 | the versions a read may use are the records of the key up to its number |
| DBIterImpl.DBIter.constructor | db/db_iter.cc:101-124 | a new iterator shows nothing and satisfies the invariant |
| DBIterImpl.DBIter.FindNextUserEntry | db/db_iter.cc:328-397 | the scan shows the least visible key from a bound on, with its value, or finds that there is none; reseeks and steps agree, and the loop ends |
| DBIterImpl.DBIter.MergeValuesNewToOld | db/db_iter.cc:405-470 | the merged value is the value a read of the key returns |
| DBIterImpl.DBIter.FindValueForCurrentKey | db/db_iter.cc:557-642 | for all records: the walk from old to new finds what the walk over all visible versions yields, stale buffer included, and with more versions than the skip limit what a read returns |
| DBIterImpl.DBIter.LookupIsRead | db/db_iter.cc:557-642 | on the records the iterator may be used on, that is the value a read of the key returns, or that there is none |
| DBIterSpec.WalkBaseIsRight | db/db_iter.cc:600-632 | the base that the walk hands to the merge operator is the right one exactly when the operands do not rest on a single deletion |
| DBIterSpec.WalkIsRight | db/db_iter.cc:600-632 | the walk finds what a read finds, under every merge operator, exactly when the newest version is not an operand that rests on a single deletion |
| DBIterImpl.DBIter.FindValueForCurrentKeyUsingSeek | db/db_iter.cc:646-709 | so does the seek to the newest version |
| DBIterImpl.DBIter.FindPrevUserKey | db/db_iter.cc:729-755 | the position ends just before all versions of the saved key, whether it stepped or sought |
| DBIterImpl.DBIter.FindNextUserKey | db/db_iter.cc:715-726 | turning forward ends on the newest version of the saved key |
| DBIterImpl.DBIter.ReverseToBackward | db/db_iter.cc:492-517 | turning backward ends just before all versions of the shown key |
| DBIterImpl.DBIter.PrevInternal | db/db_iter.cc:519-552 | the scan shows the greatest visible key below a bound, or finds that there is none |
| DBIterImpl.DBIter.Next | db/db_iter.cc:274-312 | Next shows the least visible key above the shown one, in either direction of the iterator |
| DBIterImpl.DBIter.Prev | db/db_iter.cc:472-490 | Prev shows the greatest visible key below the shown one |
| DBIterImpl.DBIter.Seek | db/db_iter.cc:768-796 | Seek shows the least visible key from the target on |
| DBIterImpl.DBIter.SeekToFirst | db/db_iter.cc:798-827 | SeekToFirst shows the least visible key |
| DBIterImpl.DBIter.SeekToLast | db/db_iter.cc:829-875 | SeekToLast shows the greatest visible key below the upper bound |
| DBIterRuns.ListBothWays | db/db_iter.cc:274-552 | listing forward gives the visible map in order, and listing backward the reverse |
| DBIterRuns.ListingIsUnique | db/db_iter.cc:274-552 | a view has one listing, whatever iterator produced it |
| DBIterRuns.Replay | db/db_iter.cc:274-875 | any sequence of calls moves the iterator as a plain cursor over the visible map would move |
| DBIterRuns.TraceIsDetermined | db/db_iter.cc:380-395 | what the calls show depends on the view alone, not on the skip limit |
| DBIterRuns.ScanIsStuck | db/db_iter.cc:380-395 | the step with which the forward scan leaves a record of the skipped key makes no progress exactly when the skip limit is 0 and the record is a deletion of that key with number 0 |
| Transparency.SameRecordsSameVersions | db/db_iter.cc:557-709 | the versions of a key depend on the set of records only, however they are layered |
| Transparency.MeaningIsPreserved | db/compaction_iterator.cc:108-403 | the operands of a key and the value they rest on are the same before and after a compaction if and only if nothing of it resurfaces |
| Transparency.MergedReadsArePreserved | db/compaction_iterator.cc:108-403 | under any newer records, operands included, the merged stream after a compaction answers every key of which nothing resurfaces as the one before |
| Transparency.UsableStays | db/db_iter.cc:557-642 | where nothing resurfaces, records that an iterator may be used on before a compaction are such after it |
| Transparency.CompactionIsInvisible | db/db_iter.cc:274-875 | at a protected snapshot at which nothing resurfaces, any calls show the same keys and values before and after a compaction, whatever was written since |
| Transparency.ResurfacedIsSeen | db/db_iter.cc:768-796 | a seek to a key of which something resurfaces shows different things before and after |
| Transparency.ReplayBoth | db/db_iter.cc:274-875 | two iterators given the same calls, one on the records before and one on those after, show the same |
| SuperVersion.StepKeeps | db/column_family.cc:734-840 | every step of readers, returners, exiting threads and the installer keeps the invariant |
| SuperVersion.AcquireKeeps | db/column_family.cc:734-778 | so do the steps of GetThreadLocalSuperVersion |
| SuperVersion.ReleaseKeeps | db/column_family.cc:780-796 | so do those that give a SuperVersion back, pin it for an iterator, drop it or end a thread |
| SuperVersion.InstallKeeps | db/column_family.cc:804-840 | so do those of InstallSuperVersion and the scrape of all slots |
| SuperVersion.ReleaseIsBalanced | db/db_impl.cc:4905-4921 | a reference count changes by as much as the number of holders, and the last one leaves one thread that must clean up |
| SuperVersionRuns.ReferencesAreHolders | db/column_family.cc:281-315 | in every run each count equals the number of holders, and clean-up happens at most once and with no holder left |
| SuperVersionRuns.CleanupIsFinal | db/column_family.cc:293-304 | a SuperVersion that was cleaned up is never held again |
| SuperVersionRuns.QuietIsClean | db/column_family.cc:804-840 | when all threads are idle, every SuperVersion has been cleaned up exactly once except the current one and those pinned by iterators |
| SuperVersionRuns.CachedIsCurrent | db/column_family.cc:734-778 | outside an installation every cached SuperVersion is the current one; during one, exactly what each slot may hold |
| SuperVersionRuns.SlotsAreExclusive | db/column_family.cc:748-796 | taking a slot never finds it in use, and a return that fails finds it obsolete |
| SuperVersionRuns.ReturnedIsCurrent | db/column_family.cc:780-796 | a slot still in use leads to the current SuperVersion, and a SuperVersion is current exactly when it has the current number |
| SuperVersionRuns.ReturnGoesThrough | db/column_family.cc:780-796 | a reader can put its SuperVersion back exactly when no installation has scraped its slot since it took it |
| SuperVersionRuns.ReturnedIsCached | db/column_family.cc:780-796 | then what it gives back stands in its slot and the thread is done, with no count touched; an iterator's second reference stays with the iterator |
| SuperVersionRuns.ReturnedIsUsedAgain | db/column_family.cc:734-796 | in every run, if the slot is not scraped from one read to the next, the next one finds what the last gave back and uses it at once, without mutex or count, exactly unless an installation has counted up |
| SuperVersionRuns.MissTakesCurrent | db/column_family.cc:760-772 | a reader that must take the mutex gets the current SuperVersion and one reference to it |
| SuperVersionRuns.ExitReleases | db/column_family.cc:318-330 | an exiting thread gives up the reference its slot holds, and nothing else |
| SuperVersionRuns.ReturnFailsOnCurrent | db/column_family.cc:787-795 | a run in which a reader cannot put back the current SuperVersion |
| SuperVersionRuns.ReaderIsUpToDate | db/column_family.cc:748-772 | a reader gets a SuperVersion no older than the one current when it took its slot |
| SuperVersionRuns.NotTheLastReference | db/column_family.cc:318-330 | neither an exiting thread nor GetReferencedSuperVersion drops a last reference |
| SuperVersionRuns.NoDeadlock | db/column_family.cc:734-840 | a thread in the middle of an operation can take a step, or the owner of the mutex can |
| ObsoleteFiles.StepKeeps | db/db_impl.cc:535-655 | every step of jobs, waiting files, versions, scans and deletions keeps the invariant: sorted pending outputs, and no doomed file that a running job owns |
| ObsoleteFiles.StepSpares | db/db_impl.cc:744-749 | a needed file stays on disk and out of every purge in any step that is not a scan finding it waiting and below the first pending output |
| ObsoleteFiles.CondemnedIsNotKept | db/db_impl.cc:560-571 | after such a scan its deletion is enabled while it is needed |
| ObsoleteFiles.JobFilesAreNotBelow | db/db_impl.cc:560-571 | no file of a running job is below the first pending output |
| ObsoleteFiles.HandedOutIsDoomed | db/version_set.cc:3392-3406 | a file taken from the obsolete list is never kept by the purge |
| ObsoleteFiles.TrackKept | db/db_impl.cc:573-577 | garbage that no list leads to arises only from a job that ends without installing or completing a file it wrote, or from a commit that fails |
| ObsoleteFiles.FullScanTracks | db/db_impl.cc:586-600 | a full scan finds all garbage below the first pending output |
| ObsoleteFilesRuns.NeededFilesStay | db/db_impl.cc:744-749 | in every run all files written by running jobs are on disk, and so are live files and files that wait for their commit, unless a scan condemned them |
| ObsoleteFilesRuns.DeletionsAreSafe | db/db_impl.cc:744-749 | no deletion hits a file that a running job owns, nor, unless a scan condemned it, one that is live or waits |
| ObsoleteFilesRuns.DeletionsAreSafeExactly | db/db_impl.cc:560-571 | in every run, a needed file can be deleted at some point if and only if some scan found it waiting for its commit and below the first pending output |
| ObsoleteFilesRuns.GuardSpares | db/db_impl.cc:5000-5014 | as long as a job runs whose element is not above a file, no scan condemns the file |
| ObsoleteFilesRuns.CondemnedCanBeLost | db/memtable_list.cc:298-320 | every run that ends in such a scan goes on to one that commits the file and deletes it while it is live |
| ObsoleteFilesRuns.LiveFileIsLost | db/db_impl.cc:2671-2702 | from every initial state: a flush of a younger memtable ends uncommitted, that of the older one fails and scans, a retry commits the younger file, and the purge deletes it |
| ObsoleteFilesRuns.PendingIsSorted | db/db_impl.cc:5000-5014 | pending_outputs_ stays sorted and never exceeds the next file number |
| ObsoleteFilesRuns.NothingElseIsLost | db/db_impl.cc:573-577 | garbage that no list leads to was abandoned by a job or by a failed commit, and no full scan has passed it since |
| ObsoleteFilesRuns.ScanCollects | db/db_impl.cc:674-790 | when the purge after a scan has ended, every candidate that was garbage and below the first pending output is gone for good |
| ObsoleteFilesRuns.NewVersionIs | db/version_builder.cc:236-346 | a new version has exactly the files of the last one that the edit does not remove, and those it adds, which no version had |
| ObsoleteFilesRuns.RemovedStaysOut | db/version_builder.cc:236-346 | in every run, a file that an edit removes is in no version made from then on, only in older ones that were not dropped |
| ObsoleteFilesRuns.DroppedIsCollected | db/version_set.cc:309-331 | in every run, a file that was live and is in no version is on the obsolete list, in a purge, or gone for good |
| ObsoleteFilesRuns.RemovedIsDeleted | db/db_impl.cc:535-790 | when the versions that have a removed file are dropped, a scan follows with the file below the first pending output, and that purge and those under way end, the file is gone for good |
| ObsoleteFilesRuns.WaitsUntilCommitted | db/memtable_list.cc:298-320 | a flushed file waits from its completion until an edit adds it or its commit fails |
| ObsoleteFilesRuns.NumberIsFresh | db/version_set.h:637 | a number is given to one table file only, and no file had it before |
| ObsoleteFilesRuns.OtherNumberIsNoTable | db/version_set.h:637 | a number given to another kind of file is never that of a table file |
| ObsoleteFilesImpl.PurgeObsoleteFiles | db/db_impl.cc:674-790 | the table files deleted, each once, are exactly the candidates that are neither live nor at or above the first pending output |
| ObsoleteFilesImpl.DBFiles.CaptureCurrentFileNumberInPendingOutputs | db/db_impl.cc:5001-5009 | the new element takes the step that starts a job, and keeps the list sorted |
| ObsoleteFilesImpl.DBFiles.ReleaseFileNumberFromPendingOutputs | db/db_impl.cc:5011-5014 | erasing the job's element takes the step that ends the job |
| ObsoleteFilesImpl.DBFiles.AppendVersion | db/version_set.cc:2067-2093 | a new version, with files of the job or files that wait for their commit, takes the install step, and every file has one reference from each version that contains it |
| ObsoleteFilesImpl.DBFiles.DestroyVersion | db/version_set.cc:309-331 | dropping a version makes obsolete exactly its files that no other version has |
| ObsoleteFilesImpl.DBFiles.GetObsoleteFiles | db/version_set.cc:3392-3406 | files below the bound are handed out and removed, the others stay |
| ObsoleteFilesImpl.DBFiles.AddLiveFiles | db/version_set.cc:3207-3241 | the result is the set of files of all versions |
| ObsoleteFilesImpl.DBFiles.FindObsoleteFiles | db/db_impl.cc:535-600 | the snapshot taken is the scan step of the protocol |
| Universal.StepKeeps | db/compaction_picker.cc:1461-1770 | flushes, picks, and compactions that finish, come out empty or fail keep the invariant |
| Universal.PickKeeps | db/compaction_picker.cc:1602-1609 | a pick of free neighbouring runs with its output level keeps order, contiguity and levels, other running compactions included |
| Universal.OutputGoesDeep | db/compaction_picker.cc:1602-1609 | the output level is the deepest that may stand before the next older run, and the last level if there is none |
| Universal.PlaceIsSplice | db/compaction_picker.cc:1198-1236 | the output of a finished compaction stands, in the order of levels, exactly where its inputs stood |
| UniversalPick.CalculateSortedRuns | db/compaction_picker.cc:1198-1236 | one run for each level-0 file, and one for each deeper level with weight, in order, with its totals and its compaction flag |
| UniversalPick.SortedRunIs | db/compaction_picker.cc:1198-1236 | each run has the sizes of its file, or the sums over its level, and is being compacted exactly when its file, or one file of its level, is |
| UniversalPick.SortedRunsAreUnique | db/compaction_picker.cc:1198-1236 | the files of a version determine its sorted runs |
| UniversalPick.PickReadAmp | db/compaction_picker.cc:1461-1573 | the pick is the first window that is wide enough, as wide as the stopping rule allows, or there is none |
| UniversalPick.TotalSizeJoins | db/compaction_picker.cc:1517-1550 | in total-size style a run up to the end of the window is in it if and only if it is free and its size, up to the ratio, is no more than all runs of the window before it together |
| UniversalPick.SimilarSizeJoins | db/compaction_picker.cc:1517-1550 | in similar-size style if and only if it is free and it and the run before it are no larger than each other, up to the ratio |
| UniversalPick.WidthIsBounded | db/compaction_picker.cc:1510-1550 | a window has free runs only, at least one, and no more than allowed |
| UniversalPick.PickSizeAmp | db/compaction_picker.cc:1652-1730 | the pick starts at the only run that can start it, and is made exactly when the sizes call for it |
| UniversalPick.LastRunIsFree | db/compaction_picker.cc:1692-1706 | the last run, which the size-amplification pick does not look at, is not being compacted |
| UniversalPick.PickCompaction | db/compaction_picker.cc:1311-1365 | from the files of a version: size amplification goes first, then the size ratio, then the plain number of runs, each with its own exact condition; whatever is picked is a block of at least two free neighbouring runs, and nothing is picked exactly when there are fewer runs than the trigger or all three find nothing |
| UniversalPick.AmplificationIsPicked | db/compaction_picker.cc:1652-1730 | if the free runs before the last weigh enough against it, everything from the first free run on is picked |
| UniversalPick.RatioIsPicked | db/compaction_picker.cc:1311-1365 | any other pick is the first window wide enough under the size ratio, or, if there is none, under no ratio and no wider than what brings the number of runs to the trigger |
| UniversalPick.NothingIsPicked | db/compaction_picker.cc:1311-1365 | from the trigger on, nothing is picked only if no run starts a window wide enough in either way |
| UniversalPick.RunsStayInOrder | db/compaction_picker.cc:1602-1609 | in every run, sorted runs from newest to oldest do not overlap in age and lie on increasing levels |
| UniversalPick.BlocksAreIntervals | db/compaction_picker.cc:1487-1573 | in every run, running compactions have disjoint contiguous blocks of at least two runs |
| UniversalPick.PickReserves | db/compaction_picker.cc:1602-1609 | in every run, a pick reserves exactly its runs, all free, for an output on the deepest level that is possible |
| UniversalPick.FlushIsNewest | db/compaction_picker.cc:1198-1236 | in every run, a flush adds one run on level 0, newer than all others |
| UniversalPick.EmptyTakesAway | db/compaction_picker.cc:1602-1609 | in every run, a compaction without output takes exactly its inputs away |
| UniversalPick.FailGivesBack | db/compaction_picker.cc:1602-1609 | in every run, one that fails gives exactly its inputs back |
| UniversalPick.OutputTakesThePlace | db/compaction_picker.cc:1602-1609 | in every run, a finished compaction's output replaces its inputs in place, on a level no other run uses, and spans their ages |
| CompactFilesImpl.SanitizeForAllLevels | db/compaction_picker.cc:658-793 | on success the choice is the least complete one that extends the request, with no file being compacted; on failure every complete choice needs a file that is |
| CompactFilesImpl.SanitizeCompactionInputFiles | db/compaction_picker.cc:795-863 | which arguments are invalid, when the request is aborted, and that an accepted choice has existing, free files only |
| CompactFilesImpl.SanitizedOnce | db/compaction_picker.cc:658-793 | a second pass over an accepted choice adds nothing and does not give up |
| CompactFilesImpl.SanitizedIsDetermined | db/compaction_picker.cc:658-793 | the outcome depends on the request alone |
| CompactFilesImpl.ChosenIsClosed | db/compaction_picker.cc:682-788 | an accepted choice has every file, on each level down to the output level, that meets a range between chosen files not below it, and every level-0 file between two chosen ones |
| CompactFilesImpl.AddedIsSpanned | db/compaction_picker.cc:682-788 | and no more: every file that was not asked for is spanned by others of the choice |
| CompactFilesImpl.MeetingIsInside | db/compaction_picker.cc:767-788 | files of the current level that meet the widened range lie within it, so the range needs no second widening |
| CompactFilesInputs.GetInputs | db/compaction_picker.cc:285-333 | one input for each level from the first to the last with a chosen file, with exactly its chosen files in order; none exactly when there is no file or one does not exist |
| CompactFilesInputs.TakenOnZero | db/compaction_picker.cc:666-743 | completion takes a level-0 file only between two that were asked for |
| CompactFilesInputs.InputsAreWellFormed | db/compaction_picker.cc:285-333 | the inputs are such as a compaction is formed of |
| CompactFilesInputs.ClosedExactly | db/compaction_picker.cc:663-667 | the compaction of a completed choice has no older level-0 file behind its input that shares a key with its range if and only if no level-0 file that is not chosen is older than one asked for and meets the range of the chosen files |
| CompactFilesInputs.OpenIsMisled | db/compaction.cc:263-291 | a level-style compaction into the last level is closed on level 0 if and only if the test for dropping tombstones passes on no key that an older file may hold |
| CompactFilesInputs.CompactionOf | db/db_impl.cc:1787-1818 | the compaction formed of a request, closed on level 0 under just that condition, and what a refusal means |
| CompactFilesInputs.RequestLeavesOlder | db/compaction_picker.cc:663-667 | for every two level-0 files with a common key: a request for the newer one is complete, leaves the older one behind, and lets a tombstone be dropped over it |
| CompactFilesImpl.Stretch | db/compaction_picker.cc:704-723 | the range of chosen files grows, file by file that shares a key, to a clean cut |
| CompactFiles.HaveOverlappingKeyRanges | db/compaction_picker.cc:633-655 | the four comparisons decide whether two ranges meet |
| LevelInputs.GetRange | db/compaction_picker.cc:153-179 | the results are the ends of the range that the inputs cover |
| LevelInputs.OverlapBelowZero | db/version_set.cc:1598-1699 | binary search and extension find exactly the files of a sorted level that meet a range |
| LevelInputs.OverlapOnZero | db/version_set.cc:1560-1592 | on level 0 the search ends with the files that meet the least range that covers the question and that no file sticks out of |
| LevelInputs.ClosureIsUnique | db/version_set.cc:1560-1592 | there is one such range and one such choice of files |
| LevelInputs.ExpandWhileOverlapping | db/compaction_picker.cc:200-242 | the loop ends at a clean cut, having added only files that share a key with one already chosen, and refuses exactly when one of them is being compacted |
| LevelInputs.HasOverlappingUserKey | db/version_set.cc:1705-1750 | the test fails exactly when the inputs share a key with the file just outside |
| LevelInputs.SetupOtherInputs | db/compaction_picker.cc:360-439 | the output-level files are all that meet the range of the inputs, before and after these grow; the inputs grow exactly when the grown ones are more, free, within the limit and meet no further output-level file, and then share no key with a file left out |
| LevelInputs.GrowthIsUnique | db/compaction_picker.cc:376-436 | whether the inputs grow, and to what, is determined by the files and the limit, on level 0 as well |
| LevelInputs.GrownMeans | db/compaction_picker.cc:376-436 | the candidates may become the inputs if and only if they are more, stay below the limit with the outputs, are free, and below level 0 share no key with the files next to them |
| LevelInputs.RangeDecides | db/compaction_picker.cc:400-424 | and they do if moreover their range meets the outputs found and no other file |
| LevelInputs.GrowthIs | db/compaction_picker.cc:376-436 | the inputs become the candidates under just these two conditions, and else stay |
| FileIndexing.CalculateLB | db/file_indexer.cc:138-174 | the loop computes the merge of the two lists of keys |
| FileIndexing.CalculateRB | db/file_indexer.cc:176-211 | the same from the right |
| FileIndexing.LowerBoundsExact | db/file_indexer.cc:138-174 | the merge finds the first lower key not below each upper key exactly when there is no tie |
| FileIndexing.UpperBoundsExact | db/file_indexer.cc:176-211 | the merge from the right finds the last lower key not above each upper key exactly when there is no tie |
| FileIndexing.FileIndexer.UpdateIndex | db/file_indexer.cc:74-136 | the index holds the four merges for every file of every level |
| FileIndexing.UnitIsRight | db/file_indexer.cc:74-136 | every bound they give is the one its comment promises, except that equal keys of the upper level use up equal keys of the lower level |
| FileIndexing.BoundsAreExact | db/file_indexer.cc:29-72 | for one look and every outcome of its comparisons, neither bound leaves out a file that contains the key if and only if the key is not an end that neighbouring upper files share and a lower file has, nor before the end of the file in front; then they meet, and pass only files that end at or before the key |
| FileIndexing.BoundsAreTight | db/file_indexer.cc:29-72 | every file within the bounds reaches into the keys that the comparisons leave open, so none of them can be left out |
| FileIndexing.NoTiesHideNothing | db/file_indexer.cc:29-72 | levels without ties hide nothing from a search that stops where it should |
| FileIndexing.FileIndexer.GetNextLevelIndex | db/file_indexer.cc:29-72 | the method hands out those bounds |
| FilePicking.FindFileInRange | db/version_set.cc:58-77 | the binary search finds the first file that does not end before the internal key, or the last of the range |
| FilePicking.SkipLevels | db/version_set.cc:241-299 | from bounds that have all wanted files, levels that are skipped hold no wanted file and the bounds still do |
| FilePicking.FilePicker.PrepareNextLevel | db/version_set.cc:241-299 | the search goes on at a file before which nothing wanted was passed, unless a file was missed, which then lies behind |
| FilePicking.FilePicker.GetNextFile | db/version_set.cc:120-205 | each call moves forward and, as long as no file was missed, returns the next wanted file, or one whose key range has the key but ends before the internal key, and ends only when no wanted file is left; a missed file stays behind |
| FilePicking.SearchAll | db/version_set.cc:120-205 | for every lookup, the search visits every wanted file of all levels, in their order, if and only if on no level the left bound of the last look is past a wanted file of the next; where one is missed it is named; with more than one level or more than three files it visits no file without the key, and else every file |
| FilePicking.PassesExactly | db/file_indexer.cc:29-72 | on a level with a file that ends at the key, that bound is past a file with the key exactly when two files of the level start at the key, or two end at it with a third behind, and a file of the next level ends at it |
| FilePicking.NoTiesMissNothing | db/version_set.cc:120-205 | a search over levels without ties misses nothing |
| FilePicking.DisjointMissesNothing | db/version_set.cc:120-205 | nor does one over levels whose files share no key |
| FilePicking.TieHidesAFile | db/file_indexer.cc:138-174 | for every key, ends and number of the read: a lookup with three files that share a key whose search misses the lower file that ends there |
| FilePicking.WantedBelowHas | db/version_set.cc:85-205 | the wanted files are exactly those whose range has the key and that do not end before the internal key |
| InternalKeys.ParseOfEncode | db/dbformat.cc:23-40 | parsing undoes encoding |
| InternalKeys.EncodeOfParse | db/dbformat.h:192-203 | whatever parses is the encoding of the result |
| InternalKeys.EncodedIsStored | db/dbformat.cc:22-39 | the stored form byte by byte: the user key, the type, and the number in seven bytes, least first |
| InternalKeys.ParsesExactly | db/dbformat.h:55-57 | exactly the keys of eight bytes or more parse whose type byte is 0, 1, 2 or 7, the types of the records of this model |
| InternalKeys.KindIsStored | db/dbformat.h:32-43 | every kind of record has its own type byte, 0 for a deletion, 1 for a put, 2 for a merge operand and 7 for a single deletion, and a key that tells it |
| InternalKeys.NumbersFillSevenBytes | db/dbformat.h:59-62 | the numbers are exactly those of seven bytes |
| InternalKeys.ParseOfUpdate | db/dbformat.h:205-216 | updating number and type in place changes nothing else |
| InternalKeys.ComparatorsAgree | db/dbformat.cc:68-107 | comparing encoded keys and comparing parsed keys give the same answer |
| InternalKeys.ParsedIsTotalOrder | db/dbformat.cc:87-107 | internal keys are totally ordered, and equal only in all three parts |
| InternalKeys.RecordsFollowKeys | db/dbformat.cc:68-107 | the order of records in a run is that of their stored keys |
| InternalKeys.ExtremesOfUserKey | db/dbformat.h:149-161 | the key with the largest number comes first among those of its user key, the one with number 0 last |
| InternalKeys.SeparatorIsBetween | db/dbformat.cc:109-126 | a user key between two others, with the largest number, separates their internal keys |

## Left out

- Merge operands inside a compaction, compaction filters and corrupted keys: that logic is in other files or in user code; the iterator over them (db/db_iter.cc) does merge.
- Prefix bounds, pinned data and tailing iterators, a missing merge operator and statuses of the database iterator.
- Cutting output files (ShouldStopBefore), statistics, rate limits and shutdown in the compaction job.
- Floating-point rounding: ratios and mean sizes are exact, and compared without dividing.
- Wrap-around of 32- and 64-bit sizes and numbers.
- Sorting and removing duplicates of boundaries and purge candidates are modelled by insertion into a sorted list.
- Log, manifest, temporary and options files, write-ahead logs and recovery in the collection of files; deletions that the file system refuses.
- More than one column family in `ObsoleteFiles` and `SuperVersion`, whose states are those of one.
- Dropping a column family and closing the database; the memory order of atomics, which are taken as sequentially consistent.
- Paths, compression and trivial moves in universal picks; level-style and FIFO picks other than the inputs they set up.
- ScreeDB, the memtable, the write path, table formats and options.
- CompactFilesImpl.SanitizeCompactionInputFiles: files are known by level and place instead of by name and number.
- LevelInputs.SetupOtherInputs: files on one level are compared by user keys only, as the functions it calls do.
- LevelInputs.HasOverlappingUserKey: the binary search for the place of the first and last input is replaced by the place itself.
- The order in which memtables are committed, which decides which flush commits a waiting file (db/memtable_list.cc).
- Universal.StepKeeps: the age of a run is a logical clock, because sequence numbers can be zeroed at the bottommost level.
