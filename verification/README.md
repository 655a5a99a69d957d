# Verification of HatP's transaction, storage, durability and key logic

HatP is an embedded multi-version store with a log-structured storage engine. This project models
its hand-written core in Dafny and proves what the core promises, over whole runs and for every
input:

- **Transactions** (`TxManager`, `Serializability`, `Isolation`, `Transaction`): the serializable snapshot
  isolation manager as an object, and the theorem that every interleaving of its protocol is a serial
  execution in commit order. Who commits and who is refused is stated by what overlapping transactions
  did, and how a transaction ends is final. Collecting the commit history never changes a verdict.
- **Storage** (`Version`, `Memtable`, `Compaction`, `Lsm`, `Reads`, `Lookup`, `Witnesses`, `Bloom`,
  `KeyIndex`, `RowCounts`, `Nodes`, `Chunks`, `Engine`): version chains, memtable, flush, garbage
  collection, compaction, pins and recovery refine one thing, the history of committed versions. Range
  scans return what that history holds. Point lookups do so exactly under a stated condition on hot-key
  cache, key indexes and early exit, and runs that break it are given. In every run manifest, filters,
  key indexes and row counts agree with the files.
- **Durability** (`Crc32c`, `CrcPolynomial`, `LittleEndian`, `Wal`, `Recovery`, `Durability`, `Manifest`,
  `VersionSet`, `ManifestLog`, `ManifestDamage`): the byte formats, their round trips, the checksum as a
  polynomial remainder, error detection, what a cut or damaged log still delivers, crash atomicity, a
  cut of the bytes as a crash of the store, and agreement of the manifest with memory.
- **Group commit** (`GroupCommit`): the in-place batch partition and the queue protocol, for every
  interleaving of writers: who is told what, and that the verdict of the hook decides what is logged.
- **Keys** (`Codec`): primary keys are an order embedding of rows.

`Bytes`, `Sets`, `Sequences` and `KeyOrder` hold shared definitions. Code that updates things in place is
modelled by classes and loops that are proved against specification functions; the theorems are about
those functions and about state machines built from them.

`dafny verify dfyconfig.toml` checks the project.

## Where the code and its documentation differ

The model follows the code; each difference is a lemma.

- A log key or value of exactly 0xFFFF_FFFF bytes is not rejected although the comment on the marker
  says so, and does not round-trip (`Wal.FrameRoundTrip`, `Wal.MarkerCollision`).
- A log file of one to three bytes is refused rather than treated as a torn tail
  (`Recovery.RecoverableIff`).
- A read at the largest timestamp sees nothing (`Version.ReadAfterRun`).
- A NaN with the sign bit set sorts before minus infinity, not last (`Codec.NanLastIff`).
- A log id that still has orphaned frames is accepted from a caller that chooses ids itself, and then
  mixes with them; ids handed out by the engine never do (`Recovery.DeliveredAloneIff`,
  `Recovery.ReusedIdMixes`, `Recovery.CrashAtomicity`).
- Key-index offsets are truncated to 32 bits, and a key with several versions returns the newest only
  where the search happens to land on it (`KeyIndexes.FromRows`, `KeyIndexes.NewestReturnedIff`,
  `KeyIndexes.DuplicateReturnsOlder`).
- A key index decides alone about its file. When it lands on a version that is not visible, the lookup
  does not see the others, so that two flushed versions of a key can make it return nothing
  (`Lookup.Find`, `Lookup.AnswersIff`, `Witnesses.IndexHidesNewest`).
- The comment on the hot-key cache calls a stale entry harmless. It is not: a newer version flushed to
  another file is not seen (`Lookup.Find`, `Witnesses.HotEntryHidesNewest`).
- Point lookup leaves out files above level 0 behind the first one that has the key. That no other
  can hold a different version, as the comment there says, is false after a sub-compaction in several
  chunks (`Lookup.Find`, `Witnesses.SubCompactionHidesNewest`).
- A log that loses batches which the files hold is replayed on top of them and can bring old values back
  (`Lsm.CrashLatestIff`, `Lsm.LostBatchBringsBackOldValue`).
- Two tables whose names differ can share keys when one name contains a zero byte
  (`Codec.TablesShareIff`, `Codec.NulInNameCollides`).
- A writer that led a group and was itself rejected is handed the log error of the others
  (`GroupCommit.LeaderReturns`).
- A manifest whose log was replaced by a snapshot replays to memory only if memory is consistent
  (`ManifestLog.ManifestFile.AppendBatch`, `Manifest.SnapshotReplayIff`, `Manifest.DoubleAddLosesMeta`).

## Model

| member | source | states |
|---|---|---|
| `TxManager.CheckConflict` | crates/hatp-tx/src/manager.rs:558-597 | passes exactly when the entry is not a conflict (committed after the start and hitting the write set, the read set or a read range); the error names a key of the right kind, write-write before read-write |
| `TxManager.CheckEntries` | crates/hatp-tx/src/manager.rs:370-396 | passes exactly when no entry of the history conflicts |
| `TxManager.ValidateCahill` | crates/hatp-tx/src/manager.rs:476-536 | terminates and fails if and only if the active read-write antidependency graph has a cycle, of any length, through the transaction |
| `TxManager.UnregisteredNeverOnCycle` | crates/hatp-tx/src/manager.rs:476-536 | a transaction missing from the context map is never rejected by the cycle check |
| `TxManager.OnCycleIff` | crates/hatp-tx/src/manager.rs:476-551 | being on a cycle means that a chain of active transactions, each of which read by key or by range what the one before wrote, leads back to the transaction |
| `TxManager.CollectOutgoing` | crates/hatp-tx/src/manager.rs:540-551 | exactly the peers whose point or range reads a write set hits |
| `TxManager.PopFrontIsFilter` | crates/hatp-tx/src/manager.rs:205-214 | popping the front of a history in commit order is filtering it by commit timestamp above the watermark |
| `TxManager.TxManager.BeginSsiWithId` | crates/hatp-tx/src/manager.rs:293-298 | new whole state: an active transaction with empty read set, write set and ranges |
| `TxManager.TxManager.RecordRead` | crates/hatp-tx/src/manager.rs:117-119 | new whole state: the key joins the read set of an existing context; an unknown id changes nothing and errs |
| `TxManager.TxManager.RecordWrite` | crates/hatp-tx/src/manager.rs:122-124 | new whole state: the key joins the write set of an existing context; an unknown id changes nothing and errs |
| `TxManager.TxManager.AddReadConflictRange` | crates/hatp-tx/src/manager.rs:129-131 | new whole state: the range joins the read ranges; an unknown id changes nothing and errs |
| `TxManager.TxManager.ValidateSsi` | crates/hatp-tx/src/manager.rs:370-396 | passes if and only if no ring entry and no staged entry conflicts and the transaction is on no cycle of active antidependencies, whatever the state of the manager |
| `TxManager.TxManager.RecordWriteAndValidate` | crates/hatp-tx/src/manager.rs:403-452 | the final write set is recorded, and judged as by ValidateSsi; a rejection leaves the transaction aborted and without context, and changes nothing else |
| `TxManager.TxManager.StageCommit` | crates/hatp-tx/src/manager.rs:614-626 | new whole state: one provisional entry with the write set and the timestamp |
| `TxManager.TxManager.DiscardStaged` | crates/hatp-tx/src/manager.rs:631-633 | new whole state: no provisional entries, nothing else changed |
| `TxManager.TxManager.GarbageCollect` | crates/hatp-tx/src/manager.rs:205-214 | the ring keeps what popping up to the watermark leaves, and the number dropped is returned |
| `TxManager.TxManager.Watermark` | crates/hatp-tx/src/manager.rs:660-676 | the smallest start timestamp among the active contexts |
| `TxManager.TxManager.CommitAt` | crates/hatp-tx/src/manager.rs:639-680 | new whole state of every case: unknown, terminal, with and without an SSI context; the ring is collected against the remaining readers |
| `TxManager.TxManager.Abort` | crates/hatp-tx/src/manager.rs:683-706 | new whole state of every case: an active transaction becomes aborted and loses its context; any other is refused and nothing changes |
| `TxManager.EndIsFinal` | crates/hatp-tx/src/manager.rs:639-706 | an abort, a rejecting validation and a commit are final: after any calls that do not begin the id again, in any manager state, a commit or abort of it is refused with the state it ended in, a validation of an aborted one too, and nothing changes |
| `Serializability.Serializable` | crates/hatp-tx/src/manager.rs:370-452 | in every interleaving of begins, reads, scans, writes, commits, staged groups, discards and aborts, running the committed transactions one at a time in commit order returns every point read and every scan they recorded: no lost update, write skew or phantom |
| `Serializability.LegalAtCommit` | crates/hatp-tx/src/manager.rs:403-452 | a transaction that validates sees, just before its own timestamp, the same contents of every key and range it read as at its start |
| `Serializability.LegalTransfer` | crates/hatp/src/embedded.rs:513-591 | what a transaction sees depends only on the keys it read from its snapshot and the ranges it scanned |
| `Serializability.BoundedHistoryDecidesLikeFullHistory` | crates/hatp-tx/src/manager.rs:660-676 | in every reachable state the collected ring and the provisional list give any active transaction, with any read and write set, the same verdict as the full history of all commits and the pending group |
| `Serializability.VerdictEquivalence` | crates/hatp-tx/src/manager.rs:370-396 | the same equivalence from the invariant, including entries that linger after promotion |
| `Serializability.StagedHeadCanBePromoted` | crates/hatp-tx/src/manager.rs:614-626 | the head of a staged group can always be promoted, at the timestamp it was staged with |
| `Serializability.StepInv` | crates/hatp-tx/src/manager.rs:403-452 | every step keeps the invariant that ties contexts, ring, staging and committed history together |
| `Isolation.CommitDecided` | crates/hatp-tx/src/manager.rs:403-452 | in every reachable state a commit succeeds if and only if no transaction committed since the start, and none staged, wrote what it wrote, read or scanned, and it is on no cycle; otherwise it is aborted and the committed history is unchanged |
| `Isolation.StageDecided` | crates/hatp-tx/src/manager.rs:614-626 | staging for a group is decided in the same way, and commits nothing itself |
| `Isolation.FirstCommitterWins` | crates/hatp-tx/src/manager.rs:370-396 | in every run, of two committed transactions that overlap the later wrote, read and scanned nothing that the earlier wrote, and no transaction commits twice |
| `Isolation.RingIsNeeded` | crates/hatp-tx/src/manager.rs:660-676 | in every run, a commit leaves in the history ring exactly the commits that some active transaction overlaps |
| `Isolation.EndsForGood` | crates/hatp-tx/src/manager.rs:639-706 | in every run, what was committed or aborted stays so |
| `Transactions.Transaction.Put` | crates/hatp/src/embedded.rs:489-496 | the buffer maps the key to the value from then on; under SSI the key also joins the write set of the transaction at the manager, unless the manager does not know it |
| `Transactions.Transaction.Delete` | crates/hatp/src/embedded.rs:499-503 | the buffer maps the key to a deletion from then on, recorded at the manager like a put |
| `Transactions.Transaction.Get` | crates/hatp/src/embedded.rs:513-539 | the backwards walk returns the last buffered write of the key, else the snapshot value; only a read that reaches the snapshot is recorded at the manager |
| `Transactions.Transaction.ScanRange` | crates/hatp/src/embedded.rs:550-591 | folding the buffer into the snapshot scan gives, in ascending key order, exactly the rows of the range as the transaction sees them; the range is recorded at the manager |
| `Version.InsertedChain` | crates/hatp-engine/src/version.rs:110-159 | insertion, in order, out of order or at an existing timestamp, keeps begins strictly descending and intervals contiguous, and adds exactly that write |
| `Version.CollectedChain` | crates/hatp-engine/src/version.rs:191-204 | collection keeps a chain, drops only versions hidden by a newer one at or below the watermark, and invents nothing |
| `Version.CollectedExactly` | crates/hatp-engine/src/version.rs:191-204 | collection drops exactly the versions that a newer one at or below the watermark hides: at most one at or below the watermark is left |
| `Version.VisibleIsNewest` | crates/hatp-engine/src/version.rs:48-50 | the version a snapshot sees is the newest one at or below it |
| `Version.ChainShape` | crates/hatp-engine/src/version.rs:110-159 | every version ends where its newer neighbour begins |
| `Version.ChainUnique` | crates/hatp-engine/src/version.rs:110-159 | two chains with the same contents are the same chain |
| `Version.RunRefines` | crates/hatp-engine/src/version.rs:110-204 | any mix of inserts and collections holds the last write of every timestamp except those a newer one at or below the highest watermark hides |
| `Version.ReadAfterRun` | crates/hatp-engine/src/version.rs:163-183 | after any such mix, reading at a snapshot at or above every watermark gives the newest write at or below it if and only if the snapshot is below the sentinel timestamp or nothing was written |
| `Version.NothingVisibleAtSentinel` | crates/hatp-engine/src/version.rs:48-50 | a read at the largest timestamp sees nothing at all |
| `Version.PermutationIrrelevant` | crates/hatp-engine/src/version.rs:110-159 | inserts with distinct timestamps build the same chain in any order |
| `Version.VersionChain.Insert` | crates/hatp-engine/src/version.rs:110-159 | the in-place insertion equals the specified one |
| `Version.VersionChain.Get` | crates/hatp-engine/src/version.rs:163-183 | the scan returns the first visible version |
| `Version.VersionChain.GarbageCollect` | crates/hatp-engine/src/version.rs:191-204 | the in-place collection equals the specified one and returns the number dropped |
| `Compaction.DedupSuperseded` | crates/hatp-engine/src/lib.rs:3056-3099 | the merge loop computes the specified merge |
| `Compaction.DedupSpec` | crates/hatp-engine/src/lib.rs:3056-3099 | the output is sorted and holds exactly the input versions not superseded at or below the watermark, each with its end recomputed as the next newer input version |
| `Compaction.DedupVisible` | crates/hatp-engine/src/lib.rs:3056-3099 | at every snapshot from the watermark on, an output row is visible exactly when it is the newest input version at or below the snapshot; that version is always present with its value, and no version twice |
| `Compaction.DedupKeepsIff` | crates/hatp-engine/src/lib.rs:3056-3099 | an input row has its version in the output if and only if no input row holds a newer version of its key at or below the watermark, and an older version is kept beside a newer one only if that is above the watermark |
| `Compaction.SurvivorExists` | crates/hatp-engine/src/lib.rs:3056-3099 | every version that is not superseded has an output row |
| `Compaction.StagedCompactionIsOneShot` | crates/hatp-engine/src/lib.rs:1766-1815 | merging any split of the rows at any earlier watermarks and then the union gives the same rows as merging everything at once |
| `Memtable.AppliedContents` | crates/hatp-engine/src/memtable.rs:207-233 | a batch adds exactly its last update of every key at the commit timestamp and keeps all chains well formed |
| `Memtable.CollectedContents` | crates/hatp-engine/src/memtable.rs:299-305 | collection keeps chains well formed, invents nothing, and drops only versions hidden at the watermark |
| `Memtable.CollectedAllExactly` | crates/hatp-engine/src/memtable.rs:299-305 | every key keeps exactly the versions that no newer one at or below the watermark hides |
| `Memtable.DrainedMembers` | crates/hatp-engine/src/memtable.rs:500-524 | draining yields exactly the stored versions |
| `Memtable.DrainedSorted` | crates/hatp-engine/src/memtable.rs:500-524 | draining yields rows by key ascending and newest first |
| `Memtable.MemTable.ApplyMutationsBatch` | crates/hatp-engine/src/memtable.rs:207-233 | the loop applies the specified batch |
| `Memtable.MemTable.Get` | crates/hatp-engine/src/memtable.rs:235-240 | the newest write of the key at or below the snapshot, nothing exactly when there is none |
| `Memtable.MemTable.DrainInto` | crates/hatp-engine/src/memtable.rs:500-524 | all versions in key order; the memtable is unchanged |
| `Memtable.MemTable.GarbageCollect` | crates/hatp-engine/src/memtable.rs:299-305 | every chain is collected at the watermark |
| `Lsm.ReachableInv` | crates/hatp-engine/src/lib.rs:1737-1875 | after any run of commits, flushes, memtable collections, compactions with any chunking, pins of any timestamp, unpins, watermark computations and crashes that keep any prefix of the log, the store refines the committed history |
| `Lsm.CommitInv` | crates/hatp-engine/src/lib.rs:1418-1474 | a commit keeps the refinement |
| `Lsm.FlushInv` | crates/hatp-engine/src/lib.rs:2056-2153 | a flush, with or without a reset of the log, keeps the refinement, although the ends frozen in the file go stale |
| `Lsm.CollectInv` | crates/hatp-engine/src/lib.rs:2278-2281 | memtable collection at any watermark handed out before keeps the refinement |
| `Lsm.CompactInv` | crates/hatp-engine/src/lib.rs:1830-1875 | compaction of any chunks of files at any watermark handed out before keeps the refinement |
| `Lsm.CrashInv` | crates/hatp-engine/src/lib.rs:719-800 | a crash that leaves any prefix of the log, and the replay of it, keep the refinement |
| `Lsm.NewestIsStored` | crates/hatp-engine/src/lib.rs:2291-2350 | the newest committed version at any snapshot from the floor on is visible somewhere: in the memtable when it is newer than the last flush, in a file otherwise |
| `Lsm.WatermarkSafety` | crates/hatp-engine/src/lib.rs:1061-1121 | in every reachable state the pin table counts exactly the live pins, and no watermark handed out or used exceeds a protected or the current snapshot |
| `Lsm.WatermarkGreatest` | crates/hatp-engine/src/lib.rs:1116-1121 | the watermark is the greatest timestamp that neither a pin nor the current snapshot lies below |
| `Lsm.ProtectedAboveFloor` | crates/hatp-engine/src/lib.rs:1079-1091 | a snapshot held by a guard, or the current one, is at or above every watermark used |
| `Lsm.SnapshotStable` | crates/hatp-engine/src/lib.rs:1079-1102 | no step but a crash changes what reading every place of the store at an existing protected snapshot gives |
| `Lsm.StoreReadsHistory` | crates/hatp-engine/src/lib.rs:2291-2350 | reading every place of the store at a snapshot from the floor on and keeping the newest version is reading the history |
| `Lsm.PinInv` | crates/hatp-engine/src/lib.rs:1061-1067 | pinning any timestamp keeps the refinement; it protects the timestamp exactly if no watermark has passed it |
| `Lsm.CrashKeepsLatest` | crates/hatp-engine/src/lib.rs:719-788 | replaying a log that overlaps flushed data, stamped from the highest flushed timestamp on, leaves every latest value as it was, and the current snapshot does not go backwards |
| `Lsm.CrashLatestIff` | crates/hatp-engine/src/lib.rs:719-788 | after a crash that leaves a prefix of the log, every latest value is that of the surviving batches if and only if no batch that the log lost and the files hold is overwritten by an older replayed one |
| `Lsm.LostBatchBringsBackOldValue` | crates/hatp-engine/src/lib.rs:719-788 | a reachable store and an enabled crash that loses the last batch of its log but not its file, after which the replay of the older batch wins |
| `Lsm.CurrentReadIsLastCommit` | crates/hatp-engine/src/lib.rs:1610-1712 | in every reachable state the current value of a key is its last committed update |
| `Reads.ScanRange` | crates/hatp-engine/src/lib.rs:2291-2350 | at any snapshot at or above the floor the scan returns, in strictly ascending key order, exactly the newest committed values of the keys in the range, tombstones omitted |
| `Bytes.RangesMeet` | crates/hatp-engine/src/lib.rs:2291-2350 | scan ranges include their lower and exclude their upper end: two that meet share no key and leave none out |
| `Reads.ScanMem` | crates/hatp-engine/src/memtable.rs:263-280 | collects only genuine versions in range, and every version the memtable shows |
| `Reads.ScanFiles` | crates/hatp-engine/src/lib.rs:2291-2350 | collects every visible row in range of every file; files skipped by their key bounds have none |
| `Reads.PrunedHasNothing` | crates/hatp-engine/src/lib.rs:2317-2328 | a file whose recorded bounds miss the range has no row in it |
| `Reads.InsertNewestKeeps` | crates/hatp-engine/src/lib.rs:3024-3032 | what is kept is genuine and at least as new as anything offered |
| `Reads.CollectedAllSettles` | crates/hatp-engine/src/lib.rs:2291-2350 | having collected everything visible decides every key of the range |
| `Reads.Listing` | crates/hatp-engine/src/lib.rs:2345-2350 | ascending keys, tombstones left out, nothing else lost or added |
| `Lookup.Get` | crates/hatp-engine/src/lib.rs:1610-1712 | the value of that version; it is the newest committed value whenever that condition holds |
| `Lookup.Find` | crates/hatp-engine/src/lib.rs:1610-1712 | memtable, hot-key cache, then candidate files by bounds, filter, key index or file, with the early exit above level 0: the version found is the specified one, and it is the newest committed one if and only if the memtable shows one, or the cached file has the newest, or no file is cached and every version that any file shows is matched by one at least as new from a file that is read |
| `Lookup.FirstMarkLeads` | crates/hatp-engine/src/lib.rs:1634-1688 | among files above level 0 that mark the key, by their index in any version and by the file in a visible one, the early exit reads exactly the one with the largest smallest key, the newest among equals |
| `Lookup.FoundIff` | crates/hatp-engine/src/lib.rs:1610-1712 | what the lookup finds is the newest committed version exactly under that condition, in every state of the invariant |
| `Lookup.Ask` | crates/hatp-engine/src/lib.rs:1668-1709 | the key index answers alone when there is one, with the version it lands on if that is visible; the file otherwise, with its newest visible version |
| `Lookup.IndexOffersIff` | crates/hatp-engine/src/lib.rs:1670-1689 | an index offers a version if and only if the row at the landing of its search is visible |
| `Lookup.AnswersIff` | crates/hatp-engine/src/lib.rs:1668-1709 | the answers of all files suffice if and only if the newest version they show is in a file without index or in one whose search lands on a visible row |
| `Lookup.OneLeveledIff` | crates/hatp-engine/src/lib.rs:1643-1647 | with at most one file above level 0 that holds the key, the early exit plays no part |
| `Lookup.ExactWhenOnce` | crates/hatp-engine/src/lib.rs:1610-1712 | with no hot entry for the key, at most one file above level 0 that holds it and no indexed file with two versions of it, the lookup is exact |
| `Witnesses.IndexHidesNewest` | crates/hatp-engine/src/lib.rs:1670-1689 | a run of two puts of a key and a flush after which the lookup finds nothing although the second value is committed |
| `Witnesses.HotEntryHidesNewest` | crates/hatp-engine/src/lib.rs:1618-1629 | a run of a put, a flush, a lookup, a second put and a flush after which the lookup finds the first value |
| `Witnesses.SubCompactionHidesNewest` | crates/hatp-engine/src/lib.rs:1766-1815 | a run of two commits, two flushes of 64 MiB and the sub-compaction in the two chunks of their greedy split, after which the files that the lookup reads do not suffice, whichever have an index |
| `Lookup.Probe` | crates/hatp-engine/src/lib.rs:1643-1706 | one candidate: whatever it gives is not newer than the running newest afterwards, whether it was asked, pruned, filtered or skipped by the early exit; the flag says whether a file above level 0 marked the key, and an improvement by an index is noted for the hot-key cache |
| `Lookup.FileGet` | crates/hatp-engine/src/lib.rs:1691-1699 | the newest visible version of the key in a file |
| `Lookup.SkippedShowsNothing` | crates/hatp-engine/src/lib.rs:1648-1667 | a file skipped by its bounds or its filter does not hold the key |
| `Nodes.StepKeeps` | crates/hatp-engine/src/lib.rs:1952-2150 | every step of the store together with its manifest, caches and counts keeps them in agreement with the files |
| `Nodes.FlushTracks` | crates/hatp-engine/src/lib.rs:2108-2118 | the batch a flush appends is well formed and makes the manifest describe the files with the new one |
| `Nodes.CompactTracks` | crates/hatp-engine/src/lib.rs:1962-1994 | the batch a compaction appends is well formed and makes the manifest describe the files after it: outputs added with their bounds, every input deleted from the level it is in, the next id above all |
| `Nodes.CachesCompacted` | crates/hatp-engine/src/lib.rs:1863-1873 | after a compaction every cached filter and key index belongs to a live file; the filter says yes to all its keys and the index is that of its rows |
| `Nodes.RunOneLeveled` | crates/hatp-engine/src/lib.rs:1723-1760 | after any run whose compactions merge all of levels 0 and 1 at most one file is above level 0 |
| `Nodes.ReopenFollows` | crates/hatp-engine/src/lib.rs:707-731 | reopening reads back the manifest that was written |
| `Nodes.ManifestInEveryRun` | crates/hatp-engine/src/lib.rs:1952-2150 | in every run of commits, flushes, compactions, sub-compactions, pins and crashes, the manifest file read back describes exactly the live files: ids, levels, key bounds and the next id |
| `Nodes.CountsInEveryRun` | crates/hatp-engine/src/lib.rs:1996-2015 | in every such run, crashes included, the cached row count of all files and of every table is a recount of the live files, with no entry for a table without rows |
| `Nodes.GetAfterRun` | crates/hatp-engine/src/lib.rs:1610-1712 | in every state reached with compactions of levels 0 and 1 only, over the engine's own manifest and caches: unless memtable or hot-key cache answer, the lookup finds the newest committed version if and only if that version is in a file without index or where the search of the index lands; hence whenever the key has no hot entry and no indexed file holds two versions of it |
| `Chunks.SplitBySize` | crates/hatp-engine/src/lib.rs:3104-3128 | the greedy split: the inputs in order without loss, each chunk within the limit or a single file, and too large with the next file |
| `Chunks.SplitUnique` | crates/hatp-engine/src/lib.rs:3104-3128 | there is only one such split |
| `Chunks.InputsAreLevels` | crates/hatp-engine/src/lib.rs:1818-1825 | the ids the manifest lists at two levels are, in ascending order, exactly the live files of those levels |
| `Engines.MergeChunks` | crates/hatp-engine/src/lib.rs:1781-1807 | every chunk is merged into the specified output, with a filter that misses none of its keys and the key index of its rows |
| `Engines.CompactionBatch` | crates/hatp-engine/src/lib.rs:1962-1994 | the loops build the specified batch |
| `Engines.Engine.Write` | crates/hatp-engine/src/lib.rs:1418-1474 | one commit step that returns its timestamp; an empty batch or an oversized key or value is refused and changes nothing |
| `Engines.Engine.Flush` | crates/hatp-engine/src/lib.rs:2056-2153 | one flush step of store, manifest, caches and counts; an empty memtable is left alone |
| `Engines.Engine.Watermark` | crates/hatp-engine/src/lib.rs:1116-1121 | the smaller of the oldest pin and the current snapshot |
| `Engines.Engine.BeginRead` | crates/hatp-engine/src/lib.rs:1079-1091 | reads and pins the current snapshot in one step |
| `Engines.Engine.PinSnapshot` | crates/hatp-engine/src/lib.rs:1061-1067 | any timestamp is pinned; it is protected from then on exactly if no watermark has passed it |
| `Engines.Engine.Unpin` | crates/hatp-engine/src/lib.rs:1094-1102 | one pin fewer; an entry that reaches zero is removed, a timestamp that is not pinned is left alone |
| `Engines.Engine.GarbageCollect` | crates/hatp-engine/src/lib.rs:2278-2281 | one memtable collection step |
| `Engines.Engine.SubCompact` | crates/hatp-engine/src/lib.rs:1766-1815 | with at least two files in the two levels, all of them are merged in the chunks of the greedy 64 MiB split, in one step; otherwise nothing changes |
| `Engines.Engine.CommitCompaction` | crates/hatp-engine/src/lib.rs:1952-2049 | outputs and inputs change store, manifest, caches and counts in one step |
| `Engines.Engine.Compact` | crates/hatp-engine/src/lib.rs:1723-1760 | merges exactly the files of two levels at the watermark of the moment; with fewer than two files nothing changes |
| `Engines.Engine.Reopen` | crates/hatp-engine/src/lib.rs:707-800 | one crash step: the manifest is read back, what is left of the log is replayed in order from the highest flushed timestamp on, rows are counted again, pins are gone |
| `Engines.HighestCommit` | crates/hatp-engine/src/lib.rs:734-756 | the highest commit timestamp in the files, zero if there is none |
| `Engines.Engine.Scan` | crates/hatp-engine/src/lib.rs:2291-2350 | the scan at a pinned or the current snapshot is exact |
| `Engines.Engine.Get` | crates/hatp-engine/src/lib.rs:1610-1712 | the point lookup at a pinned or the current snapshot returns what the specified lookup finds, hence the newest committed value under the condition of Lookup.Find; at most the hot-key cache changes |
| `Crc32c.BuildTable` | crates/hatp-engine/src/crc32c.rs:143-171 | every entry is eight clocks of the reflected shift register on its index, the register of CrcPolynomials.CrcIsRemainder |
| `Crc32c.TableEntry` | crates/hatp-engine/src/crc32c.rs:143-171 | one entry of the table, by eight conditional shifts |
| `Crc32c.TableStepFeeds` | crates/hatp-engine/src/crc32c.rs:181-228 | a table lookup feeds one byte into the register |
| `Crc32c.Crc32cSoftware` | crates/hatp-engine/src/crc32c.rs:181-228 | the short loop and the eight-way unrolled loop equal the bit-at-a-time register for every message and every start state; what that register holds is CrcPolynomials.CrcIsRemainder |
| `Crc32c.FeedEight` | crates/hatp-engine/src/crc32c.rs:181-228 | one unrolled round feeds eight bytes in order |
| `Crc32c.CrcConcat` | crates/hatp-engine/src/crc32c.rs:67-72 | feeding a message in any split gives the state of feeding it whole |
| `Crc32c.Hasher.Update` | crates/hatp-engine/src/crc32c.rs:67-72 | the streaming state is the register after everything fed so far |
| `Crc32c.Hasher.Finalize` | crates/hatp-engine/src/crc32c.rs:74-77 | the inverted state |
| `Crc32c.WindowChangesCrc` | crates/hatp-engine/src/crc32c.rs:181-228 | changing four consecutive bytes always changes the checksum, at every length, position and content |
| `Crc32c.TrailerMatches` | crates/hatp-engine/src/wal.rs:396-402 | a stored trailer matches exactly when the checksum runs to zero over body and trailer |
| `CrcPolynomials.CrcIsRemainder` | crates/hatp-engine/src/crc32c.rs:143-228 | for every message and start state the register, bits reflected, is the remainder of the message polynomial behind the start state modulo the generator of section 12.1 of RFC 3720, written out by its powers |
| `CrcPolynomials.RemainderUnique` | crates/hatp-engine/src/crc32c.rs:143-228 | a polynomial has only one remainder below degree 32, so the register is determined |
| `CrcPolynomials.CheckValue` | crates/hatp-engine/src/crc32c.rs:303-320 | the checksum of the nine digits 1 to 9 is 0xE306_9283 |
| `Wal.FrameRoundTrip` | crates/hatp-engine/src/wal.rs:249-430 | a printed frame is parsed back, anywhere in a buffer, if and only if key and value are shorter than 0xFFFF_FFFF bytes |
| `Wal.FrameLayout` | crates/hatp-engine/src/wal.rs:20-33 | every frame is laid out as documented, field by field: magic, id, operation code, both lengths, key, value and checksum of all that, numbers with the least significant byte first |
| `LittleEndian.EncodeDigits` | crates/hatp-engine/src/wal.rs:20-33 | byte i of an encoded number is its i-th digit to base 256 |
| `Wal.OnlyPutsKeepValues` | crates/hatp-engine/src/wal.rs:442-456 | a frame is read back as written, except that only a put keeps its value |
| `Wal.MarkerCollision` | crates/hatp-engine/src/wal.rs:170-178 | a value of exactly 0xFFFF_FFFF bytes is accepted by the printer and not returned by the parser |
| `Wal.CutFrame` | crates/hatp-engine/src/wal.rs:351-390 | a frame cut before its end is torn |
| `Wal.DamageRejected` | crates/hatp-engine/src/wal.rs:396-402 | any change confined to four consecutive bytes outside the length fields makes the parser reject the frame |
| `Wal.DamagedVerdict` | crates/hatp-engine/src/wal.rs:396-402 | such a change is taken for a torn tail, if and only if it did not turn the operation byte into an unknown one, which is an error |
| `Wal.DecodeAll` | crates/hatp-engine/src/wal.rs:442-473 | the loop returns the records up to the first torn frame and where that is, or the first error; Wal.ParseCut and Wal.ParseDamaged say what that is for a cut and for a damaged log |
| `Wal.Recover` | crates/hatp-engine/src/wal.rs:799-819 | empty is fine, a foreign start is refused, anything else is parsed; Wal.RecoverDamaged and Recovery.CutDelivers say what is kept |
| `Wal.ParseCut` | crates/hatp-engine/src/wal.rs:442-473 | a log cut at any byte parses as exactly its whole frames |
| `Wal.ParseDamaged` | crates/hatp-engine/src/wal.rs:442-473 | a log with such damage in one frame, whatever follows, parses as exactly the frames before it |
| `Wal.RecoverDamaged` | crates/hatp-engine/src/wal.rs:799-819 | opening it keeps exactly those frames and their length, if and only if the damage left the magic at the start of the file alone and made no unknown operation |
| `Wal.CompleteIsLast` | crates/hatp-engine/src/wal.rs:442-473 | no further frame fits within the cut |
| `Recovery.Buffer.EncodeFrame` | crates/hatp-engine/src/wal.rs:249-333 | appends the frame, or leaves the buffer alone and reports an oversized key or value |
| `Recovery.Buffer.EncodeMutations` | crates/hatp-engine/src/wal.rs:211-239 | appends the frames of the batch and its commit frame; fails exactly when some key or value is oversized, leaving the frames before the first such mutation |
| `Recovery.ReplayLog` | crates/hatp-engine/src/lib.rs:766-800 | the loop delivers the specified batches and the first free id; it fails exactly on a committed put without a value |
| `Recovery.BatchDelivered` | crates/hatp-engine/src/lib.rs:766-800 | a batch appended to any log is delivered last, behind the orphaned frames that share its id |
| `Recovery.DeliveredAloneIff` | crates/hatp-engine/src/lib.rs:766-800 | it is delivered unmixed if and only if its id has no orphaned mutations in the log |
| `Recovery.ReusedIdMixes` | crates/hatp-engine/src/lib.rs:766-800 | a log cut to one orphaned put and a batch under the same id deliver one mixed batch |
| `Recovery.RecoverableIff` | crates/hatp-engine/src/wal.rs:799-819 | a log cut to its first n bytes opens if and only if n is zero or at least four |
| `Recovery.CrashAtomicity` | crates/hatp-engine/src/lib.rs:766-800 | after any run of appends, resets, cuts at any byte and reopenings, a cut log delivers exactly the batches whose commit frame is complete, whole and in commit order, and later ids are above every id left |
| `Recovery.AppendInv` | crates/hatp-engine/src/wal.rs:539-584 | appending a batch of a session id keeps the invariant, for every prefix of the log |
| `Recovery.CrashInv` | crates/hatp-engine/src/wal.rs:526-537 | cutting, truncating to the last whole frame and restarting ids keeps the invariant |
| `Recovery.CutDelivers` | crates/hatp-engine/src/wal.rs:799-819 | opening a cut file delivers exactly the batches whose commit frame is complete |
| `Recovery.DamageDelivers` | crates/hatp-engine/src/lib.rs:766-800 | opening such a file delivers exactly the batches that are complete before the damaged frame |
| `Recovery.AbortDiscards` | crates/hatp-engine/src/lib.rs:766-800 | an abort frame discards what its transaction wrote before it, a commit frame behind it delivers nothing, and other transactions keep theirs |
| `Durability.StepJoins` | crates/hatp-engine/src/wal.rs:539-584 | every step of the node with the bytes of its log keeps the file holding exactly the batches of the log, in order |
| `Durability.CrashAtAnyByte` | crates/hatp-engine/src/lib.rs:719-800 | after any run, a crash at any byte is the crash of the store that leaves as many batches as are whole in the file: what opening delivers is that prefix of the log, its replay is the memtable, and latest values survive exactly if no lost flushed batch is overwritten by an older replayed one |
| `Manifest.EditKeepsConsistentIff` | crates/hatp-engine/src/manifest.rs:116-150 | an edit keeps a consistent set consistent if and only if it is not the deletion of a file that another level still holds |
| `Manifest.SnapshotReplayIff` | crates/hatp-engine/src/manifest.rs:284-308 | replaying the snapshot of a set restores it if and only if no level is empty, exactly the files in levels have metadata, and the next id is above all of them |
| `Manifest.DoubleAddLosesMeta` | crates/hatp-engine/src/manifest.rs:116-150 | a file added at two levels and deleted from one keeps a level and loses its metadata, and a snapshot does not replay to that state |
| `Manifest.ApplyConcat` | crates/hatp-engine/src/manifest.rs:248-255 | applying batches one after another is applying their concatenation |
| `Manifest.ReplayMeans` | crates/hatp-engine/src/manifest.rs:116-150 | what any log of edits says: a file is at a level if its last addition there was not followed by a deletion there, its metadata is that of the last edit naming it if that is an addition, a prefix is dropped if its last drop was not undone, and the next id is the least that no edit exceeds |
| `VersionSets.BuildFilesByKey` | crates/hatp-engine/src/manifest.rs:195-203 | one entry per file, strictly ascending by smallest key and then id |
| `VersionSets.AscendingUnique` | crates/hatp-engine/src/manifest.rs:195-203 | the index is determined by the metadata |
| `VersionSets.BuildFileLevel` | crates/hatp-engine/src/manifest.rs:208-216 | one entry per file and level it is in, ascending by id |
| `VersionSets.FileLevelUnique` | crates/hatp-engine/src/manifest.rs:208-216 | with no file in two levels the level index is determined by the levels |
| `VersionSets.PartitionPoint` | crates/hatp-engine/src/manifest.rs:163-171 | the entries whose smallest key is at most the key are exactly those before the returned index |
| `VersionSets.VersionSet.Apply` | crates/hatp-engine/src/manifest.rs:116-150 | the in-place edit equals the specified one |
| `VersionSets.VersionSet.RebuildIndexes` | crates/hatp-engine/src/manifest.rs:154-157 | both indexes describe the current membership |
| `VersionSets.VersionSet.Applied` | crates/hatp-engine/src/manifest.rs:248-255 | a fresh copy with all edits applied and indexes rebuilt; the original is untouched |
| `VersionSets.VersionSet.CandidateFiles` | crates/hatp-engine/src/manifest.rs:163-192 | exactly the files whose key range may contain the key, each once, from the largest smallest key down |
| `VersionSets.VersionSet.FileLevelFor` | crates/hatp-engine/src/manifest.rs:221-229 | a level the file is in, nothing exactly when it is in none |
| `ManifestLog.FrameRoundTrip` | crates/hatp-engine/src/manifest.rs:452-632 | a printed edit is parsed back if and only if it does not record an empty prefix |
| `ManifestLog.FrameLayout` | crates/hatp-engine/src/manifest.rs:8-16 | every frame is laid out as documented: magic, code, payload and checksum of all that |
| `ManifestLog.AddLayout` | crates/hatp-engine/src/manifest.rs:451-483 | the payload of an addition, field by field |
| `ManifestLog.PayloadLayout` | crates/hatp-engine/src/manifest.rs:487-505 | the payloads of the other edits, field by field |
| `ManifestDamage.DamagedIsTorn` | crates/hatp-engine/src/manifest.rs:616-631 | a change confined to four consecutive bytes behind the operation byte and outside the length fields is taken for a torn tail |
| `ManifestDamage.ReadDamaged` | crates/hatp-engine/src/manifest.rs:668-681 | a manifest with such damage in one frame is read as exactly the edits before it, whatever follows |
| `ManifestLog.LogRoundTrip` | crates/hatp-engine/src/manifest.rs:668-681 | a printed log is parsed back if and only if it records no empty prefix |
| `ManifestLog.DecodeAll` | crates/hatp-engine/src/manifest.rs:668-681 | the loop returns the edits up to the first torn frame, or the first error; ManifestDamage.ReadDamaged says what that is for a damaged log |
| `ManifestLog.FileAgreesInEveryRun` | crates/hatp-engine/src/manifest.rs:354-403 | in every run of well-formed batches, automatic rewrites and reopenings, decoding and replaying the file gives the version set in memory |
| `ManifestLog.RewritesInvisible` | crates/hatp-engine/src/manifest.rs:379-403 | memory is what the batches alone make of an empty set, however often the log was rewritten or reopened |
| `ManifestLog.ManifestFile.Open` | crates/hatp-engine/src/manifest.rs:331-347 | replays a decodable file into a version set with current indexes; refuses the others |
| `ManifestLog.ManifestFile.AppendBatch` | crates/hatp-engine/src/manifest.rs:354-374 | an oversized field changes nothing; otherwise file and memory advance together and past the threshold the log becomes a snapshot; the file stays in step with memory exactly when no snapshot is taken or memory is consistent |
| `ManifestLog.ManifestFile.Rewrite` | crates/hatp-engine/src/manifest.rs:379-403 | the log becomes the snapshot of memory, and replays to it exactly when memory is consistent |
| `ManifestLog.ManifestFile.LogAgreesWithMemory` | crates/hatp-engine/src/manifest.rs:331-347 | decoding and replaying the file gives the membership in memory, with the key index in memory, and the level index too when no file is in two levels |
| `Bloom.UnrolledHash` | crates/hatp-types/src/codec.rs:303-357 | the four-way unrolled hash equals the byte-at-a-time fold |
| `Bloom.FnvCheckValues` | crates/hatp-types/src/codec.rs:303-333 | the published FNV-1a values of the empty string and of foobar |
| `Bloom.DjbCheckValues` | crates/hatp-types/src/codec.rs:336-357 | the DJB2 values of the same two strings |
| `Bloom.BloomFilter.Insert` | crates/hatp-engine/src/bloom.rs:63-71 | sets exactly the bits that the key probes; the key is contained afterwards, and so is every key that was |
| `Bloom.BloomFilter.Contains` | crates/hatp-engine/src/bloom.rs:75-85 | true exactly when every probe finds its bit set |
| `Bloom.BuildFilter` | crates/hatp-engine/src/bloom.rs:63-85 | a bit is set if and only if some key probes it: the filter says yes to every key, and to another one exactly if each of its probes hits such a bit |
| `Codec.BigEndianOrder` | crates/hatp-types/src/codec.rs:168-176 | big-endian bytes of one width compare like the numbers |
| `Codec.SignedOrder` | crates/hatp-types/src/codec.rs:197-211 | flipping the sign bit turns signed order into unsigned order |
| `Codec.FloatOrder` | crates/hatp-types/src/codec.rs:215-234 | the transformed bits compare like the total order of section 5.10 of IEEE 754-2008, and are equal only for equal bits |
| `Codec.FloatLessIsNumeric` | crates/hatp-types/src/codec.rs:213-223 | for finite floats that order is the numeric order, with minus zero before plus zero |
| `Codec.NanLastIff` | crates/hatp-types/src/codec.rs:213-223 | a NaN sorts after infinity if and only if its sign bit is clear; otherwise it sorts before minus infinity |
| `Codec.EscapeBytes` | crates/hatp-types/src/codec.rs:239-251 | the loop computes the specified escaping |
| `Codec.EscapedOrder` | crates/hatp-types/src/codec.rs:239-251 | escaped strings compare like the strings, zero bytes included, whatever columns follow; equal strings leave the order to what follows |
| `Codec.EscapedDelimits` | crates/hatp-types/src/codec.rs:239-251 | an escaped string ends in a zero byte, and every other zero byte in it is followed by 0xFF |
| `Codec.ColumnOrder` | crates/hatp-types/src/codec.rs:160-190 | encoded columns of any type compare like their values |
| `Codec.AssembleTableKey` | crates/hatp-engine/src/lib.rs:3227-3243 | the loop computes the specified key |
| `Codec.KeyOrderIsRowOrder` | crates/hatp-engine/src/lib.rs:3227-3243 | keys of one table compare like their rows, column by column |
| `Codec.KeysInjective` | crates/hatp-engine/src/lib.rs:3227-3243 | keys of one table are equal if and only if the rows are |
| `Codec.TablesShareIff` | crates/hatp-engine/src/lib.rs:3227-3243 | of two different names the tables can share a key if and only if the longer name continues the shorter one with a zero byte that ends it or is followed by another |
| `Codec.TablesDisjoint` | crates/hatp-engine/src/lib.rs:3227-3243 | tables with different names without zero bytes have no key in common |
| `Codec.NulInNameCollides` | crates/hatp-engine/src/lib.rs:3227-3243 | a pair of such names, and the shared key |
| `GroupCommit.Partition` | crates/hatp-engine/src/lib.rs:1483-1519 | the in-place swaps leave exactly the passing requests in front, in their original order, and the others are told in order |
| `GroupCommit.FlushPendingBatch` | crates/hatp-engine/src/lib.rs:1478-1598 | outcomes sent and requests logged are the specified ones, which GroupCommit.VerdictDecides ties to the verdicts; timestamps advance by the number logged |
| `GroupCommit.OneOutcomeEach` | crates/hatp-engine/src/lib.rs:1478-1598 | every request of a batch is sent exactly one outcome, whatever the hook and the log answer |
| `GroupCommit.VerdictDecides` | crates/hatp-engine/src/lib.rs:1478-1598 | a request is rejected if and only if its verdict is unfavourable, and committed if and only if it is favourable and the log append succeeded; logged are exactly the committed ones, in batch order, with consecutive timestamps |
| `GroupCommit.FavouringStep` | crates/hatp-engine/src/lib.rs:1356-1414 | a step that favours a request and appends to the log commits and logs it, on the fast path and in a group |
| `GroupCommit.LoggedWasFavoured` | crates/hatp-engine/src/lib.rs:1356-1414 | in every interleaving, whatever is in the log was given a favourable verdict, on the fast path or in a group |
| `GroupCommit.RefusedNeverLogged` | crates/hatp-engine/src/lib.rs:1356-1414 | in every interleaving, a request that was given an unfavourable verdict is sent a rejection and is never in the log |
| `GroupCommit.StepInv` | crates/hatp-engine/src/lib.rs:1356-1414 | every step of every writer keeps the protocol invariant |
| `GroupCommit.OwnRequestIsQueued` | crates/hatp-engine/src/lib.rs:1383-1402 | in every interleaving a guard holder without a result finds its own request in the queue: the empty batch cannot happen |
| `GroupCommit.ExactlyOneOutcome` | crates/hatp-engine/src/lib.rs:1356-1414 | in every interleaving a request is given at most one outcome, and a finished one exactly one |
| `GroupCommit.LeaderReturns` | crates/hatp-engine/src/lib.rs:1383-1414 | what a leader returns differs from what it was sent exactly when its own request was rejected and the log append of others failed |
| `GroupCommit.ReturnedOutcome` | crates/hatp-engine/src/lib.rs:1356-1414 | in every interleaving a finished writer returns the outcome it was sent, except that a rejected leader may return the log error of its batch |
| `GroupCommit.LogOrderIsCommitOrder` | crates/hatp-engine/src/lib.rs:1524-1556 | in every interleaving the log holds exactly the committed requests, with consecutive timestamps in log order |
| `KeyIndexes.FromRows` | crates/hatp-engine/src/key_index.rs:77-110 | the buffer holds the rows; the offsets are the entry starts modulo two to the 32, each right if and only if its start fits 32 bits |
| `KeyIndexes.FromBytes` | crates/hatp-engine/src/key_index.rs:165-196 | any buffer is parsed to the specified index or refused |
| `KeyIndexes.RowsParseBack` | crates/hatp-engine/src/key_index.rs:165-196 | the buffer of rows that fit is parsed back to their index |
| `KeyIndexes.IndexReadsBack` | crates/hatp-engine/src/key_index.rs:115-126 | an index written to a file is read back as it was |
| `KeyIndexes.Get` | crates/hatp-engine/src/key_index.rs:204-235 | the byte-level binary search returns the version of the row that the search on rows chooses |
| `KeyIndexes.VersionAtIsVersion` | crates/hatp-engine/src/key_index.rs:238-279 | value or tombstone, begin and end of the entry |
| `KeyIndexes.SearchFinds` | crates/hatp-engine/src/key_index.rs:204-235 | on sorted rows the search finds some row of the key exactly when there is one |
| `KeyIndexes.LookupExact` | crates/hatp-engine/src/key_index.rs:204-235 | with one row per key it finds that row, and nothing exactly for absent keys |
| `KeyIndexes.SearchLands` | crates/hatp-engine/src/key_index.rs:204-235 | where a key occupies a range of positions, the search lands where the midpoint recursion on positions alone does |
| `KeyIndexes.NewestReturnedIff` | crates/hatp-engine/src/key_index.rs:204-235 | the newest version of a key is returned if and only if that recursion lands on the first of its positions |
| `KeyIndexes.DuplicateReturnsOlder` | crates/hatp-engine/src/key_index.rs:204-235 | a file of two versions of one key, for which the older one is returned |
| `RowCounts.RecountCompacted` | crates/hatp-engine/src/lib.rs:1952-2015 | compaction of chunks of distinct files changes the rows of any table, and of all, by rows written minus rows read |
| `RowCounts.CountRowsByPrefix` | crates/hatp-engine/src/lib.rs:3156-3165 | the loop counts in every row under its table prefix |
| `RowCounts.PrefixOfTableKey` | crates/hatp-engine/src/lib.rs:3144-3150 | the prefix of a key of a table whose name has no zero byte is that name and a zero byte |
| `RowCounts.CountedUnderOwnTable` | crates/hatp-engine/src/lib.rs:3144-3165 | a row is counted under its own table and no other |
| `RowCounts.PrefixCountDelta` | crates/hatp-engine/src/lib.rs:3168-3182 | exactly the nonzero differences |
| `RowCounts.TallyChunks` | crates/hatp-engine/src/lib.rs:1766-1807 | rows read, rows written and the per-table differences of all chunks |
| `RowCounts.AdjustEntry` | crates/hatp-engine/src/lib.rs:1999-2013 | the entry follows its change as specified; one that reaches zero is removed |
| `RowCounts.AdjustedEntryOk` | crates/hatp-engine/src/lib.rs:1999-2013 | an entry that counts at least the rows taken away does not saturate, ends at the new count, and leaves the others alone |
| `RowCounts.FlushCountsOk` | crates/hatp-engine/src/lib.rs:2120-2133 | counting the flushed rows in keeps the counts a recount |
| `RowCounts.CompactCountsOk` | crates/hatp-engine/src/lib.rs:1996-2015 | no subtraction goes below zero, and the counts stay a recount after a compaction |
| `RowCounts.RecoverCountsOk` | crates/hatp-engine/src/lib.rs:730-756 | counting every row of every file on opening is a recount |
| `RowCounts.RowCounter.Flush` | crates/hatp-engine/src/lib.rs:2120-2133 | the specified update of a flush |
| `RowCounts.RowCounter.Compact` | crates/hatp-engine/src/lib.rs:1952-2015 | the specified update of a compaction |
| `RowCounts.RowCounter.Recover` | crates/hatp-engine/src/lib.rs:730-756 | the specified recount on opening |

## Left out

- Vortex, Arrow and DataFusion, row codecs, catalog and SQL planning: library semantics; a file is a sorted row sequence whose lookup is the authoritative read.
- Key indexes of files that do not fit their 32-bit fields: reads through them leave the buffer, which has no defined outcome, so such a file has no index in the model.
- Eviction from the filter and index caches: entries are read again from disk, so the caches are modelled as what can be read.
- Writers between the two phases of a flush, failed file writes, readers between timestamp allocation and memtable apply, and commits between snapshot and context registration: commit, flush and begin are atomic steps.
- SSI validation of queued groups as the engine wires it: it does not stage commits, so serializability is stated over the manager's protocol; autocommit writes and a second commit of an already committed transaction are not SSI transactions.
- Torn manifest files: the parser reports an error instead of truncating, so manifests are complete files.
- Dropped-table filtering on reads, metrics, pressure, watcher, clock, fault injection, mmap, file I/O, SSE intrinsics and raw pointers: plumbing or foreign code.
- Byte counters of the memtable, prefix scans, the Bloom filter's sizing and byte format, secondary-index encoding and the compaction picker: they would only add easy members.
- The transaction id stored beside each version: nothing in the core reads it back.
- Machine limits of counters: commit timestamps, file ids and row counts are bounded only where a step says so; steps that would exceed 64 bits are not enabled.
- Recovery.CrashAtomicity: covers batches whose keys and values are shorter than 0xFFFF_FFFF bytes, because longer ones do not round-trip.
- Memtable.MemTable.ApplyMutationsBatch: chains in the memtable are values; the loops that edit a chain in place are those of `Version.VersionChain`.
- Engines.Engine.Flush: what disk and clock answer, and whether the filter could be stored, are parameters; the same holds for compaction and reopening.
- VersionSets.VersionSet.Applied: the shared pointer swap by which readers obtain the new set is not modelled.
- Transactions.Transaction.ScanRange: find, retain and sort are functions on the row sequence rather than in-place edits.
