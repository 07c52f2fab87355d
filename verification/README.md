# Sekas, modelled and proved in Dafny

Sekas is a sharded key-value store with multi-version storage, Raft replication and transactions.
This project models the parts of it that are hardest to get right and proves what they are for.
`dafny verify dfyconfig.toml` checks everything.

- `Bytes.dfy`, `RawDb.dfy`, `ShardRange.dfy`, `Options.dfy`: byte strings and their order, the sorted store, shards
- `MvccKeys.dfy`, `MvccSnapshot.dfy`, `GroupEngine.dfy`: the multi-version engine: key codec, two-level lazy iterator, column family and the core kept in memory
- `EntryIds.dfy`, `RaftLog.dfy`, `RaftEngine.dfy`, `RaftStorage.dfy`, `RaftNode.dfy`: the Raft log: one plain log as the reference, then engine, cache, storage, compaction and recovery that refine it
- `Apply.dfy`: answers to proposals and reads as entries are applied
- `TxnIds.dfy`, `TxnKeys.dfy`, `TxnRecords.dfy`: allocation of transaction ids across root leaders, and the transaction records
- `WriteBatch.dfy`, `Intents.dfy`, `Counters.dfy`, `IntentStore.dfy`, `IntentWaiters.dfy`: transactions over many keys: preparing and committing intents, reads at a version, increments, how intents sit in the store, waiting for another transaction
- `GroupClient.dfy`, `Router.dfy`: the retry loop of the client and its routing table
- `TaskTimer.dfy`, `OngoingStats.dfy`: the timer of the scheduler and the root's view of what is under way

The main results, each over all inputs or all runs:

- the byte order of stored keys is the order of keys and versions, hence a snapshot read in any
  manner yields exactly the keys and versions in range, hence `get` is the newest version, hence an
  engine that was committed to any number of times returns what the last edits say, before and after
  it is reopened;
- cache, storage, log engine, compaction, snapshots and crash recovery together behave like one
  plain log, and nothing that is not flushed is ever compacted away;
- every proposal is queued or answered exactly once, and Ok only when it is true; reads wait for what was committed;
- ids granted by any sequence of root leaders never overlap; a transaction record never leaves a
  terminal state and no two clients are told opposite outcomes;
- the writes of a transaction become visible together when its record is committed and at no other
  step, every committed write is what its request made of the value just below it, so that increments
  add up, and reads at a version
  are repeatable and, over several keys, see one state; the batches written along the way keep the
  store in step with all of this;
- the client loop ends, the router routes to the owner, the timer with its stale entries is a plain
  map, and the rebuilt view is a sum.

Where the code departs from what it is for, the model follows the code, shows an input, and states
exactly when the property holds:

- compaction beyond the commit index writes the hard state under the key of the local state, and
  reopening then fails (`RaftLog.LocalStateKeptIff`, `RaftNode.Node.CompactThenReopen`). A ready is
  applied before its hard state is written, so a crash in between can leave more flushed than the
  stored commit index covers. Whether the node then comes so far depends on raft-rs, which is given
  both indexes at the start: if it refuses, the local state is never lost
  (`RaftNode.CoveredReplicaOpens`); if it accepts, the next tick loses it
  (`RaftNode.LoseLocalState`); and there is no other way (`RaftLog.LossPossibleIff`);
- a read of the log that the cache splits always adds one cached entry and counts what comes before
  by its data only, so it can exceed its size limit (`RaftStorage.ReadIsLongestFitIff`,
  `RaftStorage.FirstCachedExceeds`, `RaftStorage.DataBudgetExceeds`);
- only one stale context leaves the proposal queue, so the queue can get out of order
  (`Apply.DelegateKeepsOrder`), and proposals behind the disorder stay unanswered although they are
  applied (`Apply.AnsweredIff`, `Apply.QueueDrainsIff`, `Apply.DisorderStarvesProposal`);
- a request for so many ids that the addition wraps is granted, and a deposed root leader may answer
  late with a smaller id (`TxnIds.ExchangeUnderCeiling`, `TxnIds.WrappingRequestOverlaps`,
  `TxnIds.AscendingIff`, `TxnIds.LateAnswerIsSmaller`);
- the heartbeat of a new transaction is written little-endian and read big-endian
  (`TxnRecords.BeginHeartbeat`); two committers of one transaction can both be told Ok with different
  versions (`TxnRecords.OkCommitIsRecordedIff`, `TxnRecords.TwoCommittersDisagree`);
- a read that meets the intent of a committed no-op takes it for a deletion (`Intents.ReadIsView`,
  `Intents.NopRunMisread`);
- a resolver that settles an intent does not wake those who wait for it, and the next transaction on
  the key answers them in its place (`IntentWaiters.TruthfulFuturesIff`,
  `IntentWaiters.StrandingRunLies`);
- ingested files without a move state leave an old one in memory (`GroupEngine.Engine.Ingest`,
  `GroupEngine.IngestKeepsOldMove`);
- `find_shard` tests the end of a range the wrong way round (`Router.PassesIffBelongs`,
  `Router.SplitMisroutes`);
- while intents are committed, completion is flagged by the number of a write within its kind
  (`WriteBatch.FlagsExactIff`, `WriteBatch.MixedBatchMisflags`); since every failure ends the round, the flags are not read again.

## Model

| member | source | states |
|---|---|---|
| `MvccKeys.MvccKey` | `src/server/src/engine/group.rs:687-708` | The loop over the cursor builds the memcomparable encoding: collection, groups of eight bytes with their markers, complemented version. |
| `MvccKeys.RevertMvccKey` | `src/server/src/engine/group.rs:710-729` | The loop recovers the user key of any stored key whose markers are valid; the marker subtraction does not underflow and no slice is out of range. |
| `MvccKeys.GroupsRoundTrip` | `src/server/src/engine/group.rs:696-706` | Decoding the groups of any non-empty key gives the key back; the markers are valid and the length is nine bytes for every eight or part of eight. |
| `MvccKeys.StoredKeyRoundTrip` | `src/server/src/engine/group.rs:617-624` | For every key and 64-bit version the stored key decodes to both, begins with its collection and has length 16 + 9 * ceil(len / 8). |
| `MvccKeys.StoredKeyInjective` | `src/server/src/engine/group.rs:687-708` | Two stored keys are equal only if collection, key and version are. |
| `MvccKeys.GroupsOrder` | `src/server/src/engine/group.rs:696-706` | Whatever follows them, encoded groups compare as the keys do, and equal keys compare by what follows. |
| `MvccKeys.StoredKeyOrder` | `src/server/src/engine/group.rs:687-708` | Byte order of stored keys is exactly: user key ascending, then version descending. |
| `MvccKeys.SeekIsLeast` | `src/server/src/engine/group.rs:678-684` | A stored key lies at or after the seek position if and only if its user key is at least the sought one. |
| `MvccSnapshot.RangeIsInterval` | `src/server/src/engine/group.rs:656-663` | For each of the three kinds of range the valid keys at or after the sought key come first and without gaps, so the iterator may stop at the first invalid one. |
| `MvccSnapshot.DecodesStore` | `src/server/src/engine/group.rs:566-580` | What the database iterator returns splits into all versions of all keys of the collection from the sought key on, in order, followed by other collections only. |
| `MvccSnapshot.SkipFindsNextKey` | `src/server/src/engine/group.rs:521-544` | Skipping the rest of the current key from any position reaches the least key of the snapshot after it, or shows that there is none. |
| `MvccSnapshot.CursorIsNextVersion` | `src/server/src/engine/group.rs:546-564` | The row at the cursor is the newest version of the current key not returned yet, or there is none. |
| `MvccSnapshot.Snapshot.constructor` | `src/server/src/engine/group.rs:353-382` | A snapshot of any mode starts before the first key, and admits exactly the keys asked for: one key, a prefix, or the keys of the shard from some key on. |
| `MvccSnapshot.RangeIsWanted` | `src/server/src/engine/group.rs:495-515` | The range derived from mode and shard admits a key if and only if the caller asked for it, for whole shards if and only if it belongs to the shard. |
| `MvccSnapshot.Snapshot.NextEntry` | `src/server/src/engine/group.rs:566-580` | One pull from the database iterator: the next row of the collection, or false and no change once the collection is left. |
| `MvccSnapshot.Snapshot.NextMvccIterator` | `src/server/src/engine/group.rs:521-544` | The loop stops at the first row of another key and offers it exactly when its key is in range, leaving the cached row for the inner iterator. |
| `MvccSnapshot.Snapshot.Next` | `src/server/src/engine/group.rs:517-519` | Whatever was read of the previous key, the result is the least key of the snapshot above it; none is skipped or repeated. |
| `MvccSnapshot.Snapshot.NextMvccEntry` | `src/server/src/engine/group.rs:546-564` | The row at the cursor if it is of the current key, consumed once; otherwise nothing is consumed. |
| `MvccSnapshot.Snapshot.NextVersion` | `src/server/src/engine/group.rs:598-604` | The newest version of the current key that is older than all returned so far, with its value. |
| `MvccSnapshot.Snapshot.Drive` | `src/server/src/engine/group.rs:517-564` | Any sequence of outer and inner calls, iterators drained, read in part or dropped: every answer is the next key or next version that the store prescribes. |
| `MvccSnapshot.TraceEnumeratesKeys` | `src/server/src/engine/group.rs:495-585` | Over every such trace the keys are those of the collection in range, ascending, each once, with no gaps, and all of them once the end was reported. |
| `MvccSnapshot.SnapshotReturnsWanted` | `src/server/src/engine/group.rs:495-544` | A snapshot read to its end has returned a key if and only if it is stored and was asked for; for a whole shard, if and only if it is stored and belongs to it. |
| `MvccSnapshot.TraceEnumeratesVersions` | `src/server/src/engine/group.rs:546-564` | Over every such trace and in every mode, what follows a key are its newest versions, newest first and none skipped, and all of them once the end was reported. |
| `MvccSnapshot.TargetKey` | `src/server/src/engine/group.rs:231-243` | A snapshot of one key returns that key, and none only if no version of it is stored. |
| `MvccSnapshot.ReadNewest` | `src/server/src/engine/group.rs:231-243` | `get` on any valid store is the maximum version of the key, with its value, or none. |
| `MvccSnapshot.ReadAllVersions` | `src/server/src/engine/group.rs:245-256` | `get_all_versions` is every stored version of the key, newest first, each once. |
| `GroupEngine.LocalKeysApart` | `src/server/src/engine/group.rs:732-754` | No key of a user collection collides with the three local keys. |
| `GroupEngine.LocalNamesApart` | `src/server/src/engine/group.rs:671-673` | The three local keys differ from each other. |
| `GroupEngine.ValueRoundTrip` | `src/server/src/engine/group.rs:757-772` | Data and tombstones are told apart by their tag and read back as written. |
| `GroupEngine.TidyIsValid` | `src/server/src/engine/group.rs:566-580` | A column family that holds local keys and versions of user keys is one that snapshots of every user collection can read. |
| `GroupEngine.EditApplies` | `src/server/src/engine/group.rs:259-311` | A put, tombstone or delete changes its own version of its own key; every other version, key, collection and local key stays. |
| `GroupEngine.EditsApply` | `src/server/src/engine/group.rs:774-782` | A batch leaves each version of each key as the last edit of it says. |
| `GroupEngine.LastEditIs` | `src/server/src/engine/group.rs:259-311` | A version is there if and only if its last edit was not a removal, with the data that was put or as a tombstone. |
| `GroupEngine.StatesWritten` | `src/server/src/engine/group.rs:804-823` | What can be read back is the new apply state, descriptor and move state where given, the old ones otherwise, and no move state once the move has ended. |
| `GroupEngine.MoveAfterIs` | `src/server/src/engine/group.rs:421-429` | A move is known from its report on until it is finished or aborted. |
| `GroupEngine.RebuiltAfterWrite` | `src/server/src/engine/group.rs:174-202` | Writing states and then rebuilding equals rebuilding and then applying the states to the core. |
| `GroupEngine.Engine.Create` | `src/server/src/engine/group.rs:133-171` | A new engine has the initial descriptor in memory and on disk, apply state zero and no data. |
| `GroupEngine.Open` | `src/server/src/engine/group.rs:174-202` | Step by step: nothing without a column family, a failure exactly where descriptor or move state cannot be read, otherwise a memory in step with the column family. |
| `GroupEngine.ReadDescriptor` | `src/server/src/engine/group.rs:853-861` | The descriptor that was persisted last, or none where it is missing or cannot be decoded. |
| `GroupEngine.ReadMoveState` | `src/server/src/engine/group.rs:863-872` | The move state that was persisted last; it need not exist, but it has to be readable. |
| `GroupEngine.CollectShards` | `src/server/src/engine/group.rs:887-890` | The loop collects the shards of a descriptor by id. |
| `GroupEngine.ByIdIsLast` | `src/server/src/engine/group.rs:887-890` | Each id that occurs leads to the last shard that has it, and no other id is there. |
| `GroupEngine.ShardMapIs` | `src/server/src/engine/group.rs:190-193` | An engine knows exactly the shards of its group and the shard being moved; where both have an id, the group wins. |
| `GroupEngine.Engine.AddEdit` | `src/server/src/engine/group.rs:259-311` | `put`, `tombstone` and `delete` add exactly one edit for the collection of the shard, or report the shard as not found. |
| `GroupEngine.Stage` | `src/server/src/engine/group.rs:323-331` | The nested loops over the batches apply their operations one after the other, in order. |
| `GroupEngine.Engine.GroupCommit` | `src/server/src/engine/group.rs:317-351` | After any commit memory is still what `open` would rebuild, data is what all edits made of it, and descriptor, move state and apply state are the newest given. |
| `GroupEngine.Engine.ApplyCoreStates` | `src/server/src/engine/group.rs:410-436` | The whole new core: descriptor, move state and a shard map that contains the shard being moved unless the group has it. |
| `GroupEngine.Engine.Ingest` | `src/server/src/engine/group.rs:393-408` | The files replace the data; the memory follows if they can be read, and then agrees with a reopened engine if and only if the files carry a move under way, or none while memory had none either. |
| `GroupEngine.IngestKeepsOldMove` | `src/server/src/engine/group.rs:421-429` | An instance: a move in memory, none in the files; the move stays in memory and a reopened engine would not have it. |
| `GroupEngine.Engine.Get` | `src/server/src/engine/group.rs:231-243` | The newest version that the edits left for the key, tombstones included; a missing shard is an error. |
| `GroupEngine.Engine.GetAllVersions` | `src/server/src/engine/group.rs:245-256` | All versions that the edits left for the key, newest first; a missing shard is an error. |
| `GroupEngine.CommitAndReopen` | `src/server/src/engine/group.rs:133-202` | A whole run: create, any number of commits, open again; both instances have the same memory, given by the last descriptor and the last move not ended, and the same data. |
| `GroupEngine.LastDescIs` | `src/server/src/engine/group.rs:317-351` | The descriptor after some commits is that of the last commit that carries one. |
| `GroupEngine.LastMoveIs` | `src/server/src/engine/group.rs:317-351` | The move after some commits is that of the last commit that reports one, and none if that has ended. |
| `RaftLog.StepKeepsInv` | `src/server/src/raftgroup/storage.rs:152-225` | Every ready, snapshot, flush, tick and restart keeps truncated index <= flushed <= applied <= last index and the log contiguous. |
| `RaftLog.RunKeepsInv` | `src/server/src/raftgroup/storage.rs:86-109` | So in every reachable state nothing that is not flushed was compacted away. |
| `RaftLog.CompactionPoint` | `src/server/src/raftgroup/worker.rs:477-495` | The compaction point is the least of the flushed index and, on a leader, what each peer has matched. |
| `RaftLog.TickDropsOnlyMatched` | `src/server/src/raftgroup/worker.rs:477-495` | A tick drops only entries below the flushed index and below what every peer has matched. |
| `RaftLog.StepPositions` | `src/server/src/raftgroup/node.rs:250-316` | Where each step leaves applied, flushed and commit index and the ends of the log. |
| `RaftLog.CompactKeeps` | `src/server/src/raftgroup/storage.rs:195-225` | Compaction keeps the term of every index that can still be asked for, the new truncation point included, and every entry that is left. |
| `RaftLog.AppendPuts` | `src/server/src/raftgroup/storage.rs:180-184` | Appending puts the new entries at their indexes, ends with the last of them and keeps what is below the first. |
| `RaftLog.QuietRunKeepsTerms` | `src/server/src/raftgroup/storage.rs:202-207` | Between two readies, snapshots or restarts no index that can still be asked for changes its term. |
| `RaftLog.FlushedStays` | `src/server/src/raftgroup/storage.rs:316-336` | Over every run, with appends, compactions, snapshots and crashes, the term of what was once flushed never changes while it can be asked for, nor the entry while it is there. |
| `RaftLog.RestartMatchesSnapshot` | `src/server/src/raftgroup/node.rs:463-492` | After a restart with a snapshot beyond the truncation point the log has an entry at its index, not of an older term, and is left alone if it had one before. |
| `RaftLog.LocalStateKeptIff` | `src/server/src/raftgroup/storage.rs:214-221` | Over every run the local state is there after each step if and only if no tick compacts beyond the commit index in memory. |
| `RaftLog.CoveredNeverLoses` | `src/server/src/raftgroup/node.rs:250-296` | Over every run whose starts have a commit index that covers what is applied, or apply at most the first entry, no tick compacts beyond the commit index, since what a ready applies is covered by the hard state in force. |
| `RaftLog.LossAheadIff` | `src/server/src/raftgroup/storage.rs:214-221` | From a state whose hard state is the stored one, in particular after any restart, the local state can get lost before the next restart if and only if the commit index is behind what is applied and entries below that are still in the log. |
| `RaftLog.LossPossibleIff` | `src/server/src/raftgroup/node.rs:102-108` | Whatever Raft accepts at a start, some run of a new replica loses the local state if and only if it accepts an applied index, of two or more, above the stored commit index. |
| `RaftLog.CoveredRunKeeps` | `src/server/src/raftgroup/node.rs:102-108` | If Raft accepts only starts whose commit index covers what is applied, every run keeps the local state and the commit index at or above what is applied. |
| `RaftLog.LosingRunLoses` | `src/server/src/raftgroup/node.rs:284-296` | For each such start that Raft would accept, the run that loses the local state: entries applied and flushed before a crash cut off the write of the hard state that commits them, then the start and a tick. |
| `RaftStorage.EntryCache.Append` | `src/server/src/raftgroup/storage.rs:425-447` | Appending truncates what the new entries replace and extends the cache, or replaces it. |
| `RaftStorage.EntryCache.DrainsTo` | `src/server/src/raftgroup/storage.rs:449-454` | Half of the applied part is given up; the subtraction does not underflow and everything not applied stays. |
| `RaftStorage.EntryCache.FetchEntriesTo` | `src/server/src/raftgroup/storage.rs:389-423` | The longest beginning of the range that fits in the size limit, and the first entry if that does not fit. |
| `RaftStorage.AppendAgrees` | `src/server/src/raftgroup/storage.rs:180-187` | Cache and log stay in agreement when both take the same entries. |
| `RaftStorage.CompactAgrees` | `src/server/src/raftgroup/storage.rs:195-225` | The cache still agrees with what compaction leaves of the log, and dropping below the index is what compaction of the log means. |
| `RaftStorage.Storage.Entries` | `src/server/src/raftgroup/storage.rs:269-314` | Compacted exactly below the truncation point; otherwise a prefix of the log range, non-empty if the range is and all of it if that fits: what of the range lies before the cache is read first, as far as it fits, and then the cache as far as it fits in what is left, of which one entry is always taken. |
| `RaftStorage.ReadIsLongestFitIff` | `src/server/src/raftgroup/storage.rs:282-313` | Reading is exactly as if the range lay in one place, the longest beginning that fits, if and only if the cache does not split the range, what lies before it does not fit, or each entry that is added keeps the limit. |
| `RaftStorage.FirstCachedExceeds` | `src/server/src/raftgroup/storage.rs:303-311` | An instance: one entry fills the limit and the first of the cache is added nevertheless. |
| `RaftStorage.DataBudgetExceeds` | `src/server/src/raftgroup/storage.rs:303-311` | An instance: the limit is exceeded since what was read before the cache is counted by its data and not by its encoding. |
| `RaftEngine.LongestFitUnique` | `src/server/src/raftgroup/storage.rs:287-300` | The longest beginning that fits is unique, and it is everything exactly if everything fits or there is one entry. |
| `RaftStorage.Storage.Term` | `src/server/src/raftgroup/storage.rs:316-336` | The term of the log from the truncation point to the last index, Compacted below. |
| `RaftStorage.Storage.Write` | `src/server/src/raftgroup/storage.rs:152-188` | The fields and the engine, once the batch is written, hold the log with the entries appended, or the log reset to the snapshot, with the hard state that goes with it. |
| `RaftStorage.Storage.ResetTo` | `src/server/src/raftgroup/storage.rs:158-179` | A snapshot leaves an empty log at its position, in the fields and in the engine, and its index as commit index. |
| `RaftStorage.Storage.AppendEntries` | `src/server/src/raftgroup/storage.rs:180-184` | Entries replace everything from their first index on, in the engine as in the log, with the cache still agreeing. |
| `RaftStorage.Storage.CompactTo` | `src/server/src/raftgroup/storage.rs:195-225` | Fields and engine hold the compacted log; beyond the commit index the hard state lands under the local-state key, as the code does. |
| `RaftNode.Open` | `src/server/src/raftgroup/storage.rs:71-150` | Fails exactly on unreadable state, on entries detached from the truncation point and on entries missing after what was applied; otherwise rebuilds the log and caches exactly the entries not applied. |
| `RaftNode.WriteInitialState` | `src/server/src/raftgroup/storage.rs:463-547` | Whatever the engine held is replaced by the initial entries, committed, with truncation point zero. |
| `RaftNode.Bootstrap` | `src/server/src/raftgroup/node.rs:78-111` | A new replica opens on its initial entries with none applied. |
| `RaftNode.Node.HandleReady` | `src/server/src/raftgroup/node.rs:250-296` | One round of ready refines one step of the plain log, with the cache still covering everything not applied. |
| `RaftNode.Node.PostApply` | `src/server/src/raftgroup/storage.rs:190-193` | Draining after an apply is always within the cache and keeps it agreeing with the log. |
| `RaftNode.Node.Install` | `src/server/src/raftgroup/node.rs:340-397` | Installing a snapshot refines the reset of the plain log; term and vote are those of the hard state in the same ready, if any. |
| `RaftNode.Node.CompactLog` | `src/server/src/raftgroup/worker.rs:477-495` | A tick refines compaction of the plain log at the compaction point. |
| `RaftNode.Node.TryResetStorageState` | `src/server/src/raftgroup/node.rs:463-492` | A snapshot on disk replaces the log exactly when the log lacks its entry or holds an older term there; otherwise nothing changes. |
| `RaftNode.Node.Reopen` | `src/server/src/raftgroup/node.rs:78-111` | Reopening after a crash at any point never meets missing entries, and succeeds exactly when the local state was not overwritten and Raft accepts the applied and the commit index. |
| `RaftNode.Node.CompactThenReopen` | `src/server/src/raftgroup/storage.rs:195-225` | On a node whose local state is intact, a tick followed by a crash leaves a node that opens if and only if Raft accepts the start and the tick did not compact beyond the commit index in memory. |
| `RaftNode.LoseLocalState` | `src/server/src/raftgroup/storage.rs:217-221` | If Raft accepts a start with an applied index of two or more above the stored commit index, a new replica driven through such a run cannot be opened again. |
| `RaftNode.CoveredReplicaOpens` | `src/server/src/raftgroup/node.rs:78-111` | If Raft accepts exactly the starts whose commit index covers what is applied, a new replica opens again after any run. |
| `RaftNode.Node.Drive` | `src/server/src/raftgroup/node.rs:250-316` | Every run that respects the contract of Raft and whose starts it accepts: cache, storage, engine and recovery together behave as one plain log. |
| `TxnIds.StepKeepsInv` | `src/server/src/root/mod.rs:106-114` | Every atomic action of allocators, bumpers and leader changes keeps all grants of a leader below the ceiling persisted for it and above all earlier leaders. |
| `TxnIds.RunKeepsInv` | `src/server/src/root/mod.rs:950-977` | So does every interleaving. |
| `TxnIds.RunIsExecute` | `src/server/src/root/mod.rs:950-977` | A run is what executing its actions one by one leads to. |
| `TxnIds.LeadersAscend` | `src/server/src/root/mod.rs:291-297` | Each leader starts at or above everything its predecessors may still grant. |
| `TxnIds.GrantsNeverOverlap` | `src/server/src/root/mod.rs:950-977` | Over every interleaving no two grants overlap, ids of a later leader exceed those of an earlier one, and one leader grants in ascending order. |
| `TxnIds.AscendingIff` | `src/server/src/root/mod.rs:973-974` | Of two grants the later one has the larger ids if and only if it was not made by an earlier leader than the other. |
| `TxnIds.CeilingGrows` | `src/server/src/root/schema.rs:547-551` | The persisted ceiling never decreases although it is overwritten without a condition, and a new leader starts at it. |
| `TxnIds.BumpMakesRoom` | `src/server/src/root/mod.rs:106-114` | A bump makes room above both the ceiling in force and the clock, and publishes what was persisted. |
| `TxnIds.DroppedLeaderRefuses` | `src/server/src/root/mod.rs:346-348` | A leader that was dropped refuses every call that has not loaded its ceiling yet. |
| `TxnIds.ExchangeUnderCeiling` | `src/server/src/root/mod.rs:959-967` | An exchange stays under the ceiling if and only if its addition does not wrap. |
| `TxnIds.WrappingRequestOverlaps` | `src/server/src/root/mod.rs:959-967` | A run with a request that wraps, in which the same ids are granted twice. |
| `TxnIds.LateAnswerIsSmaller` | `src/server/src/root/mod.rs:973-974` | A run in which a deposed leader answers late with an id below one granted before. |
| `TxnKeys.PrefixInjective` | `src/schema/src/system/keys.rs:24-39` | The scan prefix determines tag and transaction. |
| `TxnKeys.KeyOrder` | `src/schema/src/system/keys.rs:41-61` | The keys of a transaction sort as commit, heartbeat, state. |
| `TxnKeys.KeysSeparate` | `src/schema/src/system/keys.rs:33-61` | A key of one transaction lies under the prefix of no other. |
| `TxnRecords.ExecuteOwn` | `src/client/src/txn.rs:67-241` | The conditional batch of each request does to the record what the record machine says, and the answer is the one that machine gives. |
| `TxnRecords.ExecuteOther` | `src/client/src/txn.rs:67-241` | A request leaves the records of all other transactions alone. |
| `TxnRecords.ExecuteMoves` | `src/client/src/txn.rs:67-241` | A record moves only from absent to running to committed or aborted, and its commit version exists exactly when committed and is written once. |
| `TxnRecords.RunMoves` | `src/client/src/txn.rs:67-241` | The same over every interleaving of any number of clients with retries; terminal states and the commit version never change. |
| `TxnRecords.AnswersHold` | `src/client/src/txn.rs:134-183` | Every answer a client saw stays true to the end of the run: Ok to commit means committed, Ok to abort means aborted. |
| `TxnRecords.AnswerMeans` | `src/client/src/txn.rs:67-241` | Each answer says what the request leaves behind, both ways: Ok to a commit exactly if it is then committed, to an abort exactly if aborted, not found exactly if absent. |
| `TxnRecords.NeverBothSucceed` | `src/client/src/txn.rs:197-241` | Commit and abort are never both answered Ok for one transaction. |
| `TxnRecords.SingleCommitter` | `src/client/src/txn.rs:134-183` | If all commits of a transaction carry one version, that version is what is recorded. |
| `TxnRecords.OkCommitIsRecordedIff` | `src/client/src/txn.rs:134-183` | An Ok to a commit means that its own version is recorded, then and for ever after, if and only if the record was running when the request was executed or held that version already. |
| `TxnRecords.TwoCommittersDisagree` | `src/client/src/txn.rs:160-183` | Otherwise a commit can be answered Ok while another version is recorded. |
| `TxnRecords.ScanReturnsRecord` | `src/client/src/txn.rs:245-266` | The prefix scan returns exactly the keys of the record, in order. |
| `TxnRecords.GetTxnRecord` | `src/client/src/txn.rs:186-191` | Scan and parse give back state, commit version and heartbeat of the record, and none exactly for an absent one. |
| `TxnRecords.RequestReadsBack` | `src/client/src/txn.rs:67-241` | After a heartbeat, a commit or an abort that took effect the record reads back its time, and a commit its version; after a begin it is running; a request that is refused or repeated leaves what was there. |
| `TxnRecords.ParsesIff` | `src/client/src/txn.rs:307-383` | Values are accepted exactly if there are none or they are those of a record: missing, foreign, extra or deleted keys, numbers of another width and unknown states are rejected. |
| `TxnRecords.BeginHeartbeat` | `src/client/src/txn.rs:69-69` | The heartbeat written at begin is read back as itself if and only if its bytes are the same in both directions. |
| `TxnRecords.BeginHeartbeatMisread` | `src/client/src/txn.rs:345-351` | A heartbeat that is misread. |
| `TxnRecords.StateValuesDistinct` | `src/client/src/txn.rs:353-389` | States are encoded distinctly and parsed back. |
| `TxnRecords.U64ValueRoundTrip` | `src/client/src/txn.rs:391-393` | Big-endian values are parsed back. |
| `Intents.StepKeepsInv` | `src/server/src/replica/eval/cmd_txn.rs:30-203` | Every step keeps the protocol invariant: an accepted intent stays until its transaction is decided, stored versions come from committed transactions only, and an intent will commit above all commits on its key. |
| `Intents.RunKeepsInv` | `src/server/src/replica/eval/cmd_txn.rs:30-203` | So does every interleaving of clients and resolvers. |
| `Intents.VisibleIffCommitted` | `src/server/src/replica/eval/cmd_txn.rs:117-172` | A key shows a value at a version if and only if a transaction that wrote it there has committed with that version; nothing running or aborted shows. |
| `Intents.StepShows` | `src/client/src/write_batch.rs:409-416` | Committing the record is the one step that shows anything, and it shows all writes of the transaction at once; settling or clearing intents changes nothing that is shown. |
| `Intents.SeenIsNewest` | `src/server/src/replica/eval/cmd_txn.rs:229-278` | When a transaction commits, what its conditions were evaluated against is still the newest value of the key, below its commit version. |
| `Intents.WriteIsEvaluated` | `src/server/src/replica/eval/cmd_txn.rs:52-106` | On a free key of a transaction still preparing, conditions and put are evaluated on what the key shows; an intent is placed exactly if they give an operation, and that is what the transaction writes; otherwise nothing changes. |
| `Intents.RunKeepsChained` | `src/server/src/replica/eval/cmd_txn.rs:229-278` | Over every run the value each committed write saw is what its key shows just below its version. |
| `Intents.NoLostUpdates` | `src/server/src/replica/eval/cmd_txn.rs:54-92` | In every run each committed write is what a request of its transaction made of the value that the key shows just below the commit version, so that no conditional write or increment is lost. |
| `Counters.IncrementAdds` | `src/server/src/replica/eval/cmd_txn.rs:205-227` | An addition to what a key shows gives the sum, wrapping around at 64 bits; a missing or deleted value counts as zero. |
| `Counters.IncrementsAddUp` | `src/server/src/replica/eval/cmd_txn.rs:205-227` | In every run, whatever transactions abort, wait or are resolved by others, a key that is only added to shows at every version the sum of what was committed on it up to there. |
| `Intents.SnapshotStable` | `src/server/src/replica/eval/cmd_get.rs:53-97` | What a key shows at a version drawn already never changes, unless an intent that will commit below it holds the key. |
| `Intents.ReadIsView` | `src/server/src/replica/eval/cmd_get.rs:53-97` | A read whose intent is resolved in any later state returns what the key shows at the version, if and only if it does not meet a committed no-op intent. |
| `Intents.NopRunMisread` | `src/server/src/replica/eval/latch.rs:451-463` | A run in which a key shows its value and a read at the newest version finds it deleted, because a transaction that only checked the key has just committed. |
| `Intents.KeyCanBeFreed` | `src/server/src/replica/eval/latch.rs:396-478` | From any state a resolver can free a key in at most two steps, without changing what any key shows and without touching other intents. |
| `Intents.ReadRepeats` | `src/server/src/replica/eval/latch.rs:354-385` | Whatever happens after a read was answered, the key goes on showing the value that was read. |
| `Intents.ReadsSeeOneState` | `src/server/src/replica/eval/cmd_get.rs:53-97` | Whenever in a run it takes place, a read at a version returns what its key shows at that version in the end: reads of any number of keys see one state. |
| `Intents.ReadReflectsIff` | `src/server/src/replica/eval/cmd_get.rs:53-97` | A read reflects a transaction that wrote its key if and only if that is committed by the end of the run, at or below the version read. |
| `Intents.ReadsAreAtomic` | `src/server/src/replica/eval/cmd_get.rs:53-97` | Of two keys that one transaction wrote, read at one version in different states, either both reads reflect it or neither does. |
| `Intents.EveryRun` | `src/server/src/replica/eval/cmd_txn.rs:30-203` | The invariant, atomic visibility and the chain of evaluated values in every run from the empty store. |
| `IntentStore.PlaceEncodes` | `src/server/src/replica/eval/cmd_txn.rs:66-106` | The batch of `write_intent` turns a store that holds a state into one that holds the state with the intent placed. |
| `IntentStore.SettleEncodes` | `src/server/src/replica/eval/cmd_txn.rs:145-151` | The batch of `commit_intent` or `clear_intent` turns it into one that holds the state with the intent settled. |
| `IntentStore.SettleBatchIs` | `src/server/src/replica/eval/cmd_txn.rs:145-151` | The batch in bytes: the intent is deleted, an assignment stores its data, a deletion a tombstone, a no-op nothing. |
| `IntentStore.RunEncodes` | `src/server/src/replica/eval/cmd_txn.rs:30-203` | Over every run whose ids stay below the version of intents, the batches of the steps leave a store that holds the state of the protocol. |
| `IntentStore.EveryRunEncodes` | `src/server/src/replica/eval/cmd_txn.rs:30-203` | The same from the empty store. |
| `IntentStore.ReadIntentAndNextKey` | `src/server/src/replica/eval/cmd_txn.rs:251-278` | Through the iterator: the intent on the key and the newest version below it. |
| `IntentStore.ReadKey` | `src/server/src/replica/eval/cmd_get.rs:53-97` | The loop over the versions of the key returns what the protocol says a read returns. |
| `IntentWaiters.ConsiderateIsTruthful` | `src/server/src/replica/eval/latch.rs:396-478` | If no resolver settles an intent others wait for, each waiter is told the outcome of the transaction it waits for. |
| `IntentWaiters.TruthfulFuturesIff` | `src/server/src/replica/eval/latch.rs:480-491` | All answers to come are right, in every such future, if and only if everyone waits for the intent that is there. |
| `IntentWaiters.Stranded` | `src/server/src/replica/eval/latch.rs:448-463` | Whoever is left waiting after a resolver settled the intent is answered with the outcome of the next transaction on the key. |
| `IntentWaiters.StrandingRunLies` | `src/server/src/replica/eval/latch.rs:448-463` | A run from an untouched key in which a waiter for transaction 1 is told the outcome of transaction 2. |
| `Apply.DelegateConserves` | `src/server/src/raftgroup/applier.rs:74-93` | Delegating loses nobody: the displaced context is answered, the new one queued. |
| `Apply.RespondConserves` | `src/server/src/raftgroup/applier.rs:229-241` | Applying entries moves proposals from the queue to the answers, each once. |
| `Apply.ResponsesTrue` | `src/server/src/raftgroup/applier.rs:229-241` | Ok only for a proposal whose exact index and term was applied; an error only if another term was applied at its index. |
| `Apply.ResponsesArePrefix` | `src/server/src/raftgroup/applier.rs:229-241` | Answers go to the head of the queue in order; the rest stays. |
| `Apply.OrderedQueueAnswered` | `src/server/src/raftgroup/applier.rs:143-190` | In an ordered queue everybody up to the last applied index is answered, with Ok exactly for those whose entry it was. |
| `Apply.AnsweredIff` | `src/server/src/raftgroup/applier.rs:229-241` | Whatever the queue, applying consecutive entries answers a proposal if and only if they start at or below the head, reach its index, and the queue is in order up to it. |
| `Apply.QueueDrainsIff` | `src/server/src/raftgroup/applier.rs:229-241` | A queue whose indexes have all been applied is left empty if and only if it was in order. |
| `Apply.DelegateKeepsOrder` | `src/server/src/raftgroup/applier.rs:83-91` | Delegation keeps the queue in order if and only if at most one queued index is not below the new one. |
| `Apply.DisorderStarvesProposal` | `src/server/src/raftgroup/applier.rs:83-91` | A queue out of order in which an applied proposal is never answered. |
| `Apply.Applier.DelegateProposal` | `src/server/src/raftgroup/applier.rs:74-93` | Queue and answers after delegating; every proposal delegated so far is queued or answered exactly once. |
| `Apply.Applier.DelegateReadRequests` | `src/server/src/raftgroup/applier.rs:95-106` | Readers are filed under a context never used before. |
| `Apply.Applier.ResponseReadStates` | `src/server/src/raftgroup/applier.rs:252-265` | The readers of the states already applied, and nobody else, are answered and no longer wait; the other states are kept. |
| `Apply.Applier.ApplyReadStates` | `src/server/src/raftgroup/applier.rs:108-118` | Readers of states already applied are answered, and nobody else; the other states are cached. |
| `Apply.Applier.ApplyEntries` | `src/server/src/raftgroup/applier.rs:143-190` | Applied indexes stay consecutive, answers and queue follow, and exactly the readers of the cached states that are now applied are answered. |
| `Apply.Applier.ResponseProposal` | `src/server/src/raftgroup/applier.rs:229-241` | Only a head with the applied index is answered, with Ok exactly if its term matches. |
| `Apply.Applier.ApplySnapshot` | `src/server/src/raftgroup/applier.rs:125-131` | The applied index jumps to what the state machine has flushed and nobody is answered by it. |
| `Apply.ReadNode.LeaseRead` | `src/server/src/raftgroup/node.rs:181-184` | The reader is queued, and what is committed at that moment is what it has to see. |
| `Apply.ReadNode.ReadIndex` | `src/server/src/raftgroup/node.rs:186-189` | The same for a read-index request. |
| `Apply.ReadNode.AdvanceReadRequests` | `src/server/src/raftgroup/node.rs:221-242` | On a leader lease reads are filed under the commit index; elsewhere they are refused; read-index requests go to Raft under a fresh context. |
| `Apply.ReadNode.HandleApply` | `src/server/src/raftgroup/node.rs:340-372` | Exactly the readers whose states are applied by the end are answered, of the lease reads, of what Raft hands out and, if entries were applied, of the cached states. |
| `Apply.ReadNode.ReadsSeeCommitted` | `src/server/src/raftgroup/node.rs:221-242` | A reader answered Ok was answered after everything committed when it asked had been applied. |
| `GroupClient.Client.NextAccessNodeId` | `src/client/src/group_client.rs:193-203` | Each replica in turn and the first again, then none. |
| `GroupClient.Client.RecommendClient` | `src/client/src/group_client.rs:150-159` | The cached node if it connects, otherwise the next picks in turn, until the first one that connects; every attempt uses up one of the picks left. |
| `GroupClient.Client.ApplyStatus` | `src/client/src/group_client.rs:228-343` | The term grows if and only if a leader of a newer term is named, the epoch if and only if a newer descriptor is usable; the client then knows that leader or descriptor and turns to it; retry exactly after retryable replies, panic exactly on an epoch that is not newer. |
| `GroupClient.NodeFirst` | `src/client/src/group_client.rs:638-644` | The replicas permuted with the node in front if it is known. |
| `GroupClient.ReplicaFirst` | `src/client/src/group_client.rs:646-656` | The replicas permuted with the leader in front, added if it was not known. |
| `GroupClient.Client.Attempt` | `src/client/src/group_client.rs:132-145` | One round of the loop: it ends, learns a newer epoch or term, or uses up a pick; the request goes to the node the client stands on whenever that connects. |
| `GroupClient.Client.Invoke` | `src/client/src/group_client.rs:118-148` | The loop ends under bounded epochs and terms; between two growths it sends at most replicas + 2 requests; after a reply that names a newer leader or epoch the next request goes there whenever the node connects; it gives up without having learnt anything only after picking every replica in order and the first again; nothing is sent after a reply that is not retryable, in particular no write after a transport error. |
| `GroupClient.RefusedIff` | `src/client/src/group_client.rs:228-283` | The replies after which a request is not sent again. |
| `Router.ClaimedIsWinner` | `src/client/src/rpc/router.rs:200-211` | The entry kept under the epoch guard is the first of the descriptors with the highest epoch that contain the shard; there is none only if no descriptor does. |
| `Router.FoundIsOwner` | `src/client/src/rpc/router.rs:133-142` | Under the promise of the stream a shard is routed to a group if and only if the latest descriptor of the group contains it and no other claim is better. |
| `Router.OwnerUnique` | `src/client/src/rpc/router.rs:133-142` | At most one group owns a shard. |
| `Router.ListedIsLast` | `src/client/src/rpc/router.rs:213-222` | The list of a collection has at most one entry per shard id: the last received, and nothing else. |
| `Router.LeaderStateIs` | `src/client/src/rpc/router.rs:295-314` | The replica that claims to lead with the highest term, the last of equals; none exactly if the state names no leader or nobody claims to lead. |
| `Router.KnownIs` | `src/client/src/rpc/router.rs:184-198` | What is known of a group: epoch and replicas of its latest descriptor, each replica under its id, and the leader of its latest state. |
| `Router.LatestIsLast` | `src/client/src/rpc/router.rs:184-198` | The latest descriptor is the last one received for the group. |
| `Router.LatestStateIsLast` | `src/client/src/rpc/router.rs:153-161` | The latest state is the last one received for the group. |
| `Router.State.FindGroupByShard` | `src/client/src/rpc/router.rs:133-142` | The state of the owner, or none if there is no owner. |
| `Router.State.ApplyGroupState` | `src/client/src/rpc/router.rs:153-161` | All tables say what the events say, also when the state comes before its group. |
| `Router.State.ApplyGroupDescriptor` | `src/client/src/rpc/router.rs:184-223` | The loop over the shards leaves all tables as the events with this descriptor say. |
| `Router.State.Watch` | `src/client/src/rpc/router.rs:270-292` | The same after any stream of events. |
| `Router.State.FindShard` | `src/client/src/rpc/router.rs:74-100` | The first shard of the collection that passes the range test, with the state of its owner; nothing if none passes or that one has no owner. |
| `Router.PassesIffBelongs` | `src/client/src/rpc/router.rs:84-97` | The range test agrees with `belong_to` if and only if the shard has no range or no end, or the key is below the start or equal to the end. |
| `Router.SplitMisroutes` | `src/client/src/rpc/router.rs:84-97` | In a collection split in two, every key above the split belongs to the upper shard and the search settles on the lower one. |
| `TaskTimer.Push` | `src/server/src/schedule/scheduler.rs:285-290` | The heap stays ordered and gains exactly the new entry. |
| `TaskTimer.ArmedIsLast` | `src/server/src/schedule/scheduler.rs:285-290` | A task waits for a deadline if and only if its last arming said so and no later call was due to fire it. |
| `TaskTimer.FiredExactly` | `src/server/src/schedule/scheduler.rs:300-314` | A call hands out a task if and only if its latest deadline is due and was not handed out before. |
| `TaskTimer.FiresOnce` | `src/server/src/schedule/scheduler.rs:300-314` | Each arming fires at most once. |
| `TaskTimer.Timer.Add` | `src/server/src/schedule/scheduler.rs:285-290` | The latest deadline replaces the earlier one, although its entry stays in the heap. |
| `TaskTimer.Timer.WakeUp` | `src/server/src/schedule/scheduler.rs:292-298` | The wake-up is the time of an entry, never later than the earliest live deadline, and absent if and only if the heap is empty. |
| `TaskTimer.BeforeIsStrict` | `src/server/src/schedule/scheduler.rs:268-272` | Of two timers exactly one comes first: the earlier deadline, or the older of equals. |
| `TaskTimer.Timer.TakeFiredTasks` | `src/server/src/schedule/scheduler.rs:300-314` | The popping loop returns exactly those tasks that are due, which wait no longer, and leaves no due entry. |
| `TaskTimer.Timer.Drive` | `src/server/src/schedule/scheduler.rs:268-314` | Any sequence of calls hands out what the plain map from task to deadline hands out. |
| `OngoingStats.KeptIsNewest` | `src/server/src/root/mod.rs:1176-1202` | What is kept for a group is the first state with its highest epoch, and nothing only if none was received. |
| `OngoingStats.EpochsGrow` | `src/server/src/root/mod.rs:1176-1202` | More updates never lower the epoch of a group and leave it alone unless they raise it. |
| `OngoingStats.Stats.ReplaceState` | `src/server/src/root/mod.rs:1176-1202` | The table is what all updates say, and true is returned if and only if something changed. |
| `OngoingStats.CountIs` | `src/server/src/root/mod.rs:1207-1222` | Replicas are counted with multiplicity. |
| `OngoingStats.AddAll` | `src/server/src/root/mod.rs:1207-1222` | Every replica of a list counts once on its node, up or down. |
| `OngoingStats.Stats.RebuildView` | `src/server/src/root/mod.rs:1204-1226` | In whatever order groups are visited, each node has the sum over groups of incoming minus outgoing, and the total over nodes is all incoming minus all outgoing. |
| `OngoingStats.Stats.HandleUpdate` | `src/server/src/root/mod.rs:1128-1143` | After any updates table and view are consistent with all of them, although the view is rebuilt only when something changed. |
| `OngoingStats.Stats.GetNodeDelta` | `src/server/src/root/mod.rs:1145-1161` | The sum over groups plus what jobs have under way; a missing node counts as zero. |
| `OngoingStats.Stats.Reset` | `src/server/src/root/mod.rs:1163-1172` | Everything is forgotten, consistently. |
| `WriteBatch.Context.constructor` | `src/client/src/write_batch.rs:357-375` | Deletes first, then puts, each numbered within its kind, none done, and the counter at their number. |
| `WriteBatch.Spawn` | `src/client/src/write_batch.rs:468-495` | One request for each write that is not done, in order, up to the first such write whose shard is unknown; an error exactly if there is one. |
| `WriteBatch.Context.Receive` | `src/client/src/write_batch.rs:497-503` | An accepted write is marked with its response; the counter is the number of writes not done and does not underflow. |
| `WriteBatch.Context.Collect` | `src/client/src/write_batch.rs:497-513` | Answers are taken in order up to a fatal one; without one, exactly the accepted writes are done. |
| `WriteBatch.Context.PrepareOnce` | `src/client/src/write_batch.rs:465-516` | A round sends exactly the writes not done, fails exactly if one of them has no shard or a fatal answer, marks exactly the accepted ones, and asks for another round exactly while some are left. |
| `WriteBatch.Context.PrepareIntents` | `src/client/src/write_batch.rs:456-463` | From a fresh batch it succeeds if and only if within the retries there is time for every write is accepted and nothing goes wrong before; then every write is done. |
| `WriteBatch.Responses` | `src/client/src/write_batch.rs:418-430` | The response lists line up one to one with the deletes and the puts. |
| `WriteBatch.Context.CommitInner` | `src/client/src/write_batch.rs:409-434` | Committed if and only if the batch can be prepared, a commit version is drawn and the record is accepted; the record is sent only after every intent was accepted, none sent again since; each previous value is the one in the last, accepted answer for that delete or put. |
| `WriteBatch.FlagsExactIff` | `src/client/src/write_batch.rs:568-585` | The flags set while committing intents are those of the committed intents if and only if the batch does not mix deletes and puts. |
| `WriteBatch.MixedBatchMisflags` | `src/client/src/write_batch.rs:568-585` | With one delete and one put, the put is not flagged although both intents are committed. |
| `WriteBatch.CommitRound` | `src/client/src/write_batch.rs:551-597` | The round ends well if and only if every intent was committed, never asks for another round, and its counter does not underflow. |

## Left out

- RocksDB, raft_engine, raft-rs, tonic and tokio: a sorted finite map, a sequence of commands, the contract of Raft's ready, arbitrary replies and arbitrary interleavings stand for them.
- I/O errors of the stores, write-ahead-log options and a crash that loses writes not synced: a batch takes effect as a whole.
- Protobuf: encoding is taken as an arbitrary pair of functions of which decoding inverts encoding.
- RaftNode.Node.Reopen: which applied and commit index raft-rs accepts at a start is a parameter, since raft-rs is not part of this model.
- Clocks, timeouts, retry intervals and the outcome of connecting: parameters that may take any value.
- TxnIds.GrantsNeverOverlap: the runs are those in which no addition wraps, and only the newest root leader can still persist a ceiling, as replication of the root group ensures.
- TxnRecords.ExecuteOwn: the versions the transaction table itself keeps are not modelled; a batch reads and replaces the newest value of each key.
- The hash tag of a transaction: any function of its id.
- Intents.StepKeepsInv: a request on a key is one step, since it is evaluated and applied under the key's latch; ids are drawn in ascending order, which holds unless a deposed root leader answers late (`TxnIds.LateAnswerIsSmaller`); a request that has been answered is not executed again.
- Intents.ReadIsView: a reader that waited is told the outcome of the transaction it waits for, which `IntentWaiters` examines; a read at a version not drawn yet is covered when nothing happens between reading and resolving.
- IntentStore.RunEncodes: requests name keys that are not empty, as `mvcc_key` demands, and ids stay below the version of intents.
- Scans over many keys with intents, and `eval_conditions` in detail: an intent is any function of the newest value.
- Counters.IncrementAdds: `decode_i64` is not part of this model; it is taken to accept exactly eight bytes, big-endian, as `to_be_bytes` writes them.
- Writes to a shard that is being moved (forwarding), the shard-move controller and the group state machine.
- Latch acquisition and its order.
- RaftStorage.Storage.Entries: the whole range within the size limit is promised for entries whose data is no longer than their encoding, since part of the budget is counted by data and part by encoding.
- `Storage::snapshot`, configuration changes and the testing knob for new peers.
- GroupClient.Client.Invoke: a reply is classified already, and whether a request is executable under a descriptor is part of the descriptor; the panic on an epoch that is not newer is an outcome.
- GroupClient: refreshing a lazy client from the router before the first request.
- Router: databases, collections by name, node addresses and deletions, which only replace map entries.
- TaskTimer: the binary heap of the standard library is the sequence in which it gives its entries back.
- OngoingStats: job statistics are a map that is replaced as a whole.
- WriteBatch.Context.CommitInner: starting the transaction and its heartbeats, which `TxnRecords` covers; intents of a batch that fails are left to resolvers, as in the code.
- Background jobs, replica and shard scheduling policies, metrics, configuration, bootstrap, the shell and the etcd layer.
