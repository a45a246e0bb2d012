# Verification of the txn-db commit protocol

`txn-db` is a multi-version key-value store with snapshot isolation, optional
serializability and an optional durable log. This project models its commit protocol and
proves what the protocol is for, over every interleaving, every run and every crash. Verify
with `dafny verify dfyconfig.toml`.

## How the model is built

Four layers, each proved against the next.

1. **The protocol as a state machine** (`Protocol.dfy`). A state holds the oracle (next
   timestamp, exact watermark, live readers), the version chains, the live transactions with
   how far each has come, running garbage collections with the watermark they read when they
   began, the log with the part of it known to be durable, and the history of commits in the
   order of their critical sections. Steps of different transactions, of garbage collections
   and of crashes interleave in any order: begin, read, write, allocate, validate-and-apply,
   append, sync, failed append, report, unregister, begin/prune/end of a collection, crash
   and reopen. `ProtocolInv.dfy`, `LogInv.dfy` and `Reach.dfy` prove the invariant that every
   step keeps. `History.dfy` states what a history of validated commits means without the
   protocol, `SerialOrders.dfy` how snapshots and timestamps fit its apply order, and
   `AnySerialOrder.dfy` which snapshots fit into any serial order at all. The theorems are in `Isolation.dfy`, `Serializability.dfy`, `Durability.dfy` and
   `Ledger.dfy`.
2. **The store at lock level** (`FineStore.dfy`). Commits take their shards' locks one at a
   time in ascending order, validate key by key, push key by key and release one lock at a
   time; reads and garbage collection hold one shard. `Linearizable.dfy` proves that all this
   acts as one unsharded map on which each operation takes effect at one instant,
   `Progress.dfy` that it cannot deadlock and that operations end, and
   `StoreInProtocol.dfy` that those instants are the store steps of the protocol.
   `Concurrent.dfy` puts the protocol beside the locking store, with any number of calls
   outstanding, and proves that the two stay in agreement when the protocol moves at the
   instant at which a store operation takes effect. `Coordinators.dfy` is the system without
   the protocol: there a coordinator learns of a verdict or a value when its call returns it.
   Every run of that system from a fresh database is proved to follow a run of the protocol.
3. **The code as it works in place**: the oracle (`Oracle.dfy`), the sharded store
   (`MemoryStore.dfy`), the encoder, the cursor, the decoder and the log (`CommitLog.dfy`),
   the coordinator and recovery (`Db.dfy`), transactions, snapshots and autocommit
   (`Transaction.dfy`). These are classes with the source's fields, and methods with the
   source's branches and loops. Each is proved against a function on values: `Watermark.dfy`,
   `VersionChain.dfy`, `StoreSpec.dfy`, `Batch.dfy`, `Masks.dfy`, `ShardLists.dfy`, `Codec.dfy` (on
   `Framing.dfy`), `Recovery.dfy`. Where a function says how the code computes something, it
   is also proved what that comes to without it: what stays of a chain, which bytes make a
   record (`RecordLayout.dfy`), what a call leaves behind.
4. **The classes run the protocol.** `Db` carries the protocol state its objects are in as a
   ghost field, and its invariant says that the state is reachable and is what the oracle,
   the store and the bytes of the log hold. Every critical section of the coordinator is
   proved to be one step of the protocol, whatever the other transactions are doing.
   `Calls.dfy` puts the sections of a whole call together. So what is proved of reachable
   states holds of the objects: `Transaction.Get` returns the replay of the commits up to the
   snapshot, and `Open` over the remains of a log is the protocol's crash step.

## Where the code and its documentation disagree

The model follows the code. Each point below names a concrete run or input that shows it and
the exact condition under which the documented behaviour holds.

- *Visibility after a successful commit* (`src/txn.rs:236-237`). A commit that returned `Ok`
  is not visible to every transaction begun afterwards: the watermark waits for smaller
  timestamps. Run: `AcknowledgedNotYetVisible`. Exact condition: `VisibleWhenNonePending`.
- *The read-only anomaly* (`src/db.rs:329-333`). Serializable writers do not rule it out: a
  read-only snapshot can see a state that no serial order of the writers passes through.
  Run: `ReadOnlyAnomaly`. Exact condition: `SnapshotFitsSomeOrder`, no serializable writer
  above the snapshot missed a write at or below it. A serial order has the same commits, the
  same versions of every key and, where each serializable writer stands, the versions that
  writer had read; it need not respect real time. One order then has a place for all such
  snapshots at once (`SnapshotsFitOneOrder`). For the order of the critical sections itself
  the condition is `SnapshotIsSerialState`, no commit above the snapshot applied before one
  at or below it; it is sufficient for the other (`NoneOvertakenFits`) and not necessary (run:
  `OvertakenHarmlessly`), and every snapshot begun with no commit in flight meets it as long
  as it lives (`QuiescentSnapshotIsSerial`). Whatever the snapshot, it shows whole commits,
  all of them up to a timestamp (`SnapshotIsReplay`).
- *The serialization order* is that of the critical sections of `try_commit`, not of the
  commit timestamps. Run: `ReadOnlyAnomaly`, in which the timestamp order does not explain
  what the second writer read. Exact condition for it to be a serial order too:
  `TimestampOrderInRuns`, no serializable writer read a key that a commit with a smaller
  timestamp wrote after it. It is also the condition for every snapshot to have its place in
  one order (`AllFitExactly`).
- *Failed appends* (`src/db.rs:106-109`). The writes are already applied and their timestamp
  is reported, so they become visible although the caller gets an error, until a crash takes
  them away. Run: `FailedAppendIsVisible`. A transaction that has read them can be
  acknowledged and survive the crash they do not survive. Run: `SurvivorReadLostWrite`. A
  crash loses visible commits exactly when such an append has failed at or below the
  watermark or the cut takes the record of such a commit (`LosesVisibleExactly`). Then, and
  only then, recovery is not exact (`RecoveryIsExact`); the survivors are still serial exactly
  if each serializable one has read surviving values (`CrashKeepsSerial`). In runs whose
  appends succeed nothing of this happens (`CrashLosesNothingVisible`, `RunsAreSerial`).
- *A crash before the sync* (`src/db.rs:98-102`). A record that is written and not yet synced
  may also survive if `wal-db` keeps it, and then the commit is recovered although it was
  never acknowledged. Run: `UnacknowledgedIsRecovered`. Exact condition: a commit is recovered
  if and only if its record survives (`RecoveredStoreIsCommitted`).
- *Autocommit writes always install their value* (`src/db.rs:419-422`). While a stalled
  timestamp keeps the watermark below the newest version of the key, every retry conflicts.
  Run: `AutocommitStalls`. Exact condition: an attempt lands if and only if the key is not
  stalled (`AttemptLands`, `StalledStays`, `NeverLands`); with no commit in flight none is
  (`QuiescentLands`).
- *Transfers* (`examples/bank_transfer.rs:37-57`). A transfer from an account to itself
  creates money. Run: `SelfTransferCreatesMoney`. Exact condition: `TransferConserves`.
- *Lengths from 2^32 on* (`src/durable.rs:103-110`) are truncated when written. Exact
  condition for the round trip: `RoundTrip`. Beyond it a record is rejected, unless a record
  in range has the same bytes; then it is read as that one (`OutOfRangeOutcome`). Input:
  `OversizedKeyIsMisread`, a key of 2^32 bytes that is recovered as a long value of the empty
  key.

## Model

| member | source | states |
|---|---|---|
| `VersionChain.VisibleIsNewest` | src/store.rs:427-434 | on an ascending chain a read returns the value of the one version at or below the snapshot with nothing newer at or below it; a tombstone reads as absent |
| `VersionChain.VisibleIsAbsent` | src/store.rs:427-434 | a key with no version at or below the snapshot reads as absent |
| `VersionChain.PrunedReadsSame` | src/store.rs:387-414 | whatever pruning may leave of a chain shows the same value, and gives the same conflict verdict, at every snapshot at or above the low watermark |
| `VersionChain.PrunedAgain` | src/store.rs:390-411 | pruning what is left, at the same or an older watermark, leaves such a chain again |
| `VersionChain.PrunedAfterPush` | src/store.rs:376-383 | so does a commit between two prunings |
| `VersionChain.PruneIsMinimal` | src/store.rs:394-408 | after pruning at most one version is at or below the watermark, no lone passed tombstone is left, the chain still ascends, and pruning again takes nothing |
| `VersionChain.PruneKeepsOnlyReadVersions` | src/store.rs:392-399 | every version kept is the one that some snapshot at or above the watermark reads |
| `VersionChain.PruneKeepsExactly` | src/store.rs:391-411 | a version of an ascending chain stays if and only if it is above the watermark, or is the newest one at or below it and has a value or a version of the chain above the watermark after it; what stays keeps its order |
| `VersionChain.OneKept` | src/store.rs:391-411 | that determines what is left of the chain |
| `VersionChain.NewerThanExactly` | src/store.rs:418-422 | a key conflicts if and only if some version of it is newer than the snapshot |
| `StoreSpec.SortSorts` | src/db.rs:255-257 | the replay order is by commit timestamp |
| `StoreSpec.InstalledAscends` | src/store.rs:289-292 | replay in that order pushes every version at the end of a strictly ascending chain |
| `StoreSpec.RecoveredChain` | src/db.rs:252-264 | for any order of the log, recovery builds for each key an ascending chain of exactly the logged versions |
| `StoreSpec.HighestBounds` | src/db.rs:260-262 | the timestamp recovery resumes from is the largest in the log |
| `StoreSpec.PruneKeysExactly` | src/store.rs:387-414 | pruning leaves of the chain of every key it visits exactly what stays, and of the others everything |
| `Batch.PushAllIsApply` | src/store.rs:375-383 | pushing the entries of a batch one by one installs its write set at once, if its keys are distinct |
| `Batch.RepeatedKeyPushesTwice` | src/store.rs:375-383 | with a repeated key it gives the key two versions with one timestamp |
| `Watermark.CatchUpExact` | src/oracle.rs:160-166 | catching up ends at the largest timestamp below which all are reported, for any set that completed out of order |
| `Watermark.ReportExact` | src/oracle.rs:153-169 | one report keeps the watermark exact and never moves it back |
| `Watermark.ExactIsUnique` | src/oracle.rs:153-169 | the reported timestamps determine the watermark and the ones kept aside |
| `Watermark.ReportAllExact` | src/oracle.rs:153-169 | any sequence of distinct reports leaves the exact summary of them |
| `Watermark.AnyOrderCompletes` | src/oracle.rs:153-169 | reporting n consecutive timestamps in any order ends at the last of them with none kept aside |
| `Watermark.LowWatermark` | src/oracle.rs:138-144 | the low watermark is the oldest registered reader, or the watermark when there is none |
| `OracleImpl.Oracle.constructor` | src/oracle.rs:57-67 | a new oracle hands out 1 first and reads at 0 |
| `OracleImpl.Oracle.Recovered` | src/oracle.rs:76-87 | a recovered oracle reads at the highest timestamp and hands out its successor, which for the largest 64-bit number wraps to zero |
| `OracleImpl.Oracle.ReadTs` | src/oracle.rs:92-94 | the lock-free copy of the watermark is the watermark |
| `OracleImpl.Oracle.AllocCommitTs` | src/oracle.rs:98-100 | the timestamp is the next one, above the watermark and never reported, exactly until the 64-bit counter has wrapped |
| `OracleImpl.Oracle.BeginReader` | src/oracle.rs:109-114 | registers one more reader at the watermark it returns |
| `OracleImpl.Oracle.EndReader` | src/oracle.rs:117-130 | takes one registration away, and does nothing for a reader that is not registered |
| `OracleImpl.Oracle.OldestReader` | src/oracle.rs:138-144 | returns the low watermark of the registered readers |
| `OracleImpl.Oracle.CommitDone` | src/oracle.rs:153-169 | the fields become those of the exact summary with the timestamp added, and the read timestamp never decreases |
| `OracleImpl.Oracle.CatchUpInPlace` | src/oracle.rs:160-166 | the loop ends and does what catching up means |
| `Masks.RoundUp` | src/store.rs:247 | the exponent found is that of the least power of two that is large enough |
| `ShardLists.SortDedupSorts` | src/store.rs:345-351 | the lock list is strictly ascending and holds exactly the touched shards |
| `ShardLists.LockList` | src/store.rs:339-351 | it holds the shard of every written and every read key, so no key is skipped, and no other shard |
| `ShardLists.BinarySearch` | src/store.rs:361 | finds the position of a shard in the sorted list, or shows that it is not there |
| `MemoryStoreImpl.Retain` | src/store.rs:391-411 | the closure leaves of a chain exactly the versions that stay, and counts what it takes |
| `MemoryStoreImpl.MemoryStore.WithShards` | src/store.rs:246-258 | the store is empty, and its shard count is the requested one rounded up to a power of two, at least one |
| `MemoryStoreImpl.MemoryStore.Get` | src/store.rs:306-310 | a read of the key's shard is the snapshot read of the unsharded store |
| `MemoryStoreImpl.MemoryStore.Changed` | src/store.rs:361-362 | the guard found for a key is the one of its shard, so the verdict is that of the unsharded store |
| `MemoryStoreImpl.MemoryStore.CheckWrites` | src/store.rs:360-366 | the first written key that has changed, or none |
| `MemoryStoreImpl.MemoryStore.CheckReads` | src/store.rs:367-373 | the first read key that has changed, or none |
| `MemoryStoreImpl.MemoryStore.ApplyBatch` | src/store.rs:375-383 | every entry is pushed on the chain of its key |
| `MemoryStoreImpl.MemoryStore.TryCommitOne` | src/store.rs:324-337 | the path for one write and no reads meets the contract of the general one |
| `MemoryStoreImpl.MemoryStore.TryCommitMany` | src/store.rs:339-384 | all or nothing: every key passes and every write is installed, or the first conflict is reported and nothing changes |
| `MemoryStoreImpl.MemoryStore.TryCommit` | src/store.rs:312-385 | the same for whichever path is taken |
| `MemoryStoreImpl.OneReport` | src/store.rs:324-373 | the contract fixes the answer, so the fast path and the general path give the same answer, down to the key length of the conflict |
| `Masks.MaskIsRemainder` | src/store.rs:283-285 | masking a hash with a power of two less one picks the shard by the remainder, hence one that exists |
| `MemoryStoreImpl.MemoryStore.InstallRecovered` | src/store.rs:294-302 | pushes every write of a recovered commit without validating |
| `MemoryStoreImpl.MemoryStore.PruneKey` | src/store.rs:391-411 | of one chain exactly the versions that stay are left, and the key is dropped if there are none; the count is right and the other keys are untouched |
| `MemoryStoreImpl.MemoryStore.PruneShard` | src/store.rs:389-412 | so it is for every key of one shard, the others untouched; versions before are versions after plus those counted |
| `MemoryStoreImpl.MemoryStore.CollectGarbage` | src/store.rs:387-414 | so it is for every key of the store, shard after shard; versions before are versions after plus the returned count |
| `FineStore.LocksAfter` | src/store.rs:353-356 | a step gains no lock but the one it was waiting for |
| `FineStore.OnlyHeldChange` | src/store.rs:375-383 | a step changes only chains in shards its operation holds for writing |
| `FineStore.InvAfter` | src/store.rs:305-415 | mutual exclusion, the lock plan, and what an operation has validated survive every step of every operation |
| `Linearizable.HolderSeesAtomic` | src/store.rs:306-310 | whoever holds a shard finds in it exactly the atomic chains |
| `Linearizable.SameVerdict` | src/store.rs:358-373 | key-by-key validation decides as one validation of all keys at one instant |
| `Linearizable.CommitTakesEffect` | src/store.rs:375-383 | at the instant validation is complete, all writes take effect on the atomic store, while the shards still lack them |
| `Linearizable.PushTakesPlace` | src/store.rs:376-383 | pushing an entry brings the shards closer to the atomic store and nobody else can tell |
| `Linearizable.PruneTakesEffect` | src/store.rs:389-412 | garbage collection of a shard is one atomic pruning of its keys |
| `Linearizable.RunIsLinearizable` | src/store.rs:305-415 | every run of the locking store simulates the atomic store: same results, same chains but for entries of commits still applying |
| `Linearizable.ReturnsAreAtomic` | src/store.rs:305-415 | what commits and reads return is what the atomic store answered at their instant; with no commit applying the shards are the atomic store |
| `Linearizable.CollectionVisitsAll` | src/store.rs:387-414 | in every run a collection that has finished has had one pruning instant for each shard, in order |
| `Progress.HolderWaitsHigher` | src/store.rs:343-356 | an operation that holds a lock and waits is a commit, and waits for a higher shard |
| `Progress.SomeoneCanStep` | src/store.rs:343-356 | no deadlock: while any operation is unfinished, some operation can step |
| `Progress.BudgetShrinks` | src/store.rs:305-415 | every step uses up some of a finite budget |
| `Progress.RunsAreBounded` | src/store.rs:305-415 | without new calls, no run is longer than that budget |
| `StoreInProtocol.ValidatedKeys` | src/txn.rs:271-280 | the keys checked are the written ones and the read ones, in whatever order they are listed |
| `StoreInProtocol.CommitEventIsStep` | src/txn.rs:266-283 | the atomic commit event of a transaction is the protocol's commit step |
| `StoreInProtocol.GetEventIsStep` | src/txn.rs:168-179 | the atomic read event is the protocol's read step |
| `StoreInProtocol.PruneEventIsStep` | src/store.rs:389-412 | the atomic pruning of a shard is the protocol's pruning step |
| `Concurrent.EventIsEffect` | src/store.rs:305-415 | at its instant, an operation called by a coordinator does to the store what the protocol's step for it does |
| `Concurrent.MoveInv` | src/db.rs:80-115 | with any calls outstanding, every move of a coordinator or a store operation keeps their views in agreement |
| `Concurrent.RunIsProtocolRun` | src/db.rs:80-115 | in every run of the two together the protocol has made a run of its own, with each store operation taken whole at one instant |
| `Concurrent.ReturnsAreTrue` | src/store.rs:305-415 | what a call returns is what the protocol did: the commit's verdict, or the replay of the commits up to the snapshot |
| `Concurrent.ShardsAreChains` | src/store.rs:305-415 | with no commit half applied the shards hold the protocol's store |
| `Coordinators.MoveFollows` | src/db.rs:80-115 | a coordinator that hears of the store only by what its calls return differs from the protocol only in answers still on their way, after every move |
| `Coordinators.RunFollows` | src/db.rs:80-115 | so it is along every run, crashes included |
| `Coordinators.RealRunIsProtocolRun` | src/db.rs:80-115 | every run from a fresh database has a run of the protocol with the same oracle, log and idle handles, in which every value handed out is the replay up to its snapshot and, with no commit half applied, the shards are the store |
| `History.FirstCommitterWins` | src/store.rs:358-373 | of two commits on a common key, the later one by timestamp had the earlier one in its snapshot and was applied later |
| `History.ChainAscends` | src/store.rs:167-169 | commits apply out of timestamp order, yet every chain strictly ascends |
| `History.ReadIsReplay` | src/store.rs:427-434 | a chain read at a timestamp is the timestamp-order replay of all commits up to it |
| `History.LaterCommitInvisible` | src/oracle.rs:109-114 | a commit above a snapshot never changes what it shows |
| `History.ApplyOrderIsSerial` | src/store.rs:358-373 | run one at a time in apply order, the writers give every serializable writer the values it read |
| `History.ReproducesExactly` | src/store.rs:358-373 | for any validated history, complete or not, apply order is a serial order exactly when every serializable writer's snapshot still shows what it read |
| `History.RestrictWellFormed` | src/db.rs:252-269 | dropping commits keeps a history well formed, and its reads right if what is kept is causally closed |
| `History.RestrictShows` | src/db.rs:252-269 | with only some commits kept, a snapshot shows the newest kept version at or below it |
| `History.SurvivorsReproduce` | src/db.rs:252-269 | what is kept is serial if and only if each serializable one of it has read the newest kept value of its snapshot |
| `SerialOrders.ShowsExactly` | src/oracle.rs:109-114 | a snapshot shows the versions of a prefix of the serial run if and only if that prefix holds the commits up to it |
| `SerialOrders.ShownIsSerialState` | src/store.rs:427-434 | it then reads every key as the run had left it there |
| `SerialOrders.SerialStateExactly` | src/store.rs:339-384 | the run in apply order has such a prefix if and only if no commit above the snapshot applied before one at or below it |
| `SerialOrders.TimestampOrderExactly` | src/store.rs:339-384 | each serializable writer would find the versions of its snapshot at its own timestamp if and only if none of them read a key that a smaller timestamp wrote after it |
| `SerialOrders.TimestampOrderReads` | src/store.rs:339-384 | each of them had then read, key by key, the replay of the commits before its own timestamp |
| `AnySerialOrder.ApplyOrderIsOne` | src/store.rs:339-384 | the order of the critical sections is a serial order of the writers |
| `AnySerialOrder.OneOrderExactly` | src/db.rs:329-333 | any snapshots fit into one serial order of the writers if and only if, for each of them, no serializable writer above it missed a write at or below it |
| `AnySerialOrder.SomeOrderExactly` | src/db.rs:329-333 | the same for one snapshot |
| `AnySerialOrder.FittingReads` | src/store.rs:427-434 | at its place in such an order a snapshot reads, key by key, what the writers before it leave |
| `AnySerialOrder.ExplainedReads` | src/txn.rs:168-179 | at its place a serializable writer had read what the writers before it leave |
| `AnySerialOrder.NoneOvertakenFits` | src/db.rs:329-333 | a snapshot that no commit overtook has its place in apply order |
| `AnySerialOrder.AllFitExactly` | src/db.rs:329-333 | every snapshot fits at once if and only if timestamp order is a serial order |
| `ProtocolInv.HeldAboveWatermark` | src/oracle.rs:146-152 | a timestamp handed out and not yet reported lies above the watermark, hence above every reader |
| `ProtocolInv.LowBelowReaders` | src/oracle.rs:132-144 | the low watermark is never above a live reader or one still to begin |
| `ProtocolInv.StoreAgrees` | src/store.rs:387-414 | from the largest low watermark used, the pruned store reads and conflicts as the full history does |
| `ProtocolInv.ValidatedIsAdmitted` | src/store.rs:358-383 | what validation lets through is newer than everything on the chains it lands on |
| `ProtocolInv.RecoveredIsRestricted` | src/db.rs:252-269 | recovery from the surviving log is the history restricted to it |
| `Reach.StepInv` | src/db.rs:80-115 | every step, crash and recovery included, keeps the invariant |
| `Reach.ReachableInv` | src/db.rs:80-115 | hence it holds in every reachable state |
| `Isolation.SnapshotIsReplay` | src/txn.rs:141-146 | every live handle reads the timestamp-order replay of all committed write sets up to its snapshot: whole commits, and all of them |
| `Isolation.AnySnapshotIsReplay` | src/store.rs:427-434 | the same for every timestamp from the largest low watermark used |
| `Isolation.SnapshotIsStable` | src/db.rs:366-372 | through any run of later commits and collections a live handle keeps reading the same values |
| `Isolation.ReadsStayRight` | src/txn.rs:168-179 | what a transaction has read is what its snapshot still shows |
| `Isolation.FirstCommitterWinsInRuns` | src/store.rs:358-383 | first committer wins in every run, across crashes |
| `Isolation.ChainsAscendInRuns` | src/store.rs:167-169 | every chain of the store strictly ascends in every reachable state |
| `Isolation.VisibleWhenNonePending` | src/txn.rs:236-237 | a timestamp is visible to new snapshots if and only if no timestamp up to it is in flight |
| `Isolation.QuiescentWatermark` | src/oracle.rs:146-152 | with nothing in flight the watermark is the last timestamp handed out |
| `Isolation.NoConflictAfterQuiescence` | src/store.rs:420-422 | a transaction begun then cannot conflict, whatever it reads and writes, unless another commit applies first |
| `Isolation.AutocommitFirstTry` | src/db.rs:443-455 | an autocommit write with nothing in flight is applied on the first attempt |
| `Isolation.StaleLowIsSafe` | src/db.rs:70-72 | the watermark a running collection works from is never above a live reader or one still to begin |
| `Isolation.CollectionStartsAtOldest` | src/oracle.rs:138-144 | a collection starts from the snapshot of some live handle, and of none before it, or from the watermark if there is no handle |
| `Isolation.CollectionKeepsExactly` | src/store.rs:391-411 | at that watermark it leaves of every chain it prunes exactly what stays: one version at most at or below it, and no lone tombstone there |
| `Isolation.PruningIsInvisible` | src/store.rs:387-414 | pruning any keys with it changes no read and no conflict verdict at or above it |
| `Isolation.BelowLowConflictsVanish` | src/txn.rs:51-55 | a collection takes a conflict away if and only if the newest version of the key is a deletion between the snapshot and the watermark, which is why a reader stays registered until its commit returns |
| `Serializability.CommitOrderIsSerial` | src/store.rs:339-384 | the order of the critical sections is a serial order of the writers that explains every read of the serializable ones, unless a crash has lost visible commits |
| `Serializability.CommitOrderIsSerialExactly` | src/store.rs:339-384 | in any state, that order is serial if and only if every serializable writer's snapshot still shows what it read |
| `Serializability.RunsAreSerial` | src/db.rs:327-334 | that is so in every run in memory and in every durable run whose appends succeed, over any number of crashes |
| `Serializability.CrashKeepsSerial` | src/db.rs:106-109 | after any crash the survivors are serial if and only if every serializable one had read, of each key, the newest surviving value of its snapshot |
| `Serializability.SerialStateIsNewest` | src/store.rs:375-383 | the serial execution ends in the newest version of every key |
| `Serializability.SerialOrderRespectsRealTime` | src/txn.rs:266-283 | a transaction committed before another began comes before it in that order, in every later state |
| `Serializability.SnapshotFitsSomeOrder` | src/db.rs:329-333 | a live snapshot fits into some serial order of the writers if and only if no serializable writer above it missed a write at or below it |
| `Serializability.SnapshotsFitOneOrder` | src/db.rs:329-333 | any live snapshots fit into one serial order if and only if each of them meets that condition |
| `Serializability.SnapshotReadsItsPlace` | src/txn.rs:388-390 | the store returns to it what the writers before its place leave |
| `Serializability.WritersReadTheirPlace` | src/txn.rs:168-179 | in any such order each serializable writer had read what the writers before it leave, unless a crash has lost visible commits |
| `Serializability.SnapshotIsSerialState` | src/store.rs:339-384 | a live snapshot shows the versions of a state of the apply-order run if and only if no commit above it applied before one at or below it |
| `Serializability.SnapshotReadsSerialState` | src/txn.rs:388-390 | the store then returns, key by key, the values of that state |
| `Serializability.QuiescentSnapshotIsSerial` | src/db.rs:366-372 | a handle begun with no commit in flight shows, as long as it lives, the state the serial run was in |
| `Serializability.TimestampOrderInRuns` | src/store.rs:339-384 | in every run, each serializable writer finds the versions of its snapshot at its own timestamp unless one of them missed a write with a smaller timestamp |
| `Serializability.TimestampOrderReadsInRuns` | src/store.rs:339-384 | unless a crash has lost visible commits, each of them had then read the replay of the commits before its own timestamp |
| `Durability.AcknowledgedSurvives` | src/db.rs:212-214 | an acknowledged commit survives a crash at any point with its writes, also when other appends fail |
| `Durability.NewestAcknowledgedIsRead` | src/db.rs:212-214 | if the newest write of a key is acknowledged, its value is what the database reopened after any crash reads there |
| `Durability.RecoveredStoreIsCommitted` | src/db.rs:214-218 | the reopened store holds exactly the versions of validated commits whose record survived |
| `Durability.RecoveredReadsSame` | src/db.rs:252-269 | recovered reads equal those before the crash, from the largest low watermark to the watermark, if no visible commit is missing from the log |
| `Durability.RecoveryIsExact` | src/db.rs:106-109 | the recovered versions up to the watermark are the committed ones if and only if no visible commit is missing from the log |
| `Durability.LosesVisibleExactly` | src/db.rs:104-109 | a crash loses a visible commit if and only if an append failed without a record at or below the watermark, or the cut takes such a record away |
| `Durability.WholeLogLosesOnlyFailed` | src/db.rs:104-109 | with the whole log left, only failed appends lose anything |
| `Durability.VisibleIsDurable` | src/db.rs:98-102 | with successful appends every commit up to the watermark is durable |
| `Durability.CrashLosesNothingVisible` | src/db.rs:98-114 | with successful appends a crash at any point changes no read up to the watermark |
| `Durability.PrefixIsCausallyClosed` | src/db.rs:80-115 | every prefix of the log that holds a commit holds all commits in its snapshot, but for those whose append failed without a record |
| `Durability.LogTimestampsUnique` | src/oracle.rs:76-87 | timestamps in the log are unique over any number of crashes, and the next one is above them all |
| `Durability.LogOrderAgreesPerKey` | src/db.rs:255-257 | per key, log order, timestamp order and apply order agree |
| `Ledger.ReadWhatItReplaced` | src/store.rs:358-373 | a committed read-modify-write had read the value that stood just before its own timestamp |
| `Ledger.NoLostUpdates` | tests/snapshot_isolation.rs:143-147 | over keys that writers read before they write, every snapshot shows the total of any earlier timestamp plus exactly what was meant to be added since, whatever has been collected; after a lossy crash, as long as the writers' snapshots still show what they read |
| `Ledger.TransferConserves` | examples/bank_transfer.rs:37-57 | a transfer leaves the total alone if and only if its accounts differ or it moves nothing |
| `Ledger.BankTotalIsConstant` | examples/bank_transfer.rs:37-57 | with only transfers between distinct accounts since a timestamp, every snapshot shows the total there was then |
| `Ledger.CounterMovesByIncrements` | tests/snapshot_isolation.rs:143-147 | a counter shows what it held at any earlier timestamp plus the successful increments since |
| `Ledger.CounterCountsIncrements` | tests/snapshot_isolation.rs:143-147 | a counter shows, at every snapshot, the number of successful increments of the whole run |
| `Witnesses.AcknowledgedNotYetVisible` | src/txn.rs:236-237 | a run in which a commit that returned Ok is not visible to a later begin |
| `Witnesses.AutocommitStalls` | src/db.rs:443-455 | a run after which an autocommit write conflicts on every retry while a smaller timestamp is in flight |
| `Witnesses.ReadOnlyAnomaly` | src/db.rs:329-333 | a run with two serializable writers and a snapshot that no serial order of them explains |
| `Witnesses.OvertakenHarmlessly` | src/db.rs:329-333 | a run with a snapshot that a commit overtook and that fits into a serial order all the same |
| `Witnesses.WriteSkew` | src/db.rs:304-310 | a run with write skew under snapshot isolation |
| `Witnesses.FailedAppendIsVisible` | src/db.rs:106-109 | a run in which a commit that returned an error is visible, and gone after a crash |
| `Witnesses.SurvivorReadLostWrite` | src/db.rs:106-109 | a run in which an acknowledged serializable transaction survives a crash and the write it had read does not |
| `Witnesses.UnacknowledgedIsRecovered` | src/db.rs:98-102 | a state from which one crash recovers a commit that was not acknowledged and another does not |
| `Witnesses.SelfTransferCreatesMoney` | examples/bank_transfer.rs:37-57 | a run in which a transfer from an account to itself raises the total |
| `Framing.PairExact` | src/durable.rs:95-118 | fields read back exactly one after the other |
| `Framing.SizedExact` | src/durable.rs:138-144 | bytes behind their length are read back exactly |
| `Framing.ManyRead` | src/durable.rs:136-149 | a run of entries is read back as it was written |
| `Framing.ManyWritten` | src/durable.rs:136-149 | a run that is read is the encoding of what was read |
| `Codec.NumberExact` | src/durable.rs:189-199 | a little-endian number is read where and only where its encoding stands, if it fits its width |
| `Codec.DecodeIsExact` | src/durable.rs:95-157 | the decoder accepts exactly the encodings of in-range records, each as the record it encodes |
| `Codec.RoundTrip` | src/durable.rs:95-157 | decoding what was encoded gives the record back if and only if its timestamp, lengths and count fit their fields |
| `Codec.OutOfRangeOutcome` | src/durable.rs:103-110 | a record out of range is read as the record in range with the same bytes, or rejected if there is none, and never as itself |
| `Codec.OversizedKeyIsMisread` | src/durable.rs:106 | a record whose key is 2^32 bytes long that is accepted as a write to the empty key |
| `Codec.PrefixFree` | src/durable.rs:153-155 | a record with anything appended is rejected |
| `Codec.TruncationRejected` | src/durable.rs:174-183 | so is every proper prefix of a record |
| `Codec.CountGuardIsHarmless` | src/durable.rs:130-134 | the bound on the claimed count rejects no record that would decode |
| `RecordLayout.LayoutIsEncoding` | docs/COMMIT_LOG_FORMAT.md:35-60 | byte by byte: 1, the timestamp in eight bytes and the count in four, least significant first, then for each write four bytes of length, the key, and 0 alone or 1, four bytes of length and the value; the encoding is these bytes and no others |
| `RecordLayout.DecodesLayout` | docs/COMMIT_LOG_FORMAT.md:77-88 | a record is accepted if and only if its bytes are laid out like this and every number fits its field, and as just that transaction |
| `RecordLayout.OtherVersionRejected` | src/durable.rs:123-128 | an empty record, or one that does not start with 1, is rejected |
| `RecordLayout.ReadsEntry` | src/durable.rs:139-150 | an entry is read where it is laid out byte by byte, as that entry, and nowhere else |
| `RecordLayout.BadTagRejected` | src/durable.rs:142-149 | after any number of good entries, a tag other than 0 and 1 makes the record rejected |
| `CommitLogImpl.EncodeForLog` | src/durable.rs:95-118 | the loop writes the frozen layout, byte by byte, and the capacity computed beforehand is exactly its length |
| `CommitLogImpl.Reader.ReadBytes` | src/durable.rs:174-183 | the cursor moves past the bytes if they are there and not at all otherwise, and stays in bounds |
| `CommitLogImpl.Reader.ReadU8` | src/durable.rs:185-187 | one byte, or failure at the end |
| `CommitLogImpl.Reader.ReadU32` | src/durable.rs:189-192 | the four bytes put together are the number that stands there |
| `CommitLogImpl.Reader.ReadU64` | src/durable.rs:194-199 | the same for eight |
| `CommitLogImpl.DecodeWrite` | src/durable.rs:139-150 | one entry of the loop, as laid out byte by byte at the cursor; failure if none is, so with any tag other than 0 and 1 |
| `CommitLogImpl.DecodeWrites` | src/durable.rs:136-149 | the loop reads what the run of entries means, and ends |
| `CommitLogImpl.DecodeCommit` | src/durable.rs:121-157 | any bytes at all are accepted if and only if they are laid out in the frozen format and every number fits, as that transaction, so only with version 1; no more entries are reserved than the bytes after the header could hold |
| `CommitLogImpl.DecodeLogIsExact` | src/durable.rs:59-69 | a log decodes to exactly the transactions whose encodings it consists of, in order |
| `CommitLogImpl.CommitLog.Recovered` | src/durable.rs:59-69 | opening decodes every record, and fails if one does not decode |
| `CommitLogImpl.CommitLog.AppendCommitted` | src/durable.rs:76-81 | success only with the record in the log; a failure may leave it there or not |
| `Recovery.SortAsRecords` | src/db.rs:255-257 | the stable sort of the decoded commits is the sort of the records they stand for |
| `Recovery.ReplayIsRecovery` | src/db.rs:255-264 | replaying the sorted commits entry by entry is the recovery of the protocol, and the highest timestamp met is that of the log |
| `Calls.CommitIsRun` | src/db.rs:80-115 | a commit call is a run of the protocol: allocate, validate and apply, append if applied and durable, report |
| `Calls.CommitHasEffect` | src/db.rs:80-115 | what it comes to on every path: store, log, history, watermark and acknowledgement |
| `Calls.GcIsRun` | src/db.rs:70-72 | a collection is a run of the protocol |
| `Calls.GcKeepsExactly` | src/db.rs:70-72 | an uninterrupted collection works from the oldest snapshot in use, keeps of every chain exactly what that calls for, and changes nothing else |
| `Calls.GcIsInvisible` | src/db.rs:530-531 | it changes no read of a live handle or of one that begins next |
| `Calls.SecondPassTakesNothing` | src/store.rs:387-414 | a second collection with nothing in between leaves the store as it is |
| `DbImpl.Db.BeginReader` | src/db.rs:59-61 | registering a reader is the begin step of the protocol |
| `DbImpl.Db.EndReader` | src/db.rs:65-67 | unregistering is the end step |
| `DbImpl.Db.Alloc` | src/db.rs:86 | allocation is one step, with other transactions anywhere |
| `DbImpl.Db.Apply` | src/db.rs:96 | the store's critical section is the commit step, and its answer is the protocol's verdict |
| `DbImpl.Db.Append` | src/db.rs:104-106 | each way an append can end is a run of log steps, and the log's bytes stay the encoding of its records |
| `DbImpl.Db.Done` | src/db.rs:113 | the report is one step, and its timestamp is reported only once |
| `DbImpl.ReportNamesConflict` | src/store.rs:360-373 | the length reported is that of a written key with a version newer than the snapshot, or of a read one when no written key has any |
| `DbImpl.CommitsUnlessChanged` | src/store.rs:360-373 | a transaction validates if and only if no key it writes or reads has a version newer than its snapshot |
| `DbImpl.Db.Conclude` | src/db.rs:98-114 | what was applied is appended, if there is a log, and the timestamp reported whichever way that ends |
| `DbImpl.Db.CommitWrites` | src/db.rs:80-115 | it conflicts if and only if a key written or read has changed since the snapshot and names one that has; otherwise every written key gains its version, the history its entry, a durable log one record unless none was left behind, and the timestamp is acknowledged exactly on success |
| `DbImpl.Db.CollectGarbage` | src/db.rs:70-72 | of every key exactly what stays at the oldest live snapshot, or at the watermark if no handle is live, is left, nothing else changes, and the number of versions gone is returned |
| `DbImpl.Db.RemainsAfterCrash` | src/db.rs:252-269 | what a crash leaves of a database's log reads as what was logged, and is what opening asks for to go on from it, if and only if no record kept was too large for its length fields |
| `DbImpl.Rebuild` | src/db.rs:252-268 | for any log at all: malformed, or the store replayed in timestamp order with the oracle resuming after the highest timestamp |
| `DbImpl.Open` | src/db.rs:252-269 | for any log, fails if and only if a record does not decode; over what a crash has left of a database's log, it gives the state after the protocol's crash step |
| `TransactionImpl.ListWrites` | src/txn.rs:281 | the batch has distinct keys and stands for the write buffer |
| `TransactionImpl.Transaction.constructor` | src/txn.rs:109-115 | a new handle reads at the watermark and is registered there |
| `TransactionImpl.Transaction.Get` | src/txn.rs:168-179 | its own pending write, or else the replay of the commits up to its snapshot; a serializable one notes the key |
| `TransactionImpl.Transaction.Buffer` | src/txn.rs:201-203 | a write changes the handle's buffer and nothing else |
| `TransactionImpl.Transaction.Commit` | src/txn.rs:266-283 | without writes it succeeds with its snapshot timestamp and logs nothing; otherwise it conflicts if and only if a key written or read has changed, with the length of such a key, and its versions, history entry, record and acknowledgement are there exactly when due |
| `TransactionImpl.Transaction.Close` | src/txn.rs:305-309 | rolling back leaves the store, the log and the history alone |
| `TransactionImpl.Snapshot.Get` | src/txn.rs:388-390 | a snapshot reads the replay of the commits up to it |
| `TransactionImpl.GetOnce` | src/db.rs:411-413 | a single read sees the watermark and leaves nothing behind |
| `TransactionImpl.AttemptLands` | src/db.rs:443-455 | an attempt at a key whose newest version is at or below the watermark becomes the newest version, also when its append fails |
| `TransactionImpl.QuiescentLands` | src/db.rs:443-455 | with no commit in flight every attempt lands and is visible at once |
| `TransactionImpl.StalledStays` | src/db.rs:446-454 | an attempt at a key with a newer version conflicts and changes neither the key nor the watermark |
| `TransactionImpl.NeverLands` | src/db.rs:446-454 | so no number of retries alone lands |
| `TransactionImpl.SuccessSurvives` | src/db.rs:443-455 | the value of a successful put is what the database reopened after any crash from there reads |
| `TransactionImpl.Autocommit` | src/db.rs:443-455 | the retry loop, run alone, ends after one attempt when the key is not stalled: the value is in place and in the history, a durable log has one record more, laid out as this write, unless none was left behind, the timestamp is acknowledged exactly on success, and then the value survives any crash |
| `TransactionImpl.PutOnce` | src/db.rs:443-455 | so for the put of one value |
| `TransactionImpl.DeleteOnce` | src/db.rs:481-492 | so for the delete of one key |

## Left out

- The inside of `wal-db` (framing, checksums, fsync, group commit, torn tails) is not part of this model. It is taken as a sequence of records of which a crash keeps a prefix, at least as long as what a sync has covered.
- Memory ordering of the atomics and poisoned locks: locks and atomics are taken as sequentially consistent.
- The values of the FNV-1a hash: every proof holds for an arbitrary hash of keys.
- Stores other than `MemoryStore`, and the error they can return.
- The standard library's `sort`, `binary_search` inside the locks, `partition_point` and hash maps are written out or modelled by functions; the order in which a hash map lists its entries is left open.
- The path that leaves `try_commit` by a panic, allocation failure, and error messages and metadata.
- The fairness of the locks, and with it the progress of a single operation: deadlock freedom and bounded runs are proved for the store as a whole.
- The retry loops while other commits finish between the attempts: `TransactionImpl.Autocommit` runs alone.
- The count a collection returns is proved for the collection running alone, in the class; the concurrent store does not count.
- `key_count`, `last_committed`, `read_timestamp`, the default shard count and cloning of handles.
- `DbImpl.Db.Alloc`: is stated until the 64-bit counter has wrapped, the largest timestamp included; in the protocol timestamps are unbounded.
- `DbImpl.Db.CommitWrites`: likewise, as are `TransactionImpl.Transaction.Commit` with writes and the autocommit calls.
- `TransactionImpl.Autocommit`: is stated for a key that is not stalled, the case in which the loop, run alone, ends; so are `PutOnce` and `DeleteOnce`.
- `TransactionImpl.PutOnce`: as `Autocommit`.
- `TransactionImpl.DeleteOnce`: as `Autocommit`.
