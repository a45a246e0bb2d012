// The database object and its commit coordinator (src/db.rs). Every critical section it
// goes through is one step of the protocol, taken on the real oracle, store and log; a
// ghost field holds the protocol state they make up, so that everything proved of
// reachable states holds of the objects.

module DbImpl {
  import opened Types
  import opened StoreSpec
  import opened Batch
  import opened Codec
  import opened CommitLogImpl
  import opened Recovery
  import opened MemoryStoreImpl
  import opened OracleImpl
  import opened Watermark
  import opened Protocol
  import opened ProtocolInv
  import opened Reach
  import opened Calls
  import opened StoreInProtocol
  import opened VersionChain
  import opened Isolation
  import FineStore
  import History

  // How a commit ends for its caller.
  datatype CommitResult = Success(ts: nat) | Conflicts(keyLen: nat) | NotDurable

  // The batch and the list of read keys are those of the transaction.
  ghost predicate Carries(t: Txn, readTs: nat, batch: seq<WriteEntry>, readSet: seq<Key>) {
    && t.readTs == readTs
    && DistinctKeys(batch) && WritesOf(batch) == t.writes
    && Elements(readSet) == t.readSet - t.writes.Keys
  }

  // What the log's bytes stand for.
  ghost predicate BytesHold(records: seq<Bytes>, logged: seq<RecoveredCommit>, log: seq<Record>) {
    && |records| == |logged|
    && AllDistinctKeys(logged)
    && AsRecords(logged) == log
    && forall i :: 0 <= i < |records| ==> records[i] == Encode(logged[i])
  }

  lemma BytesHoldMore(records: seq<Bytes>, logged: seq<RecoveredCommit>, log: seq<Record>, c: RecoveredCommit)
    requires BytesHold(records, logged, log) && DistinctKeys(c.batch)
    ensures BytesHold(records + [Encode(c)], logged + [c], log + [AsRecord(c)])
  {
    var bytes := Encode(c);
    var more := records + [bytes];
    forall i | 0 <= i < |more| ensures more[i] == Encode((logged + [c])[i]) {
    }
    assert AsRecords(logged + [c]) == log + [AsRecord(c)];
  }

  // The store decides a commit as the protocol does.
  lemma StoreDecides(m: State, id: nat, readTs: nat, batch: seq<WriteEntry>, readSet: seq<Key>)
    requires id in m.txns && Carries(m.txns[id], readTs, batch, readSet)
    ensures CanCommit(m, m.txns[id]) <==> Validates(m.chains, readTs, FineStore.KeysOfCommit(batch, readSet))
  {
    ValidatedKeys(batch, readSet);
  }

  // How the call's answer goes with what happened: success only for a commit that
  // validated and, with a log, is durable; a conflict names the first key that failed.
  ghost predicate Answers(r: CommitResult, s: State, id: nat, readTs: nat, batch: seq<WriteEntry>, readSet: seq<Key>,
                          io: AppendResult)
    requires id in s.txns
  {
    match r
    case Success(ts) => CanCommit(s, s.txns[id]) && ts == s.nextTs && (s.durable ==> io.Durable?)
    case Conflicts(keyLen) =>
      !CanCommit(s, s.txns[id]) && Reports(Outcome.Conflict(keyLen), s.chains, readTs, batch, readSet)
    case NotDurable => CanCommit(s, s.txns[id]) && s.durable && !io.Durable?
  }

  // A conflict is on a written key that has changed, or on a read one if no written key
  // has; `keyLen` is the length of that key.
  ghost predicate ConflictOn(m: Chains, r: nat, written: set<Key>, read: set<Key>, keyLen: nat) {
    exists k ::
      keyLen == |k| && ChangedSince(m, k, r)
      && (k in written || (k in read && forall w :: w in written ==> !ChangedSince(m, w, r)))
  }

  ghost predicate AnyChanged(m: Chains, r: nat, keys: set<Key>) {
    exists k :: k in keys && ChangedSince(m, k, r)
  }

  // A commit conflicts if and only if a key it writes or reads has changed since its
  // snapshot, and it names one that has.
  ghost predicate ConflictsRightly(r: CommitResult, m: Chains, readTs: nat, written: set<Key>, read: set<Key>) {
    && (r.Conflicts? <==> AnyChanged(m, readTs, written + read))
    && (r.Conflicts? ==> ConflictOn(m, readTs, written, read - written, r.keyLen))
  }

  lemma NewerIsChanged(m: Chains, k: Key, r: nat)
    requires Ascending(ChainOf(m, k))
    ensures NewerThan(ChainOf(m, k), r) <==> ChangedSince(m, k, r)
  {
    NewerThanExactly(ChainOf(m, k), r);
  }

  // The answer names a key that has changed.
  lemma ReportNamesConflict(s: State, id: nat, readTs: nat, batch: seq<WriteEntry>, readSet: seq<Key>, keyLen: nat)
    requires Reachable(s) && id in s.txns && Carries(s.txns[id], readTs, batch, readSet)
    requires Reports(Outcome.Conflict(keyLen), s.chains, readTs, batch, readSet)
    ensures var t := s.txns[id];
            ConflictOn(s.chains, t.readTs, t.writes.Keys, t.readSet - t.writes.Keys, keyLen)
  {
    var i: nat :| FirstConflict(s.chains, readTs, batch, readSet, i) && keyLen == |FineStore.KeyAt(batch, readSet, i)|;
    var k, t := FineStore.KeyAt(batch, readSet, i), s.txns[id];
    forall x ensures NewerThan(ChainOf(s.chains, x), readTs) <==> ChangedSince(s.chains, x, readTs) {
      ChainsAscendInRuns(s, x);
      NewerIsChanged(s.chains, x, readTs);
    }
    WritesUpToKeys(batch, |batch|);
    if i < |batch| {
      assert batch[i].key in WritesOf(batch);
    } else {
      assert readSet[i - |batch|] in Elements(readSet);
      forall w | w in t.writes ensures !ChangedSince(s.chains, w, readTs) {
        var j :| 0 <= j < |batch| && batch[j].key == w;
        assert FineStore.KeyAt(batch, readSet, j) == w;
      }
    }
  }

  lemma CommitsUnlessChanged(s: State, id: nat)
    requires Reachable(s) && id in s.txns
    ensures var t := s.txns[id];
            CanCommit(s, t) <==> !AnyChanged(s.chains, t.readTs, t.writes.Keys + t.readSet)
  {
    var t := s.txns[id];
    assert t.writes.Keys + (t.readSet - t.writes.Keys) == t.writes.Keys + t.readSet;
    forall x ensures NewerThan(ChainOf(s.chains, x), t.readTs) <==> ChangedSince(s.chains, x, t.readTs) {
      ChainsAscendInRuns(s, x);
      NewerIsChanged(s.chains, x, t.readTs);
    }
  }

  // What a commit call leaves in the history and among the acknowledged timestamps; its
  // own timestamp is used up and reported however it ends.
  ghost predicate Settled(s: State, id: nat, s': State, r: CommitResult)
    requires id in s.txns
  {
    var t := s.txns[id];
    && s'.history == (if r.Conflicts? then s.history
                      else History.Commit(s.history,
                                          History.Committed(id, t.serializable, t.readTs, s.nextTs, t.observed,
                                                            t.readSet - t.writes.Keys, t.writes)))
    && s'.acked == (if r.Success? then s.acked + {s.nextTs} else s.acked)
    && s'.nextTs == s.nextTs + 1 && s'.pending == Report(s.pending, s.nextTs)
  }

  lemma AnswerIsRight(r: CommitResult, s: State, id: nat, readTs: nat, batch: seq<WriteEntry>, readSet: seq<Key>,
                      io: AppendResult)
    requires Reachable(s) && id in s.txns && Carries(s.txns[id], readTs, batch, readSet)
    requires Answers(r, s, id, readTs, batch, readSet, io)
    ensures ConflictsRightly(r, s.chains, readTs, s.txns[id].writes.Keys, s.txns[id].readSet)
  {
    CommitsUnlessChanged(s, id);
    if r.Conflicts? {
      ReportNamesConflict(s, id, readTs, batch, readSet, r.keyLen);
    }
  }

  // Every written key has gained its version, and only those, unless the commit conflicts.
  ghost predicate Installed(m: Chains, m': Chains, r: CommitResult, ts: nat, writes: WriteSet) {
    forall k ::
      ChainOf(m', k) == if !r.Conflicts? && k in writes then ChainOf(m, k) + [Version(ts, writes[k])] else ChainOf(m, k)
  }

  lemma AnswerInstalls(r: CommitResult, s: State, id: nat, readTs: nat, batch: seq<WriteEntry>, readSet: seq<Key>,
                       io: AppendResult)
    requires id in s.txns && Answers(r, s, id, readTs, batch, readSet, io)
    ensures Installed(s.chains, AfterCommit(s, id, io).chains, r, s.nextTs, s.txns[id].writes)
  {
    CommitHasEffect(s, id, io);
    forall k
      ensures var w := s.txns[id].writes;
              ChainOf(AfterCommit(s, id, io).chains, k) ==
              if !r.Conflicts? && k in w then ChainOf(s.chains, k) + [Version(s.nextTs, w[k])]
              else ChainOf(s.chains, k)
    {
      ChainOfApplied(s.chains, s.nextTs, s.txns[id].writes, k);
    }
  }

  lemma AnswerSettles(r: CommitResult, s: State, id: nat, readTs: nat, batch: seq<WriteEntry>, readSet: seq<Key>,
                      io: AppendResult)
    requires id in s.txns && Answers(r, s, id, readTs, batch, readSet, io)
    ensures Settled(s, id, AfterCommit(s, id, io), r)
  {
    CommitHasEffect(s, id, io);
  }

  // What the log holds afterwards: one record more, of `batch` at `ts`, if the commit was
  // applied and a record was left behind.
  function LogAfter(before: seq<Bytes>, durable: bool, r: CommitResult, io: AppendResult,
                    ts: nat, batch: seq<WriteEntry>): seq<Bytes>
  {
    if durable && !r.Conflicts? && !io.NotWritten? then before + [Encode(RecoveredCommit(ts, batch))] else before
  }

  lemma AnswerMeans(r: CommitResult, s: State, id: nat, readTs: nat, batch: seq<WriteEntry>, readSet: seq<Key>,
                    io: AppendResult)
    requires Reachable(s) && id in s.txns && Carries(s.txns[id], readTs, batch, readSet)
    requires Answers(r, s, id, readTs, batch, readSet, io)
    ensures Settled(s, id, AfterCommit(s, id, io), r)
    ensures Installed(s.chains, AfterCommit(s, id, io).chains, r, s.nextTs, s.txns[id].writes)
    ensures ConflictsRightly(r, s.chains, readTs, s.txns[id].writes.Keys, s.txns[id].readSet)
  {
    AnswerSettles(r, s, id, readTs, batch, readSet, io);
    AnswerInstalls(r, s, id, readTs, batch, readSet, io);
    AnswerIsRight(r, s, id, readTs, batch, readSet, io);
  }

  class Db {
    const store: MemoryStore
    const oracle: Oracle
    const log: CommitLog?

    // The protocol state the objects are in, and the commits the log's bytes encode.
    ghost var model: State
    ghost var logged: seq<RecoveredCommit>

    // The bytes a reopen would find.
    ghost function Records(): seq<Bytes>
      reads log
    {
      if log == null then [] else log.records
    }

    ghost predicate OracleMatches()
      reads this, oracle
    {
      && oracle.Valid()
      && model.start == oracle.start && model.nextTs == oracle.issued
      && model.pending == Pending(oracle.doneUpto, oracle.ahead)
      && model.readers == oracle.live
    }

    ghost predicate StoreMatches()
      reads this, store, store.shards
    {
      store.Valid() && store.chains == model.chains
    }

    ghost predicate LogMatches()
      reads this, log
    {
      if log == null then !model.durable && logged == [] && model.log == []
      else model.durable && BytesHold(log.records, logged, model.log)
    }

    ghost predicate Valid()
      reads this, oracle, store, store.shards, log
    {
      Reachable(model) && OracleMatches() && StoreMatches() && LogMatches()
    }

    // An empty database in memory.
    constructor (shards: nat, hash: Key -> nat)
      ensures Valid() && model == Init(false) && log == null
      ensures fresh(store) && fresh(store.shards) && fresh(oracle)
    {
      store := new MemoryStore.WithShards(shards, hash);
      oracle := new Oracle();
      log := null;
      model := Init(false);
      logged := [];
      new;
      assert Exec(Init(false), []) == Some(Init(false));
    }

    // ----- one critical section each -----

    method BeginReader(serializable: bool) returns (ts: nat, ghost id: nat)
      requires Valid()
      modifies this`model, oracle
      ensures Valid() && model == DoBegin(old(model), serializable)
      ensures id == old(model.nextId) && ts == old(model.pending.doneUpto) && Records() == old(Records())
    {
      id := model.nextId;
      ts := oracle.BeginReader();
      BeginReachable(model, serializable);
      model := DoBegin(model, serializable);
    }

    method EndReader(ghost id: nat, ts: nat)
      requires Valid() && Enabled(model, Step.EndReader(id)) && model.txns[id].readTs == ts
      modifies this`model, oracle
      ensures Valid() && model == DoEndReader(old(model), id) && Records() == old(Records())
    {
      oracle.EndReader(ts);
      EndReachable(model, id);
      model := DoEndReader(model, id);
    }

    method Alloc(ghost id: nat) returns (ts: nat)
      requires Valid() && Enabled(model, Step.Alloc(id)) && model.nextTs <= U64_MAX
      modifies this`model, oracle
      ensures Valid() && model == AfterAlloc(old(model), id) && ts == old(model.nextTs)
    {
      ts := oracle.AllocCommitTs();
      AllocReachable(model, id);
      model := AfterAlloc(model, id);
    }

    // The store's critical section: validate and apply.
    method Apply(ghost id: nat, readTs: nat, commitTs: nat, batch: seq<WriteEntry>, readSet: seq<Key>)
      returns (outcome: Outcome)
      requires Valid() && Enabled(model, Step.TryCommit(id)) && model.txns[id].phase.ts == commitTs
      requires Carries(model.txns[id], readTs, batch, readSet)
      modifies this`model, store, store.shards
      ensures Valid() && model == DoTryCommit(old(model), id)
      ensures Reports(outcome, old(model.chains), readTs, batch, readSet)
      ensures outcome.Ok? <==> CanCommit(old(model), old(model.txns[id]))
    {
      outcome := store.TryCommit(readTs, commitTs, batch, readSet);
      StoreDecides(model, id, readTs, batch, readSet);
      PushAllIsApply(model.chains, commitTs, batch);
      TryReachable(model, id);
      model := DoTryCommit(model, id);
    }

    method Append(ghost id: nat, ghost commit: RecoveredCommit, record: Bytes, io: AppendResult) returns (ok: bool)
      requires Valid() && log != null && id in model.txns && model.txns[id].phase == Applied(commit.commitTs)
      requires record == Encode(commit) && DistinctKeys(commit.batch) && WritesOf(commit.batch) == model.txns[id].writes
      modifies this`model, this`logged, log
      ensures Valid() && ok == io.Durable? && model == AfterAppend(old(model), id, io)
      ensures Records() == if io.NotWritten? then old(Records()) else old(Records()) + [record]
    {
      ok := log.AppendCommitted(record, io);
      if !io.NotWritten? {
        BytesHoldMore(old(log.records), logged, model.log, commit);
        logged := logged + [commit];
      }
      AppendReachable(model, id, io);
      model := AfterAppend(model, id, io);
    }

    method Done(ghost id: nat, ts: nat)
      requires Valid() && Enabled(model, Step.CommitDone(id)) && HoldsTs(model.txns[id].phase)
      requires model.txns[id].phase.ts == ts
      modifies this`model, oracle
      ensures Valid() && model == DoCommitDone(old(model), id) && Records() == old(Records())
    {
      NotReported(model, id, oracle.reported);
      oracle.CommitDone(ts);
      DoneReachable(model, id);
      model := DoCommitDone(model, id);
    }

    // ----- whole calls -----

    // Takes a timestamp, encodes the record if there is a log to put it in, and goes
    // through the store.
    method Try(ghost id: nat, readTs: nat, batch: seq<WriteEntry>, readSet: seq<Key>)
      returns (commitTs: nat, record: Option<Bytes>, outcome: Outcome)
      requires Valid() && Enabled(model, Step.Alloc(id)) && model.nextTs <= U64_MAX
      requires Carries(model.txns[id], readTs, batch, readSet)
      modifies this`model, oracle, store, store.shards
      ensures Valid() && model == AfterTry(old(model), id) && commitTs == old(model.nextTs)
      ensures Records() == old(Records())
      ensures Reports(outcome, old(model.chains), readTs, batch, readSet)
      ensures outcome.Ok? <==> CanCommit(old(model), old(model.txns[id]))
      ensures record == if log == null then None else Some(Encode(RecoveredCommit(commitTs, batch)))
      ensures model.durable == old(model.durable) && model.txns[id].writes == WritesOf(batch)
      ensures model.txns[id].phase == if outcome.Ok? then Applied(commitTs) else Rejected(commitTs)
    {
      ghost var before := model;
      commitTs := Alloc(id);
      record := None;
      if log != null {
        var buf, _ := EncodeForLog(commitTs, batch);
        record := Some(buf);
      }
      AllocatedPhase(before, id);
      outcome := Apply(id, readTs, commitTs, batch, readSet);
      TriedPhase(before, id);
    }

    // Makes an applied commit durable, if there is a log. `ok` unless the append fails.
    method Persist(ghost id: nat, ghost commit: RecoveredCommit, outcome: Outcome, record: Option<Bytes>,
                   io: AppendResult)
      returns (ok: bool)
      requires Valid() && id in model.txns
      requires model.txns[id].phase == if outcome.Ok? then Applied(commit.commitTs) else Rejected(commit.commitTs)
      requires record == if log == null then None else Some(Encode(commit))
      requires DistinctKeys(commit.batch) && WritesOf(commit.batch) == model.txns[id].writes
      modifies this`model, this`logged, log
      ensures Valid() && ok == (outcome.Ok? && old(model.durable) ==> io.Durable?)
      ensures model == Persisted(old(model), id, io)
      ensures Enabled(model, Step.CommitDone(id)) && model.txns[id].phase.ts == commit.commitTs
      ensures Records() == if outcome.Ok? && record.Some? && !io.NotWritten? then old(Records()) + [record.value]
                           else old(Records())
    {
      ok := true;
      if outcome.Ok? && record.Some? {
        AppendedPhase(model, id, io);
        ok := Append(id, commit, record.value, io);
      }
    }

    // Appends what was applied, if there is a log, and reports the timestamp on every path,
    // also when the append fails after the writes have been applied.
    method Conclude(ghost id: nat, ghost commit: RecoveredCommit, ts: nat, outcome: Outcome, record: Option<Bytes>,
                    io: AppendResult)
      returns (r: CommitResult)
      requires Valid() && id in model.txns && ts == commit.commitTs
      requires model.txns[id].phase == if outcome.Ok? then Applied(ts) else Rejected(ts)
      requires record == if log == null then None else Some(Encode(commit))
      requires DistinctKeys(commit.batch) && WritesOf(commit.batch) == model.txns[id].writes
      modifies this`model, this`logged, oracle, log
      ensures Valid() && model == DoCommitDone(Persisted(old(model), id, io), id)
      ensures r == if outcome.Conflict? then Conflicts(outcome.keyLen)
                   else if old(model.durable) && !io.Durable? then NotDurable else Success(ts)
      ensures Records() == if log != null && outcome.Ok? && !io.NotWritten? then old(Records()) + [Encode(commit)]
                           else old(Records())
    {
      var ok := Persist(id, commit, outcome, record, io);
      Done(id, ts);
      if !ok {
        return NotDurable;
      }
      match outcome {
        case Ok => return Success(ts);
        case Conflict(keyLen) => return Conflicts(keyLen);
      }
    }

    // Allocate, encode, validate and apply, append, report.
    method CommitWrites(ghost id: nat, readTs: nat, batch: seq<WriteEntry>, readSet: seq<Key>, io: AppendResult)
      returns (r: CommitResult)
      requires Valid() && Enabled(model, Step.Alloc(id)) && model.nextTs <= U64_MAX
      requires Carries(model.txns[id], readTs, batch, readSet)
      modifies this`model, this`logged, oracle, store, store.shards, log
      ensures Valid() && model == AfterCommit(old(model), id, io)
      ensures Answers(r, old(model), id, readTs, batch, readSet, io)
      ensures Settled(old(model), id, model, r)
      ensures Installed(old(model.chains), model.chains, r, old(model.nextTs), old(model.txns[id]).writes)
      ensures Records() == LogAfter(old(Records()), log != null, r, io, old(model.nextTs), batch)
      ensures ConflictsRightly(r, old(model.chains), readTs, old(model.txns[id]).writes.Keys,
                               old(model.txns[id]).readSet)
    {
      ghost var before := model;
      var commitTs, record, outcome := Try(id, readTs, batch, readSet);
      r := Conclude(id, RecoveredCommit(commitTs, batch), commitTs, outcome, record, io);
      AnswerMeans(r, before, id, readTs, batch, readSet, io);
    }

    // Prunes everything at the oldest snapshot still in use.
    method CollectGarbage() returns (reclaimed: nat)
      requires Valid()
      modifies this`model, store, store.shards
      ensures Valid() && model == AfterGc(old(model), old(model.chains).Keys)
      ensures GarbageCollected(old(model), model)
      ensures reclaimed + VersionCount(model.chains) == VersionCount(old(model.chains))
    {
      var low := oracle.OldestReader();
      reclaimed := store.CollectGarbage(low);
      GcReachable(model, model.chains.Keys);
      GcKeepsExactly(model);
      model := AfterGc(model, model.chains.Keys);
    }

    // A database over what was rebuilt from a log.
    constructor Over(store: MemoryStore, oracle: Oracle, log: CommitLog, ghost model: State,
                     ghost logged: seq<RecoveredCommit>)
      ensures this.store == store && this.oracle == oracle && this.log == log
      ensures this.model == model && this.logged == logged
    {
      this.store, this.oracle, this.log, this.model, this.logged := store, oracle, log, model, logged;
    }

    // What a crash leaves of the log, `keep` of its records, is what `Open` asks for, and
    // reads as what was logged, exactly if none of those records was too large for its
    // length fields.
    lemma RemainsAfterCrash(keep: nat)
      requires Valid() && log != null && Enabled(model, Step.Crash(keep))
      ensures keep <= |log.records| == |logged|
      ensures RemainsOf(log.records[..keep], model, keep, logged[..keep])
         <==> forall c :: c in logged[..keep] ==> InRange(c)
      ensures DecodeLog(log.records[..keep]) == Some(logged[..keep])
         <==> forall c :: c in logged[..keep] ==> InRange(c)
    {
      PrefixHolds(log.records, logged, model.log, keep);
      HeldDecodes(log.records[..keep], logged[..keep]);
    }
  }

  lemma PrefixHolds(records: seq<Bytes>, logged: seq<RecoveredCommit>, log: seq<Record>, keep: nat)
    requires BytesHold(records, logged, log) && keep <= |log|
    ensures BytesHold(records[..keep], logged[..keep], log[..keep])
  {
    AsRecordsTake(logged, keep);
  }

  // ----- opening a database over a log -----

  datatype Replayed = Rebuilt(store: MemoryStore, oracle: Oracle) | Malformed

  method ReplayNext(store: MemoryStore, sorted: seq<RecoveredCommit>, i: nat, highest: nat) returns (higher: nat)
    requires i < |sorted| && store.Valid() && store.chains == InstallUpTo(sorted, i)
    requires highest == HighestUpTo(sorted, i)
    modifies store, store.shards
    ensures store.Valid() && store.chains == InstallUpTo(sorted, i + 1) && higher == HighestUpTo(sorted, i + 1)
  {
    higher := Max(highest, sorted[i].commitTs);
    store.InstallRecovered(sorted[i].commitTs, sorted[i].batch);
  }

  // Rebuilds the store and the oracle from whatever the log holds.
  method Rebuild(log: CommitLog, shards: nat, hash: Key -> nat) returns (r: Replayed)
    ensures r.Malformed? <==> DecodeLog(log.records).None?
    ensures r.Rebuilt? ==>
              Rebuilds(DecodeLog(log.records).value, r.store, r.oracle)
              && fresh(r.store) && fresh(r.store.shards) && fresh(r.oracle)
  {
    var decoded := log.Recovered();
    if decoded.None? {
      return Malformed;
    }
    var sorted := SortCommits(decoded.value);
    ReplayIsRecovery(decoded.value);
    var store := new MemoryStore.WithShards(shards, hash);
    var highest := 0;
    var i := 0;
    while i < |sorted|
      invariant i <= |sorted| && store.Valid() && store.chains == InstallUpTo(sorted, i)
      invariant highest == HighestUpTo(sorted, i)
      invariant fresh(store) && fresh(store.shards)
    {
      highest := ReplayNext(store, sorted, i, highest);
      i := i + 1;
    }
    DecodedFits(log.records);
    var oracle := new Oracle.Recovered(highest);
    return Rebuilt(store, oracle);
  }

  // The store holds the log replayed in timestamp order, and the oracle goes on after
  // the highest timestamp in it.
  ghost predicate Rebuilds(commits: seq<RecoveredCommit>, store: MemoryStore, oracle: Oracle)
    reads store, store.shards, oracle
  {
    var highest := Highest(AsRecords(commits));
    && store.Valid() && store.chains == ReplayLog(commits)
    && oracle.Valid() && oracle.live == multiset{}
    && oracle.start == oracle.doneUpto == highest && oracle.issued == highest + 1 && oracle.ahead == {}
  }

  datatype OpenResult = Opened(db: Db) | Failed

  // The records are what a crash has left of the log of a database in state `before`,
  // `keep` of them, every length and count within its field.
  ghost predicate RemainsOf(records: seq<Bytes>, before: State, keep: nat, commits: seq<RecoveredCommit>) {
    && Reachable(before) && before.durable && before.synced <= keep <= |before.log|
    && BytesHold(records, commits, before.log[..keep])
    && forall c :: c in commits ==> InRange(c)
  }

  // The database goes on where a crash of the one in state `before` leaves off.
  ghost predicate Continues(db: Db, before: State, keep: nat)
    reads db, db.oracle, db.store, db.store.shards, db.log
  {
    keep <= |before.log| && db.Valid() && db.model == DoCrash(before, keep)
  }

  ghost predicate Reopened(db: Db, log: CommitLog)
    reads db, db.oracle, db.store, db.store.shards, log
  {
    db.log == log && DecodeLog(log.records).Some? && Rebuilds(DecodeLog(log.records).value, db.store, db.oracle)
  }

  // Opening fails if and only if a record does not decode. Over what a crash has left of
  // the log of another database, it is the crash step of the protocol.
  method Open(log: CommitLog, shards: nat, hash: Key -> nat,
              ghost before: State, ghost keep: nat, ghost commits: seq<RecoveredCommit>)
    returns (r: OpenResult)
    ensures r.Failed? <==> DecodeLog(log.records).None?
    ensures r.Opened? ==>
              Reopened(r.db, log)
              && fresh(r.db) && fresh(r.db.store) && fresh(r.db.store.shards) && fresh(r.db.oracle)
    ensures RemainsOf(log.records, before, keep, commits) ==> r.Opened? && Continues(r.db, before, keep)
  {
    var replayed := Rebuild(log, shards, hash);
    if RemainsOf(log.records, before, keep, commits) {
      HeldDecodes(log.records, commits);
    }
    if replayed.Malformed? {
      return Failed;
    }
    var db := new Db.Over(replayed.store, replayed.oracle, log, AfterCrash(before, keep), commits);
    if RemainsOf(log.records, before, keep, commits) {
      RemainsDecode(log.records, before, keep, commits);
      CrashFields(before, keep);
    }
    return Opened(db);
  }

  ghost function AfterCrash(before: State, keep: nat): State {
    if keep <= |before.log| then DoCrash(before, keep) else before
  }

  // The state of a database just opened over `remains`.
  ghost predicate Started(s: State, remains: seq<Record>) {
    var highest := Highest(remains);
    && s.start == highest && s.nextTs == highest + 1 && s.pending == Pending(highest, {})
    && s.readers == multiset{} && s.chains == Recover(remains)
    && s.durable && s.log == remains
  }

  lemma RemainsDecode(records: seq<Bytes>, before: State, keep: nat, commits: seq<RecoveredCommit>)
    requires RemainsOf(records, before, keep, commits)
    ensures DecodeLog(records) == Some(commits)
    ensures AsRecords(commits) == before.log[..keep] && ReplayLog(commits) == Recover(before.log[..keep])
    ensures before.durable && Reachable(DoCrash(before, keep))
  {
    HeldDecodes(records, commits);
    ReplayIsRecovery(commits);
    CrashReachable(before, keep);
  }

  lemma CrashFields(s: State, keep: nat)
    requires keep <= |s.log| && s.durable
    ensures Started(DoCrash(s, keep), s.log[..keep])
  {
  }

  lemma HeldDecodes(records: seq<Bytes>, commits: seq<RecoveredCommit>)
    requires |records| == |commits| && forall i :: 0 <= i < |records| ==> records[i] == Encode(commits[i])
    ensures DecodeLog(records) == Some(commits) <==> forall c :: c in commits ==> InRange(c)
  {
    DecodeLogIsExact(records, commits);
    forall c | c in commits && DecodeLog(records) == Some(commits) ensures InRange(c) {
      var i :| 0 <= i < |commits| && commits[i] == c;
      assert InRange(commits[i]);
    }
  }

  // The timestamps in a log that decodes are 64-bit numbers.
  lemma DecodedFits(records: seq<Bytes>)
    requires DecodeLog(records).Some?
    ensures Highest(AsRecords(DecodeLog(records).value)) <= U64_MAX
  {
    var commits := DecodeLog(records).value;
    DecodeLogIsExact(records, commits);
    PowersOf256();
    HighestBounds(AsRecords(commits));
  }

  lemma CrashReachable(s: State, keep: nat)
    requires Reachable(s) && s.durable && s.synced <= keep <= |s.log|
    ensures Reachable(DoCrash(s, keep))
  {
    ReachableStep(s, Step.Crash(keep));
  }

  lemma GcReachable(s: State, keys: set<Key>)
    requires Reachable(s)
    ensures Reachable(AfterGc(s, keys))
  {
    FreshHandle(s.gcs);
    var g: nat :| g !in s.gcs;
    GcIsRun(s, g, keys);
    ReachableRun(s, [Step.GcBegin(g), Step.GcPrune(g, keys), Step.GcEnd(g)]);
  }

  lemma AllocatedPhase(s: State, id: nat)
    requires Enabled(s, Step.Alloc(id))
    ensures Enabled(AfterAlloc(s, id), Step.TryCommit(id)) && AfterAlloc(s, id).txns[id].phase.ts == s.nextTs
    ensures CanCommit(AfterAlloc(s, id), AfterAlloc(s, id).txns[id]) <==> CanCommit(s, s.txns[id])
  {
  }

  lemma TriedPhase(s: State, id: nat)
    requires Enabled(s, Step.Alloc(id))
    ensures AfterTry(s, id).txns[id]
         == s.txns[id].(phase := if CanCommit(s, s.txns[id]) then Applied(s.nextTs) else Rejected(s.nextTs))
    ensures AfterTry(s, id).durable == s.durable
  {
    if CanCommit(s, s.txns[id]) {
      AppliedEffect(s, id);
    } else {
      RejectedEffect(s, id);
    }
  }

  // ----- the states between the sections are reachable -----

  lemma ReachableRun(s: State, steps: seq<Step>)
    requires Reachable(s) && Exec(s, steps).Some?
    ensures Reachable(Exec(s, steps).value)
  {
    var durable: bool, before: seq<Step> :| Exec(Init(durable), before) == Some(s);
    ExecConcat(Init(durable), before, steps);
    assert Exec(Init(durable), before + steps) == Exec(s, steps);
  }

  lemma BeginReachable(s: State, serializable: bool)
    requires Reachable(s)
    ensures Reachable(DoBegin(s, serializable))
  {
    ReachableStep(s, Step.Begin(serializable));
  }

  lemma EndReachable(s: State, id: nat)
    requires Reachable(s) && Enabled(s, Step.EndReader(id))
    ensures Reachable(DoEndReader(s, id))
  {
    ReachableStep(s, Step.EndReader(id));
  }

  lemma AllocReachable(s: State, id: nat)
    requires Reachable(s) && Enabled(s, Step.Alloc(id))
    ensures Reachable(AfterAlloc(s, id))
  {
    AllocIsStep(s, id);
    ReachableStep(s, Step.Alloc(id));
  }

  lemma TryReachable(s: State, id: nat)
    requires Reachable(s) && Enabled(s, Step.TryCommit(id))
    ensures Reachable(DoTryCommit(s, id))
  {
    ReachableStep(s, Step.TryCommit(id));
  }

  lemma AppendReachable(s: State, id: nat, io: AppendResult)
    requires Reachable(s) && s.durable && id in s.txns && s.txns[id].phase.Applied?
    ensures Reachable(AfterAppend(s, id, io))
  {
    AppendIsRun(s, id, io);
    ReachableRun(s, AppendSteps(id, |s.log|, io));
  }

  lemma DoneReachable(s: State, id: nat)
    requires Reachable(s) && Enabled(s, Step.CommitDone(id))
    ensures HoldsTs(s.txns[id].phase) && Reachable(DoCommitDone(s, id))
  {
    DoneIsStep(s, id);
    ReachableStep(s, Step.CommitDone(id));
  }

  // A timestamp that is held has not been reported to the oracle.
  lemma NotReported(m: State, id: nat, reported: set<nat>)
    requires Reachable(m) && id in m.txns && HoldsTs(m.txns[id].phase)
    requires Exact(m.pending, m.start, reported)
    ensures m.start < m.txns[id].phase.ts < m.nextTs && m.txns[id].phase.ts !in reported
  {
    ReachableInv(m);
    HeldAboveWatermark(m, id);
    assert Held(m, m.txns[id].phase.ts);
  }
}
