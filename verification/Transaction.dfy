// The handles a database gives out (src/txn.rs) and the calls made of whole transactions
// (src/db.rs).

module TransactionImpl {
  import opened Types
  import opened VersionChain
  import opened StoreSpec
  import opened Batch
  import opened Codec
  import opened RecordLayout
  import opened CommitLogImpl
  import opened OracleImpl
  import opened MemoryStoreImpl
  import opened History
  import opened Watermark
  import opened Protocol
  import opened Reach
  import opened Isolation
  import opened Durability
  import opened Calls
  import opened StoreInProtocol
  import opened DbImpl

  // The entries of a write set, each once, in some order.
  method ListWrites(writes: WriteSet) returns (batch: seq<WriteEntry>)
    ensures DistinctKeys(batch) && WritesOf(batch) == writes
  {
    batch := [];
    var todo := writes.Keys;
    ghost var done: set<Key> := {};
    while todo != {}
      invariant done !! todo && done + todo == writes.Keys
      invariant Lists(batch, done, writes)
      decreases todo
    {
      var k :| k in todo;
      ListsMore(batch, done, writes, k);
      batch := batch + [WriteEntry(k, writes[k])];
      todo, done := todo - {k}, done + {k};
    }
    assert done == writes.Keys;
  }

  // The batch holds the writes to the keys in `done`.
  ghost predicate Lists(batch: seq<WriteEntry>, done: set<Key>, writes: WriteSet) {
    && DistinctKeys(batch) && WritesOf(batch).Keys == done
    && forall k :: k in done ==> k in writes && WritesOf(batch)[k] == writes[k]
  }

  lemma {:induction false} SameWrites(a: seq<WriteEntry>, b: seq<WriteEntry>, n: nat)
    requires n <= |a| && n <= |b| && forall i :: 0 <= i < n ==> a[i] == b[i]
    ensures WritesUpTo(a, n) == WritesUpTo(b, n)
  {
    if n > 0 {
      SameWrites(a, b, n - 1);
    }
  }

  lemma ListsMore(batch: seq<WriteEntry>, done: set<Key>, writes: WriteSet, k: Key)
    requires Lists(batch, done, writes) && k in writes && k !in done
    ensures Lists(batch + [WriteEntry(k, writes[k])], done + {k}, writes)
  {
    var more := batch + [WriteEntry(k, writes[k])];
    SameWrites(batch, more, |batch|);
    assert WritesOf(more) == WritesOf(batch)[k := writes[k]];
    WritesUpToKeys(batch, |batch|);
    forall i | 0 <= i < |batch| ensures batch[i].key != k {
      assert batch[i].key in WritesOf(batch);
    }
  }

  // The elements of a set, in some order.
  method ListKeys(keys: set<Key>) returns (list: seq<Key>)
    ensures Elements(list) == keys
  {
    list := [];
    var todo := keys;
    while todo != {}
      invariant todo <= keys && Elements(list) == keys - todo
      decreases todo
    {
      var k :| k in todo;
      ElementsMore(list, k);
      list := list + [k];
      todo := todo - {k};
    }
  }

  lemma ElementsMore(list: seq<Key>, k: Key)
    ensures Elements(list + [k]) == Elements(list) + {k}
  {
    var more := list + [k];
    assert more[|list|] == k;
    forall x | x in Elements(list) ensures x in Elements(more) {
      var i :| 0 <= i < |list| && list[i] == x;
      assert more[i] == x;
    }
  }

  class Transaction {
    const db: Db
    const readTs: nat
    var writes: WriteSet

    // The keys read from the snapshot, kept only by a serializable transaction.
    var tracked: Option<set<Key>>

    ghost const id: nat

    // The keys whose reads are validated at commit.
    ghost function Validated(): set<Key>
      reads this
    {
      if tracked.Some? then tracked.value else {}
    }

    ghost predicate Valid()
      reads this, db, db.oracle, db.store, db.store.shards, db.log
    {
      && db.Valid() && id in db.model.txns
      && var t := db.model.txns[id];
         && t.phase.Running? && t.readTs == readTs && t.writes == writes
         && t.serializable == tracked.Some? && t.readSet == Validated()
    }

    constructor (db: Db, serializable: bool)
      requires db.Valid()
      modifies db`model, db.oracle
      ensures Valid() && this.db == db && writes == map[] && tracked == if serializable then Some({}) else None
      ensures db.model == DoBegin(old(db.model), serializable) && db.Records() == old(db.Records())
      ensures id == old(db.model.nextId) && readTs == old(db.model.pending.doneUpto)
    {
      var ts, handle := db.BeginReader(serializable);
      this.db, readTs, id := db, ts, handle;
      writes, tracked := map[], if serializable then Some({}) else None;
    }

    // Reads the snapshot; a serializable transaction notes the key, present or absent.
    method GetCommitted(key: Key) returns (value: Value)
      requires Valid() && key !in writes
      modifies this`tracked, db`model
      ensures Valid() && db.model == DoRead(old(db.model), id, key)
      ensures tracked == if old(tracked).Some? then Some(old(tracked).value + {key}) else None
      ensures value == StoreRead(old(db.model), key, readTs)
    {
      value := db.store.Get(key, readTs);
      ReadReachable(db.model, id, key);
      ReadEffect(db.model, id, key);
      if tracked.Some? {
        tracked := Some(tracked.value + {key});
      }
      db.model := DoRead(db.model, id, key);
    }

    // What the transaction has written itself, and otherwise what the commits up to its
    // snapshot, replayed in timestamp order, have left.
    method Get(key: Key) returns (value: Value)
      requires Valid()
      modifies this`tracked, db`model
      ensures Valid()
      ensures value == if key in writes then writes[key] else Lookup(Replay(old(db.model.history), readTs), key)
      ensures db.model == if key in writes then old(db.model) else DoRead(old(db.model), id, key)
      ensures tracked == if old(tracked).Some? && key !in writes then Some(old(tracked).value + {key})
                         else old(tracked)
    {
      if key in writes {
        return writes[key];
      }
      SnapshotIsReplay(db.model, id, key);
      value := GetCommitted(key);
    }

    // Buffers a write; nothing but the handle changes.
    method Buffer(key: Key, value: Value)
      requires Valid()
      modifies this`writes, db`model
      ensures Valid() && writes == old(writes)[key := value]
      ensures db.model == AfterWrite(old(db.model), id, key, value) && db.Records() == old(db.Records())
    {
      WriteReachable(db.model, id, key, value);
      writes := writes[key := value];
      db.model := AfterWrite(db.model, id, key, value);
    }

    method Put(key: Key, value: Bytes)
      requires Valid()
      modifies this`writes, db`model
      ensures Valid() && writes == old(writes)[key := Some(value)]
      ensures db.model == AfterWrite(old(db.model), id, key, Some(value))
    {
      Buffer(key, Some(value));
    }

    method Delete(key: Key)
      requires Valid()
      modifies this`writes, db`model
      ensures Valid() && writes == old(writes)[key := None]
      ensures db.model == AfterWrite(old(db.model), id, key, None)
    {
      Buffer(key, None);
    }

    // The batch to commit, and the keys to validate besides: those read and not written.
    method Collect() returns (batch: seq<WriteEntry>, readSet: seq<Key>)
      requires Valid()
      ensures Carries(db.model.txns[id], readTs, batch, readSet)
    {
      readSet := [];
      if tracked.Some? {
        readSet := ListKeys(tracked.value - writes.Keys);
      }
      batch := ListWrites(writes);
    }

    method CommitBuffered(io: AppendResult) returns (r: CommitResult, ghost listed: seq<WriteEntry>)
      requires Valid() && writes != map[] && db.model.nextTs <= U64_MAX
      modifies db`model, db`logged, db.oracle, db.store, db.store.shards, db.log
      ensures db.Valid() && db.model == DoEndReader(AfterCommit(old(db.model), id, io), id)
      ensures Ends(r, old(db.model), id, io) && Settled(old(db.model), id, db.model, r)
      ensures ConflictsRightly(r, old(db.model.chains), readTs, old(writes).Keys, old(Validated()))
      ensures Installed(old(db.model.chains), db.model.chains, r, old(db.model.nextTs), old(writes))
      ensures DistinctKeys(listed) && WritesOf(listed) == old(writes)
      ensures db.Records() == LogAfter(old(db.Records()), db.log != null, r, io, old(db.model.nextTs), listed)
    {
      ghost var before := db.model;
      var batch, readSet := Collect();
      listed := batch;
      r := db.CommitWrites(id, readTs, batch, readSet, io);
      AnswerEnds(r, before, id, readTs, batch, readSet, io);
      CommittedPhase(before, id, io);
      EndSettles(before, id, db.model, r);
      db.EndReader(id, readTs);
    }

    // Commits and drops the handle. Without writes there is nothing to allocate, validate
    // or log, whatever was read. `listed` is the order in which the writes went into the
    // batch and the record.
    method Commit(io: AppendResult) returns (r: CommitResult, ghost listed: seq<WriteEntry>)
      requires Valid() && (writes != map[] ==> db.model.nextTs <= U64_MAX)
      modifies db`model, db`logged, db.oracle, db.store, db.store.shards, db.log
      ensures db.Valid() && Ends(r, old(db.model), id, io)
      ensures db.model == AfterEnd(old(db.model), id, io)
      ensures old(writes) == map[] ==>
                r == Success(readTs) && db.Records() == old(db.Records())
                && db.model.history == old(db.model.history) && db.model.acked == old(db.model.acked)
      ensures old(writes) != map[] ==>
                Settled(old(db.model), id, db.model, r)
                && ConflictsRightly(r, old(db.model.chains), readTs, old(writes).Keys, old(Validated()))
                && Installed(old(db.model.chains), db.model.chains, r, old(db.model.nextTs), old(writes))
                && db.Records() == LogAfter(old(db.Records()), db.log != null, r, io, old(db.model.nextTs), listed)
      ensures DistinctKeys(listed) && WritesOf(listed) == old(writes)
    {
      if writes == map[] {
        Close();
        r, listed := Success(readTs), [];
      } else {
        r, listed := CommitBuffered(io);
      }
    }

    // Drops the handle and what it has buffered.
    method Close()
      requires Valid()
      modifies db`model, db.oracle
      ensures db.Valid() && db.model == AfterClose(old(db.model), id)
    {
      FinishReachable(db.model, id);
      db.model := SetPhase(db.model, id, Finished);
      db.EndReader(id, readTs);
    }
  }

  lemma AnswerEnds(r: CommitResult, s: State, id: nat, readTs: nat, batch: seq<WriteEntry>, readSet: seq<Key>,
                   io: AppendResult)
    requires id in s.txns && s.txns[id].writes != map[] && Answers(r, s, id, readTs, batch, readSet, io)
    ensures Ends(r, s, id, io)
  {
  }

  lemma EndSettles(s: State, id: nat, s': State, r: CommitResult)
    requires id in s.txns && id in s'.txns && Settled(s, id, s', r)
    ensures Settled(s, id, DoEndReader(s', id), r)
  {
  }

  ghost function AfterClose(s: State, id: nat): State
    requires id in s.txns
  {
    DoEndReader(SetPhase(s, id, Finished), id)
  }

  // The handle has been committed and dropped.
  ghost function AfterEnd(s: State, id: nat, io: AppendResult): State
    requires id in s.txns
  {
    if s.txns[id].writes == map[] then AfterClose(s, id) else DoEndReader(AfterCommit(s, id, io), id)
  }

  // How a commit ends: without writes, with the snapshot's own timestamp; otherwise by
  // whether the transaction validates and then by whether its record is durable.
  ghost predicate Ends(r: CommitResult, s: State, id: nat, io: AppendResult)
    requires id in s.txns
  {
    if s.txns[id].writes == map[] then r == Success(s.txns[id].readTs)
    else if !CanCommit(s, s.txns[id]) then r.Conflicts?
    else if s.durable && !io.Durable? then r == NotDurable
    else r == Success(s.nextTs)
  }

  function AfterWrite(s: State, id: nat, k: Key, v: Value): State
    requires id in s.txns
  {
    s.(txns := s.txns[id := s.txns[id].(writes := s.txns[id].writes[k := v])])
  }

  lemma ReadReachable(s: State, id: nat, k: Key)
    requires Reachable(s) && Enabled(s, Step.Read(id, k))
    ensures Reachable(DoRead(s, id, k))
  {
    ReachableStep(s, Step.Read(id, k));
  }

  lemma ReadEffect(s: State, id: nat, k: Key)
    requires id in s.txns
    ensures var t, s' := s.txns[id], DoRead(s, id, k);
            s'.(txns := s.txns) == s && id in s'.txns
            && s'.txns[id] == t.(observed := s'.txns[id].observed,
                                 readSet := if t.serializable then t.readSet + {k} else t.readSet)
  {
  }

  lemma WriteReachable(s: State, id: nat, k: Key, v: Value)
    requires Reachable(s) && Enabled(s, Step.Write(id, k, v))
    ensures Reachable(AfterWrite(s, id, k, v))
  {
    ReachableStep(s, Step.Write(id, k, v));
  }

  lemma FinishReachable(s: State, id: nat)
    requires Reachable(s) && Enabled(s, Step.Finish(id))
    ensures Reachable(SetPhase(s, id, Finished))
  {
    ReachableStep(s, Step.Finish(id));
  }

  lemma CommittedPhase(s: State, id: nat, io: AppendResult)
    requires id in s.txns
    ensures id in AfterCommit(s, id, io).txns && AfterCommit(s, id, io).txns[id] == s.txns[id].(phase := Finished)
  {
    CommitHasEffect(s, id, io);
  }

  // A read-only handle on one instant.
  class Snapshot {
    const db: Db
    const readTs: nat

    ghost const id: nat

    ghost predicate Valid()
      reads this, db, db.oracle, db.store, db.store.shards, db.log
    {
      && db.Valid() && id in db.model.txns
      && var t := db.model.txns[id];
         t.phase.Running? && t.readTs == readTs && t.writes == map[]
    }

    constructor (db: Db)
      requires db.Valid()
      modifies db`model, db.oracle
      ensures Valid() && this.db == db && db.model == DoBegin(old(db.model), false)
      ensures id == old(db.model.nextId) && readTs == old(db.model.pending.doneUpto)
    {
      var ts, handle := db.BeginReader(false);
      this.db, readTs, id := db, ts, handle;
    }

    method Get(key: Key) returns (value: Value)
      requires Valid()
      ensures value == Lookup(Replay(db.model.history, readTs), key)
    {
      SnapshotIsReplay(db.model, id, key);
      value := db.store.Get(key, readTs);
    }

    method Close()
      requires Valid()
      modifies db`model, db.oracle
      ensures db.Valid() && db.model == AfterClose(old(db.model), id)
    {
      FinishReachable(db.model, id);
      db.model := SetPhase(db.model, id, Finished);
      db.EndReader(id, readTs);
    }
  }

  // ----- calls that are whole transactions -----

  function AfterGetOnce(s: State): State {
    s.(nextId := s.nextId + 1)
  }

  // Reads one key as of now; the database is as it was, but for the handle used up.
  method GetOnce(db: Db, key: Key) returns (value: Value)
    requires db.Valid()
    modifies db`model, db.oracle
    ensures db.Valid() && db.model == AfterGetOnce(old(db.model))
    ensures value == Lookup(Replay(old(db.model.history), old(db.model.pending.doneUpto)), key)
  {
    BeginAndClose(db.model);
    BeginKeepsHistory(db.model);
    var snapshot := new Snapshot(db);
    value := snapshot.Get(key);
    snapshot.Close();
  }

  lemma BeginKeepsHistory(s: State)
    ensures DoBegin(s, false).history == s.history
  {
  }

  lemma CloseEffect(s: State, id: nat)
    requires id in s.txns
    ensures AfterClose(s, id) == s.(txns := s.txns - {id}, readers := s.readers - multiset{s.txns[id].readTs})
  {
    assert s.txns[id := s.txns[id].(phase := Finished)] - {id} == s.txns - {id};
  }

  lemma NextIdUnused(s: State)
    requires Reachable(s)
    ensures s.nextId !in s.txns
  {
    ReachableInv(s);
  }

  lemma AddedAndRemoved(txns: map<nat, Txn>, id: nat, t: Txn)
    requires id !in txns
    ensures txns[id := t] - {id} == txns
  {
  }

  lemma RegisteredAndNot(readers: multiset<nat>, r: nat)
    ensures readers + multiset{r} - multiset{r} == readers
  {
  }

  lemma BeginAndClose(s: State)
    requires Reachable(s)
    ensures AfterClose(DoBegin(s, false), s.nextId) == AfterGetOnce(s)
  {
    var begun := DoBegin(s, false);
    CloseEffect(begun, s.nextId);
    NextIdUnused(s);
    AddedAndRemoved(s.txns, s.nextId, begun.txns[s.nextId]);
    RegisteredAndNot(s.readers, s.pending.doneUpto);
  }

  // One transaction that writes `value`, or deletes with `None`.
  ghost function AfterAttempt(s: State, k: Key, v: Value, io: AppendResult): State {
    AfterEnd(AfterWrite(DoBegin(s, false), s.nextId, k, v), s.nextId, io)
  }

  method Attempt(db: Db, key: Key, value: Value, io: AppendResult) returns (r: CommitResult)
    requires db.Valid() && db.model.nextTs <= U64_MAX
    modifies db`model, db`logged, db.oracle, db.store, db.store.shards, db.log
    ensures db.Valid() && db.model == AfterAttempt(old(db.model), key, value, io)
    ensures Ends(r, AfterWrite(DoBegin(old(db.model), false), old(db.model.nextId), key, value),
                 old(db.model.nextId), io)
    ensures WriteSettled(old(db.model), db.model, r, key, value)
    ensures WriteLogged(old(db.Records()), db.Records(), db.log != null, r, io, old(db.model.nextTs), key, value)
  {
    ghost var before := db.model;
    var tx := new Transaction(db, false);
    tx.Buffer(key, value);
    WrittenTxn(before, key, value);
    ghost var listed;
    r, listed := tx.Commit(io);
    AttemptSettles(before, db.model, r, key, value);
    OneWriteListed(listed, key, value);
    AttemptLogged(old(db.Records()), db.Records(), db.log != null, r, io, before.nextTs, key, value);
  }

  // A write in a transaction of its own: it enters the history if it does not conflict, and
  // is acknowledged exactly if the answer is a success.
  ghost predicate WriteSettled(s: State, s': State, r: CommitResult, k: Key, v: Value) {
    && s'.history == (if r.Conflicts? then s.history
                      else Commit(s.history, Committed(s.nextId, false, s.pending.doneUpto, s.nextTs, map[], {},
                                                       map[k := v])))
    && s'.acked == (if r.Success? then s.acked + {s.nextTs} else s.acked)
  }

  // On a durable database the log grows by one record, unless the write conflicts or none
  // was left behind. The record is laid out as the one write at its timestamp, and reads as
  // that if its lengths fit their fields.
  ghost predicate WriteLogged(before: seq<Bytes>, after: seq<Bytes>, durable: bool, r: CommitResult, io: AppendResult,
                              ts: nat, k: Key, v: Value)
  {
    if durable && !r.Conflicts? && !io.NotWritten? then
      && |after| == |before| + 1 && after[..|before|] == before
      && LaidOut(after[|before|], ts, [WriteEntry(k, v)])
      && (FieldsFit(ts, [WriteEntry(k, v)]) ==>
            Decode(after[|before|]) == Some(RecoveredCommit(ts, [WriteEntry(k, v)])))
    else after == before
  }

  lemma WrittenTxn(s: State, k: Key, v: Value)
    ensures var w := AfterWrite(DoBegin(s, false), s.nextId, k, v);
            && s.nextId in w.txns
            && w.txns[s.nextId] == Txn(false, s.pending.doneUpto, map[], {}, map[k := v], Running)
            && k in w.txns[s.nextId].writes
            && w.history == s.history && w.acked == s.acked && w.nextTs == s.nextTs
  {
    assert map[][k := v] == map[k := v];
  }

  lemma AttemptSettles(s: State, s': State, r: CommitResult, k: Key, v: Value)
    requires s.nextId in AfterWrite(DoBegin(s, false), s.nextId, k, v).txns
    requires Settled(AfterWrite(DoBegin(s, false), s.nextId, k, v), s.nextId, s', r)
    ensures WriteSettled(s, s', r, k, v)
  {
    WrittenTxn(s, k, v);
    assert {} - map[k := v].Keys == {};
  }

  lemma OneWriteListed(batch: seq<WriteEntry>, k: Key, v: Value)
    requires DistinctKeys(batch) && WritesOf(batch) == map[k := v]
    ensures batch == [WriteEntry(k, v)]
  {
    WritesUpToKeys(batch, |batch|);
    assert k in WritesOf(batch);
    forall i | 0 <= i < |batch| ensures batch[i].key == k {
      assert batch[i].key in WritesOf(batch);
    }
    assert WritesUpTo(batch, 0) == map[];
    assert batch[0].key == batch[|batch| - 1].key;
    assert |batch| == 1;
    assert WritesOf(batch) == map[][batch[0].key := batch[0].value];
    assert WritesOf(batch)[k] == v;
  }

  lemma AttemptLogged(before: seq<Bytes>, after: seq<Bytes>, durable: bool, r: CommitResult, io: AppendResult,
                      ts: nat, k: Key, v: Value)
    requires after == LogAfter(before, durable, r, io, ts, [WriteEntry(k, v)])
    ensures WriteLogged(before, after, durable, r, io, ts, k, v)
  {
    var c := RecoveredCommit(ts, [WriteEntry(k, v)]);
    LayoutIsEncoding(Encode(c), c);
    DecodesLayout(Encode(c), c);
  }

  // The write is the newest version of its key, and its timestamp is reported.
  ghost predicate Landed(s: State, s': State, k: Key, v: Value) {
    && s'.chains == ApplyWrites(s.chains, s.nextTs, map[k := v])
    && StoreRead(s', k, s.nextTs) == v
    && s'.pending == Report(s.pending, s.nextTs)
    && s'.txns == s.txns && s'.nextTs == s.nextTs + 1
  }

  lemma WriteOnce(s: State, k: Key, v: Value)
    ensures var s' := AfterWrite(DoBegin(s, false), s.nextId, k, v);
            s'.txns[s.nextId].writes == map[k := v] != map[] && (CanCommit(s', s'.txns[s.nextId]) <==> !Stalled(s, k))
  {
    assert k in map[k := v];
    var s' := AfterWrite(DoBegin(s, false), s.nextId, k, v);
    assert s'.txns[s.nextId].writes == map[k := v];
    assert s'.txns[s.nextId].writes.Keys + (s'.txns[s.nextId].readSet - s'.txns[s.nextId].writes.Keys) == {k};
  }

  // A commit with writes, and the handle dropped.
  lemma EndEffect(s: State, id: nat, io: AppendResult)
    requires id in s.txns && s.txns[id].writes != map[]
    ensures var s' := AfterEnd(s, id, io);
            && s'.txns == s.txns - {id}
            && s'.chains == (if CanCommit(s, s.txns[id]) then ApplyWrites(s.chains, s.nextTs, s.txns[id].writes)
                             else s.chains)
            && s'.nextTs == s.nextTs + 1 && s'.pending == Report(s.pending, s.nextTs)
  {
    CommitHasEffect(s, id, io);
    assert s.txns[id := s.txns[id].(phase := Finished)] - {id} == s.txns - {id};
  }

  // The same for a handle that was opened in `s`.
  lemma OpenedAndEnded(s: State, w: State, writes: WriteSet, lands: bool, io: AppendResult)
    requires s.nextId !in s.txns && s.nextId in w.txns && w.txns == s.txns[s.nextId := w.txns[s.nextId]]
    requires w.chains == s.chains && w.nextTs == s.nextTs && w.pending == s.pending
    requires w.txns[s.nextId].writes == writes != map[] && (CanCommit(w, w.txns[s.nextId]) <==> lands)
    ensures var s' := AfterEnd(w, s.nextId, io);
            && s'.txns == s.txns && s'.nextTs == s.nextTs + 1 && s'.pending == Report(s.pending, s.nextTs)
            && s'.chains == (if lands then ApplyWrites(s.chains, s.nextTs, writes) else s.chains)
  {
    EndEffect(w, s.nextId, io);
    AddedAndRemoved(s.txns, s.nextId, w.txns[s.nextId]);
  }

  lemma WrittenEffect(s: State, k: Key, v: Value)
    ensures var w := AfterWrite(DoBegin(s, false), s.nextId, k, v);
            s.nextId in w.txns && w.txns == s.txns[s.nextId := w.txns[s.nextId]]
            && w.chains == s.chains && w.nextTs == s.nextTs && w.pending == s.pending
  {
  }

  lemma AttemptEffect(s: State, k: Key, v: Value, io: AppendResult)
    requires Reachable(s)
    ensures var s' := AfterAttempt(s, k, v, io);
            && s'.txns == s.txns && s'.nextTs == s.nextTs + 1 && s'.pending == Report(s.pending, s.nextTs)
            && s'.chains == if Stalled(s, k) then s.chains else ApplyWrites(s.chains, s.nextTs, map[k := v])
  {
    WriteOnce(s, k, v);
    NextIdUnused(s);
    WrittenEffect(s, k, v);
    OpenedAndEnded(s, AfterWrite(DoBegin(s, false), s.nextId, k, v), map[k := v], !Stalled(s, k), io);
  }

  lemma WrittenIsRunning(s: State, k: Key, v: Value)
    requires Reachable(s)
    ensures var w := AfterWrite(DoBegin(s, false), s.nextId, k, v);
            Reachable(w) && s.nextId in w.txns && w.txns[s.nextId].writes != map[] && Enabled(w, Step.Alloc(s.nextId))
  {
    BeginReachable(s, false);
    WriteReachable(DoBegin(s, false), s.nextId, k, v);
    WriteOnce(s, k, v);
  }

  lemma CommitReachable(s: State, id: nat, io: AppendResult)
    requires Reachable(s) && Enabled(s, Step.Alloc(id))
    ensures Reachable(DoEndReader(AfterCommit(s, id, io), id))
  {
    CommitIsRun(s, id, io);
    ReachableRun(s, CommitSteps(s, id, io));
    CommittedPhase(s, id, io);
    EndReachable(AfterCommit(s, id, io), id);
  }

  lemma AttemptReachable(s: State, k: Key, v: Value, io: AppendResult)
    requires Reachable(s)
    ensures Reachable(AfterAttempt(s, k, v, io))
  {
    WrittenIsRunning(s, k, v);
    CommitReachable(AfterWrite(DoBegin(s, false), s.nextId, k, v), s.nextId, io);
  }

  // An attempt lands unless the key is stalled, and then it is there for every later
  // snapshot even when its append has failed.
  lemma AttemptLands(s: State, k: Key, v: Value, io: AppendResult)
    requires Reachable(s) && !Stalled(s, k)
    ensures Landed(s, AfterAttempt(s, k, v, io), k, v)
  {
    AttemptEffect(s, k, v, io);
    AttemptReachable(s, k, v, io);
    ChainsAscendInRuns(AfterAttempt(s, k, v, io), k);
    NewestIsRead(s.chains, s.nextTs, k, v);
  }

  lemma NewestIsRead(m: Chains, ts: nat, k: Key, v: Value)
    requires Ascending(ChainOf(ApplyWrites(m, ts, map[k := v]), k))
    ensures VisibleValue(ChainOf(ApplyWrites(m, ts, map[k := v]), k), ts) == v
  {
    ChainOfApplied(m, ts, map[k := v], k);
    VisibleIsLast(ChainOf(ApplyWrites(m, ts, map[k := v]), k), ts);
  }

  // With no commit in flight no key is stalled, and a write that lands is visible at once.
  lemma QuiescentLands(s: State, k: Key, v: Value, io: AppendResult)
    requires Reachable(s) && Quiescent(s)
    ensures !Stalled(s, k)
    ensures var s' := AfterAttempt(s, k, v, io);
            Quiescent(s') && s'.pending.doneUpto == s.nextTs && StoreRead(s', k, s'.pending.doneUpto) == v
  {
    NewestBelowNext(s, k);
    ReachableInv(s);
    QuiescentWatermark(s);
    AttemptLands(s, k, v, io);
    AttemptReachable(s, k, v, io);
    ReachableInv(AfterAttempt(s, k, v, io));
    QuiescentWatermark(AfterAttempt(s, k, v, io));
  }

  lemma NewestBelowNext(s: State, k: Key)
    requires Reachable(s)
    ensures var c := ChainOf(s.chains, k); c == [] || c[|c| - 1].commitTs < s.nextTs
  {
    ReachableInv(s);
    var c, full := ChainOf(s.chains, k), FullChain(s.history, k);
    assert PrunedTo(full, c, s.maxLow);
    if c != [] {
      assert c[|c| - 1] == full[|full| - 1];
      assert full[|full| - 1] in full;
      ChainHolds(s.history, k, full[|full| - 1]);
    }
  }

  // An attempt on a stalled key changes neither the key nor the watermark ...
  lemma StalledStays(s: State, k: Key, v: Value, io: AppendResult)
    requires Reachable(s) && Stalled(s, k)
    ensures var s' := AfterAttempt(s, k, v, io);
            Reachable(s') && s'.chains == s.chains && s'.pending.doneUpto == s.pending.doneUpto && Stalled(s', k)
  {
    AttemptEffect(s, k, v, io);
    AttemptReachable(s, k, v, io);
    NewestBelowNext(s, k);
  }

  // The state after `n` attempts.
  ghost function Attempts(attempt: State -> State, s: State, n: nat): State {
    if n == 0 then s else attempt(Attempts(attempt, s, n - 1))
  }

  lemma {:induction false} AttemptsKeep(attempt: State -> State, inv: State -> bool, s: State, n: nat)
    requires inv(s) && forall x :: inv(x) ==> inv(attempt(x))
    ensures inv(Attempts(attempt, s, n))
  {
    if n > 0 {
      AttemptsKeep(attempt, inv, s, n - 1);
    }
  }

  ghost predicate StillStalled(s: State, x: State, k: Key) {
    Reachable(x) && Stalled(x, k) && x.chains == s.chains
  }

  // ... so retrying alone never lands: it takes another commit to finish first.
  lemma NeverLands(s: State, k: Key, v: Value, io: AppendResult, n: nat)
    requires Reachable(s) && Stalled(s, k)
    ensures StillStalled(s, Attempts(x => AfterAttempt(x, k, v, io), s, n), k)
  {
    var attempt: State -> State := x => AfterAttempt(x, k, v, io);
    forall x | StillStalled(s, x, k) ensures StillStalled(s, attempt(x), k) {
      StalledStays(x, k, v, io);
    }
    AttemptsKeep(attempt, x => StillStalled(s, x, k), s, n);
  }

  // What a write that lands comes to.
  function Alone(s: State, io: AppendResult): CommitResult {
    if s.durable && !io.Durable? then NotDurable else Success(s.nextTs)
  }

  method AttemptAlone(db: Db, key: Key, value: Value, io: AppendResult) returns (r: CommitResult)
    requires db.Valid() && db.model.nextTs <= U64_MAX
    modifies db`model, db`logged, db.oracle, db.store, db.store.shards, db.log
    ensures db.Valid() && db.model == AfterAttempt(old(db.model), key, value, io)
    ensures r.Conflicts? <==> Stalled(old(db.model), key)
    ensures !r.Conflicts? ==> r == Alone(old(db.model), io)
    ensures WriteSettled(old(db.model), db.model, r, key, value)
    ensures WriteLogged(old(db.Records()), db.Records(), db.log != null, r, io, old(db.model.nextTs), key, value)
  {
    WriteOnce(db.model, key, value);
    r := Attempt(db, key, value, io);
  }

  // After any crash the reopened database reads `v` at `k`.
  ghost predicate SurvivesCrash(s: State, k: Key, v: Value) {
    forall keep :: Enabled(s, Crash(keep)) ==>
      var s' := Do(s, Crash(keep)); StoreRead(s', k, s'.pending.doneUpto) == v
  }

  // A successful write survives every crash from there.
  lemma SuccessSurvives(s: State, s': State, r: CommitResult, k: Key, v: Value)
    requires Reachable(s) && Reachable(s') && r.Success? && WriteSettled(s, s', r, k, v)
    ensures SurvivesCrash(s', k, v)
  {
    ReachableInv(s);
    var e := s'.history.last;
    forall keep | Enabled(s', Crash(keep))
      ensures var c := Do(s', Crash(keep)); StoreRead(c, k, c.pending.doneUpto) == v
    {
      NewestAcknowledgedIsRead(s', keep, e, k);
    }
  }

  // A write in a transaction of its own, answered: what the store, the history, the
  // acknowledgements and the log hold of it.
  ghost predicate Written(s: State, s': State, before: seq<Bytes>, after: seq<Bytes>, durable: bool,
                          k: Key, v: Value, io: AppendResult, r: CommitResult)
  {
    && r == Alone(s, io)
    && Landed(s, s', k, v) && WriteSettled(s, s', r, k, v)
    && WriteLogged(before, after, durable, r, io, s.nextTs, k, v)
    && (r.Success? ==> SurvivesCrash(s', k, v))
  }

  // Retries while the commit conflicts. Run alone it ends, with the first attempt,
  // exactly when the key is not stalled (`NeverLands`).
  method Autocommit(db: Db, key: Key, value: Value, io: AppendResult) returns (r: CommitResult)
    requires db.Valid() && !Stalled(db.model, key) && db.model.nextTs <= U64_MAX
    modifies db`model, db`logged, db.oracle, db.store, db.store.shards, db.log
    ensures db.Valid()
    ensures Written(old(db.model), db.model, old(db.Records()), db.Records(), db.log != null, key, value, io, r)
  {
    ghost var before, records := db.model, db.Records();
    r := Conflicts(|key|);
    while r.Conflicts?
      invariant db.Valid()
      invariant r.Conflicts? ==> db.model == before && db.Records() == records
      invariant !r.Conflicts? ==>
                  db.model == AfterAttempt(before, key, value, io) && r == Alone(before, io)
                  && WriteSettled(before, db.model, r, key, value)
                  && WriteLogged(records, db.Records(), db.log != null, r, io, before.nextTs, key, value)
      decreases r.Conflicts?
    {
      r := AttemptAlone(db, key, value, io);
    }
    AttemptLands(before, key, value, io);
    if r.Success? {
      SuccessSurvives(before, db.model, r, key, value);
    }
  }

  method PutOnce(db: Db, key: Key, value: Bytes, io: AppendResult) returns (r: CommitResult)
    requires db.Valid() && !Stalled(db.model, key) && db.model.nextTs <= U64_MAX
    modifies db`model, db`logged, db.oracle, db.store, db.store.shards, db.log
    ensures db.Valid()
    ensures Written(old(db.model), db.model, old(db.Records()), db.Records(), db.log != null, key, Some(value), io, r)
  {
    r := Autocommit(db, key, Some(value), io);
  }

  method DeleteOnce(db: Db, key: Key, io: AppendResult) returns (r: CommitResult)
    requires db.Valid() && !Stalled(db.model, key) && db.model.nextTs <= U64_MAX
    modifies db`model, db`logged, db.oracle, db.store, db.store.shards, db.log
    ensures db.Valid()
    ensures Written(old(db.model), db.model, old(db.Records()), db.Records(), db.log != null, key, None, io, r)
  {
    r := Autocommit(db, key, None, io);
  }
}
