// The store's atomic events are the store steps of the protocol, one by one. Concurrent.dfy
// puts whole runs together.

module StoreInProtocol {
  import opened Types
  import opened Batch
  import FineStore
  import Linearizable
  import Protocol

  ghost function Elements(keys: seq<Key>): set<Key> {
    set i | 0 <= i < |keys| :: keys[i]
  }

  // The keys a commit validates: those it writes and those of its read set.
  lemma ValidatedKeys(batch: seq<WriteEntry>, readSet: seq<Key>)
    ensures FineStore.KeysOfCommit(batch, readSet) == WritesOf(batch).Keys + Elements(readSet)
  {
    WritesUpToKeys(batch, |batch|);
    var touched := FineStore.KeysOfCommit(batch, readSet);
    forall k ensures k in touched <==> k in WritesOf(batch).Keys + Elements(readSet) {
      if k in WritesOf(batch) {
        var i :| 0 <= i < |batch| && batch[i].key == k;
        assert FineStore.KeyAt(batch, readSet, i) == k;
      }
      if k in Elements(readSet) {
        var i :| 0 <= i < |readSet| && readSet[i] == k;
        assert FineStore.KeyAt(batch, readSet, |batch| + i) == k;
      }
    }
  }

  // Committing a transaction's write and read sets, in whatever order they are listed,
  // is the protocol's step.
  lemma CommitEventIsStep(s: Protocol.State, id: nat, op: nat, batch: seq<WriteEntry>, readSet: seq<Key>,
                          results: map<nat, Linearizable.Result>)
    requires id in s.txns && s.txns[id].phase.Allocated?
    requires WritesOf(batch) == s.txns[id].writes
    requires Elements(readSet) == s.txns[id].readSet - s.txns[id].writes.Keys
    ensures var t, s' := s.txns[id], Protocol.DoTryCommit(s, id);
            var a := Linearizable.Happen(Linearizable.Atomic(s.chains, results),
                       Linearizable.TryCommit(op, t.readTs, t.phase.ts, WritesOf(batch),
                                              FineStore.KeysOfCommit(batch, readSet)));
            a == Linearizable.Atomic(s'.chains, results[op := Linearizable.CommitResult(s'.txns[id].phase.Applied?)])
  {
    ValidatedKeys(batch, readSet);
  }

  lemma GetEventIsStep(s: Protocol.State, id: nat, op: nat, k: Key, results: map<nat, Linearizable.Result>)
    requires id in s.txns
    ensures var s' := Protocol.DoRead(s, id, k);
            var a := Linearizable.Happen(Linearizable.Atomic(s.chains, results),
                       Linearizable.Get(op, k, s.txns[id].readTs));
            a == Linearizable.Atomic(s'.chains, results[op := Linearizable.GetResult(s'.txns[id].observed[k])])
  {
  }

  lemma PruneEventIsStep(s: Protocol.State, gc: nat, keys: set<Key>, results: map<nat, Linearizable.Result>)
    requires gc in s.gcs
    ensures Linearizable.Happen(Linearizable.Atomic(s.chains, results), Linearizable.Prune(s.gcs[gc], keys))
         == Linearizable.Atomic(Protocol.Do(s, Protocol.GcPrune(gc, keys)).chains, results)
  {
  }
}
