// The in-memory version store (src/store.rs): version chains sharded over an array of
// maps and updated in place. Its methods run under the locks of the shards they touch,
// which makes each of them one step (FineStore.dfy, Linearizable.dfy); here they are
// proved against the unsharded store they stand for.

module MemoryStoreImpl {
  import opened Types
  import opened VersionChain
  import opened StoreSpec
  import opened Batch
  import opened FineStore
  import opened Masks
  import opened ShardLists
  import opened Sums

  // ----- what a commit reports -----

  // The first key, in validation order, that has changed since the snapshot.
  ghost predicate FirstConflict(m: Chains, readTs: nat, batch: seq<WriteEntry>, readSet: seq<Key>, i: nat) {
    i < KeyCount(batch, readSet)
    && NewerThan(ChainOf(m, KeyAt(batch, readSet, i)), readTs)
    && forall j :: 0 <= j < i ==> !NewerThan(ChainOf(m, KeyAt(batch, readSet, j)), readTs)
  }

  // Ok, or a conflict on a key of the given length.
  datatype Outcome = Ok | Conflict(keyLen: nat)

  ghost predicate Reports(outcome: Outcome, m: Chains, readTs: nat, batch: seq<WriteEntry>, readSet: seq<Key>) {
    match outcome
    case Ok => Validates(m, readTs, KeysOfCommit(batch, readSet))
    case Conflict(keyLen) =>
      !Validates(m, readTs, KeysOfCommit(batch, readSet))
      && exists i :: FirstConflict(m, readTs, batch, readSet, i) && keyLen == |KeyAt(batch, readSet, i)|
  }

  lemma NoConflictValidates(m: Chains, readTs: nat, batch: seq<WriteEntry>, readSet: seq<Key>)
    requires forall j :: 0 <= j < KeyCount(batch, readSet) ==> !NewerThan(ChainOf(m, KeyAt(batch, readSet, j)), readTs)
    ensures Reports(Ok, m, readTs, batch, readSet)
  {
  }

  lemma ConflictReported(m: Chains, readTs: nat, batch: seq<WriteEntry>, readSet: seq<Key>, i: nat)
    requires FirstConflict(m, readTs, batch, readSet, i)
    ensures Reports(Conflict(|KeyAt(batch, readSet, i)|), m, readTs, batch, readSet)
  {
    assert KeyAt(batch, readSet, i) in KeysOfCommit(batch, readSet);
  }

  // The contract fixes the answer: whichever path a commit takes, and in whatever order
  // its shards are locked, it reports the same.
  lemma OneReport(a: Outcome, b: Outcome, m: Chains, readTs: nat, batch: seq<WriteEntry>, readSet: seq<Key>)
    requires Reports(a, m, readTs, batch, readSet) && Reports(b, m, readTs, batch, readSet)
    ensures a == b
  {
    if a.Conflict? && b.Conflict? {
      var i :| FirstConflict(m, readTs, batch, readSet, i) && a.keyLen == |KeyAt(batch, readSet, i)|;
      var j :| FirstConflict(m, readTs, batch, readSet, j) && b.keyLen == |KeyAt(batch, readSet, j)|;
      assert i <= j && j <= i;
    }
  }

  // ----- counting versions -----

  ghost function VersionCount(m: Chains): int {
    Sum((k: Key) => |ChainOf(m, k)|, m.Keys)
  }

  lemma CountUpdated(m: Chains, m': Chains, k: Key)
    requires k in m && m'.Keys <= m.Keys && m'.Keys + {k} == m.Keys
    requires forall x :: x in m && x != k ==> ChainOf(m', x) == ChainOf(m, x)
    ensures VersionCount(m') == VersionCount(m) - |m[k]| + |ChainOf(m', k)|
  {
    var f, f' := (x: Key) => |ChainOf(m, x)|, (x: Key) => |ChainOf(m', x)|;
    SumTake(f, m.Keys, k);
    SumSame(f, f', m.Keys - {k});
    if k in m' {
      SumTake(f', m'.Keys, k);
      assert m'.Keys - {k} == m.Keys - {k};
    } else {
      assert m'.Keys == m.Keys - {k};
    }
  }

  // One key more is pruned.
  lemma PruneOneMore(m: Chains, low: nat, done: set<Key>, k: Key)
    requires k in m && k !in done
    ensures k in PruneKeys(m, low, done) && PruneKeys(m, low, done)[k] == m[k]
    ensures PruneKeys(m, low, done + {k}) == Pruned(PruneKeys(m, low, done), low, k)
  {
  }

  // The shards hold exactly the chains of `m`, each key in its own shard.
  ghost predicate Represents(shardOf: Key -> nat, shards: seq<Chains>, m: Chains) {
    && (forall k :: shardOf(k) < |shards|)
    && (forall k :: k in m <==> k in shards[shardOf(k)])
    && (forall k :: k in m ==> m[k] == shards[shardOf(k)][k])
    && (forall i, k :: 0 <= i < |shards| && k in shards[i] ==> shardOf(k) == i)
  }

  lemma InItsShard(shardOf: Key -> nat, shards: seq<Chains>, m: Chains, k: Key)
    requires Represents(shardOf, shards, m)
    ensures shardOf(k) < |shards| && ChainOf(shards[shardOf(k)], k) == ChainOf(m, k)
  {
  }

  lemma RepresentsPush(shardOf: Key -> nat, shards: seq<Chains>, m: Chains, k: Key, v: Version)
    requires Represents(shardOf, shards, m)
    ensures Represents(shardOf, shards[shardOf(k) := Push(shards[shardOf(k)], k, v)], Push(m, k, v))
  {
  }

  lemma RepresentsSet(shardOf: Key -> nat, shards: seq<Chains>, m: Chains, k: Key, c: Chain)
    requires Represents(shardOf, shards, m)
    ensures Represents(shardOf, shards[shardOf(k) := shards[shardOf(k)][k := c]], m[k := c])
  {
  }

  lemma RepresentsRemove(shardOf: Key -> nat, shards: seq<Chains>, m: Chains, k: Key)
    requires Represents(shardOf, shards, m)
    ensures Represents(shardOf, shards[shardOf(k) := shards[shardOf(k)] - {k}], m - {k})
  {
  }

  // What the retain closure makes of one chain, and how many versions it takes.
  method Retain(chain: Chain, low: nat) returns (kept: Chain, taken: nat)
    ensures kept == PruneChain(chain, low)
    ensures Ascending(chain) ==> KeepsExactly(chain, kept, low)
    ensures taken + |kept| == |chain|
  {
    if Ascending(chain) {
      PruneKeepsExactly(chain, low);
    }
    kept, taken := chain, 0;
    var visible := PartitionPoint(chain, low);
    if visible > 1 {
      taken := visible - 1;
      kept := chain[visible - 1..];
    }
    if |kept| == 1 && kept[0].commitTs <= low && kept[0].value.None? {
      taken := taken + 1;
      kept := [];
    }
  }

  class MemoryStore {
    const shardOf: Key -> nat
    const shards: array<Chains>

    // The store without the sharding.
    ghost var chains: Chains

    ghost predicate Valid()
      reads this, shards
    {
      Represents(shardOf, shards[..], chains) && NoEmptyChain(chains)
    }

    // The count is rounded up to a power of two, and to at least one.
    constructor WithShards(wanted: nat, hash: Key -> nat)
      ensures Valid() && chains == map[] && fresh(shards)
      ensures wanted <= shards.Length && exists j :: IsRoundedUp(wanted, j, shards.Length)
      ensures forall k :: shardOf(k) == hash(k) % shards.Length
    {
      var exponent := RoundUp(Max(wanted, 1), 0);
      var count := PowerOfTwo(exponent);
      assert IsRoundedUp(wanted, exponent, count);
      var mask := count - 1;
      forall k: Key ensures BitAnd(hash(k), mask) == hash(k) % count {
        MaskIsRemainder(hash(k), exponent);
      }
      shardOf := k => BitAnd(hash(k), mask);
      shards := new Chains[count](_ => map[]);
      chains := map[];
    }

    method Get(key: Key, readTs: nat) returns (value: Value)
      requires Valid()
      ensures value == VisibleValue(ChainOf(chains, key), readTs)
    {
      InItsShard(shardOf, shards[..], chains, key);
      value := VisibleValue(ChainOf(shards[shardOf(key)], key), readTs);
    }

    method PushVersion(shard: nat, key: Key, v: Version)
      requires Valid() && shard == shardOf(key)
      modifies this`chains, shards
      ensures Valid() && chains == Push(old(chains), key, v)
    {
      ghost var before := shards[..];
      RepresentsPush(shardOf, before, chains, key, v);
      shards[shard] := Push(shards[shard], key, v);
      chains := Push(chains, key, v);
      assert shards[..] == before[shard := Push(before[shard], key, v)];
    }

    // The path for one write and no reads: one shard, no lock list.
    method TryCommitOne(readTs: nat, commitTs: nat, batch: seq<WriteEntry>, readSet: seq<Key>)
      returns (outcome: Outcome)
      requires Valid() && |batch| == 1 && readSet == []
      modifies this`chains, shards
      ensures Valid() && Reports(outcome, old(chains), readTs, batch, readSet)
      ensures chains == if outcome.Ok? then PushAll(old(chains), commitTs, batch) else old(chains)
    {
      var key := batch[0].key;
      var shard := shardOf(key);
      InItsShard(shardOf, shards[..], chains, key);
      assert KeyAt(batch, readSet, 0) == key;
      if NewerThan(ChainOf(shards[shard], key), readTs) {
        ConflictReported(chains, readTs, batch, readSet, 0);
        return Conflict(|key|);
      }
      NoConflictValidates(chains, readTs, batch, readSet);
      assert PushUpTo(chains, commitTs, batch, 0) == chains;
      PushVersion(shard, key, Version(commitTs, batch[0].value));
      return Ok;
    }

    // Whether the key has changed, looked up through the lock that guards its shard.
    method Changed(toLock: seq<nat>, key: Key, readTs: nat) returns (changed: bool)
      requires Valid() && StrictlyAscending(toLock) && shardOf(key) in toLock
      ensures changed == NewerThan(ChainOf(chains, key), readTs)
    {
      InItsShard(shardOf, shards[..], chains, key);
      changed := false;
      var pos := BinarySearch(toLock, shardOf(key));
      if pos.Some? {
        changed := NewerThan(ChainOf(shards[toLock[pos.value]], key), readTs);
      }
    }

    // The number of written keys that pass before the first that does not.
    method CheckWrites(toLock: seq<nat>, batch: seq<WriteEntry>, readTs: nat) returns (passed: nat)
      requires Valid() && StrictlyAscending(toLock)
      requires forall i :: 0 <= i < |batch| ==> shardOf(batch[i].key) in toLock
      ensures passed <= |batch|
      ensures forall j :: 0 <= j < passed ==> !NewerThan(ChainOf(chains, batch[j].key), readTs)
      ensures passed < |batch| ==> NewerThan(ChainOf(chains, batch[passed].key), readTs)
    {
      passed := 0;
      while passed < |batch|
        invariant passed <= |batch|
        invariant forall j :: 0 <= j < passed ==> !NewerThan(ChainOf(chains, batch[j].key), readTs)
      {
        var changed := Changed(toLock, batch[passed].key, readTs);
        if changed {
          return;
        }
        passed := passed + 1;
      }
    }

    // The same for the read set.
    method CheckReads(toLock: seq<nat>, readSet: seq<Key>, readTs: nat) returns (passed: nat)
      requires Valid() && StrictlyAscending(toLock)
      requires forall i :: 0 <= i < |readSet| ==> shardOf(readSet[i]) in toLock
      ensures passed <= |readSet|
      ensures forall j :: 0 <= j < passed ==> !NewerThan(ChainOf(chains, readSet[j]), readTs)
      ensures passed < |readSet| ==> NewerThan(ChainOf(chains, readSet[passed]), readTs)
    {
      passed := 0;
      while passed < |readSet|
        invariant passed <= |readSet|
        invariant forall j :: 0 <= j < passed ==> !NewerThan(ChainOf(chains, readSet[j]), readTs)
      {
        var changed := Changed(toLock, readSet[passed], readTs);
        if changed {
          return;
        }
        passed := passed + 1;
      }
    }

    // The lock list covers the written keys.
    ghost predicate LocksWrites(toLock: seq<nat>, batch: seq<WriteEntry>) {
      StrictlyAscending(toLock) && forall w :: w in batch ==> shardOf(w.key) in toLock
    }

    method PushLocked(toLock: seq<nat>, key: Key, v: Version)
      requires Valid() && StrictlyAscending(toLock) && shardOf(key) in toLock
      modifies this`chains, shards
      ensures Valid() && chains == Push(old(chains), key, v)
    {
      var pos := BinarySearch(toLock, shardOf(key));
      if pos.Some? {
        PushVersion(toLock[pos.value], key, v);
      }
    }

    // The first `i` entries of the batch are in place.
    ghost predicate PushedUpTo(m: Chains, commitTs: nat, batch: seq<WriteEntry>, i: nat)
      requires i <= |batch|
      reads this, shards
    {
      Valid() && chains == PushUpTo(m, commitTs, batch, i)
    }

    method ApplyEntry(toLock: seq<nat>, commitTs: nat, batch: seq<WriteEntry>, i: nat, ghost m: Chains)
      requires i < |batch| && LocksWrites(toLock, batch) && PushedUpTo(m, commitTs, batch, i)
      modifies this`chains, shards
      ensures PushedUpTo(m, commitTs, batch, i + 1)
    {
      assert batch[i] in batch;
      PushLocked(toLock, batch[i].key, Version(commitTs, batch[i].value));
    }

    method ApplyBatch(toLock: seq<nat>, commitTs: nat, batch: seq<WriteEntry>)
      requires Valid() && LocksWrites(toLock, batch)
      modifies this`chains, shards
      ensures Valid() && chains == PushAll(old(chains), commitTs, batch)
    {
      var i := 0;
      while i < |batch|
        invariant 0 <= i <= |batch|
        invariant PushedUpTo(old(chains), commitTs, batch, i)
      {
        ApplyEntry(toLock, commitTs, batch, i, old(chains));
        i := i + 1;
      }
    }

    // The path for any commit: lock the shards in order, validate every key, then push
    // every write.
    method TryCommitMany(readTs: nat, commitTs: nat, batch: seq<WriteEntry>, readSet: seq<Key>)
      returns (outcome: Outcome)
      requires Valid()
      modifies this`chains, shards
      ensures Valid() && Reports(outcome, old(chains), readTs, batch, readSet)
      ensures chains == if outcome.Ok? then PushAll(old(chains), commitTs, batch) else old(chains)
    {
      var toLock := LockList(shardOf, batch, readSet);
      LocksAll(toLock, batch, readSet);
      var written := CheckWrites(toLock, batch, readTs);
      if written < |batch| {
        FirstWriteConflict(chains, readTs, batch, readSet, written);
        return Conflict(|batch[written].key|);
      }
      var stillRead := CheckReads(toLock, readSet, readTs);
      if stillRead < |readSet| {
        FirstReadConflict(chains, readTs, batch, readSet, stillRead);
        return Conflict(|readSet[stillRead]|);
      }
      NoConflictValidates(chains, readTs, batch, readSet);
      ApplyBatch(toLock, commitTs, batch);
      return Ok;
    }

    lemma LocksAll(toLock: seq<nat>, batch: seq<WriteEntry>, readSet: seq<Key>)
      requires forall i :: 0 <= i < KeyCount(batch, readSet) ==> shardOf(KeyAt(batch, readSet, i)) in toLock
      ensures forall i :: 0 <= i < |batch| ==> shardOf(batch[i].key) in toLock
      ensures forall i :: 0 <= i < |readSet| ==> shardOf(readSet[i]) in toLock
    {
      assert forall i :: 0 <= i < |batch| ==> batch[i].key == KeyAt(batch, readSet, i);
      assert forall i :: 0 <= i < |readSet| ==> readSet[i] == KeyAt(batch, readSet, |batch| + i);
    }

    // All or nothing: either every key passes and every write is installed, or the first
    // conflicting key is reported and nothing changes. Both paths meet one contract.
    method TryCommit(readTs: nat, commitTs: nat, batch: seq<WriteEntry>, readSet: seq<Key>) returns (outcome: Outcome)
      requires Valid()
      modifies this`chains, shards
      ensures Valid() && Reports(outcome, old(chains), readTs, batch, readSet)
      ensures chains == if outcome.Ok? then PushAll(old(chains), commitTs, batch) else old(chains)
    {
      if |batch| == 1 && readSet == [] {
        outcome := TryCommitOne(readTs, commitTs, batch, readSet);
      } else {
        outcome := TryCommitMany(readTs, commitTs, batch, readSet);
      }
    }

    // Replays one recovered commit, without validation.
    method InstallRecovered(commitTs: nat, batch: seq<WriteEntry>)
      requires Valid()
      modifies this`chains, shards
      ensures Valid() && chains == PushAll(old(chains), commitTs, batch)
    {
      var i := 0;
      while i < |batch|
        invariant 0 <= i <= |batch|
        invariant Valid() && chains == PushUpTo(old(chains), commitTs, batch, i)
      {
        PushVersion(shardOf(batch[i].key), batch[i].key, Version(commitTs, batch[i].value));
        i := i + 1;
      }
    }

    // The retain closure, on one key of one shard; returns how many versions it took.
    method PruneKey(shard: nat, key: Key, low: nat) returns (taken: nat)
      requires Valid() && shard < shards.Length && key in shards[shard] && key in chains && shardOf(key) == shard
      modifies this`chains, shards
      ensures Valid()
      ensures chains == Pruned(old(chains), low, key)
      ensures shards[..] == old(shards[..])[shard := Pruned(old(shards[shard]), low, key)]
      ensures Collected(old(chains), chains, low, {key})
      ensures taken + |ChainOf(chains, key)| == |old(chains)[key]|
    {
      ghost var before, m := shards[..], chains;
      PrunedIsCollected(m, low, key);
      var kept;
      kept, taken := Retain(shards[shard][key], low);
      if kept == [] {
        RepresentsRemove(shardOf, before, m, key);
        shards[shard] := shards[shard] - {key};
        chains := chains - {key};
        assert shards[..] == before[shard := before[shard] - {key}];
      } else {
        RepresentsSet(shardOf, before, m, key, kept);
        shards[shard] := shards[shard][key := kept];
        chains := chains[key := kept];
        assert shards[..] == before[shard := before[shard][key := kept]];
      }
    }

    // Prunes every chain of one shard and returns the number of versions removed.
    method PruneShard(shard: nat, low: nat) returns (taken: nat)
      requires Valid() && shard < shards.Length
      modifies this`chains, shards
      ensures Valid() && chains == PruneKeys(old(chains), low, old(shards[shard]).Keys)
      ensures Collected(old(chains), chains, low, old(shards[shard]).Keys)
      ensures taken + VersionCount(chains) == VersionCount(old(chains))
      ensures OthersSame(shard, old(shards[..]))
    {
      PruneKeysExactly(chains, low, shards[shard].Keys);
      PruneNothing(chains, low);
      taken := PruneEach(shard, low, shards[shard].Keys, chains, shards[..]);
    }

    // The retain loop over the keys of one shard.
    method PruneEach(shard: nat, low: nat, keys: set<Key>, ghost m: Chains, ghost original: seq<Chains>)
      returns (taken: nat)
      requires PrunedSoFar(shard, low, m, {}, original, 0) && keys <= shards[shard].Keys
      modifies this`chains, shards
      ensures PrunedSoFar(shard, low, m, keys, original, taken)
    {
      taken := 0;
      var todo := keys;
      ghost var done: set<Key> := {};
      while todo != {}
        invariant PrunedSoFar(shard, low, m, done, original, taken)
        invariant todo <= shards[shard].Keys && done !! todo && done + todo == keys
        decreases todo
      {
        var key :| key in todo;
        taken := PruneOne(shard, low, key, m, done, original, taken);
        todo, done := todo - {key}, done + {key};
      }
      assert done == keys;
    }

    ghost predicate OthersSame(shard: nat, original: seq<Chains>)
      reads shards
    {
      SameBut(shard, shards[..], original)
    }

    // The keys in `done` of one shard are pruned, and `taken` versions are gone.
    ghost predicate PrunedSoFar(shard: nat, low: nat, m: Chains, done: set<Key>, original: seq<Chains>, taken: nat)
      reads this, shards
    {
      && Valid() && shard < shards.Length && OthersSame(shard, original)
      && chains == PruneKeys(m, low, done)
      && taken + VersionCount(chains) == VersionCount(m)
    }

    lemma InShard(shard: nat, key: Key)
      requires Valid() && shard < shards.Length && key in shards[shard]
      ensures key in chains && shardOf(key) == shard
    {
      assert key in shards[..][shard];
    }

    method PruneOne(shard: nat, low: nat, key: Key, ghost m: Chains, ghost done: set<Key>,
                    ghost original: seq<Chains>, before: nat)
      returns (taken: nat)
      requires PrunedSoFar(shard, low, m, done, original, before) && key in shards[shard] && key !in done
      modifies this`chains, shards
      ensures PrunedSoFar(shard, low, m, done + {key}, original, taken)
      ensures old(shards[shard]).Keys - {key} <= shards[shard].Keys
    {
      InShard(shard, key);
      PruneOneMore(m, low, done, key);
      CountPruned(chains, low, key);
      SameButSet(shard, shards[..], original, Pruned(shards[shard], low, key));
      var n := PruneKey(shard, key, low);
      taken := before + n;
      assert shards[shard] == shards[..][shard];
    }

    // The first `n` shards are pruned and the others as they were.
    ghost predicate PrunedBelow(n: nat, low: nat, m: Chains, original: seq<Chains>)
      reads this, shards
    {
      && n <= |original| == shards.Length
      && Valid()
      && (forall j :: n <= j < |original| ==> shards[j] == original[j])
      && chains == PruneKeys(m, low, KeysBelow(original, n))
    }

    method PruneNext(i: nat, low: nat, ghost m: Chains, ghost original: seq<Chains>) returns (taken: nat)
      requires i < shards.Length && PrunedBelow(i, low, m, original) && Represents(shardOf, original, m)
      modifies this`chains, shards
      ensures PrunedBelow(i + 1, low, m, original)
      ensures taken + VersionCount(chains) == VersionCount(old(chains))
    {
      ghost var keys := shards[i].Keys;
      taken := PruneShard(i, low);
      PruneTwice(m, low, KeysBelow(original, i), keys, shardOf, original, i);
      assert forall j :: i < j < |original| ==> shards[j] == original[j];
    }

    // Prunes every chain, shard after shard, and returns the number of versions removed.
    method CollectGarbage(low: nat) returns (reclaimed: nat)
      requires Valid()
      modifies this`chains, shards
      ensures Valid() && chains == PruneKeys(old(chains), low, old(chains).Keys)
      ensures Collected(old(chains), chains, low, old(chains).Keys)
      ensures reclaimed + VersionCount(chains) == VersionCount(old(chains))
    {
      reclaimed := 0;
      var i := 0;
      ghost var m, original := chains, shards[..];
      PruneNothing(m, low);
      while i < shards.Length
        invariant i <= shards.Length && PrunedBelow(i, low, m, original)
        invariant reclaimed + VersionCount(chains) == VersionCount(m)
      {
        var n := PruneNext(i, low, m, original);
        reclaimed := reclaimed + n;
        i := i + 1;
      }
      AllKeysBelow(shardOf, original, m);
      PruneKeysExactly(m, low, m.Keys);
    }
  }

  // Two lists of shards that differ at most in one place.
  ghost predicate SameBut(shard: nat, a: seq<Chains>, b: seq<Chains>) {
    |a| == |b| && forall i :: 0 <= i < |a| && i != shard ==> a[i] == b[i]
  }

  lemma SameButSet(shard: nat, a: seq<Chains>, b: seq<Chains>, m: Chains)
    requires SameBut(shard, a, b) && shard < |a|
    ensures SameBut(shard, a[shard := m], b)
  {
  }

  lemma FirstWriteConflict(m: Chains, readTs: nat, batch: seq<WriteEntry>, readSet: seq<Key>, i: nat)
    requires i < |batch| && NewerThan(ChainOf(m, batch[i].key), readTs)
    requires forall j :: 0 <= j < i ==> !NewerThan(ChainOf(m, batch[j].key), readTs)
    ensures Reports(Conflict(|batch[i].key|), m, readTs, batch, readSet)
  {
    assert KeyAt(batch, readSet, i) == batch[i].key;
    ConflictReported(m, readTs, batch, readSet, i);
  }

  lemma FirstReadConflict(m: Chains, readTs: nat, batch: seq<WriteEntry>, readSet: seq<Key>, i: nat)
    requires i < |readSet| && NewerThan(ChainOf(m, readSet[i]), readTs)
    requires forall j :: 0 <= j < |batch| ==> !NewerThan(ChainOf(m, batch[j].key), readTs)
    requires forall j :: 0 <= j < i ==> !NewerThan(ChainOf(m, readSet[j]), readTs)
    ensures Reports(Conflict(|readSet[i]|), m, readTs, batch, readSet)
  {
    assert KeyAt(batch, readSet, |batch| + i) == readSet[i];
    ConflictReported(m, readTs, batch, readSet, |batch| + i);
  }

  // ----- pruning, key by key -----

  // One key pruned, and dropped if nothing of it stays.
  ghost function Pruned(m: Chains, low: nat, k: Key): Chains
    requires k in m
  {
    var kept := PruneChain(m[k], low);
    if kept == [] then m - {k} else m[k := kept]
  }

  lemma PrunedIsCollected(m: Chains, low: nat, k: Key)
    requires k in m
    ensures Collected(m, Pruned(m, low, k), low, {k})
    ensures ChainOf(Pruned(m, low, k), k) == PruneChain(m[k], low)
  {
    if Ascending(m[k]) {
      PruneKeepsExactly(m[k], low);
    }
  }

  lemma PruneNothing(m: Chains, low: nat)
    ensures PruneKeys(m, low, {}) == m
  {
  }

  lemma CountPruned(m: Chains, low: nat, k: Key)
    requires k in m
    ensures VersionCount(Pruned(m, low, k)) == VersionCount(m) - |m[k]| + |PruneChain(m[k], low)|
  {
    CountUpdated(m, Pruned(m, low, k), k);
  }

  // The keys of the first `n` shards.
  ghost function KeysBelow(shards: seq<Chains>, n: nat): set<Key>
    requires n <= |shards|
  {
    if n == 0 then {} else KeysBelow(shards, n - 1) + shards[n - 1].Keys
  }

  lemma {:induction false} KeysBelowHold(shards: seq<Chains>, n: nat, k: Key)
    requires n <= |shards|
    ensures k in KeysBelow(shards, n) <==> exists i :: 0 <= i < n && k in shards[i]
  {
    if n > 0 {
      KeysBelowHold(shards, n - 1, k);
    }
  }

  lemma AllKeysBelow(shardOf: Key -> nat, shards: seq<Chains>, m: Chains)
    requires Represents(shardOf, shards, m)
    ensures KeysBelow(shards, |shards|) == m.Keys
  {
    forall k ensures k in KeysBelow(shards, |shards|) <==> k in m {
      KeysBelowHold(shards, |shards|, k);
    }
  }

  // Pruning one shard after the shards before it.
  lemma PruneTwice(m: Chains, low: nat, done: set<Key>, more: set<Key>,
                   shardOf: Key -> nat, shards: seq<Chains>, i: nat)
    requires Represents(shardOf, shards, m) && i < |shards|
    requires done == KeysBelow(shards, i) && more == shards[i].Keys
    ensures PruneKeys(PruneKeys(m, low, done), low, more) == PruneKeys(m, low, KeysBelow(shards, i + 1))
  {
    forall k | k in done ensures k !in more {
      KeysBelowHold(shards, i, k);
      var j :| 0 <= j < i && k in shards[j];
      assert shardOf(k) == j;
      assert k in shards[i] ==> shardOf(k) == i;
    }
    PruneDisjoint(m, low, done, more);
  }

  lemma PruneDisjoint(m: Chains, low: nat, done: set<Key>, more: set<Key>)
    requires done !! more
    ensures PruneKeys(PruneKeys(m, low, done), low, more) == PruneKeys(m, low, done + more)
  {
  }
}
