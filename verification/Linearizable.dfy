// The sharded, locking store acts as one unsharded map on which every commit, read and
// pruning takes effect at a single instant between its call and its return.

module Linearizable {
  import opened Types
  import opened VersionChain
  import opened StoreSpec
  import opened Batch
  import opened FineStore

  // ----- the atomic store -----

  datatype Result = CommitResult(ok: bool) | GetResult(value: Value)

  datatype Atomic = Atomic(chains: Chains, results: map<nat, Result>)

  datatype Event =
    | TryCommit(id: nat, readTs: nat, commitTs: nat, writes: WriteSet, keys: set<Key>)
    | Get(id: nat, key: Key, readTs: nat)
    | Prune(low: nat, keys: set<Key>)

  ghost function Happen(a: Atomic, e: Event): Atomic {
    match e
    case TryCommit(id, readTs, commitTs, writes, keys) =>
      if Validates(a.chains, readTs, keys) then
        Atomic(ApplyWrites(a.chains, commitTs, writes), a.results[id := CommitResult(true)])
      else
        a.(results := a.results[id := CommitResult(false)])
    case Get(id, key, readTs) =>
      a.(results := a.results[id := GetResult(VisibleValue(ChainOf(a.chains, key), readTs))])
    case Prune(low, keys) => a.(chains := PruneKeys(a.chains, low, keys))
  }

  // ----- the instant at which an operation takes effect -----

  // A commit does when its validation is decided, a read when it looks the chain up,
  // garbage collection once for every shard.
  ghost function Point(s: Store, id: nat): Option<Event>
    requires id in s.ops
  {
    match s.ops[id]
    case CommitOp(readTs, commitTs, batch, readSet, _, stage) =>
      if stage.Validating?
         && (stage.checked >= KeyCount(batch, readSet)
             || NewerThan(ChainAt(s, KeyAt(batch, readSet, stage.checked)), readTs))
      then Some(TryCommit(id, readTs, commitTs, WritesOf(batch), KeysOfCommit(batch, readSet)))
      else None
    case GetOp(key, readTs, get) => if get.Reading? then Some(Get(id, key, readTs)) else None
    case GcOp(low, shard, gc) =>
      if gc.GcHolding? && shard < |s.shards| then Some(Prune(low, s.shards[shard].Keys)) else None
  }

  ghost function Linearize(s: Store, steps: seq<Step>): Atomic
    requires Inv(s) && Exec(s, steps).Some?
    decreases |steps|
  {
    if steps == [] then Atomic(map[], map[])
    else
      var init, step := steps[..|steps| - 1], steps[|steps| - 1];
      var a := Linearize(s, init);
      var m := Exec(s, init).value;
      if step.Advance? && Point(m, step.id).Some? then Happen(a, Point(m, step.id).value) else a
  }

  // ----- the simulation -----

  // Entry `j` of commit `id` has taken effect but is not in its chain yet.
  ghost predicate Pending(s: Store, id: nat, j: int) {
    id in s.ops && s.ops[id].CommitOp? && s.ops[id].stage.Applying?
    && s.ops[id].stage.pushed <= j < |s.ops[id].batch|
  }

  ghost predicate PendingKey(s: Store, k: Key) {
    exists id, j :: Pending(s, id, j) && s.ops[id].batch[j].key == k
  }

  function PendingVersion(op: Op, j: int): Version
    requires op.CommitOp? && 0 <= j < |op.batch|
  {
    Version(op.commitTs, op.batch[j].value)
  }

  ghost predicate Decided(results: map<nat, Result>, id: nat, op: Op) {
    match op
    case CommitOp(_, _, _, _, _, stage) =>
      (match stage
       case Acquiring(_) => id !in results
       case Validating(_) => id !in results
       case Applying(_) => id in results && results[id] == CommitResult(true)
       case Releasing(_, ok) => id in results && results[id] == CommitResult(ok)
       case Returned(ok) => id in results && results[id] == CommitResult(ok))
    case GetOp(_, _, get) =>
      (match get
       case Waiting => id !in results
       case Reading => id !in results
       case Got(value) => id in results && results[id] == GetResult(value)
       case GetReturned(value) => id in results && results[id] == GetResult(value))
    case GcOp(_, _, _) => id !in results
  }

  ghost predicate SameChain(s: Store, a: Atomic, k: Key) {
    ChainOf(a.chains, k) == ChainAt(s, k)
  }

  ghost predicate PendingMatches(s: Store, a: Atomic, o: nat, j: int)
    requires Pending(s, o, j)
  {
    ChainOf(a.chains, s.ops[o].batch[j].key)
    == ChainAt(s, s.ops[o].batch[j].key) + [PendingVersion(s.ops[o], j)]
  }

  ghost predicate ChainsMatch(s: Store, a: Atomic) {
    && (forall k :: !PendingKey(s, k) ==> SameChain(s, a, k))
    && (forall id, j :: Pending(s, id, j) ==> PendingMatches(s, a, id, j))
  }

  ghost predicate ResultsMatch(s: Store, a: Atomic) {
    && (forall id :: id in s.ops ==> Decided(a.results, id, s.ops[id]))
    && (forall id :: id in a.results ==> id in s.ops)
  }

  ghost predicate Simulates(s: Store, a: Atomic) {
    ChainsMatch(s, a) && ResultsMatch(s, a)
  }

  lemma PendingIsHeld(s: Store, id: nat, j: int)
    requires Inv(s) && Pending(s, id, j)
    ensures HoldsWrite(s.ops[id], s.shardOf(s.ops[id].batch[j].key))
  {
    var op := s.ops[id];
    assert StageOk(s, op);
    assert KeyAt(op.batch, op.readSet, j) == op.batch[j].key;
  }

  // Under a lock on its shard, a chain is what the atomic store says it is.
  lemma HolderSeesAtomic(s: Store, a: Atomic, id: nat, k: Key)
    requires Inv(s) && ChainsMatch(s, a) && id in s.ops
    requires HoldsWrite(s.ops[id], s.shardOf(k)) || HoldsRead(s, s.ops[id], s.shardOf(k))
    requires !(s.ops[id].CommitOp? && s.ops[id].stage.Applying?)
    ensures !PendingKey(s, k) && SameChain(s, a, k)
  {
    if PendingKey(s, k) {
      var o, j :| Pending(s, o, j) && s.ops[o].batch[j].key == k;
      PendingIsHeld(s, o, j);
      assert false;
    }
  }

  // ----- a commit is decided -----

  lemma CommitHolds(s: Store, id: nat, i: nat)
    requires Inv(s) && id in s.ops && s.ops[id].CommitOp?
    requires s.ops[id].stage.Validating? && i < KeyCount(s.ops[id].batch, s.ops[id].readSet)
    ensures HoldsWrite(s.ops[id], s.shardOf(KeyAt(s.ops[id].batch, s.ops[id].readSet, i)))
  {
    assert StageOk(s, s.ops[id]);
  }

  // The step-by-step validation reaches the verdict of the atomic one.
  lemma SameVerdict(s: Store, a: Atomic, id: nat)
    requires Inv(s) && ChainsMatch(s, a) && id in s.ops && s.ops[id].CommitOp? && s.ops[id].stage.Validating?
    requires Point(s, id).Some?
    ensures Validates(a.chains, s.ops[id].readTs, KeysOfCommit(s.ops[id].batch, s.ops[id].readSet))
       <==> s.ops[id].stage.checked >= KeyCount(s.ops[id].batch, s.ops[id].readSet)
  {
    var op := s.ops[id];
    assert StageOk(s, op);
    var n := KeyCount(op.batch, op.readSet);
    if op.stage.checked >= n {
      forall k | k in KeysOfCommit(op.batch, op.readSet) ensures !NewerThan(ChainOf(a.chains, k), op.readTs) {
        var i :| 0 <= i < n && KeyAt(op.batch, op.readSet, i) == k;
        CommitHolds(s, id, i);
        HolderSeesAtomic(s, a, id, k);
      }
    } else {
      var k := KeyAt(op.batch, op.readSet, op.stage.checked);
      CommitHolds(s, id, op.stage.checked);
      HolderSeesAtomic(s, a, id, k);
      assert k in KeysOfCommit(op.batch, op.readSet);
    }
  }

  lemma BatchKeyHeld(s: Store, id: nat, k: Key)
    requires Inv(s) && id in s.ops && s.ops[id].CommitOp? && s.ops[id].stage.Validating?
    requires k in WritesOf(s.ops[id].batch)
    ensures HoldsWrite(s.ops[id], s.shardOf(k))
  {
    var op := s.ops[id];
    WritesUpToKeys(op.batch, |op.batch|);
    var i :| 0 <= i < |op.batch| && op.batch[i].key == k;
    assert KeyAt(op.batch, op.readSet, i) == k;
    CommitHolds(s, id, i);
  }

  ghost predicate Deciding(s: Store, a: Atomic, id: nat) {
    Inv(s) && Simulates(s, a) && Enabled(s, Advance(id)) && s.ops[id].CommitOp?
    && s.ops[id].stage.Validating? && s.ops[id].stage.checked >= KeyCount(s.ops[id].batch, s.ops[id].readSet)
  }

  lemma DecidedShape(s: Store, a: Atomic, id: nat)
    requires Deciding(s, a, id)
    ensures Happen(a, Point(s, id).value).chains
         == ApplyWrites(a.chains, s.ops[id].commitTs, WritesOf(s.ops[id].batch))
    ensures Do(s, Advance(id)) == s.(ops := s.ops[id := s.ops[id].(stage := Applying(0))])
    ensures DistinctKeys(s.ops[id].batch)
  {
    SameVerdict(s, a, id);
    assert StageOk(s, s.ops[id]);
  }

  lemma OwnEntriesPending(s: Store, a: Atomic, id: nat, j: int)
    requires Deciding(s, a, id) && Pending(Do(s, Advance(id)), id, j)
    ensures PendingMatches(Do(s, Advance(id)), Happen(a, Point(s, id).value), id, j)
  {
    DecidedShape(s, a, id);
    var op := s.ops[id];
    var k := op.batch[j].key;
    WritesUpToValue(op.batch, |op.batch|, j);
    BatchKeyHeld(s, id, k);
    HolderSeesAtomic(s, a, id, k);
    ChainOfApplied(a.chains, op.commitTs, WritesOf(op.batch), k);
  }

  lemma OtherEntriesPending(s: Store, a: Atomic, id: nat, o: nat, j: int)
    requires Deciding(s, a, id) && o != id && Pending(Do(s, Advance(id)), o, j)
    ensures PendingMatches(Do(s, Advance(id)), Happen(a, Point(s, id).value), o, j)
  {
    DecidedShape(s, a, id);
    assert Pending(s, o, j);
    var k := s.ops[o].batch[j].key;
    PendingIsHeld(s, o, j);
    assert k !in WritesOf(s.ops[id].batch) by {
      if k in WritesOf(s.ops[id].batch) {
        BatchKeyHeld(s, id, k);
        assert false;
      }
    }
    ChainOfApplied(a.chains, s.ops[id].commitTs, WritesOf(s.ops[id].batch), k);
  }

  lemma CommitTakesEffect(s: Store, a: Atomic, id: nat)
    requires Deciding(s, a, id)
    ensures ChainsMatch(Do(s, Advance(id)), Happen(a, Point(s, id).value))
  {
    var s', a' := Do(s, Advance(id)), Happen(a, Point(s, id).value);
    DecidedShape(s, a, id);
    forall k | !PendingKey(s', k) ensures SameChain(s', a', k) {
      ChainOfApplied(a.chains, s.ops[id].commitTs, WritesOf(s.ops[id].batch), k);
      NotPendingAfter(s, s', id, k);
      assert SameChain(s, a, k);
    }
    forall o: nat, j | Pending(s', o, j) ensures PendingMatches(s', a', o, j) {
      if o == id {
        OwnEntriesPending(s, a, id, j);
      } else {
        OtherEntriesPending(s, a, id, o, j);
      }
    }
  }

  lemma NotPendingAfter(s: Store, s': Store, id: nat, k: Key)
    requires id in s.ops && s.ops[id].CommitOp? && s.ops[id].stage.Validating?
    requires s' == s.(ops := s.ops[id := s.ops[id].(stage := Applying(0))]) && !PendingKey(s', k)
    ensures !PendingKey(s, k) && k !in WritesOf(s.ops[id].batch)
  {
    var op := s.ops[id];
    PendingKeyKept(s, s', k);
    WritesUpToKeys(op.batch, |op.batch|);
    forall i | 0 <= i < |op.batch| ensures Pending(s', id, i) && s'.ops[id].batch[i] == op.batch[i] {
    }
    assert forall i :: 0 <= i < |op.batch| ==> op.batch[i].key != k;
  }

  // ----- one entry is pushed -----

  lemma StillPending(s: Store, s': Store, id: nat, k: Key)
    requires id in s.ops && s.ops[id].CommitOp? && s.ops[id].stage.Applying?
    requires s.ops[id].stage.pushed < |s.ops[id].batch| && k != s.ops[id].batch[s.ops[id].stage.pushed].key
    requires s'.ops == s.ops[id := s.ops[id].(stage := Applying(s.ops[id].stage.pushed + 1))]
    ensures PendingKey(s, k) ==> PendingKey(s', k)
  {
    if PendingKey(s, k) {
      var o: nat, j :| Pending(s, o, j) && s.ops[o].batch[j].key == k;
      assert Pending(s', o, j);
    }
  }

  lemma PushTakesPlace(s: Store, a: Atomic, id: nat)
    requires Inv(s) && ChainsMatch(s, a) && Enabled(s, Advance(id)) && s.ops[id].CommitOp?
    requires s.ops[id].stage.Applying? && s.ops[id].stage.pushed < |s.ops[id].batch|
    ensures ChainsMatch(Do(s, Advance(id)), a)
  {
    var op := s.ops[id];
    var p := op.stage.pushed;
    var key := op.batch[p].key;
    var s' := Do(s, Advance(id));
    assert StageOk(s, op);
    assert Pending(s, id, p);
    assert forall k :: ChainAt(s', k) == if k == key then ChainAt(s, k) + [PendingVersion(op, p)] else ChainAt(s, k);
    forall k | !PendingKey(s', k) ensures SameChain(s', a, k) {
      if k != key {
        StillPending(s, s', id, k);
        assert SameChain(s, a, k);
      }
    }
    forall o: nat, j | Pending(s', o, j) ensures PendingMatches(s', a, o, j) {
      assert Pending(s, o, j);
      assert PendingMatches(s, a, o, j);
      PendingIsHeld(s, o, j);
      PendingIsHeld(s, id, p);
      assert s'.ops[o].batch[j].key != key;
    }
  }

  // ----- the other steps -----

  lemma PendingKeyKept(s: Store, s': Store, k: Key)
    requires forall o: nat, j :: Pending(s, o, j) ==> Pending(s', o, j) && s'.ops[o].batch == s.ops[o].batch
    ensures PendingKey(s, k) ==> PendingKey(s', k)
  {
    if PendingKey(s, k) {
      var o: nat, j :| Pending(s, o, j) && s.ops[o].batch[j].key == k;
      assert Pending(s', o, j);
    }
  }

  // A step that changes no chain and no pending entry.
  ghost predicate Stutters(s: Store, id: nat)
    requires id in s.ops
  {
    match s.ops[id]
    case CommitOp(_, _, batch, readSet, _, stage) =>
      stage.Acquiring? || stage.Releasing?
      || (stage.Validating? && stage.checked < KeyCount(batch, readSet))
      || (stage.Applying? && stage.pushed >= |batch|)
    case GetOp(_, _, _) => true
    case GcOp(_, shard, gc) => !gc.GcHolding?
  }

  lemma StutterKeepsChains(s: Store, a: Atomic, a': Atomic, id: nat)
    requires Inv(s) && ChainsMatch(s, a) && Enabled(s, Advance(id)) && Stutters(s, id) && a'.chains == a.chains
    ensures ChainsMatch(Do(s, Advance(id)), a')
  {
    var s' := Do(s, Advance(id));
    assert s'.shards == s.shards;
    forall o: nat, j ensures Pending(s', o, j) <==> Pending(s, o, j) {
    }
    assert forall o: nat, j :: Pending(s, o, j) ==> s'.ops[o].batch == s.ops[o].batch;
    forall k | !PendingKey(s', k) ensures SameChain(s', a', k) {
      PendingKeyKept(s, s', k);
      assert SameChain(s, a, k);
    }
    forall o: nat, j | Pending(s', o, j) ensures PendingMatches(s', a', o, j) {
      assert PendingMatches(s, a, o, j);
    }
  }

  lemma PruneTakesEffect(s: Store, a: Atomic, id: nat)
    requires Inv(s) && ChainsMatch(s, a) && Enabled(s, Advance(id)) && s.ops[id].GcOp? && s.ops[id].gc.GcHolding?
    ensures Point(s, id).Some? && ChainsMatch(Do(s, Advance(id)), Happen(a, Point(s, id).value))
  {
    var op := s.ops[id];
    assert StageOk(s, op);
    var s', a' := Do(s, Advance(id)), Happen(a, Point(s, id).value);
    var keys := s.shards[op.shard].Keys;
    forall o: nat, j ensures Pending(s', o, j) <==> Pending(s, o, j) {
    }
    assert forall o: nat, j :: Pending(s, o, j) ==> s'.ops[o].batch == s.ops[o].batch;
    forall k | !PendingKey(s', k) ensures SameChain(s', a', k) {
      PendingKeyKept(s, s', k);
      assert SameChain(s, a, k);
      ChainOfPruned(a.chains, op.low, keys, k);
      ChainOfPruned(s.shards[op.shard], op.low, keys, k);
    }
    forall o: nat, j | Pending(s', o, j) ensures PendingMatches(s', a', o, j) {
      assert PendingMatches(s, a, o, j);
      PendingIsHeld(s, o, j);
      var k := s.ops[o].batch[j].key;
      assert s.shardOf(k) != op.shard;
      ChainOfPruned(a.chains, op.low, keys, k);
    }
  }

  lemma ResultsOfCommit(s: Store, a: Atomic, id: nat)
    requires Inv(s) && Simulates(s, a) && Enabled(s, Advance(id)) && s.ops[id].CommitOp?
    ensures var a' := if Point(s, id).Some? then Happen(a, Point(s, id).value) else a;
            Decided(a'.results, id, Next(s, s.ops[id]).0)
            && a'.results.Keys <= a.results.Keys + {id}
            && forall o :: o in a.results && o != id ==> a'.results[o] == a.results[o]
  {
    assert StageOk(s, s.ops[id]);
    assert Decided(a.results, id, s.ops[id]);
    if s.ops[id].stage.Validating? && Point(s, id).Some? {
      SameVerdict(s, a, id);
    }
  }

  lemma ResultsOfOther(s: Store, a: Atomic, id: nat)
    requires Inv(s) && Simulates(s, a) && Enabled(s, Advance(id)) && !s.ops[id].CommitOp?
    ensures var a' := if Point(s, id).Some? then Happen(a, Point(s, id).value) else a;
            Decided(a'.results, id, Next(s, s.ops[id]).0)
            && a'.results.Keys <= a.results.Keys + {id}
            && forall o :: o in a.results && o != id ==> a'.results[o] == a.results[o]
  {
    var op := s.ops[id];
    assert Decided(a.results, id, op);
    if op.GetOp? && op.get.Reading? {
      HolderSeesAtomic(s, a, id, op.key);
    }
  }

  lemma DecidedKept(results: map<nat, Result>, results': map<nat, Result>, id: nat, o: nat, op: Op)
    requires Decided(results, o, op) && o != id
    requires results'.Keys <= results.Keys + {id} && results.Keys <= results'.Keys
    requires forall x :: x in results && x != id ==> results'[x] == results[x]
    ensures Decided(results', o, op)
  {
  }

  lemma ResultsStep(s: Store, a: Atomic, id: nat)
    requires Inv(s) && Simulates(s, a) && Enabled(s, Advance(id))
    ensures ResultsMatch(Do(s, Advance(id)), if Point(s, id).Some? then Happen(a, Point(s, id).value) else a)
  {
    var s' := Do(s, Advance(id));
    var a' := if Point(s, id).Some? then Happen(a, Point(s, id).value) else a;
    if s.ops[id].CommitOp? {
      ResultsOfCommit(s, a, id);
    } else {
      ResultsOfOther(s, a, id);
    }
    forall o | o in s'.ops ensures Decided(a'.results, o, s'.ops[o]) {
      if o != id {
        DecidedKept(a.results, a'.results, id, o, s.ops[o]);
      }
    }
  }

  lemma ChainsStep(s: Store, a: Atomic, id: nat)
    requires Inv(s) && Simulates(s, a) && Enabled(s, Advance(id))
    ensures ChainsMatch(Do(s, Advance(id)), if Point(s, id).Some? then Happen(a, Point(s, id).value) else a)
  {
    var op := s.ops[id];
    assert StageOk(s, op);
    if Stutters(s, id) {
      var a' := if Point(s, id).Some? then Happen(a, Point(s, id).value) else a;
      if op.CommitOp? && op.stage.Validating? && Point(s, id).Some? {
        SameVerdict(s, a, id);
      }
      StutterKeepsChains(s, a, a', id);
    } else if op.GcOp? {
      PruneTakesEffect(s, a, id);
    } else if op.stage.Validating? {
      CommitTakesEffect(s, a, id);
    } else {
      PushTakesPlace(s, a, id);
    }
  }

  lemma InvokeSimulates(s: Store, a: Atomic, id: nat, op: Op)
    requires Inv(s) && Simulates(s, a) && Enabled(s, Invoke(id, op))
    ensures Simulates(Do(s, Invoke(id, op)), a)
  {
    var s' := Do(s, Invoke(id, op));
    forall o: nat, j ensures Pending(s', o, j) <==> Pending(s, o, j) {
    }
    assert forall o: nat, j :: Pending(s, o, j) ==> s'.ops[o].batch == s.ops[o].batch;
    forall k | !PendingKey(s', k) ensures SameChain(s', a, k) {
      PendingKeyKept(s, s', k);
      assert SameChain(s, a, k);
    }
    forall o: nat, j | Pending(s', o, j) ensures PendingMatches(s', a, o, j) {
      assert PendingMatches(s, a, o, j);
    }
  }

  // ----- the theorem -----

  // The state of the sharded store after any run is the state of the atomic store after
  // the events of that run, in the order of their instants.
  lemma {:induction false} RunIsLinearizable(s: Store, steps: seq<Step>)
    requires Inv(s) && Empty(s) && Exec(s, steps).Some?
    ensures Simulates(Exec(s, steps).value, Linearize(s, steps))
  {
    if steps == [] {
      assert forall k :: SameChain(s, Linearize(s, []), k);
    } else {
      var init, step := steps[..|steps| - 1], steps[|steps| - 1];
      RunIsLinearizable(s, init);
      var m, a := Exec(s, init).value, Linearize(s, init);
      match step
      case Invoke(id, op) => InvokeSimulates(m, a, id, op);
      case Advance(id) =>
        ResultsStep(m, a, id);
        ChainsStep(m, a, id);
    }
  }

  // A returned commit or read reports what the atomic store did at its instant, and when
  // no commit is half applied every chain is the atomic one.
  lemma ReturnsAreAtomic(s: Store, steps: seq<Step>)
    requires Inv(s) && Empty(s) && Exec(s, steps).Some?
    ensures var s', a := Exec(s, steps).value, Linearize(s, steps);
            && (forall id :: id in s'.ops && s'.ops[id].CommitOp? && s'.ops[id].stage.Returned? ==>
                  id in a.results && a.results[id] == CommitResult(s'.ops[id].stage.ok))
            && (forall id :: id in s'.ops && s'.ops[id].GetOp? && s'.ops[id].get.GetReturned? ==>
                  id in a.results && a.results[id] == GetResult(s'.ops[id].get.value))
            && ((forall id :: id in s'.ops && s'.ops[id].CommitOp? ==> !s'.ops[id].stage.Applying?) ==>
                  forall k :: ChainOf(a.chains, k) == ChainAt(s', k))
  {
    RunIsLinearizable(s, steps);
    var s', a := Exec(s, steps).value, Linearize(s, steps);
    forall id | id in s'.ops ensures Decided(a.results, id, s'.ops[id]) {
    }
    if forall id :: id in s'.ops && s'.ops[id].CommitOp? ==> !s'.ops[id].stage.Applying? {
      forall k ensures ChainOf(a.chains, k) == ChainAt(s', k) {
        assert SameChain(s', a, k);
      }
    }
  }
  // ----- a collection visits every shard -----

  // The shards collection `id` has had its pruning instant for, in order.
  ghost function PrunedShards(s: Store, steps: seq<Step>, id: nat): seq<nat>
    requires Inv(s) && Exec(s, steps).Some?
    decreases |steps|
  {
    if steps == [] then []
    else
      var init, step := steps[..|steps| - 1], steps[|steps| - 1];
      PrunedShards(s, init, id) + PrunedNow(Exec(s, init).value, step, id)
  }

  ghost function PrunedNow(m: Store, step: Step, id: nat): seq<nat> {
    if step == Advance(id) && id in m.ops && m.ops[id].GcOp? && Point(m, id).Some? then [m.ops[id].shard] else []
  }

  function FirstShards(n: nat): (s: seq<nat>)
    ensures |s| == n && forall i :: 0 <= i < n ==> s[i] == i
  {
    seq(n, i requires 0 <= i < n => i)
  }

  // How far a collection is: the shards before the current one, and that one as well
  // once it is pruned.
  ghost predicate Visited(s: Store, id: nat, done: seq<nat>) {
    if id in s.ops && s.ops[id].GcOp? then
      s.ops[id].shard <= |s.shards|
      && done == FirstShards(s.ops[id].shard + if s.ops[id].gc.GcPruned? then 1 else 0)
    else done == []
  }

  lemma VisitStep(m: Store, step: Step, id: nat, done: seq<nat>)
    requires Inv(m) && Enabled(m, step) && Visited(m, id, done)
    ensures Visited(Do(m, step), id, done + PrunedNow(m, step, id))
  {
    if step.Advance? {
      ShardedAfter(m, m.ops[step.id]);
      if step.id == id && m.ops[id].GcOp? {
        assert StageOk(m, m.ops[id]);
        var n := m.ops[id].shard;
        assert m.ops[id].gc.GcHolding? ==> FirstShards(n) + [n] == FirstShards(n + 1);
      }
    }
  }

  lemma {:induction false} RunVisits(s: Store, steps: seq<Step>, id: nat)
    requires Inv(s) && id !in s.ops && Exec(s, steps).Some?
    ensures Visited(Exec(s, steps).value, id, PrunedShards(s, steps, id))
  {
    if steps != [] {
      var init, step := steps[..|steps| - 1], steps[|steps| - 1];
      RunVisits(s, init, id);
      VisitStep(Exec(s, init).value, step, id, PrunedShards(s, init, id));
    }
  }

  // Whatever runs beside it, a collection that has finished has pruned every shard at one
  // instant each, in order.
  lemma CollectionVisitsAll(s: Store, steps: seq<Step>, id: nat)
    requires Inv(s) && id !in s.ops && Exec(s, steps).Some?
    ensures var s' := Exec(s, steps).value;
            id in s'.ops && s'.ops[id].GcOp? && Finished(s', s'.ops[id]) ==>
              |PrunedShards(s, steps, id)| == |s'.shards|
              && forall i :: 0 <= i < |s'.shards| ==> PrunedShards(s, steps, id)[i] == i
  {
    RunVisits(s, steps, id);
  }
}
