// The sharded store as it runs concurrently (src/store.rs): each operation takes the
// locks of its shards one at a time, in ascending order, and works under them one key
// at a time, interleaved with the steps of any other operations.

module FineStore {
  import opened Types
  import opened VersionChain
  import opened StoreSpec
  import opened Batch

  datatype CommitStage =
    | Acquiring(taken: nat)            // holds the first `taken` of its shards
    | Validating(checked: nat)         // holds all of them; first `checked` keys passed
    | Applying(pushed: nat)            // validated; first `pushed` entries are in place
    | Releasing(dropped: nat, ok: bool)
    | Returned(ok: bool)

  datatype GetStage = Waiting | Reading | Got(value: Value) | GetReturned(value: Value)

  datatype GcStage = GcWaiting | GcHolding | GcPruned

  datatype Op =
    | CommitOp(readTs: nat, commitTs: nat, batch: seq<WriteEntry>, readSet: seq<Key>, toLock: seq<nat>,
               stage: CommitStage)
    | GetOp(key: Key, readTs: nat, get: GetStage)
    | GcOp(low: nat, shard: nat, gc: GcStage)

  datatype Store = Store(shardOf: Key -> nat, shards: seq<Chains>, ops: map<nat, Op>)

  datatype Step = Invoke(id: nat, op: Op) | Advance(id: nat)

  // ----- the keys of a commit and its lock plan -----

  function KeyCount(batch: seq<WriteEntry>, readSet: seq<Key>): nat {
    |batch| + |readSet|
  }

  // Validation goes through the write set first, then the read set.
  function KeyAt(batch: seq<WriteEntry>, readSet: seq<Key>, i: nat): Key
    requires i < KeyCount(batch, readSet)
  {
    if i < |batch| then batch[i].key else readSet[i - |batch|]
  }

  ghost function KeysOfCommit(batch: seq<WriteEntry>, readSet: seq<Key>): set<Key> {
    set i | 0 <= i < KeyCount(batch, readSet) :: KeyAt(batch, readSet, i)
  }

  ghost predicate StrictlyAscending(s: seq<nat>) {
    forall i, j :: 0 <= i < j < |s| ==> s[i] < s[j]
  }

  // `toLock` lists the shards of all the touched keys, in strictly ascending order. The
  // batch comes from a hash map.
  ghost predicate Planned(s: Store, op: Op)
    requires op.CommitOp?
  {
    && StrictlyAscending(op.toLock)
    && (forall i :: 0 <= i < |op.toLock| ==> op.toLock[i] < |s.shards|)
    && (forall i :: 0 <= i < KeyCount(op.batch, op.readSet) ==> s.shardOf(KeyAt(op.batch, op.readSet, i)) in op.toLock)
    && DistinctKeys(op.batch)
  }

  // ----- locks -----

  predicate HoldsWrite(op: Op, shard: nat) {
    match op
    case CommitOp(_, _, _, _, toLock, stage) =>
      (match stage
       case Acquiring(taken) => taken <= |toLock| && shard in toLock[..taken]
       case Validating(_) => shard in toLock
       case Applying(_) => shard in toLock
       case Releasing(dropped, _) => dropped <= |toLock| && shard in toLock[dropped..]
       case Returned(_) => false)
    case GetOp(_, _, _) => false
    case GcOp(_, at, gc) => !gc.GcWaiting? && shard == at
  }

  predicate HoldsRead(s: Store, op: Op, shard: nat) {
    op.GetOp? && (op.get.Reading? || op.get.Got?) && shard == s.shardOf(op.key)
  }

  // The lock an operation needs for its next step, if that step takes one.
  predicate Wants(s: Store, op: Op, shard: nat) {
    match op
    case CommitOp(_, _, _, _, toLock, stage) =>
      stage.Acquiring? && stage.taken < |toLock| && shard == toLock[stage.taken]
    case GetOp(key, _, get) => get.Waiting? && shard == s.shardOf(key)
    case GcOp(_, at, gc) => gc.GcWaiting? && at < |s.shards| && shard == at
  }

  ghost predicate Blocks(s: Store, other: Op, op: Op, shard: nat) {
    HoldsWrite(other, shard) || (!op.GetOp? && HoldsRead(s, other, shard))
  }

  ghost predicate Free(s: Store, id: nat)
    requires id in s.ops
  {
    forall shard, o :: Wants(s, s.ops[id], shard) && o in s.ops && o != id ==>
      !Blocks(s, s.ops[o], s.ops[id], shard)
  }

  predicate Finished(s: Store, op: Op) {
    match op
    case CommitOp(_, _, _, _, _, stage) => stage.Returned?
    case GetOp(_, _, get) => get.GetReturned?
    case GcOp(_, at, gc) => gc.GcWaiting? && at >= |s.shards|
  }

  // ----- steps -----

  ghost predicate Fresh(s: Store, op: Op) {
    match op
    case CommitOp(_, _, _, _, _, stage) => stage == Acquiring(0) && Planned(s, op)
    case GetOp(_, _, get) => get.Waiting?
    case GcOp(_, at, gc) => gc.GcWaiting? && at == 0
  }

  ghost predicate Enabled(s: Store, step: Step) {
    match step
    case Invoke(id, op) => id !in s.ops && Fresh(s, op)
    case Advance(id) => id in s.ops && !Finished(s, s.ops[id]) && Free(s, id)
  }

  // What holds of the shards whatever the operations do.
  ghost predicate Sharded(s: Store) {
    && 0 < |s.shards|
    && (forall k :: s.shardOf(k) < |s.shards|)
    && (forall i, k :: 0 <= i < |s.shards| && k in s.shards[i] ==> s.shardOf(k) == i)
  }

  function ChainIn(s: Store, k: Key): Chain
    requires s.shardOf(k) < |s.shards|
  {
    ChainOf(s.shards[s.shardOf(k)], k)
  }

  function PushIn(s: Store, k: Key, v: Version): seq<Chains>
    requires s.shardOf(k) < |s.shards|
  {
    s.shards[s.shardOf(k) := Push(s.shards[s.shardOf(k)], k, v)]
  }

  ghost predicate StageOk(s: Store, op: Op) {
    match op
    case CommitOp(_, _, batch, _, toLock, stage) =>
      Planned(s, op) &&
      (match stage
       case Acquiring(taken) => taken <= |toLock|
       case Validating(checked) =>
         checked <= KeyCount(op.batch, op.readSet)
         && forall i :: 0 <= i < checked ==> !NewerThan(ChainAt(s, KeyAt(op.batch, op.readSet, i)), op.readTs)
       case Applying(pushed) => pushed <= |batch|
       case Releasing(dropped, _) => dropped <= |toLock|
       case Returned(_) => true)
    case GetOp(_, _, _) => true
    case GcOp(_, at, gc) => gc.GcWaiting? || at < |s.shards|
  }

  // `ChainIn`, total.
  function ChainAt(s: Store, k: Key): Chain {
    if s.shardOf(k) < |s.shards| then ChainIn(s, k) else []
  }

  // No shard is written by one operation while another holds it.
  ghost predicate Exclusive(s: Store) {
    forall a, b, shard :: a in s.ops && b in s.ops && a != b && HoldsWrite(s.ops[a], shard) ==>
      !HoldsWrite(s.ops[b], shard) && !HoldsRead(s, s.ops[b], shard)
  }

  ghost predicate Inv(s: Store) {
    Sharded(s) && Exclusive(s) && forall id :: id in s.ops ==> StageOk(s, s.ops[id])
  }

  // The next action of a commit under way.
  function CommitNext(s: Store, op: Op): (Op, seq<Chains>)
    requires op.CommitOp? && !op.stage.Returned?
    requires forall k :: s.shardOf(k) < |s.shards|
  {
    match op.stage
    case Acquiring(taken) =>
      (op.(stage := if taken < |op.toLock| then Acquiring(taken + 1) else Validating(0)), s.shards)
    case Validating(checked) =>
      if checked >= KeyCount(op.batch, op.readSet) then (op.(stage := Applying(0)), s.shards)
      else if NewerThan(ChainIn(s, KeyAt(op.batch, op.readSet, checked)), op.readTs) then
        (op.(stage := Releasing(0, false)), s.shards)
      else (op.(stage := Validating(checked + 1)), s.shards)
    case Applying(pushed) =>
      if pushed >= |op.batch| then (op.(stage := Releasing(0, true)), s.shards)
      else
        (op.(stage := Applying(pushed + 1)),
         PushIn(s, op.batch[pushed].key, Version(op.commitTs, op.batch[pushed].value)))
    case Releasing(dropped, ok) =>
      (op.(stage := if dropped < |op.toLock| then Releasing(dropped + 1, ok) else Returned(ok)), s.shards)
  }

  function GetNext(s: Store, op: Op): Op
    requires op.GetOp? && !op.get.GetReturned?
  {
    match op.get
    case Waiting => op.(get := Reading)
    case Reading => op.(get := Got(VisibleValue(ChainAt(s, op.key), op.readTs)))
    case Got(value) => op.(get := GetReturned(value))
  }

  // Garbage collection locks one shard, prunes it, lets go of it and goes on.
  function GcNext(s: Store, op: Op): (Op, seq<Chains>)
    requires op.GcOp?
  {
    match op.gc
    case GcWaiting => (op.(gc := GcHolding), s.shards)
    case GcHolding =>
      (op.(gc := GcPruned),
       if op.shard < |s.shards|
       then s.shards[op.shard := PruneKeys(s.shards[op.shard], op.low, s.shards[op.shard].Keys)]
       else s.shards)
    case GcPruned => (op.(gc := GcWaiting, shard := op.shard + 1), s.shards)
  }

  function Next(s: Store, op: Op): (Op, seq<Chains>)
    requires !Finished(s, op) && forall k :: s.shardOf(k) < |s.shards|
  {
    match op
    case CommitOp(_, _, _, _, _, _) => CommitNext(s, op)
    case GetOp(_, _, _) => (GetNext(s, op), s.shards)
    case GcOp(_, _, _) => GcNext(s, op)
  }

  function Do(s: Store, step: Step): Store
    requires step.Advance? ==> step.id in s.ops && !Finished(s, s.ops[step.id])
    requires forall k :: s.shardOf(k) < |s.shards|
  {
    match step
    case Invoke(id, op) => s.(ops := s.ops[id := op])
    case Advance(id) =>
      var (op, shards) := Next(s, s.ops[id]);
      s.(ops := s.ops[id := op], shards := shards)
  }

  // ----- mutual exclusion and its consequence -----

  // What one step may do to the locks: take the one that was wanted, or let go.
  lemma LocksAfter(s: Store, op: Op, shard: nat)
    requires Sharded(s) && StageOk(s, op) && !Finished(s, op)
    ensures HoldsWrite(Next(s, op).0, shard) ==> HoldsWrite(op, shard) || (!op.GetOp? && Wants(s, op, shard))
    ensures HoldsRead(s, Next(s, op).0, shard) ==> HoldsRead(s, op, shard) || (op.GetOp? && Wants(s, op, shard))
  {
    if op.CommitOp? {
      match op.stage
      case Acquiring(taken) =>
        if taken < |op.toLock| {
          assert op.toLock[..taken + 1] == op.toLock[..taken] + [op.toLock[taken]];
        } else {
          assert op.toLock[..|op.toLock|] == op.toLock;
        }
      case Releasing(dropped, _) =>
        if dropped < |op.toLock| {
          assert op.toLock[dropped..] == [op.toLock[dropped]] + op.toLock[dropped + 1..];
        }
      case Validating(_) => assert op.toLock[0..] == op.toLock;
      case Applying(_) => assert op.toLock[0..] == op.toLock;
    }
  }

  lemma ExclusiveAfter(s: Store, id: nat)
    requires Inv(s) && Enabled(s, Advance(id))
    ensures Exclusive(Do(s, Advance(id)))
  {
    var s' := Do(s, Advance(id));
    forall a, b, shard | a in s'.ops && b in s'.ops && a != b && HoldsWrite(s'.ops[a], shard)
      ensures !HoldsWrite(s'.ops[b], shard) && !HoldsRead(s', s'.ops[b], shard)
    {
      LocksAfter(s, s.ops[id], shard);
      if a == id {
        ExclusiveWith(s, id, b, shard);
      } else if b == id {
        ExclusiveWith(s, id, a, shard);
      }
    }
  }

  // The operation that steps and any other one.
  lemma ExclusiveWith(s: Store, id: nat, other: nat, shard: nat)
    requires Inv(s) && Enabled(s, Advance(id)) && other in s.ops && other != id
    ensures var op := Next(s, s.ops[id]).0;
            && (HoldsWrite(op, shard) ==> !HoldsWrite(s.ops[other], shard) && !HoldsRead(s, s.ops[other], shard))
            && (HoldsWrite(s.ops[other], shard) ==> !HoldsWrite(op, shard) && !HoldsRead(s, op, shard))
  {
    LocksAfter(s, s.ops[id], shard);
    assert Wants(s, s.ops[id], shard) ==> !Blocks(s, s.ops[other], s.ops[id], shard);
  }

  // A step changes only the chains of shards its operation holds for writing.
  lemma OnlyHeldChange(s: Store, op: Op, k: Key)
    requires Sharded(s) && StageOk(s, op) && !Finished(s, op) && !HoldsWrite(op, s.shardOf(k))
    ensures |Next(s, op).1| == |s.shards|
    ensures ChainOf(Next(s, op).1[s.shardOf(k)], k) == ChainIn(s, k)
  {
    if op.CommitOp? && op.stage.Applying? && op.stage.pushed < |op.batch| {
      assert s.shardOf(KeyAt(op.batch, op.readSet, op.stage.pushed)) in op.toLock;
    }
  }

  lemma PushKeepsSharded(s: Store, k: Key, v: Version)
    requires Sharded(s)
    ensures Sharded(s.(shards := PushIn(s, k, v)))
  {
  }

  lemma ShardedAfter(s: Store, op: Op)
    requires Sharded(s) && StageOk(s, op) && !Finished(s, op)
    ensures Sharded(s.(shards := Next(s, op).1))
    ensures |Next(s, op).1| == |s.shards|
  {
    if op.CommitOp? && op.stage.Applying? && op.stage.pushed < |op.batch| {
      PushKeepsSharded(s, op.batch[op.stage.pushed].key, Version(op.commitTs, op.batch[op.stage.pushed].value));
    }
  }

  lemma StageAfter(s: Store, op: Op)
    requires Sharded(s) && StageOk(s, op) && !Finished(s, op)
    requires forall shard: nat :: Wants(s, op, shard) ==> shard < |s.shards|
    ensures StageOk(s.(shards := Next(s, op).1), Next(s, op).0)
  {
    ShardedAfter(s, op);
    if op.CommitOp? {
      assert Planned(s.(shards := Next(s, op).1), Next(s, op).0);
    } else if op.GcOp? && op.gc.GcWaiting? {
      assert Wants(s, op, op.shard);
    }
  }

  lemma WantsExist(s: Store, op: Op, shard: nat)
    requires Sharded(s) && StageOk(s, op) && Wants(s, op, shard)
    ensures shard < |s.shards|
  {
  }

  // An operation keeps what it has established while another one steps.
  lemma StageKept(s: Store, id: nat, other: nat)
    requires Inv(s) && Enabled(s, Advance(id)) && other in s.ops && other != id
    ensures StageOk(Do(s, Advance(id)), s.ops[other])
  {
    var s' := Do(s, Advance(id));
    var op := s.ops[other];
    ShardedAfter(s, s.ops[id]);
    if op.CommitOp? && op.stage.Validating? {
      forall i | 0 <= i < op.stage.checked ensures !NewerThan(ChainAt(s', KeyAt(op.batch, op.readSet, i)), op.readTs) {
        var k := KeyAt(op.batch, op.readSet, i);
        assert HoldsWrite(op, s.shardOf(k));
        OnlyHeldChange(s, s.ops[id], k);
      }
    }
  }

  lemma StagesAfter(s: Store, id: nat)
    requires Inv(s) && Enabled(s, Advance(id))
    ensures var s' := Do(s, Advance(id));
            forall o :: o in s'.ops ==> StageOk(s', s'.ops[o])
  {
    var s' := Do(s, Advance(id));
    forall shard: nat | Wants(s, s.ops[id], shard) ensures shard < |s.shards| {
      WantsExist(s, s.ops[id], shard);
    }
    StageAfter(s, s.ops[id]);
    StageSameShards(s.(shards := s'.shards), s', s'.ops[id]);
    forall o | o in s'.ops ensures StageOk(s', s'.ops[o]) {
      if o != id {
        StageKept(s, id, o);
      }
    }
  }

  lemma StageSameShards(s: Store, t: Store, op: Op)
    requires StageOk(s, op) && t.shards == s.shards && t.shardOf == s.shardOf
    ensures StageOk(t, op)
  {
  }

  lemma InvAfter(s: Store, step: Step)
    requires Inv(s) && Enabled(s, step)
    ensures Inv(Do(s, step))
  {
    if step.Advance? {
      ExclusiveAfter(s, step.id);
      ShardedAfter(s, s.ops[step.id]);
      StagesAfter(s, step.id);
    }
  }

  // ----- runs -----

  ghost predicate Empty(s: Store) {
    && 0 < |s.shards|
    && (forall k :: s.shardOf(k) < |s.shards|)
    && (forall i :: 0 <= i < |s.shards| ==> s.shards[i] == map[])
    && s.ops == map[]
  }

  ghost function Exec(s: Store, steps: seq<Step>): Option<Store>
    requires Inv(s)
    ensures Exec(s, steps).Some? ==> Inv(Exec(s, steps).value)
    decreases |steps|
  {
    if steps == [] then Some(s)
    else
      match Exec(s, steps[..|steps| - 1])
      case None => None
      case Some(m) =>
        var step := steps[|steps| - 1];
        if Enabled(m, step) then
          InvAfter(m, step);
          Some(Do(m, step))
        else None
  }
}
