// Concurrent store operations cannot deadlock, and all of them finish: whenever one is
// under way some operation can step, and every step uses up part of a finite budget.

module Progress {
  import opened Types
  import opened FineStore
  import opened Sums

  ghost predicate Waits(s: Store, op: Op) {
    exists shard :: Wants(s, op, shard)
  }

  ghost predicate IsWaitingCommit(s: Store, id: nat) {
    id in s.ops && s.ops[id].CommitOp? && s.ops[id].stage.Acquiring?
    && s.ops[id].stage.taken < |s.ops[id].toLock|
  }

  ghost function WantedShard(s: Store, id: nat): int {
    if IsWaitingCommit(s, id) then s.ops[id].toLock[s.ops[id].stage.taken] else -1
  }

  // Whoever holds a lock and waits is a commit, and waits for a higher shard.
  lemma HolderWaitsHigher(s: Store, id: nat, shard: nat)
    requires Inv(s) && id in s.ops && Waits(s, s.ops[id])
    requires HoldsWrite(s.ops[id], shard) || HoldsRead(s, s.ops[id], shard)
    ensures IsWaitingCommit(s, id) && shard < WantedShard(s, id)
  {
    var op := s.ops[id];
    assert StageOk(s, op);
    var w :| Wants(s, op, w);
    var i :| 0 <= i < op.stage.taken && op.toLock[..op.stage.taken][i] == shard;
    assert op.toLock[i] < op.toLock[op.stage.taken];
  }

  lemma HolderNotFinished(s: Store, op: Op, shard: nat)
    requires Inv(s) && StageOk(s, op) && (HoldsWrite(op, shard) || HoldsRead(s, op, shard))
    ensures !Finished(s, op)
  {
  }

  // When everyone waits, the commit waiting for the highest shard finds it free.
  lemma HighestIsFree(s: Store, id: nat)
    requires Inv(s) && id in s.ops && !Finished(s, s.ops[id])
    requires forall o :: o in s.ops && !Finished(s, s.ops[o]) ==> Waits(s, s.ops[o])
    requires forall o :: IsWaitingCommit(s, o) ==> IsWaitingCommit(s, id) && WantedShard(s, o) <= WantedShard(s, id)
    ensures Free(s, id)
  {
    forall shard, o | Wants(s, s.ops[id], shard) && o in s.ops && o != id
      ensures !Blocks(s, s.ops[o], s.ops[id], shard)
    {
      if Blocks(s, s.ops[o], s.ops[id], shard) {
        assert StageOk(s, s.ops[o]);
        HolderNotFinished(s, s.ops[o], shard);
        HolderWaitsHigher(s, o, shard);
        assert false;
      }
    }
  }

  // Deadlock freedom.
  lemma SomeoneCanStep(s: Store, id: nat)
    requires Inv(s) && id in s.ops && !Finished(s, s.ops[id])
    ensures exists o :: Enabled(s, Advance(o))
  {
    if o :| o in s.ops && !Finished(s, s.ops[o]) && !Waits(s, s.ops[o]) {
      assert Enabled(s, Advance(o));
    } else {
      var waiting := set o | o in s.ops && IsWaitingCommit(s, o);
      var pick := id;
      if waiting != {} {
        LargestExists(o => WantedShard(s, o), waiting);
        pick :| pick in waiting
                && forall o :: o in waiting ==> (o => WantedShard(s, o))(o) <= (o => WantedShard(s, o))(pick);
        assert forall o :: o in waiting ==> WantedShard(s, o) <= WantedShard(s, pick);
      }
      assert forall o :: IsWaitingCommit(s, o) ==> o in waiting;
      HighestIsFree(s, pick);
      assert Enabled(s, Advance(pick));
    }
  }

  // ----- termination -----

  // An upper bound on the steps an operation has left.
  function Remaining(shardCount: nat, op: Op): int {
    match op
    case CommitOp(_, _, batch, readSet, toLock, stage) =>
      var l, k, b := |toLock|, KeyCount(batch, readSet), |batch|;
      (match stage
       case Acquiring(taken) => 2 * l - taken + k + b + 4
       case Validating(checked) => k - checked + b + l + 3
       case Applying(pushed) => b - pushed + l + 2
       case Releasing(dropped, _) => l - dropped + 1
       case Returned(_) => 0)
    case GetOp(_, _, get) =>
      (match get
       case Waiting => 3
       case Reading => 2
       case Got(_) => 1
       case GetReturned(_) => 0)
    case GcOp(_, shard, gc) =>
      var left := if shard < shardCount then 3 * (shardCount - shard) else 0;
      (match gc
       case GcWaiting => left
       case GcHolding => left - 1
       case GcPruned => left - 2)
  }

  lemma RemainingShrinks(s: Store, op: Op)
    requires Sharded(s) && StageOk(s, op) && !Finished(s, op)
    ensures 0 <= Remaining(|s.shards|, Next(s, op).0) < Remaining(|s.shards|, op)
  {
  }

  ghost function Budget(s: Store): int {
    Sum((id: nat) => if id in s.ops then Remaining(|s.shards|, s.ops[id]) else 0, s.ops.Keys)
  }

  lemma BudgetNonNegative(s: Store)
    requires Inv(s)
    ensures 0 <= Budget(s)
  {
    forall id | id in s.ops.Keys ensures 0 <= Remaining(|s.shards|, s.ops[id]) {
      assert StageOk(s, s.ops[id]);
    }
    SumNonNegative((id: nat) => if id in s.ops then Remaining(|s.shards|, s.ops[id]) else 0, s.ops.Keys);
  }

  lemma BudgetShrinks(s: Store, id: nat)
    requires Inv(s) && Enabled(s, Advance(id))
    ensures Budget(Do(s, Advance(id))) < Budget(s)
  {
    var s' := Do(s, Advance(id));
    assert StageOk(s, s.ops[id]);
    RemainingShrinks(s, s.ops[id]);
    ShardedAfter(s, s.ops[id]);
    var f := (id: nat) => if id in s.ops then Remaining(|s.shards|, s.ops[id]) else 0;
    var f' := (id: nat) => if id in s'.ops then Remaining(|s'.shards|, s'.ops[id]) else 0;
    assert s'.ops.Keys == s.ops.Keys;
    SumTake(f, s.ops.Keys, id);
    SumTake(f', s.ops.Keys, id);
    SumSame(f, f', s.ops.Keys - {id});
  }

  // Operations under way finish after boundedly many steps if no new ones are invoked.
  lemma {:induction false} RunsAreBounded(s: Store, steps: seq<Step>)
    requires Inv(s) && Exec(s, steps).Some? && forall i :: 0 <= i < |steps| ==> steps[i].Advance?
    ensures Budget(Exec(s, steps).value) + |steps| <= Budget(s)
    ensures |steps| <= Budget(s)
  {
    if steps == [] {
    } else {
      var init := steps[..|steps| - 1];
      RunsAreBounded(s, init);
      BudgetShrinks(Exec(s, init).value, steps[|steps| - 1].id);
    }
    BudgetNonNegative(Exec(s, steps).value);
  }
}
