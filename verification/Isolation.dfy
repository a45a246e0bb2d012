// What snapshots show, in every run: a consistent timestamp prefix of the committed
// transactions, for as long as they live, whatever commits and garbage collections do
// meanwhile.

module Isolation {
  import opened Types
  import opened VersionChain
  import opened StoreSpec
  import opened History
  import opened Watermark
  import opened Protocol
  import opened ProtocolInv
  import opened Reach

  // The value the store returns for `k` at `r`.
  ghost function StoreRead(s: State, k: Key, r: nat): Value {
    VisibleValue(ChainOf(s.chains, k), r)
  }

  // A read at a live snapshot is the timestamp-order replay of the committed write
  // sets up to it: whole commits, and all of them.
  lemma SnapshotIsReplay(s: State, id: nat, k: Key)
    requires Reachable(s) && id in s.txns
    ensures StoreRead(s, k, s.txns[id].readTs) == Lookup(Replay(s.history, s.txns[id].readTs), k)
  {
    ReachableInv(s);
    StoreAgrees(s, k, s.txns[id].readTs);
    ReadIsReplay(s.history, !s.lost, k, s.txns[id].readTs);
  }

  // The same for every snapshot timestamp from the largest low watermark used so far.
  lemma AnySnapshotIsReplay(s: State, k: Key, r: nat)
    requires Reachable(s) && s.maxLow <= r
    ensures StoreRead(s, k, r) == Lookup(Replay(s.history, r), k)
  {
    ReachableInv(s);
    StoreAgrees(s, k, r);
    ReadIsReplay(s.history, !s.lost, k, r);
  }

  // ----- stability -----

  // A handle that is still there keeps its snapshot and what the history shows at it.
  ghost predicate Continues(s: State, s': State, id: nat) {
    id in s'.txns ==>
      id in s.txns
      && s'.txns[id].readTs == s.txns[id].readTs
      && forall k :: SameRead(s.history, s'.history, k, s.txns[id].readTs)
  }

  lemma HandleKept(s: State, step: Step, id: nat)
    requires Enabled(s, step) && !KeepsTs(step) && id < s.nextId && id in Do(s, step).txns
    ensures id in s.txns && Do(s, step).txns[id].readTs == s.txns[id].readTs && !step.Crash?
  {
  }

  lemma HandleStays(s: State, step: Step, id: nat)
    requires Enabled(s, step) && id < s.nextId && id in Do(s, step).txns
    ensures id in s.txns && Do(s, step).txns[id].readTs == s.txns[id].readTs && !step.Crash?
  {
    if KeepsTs(step) {
      KeepsTsShape(s, step);
    } else {
      HandleKept(s, step, id);
    }
  }

  lemma TryKeepsReads(s: State, committer: nat, id: nat, k: Key)
    requires Inv(s) && Enabled(s, TryCommit(committer)) && id in s.txns
    ensures SameRead(s.history, DoTryCommit(s, committer).history, k, s.txns[id].readTs)
  {
    if CanCommit(s, s.txns[committer]) {
      CommitInvisibleToLive(s, committer, id, k);
    }
  }

  lemma ReadsStay(s: State, step: Step, id: nat, k: Key)
    requires Inv(s) && Enabled(s, step) && id in s.txns && !step.Crash?
    ensures SameRead(s.history, Do(s, step).history, k, s.txns[id].readTs)
  {
    if step.TryCommit? {
      TryKeepsReads(s, step.id, id, k);
    } else {
      HistoryKept(s, step);
    }
  }

  lemma ContinuesStep(s: State, step: Step, id: nat)
    requires Inv(s) && Enabled(s, step) && id < s.nextId
    ensures Continues(s, Do(s, step), id)
  {
    if id in Do(s, step).txns {
      HandleStays(s, step, id);
      forall k ensures SameRead(s.history, Do(s, step).history, k, s.txns[id].readTs) {
        ReadsStay(s, step, id, k);
      }
    }
  }

  lemma NextIdGrows(s: State, step: Step)
    requires Enabled(s, step)
    ensures s.nextId <= Do(s, step).nextId
  {
  }

  lemma {:induction false} ContinuesRun(s: State, steps: seq<Step>, id: nat)
    requires Inv(s) && Exec(s, steps).Some? && id < s.nextId
    ensures Continues(s, Exec(s, steps).value, id)
    ensures s.nextId <= Exec(s, steps).value.nextId
  {
    if steps != [] {
      var init, last := steps[..|steps| - 1], steps[|steps| - 1];
      ExecSplit(s, steps);
      var m := Exec(s, init).value;
      ContinuesRun(s, init, id);
      RunInv(s, init);
      ContinuesStep(m, last, id);
      NextIdGrows(m, last);
      ContinuesTrans(s, m, Do(m, last), id);
    }
  }

  lemma ContinuesTrans(a: State, b: State, c: State, id: nat)
    requires Continues(a, b, id) && Continues(b, c, id)
    ensures Continues(a, c, id)
  {
    if id in c.txns {
      forall k ensures SameRead(a.history, c.history, k, a.txns[id].readTs) {
        assert SameRead(a.history, b.history, k, a.txns[id].readTs);
        assert SameRead(b.history, c.history, k, b.txns[id].readTs);
      }
    }
  }

  // Reads are repeatable: through any run, with commits applying out of order and
  // garbage collections under way, a live handle goes on reading the same values.
  lemma SnapshotIsStable(s: State, steps: seq<Step>, id: nat, k: Key)
    requires Reachable(s) && Exec(s, steps).Some?
    requires id in s.txns && id in Exec(s, steps).value.txns
    ensures var s' := Exec(s, steps).value;
            s'.txns[id].readTs == s.txns[id].readTs
            && StoreRead(s', k, s.txns[id].readTs) == StoreRead(s, k, s.txns[id].readTs)
  {
    var s' := Exec(s, steps).value;
    ReachableInv(s);
    RunInv(s, steps);
    ContinuesRun(s, steps, id);
    StoreAgrees(s, k, s.txns[id].readTs);
    StoreAgrees(s', k, s.txns[id].readTs);
    assert SameRead(s.history, s'.history, k, s.txns[id].readTs);
  }

  // A value a transaction has read is the value its snapshot shows now.
  lemma ReadsStayRight(s: State, id: nat, k: Key)
    requires Reachable(s) && id in s.txns && k in s.txns[id].observed
    ensures s.txns[id].observed[k] == StoreRead(s, k, s.txns[id].readTs)
  {
    ReachableInv(s);
    StoreAgrees(s, k, s.txns[id].readTs);
  }

  // ----- conflicts -----

  // First committer wins in every run, across crashes and recoveries too.
  lemma FirstCommitterWinsInRuns(s: State, a: Committed, b: Committed, k: Key)
    requires Reachable(s)
    requires a in Entries(s.history) && b in Entries(s.history) && a.commitTs < b.commitTs
    requires k in a.writes && k in b.writes
    ensures a.commitTs <= b.readTs && AppliedBefore(s.history, a, b)
  {
    ReachableInv(s);
    FirstCommitterWins(s.history, !s.lost, a, b, k);
  }

  // Commits apply out of timestamp order, yet every chain in the store ascends.
  lemma ChainsAscendInRuns(s: State, k: Key)
    requires Reachable(s)
    ensures Ascending(ChainOf(s.chains, k))
  {
    ReachableInv(s);
    ChainAscends(s.history, !s.lost, k);
    PrunedReadsSame(FullChain(s.history, k), ChainOf(s.chains, k), s.maxLow, s.maxLow);
  }

  // ----- the watermark -----

  // When a commit becomes visible to new snapshots: exactly when no timestamp up to
  // its own is still in flight.
  lemma VisibleWhenNonePending(s: State, ts: nat)
    requires Reachable(s) && s.start < ts < s.nextTs
    ensures ts <= s.pending.doneUpto
       <==> forall id :: id in s.txns && HoldsTs(s.txns[id].phase) ==> ts < s.txns[id].phase.ts
  {
    ReachableInv(s);
    if ts <= s.pending.doneUpto {
      forall id | id in s.txns && HoldsTs(s.txns[id].phase) ensures ts < s.txns[id].phase.ts {
        HeldAboveWatermark(s, id);
      }
    } else {
      var first := s.pending.doneUpto + 1;
      assert first !in Reported(s);
      assert Held(s, first);
    }
  }

  ghost predicate Quiescent(s: State) {
    forall id :: id in s.txns ==> !HoldsTs(s.txns[id].phase)
  }

  lemma QuiescentWatermark(s: State)
    requires OracleOk(s) && Quiescent(s)
    ensures s.pending.doneUpto == s.nextTs - 1
  {
    WatermarkBelowNext(s);
    assert !Held(s, s.pending.doneUpto + 1);
  }

  // A transaction begun when every timestamp handed out has been reported cannot
  // conflict, whatever it reads and writes, unless another commit applies first.
  lemma NoConflictAfterQuiescence(s: State, serializable: bool, steps: seq<Step>)
    requires Reachable(s) && Quiescent(s) && Exec(DoBegin(s, serializable), steps).Some?
    requires var s' := Exec(DoBegin(s, serializable), steps).value;
             s.nextId in s'.txns && s'.history == s.history
    ensures var s' := Exec(DoBegin(s, serializable), steps).value;
            CanCommit(s', s'.txns[s.nextId])
  {
    ReachableInv(s);
    QuiescentWatermark(s);
    var begun := Do(s, Begin(serializable));
    StepInv(s, Begin(serializable));
    assert begun == DoBegin(s, serializable);
    RunInv(begun, steps);
    ContinuesRun(begun, steps, s.nextId);
    var s' := Exec(begun, steps).value;
    var t := s'.txns[s.nextId];
    forall k ensures !NewerThan(ChainOf(s'.chains, k), t.readTs) {
      StoreAgrees(s', k, t.readTs);
      var c := FullChain(s.history, k);
      if c != [] {
        assert c[|c| - 1] in c;
        ChainHolds(s.history, k, c[|c| - 1]);
      }
    }
  }

  // The newest version of the key lies above the watermark: a transaction that begins
  // now and writes it conflicts.
  predicate Stalled(s: State, k: Key) {
    NewerThan(ChainOf(s.chains, k), s.pending.doneUpto)
  }

  // The transaction an autocommit write of `v` to `k` has become when it validates.
  function AutocommitTxn(s: State, k: Key, v: Value): Txn {
    Txn(false, s.pending.doneUpto, map[], {}, map[k := v], Allocated(s.nextTs))
  }

  function AutocommitState(s: State, k: Key, v: Value): State {
    DoBegin(s, false).(txns := s.txns[s.nextId := AutocommitTxn(s, k, v)], nextTs := s.nextTs + 1)
  }

  lemma WriteAndAlloc(s: State, id: nat, k: Key, v: Value)
    requires id in s.txns && s.txns[id].phase.Running? && s.txns[id].writes == map[]
    ensures Exec(s, [Write(id, k, v), Alloc(id)])
         == Some(s.(txns := s.txns[id := s.txns[id].(writes := map[k := v], phase := Allocated(s.nextTs))],
                    nextTs := s.nextTs + 1))
  {
    var t := s.txns[id].(writes := map[k := v]);
    var written := s.(txns := s.txns[id := t]);
    assert s.txns[id].writes[k := v] == map[k := v];
    assert Do(s, Write(id, k, v)) == written;
    assert k in t.writes;
    var txns := s.txns[id := t.(phase := Allocated(s.nextTs))];
    assert written.txns[id := t.(phase := Allocated(s.nextTs))] == txns;
    assert Do(written, Alloc(id)) == s.(txns := txns, nextTs := s.nextTs + 1);
    TwoSteps(s, Write(id, k, v), Alloc(id));
  }

  // An autocommit write with no commit in flight lands on the first attempt.
  lemma AutocommitFirstTry(s: State, k: Key, v: Value)
    requires Reachable(s) && Quiescent(s)
    ensures Exec(DoBegin(s, false), [Write(s.nextId, k, v), Alloc(s.nextId)]) == Some(AutocommitState(s, k, v))
    ensures Enabled(AutocommitState(s, k, v), TryCommit(s.nextId))
    ensures Do(AutocommitState(s, k, v), TryCommit(s.nextId)).txns[s.nextId].phase == Applied(s.nextTs)
  {
    var id := s.nextId;
    WriteAndAlloc(DoBegin(s, false), id, k, v);
    assert AutocommitState(s, k, v).txns == DoBegin(s, false).txns[id := AutocommitTxn(s, k, v)];
    NoConflictAfterQuiescence(s, false, [Write(id, k, v), Alloc(id)]);
  }

  // ----- garbage collection -----

  // A collection works from a watermark it read when it began. It is never above a
  // reader, neither one live now nor one that begins from here on.
  lemma StaleLowIsSafe(s: State, gc: nat)
    requires Reachable(s) && gc in s.gcs
    ensures forall id :: id in s.txns ==> s.gcs[gc] <= s.txns[id].readTs
    ensures s.gcs[gc] <= s.pending.doneUpto
  {
    ReachableInv(s);
  }

  // The oldest snapshot in use: that of some live handle and of none before it, or where
  // the next handle will begin if there is none.
  ghost predicate OldestSnapshot(s: State, low: nat) {
    if s.txns == map[] then low == s.pending.doneUpto
    else (exists id :: id in s.txns && s.txns[id].readTs == low)
         && forall id :: id in s.txns ==> low <= s.txns[id].readTs
  }

  lemma LowIsOldest(s: State)
    requires Reachable(s)
    ensures OldestSnapshot(s, LowWatermark(s.readers, s.pending.doneUpto))
  {
    ReachableInv(s);
    var low := LowWatermark(s.readers, s.pending.doneUpto);
    forall id | id in s.txns ensures s.txns[id].readTs in s.readers {
      LiveIsRegistered(s, id);
    }
    if s.readers != multiset{} {
      RegisteredIsLive(s, low);
    } else {
      assert s.txns.Keys == {};
    }
  }

  // A collection works from the oldest snapshot in use when it began.
  lemma CollectionStartsAtOldest(s: State, gc: nat)
    requires Reachable(s) && Enabled(s, GcBegin(gc))
    ensures gc in Do(s, GcBegin(gc)).gcs && OldestSnapshot(s, Do(s, GcBegin(gc)).gcs[gc])
  {
    LowIsOldest(s);
  }

  // It leaves of every chain it prunes exactly what that watermark calls for.
  lemma CollectionKeepsExactly(s: State, gc: nat, keys: set<Key>, k: Key)
    requires Reachable(s) && gc in s.gcs
    ensures var c, c' := ChainOf(s.chains, k), ChainOf(Do(s, GcPrune(gc, keys)).chains, k);
            if k in keys then KeepsExactly(c, c', s.gcs[gc]) && NothingToTake(c', s.gcs[gc]) else c' == c
  {
    ChainsAscendInRuns(s, k);
    PruneKeysExactly(s.chains, s.gcs[gc], keys);
    if k in keys {
      KeptIsMinimal(ChainOf(s.chains, k), ChainOf(PruneKeys(s.chains, s.gcs[gc], keys), k), s.gcs[gc]);
    }
  }

  // Pruning any keys at that watermark changes no read and no conflict verdict at or
  // above it.
  lemma PruningIsInvisible(s: State, gc: nat, keys: set<Key>, k: Key, r: nat)
    requires Reachable(s) && gc in s.gcs && s.gcs[gc] <= r
    ensures var s' := Do(s, GcPrune(gc, keys));
            StoreRead(s', k, r) == StoreRead(s, k, r)
            && NewerThan(ChainOf(s'.chains, k), r) == NewerThan(ChainOf(s.chains, k), r)
  {
    ChainsAscendInRuns(s, k);
    var c := ChainOf(s.chains, k);
    var low := s.gcs[gc];
    ChainOfPruned(s.chains, low, keys, k);
    assert c[0..] == c;
    PrunedAgain(c, c, low, low);
    PrunedReadsSame(c, PruneChain(c, low), low, r);
  }

  // Below the watermark pruning takes a conflict away exactly if the newest version
  // deletes the key and lies between the snapshot and the watermark.
  lemma VanishedConflict(c: Chain, low: nat, r: nat)
    requires Ascending(c)
    ensures NewerThan(c, r) && !NewerThan(PruneChain(c, low), r)
       <==> c != [] && r < c[|c| - 1].commitTs <= low && c[|c| - 1].value.None?
  {
  }

  // Why a reader stays registered until its commit has returned: a running collection
  // would take such a conflict away from it.
  lemma BelowLowConflictsVanish(s: State, gc: nat, keys: set<Key>, k: Key, r: nat)
    requires Reachable(s) && gc in s.gcs
    ensures var c := ChainOf(s.chains, k);
            NewerThan(c, r) && !NewerThan(ChainOf(Do(s, GcPrune(gc, keys)).chains, k), r) <==>
            k in keys && c != [] && r < c[|c| - 1].commitTs <= s.gcs[gc] && c[|c| - 1].value.None?
  {
    ChainsAscendInRuns(s, k);
    ChainOfPruned(s.chains, s.gcs[gc], keys, k);
    VanishedConflict(ChainOf(s.chains, k), s.gcs[gc], r);
  }

  lemma ConflictCanVanish()
    ensures var c := [Version(5, None)];
            NewerThan(c, 3) && !NewerThan(PruneChain(c, 5), 3)
  {
    VanishedConflict([Version(5, None)], 5, 3);
  }
}
