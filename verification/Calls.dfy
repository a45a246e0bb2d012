// What one call of the database does in the protocol: the state it leads to when no
// other call interleaves, and the steps it takes to get there.

module Calls {
  import opened Types
  import opened StoreSpec
  import opened History
  import opened Watermark
  import opened Protocol
  import opened Reach
  import opened VersionChain
  import opened Isolation
  import opened ProtocolInv
  import opened Sums
  import opened CommitLogImpl

  // ----- committing (src/db.rs) -----

  ghost function AfterAlloc(s: State, id: nat): State
    requires id in s.txns
  {
    SetPhase(s, id, Allocated(s.nextTs)).(nextTs := s.nextTs + 1)
  }

  ghost function AfterTry(s: State, id: nat): (s': State)
    requires id in s.txns
    ensures id in s'.txns && HoldsTs(s'.txns[id].phase)
  {
    DoTryCommit(AfterAlloc(s, id), id)
  }

  ghost function WithRecord(s: State, id: nat): State
    requires id in s.txns && s.txns[id].phase.Applied?
  {
    var ts := s.txns[id].phase.ts;
    SetPhase(s, id, Written(ts)).(log := s.log + [Record(ts, s.txns[id].writes)])
  }

  // The record is appended; what the log answers decides what becomes of it.
  ghost function AfterAppend(s: State, id: nat, io: AppendResult): State
    requires id in s.txns && s.txns[id].phase.Applied?
  {
    var ts := s.txns[id].phase.ts;
    match io
    case NotWritten => SetPhase(s, id, AppendFailed(ts)).(failed := s.failed + {ts})
    case NotSynced => SetPhase(WithRecord(s, id), id, AppendFailed(ts))
    case Durable => SetPhase(WithRecord(s, id), id, Synced(ts)).(synced := Max(s.synced, |s.log| + 1))
  }

  // The append is there only for a durable database and a commit that was applied.
  ghost function Persisted(s: State, id: nat, io: AppendResult): (s': State)
    requires id in s.txns && HoldsTs(s.txns[id].phase)
    ensures id in s'.txns && HoldsTs(s'.txns[id].phase)
  {
    if s.txns[id].phase.Applied? && s.durable then AfterAppend(s, id, io) else s
  }

  ghost function AfterCommit(s: State, id: nat, io: AppendResult): State
    requires id in s.txns
  {
    DoCommitDone(Persisted(AfterTry(s, id), id, io), id)
  }

  function AppendSteps(id: nat, logged: nat, io: AppendResult): seq<Step> {
    match io
    case NotWritten => [AppendFail(id)]
    case NotSynced => [AppendRecord(id), AppendFail(id)]
    case Durable => [AppendRecord(id), Sync(id, logged + 1)]
  }

  ghost function CommitSteps(s: State, id: nat, io: AppendResult): seq<Step>
    requires id in s.txns
  {
    [Alloc(id), TryCommit(id)]
    + (if CanCommit(s, s.txns[id]) && s.durable then AppendSteps(id, |s.log|, io) else [])
    + [CommitDone(id)]
  }

  lemma AllocIsStep(s: State, id: nat)
    requires Enabled(s, Alloc(id))
    ensures Do(s, Alloc(id)) == AfterAlloc(s, id) && Enabled(AfterAlloc(s, id), TryCommit(id))
  {
  }

  lemma LastIsLogged(log: seq<Record>, r: Record)
    ensures Logged((log + [r])[..|log| + 1], r.commitTs)
  {
    assert (log + [r])[..|log| + 1][|log|] == r;
  }

  lemma RecordIsStep(s: State, id: nat)
    requires s.durable && id in s.txns && s.txns[id].phase.Applied?
    ensures Enabled(s, AppendRecord(id)) && Do(s, AppendRecord(id)) == WithRecord(s, id)
    ensures Enabled(WithRecord(s, id), Sync(id, |s.log| + 1)) && Enabled(WithRecord(s, id), AppendFail(id))
  {
    LastIsLogged(s.log, Record(s.txns[id].phase.ts, s.txns[id].writes));
  }

  lemma AppendIsRun(s: State, id: nat, io: AppendResult)
    requires s.durable && id in s.txns && s.txns[id].phase.Applied?
    ensures Exec(s, AppendSteps(id, |s.log|, io)) == Some(AfterAppend(s, id, io))
  {
    match io {
      case NotWritten =>
        OneStep(s, AppendFail(id));
      case NotSynced =>
        RecordIsStep(s, id);
        TwoSteps(s, AppendRecord(id), AppendFail(id));
      case Durable =>
        RecordIsStep(s, id);
        TwoSteps(s, AppendRecord(id), Sync(id, |s.log| + 1));
    }
  }

  lemma TryIsRun(s: State, id: nat)
    requires Enabled(s, Alloc(id))
    ensures Exec(s, [Alloc(id), TryCommit(id)]) == Some(AfterTry(s, id))
    ensures AfterTry(s, id).txns[id].phase == if CanCommit(s, s.txns[id]) then Applied(s.nextTs) else Rejected(s.nextTs)
    ensures AfterTry(s, id).log == s.log && AfterTry(s, id).durable == s.durable
  {
    AllocIsStep(s, id);
    TwoSteps(s, Alloc(id), TryCommit(id));
  }

  lemma DoneIsStep(s: State, id: nat)
    requires Enabled(s, CommitDone(id))
    ensures HoldsTs(s.txns[id].phase) && Do(s, CommitDone(id)) == DoCommitDone(s, id)
  {
  }

  lemma AppendedPhase(s: State, id: nat, io: AppendResult)
    requires id in s.txns && s.txns[id].phase.Applied?
    ensures Enabled(AfterAppend(s, id, io), CommitDone(id))
    ensures AfterAppend(s, id, io).txns[id].phase.ts == s.txns[id].phase.ts
  {
  }

  // A commit call is a run of the protocol: allocate, validate and apply, append, report.
  lemma CommitIsRun(s: State, id: nat, io: AppendResult)
    requires Enabled(s, Alloc(id))
    ensures Exec(s, CommitSteps(s, id, io)) == Some(AfterCommit(s, id, io))
  {
    TryIsRun(s, id);
    var tried, first := AfterTry(s, id), [Alloc(id), TryCommit(id)];
    if CanCommit(s, s.txns[id]) && s.durable {
      AppendIsRun(tried, id, io);
      AppendedPhase(tried, id, io);
      ExecConcat(s, first, AppendSteps(id, |s.log|, io));
      first := first + AppendSteps(id, |s.log|, io);
    } else {
      assert first + [] == first;
    }
    DoneIsStep(Persisted(tried, id, io), id);
    ExecThen(s, first, CommitDone(id));
  }

  // What a commit call comes to, whichever way it ends: the writes are in the store if
  // and only if they validate, the log holds a record if one was written for them, the
  // timestamp is reported, and it is acknowledged only if nothing failed.
  ghost predicate CommitEffect(s: State, id: nat, io: AppendResult, s': State)
    requires id in s.txns
  {
    var t, applied := s.txns[id], CanCommit(s, s.txns[id]);
    && s'.txns == s.txns[id := t.(phase := Finished)]
    && s'.chains == (if applied then ApplyWrites(s.chains, s.nextTs, t.writes) else s.chains)
    && s'.history == (if applied then Commit(s.history, EntryOf(id, t, s.nextTs)) else s.history)
    && s'.log == (if applied && s.durable && !io.NotWritten? then s.log + [Record(s.nextTs, t.writes)] else s.log)
    && s'.acked == (if applied && (s.durable ==> io.Durable?) then s.acked + {s.nextTs} else s.acked)
    && s'.nextTs == s.nextTs + 1
    && s'.pending == Report(s.pending, s.nextTs)
    && s'.readers == s.readers && s'.gcs == s.gcs && s'.maxLow == s.maxLow
    && s'.nextId == s.nextId && s'.start == s.start && s'.durable == s.durable
  }

  lemma RejectedEffect(s: State, id: nat)
    requires id in s.txns && !CanCommit(s, s.txns[id])
    ensures var s' := AfterTry(s, id);
            s' == s.(txns := s.txns[id := s.txns[id].(phase := Rejected(s.nextTs))], nextTs := s.nextTs + 1)
  {
    assert !CanCommit(AfterAlloc(s, id), AfterAlloc(s, id).txns[id]);
  }

  lemma AppliedEffect(s: State, id: nat)
    requires id in s.txns && CanCommit(s, s.txns[id])
    ensures var t, s' := s.txns[id], AfterTry(s, id);
            s' == s.(txns := s.txns[id := t.(phase := Applied(s.nextTs))], nextTs := s.nextTs + 1,
                     chains := ApplyWrites(s.chains, s.nextTs, t.writes),
                     history := Commit(s.history, EntryOf(id, t, s.nextTs)))
  {
    assert CanCommit(AfterAlloc(s, id), AfterAlloc(s, id).txns[id]);
  }

  lemma AppendEffect(s: State, id: nat, io: AppendResult)
    requires id in s.txns && s.txns[id].phase.Applied?
    ensures var t, s' := s.txns[id], AfterAppend(s, id, io);
            && s'.txns == s.txns[id := t.(phase := if io.Durable? then Synced(t.phase.ts)
                                                   else AppendFailed(t.phase.ts))]
            && s'.log == (if io.NotWritten? then s.log else s.log + [Record(t.phase.ts, t.writes)])
            && s'.(txns := s.txns, log := s.log, synced := s.synced, failed := s.failed) == s
  {
  }

  lemma DoneEffect(s: State, id: nat)
    requires id in s.txns && HoldsTs(s.txns[id].phase)
    ensures var p, s' := s.txns[id].phase, DoCommitDone(s, id);
            s' == s.(txns := s.txns[id := s.txns[id].(phase := Finished)], pending := Report(s.pending, p.ts),
                     acked := if p.Synced? || p.Applied? then s.acked + {p.ts} else s.acked)
  {
  }

  lemma RejectedCommit(s: State, id: nat, io: AppendResult)
    requires id in s.txns && !CanCommit(s, s.txns[id])
    ensures CommitEffect(s, id, io, AfterCommit(s, id, io))
  {
    RejectedEffect(s, id);
    DoneEffect(AfterTry(s, id), id);
  }

  lemma MemoryCommit(s: State, id: nat, io: AppendResult)
    requires id in s.txns && CanCommit(s, s.txns[id]) && !s.durable
    ensures CommitEffect(s, id, io, AfterCommit(s, id, io))
  {
    AppliedEffect(s, id);
    DoneEffect(AfterTry(s, id), id);
  }

  lemma DurableCommit(s: State, id: nat, io: AppendResult)
    requires id in s.txns && CanCommit(s, s.txns[id]) && s.durable
    ensures CommitEffect(s, id, io, AfterCommit(s, id, io))
  {
    AppliedEffect(s, id);
    AppendEffect(AfterTry(s, id), id, io);
    DoneEffect(AfterAppend(AfterTry(s, id), id, io), id);
  }

  lemma CommitHasEffect(s: State, id: nat, io: AppendResult)
    requires id in s.txns
    ensures CommitEffect(s, id, io, AfterCommit(s, id, io))
  {
    if !CanCommit(s, s.txns[id]) {
      RejectedCommit(s, id, io);
    } else if !s.durable {
      MemoryCommit(s, id, io);
    } else {
      DurableCommit(s, id, io);
    }
  }

  // ----- collecting garbage -----

  ghost function AfterGc(s: State, keys: set<Key>): State {
    var low := LowWatermark(s.readers, s.pending.doneUpto);
    s.(chains := PruneKeys(s.chains, low, keys), maxLow := Max(s.maxLow, low))
  }

  // One uninterrupted collection of `keys` under a handle `g` not in use.
  lemma GcIsRun(s: State, g: nat, keys: set<Key>)
    requires g !in s.gcs
    ensures Exec(s, [GcBegin(g), GcPrune(g, keys), GcEnd(g)]) == Some(AfterGc(s, keys))
  {
    var begun := Do(s, GcBegin(g));
    var low := begun.gcs[g];
    TwoSteps(s, GcBegin(g), GcPrune(g, keys));
    var pruned := Do(begun, GcPrune(g, keys));
    ExecThen(s, [GcBegin(g), GcPrune(g, keys)], GcEnd(g));
    assert [GcBegin(g), GcPrune(g, keys)] + [GcEnd(g)] == [GcBegin(g), GcPrune(g, keys), GcEnd(g)];
    assert s.gcs[g := low] - {g} == s.gcs;
  }

  // What a collection of the whole store comes to: the oldest snapshot in use is its
  // watermark, every chain keeps exactly what that calls for, and nothing else changes.
  ghost predicate GarbageCollected(s: State, s': State) {
    && s' == s.(chains := s'.chains, maxLow := s'.maxLow)
    && exists low ::
         OldestSnapshot(s, low)
         && forall k :: KeepsExactly(ChainOf(s.chains, k), ChainOf(s'.chains, k), low)
                        && NothingToTake(ChainOf(s'.chains, k), low)
  }

  lemma GcKeepsExactly(s: State)
    requires Reachable(s)
    ensures GarbageCollected(s, AfterGc(s, s.chains.Keys))
  {
    var low := LowWatermark(s.readers, s.pending.doneUpto);
    LowIsOldest(s);
    forall k
      ensures KeepsExactly(ChainOf(s.chains, k), ChainOf(AfterGc(s, s.chains.Keys).chains, k), low)
      ensures NothingToTake(ChainOf(AfterGc(s, s.chains.Keys).chains, k), low)
    {
      ChainsAscendInRuns(s, k);
      ChainOfPruned(s.chains, low, s.chains.Keys, k);
      PruneKeepsExactly(ChainOf(s.chains, k), low);
      KeptIsMinimal(ChainOf(s.chains, k), PruneChain(ChainOf(s.chains, k), low), low);
    }
  }

  // A second collection with nothing in between finds nothing: what the first one leaves
  // is already minimal.
  lemma SecondPassTakesNothing(s: State, again: set<Key>)
    requires Reachable(s)
    ensures var once := AfterGc(s, s.chains.Keys);
            AfterGc(once, again).chains == once.chains
  {
    var low := LowWatermark(s.readers, s.pending.doneUpto);
    forall k | k in s.chains ensures Ascending(s.chains[k]) {
      ChainsAscendInRuns(s, k);
    }
    PrunedStays(s.chains, low, again);
  }

  lemma PrunedStays(m: Chains, low: nat, again: set<Key>)
    requires forall k :: k in m ==> Ascending(m[k])
    ensures var once := PruneKeys(m, low, m.Keys);
            PruneKeys(once, low, again) == once
  {
    var once := PruneKeys(m, low, m.Keys);
    forall k | k in once ensures PruneChain(once[k], low) == once[k] != [] {
      PruneIsMinimal(m[k], low);
    }
  }

  // A collection changes no read of a live handle and no read of one that begins next.
  lemma GcIsInvisible(s: State, keys: set<Key>, k: Key, r: nat)
    requires Reachable(s)
    requires r == s.pending.doneUpto || exists id :: id in s.txns && s.txns[id].readTs == r
    ensures StoreRead(AfterGc(s, keys), k, r) == StoreRead(s, k, r)
  {
    ReachableInv(s);
    LowBelowReaders(s);
    ChainsAscendInRuns(s, k);
    PrunedUnseen(s.chains, LowWatermark(s.readers, s.pending.doneUpto), keys, k, r);
  }

  lemma PrunedUnseen(m: Chains, low: nat, keys: set<Key>, k: Key, r: nat)
    requires Ascending(ChainOf(m, k)) && low <= r
    ensures VisibleValue(ChainOf(PruneKeys(m, low, keys), k), r) == VisibleValue(ChainOf(m, k), r)
  {
    var c := ChainOf(m, k);
    ChainOfPruned(m, low, keys, k);
    assert c[0..] == c;
    PrunedAgain(c, c, low, low);
    PrunedReadsSame(c, PruneChain(c, low), low, r);
  }

  lemma FreshHandle(gcs: map<nat, nat>)
    ensures exists g: nat :: g !in gcs
  {
    if gcs.Keys == {} {
      assert 0 !in gcs;
    } else {
      LargestExists((g: nat) => g as int, gcs.Keys);
      var top :| top in gcs.Keys && forall y :: y in gcs.Keys ==> y <= top;
      assert top + 1 !in gcs;
    }
  }
}
