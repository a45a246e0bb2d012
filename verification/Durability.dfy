// What survives a crash: in every run, at every point, for every cut of the part of
// the log that is not yet known to be durable.

module Durability {
  import opened Types
  import opened VersionChain
  import opened StoreSpec
  import opened History
  import opened Protocol
  import opened ProtocolInv
  import opened LogInv
  import opened Reach
  import opened Isolation

  // Every acknowledged commit survives, with exactly the writes it was applied with.
  // This holds also when appends of other commits fail.
  lemma AcknowledgedSurvives(s: State, keep: nat, ts: nat)
    requires Reachable(s) && Enabled(s, Crash(keep)) && ts in s.acked
    ensures exists e :: e in Entries(s.history) && e.commitTs == ts
                        && e in Entries(Do(s, Crash(keep)).history)
  {
    ReachableInv(s);
    var e :| e in Entries(s.history) && e.commitTs == ts;
    LoggedMonotone(s.log, s.synced, keep, ts);
    RestrictEntries(s.history, TsOf(s.log[..keep]));
    assert e.commitTs in TsOf(s.log[..keep]);
  }

  // Nothing else appears: the recovered store holds, for every key, an ascending chain
  // of versions that validated transactions had applied, and all of those whose record
  // survived.
  lemma RecoveredStoreIsCommitted(s: State, keep: nat, k: Key, v: Version)
    requires Reachable(s) && Enabled(s, Crash(keep))
    ensures v in ChainOf(Do(s, Crash(keep)).chains, k) <==>
            Logged(s.log[..keep], v.commitTs)
            && exists e :: e in Entries(s.history) && k in e.writes && v == Version(e.commitTs, e.writes[k])
    ensures Ascending(ChainOf(Do(s, Crash(keep)).chains, k))
  {
    ReachableInv(s);
    var log := s.log[..keep];
    RecoveredIsRestricted(s, keep, k);
    RestrictChain(s.history, TsOf(log), k, v);
    ChainHolds(s.history, k, v);
    RestrictWellFormed(s.history, !s.lost, TsOf(log), false);
    ChainAscends(Restrict(s.history, TsOf(log)), false, k);
    assert v.commitTs in TsOf(log) <==> Logged(log, v.commitTs);
  }

  // The newest acknowledged write of a key is what the reopened database reads there,
  // whatever else the crash has taken.
  lemma NewestAcknowledgedIsRead(s: State, keep: nat, e: Committed, k: Key)
    requires Reachable(s) && Enabled(s, Crash(keep))
    requires e in Entries(s.history) && e.commitTs in s.acked && k in e.writes
    requires forall x :: x in Entries(s.history) && k in x.writes ==> x.commitTs <= e.commitTs
    ensures var s' := Do(s, Crash(keep)); StoreRead(s', k, s'.pending.doneUpto) == e.writes[k]
  {
    ReachableInv(s);
    LoggedMonotone(s.log, s.synced, keep, e.commitTs);
    var s', v := Do(s, Crash(keep)), Version(e.commitTs, e.writes[k]);
    var c := ChainOf(s'.chains, k);
    RecoveredStoreIsCommitted(s, keep, k, v);
    HighestLogged(s.log[..keep], e.commitTs);
    var i :| 0 <= i < |c| && c[i] == v;
    forall j | 0 <= j < |c| ensures c[j].commitTs <= v.commitTs {
      RecoveredStoreIsCommitted(s, keep, k, c[j]);
      assert c[j] in c;
    }
    VisibleIsNewest(c, s'.pending.doneUpto, i);
  }

  lemma HighestLogged(log: seq<Record>, ts: nat)
    requires Logged(log, ts)
    ensures ts <= Highest(log)
  {
    HighestBounds(log);
  }

  // Reads come back as they were, at every snapshot from the largest low watermark used
  // to the watermark at the crash, unless a visible commit is missing from the log.
  lemma RecoveredReadsSame(s: State, keep: nat, k: Key, r: nat)
    requires Reachable(s) && Enabled(s, Crash(keep)) && !LosesVisible(s, keep)
    requires s.maxLow <= r <= s.pending.doneUpto
    ensures StoreRead(Do(s, Crash(keep)), k, r) == StoreRead(s, k, r)
  {
    ReachableInv(s);
    var log := s.log[..keep];
    StoreAgrees(s, k, r);
    RecoveredIsRestricted(s, keep, k);
    RestrictWellFormed(s.history, !s.lost, TsOf(log), false);
    forall x | x in Entries(s.history) && x.commitTs <= r ensures x.commitTs in TsOf(log) {
      assert Logged(log, x.commitTs);
    }
    RestrictVisible(s.history, !s.lost, TsOf(log), k, r);
  }

  // That condition is exact: the recovered store has the versions of the history up to
  // the watermark if and only if no visible commit is missing from the log.
  lemma RecoveryIsExact(s: State, keep: nat)
    requires Reachable(s) && Enabled(s, Crash(keep))
    ensures !LosesVisible(s, keep) <==>
            forall k, v: Version :: v.commitTs <= s.pending.doneUpto ==>
              (v in FullChain(s.history, k) <==> v in ChainOf(Do(s, Crash(keep)).chains, k))
  {
    ReachableInv(s);
    var log := s.log[..keep];
    if LosesVisible(s, keep) {
      var e :| e in Entries(s.history) && e.commitTs <= s.pending.doneUpto && !Logged(log, e.commitTs);
      WritesSomething(s.history, !s.lost, e);
      var k :| k in e.writes;
      var v := Version(e.commitTs, e.writes[k]);
      ChainHolds(s.history, k, v);
      RecoveredStoreIsCommitted(s, keep, k, v);
      assert v in FullChain(s.history, k) && v !in ChainOf(Do(s, Crash(keep)).chains, k);
    } else {
      forall k, v: Version | v.commitTs <= s.pending.doneUpto
        ensures v in FullChain(s.history, k) <==> v in ChainOf(Do(s, Crash(keep)).chains, k)
      {
        RecoveredStoreIsCommitted(s, keep, k, v);
        ChainHolds(s.history, k, v);
      }
    }
  }

  lemma LogHasTs(log: seq<Record>, keep: nat, i: nat)
    requires DistinctTs(log) && keep <= |log| && i < |log|
    ensures Logged(log[..keep], log[i].commitTs) <==> i < keep
  {
    if i < keep {
      assert log[..keep][i] == log[i];
    }
  }

  lemma FailedIsLost(s: State, keep: nat, ts: nat)
    requires LogShape(s) && keep <= |s.log| && ts in s.failed && ts <= s.pending.doneUpto
    ensures LosesVisible(s, keep)
  {
    assert HasTs(s.history, ts) && !Logged(s.log, ts);
    LoggedPrefix(s.log, keep, ts);
  }

  lemma CutIsLost(s: State, keep: nat, i: nat)
    requires LogShape(s) && keep <= i < |s.log| && s.log[i].commitTs <= s.pending.doneUpto
    ensures LosesVisible(s, keep)
  {
    assert RecordOf(s.history, s.log[i]);
    LogHasTs(s.log, keep, i);
  }

  // A crash loses something visible exactly when an append has failed, without a record,
  // at or below the watermark, or the cut takes the record of such a commit away.
  lemma LosesVisibleExactly(s: State, keep: nat)
    requires Reachable(s) && s.durable && keep <= |s.log|
    ensures LosesVisible(s, keep) <==>
            (exists ts :: ts in s.failed && ts <= s.pending.doneUpto)
            || exists i :: keep <= i < |s.log| && s.log[i].commitTs <= s.pending.doneUpto
  {
    ReachableInv(s);
    if ts :| ts in s.failed && ts <= s.pending.doneUpto {
      FailedIsLost(s, keep, ts);
    }
    if i :| keep <= i < |s.log| && s.log[i].commitTs <= s.pending.doneUpto {
      CutIsLost(s, keep, i);
    }
    if LosesVisible(s, keep) {
      var e :| e in Entries(s.history) && e.commitTs <= s.pending.doneUpto && !Logged(s.log[..keep], e.commitTs);
      VisibleIsAccounted(s, e);
      if Logged(s.log, e.commitTs) {
        var i :| 0 <= i < |s.log| && s.log[i].commitTs == e.commitTs;
        LogHasTs(s.log, keep, i);
      }
    }
  }

  lemma VisibleIsAccounted(s: State, e: Committed)
    requires OracleOk(s) && LogComplete(s) && s.durable && e in Entries(s.history) && e.commitTs <= s.pending.doneUpto
    ensures Logged(s.log, e.commitTs) || e.commitTs in s.failed
  {
    if HeldApplied(s, e.commitTs) {
      var id :| id in s.txns && s.txns[id].phase == Applied(e.commitTs);
      HeldAboveWatermark(s, id);
    }
  }

  // While the whole log survives, only failed appends lose anything.
  lemma WholeLogLosesOnlyFailed(s: State)
    requires Reachable(s) && s.durable
    ensures LosesVisible(s, |s.log|) <==> exists ts :: ts in s.failed && ts <= s.pending.doneUpto
  {
    LosesVisibleExactly(s, |s.log|);
  }

  // ----- runs in which every append succeeds -----

  ghost predicate HeldUnsynced(s: State, ts: nat) {
    exists id :: id in s.txns && (s.txns[id].phase == Applied(ts) || s.txns[id].phase == Written(ts))
  }

  ghost predicate Clean(s: State) {
    && s.failed == {} && !s.lost && s.synced <= |s.log|
    && (forall id :: id in s.txns ==> !s.txns[id].phase.AppendFailed?)
    && (s.durable ==>
          forall e :: e in Entries(s.history) ==>
            Logged(s.log[..s.synced], e.commitTs) || HeldUnsynced(s, e.commitTs))
  }

  ghost predicate AppendsSucceed(steps: seq<Step>) {
    forall i :: 0 <= i < |steps| ==> !steps[i].AppendFail?
  }

  // In a clean state nothing visible can be lost, wherever the log is cut.
  lemma CleanLosesNothing(s: State, keep: nat)
    requires OracleOk(s) && Clean(s) && s.durable && s.synced <= keep <= |s.log|
    ensures !LosesVisible(s, keep)
  {
    forall e | e in Entries(s.history) && e.commitTs <= s.pending.doneUpto
      ensures Logged(s.log[..keep], e.commitTs)
    {
      if HeldUnsynced(s, e.commitTs) {
        var id :| id in s.txns && (s.txns[id].phase == Applied(e.commitTs) || s.txns[id].phase == Written(e.commitTs));
        HeldAboveWatermark(s, id);
      }
      LoggedMonotone(s.log, s.synced, keep, e.commitTs);
    }
  }

  // A step that replaces or removes one transaction, which either was not waiting for
  // its append or has just had it made durable.
  lemma CleanChange(s: State, s': State, id: nat)
    requires Clean(s) && id in s.txns
    requires (id in s'.txns && s'.txns == s.txns[id := s'.txns[id]]) || s'.txns == s.txns - {id}
    requires id in s'.txns ==> !s'.txns[id].phase.AppendFailed?
    requires s'.failed == {} && !s'.lost && s'.durable == s.durable && s'.history == s.history
    requires s.synced <= s'.synced <= |s'.log| && s.log <= s'.log
    requires s.durable && (s.txns[id].phase.Applied? || s.txns[id].phase.Written?) ==>
               Logged(s'.log[..s'.synced], s.txns[id].phase.ts)
               || (id in s'.txns && s'.txns[id].phase == Written(s.txns[id].phase.ts))
    ensures Clean(s')
  {
    if s.durable {
      forall e | e in Entries(s'.history)
        ensures Logged(s'.log[..s'.synced], e.commitTs) || HeldUnsynced(s', e.commitTs)
      {
        if Logged(s.log[..s.synced], e.commitTs) {
          assert s'.log[..s.synced] == s.log[..s.synced];
          LoggedMonotone(s'.log, s.synced, s'.synced, e.commitTs);
        } else {
          var a :| a in s.txns && (s.txns[a].phase == Applied(e.commitTs) || s.txns[a].phase == Written(e.commitTs));
          if a != id {
            assert a in s'.txns && s'.txns[a] == s.txns[a];
          }
        }
      }
    }
  }

  lemma CleanQuiet(s: State, s': State)
    requires Clean(s) && s'.history == s.history && s'.log == s.log && s'.synced == s.synced
    requires s'.failed == s.failed && s'.lost == s.lost && s'.durable == s.durable
    requires forall id :: id in s.txns ==> id in s'.txns && s'.txns[id] == s.txns[id]
    requires forall id :: id in s'.txns && id !in s.txns ==> s'.txns[id].phase.Running?
    ensures Clean(s')
  {
    if s.durable {
      forall e | e in Entries(s'.history)
        ensures Logged(s'.log[..s'.synced], e.commitTs) || HeldUnsynced(s', e.commitTs)
      {
        if HeldUnsynced(s, e.commitTs) {
          var a :| a in s.txns && (s.txns[a].phase == Applied(e.commitTs) || s.txns[a].phase == Written(e.commitTs));
          assert a in s'.txns;
        }
      }
    }
  }

  lemma CleanTry(s: State, id: nat)
    requires Clean(s) && id in s.txns && s.txns[id].phase.Allocated?
    ensures Clean(DoTryCommit(s, id))
  {
    var s' := DoTryCommit(s, id);
    if s.durable {
      forall e | e in Entries(s'.history)
        ensures Logged(s'.log[..s'.synced], e.commitTs) || HeldUnsynced(s', e.commitTs)
      {
        if e !in Entries(s.history) {
          assert s'.txns[id].phase == Applied(e.commitTs);
        } else if HeldUnsynced(s, e.commitTs) {
          var a :| a in s.txns && (s.txns[a].phase == Applied(e.commitTs) || s.txns[a].phase == Written(e.commitTs));
          assert a in s'.txns && s'.txns[a] == s.txns[a];
        }
      }
    }
  }

  lemma CleanCrash(s: State, keep: nat)
    requires OracleOk(s) && Clean(s) && s.durable && s.synced <= keep <= |s.log|
    ensures Clean(DoCrash(s, keep))
  {
    CleanLosesNothing(s, keep);
    var s' := DoCrash(s, keep);
    RestrictEntries(s.history, TsOf(s'.log));
    assert s'.log[..s'.synced] == s'.log;
    forall e | e in Entries(s'.history) ensures Logged(s'.log[..s'.synced], e.commitTs) {
      assert e.commitTs in TsOf(s'.log);
    }
  }

  lemma CleanKeeps(s: State, step: Step)
    requires Clean(s) && Enabled(s, step) && (step.Read? || step.Write? || step.Finish?)
    ensures Clean(Do(s, step))
  {
    KeepsTsShape(s, step);
    CleanChange(s, Do(s, step), step.id);
  }

  lemma CleanCommit(s: State, step: Step)
    requires OracleOk(s) && LogOk(s) && Clean(s) && Enabled(s, step)
    requires step.Alloc? || step.AppendRecord? || step.Sync? || step.CommitDone? || step.EndReader?
    ensures Clean(Do(s, step))
  {
    var s' := Do(s, step);
    assert LogPhase(s, s.txns[step.id].phase);
    if step.Sync? {
      LoggedMonotone(s.log, step.upTo, s'.synced, s.txns[step.id].phase.ts);
    }
    CleanChange(s, s', step.id);
  }

  lemma CleanStep(s: State, step: Step)
    requires OracleOk(s) && TxnsOk(s) && LogOk(s) && Clean(s) && Enabled(s, step) && !step.AppendFail?
    ensures Clean(Do(s, step))
  {
    var s' := Do(s, step);
    if step.Read? || step.Write? || step.Finish? {
      CleanKeeps(s, step);
    } else if step.Alloc? || step.AppendRecord? || step.Sync? || step.CommitDone? || step.EndReader? {
      CleanCommit(s, step);
    } else {
      match step
      case Begin(_) => CleanQuiet(s, s');
      case TryCommit(id) => CleanTry(s, id);
      case Crash(keep) => CleanCrash(s, keep);
      case GcBegin(_) => CleanQuiet(s, s');
      case GcPrune(_, _) => CleanQuiet(s, s');
      case GcEnd(_) => CleanQuiet(s, s');
    }
  }

  lemma {:induction false} CleanRun(durable: bool, steps: seq<Step>)
    requires Exec(Init(durable), steps).Some? && AppendsSucceed(steps)
    ensures Clean(Exec(Init(durable), steps).value)
  {
    InitInv(durable);
    if steps != [] {
      var init, last := steps[..|steps| - 1], steps[|steps| - 1];
      ExecSplit(Init(durable), steps);
      assert forall i :: 0 <= i < |init| ==> init[i] == steps[i];
      CleanRun(durable, init);
      RunInv(Init(durable), init);
      CleanStep(Exec(Init(durable), init).value, last);
    }
  }

  // With successful appends, every version at or below the watermark is durable ...
  lemma VisibleIsDurable(durable: bool, steps: seq<Step>, e: Committed)
    requires Exec(Init(durable), steps).Some? && AppendsSucceed(steps)
    requires var s := Exec(Init(durable), steps).value;
             s.durable && e in Entries(s.history) && e.commitTs <= s.pending.doneUpto
    ensures var s := Exec(Init(durable), steps).value;
            s.synced <= |s.log| && Logged(s.log[..s.synced], e.commitTs)
  {
    InitInv(durable);
    RunInv(Init(durable), steps);
    CleanRun(durable, steps);
    var s := Exec(Init(durable), steps).value;
    CleanLosesNothing(s, s.synced);
  }

  // ... and a crash anywhere leaves reads and serial order as they were.
  lemma CrashLosesNothingVisible(durable: bool, steps: seq<Step>, keep: nat, k: Key, r: nat)
    requires Exec(Init(durable), steps).Some? && AppendsSucceed(steps)
    requires var s := Exec(Init(durable), steps).value;
             Enabled(s, Crash(keep)) && s.maxLow <= r <= s.pending.doneUpto
    ensures var s := Exec(Init(durable), steps).value;
            StoreRead(Do(s, Crash(keep)), k, r) == StoreRead(s, k, r) && !Do(s, Crash(keep)).lost
  {
    var s := Exec(Init(durable), steps).value;
    assert Reachable(s);
    ReachableInv(s);
    CleanRun(durable, steps);
    CleanLosesNothing(s, keep);
    RecoveredReadsSame(s, keep, k, r);
  }

  lemma FailsOnlyDurable(s: State, step: Step)
    requires Enabled(s, step) && !s.durable
    ensures !step.AppendFail?
  {
  }

  // A database in memory has no appends to fail.
  lemma {:induction false} MemoryRun(steps: seq<Step>)
    requires Exec(Init(false), steps).Some?
    ensures AppendsSucceed(steps) && !Exec(Init(false), steps).value.durable
  {
    if steps != [] {
      var init, last := steps[..|steps| - 1], steps[|steps| - 1];
      ExecSplit(Init(false), steps);
      MemoryRun(init);
      DurableKept(Exec(Init(false), init).value, last);
      FailsOnlyDurable(Exec(Init(false), init).value, last);
      assert forall i :: 0 <= i < |init| ==> init[i] == steps[i];
    }
  }

  // ----- the log itself -----

  // Every prefix of the log holds, with a transaction, all committed transactions its
  // snapshot could see, except those whose append failed without leaving a record.
  lemma PrefixIsCausallyClosed(s: State, n: nat, e: Committed, x: Committed)
    requires Reachable(s) && s.durable && n <= |s.log|
    requires e in Entries(s.history) && Logged(s.log[..n], e.commitTs)
    requires x in Entries(s.history) && x.commitTs <= e.readTs && x.commitTs !in s.failed
    ensures Logged(s.log[..n], x.commitTs)
  {
    ReachableInv(s);
    var i :| 0 <= i < n && s.log[..n][i].commitTs == e.commitTs;
    assert s.log[i].commitTs == e.commitTs;
    LoggedMonotone(s.log, i, n, x.commitTs);
  }

  // Timestamps in the log are unique across any number of crashes and reopenings, and
  // the next one to be handed out is above all of them, so the replay order is
  // determined.
  lemma LogTimestampsUnique(s: State)
    requires Reachable(s)
    ensures DistinctTs(s.log)
    ensures forall i :: 0 <= i < |s.log| ==> s.log[i].commitTs < s.nextTs
  {
    ReachableInv(s);
    forall i | 0 <= i < |s.log| ensures s.log[i].commitTs < s.nextTs {
      assert RecordOf(s.history, s.log[i]);
    }
  }

  // Per key, log order agrees with timestamp order and with apply order, although
  // globally all three differ.
  lemma LogOrderAgreesPerKey(s: State, i: nat, j: nat, k: Key)
    requires Reachable(s) && s.durable && i < |s.log| && j < |s.log|
    requires k in s.log[i].writes && k in s.log[j].writes && s.log[i].commitTs < s.log[j].commitTs
    ensures i < j
    ensures exists a, b :: a in Entries(s.history) && b in Entries(s.history)
              && a.commitTs == s.log[i].commitTs && b.commitTs == s.log[j].commitTs
              && AppliedBefore(s.history, a, b)
  {
    ReachableInv(s);
    assert RecordOf(s.history, s.log[i]) && RecordOf(s.history, s.log[j]);
    var a :| a in Entries(s.history) && a.commitTs == s.log[i].commitTs && a.writes == s.log[i].writes;
    var b :| b in Entries(s.history) && b.commitTs == s.log[j].commitTs && b.writes == s.log[j].writes;
    FirstCommitterWins(s.history, !s.lost, a, b, k);
    assert Logged(s.log, a.commitTs);
    assert Logged(s.log[..j], a.commitTs);
    var m :| 0 <= m < j && s.log[..j][m].commitTs == a.commitTs;
    assert s.log[m].commitTs == s.log[i].commitTs;
  }
}
