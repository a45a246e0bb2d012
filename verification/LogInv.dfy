// What every step keeps about the durable log: it holds committed transactions only,
// it misses none that is visible, it keeps the acknowledged ones, and every record is
// preceded by the commits its transaction could have read.

module LogInv {
  import opened StoreSpec
  import opened History
  import opened Protocol
  import opened ProtocolInv

  // Every step but these leaves the log, and how much of it is durable, alone.
  predicate TouchesLog(step: Step) {
    step.TryCommit? || step.AppendRecord? || step.Sync? || step.AppendFail? || step.Crash?
  }

  lemma LogFrame(s: State, step: Step)
    requires !TouchesLog(step) && Enabled(s, step)
    ensures var s' := Do(s, step);
            s'.log == s.log && s'.synced == s.synced && s'.failed == s.failed
            && s'.history == s.history && s'.durable == s.durable
  {
  }

  lemma PhaseFrame(s: State, step: Step)
    requires !TouchesLog(step) && Enabled(s, step)
    ensures forall id :: id in Do(s, step).txns ==>
              (id in s.txns && Do(s, step).txns[id].phase == s.txns[id].phase)
              || !IsApplied(Do(s, step).txns[id].phase)
  {
  }

  lemma LoggedIsCommitted(s: State, ts: nat)
    requires LogShape(s) && Logged(s.log, ts)
    ensures HasTs(s.history, ts)
  {
    var i :| 0 <= i < |s.log| && s.log[i].commitTs == ts;
    assert RecordOf(s.history, s.log[i]);
  }

  lemma LoggedMonotone(log: seq<Record>, n: nat, m: nat, ts: nat)
    requires n <= m <= |log| && Logged(log[..n], ts)
    ensures Logged(log[..m], ts)
  {
    var i :| 0 <= i < n && log[..n][i].commitTs == ts;
    assert log[..m][i].commitTs == ts;
  }

  lemma LoggedPushed(log: seq<Record>, r: Record, ts: nat)
    ensures Logged(log + [r], ts) <==> Logged(log, ts) || ts == r.commitTs
    ensures forall n :: 0 <= n <= |log| ==> (log + [r])[..n] == log[..n]
  {
    if Logged(log, ts) {
      var i :| 0 <= i < |log| && log[i].commitTs == ts;
      assert (log + [r])[i].commitTs == ts;
    }
    assert (log + [r])[|log|] == r;
  }

  lemma LoggedPrefix(log: seq<Record>, n: nat, ts: nat)
    requires n <= |log|
    ensures Logged(log[..n], ts) ==> Logged(log, ts)
  {
    if Logged(log[..n], ts) {
      var i :| 0 <= i < n && log[..n][i].commitTs == ts;
      assert log[i].commitTs == ts;
    }
  }

  // A commit adds to the history and touches nothing of the log.
  lemma LogShapeTry(s: State, id: nat)
    requires LogShape(s) && id in s.txns && s.txns[id].phase.Allocated?
    ensures LogShape(DoTryCommit(s, id))
  {
    var s' := DoTryCommit(s, id);
    assert forall e :: e in Entries(s.history) ==> e in Entries(s'.history);
    forall i | 0 <= i < |s'.log| ensures RecordOf(s'.history, s'.log[i]) {
      assert RecordOf(s.history, s.log[i]);
    }
    forall ts | ts in s'.failed ensures !Logged(s'.log, ts) && HasTs(s'.history, ts) {
      assert HasTs(s.history, ts);
    }
  }

  lemma LogShapeAppend(s: State, s': State, id: nat)
    requires LogShape(s) && PhasesOk(s) && s.durable && s'.durable
    requires id in s.txns && s.txns[id].phase.Applied? && LogPhase(s, s.txns[id].phase)
    requires s'.log == s.log + [Record(s.txns[id].phase.ts, s.txns[id].writes)]
    requires s'.history == s.history && s'.failed == s.failed && s'.synced == s.synced
    ensures LogShape(s')
  {
    var r := Record(s.txns[id].phase.ts, s.txns[id].writes);
    assert PhaseOk(s.history, id, s.txns[id]);
    var e := EntryOf(id, s.txns[id], r.commitTs);
    assert e in Entries(s.history) && e.commitTs == r.commitTs && e.writes == r.writes;
    assert RecordOf(s.history, r);
    assert forall i :: 0 <= i < |s.log| ==> s.log[i].commitTs != r.commitTs;
    forall ts | ts in s'.failed ensures !Logged(s'.log, ts) && HasTs(s'.history, ts) {
      LoggedPushed(s.log, r, ts);
    }
  }

  lemma LogShapeCrash(s: State, keep: nat)
    requires LogShape(s) && s.durable && keep <= |s.log|
    ensures LogShape(DoCrash(s, keep))
  {
    var s' := DoCrash(s, keep);
    RestrictEntries(s.history, TsOf(s'.log));
    forall i | 0 <= i < |s'.log| ensures RecordOf(s'.history, s'.log[i]) {
      assert RecordOf(s.history, s.log[i]);
      assert s'.log[i].commitTs in TsOf(s'.log);
    }
  }

  lemma LogShapeSync(s: State, s': State, id: nat)
    requires LogShape(s) && s'.log == s.log && s'.synced <= |s.log|
    requires s'.history == s.history && s'.durable == s.durable && s'.failed == s.failed
    ensures LogShape(s')
  {
  }

  lemma LogShapeFail(s: State, s': State, id: nat)
    requires PhasesOk(s) && LogOk(s) && id in s.txns && HoldsTs(s.txns[id].phase)
    requires s'.log == s.log && s'.synced == s.synced && s'.history == s.history && s'.durable == s.durable
    requires s'.failed == s.failed || (s.txns[id].phase.Applied? && s'.failed == s.failed + {s.txns[id].phase.ts})
    ensures LogShape(s')
  {
    assert PhaseOk(s.history, id, s.txns[id]);
    assert LogPhase(s, s.txns[id].phase);
  }

  lemma LogShapeQuiet(s: State, step: Step)
    requires LogShape(s) && Enabled(s, step) && !TouchesLog(step)
    ensures LogShape(Do(s, step))
  {
    LogFrame(s, step);
  }

  lemma LogShapeStep(s: State, step: Step)
    requires PhasesOk(s) && LogOk(s) && Enabled(s, step)
    ensures LogShape(Do(s, step))
  {
    var s' := Do(s, step);
    if !TouchesLog(step) {
      LogShapeQuiet(s, step);
    } else {
      match step
      case TryCommit(id) => LogShapeTry(s, id);
      case AppendRecord(id) => LogShapeAppend(s, s', id);
      case Sync(id, upTo) => LogShapeSync(s, s', id);
      case AppendFail(id) => LogShapeFail(s, s', id);
      case Crash(keep) => LogShapeCrash(s, keep);
    }
  }

  // ----- the phases against the log -----

  ghost predicate LogPhasesOk(s: State) {
    forall id :: id in s.txns ==> LogPhase(s, s.txns[id].phase)
  }

  lemma LogPhasesTry(s: State, id: nat)
    requires PhasesOk(s) && LogOk(s) && id in s.txns && s.txns[id].phase.Allocated?
    ensures LogPhasesOk(DoTryCommit(s, id))
  {
    var s' := DoTryCommit(s, id);
    var ts := s.txns[id].phase.ts;
    assert PhaseOk(s.history, id, s.txns[id]);
    if Logged(s.log, ts) {
      LoggedIsCommitted(s, ts);
    }
    forall a | a in s'.txns ensures LogPhase(s', s'.txns[a].phase) {
      assert a in s.txns && LogPhase(s, s.txns[a].phase);
    }
  }

  lemma LogPhasesAppend(s: State, id: nat)
    requires OracleOk(s) && LogOk(s) && Enabled(s, AppendRecord(id))
    ensures LogPhasesOk(Do(s, AppendRecord(id)))
  {
    var s' := Do(s, AppendRecord(id));
    var r := Record(s.txns[id].phase.ts, s.txns[id].writes);
    forall a | a in s'.txns ensures LogPhase(s', s'.txns[a].phase) {
      assert a in s.txns && LogPhase(s, s.txns[a].phase);
      assert HoldsTs(s.txns[id].phase);
      if HoldsTs(s.txns[a].phase) {
        LoggedPushed(s.log, r, s.txns[a].phase.ts);
      }
    }
  }

  lemma LogPhasesSync(s: State, id: nat, upTo: nat)
    requires LogOk(s) && Enabled(s, Sync(id, upTo))
    ensures LogPhasesOk(Do(s, Sync(id, upTo)))
  {
    var s' := Do(s, Sync(id, upTo));
    LoggedMonotone(s.log, upTo, s'.synced, s.txns[id].phase.ts);
    forall a | a in s'.txns ensures LogPhase(s', s'.txns[a].phase) {
      assert a in s.txns && LogPhase(s, s.txns[a].phase);
      if a != id && s.txns[a].phase.Synced? {
        LoggedMonotone(s.log, s.synced, s'.synced, s.txns[a].phase.ts);
      }
    }
  }

  lemma LogPhasesFail(s: State, id: nat)
    requires OracleOk(s) && LogOk(s) && Enabled(s, AppendFail(id))
    ensures LogPhasesOk(Do(s, AppendFail(id)))
  {
    var s' := Do(s, AppendFail(id));
    forall a | a in s'.txns ensures LogPhase(s', s'.txns[a].phase) {
      assert a in s.txns && LogPhase(s, s.txns[a].phase);
      assert HoldsTs(s.txns[id].phase);
    }
  }

  lemma LogPhasesStep(s: State, step: Step)
    requires OracleOk(s) && PhasesOk(s) && LogOk(s) && Enabled(s, step)
    ensures LogPhasesOk(Do(s, step))
  {
    if !TouchesLog(step) {
      LogFrame(s, step);
      PhaseFrame(s, step);
      var s' := Do(s, step);
      forall a | a in s'.txns ensures LogPhase(s', s'.txns[a].phase) {
        assert a in s.txns ==> LogPhase(s, s.txns[a].phase);
      }
    } else {
      match step
      case TryCommit(id) => LogPhasesTry(s, id);
      case AppendRecord(id) => LogPhasesAppend(s, id);
      case Sync(id, upTo) => LogPhasesSync(s, id, upTo);
      case AppendFail(id) => LogPhasesFail(s, id);
      case Crash(keep) =>
    }
  }

  // ----- nothing visible is missing -----

  // A commit at or below the watermark is in the log, unless its append failed.
  lemma VisibleIsLogged(s: State, x: Committed)
    requires OracleOk(s) && LogComplete(s) && s.durable
    requires x in Entries(s.history) && x.commitTs <= s.pending.doneUpto
    ensures Logged(s.log, x.commitTs) || x.commitTs in s.failed
  {
    if HeldApplied(s, x.commitTs) {
      var id :| id in s.txns && s.txns[id].phase == Applied(x.commitTs);
      HeldAboveWatermark(s, id);
    }
  }

  // Commits waiting to be appended, after a step that changes one transaction.
  lemma StillHeldApplied(s: State, s': State, id: nat, ts: nat)
    requires HeldApplied(s, ts) && id in s.txns
    requires (id in s'.txns && s'.txns == s.txns[id := s'.txns[id]]) || s'.txns == s.txns - {id}
    requires s.txns[id].phase != Applied(ts)
    ensures HeldApplied(s', ts)
  {
    var a :| a in s.txns && s.txns[a].phase == Applied(ts);
    assert a in s'.txns && s'.txns[a].phase == Applied(ts);
  }

  lemma CompleteTry(s: State, id: nat)
    requires LogComplete(s) && id in s.txns && s.txns[id].phase.Allocated?
    ensures LogComplete(DoTryCommit(s, id))
  {
    var s' := DoTryCommit(s, id);
    if s.durable {
      forall e | e in Entries(s'.history)
        ensures Logged(s'.log, e.commitTs) || e.commitTs in s'.failed || HeldApplied(s', e.commitTs)
      {
        if e in Entries(s.history) {
          if HeldApplied(s, e.commitTs) {
            StillHeldApplied(s, s', id, e.commitTs);
          }
        } else {
          assert s'.txns[id].phase == Applied(e.commitTs);
        }
      }
    }
  }

  lemma CompleteAppend(s: State, id: nat)
    requires LogComplete(s) && Enabled(s, AppendRecord(id))
    ensures LogComplete(Do(s, AppendRecord(id)))
  {
    var s' := Do(s, AppendRecord(id));
    var r := Record(s.txns[id].phase.ts, s.txns[id].writes);
    forall e | e in Entries(s'.history)
      ensures Logged(s'.log, e.commitTs) || e.commitTs in s'.failed || HeldApplied(s', e.commitTs)
    {
      LoggedPushed(s.log, r, e.commitTs);
      if HeldApplied(s, e.commitTs) && e.commitTs != r.commitTs {
        StillHeldApplied(s, s', id, e.commitTs);
      }
    }
  }

  // Steps that leave history and log alone and take no transaction out of `Applied`
  // without recording why.
  lemma CompleteSame(s: State, s': State, id: nat)
    requires LogComplete(s) && id in s.txns
    requires (id in s'.txns && s'.txns == s.txns[id := s'.txns[id]]) || s'.txns == s.txns - {id}
    requires s'.history == s.history && s'.log == s.log && s.failed <= s'.failed && s'.durable == s.durable
    requires s.txns[id].phase.Applied? && s.durable ==> s.txns[id].phase.ts in s'.failed
    ensures LogComplete(s')
  {
    if s.durable {
      forall e | e in Entries(s'.history)
        ensures Logged(s'.log, e.commitTs) || e.commitTs in s'.failed || HeldApplied(s', e.commitTs)
      {
        if HeldApplied(s, e.commitTs) && s.txns[id].phase != Applied(e.commitTs) {
          StillHeldApplied(s, s', id, e.commitTs);
        }
      }
    }
  }

  lemma CompleteBegin(s: State, serializable: bool)
    requires LogComplete(s) && TxnsOk(s)
    ensures LogComplete(DoBegin(s, serializable))
  {
    var s' := DoBegin(s, serializable);
    forall e | e in Entries(s.history) && HeldApplied(s, e.commitTs) ensures HeldApplied(s', e.commitTs) {
      var a :| a in s.txns && s.txns[a].phase == Applied(e.commitTs);
      assert a in s'.txns && s'.txns[a].phase == Applied(e.commitTs);
    }
  }

  lemma CompleteCrash(s: State, keep: nat)
    requires keep <= |s.log|
    ensures LogComplete(DoCrash(s, keep))
  {
    var s' := DoCrash(s, keep);
    RestrictEntries(s.history, TsOf(s'.log));
    forall e | e in Entries(s'.history) ensures Logged(s'.log, e.commitTs) {
      assert e.commitTs in TsOf(s'.log);
    }
  }

  lemma CompleteQuiet(s: State, s': State)
    requires LogComplete(s) && s'.txns == s.txns && s'.history == s.history && s'.log == s.log
    requires s'.failed == s.failed && s'.durable == s.durable
    ensures LogComplete(s')
  {
    forall e | e in Entries(s.history) && HeldApplied(s, e.commitTs) ensures HeldApplied(s', e.commitTs) {
      var a :| a in s.txns && s.txns[a].phase == Applied(e.commitTs);
    }
  }

  lemma CompleteStep(s: State, step: Step)
    requires TxnsOk(s) && LogComplete(s) && Enabled(s, step)
    ensures LogComplete(Do(s, step))
  {
    var s' := Do(s, step);
    match step
    case Begin(ser) => CompleteBegin(s, ser);
    case Alloc(id) => CompleteSame(s, s', id);
    case TryCommit(id) => CompleteTry(s, id);
    case AppendRecord(id) => CompleteAppend(s, id);
    case CommitDone(id) => CompleteSame(s, s', id);
    case EndReader(id) => CompleteSame(s, s', id);
    case GcBegin(_) => CompleteQuiet(s, s');
    case GcPrune(_, _) => CompleteQuiet(s, s');
    case GcEnd(_) => CompleteQuiet(s, s');
    case Crash(keep) => CompleteCrash(s, keep);
    case _ => CompleteKeeps(s, step);
  }

  lemma CompleteKeeps(s: State, step: Step)
    requires LogComplete(s) && Enabled(s, step)
    requires step.Read? || step.Write? || step.Finish? || step.Sync? || step.AppendFail?
    ensures LogComplete(Do(s, step))
  {
    KeepsTsShape(s, step);
    CompleteSame(s, Do(s, step), step.id);
  }

  // ----- what was acknowledged -----

  lemma AckedGrows(s: State, s': State)
    requires AckedOk(s) && LogShape(s') && s'.acked == s.acked && s'.durable == s.durable
    requires s.synced <= s'.synced && s.log <= s'.log
    requires forall e :: e in Entries(s.history) ==> e in Entries(s'.history)
    ensures AckedOk(s')
  {
    forall ts | ts in s'.acked
      ensures HasTs(s'.history, ts) && (s'.durable ==> Logged(s'.log[..s'.synced], ts))
    {
      assert HasTs(s.history, ts);
      if s.durable {
        assert s'.log[..s.synced] == s.log[..s.synced];
        LoggedMonotone(s'.log, s.synced, s'.synced, ts);
      }
    }
  }

  lemma AckedDone(s: State, id: nat)
    requires AckedOk(s) && PhasesOk(s) && LogOk(s) && Enabled(s, CommitDone(id))
    ensures AckedOk(Do(s, CommitDone(id)))
  {
    assert PhaseOk(s.history, id, s.txns[id]) && LogPhase(s, s.txns[id].phase);
  }

  lemma AckedCrash(s: State, keep: nat)
    requires AckedOk(s) && s.durable && s.synced <= keep <= |s.log| && LogShape(DoCrash(s, keep))
    ensures AckedOk(DoCrash(s, keep))
  {
    var s' := DoCrash(s, keep);
    RestrictEntries(s.history, TsOf(s'.log));
    forall ts | ts in s'.acked ensures HasTs(s'.history, ts) && Logged(s'.log[..s'.synced], ts) {
      LoggedMonotone(s.log, s.synced, keep, ts);
      assert s'.log[..s'.synced] == s'.log;
      assert ts in TsOf(s'.log);
      var e :| e in Entries(s.history) && e.commitTs == ts;
      assert e in Entries(s'.history);
    }
  }

  lemma AckedKept(s: State, step: Step)
    requires Enabled(s, step) && !step.CommitDone?
    ensures Do(s, step).acked == s.acked
  {
  }

  lemma DurableKept(s: State, step: Step)
    requires Enabled(s, step)
    ensures Do(s, step).durable == s.durable
  {
  }

  lemma LogGrows(s: State, step: Step)
    requires Enabled(s, step) && TouchesLog(step) && !step.Crash?
    ensures s.synced <= Do(s, step).synced && s.log <= Do(s, step).log
    ensures forall e :: e in Entries(s.history) ==> e in Entries(Do(s, step).history)
  {
  }

  lemma AckedStep(s: State, step: Step)
    requires AckedOk(s) && OracleOk(s) && PhasesOk(s) && LogOk(s) && Enabled(s, step)
    ensures AckedOk(Do(s, step))
  {
    LogShapeStep(s, step);
    if step.Crash? {
      AckedCrash(s, step.keep);
    } else if step.CommitDone? {
      AckedDone(s, step.id);
    } else {
      AckedKept(s, step);
      DurableKept(s, step);
      if TouchesLog(step) {
        LogGrows(s, step);
      } else {
        LogFrame(s, step);
      }
      AckedGrows(s, Do(s, step));
    }
  }

  // ----- causal closure of the log -----

  lemma ClosedTry(s: State, id: nat)
    requires OracleOk(s) && HistoryOk(s) && PhasesOk(s) && LogShape(s) && LogClosed(s)
    requires id in s.txns && s.txns[id].phase.Allocated?
    ensures LogClosed(DoTryCommit(s, id))
  {
    var s' := DoTryCommit(s, id);
    HeldAboveWatermark(s, id);
    assert PhaseOk(s.history, id, s.txns[id]);
    assert s'.log == s.log && s'.failed == s.failed && s'.durable == s.durable;
    assert forall x :: x in Entries(s'.history) ==> x in Entries(s.history) || x.commitTs == s.txns[id].phase.ts;
    forall i, e, x | 0 <= i < |s'.log| && e in Entries(s'.history) && e.commitTs == s'.log[i].commitTs
                     && x in Entries(s'.history) && x.commitTs <= e.readTs
      ensures Logged(s'.log[..i], x.commitTs) || x.commitTs in s'.failed
    {
      LoggedIsCommitted(s, e.commitTs);
      assert e in Entries(s.history);
      assert x in Entries(s.history);
    }
  }

  lemma ClosedAppend(s: State, id: nat)
    requires OracleOk(s) && HistoryOk(s) && LogComplete(s) && LogClosed(s) && Enabled(s, AppendRecord(id))
    ensures LogClosed(Do(s, AppendRecord(id)))
  {
    var s' := Do(s, AppendRecord(id));
    var r := Record(s.txns[id].phase.ts, s.txns[id].writes);
    forall i, e, x | 0 <= i < |s'.log| && e in Entries(s'.history) && e.commitTs == s'.log[i].commitTs
                     && x in Entries(s'.history) && x.commitTs <= e.readTs
      ensures Logged(s'.log[..i], x.commitTs) || x.commitTs in s'.failed
    {
      LoggedPushed(s.log, r, x.commitTs);
      if i == |s.log| {
        VisibleIsLogged(s, x);
        assert s'.log[..i] == s.log;
      }
    }
  }

  lemma ClosedCrash(s: State, keep: nat)
    requires LogShape(s) && LogClosed(s) && s.durable && keep <= |s.log|
    ensures LogClosed(DoCrash(s, keep))
  {
    var s' := DoCrash(s, keep);
    RestrictEntries(s.history, TsOf(s'.log));
    forall i, e, x | 0 <= i < |s'.log| && e in Entries(s'.history) && e.commitTs == s'.log[i].commitTs
                     && x in Entries(s'.history) && x.commitTs <= e.readTs
      ensures Logged(s'.log[..i], x.commitTs)
    {
      SurvivorLogged(s, keep, i, e, x);
    }
  }

  lemma SurvivorLogged(s: State, keep: nat, i: nat, e: Committed, x: Committed)
    requires LogShape(s) && LogClosed(s) && s.durable && i < keep <= |s.log|
    requires e in Entries(s.history) && e.commitTs == s.log[i].commitTs
    requires x in Entries(s.history) && x.commitTs <= e.readTs && x.commitTs in TsOf(s.log[..keep])
    ensures Logged(s.log[..keep][..i], x.commitTs)
  {
    assert s.log[..keep][..i] == s.log[..i];
    var j :| 0 <= j < keep && s.log[..keep][j].commitTs == x.commitTs;
    assert s.log[j].commitTs == x.commitTs;
    assert Logged(s.log, x.commitTs);
  }

  lemma ClosedSame(s: State, s': State)
    requires LogClosed(s) && s'.log == s.log && s'.history == s.history && s'.durable == s.durable
    requires s.failed <= s'.failed
    ensures LogClosed(s')
  {
  }

  lemma ClosedQuiet(s: State, step: Step)
    requires LogClosed(s) && Enabled(s, step) && !TouchesLog(step)
    ensures LogClosed(Do(s, step))
  {
    LogFrame(s, step);
    ClosedSame(s, Do(s, step));
  }

  lemma ClosedStep(s: State, step: Step)
    requires OracleOk(s) && HistoryOk(s) && PhasesOk(s) && LogShape(s) && LogComplete(s) && LogClosed(s)
    requires Enabled(s, step)
    ensures LogClosed(Do(s, step))
  {
    if !TouchesLog(step) {
      ClosedQuiet(s, step);
    } else {
      match step
      case TryCommit(id) => ClosedTry(s, id);
      case AppendRecord(id) => ClosedAppend(s, id);
      case Sync(id, upTo) => ClosedSame(s, Do(s, step));
      case AppendFail(id) => ClosedSame(s, Do(s, step));
      case Crash(keep) => ClosedCrash(s, keep);
    }
  }
}
