// What every step of the protocol keeps, hence what holds in every reachable state.

module ProtocolInv {
  import opened Types
  import opened VersionChain
  import opened StoreSpec
  import opened History
  import opened Watermark
  import opened Protocol

  // ----- the oracle -----

  ghost predicate UniqueHolders(txns: map<nat, Txn>) {
    forall a, b :: a in txns && b in txns && HoldsTs(txns[a].phase) && HoldsTs(txns[b].phase) && a != b
                   ==> txns[a].phase.ts != txns[b].phase.ts
  }

  // The watermark summarises exactly the timestamps reported so far.
  ghost predicate OracleOk(s: State) {
    && s.start < s.nextTs
    && (forall id :: id in s.txns && HoldsTs(s.txns[id].phase) ==> s.start < s.txns[id].phase.ts < s.nextTs)
    && UniqueHolders(s.txns)
    && Exact(s.pending, s.start, Reported(s))
  }

  // An unreported timestamp lies above the watermark.
  lemma HeldAboveWatermark(s: State, id: nat)
    requires OracleOk(s) && id in s.txns && HoldsTs(s.txns[id].phase)
    ensures s.pending.doneUpto < s.txns[id].phase.ts < s.nextTs
  {
    assert Held(s, s.txns[id].phase.ts);
    assert s.txns[id].phase.ts !in Reported(s);
  }

  lemma WatermarkBelowNext(s: State)
    requires OracleOk(s)
    ensures s.pending.doneUpto < s.nextTs
  {
    assert s.pending.doneUpto > s.start ==> s.pending.doneUpto in Reported(s);
  }

  // ----- readers and garbage collection -----

  ghost function LiveAt(txns: map<nat, Txn>, r: nat): set<nat> {
    set id | id in txns && txns[id].readTs == r
  }

  // The registry counts every live handle at its read timestamp, and nothing else.
  ghost predicate ReadersOk(s: State) {
    forall r: nat :: s.readers[r] == |LiveAt(s.txns, r)|
  }

  ghost predicate TxnsOk(s: State) {
    forall id :: id in s.txns ==>
      && id < s.nextId
      && s.maxLow <= s.txns[id].readTs <= s.pending.doneUpto
      && (s.txns[id].serializable ==> s.txns[id].observed.Keys <= s.txns[id].readSet)
  }

  ghost predicate GcOk(s: State) {
    s.maxLow <= s.pending.doneUpto && forall g :: g in s.gcs ==> s.gcs[g] <= s.maxLow
  }

  // ----- the store -----

  ghost predicate ChainsOk(s: State) {
    forall k :: PrunedTo(FullChain(s.history, k), ChainOf(s.chains, k), s.maxLow)
  }

  ghost predicate HistoryOk(s: State) {
    && WellFormed(s.history, !s.lost)
    && (forall e :: e in Entries(s.history) ==>
          e.commitTs < s.nextTs && e.readTs <= s.pending.doneUpto && e.id < s.nextId)
  }

  ghost predicate ObservedOk(s: State) {
    forall id, k :: id in s.txns && k in s.txns[id].observed ==>
      s.txns[id].observed[k] == VisibleValue(FullChain(s.history, k), s.txns[id].readTs)
  }

  predicate IsApplied(p: Phase) {
    p.Applied? || p.Written? || p.Synced? || p.AppendFailed?
  }

  // Where a transaction stands in the history, phase by phase.
  ghost predicate PhaseOk(h: History, id: nat, t: Txn) {
    && (t.phase.Running? || t.phase.Allocated? || t.phase.Rejected? ==>
          forall e :: e in Entries(h) ==> e.id != id)
    && (t.phase.Allocated? || t.phase.Rejected? ==> !HasTs(h, t.phase.ts))
    && (t.phase.Allocated? ==> t.writes != map[])
    && (IsApplied(t.phase) ==> EntryOf(id, t, t.phase.ts) in Entries(h))
  }

  ghost predicate PhasesOk(s: State) {
    forall id :: id in s.txns ==> PhaseOk(s.history, id, s.txns[id])
  }

  // ----- the log -----

  ghost predicate HeldApplied(s: State, ts: nat) {
    exists id :: id in s.txns && s.txns[id].phase == Applied(ts)
  }

  ghost predicate RecordOf(h: History, r: Record) {
    exists e :: e in Entries(h) && e.commitTs == r.commitTs && e.writes == r.writes
  }

  ghost predicate LogShape(s: State) {
    && s.synced <= |s.log|
    && DistinctTs(s.log)
    && (forall i :: 0 <= i < |s.log| ==> RecordOf(s.history, s.log[i]))
    && (!s.durable ==> s.log == [])
    && (forall ts :: ts in s.failed ==> !Logged(s.log, ts) && HasTs(s.history, ts))
  }

  ghost predicate LogPhase(s: State, p: Phase) {
    && s.synced <= |s.log|
    && (p.Applied? ==> !Logged(s.log, p.ts) && p.ts !in s.failed)
    && (p.Written? ==> s.durable && Logged(s.log, p.ts))
    && (p.Synced? ==> s.durable && Logged(s.log[..s.synced], p.ts))
    && (p.AppendFailed? ==> s.durable)
  }

  ghost predicate LogOk(s: State) {
    && LogShape(s)
    && (forall id :: id in s.txns ==> LogPhase(s, s.txns[id].phase))
  }

  // Nothing applied is missing from the log, except what is about to be appended or
  // failed to be.
  ghost predicate LogComplete(s: State) {
    s.durable ==>
      forall e :: e in Entries(s.history) ==>
        Logged(s.log, e.commitTs) || e.commitTs in s.failed || HeldApplied(s, e.commitTs)
  }

  ghost predicate AckedOk(s: State) {
    LogShape(s) &&
    forall ts :: ts in s.acked ==>
      HasTs(s.history, ts) && (s.durable ==> Logged(s.log[..s.synced], ts))
  }

  // A record is preceded in the log by every commit in the snapshot of its transaction.
  ghost predicate LogClosed(s: State) {
    s.durable ==>
      forall i, e, x ::
        0 <= i < |s.log| && e in Entries(s.history) && e.commitTs == s.log[i].commitTs
        && x in Entries(s.history) && x.commitTs <= e.readTs
        ==> Logged(s.log[..i], x.commitTs) || x.commitTs in s.failed
  }

  ghost predicate Inv(s: State) {
    && OracleOk(s) && ReadersOk(s) && TxnsOk(s) && GcOk(s)
    && HistoryOk(s) && PhasesOk(s) && ChainsOk(s) && ObservedOk(s)
    && LogOk(s) && LogComplete(s) && AckedOk(s) && LogClosed(s)
  }

  lemma InitInv(durable: bool)
    ensures Inv(Init(durable))
  {
    var s := Init(durable);
    assert Reported(s) == {};
    assert forall r :: LiveAt(s.txns, r) == {};
  }

  // ----- the oracle's step lemmas -----

  lemma SamePhasesSameReported(s: State, s': State)
    requires s'.start == s.start && s'.nextTs == s.nextTs
    requires forall ts :: Held(s, ts) <==> Held(s', ts)
    ensures Reported(s') == Reported(s)
  {
  }

  // Replacing one transaction by one that holds the same timestamp, if any.
  lemma HeldKept(s: State, s': State, id: nat, t: Txn)
    requires id in s.txns && s'.txns == s.txns[id := t]
    requires HoldsTs(t.phase) == HoldsTs(s.txns[id].phase)
    requires HoldsTs(t.phase) ==> t.phase.ts == s.txns[id].phase.ts
    ensures forall ts :: Held(s, ts) <==> Held(s', ts)
  {
    forall ts ensures Held(s, ts) <==> Held(s', ts) {
      if Held(s, ts) {
        var a :| a in s.txns && HoldsTs(s.txns[a].phase) && s.txns[a].phase.ts == ts;
        assert a in s'.txns;
      }
      if Held(s', ts) {
        var a :| a in s'.txns && HoldsTs(s'.txns[a].phase) && s'.txns[a].phase.ts == ts;
        assert a in s.txns;
      }
    }
  }

  lemma OracleSame(s: State, s': State, id: nat, t: Txn)
    requires OracleOk(s) && id in s.txns && s'.txns == s.txns[id := t]
    requires s'.start == s.start && s'.nextTs == s.nextTs && s'.pending == s.pending
    requires HoldsTs(t.phase) == HoldsTs(s.txns[id].phase)
    requires HoldsTs(t.phase) ==> t.phase.ts == s.txns[id].phase.ts
    ensures OracleOk(s')
  {
    HeldKept(s, s', id, t);
    SamePhasesSameReported(s, s');
  }

  lemma OracleBegin(s: State, serializable: bool)
    requires OracleOk(s) && TxnsOk(s)
    ensures OracleOk(DoBegin(s, serializable))
  {
    var s' := DoBegin(s, serializable);
    forall ts ensures Held(s, ts) <==> Held(s', ts) {
      if Held(s, ts) {
        var a :| a in s.txns && HoldsTs(s.txns[a].phase) && s.txns[a].phase.ts == ts;
        assert a in s'.txns && s'.txns[a] == s.txns[a];
      }
      if Held(s', ts) {
        var a :| a in s'.txns && HoldsTs(s'.txns[a].phase) && s'.txns[a].phase.ts == ts;
        assert a in s.txns;
      }
    }
    SamePhasesSameReported(s, s');
  }

  lemma OracleAlloc(s: State, id: nat)
    requires OracleOk(s) && Enabled(s, Alloc(id))
    ensures OracleOk(Do(s, Alloc(id)))
  {
    var s' := Do(s, Alloc(id));
    WatermarkBelowNext(s);
    assert s'.txns[id].phase == Allocated(s.nextTs);
    forall ts ensures ts in Reported(s') <==> ts in Reported(s) {
      if ts == s.nextTs {
        assert Held(s', ts);
      } else {
        if Held(s, ts) {
          var a :| a in s.txns && HoldsTs(s.txns[a].phase) && s.txns[a].phase.ts == ts;
          assert a in s'.txns && s'.txns[a] == s.txns[a];
        }
        if Held(s', ts) {
          var a :| a in s'.txns && HoldsTs(s'.txns[a].phase) && s'.txns[a].phase.ts == ts;
          assert a in s.txns;
        }
      }
    }
    assert Reported(s') == Reported(s);
  }

  lemma OracleDone(s: State, id: nat)
    requires OracleOk(s) && id in s.txns && HoldsTs(s.txns[id].phase)
    ensures OracleOk(DoCommitDone(s, id))
    ensures s.pending.doneUpto <= DoCommitDone(s, id).pending.doneUpto
  {
    var s' := DoCommitDone(s, id);
    var done := s.txns[id].phase.ts;
    assert Held(s, done);
    forall ts ensures ts in Reported(s') <==> ts in Reported(s) + {done} {
      if Held(s, ts) && ts != done {
        var a :| a in s.txns && HoldsTs(s.txns[a].phase) && s.txns[a].phase.ts == ts;
        assert a in s'.txns && s'.txns[a] == s.txns[a];
      }
      if Held(s', ts) {
        var a :| a in s'.txns && HoldsTs(s'.txns[a].phase) && s'.txns[a].phase.ts == ts;
        assert a in s.txns;
      }
    }
    assert Reported(s') == Reported(s) + {done};
    ReportExact(s.pending, s.start, Reported(s), done);
  }

  lemma OracleEndReader(s: State, id: nat)
    requires OracleOk(s) && id in s.txns && s.txns[id].phase.Finished?
    ensures OracleOk(DoEndReader(s, id))
  {
    var s' := DoEndReader(s, id);
    forall ts ensures Held(s, ts) <==> Held(s', ts) {
      if Held(s, ts) {
        var a :| a in s.txns && HoldsTs(s.txns[a].phase) && s.txns[a].phase.ts == ts;
        assert a in s'.txns;
      }
      if Held(s', ts) {
        var a :| a in s'.txns && HoldsTs(s'.txns[a].phase) && s'.txns[a].phase.ts == ts;
        assert a in s.txns;
      }
    }
    SamePhasesSameReported(s, s');
  }

  lemma OracleCrash(s: State, keep: nat)
    requires keep <= |s.log|
    ensures OracleOk(DoCrash(s, keep))
  {
    assert Reported(DoCrash(s, keep)) == {};
  }

  // Steps that replace one handle and leave the timestamp it holds alone.
  predicate KeepsTs(step: Step) {
    step.Read? || step.Write? || step.Finish? || step.TryCommit? || step.AppendRecord? || step.Sync?
    || step.AppendFail?
  }

  lemma KeepsTsShape(s: State, step: Step)
    requires KeepsTs(step) && Enabled(s, step)
    ensures var s', id := Do(s, step), step.id;
            id in s.txns && id in s'.txns && s'.txns == s.txns[id := s'.txns[id]]
            && HoldsTs(s'.txns[id].phase) == HoldsTs(s.txns[id].phase)
            && (HoldsTs(s'.txns[id].phase) ==> s'.txns[id].phase.ts == s.txns[id].phase.ts)
            && s'.txns[id].readTs == s.txns[id].readTs
            && s'.txns[id].serializable == s.txns[id].serializable
  {
    if step.TryCommit? {
      assert Do(s, step) == DoTryCommit(s, step.id);
    } else if step.Read? {
      assert Do(s, step) == DoRead(s, step.id, step.key);
    } else if step.Write? {
      assert Do(s, step).txns[step.id].phase == s.txns[step.id].phase;
    } else {
      assert Do(s, step).txns == SetPhase(s, step.id, Do(s, step).txns[step.id].phase).txns;
    }
  }

  lemma KeepsTsFrame(s: State, step: Step)
    requires KeepsTs(step) && Enabled(s, step)
    ensures var s' := Do(s, step);
            s'.start == s.start && s'.nextTs == s.nextTs && s'.pending == s.pending && s'.readers == s.readers
            && s'.nextId == s.nextId && s'.gcs == s.gcs && s'.maxLow == s.maxLow && s'.durable == s.durable
            && s'.acked == s.acked && s'.lost == s.lost
  {
  }

  lemma OracleStep(s: State, step: Step)
    requires OracleOk(s) && TxnsOk(s) && Enabled(s, step)
    ensures OracleOk(Do(s, step))
    ensures !step.Crash? ==> s.pending.doneUpto <= Do(s, step).pending.doneUpto && s.nextTs <= Do(s, step).nextTs
  {
    var s' := Do(s, step);
    if KeepsTs(step) {
      KeepsTsShape(s, step);
      KeepsTsFrame(s, step);
      OracleSame(s, s', step.id, s'.txns[step.id]);
    } else {
      match step
      case Begin(ser) => OracleBegin(s, ser);
      case Alloc(id) => OracleAlloc(s, id);
      case CommitDone(id) => OracleDone(s, id);
      case EndReader(id) => OracleEndReader(s, id);
      case GcBegin(g) => SamePhasesSameReported(s, s');
      case GcPrune(g, keys) => SamePhasesSameReported(s, s');
      case GcEnd(g) => SamePhasesSameReported(s, s');
      case Crash(keep) => OracleCrash(s, keep);
    }
  }

  // ----- readers and garbage collection -----

  lemma ReadersSame(s: State, s': State, id: nat)
    requires ReadersOk(s) && s'.readers == s.readers
    requires id in s.txns && id in s'.txns && s'.txns == s.txns[id := s'.txns[id]]
    requires s'.txns[id].readTs == s.txns[id].readTs
    ensures ReadersOk(s')
  {
    forall r: nat ensures s'.readers[r] == |LiveAt(s'.txns, r)| {
      assert LiveAt(s'.txns, r) == LiveAt(s.txns, r);
    }
  }

  lemma ReadersBegin(s: State, serializable: bool)
    requires ReadersOk(s) && s.nextId !in s.txns
    ensures ReadersOk(DoBegin(s, serializable))
  {
    var s' := DoBegin(s, serializable);
    forall r: nat ensures s'.readers[r] == |LiveAt(s'.txns, r)| {
      if r == s.pending.doneUpto {
        assert LiveAt(s'.txns, r) == LiveAt(s.txns, r) + {s.nextId};
      } else {
        assert LiveAt(s'.txns, r) == LiveAt(s.txns, r);
      }
    }
  }

  lemma ReadersEnd(s: State, id: nat)
    requires ReadersOk(s) && id in s.txns
    ensures ReadersOk(DoEndReader(s, id))
  {
    var s' := DoEndReader(s, id);
    var gone := s.txns[id].readTs;
    forall r: nat ensures s'.readers[r] == |LiveAt(s'.txns, r)| {
      if r == gone {
        assert id in LiveAt(s.txns, r);
        assert LiveAt(s'.txns, r) == LiveAt(s.txns, r) - {id};
      } else {
        assert LiveAt(s'.txns, r) == LiveAt(s.txns, r);
      }
    }
  }

  lemma ReadersStep(s: State, step: Step)
    requires ReadersOk(s) && TxnsOk(s) && Enabled(s, step)
    ensures ReadersOk(Do(s, step))
  {
    var s' := Do(s, step);
    if KeepsTs(step) {
      KeepsTsShape(s, step);
      KeepsTsFrame(s, step);
      ReadersSame(s, s', step.id);
    } else {
      match step
      case Begin(ser) => ReadersBegin(s, ser);
      case Alloc(id) => ReadersSame(s, s', id);
      case CommitDone(id) => ReadersSame(s, s', id);
      case EndReader(id) => ReadersEnd(s, id);
      case GcBegin(g) =>
      case GcPrune(g, keys) =>
      case GcEnd(g) =>
      case Crash(keep) => assert forall r :: LiveAt(s'.txns, r) == {};
    }
  }

  lemma LiveIsRegistered(s: State, id: nat)
    requires ReadersOk(s) && id in s.txns
    ensures s.txns[id].readTs in s.readers
  {
    assert id in LiveAt(s.txns, s.txns[id].readTs);
  }

  lemma RegisteredIsLive(s: State, r: nat)
    requires ReadersOk(s) && r in s.readers
    ensures exists id :: id in s.txns && s.txns[id].readTs == r
  {
    assert LiveAt(s.txns, r) != {};
    var id :| id in LiveAt(s.txns, r);
  }

  // The low watermark is never above a reader, live or still to come.
  lemma LowBelowReaders(s: State)
    requires ReadersOk(s) && TxnsOk(s)
    ensures var low := LowWatermark(s.readers, s.pending.doneUpto);
            low <= s.pending.doneUpto && forall id :: id in s.txns ==> low <= s.txns[id].readTs
  {
    var low := LowWatermark(s.readers, s.pending.doneUpto);
    if s.readers != multiset{} {
      RegisteredIsLive(s, low);
    }
    forall id | id in s.txns ensures low <= s.txns[id].readTs {
      LiveIsRegistered(s, id);
    }
  }

  lemma TxnsSame(s: State, s': State, id: nat)
    requires TxnsOk(s) && GcOk(s)
    requires id in s.txns && id in s'.txns && s'.txns == s.txns[id := s'.txns[id]]
    requires s'.txns[id].readTs == s.txns[id].readTs
    requires s'.txns[id].serializable ==> s'.txns[id].observed.Keys <= s'.txns[id].readSet
    requires s'.nextId == s.nextId && s'.gcs == s.gcs && s'.maxLow == s.maxLow
    requires s.pending.doneUpto <= s'.pending.doneUpto
    ensures TxnsOk(s') && GcOk(s')
  {
  }

  lemma TxnsStep(s: State, step: Step)
    requires OracleOk(s) && ReadersOk(s) && TxnsOk(s) && GcOk(s) && Enabled(s, step)
    ensures TxnsOk(Do(s, step)) && GcOk(Do(s, step))
  {
    var s' := Do(s, step);
    if KeepsTs(step) {
      KeepsTsShape(s, step);
      KeepsTsFrame(s, step);
      KeepsReads(s, step);
      TxnsSame(s, s', step.id);
    } else {
      match step
      case Begin(ser) =>
      case Alloc(id) => TxnsSame(s, s', id);
      case CommitDone(id) => OracleDone(s, id); TxnsSame(s, s', id);
      case EndReader(id) =>
      case GcBegin(g) => LowBelowReaders(s);
      case GcPrune(g, keys) =>
      case GcEnd(g) =>
      case Crash(keep) =>
    }
  }

  lemma KeepsReads(s: State, step: Step)
    requires KeepsTs(step) && Enabled(s, step)
    ensures var t, t' := s.txns[step.id], Do(s, step).txns[step.id];
            if step.Read? then
              t'.observed.Keys == t.observed.Keys + {step.key}
              && t'.readSet == if t.serializable then t.readSet + {step.key} else t.readSet
            else t'.observed == t.observed && t'.readSet == t.readSet
  {
  }

  // ----- commits and the history -----

  // Every step but these two leaves the history as it is.
  predicate KeepsHistory(step: Step) {
    !step.TryCommit? && !step.Crash?
  }

  lemma HistoryKept(s: State, step: Step)
    requires KeepsHistory(step) && Enabled(s, step)
    ensures Do(s, step).history == s.history && Do(s, step).lost == s.lost
    ensures s.nextId <= Do(s, step).nextId
  {
  }

  // The store's validation, made on pruned chains and against the snapshot of a
  // registered reader, admits the transaction to the whole history.
  lemma ValidatedIsAdmitted(s: State, id: nat)
    requires OracleOk(s) && TxnsOk(s) && HistoryOk(s) && PhasesOk(s) && ChainsOk(s) && ObservedOk(s)
    requires id in s.txns && s.txns[id].phase.Allocated? && CanCommit(s, s.txns[id])
    ensures Admitted(s.history, EntryOf(id, s.txns[id], s.txns[id].phase.ts), !s.lost)
  {
    var t := s.txns[id];
    var e := EntryOf(id, t, t.phase.ts);
    HeldAboveWatermark(s, id);
    forall k | k in e.writes || k in e.readSet ensures !NewerThan(FullChain(s.history, k), e.readTs) {
      ChainAscends(s.history, !s.lost, k);
      PrunedReadsSame(FullChain(s.history, k), ChainOf(s.chains, k), s.maxLow, e.readTs);
    }
  }

  lemma HistoryTry(s: State, id: nat)
    requires OracleOk(s) && TxnsOk(s) && HistoryOk(s) && PhasesOk(s) && ChainsOk(s) && ObservedOk(s)
    requires id in s.txns && s.txns[id].phase.Allocated?
    ensures HistoryOk(DoTryCommit(s, id))
  {
    if CanCommit(s, s.txns[id]) {
      ValidatedIsAdmitted(s, id);
      HeldAboveWatermark(s, id);
    }
  }

  lemma SurvivorsClosed(s: State, keep: nat)
    requires HistoryOk(s) && keep <= |s.log| && !LosesVisible(s, keep)
    ensures CausallyClosed(s.history, TsOf(s.log[..keep]))
  {
    var log := s.log[..keep];
    forall e, x | e in Entries(s.history) && e.commitTs in TsOf(log) && x in Entries(s.history)
                  && x.commitTs <= e.readTs
      ensures x.commitTs in TsOf(log)
    {
      assert Logged(log, x.commitTs);
    }
  }

  lemma HistoryCrash(s: State, keep: nat)
    requires HistoryOk(s) && keep <= |s.log|
    ensures HistoryOk(DoCrash(s, keep))
  {
    var log := s.log[..keep];
    var s' := DoCrash(s, keep);
    if !s'.lost {
      SurvivorsClosed(s, keep);
    }
    RestrictWellFormed(s.history, !s.lost, TsOf(log), !s'.lost);
    RestrictEntries(s.history, TsOf(log));
    ReadsBeforeCommit(s.history, !s.lost);
    HighestBounds(log);
  }

  lemma HistorySame(s: State, s': State)
    requires HistoryOk(s) && s'.history == s.history && s'.lost == s.lost
    requires s.nextTs <= s'.nextTs && s.pending.doneUpto <= s'.pending.doneUpto && s.nextId <= s'.nextId
    ensures HistoryOk(s')
  {
  }

  lemma HistoryKeeps(s: State, step: Step)
    requires OracleOk(s) && TxnsOk(s) && HistoryOk(s) && KeepsHistory(step) && Enabled(s, step)
    ensures HistoryOk(Do(s, step))
  {
    HistoryKept(s, step);
    OracleStep(s, step);
    HistorySame(s, Do(s, step));
  }

  lemma HistoryStep(s: State, step: Step)
    requires OracleOk(s) && TxnsOk(s) && HistoryOk(s) && PhasesOk(s) && ChainsOk(s) && ObservedOk(s)
    requires Enabled(s, step)
    ensures HistoryOk(Do(s, step))
  {
    if step.TryCommit? {
      HistoryTry(s, step.id);
    } else if step.Crash? {
      HistoryCrash(s, step.keep);
    } else {
      HistoryKeeps(s, step);
    }
  }

  // ----- where each transaction stands -----

  lemma PhasesSame(s: State, s': State, id: nat)
    requires PhasesOk(s) && s'.history == s.history && id in s'.txns && s'.txns == s.txns[id := s'.txns[id]]
    requires PhaseOk(s.history, id, s'.txns[id])
    ensures PhasesOk(s')
  {
  }

  lemma PhasesTry(s: State, id: nat)
    requires OracleOk(s) && PhasesOk(s) && id in s.txns && s.txns[id].phase.Allocated?
    ensures PhasesOk(DoTryCommit(s, id))
  {
    var s' := DoTryCommit(s, id);
    var e := EntryOf(id, s.txns[id], s.txns[id].phase.ts);
    forall a | a in s'.txns ensures PhaseOk(s'.history, a, s'.txns[a]) {
      assert a in s.txns && PhaseOk(s.history, a, s.txns[a]);
      if a != id && s.txns[a].phase.Allocated? {
        assert HoldsTs(s.txns[a].phase) && HoldsTs(s.txns[id].phase);
      }
    }
  }

  lemma PhasesAlloc(s: State, id: nat)
    requires HistoryOk(s) && PhasesOk(s) && id in s.txns && s.txns[id].phase.Running?
    requires s.txns[id].writes != map[]
    ensures PhaseOk(s.history, id, s.txns[id].(phase := Allocated(s.nextTs)))
  {
    assert PhaseOk(s.history, id, s.txns[id]);
  }

  lemma PhasesKeep(s: State, step: Step)
    requires PhasesOk(s) && KeepsTs(step) && !step.TryCommit? && Enabled(s, step)
    ensures PhasesOk(Do(s, step))
  {
    var s' := Do(s, step);
    KeepsTsShape(s, step);
    HistoryKept(s, step);
    assert PhaseOk(s.history, step.id, s.txns[step.id]);
    PhasesSame(s, s', step.id);
  }

  lemma PhasesStep(s: State, step: Step)
    requires OracleOk(s) && HistoryOk(s) && PhasesOk(s) && Enabled(s, step)
    ensures PhasesOk(Do(s, step))
  {
    var s' := Do(s, step);
    if step.TryCommit? {
      PhasesTry(s, step.id);
    } else if KeepsTs(step) {
      PhasesKeep(s, step);
    } else {
      match step
      case Begin(_) => PhasesSame(s, s', s.nextId);
      case Alloc(id) => PhasesAlloc(s, id); PhasesSame(s, s', id);
      case CommitDone(id) => PhasesSame(s, s', id);
      case _ =>
    }
  }

  // ----- the chains -----

  // What the store holds for a key agrees with the whole history at every snapshot
  // that is live or still to come.
  lemma StoreAgrees(s: State, k: Key, r: nat)
    requires HistoryOk(s) && ChainsOk(s) && s.maxLow <= r
    ensures VisibleValue(ChainOf(s.chains, k), r) == VisibleValue(FullChain(s.history, k), r)
    ensures NewerThan(ChainOf(s.chains, k), r) == NewerThan(FullChain(s.history, k), r)
  {
    ChainAscends(s.history, !s.lost, k);
    PrunedReadsSame(FullChain(s.history, k), ChainOf(s.chains, k), s.maxLow, r);
  }

  lemma ChainsTry(s: State, id: nat)
    requires ChainsOk(s) && id in s.txns && s.txns[id].phase.Allocated?
    ensures ChainsOk(DoTryCommit(s, id))
  {
    var t := s.txns[id];
    var s' := DoTryCommit(s, id);
    if CanCommit(s, t) {
      forall k ensures PrunedTo(FullChain(s'.history, k), ChainOf(s'.chains, k), s'.maxLow) {
        ChainOfApplied(s.chains, t.phase.ts, t.writes, k);
        if k in t.writes {
          PrunedAfterPush(FullChain(s.history, k), ChainOf(s.chains, k), s.maxLow,
                          Version(t.phase.ts, t.writes[k]));
        }
      }
    }
  }

  lemma ChainsPrune(s: State, g: nat, keys: set<Key>)
    requires ChainsOk(s) && GcOk(s) && g in s.gcs
    ensures ChainsOk(s.(chains := PruneKeys(s.chains, s.gcs[g], keys)))
  {
    var pruned := PruneKeys(s.chains, s.gcs[g], keys);
    forall k ensures PrunedTo(FullChain(s.history, k), ChainOf(pruned, k), s.maxLow) {
      ChainOfPruned(s.chains, s.gcs[g], keys, k);
      if k in keys {
        PrunedAgain(FullChain(s.history, k), ChainOf(s.chains, k), s.maxLow, s.gcs[g]);
      }
    }
  }

  // Recovery rebuilds, key by key, exactly the chain of the surviving commits.
  lemma RecoveredIsRestricted(s: State, keep: nat, k: Key)
    requires HistoryOk(s) && LogShape(s) && keep <= |s.log|
    ensures ChainOf(Recover(s.log[..keep]), k) == FullChain(Restrict(s.history, TsOf(s.log[..keep])), k)
  {
    var log := s.log[..keep];
    var rebuilt, survived := ChainOf(Recover(log), k), FullChain(Restrict(s.history, TsOf(log)), k);
    RecoveredChain(log, k);
    RestrictWellFormed(s.history, !s.lost, TsOf(log), false);
    ChainAscends(Restrict(s.history, TsOf(log)), false, k);
    forall v ensures v in rebuilt <==> v in survived {
      RestrictChain(s.history, TsOf(log), k, v);
      ChainHolds(s.history, k, v);
      LogHolds(s, keep, k, v);
    }
    EqualAscending(rebuilt, survived);
  }

  lemma LogHolds(s: State, keep: nat, k: Key, v: Version)
    requires HistoryOk(s) && LogShape(s) && keep <= |s.log|
    ensures (exists r :: r in s.log[..keep] && k in r.writes && v == Version(r.commitTs, r.writes[k])) <==>
            (v.commitTs in TsOf(s.log[..keep]) &&
             exists e :: e in Entries(s.history) && k in e.writes && v == Version(e.commitTs, e.writes[k]))
  {
    var log := s.log[..keep];
    if r :| r in log && k in r.writes && v == Version(r.commitTs, r.writes[k]) {
      var i :| 0 <= i < |log| && log[i] == r;
      assert RecordOf(s.history, s.log[i]);
    }
    if v.commitTs in TsOf(log) {
      var i :| 0 <= i < |log| && log[i].commitTs == v.commitTs;
      assert RecordOf(s.history, s.log[i]);
      var e :| e in Entries(s.history) && e.commitTs == log[i].commitTs && e.writes == log[i].writes;
      assert log[i] in log;
      if x :| x in Entries(s.history) && k in x.writes && v == Version(x.commitTs, x.writes[k]) {
        UniqueTs(s.history, !s.lost, e, x);
      }
    }
  }

  lemma ChainsCrash(s: State, keep: nat)
    requires HistoryOk(s) && LogShape(s) && keep <= |s.log|
    ensures ChainsOk(DoCrash(s, keep))
  {
    var s' := DoCrash(s, keep);
    forall k ensures PrunedTo(FullChain(s'.history, k), ChainOf(s'.chains, k), s'.maxLow) {
      RecoveredIsRestricted(s, keep, k);
      var full := FullChain(s'.history, k);
      assert full[0..] == full;
    }
  }

  lemma ChainsSame(s: State, s': State)
    requires ChainsOk(s) && s'.chains == s.chains && s'.history == s.history && s.maxLow <= s'.maxLow
    ensures ChainsOk(s')
  {
    forall k ensures PrunedTo(FullChain(s'.history, k), ChainOf(s'.chains, k), s'.maxLow) {
      PrunedMonotone(FullChain(s.history, k), ChainOf(s.chains, k), s.maxLow, s'.maxLow);
    }
  }

  lemma ChainsKept(s: State, step: Step)
    requires KeepsTs(step) && !step.TryCommit? && Enabled(s, step)
    ensures Do(s, step).chains == s.chains && Do(s, step).maxLow == s.maxLow && Do(s, step).history == s.history
  {
  }

  lemma ChainsStep(s: State, step: Step)
    requires GcOk(s) && HistoryOk(s) && ChainsOk(s) && LogShape(s) && Enabled(s, step)
    ensures ChainsOk(Do(s, step))
  {
    var s' := Do(s, step);
    if step.TryCommit? {
      ChainsTry(s, step.id);
    } else if KeepsTs(step) {
      ChainsKept(s, step);
      ChainsSame(s, s');
    } else {
      match step
      case Begin(_) => ChainsSame(s, s');
      case Alloc(_) => ChainsSame(s, s');
      case CommitDone(_) => ChainsSame(s, s');
      case EndReader(_) => ChainsSame(s, s');
      case GcBegin(_) => ChainsSame(s, s');
      case GcPrune(g, keys) => ChainsPrune(s, g, keys);
      case GcEnd(_) => ChainsSame(s, s');
      case Crash(keep) => ChainsCrash(s, keep);
    }
  }

  // ----- the values read -----

  ghost predicate SameRead(h: History, h': History, k: Key, r: nat) {
    VisibleValue(FullChain(h', k), r) == VisibleValue(FullChain(h, k), r)
  }

  // A commit leaves what every live snapshot reads as it was.
  lemma CommitInvisibleToLive(s: State, id: nat, reader: nat, k: Key)
    requires OracleOk(s) && TxnsOk(s) && HistoryOk(s) && PhasesOk(s) && ChainsOk(s) && ObservedOk(s)
    requires id in s.txns && s.txns[id].phase.Allocated? && CanCommit(s, s.txns[id]) && reader in s.txns
    ensures SameRead(s.history, DoTryCommit(s, id).history, k, s.txns[reader].readTs)
  {
    ValidatedIsAdmitted(s, id);
    HeldAboveWatermark(s, id);
    LaterCommitInvisible(s.history, EntryOf(id, s.txns[id], s.txns[id].phase.ts), !s.lost, k,
                         s.txns[reader].readTs);
  }

  lemma ObservedTry(s: State, id: nat)
    requires OracleOk(s) && TxnsOk(s) && HistoryOk(s) && PhasesOk(s) && ChainsOk(s) && ObservedOk(s)
    requires id in s.txns && s.txns[id].phase.Allocated?
    ensures ObservedOk(DoTryCommit(s, id))
  {
    var s' := DoTryCommit(s, id);
    forall reader, k | reader in s.txns ensures SameRead(s.history, s'.history, k, s.txns[reader].readTs) {
      if CanCommit(s, s.txns[id]) {
        CommitInvisibleToLive(s, id, reader, k);
      }
    }
    ObservedAfter(s, s', id);
  }

  lemma ObservedAfter(s: State, s': State, id: nat)
    requires ObservedOk(s) && id in s.txns && id in s'.txns && s'.txns == s.txns[id := s'.txns[id]]
    requires s'.txns[id].observed == s.txns[id].observed && s'.txns[id].readTs == s.txns[id].readTs
    requires forall a, k :: a in s.txns ==> SameRead(s.history, s'.history, k, s.txns[a].readTs)
    ensures ObservedOk(s')
  {
    forall a, k | a in s'.txns && k in s'.txns[a].observed
      ensures s'.txns[a].observed[k] == VisibleValue(FullChain(s'.history, k), s'.txns[a].readTs)
    {
      assert a in s.txns && k in s.txns[a].observed;
      assert SameRead(s.history, s'.history, k, s.txns[a].readTs);
    }
  }

  lemma ObservedRead(s: State, id: nat, k: Key)
    requires TxnsOk(s) && HistoryOk(s) && ChainsOk(s) && ObservedOk(s) && id in s.txns
    ensures ObservedOk(DoRead(s, id, k))
  {
    StoreAgrees(s, k, s.txns[id].readTs);
  }

  lemma ObservedKept(s: State, step: Step)
    requires KeepsHistory(step) && !step.Read? && ObservedOk(s) && Enabled(s, step)
    ensures ObservedOk(Do(s, step))
  {
    HistoryKept(s, step);
    if KeepsTs(step) {
      KeepsTsShape(s, step);
      KeepsReads(s, step);
    }
  }

  lemma ObservedStep(s: State, step: Step)
    requires OracleOk(s) && TxnsOk(s) && HistoryOk(s) && PhasesOk(s) && ChainsOk(s) && ObservedOk(s)
    requires Enabled(s, step)
    ensures ObservedOk(Do(s, step))
  {
    if step.TryCommit? {
      ObservedTry(s, step.id);
    } else if step.Read? {
      ObservedRead(s, step.id, step.key);
    } else if step.Crash? {
    } else {
      ObservedKept(s, step);
    }
  }
}
