// The committed writers of a run, taken one at a time in the order of their
// `try_commit` critical sections, explain everything the serializable ones read and
// the state they left; and that order respects real time.

module Serializability {
  import opened Types
  import opened StoreSpec
  import opened History
  import opened Protocol
  import opened ProtocolInv
  import opened Reach
  import opened Isolation
  import opened SerialOrders
  import opened AnySerialOrder
  import opened Durability

  // Serial execution in apply order reproduces every value a serializable writer read,
  // in any run that has not lost visible commits to failed appends.
  lemma CommitOrderIsSerial(s: State)
    requires Reachable(s) && !s.lost
    ensures Reproduces(s.history)
  {
    ReachableInv(s);
    ApplyOrderIsSerial(s.history);
  }

  // In any state at all: exactly if every serializable writer's snapshot still shows what
  // it read.
  lemma CommitOrderIsSerialExactly(s: State)
    requires Reachable(s)
    ensures Reproduces(s.history)
       <==> forall e :: e in Entries(s.history) && e.serializable ==> ReadsAgree(s.history, e)
  {
    ReachableInv(s);
    if !s.lost {
      WeakenFaithful(s.history);
    }
    ReproducesExactly(s.history);
  }

  // It is serial in every run in memory, and in every durable run whose appends succeed,
  // with any number of crashes and reopenings.
  lemma RunsAreSerial(durable: bool, steps: seq<Step>)
    requires Exec(Init(durable), steps).Some? && (durable ==> AppendsSucceed(steps))
    ensures Reproduces(Exec(Init(durable), steps).value.history)
  {
    if !durable {
      MemoryRun(steps);
    }
    CleanRun(durable, steps);
    assert Reachable(Exec(Init(durable), steps).value);
    CommitOrderIsSerial(Exec(Init(durable), steps).value);
  }

  // After a crash that may have lost visible commits, the survivors are serial exactly
  // if every serializable one has read, of each key, the newest surviving value of its
  // snapshot.
  lemma CrashKeepsSerial(s: State, keep: nat)
    requires Reachable(s) && Enabled(s, Crash(keep))
    ensures var kept := TsOf(s.log[..keep]);
            Reproduces(Do(s, Crash(keep)).history) <==>
            forall e :: e in Entries(s.history) && e.commitTs in kept && e.serializable ==>
              ReadsSurvive(s.history, kept, e)
  {
    ReachableInv(s);
    SurvivorsReproduce(s.history, !s.lost, TsOf(s.log[..keep]));
  }

  // ... and ends in the state the store holds: its newest version of every key.
  lemma SerialStateIsNewest(s: State, k: Key)
    requires Reachable(s)
    ensures StoreRead(s, k, s.nextTs) == Lookup(SerialState(s.history), k)
  {
    ReachableInv(s);
    WatermarkBelowNext(s);
    StoreAgrees(s, k, s.nextTs);
    WholeRunShown(s.history, !s.lost, s.nextTs, k);
  }

  ghost predicate CommittedId(h: History, id: nat) {
    exists e :: e in Entries(h) && e.id == id
  }

  // No transaction of `early` follows one outside it.
  ghost predicate Earlier(h: History, early: iset<nat>) {
    match h
    case Start => true
    case Commit(p, e) =>
      Earlier(p, early) && (e.id in early ==> forall x :: x in Entries(p) ==> x.id in early)
  }

  ghost function CommittedIds(h: History): iset<nat> {
    iset id | CommittedId(h, id)
  }

  lemma {:induction false} AllEarlier(h: History, early: iset<nat>)
    requires forall x :: x in Entries(h) ==> x.id in early
    ensures Earlier(h, early)
  {
    match h
    case Start =>
    case Commit(p, e) => AllEarlier(p, early);
  }

  lemma {:induction false} RestrictEarlier(h: History, kept: set<nat>, early: iset<nat>)
    requires Earlier(h, early)
    ensures Earlier(Restrict(h, kept), early)
  {
    match h
    case Start =>
    case Commit(p, e) =>
      RestrictEarlier(p, kept, early);
      RestrictEntries(p, kept);
  }

  lemma EarlierTry(s: State, id: nat, early: iset<nat>)
    requires id in s.txns && s.txns[id].phase.Allocated? && Earlier(s.history, early) && id !in early
    requires forall a :: a in s.txns && PreCommit(s.txns[a].phase) ==> a !in early
    ensures Earlier(DoTryCommit(s, id).history, early)
    ensures forall a :: a in DoTryCommit(s, id).txns && PreCommit(DoTryCommit(s, id).txns[a].phase) ==> a !in early
  {
  }

  lemma EarlierStep(s: State, step: Step, early: iset<nat>)
    requires Enabled(s, step) && Earlier(s.history, early)
    requires forall id :: id in s.txns && PreCommit(s.txns[id].phase) ==> id !in early
    requires s.nextId !in early
    ensures Earlier(Do(s, step).history, early)
    ensures forall id :: id in Do(s, step).txns && PreCommit(Do(s, step).txns[id].phase) ==> id !in early
  {
    if step.TryCommit? {
      EarlierTry(s, step.id, early);
    } else if step.Crash? {
      RestrictEarlier(s.history, TsOf(s.log[..step.keep]), early);
    } else {
      HistoryKept(s, step);
      PreCommitKept(s, step);
    }
  }

  // Not yet through the critical section.
  predicate PreCommit(p: Phase) {
    p.Running? || p.Allocated?
  }

  lemma PreCommitKept(s: State, step: Step)
    requires Enabled(s, step) && !step.TryCommit? && !step.Crash?
    ensures forall id :: id in Do(s, step).txns && PreCommit(Do(s, step).txns[id].phase) ==>
              (id in s.txns && PreCommit(s.txns[id].phase)) || id == s.nextId
  {
  }

  lemma {:induction false} EarlierRun(s: State, steps: seq<Step>)
    requires Inv(s) && Exec(s, steps).Some?
    ensures var s', early := Exec(s, steps).value, CommittedIds(s.history);
            Earlier(s'.history, early)
            && (forall id :: id in s'.txns && PreCommit(s'.txns[id].phase) ==> id !in early)
            && s.nextId <= s'.nextId
  {
    var early := CommittedIds(s.history);
    if steps == [] {
      AllEarlier(s.history, early);
      forall id | id in s.txns && PreCommit(s.txns[id].phase) ensures id !in early {
        assert PhaseOk(s.history, id, s.txns[id]);
      }
    } else {
      var init, last := steps[..|steps| - 1], steps[|steps| - 1];
      ExecSplit(s, steps);
      var m := Exec(s, init).value;
      EarlierRun(s, init);
      RunInv(s, init);
      EarlierStep(m, last, early);
      NextIdGrows(m, last);
    }
  }

  lemma {:induction false} EarlierOrders(h: History, early: iset<nat>, a: Committed, b: Committed)
    requires Earlier(h, early) && a in Entries(h) && b in Entries(h)
    requires a.id in early && b.id !in early
    ensures AppliedBefore(h, a, b)
  {
    var Commit(p, e) := h;
    if b == e {
    } else if a == e {
      assert false;
    } else {
      EarlierOrders(p, early, a, b);
    }
  }

  // Real time: a transaction that had committed when another began comes before it in
  // the serial order, in every later state, also after crashes.
  lemma SerialOrderRespectsRealTime(s: State, steps: seq<Step>, a: Committed, b: Committed)
    requires Reachable(s) && Exec(s, steps).Some?
    requires CommittedId(s.history, a.id) && s.nextId <= b.id
    requires a in Entries(Exec(s, steps).value.history) && b in Entries(Exec(s, steps).value.history)
    ensures AppliedBefore(Exec(s, steps).value.history, a, b)
  {
    ReachableInv(s);
    EarlierRun(s, steps);
    EarlierOrders(Exec(s, steps).value.history, CommittedIds(s.history), a, b);
  }

  // ----- read-only handles -----

  // A live snapshot fits into some serial order of the writers if and only if no
  // serializable writer above it missed a write at or below it.
  lemma SnapshotFitsSomeOrder(s: State, id: nat)
    requires Reachable(s) && id in s.txns
    ensures (exists q, p :: SerialOrderOf(q, s.history) && IsPrefix(p, q)
                            && ShowsPrefix(s.history, s.txns[id].readTs, p))
       <==> !MissedAcross(s.history, s.txns[id].readTs)
  {
    ReachableInv(s);
    SomeOrderExactly(s.history, !s.lost, s.txns[id].readTs);
  }

  ghost function Snapshots(s: State, ids: set<nat>): iset<nat>
    requires ids <= s.txns.Keys
  {
    iset id | id in ids :: s.txns[id].readTs
  }

  // Any live handles fit together into one serial order of the writers if and only if
  // each of them fits into some.
  lemma SnapshotsFitOneOrder(s: State, ids: set<nat>)
    requires Reachable(s) && ids <= s.txns.Keys
    ensures (exists q :: FitInto(s.history, Snapshots(s, ids), q))
       <==> forall id :: id in ids ==> !MissedAcross(s.history, s.txns[id].readTs)
  {
    ReachableInv(s);
    OneOrderExactly(s.history, !s.lost, Snapshots(s, ids));
    assert forall id :: id in ids ==> s.txns[id].readTs in Snapshots(s, ids);
  }

  // At its place in such an order a handle reads what the writers before it leave ...
  lemma SnapshotReadsItsPlace(s: State, id: nat, q: History, p: History, k: Key)
    requires Reachable(s) && id in s.txns && SerialOrderOf(q, s.history)
    requires IsPrefix(p, q) && ShowsPrefix(s.history, s.txns[id].readTs, p)
    ensures StoreRead(s, k, s.txns[id].readTs) == Lookup(SerialState(p), k)
  {
    ReachableInv(s);
    SnapshotIsReplay(s, id, k);
    FittingReads(s.history, !s.lost, s.txns[id].readTs, q, p, k);
  }

  // ... and so does every serializable writer, unless a crash has lost visible commits.
  lemma WritersReadTheirPlace(s: State, q: History, p: History, e: Committed, k: Key)
    requires Reachable(s) && !s.lost && SerialOrderOf(q, s.history) && IsPrefix(Commit(p, e), q)
    requires e.serializable && k in e.observed
    ensures e.observed[k] == Lookup(SerialState(p), k)
  {
    ReachableInv(s);
    ExplainedReads(s.history, q, p, e, k);
  }

  // A live snapshot shows a state of the run in apply order if and only if no commit
  // above it applied before one at or below it; it then fits into that order.
  lemma SnapshotIsSerialState(s: State, id: nat)
    requires Reachable(s) && id in s.txns
    ensures (exists p :: IsPrefix(p, s.history) && ShowsPrefix(s.history, s.txns[id].readTs, p))
       <==> NoneOvertaken(s.history, s.txns[id].readTs)
  {
    ReachableInv(s);
    SerialStateExactly(s.history, !s.lost, s.txns[id].readTs);
  }

  // It then reads every key as the serial run had left it there.
  lemma SnapshotReadsSerialState(s: State, id: nat, p: History, k: Key)
    requires Reachable(s) && id in s.txns
    requires IsPrefix(p, s.history) && ShowsPrefix(s.history, s.txns[id].readTs, p)
    ensures StoreRead(s, k, s.txns[id].readTs) == Lookup(SerialState(p), k)
  {
    ReachableInv(s);
    SnapshotIsReplay(s, id, k);
    ShownIsSerialState(s.history, !s.lost, s.txns[id].readTs, p, k);
  }

  // The history has only grown since `h`, by commits with timestamps from `floor` on.
  ghost predicate GrownFrom(h: History, floor: nat, s: State) {
    && IsPrefix(h, s.history)
    && floor <= s.nextTs
    && (forall e :: e in Entries(s.history) ==> e in Entries(h) || floor <= e.commitTs)
    && (forall id :: id in s.txns && HoldsTs(s.txns[id].phase) ==> floor <= s.txns[id].phase.ts)
  }

  lemma NextTsGrows(s: State, step: Step)
    requires Enabled(s, step) && !step.Crash?
    ensures s.nextTs <= Do(s, step).nextTs
  {
  }

  lemma NewlyHeld(s: State, step: Step, id: nat)
    requires Enabled(s, step) && !step.Crash? && !KeepsTs(step)
    requires id in Do(s, step).txns && HoldsTs(Do(s, step).txns[id].phase)
    ensures Do(s, step).txns[id].phase.ts == s.nextTs
         || (id in s.txns && Do(s, step).txns[id].phase == s.txns[id].phase)
  {
  }

  lemma HeldFrom(s: State, step: Step, floor: nat)
    requires Enabled(s, step) && !step.Crash? && floor <= s.nextTs
    requires forall id :: id in s.txns && HoldsTs(s.txns[id].phase) ==> floor <= s.txns[id].phase.ts
    ensures forall id :: id in Do(s, step).txns && HoldsTs(Do(s, step).txns[id].phase) ==>
              floor <= Do(s, step).txns[id].phase.ts
  {
    forall id | id in Do(s, step).txns && HoldsTs(Do(s, step).txns[id].phase)
      ensures floor <= Do(s, step).txns[id].phase.ts
    {
      if KeepsTs(step) {
        KeepsTsShape(s, step);
      } else {
        NewlyHeld(s, step, id);
      }
    }
  }

  lemma GrownTry(h: History, floor: nat, s: State, id: nat)
    requires GrownFrom(h, floor, s) && id in s.txns && s.txns[id].phase.Allocated?
    ensures GrownFrom(h, floor, DoTryCommit(s, id))
  {
  }

  lemma GrownStep(h: History, floor: nat, s: State, step: Step)
    requires GrownFrom(h, floor, s) && Enabled(s, step) && !step.Crash?
    ensures GrownFrom(h, floor, Do(s, step))
  {
    if step.TryCommit? {
      GrownTry(h, floor, s, step.id);
    } else {
      HistoryKept(s, step);
      NextTsGrows(s, step);
      HeldFrom(s, step, floor);
    }
  }

  // As long as a handle is still there, no crash has cut the history.
  lemma {:induction false} GrownRun(h: History, floor: nat, s: State, steps: seq<Step>, id: nat)
    requires Exec(s, steps).Some? && GrownFrom(h, floor, s) && id < s.nextId
    ensures id in Exec(s, steps).value.txns ==> GrownFrom(h, floor, Exec(s, steps).value)
    ensures s.nextId <= Exec(s, steps).value.nextId
  {
    if steps != [] {
      var init, last := steps[..|steps| - 1], steps[|steps| - 1];
      ExecSplit(s, steps);
      var m := Exec(s, init).value;
      GrownRun(h, floor, s, init, id);
      NextIdGrows(m, last);
      if id in Do(m, last).txns {
        HandleStays(m, last, id);
        GrownStep(h, floor, m, last);
      }
    }
  }

  lemma BeginGrows(s: State, serializable: bool)
    requires HistoryOk(s) && Quiescent(s)
    ensures GrownFrom(s.history, s.nextTs, DoBegin(s, serializable))
  {
  }

  lemma QuiescentBegin(s: State, serializable: bool)
    requires Reachable(s) && Quiescent(s)
    ensures var begun := DoBegin(s, serializable);
            && Inv(begun) && GrownFrom(s.history, s.nextTs, begun) && HistoryOk(s)
            && s.nextId in begun.txns && begun.txns[s.nextId].readTs + 1 == s.nextTs && s.nextId < begun.nextId
  {
    ReachableInv(s);
    QuiescentWatermark(s);
    BeginGrows(s, serializable);
    BeginInv(s, serializable);
  }

  lemma BeginInv(s: State, serializable: bool)
    requires Inv(s)
    ensures Inv(DoBegin(s, serializable))
  {
    StepInv(s, Begin(serializable));
    assert Do(s, Begin(serializable)) == DoBegin(s, serializable);
  }

  // A handle begun with no commit in flight shows, as long as it lives, the state in
  // which the serial run then was.
  lemma QuiescentSnapshotIsSerial(s: State, serializable: bool, steps: seq<Step>)
    requires Reachable(s) && Quiescent(s) && Exec(DoBegin(s, serializable), steps).Some?
    requires s.nextId in Exec(DoBegin(s, serializable), steps).value.txns
    ensures var s' := Exec(DoBegin(s, serializable), steps).value;
            IsPrefix(s.history, s'.history) && ShowsPrefix(s'.history, s'.txns[s.nextId].readTs, s.history)
  {
    QuiescentBegin(s, serializable);
    SnapshotStaysSerial(s, DoBegin(s, serializable), steps);
  }

  lemma SnapshotStaysSerial(s: State, begun: State, steps: seq<Step>)
    requires HistoryOk(s) && Inv(begun) && GrownFrom(s.history, s.nextTs, begun)
    requires s.nextId in begun.txns && begun.txns[s.nextId].readTs + 1 == s.nextTs && s.nextId < begun.nextId
    requires Exec(begun, steps).Some? && s.nextId in Exec(begun, steps).value.txns
    ensures var s' := Exec(begun, steps).value;
            IsPrefix(s.history, s'.history) && ShowsPrefix(s'.history, s'.txns[s.nextId].readTs, s.history)
  {
    var s' := Exec(begun, steps).value;
    ContinuesRun(begun, steps, s.nextId);
    GrownRun(s.history, s.nextTs, begun, steps, s.nextId);
    RunInv(begun, steps);
    SplitAtBegin(s, s', s'.txns[s.nextId].readTs);
    ShowsExactly(s'.history, !s'.lost, s'.txns[s.nextId].readTs, s.history);
  }

  lemma SplitAtBegin(s: State, s': State, r: nat)
    requires HistoryOk(s) && GrownFrom(s.history, s.nextTs, s') && r + 1 == s.nextTs
    ensures SplitsAt(s'.history, r, s.history)
  {
  }

  // ----- timestamp order -----

  // Timestamp order is a serial order too, unless a serializable writer read a key that
  // a commit with a smaller timestamp wrote after it had applied.
  lemma TimestampOrderInRuns(s: State)
    requires Reachable(s)
    ensures TimestampOrderIsSerial(s.history)
       <==> forall e, x, k :: e in Entries(s.history) && x in Entries(s.history) ==> !MissedWrite(s.history, e, x, k)
  {
    ReachableInv(s);
    TimestampOrderExactly(s.history, !s.lost);
  }

  lemma TimestampOrderReadsInRuns(s: State, e: Committed, k: Key)
    requires Reachable(s) && !s.lost && TimestampOrderIsSerial(s.history)
    requires e in Entries(s.history) && e.serializable && k in e.observed
    ensures e.commitTs > 0 && e.observed[k] == Lookup(Replay(s.history, e.commitTs - 1), k)
  {
    ReachableInv(s);
    TimestampOrderReads(s.history, e, k);
  }
}
