// Runs that mark the limits of the theorems: each is a property one might expect of
// the database, or that its documentation promises, and that a short run refutes.

module Witnesses {
  import opened Types
  import opened VersionChain
  import opened StoreSpec
  import opened History
  import opened Watermark
  import opened Protocol
  import opened Reach
  import opened Isolation
  import opened SerialOrders
  import opened AnySerialOrder
  import opened Serializability
  import opened Ledger

  const X: Key := [0]
  const Y: Key := [1]
  const ONE: Value := Some([1])

  // The first commit of a run that writes X without reading.
  const PlainWrite: Committed := Committed(0, false, 0, 1, map[], {}, map[X := ONE])

  lemma Take(s: State, step: Step) returns (t: State)
    requires Reachable(s) && Enabled(s, step)
    ensures Reachable(t) && t == Do(s, step)
  {
    ReachableStep(s, step);
    t := Do(s, step);
  }

  lemma Fresh(durable: bool) returns (s: State)
    ensures Reachable(s) && s == Init(durable)
  {
    s := Init(durable);
    assert Exec(Init(durable), []) == Some(s);
  }

  ghost predicate Start2(s: State, a: Txn, b: Txn) {
    Reachable(s) && s.txns == map[0 := a, 1 := b]
    && s.chains == map[] && s.history == Start && s.nextId == 2
    && s.pending == Pending(0, {}) && !s.durable && s.acked == {}
  }

  lemma TwoBegun(serializable: bool) returns (s: State)
    ensures Start2(s, Txn(serializable, 0, map[], {}, map[], Running), Txn(serializable, 0, map[], {}, map[], Running))
    ensures s.nextTs == 1
  {
    s := Fresh(false);
    s := Take(s, Begin(serializable));
    s := Take(s, Begin(serializable));
  }

  lemma Buffered(s: State, a: Txn, b: Txn, id: nat, k: Key) returns (t: State)
    requires Start2(s, a, b) && id < 2 && (if id == 0 then a else b).phase.Running?
    ensures var w := (if id == 0 then a else b);
            var w' := w.(writes := w.writes[k := ONE]);
            Start2(t, if id == 0 then w' else a, if id == 0 then b else w')
    ensures t.nextTs == s.nextTs
  {
    t := Take(s, Write(id, k, ONE));
  }

  lemma ReadEmpty(s: State, a: Txn, b: Txn, id: nat, k: Key) returns (t: State)
    requires Start2(s, a, b) && id < 2
    requires (if id == 0 then a else b).phase.Running? && k !in (if id == 0 then a else b).writes
    ensures var w := (if id == 0 then a else b);
            var w' := w.(observed := w.observed[k := None],
                         readSet := if w.serializable then w.readSet + {k} else w.readSet);
            Start2(t, if id == 0 then w' else a, if id == 0 then b else w')
    ensures t.nextTs == s.nextTs
  {
    assert VisibleValue([], (if id == 0 then a else b).readTs) == None;
    t := Take(s, Read(id, k));
  }

  lemma Allocates(s: State, a: Txn, b: Txn, id: nat) returns (t: State)
    requires Start2(s, a, b) && id < 2
    requires (if id == 0 then a else b).phase.Running? && (if id == 0 then a else b).writes != map[]
    ensures var w := (if id == 0 then a else b);
            var w' := w.(phase := Allocated(s.nextTs));
            Start2(t, if id == 0 then w' else a, if id == 0 then b else w')
    ensures t.nextTs == s.nextTs + 1
  {
    t := Take(s, Alloc(id));
  }

  function First(serializable: bool): Txn {
    Txn(serializable, 0, map[], {}, map[X := ONE], Allocated(1))
  }

  function Second(serializable: bool): Txn {
    Txn(serializable, 0, map[X := None], if serializable then {X} else {}, map[Y := ONE], Allocated(2))
  }

  // Two transactions begin on the empty database; the first writes X, the second reads
  // X and writes Y; both have their timestamps.
  lemma Racing(serializable: bool) returns (s: State)
    ensures Start2(s, First(serializable), Second(serializable)) && s.nextTs == 3
  {
    var a := Txn(serializable, 0, map[], {}, map[], Running);
    s := TwoBegun(serializable);
    s := Buffered(s, a, a, 0, X);
    var a1 := a.(writes := map[X := ONE]);
    s := ReadEmpty(s, a1, a, 1, X);
    var b1 := a.(observed := a.observed[X := None], readSet := if serializable then a.readSet + {X} else a.readSet);
    s := Buffered(s, a1, b1, 1, Y);
    var b2 := b1.(writes := map[Y := ONE]);
    assert a.observed[X := None] == map[X := None] && a.readSet + {X} == {X};
    assert X in a1.writes && Y in b2.writes;
    s := Allocates(s, a1, b2, 0);
    s := Allocates(s, a1.(phase := Allocated(1)), b2, 1);
  }

  function FirstEntry(serializable: bool): Committed {
    Committed(0, serializable, 0, 1, map[], {}, map[X := ONE])
  }

  function SecondEntry(serializable: bool): Committed {
    Committed(1, serializable, 0, 2, map[X := None], if serializable then {X} else {}, map[Y := ONE])
  }

  lemma ApplyFirstWrite(m: Chains, k: Key, ts: nat)
    requires k !in m
    ensures ApplyWrites(m, ts, map[k := ONE]) == m[k := [Version(ts, ONE)]]
  {
    assert [] + [Version(ts, ONE)] == [Version(ts, ONE)];
  }

  // The second of the two applies first.
  lemma SecondApplies(serializable: bool) returns (s: State)
    ensures Reachable(s) && !s.durable && s.acked == {} && s.nextId == 2 && s.pending == Pending(0, {})
    ensures s.txns == map[0 := First(serializable), 1 := Second(serializable).(phase := Applied(2))]
    ensures s.chains == map[Y := [Version(2, ONE)]] && s.history == Commit(Start, SecondEntry(serializable))
  {
    s := Racing(serializable);
    var t := s.txns[1];
    assert t == Second(serializable);
    assert EntryOf(1, t, 2) == SecondEntry(serializable) by {
      assert {X} - t.writes.Keys == {X};
    }
    assert CanCommit(s, t);
    ApplyFirstWrite(map[], Y, 2);
    s := Take(s, TryCommit(1));
  }

  // Visibility lags behind acknowledgement. A transaction whose commit has returned Ok
  // is not seen by one that begins afterwards, because a smaller timestamp is pending.
  lemma AcknowledgedNotYetVisible()
    ensures exists s: State, id :: Reachable(s) && 2 in s.acked && SecondEntry(true) in Entries(s.history)
              && id in s.txns && id !in {0, 1} && StoreRead(s, Y, s.txns[id].readTs) == None
  {
    var s := SecondApplies(true);
    s := Take(s, CommitDone(1));
    assert s.pending == Pending(0, {2});
    s := Take(s, Begin(false));
    assert s.txns[2].readTs == 0;
    VisibleIsAbsent([Version(2, ONE)], 0);
    assert StoreRead(s, Y, 0) == None;
  }

  // Nor does an autocommit write to its key land: every retry would conflict with it until
  // the smaller timestamp is reported.
  lemma AutocommitStalls()
    ensures exists s: State :: Reachable(s) && 2 in s.acked && Stalled(s, Y)
  {
    var s := SecondApplies(true);
    s := Take(s, CommitDone(1));
    assert s.pending == Pending(0, {2});
    assert ChainOf(s.chains, Y) == [Version(2, ONE)];
  }

  lemma FirstApplies(s: State, serializable: bool)
    requires 0 in s.txns && s.txns[0] == First(serializable) && s.chains == map[Y := [Version(2, ONE)]]
    ensures var t := DoTryCommit(s, 0);
            t == s.(txns := s.txns[0 := First(serializable).(phase := Applied(1))], chains := t.chains,
                    history := Commit(s.history, FirstEntry(serializable)))
    ensures DoTryCommit(s, 0).chains == map[X := [Version(1, ONE)], Y := [Version(2, ONE)]]
  {
    var t := First(serializable);
    assert X != Y;
    assert CanCommit(s, t);
    assert EntryOf(0, t, 1) == FirstEntry(serializable);
    ApplyFirstWrite(s.chains, X, 1);
    assert s.chains[X := [Version(1, ONE)]] == map[X := [Version(1, ONE)], Y := [Version(2, ONE)]];
  }

  lemma BothApply(serializable: bool) returns (s: State)
    ensures Reachable(s) && !s.durable && s.acked == {} && s.nextId == 2 && s.pending == Pending(0, {})
    ensures s.txns == map[0 := First(serializable).(phase := Applied(1)),
                          1 := Second(serializable).(phase := Applied(2))]
    ensures s.chains == map[X := [Version(1, ONE)], Y := [Version(2, ONE)]]
    ensures s.history == Commit(Commit(Start, SecondEntry(serializable)), FirstEntry(serializable))
  {
    s := SecondApplies(serializable);
    FirstApplies(s, serializable);
    s := Take(s, TryCommit(0));
  }

  lemma PrefixesOfTwo(a: Committed, b: Committed, p: History)
    requires IsPrefix(p, Commit(Commit(Start, a), b))
    ensures p == Commit(Commit(Start, a), b) || p == Commit(Start, a) || p == Start
  {
    assert p == Commit(Commit(Start, a), b) || IsPrefix(p, Commit(Start, a));
    assert IsPrefix(p, Commit(Start, a)) ==> p == Commit(Start, a) || IsPrefix(p, Start);
  }

  // The read-only anomaly remains, although both writers are serializable. A snapshot
  // shows the first write and not the second; the writers' serial order has no such
  // state, and the other order contradicts what the second writer read.
  lemma ReadOnlyAnomaly()
    ensures exists s: State, id ::
              Reachable(s) && id in s.txns && s.history == Commit(Commit(Start, SecondEntry(true)), FirstEntry(true))
              && StoreRead(s, X, s.txns[id].readTs) == ONE && StoreRead(s, Y, s.txns[id].readTs) == None
              && (forall p :: IsPrefix(p, s.history) ==>
                    Lookup(SerialState(p), X) != ONE || Lookup(SerialState(p), Y) != None)
              && !Reproduces(Commit(Commit(Start, FirstEntry(true)), SecondEntry(true)))
              && MissedAcross(s.history, s.txns[id].readTs)
  {
    var s := ReaderBetween(true);
    var id := 2;
    assert X != Y;
    forall p | IsPrefix(p, s.history) ensures Lookup(SerialState(p), X) != ONE || Lookup(SerialState(p), Y) != None {
      PrefixesOfTwo(SecondEntry(true), FirstEntry(true), p);
    }
    assert SerialState(Commit(Start, FirstEntry(true))) == map[] + map[X := ONE];
    assert SecondEntry(true).observed[X] == None;
    assert MissedWrite(s.history, SecondEntry(true), FirstEntry(true), X);
    assert id in s.txns;
  }

  lemma ReaderBetween(serializable: bool) returns (s: State)
    ensures Reachable(s) && s.history == Commit(Commit(Start, SecondEntry(serializable)), FirstEntry(serializable))
    ensures 2 in s.txns && s.txns[2].readTs == 1
    ensures StoreRead(s, X, 1) == ONE && StoreRead(s, Y, 1) == None
  {
    s := BothApply(serializable);
    s := Take(s, CommitDone(0));
    assert s.pending == Pending(1, {});
    s := Take(s, Begin(false));
    assert s.txns[2].readTs == 1;
    VisibleIsAbsent([Version(2, ONE)], 1);
    VisibleIsNewest([Version(1, ONE)], 1, 0);
  }

  // An overtaken snapshot alone is no anomaly: with the same two writers under snapshot
  // isolation, some serial order has a place for it.
  lemma OvertakenHarmlessly()
    ensures exists s: State, id ::
              Reachable(s) && id in s.txns && !NoneOvertaken(s.history, s.txns[id].readTs)
              && exists q :: FitInto(s.history, Snapshots(s, {id}), q)
  {
    var s := ReaderBetween(false);
    var id := 2;
    var a, b := FirstEntry(false), SecondEntry(false);
    assert a in Entries(s.history) && b in Entries(s.history) && !AppliedBefore(s.history, a, b);
    assert !MissedAcross(s.history, s.txns[id].readTs);
    SnapshotsFitOneOrder(s, {id});
    assert id in s.txns;
  }

  // ----- snapshot isolation alone -----

  // Write skew: each of two transactions reads what the other writes, and both commit.
  lemma WriteSkew()
    ensures exists s: State, a, b ::
              Reachable(s) && s.history == Commit(Commit(Start, a), b)
              && X in a.observed && a.observed[X] == None && Y in a.writes && a.writes[Y] != None
              && Y in b.observed && b.observed[Y] == None && X in b.writes && b.writes[X] != None
  {
    var t := Txn(false, 0, map[], {}, map[], Running);
    var s := TwoBegun(false);
    s := ReadEmpty(s, t, t, 0, X);
    var t0 := t.(observed := t.observed[X := None]);
    s := ReadEmpty(s, t0, t, 1, Y);
    var t1 := t.(observed := t.observed[Y := None]);
    s := Buffered(s, t0, t1, 0, Y);
    var w0 := t0.(writes := t0.writes[Y := ONE]);
    s := Buffered(s, w0, t1, 1, X);
    var w1 := t1.(writes := t1.writes[X := ONE]);
    assert Y in w0.writes && X in w1.writes;
    s := Allocates(s, w0, w1, 0);
    s := Allocates(s, w0.(phase := Allocated(1)), w1, 1);
    var a, b := EntryOf(0, s.txns[0], 1), EntryOf(1, s.txns[1], 2);
    s := SkewCommits(s, w0.(phase := Allocated(1)), w1.(phase := Allocated(2)));
    assert s.history == Commit(Commit(Start, a), b);
  }

  lemma SkewCommits(s: State, t0: Txn, t1: Txn) returns (t: State)
    requires Start2(s, t0, t1) && t0.phase == Allocated(1) && t1.phase == Allocated(2)
    requires t0.readSet == t1.readSet == {} && t0.writes == map[Y := ONE] && t1.writes == map[X := ONE]
    ensures Reachable(t) && t.history == Commit(Commit(Start, EntryOf(0, t0, 1)), EntryOf(1, t1, 2))
  {
    assert X != Y;
    assert CanCommit(s, t0);
    ApplyFirstWrite(s.chains, Y, 1);
    t := Take(s, TryCommit(0));
    assert CanCommit(t, t1);
    t := Take(t, TryCommit(1));
  }

  // ----- failed appends -----

  lemma AppliedButNotLogged() returns (s: State)
    ensures Reachable(s) && s.durable && s.acked == {} && s.nextId == 1 && s.pending == Pending(0, {})
    ensures s.chains == map[X := [Version(1, ONE)]] && s.log == [] && s.synced == 0 && s.nextTs == 2
    ensures s.txns == map[0 := Txn(false, 0, map[], {}, map[X := ONE], AppendFailed(1))]
    ensures s.history == Commit(Start, PlainWrite)
  {
    s := Fresh(true);
    s := Take(s, Begin(false));
    s := Take(s, Write(0, X, ONE));
    var t := s.txns[0];
    assert t == Txn(false, 0, map[], {}, map[X := ONE], Running);
    assert X in t.writes;
    s := Take(s, Alloc(0));
    assert s.txns[0] == t.(phase := Allocated(1));
    assert CanCommit(s, s.txns[0]);
    ApplyFirstWrite(s.chains, X, 1);
    assert EntryOf(0, s.txns[0], 1) == PlainWrite;
    s := Take(s, TryCommit(0));
    s := Take(s, AppendFail(0));
  }

  // A commit that returns an error because its append failed is visible all the same,
  // to every snapshot taken afterwards, until a crash takes it away.
  lemma FailedAppendIsVisible()
    ensures exists s: State, id ::
              Reachable(s) && s.acked == {} && id in s.txns && StoreRead(s, X, s.txns[id].readTs) == ONE
              && Enabled(s, Crash(0)) && StoreRead(Do(s, Crash(0)), X, s.txns[id].readTs) == None
  {
    var s := AppliedButNotLogged();
    s := Take(s, CommitDone(0));
    assert s.pending == Pending(1, {});
    s := Take(s, Begin(false));
    assert s.txns[1].readTs == 1;
    VisibleIsNewest([Version(1, ONE)], 1, 0);
    assert StoreRead(s, X, 1) == ONE;
    assert s.log[..0] == [];
    assert ChainOf(Recover([]), X) == [];
    assert StoreRead(Do(s, Crash(0)), X, 1) == None;
  }

  // The reader of a write that is applied, visible and not in the log.
  const Survivor: Committed := Committed(1, true, 1, 2, map[X := ONE], {X}, map[Y := ONE])

  lemma LostWriteIsRead() returns (s: State)
    ensures Reachable(s) && s.durable && s.acked == {} && s.nextTs == 2 && s.log == [] && s.synced == 0
    ensures s.chains == map[X := [Version(1, ONE)]] && s.history == Commit(Start, PlainWrite)
    ensures 1 in s.txns && s.txns[1] == Txn(true, 1, map[X := ONE], {X}, map[], Running)
  {
    s := AppliedButNotLogged();
    s := Take(s, CommitDone(0));
    assert s.pending == Pending(1, {});
    s := Take(s, Begin(true));
    VisibleIsNewest([Version(1, ONE)], 1, 0);
    s := Take(s, Read(1, X));
    assert s.txns[1].observed == map[X := ONE];
  }

  lemma SurvivorApplies() returns (s: State)
    ensures Reachable(s) && s.durable && s.log == [] && s.synced == 0 && s.acked == {}
    ensures s.history == Commit(Commit(Start, PlainWrite), Survivor)
    ensures 1 in s.txns && s.txns[1] == Txn(true, 1, map[X := ONE], {X}, map[Y := ONE], Applied(2))
  {
    s := LostWriteIsRead();
    s := Take(s, Write(1, Y, ONE));
    var t := s.txns[1];
    assert Y in t.writes;
    s := Take(s, Alloc(1));
    assert X != Y;
    assert {X} - t.writes.Keys == {X};
    assert CanCommit(s, s.txns[1]);
    assert EntryOf(1, s.txns[1], 2) == Survivor;
    s := Take(s, TryCommit(1));
  }

  const SurvivorRecord: Record := Record(2, map[Y := ONE])

  lemma SurvivorAcknowledged() returns (s: State)
    ensures Reachable(s) && s.durable && s.log == [SurvivorRecord] && s.synced == 1 && s.acked == {2}
    ensures s.history == Commit(Commit(Start, PlainWrite), Survivor)
  {
    s := SurvivorApplies();
    s := Take(s, AppendRecord(1));
    assert s.log == [SurvivorRecord];
    assert s.log[..1] == [SurvivorRecord];
    assert s.log[..1][0].commitTs == 2;
    s := Take(s, Sync(1, 1));
    s := Take(s, CommitDone(1));
  }

  lemma OneRecord(r: Record)
    ensures TsOf([r]) == {r.commitTs}
  {
    assert [r][0].commitTs == r.commitTs;
  }

  // After a failed append, a crash can leave an acknowledged serializable transaction
  // that has read a value nobody left has written.
  lemma SurvivorReadLostWrite()
    ensures exists s: State ::
              Reachable(s) && 2 in s.acked && s.history == Commit(Start, Survivor) && !Reproduces(s.history)
  {
    var s := SurvivorAcknowledged();
    assert s.log[..1] == [SurvivorRecord];
    OneRecord(SurvivorRecord);
    assert Restrict(Commit(Start, PlainWrite), {2}) == Start;
    s := Take(s, Crash(1));
    NotReproduced();
  }

  lemma NotReproduced()
    ensures !Reproduces(Commit(Start, Survivor))
  {
    assert X in Survivor.observed && Survivor.observed[X] == ONE;
    assert Lookup(SerialState(Start), X) == None;
  }

  // ----- a crash between the append and the sync -----

  lemma WrittenNotSynced() returns (s: State)
    ensures Reachable(s) && s.durable && s.acked == {} && s.synced == 0
    ensures s.log == [Record(1, map[X := ONE])] && s.history == Commit(Start, PlainWrite)
  {
    s := Fresh(true);
    s := Take(s, Begin(false));
    s := Take(s, Write(0, X, ONE));
    assert X in s.txns[0].writes;
    s := Take(s, Alloc(0));
    assert s.txns[0] == Txn(false, 0, map[], {}, map[X := ONE], Allocated(1));
    assert CanCommit(s, s.txns[0]);
    s := Take(s, TryCommit(0));
    assert EntryOf(0, Txn(false, 0, map[], {}, map[X := ONE], Allocated(1)), 1) == PlainWrite;
    s := Take(s, AppendRecord(0));
  }

  // A commit that was never acknowledged can be recovered, or not, from one state.
  lemma UnacknowledgedIsRecovered()
    ensures exists s: State ::
              Reachable(s) && 1 !in s.acked && Enabled(s, Crash(0)) && Enabled(s, Crash(1))
              && HasTs(Do(s, Crash(1)).history, 1) && !HasTs(Do(s, Crash(0)).history, 1)
  {
    var s := WrittenNotSynced();
    assert s.log[..1] == s.log && s.log[..0] == [];
    OneRecord(s.log[0]);
    assert Restrict(s.history, {1}) == s.history;
    assert TsOf([]) == {};
    assert Restrict(s.history, {}) == Start;
    assert PlainWrite in Entries(s.history);
    assert HasTs(Do(s, Crash(1)).history, 1);
    assert !HasTs(Do(s, Crash(0)).history, 1);
  }

  // ----- a transfer from an account to itself -----

  function Balance(v: Value): int {
    if v.Some? && v.value != [] then v.value[0] else 0
  }

  function Pay(n: int): Value {
    if 0 <= n < 256 then Some([n]) else None
  }

  const SelfTransfer: Committed := Committed(1, false, 1, 2, map[X := ONE], {}, map[X := Pay(2)])

  lemma Deposited() returns (s: State)
    ensures Reachable(s) && !s.durable && s.nextTs == 2 && s.maxLow == 0
    ensures s.chains == map[X := [Version(1, ONE)]] && s.history == Commit(Start, PlainWrite)
    ensures 1 in s.txns && s.txns[1] == Txn(false, 1, map[], {}, map[], Running)
  {
    s := Fresh(false);
    s := Take(s, Begin(false));
    s := Take(s, Write(0, X, ONE));
    assert X in s.txns[0].writes;
    s := Take(s, Alloc(0));
    assert s.txns[0] == Txn(false, 0, map[], {}, map[X := ONE], Allocated(1));
    assert CanCommit(s, s.txns[0]);
    ApplyFirstWrite(map[], X, 1);
    assert EntryOf(0, s.txns[0], 1) == PlainWrite;
    s := Take(s, TryCommit(0));
    s := Take(s, CommitDone(0));
    assert s.pending == Pending(1, {});
    s := Take(s, Begin(false));
  }

  lemma SelfTransferBuffered() returns (s: State)
    ensures Reachable(s) && !s.durable && s.nextTs == 2 && s.maxLow == 0
    ensures s.chains == map[X := [Version(1, ONE)]] && s.history == Commit(Start, PlainWrite)
    ensures 1 in s.txns && s.txns[1] == Txn(false, 1, map[X := ONE], {}, map[X := Pay(2)], Running)
  {
    s := Deposited();
    VisibleIsNewest([Version(1, ONE)], 1, 0);
    s := Take(s, Read(1, X));
    s := Take(s, Write(1, X, Pay(0)));
    s := Take(s, Write(1, X, Pay(2)));
    assert s.txns[1].writes == map[X := Pay(2)];
  }

  lemma SelfTransferCommits() returns (s: State)
    ensures Reachable(s) && s.maxLow == 0 && s.history == Commit(Commit(Start, PlainWrite), SelfTransfer)
    ensures s.chains == map[X := [Version(1, ONE), Version(2, Pay(2))]]
  {
    s := SelfTransferBuffered();
    assert X in s.txns[1].writes;
    s := Take(s, Alloc(1));
    assert CanCommit(s, s.txns[1]);
    assert EntryOf(1, s.txns[1], 2) == SelfTransfer;
    assert [Version(1, ONE)] + [Version(2, Pay(2))] == [Version(1, ONE), Version(2, Pay(2))];
    s := Take(s, TryCommit(1));
  }

  lemma IsSelfTransfer()
    ensures IsTransfer(SelfTransfer, X, X, 1, Balance, Pay)
  {
    assert map[X := Pay(0)][X := Pay(2)] == map[X := Pay(2)];
  }

  lemma BalancesOf(s: State)
    requires s.chains == map[X := [Version(1, ONE), Version(2, Pay(2))]]
    ensures Balance(StoreRead(s, X, 1)) == 1 && Balance(StoreRead(s, X, 2)) == 2
  {
    var c := [Version(1, ONE), Version(2, Pay(2))];
    VisibleIsNewest(c, 1, 0);
    VisibleIsNewest(c, 2, 1);
  }

  // The transfer `e` of one from X to itself has raised the total by one.
  ghost predicate CreatesMoney(s: State, e: Committed) {
    && e in Entries(s.history) && IsTransfer(e, X, X, 1, Balance, Pay) && s.maxLow < e.commitTs
    && ShownTotal(s, e.commitTs, {X}, Balance) == ShownTotal(s, e.commitTs - 1, {X}, Balance) + 1
  }

  // Such a transfer commits.
  lemma SelfTransferCreatesMoney()
    ensures exists s: State, e :: Reachable(s) && CreatesMoney(s, e)
  {
    var s := SelfTransferCommits();
    IsSelfTransfer();
    BalancesOf(s);
    OneAccount(s, 1, X, Balance);
    OneAccount(s, 2, X, Balance);
    assert CreatesMoney(s, SelfTransfer);
  }
}
