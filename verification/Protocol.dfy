// The commit protocol as a state machine (src/db.rs, src/txn.rs). Each step is one
// action that is atomic in the implementation: it runs under one mutex, on one
// atomic, or, for `TryCommit` and `GcPrune`, under the shard locks (FineStore.dfy
// proves that those act as one step). Steps of different transactions, garbage
// collections and crashes interleave in any order.

module Protocol {
  import opened Types
  import opened VersionChain
  import opened StoreSpec
  import opened History
  import opened Watermark

  // How far a transaction has come. The phases with a timestamp hold it: it is
  // allocated and not yet reported to the oracle.
  datatype Phase =
    | Running
    | Allocated(ts: nat)
    | Rejected(ts: nat)
    | Applied(ts: nat)
    | Written(ts: nat)       // record in the log, not known to be durable
    | Synced(ts: nat)
    | AppendFailed(ts: nat)
    | Finished

  // A live transaction or snapshot handle.
  datatype Txn = Txn(
    serializable: bool,
    readTs: nat,
    observed: map<Key, Value>,
    readSet: set<Key>,
    writes: WriteSet,
    phase: Phase)

  datatype State = State(
    durable: bool,
    // the oracle
    start: nat,
    nextTs: nat,
    pending: Pending,
    readers: multiset<nat>,
    // live handles, by an identity that is never reused
    nextId: nat,
    txns: map<nat, Txn>,
    // running garbage collections, each with the low watermark it read when it began
    gcs: map<nat, nat>,
    maxLow: nat,
    // the store
    chains: Chains,
    history: History,
    // the log: its first `synced` records are known to be durable
    log: seq<Record>,
    synced: nat,
    // timestamps acknowledged with Ok, and those whose append failed before any
    // record was written
    acked: set<nat>,
    failed: set<nat>,
    // a crash has lost a commit that had become visible
    lost: bool)

  datatype Step =
    | Begin(serializable: bool)
    | Read(id: nat, key: Key)
    | Write(id: nat, key: Key, value: Value)
    | Finish(id: nat)
    | Alloc(id: nat)
    | TryCommit(id: nat)
    | AppendRecord(id: nat)
    | Sync(id: nat, upTo: nat)
    | AppendFail(id: nat)
    | CommitDone(id: nat)
    | EndReader(id: nat)
    | GcBegin(gc: nat)
    | GcPrune(gc: nat, keys: set<Key>)
    | GcEnd(gc: nat)
    | Crash(keep: nat)

  function Init(durable: bool): State {
    State(durable, 0, 1, Pending(0, {}), multiset{}, 0, map[], map[], 0, map[], Start, [], 0, {}, {}, false)
  }

  predicate HoldsTs(p: Phase) {
    !p.Running? && !p.Finished?
  }

  ghost predicate Held(s: State, ts: nat) {
    exists id :: id in s.txns && HoldsTs(s.txns[id].phase) && s.txns[id].phase.ts == ts
  }

  // The timestamps handed out since the database was opened and reported since.
  ghost function Reported(s: State): set<nat> {
    set ts | s.start < ts < s.nextTs && !Held(s, ts)
  }

  // What the commit of `t` at `ts` adds to the history. The validated read set is the
  // tracked one without the written keys, which the write check covers.
  function EntryOf(id: nat, t: Txn, ts: nat): Committed {
    Committed(id, t.serializable, t.readTs, ts, t.observed, t.readSet - t.writes.Keys, t.writes)
  }

  ghost predicate CanCommit(s: State, t: Txn) {
    Validates(s.chains, t.readTs, t.writes.Keys + (t.readSet - t.writes.Keys))
  }

  // Applied commits that were visible to new snapshots and are missing from the part
  // of the log a crash leaves.
  ghost predicate LosesVisible(s: State, keep: nat)
    requires keep <= |s.log|
  {
    exists e :: e in Entries(s.history) && e.commitTs <= s.pending.doneUpto && !Logged(s.log[..keep], e.commitTs)
  }

  ghost predicate Enabled(s: State, step: Step) {
    match step
    case Begin(_) => true
    case Read(id, k) => id in s.txns && s.txns[id].phase.Running? && k !in s.txns[id].writes
    case Write(id, _, _) => id in s.txns && s.txns[id].phase.Running?
    case Finish(id) => id in s.txns && s.txns[id].phase.Running?
    case Alloc(id) => id in s.txns && s.txns[id].phase.Running? && s.txns[id].writes != map[]
    case TryCommit(id) => id in s.txns && s.txns[id].phase.Allocated?
    case AppendRecord(id) => s.durable && id in s.txns && s.txns[id].phase.Applied?
    case Sync(id, upTo) =>
      id in s.txns && s.txns[id].phase.Written? && upTo <= |s.log| && Logged(s.log[..upTo], s.txns[id].phase.ts)
    case AppendFail(id) => s.durable && id in s.txns && (s.txns[id].phase.Applied? || s.txns[id].phase.Written?)
    case CommitDone(id) =>
      id in s.txns &&
      var p := s.txns[id].phase;
      p.Rejected? || p.Synced? || p.AppendFailed? || (p.Applied? && !s.durable)
    case EndReader(id) => id in s.txns && s.txns[id].phase.Finished?
    case GcBegin(g) => g !in s.gcs
    case GcPrune(g, _) => g in s.gcs
    case GcEnd(g) => g in s.gcs
    case Crash(keep) => s.durable && s.synced <= keep <= |s.log|
  }

  function SetPhase(s: State, id: nat, p: Phase): State
    requires id in s.txns
  {
    s.(txns := s.txns[id := s.txns[id].(phase := p)])
  }

  ghost function Do(s: State, step: Step): State
    requires Enabled(s, step)
  {
    match step
    case Begin(serializable) => DoBegin(s, serializable)
    case Read(id, k) => DoRead(s, id, k)
    case Write(id, k, v) =>
      s.(txns := s.txns[id := s.txns[id].(writes := s.txns[id].writes[k := v])])
    case Finish(id) => SetPhase(s, id, Finished)
    case Alloc(id) => SetPhase(s, id, Allocated(s.nextTs)).(nextTs := s.nextTs + 1)
    case TryCommit(id) => DoTryCommit(s, id)
    case AppendRecord(id) =>
      var ts := s.txns[id].phase.ts;
      SetPhase(s, id, Written(ts)).(log := s.log + [Record(ts, s.txns[id].writes)])
    case Sync(id, upTo) => SetPhase(s, id, Synced(s.txns[id].phase.ts)).(synced := Max(s.synced, upTo))
    case AppendFail(id) =>
      var ts := s.txns[id].phase.ts;
      SetPhase(s, id, AppendFailed(ts)).(failed := if s.txns[id].phase.Applied? then s.failed + {ts} else s.failed)
    case CommitDone(id) => DoCommitDone(s, id)
    case EndReader(id) => DoEndReader(s, id)
    case GcBegin(g) => DoGcBegin(s, g)
    case GcPrune(g, keys) => s.(chains := PruneKeys(s.chains, s.gcs[g], keys))
    case GcEnd(g) => s.(gcs := s.gcs - {g})
    case Crash(keep) => DoCrash(s, keep)
  }

  function DoBegin(s: State, serializable: bool): State {
    var t := Txn(serializable, s.pending.doneUpto, map[], {}, map[], Running);
    s.(txns := s.txns[s.nextId := t], nextId := s.nextId + 1, readers := s.readers + multiset{t.readTs})
  }

  function DoRead(s: State, id: nat, k: Key): State
    requires id in s.txns
  {
    var t := s.txns[id];
    var value := VisibleValue(ChainOf(s.chains, k), t.readTs);
    s.(txns := s.txns[id := t.(observed := t.observed[k := value],
                               readSet := if t.serializable then t.readSet + {k} else t.readSet)])
  }

  ghost function DoTryCommit(s: State, id: nat): State
    requires id in s.txns && s.txns[id].phase.Allocated?
  {
    var t := s.txns[id];
    var ts := t.phase.ts;
    if CanCommit(s, t) then
      SetPhase(s, id, Applied(ts)).(
        chains := ApplyWrites(s.chains, ts, t.writes),
        history := Commit(s.history, EntryOf(id, t, ts)))
    else
      SetPhase(s, id, Rejected(ts))
  }

  function DoCommitDone(s: State, id: nat): State
    requires id in s.txns && HoldsTs(s.txns[id].phase)
  {
    var p := s.txns[id].phase;
    SetPhase(s, id, Finished).(
      pending := Report(s.pending, p.ts),
      acked := if p.Synced? || p.Applied? then s.acked + {p.ts} else s.acked)
  }

  function DoEndReader(s: State, id: nat): State
    requires id in s.txns
  {
    s.(txns := s.txns - {id}, readers := s.readers - multiset{s.txns[id].readTs})
  }

  ghost function DoGcBegin(s: State, g: nat): State {
    var low := LowWatermark(s.readers, s.pending.doneUpto);
    s.(gcs := s.gcs[g := low], maxLow := Max(s.maxLow, low))
  }

  // The process dies, keeping the first `keep` records of the log, and the database is
  // opened again over them.
  ghost function DoCrash(s: State, keep: nat): State
    requires keep <= |s.log|
  {
    var log := s.log[..keep];
    var highest := Highest(log);
    s.(start := highest, nextTs := highest + 1, pending := Pending(highest, {}), readers := multiset{},
       txns := map[], gcs := map[], maxLow := 0,
       chains := Recover(log), history := Restrict(s.history, TsOf(log)),
       log := log, synced := keep, failed := {}, lost := s.lost || LosesVisible(s, keep))
  }

  // ----- runs -----

  // The state after `steps`, if each of them is enabled where it is taken.
  ghost function Exec(s: State, steps: seq<Step>): Option<State>
    decreases |steps|
  {
    if steps == [] then Some(s)
    else
      match Exec(s, steps[..|steps| - 1])
      case None => None
      case Some(m) =>
        var step := steps[|steps| - 1];
        if Enabled(m, step) then Some(Do(m, step)) else None
  }

  // States any run of a fresh database can be in.
  ghost predicate Reachable(s: State) {
    exists durable: bool, steps: seq<Step> :: Exec(Init(durable), steps) == Some(s)
  }
}
