// The protocol over the locking store. Coordinators take their own steps and call the
// store, whose operations work under locks, a key at a time, interleaved with everything
// else. Every such run is a run of the protocol, and what the store returns to a
// coordinator is what the protocol did.

module Concurrent {
  import opened Types
  import opened StoreSpec
  import opened Batch
  import opened Protocol
  import opened ProtocolInv
  import opened Reach
  import opened Isolation
  import opened StoreInProtocol
  import History
  import F = FineStore
  import L = Linearizable

  // An outstanding call of the store, by the handle or collection that made it.
  datatype Call = CommitCall(txn: nat) | ReadCall(txn: nat, key: Key) | GcCall(gc: nat)

  // The coordinators and the log with the protocol's view of the store, the store itself,
  // what its operations have decided, and the calls that have not returned.
  datatype World = World(p: State, f: F.Store, results: map<nat, L.Result>, calls: map<nat, Call>)

  datatype Move =
    | Local(step: Step)
    | Ask(op: nat, call: Call, what: F.Op)
    | Work(op: nat)
    | Return(op: nat)
    | Restart(keep: nat, f: F.Store)

  // ----- calls -----

  predicate Of(call: Call, id: nat) {
    !call.GcCall? && call.txn == id
  }

  ghost predicate Idle(w: World, id: nat) {
    forall o :: o in w.calls ==> !Of(w.calls[o], id)
  }

  // The store is handed the batch and the read set of the transaction, in some order.
  ghost predicate Passes(t: Txn, what: F.Op)
    requires what.CommitOp?
  {
    && what.readTs == t.readTs && WritesOf(what.batch) == t.writes
    && Elements(what.readSet) == t.readSet - t.writes.Keys
  }

  ghost predicate Reads(t: Txn, what: F.Op, k: Key) {
    what.GetOp? && what.key == k && what.readTs == t.readTs && t.phase.Running? && k !in t.writes
  }

  ghost predicate MayCall(w: World, call: Call, what: F.Op) {
    match call
    case CommitCall(id) =>
      && what.CommitOp? && id in w.p.txns && Passes(w.p.txns[id], what)
      && w.p.txns[id].phase == Allocated(what.commitTs) && Idle(w, id)
    case ReadCall(id, k) => id in w.p.txns && Reads(w.p.txns[id], what, k)
    case GcCall(g) => what.GcOp? && g in w.p.gcs && what.low == w.p.gcs[g]
  }

  // ----- moves -----

  // The protocol's steps that are not the store's; while a handle waits for the store it
  // takes none.
  ghost predicate MayTake(w: World, step: Step) {
    match step
    case Begin(_) => true
    case GcBegin(_) => true
    case GcEnd(g) => forall o :: o in w.calls ==> w.calls[o] != GcCall(g)
    case Write(id, _, _) => Idle(w, id)
    case Finish(id) => Idle(w, id)
    case Alloc(id) => Idle(w, id)
    case AppendRecord(id) => Idle(w, id)
    case Sync(id, _) => Idle(w, id)
    case AppendFail(id) => Idle(w, id)
    case CommitDone(id) => Idle(w, id)
    case EndReader(id) => Idle(w, id)
    case Read(_, _) => false
    case TryCommit(_) => false
    case GcPrune(_, _) => false
    case Crash(_) => false
  }

  // A store rebuilt after a crash holds the recovered chains and runs nothing.
  ghost predicate RebuiltAs(f: F.Store, chains: Chains) {
    F.Sharded(f) && f.ops == map[] && forall k :: F.ChainAt(f, k) == ChainOf(chains, k)
  }

  ghost predicate Enabled(w: World, move: Move) {
    match move
    case Local(step) => MayTake(w, step) && Protocol.Enabled(w.p, step)
    case Ask(op, call, what) => F.Enabled(w.f, F.Invoke(op, what)) && MayCall(w, call, what)
    case Work(op) => F.Enabled(w.f, F.Advance(op))
    case Return(op) => op in w.calls && op in w.f.ops && F.Finished(w.f, w.f.ops[op])
    case Restart(keep, f) =>
      w.p.durable && w.p.synced <= keep <= |w.p.log| && RebuiltAs(f, Recover(w.p.log[..keep]))
  }

  // The protocol step that is taken at the instant at which `op` takes effect.
  function Effect(w: World, op: nat): Step
    requires op in w.calls && op in w.f.ops
  {
    match w.calls[op]
    case CommitCall(id) => TryCommit(id)
    case ReadCall(id, k) => Read(id, k)
    case GcCall(g) => GcPrune(g, PrunedKeys(w.f, w.f.ops[op]))
  }

  function PrunedKeys(f: F.Store, what: F.Op): set<Key> {
    if what.GcOp? && what.shard < |f.shards| then f.shards[what.shard].Keys else {}
  }

  ghost function AfterWork(w: World, op: nat): World
    requires Inv(w) && Enabled(w, Work(op))
  {
    WorkerCalled(w, op);
    var f' := F.Do(w.f, F.Advance(op));
    match L.Point(w.f, op)
    case None => w.(f := f')
    case Some(e) =>
      EffectEnabled(w, op);
      World(Do(w.p, Effect(w, op)), f', L.Happen(View(w), e).results, w.calls)
  }

  ghost function After(w: World, move: Move): World
    requires Inv(w) && Enabled(w, move)
  {
    match move
    case Local(step) => w.(p := Do(w.p, step))
    case Ask(op, call, what) => w.(f := F.Do(w.f, F.Invoke(op, what)), calls := w.calls[op := call])
    case Work(op) => AfterWork(w, op)
    case Return(op) => w.(calls := w.calls - {op})
    case Restart(keep, f) => World(DoCrash(w.p, keep), f, map[], map[])
  }

  // ----- the invariant -----

  // The store as the protocol sees it.
  function View(w: World): L.Atomic {
    L.Atomic(w.p.chains, w.results)
  }

  // What the protocol knows of a call agrees with what the store has decided.
  ghost predicate CallOk(p: State, results: map<nat, L.Result>, op: nat, what: F.Op, call: Call) {
    match call
    case CommitCall(id) =>
      && what.CommitOp? && id in p.txns && Passes(p.txns[id], what)
      && (if op !in results then p.txns[id].phase == Allocated(what.commitTs)
          else if results[op] == L.CommitResult(true) then p.txns[id].phase == Applied(what.commitTs)
          else results[op] == L.CommitResult(false) && p.txns[id].phase == Rejected(what.commitTs))
    case ReadCall(id, k) =>
      && id in p.txns && Reads(p.txns[id], what, k)
      && (op in results ==> k in p.txns[id].observed && results[op] == L.GetResult(p.txns[id].observed[k]))
    case GcCall(g) => what.GcOp? && g in p.gcs && what.low == p.gcs[g]
  }

  ghost predicate CallsOk(w: World) {
    && (forall op :: op in w.f.ops && op !in w.calls ==> F.Finished(w.f, w.f.ops[op]))
    && (forall op :: op in w.calls ==> op in w.f.ops && CallOk(w.p, w.results, op, w.f.ops[op], w.calls[op]))
    && CommitsAlone(w.calls)
  }

  // A handle that commits has no other call outstanding.
  ghost predicate CommitsAlone(calls: map<nat, Call>) {
    forall a, b :: a in calls && b in calls && a != b && calls[a].CommitCall? ==> !Of(calls[b], calls[a].txn)
  }

  ghost predicate Inv(w: World) {
    F.Inv(w.f) && L.Simulates(w.f, View(w)) && Reachable(w.p) && CallsOk(w)
  }

  // ----- a store operation takes effect -----

  lemma WorkerCalled(w: World, op: nat)
    requires Inv(w) && Enabled(w, Work(op))
    ensures op in w.calls && op in w.f.ops && CallOk(w.p, w.results, op, w.f.ops[op], w.calls[op])
  {
  }

  // An operation at its instant has decided nothing before.
  lemma PointUndecided(w: World, op: nat)
    requires Inv(w) && op in w.f.ops && L.Point(w.f, op).Some?
    ensures op !in w.results
  {
    assert L.Decided(w.results, op, w.f.ops[op]);
  }

  lemma EffectEnabled(w: World, op: nat)
    requires Inv(w) && op in w.calls && op in w.f.ops && L.Point(w.f, op).Some?
    ensures Protocol.Enabled(w.p, Effect(w, op))
  {
    PointUndecided(w, op);
    assert CallOk(w.p, w.results, op, w.f.ops[op], w.calls[op]);
  }

  // The result the store's event leaves is the one the protocol's step implies.
  ghost function ResultOf(p: State, call: Call): Option<L.Result> {
    match call
    case CommitCall(id) => if id in p.txns then Some(L.CommitResult(p.txns[id].phase.Applied?)) else None
    case ReadCall(id, k) =>
      if id in p.txns && k in p.txns[id].observed then Some(L.GetResult(p.txns[id].observed[k])) else None
    case GcCall(_) => None
  }

  ghost predicate SameEvent(w: World, op: nat, a: L.Atomic, p': State)
    requires op in w.calls
  {
    && a.chains == p'.chains
    && (w.calls[op].GcCall? ==> a.results == w.results)
    && (!w.calls[op].GcCall? ==> ResultOf(p', w.calls[op]).Some?
                                 && a.results == w.results[op := ResultOf(p', w.calls[op]).value])
  }

  lemma CommitEvent(w: World, op: nat, id: nat)
    requires Inv(w) && op in w.calls && op in w.f.ops && w.calls[op] == CommitCall(id) && op !in w.results
    requires L.Point(w.f, op).Some?
    ensures id in w.p.txns && w.p.txns[id].phase.Allocated?
    ensures SameEvent(w, op, L.Happen(View(w), L.Point(w.f, op).value), DoTryCommit(w.p, id))
  {
    var what := w.f.ops[op];
    assert CallOk(w.p, w.results, op, what, w.calls[op]);
    CommitEventIsStep(w.p, id, op, what.batch, what.readSet, w.results);
  }

  lemma ReadEvent(w: World, op: nat, id: nat, k: Key)
    requires Inv(w) && op in w.calls && op in w.f.ops && w.calls[op] == ReadCall(id, k) && op !in w.results
    requires L.Point(w.f, op).Some?
    ensures id in w.p.txns
    ensures SameEvent(w, op, L.Happen(View(w), L.Point(w.f, op).value), DoRead(w.p, id, k))
  {
    assert CallOk(w.p, w.results, op, w.f.ops[op], w.calls[op]);
    GetEventIsStep(w.p, id, op, k, w.results);
  }

  lemma EventIsEffect(w: World, op: nat)
    requires Inv(w) && op in w.calls && op in w.f.ops && L.Point(w.f, op).Some?
    requires Protocol.Enabled(w.p, Effect(w, op))
    ensures SameEvent(w, op, L.Happen(View(w), L.Point(w.f, op).value), Do(w.p, Effect(w, op)))
  {
    PointUndecided(w, op);
    match w.calls[op] {
      case CommitCall(id) => CommitEvent(w, op, id);
      case ReadCall(id, k) => ReadEvent(w, op, id, k);
      case GcCall(g) =>
        assert CallOk(w.p, w.results, op, w.f.ops[op], w.calls[op]);
        PruneEventIsStep(w.p, g, PrunedKeys(w.f, w.f.ops[op]), w.results);
    }
  }

  // ----- calls survive what others do -----

  // A working operation keeps what it was called with.
  lemma NextKeepsCall(f: F.Store, op: F.Op)
    requires F.Sharded(f) && !F.Finished(f, op)
    ensures var op' := F.Next(f, op).0;
            && op'.CommitOp? == op.CommitOp? && op'.GetOp? == op.GetOp?
            && (op.CommitOp? ==> op' == op.(stage := op'.stage))
            && (op.GetOp? ==> op' == op.(get := op'.get))
            && (op.GcOp? ==> op' == op.(shard := op'.shard, gc := op'.gc))
  {
  }

  // A read again, under the same snapshot, changes nothing already read.
  lemma ReadAgain(p: State, id: nat, k: Key, j: Key)
    requires Reachable(p) && id in p.txns && j in p.txns[id].observed
    ensures j in DoRead(p, id, k).txns[id].observed
    ensures DoRead(p, id, k).txns[id].observed[j] == p.txns[id].observed[j]
  {
    if j == k {
      ReadsStayRight(p, id, k);
    }
  }

  lemma CommitLeavesCall(p: State, id: nat, results: map<nat, L.Result>, o: nat, what: F.Op, call: Call)
    requires id in p.txns && p.txns[id].phase.Allocated? && CallOk(p, results, o, what, call) && !Of(call, id)
    ensures CallOk(DoTryCommit(p, id), results, o, what, call)
  {
  }

  lemma ReadLeavesCall(p: State, id: nat, k: Key, results: map<nat, L.Result>, o: nat, what: F.Op, call: Call)
    requires Reachable(p) && id in p.txns && CallOk(p, results, o, what, call) && call != CommitCall(id)
    ensures CallOk(DoRead(p, id, k), results, o, what, call)
  {
    if Of(call, id) && o in results {
      ReadAgain(p, id, k, call.key);
    }
  }

  lemma SameTxnsLeaveCall(p: State, p': State, results: map<nat, L.Result>, o: nat, what: F.Op, call: Call)
    requires CallOk(p, results, o, what, call) && p'.txns == p.txns && p'.gcs == p.gcs
    ensures CallOk(p', results, o, what, call)
  {
  }

  // The effect of one operation leaves the calls of the others as they are.
  lemma EffectLeavesCall(w: World, op: nat, o: nat)
    requires Inv(w) && op in w.calls && op in w.f.ops && o in w.calls && o != op
    requires Protocol.Enabled(w.p, Effect(w, op))
    ensures o in w.f.ops && CallOk(Do(w.p, Effect(w, op)), w.results, o, w.f.ops[o], w.calls[o])
  {
    assert CallOk(w.p, w.results, o, w.f.ops[o], w.calls[o]);
    match w.calls[op] {
      case CommitCall(id) => CommitLeavesCall(w.p, id, w.results, o, w.f.ops[o], w.calls[o]);
      case ReadCall(id, k) =>
        assert w.calls[o].CommitCall? ==> !Of(w.calls[op], w.calls[o].txn);
        ReadLeavesCall(w.p, id, k, w.results, o, w.f.ops[o], w.calls[o]);
      case GcCall(g) =>
        SameTxnsLeaveCall(w.p, Do(w.p, Effect(w, op)), w.results, o, w.f.ops[o], w.calls[o]);
    }
  }

  lemma CommitDecides(p: State, id: nat, results: map<nat, L.Result>, op: nat, what: F.Op)
    requires CallOk(p, results, op, what, CommitCall(id)) && op !in results && p.txns[id].phase.Allocated?
    ensures var p' := DoTryCommit(p, id);
            id in p'.txns
            && CallOk(p', results[op := L.CommitResult(p'.txns[id].phase.Applied?)], op, what, CommitCall(id))
  {
  }

  lemma ReadDecides(p: State, id: nat, k: Key, results: map<nat, L.Result>, op: nat, what: F.Op)
    requires CallOk(p, results, op, what, ReadCall(id, k))
    ensures var p' := DoRead(p, id, k);
            id in p'.txns && k in p'.txns[id].observed
            && CallOk(p', results[op := L.GetResult(p'.txns[id].observed[k])], op, what, ReadCall(id, k))
  {
  }

  // ... and its own call agrees with its result.
  lemma EffectDecidesCall(w: World, op: nat, results: map<nat, L.Result>)
    requires Inv(w) && op in w.calls && op in w.f.ops && L.Point(w.f, op).Some?
    requires Protocol.Enabled(w.p, Effect(w, op))
    requires SameEvent(w, op, L.Atomic(Do(w.p, Effect(w, op)).chains, results), Do(w.p, Effect(w, op)))
    ensures CallOk(Do(w.p, Effect(w, op)), results, op, w.f.ops[op], w.calls[op])
  {
    PointUndecided(w, op);
    assert CallOk(w.p, w.results, op, w.f.ops[op], w.calls[op]);
    match w.calls[op] {
      case CommitCall(id) => CommitDecides(w.p, id, w.results, op, w.f.ops[op]);
      case ReadCall(id, k) => ReadDecides(w.p, id, k, w.results, op, w.f.ops[op]);
      case GcCall(g) =>
        SameTxnsLeaveCall(w.p, Do(w.p, Effect(w, op)), w.results, op, w.f.ops[op], w.calls[op]);
    }
  }

  lemma OtherResults(p: State, results: map<nat, L.Result>, op: nat, r: L.Result, o: nat, what: F.Op, call: Call)
    requires CallOk(p, results, o, what, call) && o != op
    ensures CallOk(p, results[op := r], o, what, call)
  {
  }

  lemma SameCall(p: State, results: map<nat, L.Result>, op: nat, what: F.Op, what': F.Op, call: Call)
    requires CallOk(p, results, op, what, call)
    requires what.CommitOp? ==> what'.CommitOp? && what' == what.(stage := what'.stage)
    requires what.GetOp? ==> what'.GetOp? && what' == what.(get := what'.get)
    requires what.GcOp? ==> what'.GcOp? && what' == what.(shard := what'.shard, gc := what'.gc)
    ensures CallOk(p, results, op, what', call)
  {
  }

  // ----- every move keeps the invariant -----

  lemma WorkSimulates(w: World, op: nat)
    requires Inv(w) && Enabled(w, Work(op))
    ensures F.Inv(AfterWork(w, op).f) && L.Simulates(AfterWork(w, op).f, View(AfterWork(w, op)))
    ensures Reachable(AfterWork(w, op).p)
  {
    WorkerCalled(w, op);
    F.InvAfter(w.f, F.Advance(op));
    L.ResultsStep(w.f, View(w), op);
    L.ChainsStep(w.f, View(w), op);
    if L.Point(w.f, op).Some? {
      EffectEnabled(w, op);
      EventIsEffect(w, op);
      ReachableStep(w.p, Effect(w, op));
    }
  }

  // The calls after `op` has taken effect, with the operations as they were.
  lemma EffectCalls(w: World, op: nat, o: nat, results: map<nat, L.Result>)
    requires Inv(w) && op in w.calls && op in w.f.ops && L.Point(w.f, op).Some? && o in w.calls
    requires Protocol.Enabled(w.p, Effect(w, op))
    requires SameEvent(w, op, L.Atomic(Do(w.p, Effect(w, op)).chains, results), Do(w.p, Effect(w, op)))
    ensures o in w.f.ops && CallOk(Do(w.p, Effect(w, op)), results, o, w.f.ops[o], w.calls[o])
  {
    if o == op {
      EffectDecidesCall(w, op, results);
    } else {
      EffectLeavesCall(w, op, o);
      if !w.calls[op].GcCall? {
        var p' := Do(w.p, Effect(w, op));
        OtherResults(p', w.results, op, ResultOf(p', w.calls[op]).value, o, w.f.ops[o], w.calls[o]);
      }
    }
  }

  lemma WorkOps(w: World, op: nat)
    requires Inv(w) && Enabled(w, Work(op))
    ensures AfterWork(w, op).f.ops == w.f.ops[op := F.Next(w.f, w.f.ops[op]).0]
    ensures |AfterWork(w, op).f.shards| == |w.f.shards| && AfterWork(w, op).calls == w.calls
  {
    F.ShardedAfter(w.f, w.f.ops[op]);
  }

  lemma WorkCallOk(w: World, op: nat, o: nat)
    requires Inv(w) && Enabled(w, Work(op)) && o in w.calls
    ensures var w' := AfterWork(w, op); o in w.f.ops && CallOk(w'.p, w'.results, o, w.f.ops[o], w.calls[o])
  {
    WorkerCalled(w, op);
    if L.Point(w.f, op).Some? {
      EffectEnabled(w, op);
      EventIsEffect(w, op);
      EffectCalls(w, op, o, L.Happen(View(w), L.Point(w.f, op).value).results);
    } else {
      assert CallOk(w.p, w.results, o, w.f.ops[o], w.calls[o]);
    }
  }

  lemma WorkCalls(w: World, op: nat)
    requires Inv(w) && Enabled(w, Work(op))
    ensures CallsOk(AfterWork(w, op))
  {
    var w' := AfterWork(w, op);
    WorkerCalled(w, op);
    WorkOps(w, op);
    NextKeepsCall(w.f, w.f.ops[op]);
    forall o | o in w'.calls ensures o in w'.f.ops && CallOk(w'.p, w'.results, o, w'.f.ops[o], w'.calls[o]) {
      WorkCallOk(w, op, o);
      SameCall(w'.p, w'.results, o, w.f.ops[o], w'.f.ops[o], w.calls[o]);
    }
    forall o | o in w'.f.ops && o !in w'.calls ensures F.Finished(w'.f, w'.f.ops[o]) {
      assert F.Finished(w.f, w.f.ops[o]);
    }
  }

  // ----- the coordinators' own steps -----

  lemma LocalChains(w: World, step: Step)
    requires MayTake(w, step) && Protocol.Enabled(w.p, step)
    ensures Do(w.p, step).chains == w.p.chains
  {
    if KeepsTs(step) {
      ChainsKept(w.p, step);
    } else {
      OtherStepChains(w.p, step);
    }
  }

  lemma OtherStepChains(p: State, step: Step)
    requires Protocol.Enabled(p, step) && !KeepsTs(step) && !step.GcPrune? && !step.Crash?
    ensures Do(p, step).chains == p.chains
  {
    if step.Begin? {
      assert Do(p, step) == DoBegin(p, step.serializable);
    } else if step.CommitDone? {
      assert Do(p, step) == DoCommitDone(p, step.id);
    } else if step.EndReader? {
      assert Do(p, step) == DoEndReader(p, step.id);
    } else if step.GcBegin? {
      assert Do(p, step) == DoGcBegin(p, step.gc);
    } else if step.GcEnd? {
      assert Do(p, step) == p.(gcs := p.gcs - {step.gc});
    } else {
      assert Do(p, step) == SetPhase(p, step.id, Allocated(p.nextTs)).(nextTs := p.nextTs + 1);
    }
  }

  lemma LocalTxn(w: World, step: Step, id: nat)
    requires MayTake(w, step) && Protocol.Enabled(w.p, step) && id in w.p.txns && id < w.p.nextId && !Idle(w, id)
    ensures id in Do(w.p, step).txns && Do(w.p, step).txns[id] == w.p.txns[id]
  {
  }

  lemma LocalGc(w: World, step: Step, g: nat)
    requires MayTake(w, step) && Protocol.Enabled(w.p, step) && g in w.p.gcs
    requires exists o :: o in w.calls && w.calls[o] == GcCall(g)
    ensures g in Do(w.p, step).gcs && Do(w.p, step).gcs[g] == w.p.gcs[g]
  {
  }

  lemma LocalCall(w: World, step: Step, o: nat)
    requires Inv(w) && MayTake(w, step) && Protocol.Enabled(w.p, step) && o in w.calls
    ensures o in w.f.ops && CallOk(Do(w.p, step), w.results, o, w.f.ops[o], w.calls[o])
  {
    assert CallOk(w.p, w.results, o, w.f.ops[o], w.calls[o]);
    if w.calls[o].GcCall? {
      LocalGc(w, step, w.calls[o].gc);
    } else {
      var id := w.calls[o].txn;
      ReachableInv(w.p);
      assert Of(w.calls[o], id);
      LocalTxn(w, step, id);
    }
  }

  lemma LocalMove(w: World, step: Step)
    requires Inv(w) && Enabled(w, Local(step))
    ensures Inv(After(w, Local(step)))
  {
    var w' := After(w, Local(step));
    ReachableStep(w.p, step);
    LocalChains(w, step);
    forall o | o in w'.calls ensures o in w'.f.ops && CallOk(w'.p, w'.results, o, w'.f.ops[o], w'.calls[o]) {
      LocalCall(w, step, o);
    }
  }

  // ----- calling, returning, restarting -----

  lemma CallAlone(w: World, op: nat, call: Call, what: F.Op)
    requires CallsOk(w) && MayCall(w, call, what) && op !in w.calls
    ensures CommitsAlone(w.calls[op := call])
  {
    var calls := w.calls[op := call];
    forall a, b | a in calls && b in calls && a != b && calls[a].CommitCall?
      ensures !Of(calls[b], calls[a].txn)
    {
      if a == op {
        assert !Of(w.calls[b], call.txn);
      } else if b == op {
        assert CallOk(w.p, w.results, a, w.f.ops[a], w.calls[a]);
        assert call.CommitCall? ==> !Of(w.calls[a], call.txn);
      }
    }
  }

  lemma AskMove(w: World, op: nat, call: Call, what: F.Op)
    requires Inv(w) && Enabled(w, Ask(op, call, what))
    ensures Inv(After(w, Ask(op, call, what)))
  {
    var w' := After(w, Ask(op, call, what));
    F.InvAfter(w.f, F.Invoke(op, what));
    L.InvokeSimulates(w.f, View(w), op, what);
    assert op !in w.calls && op !in w.results;
    CallAlone(w, op, call, what);
    forall o | o in w'.calls ensures o in w'.f.ops && CallOk(w'.p, w'.results, o, w'.f.ops[o], w'.calls[o]) {
      if o != op {
        assert CallOk(w.p, w.results, o, w.f.ops[o], w.calls[o]);
      }
    }
    forall o | o in w'.f.ops && o !in w'.calls ensures F.Finished(w'.f, w'.f.ops[o]) {
      assert F.Finished(w.f, w.f.ops[o]);
    }
  }

  lemma ReturnMove(w: World, op: nat)
    requires Inv(w) && Enabled(w, Return(op))
    ensures Inv(After(w, Return(op)))
  {
    FewerCalls(w, op);
  }

  lemma FewerCalls(w: World, op: nat)
    requires CallsOk(w) && op in w.f.ops && F.Finished(w.f, w.f.ops[op])
    ensures CallsOk(w.(calls := w.calls - {op}))
  {
    var w' := w.(calls := w.calls - {op});
    forall o | o in w'.calls ensures o in w'.f.ops && CallOk(w'.p, w'.results, o, w'.f.ops[o], w'.calls[o]) {
      assert CallOk(w.p, w.results, o, w.f.ops[o], w.calls[o]);
    }
  }

  lemma RebuiltInv(f: F.Store, chains: Chains)
    requires RebuiltAs(f, chains)
    ensures F.Inv(f) && L.Simulates(f, L.Atomic(chains, map[]))
  {
    forall k ensures L.SameChain(f, L.Atomic(chains, map[]), k) {
    }
  }

  lemma RestartMove(w: World, keep: nat, f: F.Store)
    requires Inv(w) && Enabled(w, Restart(keep, f))
    ensures Inv(After(w, Restart(keep, f)))
  {
    ReachableStep(w.p, Crash(keep));
    RebuiltInv(f, Recover(w.p.log[..keep]));
  }

  lemma MoveInv(w: World, move: Move)
    requires Inv(w) && Enabled(w, move)
    ensures Inv(After(w, move))
  {
    match move
    case Local(step) => LocalMove(w, step);
    case Ask(op, call, what) => AskMove(w, op, call, what);
    case Work(op) =>
      WorkSimulates(w, op);
      WorkCalls(w, op);
    case Return(op) => ReturnMove(w, op);
    case Restart(keep, f) => RestartMove(w, keep, f);
  }

  // ----- runs -----

  ghost function Exec(w: World, moves: seq<Move>): (r: Option<World>)
    requires Inv(w)
    ensures r.Some? ==> Inv(r.value)
    decreases |moves|
  {
    if moves == [] then Some(w)
    else
      match Exec(w, moves[..|moves| - 1])
      case None => None
      case Some(m) =>
        var move := moves[|moves| - 1];
        if Enabled(m, move) then
          MoveInv(m, move);
          Some(After(m, move))
        else None
  }

  // The steps of the protocol a move takes: at most one.
  ghost function StepsOf(w: World, move: Move): seq<Step>
    requires Inv(w) && Enabled(w, move)
  {
    match move
    case Local(step) => [step]
    case Ask(_, _, _) => []
    case Work(op) =>
      WorkerCalled(w, op);
      if L.Point(w.f, op).Some? then [Effect(w, op)] else []
    case Return(_) => []
    case Restart(keep, _) => [Crash(keep)]
  }

  ghost function Projected(w: World, moves: seq<Move>): seq<Step>
    requires Inv(w) && Exec(w, moves).Some?
    decreases |moves|
  {
    if moves == [] then []
    else
      var init := moves[..|moves| - 1];
      Projected(w, init) + StepsOf(Exec(w, init).value, moves[|moves| - 1])
  }

  lemma MoveIsStep(w: World, move: Move)
    requires Inv(w) && Enabled(w, move)
    ensures Protocol.Exec(w.p, StepsOf(w, move)) == Some(After(w, move).p)
  {
    match move {
      case Local(step) => OneStep(w.p, step);
      case Ask(_, _, _) =>
      case Work(op) =>
        WorkerCalled(w, op);
        if L.Point(w.f, op).Some? {
          EffectEnabled(w, op);
          OneStep(w.p, Effect(w, op));
        }
      case Return(_) =>
      case Restart(keep, _) => OneStep(w.p, Crash(keep));
    }
  }

  // Whatever coordinators, store operations and crashes interleave, the run is one of the
  // protocol, with each store operation taken whole at one instant between its call and
  // its return.
  lemma {:induction false} RunIsProtocolRun(w: World, moves: seq<Move>)
    requires Inv(w) && Exec(w, moves).Some?
    ensures Protocol.Exec(w.p, Projected(w, moves)) == Some(Exec(w, moves).value.p)
  {
    if moves != [] {
      var init, last := moves[..|moves| - 1], moves[|moves| - 1];
      var m := Exec(w, init).value;
      RunIsProtocolRun(w, init);
      MoveIsStep(m, last);
      ExecConcat(w.p, Projected(w, init), StepsOf(m, last));
    }
  }

  function Initial(durable: bool, f: F.Store): World {
    World(Init(durable), f, map[], map[])
  }

  lemma InitialInv(durable: bool, f: F.Store)
    requires RebuiltAs(f, map[])
    ensures Inv(Initial(durable, f))
  {
    RebuiltInv(f, map[]);
    assert Protocol.Exec(Init(durable), []) == Some(Init(durable));
  }

  // What a call returns is what the protocol did: a commit is applied exactly if the
  // store says so, and a read is the replay of the commits up to the snapshot.
  lemma ReturnsAreTrue(w: World, op: nat)
    requires Inv(w) && Enabled(w, Return(op))
    ensures var what, call := w.f.ops[op], w.calls[op];
            match call
            case CommitCall(id) =>
              what.CommitOp? && what.stage.Returned? && id in w.p.txns
              && w.p.txns[id].phase == if what.stage.ok then Applied(what.commitTs) else Rejected(what.commitTs)
            case ReadCall(id, k) =>
              what.GetOp? && what.get.GetReturned? && id in w.p.txns
              && what.get.value == Lookup(History.Replay(w.p.history, w.p.txns[id].readTs), k)
            case GcCall(g) => g in w.p.gcs
  {
    assert CallOk(w.p, w.results, op, w.f.ops[op], w.calls[op]);
    assert L.Decided(w.results, op, w.f.ops[op]);
    if w.calls[op].ReadCall? {
      var id, k := w.calls[op].txn, w.calls[op].key;
      ReadsStayRight(w.p, id, k);
      SnapshotIsReplay(w.p, id, k);
    }
  }

  ghost predicate NoneApplying(f: F.Store) {
    forall op :: op in f.ops && f.ops[op].CommitOp? ==> !f.ops[op].stage.Applying?
  }

  // With no commit half applied, the shards hold the protocol's store.
  lemma ShardsAreChains(w: World, k: Key)
    requires Inv(w) && NoneApplying(w.f)
    ensures F.ChainAt(w.f, k) == ChainOf(w.p.chains, k)
  {
    assert !L.PendingKey(w.f, k);
    assert L.SameChain(w.f, View(w), k);
  }
}
