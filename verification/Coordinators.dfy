// What really runs: coordinators that know of the store only what it has returned to
// them, and the locking store. Nothing here takes a step of the protocol on the store's
// behalf; that every run follows one of the protocol is the theorem.

module Coordinators {
  import opened Types
  import opened StoreSpec
  import opened Protocol
  import opened Reach
  import opened Isolation
  import History
  import C = Concurrent
  import F = FineStore
  import L = Linearizable

  // `own` is what the coordinators, the oracle and the log hold. Of its store, history and
  // losses, which only the protocol speaks of, no move below reads anything.
  datatype Real = Real(own: State, f: F.Store, calls: map<nat, C.Call>)

  function AsWorld(r: Real): C.World {
    C.World(r.own, r.f, map[], r.calls)
  }

  ghost predicate CanMove(r: Real, move: C.Move) {
    C.Enabled(AsWorld(r), move)
  }

  // A coordinator learns what its call returned, and nothing before that.
  function Received(own: State, call: C.Call, what: F.Op): State {
    match call
    case CommitCall(id) =>
      if id in own.txns && what.CommitOp? && what.stage.Returned? then
        SetPhase(own, id, if what.stage.ok then Applied(what.commitTs) else Rejected(what.commitTs))
      else own
    case ReadCall(id, k) =>
      if id in own.txns && what.GetOp? && what.get.GetReturned? then
        own.(txns := own.txns[id := Noted(own.txns[id], k, what.get.value)])
      else own
    case GcCall(_) => own
  }

  function Noted(t: Txn, k: Key, value: Value): Txn {
    t.(observed := t.observed[k := value], readSet := if t.serializable then t.readSet + {k} else t.readSet)
  }

  ghost function Reopened(own: State, keep: nat): State
    requires keep <= |own.log|
  {
    DoCrash(own, keep).(chains := map[], history := History.Start, lost := false)
  }

  ghost function Moved(r: Real, move: C.Move): Real
    requires F.Inv(r.f) && CanMove(r, move)
  {
    match move
    case Local(step) => r.(own := Do(r.own, step))
    case Ask(op, call, what) => r.(f := F.Do(r.f, F.Invoke(op, what)), calls := r.calls[op := call])
    case Work(op) => r.(f := F.Do(r.f, F.Advance(op)))
    case Return(op) => Real(Received(r.own, r.calls[op], r.f.ops[op]), r.f, r.calls - {op})
    case Restart(keep, f) => Real(Reopened(r.own, keep), f, map[])
  }

  // ----- what the coordinators know of the protocol's state -----

  ghost predicate Committing(calls: map<nat, C.Call>, id: nat) {
    exists o :: o in calls && calls[o] == C.CommitCall(id)
  }

  // The store has answered this read, and the answer is still on its way.
  ghost predicate OnItsWay(calls: map<nat, C.Call>, results: map<nat, L.Result>, id: nat, k: Key) {
    exists o :: o in calls && o in results && calls[o] == C.ReadCall(id, k)
  }

  // A handle differs from the protocol's only in what is on its way to it.
  ghost predicate TxnFollows(calls: map<nat, C.Call>, results: map<nat, L.Result>, id: nat, own: Txn, t: Txn) {
    && own.serializable == t.serializable && own.readTs == t.readTs && own.writes == t.writes
    && (if Committing(calls, id) then own.phase.Allocated? else own.phase == t.phase)
    && (forall k :: k in own.observed ==> k in t.observed && own.observed[k] == t.observed[k])
    && (forall k :: k in t.observed ==> k in own.observed || OnItsWay(calls, results, id, k))
    && (forall k :: k in t.readSet <==> k in own.readSet || (own.serializable && OnItsWay(calls, results, id, k)))
  }

  predicate SameRest(own: State, p: State) {
    own == p.(txns := own.txns, chains := own.chains, history := own.history, lost := own.lost)
  }

  ghost predicate TxnsFollow(calls: map<nat, C.Call>, results: map<nat, L.Result>, own: map<nat, Txn>,
                             txns: map<nat, Txn>) {
    own.Keys == txns.Keys && forall id :: id in txns ==> TxnFollows(calls, results, id, own[id], txns[id])
  }

  ghost predicate Follows(w: C.World, r: Real) {
    && w.f == r.f && w.calls == r.calls && SameRest(r.own, w.p)
    && TxnsFollow(w.calls, w.results, r.own.txns, w.p.txns)
  }

  // An idle handle is the protocol's.
  lemma IdleSame(w: C.World, r: Real, id: nat)
    requires Follows(w, r) && C.Idle(w, id) && id in w.p.txns
    ensures id in r.own.txns && r.own.txns[id] == w.p.txns[id]
  {
    var a, b := r.own.txns[id], w.p.txns[id];
    assert TxnFollows(w.calls, w.results, id, a, b);
    forall k ensures !OnItsWay(w.calls, w.results, id, k) {
      forall o | o in w.calls ensures w.calls[o] != C.ReadCall(id, k) {
        assert !C.Of(w.calls[o], id);
      }
    }
    forall o | o in w.calls ensures w.calls[o] != C.CommitCall(id) {
      assert !C.Of(w.calls[o], id);
    }
    assert a.observed == b.observed;
    assert a.readSet == b.readSet;
  }

  // ----- the coordinators' own steps -----

  predicate OwnStep(step: Step) {
    !step.Read? && !step.TryCommit? && !step.GcPrune? && !step.Crash?
  }

  // The handle a step is about, if any.
  function About(s: State, step: Step): Option<nat>
    requires OwnStep(step)
  {
    match step
    case Begin(_) => Some(s.nextId)
    case Write(id, _, _) => Some(id)
    case Finish(id) => Some(id)
    case Alloc(id) => Some(id)
    case AppendRecord(id) => Some(id)
    case Sync(id, _) => Some(id)
    case AppendFail(id) => Some(id)
    case CommitDone(id) => Some(id)
    case EndReader(id) => Some(id)
    case GcBegin(_) => None
    case GcEnd(_) => None
  }

  lemma OthersKept(s: State, step: Step, id: nat)
    requires OwnStep(step) && Enabled(s, step) && About(s, step) != Some(id)
    ensures id in Do(s, step).txns <==> id in s.txns
    ensures id in s.txns ==> Do(s, step).txns[id] == s.txns[id]
  {
  }

  predicate LogStep(step: Step) {
    step.AppendRecord? || step.Sync? || step.AppendFail?
  }

  lemma SameLogStep(a: State, b: State, step: Step)
    requires SameRest(a, b) && LogStep(step) && Enabled(a, step)
    requires step.id in b.txns && a.txns[step.id] == b.txns[step.id]
    ensures Enabled(b, step) && SameRest(Do(a, step), Do(b, step))
  {
  }

  lemma SameHandleStep(a: State, b: State, step: Step)
    requires SameRest(a, b) && OwnStep(step) && !LogStep(step) && Enabled(a, step)
    requires !step.Begin? && !step.GcBegin? && !step.GcEnd?
    requires step.id in b.txns && a.txns[step.id] == b.txns[step.id]
    ensures Enabled(b, step) && SameRest(Do(a, step), Do(b, step))
  {
  }

  lemma SameGlobalStep(a: State, b: State, step: Step)
    requires SameRest(a, b) && (step.Begin? || step.GcBegin? || step.GcEnd?) && Enabled(a, step)
    ensures Enabled(b, step) && SameRest(Do(a, step), Do(b, step))
  {
  }

  lemma SameStep(a: State, b: State, step: Step)
    requires SameRest(a, b) && OwnStep(step) && Enabled(a, step)
    requires !step.Begin? && About(a, step).Some? ==> step.id in b.txns && a.txns[step.id] == b.txns[step.id]
    ensures Enabled(b, step) && SameRest(Do(a, step), Do(b, step))
  {
    if LogStep(step) {
      SameLogStep(a, b, step);
    } else if step.Begin? || step.GcBegin? || step.GcEnd? {
      SameGlobalStep(a, b, step);
    } else {
      SameHandleStep(a, b, step);
    }
  }

  lemma SameHandle(a: State, b: State, step: Step)
    requires SameRest(a, b) && OwnStep(step) && Enabled(a, step) && Enabled(b, step) && About(a, step).Some?
    requires !step.Begin? ==> a.txns[step.id] == b.txns[step.id]
    ensures var id := About(a, step).value;
            && (id in Do(a, step).txns <==> id in Do(b, step).txns)
            && (id in Do(a, step).txns ==> Do(a, step).txns[id] == Do(b, step).txns[id])
  {
  }

  // A handle with no call outstanding is known exactly.
  lemma IdleFollows(w: C.World, id: nat, t: Txn)
    requires C.Idle(w, id)
    ensures TxnFollows(w.calls, w.results, id, t, t)
  {
    forall o | o in w.calls ensures w.calls[o] != C.CommitCall(id) && forall k :: w.calls[o] != C.ReadCall(id, k) {
      assert !C.Of(w.calls[o], id);
    }
  }

  // No call was made in the name of a handle that is still to come.
  lemma NewIsIdle(w: C.World)
    requires C.Inv(w)
    ensures C.Idle(w, w.p.nextId) && w.p.nextId !in w.p.txns
  {
    ReachableInv(w.p);
    forall o | o in w.calls ensures !C.Of(w.calls[o], w.p.nextId) {
      assert C.CallOk(w.p, w.results, o, w.f.ops[o], w.calls[o]);
    }
  }

  lemma LocalMayTake(w: C.World, r: Real, step: Step)
    requires C.Inv(w) && Follows(w, r) && C.MayTake(AsWorld(r), step)
    ensures OwnStep(step) && C.MayTake(w, step)
    ensures About(w.p, step).Some? ==> C.Idle(w, About(w.p, step).value)
  {
    NewIsIdle(w);
  }

  lemma LocalStep(w: C.World, r: Real, step: Step)
    requires C.Inv(w) && Follows(w, r) && CanMove(r, C.Local(step))
    ensures OwnStep(step) && C.MayTake(w, step) && Enabled(w.p, step)
    ensures SameRest(Do(r.own, step), Do(w.p, step)) && About(r.own, step) == About(w.p, step)
  {
    LocalMayTake(w, r, step);
    if !step.Begin? && About(w.p, step).Some? {
      IdleSame(w, r, step.id);
    }
    SameStep(r.own, w.p, step);
  }

  ghost predicate FollowsAt(calls: map<nat, C.Call>, results: map<nat, L.Result>, own: map<nat, Txn>,
                            txns: map<nat, Txn>, id: nat) {
    (id in txns <==> id in own) && (id in txns ==> TxnFollows(calls, results, id, own[id], txns[id]))
  }

  lemma EachFollows(calls: map<nat, C.Call>, results: map<nat, L.Result>, own: map<nat, Txn>, txns: map<nat, Txn>)
    requires forall id :: FollowsAt(calls, results, own, txns, id)
    ensures TxnsFollow(calls, results, own, txns)
  {
    forall id ensures id in txns <==> id in own {
      assert FollowsAt(calls, results, own, txns, id);
    }
    forall id | id in txns ensures TxnFollows(calls, results, id, own[id], txns[id]) {
      assert FollowsAt(calls, results, own, txns, id);
    }
  }

  lemma LocalTxn(w: C.World, r: Real, step: Step, id: nat)
    requires C.Inv(w) && Follows(w, r) && CanMove(r, C.Local(step)) && OwnStep(step) && Enabled(w.p, step)
    ensures FollowsAt(w.calls, w.results, Do(r.own, step).txns, Do(w.p, step).txns, id)
  {
    LocalMayTake(w, r, step);
    if About(w.p, step) == Some(id) {
      if !step.Begin? {
        IdleSame(w, r, id);
      }
      SameHandle(r.own, w.p, step);
      if id in Do(w.p, step).txns {
        IdleFollows(w, id, Do(w.p, step).txns[id]);
      }
    } else {
      OthersKept(r.own, step, id);
      OthersKept(w.p, step, id);
    }
  }

  lemma LocalTxns(w: C.World, r: Real, step: Step)
    requires C.Inv(w) && Follows(w, r) && CanMove(r, C.Local(step)) && OwnStep(step) && Enabled(w.p, step)
    ensures TxnsFollow(w.calls, w.results, Do(r.own, step).txns, Do(w.p, step).txns)
  {
    forall id ensures FollowsAt(w.calls, w.results, Do(r.own, step).txns, Do(w.p, step).txns, id) {
      LocalTxn(w, r, step, id);
    }
    EachFollows(w.calls, w.results, Do(r.own, step).txns, Do(w.p, step).txns);
  }

  lemma LocalFollows(w: C.World, r: Real, step: Step)
    requires C.Inv(w) && Follows(w, r) && CanMove(r, C.Local(step))
    ensures C.Enabled(w, C.Local(step)) && Follows(C.After(w, C.Local(step)), Moved(r, C.Local(step)))
  {
    LocalStep(w, r, step);
    LocalTxns(w, r, step);
    assert C.After(w, C.Local(step)) == w.(p := Do(w.p, step));
    assert Moved(r, C.Local(step)) == r.(own := Do(r.own, step));
  }

  // ----- calls, answers and returns -----

  lemma AskAllowed(w: C.World, r: Real, call: C.Call, what: F.Op)
    requires C.Inv(w) && Follows(w, r) && C.MayCall(AsWorld(r), call, what)
    ensures C.MayCall(w, call, what)
    ensures call.CommitCall? ==> call.txn in r.own.txns && r.own.txns[call.txn].phase.Allocated?
  {
    match call {
      case CommitCall(id) => IdleSame(w, r, id);
      case ReadCall(id, k) => assert TxnFollows(w.calls, w.results, id, r.own.txns[id], w.p.txns[id]);
      case GcCall(g) =>
    }
  }

  // One more call, not answered yet.
  lemma CallAdded(calls: map<nat, C.Call>, results: map<nat, L.Result>, op: nat, call: C.Call, id: nat,
                  own: Txn, t: Txn)
    requires op !in calls && op !in results && TxnFollows(calls, results, id, own, t)
    requires call == C.CommitCall(id) ==> own.phase.Allocated?
    ensures TxnFollows(calls[op := call], results, id, own, t)
  {
    var calls' := calls[op := call];
    assert calls' - {op} == calls;
    forall k ensures OnItsWay(calls', results, id, k) <==> OnItsWay(calls, results, id, k) {
      if o :| o in calls && o in results && calls[o] == C.ReadCall(id, k) {
        assert o in calls' && calls'[o] == C.ReadCall(id, k);
      }
    }
    if o :| o in calls && calls[o] == C.CommitCall(id) {
      assert o in calls' && calls'[o] == C.CommitCall(id);
    }
    assert Committing(calls', id) <==> Committing(calls, id) || call == C.CommitCall(id) by {
      assert op in calls' && calls'[op] == call;
    }
  }

  lemma AskFollows(w: C.World, r: Real, op: nat, call: C.Call, what: F.Op)
    requires C.Inv(w) && Follows(w, r) && CanMove(r, C.Ask(op, call, what))
    ensures C.Enabled(w, C.Ask(op, call, what))
    ensures Follows(C.After(w, C.Ask(op, call, what)), Moved(r, C.Ask(op, call, what)))
  {
    AskAllowed(w, r, call, what);
    assert op !in w.calls && op !in w.results;
    forall id | id in w.p.txns
      ensures TxnFollows(w.calls[op := call], w.results, id, r.own.txns[id], w.p.txns[id])
    {
      CallAdded(w.calls, w.results, op, call, id, r.own.txns[id], w.p.txns[id]);
    }
  }

  // A commit is decided: its handle is waiting for the verdict.
  lemma CommitDecided(calls: map<nat, C.Call>, results: map<nat, L.Result>, op: nat, v: L.Result, id: nat,
                      own: Txn, t: Txn, t': Txn)
    requires op in calls && calls[op].CommitCall? && TxnFollows(calls, results, id, own, t)
    requires t' == t.(phase := t'.phase) && (t' == t || calls[op].txn == id)
    ensures TxnFollows(calls, results[op := v], id, own, t')
  {
    var results' := results[op := v];
    forall k ensures OnItsWay(calls, results', id, k) <==> OnItsWay(calls, results, id, k) {
      if o :| o in calls && o in results && calls[o] == C.ReadCall(id, k) {
        assert o in results';
      }
    }
    assert t' != t ==> Committing(calls, id);
  }

  // A read is decided: its value is on its way.
  lemma ReadDecided(calls: map<nat, C.Call>, results: map<nat, L.Result>, op: nat, v: L.Result, j: Key, value: Value,
                    id: nat, own: Txn, t: Txn)
    requires op in calls && op !in results && calls[op] == C.ReadCall(id, j)
    requires TxnFollows(calls, results, id, own, t) && (j in t.observed ==> t.observed[j] == value)
    ensures TxnFollows(calls, results[op := v], id, own, Noted(t, j, value))
  {
    var results' := results[op := v];
    forall k ensures OnItsWay(calls, results', id, k) <==> OnItsWay(calls, results, id, k) || k == j {
      if o :| o in calls && o in results && calls[o] == C.ReadCall(id, k) {
        assert o in results';
      }
      assert op in calls && op in results';
    }
  }

  lemma OtherRead(calls: map<nat, C.Call>, results: map<nat, L.Result>, op: nat, v: L.Result, id: nat, own: Txn, t: Txn)
    requires op in calls && !C.Of(calls[op], id) && TxnFollows(calls, results, id, own, t)
    ensures TxnFollows(calls, results[op := v], id, own, t)
  {
    var results' := results[op := v];
    forall k ensures OnItsWay(calls, results', id, k) <==> OnItsWay(calls, results, id, k) {
      if o :| o in calls && o in results && calls[o] == C.ReadCall(id, k) {
        assert o in results';
      }
    }
  }

  // All that the verdict changes for a handle is its phase.
  lemma VerdictTxns(p: State, id: nat, x: nat)
    requires id in p.txns && p.txns[id].phase.Allocated?
    ensures var p' := DoTryCommit(p, id);
            && p'.txns.Keys == p.txns.Keys
            && (x in p.txns ==> p'.txns[x] == p.txns[x].(phase := p'.txns[x].phase))
            && (x in p.txns && x != id ==> p'.txns[x] == p.txns[x])
  {
  }

  lemma CommitEffect(w: C.World, r: Real, op: nat, id: nat, v: L.Result)
    requires Follows(w, r) && op in w.calls && w.calls[op] == C.CommitCall(id)
    requires id in w.p.txns && w.p.txns[id].phase.Allocated?
    ensures TxnsFollow(w.calls, w.results[op := v], r.own.txns, DoTryCommit(w.p, id).txns)
  {
    VerdictTxns(w.p, id, id);
    var a, b, c := r.own.txns, w.p.txns, DoTryCommit(w.p, id).txns;
    forall x | x in c ensures TxnFollows(w.calls, w.results[op := v], x, a[x], c[x]) {
      VerdictTxns(w.p, id, x);
      CommitDecided(w.calls, w.results, op, v, x, a[x], b[x], c[x]);
    }
  }

  lemma CommitRest(own: State, p: State, id: nat)
    requires SameRest(own, p) && id in p.txns && p.txns[id].phase.Allocated?
    ensures SameRest(own, DoTryCommit(p, id))
  {
  }

  lemma ReadEffect(w: C.World, r: Real, op: nat, id: nat, k: Key, v: L.Result)
    requires C.Inv(w) && Follows(w, r) && op in w.calls && op !in w.results && w.calls[op] == C.ReadCall(id, k)
    requires id in w.p.txns
    ensures SameRest(r.own, DoRead(w.p, id, k))
    ensures TxnsFollow(w.calls, w.results[op := v], r.own.txns, DoRead(w.p, id, k).txns)
  {
    var p' := DoRead(w.p, id, k);
    assert p'.txns.Keys == w.p.txns.Keys;
    forall x | x in p'.txns ensures TxnFollows(w.calls, w.results[op := v], x, r.own.txns[x], p'.txns[x]) {
      if x == id {
        if k in w.p.txns[id].observed {
          C.ReadAgain(w.p, id, k, k);
        }
        ReadDecided(w.calls, w.results, op, v, k, p'.txns[id].observed[k], id, r.own.txns[id], w.p.txns[id]);
      } else {
        OtherRead(w.calls, w.results, op, v, x, r.own.txns[x], w.p.txns[x]);
      }
    }
  }

  // The store has acted; the coordinators have not heard of it.
  lemma EffectFollows(w: C.World, r: Real, op: nat, results: map<nat, L.Result>)
    requires C.Inv(w) && Follows(w, r) && op in w.calls && op in w.f.ops && L.Point(w.f, op).Some?
    requires Enabled(w.p, C.Effect(w, op))
    requires C.SameEvent(w, op, L.Atomic(Do(w.p, C.Effect(w, op)).chains, results), Do(w.p, C.Effect(w, op)))
    ensures SameRest(r.own, Do(w.p, C.Effect(w, op)))
    ensures TxnsFollow(w.calls, results, r.own.txns, Do(w.p, C.Effect(w, op)).txns)
  {
    C.PointUndecided(w, op);
    var p' := Do(w.p, C.Effect(w, op));
    match w.calls[op] {
      case CommitCall(id) =>
        CommitRest(r.own, w.p, id);
        CommitEffect(w, r, op, id, C.ResultOf(p', w.calls[op]).value);
      case ReadCall(id, k) => ReadEffect(w, r, op, id, k, C.ResultOf(p', w.calls[op]).value);
      case GcCall(g) =>
    }
  }

  lemma WorkFollows(w: C.World, r: Real, op: nat)
    requires C.Inv(w) && Follows(w, r) && CanMove(r, C.Work(op))
    ensures C.Enabled(w, C.Work(op)) && Follows(C.After(w, C.Work(op)), Moved(r, C.Work(op)))
  {
    C.WorkerCalled(w, op);
    assert Moved(r, C.Work(op)) == r.(f := F.Do(r.f, F.Advance(op)));
    assert C.After(w, C.Work(op)) == C.AfterWork(w, op);
    if L.Point(w.f, op).Some? {
      C.EffectEnabled(w, op);
      C.EventIsEffect(w, op);
      EffectFollows(w, r, op, L.Happen(C.View(w), L.Point(w.f, op).value).results);
    }
  }

  // A verdict arrives.
  lemma VerdictReceived(calls: map<nat, C.Call>, results: map<nat, L.Result>, op: nat, id: nat, x: nat,
                        own: Txn, t: Txn)
    requires op in calls && calls[op] == C.CommitCall(id) && C.CommitsAlone(calls)
    requires TxnFollows(calls, results, x, own, t)
    ensures TxnFollows(calls - {op}, results, x, if x == id then own.(phase := t.phase) else own, t)
  {
    var calls' := calls - {op};
    forall k ensures OnItsWay(calls', results, x, k) <==> OnItsWay(calls, results, x, k) {
      if o :| o in calls && o in results && calls[o] == C.ReadCall(x, k) {
        assert o in calls' && calls'[o] == C.ReadCall(x, k);
      }
    }
    if x == id {
      forall o | o in calls' ensures calls'[o] != C.CommitCall(x) {
        assert calls[op].CommitCall? && !C.Of(calls[o], id);
      }
    } else if o :| o in calls && calls[o] == C.CommitCall(x) {
      assert o in calls' && calls'[o] == C.CommitCall(x);
    }
  }

  // A value arrives.
  lemma ValueReceived(calls: map<nat, C.Call>, results: map<nat, L.Result>, op: nat, id: nat, j: Key, value: Value,
                      own: Txn, t: Txn)
    requires op in calls && op in results && calls[op] == C.ReadCall(id, j)
    requires TxnFollows(calls, results, id, own, t) && j in t.observed && t.observed[j] == value
    ensures TxnFollows(calls - {op}, results, id, Noted(own, j, value), t)
  {
    var calls' := calls - {op};
    forall k | k != j ensures OnItsWay(calls', results, id, k) <==> OnItsWay(calls, results, id, k) {
      if o :| o in calls && o in results && calls[o] == C.ReadCall(id, k) {
        assert o in calls' && calls'[o] == C.ReadCall(id, k);
      }
    }
    assert OnItsWay(calls, results, id, j);
    if o :| o in calls && calls[o] == C.CommitCall(id) {
      assert o in calls' && calls'[o] == C.CommitCall(id);
    }
  }

  lemma NotReturned(calls: map<nat, C.Call>, results: map<nat, L.Result>, op: nat, x: nat, own: Txn, t: Txn)
    requires op in calls && !C.Of(calls[op], x) && TxnFollows(calls, results, x, own, t)
    ensures TxnFollows(calls - {op}, results, x, own, t)
  {
    var calls' := calls - {op};
    forall k ensures OnItsWay(calls', results, x, k) <==> OnItsWay(calls, results, x, k) {
      if o :| o in calls && o in results && calls[o] == C.ReadCall(x, k) {
        assert o in calls' && calls'[o] == C.ReadCall(x, k);
      }
    }
    if o :| o in calls && calls[o] == C.CommitCall(x) {
      assert o in calls' && calls'[o] == C.CommitCall(x);
    }
  }

  lemma CommitReturns(w: C.World, r: Real, op: nat, id: nat)
    requires C.Inv(w) && Follows(w, r) && C.Enabled(w, C.Return(op)) && w.calls[op] == C.CommitCall(id)
    ensures var own := Received(r.own, w.calls[op], w.f.ops[op]);
            SameRest(own, w.p) && TxnsFollow(w.calls - {op}, w.results, own.txns, w.p.txns)
  {
    C.ReturnsAreTrue(w, op);
    var own := Received(r.own, w.calls[op], w.f.ops[op]);
    assert own == SetPhase(r.own, id, w.p.txns[id].phase);
    forall x | x in w.p.txns ensures TxnFollows(w.calls - {op}, w.results, x, own.txns[x], w.p.txns[x]) {
      VerdictReceived(w.calls, w.results, op, id, x, r.own.txns[x], w.p.txns[x]);
    }
  }

  lemma AnswerIsRead(w: C.World, op: nat, id: nat, k: Key)
    requires C.Inv(w) && C.Enabled(w, C.Return(op)) && w.calls[op] == C.ReadCall(id, k)
    ensures w.f.ops[op].GetOp? && w.f.ops[op].get.GetReturned? && op in w.results && id in w.p.txns
    ensures k in w.p.txns[id].observed && w.p.txns[id].observed[k] == w.f.ops[op].get.value
  {
    assert L.Decided(w.results, op, w.f.ops[op]);
    assert C.CallOk(w.p, w.results, op, w.f.ops[op], w.calls[op]);
  }

  lemma ReadReturns(w: C.World, r: Real, op: nat, id: nat, k: Key)
    requires C.Inv(w) && Follows(w, r) && C.Enabled(w, C.Return(op)) && w.calls[op] == C.ReadCall(id, k)
    ensures var own := Received(r.own, w.calls[op], w.f.ops[op]);
            SameRest(own, w.p) && TxnsFollow(w.calls - {op}, w.results, own.txns, w.p.txns)
  {
    AnswerIsRead(w, op, id, k);
    var value := w.f.ops[op].get.value;
    var own := Received(r.own, w.calls[op], w.f.ops[op]);
    assert own.txns == r.own.txns[id := Noted(r.own.txns[id], k, value)];
    forall x | x in w.p.txns ensures TxnFollows(w.calls - {op}, w.results, x, own.txns[x], w.p.txns[x]) {
      if x == id {
        ValueReceived(w.calls, w.results, op, id, k, value, r.own.txns[id], w.p.txns[id]);
      } else {
        NotReturned(w.calls, w.results, op, x, r.own.txns[x], w.p.txns[x]);
      }
    }
  }

  lemma GcReturns(w: C.World, r: Real, op: nat)
    requires C.Inv(w) && Follows(w, r) && C.Enabled(w, C.Return(op)) && w.calls[op].GcCall?
    ensures TxnsFollow(w.calls - {op}, w.results, r.own.txns, w.p.txns)
  {
    forall x | x in w.p.txns ensures TxnFollows(w.calls - {op}, w.results, x, r.own.txns[x], w.p.txns[x]) {
      NotReturned(w.calls, w.results, op, x, r.own.txns[x], w.p.txns[x]);
    }
  }

  lemma ReturnFollows(w: C.World, r: Real, op: nat)
    requires C.Inv(w) && Follows(w, r) && CanMove(r, C.Return(op))
    ensures C.Enabled(w, C.Return(op)) && Follows(C.After(w, C.Return(op)), Moved(r, C.Return(op)))
  {
    assert C.Enabled(w, C.Return(op));
    assert C.After(w, C.Return(op)) == w.(calls := w.calls - {op});
    match w.calls[op] {
      case CommitCall(id) => CommitReturns(w, r, op, id);
      case ReadCall(id, k) => ReadReturns(w, r, op, id, k);
      case GcCall(_) => GcReturns(w, r, op);
    }
  }

  lemma RestartFollows(w: C.World, r: Real, keep: nat, f: F.Store)
    requires C.Inv(w) && Follows(w, r) && CanMove(r, C.Restart(keep, f))
    ensures C.Enabled(w, C.Restart(keep, f))
    ensures Follows(C.After(w, C.Restart(keep, f)), Moved(r, C.Restart(keep, f)))
  {
  }

  // ----- runs -----

  lemma MoveFollows(w: C.World, r: Real, move: C.Move)
    requires C.Inv(w) && Follows(w, r) && CanMove(r, move)
    ensures C.Enabled(w, move) && Follows(C.After(w, move), Moved(r, move))
  {
    match move
    case Local(step) => LocalFollows(w, r, step);
    case Ask(op, call, what) => AskFollows(w, r, op, call, what);
    case Work(op) => WorkFollows(w, r, op);
    case Return(op) => ReturnFollows(w, r, op);
    case Restart(keep, f) => RestartFollows(w, r, keep, f);
  }

  // The locks keep their order whatever the coordinators know.
  lemma StoreInv(r: Real, move: C.Move)
    requires F.Inv(r.f) && CanMove(r, move)
    ensures F.Inv(Moved(r, move).f)
  {
    match move
    case Local(_) =>
    case Ask(op, call, what) => F.InvAfter(r.f, F.Invoke(op, what));
    case Work(op) => F.InvAfter(r.f, F.Advance(op));
    case Return(_) =>
    case Restart(keep, f) => C.RebuiltInv(f, Recover(r.own.log[..keep]));
  }

  ghost function Run(r: Real, moves: seq<C.Move>): (end: Option<Real>)
    requires F.Inv(r.f)
    ensures end.Some? ==> F.Inv(end.value.f)
    decreases |moves|
  {
    if moves == [] then Some(r)
    else
      match Run(r, moves[..|moves| - 1])
      case None => None
      case Some(m) =>
        var move := moves[|moves| - 1];
        if CanMove(m, move) then
          StoreInv(m, move);
          Some(Moved(m, move))
        else None
  }

  lemma {:induction false} RunFollows(w: C.World, r: Real, moves: seq<C.Move>)
    requires C.Inv(w) && Follows(w, r) && Run(r, moves).Some?
    ensures C.Exec(w, moves).Some? && Follows(C.Exec(w, moves).value, Run(r, moves).value)
  {
    if moves != [] {
      var init, last := moves[..|moves| - 1], moves[|moves| - 1];
      RunFollows(w, r, init);
      MoveFollows(C.Exec(w, init).value, Run(r, init).value, last);
    }
  }

  // What the coordinators, the store and the log look like beside a state of the protocol.
  ghost predicate Matches(r: Real, p: State) {
    && SameRest(r.own, p) && r.own.txns.Keys == p.txns.Keys
    && (forall id :: id in p.txns && C.Idle(AsWorld(r), id) ==> r.own.txns[id] == p.txns[id])
    && (forall id, k :: id in r.own.txns && k in r.own.txns[id].observed ==>
          r.own.txns[id].observed[k] == Lookup(History.Replay(p.history, r.own.txns[id].readTs), k))
    && (C.NoneApplying(r.f) ==> forall k :: F.ChainAt(r.f, k) == ChainOf(p.chains, k))
  }

  lemma FollowsMatches(w: C.World, r: Real)
    requires C.Inv(w) && Follows(w, r)
    ensures Matches(r, w.p)
  {
    forall id | id in w.p.txns && C.Idle(AsWorld(r), id) ensures r.own.txns[id] == w.p.txns[id] {
      IdleSame(w, r, id);
    }
    forall id, k | id in r.own.txns && k in r.own.txns[id].observed
      ensures r.own.txns[id].observed[k] == Lookup(History.Replay(w.p.history, r.own.txns[id].readTs), k)
    {
      assert TxnFollows(w.calls, w.results, id, r.own.txns[id], w.p.txns[id]);
      ReadsStayRight(w.p, id, k);
      SnapshotIsReplay(w.p, id, k);
    }
    forall k | C.NoneApplying(r.f) ensures F.ChainAt(r.f, k) == ChainOf(w.p.chains, k) {
      C.ShardsAreChains(w, k);
    }
  }

  function Opened(durable: bool, f: F.Store): Real {
    Real(Init(durable), f, map[])
  }

  // Whatever coordinators, store operations and crashes interleave, a fresh database
  // behaves as the protocol does: some run of it has the same oracle, log and idle
  // handles, every value handed to a handle is that run's replay up to its snapshot, and
  // with no commit half applied the shards are that run's store.
  lemma RealRunIsProtocolRun(durable: bool, f: F.Store, moves: seq<C.Move>)
    requires C.RebuiltAs(f, map[])
    ensures F.Inv(f)
    ensures Run(Opened(durable, f), moves).Some? ==>
              exists steps :: Exec(Init(durable), steps).Some?
                              && Matches(Run(Opened(durable, f), moves).value, Exec(Init(durable), steps).value)
  {
    var w, r := C.Initial(durable, f), Opened(durable, f);
    C.InitialInv(durable, f);
    if Run(r, moves).Some? {
      assert Follows(w, r);
      RunFollows(w, r, moves);
      C.RunIsProtocolRun(w, moves);
      FollowsMatches(C.Exec(w, moves).value, Run(r, moves).value);
    }
  }
}
