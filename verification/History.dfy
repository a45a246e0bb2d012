// The committed transactions of a run, in the order in which they passed through
// the store's `try_commit`, and what follows from how each of them was validated.

module History {
  import opened Types
  import opened VersionChain

  // A transaction whose commit was applied. `observed` records every value it read
  // from its snapshot, `readSet` the read set that was validated.
  datatype Committed = Committed(
    id: nat,
    serializable: bool,
    readTs: nat,
    commitTs: nat,
    observed: map<Key, Value>,
    readSet: set<Key>,
    writes: WriteSet)

  // Transactions in apply order, the latest one outermost.
  datatype History = Start | Commit(prev: History, last: Committed)

  ghost function Entries(h: History): set<Committed> {
    match h
    case Start => {}
    case Commit(p, e) => Entries(p) + {e}
  }

  ghost predicate HasTs(h: History, ts: nat) {
    exists e :: e in Entries(h) && e.commitTs == ts
  }

  // Every version of `k` ever applied, in apply order: the chain as it would be
  // if garbage collection never ran.
  ghost function FullChain(h: History, k: Key): Chain {
    match h
    case Start => []
    case Commit(p, e) =>
      if k in e.writes then FullChain(p, k) + [Version(e.commitTs, e.writes[k])] else FullChain(p, k)
  }

  // The newest value of every key after running the writers one at a time.
  ghost function SerialState(h: History): WriteSet {
    match h
    case Start => map[]
    case Commit(p, e) => SerialState(p) + e.writes
  }

  // The write set committed at timestamp `ts`, if any.
  ghost function WritesAt(h: History, ts: nat): WriteSet {
    match h
    case Start => map[]
    case Commit(p, e) => if e.commitTs == ts then e.writes else WritesAt(p, ts)
  }

  // The committed write sets replayed in timestamp order up to `r`: what a snapshot
  // at `r` is meant to show.
  ghost function Replay(h: History, r: nat): WriteSet {
    if r == 0 then map[] else Replay(h, r - 1) + WritesAt(h, r)
  }

  // How a commit stands to the ones applied before it.
  ghost predicate Admitted(p: History, e: Committed, faithful: bool) {
    && e.readTs < e.commitTs
    && e.writes != map[]
    && (forall x :: x in Entries(p) ==> x.commitTs != e.commitTs && x.readTs < e.commitTs && x.id != e.id)
    && (forall k :: k in e.writes || k in e.readSet ==> !NewerThan(FullChain(p, k), e.readTs))
    && (e.serializable ==> e.observed.Keys <= e.readSet + e.writes.Keys)
    && (faithful ==> forall k :: k in e.observed ==> e.observed[k] == VisibleValue(FullChain(p, k), e.readTs))
  }

  // `faithful` is given up only once a crash has lost commits that others had read.
  ghost predicate WellFormed(h: History, faithful: bool) {
    match h
    case Start => true
    case Commit(p, e) => WellFormed(p, faithful) && Admitted(p, e, faithful)
  }

  // ----- the chain of a key -----

  lemma {:induction false} ChainHolds(h: History, k: Key, v: Version)
    ensures v in FullChain(h, k) <==>
            exists e :: e in Entries(h) && k in e.writes && v == Version(e.commitTs, e.writes[k])
  {
    match h
    case Start =>
    case Commit(p, e) =>
      ChainHolds(p, k, v);
      if k in e.writes {
        assert v in FullChain(h, k) <==> v in FullChain(p, k) || v == Version(e.commitTs, e.writes[k]);
      }
      assert e in Entries(h);
  }

  // Every push is strictly newer than the chain it lands on, although commits apply
  // out of timestamp order.
  lemma {:induction false} ChainAscends(h: History, faithful: bool, k: Key)
    requires WellFormed(h, faithful)
    ensures Ascending(FullChain(h, k))
  {
    match h
    case Start =>
    case Commit(p, e) =>
      ChainAscends(p, faithful, k);
  }

  // The version `e` pushed on `k` is no newer than the end of a chain that holds it.
  lemma PushedNotNewer(p: History, faithful: bool, e: Committed, k: Key, r: nat)
    requires WellFormed(p, faithful) && e in Entries(p) && k in e.writes
    requires !NewerThan(FullChain(p, k), r)
    ensures e.commitTs <= r
  {
    ChainHolds(p, k, Version(e.commitTs, e.writes[k]));
    ChainAscends(p, faithful, k);
    LastIsNewest(FullChain(p, k), Version(e.commitTs, e.writes[k]));
  }

  ghost predicate AppliedBefore(h: History, a: Committed, b: Committed) {
    match h
    case Start => false
    case Commit(p, e) => if b == e then a in Entries(p) else AppliedBefore(p, a, b)
  }

  // First committer wins, over the whole history: of two transactions that wrote a
  // common key, the later one by timestamp was also applied later, and had the
  // earlier one in its snapshot.
  lemma {:induction false} FirstCommitterWins(h: History, faithful: bool, a: Committed, b: Committed, k: Key)
    requires WellFormed(h, faithful)
    requires a in Entries(h) && b in Entries(h) && a.commitTs < b.commitTs
    requires k in a.writes && k in b.writes
    ensures a.commitTs <= b.readTs
    ensures AppliedBefore(h, a, b)
  {
    var Commit(p, e) := h;
    if b == e {
      PushedNotNewer(p, faithful, a, k, b.readTs);
    } else if a == e {
      PushedNotNewer(p, faithful, b, k, a.readTs);
      assert false;
    } else {
      FirstCommitterWins(p, faithful, a, b, k);
    }
  }

  lemma {:induction false} UniqueTs(h: History, faithful: bool, a: Committed, b: Committed)
    requires WellFormed(h, faithful) && a in Entries(h) && b in Entries(h) && a.commitTs == b.commitTs
    ensures a == b
  {
    var Commit(p, e) := h;
    if a != e && b != e {
      UniqueTs(p, faithful, a, b);
    }
  }

  lemma {:induction false} WritesSomething(h: History, faithful: bool, e: Committed)
    requires WellFormed(h, faithful) && e in Entries(h)
    ensures e.writes != map[] && exists k :: k in e.writes
  {
    var Commit(p, last) := h;
    if e != last {
      WritesSomething(p, faithful, e);
    } else {
      NonEmptyMap(e.writes);
    }
  }

  lemma NonEmptyMap(m: WriteSet)
    requires m != map[]
    ensures exists k :: k in m
  {
    assert (forall k :: k !in m) ==> m == map[];
  }

  lemma {:induction false} ReadsBeforeCommit(h: History, faithful: bool)
    requires WellFormed(h, faithful)
    ensures forall e :: e in Entries(h) ==> e.readTs < e.commitTs
  {
    match h
    case Start =>
    case Commit(p, e) => ReadsBeforeCommit(p, faithful);
  }

  // ----- snapshots -----

  lemma {:induction false} WritesAtHolds(h: History, faithful: bool, ts: nat, k: Key)
    requires WellFormed(h, faithful)
    ensures k in WritesAt(h, ts) <==> exists e :: e in Entries(h) && e.commitTs == ts && k in e.writes
    ensures forall e :: e in Entries(h) && e.commitTs == ts ==> WritesAt(h, ts) == e.writes
  {
    match h
    case Start =>
    case Commit(p, e) =>
      WritesAtHolds(p, faithful, ts, k);
      assert e in Entries(h);
  }

  lemma VisibleAtOwnTs(c: Chain, r: nat, v: Version)
    requires Ascending(c) && v in c && v.commitTs == r
    ensures VisibleValue(c, r) == v.value
  {
    var i :| 0 <= i < |c| && c[i] == v;
    VisibleIsNewest(c, r, i);
  }

  lemma VisibleBelowGap(c: Chain, r: nat)
    requires Ascending(c) && r > 0 && forall v :: v in c ==> v.commitTs != r
    ensures VisibleValue(c, r) == VisibleValue(c, r - 1)
  {
    var n := PartitionPoint(c, r);
    assert n > 0 ==> c[n - 1] in c;
    PartitionPointIs(c, r - 1, n);
  }

  lemma {:induction false} NoVersionAtZero(h: History, faithful: bool, k: Key)
    requires WellFormed(h, faithful)
    ensures forall v :: v in FullChain(h, k) ==> 0 < v.commitTs
  {
    match h
    case Start =>
    case Commit(p, e) => NoVersionAtZero(p, faithful, k);
  }

  // A snapshot read is the timestamp-order replay of whole write sets up to the
  // snapshot: it never shows part of a commit.
  lemma {:induction false} ReadIsReplay(h: History, faithful: bool, k: Key, r: nat)
    requires WellFormed(h, faithful)
    ensures VisibleValue(FullChain(h, k), r) == Lookup(Replay(h, r), k)
    decreases r
  {
    var c := FullChain(h, k);
    ChainAscends(h, faithful, k);
    NoVersionAtZero(h, faithful, k);
    if r == 0 {
      assert forall j :: 0 <= j < |c| ==> c[j] in c;
      VisibleIsAbsent(c, r);
    } else {
      ReadIsReplay(h, faithful, k, r - 1);
      WritesAtHolds(h, faithful, r, k);
      if k in WritesAt(h, r) {
        var e :| e in Entries(h) && e.commitTs == r && k in e.writes;
        ChainHolds(h, k, Version(r, e.writes[k]));
        VisibleAtOwnTs(c, r, Version(r, e.writes[k]));
      } else {
        forall v | v in c ensures v.commitTs != r {
          ChainHolds(h, k, v);
        }
        VisibleBelowGap(c, r);
      }
    }
  }

  // A later commit changes nothing at or below a snapshot older than itself.
  lemma LaterCommitInvisible(h: History, e: Committed, faithful: bool, k: Key, r: nat)
    requires WellFormed(Commit(h, e), faithful) && r < e.commitTs
    ensures VisibleValue(FullChain(Commit(h, e), k), r) == VisibleValue(FullChain(h, k), r)
  {
    ChainAscends(Commit(h, e), faithful, k);
    if k in e.writes {
      VisibleAfterPush(FullChain(h, k), Version(e.commitTs, e.writes[k]), r);
    }
  }

  // What a transaction read is what a snapshot at its read timestamp shows in the
  // whole history, including all the commits applied after it.
  lemma {:induction false} ObservedStays(h: History, e: Committed, k: Key)
    requires WellFormed(h, true) && e in Entries(h) && k in e.observed
    ensures e.observed[k] == VisibleValue(FullChain(h, k), e.readTs)
  {
    var Commit(p, last) := h;
    if e == last {
      LaterCommitInvisible(p, last, true, k, e.readTs);
    } else {
      ObservedStays(p, e, k);
      LaterCommitInvisible(p, last, true, k, e.readTs);
    }
  }

  // ----- serial order -----

  lemma {:induction false} SerialIsNewest(h: History, k: Key)
    ensures var c := FullChain(h, k);
            Lookup(SerialState(h), k) == if c == [] then None else c[|c| - 1].value
  {
    match h
    case Start =>
    case Commit(p, e) => SerialIsNewest(p, k);
  }

  // Running the writers one at a time in apply order reproduces every value the
  // serializable ones read.
  ghost predicate Reproduces(h: History) {
    match h
    case Start => true
    case Commit(p, e) =>
      Reproduces(p) &&
      (e.serializable ==> forall k :: k in e.observed ==> e.observed[k] == Lookup(SerialState(p), k))
  }

  // Every value `e` read is what a snapshot at its read timestamp shows in `h`.
  ghost predicate ReadsAgree(h: History, e: Committed) {
    forall k :: k in e.observed ==> e.observed[k] == VisibleValue(FullChain(h, k), e.readTs)
  }

  // What validation protects: the snapshot of a key is its serial value up to the commit.
  lemma SnapshotIsSerial(p: History, e: Committed, k: Key)
    requires WellFormed(Commit(p, e), false) && (k in e.readSet || k in e.writes)
    ensures VisibleValue(FullChain(Commit(p, e), k), e.readTs) == Lookup(SerialState(p), k)
  {
    LaterCommitInvisible(p, e, false, k, e.readTs);
    ChainAscends(p, false, k);
    VisibleIsLast(FullChain(p, k), e.readTs);
    SerialIsNewest(p, k);
  }

  lemma ReadsAgreeBefore(p: History, e: Committed, x: Committed)
    requires WellFormed(Commit(p, e), false) && x in Entries(p)
    ensures ReadsAgree(Commit(p, e), x) <==> ReadsAgree(p, x)
  {
    forall k ensures VisibleValue(FullChain(Commit(p, e), k), x.readTs) == VisibleValue(FullChain(p, k), x.readTs) {
      LaterCommitInvisible(p, e, false, k, x.readTs);
    }
  }

  // Exactly when the apply order is a serial order, also for a history that has lost
  // commits: when every serializable writer's snapshot still shows what it read.
  lemma {:induction false} ReproducesExactly(h: History)
    requires WellFormed(h, false)
    ensures Reproduces(h) <==> forall e :: e in Entries(h) && e.serializable ==> ReadsAgree(h, e)
  {
    match h
    case Start =>
    case Commit(p, e) =>
      ReproducesExactly(p);
      forall x | x in Entries(p) ensures ReadsAgree(h, x) <==> ReadsAgree(p, x) {
        ReadsAgreeBefore(p, e, x);
      }
      forall k | k in e.readSet || k in e.writes
        ensures VisibleValue(FullChain(h, k), e.readTs) == Lookup(SerialState(p), k)
      {
        SnapshotIsSerial(p, e, k);
      }
  }

  lemma ApplyOrderIsSerial(h: History)
    requires WellFormed(h, true)
    ensures Reproduces(h)
  {
    WeakenFaithful(h);
    ReproducesExactly(h);
    forall e, k | e in Entries(h) && k in e.observed ensures e.observed[k] == VisibleValue(FullChain(h, k), e.readTs) {
      ObservedStays(h, e, k);
    }
  }

  // ----- the part of a history that survives a crash -----

  ghost function Restrict(h: History, kept: set<nat>): History {
    match h
    case Start => Start
    case Commit(p, e) => if e.commitTs in kept then Commit(Restrict(p, kept), e) else Restrict(p, kept)
  }

  lemma {:induction false} RestrictEntries(h: History, kept: set<nat>)
    ensures forall e :: e in Entries(Restrict(h, kept)) <==> e in Entries(h) && e.commitTs in kept
  {
    match h
    case Start =>
    case Commit(p, e) => RestrictEntries(p, kept);
  }

  lemma {:induction false} RestrictChain(h: History, kept: set<nat>, k: Key, v: Version)
    ensures v in FullChain(Restrict(h, kept), k) <==> v in FullChain(h, k) && v.commitTs in kept
  {
    match h
    case Start =>
    case Commit(p, e) => RestrictChain(p, kept, k, v);
  }

  // The survivors include every commit at or below the snapshot of a survivor.
  ghost predicate CausallyClosed(h: History, kept: set<nat>) {
    forall e, x :: e in Entries(h) && e.commitTs in kept && x in Entries(h) && x.commitTs <= e.readTs
                   ==> x.commitTs in kept
  }

  lemma RestrictVisible(h: History, faithful: bool, kept: set<nat>, k: Key, r: nat)
    requires WellFormed(h, faithful) && WellFormed(Restrict(h, kept), false)
    requires forall x :: x in Entries(h) && x.commitTs <= r ==> x.commitTs in kept
    ensures VisibleValue(FullChain(Restrict(h, kept), k), r) == VisibleValue(FullChain(h, k), r)
  {
    ChainAscends(h, faithful, k);
    ChainAscends(Restrict(h, kept), false, k);
    forall v: Version | v.commitTs <= r
      ensures v in FullChain(Restrict(h, kept), k) <==> v in FullChain(h, k)
    {
      RestrictChain(h, kept, k, v);
      ChainHolds(h, k, v);
    }
    VisibleAgree(FullChain(Restrict(h, kept), k), FullChain(h, k), r);
  }

  lemma RestrictNotNewer(h: History, faithful: bool, kept: set<nat>, k: Key, r: nat)
    requires WellFormed(h, faithful) && !NewerThan(FullChain(h, k), r)
    ensures !NewerThan(FullChain(Restrict(h, kept), k), r)
  {
    var c, d := FullChain(h, k), FullChain(Restrict(h, kept), k);
    if d != [] {
      assert d[|d| - 1] in d;
      RestrictChain(h, kept, k, d[|d| - 1]);
      ChainAscends(h, faithful, k);
      LastIsNewest(c, d[|d| - 1]);
    }
  }

  // The newest value at or below `r` among the versions whose timestamps are kept.
  ghost function SurvivingValue(c: Chain, kept: set<nat>, r: nat): Value {
    if c == [] then None
    else
      var last := c[|c| - 1];
      if last.commitTs in kept && last.commitTs <= r then last.value
      else SurvivingValue(c[..|c| - 1], kept, r)
  }

  // What a snapshot shows once only the commits in `kept` are left.
  lemma {:induction false} RestrictShows(h: History, faithful: bool, kept: set<nat>, k: Key, r: nat)
    requires WellFormed(h, faithful)
    ensures VisibleValue(FullChain(Restrict(h, kept), k), r) == SurvivingValue(FullChain(h, k), kept, r)
  {
    match h
    case Start =>
    case Commit(p, e) =>
      RestrictShows(p, faithful, kept, k, r);
      if k in e.writes {
        var c, v := FullChain(p, k), Version(e.commitTs, e.writes[k]);
        assert (c + [v])[..|c|] == c;
        if e.commitTs in kept {
          RestrictWellFormed(h, faithful, kept, false);
          ChainAscends(Restrict(h, kept), false, k);
          VisibleAfterPush(FullChain(Restrict(p, kept), k), v, r);
        }
      }
  }

  // Dropping commits from a history leaves one in which every remaining commit is
  // still admissible, and, if the survivors are causally closed, one in which every
  // remaining read is still right.
  lemma {:induction false} RestrictWellFormed(h: History, faithful: bool, kept: set<nat>, still: bool)
    requires WellFormed(h, faithful)
    requires still ==> faithful && CausallyClosed(h, kept)
    ensures WellFormed(Restrict(h, kept), still)
  {
    match h
    case Start =>
    case Commit(p, e) =>
      RestrictWellFormed(p, faithful, kept, still);
      if e.commitTs in kept {
        RestrictEntries(p, kept);
        forall k | k in e.writes || k in e.readSet ensures !NewerThan(FullChain(Restrict(p, kept), k), e.readTs) {
          RestrictNotNewer(p, faithful, kept, k, e.readTs);
        }
        if still {
          WeakenFaithful(Restrict(p, kept));
          forall k | k in e.observed
            ensures e.observed[k] == VisibleValue(FullChain(Restrict(p, kept), k), e.readTs)
          {
            assert e in Entries(h);
            RestrictVisible(p, faithful, kept, k, e.readTs);
          }
        }
      }
  }

  lemma {:induction false} WeakenFaithful(h: History)
    requires WellFormed(h, true)
    ensures WellFormed(h, false)
  {
    match h
    case Start =>
    case Commit(p, e) => WeakenFaithful(p);
  }

  // Every value `e` read is the newest surviving one of its snapshot.
  ghost predicate ReadsSurvive(h: History, kept: set<nat>, e: Committed) {
    forall k :: k in e.observed ==> e.observed[k] == SurvivingValue(FullChain(h, k), kept, e.readTs)
  }

  lemma ReadsOfSurvivor(h: History, faithful: bool, kept: set<nat>, e: Committed)
    requires WellFormed(h, faithful)
    ensures ReadsAgree(Restrict(h, kept), e) <==> ReadsSurvive(h, kept, e)
  {
    forall k
      ensures VisibleValue(FullChain(Restrict(h, kept), k), e.readTs) == SurvivingValue(FullChain(h, k), kept, e.readTs)
    {
      RestrictShows(h, faithful, kept, k, e.readTs);
    }
  }

  // Survivors are serial exactly if each serializable one of them has read survivors.
  lemma SurvivorsReproduce(h: History, faithful: bool, kept: set<nat>)
    requires WellFormed(h, faithful)
    ensures Reproduces(Restrict(h, kept))
       <==> forall e :: e in Entries(h) && e.commitTs in kept && e.serializable ==> ReadsSurvive(h, kept, e)
  {
    RestrictWellFormed(h, faithful, kept, false);
    RestrictEntries(h, kept);
    ReproducesExactly(Restrict(h, kept));
    forall e ensures ReadsAgree(Restrict(h, kept), e) <==> ReadsSurvive(h, kept, e) {
      ReadsOfSurvivor(h, faithful, kept, e);
    }
  }
}
