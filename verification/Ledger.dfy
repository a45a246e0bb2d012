// Read-modify-write under plain snapshot isolation loses no update: the sum over any
// set of keys moves, from snapshot to snapshot, by exactly what the transactions
// committed in between meant to add. Counters and the bank transfers of
// examples/bank_transfer.rs are instances.

module Ledger {
  import opened Types
  import opened VersionChain
  import opened History
  import opened Protocol
  import opened Reach
  import opened Isolation
  import opened Sums

  // ----- balances -----

  ghost function Total(m: WriteSet, accounts: set<Key>, amount: Value -> int): int {
    Sum(k => amount(Lookup(m, k)), accounts)
  }

  // What one transaction adds to one account, by its own reading of it.
  ghost function Change(e: Committed, amount: Value -> int): Key -> int {
    k => if k in e.writes && k in e.observed then amount(e.writes[k]) - amount(e.observed[k]) else 0
  }

  ghost function Delta(e: Committed, accounts: set<Key>, amount: Value -> int): int {
    Sum(Change(e, amount), accounts)
  }

  ghost function DeltaAt(h: History, ts: nat, accounts: set<Key>, amount: Value -> int): int {
    match h
    case Start => 0
    case Commit(p, e) => if e.commitTs == ts then Delta(e, accounts, amount) else DeltaAt(p, ts, accounts, amount)
  }

  // The deltas of the transactions committed after `b`, up to `r`.
  ghost function DeltaBetween(h: History, b: nat, r: nat, accounts: set<Key>, amount: Value -> int): int
    decreases r
  {
    if r <= b then 0 else DeltaBetween(h, b, r - 1, accounts, amount) + DeltaAt(h, r, accounts, amount)
  }

  // Between `b` and `r`, whoever wrote an account had read it.
  ghost predicate ReadModifyWrite(h: History, b: nat, r: nat, accounts: set<Key>) {
    forall e, k :: e in Entries(h) && b < e.commitTs <= r && k in accounts && k in e.writes ==> k in e.observed
  }

  // The snapshots of the commits after `b`, up to `r`, still show what they read. This holds
  // of all commits unless a crash has lost visible ones.
  ghost predicate ReadsStand(h: History, b: nat, r: nat) {
    forall e :: e in Entries(h) && b < e.commitTs <= r ==> ReadsAgree(h, e)
  }

  lemma VisibleAcrossGap(c: Chain, r: nat, q: nat)
    requires Ascending(c) && r <= q
    requires forall v :: v in c ==> !(r < v.commitTs <= q)
    ensures VisibleValue(c, r) == VisibleValue(c, q)
  {
    var n := PartitionPoint(c, q);
    assert n > 0 ==> c[n - 1] in c;
    PartitionPointIs(c, r, n);
  }

  // No other transaction wrote the key between a writer's snapshot and its commit.
  lemma NothingBetween(h: History, e: Committed, k: Key, v: Version)
    requires WellFormed(h, false) && e in Entries(h) && k in e.writes && v in FullChain(h, k)
    ensures !(e.readTs < v.commitTs < e.commitTs)
  {
    ChainHolds(h, k, v);
    var x :| x in Entries(h) && k in x.writes && v == Version(x.commitTs, x.writes[k]);
    if x.commitTs < e.commitTs {
      FirstCommitterWins(h, false, x, e, k);
    }
  }

  // Of an account it wrote, a transaction read the value that its commit replaced.
  lemma ReadWhatItReplaced(h: History, e: Committed, k: Key)
    requires WellFormed(h, false) && e in Entries(h) && ReadsAgree(h, e) && k in e.writes && k in e.observed
    ensures e.commitTs > 0 && e.observed[k] == Lookup(Replay(h, e.commitTs - 1), k)
  {
    ReadsBeforeCommit(h, false);
    ChainAscends(h, false, k);
    forall v | v in FullChain(h, k) ensures !(e.readTs < v.commitTs <= e.commitTs - 1) {
      NothingBetween(h, e, k, v);
    }
    VisibleAcrossGap(FullChain(h, k), e.readTs, e.commitTs - 1);
    ReadIsReplay(h, false, k, e.commitTs - 1);
  }

  lemma {:induction false} DeltaAtHolds(h: History, ts: nat, accounts: set<Key>, amount: Value -> int)
    requires WellFormed(h, false)
    ensures forall e :: e in Entries(h) && e.commitTs == ts ==>
              DeltaAt(h, ts, accounts, amount) == Delta(e, accounts, amount)
    ensures !HasTs(h, ts) ==> DeltaAt(h, ts, accounts, amount) == 0
    ensures !HasTs(h, ts) ==> WritesAt(h, ts) == map[]
  {
    match h
    case Start =>
    case Commit(p, e) =>
      DeltaAtHolds(p, ts, accounts, amount);
      assert e in Entries(h);
      assert forall x :: x in Entries(p) ==> x in Entries(h);
  }

  lemma AccountStep(h: History, e: Committed, k: Key, amount: Value -> int)
    requires WellFormed(h, false) && e in Entries(h) && e.commitTs > 0 && ReadsAgree(h, e)
    requires k in e.writes ==> k in e.observed
    ensures amount(Lookup(Replay(h, e.commitTs), k))
         == amount(Lookup(Replay(h, e.commitTs - 1), k)) + Change(e, amount)(k)
  {
    WritesAtHolds(h, false, e.commitTs, k);
    assert Replay(h, e.commitTs) == Replay(h, e.commitTs - 1) + e.writes;
    if k in e.writes {
      ReadWhatItReplaced(h, e, k);
    }
  }

  // One timestamp further, the total moves by the delta of the commit there, if any.
  lemma TotalStep(h: History, r: nat, accounts: set<Key>, amount: Value -> int)
    requires WellFormed(h, false) && 0 < r && ReadModifyWrite(h, r - 1, r, accounts) && ReadsStand(h, r - 1, r)
    ensures Total(Replay(h, r), accounts, amount)
         == Total(Replay(h, r - 1), accounts, amount) + DeltaAt(h, r, accounts, amount)
  {
    DeltaAtHolds(h, r, accounts, amount);
    if e :| e in Entries(h) && e.commitTs == r {
      TotalStepAt(h, e, accounts, amount);
    } else {
      assert Replay(h, r) == Replay(h, r - 1);
    }
  }

  lemma TotalStepAt(h: History, e: Committed, accounts: set<Key>, amount: Value -> int)
    requires WellFormed(h, false) && e in Entries(h) && e.commitTs > 0 && ReadsAgree(h, e)
    requires forall k :: k in accounts && k in e.writes ==> k in e.observed
    ensures Total(Replay(h, e.commitTs), accounts, amount)
         == Total(Replay(h, e.commitTs - 1), accounts, amount) + Delta(e, accounts, amount)
  {
    var after, before := Replay(h, e.commitTs), Replay(h, e.commitTs - 1);
    forall k | k in accounts
      ensures amount(Lookup(after, k)) == amount(Lookup(before, k)) + Change(e, amount)(k)
    {
      AccountStep(h, e, k, amount);
    }
    SumDiffers(k => amount(Lookup(after, k)), k => amount(Lookup(before, k)), Change(e, amount), accounts);
  }

  // No update is lost between two snapshots.
  lemma {:induction false} TotalMovesByDeltas(h: History, b: nat, r: nat, accounts: set<Key>, amount: Value -> int)
    requires WellFormed(h, false) && b <= r && ReadModifyWrite(h, b, r, accounts) && ReadsStand(h, b, r)
    ensures Total(Replay(h, r), accounts, amount)
         == Total(Replay(h, b), accounts, amount) + DeltaBetween(h, b, r, accounts, amount)
    decreases r
  {
    if b < r {
      TotalMovesByDeltas(h, b, r - 1, accounts, amount);
      TotalStep(h, r, accounts, amount);
    }
  }

  // ----- in runs -----

  // What a snapshot at `r` shows of the accounts, summed up.
  ghost function ShownTotal(s: State, r: nat, accounts: set<Key>, amount: Value -> int): int {
    Sum(k => amount(StoreRead(s, k, r)), accounts)
  }

  lemma OneAccount(s: State, r: nat, k: Key, amount: Value -> int)
    ensures ShownTotal(s, r, {k}, amount) == amount(StoreRead(s, k, r))
  {
    SumTake(k => amount(StoreRead(s, k, r)), {k}, k);
    assert {k} - {k} == {};
  }

  lemma ShownIsReplayed(s: State, r: nat, accounts: set<Key>, amount: Value -> int)
    requires Reachable(s) && s.maxLow <= r
    ensures ShownTotal(s, r, accounts, amount) == Total(Replay(s.history, r), accounts, amount)
  {
    forall k | k in accounts ensures amount(StoreRead(s, k, r)) == amount(Lookup(Replay(s.history, r), k)) {
      AnySnapshotIsReplay(s, k, r);
    }
    SumSame(k => amount(StoreRead(s, k, r)), k => amount(Lookup(Replay(s.history, r), k)), accounts);
  }

  lemma StillWellFormed(s: State, b: nat, r: nat)
    requires Reachable(s) && (s.lost ==> ReadsStand(s.history, b, r))
    ensures WellFormed(s.history, false) && ReadsStand(s.history, b, r)
  {
    ReachableInv(s);
    if !s.lost {
      WeakenFaithful(s.history);
      forall e, k | e in Entries(s.history) && k in e.observed
        ensures e.observed[k] == VisibleValue(FullChain(s.history, k), e.readTs)
      {
        ObservedStays(s.history, e, k);
      }
    }
  }

  // In every run, a snapshot the store can serve shows over the accounts what was there
  // at any earlier timestamp, served still or not, plus the deltas of the transactions
  // committed since.
  lemma NoLostUpdates(s: State, b: nat, r: nat, accounts: set<Key>, amount: Value -> int)
    requires Reachable(s) && s.maxLow <= r && b <= r && ReadModifyWrite(s.history, b, r, accounts)
    requires s.lost ==> ReadsStand(s.history, b, r)
    ensures ShownTotal(s, r, accounts, amount)
         == Total(Replay(s.history, b), accounts, amount) + DeltaBetween(s.history, b, r, accounts, amount)
  {
    StillWellFormed(s, b, r);
    ShownIsReplayed(s, r, accounts, amount);
    TotalMovesByDeltas(s.history, b, r, accounts, amount);
  }

  // ----- transfers -----

  // The writes of one `transfer`: the debit is buffered first, then the credit, so for
  // a transfer from an account to itself the credit replaces the debit.
  function TransferWrites(source: Key, target: Key, sourceBalance: int, targetBalance: int, moved: int,
                          pay: int -> Value): WriteSet
  {
    map[source := pay(sourceBalance - moved)][target := pay(targetBalance + moved)]
  }

  ghost predicate IsTransfer(e: Committed, source: Key, target: Key, moved: int,
                             amount: Value -> int, pay: int -> Value)
  {
    && source in e.observed && target in e.observed
    && e.writes == TransferWrites(source, target, amount(e.observed[source]), amount(e.observed[target]), moved, pay)
    && amount(pay(amount(e.observed[source]) - moved)) == amount(e.observed[source]) - moved
    && amount(pay(amount(e.observed[target]) + moved)) == amount(e.observed[target]) + moved
  }

  // A transfer between accounts conserves the total exactly when the two accounts are
  // distinct or nothing is moved.
  lemma TransferConserves(e: Committed, source: Key, target: Key, moved: int, accounts: set<Key>,
                          amount: Value -> int, pay: int -> Value)
    requires IsTransfer(e, source, target, moved, amount, pay) && source in accounts && target in accounts
    ensures Delta(e, accounts, amount) == 0 <==> source != target || moved == 0
  {
    var change := Change(e, amount);
    SumTake(change, accounts, source);
    if source != target {
      SumTake(change, accounts - {source}, target);
      SumZero(change, accounts - {source} - {target});
    } else {
      SumZero(change, accounts - {source});
    }
  }

  lemma {:induction false} NoDelta(h: History, b: nat, r: nat, accounts: set<Key>, amount: Value -> int)
    requires WellFormed(h, false)
    requires forall e :: e in Entries(h) && b < e.commitTs <= r ==> Delta(e, accounts, amount) == 0
    ensures DeltaBetween(h, b, r, accounts, amount) == 0
    decreases r
  {
    if b < r {
      NoDelta(h, b, r - 1, accounts, amount);
      DeltaAtHolds(h, r, accounts, amount);
      if HasTs(h, r) {
        var e :| e in Entries(h) && e.commitTs == r;
      }
    }
  }

  // The bank: while only transfers between distinct accounts commit, every snapshot of
  // every run shows the total there was when they began.
  lemma BankTotalIsConstant(s: State, b: nat, r: nat, accounts: set<Key>, amount: Value -> int, pay: int -> Value)
    requires Reachable(s) && s.maxLow <= r && b <= r && (s.lost ==> ReadsStand(s.history, b, r))
    requires forall e :: e in Entries(s.history) && b < e.commitTs <= r ==>
               exists source, target, moved :: source != target && source in accounts && target in accounts
                 && IsTransfer(e, source, target, moved, amount, pay)
    ensures ShownTotal(s, r, accounts, amount) == Total(Replay(s.history, b), accounts, amount)
  {
    StillWellFormed(s, b, r);
    forall e | e in Entries(s.history) && b < e.commitTs <= r
      ensures Delta(e, accounts, amount) == 0
      ensures forall k :: k in e.writes ==> k in e.observed
    {
      var source, target, moved :| source != target && source in accounts && target in accounts
        && IsTransfer(e, source, target, moved, amount, pay);
      TransferConserves(e, source, target, moved, accounts, amount, pay);
    }
    NoLostUpdates(s, b, r, accounts, amount);
    NoDelta(s.history, b, r, accounts, amount);
  }

  // ----- counters -----

  ghost function IncrementsBetween(h: History, k: Key, b: nat, r: nat): nat
    decreases r
  {
    if r <= b then 0 else IncrementsBetween(h, k, b, r - 1) + if k in WritesAt(h, r) then 1 else 0
  }

  lemma {:induction false} DeltasCount(h: History, k: Key, b: nat, r: nat, amount: Value -> int)
    requires WellFormed(h, false)
    requires forall e :: e in Entries(h) && b < e.commitTs <= r && k in e.writes ==>
               k in e.observed && amount(e.writes[k]) == amount(e.observed[k]) + 1
    ensures DeltaBetween(h, b, r, {k}, amount) == IncrementsBetween(h, k, b, r)
    decreases r
  {
    if b < r {
      DeltasCount(h, k, b, r - 1, amount);
      DeltaAtHolds(h, r, {k}, amount);
      WritesAtHolds(h, false, r, k);
      if HasTs(h, r) {
        var e :| e in Entries(h) && e.commitTs == r;
        SumTake(Change(e, amount), {k}, k);
      }
    }
  }

  // A counter that every committed writer increments by one shows, at every snapshot,
  // what it held at any earlier timestamp plus the successful increments since.
  lemma CounterMovesByIncrements(s: State, k: Key, b: nat, r: nat, amount: Value -> int)
    requires Reachable(s) && s.maxLow <= r && b <= r && (s.lost ==> ReadsStand(s.history, b, r))
    requires forall e :: e in Entries(s.history) && b < e.commitTs <= r && k in e.writes ==>
               k in e.observed && amount(e.writes[k]) == amount(e.observed[k]) + 1
    ensures amount(StoreRead(s, k, r))
         == amount(Lookup(Replay(s.history, b), k)) + IncrementsBetween(s.history, k, b, r)
  {
    StillWellFormed(s, b, r);
    NoLostUpdates(s, b, r, {k}, amount);
    DeltasCount(s.history, k, b, r, amount);
    OneAccount(s, r, k, amount);
    SumTake(k => amount(Lookup(Replay(s.history, b), k)), {k}, k);
  }

  // From the start: a counter shows the number of successful increments of the whole
  // run, whatever has been collected.
  lemma CounterCountsIncrements(s: State, k: Key, r: nat, amount: Value -> int)
    requires Reachable(s) && s.maxLow <= r && (s.lost ==> ReadsStand(s.history, 0, r))
    requires forall e :: e in Entries(s.history) && e.commitTs <= r && k in e.writes ==>
               k in e.observed && amount(e.writes[k]) == amount(e.observed[k]) + 1
    ensures amount(StoreRead(s, k, r)) == amount(None) + IncrementsBetween(s.history, k, 0, r)
  {
    CounterMovesByIncrements(s, k, 0, r, amount);
  }
}
