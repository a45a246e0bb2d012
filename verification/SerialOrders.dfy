// How snapshots and timestamps fit the serial order of a history: exactly which snapshots
// are states of the serial run, and exactly when running the writers in timestamp order
// would explain their reads as well.

module SerialOrders {
  import opened Types
  import opened VersionChain
  import opened History

  // ----- prefixes of the serial run -----

  ghost predicate IsPrefix(p: History, h: History) {
    p == h || (h.Commit? && IsPrefix(p, h.prev))
  }

  // The snapshot at `r` shows the very versions that running `p` installs.
  ghost predicate ShowsPrefix(h: History, r: nat, p: History) {
    forall k, v: Version {:trigger v in FullChain(p, k)} {:trigger v in FullChain(h, k)} ::
      v in FullChain(p, k) <==> v in FullChain(h, k) && v.commitTs <= r
  }

  // `p` holds the commits up to `r` and no others.
  ghost predicate SplitsAt(h: History, r: nat, p: History) {
    forall e :: e in Entries(h) ==> (e in Entries(p) <==> e.commitTs <= r)
  }

  // No commit above `r` applied before one at or below it.
  ghost predicate NoneOvertaken(h: History, r: nat) {
    forall a, b :: a in Entries(h) && b in Entries(h) && a.commitTs <= r < b.commitTs ==> AppliedBefore(h, a, b)
  }

  lemma {:induction false} PrefixOf(h: History, faithful: bool, p: History)
    requires WellFormed(h, faithful) && IsPrefix(p, h)
    ensures WellFormed(p, faithful) && Entries(p) <= Entries(h)
  {
    if p != h {
      PrefixOf(h.prev, faithful, p);
    }
  }

  lemma PrefixVersionShown(h: History, faithful: bool, r: nat, p: History, k: Key, v: Version)
    requires WellFormed(h, faithful) && IsPrefix(p, h) && SplitsAt(h, r, p) && v in FullChain(p, k)
    ensures v in FullChain(h, k) && v.commitTs <= r
  {
    PrefixOf(h, faithful, p);
    ChainHolds(p, k, v);
    var e :| e in Entries(p) && k in e.writes && v == Version(e.commitTs, e.writes[k]);
    assert e in Entries(h);
    ChainHolds(h, k, v);
  }

  lemma ShownVersionInPrefix(h: History, r: nat, p: History, k: Key, v: Version)
    requires SplitsAt(h, r, p) && v in FullChain(h, k) && v.commitTs <= r
    ensures v in FullChain(p, k)
  {
    ChainHolds(h, k, v);
    var e :| e in Entries(h) && k in e.writes && v == Version(e.commitTs, e.writes[k]);
    assert e in Entries(p);
    ChainHolds(p, k, v);
  }

  lemma SplitShows(h: History, faithful: bool, r: nat, p: History)
    requires WellFormed(h, faithful) && IsPrefix(p, h) && SplitsAt(h, r, p)
    ensures ShowsPrefix(h, r, p)
  {
    forall k, v: Version ensures v in FullChain(p, k) <==> v in FullChain(h, k) && v.commitTs <= r {
      if v in FullChain(p, k) {
        PrefixVersionShown(h, faithful, r, p, k, v);
      }
      if v in FullChain(h, k) && v.commitTs <= r {
        ShownVersionInPrefix(h, r, p, k, v);
      }
    }
  }

  lemma ShownInPrefix(h: History, faithful: bool, r: nat, p: History, e: Committed)
    requires WellFormed(h, faithful) && IsPrefix(p, h) && ShowsPrefix(h, r, p) && e in Entries(h)
    ensures e in Entries(p) <==> e.commitTs <= r
  {
    PrefixOf(h, faithful, p);
    WritesSomething(h, faithful, e);
    var k :| k in e.writes;
    var v := Version(e.commitTs, e.writes[k]);
    ChainHolds(h, k, v);
    ChainHolds(p, k, v);
    if e.commitTs <= r {
      var x :| x in Entries(p) && k in x.writes && v == Version(x.commitTs, x.writes[k]);
      UniqueTs(h, faithful, e, x);
    }
  }

  // A snapshot shows the versions of a prefix if and only if that prefix holds the
  // commits up to it.
  lemma ShowsExactly(h: History, faithful: bool, r: nat, p: History)
    requires WellFormed(h, faithful) && IsPrefix(p, h)
    ensures ShowsPrefix(h, r, p) <==> SplitsAt(h, r, p)
  {
    if SplitsAt(h, r, p) {
      SplitShows(h, faithful, r, p);
    }
    if ShowsPrefix(h, r, p) {
      forall e | e in Entries(h) ensures e in Entries(p) <==> e.commitTs <= r {
        ShownInPrefix(h, faithful, r, p, e);
      }
    }
  }

  // It then reads, key by key, the state that running the prefix leaves.
  lemma ShownIsSerialState(h: History, faithful: bool, r: nat, p: History, k: Key)
    requires WellFormed(h, faithful) && IsPrefix(p, h) && ShowsPrefix(h, r, p)
    ensures Lookup(Replay(h, r), k) == Lookup(SerialState(p), k)
  {
    PrefixOf(h, faithful, p);
    ChainAscends(h, faithful, k);
    ChainAscends(p, faithful, k);
    ReadIsReplay(h, faithful, k, r);
    var a, b := FullChain(p, k), FullChain(h, k);
    forall v ensures v in a <==> v in b && v.commitTs <= r {
      assert v in FullChain(p, k) <==> v in FullChain(h, k) && v.commitTs <= r;
    }
    AllVisible(a, b, r);
    SerialIsNewest(p, k);
  }

  lemma AllVisible(a: Chain, b: Chain, r: nat)
    requires Ascending(a) && Ascending(b) && forall v :: v in a <==> v in b && v.commitTs <= r
    ensures VisibleValue(b, r) == if a == [] then None else a[|a| - 1].value
  {
    assert a != [] ==> a[|a| - 1] in a;
    VisibleIsLast(a, r);
    VisibleAgree(a, b, r);
  }

  // A snapshot above every commit reads the state the whole run leaves.
  lemma WholeRunShown(h: History, faithful: bool, r: nat, k: Key)
    requires WellFormed(h, faithful) && forall e :: e in Entries(h) ==> e.commitTs <= r
    ensures VisibleValue(FullChain(h, k), r) == Lookup(SerialState(h), k)
  {
    SplitShows(h, faithful, r, h);
    ReadIsReplay(h, faithful, k, r);
    ShownIsSerialState(h, faithful, r, h, k);
  }

  // ----- which snapshots are states of the serial run -----

  // The serial run without the commits above `r` at its end.
  ghost function SerialPoint(h: History, r: nat): History {
    match h
    case Start => Start
    case Commit(p, e) => if e.commitTs <= r then h else SerialPoint(p, r)
  }

  lemma {:induction false} SerialPointIsPrefix(h: History, r: nat)
    ensures IsPrefix(SerialPoint(h, r), h)
  {
    match h
    case Start =>
    case Commit(p, e) => SerialPointIsPrefix(p, r);
  }

  lemma {:induction false} AppliedIsEntry(h: History, a: Committed, b: Committed)
    requires AppliedBefore(h, a, b)
    ensures a in Entries(h) && b in Entries(h)
  {
    if b != h.last {
      AppliedIsEntry(h.prev, a, b);
    }
  }

  lemma LastIsNew(p: History, e: Committed, faithful: bool)
    requires WellFormed(Commit(p, e), faithful)
    ensures e !in Entries(p)
  {
  }

  lemma OvertakenBefore(p: History, e: Committed, faithful: bool, r: nat)
    requires WellFormed(Commit(p, e), faithful) && NoneOvertaken(Commit(p, e), r)
    ensures NoneOvertaken(p, r)
    ensures e.commitTs <= r ==> forall x :: x in Entries(p) ==> x.commitTs <= r
  {
    var h := Commit(p, e);
    LastIsNew(p, e, faithful);
    forall a, b | a in Entries(p) && b in Entries(p) && a.commitTs <= r < b.commitTs ensures AppliedBefore(p, a, b) {
      assert AppliedBefore(h, a, b);
    }
    forall x | x in Entries(p) && e.commitTs <= r ensures x.commitTs <= r {
      if AppliedBefore(p, e, x) {
        AppliedIsEntry(p, e, x);
      }
      assert r < x.commitTs ==> AppliedBefore(h, e, x);
    }
  }

  lemma {:induction false} NoneOvertakenSplits(h: History, faithful: bool, r: nat)
    requires WellFormed(h, faithful) && NoneOvertaken(h, r)
    ensures SplitsAt(h, r, SerialPoint(h, r))
  {
    match h
    case Start =>
    case Commit(p, e) =>
      OvertakenBefore(p, e, faithful, r);
      if e.commitTs > r {
        NoneOvertakenSplits(p, faithful, r);
        SerialPointIsPrefix(p, r);
        PrefixOf(p, faithful, SerialPoint(p, r));
        LastIsNew(p, e, faithful);
      }
  }

  lemma {:induction false} PrefixFirst(h: History, faithful: bool, p: History, a: Committed, b: Committed)
    requires WellFormed(h, faithful) && IsPrefix(p, h)
    requires a in Entries(p) && b in Entries(h) && b !in Entries(p)
    ensures AppliedBefore(h, a, b)
  {
    if b == h.last {
      PrefixOf(h.prev, faithful, p);
    } else {
      PrefixFirst(h.prev, faithful, p, a, b);
    }
  }

  // The snapshot at `r` is a state of the serial run if and only if no commit above `r`
  // applied before one at or below it.
  lemma SerialStateExactly(h: History, faithful: bool, r: nat)
    requires WellFormed(h, faithful)
    ensures (exists p :: IsPrefix(p, h) && ShowsPrefix(h, r, p)) <==> NoneOvertaken(h, r)
  {
    if NoneOvertaken(h, r) {
      NoneOvertakenSplits(h, faithful, r);
      SerialPointIsPrefix(h, r);
      ShowsExactly(h, faithful, r, SerialPoint(h, r));
    }
    if p :| IsPrefix(p, h) && ShowsPrefix(h, r, p) {
      ShowsExactly(h, faithful, r, p);
      forall a, b | a in Entries(h) && b in Entries(h) && a.commitTs <= r < b.commitTs ensures AppliedBefore(h, a, b) {
        PrefixFirst(h, faithful, p, a, b);
      }
    }
  }

  // ----- timestamp order -----

  // Run at its timestamp instead, `e` would see of each key it read the same version as
  // in its snapshot.
  ghost predicate SameAtOwnTs(h: History, e: Committed)
    requires e.commitTs > 0
  {
    forall k :: k in e.observed ==>
      PartitionPoint(FullChain(h, k), e.commitTs - 1) == PartitionPoint(FullChain(h, k), e.readTs)
  }

  // Timestamp order explains the reads of every serializable writer.
  ghost predicate TimestampOrderIsSerial(h: History) {
    forall e :: e in Entries(h) && e.serializable ==> e.commitTs > 0 && SameAtOwnTs(h, e)
  }

  // `e` read a key that `x`, with a smaller timestamp, wrote after `e` had applied.
  ghost predicate MissedWrite(h: History, e: Committed, x: Committed, k: Key) {
    AppliedBefore(h, e, x) && e.serializable && k in e.observed && k in x.writes && x.commitTs < e.commitTs
  }

  lemma {:induction false} AppliedSomehow(h: History, a: Committed, b: Committed)
    requires a in Entries(h) && b in Entries(h) && a != b
    ensures AppliedBefore(h, a, b) || AppliedBefore(h, b, a)
  {
    if a != h.last && b != h.last {
      AppliedSomehow(h.prev, a, b);
    }
  }

  lemma {:induction false} LaterAboveSnapshot(h: History, faithful: bool, e: Committed, x: Committed)
    requires WellFormed(h, faithful) && AppliedBefore(h, e, x)
    ensures e.readTs < x.commitTs
  {
    if x != h.last {
      LaterAboveSnapshot(h.prev, faithful, e, x);
    }
  }

  lemma {:induction false} EarlierInSnapshot(h: History, faithful: bool, x: Committed, e: Committed, k: Key)
    requires WellFormed(h, faithful) && AppliedBefore(h, x, e)
    requires k in x.writes && e.serializable && k in e.observed
    ensures x.commitTs <= e.readTs
  {
    if e != h.last {
      EarlierInSnapshot(h.prev, faithful, x, e, k);
    } else {
      PushedNotNewer(h.prev, faithful, x, k, e.readTs);
    }
  }

  lemma SamePoint(c: Chain, r: nat, q: nat)
    requires Ascending(c) && r <= q
    ensures PartitionPoint(c, q) == PartitionPoint(c, r) <==> forall v :: v in c ==> !(r < v.commitTs <= q)
  {
    if forall v :: v in c ==> !(r < v.commitTs <= q) {
      var n := PartitionPoint(c, q);
      assert n > 0 ==> c[n - 1] in c;
      PartitionPointIs(c, r, n);
    }
    if PartitionPoint(c, q) == PartitionPoint(c, r) {
      forall v | v in c ensures !(r < v.commitTs <= q) {
        var i :| 0 <= i < |c| && c[i] == v;
        assert i < PartitionPoint(c, q) <==> i < PartitionPoint(c, r);
        if v.commitTs <= q {
          BelowPartitionPoint(c, q, i);
        }
      }
    }
  }

  // Key by key: the versions differ exactly when a write between the two was missed.
  lemma SameUnlessMissed(h: History, faithful: bool, e: Committed, k: Key)
    requires WellFormed(h, faithful) && e in Entries(h) && e.serializable && e.commitTs > 0 && k in e.observed
    ensures PartitionPoint(FullChain(h, k), e.commitTs - 1) == PartitionPoint(FullChain(h, k), e.readTs)
       <==> forall x :: x in Entries(h) ==> !MissedWrite(h, e, x, k)
  {
    var c := FullChain(h, k);
    ChainAscends(h, faithful, k);
    ReadsBeforeCommit(h, faithful);
    SamePoint(c, e.readTs, e.commitTs - 1);
    forall x | x in Entries(h) && k in x.writes
      ensures MissedWrite(h, e, x, k) <==> e.readTs < x.commitTs <= e.commitTs - 1
      ensures Version(x.commitTs, x.writes[k]) in c
    {
      ChainHolds(h, k, Version(x.commitTs, x.writes[k]));
      BetweenIsMissed(h, faithful, e, x, k);
    }
    forall v | v in c
      ensures exists x :: x in Entries(h) && k in x.writes && v == Version(x.commitTs, x.writes[k])
    {
      ChainHolds(h, k, v);
    }
  }

  lemma BetweenIsMissed(h: History, faithful: bool, e: Committed, x: Committed, k: Key)
    requires WellFormed(h, faithful) && e in Entries(h) && x in Entries(h)
    requires e.serializable && k in e.observed && k in x.writes
    ensures MissedWrite(h, e, x, k) <==> e.readTs < x.commitTs < e.commitTs
  {
    if AppliedBefore(h, e, x) {
      LaterAboveSnapshot(h, faithful, e, x);
    } else if x.commitTs < e.commitTs {
      AppliedSomehow(h, e, x);
      EarlierInSnapshot(h, faithful, x, e, k);
    }
  }

  // Timestamp order is a serial order as well, unless some serializable writer read a
  // key that a commit with a smaller timestamp wrote after it.
  lemma TimestampOrderExactly(h: History, faithful: bool)
    requires WellFormed(h, faithful)
    ensures TimestampOrderIsSerial(h)
       <==> forall e, x, k :: e in Entries(h) && x in Entries(h) ==> !MissedWrite(h, e, x, k)
  {
    ReadsBeforeCommit(h, faithful);
    forall e, k | e in Entries(h) && e.serializable && k in e.observed
      ensures PartitionPoint(FullChain(h, k), e.commitTs - 1) == PartitionPoint(FullChain(h, k), e.readTs)
         <==> forall x :: x in Entries(h) ==> !MissedWrite(h, e, x, k)
    {
      SameUnlessMissed(h, faithful, e, k);
    }
  }
  // It then explains the values as well: every serializable writer had read the state
  // that replaying the writers before it in timestamp order leaves.
  lemma TimestampOrderReads(h: History, e: Committed, k: Key)
    requires WellFormed(h, true) && TimestampOrderIsSerial(h)
    requires e in Entries(h) && e.serializable && k in e.observed
    ensures e.commitTs > 0 && e.observed[k] == Lookup(Replay(h, e.commitTs - 1), k)
  {
    ObservedStays(h, e, k);
    ReadIsReplay(h, true, k, e.commitTs - 1);
  }
}
