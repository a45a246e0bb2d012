// Which snapshots fit into some serial order of the writers, whatever that order: exactly
// those that no serializable writer separates from a write it missed. One order then has a
// place for all of them.

module AnySerialOrder {
  import opened Types
  import opened VersionChain
  import opened History
  import opened SerialOrders

  // ----- serial orders -----

  // Run in the order of `q`, every serializable writer finds of each key it read exactly
  // the versions of its snapshot in `h`.
  ghost predicate Explains(q: History, h: History) {
    match q
    case Start => true
    case Commit(p, e) => Explains(p, h) && (e.serializable ==> FindsSnapshot(p, h, e))
  }

  ghost predicate FindsSnapshot(p: History, h: History, e: Committed) {
    forall k :: k in e.observed ==> |FullChain(p, k)| == PartitionPoint(FullChain(h, k), e.readTs)
  }

  // `q` is a serial order of the writers of `h`: the same commits, the same versions of
  // every key in the same order, and reads that it explains.
  ghost predicate SerialOrderOf(q: History, h: History) {
    Entries(q) == Entries(h) && (forall k :: FullChain(q, k) == FullChain(h, k)) && Explains(q, h)
  }

  // The snapshot at `r` is a state that running `q` passes through.
  ghost predicate HasPlace(h: History, r: nat, q: History) {
    exists p :: IsPrefix(p, q) && ShowsPrefix(h, r, p)
  }

  // One serial order has a place for every snapshot in `rs`.
  ghost predicate FitInto(h: History, rs: iset<nat>, q: History) {
    SerialOrderOf(q, h) && forall r :: r in rs ==> HasPlace(h, r, q)
  }

  // A serializable writer above `r` missed a write at or below it.
  ghost predicate MissedAcross(h: History, r: nat) {
    exists e, x, k :: e in Entries(h) && x in Entries(h) && x.commitTs <= r < e.commitTs && MissedWrite(h, e, x, k)
  }

  // ----- prefixes -----

  lemma {:induction false} PrefixChain(p: History, h: History, k: Key)
    requires IsPrefix(p, h)
    ensures FullChain(p, k) <= FullChain(h, k)
  {
    if p != h {
      PrefixChain(p, h.prev, k);
    }
  }

  lemma {:induction false} PrefixTrans(a: History, b: History, c: History)
    requires IsPrefix(a, b) && IsPrefix(b, c)
    ensures IsPrefix(a, c)
  {
    if b != c {
      PrefixTrans(a, b, c.prev);
    }
  }

  lemma BeforeIsPrefix(p: History, e: Committed, h: History)
    requires IsPrefix(Commit(p, e), h)
    ensures IsPrefix(p, h)
  {
    assert IsPrefix(p, Commit(p, e));
    PrefixTrans(p, Commit(p, e), h);
  }

  lemma {:induction false} PrefixEntries(p: History, h: History)
    requires IsPrefix(p, h)
    ensures Entries(p) <= Entries(h)
  {
    if p != h {
      PrefixEntries(p, h.prev);
    }
  }

  lemma AscendingPart(a: Chain, b: Chain)
    requires a <= b && Ascending(b)
    ensures Ascending(a)
  {
    assert forall i :: 0 <= i < |a| ==> a[i] == b[i];
  }

  // ----- apply order is a serial order -----

  // The versions from the place of `e` on are newer than its snapshot.
  lemma {:induction false} BeyondPlace(h: History, faithful: bool, p: History, e: Committed, k: Key, i: nat)
    requires WellFormed(h, faithful) && IsPrefix(Commit(p, e), h)
    requires |FullChain(p, k)| <= i < |FullChain(h, k)|
    ensures e.readTs < FullChain(h, k)[i].commitTs
  {
    if h != Commit(p, e) {
      PrefixOf(h.prev, faithful, Commit(p, e));
      if i < |FullChain(h.prev, k)| {
        BeyondPlace(h.prev, faithful, p, e, k, i);
      }
    }
  }

  lemma PlaceIsSnapshot(h: History, faithful: bool, p: History, e: Committed, k: Key)
    requires WellFormed(h, faithful) && IsPrefix(Commit(p, e), h) && e.serializable && k in e.observed
    ensures |FullChain(p, k)| == PartitionPoint(FullChain(h, k), e.readTs)
  {
    var n := |FullChain(p, k)|;
    BeforeIsPrefix(p, e, h);
    PrefixChain(p, h, k);
    PrefixOf(h, faithful, Commit(p, e));
    ChainAscends(h, faithful, k);
    if n < |FullChain(h, k)| {
      BeyondPlace(h, faithful, p, e, k, n);
    }
    PartitionPointIs(FullChain(h, k), e.readTs, n);
  }

  lemma {:induction false} ApplyOrderExplains(h: History, faithful: bool, g: History)
    requires WellFormed(h, faithful) && IsPrefix(g, h)
    ensures Explains(g, h)
  {
    match g
    case Start =>
    case Commit(p, e) =>
      BeforeIsPrefix(p, e, h);
      ApplyOrderExplains(h, faithful, p);
      forall k | e.serializable && k in e.observed
        ensures |FullChain(p, k)| == PartitionPoint(FullChain(h, k), e.readTs)
      {
        PlaceIsSnapshot(h, faithful, p, e, k);
      }
  }

  lemma ApplyOrderIsOne(h: History, faithful: bool)
    requires WellFormed(h, faithful)
    ensures SerialOrderOf(h, h)
  {
    ApplyOrderExplains(h, faithful, h);
  }

  // ----- making a place: first the commits up to `r`, then the others -----

  ghost function UpTo(r: nat): (all: set<nat>)
    ensures forall ts :: ts in all <==> 0 <= ts <= r
  {
    if r == 0 then {0} else UpTo(r - 1) + {r}
  }

  ghost function Low(q: History, r: nat): History {
    Restrict(q, UpTo(r))
  }

  ghost function HighAfter(base: History, q: History, r: nat): History {
    match q
    case Start => base
    case Commit(p, e) => if e.commitTs <= r then HighAfter(base, p, r) else Commit(HighAfter(base, p, r), e)
  }

  ghost function Reordered(q: History, r: nat): History {
    HighAfter(Low(q, r), q, r)
  }

  lemma {:induction false} HighEntries(base: History, q: History, r: nat)
    ensures forall e :: e in Entries(HighAfter(base, q, r)) <==>
              e in Entries(base) || (e in Entries(q) && r < e.commitTs)
  {
    match q
    case Start =>
    case Commit(p, e) => HighEntries(base, p, r);
  }

  lemma ReorderedEntries(q: History, r: nat)
    ensures Entries(Reordered(q, r)) == Entries(q)
  {
    HighEntries(Low(q, r), q, r);
    RestrictEntries(q, UpTo(r));
  }

  lemma {:induction false} BaseIsPrefix(base: History, q: History, r: nat)
    ensures IsPrefix(base, HighAfter(base, q, r))
  {
    match q
    case Start =>
    case Commit(p, e) => BaseIsPrefix(base, p, r);
  }

  // Where the versions at or below `r` end, one push later.
  lemma PointAfterPush(c: Chain, v: Version, r: nat)
    requires Ascending(c + [v])
    ensures PartitionPoint(c + [v], r) == if v.commitTs <= r then |c| + 1 else PartitionPoint(c, r)
    ensures v.commitTs <= r ==> PartitionPoint(c, r) == |c|
    ensures Ascending(c)
  {
    var d := c + [v];
    AscendingPart(c, d);
    if v.commitTs <= r {
      PartitionPointIs(d, r, |c| + 1);
      PartitionPointIs(c, r, |c|);
    } else {
      PartitionPointIs(d, r, PartitionPoint(c, r));
    }
  }

  function LowPart(c: Chain, r: nat): Chain {
    c[..PartitionPoint(c, r)]
  }

  function HighPart(c: Chain, r: nat): Chain {
    c[PartitionPoint(c, r)..]
  }

  lemma PartsAfterPush(c: Chain, v: Version, r: nat)
    requires Ascending(c + [v])
    ensures LowPart(c + [v], r) == if v.commitTs <= r then LowPart(c, r) + [v] else LowPart(c, r)
    ensures HighPart(c + [v], r) == if v.commitTs <= r then HighPart(c, r) else HighPart(c, r) + [v]
    ensures Ascending(c)
  {
    PointAfterPush(c, v, r);
  }

  lemma {:induction false} LowChain(q: History, r: nat, k: Key)
    requires Ascending(FullChain(q, k))
    ensures FullChain(Low(q, r), k) == LowPart(FullChain(q, k), r)
  {
    match q
    case Start =>
    case Commit(p, e) =>
      if k in e.writes {
        PartsAfterPush(FullChain(p, k), Version(e.commitTs, e.writes[k]), r);
      }
      LowChain(p, r, k);
  }

  lemma HighChainNext(base: History, p: History, e: Committed, r: nat, k: Key, high: Chain)
    requires FullChain(HighAfter(base, p, r), k) == FullChain(base, k) + high
    ensures FullChain(HighAfter(base, Commit(p, e), r), k)
         == FullChain(base, k) + if k in e.writes && r < e.commitTs then high + [Version(e.commitTs, e.writes[k])]
                                 else high
  {
  }

  lemma HighPartNext(p: History, e: Committed, r: nat, k: Key)
    requires Ascending(FullChain(Commit(p, e), k))
    ensures Ascending(FullChain(p, k))
    ensures var high := HighPart(FullChain(p, k), r);
            HighPart(FullChain(Commit(p, e), k), r) ==
            if k in e.writes && r < e.commitTs then high + [Version(e.commitTs, e.writes[k])] else high
  {
    if k in e.writes {
      PartsAfterPush(FullChain(p, k), Version(e.commitTs, e.writes[k]), r);
    }
  }

  lemma {:induction false} HighChain(base: History, q: History, r: nat, k: Key)
    requires Ascending(FullChain(q, k))
    ensures FullChain(HighAfter(base, q, r), k) == FullChain(base, k) + HighPart(FullChain(q, k), r)
  {
    match q
    case Start =>
    case Commit(p, e) =>
      HighPartNext(p, e, r, k);
      HighChain(base, p, r, k);
      HighChainNext(base, p, e, r, k, HighPart(FullChain(p, k), r));
  }

  lemma ReorderedChain(q: History, r: nat, k: Key)
    requires Ascending(FullChain(q, k))
    ensures FullChain(Reordered(q, r), k) == FullChain(q, k)
  {
    LowChain(q, r, k);
    HighChain(Low(q, r), q, r, k);
  }

  // ----- what the writers find in the new order -----

  lemma {:induction false} ExplainedAt(q: History, h: History, p: History, e: Committed)
    requires Explains(q, h) && IsPrefix(Commit(p, e), q) && e.serializable
    ensures FindsSnapshot(p, h, e)
  {
    if q != Commit(p, e) {
      ExplainedAt(q.prev, h, p, e);
    }
  }

  // What `e` finds in the order it is taken from: the versions of its snapshot.
  lemma FoundBefore(h: History, faithful: bool, q: History, p: History, e: Committed, k: Key)
    requires WellFormed(h, faithful) && SerialOrderOf(q, h) && IsPrefix(Commit(p, e), q)
    requires e.serializable && k in e.observed
    ensures FullChain(p, k) <= FullChain(h, k) && Ascending(FullChain(h, k)) && Ascending(FullChain(p, k))
    ensures |FullChain(p, k)| == PartitionPoint(FullChain(h, k), e.readTs)
    ensures e in Entries(h) && e.readTs < e.commitTs
  {
    ExplainedAt(q, h, p, e);
    BeforeIsPrefix(p, e, q);
    PrefixChain(p, q, k);
    ChainAscends(h, faithful, k);
    AscendingPart(FullChain(p, k), FullChain(h, k));
    PrefixEntries(Commit(p, e), q);
    ReadsBeforeCommit(h, faithful);
  }

  // All that a writer at or below `r` finds is at or below `r`.
  lemma LowFinds(h: History, faithful: bool, q: History, p: History, e: Committed, r: nat)
    requires WellFormed(h, faithful) && SerialOrderOf(q, h) && IsPrefix(Commit(p, e), q)
    requires e.serializable && e.commitTs <= r
    ensures FindsSnapshot(Low(p, r), h, e)
  {
    forall k | k in e.observed
      ensures |FullChain(Low(p, r), k)| == PartitionPoint(FullChain(h, k), e.readTs)
    {
      FoundBefore(h, faithful, q, p, e, k);
      LowChain(p, r, k);
      AllLow(FullChain(p, k), FullChain(h, k), e.readTs, r);
    }
  }

  lemma AllLow(found: Chain, c: Chain, readTs: nat, r: nat)
    requires Ascending(found) && found <= c && |found| == PartitionPoint(c, readTs) && readTs <= r
    ensures PartitionPoint(found, r) == |found|
  {
    assert forall i :: 0 <= i < |found| ==> found[i] == c[i];
    PartitionPointIs(found, r, |found|);
  }

  // No version at or below `r` stands beyond what a writer above `r` found.
  lemma NothingLowBeyond(h: History, faithful: bool, e: Committed, k: Key, r: nat)
    requires WellFormed(h, faithful) && !MissedAcross(h, r)
    requires e in Entries(h) && e.serializable && k in e.observed && r < e.commitTs
    ensures forall v :: v in FullChain(h, k) && v.commitTs <= r ==> v.commitTs <= e.readTs
  {
    forall v | v in FullChain(h, k) && v.commitTs <= r ensures v.commitTs <= e.readTs {
      ChainHolds(h, k, v);
      var x :| x in Entries(h) && k in x.writes && v == Version(x.commitTs, x.writes[k]);
      assert !MissedWrite(h, e, x, k);
      BetweenIsMissed(h, faithful, e, x, k);
    }
  }

  lemma SplitSame(found: Chain, c: Chain, readTs: nat, r: nat)
    requires Ascending(c) && Ascending(found) && found <= c && |found| == PartitionPoint(c, readTs)
    requires forall v :: v in c && v.commitTs <= r ==> v.commitTs <= readTs
    ensures PartitionPoint(c, r) == PartitionPoint(found, r)
  {
    var n := PartitionPoint(c, r);
    assert n > 0 ==> c[n - 1] in c;
    assert forall i :: 0 <= i < |found| ==> found[i] == c[i];
    if n > 0 {
      BelowPartitionPoint(c, readTs, n - 1);
    }
    PartitionPointIs(found, r, n);
  }

  lemma HighFinds(h: History, faithful: bool, q: History, p: History, e: Committed, r: nat)
    requires WellFormed(h, faithful) && SerialOrderOf(q, h) && IsPrefix(Commit(p, e), q) && !MissedAcross(h, r)
    requires e.serializable && r < e.commitTs
    ensures FindsSnapshot(HighAfter(Low(q, r), p, r), h, e)
  {
    forall k | k in e.observed
      ensures |FullChain(HighAfter(Low(q, r), p, r), k)| == PartitionPoint(FullChain(h, k), e.readTs)
    {
      FoundBefore(h, faithful, q, p, e, k);
      NothingLowBeyond(h, faithful, e, k, r);
      SplitSame(FullChain(p, k), FullChain(h, k), e.readTs, r);
      LowChain(q, r, k);
      HighChain(Low(q, r), p, r, k);
    }
  }

  lemma {:induction false} LowExplains(h: History, faithful: bool, q: History, g: History, r: nat)
    requires WellFormed(h, faithful) && SerialOrderOf(q, h) && IsPrefix(g, q)
    ensures Explains(Low(g, r), h)
  {
    match g
    case Start =>
    case Commit(p, e) =>
      BeforeIsPrefix(p, e, q);
      LowExplains(h, faithful, q, p, r);
      if e.commitTs <= r && e.serializable {
        LowFinds(h, faithful, q, p, e, r);
      }
  }

  lemma {:induction false} HighExplains(h: History, faithful: bool, q: History, g: History, r: nat)
    requires WellFormed(h, faithful) && SerialOrderOf(q, h) && IsPrefix(g, q) && !MissedAcross(h, r)
    ensures Explains(HighAfter(Low(q, r), g, r), h)
  {
    match g
    case Start => LowExplains(h, faithful, q, q, r);
    case Commit(p, e) =>
      BeforeIsPrefix(p, e, q);
      HighExplains(h, faithful, q, p, r);
      if r < e.commitTs && e.serializable {
        HighFinds(h, faithful, q, p, e, r);
      }
  }

  lemma ReorderedIsOne(h: History, faithful: bool, q: History, r: nat)
    requires WellFormed(h, faithful) && SerialOrderOf(q, h) && !MissedAcross(h, r)
    ensures SerialOrderOf(Reordered(q, r), h)
  {
    ReorderedEntries(q, r);
    forall k ensures FullChain(Reordered(q, r), k) == FullChain(h, k) {
      ChainAscends(h, faithful, k);
      ReorderedChain(q, r, k);
    }
    HighExplains(h, faithful, q, q, r);
  }

  // ----- the place made, and the places kept -----

  lemma LowShows(h: History, q: History, r: nat)
    requires SerialOrderOf(q, h)
    ensures ShowsPrefix(h, r, Low(q, r))
  {
    var p := Low(q, r);
    forall k, v: Version {:trigger v in FullChain(p, k)} {:trigger v in FullChain(h, k)}
      ensures v in FullChain(p, k) <==> v in FullChain(h, k) && v.commitTs <= r
    {
      RestrictChain(q, UpTo(r), k, v);
    }
  }

  lemma PlaceMade(h: History, q: History, r: nat)
    requires SerialOrderOf(q, h)
    ensures HasPlace(h, r, Reordered(q, r))
  {
    LowShows(h, q, r);
    BaseIsPrefix(Low(q, r), q, r);
    assert IsPrefix(Low(q, r), Reordered(q, r));
  }

  // A writer above the snapshot has no place in what it shows.
  lemma HighNotShown(h: History, faithful: bool, r: nat, p: History, e: Committed)
    requires WellFormed(h, faithful) && e in Entries(h) && r < e.commitTs && ShowsPrefix(h, r, p)
    ensures e !in Entries(p)
  {
    WritesSomething(h, faithful, e);
    var k :| k in e.writes;
    ChainHolds(p, k, Version(e.commitTs, e.writes[k]));
  }

  lemma {:induction false} AllKept(p: History, r: nat)
    requires forall e :: e in Entries(p) ==> e.commitTs <= r
    ensures Low(p, r) == p
  {
    match p
    case Start =>
    case Commit(g, e) => AllKept(g, r);
  }

  lemma {:induction false} LowPrefix(p: History, q: History, r: nat)
    requires IsPrefix(p, q)
    ensures IsPrefix(Low(p, r), Low(q, r))
  {
    if p != q {
      LowPrefix(p, q.prev, r);
    }
  }

  // Making a place for a later snapshot keeps those of the earlier ones.
  lemma PlaceKept(h: History, faithful: bool, q: History, earlier: nat, r: nat)
    requires WellFormed(h, faithful) && SerialOrderOf(q, h) && HasPlace(h, earlier, q) && earlier <= r
    ensures HasPlace(h, earlier, Reordered(q, r))
  {
    var p :| IsPrefix(p, q) && ShowsPrefix(h, earlier, p);
    PrefixEntries(p, q);
    forall e | e in Entries(p) ensures e.commitTs <= r {
      if r < e.commitTs {
        HighNotShown(h, faithful, earlier, p, e);
      }
    }
    AllKept(p, r);
    LowPrefix(p, q, r);
    BaseIsPrefix(Low(q, r), q, r);
    PrefixTrans(p, Low(q, r), Reordered(q, r));
  }

  // ----- one order for all of them -----

  ghost function Below(rs: iset<nat>, bound: nat): iset<nat> {
    iset r | r in rs && r < bound
  }

  lemma {:induction false} PlacesUpTo(h: History, faithful: bool, rs: iset<nat>, bound: nat) returns (q: History)
    requires WellFormed(h, faithful) && forall r :: r in rs ==> !MissedAcross(h, r)
    ensures FitInto(h, Below(rs, bound), q)
    decreases bound
  {
    if bound == 0 {
      q := h;
      ApplyOrderIsOne(h, faithful);
    } else {
      var r := bound - 1;
      var before := PlacesUpTo(h, faithful, rs, r);
      if r !in rs {
        assert Below(rs, bound) == Below(rs, r);
        return before;
      }
      q := Reordered(before, r);
      ReorderedIsOne(h, faithful, before, r);
      PlaceMade(h, before, r);
      forall x | x in Below(rs, r) ensures HasPlace(h, x, q) {
        PlaceKept(h, faithful, before, x, r);
      }
    }
  }

  ghost function LastTs(h: History): nat {
    match h
    case Start => 0
    case Commit(p, e) => if e.commitTs < LastTs(p) then LastTs(p) else e.commitTs
  }

  lemma {:induction false} LastTsBounds(h: History)
    ensures forall e :: e in Entries(h) ==> e.commitTs <= LastTs(h)
  {
    match h
    case Start =>
    case Commit(p, e) => LastTsBounds(p);
  }

  // A snapshot above every commit stands at the end of any order.
  lemma EndIsPlace(h: History, q: History, r: nat)
    requires SerialOrderOf(q, h) && LastTs(h) <= r
    ensures HasPlace(h, r, q)
  {
    LastTsBounds(h);
    forall k, v: Version {:trigger v in FullChain(q, k)} {:trigger v in FullChain(h, k)}
      ensures v in FullChain(q, k) <==> v in FullChain(h, k) && v.commitTs <= r
    {
      ChainHolds(h, k, v);
    }
    assert IsPrefix(q, q) && ShowsPrefix(h, r, q);
  }

  lemma PlacesForAll(h: History, faithful: bool, rs: iset<nat>)
    requires WellFormed(h, faithful) && forall r :: r in rs ==> !MissedAcross(h, r)
    ensures exists q :: FitInto(h, rs, q)
  {
    var q := PlacesUpTo(h, faithful, rs, LastTs(h));
    forall r | r in rs ensures HasPlace(h, r, q) {
      if LastTs(h) <= r {
        EndIsPlace(h, q, r);
      } else {
        assert r in Below(rs, LastTs(h));
      }
    }
    assert FitInto(h, rs, q);
  }

  // ----- no order has a place across a missed write -----

  lemma {:induction false} PlaceAfter(q: History, p: History, e: Committed) returns (place: History)
    requires IsPrefix(p, q) && e in Entries(q) && e !in Entries(p)
    ensures IsPrefix(p, place) && IsPrefix(Commit(place, e), q)
  {
    if e == q.last && (q.prev == p || IsPrefix(p, q.prev)) {
      place := q.prev;
    } else {
      place := PlaceAfter(q.prev, p, e);
    }
  }

  lemma FoundIsInSnapshot(found: Chain, c: Chain, r: nat, v: Version)
    requires found <= c && |found| == PartitionPoint(c, r) && v in found
    ensures v.commitTs <= r
  {
    var i :| 0 <= i < |found| && found[i] == v;
    assert c[i] == v;
  }

  // What such an order runs before `e` is in the snapshot of `e`.
  lemma RunBeforeIsSeen(h: History, faithful: bool, r: nat, q: History, p: History,
                        e: Committed, x: Committed, k: Key)
    requires WellFormed(h, faithful) && SerialOrderOf(q, h) && IsPrefix(p, q) && ShowsPrefix(h, r, p)
    requires e in Entries(h) && x in Entries(h) && x.commitTs <= r < e.commitTs
    requires e.serializable && k in e.observed && k in x.writes
    ensures x.commitTs <= e.readTs
  {
    var v := Version(x.commitTs, x.writes[k]);
    ChainHolds(h, k, v);
    HighNotShown(h, faithful, r, p, e);
    var place := PlaceAfter(q, p, e);
    FoundBefore(h, faithful, q, place, e, k);
    PrefixChain(p, place, k);
    assert v in FullChain(p, k);
    FoundIsInSnapshot(FullChain(place, k), FullChain(h, k), e.readTs, v);
  }

  lemma MissedFitsNowhere(h: History, faithful: bool, r: nat, q: History)
    requires WellFormed(h, faithful) && SerialOrderOf(q, h) && HasPlace(h, r, q)
    ensures !MissedAcross(h, r)
  {
    var p :| IsPrefix(p, q) && ShowsPrefix(h, r, p);
    forall e, x, k | e in Entries(h) && x in Entries(h) && x.commitTs <= r < e.commitTs
      ensures !MissedWrite(h, e, x, k)
    {
      if AppliedBefore(h, e, x) && e.serializable && k in e.observed && k in x.writes {
        RunBeforeIsSeen(h, faithful, r, q, p, e, x, k);
        LaterAboveSnapshot(h, faithful, e, x);
      }
    }
  }

  // ----- the theorem -----

  // Any snapshots fit into one serial order of the writers if and only if, for each of
  // them, no serializable writer above it missed a write at or below it.
  lemma OneOrderExactly(h: History, faithful: bool, rs: iset<nat>)
    requires WellFormed(h, faithful)
    ensures (exists q :: FitInto(h, rs, q)) <==> forall r :: r in rs ==> !MissedAcross(h, r)
  {
    if forall r :: r in rs ==> !MissedAcross(h, r) {
      PlacesForAll(h, faithful, rs);
    }
    if q :| FitInto(h, rs, q) {
      forall r | r in rs ensures !MissedAcross(h, r) {
        MissedFitsNowhere(h, faithful, r, q);
      }
    }
  }

  // One snapshot alone is the special case.
  lemma SomeOrderExactly(h: History, faithful: bool, r: nat)
    requires WellFormed(h, faithful)
    ensures (exists q, p :: SerialOrderOf(q, h) && IsPrefix(p, q) && ShowsPrefix(h, r, p)) <==> !MissedAcross(h, r)
  {
    OneOrderExactly(h, faithful, iset{r});
    if q, p :| SerialOrderOf(q, h) && IsPrefix(p, q) && ShowsPrefix(h, r, p) {
      assert FitInto(h, iset{r}, q);
    }
    if q :| FitInto(h, iset{r}, q) {
      assert HasPlace(h, r, q);
    }
  }

  // What a place means for the values: the snapshot reads the state of the prefix ...
  lemma FittingReads(h: History, faithful: bool, r: nat, q: History, p: History, k: Key)
    requires WellFormed(h, faithful) && SerialOrderOf(q, h) && IsPrefix(p, q) && ShowsPrefix(h, r, p)
    ensures Lookup(Replay(h, r), k) == Lookup(SerialState(p), k)
  {
    PrefixChain(p, q, k);
    ChainAscends(h, faithful, k);
    ReadIsReplay(h, faithful, k, r);
    ShownIsLast(FullChain(p, k), FullChain(h, k), r);
    SerialIsNewest(p, k);
  }

  lemma ShownIsLast(shown: Chain, c: Chain, r: nat)
    requires Ascending(c) && shown <= c && forall v :: v in shown <==> v in c && v.commitTs <= r
    ensures VisibleValue(c, r) == if shown == [] then None else shown[|shown| - 1].value
  {
    AscendingPart(shown, c);
    AllVisible(shown, c, r);
  }

  // ... and every serializable writer reads at its place what it had read.
  lemma ExplainedReads(h: History, q: History, p: History, e: Committed, k: Key)
    requires WellFormed(h, true) && SerialOrderOf(q, h) && IsPrefix(Commit(p, e), q)
    requires e.serializable && k in e.observed
    ensures e.observed[k] == Lookup(SerialState(p), k)
  {
    FoundBefore(h, true, q, p, e, k);
    FoundIsVisible(FullChain(p, k), FullChain(h, k), e.readTs);
    ObservedStays(h, e, k);
    SerialIsNewest(p, k);
  }

  lemma FoundIsVisible(found: Chain, c: Chain, r: nat)
    requires found <= c && |found| == PartitionPoint(c, r)
    ensures VisibleValue(c, r) == if found == [] then None else found[|found| - 1].value
  {
  }

  // A snapshot that no commit overtook has its place in apply order itself.
  lemma NoneOvertakenFits(h: History, faithful: bool, r: nat)
    requires WellFormed(h, faithful) && NoneOvertaken(h, r)
    ensures SerialOrderOf(h, h) && HasPlace(h, r, h) && !MissedAcross(h, r)
  {
    ApplyOrderIsOne(h, faithful);
    SerialStateExactly(h, faithful, r);
    MissedFitsNowhere(h, faithful, r, h);
  }

  lemma NoneMissedAcross(h: History, every: iset<nat>)
    requires forall r: nat :: r in every
    ensures (forall r :: r in every ==> !MissedAcross(h, r))
       <==> forall e, x, k :: e in Entries(h) && x in Entries(h) ==> !MissedWrite(h, e, x, k)
  {
    forall e, x, k | e in Entries(h) && x in Entries(h) && MissedWrite(h, e, x, k)
      ensures MissedAcross(h, x.commitTs) && x.commitTs in every
    {
      assert x.commitTs <= x.commitTs < e.commitTs;
    }
  }

  // Every snapshot fits at once if and only if timestamp order is a serial order.
  lemma AllFitExactly(h: History, faithful: bool, every: iset<nat>)
    requires WellFormed(h, faithful) && forall r: nat :: r in every
    ensures (exists q :: FitInto(h, every, q)) <==> TimestampOrderIsSerial(h)
  {
    OneOrderExactly(h, faithful, every);
    TimestampOrderExactly(h, faithful);
    NoneMissedAcross(h, every);
  }
}
