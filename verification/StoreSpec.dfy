// The version store as one unsharded map of chains: the atomic meaning of
// validating, applying, pruning and reinstating commits (src/store.rs, src/db.rs).

module StoreSpec {
  import opened Types
  import opened VersionChain

  // A key without an entry has the empty chain.
  function ChainOf(m: Chains, k: Key): Chain {
    if k in m then m[k] else []
  }

  ghost predicate NoEmptyChain(m: Chains) {
    forall k :: k in m ==> m[k] != []
  }

  // The key has a version that the snapshot does not see yet.
  ghost predicate ChangedSince(m: Chains, k: Key, r: nat) {
    exists v :: v in ChainOf(m, k) && r < v.commitTs
  }

  // Nothing in `keys` has changed since snapshot `r`.
  ghost predicate Validates(m: Chains, r: nat, keys: set<Key>) {
    forall k :: k in keys ==> !NewerThan(ChainOf(m, k), r)
  }

  function Push(m: Chains, k: Key, v: Version): Chains {
    m[k := ChainOf(m, k) + [v]]
  }

  // All the writes of one commit, installed at once.
  function ApplyWrites(m: Chains, ts: nat, writes: WriteSet): Chains {
    map k | k in m.Keys + writes.Keys ::
      if k in writes then ChainOf(m, k) + [Version(ts, writes[k])] else m[k]
  }

  // Garbage collection of the keys in `keys`.
  function PruneKeys(m: Chains, low: nat, keys: set<Key>): Chains {
    map k | k in m && (k in keys ==> PruneChain(m[k], low) != []) ::
      if k in keys then PruneChain(m[k], low) else m[k]
  }

  lemma ChainOfApplied(m: Chains, ts: nat, writes: WriteSet, k: Key)
    ensures ChainOf(ApplyWrites(m, ts, writes), k)
         == if k in writes then ChainOf(m, k) + [Version(ts, writes[k])] else ChainOf(m, k)
  {
  }

  lemma ChainOfPruned(m: Chains, low: nat, keys: set<Key>, k: Key)
    ensures ChainOf(PruneKeys(m, low, keys), k)
         == if k in keys then PruneChain(ChainOf(m, k), low) else ChainOf(m, k)
  {
  }

  // Of every key in `keys` exactly what the watermark calls for is left; the others are
  // as they were.
  ghost predicate Collected(m: Chains, m': Chains, low: nat, keys: set<Key>) {
    && (forall k :: k in keys && Ascending(ChainOf(m, k)) ==> KeepsExactly(ChainOf(m, k), ChainOf(m', k), low))
    && (forall k :: k !in keys ==> ChainOf(m', k) == ChainOf(m, k))
  }

  lemma PruneKeysExactly(m: Chains, low: nat, keys: set<Key>)
    ensures Collected(m, PruneKeys(m, low, keys), low, keys)
  {
    forall k | k in keys && Ascending(ChainOf(m, k))
      ensures KeepsExactly(ChainOf(m, k), ChainOf(PruneKeys(m, low, keys), k), low)
    {
      ChainOfPruned(m, low, keys, k);
      PruneKeepsExactly(ChainOf(m, k), low);
    }
    forall k | k !in keys ensures ChainOf(PruneKeys(m, low, keys), k) == ChainOf(m, k) {
      ChainOfPruned(m, low, keys, k);
    }
  }

  // ----- the log and its replay -----

  // One committed transaction in the log.
  datatype Record = Record(commitTs: nat, writes: WriteSet)

  ghost predicate Logged(log: seq<Record>, ts: nat) {
    exists i :: 0 <= i < |log| && log[i].commitTs == ts
  }

  function TsOf(log: seq<Record>): set<nat> {
    set i | 0 <= i < |log| :: log[i].commitTs
  }

  ghost predicate DistinctTs(log: seq<Record>) {
    forall i, j :: 0 <= i < j < |log| ==> log[i].commitTs != log[j].commitTs
  }

  ghost predicate SortedByTs(log: seq<Record>) {
    forall i, j :: 0 <= i < j < |log| ==> log[i].commitTs <= log[j].commitTs
  }

  // Stable insertion, after every record with the same or a smaller timestamp.
  function InsertByTs(sorted: seq<Record>, r: Record): (s: seq<Record>)
    ensures multiset(s) == multiset(sorted) + multiset{r}
  {
    if sorted == [] || sorted[|sorted| - 1].commitTs <= r.commitTs then sorted + [r]
    else
      var init, last := sorted[..|sorted| - 1], sorted[|sorted| - 1];
      assert sorted == init + [last];
      InsertByTs(init, r) + [last]
  }

  function SortByTs(log: seq<Record>): (s: seq<Record>)
    ensures multiset(s) == multiset(log)
  {
    if log == [] then []
    else
      assert log == log[..|log| - 1] + [log[|log| - 1]];
      InsertByTs(SortByTs(log[..|log| - 1]), log[|log| - 1])
  }

  function InstallAll(records: seq<Record>): Chains {
    if records == [] then map[]
    else
      var last := records[|records| - 1];
      ApplyWrites(InstallAll(records[..|records| - 1]), last.commitTs, last.writes)
  }

  function Highest(records: seq<Record>): nat {
    if records == [] then 0
    else Max(Highest(records[..|records| - 1]), records[|records| - 1].commitTs)
  }

  // The store that opening a database over `log` rebuilds.
  function Recover(log: seq<Record>): Chains {
    InstallAll(SortByTs(log))
  }

  lemma {:induction false} InsertSorted(sorted: seq<Record>, r: Record)
    requires SortedByTs(sorted)
    ensures SortedByTs(InsertByTs(sorted, r))
  {
    if sorted == [] || sorted[|sorted| - 1].commitTs <= r.commitTs {
    } else {
      var init, last := sorted[..|sorted| - 1], sorted[|sorted| - 1];
      InsertSorted(init, r);
      var s := InsertByTs(init, r);
      forall i | 0 <= i < |s| ensures s[i].commitTs <= last.commitTs {
        assert s[i] in multiset(s);
        assert s[i] in init || s[i] == r;
      }
    }
  }

  lemma {:induction false} SortSorts(log: seq<Record>)
    ensures SortedByTs(SortByTs(log))
  {
    if log != [] {
      SortSorts(log[..|log| - 1]);
      InsertSorted(SortByTs(log[..|log| - 1]), log[|log| - 1]);
    }
  }

  lemma MultisetDistinct(a: seq<Record>, b: seq<Record>)
    requires multiset(a) == multiset(b) && DistinctTs(a)
    ensures DistinctTs(b)
  {
    forall i, j | 0 <= i < j < |b| ensures b[i].commitTs != b[j].commitTs {
      if b[i].commitTs == b[j].commitTs {
        assert b[i] in multiset(b) && b[j] in multiset(b);
        assert b[i] in a && b[j] in a;
        assert b[i] == b[j];
        TwiceInMultiset(b, i, j);
        OnceInMultiset(a, b[i]);
        assert false;
      }
    }
  }

  lemma TwiceInMultiset<T>(s: seq<T>, i: nat, j: nat)
    requires i < j < |s| && s[i] == s[j]
    ensures multiset(s)[s[i]] >= 2
  {
    assert s == s[..j] + s[j..];
    assert s[i] in s[..j] && s[i] in s[j..];
  }

  lemma OnceInMultiset(s: seq<Record>, r: Record)
    requires DistinctTs(s)
    ensures multiset(s)[r] <= 1
  {
    if s != [] {
      var init := s[..|s| - 1];
      assert s == init + [s[|s| - 1]];
      OnceInMultiset(init, r);
      if r == s[|s| - 1] {
        assert r !in init;
      }
    }
  }

  lemma {:induction false} InstalledChain(records: seq<Record>, k: Key, v: Version)
    ensures v in ChainOf(InstallAll(records), k) <==>
            exists i :: 0 <= i < |records| && k in records[i].writes
                        && v == Version(records[i].commitTs, records[i].writes[k])
  {
    if records != [] {
      var n := |records| - 1;
      var init, last := records[..n], records[n];
      InstalledChain(init, k, v);
      ChainOfApplied(InstallAll(init), last.commitTs, last.writes, k);
      var c := ChainOf(InstallAll(init), k);
      assert k in last.writes ==>
        (v in c + [Version(last.commitTs, last.writes[k])] <==> v in c || v == Version(last.commitTs, last.writes[k]));
      assert forall i :: 0 <= i < n ==> records[i] == init[i];
    }
  }

  // Replay in timestamp order pushes every version at the end of an ascending chain.
  lemma {:induction false} InstalledAscends(records: seq<Record>, k: Key)
    requires SortedByTs(records) && DistinctTs(records)
    ensures Ascending(ChainOf(InstallAll(records), k))
  {
    if records != [] {
      var n := |records| - 1;
      var init, last := records[..n], records[n];
      InstalledAscends(init, k);
      ChainOfApplied(InstallAll(init), last.commitTs, last.writes, k);
      var c := ChainOf(InstallAll(init), k);
      forall i | 0 <= i < |c| ensures c[i].commitTs < last.commitTs {
        InstalledChain(init, k, c[i]);
        var j :| 0 <= j < |init| && k in init[j].writes && c[i] == Version(init[j].commitTs, init[j].writes[k]);
        assert records[j] == init[j];
      }
    }
  }

  // What recovery rebuilds for one key: an ascending chain of exactly the logged
  // versions, whatever the order of the log.
  lemma RecoveredChain(log: seq<Record>, k: Key)
    requires DistinctTs(log)
    ensures Ascending(ChainOf(Recover(log), k))
    ensures forall v :: v in ChainOf(Recover(log), k) <==>
              exists r :: r in log && k in r.writes && v == Version(r.commitTs, r.writes[k])
  {
    var sorted := SortByTs(log);
    SortSorts(log);
    MultisetDistinct(log, sorted);
    InstalledAscends(sorted, k);
    forall v
      ensures v in ChainOf(Recover(log), k) <==>
              exists r :: r in log && k in r.writes && v == Version(r.commitTs, r.writes[k])
    {
      InstalledChain(sorted, k, v);
      SameMembers(log, sorted);
      if v in ChainOf(Recover(log), k) {
        var i :| 0 <= i < |sorted| && k in sorted[i].writes
                 && v == Version(sorted[i].commitTs, sorted[i].writes[k]);
        assert sorted[i] in log;
      }
      if r :| r in log && k in r.writes && v == Version(r.commitTs, r.writes[k]) {
        assert r in sorted;
        var i :| 0 <= i < |sorted| && sorted[i] == r;
      }
    }
  }

  lemma SameMembers(a: seq<Record>, b: seq<Record>)
    requires multiset(a) == multiset(b)
    ensures forall r :: r in a <==> r in b
  {
    assert forall r :: r in a <==> r in multiset(a);
  }

  lemma {:induction false} HighestBounds(records: seq<Record>)
    ensures forall i :: 0 <= i < |records| ==> records[i].commitTs <= Highest(records)
    ensures Highest(records) == 0 || Highest(records) in TsOf(records)
  {
    if records != [] {
      var n := |records| - 1;
      HighestBounds(records[..n]);
      assert forall i :: 0 <= i < n ==> records[i] == records[..n][i];
      assert records[n].commitTs in TsOf(records);
    }
  }
}
