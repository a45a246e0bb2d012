// One key's version chain: what a snapshot sees of it, when it conflicts with a
// commit, and what garbage collection may remove from it (src/store.rs).

module VersionChain {
  import opened Types

  ghost predicate Ascending(c: Chain) {
    forall i, j :: 0 <= i < j < |c| ==> c[i].commitTs < c[j].commitTs
  }

  // The number of leading versions at or below `r`.
  function PartitionPoint(c: Chain, r: nat): (n: nat)
    ensures n <= |c|
    ensures forall i :: 0 <= i < n ==> c[i].commitTs <= r
    ensures n < |c| ==> r < c[n].commitTs
  {
    LeadingFrom(c, r, 0)
  }

  function LeadingFrom(c: Chain, r: nat, from: nat): (n: nat)
    requires from <= |c|
    ensures from <= n <= |c|
    ensures forall i :: from <= i < n ==> c[i].commitTs <= r
    ensures n < |c| ==> r < c[n].commitTs
    decreases |c| - from
  {
    if from == |c| || r < c[from].commitTs then from else LeadingFrom(c, r, from + 1)
  }

  // The value of the newest version at or below `r`.
  function VisibleValue(c: Chain, r: nat): Value {
    var visible := PartitionPoint(c, r);
    if visible == 0 then None else c[visible - 1].value
  }

  // The newest version was committed after `r`: the conflict condition.
  predicate NewerThan(c: Chain, r: nat) {
    c != [] && r < c[|c| - 1].commitTs
  }

  // What the retain closure of garbage collection leaves of one chain. The empty
  // chain stands for a key that is dropped.
  function PruneChain(c: Chain, low: nat): Chain {
    var visible := PartitionPoint(c, low);
    var kept := if visible > 1 then c[visible - 1..] else c;
    if |kept| == 1 && kept[0].commitTs <= low && kept[0].value.None? then [] else kept
  }

  // On an ascending chain the partition point is the only split there is.
  lemma PartitionPointIs(c: Chain, r: nat, n: nat)
    requires Ascending(c) && n <= |c|
    requires n > 0 ==> c[n - 1].commitTs <= r
    requires n < |c| ==> r < c[n].commitTs
    ensures PartitionPoint(c, r) == n
  {
  }

  // The snapshot-read rule, stated without the search: the visible value is that
  // of a version at or below `r` that no other version at or below `r` follows,
  // and it is absent when there is none.
  lemma VisibleIsNewest(c: Chain, r: nat, i: nat)
    requires Ascending(c) && i < |c| && c[i].commitTs <= r
    requires forall j :: 0 <= j < |c| && c[j].commitTs <= r ==> c[j].commitTs <= c[i].commitTs
    ensures VisibleValue(c, r) == c[i].value
  {
    PartitionPointIs(c, r, i + 1);
  }

  lemma VisibleIsAbsent(c: Chain, r: nat)
    requires forall j :: 0 <= j < |c| ==> r < c[j].commitTs
    ensures VisibleValue(c, r) == None
  {
    assert PartitionPoint(c, r) == 0;
  }

  lemma VisibleAfterPush(c: Chain, v: Version, r: nat)
    requires Ascending(c + [v])
    ensures VisibleValue(c + [v], r) == if v.commitTs <= r then v.value else VisibleValue(c, r)
  {
    var d := c + [v];
    assert forall i :: 0 <= i < |c| ==> c[i] == d[i];
    if v.commitTs <= r {
      PartitionPointIs(d, r, |d|);
    } else {
      var n := PartitionPoint(c, r);
      assert n > 0 ==> d[n - 1] == c[n - 1];
      PartitionPointIs(d, r, n);
    }
  }

  // A chain whose newest version is not newer than the snapshot shows that version.
  lemma VisibleIsLast(c: Chain, r: nat)
    requires Ascending(c) && !NewerThan(c, r)
    ensures VisibleValue(c, r) == if c == [] then None else c[|c| - 1].value
  {
    PartitionPointIs(c, r, |c|);
  }

  lemma LastIsNewest(c: Chain, v: Version)
    requires Ascending(c) && v in c
    ensures v.commitTs <= c[|c| - 1].commitTs
    ensures v == c[|c| - 1] || (v in c[..|c| - 1] && v.commitTs < c[|c| - 1].commitTs)
  {
    var i :| 0 <= i < |c| && c[i] == v;
    if i < |c| - 1 {
      assert c[..|c| - 1][i] == v;
    }
  }

  lemma InitOf(a: Chain, b: Chain, v: Version)
    requires Ascending(a) && Ascending(b) && a != [] && b != []
    requires a[|a| - 1] == b[|b| - 1] && v in a[..|a| - 1] && v in b
    ensures v in b[..|b| - 1]
  {
    var i :| 0 <= i < |a| - 1 && a[i] == v;
    LastIsNewest(b, v);
  }

  // Two ascending chains holding the same versions are the same chain.
  lemma {:induction false} EqualAscending(a: Chain, b: Chain)
    requires Ascending(a) && Ascending(b)
    requires forall v :: v in a <==> v in b
    ensures a == b
  {
    assert a != [] ==> a[0] in a;
    assert b != [] ==> b[0] in b;
    if a != [] {
      LastIsNewest(b, a[|a| - 1]);
      LastIsNewest(a, b[|b| - 1]);
      var a', b' := a[..|a| - 1], b[..|b| - 1];
      forall v ensures v in a' <==> v in b' {
        if v in a' { InitOf(a, b, v); }
        if v in b' { InitOf(b, a, v); }
      }
      EqualAscending(a', b');
      assert a == a' + [a[|a| - 1]] && b == b' + [b[|b| - 1]];
    }
  }

  // Where pruning at watermarks up to `low` may cut a chain: the first version that
  // stays, or a tombstone just before it, is at or below `low`.
  ghost predicate CutAt(full: Chain, d: nat, low: nat) {
    d <= |full| &&
    (d == 0
     || (full[d - 1].commitTs <= low && full[d - 1].value.None?)
     || (d < |full| && full[d].commitTs <= low))
  }

  // `kept` is what such pruning may leave of `full`.
  ghost predicate PrunedTo(full: Chain, kept: Chain, low: nat) {
    |kept| <= |full| && kept == full[|full| - |kept|..] && CutAt(full, |full| - |kept|, low)
  }

  lemma SuffixAscending(c: Chain, d: nat)
    requires Ascending(c) && d <= |c|
    ensures Ascending(c[d..])
  {
  }

  lemma SuffixPartitionPoint(c: Chain, d: nat, r: nat)
    requires Ascending(c) && d <= PartitionPoint(c, r)
    ensures PartitionPoint(c[d..], r) == PartitionPoint(c, r) - d
  {
    var n := PartitionPoint(c, r);
    SuffixAscending(c, d);
    assert n - d > 0 ==> c[d..][n - d - 1] == c[n - 1];
    PartitionPointIs(c[d..], r, n - d);
  }

  lemma CutReadsSame(full: Chain, d: nat, low: nat, r: nat)
    requires Ascending(full) && CutAt(full, d, low) && low <= r
    ensures Ascending(full[d..])
    ensures VisibleValue(full[d..], r) == VisibleValue(full, r)
  {
    SuffixAscending(full, d);
    if d == 0 {
      assert full[0..] == full;
    } else {
      SuffixPartitionPoint(full, d, r);
    }
  }

  lemma CutConflictsSame(full: Chain, d: nat, low: nat, r: nat)
    requires Ascending(full) && CutAt(full, d, low) && low <= r
    ensures NewerThan(full[d..], r) == NewerThan(full, r)
  {
  }

  // Pruning removes nothing a snapshot at or above the watermark can read, and
  // leaves every conflict verdict of such a snapshot as it was.
  lemma PrunedReadsSame(full: Chain, kept: Chain, low: nat, r: nat)
    requires Ascending(full) && PrunedTo(full, kept, low) && low <= r
    ensures Ascending(kept)
    ensures VisibleValue(kept, r) == VisibleValue(full, r)
    ensures NewerThan(kept, r) == NewerThan(full, r)
  {
    CutReadsSame(full, |full| - |kept|, low, r);
    CutConflictsSame(full, |full| - |kept|, low, r);
  }

  lemma PrunedAfterPush(full: Chain, kept: Chain, low: nat, v: Version)
    requires PrunedTo(full, kept, low)
    ensures PrunedTo(full + [v], kept + [v], low)
  {
    var d := |full| - |kept|;
    assert full[d..] + [v] == (full + [v])[d..];
  }

  lemma PrunedMonotone(full: Chain, kept: Chain, low: nat, high: nat)
    requires PrunedTo(full, kept, low) && low <= high
    ensures PrunedTo(full, kept, high)
  {
  }

  lemma SuffixOfSuffix(c: Chain, d: nat, e: nat)
    requires d + e <= |c|
    ensures c[d..][e..] == c[d + e..]
  {
  }

  // Dropping the versions before the last one at or below the watermark.
  lemma DrainKeepsCut(full: Chain, d: nat, low: nat, mark: nat)
    requires CutAt(full, d, low) && mark <= low
    requires PartitionPoint(full[d..], mark) > 1
    ensures CutAt(full, d + PartitionPoint(full[d..], mark) - 1, low)
  {
    var p := PartitionPoint(full[d..], mark);
    assert full[d..][p - 1] == full[d + p - 1];
  }

  lemma DropKeepsCut(full: Chain, low: nat)
    requires full != [] && full[|full| - 1].commitTs <= low && full[|full| - 1].value.None?
    ensures CutAt(full, |full|, low) && full[|full|..] == []
  {
  }

  lemma PrunedOfTombstone(full: Chain, kept: Chain, low: nat, mark: nat)
    requires PrunedTo(full, kept, low) && mark <= low
    ensures |kept| == 1 && kept[0].commitTs <= mark && kept[0].value.None? ==> PrunedTo(full, [], low)
  {
    if |kept| == 1 && kept[0].commitTs <= mark && kept[0].value.None? {
      assert kept[0] == full[|full| - 1];
      DropKeepsCut(full, low);
    }
  }

  // Pruning a pruned chain again, at any watermark not above `low`, leaves a
  // pruned chain.
  lemma PrunedAgain(full: Chain, kept: Chain, low: nat, mark: nat)
    requires PrunedTo(full, kept, low) && mark <= low
    ensures PrunedTo(full, PruneChain(kept, mark), low)
  {
    var d := |full| - |kept|;
    var p := PartitionPoint(kept, mark);
    if p > 1 {
      DrainKeepsCut(full, d, low, mark);
      SuffixOfSuffix(full, d, p - 1);
      PrunedOfTombstone(full, kept[p - 1..], low, mark);
    } else {
      PrunedOfTombstone(full, kept, low, mark);
    }
  }

  // What pruning leaves is the least that serves the snapshots at or above the
  // watermark: at most one version at or below it, no lone tombstone it has passed,
  // and nothing more to take on a second pass.
  lemma PruneIsMinimal(c: Chain, low: nat)
    requires Ascending(c)
    ensures var kept := PruneChain(c, low);
            Ascending(kept)
            && PartitionPoint(kept, low) <= 1
            && !(|kept| == 1 && kept[0].commitTs <= low && kept[0].value.None?)
            && PruneChain(kept, low) == kept
  {
    var p := PartitionPoint(c, low);
    if p > 1 {
      SuffixAscending(c, p - 1);
      SuffixPartitionPoint(c, p - 1, low);
    }
  }

  // Every version that survives is the one some snapshot at or above the watermark
  // reads.
  lemma PruneKeepsOnlyReadVersions(c: Chain, low: nat, i: nat)
    requires Ascending(c) && i < |PruneChain(c, low)|
    ensures var kept := PruneChain(c, low);
            PartitionPoint(kept, Max(low, kept[i].commitTs)) == i + 1
  {
    PruneIsMinimal(c, low);
    var kept := PruneChain(c, low);
    assert i + 1 < |kept| ==> low < kept[i + 1].commitTs;
    PartitionPointIs(kept, Max(low, kept[i].commitTs), i + 1);
  }

  lemma BelowPartitionPoint(c: Chain, r: nat, i: nat)
    requires Ascending(c) && i < |c| && c[i].commitTs <= r
    ensures i < PartitionPoint(c, r)
  {
  }

  // Conflict means that some version is newer than the snapshot.
  lemma NewerThanExactly(c: Chain, r: nat)
    requires Ascending(c)
    ensures NewerThan(c, r) <==> exists v :: v in c && r < v.commitTs
  {
    if NewerThan(c, r) {
      assert c[|c| - 1] in c;
    }
    if v :| v in c && r < v.commitTs {
      LastIsNewest(c, v);
    }
  }

  // ----- what a collection keeps of a chain -----

  ghost predicate NewestUpTo(c: Chain, low: nat, v: Version) {
    v.commitTs <= low && forall w :: w in c && w.commitTs <= low ==> w.commitTs <= v.commitTs
  }

  // Every version above the watermark stays, and the newest one at or below it, unless
  // that one is a tombstone with nothing after it.
  ghost predicate Stays(c: Chain, low: nat, v: Version) {
    v in c
    && (low < v.commitTs
        || (NewestUpTo(c, low, v) && (v.value.Some? || exists w :: w in c && low < w.commitTs)))
  }

  // `kept` is what stays of `c`, in order.
  ghost predicate KeepsExactly(c: Chain, kept: Chain, low: nat) {
    Ascending(kept) && forall v :: v in kept <==> Stays(c, low, v)
  }

  // One version at most at or below the watermark, and no lone tombstone there.
  ghost predicate NothingToTake(c: Chain, low: nat) {
    && (forall i, j :: 0 <= i < |c| && 0 <= j < |c| && c[i].commitTs <= low && c[j].commitTs <= low ==> i == j)
    && (|c| == 1 && c[0].commitTs <= low ==> c[0].value.Some?)
  }

  lemma NewestIsLastBelow(c: Chain, low: nat, i: nat)
    requires Ascending(c) && i < |c|
    ensures NewestUpTo(c, low, c[i]) <==> i + 1 == PartitionPoint(c, low)
  {
    var p := PartitionPoint(c, low);
    if i + 1 == p {
      forall w | w in c && w.commitTs <= low ensures w.commitTs <= c[i].commitTs {
        var j :| 0 <= j < |c| && c[j] == w;
        BelowPartitionPoint(c, low, j);
      }
    } else if i + 1 < p {
      assert c[p - 1] in c;
    }
  }

  // Position by position: what stays is what the cut leaves.
  lemma StaysAt(c: Chain, low: nat, i: nat)
    requires Ascending(c) && i < |c|
    ensures Stays(c, low, c[i])
       <==> PartitionPoint(c, low) <= i
            || (i + 1 == PartitionPoint(c, low) && (c[i].value.Some? || i + 1 < |c|))
  {
    var p := PartitionPoint(c, low);
    NewestIsLastBelow(c, low, i);
    if p <= i {
      assert c[p].commitTs <= c[i].commitTs;
    }
    if p < |c| {
      assert c[p] in c && low < c[p].commitTs;
    } else {
      forall w | w in c ensures w.commitTs <= low {
        var j :| 0 <= j < |c| && c[j] == w;
      }
    }
  }

  lemma PruneIsSuffix(c: Chain, low: nat, i: nat)
    requires i < |c|
    ensures var kept, p := PruneChain(c, low), PartitionPoint(c, low);
            && |kept| <= |c| && kept == c[|c| - |kept|..]
            && (|c| - |kept| <= i <==> p <= i || (i + 1 == p && (c[i].value.Some? || i + 1 < |c|)))
  {
  }

  // Which versions pruning keeps of an ascending chain.
  lemma PruneKeepsExactly(c: Chain, low: nat)
    requires Ascending(c)
    ensures KeepsExactly(c, PruneChain(c, low), low)
  {
    PruneIsMinimal(c, low);
    forall v ensures v in PruneChain(c, low) <==> Stays(c, low, v) {
      PruneKeepsOne(c, low, v);
    }
  }

  lemma PruneKeepsOne(c: Chain, low: nat, v: Version)
    requires Ascending(c)
    ensures v in PruneChain(c, low) <==> Stays(c, low, v)
  {
    forall i | 0 <= i < |c|
      ensures |PruneChain(c, low)| <= |c|
      ensures PruneChain(c, low) == c[|c| - |PruneChain(c, low)|..]
      ensures |c| - |PruneChain(c, low)| <= i <==> Stays(c, low, c[i])
    {
      PruneIsSuffix(c, low, i);
      StaysAt(c, low, i);
    }
    SuffixHolds(c, PruneChain(c, low), low, v);
  }

  lemma SuffixHolds(c: Chain, kept: Chain, low: nat, v: Version)
    requires |kept| <= |c| && kept == c[|c| - |kept|..] && Ascending(c)
    requires forall i :: 0 <= i < |c| ==> (|c| - |kept| <= i <==> Stays(c, low, c[i]))
    ensures v in kept <==> Stays(c, low, v)
  {
    var d := |c| - |kept|;
    if v in kept {
      var i :| 0 <= i < |kept| && kept[i] == v;
      assert c[d + i] == v;
    }
    if Stays(c, low, v) {
      var i :| 0 <= i < |c| && c[i] == v;
      assert kept[i - d] == v;
    }
  }

  // What stays is minimal, and fixes the chain.
  lemma KeptIsMinimal(c: Chain, kept: Chain, low: nat)
    requires Ascending(c) && KeepsExactly(c, kept, low)
    ensures NothingToTake(kept, low)
  {
    forall i, j | 0 <= i < |kept| && 0 <= j < |kept| && kept[i].commitTs <= low && kept[j].commitTs <= low
      ensures i == j
    {
      assert Stays(c, low, kept[i]) && Stays(c, low, kept[j]);
    }
    if |kept| == 1 && kept[0].commitTs <= low {
      assert kept[0] in kept;
      if w :| w in c && low < w.commitTs {
        assert Stays(c, low, w);
      }
    }
  }

  lemma OneKept(c: Chain, a: Chain, b: Chain, low: nat)
    requires KeepsExactly(c, a, low) && KeepsExactly(c, b, low)
    ensures a == b
  {
    forall v ensures v in a <==> v in b {
      assert v in a <==> Stays(c, low, v);
    }
    EqualAscending(a, b);
  }

  lemma InPrefix(a: Chain, b: Chain, r: nat, v: Version)
    requires v in a[..PartitionPoint(a, r)]
    requires forall v: Version :: v.commitTs <= r && v in a ==> v in b
    requires Ascending(b)
    ensures v in b[..PartitionPoint(b, r)]
  {
    var i :| 0 <= i < PartitionPoint(a, r) && a[i] == v;
    assert v in a && v in b;
    var j :| 0 <= j < |b| && b[j] == v;
    BelowPartitionPoint(b, r, j);
    assert b[..PartitionPoint(b, r)][j] == v;
  }

  // A snapshot depends only on the versions at or below it.
  lemma VisibleAgree(a: Chain, b: Chain, r: nat)
    requires Ascending(a) && Ascending(b)
    requires forall v: Version :: v.commitTs <= r ==> (v in a <==> v in b)
    ensures VisibleValue(a, r) == VisibleValue(b, r)
  {
    var a', b' := a[..PartitionPoint(a, r)], b[..PartitionPoint(b, r)];
    forall v ensures v in a' <==> v in b' {
      if v in a' { InPrefix(a, b, r, v); }
      if v in b' { InPrefix(b, a, r, v); }
    }
    EqualAscending(a', b');
    assert |a'| > 0 ==> a'[|a'| - 1] == b'[|b'| - 1];
  }
}
