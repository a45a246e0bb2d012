// Replaying a decoded log (src/db.rs): the commits sorted by timestamp and installed one
// after the other, and that this is the recovery of the protocol.

module Recovery {
  import opened Types
  import opened StoreSpec
  import opened Batch
  import opened Codec

  ghost function AsRecord(c: RecoveredCommit): Record {
    Record(c.commitTs, WritesOf(c.batch))
  }

  ghost function AsRecords(commits: seq<RecoveredCommit>): (records: seq<Record>)
    ensures |records| == |commits|
    ensures forall i :: 0 <= i < |commits| ==> records[i] == AsRecord(commits[i])
  {
    seq(|commits|, i requires 0 <= i < |commits| => AsRecord(commits[i]))
  }

  // The keys of every batch are distinct, as they are in a batch that was committed.
  ghost predicate AllDistinctKeys(commits: seq<RecoveredCommit>) {
    forall i :: 0 <= i < |commits| ==> DistinctKeys(commits[i].batch)
  }

  // After every commit with the same or a smaller timestamp: the sort is stable.
  function InsertCommit(sorted: seq<RecoveredCommit>, c: RecoveredCommit): (s: seq<RecoveredCommit>)
    ensures multiset(s) == multiset(sorted) + multiset{c}
  {
    if sorted == [] || sorted[|sorted| - 1].commitTs <= c.commitTs then sorted + [c]
    else
      var init, last := sorted[..|sorted| - 1], sorted[|sorted| - 1];
      assert sorted == init + [last];
      InsertCommit(init, c) + [last]
  }

  function SortCommits(commits: seq<RecoveredCommit>): (s: seq<RecoveredCommit>)
    ensures multiset(s) == multiset(commits)
  {
    if commits == [] then []
    else
      assert commits == commits[..|commits| - 1] + [commits[|commits| - 1]];
      InsertCommit(SortCommits(commits[..|commits| - 1]), commits[|commits| - 1])
  }

  // The first `n` commits pushed onto an empty store, entry by entry.
  function InstallUpTo(commits: seq<RecoveredCommit>, n: nat): Chains
    requires n <= |commits|
  {
    if n == 0 then map[] else PushAll(InstallUpTo(commits, n - 1), commits[n - 1].commitTs, commits[n - 1].batch)
  }

  // The store that replaying a decoded log builds.
  function ReplayLog(commits: seq<RecoveredCommit>): Chains {
    InstallUpTo(SortCommits(commits), |SortCommits(commits)|)
  }

  function HighestUpTo(commits: seq<RecoveredCommit>, n: nat): nat
    requires n <= |commits|
  {
    if n == 0 then 0 else Max(HighestUpTo(commits, n - 1), commits[n - 1].commitTs)
  }

  lemma AsRecordsTake(commits: seq<RecoveredCommit>, n: nat)
    requires n <= |commits|
    ensures AsRecords(commits)[..n] == AsRecords(commits[..n])
  {
  }

  lemma {:induction false} InsertAsRecords(sorted: seq<RecoveredCommit>, c: RecoveredCommit)
    ensures AsRecords(InsertCommit(sorted, c)) == InsertByTs(AsRecords(sorted), AsRecord(c))
  {
    if sorted == [] || sorted[|sorted| - 1].commitTs <= c.commitTs {
    } else {
      var n := |sorted| - 1;
      InsertAsRecords(sorted[..n], c);
      AsRecordsTake(sorted, n);
    }
  }

  lemma {:induction false} SortAsRecords(commits: seq<RecoveredCommit>)
    ensures AsRecords(SortCommits(commits)) == SortByTs(AsRecords(commits))
  {
    if commits != [] {
      var n := |commits| - 1;
      SortAsRecords(commits[..n]);
      AsRecordsTake(commits, n);
      InsertAsRecords(SortCommits(commits[..n]), commits[n]);
    }
  }

  lemma {:induction false} InstallIsInstallAll(commits: seq<RecoveredCommit>, n: nat)
    requires n <= |commits| && AllDistinctKeys(commits)
    ensures InstallUpTo(commits, n) == InstallAll(AsRecords(commits)[..n])
  {
    if n > 0 {
      InstallIsInstallAll(commits, n - 1);
      PushAllIsApply(InstallUpTo(commits, n - 1), commits[n - 1].commitTs, commits[n - 1].batch);
      var records := AsRecords(commits)[..n];
      assert records[..n - 1] == AsRecords(commits)[..n - 1];
    }
  }

  lemma {:induction false} HighestIsHighest(commits: seq<RecoveredCommit>, n: nat)
    requires n <= |commits|
    ensures HighestUpTo(commits, n) == Highest(AsRecords(commits)[..n])
  {
    if n > 0 {
      HighestIsHighest(commits, n - 1);
      var records := AsRecords(commits)[..n];
      assert records[..n - 1] == AsRecords(commits)[..n - 1];
    }
  }

  lemma HighestOfSorted(log: seq<Record>)
    ensures Highest(SortByTs(log)) == Highest(log)
  {
    var sorted := SortByTs(log);
    SameMembers(log, sorted);
    HighestBounds(log);
    HighestBounds(sorted);
    forall ts ensures ts in TsOf(log) <==> ts in TsOf(sorted) {
      TsOfMember(log, ts);
      TsOfMember(sorted, ts);
    }
  }

  lemma TsOfMember(log: seq<Record>, ts: nat)
    ensures ts in TsOf(log) <==> exists r :: r in log && r.commitTs == ts
  {
    if ts in TsOf(log) {
      var i :| 0 <= i < |log| && log[i].commitTs == ts;
      assert log[i] in log;
    }
  }

  // Replaying what was decoded recovers the records it stands for, and the highest
  // timestamp met on the way is the highest of the log.
  lemma ReplayIsRecovery(commits: seq<RecoveredCommit>)
    ensures HighestUpTo(SortCommits(commits), |SortCommits(commits)|) == Highest(AsRecords(commits))
    ensures AllDistinctKeys(commits) ==> ReplayLog(commits) == Recover(AsRecords(commits))
  {
    var sorted := SortCommits(commits);
    SortAsRecords(commits);
    assert AsRecords(sorted)[..|sorted|] == AsRecords(sorted);
    HighestIsHighest(sorted, |sorted|);
    HighestOfSorted(AsRecords(commits));
    if AllDistinctKeys(commits) {
      forall i | 0 <= i < |sorted| ensures DistinctKeys(sorted[i].batch) {
        assert sorted[i] in multiset(sorted);
        assert sorted[i] in commits;
      }
      InstallIsInstallAll(sorted, |sorted|);
    }
  }
}
