// The timestamp oracle (src/oracle.rs): an object updated in place by every begin,
// commit and end of a transaction.

module OracleImpl {
  import opened Remainders
  import opened Watermark

  const U64_MAX: nat := 0xffff_ffff_ffff_ffff
  const TWO_64: nat := U64_MAX + 1

  class Oracle {
    var nextTs: nat
    var readTs: nat
    var doneUpto: nat
    var ahead: set<nat>
    var readers: map<nat, nat>

    // The watermark at creation, the counter as it would be without the wrap of its 64
    // bits, the timestamps reported since creation, and the registered readers with their
    // multiplicity.
    ghost var start: nat
    ghost var issued: nat
    ghost var reported: set<nat>
    ghost var live: multiset<nat>

    ghost predicate Valid()
      reads this
    {
      && readTs == doneUpto
      && start < issued && nextTs == issued % TWO_64
      && Exact(Pending(doneUpto, ahead), start, reported)
      && (forall ts :: ts in reported ==> ts < issued)
      && (forall r: nat :: r in readers <==> r in live)
      && (forall r :: r in readers ==> readers[r] == live[r])
    }

    constructor ()
      ensures Valid() && start == 0 && issued == 1 && reported == {} && live == multiset{}
      ensures nextTs == 1 && doneUpto == 0 && ahead == {}
    {
      nextTs, readTs, doneUpto, ahead, readers := 1, 0, 0, {}, map[];
      start, issued, reported, live := 0, 1, {}, multiset{};
    }

    // An oracle for a database in which everything up to `highest`, a 64-bit number, is
    // applied. The successor of the largest one wraps to zero.
    constructor Recovered(highest: nat)
      requires highest <= U64_MAX
      ensures Valid() && start == highest && issued == highest + 1 && reported == {} && live == multiset{}
      ensures nextTs == (if highest == U64_MAX then 0 else highest + 1) && doneUpto == highest && ahead == {}
    {
      nextTs, readTs, doneUpto, ahead, readers := (highest + 1) % TWO_64, highest, highest, {}, map[];
      start, issued, reported, live := highest, highest + 1, {}, multiset{};
    }

    method ReadTs() returns (ts: nat)
      requires Valid()
      ensures ts == doneUpto
    {
      ts := readTs;
    }

    // The timestamp handed out is the next one, never handed out before, exactly until the
    // 64-bit counter has wrapped.
    method AllocCommitTs() returns (ts: nat)
      requires Valid()
      modifies this`nextTs, this`issued
      ensures Valid() && issued == old(issued) + 1 && ts == old(nextTs)
      ensures ts == old(issued) <==> old(issued) <= U64_MAX
      ensures old(issued) <= U64_MAX ==> doneUpto < ts && ts !in reported && ts !in ahead
      ensures nextTs == if ts == U64_MAX then 0 else ts + 1
    {
      Wrap(issued, TWO_64);
      ts := nextTs;
      nextTs := if nextTs == U64_MAX then 0 else nextTs + 1;
      issued := issued + 1;
      assert doneUpto > start ==> doneUpto in reported;
    }

    method BeginReader() returns (ts: nat)
      requires Valid()
      modifies this`readers, this`live
      ensures Valid() && ts == doneUpto && live == old(live) + multiset{ts}
    {
      ts := readTs;
      readers := readers[ts := (if ts in readers then readers[ts] else 0) + 1];
      live := live + multiset{ts};
    }

    // Dropping a reader that is not registered does nothing.
    method EndReader(ts: nat)
      requires Valid()
      modifies this`readers, this`live
      ensures Valid() && live == old(live) - multiset{ts}
    {
      var nowZero := false;
      if ts in readers {
        readers := readers[ts := readers[ts] - 1];
        nowZero := readers[ts] == 0;
      }
      if nowZero {
        readers := readers - {ts};
      }
      live := live - multiset{ts};
    }

    method OldestReader() returns (low: nat)
      requires Valid()
      ensures low == LowWatermark(live, doneUpto)
    {
      if readers == map[] {
        assert forall r: nat :: r !in live;
        assert live == multiset{};
        low := readTs;
      } else {
        assert exists r :: r in readers.Keys && forall x :: x in readers.Keys ==> r <= x by {
          assert readers.Keys != {};
          var y :| y in readers.Keys;
          assert y in live;
          OldestExists(live);
          var r :| IsOldest(live, r);
          assert r in readers.Keys;
        }
        low :| low in readers.Keys && forall x :: x in readers.Keys ==> low <= x;
        assert IsOldest(live, low);
      }
    }

    // The holder of `ts`, committed or rejected, has finished; reported once.
    method CommitDone(ts: nat)
      requires Valid() && start < ts < issued && ts !in reported
      modifies this`doneUpto, this`ahead, this`readTs, this`reported
      ensures Valid() && reported == old(reported) + {ts}
      ensures Pending(doneUpto, ahead) == Report(old(Pending(doneUpto, ahead)), ts)
      ensures old(readTs) <= readTs
    {
      ReportExact(Pending(doneUpto, ahead), start, reported, ts);
      ghost var target := Report(Pending(doneUpto, ahead), ts);
      if ts == doneUpto + 1 {
        doneUpto := ts;
        CatchUpInPlace(target);
        readTs := doneUpto;
      } else {
        ahead := ahead + {ts};
      }
      reported := reported + {ts};
      assert Pending(doneUpto, ahead) == target;
    }

    // The contiguous run of timestamps that completed out of order.
    method CatchUpInPlace(ghost target: Pending)
      requires target == CatchUp(Pending(doneUpto, ahead))
      modifies this`doneUpto, this`ahead
      ensures Pending(doneUpto, ahead) == target
    {
      var next := doneUpto + 1;
      while next in ahead
        invariant next == doneUpto + 1
        invariant CatchUp(Pending(doneUpto, ahead)) == target
        decreases |ahead|
      {
        ahead := ahead - {next};
        doneUpto := next;
        next := next + 1;
      }
    }
  }
}
