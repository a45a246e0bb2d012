// The oracle's bookkeeping as functions on values: the read watermark, the
// timestamps completed beyond it, and the low watermark of the live readers
// (src/oracle.rs).

module Watermark {

  // Largest fully completed timestamp, and the completed ones not contiguous with it.
  datatype Pending = Pending(doneUpto: nat, ahead: set<nat>)

  // Advance across the contiguous run of timestamps that completed out of order.
  function CatchUp(p: Pending): Pending
    decreases |p.ahead|
  {
    var next := p.doneUpto + 1;
    if next in p.ahead then CatchUp(Pending(next, p.ahead - {next})) else p
  }

  // Record that the holder of `ts` has finished.
  function Report(p: Pending, ts: nat): Pending {
    if ts == p.doneUpto + 1 then CatchUp(Pending(ts, p.ahead)) else Pending(p.doneUpto, p.ahead + {ts})
  }

  // `p` is the exact summary of the timestamps in `reported`, counting from `start`.
  ghost predicate Exact(p: Pending, start: nat, reported: set<nat>) {
    && start <= p.doneUpto
    && (forall ts :: start < ts <= p.doneUpto ==> ts in reported)
    && p.doneUpto + 1 !in reported
    && (forall ts :: ts in reported ==> start < ts)
    && (forall ts :: ts in p.ahead <==> ts in reported && p.doneUpto < ts)
  }

  lemma {:induction false} CatchUpExact(p: Pending, start: nat, reported: set<nat>)
    requires start <= p.doneUpto
    requires forall ts :: start < ts <= p.doneUpto ==> ts in reported
    requires forall ts :: ts in reported ==> start < ts
    requires forall ts :: ts in p.ahead <==> ts in reported && p.doneUpto < ts
    ensures Exact(CatchUp(p), start, reported)
    ensures p.doneUpto <= CatchUp(p).doneUpto
    decreases |p.ahead|
  {
    var next := p.doneUpto + 1;
    if next in p.ahead {
      CatchUpExact(Pending(next, p.ahead - {next}), start, reported);
    }
  }

  // The watermark stays exact and never moves back, whatever order timestamps are
  // reported in.
  lemma ReportExact(p: Pending, start: nat, reported: set<nat>, ts: nat)
    requires Exact(p, start, reported) && start < ts && ts !in reported
    ensures Exact(Report(p, ts), start, reported + {ts})
    ensures p.doneUpto <= Report(p, ts).doneUpto
  {
    if ts == p.doneUpto + 1 {
      CatchUpExact(Pending(ts, p.ahead), start, reported + {ts});
    }
  }

  // There is only one exact summary.
  lemma ExactIsUnique(p: Pending, q: Pending, start: nat, reported: set<nat>)
    requires Exact(p, start, reported) && Exact(q, start, reported)
    ensures p == q
  {
    assert p.doneUpto <= q.doneUpto || q.doneUpto + 1 in reported;
    assert q.doneUpto <= p.doneUpto || p.doneUpto + 1 in reported;
    assert forall ts :: ts in p.ahead <==> ts in q.ahead;
  }

  function ReportAll(p: Pending, order: seq<nat>): Pending {
    if order == [] then p else Report(ReportAll(p, order[..|order| - 1]), order[|order| - 1])
  }

  ghost predicate Distinct(s: seq<nat>) {
    forall i, j :: 0 <= i < j < |s| ==> s[i] != s[j]
  }

  ghost function Members(s: seq<nat>): set<nat> {
    set i | 0 <= i < |s| :: s[i]
  }

  lemma {:induction false} ReportAllExact(start: nat, order: seq<nat>)
    requires Distinct(order) && forall i :: 0 <= i < |order| ==> start < order[i]
    ensures Exact(ReportAll(Pending(start, {}), order), start, Members(order))
  {
    if order != [] {
      var n := |order| - 1;
      var init := order[..n];
      ReportAllExact(start, init);
      assert forall i :: 0 <= i < n ==> init[i] == order[i];
      assert order[n] !in Members(init);
      ReportExact(ReportAll(Pending(start, {}), init), start, Members(init), order[n]);
      assert forall ts :: ts in Members(order) <==> ts in Members(init) + {order[n]};
      assert Members(order) == Members(init) + {order[n]};
    }
  }

  // Reporting start+1 .. start+n once each, in any order, leaves nothing pending and
  // the watermark at start+n.
  lemma AnyOrderCompletes(start: nat, n: nat, order: seq<nat>)
    requires Distinct(order)
    requires forall ts :: ts in Members(order) <==> start < ts <= start + n
    ensures ReportAll(Pending(start, {}), order) == Pending(start + n, {})
  {
    assert forall i :: 0 <= i < |order| ==> order[i] in Members(order);
    ReportAllExact(start, order);
    ExactIsUnique(ReportAll(Pending(start, {}), order), Pending(start + n, {}), start, Members(order));
  }

  // ----- the readers -----

  ghost predicate IsOldest(readers: multiset<nat>, r: nat) {
    r in readers && forall x :: x in readers ==> r <= x
  }

  lemma {:induction false} OldestExists(readers: multiset<nat>)
    requires readers != multiset{}
    ensures exists r :: IsOldest(readers, r)
    decreases |readers|
  {
    var x :| x in readers;
    var rest := readers - multiset{x};
    if rest == multiset{} {
      assert readers == multiset{x};
      assert IsOldest(readers, x);
    } else {
      OldestExists(rest);
      var r :| IsOldest(rest, r);
      var m := if x < r then x else r;
      forall y | y in readers ensures m <= y {
        assert y == x || y in rest;
      }
      assert IsOldest(readers, m);
    }
  }

  // The oldest live reader, or the watermark when there is none.
  ghost function LowWatermark(readers: multiset<nat>, watermark: nat): (low: nat)
    ensures readers == multiset{} ==> low == watermark
    ensures readers != multiset{} ==> IsOldest(readers, low)
  {
    if readers == multiset{} then watermark
    else
      OldestExists(readers);
      var r :| IsOldest(readers, r);
      r
  }
}
