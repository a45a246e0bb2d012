// The shards a commit locks (src/store.rs): listed, sorted, without duplicates, and
// searched for the lock that guards a key.

module ShardLists {
  import opened Types
  import opened FineStore

  function InsertDistinct(s: seq<nat>, x: nat): seq<nat> {
    if s == [] || s[|s| - 1] < x then s + [x]
    else if s[|s| - 1] == x then s
    else InsertDistinct(s[..|s| - 1], x) + [s[|s| - 1]]
  }

  lemma {:induction false} InsertDistinctHolds(s: seq<nat>, x: nat)
    ensures forall y :: y in InsertDistinct(s, x) <==> y in s || y == x
  {
    if s == [] || s[|s| - 1] <= x {
    } else {
      var init, last := s[..|s| - 1], s[|s| - 1];
      assert s == init + [last];
      InsertDistinctHolds(init, x);
    }
  }

  lemma {:induction false} InsertDistinctAscends(s: seq<nat>, x: nat)
    requires StrictlyAscending(s)
    ensures StrictlyAscending(InsertDistinct(s, x))
  {
    if s == [] || s[|s| - 1] <= x {
    } else {
      var init, last := s[..|s| - 1], s[|s| - 1];
      InsertDistinctAscends(init, x);
      InsertDistinctHolds(init, x);
      var r := InsertDistinct(init, x);
      forall i | 0 <= i < |r| ensures r[i] < last {
        assert r[i] in r;
      }
    }
  }

  // Sorted and without duplicates.
  function SortDedup(s: seq<nat>): seq<nat> {
    if s == [] then [] else InsertDistinct(SortDedup(s[..|s| - 1]), s[|s| - 1])
  }

  lemma {:induction false} SortDedupSorts(s: seq<nat>)
    ensures StrictlyAscending(SortDedup(s)) && forall y :: y in SortDedup(s) <==> y in s
  {
    if s != [] {
      var init, last := s[..|s| - 1], s[|s| - 1];
      assert s == init + [last];
      SortDedupSorts(init);
      InsertDistinctAscends(SortDedup(init), last);
      InsertDistinctHolds(SortDedup(init), last);
    }
  }

  // Finds the position of `x` in a sorted list, if it is there.
  method BinarySearch(s: seq<nat>, x: nat) returns (found: Option<nat>)
    requires StrictlyAscending(s)
    ensures found.Some? ==> found.value < |s| && s[found.value] == x
    ensures found.None? ==> x !in s
  {
    var lo, hi := 0, |s|;
    while lo < hi
      invariant 0 <= lo <= hi <= |s|
      invariant forall i :: 0 <= i < lo ==> s[i] < x
      invariant forall i :: hi <= i < |s| ==> x < s[i]
    {
      var mid := (lo + hi) / 2;
      if s[mid] == x {
        return Some(mid);
      } else if s[mid] < x {
        lo := mid + 1;
      } else {
        hi := mid;
      }
    }
    return None;
  }

  // The shards a commit locks, each once, in ascending order.
  function LockList(shardOf: Key -> nat, batch: seq<WriteEntry>, readSet: seq<Key>): (toLock: seq<nat>)
    ensures StrictlyAscending(toLock)
    ensures forall i :: 0 <= i < KeyCount(batch, readSet) ==> shardOf(KeyAt(batch, readSet, i)) in toLock
    ensures forall x :: x in toLock ==> exists i :: 0 <= i < KeyCount(batch, readSet)
                                                    && shardOf(KeyAt(batch, readSet, i)) == x
  {
    var touched := seq(KeyCount(batch, readSet), i requires 0 <= i < KeyCount(batch, readSet) =>
                         shardOf(KeyAt(batch, readSet, i)));
    assert forall i :: 0 <= i < KeyCount(batch, readSet) ==> touched[i] == shardOf(KeyAt(batch, readSet, i));
    SortDedupSorts(touched);
    SortDedup(touched)
  }
}
