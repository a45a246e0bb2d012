// The batch of writes handed to the store: a sequence of entries that comes from a
// hash map, applied entry by entry (src/txn.rs, src/store.rs).

module Batch {
  import opened Types
  import opened VersionChain
  import opened StoreSpec

  ghost predicate DistinctKeys(batch: seq<WriteEntry>) {
    forall i, j :: 0 <= i < j < |batch| ==> batch[i].key != batch[j].key
  }

  // The write set the first `n` entries stand for.
  ghost function WritesUpTo(batch: seq<WriteEntry>, n: nat): WriteSet
    requires n <= |batch|
  {
    if n == 0 then map[] else WritesUpTo(batch, n - 1)[batch[n - 1].key := batch[n - 1].value]
  }

  ghost function WritesOf(batch: seq<WriteEntry>): WriteSet {
    WritesUpTo(batch, |batch|)
  }

  lemma {:induction false} WritesUpToKeys(batch: seq<WriteEntry>, n: nat)
    requires n <= |batch|
    ensures forall k :: k in WritesUpTo(batch, n) <==> exists i :: 0 <= i < n && batch[i].key == k
  {
    if n > 0 {
      WritesUpToKeys(batch, n - 1);
    }
  }

  lemma {:induction false} WritesUpToValue(batch: seq<WriteEntry>, n: nat, i: nat)
    requires DistinctKeys(batch) && i < n <= |batch|
    ensures batch[i].key in WritesUpTo(batch, n) && WritesUpTo(batch, n)[batch[i].key] == batch[i].value
  {
    if i < n - 1 {
      WritesUpToValue(batch, n - 1, i);
    }
  }

  // The first `n` entries pushed one after the other.
  function PushUpTo(m: Chains, ts: nat, batch: seq<WriteEntry>, n: nat): Chains
    requires n <= |batch|
  {
    if n == 0 then m
    else Push(PushUpTo(m, ts, batch, n - 1), batch[n - 1].key, Version(ts, batch[n - 1].value))
  }

  function PushAll(m: Chains, ts: nat, batch: seq<WriteEntry>): Chains {
    PushUpTo(m, ts, batch, |batch|)
  }

  lemma {:induction false} PushUpToIsApply(m: Chains, ts: nat, batch: seq<WriteEntry>, n: nat)
    requires DistinctKeys(batch) && n <= |batch|
    ensures PushUpTo(m, ts, batch, n) == ApplyWrites(m, ts, WritesUpTo(batch, n))
  {
    if n == 0 {
      assert ApplyWrites(m, ts, map[]) == m;
    } else {
      PushUpToIsApply(m, ts, batch, n - 1);
      WritesUpToKeys(batch, n - 1);
      PushOntoApplied(m, ts, WritesUpTo(batch, n - 1), batch[n - 1].key, batch[n - 1].value);
    }
  }

  lemma PushOntoApplied(m: Chains, ts: nat, w: WriteSet, k: Key, value: Value)
    requires k !in w
    ensures Push(ApplyWrites(m, ts, w), k, Version(ts, value)) == ApplyWrites(m, ts, w[k := value])
  {
    var a, b := Push(ApplyWrites(m, ts, w), k, Version(ts, value)), ApplyWrites(m, ts, w[k := value]);
    assert a.Keys == b.Keys;
    forall x | x in a ensures a[x] == b[x] {
      ChainOfApplied(m, ts, w, x);
      ChainOfApplied(m, ts, w[k := value], x);
    }
  }

  // Pushing a batch entry by entry installs its write set at once, because its keys are
  // distinct.
  lemma PushAllIsApply(m: Chains, ts: nat, batch: seq<WriteEntry>)
    requires DistinctKeys(batch)
    ensures PushAll(m, ts, batch) == ApplyWrites(m, ts, WritesOf(batch))
  {
    PushUpToIsApply(m, ts, batch, |batch|);
  }

  // With a repeated key it does not: the key gains two versions with one timestamp.
  lemma RepeatedKeyPushesTwice()
    ensures var batch := [WriteEntry([], None), WriteEntry([], None)];
            !Ascending(ChainOf(PushAll(map[], 1, batch), []))
  {
    var batch := [WriteEntry([], None), WriteEntry([], None)];
    var v := Version(1, None);
    assert PushUpTo(map[], 1, batch, 0) == map[];
    assert [] + [v] == [v];
    assert PushUpTo(map[], 1, batch, 1) == map[[] := [v]];
    var c := ChainOf(PushUpTo(map[], 1, batch, 2), []);
    assert c == [v, v];
    assert c[0].commitTs == c[1].commitTs;
  }
}
