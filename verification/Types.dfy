// Data shared by every part of the model: keys, values and versions.

module Types {

  datatype Option<+T> = None | Some(value: T)

  type Byte = x: int | 0 <= x < 256

  type Bytes = seq<Byte>

  type Key = Bytes

  // `Some` is a stored value, `None` a tombstone in a write and "absent" in a read.
  type Value = Option<Bytes>

  // One stored version of a key.
  datatype Version = Version(commitTs: nat, value: Value)

  // The versions of one key, in the order they were pushed.
  type Chain = seq<Version>

  type Chains = map<Key, Chain>

  // A write set: a hash map, hence at most one write per key.
  type WriteSet = map<Key, Value>

  // One entry of the batch handed to the store and to the log.
  datatype WriteEntry = WriteEntry(key: Key, value: Value)

  function Lookup(m: WriteSet, k: Key): Value {
    if k in m then m[k] else None
  }

  function Max(a: nat, b: nat): nat {
    if a < b then b else a
  }
}
