// The commit log's code (src/durable.rs): the encoder that fills a buffer, the cursor
// that advances over a record, the decoder that loops over its writes, and the log the
// records are appended to.

module CommitLogImpl {
  import opened Types
  import opened Framing
  import opened Codec
  import opened RecordLayout

  // ----- encoding -----

  method EncodeWrite(buf: Bytes, w: WriteEntry) returns (longer: Bytes)
    ensures longer == buf + EncodeEntry(w) && |longer| == |buf| + EntrySize(w)
  {
    longer := buf + EncodeU32(|w.key|);
    longer := longer + w.key;
    match w.value {
      case Some(v) =>
        longer := longer + [1];
        longer := longer + EncodeU32(|v|);
        longer := longer + v;
        assert longer == buf + ((EncodeU32(|w.key|) + w.key) + ([1] + (EncodeU32(|v|) + v)));
      case None =>
        longer := longer + [0];
        assert longer == buf + ((EncodeU32(|w.key|) + w.key) + [0]);
    }
  }

  method EncodeNext(buf: Bytes, header: Bytes, batch: seq<WriteEntry>, i: nat) returns (longer: Bytes)
    requires i < |batch| && buf == header + EncodeMany(EncodeEntry, batch, i)
    ensures longer == header + EncodeMany(EncodeEntry, batch, i + 1)
  {
    ManyNext(EncodeEntry, header, batch, i);
    longer := EncodeWrite(buf, batch[i]);
  }

  // Encodes one transaction, in the frozen layout. The capacity computed first is exactly
  // what gets filled.
  method EncodeForLog(commitTs: nat, batch: seq<WriteEntry>) returns (buf: Bytes, reserved: nat)
    ensures buf == Encode(RecoveredCommit(commitTs, batch))
    ensures LaidOut(buf, commitTs, batch)
    ensures reserved == |buf|
  {
    reserved := 1 + 8 + 4;
    var i := 0;
    while i < |batch|
      invariant i <= |batch|
      invariant reserved == 13 + TotalSize(EntrySize, batch, i)
    {
      reserved := reserved + EntrySize(batch[i]);
      i := i + 1;
    }
    buf := [RECORD_VERSION];
    buf := buf + EncodeU64(commitTs);
    buf := buf + EncodeU32(|batch|);
    var header := EncodeHeader(commitTs, |batch|);
    assert buf == header;
    i := 0;
    while i < |batch|
      invariant i <= |batch|
      invariant buf == header + EncodeMany(EncodeEntry, batch, i)
    {
      buf := EncodeNext(buf, header, batch, i);
      i := i + 1;
    }
    forall w: WriteEntry ensures |EncodeEntry(w)| == EntrySize(w) {
    }
    ManySize(EncodeEntry, EntrySize, batch, |batch|);
    LayoutIsEncoding(buf, RecoveredCommit(commitTs, batch));
  }

  // ----- decoding -----

  // Four bytes put together, the least significant one first.
  function Word(b: Bytes): (n: nat)
    requires |b| == 4
  {
    Sum4(b[0], b[1], b[2], b[3])
  }

  function Sum4(b0: int, b1: int, b2: int, b3: int): int {
    b0 + 0x100 * b1 + 0x1_0000 * b2 + 0x100_0000 * b3
  }

  function LongWord(b: Bytes): (n: nat)
    requires |b| == 8
  {
    Word(b[..4]) + 0x1_0000_0000 * Word(b[4..])
  }

  lemma FourBytes(b: Bytes, pos: nat)
    requires pos + 4 <= |b|
    ensures FromLittleEndian(b, pos, 4) == Word(b[pos..pos + 4])
  {
    assert FromLittleEndian(b, pos + 2, 2) == b[pos + 2] + 256 * FromLittleEndian(b, pos + 3, 1);
    assert FromLittleEndian(b, pos + 3, 1) == b[pos + 3];
  }

  lemma EightBytesSplit(b: Bytes, pos: nat)
    requires pos + 8 <= |b|
    ensures FromLittleEndian(b, pos, 8) == FromLittleEndian(b, pos, 4) + 0x1_0000_0000 * FromLittleEndian(b, pos + 4, 4)
  {
    assert FromLittleEndian(b, pos, 4) == b[pos] + 256 * FromLittleEndian(b, pos + 1, 3);
    assert FromLittleEndian(b, pos + 2, 2) == b[pos + 2] + 256 * FromLittleEndian(b, pos + 3, 1);
    assert FromLittleEndian(b, pos + 2, 6) == b[pos + 2] + 256 * FromLittleEndian(b, pos + 3, 5);
  }

  lemma EightBytes(b: Bytes, pos: nat)
    requires pos + 8 <= |b|
    ensures FromLittleEndian(b, pos, 8) == LongWord(b[pos..pos + 8])
  {
    EightBytesSplit(b, pos);
    FourBytes(b, pos);
    FourBytes(b, pos + 4);
    assert b[pos..pos + 8][..4] == b[pos..pos + 4];
    assert b[pos..pos + 8][4..] == b[pos + 4..pos + 8];
  }

  // A bounds-checked little-endian cursor over a record.
  class Reader {
    const buf: Bytes
    var pos: nat

    ghost predicate Valid()
      reads this
    {
      pos <= |buf|
    }

    constructor (buf: Bytes)
      ensures Valid() && this.buf == buf && pos == 0
    {
      this.buf, pos := buf, 0;
    }

    function Remaining(): (n: nat)
      requires Valid()
      reads this
      ensures pos + n == |buf|
    {
      |buf| - pos
    }

    // The cursor has moved from `before` past what `parsed` says stands there; if
    // nothing does, it has not moved.
    ghost predicate Took<T>(r: Option<T>, parsed: Parsed<T>, before: nat)
      reads this
    {
      match parsed
      case Bad => r.None? && pos == before
      case Good(x, next) => r == Some(x) && pos == next
    }

    method ReadBytes(len: nat) returns (r: Option<Bytes>)
      requires Valid()
      modifies this
      ensures Valid() && Took(r, Framing.ReadBytes(buf, old(pos), len), old(pos))
    {
      var end := pos + len;
      if end > |buf| {
        return None;
      }
      r := Some(buf[pos..end]);
      pos := end;
    }

    method ReadU8() returns (r: Option<Byte>)
      requires Valid()
      modifies this
      ensures Valid()
      ensures if old(pos) < |buf| then r == Some(buf[old(pos)]) && pos == old(pos) + 1 else r.None? && pos == old(pos)
    {
      var bytes := ReadBytes(1);
      match bytes {
        case None => return None;
        case Some(b) => return Some(b[0]);
      }
    }

    method ReadU32() returns (r: Option<nat>)
      requires Valid()
      modifies this
      ensures Valid() && Took(r, Codec.ReadU32(buf, old(pos)), old(pos))
    {
      var bytes := ReadBytes(4);
      match bytes {
        case None => return None;
        case Some(b) =>
          FourBytes(buf, old(pos));
          return Some(Word(b));
      }
    }

    method ReadU64() returns (r: Option<nat>)
      requires Valid()
      modifies this
      ensures Valid() && Took(r, Codec.ReadU64(buf, old(pos)), old(pos))
    {
      var bytes := ReadBytes(8);
      match bytes {
        case None => return None;
        case Some(b) =>
          EightBytes(buf, old(pos));
          return Some(LongWord(b));
      }
    }
  }

  // A field with its length in front; the cursor is left anywhere in bounds on failure.
  method ReadSizedField(reader: Reader) returns (r: Option<Bytes>)
    requires reader.Valid()
    modifies reader
    ensures reader.Valid()
    ensures match ReadSized(reader.buf, old(reader.pos))
            case Bad => r.None?
            case Good(bytes, next) => r == Some(bytes) && reader.pos == next
  {
    var len := reader.ReadU32();
    match len {
      case None => return None;
      case Some(n) => r := reader.ReadBytes(n);
    }
  }

  // One write: its key, its tag, and the value if the tag announces one.
  method DecodeWrite(reader: Reader) returns (r: Option<WriteEntry>)
    requires reader.Valid()
    modifies reader
    ensures reader.Valid()
    ensures match ReadEntry(reader.buf, old(reader.pos))
            case Bad => r.None?
            case Good(w, next) => r == Some(w) && reader.pos == next
    ensures match r
            case Some(w) => EntryAt(reader.buf, old(reader.pos), w) && LengthsFit(w)
                            && reader.pos == old(reader.pos) + EntrySize(w)
            case None => forall w :: LengthsFit(w) ==> !EntryAt(reader.buf, old(reader.pos), w)
    ensures forall key :: BadTagAt(reader.buf, old(reader.pos), key) ==> r.None?
  {
    ReadsEntry(reader.buf, reader.pos);
    forall key | BadTagAt(reader.buf, reader.pos, key) ensures ReadEntry(reader.buf, reader.pos).Bad? {
      BadTagUnread(reader.buf, reader.pos, key);
    }
    var key := ReadSizedField(reader);
    if key.None? {
      return None;
    }
    var tag := reader.ReadU8();
    if tag == Some(0) {
      return Some(WriteEntry(key.value, None));
    } else if tag == Some(1) {
      var value := ReadSizedField(reader);
      if value.None? {
        return None;
      }
      return Some(WriteEntry(key.value, Some(value.value)));
    } else {
      return None;
    }
  }

  // Once reading a run fails, reading more of it fails as well.
  lemma {:induction false} StaysBad<T>(read: (Bytes, nat) -> Parsed<T>, b: Bytes, pos: nat, n: nat, count: nat)
    requires ReadMany(read, b, pos, n).Bad? && n <= count
    ensures ReadMany(read, b, pos, count).Bad?
  {
    if n < count {
      StaysBad(read, b, pos, n, count - 1);
    }
  }

  // The first `i` writes from `start` on have been read.
  ghost predicate HasRead(reader: Reader, start: nat, i: nat, items: seq<WriteEntry>)
    reads reader
  {
    reader.Valid() && ReadMany(ReadEntry, reader.buf, start, i) == Good(items, reader.pos)
  }

  method DecodeNext(reader: Reader, ghost start: nat, ghost i: nat, items: seq<WriteEntry>)
    returns (longer: Option<seq<WriteEntry>>)
    requires HasRead(reader, start, i, items)
    modifies reader
    ensures reader.Valid()
    ensures match longer
            case None => ReadMany(ReadEntry, reader.buf, start, i + 1).Bad?
            case Some(read) => HasRead(reader, start, i + 1, read)
  {
    ManyReadNext(ReadEntry, reader.buf, start, i);
    var w := DecodeWrite(reader);
    longer := if w.None? then None else Some(items + [w.value]);
  }

  // The loop over the writes; `None` if one of them is malformed.
  method DecodeWrites(reader: Reader, count: nat) returns (writes: Option<seq<WriteEntry>>)
    requires reader.Valid()
    modifies reader
    ensures reader.Valid()
    ensures match writes
            case None => ReadMany(ReadEntry, reader.buf, old(reader.pos), count).Bad?
            case Some(items) => HasRead(reader, old(reader.pos), count, items)
  {
    ghost var start := reader.pos;
    var items := [];
    var i := 0;
    while i < count
      invariant i <= count && HasRead(reader, start, i, items)
    {
      var longer := DecodeNext(reader, start, i, items);
      if longer.None? {
        StaysBad(ReadEntry, reader.buf, start, i + 1, count);
        return None;
      }
      items := longer.value;
      i := i + 1;
    }
    return Some(items);
  }

  // Decodes any bytes at all. What is set aside for the writes, `reserved` of them, is
  // bounded by the bytes that are left after the header.
  method DecodeCommit(bytes: Bytes) returns (r: Option<RecoveredCommit>, reserved: nat)
    ensures r == Decode(bytes)
    ensures match r
            case Some(c) => LaidOut(bytes, c.commitTs, c.batch) && FieldsFit(c.commitTs, c.batch)
            case None => forall ts, batch :: FieldsFit(ts, batch) ==> !LaidOut(bytes, ts, batch)
    ensures bytes == [] || bytes[0] != 1 ==> r.None?
    ensures reserved > 0 ==> 13 + reserved * 5 <= |bytes|
    ensures r.Some? ==> reserved == |r.value.batch|
  {
    DecodesOnlyLayout(bytes);
    r, reserved := None, 0;
    var reader := new Reader(bytes);
    var version := reader.ReadU8();
    if version != Some(RECORD_VERSION) {
      return;
    }
    var commitTs := reader.ReadU64();
    if commitTs.None? {
      return;
    }
    var count := reader.ReadU32();
    if count.None? {
      return;
    }
    ghost var body := reader.pos;
    assert ReadPair(Codec.ReadU64, Codec.ReadU32, bytes, 1) == Good((commitTs.value, count.value), body);
    if count.value > reader.Remaining() / MIN_WRITE_BYTES {
      if ReadMany(ReadEntry, bytes, body, count.value).Good? {
        CountGuardIsHarmless(bytes, body, count.value);
        assert false;
      }
      return;
    }
    reserved := count.value;
    var writes := DecodeWrites(reader, count.value);
    if writes.Some? && reader.Remaining() == 0 {
      r := Some(RecoveredCommit(commitTs.value, writes.value));
    }
  }

  // ----- the log -----

  function DecodeLog(log: seq<Bytes>): Option<seq<RecoveredCommit>> {
    DecodeEach(Decode, log, |log|)
  }

  // A log decodes to exactly the transactions whose encodings it consists of, in order.
  lemma DecodeLogIsExact(log: seq<Bytes>, commits: seq<RecoveredCommit>)
    ensures DecodeLog(log) == Some(commits)
       <==> |log| == |commits| && forall i :: 0 <= i < |log| ==> InRange(commits[i]) && log[i] == Encode(commits[i])
  {
    forall b: Bytes, c: RecoveredCommit ensures Decode(b) == Some(c) <==> InRange(c) && b == Encode(c) {
      DecodeIsExact(b, c);
    }
    if |log| == |commits| {
      EachIsExact(Encode, InRange, Decode, log, commits, |log|);
      assert commits[..|log|] == commits;
    }
  }

  method DecodeNextRecord(log: seq<Bytes>, i: nat, decoded: seq<RecoveredCommit>)
    returns (longer: Option<seq<RecoveredCommit>>)
    requires i < |log| && DecodeEach(Decode, log, i) == Some(decoded)
    ensures longer == DecodeEach(Decode, log, i + 1)
  {
    EachNext(Decode, log, i);
    var c, _ := DecodeCommit(log[i]);
    longer := if c.None? then None else Some(decoded + [c.value]);
  }

  // How an append ends: durable, failed with no record left behind, or failed with a
  // record that a reopen may find.
  datatype AppendResult = Durable | NotWritten | NotSynced

  class CommitLog {
    // What a reopen would find.
    var records: seq<Bytes>

    constructor (found: seq<Bytes>)
      ensures records == found
    {
      records := found;
    }

    // Decodes every record already there; one that does not decode fails the open.
    method Recovered() returns (commits: Option<seq<RecoveredCommit>>)
      ensures commits == DecodeLog(records)
    {
      var decoded := [];
      var i := 0;
      while i < |records|
        invariant i <= |records|
        invariant DecodeEach(Decode, records, i) == Some(decoded)
      {
        var longer := DecodeNextRecord(records, i, decoded);
        if longer.None? {
          UndecodableStays(Decode, records, i + 1, |records|);
          return None;
        }
        decoded := longer.value;
        i := i + 1;
      }
      return Some(decoded);
    }

    // The write-ahead log decides how the append ends.
    method AppendCommitted(record: Bytes, io: AppendResult) returns (ok: bool)
      modifies this
      ensures ok == io.Durable?
      ensures records == if io.NotWritten? then old(records) else old(records) + [record]
    {
      if !io.NotWritten? {
        records := records + [record];
      }
      ok := io.Durable?;
    }
  }
}
