// The bytes of a commit record, one by one (docs/COMMIT_LOG_FORMAT.md): the frozen layout
// with its version, its byte order and its tags, and that it is what the codec writes and
// reads.

module RecordLayout {
  import opened Types
  import opened Framing
  import opened Codec

  // ----- the layout -----

  // The low four bytes of `n`, the least significant one first.
  ghost predicate U32At(b: Bytes, pos: nat, n: nat) {
    && pos + 4 <= |b|
    && b[pos] == n % 0x100
    && b[pos + 1] == n / 0x100 % 0x100
    && b[pos + 2] == n / 0x1_0000 % 0x100
    && b[pos + 3] == n / 0x100_0000 % 0x100
  }

  // The low eight, in the same order.
  ghost predicate U64At(b: Bytes, pos: nat, n: nat) {
    U32At(b, pos, n) && U32At(b, pos + 4, n / 0x1_0000_0000)
  }

  ghost predicate BytesAt(b: Bytes, pos: nat, part: Bytes) {
    pos + |part| <= |b| && b[pos..pos + |part|] == part
  }

  // A tag: 0 alone for a tombstone, 1 before the length and the bytes of a value.
  ghost predicate ValueAt(b: Bytes, pos: nat, v: Value) {
    && pos < |b|
    && match v
       case None => b[pos] == 0
       case Some(bytes) => b[pos] == 1 && U32At(b, pos + 1, |bytes|) && BytesAt(b, pos + 5, bytes)
  }

  ghost predicate EntryAt(b: Bytes, pos: nat, w: WriteEntry) {
    U32At(b, pos, |w.key|) && BytesAt(b, pos + 4, w.key) && ValueAt(b, pos + 4 + |w.key|, w.value)
  }

  // The bytes one write takes.
  function EntrySize(w: WriteEntry): nat {
    4 + |w.key| + 1 + if w.value.Some? then 4 + |w.value.value| else 0
  }

  // Where entry `i` starts: after 13 bytes of header and the entries before it.
  function EntryStart(batch: seq<WriteEntry>, i: nat): nat
    requires i <= |batch|
  {
    13 + TotalSize(EntrySize, batch, i)
  }

  // Entry `i` of the batch stands in its place.
  ghost predicate InPlace(b: Bytes, batch: seq<WriteEntry>, i: nat)
    requires i < |batch|
  {
    EntryAt(b, EntryStart(batch, i), batch[i])
  }

  // The record of `batch` at `ts`: version 1, the timestamp, the count, the entries.
  ghost predicate LaidOut(b: Bytes, ts: nat, batch: seq<WriteEntry>) {
    && |b| == EntryStart(batch, |batch|)
    && b[0] == 1 && U64At(b, 1, ts) && U32At(b, 9, |batch|)
    && forall i :: 0 <= i < |batch| ==> InPlace(b, batch, i)
  }

  ghost predicate LengthsFit(w: WriteEntry) {
    |w.key| < 0x1_0000_0000 && (w.value.Some? ==> |w.value.value| < 0x1_0000_0000)
  }

  // Every number and length is one its field holds.
  ghost predicate FieldsFit(ts: nat, batch: seq<WriteEntry>) {
    && ts < 0x1_0000_0000_0000_0000 && |batch| < 0x1_0000_0000
    && forall i :: 0 <= i < |batch| ==> LengthsFit(batch[i])
  }

  // ----- field by field -----

  function LowFour(n: nat): Bytes {
    [n % 0x100, n / 0x100 % 0x100, n / 0x1_0000 % 0x100, n / 0x100_0000 % 0x100]
  }

  lemma FourLittleEndian(n: nat, width: nat)
    ensures LittleEndian(n, 4 + width) == LowFour(n) + LittleEndian(n / 0x1_0000_0000, width)
  {
    var a := n / 0x100;
    var c := a / 0x100;
    var d := c / 0x100;
    assert c == n / 0x1_0000 && d == n / 0x100_0000 && d / 0x100 == n / 0x1_0000_0000;
    assert LittleEndian(n, 4 + width) == [n % 0x100] + LittleEndian(a, 3 + width);
    assert LittleEndian(a, 3 + width) == [a % 0x100] + LittleEndian(c, 2 + width);
    assert LittleEndian(c, 2 + width) == [c % 0x100] + LittleEndian(d, 1 + width);
    assert LittleEndian(d, 1 + width) == [d % 0x100] + LittleEndian(d / 0x100, width);
  }

  lemma U32Laid(b: Bytes, pos: nat, n: nat)
    ensures U32At(b, pos, n) <==> At(b, pos, EncodeU32(n))
  {
    FourLittleEndian(n, 0);
    var e := EncodeU32(n);
    assert e == LowFour(n) + [] == LowFour(n);
    if At(b, pos, e) {
      assert b[pos + 0] == e[0] && b[pos + 1] == e[1] && b[pos + 2] == e[2] && b[pos + 3] == e[3];
    }
  }

  lemma U64Laid(b: Bytes, pos: nat, n: nat)
    ensures U64At(b, pos, n) <==> At(b, pos, EncodeU64(n))
  {
    FourLittleEndian(n, 4);
    FourLittleEndian(n, 0);
    assert EncodeU64(n) == EncodeU32(n) + EncodeU32(n / 0x1_0000_0000);
    AtConcat(b, pos, EncodeU32(n), EncodeU32(n / 0x1_0000_0000));
    U32Laid(b, pos, n);
    U32Laid(b, pos + 4, n / 0x1_0000_0000);
  }

  lemma ValueLaid(b: Bytes, pos: nat, v: Value)
    ensures ValueAt(b, pos, v) <==> At(b, pos, EncodeValue(v))
  {
    match v {
      case None => AtByte(b, pos, 0);
      case Some(bytes) =>
        AtConcat(b, pos, [1], EncodeSized(bytes));
        AtByte(b, pos, 1);
        AtConcat(b, pos + 1, EncodeU32(|bytes|), bytes);
        U32Laid(b, pos + 1, |bytes|);
        AtIsSlice(b, pos + 5, bytes);
    }
  }

  lemma EntryLaid(b: Bytes, pos: nat, w: WriteEntry)
    ensures EntryAt(b, pos, w) <==> At(b, pos, EncodeEntry(w))
    ensures |EncodeEntry(w)| == EntrySize(w)
  {
    AtConcat(b, pos, EncodeSized(w.key), EncodeValue(w.value));
    AtConcat(b, pos, EncodeU32(|w.key|), w.key);
    U32Laid(b, pos, |w.key|);
    AtIsSlice(b, pos + 4, w.key);
    ValueLaid(b, pos + 4 + |w.key|, w.value);
  }

  // The first `n` entries stand where they should.
  ghost predicate EntriesAt(b: Bytes, batch: seq<WriteEntry>, n: nat)
    requires n <= |batch|
  {
    EntryStart(batch, n) <= |b| && forall i :: 0 <= i < n ==> InPlace(b, batch, i)
  }

  lemma EntriesNext(b: Bytes, batch: seq<WriteEntry>, n: nat)
    requires n < |batch|
    ensures EntriesAt(b, batch, n + 1) <==> EntriesAt(b, batch, n) && EntryAt(b, EntryStart(batch, n), batch[n])
    ensures EntryStart(batch, n + 1) == EntryStart(batch, n) + EntrySize(batch[n])
  {
    assert InPlace(b, batch, n) <==> EntryAt(b, EntryStart(batch, n), batch[n]);
  }

  // What the codec writes of the first `n` entries.
  function Body(batch: seq<WriteEntry>, n: nat): Bytes
    requires n <= |batch|
  {
    EncodeMany(EncodeEntry, batch, n)
  }

  lemma BodyNext(batch: seq<WriteEntry>, n: nat)
    requires n < |batch|
    ensures Body(batch, 0) == []
    ensures Body(batch, n + 1) == Body(batch, n) + EncodeEntry(batch[n])
  {
  }

  lemma BodySize(batch: seq<WriteEntry>, n: nat)
    requires n <= |batch|
    ensures 13 + |Body(batch, n)| == EntryStart(batch, n)
  {
    forall w: WriteEntry ensures |EncodeEntry(w)| == EntrySize(w) {
    }
    ManySize(EncodeEntry, EntrySize, batch, n);
  }

  lemma LaidNext(b: Bytes, batch: seq<WriteEntry>, n: nat, front: Bytes)
    requires n < |batch| && front == Body(batch, n)
    requires At(b, 13, front) <==> EntriesAt(b, batch, n)
    ensures At(b, 13, Body(batch, n + 1)) <==> EntriesAt(b, batch, n + 1)
  {
    BodyNext(batch, n);
    BodySize(batch, n);
    AtConcat(b, 13, front, EncodeEntry(batch[n]));
    EntryLaid(b, 13 + |front|, batch[n]);
    EntriesNext(b, batch, n);
  }

  lemma {:induction false} EntriesLaid(b: Bytes, batch: seq<WriteEntry>, n: nat)
    requires n <= |batch| && 13 <= |b|
    ensures At(b, 13, Body(batch, n)) <==> EntriesAt(b, batch, n)
  {
    if n > 0 {
      EntriesLaid(b, batch, n - 1);
      LaidNext(b, batch, n - 1, Body(batch, n - 1));
    }
  }

  lemma HeaderLaid(b: Bytes, ts: nat, count: nat)
    ensures 13 <= |b| && b[0] == 1 && U64At(b, 1, ts) && U32At(b, 9, count) <==> At(b, 0, EncodeHeader(ts, count))
  {
    AtConcat(b, 0, [1], EncodeU64(ts) + EncodeU32(count));
    AtByte(b, 0, 1);
    AtConcat(b, 1, EncodeU64(ts), EncodeU32(count));
    U64Laid(b, 1, ts);
    U32Laid(b, 9, count);
  }

  // ----- the record -----

  // What the encoder writes is this layout, and nothing else is.
  lemma LayoutIsEncoding(b: Bytes, c: RecoveredCommit)
    ensures LaidOut(b, c.commitTs, c.batch) <==> b == Encode(c)
  {
    var header, body := EncodeHeader(c.commitTs, |c.batch|), Body(c.batch, |c.batch|);
    BodySize(c.batch, |c.batch|);
    assert Encode(c) == header + body;
    assert |header + body| == EntryStart(c.batch, |c.batch|);
    if |b| == |header + body| {
      HeaderLaid(b, c.commitTs, |c.batch|);
      EntriesLaid(b, c.batch, |c.batch|);
      AtConcat(b, 0, header, body);
      WholeIs(b, header + body);
    }
  }

  lemma WholeIs(b: Bytes, whole: Bytes)
    requires |b| == |whole|
    ensures At(b, 0, whole) <==> b == whole
  {
    AtIsSlice(b, 0, whole);
    assert b[0..|b|] == b;
  }

  lemma InRangeIsFit(c: RecoveredCommit)
    ensures InRange(c) <==> FieldsFit(c.commitTs, c.batch)
  {
    PowersOf256();
    forall i | 0 <= i < |c.batch| ensures FitsEntry(c.batch[i]) <==> LengthsFit(c.batch[i]) {
    }
  }

  // What the decoder accepts, in bytes: exactly the records laid out like this whose
  // numbers fit their fields.
  lemma DecodesLayout(b: Bytes, c: RecoveredCommit)
    ensures Decode(b) == Some(c) <==> LaidOut(b, c.commitTs, c.batch) && FieldsFit(c.commitTs, c.batch)
  {
    DecodeIsExact(b, c);
    LayoutIsEncoding(b, c);
    InRangeIsFit(c);
  }

  lemma DecodesOnlyLayout(b: Bytes)
    ensures match Decode(b)
            case Some(c) => LaidOut(b, c.commitTs, c.batch) && FieldsFit(c.commitTs, c.batch)
            case None => forall ts, batch :: FieldsFit(ts, batch) ==> !LaidOut(b, ts, batch)
    ensures b == [] || b[0] != 1 ==> Decode(b).None?
  {
    forall ts: nat, batch: seq<WriteEntry>
      ensures Decode(b) == Some(RecoveredCommit(ts, batch)) <==> LaidOut(b, ts, batch) && FieldsFit(ts, batch)
    {
      DecodesLayout(b, RecoveredCommit(ts, batch));
    }
    if Decode(b).Some? {
      DecodesLayout(b, Decode(b).value);
    }
  }

  // Only version 1 is accepted.
  lemma OtherVersionRejected(b: Bytes)
    requires b == [] || b[0] != 1
    ensures Decode(b).None?
  {
    if Decode(b).Some? {
      DecodesLayout(b, Decode(b).value);
    }
  }
  // ----- tags -----

  lemma FourDigits(n: nat)
    requires n < 0x1_0000_0000
    ensures n == n % 0x100 + 0x100 * (n / 0x100 % 0x100) + 0x1_0000 * (n / 0x1_0000 % 0x100)
                 + 0x100_0000 * (n / 0x100_0000 % 0x100)
  {
    var a, c, d := n / 0x100, n / 0x1_0000, n / 0x100_0000;
    assert c == a / 0x100 && d == c / 0x100 && d < 0x100;
    assert n == 0x100 * a + n % 0x100 && a == 0x100 * c + a % 0x100 && c == 0x100 * d + c % 0x100;
  }

  lemma U32Unique(b: Bytes, pos: nat, n: nat, m: nat)
    requires U32At(b, pos, n) && U32At(b, pos, m) && n < 0x1_0000_0000 && m < 0x1_0000_0000
    ensures n == m
  {
    FourDigits(n);
    FourDigits(m);
  }

  lemma EntryUnique(b: Bytes, pos: nat, a: WriteEntry, w: WriteEntry)
    requires EntryAt(b, pos, a) && EntryAt(b, pos, w) && LengthsFit(a) && LengthsFit(w)
    ensures a == w
  {
    U32Unique(b, pos, |a.key|, |w.key|);
    var tag := pos + 4 + |a.key|;
    if a.value.Some? && w.value.Some? {
      U32Unique(b, tag + 1, |a.value.value|, |w.value.value|);
    }
  }

  lemma {:induction false} EntriesUnique(b: Bytes, a: seq<WriteEntry>, w: seq<WriteEntry>, n: nat)
    requires n <= |a| && n <= |w| && EntriesAt(b, a, n) && EntriesAt(b, w, n)
    requires forall i :: 0 <= i < n ==> LengthsFit(a[i]) && LengthsFit(w[i])
    ensures EntryStart(a, n) == EntryStart(w, n)
  {
    if n > 0 {
      EntriesNext(b, a, n - 1);
      EntriesNext(b, w, n - 1);
      EntriesUnique(b, a, w, n - 1);
      EntryUnique(b, EntryStart(a, n - 1), a[n - 1], w[n - 1]);
    }
  }

  // An entry whose key is followed by a byte that is neither 0 nor 1.
  ghost predicate BadTagAt(b: Bytes, pos: nat, key: Bytes) {
    && |key| < 0x1_0000_0000 && U32At(b, pos, |key|) && BytesAt(b, pos + 4, key)
    && pos + 4 + |key| < |b| && b[pos + 4 + |key|] != 0 && b[pos + 4 + |key|] != 1
  }

  lemma BadTagIsNoEntry(b: Bytes, pos: nat, key: Bytes, w: WriteEntry)
    requires BadTagAt(b, pos, key) && LengthsFit(w)
    ensures !EntryAt(b, pos, w)
  {
    if EntryAt(b, pos, w) {
      U32Unique(b, pos, |key|, |w.key|);
    }
  }

  // One entry, as it is read.
  lemma ReadsEntry(b: Bytes, pos: nat)
    ensures match ReadEntry(b, pos)
            case Good(w, next) => EntryAt(b, pos, w) && LengthsFit(w) && next == pos + EntrySize(w)
            case Bad => forall w :: LengthsFit(w) ==> !EntryAt(b, pos, w)
  {
    EntryFieldExact();
    PowersOf256();
    assert ExactAt(EncodeEntry, FitsEntry, ReadEntry, b, pos);
    forall w: WriteEntry
      ensures ReadEntry(b, pos) == Good(w, pos + EntrySize(w)) <==> LengthsFit(w) && EntryAt(b, pos, w)
      ensures |EncodeEntry(w)| == EntrySize(w)
    {
      EntryLaid(b, pos, w);
    }
  }

  lemma BadTagUnread(b: Bytes, pos: nat, key: Bytes)
    requires BadTagAt(b, pos, key)
    ensures ReadEntry(b, pos).Bad?
  {
    ReadsEntry(b, pos);
    if ReadEntry(b, pos).Good? {
      BadTagIsNoEntry(b, pos, key, ReadEntry(b, pos).value);
    }
  }

  // A record is rejected when, after any number of good entries, a tag is neither 0 nor 1.
  lemma BadTagRejected(b: Bytes, count: nat, front: seq<WriteEntry>, key: Bytes)
    requires 13 <= |b| && U32At(b, 9, count) && |front| < count < 0x1_0000_0000
    requires EntriesAt(b, front, |front|) && forall i :: 0 <= i < |front| ==> LengthsFit(front[i])
    requires BadTagAt(b, EntryStart(front, |front|), key)
    ensures Decode(b).None?
  {
    if Decode(b).Some? {
      var c := Decode(b).value;
      DecodesLayout(b, c);
      U32Unique(b, 9, count, |c.batch|);
      EntriesBefore(b, c.batch, |front|);
      EntriesUnique(b, front, c.batch, |front|);
      BadTagIsNoEntry(b, EntryStart(front, |front|), key, c.batch[|front|]);
    }
  }

  lemma EntriesBefore(b: Bytes, batch: seq<WriteEntry>, n: nat)
    requires n < |batch| && forall i :: 0 <= i < |batch| ==> InPlace(b, batch, i)
    ensures EntriesAt(b, batch, n) && EntryAt(b, EntryStart(batch, n), batch[n])
  {
    assert InPlace(b, batch, n);
  }
}
