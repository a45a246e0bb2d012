// The commit-record format of the durable log (src/durable.rs): what is encoded, what
// the decoder accepts, and that the two are exact inverses.

module Codec {
  import opened Types
  import opened Framing

  const RECORD_VERSION: Byte := 1
  const MIN_WRITE_BYTES: nat := 5

  datatype RecoveredCommit = RecoveredCommit(commitTs: nat, batch: seq<WriteEntry>)

  // ----- integers -----

  function Power256(width: nat): (p: nat)
    ensures 0 < p && (width > 0 ==> 256 <= p)
  {
    if width == 0 then 1 else 256 * Power256(width - 1)
  }

  // The low `width` bytes of `n`, least significant first. Casting a length to 32 bits
  // drops the rest, as this does.
  function LittleEndian(n: nat, width: nat): (b: Bytes)
    ensures |b| == width
  {
    if width == 0 then [] else [n % 256] + LittleEndian(n / 256, width - 1)
  }

  // The number in the `width` bytes at `pos`.
  function FromLittleEndian(b: Bytes, pos: nat, width: nat): nat
    requires pos + width <= |b|
    decreases b, width
  {
    if width == 0 then 0 else b[pos] + 256 * FromLittleEndian(b, pos + 1, width - 1)
  }

  function ReadNumber(b: Bytes, pos: nat, width: nat): Parsed<nat> {
    if pos + width <= |b| then Good(FromLittleEndian(b, pos, width), pos + width) else Bad
  }

  lemma LowByte(low: Byte, rest: nat)
    ensures (low + 256 * rest) % 256 == low && (low + 256 * rest) / 256 == rest
  {
  }

  lemma {:induction false} NumberExact(b: Bytes, pos: nat, width: nat, n: nat)
    ensures ReadNumber(b, pos, width) == Good(n, pos + width)
       <==> n < Power256(width) && At(b, pos, LittleEndian(n, width))
    decreases width
  {
    if width > 0 {
      AtConcat(b, pos, [n % 256], LittleEndian(n / 256, width - 1));
      AtByte(b, pos, n % 256);
      NumberExact(b, pos + 1, width - 1, n / 256);
      if pos + width <= |b| {
        LowByte(b[pos], FromLittleEndian(b, pos + 1, width - 1));
      }
    }
  }

  lemma PowersOf256()
    ensures Power256(4) == 0x1_0000_0000 && Power256(8) == 0x1_0000_0000_0000_0000
  {
    assert Power256(2) == 65536;
    assert Power256(4) == 256 * (256 * Power256(2));
    assert Power256(6) == 256 * (256 * Power256(4));
    assert Power256(8) == 256 * (256 * Power256(6));
  }

  // ----- the fields of a record -----

  function EncodeU32(n: nat): Bytes {
    LittleEndian(n, 4)
  }

  predicate FitsU32(n: nat) {
    n < Power256(4)
  }

  function ReadU32(b: Bytes, pos: nat): Parsed<nat> {
    ReadNumber(b, pos, 4)
  }

  function EncodeU64(n: nat): Bytes {
    LittleEndian(n, 8)
  }

  predicate FitsU64(n: nat) {
    n < Power256(8)
  }

  function ReadU64(b: Bytes, pos: nat): Parsed<nat> {
    ReadNumber(b, pos, 8)
  }

  function EncodeSized(bytes: Bytes): Bytes {
    EncodeU32(|bytes|) + bytes
  }

  predicate FitsSized(bytes: Bytes) {
    FitsU32(|bytes|)
  }

  function ReadSized(b: Bytes, pos: nat): Parsed<Bytes> {
    ReadSizedBy(ReadU32, b, pos)
  }

  function EncodeValue(v: Value): Bytes {
    match v
    case None => [0]
    case Some(bytes) => [1] + EncodeSized(bytes)
  }

  predicate FitsValue(v: Value) {
    v.Some? ==> FitsSized(v.value)
  }

  function ReadValue(b: Bytes, pos: nat): Parsed<Value> {
    if pos >= |b| then Bad
    else if b[pos] == 0 then Good(None, pos + 1)
    else if b[pos] == 1 then
      match ReadSized(b, pos + 1)
      case Bad => Bad
      case Good(bytes, next) => Good(Some(bytes), next)
    else Bad
  }

  function EncodeEntry(w: WriteEntry): Bytes {
    EncodeSized(w.key) + EncodeValue(w.value)
  }

  predicate FitsEntry(w: WriteEntry) {
    FitsSized(w.key) && FitsValue(w.value)
  }

  function ReadEntry(b: Bytes, pos: nat): Parsed<WriteEntry> {
    match ReadPair(ReadSized, ReadValue, b, pos)
    case Bad => Bad
    case Good((key, value), next) => Good(WriteEntry(key, value), next)
  }

  function EncodeHeader(commitTs: nat, count: nat): Bytes {
    [RECORD_VERSION] + (EncodeU64(commitTs) + EncodeU32(count))
  }

  function Encode(c: RecoveredCommit): Bytes {
    EncodeHeader(c.commitTs, |c.batch|) + EncodeMany(EncodeEntry, c.batch, |c.batch|)
  }

  // Every length and number is one its field holds.
  ghost predicate InRange(c: RecoveredCommit) {
    FitsU64(c.commitTs) && FitsU32(|c.batch|) && AllOk(FitsEntry, c.batch, |c.batch|)
  }

  // What the decoder accepts, and as what. The bound on the claimed count, checked
  // before anything is allocated, is not needed here: see `CountGuardIsHarmless`.
  function Decode(b: Bytes): Option<RecoveredCommit> {
    if |b| < 1 || b[0] != RECORD_VERSION then None
    else
      match ReadPair(ReadU64, ReadU32, b, 1)
      case Bad => None
      case Good((commitTs, count), next) =>
        match ReadMany(ReadEntry, b, next, count)
        case Bad => None
        case Good(batch, end) => if end == |b| then Some(RecoveredCommit(commitTs, batch)) else None
  }

  // ----- every field is read back exactly -----

  lemma U32Exact()
    ensures Exact(EncodeU32, FitsU32, ReadU32)
  {
    forall b: Bytes, pos: nat ensures ExactAt(EncodeU32, FitsU32, ReadU32, b, pos) {
      forall n: nat
        ensures ReadU32(b, pos) == Good(n, pos + |EncodeU32(n)|) <==> FitsU32(n) && At(b, pos, EncodeU32(n))
      {
        NumberExact(b, pos, 4, n);
      }
    }
  }

  lemma U64Exact()
    ensures Exact(EncodeU64, FitsU64, ReadU64)
  {
    forall b: Bytes, pos: nat ensures ExactAt(EncodeU64, FitsU64, ReadU64, b, pos) {
      forall n: nat
        ensures ReadU64(b, pos) == Good(n, pos + |EncodeU64(n)|) <==> FitsU64(n) && At(b, pos, EncodeU64(n))
      {
        NumberExact(b, pos, 8, n);
      }
    }
  }

  lemma SizedFieldExact()
    ensures Exact(EncodeSized, FitsSized, ReadSized)
  {
    U32Exact();
    forall b: Bytes, pos: nat ensures ExactAt(EncodeSized, FitsSized, ReadSized, b, pos) {
      forall bytes: Bytes
        ensures ReadSized(b, pos) == Good(bytes, pos + |EncodeSized(bytes)|)
           <==> FitsSized(bytes) && At(b, pos, EncodeSized(bytes))
      {
        SizedExact(EncodeU32, FitsU32, ReadU32, b, pos, bytes);
      }
      SizedExact(EncodeU32, FitsU32, ReadU32, b, pos, []);
    }
  }

  lemma ValueExactAt(b: Bytes, pos: nat, v: Value)
    requires Exact(EncodeSized, FitsSized, ReadSized)
    ensures ReadValue(b, pos) == Good(v, pos + |EncodeValue(v)|) <==> FitsValue(v) && At(b, pos, EncodeValue(v))
  {
    assert ExactAt(EncodeSized, FitsSized, ReadSized, b, pos + 1);
    match v {
      case None =>
        AtByte(b, pos, 0);
      case Some(bytes) =>
        AtConcat(b, pos, [1], EncodeSized(bytes));
        AtByte(b, pos, 1);
    }
  }

  lemma ValueEnds(b: Bytes, pos: nat)
    requires Exact(EncodeSized, FitsSized, ReadSized) && ReadValue(b, pos).Good?
    ensures ReadValue(b, pos).next == pos + |EncodeValue(ReadValue(b, pos).value)|
  {
    assert ExactAt(EncodeSized, FitsSized, ReadSized, b, pos + 1);
  }

  lemma ValueFieldExact()
    ensures Exact(EncodeValue, FitsValue, ReadValue)
  {
    SizedFieldExact();
    forall b: Bytes, pos: nat ensures ExactAt(EncodeValue, FitsValue, ReadValue, b, pos) {
      forall v: Value
        ensures ReadValue(b, pos) == Good(v, pos + |EncodeValue(v)|) <==> FitsValue(v) && At(b, pos, EncodeValue(v))
      {
        ValueExactAt(b, pos, v);
      }
      if ReadValue(b, pos).Good? {
        ValueEnds(b, pos);
      }
    }
  }

  lemma EntryExactAt(b: Bytes, pos: nat, w: WriteEntry)
    requires Exact(EncodeSized, FitsSized, ReadSized) && Exact(EncodeValue, FitsValue, ReadValue)
    ensures ReadEntry(b, pos) == Good(w, pos + |EncodeEntry(w)|) <==> FitsEntry(w) && At(b, pos, EncodeEntry(w))
    ensures ReadEntry(b, pos).Good? ==> ReadEntry(b, pos).next == pos + |EncodeEntry(ReadEntry(b, pos).value)|
  {
    PairExact(EncodeSized, FitsSized, ReadSized, EncodeValue, FitsValue, ReadValue, b, pos, w.key, w.value);
  }

  lemma EntryFieldExact()
    ensures Exact(EncodeEntry, FitsEntry, ReadEntry)
  {
    SizedFieldExact();
    ValueFieldExact();
    forall b: Bytes, pos: nat ensures ExactAt(EncodeEntry, FitsEntry, ReadEntry, b, pos) {
      forall w: WriteEntry
        ensures ReadEntry(b, pos) == Good(w, pos + |EncodeEntry(w)|) <==> FitsEntry(w) && At(b, pos, EncodeEntry(w))
      {
        EntryExactAt(b, pos, w);
      }
      EntryExactAt(b, pos, WriteEntry([], None));
    }
  }

  lemma HeaderExact(b: Bytes, commitTs: nat, count: nat)
    ensures |b| >= 1 && b[0] == RECORD_VERSION && ReadPair(ReadU64, ReadU32, b, 1) == Good((commitTs, count), 13)
       <==> FitsU64(commitTs) && FitsU32(count) && At(b, 0, EncodeHeader(commitTs, count))
    ensures ReadPair(ReadU64, ReadU32, b, 1).Good? ==> ReadPair(ReadU64, ReadU32, b, 1).next == 13
  {
    U32Exact();
    U64Exact();
    PairExact(EncodeU64, FitsU64, ReadU64, EncodeU32, FitsU32, ReadU32, b, 1, commitTs, count);
    AtConcat(b, 0, [RECORD_VERSION], EncodeU64(commitTs) + EncodeU32(count));
    AtByte(b, 0, RECORD_VERSION);
  }

  // ----- exactness -----

  lemma EncodedDecodes(c: RecoveredCommit)
    requires InRange(c)
    ensures Decode(Encode(c)) == Some(c)
  {
    var b := Encode(c);
    var header, body := EncodeHeader(c.commitTs, |c.batch|), EncodeMany(EncodeEntry, c.batch, |c.batch|);
    assert At(b, 0, header + body);
    AtConcat(b, 0, header, body);
    HeaderExact(b, c.commitTs, |c.batch|);
    EntryFieldExact();
    ManyRead(EncodeEntry, FitsEntry, ReadEntry, b, 13, c.batch, |c.batch|);
    assert c.batch[..|c.batch|] == c.batch;
  }

  lemma DecodedEncodes(b: Bytes)
    requires Decode(b).Some?
    ensures InRange(Decode(b).value) && Encode(Decode(b).value) == b
  {
    var c := Decode(b).value;
    HeaderExact(b, c.commitTs, |c.batch|);
    EntryFieldExact();
    ManyWritten(EncodeEntry, FitsEntry, ReadEntry, b, 13, |c.batch|);
    var header, body := EncodeHeader(c.commitTs, |c.batch|), EncodeMany(EncodeEntry, c.batch, |c.batch|);
    AtConcat(b, 0, header, body);
    AtIsSlice(b, 0, header + body);
    assert b[0..|b|] == b;
  }

  // Decoding and encoding are inverse: the decoder accepts exactly the encodings of
  // records whose numbers fit their fields, each as the record it encodes.
  lemma DecodeIsExact(b: Bytes, c: RecoveredCommit)
    ensures Decode(b) == Some(c) <==> InRange(c) && b == Encode(c)
  {
    if InRange(c) && b == Encode(c) {
      EncodedDecodes(c);
    }
    if Decode(b) == Some(c) {
      DecodedEncodes(b);
    }
  }

  // The round trip holds exactly for the records within range.
  lemma RoundTrip(c: RecoveredCommit)
    ensures Decode(Encode(c)) == Some(c) <==> InRange(c)
  {
    DecodeIsExact(Encode(c), c);
  }

  // Beyond it, the record is written with truncated lengths. It is then read as the
  // record in range that has the same bytes, if there is one, and rejected if there is
  // none; it is never read as itself.
  lemma OutOfRangeOutcome(c: RecoveredCommit)
    requires !InRange(c)
    ensures forall d :: Decode(Encode(c)) == Some(d) <==> InRange(d) && Encode(d) == Encode(c)
    ensures Decode(Encode(c)).None? <==> forall d :: InRange(d) ==> Encode(d) != Encode(c)
    ensures Decode(Encode(c)) != Some(c)
  {
    forall d: RecoveredCommit ensures Decode(Encode(c)) == Some(d) <==> InRange(d) && Encode(d) == Encode(c) {
      DecodeIsExact(Encode(c), d);
    }
  }

  // ----- a record that is misread -----

  lemma {:induction false} LittleEndianWraps(n: nat, width: nat)
    ensures LittleEndian(n + Power256(width), width) == LittleEndian(n, width)
  {
    if width > 0 {
      var p := Power256(width - 1);
      assert (n + 256 * p) % 256 == n % 256 && (n + 256 * p) / 256 == n / 256 + p;
      LittleEndianWraps(n / 256, width - 1);
    }
  }

  function Zeros(n: nat): (b: Bytes)
    ensures |b| == n
  {
    seq(n, _ => 0)
  }

  // A key too long by one for its length field. The field wraps to zero, and the key
  // itself then stands where a tag and a value are looked for.
  function OversizedKey(): Bytes
  {
    ([1] + EncodeU32(Power256(4) - 4)) + Zeros(Power256(4) - 5)
  }

  function Written(): RecoveredCommit
  {
    RecoveredCommit(1, [WriteEntry(OversizedKey(), None)])
  }

  function ReadInstead(): RecoveredCommit
  {
    RecoveredCommit(1, [WriteEntry([], Some(Zeros(Power256(4) - 5) + [0]))])
  }

  lemma SameEntry()
    ensures EncodeEntry(Written().batch[0]) == EncodeEntry(ReadInstead().batch[0])
  {
    LittleEndianWraps(0, 4);
    var length, zeros := EncodeU32(Power256(4) - 4), Zeros(Power256(4) - 5);
    assert |OversizedKey()| == Power256(4);
    assert EncodeU32(|OversizedKey()|) == EncodeU32(0);
    assert (([1] + length) + zeros) + [0] == [1] + (length + (zeros + [0]));
    var key, value := EncodeU32(0) + OversizedKey(), EncodeU32(0) + [];
    assert key + [0] == EncodeU32(0) + (OversizedKey() + [0]);
    assert value == EncodeU32(0);
  }

  lemma OneEntry(w: WriteEntry)
    ensures EncodeMany(EncodeEntry, [w], 1) == EncodeEntry(w)
  {
    assert EncodeMany(EncodeEntry, [w], 0) == [];
    assert [] + EncodeEntry(w) == EncodeEntry(w);
  }

  lemma OneEntryFits(c: RecoveredCommit)
    requires |c.batch| == 1 && FitsU64(c.commitTs) && FitsU32(1)
    ensures InRange(c) <==> FitsEntry(c.batch[0])
  {
    assert AllOk(FitsEntry, c.batch, 1) <==> FitsEntry(c.batch[0]);
  }

  // A record whose key is 2^32 bytes long can be accepted as the write of a long value
  // to the empty key, and recovery installs that.
  lemma OversizedKeyIsMisread()
    ensures exists c, d :: !InRange(c) && Decode(Encode(c)) == Some(d)
                           && |c.batch| == |d.batch| == 1 && c.batch[0].key != d.batch[0].key == []
  {
    PowersOf256();
    var c, d := Written(), ReadInstead();
    SameEntry();
    OneEntry(c.batch[0]);
    OneEntry(d.batch[0]);
    assert Encode(c) == Encode(d);
    OneEntryFits(c);
    OneEntryFits(d);
    DecodeIsExact(Encode(c), d);
  }

  // ----- no record is a prefix of another -----

  // A record that decodes does so no longer with anything appended ...
  lemma PrefixFree(b: Bytes, tail: Bytes)
    requires Decode(b).Some? && tail != []
    ensures Decode(b + tail).None?
  {
    var c := Decode(b).value;
    DecodedEncodes(b);
    HeaderExact(b, c.commitTs, |c.batch|);
    AtExtended(b, tail, 0, EncodeHeader(c.commitTs, |c.batch|));
    HeaderExact(b + tail, c.commitTs, |c.batch|);
    EntryFieldExact();
    ManyExtended(EncodeEntry, FitsEntry, ReadEntry, b, tail, 13, |c.batch|);
  }

  // ... and neither does any proper prefix of it.
  lemma TruncationRejected(b: Bytes, cut: nat)
    requires Decode(b).Some? && cut < |b|
    ensures Decode(b[..cut]).None?
  {
    if Decode(b[..cut]).Some? {
      assert b == b[..cut] + b[cut..];
      PrefixFree(b[..cut], b[cut..]);
    }
  }

  // The guard on the claimed count never rejects a record that would decode: each entry
  // takes at least `MIN_WRITE_BYTES` bytes.
  lemma CountGuardIsHarmless(b: Bytes, pos: nat, count: nat)
    requires pos <= |b| && ReadMany(ReadEntry, b, pos, count).Good?
    ensures count <= (|b| - pos) / MIN_WRITE_BYTES
  {
    EntryFieldExact();
    ManyWritten(EncodeEntry, FitsEntry, ReadEntry, b, pos, count);
    ManyLength(EncodeEntry, MIN_WRITE_BYTES, ReadMany(ReadEntry, b, pos, count).value, count);
  }
}
