// Reading values back from the bytes they were written to: fields, pairs of fields and
// runs of them, for any field whose reader inverts its writer exactly.

module Framing {
  import opened Types

  // A value read from a position, and the position after it.
  datatype Parsed<+T> = Bad | Good(value: T, next: nat)

  // `b` holds `part` at `pos`.
  ghost predicate At(b: Bytes, pos: nat, part: Bytes) {
    pos + |part| <= |b| && forall i :: 0 <= i < |part| ==> b[pos + i] == part[i]
  }

  lemma AtIsSlice(b: Bytes, pos: nat, part: Bytes)
    ensures At(b, pos, part) <==> pos + |part| <= |b| && b[pos..pos + |part|] == part
  {
    if pos + |part| <= |b| {
      var slice := b[pos..pos + |part|];
      assert forall i :: 0 <= i < |part| ==> slice[i] == b[pos + i];
    }
  }

  lemma AtConcat(b: Bytes, pos: nat, x: Bytes, y: Bytes)
    ensures At(b, pos, x + y) <==> At(b, pos, x) && At(b, pos + |x|, y)
  {
    var z := x + y;
    if At(b, pos, z) {
      forall i | 0 <= i < |x| ensures b[pos + i] == x[i] {
        assert z[i] == x[i];
      }
      forall i | 0 <= i < |y| ensures b[pos + |x| + i] == y[i] {
        assert z[|x| + i] == y[i];
      }
    }
    if At(b, pos, x) && At(b, pos + |x|, y) {
      forall i | 0 <= i < |z| ensures b[pos + i] == z[i] {
        if i >= |x| {
          assert z[i] == y[i - |x|];
        }
      }
    }
  }

  lemma AtByte(b: Bytes, pos: nat, x: Byte)
    ensures At(b, pos, [x]) <==> pos < |b| && b[pos] == x
  {
    if At(b, pos, [x]) {
      assert b[pos + 0] == [x][0];
    }
  }

  lemma AtExtended(b: Bytes, tail: Bytes, pos: nat, part: Bytes)
    requires At(b, pos, part)
    ensures At(b + tail, pos, part)
  {
  }

  // `read` yields a value exactly where its encoding stands, if it is one of the values
  // the encoding can represent.
  ghost predicate ExactAt<T(!new)>(enc: T -> Bytes, ok: T -> bool, read: (Bytes, nat) -> Parsed<T>,
                                   b: Bytes, pos: nat)
  {
    && (forall x :: read(b, pos) == Good(x, pos + |enc(x)|) <==> ok(x) && At(b, pos, enc(x)))
    && (read(b, pos).Good? ==> read(b, pos).next == pos + |enc(read(b, pos).value)|)
  }

  ghost predicate Exact<T(!new)>(enc: T -> Bytes, ok: T -> bool, read: (Bytes, nat) -> Parsed<T>) {
    forall b, pos :: ExactAt(enc, ok, read, b, pos)
  }

  // ----- one field after another -----

  function ReadPair<A, B>(first: (Bytes, nat) -> Parsed<A>, second: (Bytes, nat) -> Parsed<B>,
                          b: Bytes, pos: nat): Parsed<(A, B)>
  {
    match first(b, pos)
    case Bad => Bad
    case Good(x, next) =>
      match second(b, next)
      case Bad => Bad
      case Good(y, end) => Good((x, y), end)
  }

  lemma PairExact<A(!new), B(!new)>(encA: A -> Bytes, okA: A -> bool, readA: (Bytes, nat) -> Parsed<A>,
                                    encB: B -> Bytes, okB: B -> bool, readB: (Bytes, nat) -> Parsed<B>,
                                    b: Bytes, pos: nat, x: A, y: B)
    requires Exact(encA, okA, readA) && Exact(encB, okB, readB)
    ensures ReadPair(readA, readB, b, pos) == Good((x, y), pos + |encA(x)| + |encB(y)|)
       <==> okA(x) && okB(y) && At(b, pos, encA(x) + encB(y))
    ensures var r := ReadPair(readA, readB, b, pos);
            r.Good? ==> r.next == pos + |encA(r.value.0)| + |encB(r.value.1)|
  {
    assert ExactAt(encA, okA, readA, b, pos);
    AtConcat(b, pos, encA(x), encB(y));
    assert ExactAt(encB, okB, readB, b, pos + |encA(x)|);
    if readA(b, pos).Good? {
      assert ExactAt(encB, okB, readB, b, readA(b, pos).next);
    }
  }

  // ----- bytes preceded by their length -----

  function ReadBytes(b: Bytes, pos: nat, len: nat): (r: Parsed<Bytes>)
    ensures r.Good? ==> r.next == pos + len <= |b| && r.value == b[pos..pos + len] && |r.value| == len
  {
    if pos + len <= |b| then Good(b[pos..pos + len], pos + len) else Bad
  }

  function ReadSizedBy(readLen: (Bytes, nat) -> Parsed<nat>, b: Bytes, pos: nat): Parsed<Bytes> {
    match readLen(b, pos)
    case Bad => Bad
    case Good(len, next) => ReadBytes(b, next, len)
  }

  lemma SizedExact(encLen: nat -> Bytes, okLen: nat -> bool, readLen: (Bytes, nat) -> Parsed<nat>,
                   b: Bytes, pos: nat, bytes: Bytes)
    requires Exact(encLen, okLen, readLen)
    ensures ReadSizedBy(readLen, b, pos) == Good(bytes, pos + |encLen(|bytes|) + bytes|)
       <==> okLen(|bytes|) && At(b, pos, encLen(|bytes|) + bytes)
    ensures var r := ReadSizedBy(readLen, b, pos);
            r.Good? ==> r.next == pos + |encLen(|r.value|) + r.value|
  {
    assert ExactAt(encLen, okLen, readLen, b, pos);
    AtConcat(b, pos, encLen(|bytes|), bytes);
    AtIsSlice(b, pos + |encLen(|bytes|)|, bytes);
  }

  // ----- a run of values -----

  // The first `n` items, one after the other.
  function EncodeMany<T>(enc: T -> Bytes, items: seq<T>, n: nat): Bytes
    requires n <= |items|
  {
    if n == 0 then [] else EncodeMany(enc, items, n - 1) + enc(items[n - 1])
  }

  function ReadMany<T>(read: (Bytes, nat) -> Parsed<T>, b: Bytes, pos: nat, count: nat): (r: Parsed<seq<T>>)
    ensures r.Good? ==> |r.value| == count
  {
    if count == 0 then Good([], pos)
    else
      match ReadMany(read, b, pos, count - 1)
      case Bad => Bad
      case Good(items, next) =>
        match read(b, next)
        case Bad => Bad
        case Good(x, end) => Good(items + [x], end)
  }

  lemma ManyNext<T>(enc: T -> Bytes, front: Bytes, items: seq<T>, n: nat)
    requires n < |items|
    ensures front + EncodeMany(enc, items, n + 1) == (front + EncodeMany(enc, items, n)) + enc(items[n])
  {
  }

  lemma ManyReadNext<T>(read: (Bytes, nat) -> Parsed<T>, b: Bytes, pos: nat, count: nat)
    requires ReadMany(read, b, pos, count).Good?
    ensures var Good(items, next) := ReadMany(read, b, pos, count);
            match read(b, next)
            case Bad => ReadMany(read, b, pos, count + 1).Bad?
            case Good(x, end) => ReadMany(read, b, pos, count + 1) == Good(items + [x], end)
  {
  }

  ghost predicate AllOk<T>(ok: T -> bool, items: seq<T>, n: nat)
    requires n <= |items|
  {
    forall i :: 0 <= i < n ==> ok(items[i])
  }

  lemma {:induction false} ManyRead<T(!new)>(enc: T -> Bytes, ok: T -> bool, read: (Bytes, nat) -> Parsed<T>,
                                             b: Bytes, pos: nat, items: seq<T>, n: nat)
    requires Exact(enc, ok, read) && n <= |items| && AllOk(ok, items, n) && At(b, pos, EncodeMany(enc, items, n))
    ensures ReadMany(read, b, pos, n) == Good(items[..n], pos + |EncodeMany(enc, items, n)|)
  {
    if n > 0 {
      var front := EncodeMany(enc, items, n - 1);
      AtConcat(b, pos, front, enc(items[n - 1]));
      ManyRead(enc, ok, read, b, pos, items, n - 1);
      assert ExactAt(enc, ok, read, b, pos + |front|);
      assert items[..n] == items[..n - 1] + [items[n - 1]];
    }
  }

  lemma {:induction false} EncodeManySame<T>(enc: T -> Bytes, a: seq<T>, c: seq<T>, n: nat)
    requires n <= |a| && n <= |c| && forall i :: 0 <= i < n ==> a[i] == c[i]
    ensures EncodeMany(enc, a, n) == EncodeMany(enc, c, n)
  {
    if n > 0 {
      EncodeManySame(enc, a, c, n - 1);
    }
  }

  lemma {:induction false} ManyWritten<T(!new)>(enc: T -> Bytes, ok: T -> bool, read: (Bytes, nat) -> Parsed<T>,
                                                b: Bytes, pos: nat, count: nat)
    requires Exact(enc, ok, read) && ReadMany(read, b, pos, count).Good? && pos <= |b|
    ensures var items := ReadMany(read, b, pos, count).value;
            AllOk(ok, items, count) && At(b, pos, EncodeMany(enc, items, count))
            && ReadMany(read, b, pos, count).next == pos + |EncodeMany(enc, items, count)|
  {
    if count > 0 {
      ManyWritten(enc, ok, read, b, pos, count - 1);
      var Good(init, next) := ReadMany(read, b, pos, count - 1);
      var Good(x, end) := read(b, next);
      var items := init + [x];
      assert ExactAt(enc, ok, read, b, next);
      EncodeManySame(enc, items, init, count - 1);
      AtConcat(b, pos, EncodeMany(enc, items, count - 1), enc(x));
    }
  }

  lemma {:induction false} ManyLength<T(!new)>(enc: T -> Bytes, least: nat, items: seq<T>, n: nat)
    requires n <= |items| && forall x :: least <= |enc(x)|
    ensures n * least <= |EncodeMany(enc, items, n)|
  {
    if n > 0 {
      ManyLength(enc, least, items, n - 1);
      assert n * least == (n - 1) * least + least;
    }
  }

  // The sizes of the first `n` items added up.
  function TotalSize<T>(size: T -> nat, items: seq<T>, n: nat): nat
    requires n <= |items|
  {
    if n == 0 then 0 else TotalSize(size, items, n - 1) + size(items[n - 1])
  }

  lemma {:induction false} ManySize<T(!new)>(enc: T -> Bytes, size: T -> nat, items: seq<T>, n: nat)
    requires n <= |items| && forall x :: |enc(x)| == size(x)
    ensures |EncodeMany(enc, items, n)| == TotalSize(size, items, n)
  {
    if n > 0 {
      ManySize(enc, size, items, n - 1);
    }
  }

  // Whatever is read stays readable when bytes are appended.
  lemma ManyExtended<T(!new)>(enc: T -> Bytes, ok: T -> bool, read: (Bytes, nat) -> Parsed<T>,
                              b: Bytes, tail: Bytes, pos: nat, count: nat)
    requires Exact(enc, ok, read) && ReadMany(read, b, pos, count).Good? && pos <= |b|
    ensures ReadMany(read, b + tail, pos, count) == ReadMany(read, b, pos, count)
  {
    ManyWritten(enc, ok, read, b, pos, count);
    var items := ReadMany(read, b, pos, count).value;
    AtExtended(b, tail, pos, EncodeMany(enc, items, count));
    ManyRead(enc, ok, read, b + tail, pos, items, count);
    assert items[..count] == items;
  }

  // ----- records, each in a byte string of its own -----

  // The first `n` records, decoded; `None` if one of them does not decode.
  function DecodeEach<T>(decode: Bytes -> Option<T>, log: seq<Bytes>, n: nat): (r: Option<seq<T>>)
    requires n <= |log|
    ensures r.Some? ==> |r.value| == n
  {
    if n == 0 then Some([])
    else
      match DecodeEach(decode, log, n - 1)
      case None => None
      case Some(front) =>
        match decode(log[n - 1])
        case None => None
        case Some(x) => Some(front + [x])
  }

  lemma EachNext<T>(decode: Bytes -> Option<T>, log: seq<Bytes>, n: nat)
    requires n < |log| && DecodeEach(decode, log, n).Some?
    ensures DecodeEach(decode, log, n + 1)
         == if decode(log[n]).None? then None else Some(DecodeEach(decode, log, n).value + [decode(log[n]).value])
  {
  }

  lemma {:induction false} EachIsExact<T(!new)>(enc: T -> Bytes, ok: T -> bool, decode: Bytes -> Option<T>,
                                                log: seq<Bytes>, items: seq<T>, n: nat)
    requires n <= |log| && n <= |items|
    requires forall b, x :: decode(b) == Some(x) <==> ok(x) && b == enc(x)
    ensures DecodeEach(decode, log, n) == Some(items[..n])
       <==> forall i :: 0 <= i < n ==> ok(items[i]) && log[i] == enc(items[i])
  {
    if n > 0 {
      EachIsExact(enc, ok, decode, log, items, n - 1);
      assert items[..n] == items[..n - 1] + [items[n - 1]];
      if DecodeEach(decode, log, n) == Some(items[..n]) {
        var front := DecodeEach(decode, log, n - 1).value;
        assert front == items[..n][..n - 1] == items[..n - 1];
      }
    }
  }

  lemma {:induction false} UndecodableStays<T>(decode: Bytes -> Option<T>, log: seq<Bytes>, n: nat, m: nat)
    requires n <= m <= |log| && DecodeEach(decode, log, n).None?
    ensures DecodeEach(decode, log, m).None?
  {
    if n < m {
      UndecodableStays(decode, log, n, m - 1);
    }
  }
}
