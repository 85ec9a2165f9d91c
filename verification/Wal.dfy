/** The write-ahead log: its byte format, its parser, and what survives a torn tail.

    The checksum is a parameter throughout: nothing below depends on which function it is. */
module Wal {
  import opened Bytes

  const REC_PAGE_WRITE: byte := 1
  const REC_COMMIT: byte := 2

  type Crc = seq<byte> -> U32

  type PageId = U64

  datatype Record = Record(kind: byte, group: U64, payload: seq<byte>)

  datatype PageWrite = PageWrite(page: PageId, data: Page)

  /** A committed group: the pages it wrote, in the order they were logged. */
  datatype Group = Group(id: U64, writes: seq<PageWrite>)

  // ---------------------------------------------------------------- encoding

  predicate ShortPayload(r: Record) {
    |r.payload| < 0x1_0000_0000
  }

  function Body(r: Record): (s: seq<byte>)
    requires ShortPayload(r)
    ensures |s| == 13 + |r.payload|
  {
    [r.kind] + ToLE(r.group, 8) + ToLE(|r.payload|, 4) + r.payload
  }

  /** type | group id | payload length | payload | checksum of all of these. */
  function EncodeRecord(crc: Crc, r: Record): (s: seq<byte>)
    requires ShortPayload(r)
    ensures |s| == 17 + |r.payload|
  {
    Body(r) + ToLE(crc(Body(r)), 4)
  }

  ghost predicate AllShort(rs: seq<Record>) {
    forall i :: 0 <= i < |rs| ==> ShortPayload(rs[i])
  }

  ghost function EncodeAll(crc: Crc, rs: seq<Record>): seq<byte>
    requires AllShort(rs)
  {
    if rs == [] then [] else EncodeRecord(crc, rs[0]) + EncodeAll(crc, rs[1..])
  }

  /** The record of one byte 7 in group 5, in bytes. */
  lemma {:induction false} RecordBytes(crc: Crc)
    ensures EncodeRecord(crc, Record(1, 5, [7])) == [1, 5, 0, 0, 0, 0, 0, 0, 0, 1, 0, 0, 0, 7] + ToLE(crc([1, 5, 0, 0, 0, 0, 0, 0, 0, 1, 0, 0, 0, 7]), 4)
  {
    SmallLE(5, 8);
    SmallLE(1, 4);
    assert Body(Record(1, 5, [7])) == [1, 5, 0, 0, 0, 0, 0, 0, 0, 1, 0, 0, 0, 7];
  }

  // ---------------------------------------------------------------- parsing

  datatype Read = Stop | Got(record: Record, end: nat)

  /** The record at position `c`, unless it is cut off or fails its checksum. */
  ghost function ReadAt(crc: Crc, buf: seq<byte>, c: nat): (r: Read)
    ensures r.Got? ==> c < r.end <= |buf|
  {
    if c + 17 > |buf| then Stop
    else
      var e := c + 13 + FromLE(buf[c + 9..c + 13]);
      if e + 4 > |buf| || FromLE(buf[e..e + 4]) != crc(buf[c..e]) then Stop
      else Got(Record(buf[c], U64At(buf, c + 1), buf[c + 13..e]), e + 4)
  }

  type Reader = (seq<byte>, nat) -> Read

  ghost function RecordReader(crc: Crc): Reader {
    (buf: seq<byte>, c: nat) => ReadAt(crc, buf, c)
  }

  /** The records from position `c` on, up to the first that cannot be read. */
  ghost function ParseFrom(read: Reader, buf: seq<byte>, c: nat): seq<Record>
    decreases |buf| - c
  {
    var r := read(buf, c);
    if r.Got? && c < r.end <= |buf| then [r.record] + ParseFrom(read, buf, r.end) else []
  }

  ghost function Parse(crc: Crc, buf: seq<byte>): seq<Record> {
    ParseFrom(RecordReader(crc), buf, 0)
  }

  function Shifted(r: Read, n: nat): Read {
    if r.Got? then Got(r.record, r.end + n) else Stop
  }

  lemma {:induction false} TailSlice(a: seq<byte>, b: seq<byte>, i: nat, j: nat)
    requires i <= j <= |b|
    ensures (a + b)[|a| + i..|a| + j] == b[i..j]
  {
    assert (a + b)[|a|..] == b;
    var s, t := (a + b)[|a| + i..|a| + j], b[i..j];
    forall k | 0 <= k < j - i
      ensures s[k] == t[k]
    {
      assert s[k] == (a + b)[|a| + i + k] == b[i + k];
    }
  }

  /** Reading does not look behind the cursor. */
  lemma {:induction false} ReadShift(crc: Crc, a: seq<byte>, b: seq<byte>, c: nat)
    ensures ReadAt(crc, a + b, |a| + c) == Shifted(ReadAt(crc, b, c), |a|)
  {
    var buf, d := a + b, |a| + c;
    if c + 17 <= |b| {
      TailSlice(a, b, c + 9, c + 13);
      TailSlice(a, b, c + 1, c + 9);
      var e := c + 13 + FromLE(b[c + 9..c + 13]);
      if e + 4 <= |b| {
        TailSlice(a, b, e, e + 4);
        TailSlice(a, b, c, e);
        TailSlice(a, b, c + 13, e);
      }
    }
  }

  /** `buf` ends in `b`, and reads there, from position `n` on, as `b` does. */
  ghost predicate ReadsAs(read: Reader, buf: seq<byte>, b: seq<byte>, n: nat) {
    |buf| == n + |b| && forall x: nat :: read(buf, n + x) == Shifted(read(b, x), n)
  }

  lemma {:induction false} ParseShift(read: Reader, buf: seq<byte>, b: seq<byte>, n: nat, c: nat)
    requires ReadsAs(read, buf, b, n)
    ensures ParseFrom(read, buf, n + c) == ParseFrom(read, b, c)
    decreases |b| - c
  {
    var r := read(b, c);
    assert read(buf, n + c) == Shifted(r, n);
    if r.Got? && c < r.end <= |b| {
      ParseShift(read, buf, b, n, r.end);
    }
  }

  lemma {:induction false} ReaderShift(crc: Crc, read: Reader, buf: seq<byte>, a: seq<byte>, b: seq<byte>)
    requires read == RecordReader(crc) && buf == a + b
    ensures ReadsAs(read, buf, b, |a|)
  {
    forall x: nat
      ensures read(buf, |a| + x) == Shifted(read(b, x), |a|)
    {
      ReadShift(crc, a, b, x);
      assert read(b, x) == ReadAt(crc, b, x);
      assert read(buf, |a| + x) == ReadAt(crc, a + b, |a| + x);
    }
  }

  lemma {:induction false} ParseRest(crc: Crc, a: seq<byte>, b: seq<byte>)
    ensures ParseFrom(RecordReader(crc), a + b, |a|) == Parse(crc, b)
  {
    var read, buf := RecordReader(crc), a + b;
    ReaderShift(crc, read, buf, a, b);
    ParseShift(read, buf, b, |a|, 0);
  }

  method ReadRecord(crc: Crc, buf: seq<byte>, cursor: nat) returns (r: Read)
    ensures r == RecordReader(crc)(buf, cursor)
  {
    if cursor + 1 + 8 + 4 + 4 > |buf| {
      return Stop;
    }
    var kind := buf[cursor];
    var group := U64At(buf, cursor + 1);
    var len := FromLE(buf[cursor + 9..cursor + 13]);
    var payloadEnd := cursor + 13 + len;
    var crcEnd := payloadEnd + 4;
    if crcEnd > |buf| {
      return Stop;
    }
    if FromLE(buf[payloadEnd..crcEnd]) != crc(buf[cursor..payloadEnd]) {
      return Stop;
    }
    return Got(Record(kind, group, buf[cursor + 13..payloadEnd]), crcEnd);
  }

  /** No record carries a group id above `h`, and some record carries `h`. */
  ghost predicate IsHighest(rs: seq<Record>, h: U64) {
    && (forall i :: 0 <= i < |rs| ==> rs[i].group <= h)
    && (h == 0 || exists i :: 0 <= i < |rs| && rs[i].group == h)
  }

  /** The cursor loop of the source. */
  method ParseRecords(crc: Crc, buf: seq<byte>) returns (records: seq<Record>)
    ensures records == Parse(crc, buf)
  {
    ghost var read := RecordReader(crc);
    records := [];
    var cursor := 0;
    while cursor < |buf|
      invariant cursor <= |buf|
      invariant ParseFrom(read, buf, 0) == records + ParseFrom(read, buf, cursor)
      decreases |buf| - cursor
    {
      var r := ReadRecord(crc, buf, cursor);
      if r.Stop? {
        return;
      }
      records := records + [r.record];
      cursor := r.end;
    }
    assert read(buf, cursor) == Stop;
  }

  method HighestGroup(records: seq<Record>) returns (highest: U64)
    ensures IsHighest(records, highest)
  {
    highest := 0;
    for i := 0 to |records|
      invariant forall j :: 0 <= j < i ==> records[j].group <= highest
      invariant highest == 0 || exists j :: 0 <= j < i && records[j].group == highest
    {
      if records[i].group > highest {
        highest := records[i].group;
      }
    }
  }

  /** One whole record in front is read back, whatever follows. */
  lemma {:induction false} ParseOne(crc: Crc, r: Record, rest: seq<byte>)
    requires ShortPayload(r)
    ensures Parse(crc, EncodeRecord(crc, r) + rest) == [r] + Parse(crc, rest)
  {
    var b := EncodeRecord(crc, r);
    HeaderFields(crc, r, rest);
    U32RoundTrip(|r.payload|);
    U64RoundTrip(r.group);
    U32RoundTrip(crc(Body(r)));
    assert ReadAt(crc, b + rest, 0) == Got(r, |b|);
    ParseRest(crc, b, rest);
  }

  lemma {:induction false} HeaderFields(crc: Crc, r: Record, rest: seq<byte>)
    requires ShortPayload(r)
    ensures var buf, len := EncodeRecord(crc, r) + rest, |r.payload|;
            && buf[0] == r.kind && buf[1..9] == ToLE(r.group, 8) && buf[9..13] == ToLE(len, 4)
            && buf[13..13 + len] == r.payload && buf[..13 + len] == Body(r)
            && buf[13 + len..17 + len] == ToLE(crc(Body(r)), 4) && buf[17 + len..] == rest
  {
    var buf, len := EncodeRecord(crc, r) + rest, |r.payload|;
    assert buf == [r.kind] + (ToLE(r.group, 8) + (ToLE(len, 4) + (r.payload + (ToLE(crc(Body(r)), 4) + rest))));
    assert buf[..13 + len] == Body(r);
  }

  /** A record that is cut off anywhere is not read at all, whatever the checksum. */
  lemma {:induction false} ParseTorn(crc: Crc, r: Record, k: nat)
    requires ShortPayload(r) && k < |EncodeRecord(crc, r)|
    ensures Parse(crc, EncodeRecord(crc, r)[..k]) == []
  {
    if 17 <= k {
      var buf := EncodeRecord(crc, r)[..k];
      HeaderFields(crc, r, []);
      assert EncodeRecord(crc, r) + [] == EncodeRecord(crc, r);
      assert buf[9..13] == EncodeRecord(crc, r)[9..13];
      U32RoundTrip(|r.payload|);
    }
  }

  /** The number of records of `rs` that lie wholly within the first `k` bytes. */
  ghost function WholeRecords(crc: Crc, rs: seq<Record>, k: nat): (n: nat)
    requires AllShort(rs)
    ensures n <= |rs|
  {
    if rs == [] || k < |EncodeRecord(crc, rs[0])| then 0
    else 1 + WholeRecords(crc, rs[1..], k - |EncodeRecord(crc, rs[0])|)
  }

  lemma {:induction false} ParsePrefixStep(crc: Crc, r: Record, rest: seq<byte>, k: nat)
    requires ShortPayload(r) && k <= |EncodeRecord(crc, r)| + |rest|
    ensures var b := EncodeRecord(crc, r);
            Parse(crc, (b + rest)[..k]) == if k < |b| then [] else [r] + Parse(crc, rest[..k - |b|])
  {
    var b := EncodeRecord(crc, r);
    if k < |b| {
      assert (b + rest)[..k] == b[..k];
      ParseTorn(crc, r, k);
    } else {
      assert (b + rest)[..k] == b + rest[..k - |b|];
      ParseOne(crc, r, rest[..k - |b|]);
    }
  }

  /** Any byte prefix of a log parses to the records it holds whole. */
  lemma {:induction false} ParsePrefix(crc: Crc, rs: seq<Record>, k: nat)
    requires AllShort(rs) && k <= |EncodeAll(crc, rs)|
    ensures Parse(crc, EncodeAll(crc, rs)[..k]) == rs[..WholeRecords(crc, rs, k)]
    decreases |rs|
  {
    if rs != [] {
      var n := |EncodeRecord(crc, rs[0])|;
      ParsePrefixStep(crc, rs[0], EncodeAll(crc, rs[1..]), k);
      if n <= k {
        ParsePrefix(crc, rs[1..], k - n);
        FirstRecords(rs, WholeRecords(crc, rs[1..], k - n));
      }
    }
  }

  lemma {:induction false} FirstRecords(rs: seq<Record>, w: nat)
    requires rs != [] && w < |rs|
    ensures rs[..1 + w] == [rs[0]] + rs[1..][..w]
  {
  }

  // ---------------------------------------------------------------- what is read lies there

  /** The bytes `x` lie at position `c`. */
  ghost predicate Lies(buf: seq<byte>, c: nat, x: seq<byte>) {
    c + |x| <= |buf| && buf[c..c + |x|] == x
  }

  /** The fields read at `c` are those of the record, its checksum included. */
  lemma {:induction false} GotLies(crc: Crc, buf: seq<byte>, c: nat)
    requires ReadAt(crc, buf, c).Got?
    ensures var g := ReadAt(crc, buf, c);
            ShortPayload(g.record) && Lies(buf, c, EncodeRecord(crc, g.record)) && g.end == c + |EncodeRecord(crc, g.record)|
  {
    var r, e := ReadAt(crc, buf, c).record, c + 13 + FromLE(buf[c + 9..c + 13]);
    FromLEBound(buf[c + 9..c + 13]);
    PowersOf256();
    LEInverse(buf[c + 1..c + 9]);
    LEInverse(buf[c + 9..c + 13]);
    LEInverse(buf[e..e + 4]);
    BodyLies(buf, c, e, r);
    assert buf[c..e + 4] == buf[c..e] + buf[e..e + 4];
  }

  lemma {:induction false} BodyLies(buf: seq<byte>, c: nat, e: nat, r: Record)
    requires c + 13 <= e <= |buf| && r.kind == buf[c] && ShortPayload(r) && r.payload == buf[c + 13..e]
    requires ToLE(r.group, 8) == buf[c + 1..c + 9] && ToLE(|r.payload|, 4) == buf[c + 9..c + 13]
    ensures Body(r) == buf[c..e]
  {
    assert [buf[c]] == buf[c..c + 1];
    assert buf[c..c + 1] + buf[c + 1..c + 9] + buf[c + 9..c + 13] + buf[c + 13..e] == buf[c..e];
  }

  /** A record that lies at `c`, checksum included, is read there. */
  lemma {:induction false} LiesGot(crc: Crc, buf: seq<byte>, c: nat, r: Record)
    requires ShortPayload(r) && Lies(buf, c, EncodeRecord(crc, r))
    ensures ReadAt(crc, buf, c) == Got(r, c + |EncodeRecord(crc, r)|)
  {
    var b := EncodeRecord(crc, r);
    var rest := buf[c + |b|..];
    assert buf == buf[..c] + (b + rest);
    RecordInFront(crc, r, rest);
    ReadShift(crc, buf[..c], b + rest, 0);
  }

  lemma {:induction false} RecordInFront(crc: Crc, r: Record, rest: seq<byte>)
    requires ShortPayload(r)
    ensures ReadAt(crc, EncodeRecord(crc, r) + rest, 0) == Got(r, |EncodeRecord(crc, r)|)
  {
    HeaderFields(crc, r, rest);
    U32RoundTrip(|r.payload|);
    U64RoundTrip(r.group);
    U32RoundTrip(crc(Body(r)));
  }

  /** At every position of every buffer, a record is read exactly when it lies there whole, with
      its checksum; damaged or cut off, nothing is. */
  lemma {:induction false} ReadExact(crc: Crc, buf: seq<byte>, c: nat, r: Record, end: nat)
    ensures ReadAt(crc, buf, c) == Got(r, end) <==> ShortPayload(r) && Lies(buf, c, EncodeRecord(crc, r)) && end == c + |EncodeRecord(crc, r)|
  {
    if ReadAt(crc, buf, c) == Got(r, end) {
      GotLies(crc, buf, c);
    }
    if ShortPayload(r) && Lies(buf, c, EncodeRecord(crc, r)) {
      LiesGot(crc, buf, c, r);
    }
  }

  /** A whole sequence of records in front is read back. */
  lemma {:induction false} ParseAll(crc: Crc, rs: seq<Record>, rest: seq<byte>)
    requires AllShort(rs)
    ensures Parse(crc, EncodeAll(crc, rs) + rest) == rs + Parse(crc, rest)
    decreases |rs|
  {
    if rs == [] {
      assert EncodeAll(crc, rs) + rest == rest;
    } else {
      var b, tail := EncodeRecord(crc, rs[0]), EncodeAll(crc, rs[1..]);
      assert EncodeAll(crc, rs) + rest == b + (tail + rest);
      ParseOne(crc, rs[0], tail + rest);
      ParseAll(crc, rs[1..], rest);
      assert rs == [rs[0]] + rs[1..];
    }
  }

  lemma {:induction false} EncodeSplit(crc: Crc, a: seq<Record>, b: seq<Record>)
    requires AllShort(a) && AllShort(b)
    ensures EncodeAll(crc, a + b) == EncodeAll(crc, a) + EncodeAll(crc, b)
    decreases |a|
  {
    if a == [] {
      assert a + b == b;
    } else {
      assert (a + b)[1..] == a[1..] + b;
      EncodeSplit(crc, a[1..], b);
    }
  }

  /** What the reader finds at a position lies there, and it goes on behind it. */
  ghost predicate ReadsLying(read: Reader, crc: Crc, buf: seq<byte>) {
    forall c: nat :: read(buf, c).Got? ==>
      && ShortPayload(read(buf, c).record) && Lies(buf, c, EncodeRecord(crc, read(buf, c).record))
      && read(buf, c).end == c + |EncodeRecord(crc, read(buf, c).record)|
  }

  lemma {:induction false} ReaderLies(crc: Crc, buf: seq<byte>)
    ensures ReadsLying(RecordReader(crc), crc, buf)
  {
    forall c: nat | ReadAt(crc, buf, c).Got?
      ensures var g := ReadAt(crc, buf, c);
              ShortPayload(g.record) && Lies(buf, c, EncodeRecord(crc, g.record)) && g.end == c + |EncodeRecord(crc, g.record)|
    {
      GotLies(crc, buf, c);
    }
  }

  lemma {:induction false} FromLies(read: Reader, crc: Crc, buf: seq<byte>, c: nat)
    requires ReadsLying(read, crc, buf) && c <= |buf|
    ensures AllShort(ParseFrom(read, buf, c)) && Lies(buf, c, EncodeAll(crc, ParseFrom(read, buf, c)))
    decreases |buf| - c
  {
    var g := read(buf, c);
    if g.Got? && c < g.end <= |buf| {
      FromLies(read, crc, buf, g.end);
      var rs := ParseFrom(read, buf, c);
      assert rs[1..] == ParseFrom(read, buf, g.end);
      LiesTwice(buf, c, EncodeRecord(crc, g.record), EncodeAll(crc, rs[1..]));
    }
  }

  lemma {:induction false} LiesTwice(buf: seq<byte>, c: nat, x: seq<byte>, y: seq<byte>)
    requires Lies(buf, c, x) && Lies(buf, c + |x|, y)
    ensures Lies(buf, c, x + y)
  {
    assert buf[c..c + |x| + |y|] == buf[c..c + |x|] + buf[c + |x|..c + |x| + |y|];
  }

  /** What is read lies encoded at the start of the buffer, checksums included. */
  lemma {:induction false} ParseLies(crc: Crc, buf: seq<byte>)
    ensures AllShort(Parse(crc, buf)) && EncodeAll(crc, Parse(crc, buf)) <= buf
  {
    ReaderLies(crc, buf);
    FromLies(RecordReader(crc), crc, buf, 0);
  }

  /** Reading stops exactly where no whole record lies any more: the records that can be read off
      the front of a buffer, of any bytes at all, are those whose encoding, checksums included, is
      a prefix of it. */
  lemma {:induction false} ParseExact(crc: Crc, buf: seq<byte>, rs: seq<Record>)
    ensures rs <= Parse(crc, buf) <==> AllShort(rs) && EncodeAll(crc, rs) <= buf
  {
    var all := Parse(crc, buf);
    ParseLies(crc, buf);
    if AllShort(rs) && EncodeAll(crc, rs) <= buf {
      var rest := buf[|EncodeAll(crc, rs)|..];
      assert buf == EncodeAll(crc, rs) + rest;
      ParseAll(crc, rs, rest);
    }
    if rs <= all {
      assert all == rs + all[|rs|..];
      EncodeSplit(crc, rs, all[|rs|..]);
    }
  }

  /** Seventeen bytes that are a COMMIT record but for the checksum, which is 0: unless that is
      what the checksum function gives, nothing is read. */
  lemma {:induction false} WrongChecksumStops(crc: Crc)
    requires crc([REC_COMMIT] + seq(12, _ => 0)) != 0
    ensures Parse(crc, [REC_COMMIT] + seq(16, _ => 0)) == []
  {
    var buf := [REC_COMMIT] + seq(16, _ => 0);
    assert ByteAt(0, 0) == 0 && ByteAt(0, 1) == 0 && ByteAt(0, 2) == 0 && ByteAt(0, 3) == 0;
    assert buf[9..13] == ToLE(0, 4) && buf[13..17] == ToLE(0, 4);
    U32RoundTrip(0);
    assert buf[0..13] == [REC_COMMIT] + seq(12, _ => 0);
    assert ReadAt(crc, buf, 0) == Stop;
  }
}
