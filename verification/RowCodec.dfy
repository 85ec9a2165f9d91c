/** Rows as bytes: writing one, reading it back, and which buffers hold one. */
module RowCodec {
  import opened Results
  import opened Bytes
  import opened Rows

  /** The bytes `x` lie at `off`. */
  ghost predicate At(buf: seq<byte>, off: nat, x: seq<byte>) {
    off + |x| <= |buf| && buf[off..off + |x|] == x
  }

  lemma {:induction false} AtSum(buf: seq<byte>, off: nat, x: seq<byte>, y: seq<byte>)
    ensures At(buf, off, x + y) <==> At(buf, off, x) && At(buf, off + |x|, y)
  {
    if off + |x| + |y| <= |buf| {
      var m := buf[off..off + |x| + |y|];
      assert m[..|x|] == buf[off..off + |x|] && m[|x|..] == buf[off + |x|..off + |x| + |y|];
      assert (x + y)[..|x|] == x && (x + y)[|x|..] == y;
      assert m == m[..|x|] + m[|x|..];
    }
  }

  lemma {:induction false} AtTag(buf: seq<byte>, off: nat, tag: byte, x: seq<byte>)
    ensures At(buf, off, [tag] + x) <==> off < |buf| && buf[off] == tag && At(buf, off + 1, x)
  {
    AtSum(buf, off, [tag], x);
    if off < |buf| {
      assert buf[off..off + 1] == [buf[off]];
    }
  }

  // ---------------------------------------------------------------- writing

  ghost function EncodeParts(ps: seq<U32>, n: nat): (s: seq<byte>)
    requires n <= |ps|
    ensures |s| == 4 * n
  {
    if n == 0 then [] else EncodeParts(ps, n - 1) + ToLE(ps[n - 1], 4)
  }

  function Tag(v: Value): byte {
    match v
    case Null => 0
    case Integer(_) => 1
    case Float(_) => 2
    case Real(_) => 2
    case Text(_) => 3
    case Blob(_) => 4
    case Vector(_) => 5
  }

  /** What follows the tag; what varies in length is preceded by its length. */
  ghost function Payload(v: Value): seq<byte> {
    match v
    case Null => []
    case Integer(i) => ToLE(SignedBits(i), 8)
    case Float(bits) => ToLE(bits, 8)
    case Real(bits) => ToLE(bits, 8)
    case Text(t) => ToLE(|t|, 4) + t
    case Blob(b) => ToLE(|b|, 4) + b
    case Vector(ps) => ToLE(|ps|, 4) + EncodeParts(ps, |ps|)
  }

  ghost function EncodeValue(v: Value): seq<byte> {
    [Tag(v)] + Payload(v)
  }

  type Encoder = Value -> seq<byte>

  ghost function Encoding(): Encoder {
    v => EncodeValue(v)
  }

  ghost function EncodeValues(enc: Encoder, row: Row): seq<byte>
    decreases |row|
  {
    if row == [] then [] else enc(row[0]) + EncodeValues(enc, row[1..])
  }

  ghost function EncodeRow(row: Row): seq<byte> {
    ToLE(|row|, 4) + EncodeValues(Encoding(), row)
  }

  lemma {:induction false} EncodeSnoc(enc: Encoder, row: Row, v: Value)
    ensures EncodeValues(enc, row + [v]) == EncodeValues(enc, row) + enc(v)
    decreases |row|
  {
    if row == [] {
      assert row + [v] == [v] && [v][1..] == [];
      assert EncodeValues(enc, []) == [];
    } else {
      assert (row + [v])[1..] == row[1..] + [v];
      EncodeSnoc(enc, row[1..], v);
    }
  }

  /** Values in bytes: a tag, then numbers in eight bytes and anything longer behind its length. */
  lemma {:induction false} NumberBytes()
    ensures EncodeValue(Null) == [0] && EncodeValue(Integer(258)) == [1, 2, 1, 0, 0, 0, 0, 0, 0]
    ensures EncodeValue(Float(5)) == EncodeValue(Real(5)) == [2, 5, 0, 0, 0, 0, 0, 0, 0]
  {
    SmallLE(1, 7);
    SmallLE(5, 8);
    assert ToLE(258, 8) == [2] + ToLE(1, 7);
  }

  lemma {:induction false} StringBytes()
    ensures EncodeValue(Text([104, 105])) == [3, 2, 0, 0, 0, 104, 105] && EncodeValue(Blob([7])) == [4, 1, 0, 0, 0, 7]
  {
    SmallLE(1, 4);
    SmallLE(2, 4);
  }

  lemma {:induction false} VectorBytes()
    ensures EncodeValue(Vector([5])) == [5, 1, 0, 0, 0, 5, 0, 0, 0]
  {
    SmallLE(1, 4);
    SmallLE(5, 4);
    assert EncodeParts([5], 1) == EncodeParts([5], 0) + ToLE(5, 4);
  }

  /** A row is the number of its values, then each value in its order. */
  lemma {:induction false} RowBytes(v: Value, w: Value)
    ensures EncodeRow([v, w]) == [2, 0, 0, 0] + EncodeValue(v) + EncodeValue(w)
  {
    SmallLE(2, 4);
    var enc := Encoding();
    EncodeSnoc(enc, [v], w);
    EncodeSnoc(enc, [], v);
    assert [v] + [w] == [v, w] && [] + [v] == [v];
  }

  method WriteParts(ps: seq<U32>) returns (s: seq<byte>)
    ensures s == EncodeParts(ps, |ps|)
  {
    s := [];
    for i := 0 to |ps|
      invariant s == EncodeParts(ps, i)
    {
      s := s + ToLE(ps[i], 4);
    }
  }

  method WriteValue(v: Value) returns (s: seq<byte>)
    ensures s == Encoding()(v)
  {
    s := [Tag(v)];
    match v {
      case Null => s := s + [];
      case Integer(k) => s := s + ToLE(SignedBits(k), 8);
      case Float(bits) => s := s + ToLE(bits, 8);
      case Real(bits) => s := s + ToLE(bits, 8);
      case Text(t) => s := s + (ToLE(|t|, 4) + t);
      case Blob(b) => s := s + (ToLE(|b|, 4) + b);
      case Vector(ps) =>
        var parts := WriteParts(ps);
        s := s + (ToLE(|ps|, 4) + parts);
    }
  }

  method SerializeRow(row: Row) returns (buf: seq<byte>)
    ensures buf == EncodeRow(row)
  {
    var head := ToLE(|row|, 4);
    var body := WriteValues(row, Encoding());
    buf := head + body;
  }

  method WriteValues(row: Row, ghost enc: Encoder) returns (body: seq<byte>)
    requires enc == Encoding()
    ensures body == EncodeValues(enc, row)
  {
    body := [];
    for i := 0 to |row|
      invariant body == EncodeValues(enc, row[..i])
    {
      var s := WriteValue(row[i]);
      EncodeSnoc(enc, row[..i], row[i]);
      assert row[..i + 1] == row[..i] + [row[i]];
      body := body + s;
    }
    assert row[..|row|] == row;
  }

  // ---------------------------------------------------------------- reading

  function WordAt(buf: seq<byte>, off: nat): Result<(U64, nat)> {
    if off + 8 > |buf| then Err(Corruption) else Ok((U64At(buf, off), off + 8))
  }

  function ChunkAt(buf: seq<byte>, off: nat): Result<(seq<byte>, nat)> {
    if off + 4 > |buf| then Err(Corruption)
    else
      var end := off + 4 + U32At(buf, off);
      if end > |buf| then Err(Corruption) else Ok((buf[off + 4..end], end))
  }

  function PartsFrom(buf: seq<byte>, off: nat, n: nat): (ps: seq<U32>)
    requires off + 4 * n <= |buf|
    ensures |ps| == n && forall i :: 0 <= i < n ==> ps[i] == U32At(buf, off + 4 * i)
  {
    seq(n, i requires 0 <= i < n => U32At(buf, off + 4 * i))
  }

  function VectorAt(buf: seq<byte>, off: nat): Result<(seq<U32>, nat)> {
    if off + 4 > |buf| then Err(Corruption)
    else
      var n := U32At(buf, off);
      var end := off + 4 + 4 * n;
      if end > |buf| then Err(Corruption) else Ok((PartsFrom(buf, off + 4, n), end))
  }

  /** One value at `off`, and where the next begins; a buffer that ends too soon, an unknown tag
      and text that is not UTF-8 are errors. */
  function DecodeValue(utf8: seq<byte> -> bool, buf: seq<byte>, off: nat): Result<(Value, nat)> {
    if off >= |buf| then Err(Corruption)
    else
      var tag := buf[off];
      if tag == 0 then Ok((Null, off + 1))
      else if tag == 1 || tag == 2 then DecodeNumber(tag, WordAt(buf, off + 1))
      else if tag == 3 || tag == 4 then DecodeBytes(utf8, tag, ChunkAt(buf, off + 1))
      else if tag == 5 then DecodeVector(VectorAt(buf, off + 1))
      else Err(Corruption)
  }

  function DecodeNumber(tag: byte, w: Result<(U64, nat)>): Result<(Value, nat)> {
    if w.Err? then Err(Corruption) else Ok((if tag == 1 then Integer(SignedOf(w.value.0)) else Float(w.value.0), w.value.1))
  }

  function DecodeBytes(utf8: seq<byte> -> bool, tag: byte, c: Result<(seq<byte>, nat)>): Result<(Value, nat)> {
    if c.Err? || (tag == 3 && !utf8(c.value.0)) then Err(Corruption)
    else Ok((if tag == 3 then Text(c.value.0) else Blob(c.value.0), c.value.1))
  }

  function DecodeVector(p: Result<(seq<U32>, nat)>): Result<(Value, nat)> {
    if p.Err? then Err(Corruption) else Ok((Vector(p.value.0), p.value.1))
  }

  // ---------------------------------------------------------------- what is read is what lies there

  lemma {:induction false} U32Lies(buf: seq<byte>, off: nat, n: U32)
    ensures At(buf, off, ToLE(n, 4)) <==> off + 4 <= |buf| && U32At(buf, off) == n
  {
    U32RoundTrip(n);
    if off + 4 <= |buf| {
      LEInverse(buf[off..off + 4]);
    }
  }

  lemma {:induction false} WordLies(buf: seq<byte>, off: nat, n: U64)
    ensures At(buf, off, ToLE(n, 8)) <==> WordAt(buf, off) == Ok((n, off + 8))
  {
    U64RoundTrip(n);
    if off + 8 <= |buf| {
      LEInverse(buf[off..off + 8]);
    }
  }

  lemma {:induction false} ChunkLies(buf: seq<byte>, off: nat, t: seq<byte>)
    requires |t| < 0x1_0000_0000
    ensures At(buf, off, ToLE(|t|, 4) + t) <==> ChunkAt(buf, off) == Ok((t, off + 4 + |t|))
  {
    AtSum(buf, off, ToLE(|t|, 4), t);
    U32Lies(buf, off, |t|);
  }

  lemma {:induction false} PartsLie(buf: seq<byte>, off: nat, ps: seq<U32>, n: nat)
    requires n <= |ps|
    ensures At(buf, off, EncodeParts(ps, n)) <==> off + 4 * n <= |buf| && forall i :: 0 <= i < n ==> U32At(buf, off + 4 * i) == ps[i]
    decreases n
  {
    if n != 0 {
      PartsLie(buf, off, ps, n - 1);
      AtSum(buf, off, EncodeParts(ps, n - 1), ToLE(ps[n - 1], 4));
      U32Lies(buf, off + 4 * (n - 1), ps[n - 1]);
    }
  }

  lemma {:induction false} VectorLies(buf: seq<byte>, off: nat, ps: seq<U32>)
    requires |ps| < 0x1_0000_0000
    ensures At(buf, off, ToLE(|ps|, 4) + EncodeParts(ps, |ps|)) <==> VectorAt(buf, off) == Ok((ps, off + 4 + 4 * |ps|))
  {
    AtSum(buf, off, ToLE(|ps|, 4), EncodeParts(ps, |ps|));
    U32Lies(buf, off, |ps|);
    PartsLie(buf, off + 4, ps, |ps|);
    if off + 4 + 4 * |ps| <= |buf| {
      var got := PartsFrom(buf, off + 4, |ps|);
      assert got == ps <==> forall i :: 0 <= i < |ps| ==> got[i] == ps[i];
    }
  }

  /** A value that can be stored and that reading can give: a Real reads back as a Float. */
  ghost predicate Plain(utf8: seq<byte> -> bool, v: Value) {
    match v
    case Real(_) => false
    case Text(t) => utf8(t) && |t| < 0x1_0000_0000
    case Blob(b) => |b| < 0x1_0000_0000
    case Vector(ps) => |ps| < 0x1_0000_0000
    case _ => true
  }

  /** What is read bears its tag. */
  lemma {:induction false} TagRead(utf8: seq<byte> -> bool, buf: seq<byte>, off: nat)
    ensures var d := DecodeValue(utf8, buf, off);
            d.Ok? ==> off < |buf| && buf[off] == Tag(d.value.0)
  {
  }

  /** `d`, read at `off`, bears its tag; behind the tag of `v` it is `v` exactly when the payload
      `x` lies there. */
  ghost predicate ReadsPayload(buf: seq<byte>, off: nat, v: Value, x: seq<byte>, d: Result<(Value, nat)>) {
    && (d.Ok? ==> off < |buf| && buf[off] == Tag(d.value.0))
    && (off < |buf| && buf[off] == Tag(v) ==> (At(buf, off + 1, x) <==> d == Ok((v, off + 1 + |x|))))
  }

  lemma {:induction false} TagLies(buf: seq<byte>, off: nat, v: Value, x: seq<byte>, d: Result<(Value, nat)>)
    requires ReadsPayload(buf, off, v, x, d)
    ensures At(buf, off, [Tag(v)] + x) <==> d == Ok((v, off + |[Tag(v)] + x|))
  {
    AtTag(buf, off, Tag(v), x);
  }

  lemma {:induction false} NullLies(utf8: seq<byte> -> bool, buf: seq<byte>, off: nat)
    ensures ReadsPayload(buf, off, Null, [], DecodeValue(utf8, buf, off))
  {
    TagRead(utf8, buf, off);
  }

  lemma {:induction false} NumberLies(utf8: seq<byte> -> bool, buf: seq<byte>, off: nat, v: Value, n: U64)
    requires (v.Integer? && n == SignedBits(v.i)) || (v.Float? && n == v.bits)
    ensures ReadsPayload(buf, off, v, ToLE(n, 8), DecodeValue(utf8, buf, off))
  {
    TagRead(utf8, buf, off);
    WordLies(buf, off + 1, n);
    NumberFrom(Tag(v), WordAt(buf, off + 1), v, n, off + 9);
  }

  lemma {:induction false} NumberFrom(tag: byte, w: Result<(U64, nat)>, v: Value, n: U64, end: nat)
    requires (v.Integer? && tag == 1 && n == SignedBits(v.i)) || (v.Float? && tag == 2 && n == v.bits)
    ensures DecodeNumber(tag, w) == Ok((v, end)) <==> w == Ok((n, end))
  {
  }

  lemma {:induction false} BytesLie(utf8: seq<byte> -> bool, buf: seq<byte>, off: nat, v: Value, t: seq<byte>, x: seq<byte>)
    requires (v == Text(t) && utf8(t)) || v == Blob(t)
    requires At(buf, off + 1, x) <==> ChunkAt(buf, off + 1) == Ok((t, off + 1 + |x|))
    ensures ReadsPayload(buf, off, v, x, DecodeValue(utf8, buf, off))
  {
    TagRead(utf8, buf, off);
    BytesFrom(utf8, ChunkAt(buf, off + 1), t, off + 1 + |x|);
  }

  lemma {:induction false} BytesFrom(utf8: seq<byte> -> bool, c: Result<(seq<byte>, nat)>, t: seq<byte>, end: nat)
    ensures utf8(t) ==> (DecodeBytes(utf8, 3, c) == Ok((Text(t), end)) <==> c == Ok((t, end)))
    ensures DecodeBytes(utf8, 4, c) == Ok((Blob(t), end)) <==> c == Ok((t, end))
  {
  }

  lemma {:induction false} PartsValueLies(utf8: seq<byte> -> bool, buf: seq<byte>, off: nat, ps: seq<U32>, x: seq<byte>)
    requires At(buf, off + 1, x) <==> VectorAt(buf, off + 1) == Ok((ps, off + 1 + |x|))
    ensures ReadsPayload(buf, off, Vector(ps), x, DecodeValue(utf8, buf, off))
  {
    TagRead(utf8, buf, off);
  }

  lemma {:induction false} ChunkValueLies(utf8: seq<byte> -> bool, buf: seq<byte>, off: nat, v: Value, t: seq<byte>)
    requires |t| < 0x1_0000_0000 && ((v == Text(t) && utf8(t)) || v == Blob(t))
    ensures ReadsPayload(buf, off, v, ToLE(|t|, 4) + t, DecodeValue(utf8, buf, off))
  {
    ChunkLies(buf, off + 1, t);
    BytesLie(utf8, buf, off, v, t, ToLE(|t|, 4) + t);
  }

  lemma {:induction false} VectorValueLies(utf8: seq<byte> -> bool, buf: seq<byte>, off: nat, ps: seq<U32>)
    requires |ps| < 0x1_0000_0000
    ensures ReadsPayload(buf, off, Vector(ps), ToLE(|ps|, 4) + EncodeParts(ps, |ps|), DecodeValue(utf8, buf, off))
  {
    VectorLies(buf, off + 1, ps);
    PartsValueLies(utf8, buf, off, ps, ToLE(|ps|, 4) + EncodeParts(ps, |ps|));
  }

  lemma {:induction false} PayloadLies(utf8: seq<byte> -> bool, buf: seq<byte>, off: nat, v: Value)
    requires Plain(utf8, v)
    ensures ReadsPayload(buf, off, v, Payload(v), DecodeValue(utf8, buf, off))
  {
    match v
    case Null => NullLies(utf8, buf, off);
    case Text(t) => ChunkValueLies(utf8, buf, off, v, t);
    case Blob(b) => ChunkValueLies(utf8, buf, off, v, b);
    case Vector(ps) => VectorValueLies(utf8, buf, off, ps);
    case Integer(i) => NumberLies(utf8, buf, off, v, SignedBits(i));
    case Float(bits) => NumberLies(utf8, buf, off, v, bits);
  }

  /** `d`, read at `off`, is `v` exactly when the encoding `e` of `v` lies there. */
  ghost predicate ReadsIff(buf: seq<byte>, off: nat, v: Value, e: seq<byte>, d: Result<(Value, nat)>) {
    At(buf, off, e) <==> d == Ok((v, off + |e|))
  }

  /** A plain value is read at `off` exactly when its encoding lies there. */
  lemma {:induction false} ValueLies(utf8: seq<byte> -> bool, buf: seq<byte>, off: nat, v: Value)
    requires Plain(utf8, v)
    ensures ReadsIff(buf, off, v, EncodeValue(v), DecodeValue(utf8, buf, off))
  {
    PayloadLies(utf8, buf, off, v);
    TagLies(buf, off, v, Payload(v), DecodeValue(utf8, buf, off));
  }

  /** Only plain values are read. */
  lemma {:induction false} DecodedPlain(utf8: seq<byte> -> bool, buf: seq<byte>, off: nat)
    requires DecodeValue(utf8, buf, off).Ok?
    ensures var r := DecodeValue(utf8, buf, off).value;
            Plain(utf8, r.0) && r.1 == off + |EncodeValue(r.0)|
  {
  }

  // ---------------------------------------------------------------- rows

  type Decoder = (seq<byte>, nat) -> Result<(Value, nat)>

  type Kind = Value -> bool

  ghost function Decoding(utf8: seq<byte> -> bool): Decoder {
    (buf: seq<byte>, off: nat) => DecodeValue(utf8, buf, off)
  }

  ghost function PlainKind(utf8: seq<byte> -> bool): Kind {
    v => Plain(utf8, v)
  }

  ghost function DecodeFrom(dec: Decoder, buf: seq<byte>, off: nat, n: nat): Result<Row>
    decreases n
  {
    if n == 0 then Ok([])
    else
      var v := dec(buf, off);
      if v.Err? then Err(Corruption)
      else
        var rest := DecodeFrom(dec, buf, v.value.1, n - 1);
        if rest.Err? then Err(Corruption) else Ok([v.value.0] + rest.value)
  }

  /** At this place the decoder reads exactly the values of that kind that lie there. */
  ghost predicate ReadsHere(enc: Encoder, dec: Decoder, kind: Kind, buf: seq<byte>, off: nat) {
    && (forall v {:trigger enc(v)} :: kind(v) ==> ReadsIff(buf, off, v, enc(v), dec(buf, off)))
    && (dec(buf, off).Ok? ==> kind(dec(buf, off).value.0) && dec(buf, off).value.1 == off + |enc(dec(buf, off).value.0)|)
  }

  ghost predicate Agree(enc: Encoder, dec: Decoder, kind: Kind, buf: seq<byte>) {
    forall off: nat :: ReadsHere(enc, dec, kind, buf, off)
  }

  lemma {:induction false} CodecGives(utf8: seq<byte> -> bool, buf: seq<byte>, off: nat)
    ensures var d := Decoding(utf8)(buf, off);
            d.Ok? ==> PlainKind(utf8)(d.value.0) && d.value.1 == off + |Encoding()(d.value.0)|
  {
    if DecodeValue(utf8, buf, off).Ok? {
      DecodedPlain(utf8, buf, off);
    }
  }

  lemma {:induction false} CodecReadsHere(utf8: seq<byte> -> bool, buf: seq<byte>, off: nat)
    ensures ReadsHere(Encoding(), Decoding(utf8), PlainKind(utf8), buf, off)
  {
    forall v | Plain(utf8, v)
      ensures ReadsIff(buf, off, v, EncodeValue(v), DecodeValue(utf8, buf, off))
    {
      ValueLies(utf8, buf, off, v);
    }
    CodecGives(utf8, buf, off);
  }

  lemma {:induction false} CodecAgrees(utf8: seq<byte> -> bool, buf: seq<byte>)
    ensures Agree(Encoding(), Decoding(utf8), PlainKind(utf8), buf)
  {
    forall off: nat
      ensures ReadsHere(Encoding(), Decoding(utf8), PlainKind(utf8), buf, off)
    {
      CodecReadsHere(utf8, buf, off);
    }
  }

  ghost predicate AllOf(kind: Kind, row: Row) {
    forall i :: 0 <= i < |row| ==> kind(row[i])
  }

  lemma {:induction false} ValuesLie(enc: Encoder, dec: Decoder, kind: Kind, buf: seq<byte>, off: nat, row: Row)
    requires Agree(enc, dec, kind, buf) && AllOf(kind, row) && At(buf, off, EncodeValues(enc, row))
    ensures DecodeFrom(dec, buf, off, |row|) == Ok(row)
    decreases |row|
  {
    if row != [] {
      AtSum(buf, off, enc(row[0]), EncodeValues(enc, row[1..]));
      assert kind(row[0]) && ReadsHere(enc, dec, kind, buf, off);
      ValuesLie(enc, dec, kind, buf, off + |enc(row[0])|, row[1..]);
      assert row == [row[0]] + row[1..];
    }
  }

  lemma {:induction false} ValuesRead(enc: Encoder, dec: Decoder, kind: Kind, buf: seq<byte>, off: nat, n: nat)
    requires Agree(enc, dec, kind, buf) && off <= |buf|
    ensures var r := DecodeFrom(dec, buf, off, n);
            r.Ok? ==> |r.value| == n && AllOf(kind, r.value) && At(buf, off, EncodeValues(enc, r.value))
    decreases n
  {
    var r := DecodeFrom(dec, buf, off, n);
    if n != 0 && r.Ok? {
      var v := dec(buf, off).value;
      assert ReadsHere(enc, dec, kind, buf, off);
      ValuesRead(enc, dec, kind, buf, v.1, n - 1);
      assert r.value[1..] == DecodeFrom(dec, buf, v.1, n - 1).value;
      AtSum(buf, off, enc(v.0), EncodeValues(enc, r.value[1..]));
    }
  }

  function ReadBack(v: Value): Value {
    if v.Real? then Float(v.bits) else v
  }

  /** A row as it comes back: every value the same, but a Real as the Float of the same bits. */
  function RowBack(row: Row): (r: Row)
    ensures |r| == |row| && forall i :: 0 <= i < |row| ==> r[i] == ReadBack(row[i])
  {
    seq(|row|, i requires 0 <= i < |row| => ReadBack(row[i]))
  }

  lemma {:induction false} SameBytes(row: Row)
    ensures EncodeValues(Encoding(), RowBack(row)) == EncodeValues(Encoding(), row)
    decreases |row|
  {
    if row != [] {
      SameBytes(row[1..]);
      assert RowBack(row)[1..] == RowBack(row[1..]);
      SameValue(row[0]);
    }
  }

  lemma {:induction false} SameValue(v: Value)
    ensures Encoding()(ReadBack(v)) == Encoding()(v)
  {
  }

  ghost predicate Storable(utf8: seq<byte> -> bool, row: Row) {
    |row| < 0x1_0000_0000 && AllOf(PlainKind(utf8), RowBack(row))
  }

  /** The buffer starts with the encoding of `row`, whatever follows. */
  ghost predicate Holds(buf: seq<byte>, row: Row) {
    At(buf, 0, EncodeRow(row))
  }

  lemma {:induction false} HoldsParts(buf: seq<byte>, row: Row)
    requires |row| < 0x1_0000_0000
    ensures Holds(buf, row) <==> 4 <= |buf| && U32At(buf, 0) == |row| && At(buf, 4, EncodeValues(Encoding(), row))
  {
    AtSum(buf, 0, ToLE(|row|, 4), EncodeValues(Encoding(), row));
    U32Lies(buf, 0, |row|);
  }

  /** What a buffer says, read value by value. */
  ghost function DecodeRow(dec: Decoder, buf: seq<byte>): Result<Row> {
    if |buf| < 4 then Err(Corruption) else DecodeFrom(dec, buf, 4, U32At(buf, 0))
  }

  /** A row is read exactly from the buffers that start with its encoding. */
  lemma {:induction false} RowRoundTrip(utf8: seq<byte> -> bool, buf: seq<byte>, row: Row)
    requires Storable(utf8, row)
    ensures Holds(buf, row) <==> DecodeRow(Decoding(utf8), buf) == Ok(RowBack(row))
  {
    var enc, dec, kind, back := Encoding(), Decoding(utf8), PlainKind(utf8), RowBack(row);
    CodecAgrees(utf8, buf);
    SameBytes(row);
    HoldsParts(buf, row);
    if 4 <= |buf| {
      ValuesRead(enc, dec, kind, buf, 4, U32At(buf, 0));
      if Holds(buf, row) {
        ValuesLie(enc, dec, kind, buf, 4, back);
      }
    }
  }

  /** Nothing else is read: a buffer that gives a row holds that row. */
  lemma {:induction false} RowReadHolds(utf8: seq<byte> -> bool, buf: seq<byte>)
    ensures var r := DecodeRow(Decoding(utf8), buf);
            r.Ok? ==> Storable(utf8, r.value) && Holds(buf, r.value)
  {
    if 4 <= |buf| {
      CodecAgrees(utf8, buf);
      ValuesRead(Encoding(), Decoding(utf8), PlainKind(utf8), buf, 4, U32At(buf, 0));
      var r := DecodeRow(Decoding(utf8), buf);
      if r.Ok? {
        PlainBack(utf8, r.value);
        HoldsParts(buf, r.value);
      }
    }
  }

  lemma {:induction false} PlainBack(utf8: seq<byte> -> bool, row: Row)
    requires AllOf(PlainKind(utf8), row)
    ensures RowBack(row) == row
  {
    forall i | 0 <= i < |row|
      ensures ReadBack(row[i]) == row[i]
    {
      assert PlainKind(utf8)(row[i]);
    }
  }

  /** Reads the row that the buffer starts with; fails exactly when it starts with none. */
  method DeserializeRow(utf8: seq<byte> -> bool, buf: seq<byte>) returns (r: Result<Row>)
    ensures r.Ok? ==> Storable(utf8, r.value) && Holds(buf, r.value)
    ensures forall row :: Storable(utf8, row) && Holds(buf, row) ==> r == Ok(RowBack(row))
  {
    RowReadHolds(utf8, buf);
    forall row | Storable(utf8, row) && Holds(buf, row)
      ensures DecodeRow(Decoding(utf8), buf) == Ok(RowBack(row))
    {
      RowRoundTrip(utf8, buf, row);
    }
    r := ReadRow(utf8, buf, Decoding(utf8));
  }

  method ReadValue(utf8: seq<byte> -> bool, buf: seq<byte>, off: nat) returns (v: Result<(Value, nat)>)
    ensures v == Decoding(utf8)(buf, off)
  {
    v := DecodeValue(utf8, buf, off);
  }

  function Prepended(row: Row, rest: Result<Row>): Result<Row> {
    if rest.Err? then rest else Ok(row + rest.value)
  }

  method ReadRow(utf8: seq<byte> -> bool, buf: seq<byte>, ghost dec: Decoder) returns (r: Result<Row>)
    requires dec == Decoding(utf8)
    ensures r == DecodeRow(dec, buf)
  {
    if |buf| < 4 {
      return Err(Corruption);
    }
    var n, off, values := U32At(buf, 0), 4, [];
    NothingYet(DecodeFrom(dec, buf, off, n));
    for i := 0 to n
      invariant DecodeRow(dec, buf) == Prepended(values, DecodeFrom(dec, buf, off, n - i))
    {
      var v := ReadValue(utf8, buf, off);
      if v.Err? {
        return Err(Corruption);
      }
      ReadStep(dec, buf, off, n - i, values);
      values := values + [v.value.0];
      off := v.value.1;
    }
    assert values + [] == values;
    return Ok(values);
  }

  lemma {:induction false} NothingYet(r: Result<Row>)
    ensures Prepended([], r) == r
  {
    if r.Ok? {
      assert [] + r.value == r.value;
    }
  }

  lemma {:induction false} ReadStep(dec: Decoder, buf: seq<byte>, off: nat, n: nat, values: Row)
    requires 0 < n && dec(buf, off).Ok?
    ensures var v := dec(buf, off).value;
            Prepended(values, DecodeFrom(dec, buf, off, n)) == Prepended(values + [v.0], DecodeFrom(dec, buf, v.1, n - 1))
  {
    var v := dec(buf, off).value;
    var rest := DecodeFrom(dec, buf, v.1, n - 1);
    if rest.Ok? {
      assert values + ([v.0] + rest.value) == values + [v.0] + rest.value;
    }
  }
}
