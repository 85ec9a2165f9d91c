/** Leaf pages as bytes: what the in-place edits do to the entries that a page encodes. */
module LeafPages {
  import opened Results
  import opened BTreeShape
  import Bytes

  const LEAF: byte := 1

  const INTERNAL: byte := 0

  // ---------------------------------------------------------------- the format

  predicate KeyFits(e: Entry) {
    KEY_MIN <= e.key < KEY_END && |e.data| < U32_END
  }

  /** key | size of the row | row. */
  function EncodeEntry(e: Entry): (s: seq<byte>)
    requires KeyFits(e)
    ensures |s| == EntrySize(e)
  {
    Bytes.ToLE(Bytes.SignedBits(e.key), 8) + Bytes.ToLE(|e.data|, 4) + e.data
  }

  /** The entry of key 5 with one byte 7, in bytes. */
  lemma {:induction false} EntryInBytes()
    ensures EncodeEntry(Entry(5, [7])) == [5, 0, 0, 0, 0, 0, 0, 0, 1, 0, 0, 0, 7]
  {
    Bytes.SmallLE(5, 8);
    Bytes.SmallLE(1, 4);
  }

  ghost predicate AllFit(es: seq<Entry>) {
    forall i :: 0 <= i < |es| ==> KeyFits(es[i])
  }

  /** The entries from `i` up to `n`, one after another. */
  ghost function Encoded(es: seq<Entry>, i: nat, n: nat): (s: seq<byte>)
    requires AllFit(es) && i <= n <= |es|
    decreases n - i
  {
    if i == n then [] else Encoded(es, i, n - 1) + EncodeEntry(es[n - 1])
  }

  /** Where entry `i` starts, and for `i == |es|` where the page is free. */
  ghost function Offset(es: seq<Entry>, i: nat): nat
    requires AllFit(es) && i <= |es|
  {
    HEADER_SIZE + |Encoded(es, 0, i)|
  }

  /** The page `s` holds these entries behind its header; what lies behind the last one does
      not matter. */
  ghost predicate HoldsEntries(s: seq<byte>, es: seq<Entry>) {
    && |s| == PAGE_SIZE && AllFit(es) && Offset(es, |es|) <= PAGE_SIZE
    && s[HEADER_SIZE..Offset(es, |es|)] == Encoded(es, 0, |es|)
  }

  /** The bytes `s` are a leaf with the given parent field and entries. */
  ghost predicate IsLeafPage(s: seq<byte>, parent: nat, es: seq<Entry>) {
    HoldsEntries(s, es) && HasHeader(s, LEAF, |es|, parent)
  }

  /** kind | number of keys | parent. */
  ghost predicate HasHeader(s: seq<byte>, kind: byte, n: nat, parent: nat) {
    && |s| == PAGE_SIZE && parent < U32_END
    && s[0] == kind && s[1..3] == Bytes.ToLE(n, 2) && s[3..7] == Bytes.ToLE(parent, 4)
  }

  // ---------------------------------------------------------------- where entries lie

  lemma {:induction false} EncodedSplit(es: seq<Entry>, i: nat, j: nat, n: nat)
    requires AllFit(es) && i <= j <= n <= |es|
    ensures Encoded(es, i, n) == Encoded(es, i, j) + Encoded(es, j, n)
    decreases n - j
  {
    if j < n {
      EncodedSplit(es, i, j, n - 1);
    }
  }

  lemma {:induction false} SliceSame(es: seq<Entry>, i: nat, fs: seq<Entry>, j: nat, n: nat)
    requires i + n < |es| && j + n < |fs| && es[i..i + n + 1] == fs[j..j + n + 1]
    ensures es[i..i + n] == fs[j..j + n] && es[i + n] == fs[j + n]
  {
    var a, b := es[i..i + n], fs[j..j + n];
    forall k | 0 <= k < n
      ensures a[k] == b[k]
    {
      assert a[k] == es[i..i + n + 1][k] && b[k] == fs[j..j + n + 1][k];
    }
    assert es[i + n] == es[i..i + n + 1][n] && fs[j + n] == fs[j..j + n + 1][n];
  }

  lemma {:induction false} EncodedStep(es: seq<Entry>, i: nat, fs: seq<Entry>, j: nat, n: nat)
    requires AllFit(es) && AllFit(fs) && i + n < |es| && j + n < |fs|
    requires Encoded(es, i, i + n) == Encoded(fs, j, j + n) && es[i + n] == fs[j + n]
    ensures Encoded(es, i, i + n + 1) == Encoded(fs, j, j + n + 1)
  {
  }

  /** Equal entries have equal encodings, wherever they stand. */
  lemma {:induction false} EncodedSame(es: seq<Entry>, i: nat, fs: seq<Entry>, j: nat, n: nat)
    requires AllFit(es) && AllFit(fs) && i + n <= |es| && j + n <= |fs|
    requires es[i..i + n] == fs[j..j + n]
    ensures Encoded(es, i, i + n) == Encoded(fs, j, j + n)
    decreases n
  {
    if n != 0 {
      SliceSame(es, i, fs, j, n - 1);
      EncodedSame(es, i, fs, j, n - 1);
      EncodedStep(es, i, fs, j, n - 1);
    }
  }

  /** The size of the encoding is the size the tree reckons with. */
  lemma {:induction false} SizeIs(es: seq<Entry>, n: nat)
    requires AllFit(es) && n <= |es|
    ensures |Encoded(es, 0, n)| == EntryBytes(es[..n])
    decreases n
  {
    if n != 0 {
      SizeIs(es, n - 1);
      assert es[..n][..n - 1] == es[..n - 1];
    }
  }

  lemma {:induction false} FreeAt(es: seq<Entry>)
    requires AllFit(es)
    ensures Offset(es, |es|) == HEADER_SIZE + EntryBytes(es)
  {
    SizeIs(es, |es|);
    assert es[..|es|] == es;
  }

  /** Twelve bytes an entry at least, so the count fits its two bytes. */
  lemma {:induction false} CountFits(es: seq<Entry>, n: nat)
    requires AllFit(es) && n <= |es|
    ensures ENTRY_HEADER * n <= |Encoded(es, 0, n)|
    decreases n
  {
    if n != 0 {
      CountFits(es, n - 1);
    }
  }

  ghost predicate EntryLies(s: seq<byte>, off: nat, e: Entry) {
    && off + EntrySize(e) <= |s| && KeyFits(e)
    && s[off..off + 8] == Bytes.ToLE(Bytes.SignedBits(e.key), 8)
    && s[off + 8..off + 12] == Bytes.ToLE(|e.data|, 4)
    && s[off + 12..off + EntrySize(e)] == e.data
  }

  lemma {:induction false} SubSlice(s: seq<byte>, lo: nat, hi: nat, i: nat, j: nat)
    requires lo <= hi <= |s| && i <= j <= hi - lo
    ensures s[lo..hi][i..j] == s[lo + i..lo + j]
  {
    var x, y := s[lo..hi][i..j], s[lo + i..lo + j];
    assert |x| == |y| && forall k :: 0 <= k < |x| ==> x[k] == y[k];
  }

  lemma {:induction false} SliceOfParts(s: seq<byte>, h: nat, a: seq<byte>, m: seq<byte>, b: seq<byte>)
    requires h + |a| + |m| + |b| <= |s| && s[h..h + |a| + |m| + |b|] == a + m + b
    ensures s[h + |a|..h + |a| + |m|] == m
  {
    assert (a + m + b)[|a|..|a| + |m|] == m;
    SubSlice(s, h, h + |a| + |m| + |b|, |a|, |a| + |m|);
  }

  lemma {:induction false} EncodedLies(s: seq<byte>, off: nat, e: Entry)
    requires off + EntrySize(e) <= |s| && KeyFits(e) && s[off..off + EntrySize(e)] == EncodeEntry(e)
    ensures EntryLies(s, off, e)
  {
    var n := EntrySize(e);
    SubSlice(s, off, off + n, 0, 8);
    SubSlice(s, off, off + n, 8, 12);
    SubSlice(s, off, off + n, 12, n);
    var t := EncodeEntry(e);
    assert t[0..8] == Bytes.ToLE(Bytes.SignedBits(e.key), 8) && t[8..12] == Bytes.ToLE(|e.data|, 4) && t[12..n] == e.data;
  }

  /** Entry `i` lies at its offset, and the next one behind it. */
  lemma {:induction false} EntryAt(s: seq<byte>, es: seq<Entry>, i: nat)
    requires HoldsEntries(s, es) && i < |es|
    ensures Offset(es, i + 1) == Offset(es, i) + EntrySize(es[i]) <= Offset(es, |es|)
    ensures EntryLies(s, Offset(es, i), es[i])
  {
    EncodedSplit(es, 0, i + 1, |es|);
    var a, e, b := Encoded(es, 0, i), EncodeEntry(es[i]), Encoded(es, i + 1, |es|);
    assert Encoded(es, 0, i + 1) == a + e;
    SliceOfParts(s, HEADER_SIZE, a, e, b);
    EncodedLies(s, Offset(es, i), es[i]);
  }

  // ---------------------------------------------------------------- reading

  function ReadNumber(s: seq<byte>, off: nat, width: nat): nat
    requires off + width <= |s|
  {
    Bytes.FromLE(s[off..off + width])
  }

  lemma {:induction false} NumKeysRead(s: seq<byte>, parent: nat, es: seq<Entry>)
    requires IsLeafPage(s, parent, es)
    ensures ReadNumber(s, 1, 2) == |es| && ReadNumber(s, 3, 4) == parent
  {
    CountFits(es, |es|);
    HeaderRead(s, LEAF, |es|, parent);
  }

  lemma {:induction false} EntryRead(s: seq<byte>, off: nat, e: Entry)
    requires EntryLies(s, off, e)
    ensures Bytes.SignedOf(ReadNumber(s, off, 8)) == e.key && ReadNumber(s, off + 8, 4) == |e.data|
  {
    Bytes.U64RoundTrip(Bytes.SignedBits(e.key));
    Bytes.U32RoundTrip(|e.data|);
  }

  /** Where the first `n` entries end, going by their size fields; an error when they leave the page. */
  ghost function WalkTo(s: seq<byte>, n: nat): Result<nat>
    requires |s| == PAGE_SIZE
  {
    if n == 0 then Ok(HEADER_SIZE)
    else
      var before := WalkTo(s, n - 1);
      if before.Err? then before else NextEnd(s, before.value)
  }

  /** Where the entry that starts at `off` ends. */
  function NextEnd(s: seq<byte>, off: nat): Result<nat>
    requires |s| == PAGE_SIZE
  {
    if off + 12 > PAGE_SIZE then Err(Corruption)
    else
      var end := off + 12 + ReadNumber(s, off + 8, 4);
      if end > PAGE_SIZE then Err(Corruption) else Ok(end)
  }

  lemma {:induction false} WalkOverEntries(s: seq<byte>, es: seq<Entry>, i: nat)
    requires HoldsEntries(s, es) && i <= |es|
    ensures WalkTo(s, i) == Ok(Offset(es, i)) && Offset(es, i) <= Offset(es, |es|)
    decreases i
  {
    if i == 0 {
      EncodedSplit(es, 0, 0, |es|);
    } else {
      WalkOverEntries(s, es, i - 1);
      EntryAt(s, es, i - 1);
      EntryRead(s, Offset(es, i - 1), es[i - 1]);
    }
  }

  /** The entry at `off`, whatever the bytes are. */
  function EntryFrom(s: seq<byte>, off: nat): (e: Entry)
    requires off + 12 <= |s| && off + 12 + ReadNumber(s, off + 8, 4) <= |s|
    ensures |e.data| == ReadNumber(s, off + 8, 4)
  {
    Entry(Bytes.SignedOf(ReadNumber(s, off, 8)), s[off + 12..off + 12 + ReadNumber(s, off + 8, 4)])
  }

  lemma {:induction false} EntryFromLies(s: seq<byte>, off: nat)
    requires off + 12 <= |s| && off + 12 + ReadNumber(s, off + 8, 4) <= |s|
    ensures KeyFits(EntryFrom(s, off)) && s[off..off + EntrySize(EntryFrom(s, off))] == EncodeEntry(EntryFrom(s, off))
  {
    var e := EntryFrom(s, off);
    var k, n := s[off..off + 8], s[off + 8..off + 12];
    Bytes.FromLEBound(k);
    Bytes.FromLEBound(n);
    Bytes.PowersOf256();
    Bytes.LEInverse(k);
    Bytes.LEInverse(n);
    assert s[off..off + EntrySize(e)] == k + n + s[off + 12..off + EntrySize(e)];
  }

  /** A page on which the walk stays holds that many entries. */
  lemma {:induction false} WalkGivesEntries(s: seq<byte>, n: nat) returns (es: seq<Entry>)
    requires |s| == PAGE_SIZE && WalkTo(s, n).Ok?
    ensures |es| == n && HoldsEntries(s, es) && Offset(es, n) == WalkTo(s, n).value
    decreases n
  {
    if n == 0 {
      es := [];
    } else {
      var front := WalkGivesEntries(s, n - 1);
      var off := WalkTo(s, n - 1).value;
      var e := EntryFrom(s, off);
      EntryFromLies(s, off);
      es := front + [e];
      assert es[0..n - 1] == front[0..n - 1];
      EncodedSame(es, 0, front, 0, n - 1);
      SlicesJoin(s, HEADER_SIZE, off, WalkTo(s, n).value);
    }
  }

  lemma SlicesJoin(s: seq<byte>, a: nat, b: nat, c: nat)
    requires a <= b <= c <= |s|
    ensures s[a..c] == s[a..b] + s[b..c]
  {
  }

  /** One past the last byte in use by the first `n` entries; fails exactly on a page that does
      not hold `n` entries. */
  method FindDataEnd(a: array<byte>, n: nat) returns (r: Result<nat>)
    requires a.Length == PAGE_SIZE
    ensures forall es :: |es| == n && HoldsEntries(a[..], es) ==> r == Ok(Offset(es, n))
    ensures r.Ok? ==> exists es :: |es| == n && HoldsEntries(a[..], es)
  {
    ghost var s := a[..];
    r := WalkPage(a, n);
    forall es | |es| == n && HoldsEntries(s, es)
      ensures r == Ok(Offset(es, n))
    {
      WalkOverEntries(s, es, n);
    }
    if r.Ok? {
      ghost var es := WalkGivesEntries(s, n);
    }
  }

  method WalkPage(a: array<byte>, n: nat) returns (r: Result<nat>)
    requires a.Length == PAGE_SIZE
    ensures r == WalkTo(a[..], n)
  {
    ghost var s := a[..];
    var end := HEADER_SIZE;
    for i := 0 to n
      invariant WalkTo(s, i) == Ok(end)
    {
      var next := NextEnd(a[..], end);
      WalkStep(s, i, end, next);
      if next.Err? {
        WalkFails(s, i + 1, n, next);
        return next;
      }
      end := next.value;
    }
    return Ok(end);
  }

  lemma {:induction false} WalkStep(s: seq<byte>, i: nat, end: nat, next: Result<nat>)
    requires |s| == PAGE_SIZE && WalkTo(s, i) == Ok(end) && next == NextEnd(s, end)
    ensures WalkTo(s, i + 1) == next
  {
  }

  lemma {:induction false} WalkFails(s: seq<byte>, i: nat, n: nat, r: Result<nat>)
    requires |s| == PAGE_SIZE && i <= n && WalkTo(s, i) == r && r.Err?
    ensures WalkTo(s, n) == r
    decreases n
  {
    if i < n {
      WalkFails(s, i, n - 1, r);
    }
  }

  // ---------------------------------------------------------------- writing

  /** `s` with `bs` over the bytes from `off` on. */
  function Patched(s: seq<byte>, off: nat, bs: seq<byte>): (r: seq<byte>)
    requires off + |bs| <= |s|
    ensures |r| == |s|
  {
    s[..off] + bs + s[off + |bs|..]
  }

  method CopyInto(a: array<byte>, off: nat, bs: seq<byte>)
    requires off + |bs| <= a.Length
    modifies a
    ensures a[..] == Patched(old(a[..]), off, bs)
  {
    for i := 0 to |bs|
      invariant forall k :: 0 <= k < a.Length ==> a[k] == if off <= k < off + i then bs[k - off] else old(a[k])
    {
      a[off + i] := bs[i];
    }
  }

  /** Moves bytes within the page; source and target may overlap. */
  method CopyWithin(a: array<byte>, lo: nat, hi: nat, to: nat)
    requires lo <= hi <= a.Length && to + (hi - lo) <= a.Length
    modifies a
    ensures a[..] == Patched(old(a[..]), to, old(a[..])[lo..hi])
  {
    CopyInto(a, to, a[lo..hi]);
  }

  function WithHeader(s: seq<byte>, kind: byte, n: nat, parent: nat): seq<byte>
    requires HEADER_SIZE <= |s|
  {
    [kind] + Bytes.ToLE(n, 2) + Bytes.ToLE(parent, 4) + s[7..]
  }

  method SerializeHeader(a: array<byte>, kind: byte, n: nat, parent: nat)
    requires a.Length == PAGE_SIZE
    modifies a
    ensures a[..] == WithHeader(old(a[..]), kind, n, parent)
  {
    ghost var s := a[..];
    a[0] := kind;
    CopyInto(a, 1, Bytes.ToLE(n, 2));
    CopyInto(a, 3, Bytes.ToLE(parent, 4));
    assert a[..] == [kind] + Bytes.ToLE(n, 2) + Bytes.ToLE(parent, 4) + s[7..];
  }

  /** The header is there, and nothing behind it has changed. */
  lemma {:induction false} HeaderWritten(s: seq<byte>, kind: byte, n: nat, parent: nat)
    requires |s| == PAGE_SIZE && parent < U32_END
    ensures HasHeader(WithHeader(s, kind, n, parent), kind, n, parent)
    ensures forall lo, hi :: HEADER_SIZE <= lo <= hi <= PAGE_SIZE ==> WithHeader(s, kind, n, parent)[lo..hi] == s[lo..hi]
  {
    var r := WithHeader(s, kind, n, parent);
    assert r[1..3] == Bytes.ToLE(n, 2) && r[3..7] == Bytes.ToLE(parent, 4);
    forall lo, hi | HEADER_SIZE <= lo <= hi <= PAGE_SIZE
      ensures r[lo..hi] == s[lo..hi]
    {
      assert forall k :: lo <= k < hi ==> r[k] == s[k];
    }
  }

  /** The header reads back. */
  lemma {:induction false} HeaderRead(s: seq<byte>, kind: byte, n: nat, parent: nat)
    requires HasHeader(s, kind, n, parent) && n < 65536
    ensures ReadNumber(s, 1, 2) == n && ReadNumber(s, 3, 4) == parent
  {
    assert Bytes.Pow256(1) == 256 && Bytes.Pow256(2) == 65536;
    Bytes.LERoundTrip(n, 2);
    Bytes.U32RoundTrip(parent);
  }

  /** A header over encoded entries makes a leaf. */
  lemma {:induction false} HeaderMakesLeaf(s: seq<byte>, parent: nat, es: seq<Entry>)
    requires HoldsEntries(s, es) && parent < U32_END
    ensures IsLeafPage(WithHeader(s, LEAF, |es|, parent), parent, es)
  {
    HeaderWritten(s, LEAF, |es|, parent);
  }

  /** Patching behind the first part and writing into the gap. */
  lemma {:induction false} ShiftAndWrite(s: seq<byte>, h: nat, a: seq<byte>, b: seq<byte>, e: seq<byte>)
    requires h + |a| + |b| + |e| <= |s| && s[h..h + |a| + |b|] == a + b
    ensures var off, end := h + |a|, h + |a| + |b|;
            var moved := Patched(s, off + |e|, s[off..end]);
            Patched(moved, off, e)[h..end + |e|] == a + e + b
  {
    var off, end := h + |a|, h + |a| + |b|;
    var moved := Patched(s, off + |e|, s[off..end]);
    var r := Patched(moved, off, e);
    SubSlice(s, h, end, 0, |a|);
    SubSlice(s, h, end, |a|, |a| + |b|);
    assert (a + b)[0..|a|] == a && (a + b)[|a|..] == b;
    assert r == s[..off] + e + b + s[end + |e|..];
    assert r[h..off] == s[h..off];
    assert r[h..end + |e|] == r[h..off] + r[off..off + |e|] + r[off + |e|..end + |e|];
    assert r[off..off + |e|] == e && r[off + |e|..end + |e|] == b;
  }

  /** Writing key, size and row in turn writes the encoded entry. */
  method WriteEntry(p: array<byte>, off: nat, e: Entry)
    requires KeyFits(e) && off + EntrySize(e) <= p.Length
    modifies p
    ensures p[..] == Patched(old(p[..]), off, EncodeEntry(e))
  {
    ghost var s := p[..];
    CopyInto(p, off, Bytes.ToLE(Bytes.SignedBits(e.key), 8));
    CopyInto(p, off + 8, Bytes.ToLE(|e.data|, 4));
    CopyInto(p, off + 12, e.data);
    PatchThrice(s, off, Bytes.ToLE(Bytes.SignedBits(e.key), 8), Bytes.ToLE(|e.data|, 4), e.data);
  }

  lemma {:induction false} PatchThrice(s: seq<byte>, off: nat, a: seq<byte>, b: seq<byte>, c: seq<byte>)
    requires off + |a| + |b| + |c| <= |s|
    ensures Patched(Patched(Patched(s, off, a), off + |a|, b), off + |a| + |b|, c) == Patched(s, off, a + b + c)
  {
    PatchTwice(s, off, a, b);
    PatchTwice(s, off, a + b, c);
  }

  lemma {:induction false} PatchTwice(s: seq<byte>, off: nat, a: seq<byte>, b: seq<byte>)
    requires off + |a| + |b| <= |s|
    ensures Patched(Patched(s, off, a), off + |a|, b) == Patched(s, off, a + b)
  {
    var x, y := Patched(Patched(s, off, a), off + |a|, b), Patched(s, off, a + b);
    assert forall k :: 0 <= k < |s| ==> x[k] == y[k];
  }
}
