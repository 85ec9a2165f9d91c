/** In-place edits of leaf pages, each the matching edit of the list of entries. */
module LeafEdits {
  import opened Results
  import opened BTreeShape
  import opened LeafPages
  import Bytes
  import Limits = BTreeLimits

  /** The entries of a page, read one after another. */
  method ReadEntries(a: array<byte>, ghost parent: nat, ghost es: seq<Entry>) returns (up: nat, found: seq<Entry>)
    requires IsLeafPage(a[..], parent, es)
    ensures up == parent && found == es
  {
    ghost var s := a[..];
    NumKeysRead(s, parent, es);
    var n := ReadNumber(a[..], 1, 2);
    up := ReadNumber(a[..], 3, 4);
    found := [];
    var off := HEADER_SIZE;
    for i := 0 to n
      invariant off == Offset(es, i) && found == es[..i]
    {
      EntryAt(s, es, i);
      EntryRead(s, off, es[i]);
      var size := ReadNumber(a[..], off + 8, 4);
      found := found + [Entry(Bytes.SignedOf(ReadNumber(a[..], off, 8)), a[off + 12..off + 12 + size])];
      off := off + 12 + size;
    }
    assert es[..|es|] == es;
  }

  /** A page encodes one list of entries only. */
  lemma {:induction false} LeafPageUnique(s: seq<byte>, parent: nat, es: seq<Entry>, parent': nat, es': seq<Entry>)
    requires IsLeafPage(s, parent, es) && IsLeafPage(s, parent', es')
    ensures parent == parent' && es == es'
  {
    NumKeysRead(s, parent, es);
    NumKeysRead(s, parent', es');
    SameEntries(s, es, es', |es|);
    assert es[..|es|] == es && es'[..|es|] == es';
  }

  lemma {:induction false} SameEntries(s: seq<byte>, es: seq<Entry>, es': seq<Entry>, i: nat)
    requires HoldsEntries(s, es) && HoldsEntries(s, es') && i <= |es| == |es'|
    ensures es[..i] == es'[..i] && Offset(es, i) == Offset(es', i)
  {
    if i != 0 {
      var k := i - 1;
      SameEntries(s, es, es', k);
      EntryAt(s, es, k);
      EntryAt(s, es', k);
      SameEntry(s, Offset(es, k), es[k], es'[k]);
      assert es[..i] == es[..k] + [es[k]] && es'[..i] == es'[..k] + [es'[k]];
    }
  }

  lemma {:induction false} SameEntry(s: seq<byte>, off: nat, e: Entry, e': Entry)
    requires EntryLies(s, off, e) && EntryLies(s, off, e')
    ensures e == e'
  {
    EntryRead(s, off, e);
    EntryRead(s, off, e');
  }

  // ---------------------------------------------------------------- one entry in

  lemma {:induction false} FitInserted(es: seq<Entry>, j: nat, e: Entry)
    requires AllFit(es) && KeyFits(e) && j <= |es|
    ensures var fs := InsertAt(es, j, e);
            AllFit(fs) && Encoded(fs, 0, |fs|) == Encoded(es, 0, j) + EncodeEntry(e) + Encoded(es, j, |es|)
  {
    var fs := InsertAt(es, j, e);
    EncodedSplit(fs, 0, j + 1, |fs|);
    assert fs[j] == e;
    assert fs[0..j] == es[0..j] && fs[j + 1..|fs|] == es[j..|es|];
    EncodedSame(fs, 0, es, 0, j);
    EncodedSame(fs, j + 1, es, j, |es| - j);
  }

  lemma {:induction false} RoomMade(s: seq<byte>, es: seq<Entry>, j: nat, e: Entry)
    requires HoldsEntries(s, es) && j <= |es| && KeyFits(e) && Offset(es, |es|) + EntrySize(e) <= PAGE_SIZE
    ensures Offset(es, j) <= Offset(es, |es|)
    ensures var off, end := Offset(es, j), Offset(es, |es|);
            HoldsEntries(Patched(Patched(s, off + EntrySize(e), s[off..end]), off, EncodeEntry(e)), InsertAt(es, j, e))
  {
    EncodedSplit(es, 0, j, |es|);
    ShiftAndWrite(s, HEADER_SIZE, Encoded(es, 0, j), Encoded(es, j, |es|), EncodeEntry(e));
    FitInserted(es, j, e);
  }

  /** Where the entries of a well-formed page end. */
  method DataEnd(p: array<byte>, n: nat, ghost es: seq<Entry>) returns (end: nat)
    requires HoldsEntries(p[..], es) && n == |es|
    ensures end == Offset(es, |es|)
  {
    var found := FindDataEnd(p, n);
    assert found == Ok(Offset(es, n));
    end := found.value;
  }

  /** Writes the header of a page that already holds its entries. */
  method SealLeaf(p: array<byte>, n: nat, parent: nat, ghost es: seq<Entry>)
    requires HoldsEntries(p[..], es) && n == |es| && parent < U32_END
    modifies p
    ensures IsLeafPage(p[..], parent, es)
  {
    HeaderMakesLeaf(p[..], parent, es);
    SerializeHeader(p, LEAF, n, parent);
  }

  /** Shifts what lies behind `off` and writes the entry into the gap. */
  method PutEntry(p: array<byte>, off: nat, end: nat, e: Entry, ghost es: seq<Entry>, ghost j: nat)
    requires HoldsEntries(p[..], es) && j <= |es| && KeyFits(e) && Offset(es, |es|) + EntrySize(e) <= PAGE_SIZE
    requires off == Offset(es, j) && end == Offset(es, |es|)
    modifies p
    ensures HoldsEntries(p[..], InsertAt(es, j, e))
  {
    ghost var s := p[..];
    RoomMade(s, es, j, e);
    if off < end {
      CopyWithin(p, off, end, off + 12 + |e.data|);
    } else {
      assert Patched(s, off + EntrySize(e), s[off..end]) == s;
    }
    WriteEntry(p, off, e);
  }

  /** The offset of the first entry with a larger key. */
  method FindPlace(p: array<byte>, n: nat, key: int, ghost es: seq<Entry>) returns (off: nat, ghost j: nat)
    requires HoldsEntries(p[..], es) && n == |es|
    ensures PlaceFor(es, key, j) && off == Offset(es, j)
  {
    ghost var s := p[..];
    off := HEADER_SIZE;
    j := 0;
    for i := 0 to n
      invariant j == i && off == Offset(es, i) && forall x :: 0 <= x < i ==> es[x].key <= key
    {
      EntryAt(s, es, i);
      EntryRead(s, off, es[i]);
      if key < Bytes.SignedOf(ReadNumber(p[..], off, 8)) {
        return;
      }
      off := off + 12 + ReadNumber(p[..], off + 8, 4);
      j := j + 1;
    }
  }

  /** The tree takes a leaf to have room exactly when its page does. */
  lemma {:induction false} RoomMeans(es: seq<Entry>, e: Entry)
    requires AllFit(es) && KeyFits(e)
    ensures Limits.HasRoom(es, e.data) <==> Offset(es, |es|) + EntrySize(e) <= PAGE_SIZE
  {
    FreeAt(es);
  }

  /** Inserts an entry in key order, if the page has room for it. */
  method InsertEntry(p: array<byte>, e: Entry, ghost parent: nat, ghost es: seq<Entry>) returns (done: bool, ghost j: nat)
    requires IsLeafPage(p[..], parent, es) && KeyFits(e)
    modifies p
    ensures PlaceFor(es, e.key, j) && (done <==> Offset(es, |es|) + EntrySize(e) <= PAGE_SIZE)
    ensures done ==> IsLeafPage(p[..], parent, InsertAt(es, j, e))
    ensures !done ==> p[..] == old(p[..])
  {
    NumKeysRead(p[..], parent, es);
    var n, up := ReadNumber(p[..], 1, 2), ReadNumber(p[..], 3, 4);
    var off;
    off, j := FindPlace(p, n, e.key, es);
    var end := DataEnd(p, n, es);
    if end + 12 + |e.data| > PAGE_SIZE {
      return false, j;
    }
    PutEntry(p, off, end, e, es, j);
    SealLeaf(p, n + 1, up, InsertAt(es, j, e));
    done := true;
  }

  // ---------------------------------------------------------------- one entry out

  lemma {:induction false} FitRemoved(es: seq<Entry>, x: nat)
    requires AllFit(es) && x < |es|
    ensures var fs := RemoveAt(es, x);
            AllFit(fs) && Encoded(fs, 0, |fs|) == Encoded(es, 0, x) + Encoded(es, x + 1, |es|)
  {
    var fs := RemoveAt(es, x);
    RemovedSlices(es, x);
    EncodedSplit(fs, 0, x, |fs|);
    EncodedSame(fs, 0, es, 0, x);
    EncodedSame(fs, x, es, x + 1, |es| - x - 1);
  }

  lemma {:induction false} RemovedSlices(es: seq<Entry>, x: nat)
    requires x < |es|
    ensures var fs := RemoveAt(es, x); |fs| == |es| - 1 && fs[0..x] == es[0..x] && fs[x..|fs|] == es[x + 1..|es|]
  {
  }

  lemma {:induction false} GapClosed(s: seq<byte>, es: seq<Entry>, x: nat)
    requires HoldsEntries(s, es) && x < |es|
    ensures Offset(es, x) + EntrySize(es[x]) <= Offset(es, |es|)
    ensures var off, end := Offset(es, x), Offset(es, |es|);
            HoldsEntries(Patched(s, off, s[off + EntrySize(es[x])..end]), RemoveAt(es, x))
  {
    EncodedSplit(es, 0, x + 1, |es|);
    CloseGap(s, HEADER_SIZE, Encoded(es, 0, x), EncodeEntry(es[x]), Encoded(es, x + 1, |es|));
    FitRemoved(es, x);
  }

  lemma {:induction false} CloseGap(s: seq<byte>, h: nat, a: seq<byte>, e: seq<byte>, b: seq<byte>)
    requires h + |a| + |e| + |b| <= |s| && s[h..h + |a| + |e| + |b|] == a + e + b
    ensures var off, end := h + |a|, h + |a| + |e| + |b|;
            Patched(s, off, s[off + |e|..end])[h..h + |a| + |b|] == a + b
  {
    var off, end := h + |a|, h + |a| + |e| + |b|;
    SubSlice(s, h, end, 0, |a|);
    SubSlice(s, h, end, |a| + |e|, |a| + |e| + |b|);
    assert (a + e + b)[0..|a|] == a && (a + e + b)[|a| + |e|..] == b;
    var r := Patched(s, off, b);
    assert r[h..off + |b|] == r[h..off] + r[off..off + |b|];
    assert r[h..off] == s[h..off] && r[off..off + |b|] == b;
  }

  method CloseUp(p: array<byte>, off: nat, size: nat, end: nat)
    requires off + size <= end <= p.Length
    modifies p
    ensures p[..] == Patched(old(p[..]), off, old(p[..])[off + size..end])
  {
    if off + size < end {
      CopyWithin(p, off + size, end, off);
    } else {
      assert Patched(p[..], off, p[..][off + size..end]) == p[..];
    }
  }

  /** Closes the gap that entry `x` leaves. */
  method TakeOut(p: array<byte>, off: nat, size: nat, n: nat, ghost es: seq<Entry>, ghost x: nat)
    requires HoldsEntries(p[..], es) && x < |es| == n
    requires off == Offset(es, x) && size == EntrySize(es[x])
    modifies p
    ensures HoldsEntries(p[..], RemoveAt(es, x))
  {
    var end := DataEnd(p, n, es);
    GapClosed(p[..], es, x);
    CloseUp(p, off, size, end);
  }

  method DropEntry(p: array<byte>, off: nat, size: nat, n: nat, up: nat, ghost es: seq<Entry>, ghost x: nat)
    requires HoldsEntries(p[..], es) && x < |es| == n && up < U32_END
    requires off == Offset(es, x) && size == EntrySize(es[x])
    modifies p
    ensures IsLeafPage(p[..], up, RemoveAt(es, x))
  {
    TakeOut(p, off, size, n, es, x);
    ghost var fs := RemoveAt(es, x);
    assert |fs| == n - 1;
    SealLeaf(p, n - 1, up, fs);
  }

  /** Removes the first entry with the given key, if there is one. */
  method DeleteEntry(p: array<byte>, key: int, ghost parent: nat, ghost es: seq<Entry>) returns (found: bool, ghost x: nat)
    requires IsLeafPage(p[..], parent, es)
    modifies p
    ensures found <==> HasKey(es, key)
    ensures found ==> x < |es| && es[x].key == key && IsLeafPage(p[..], parent, RemoveAt(es, x))
    ensures !found ==> p[..] == old(p[..])
  {
    ghost var s := p[..];
    NumKeysRead(s, parent, es);
    var n, up := ReadNumber(p[..], 1, 2), ReadNumber(p[..], 3, 4);
    var off := HEADER_SIZE;
    x := 0;
    for i := 0 to n
      invariant x == i && off == Offset(es, i) && p[..] == s
      invariant forall y :: 0 <= y < i ==> es[y].key != key
    {
      EntryAt(s, es, i);
      EntryRead(s, off, es[i]);
      var size := 12 + ReadNumber(p[..], off + 8, 4);
      if Bytes.SignedOf(ReadNumber(p[..], off, 8)) == key {
        DropEntry(p, off, size, n, up, es, i);
        return true, i;
      }
      off := off + size;
      x := x + 1;
    }
    found := false;
  }

  // ---------------------------------------------------------------- borrowing

  /** Entry number `index`, and where it starts. */
  method ReadEntryAt(p: array<byte>, index: nat, ghost es: seq<Entry>) returns (e: Entry, off: nat)
    requires HoldsEntries(p[..], es) && index < |es|
    ensures e == es[index] && off == Offset(es, index)
  {
    ghost var s := p[..];
    off := HEADER_SIZE;
    for i := 0 to index
      invariant off == Offset(es, i)
    {
      EntryAt(s, es, i);
      EntryRead(s, off, es[i]);
      off := off + 12 + ReadNumber(p[..], off + 8, 4);
    }
    EntryAt(s, es, index);
    EntryRead(s, off, es[index]);
    var size := ReadNumber(p[..], off + 8, 4);
    e := Entry(Bytes.SignedOf(ReadNumber(p[..], off, 8)), p[off + 12..off + 12 + size]);
  }

  /** The sibling gives its nearest entry, and the page takes it if it has room. */
  method Borrow(p: array<byte>, sib: array<byte>, isLeft: bool, ghost up: nat, ghost es: seq<Entry>, ghost sup: nat, ghost se: seq<Entry>) returns (done: bool)
    requires p != sib && IsLeafPage(p[..], up, es) && IsLeafPage(sib[..], sup, se) && se != []
    modifies p, sib
    ensures var x := if isLeft then |se| - 1 else 0;
            && IsLeafPage(sib[..], sup, RemoveAt(se, x))
            && (done <==> Offset(es, |es|) + EntrySize(se[x]) <= PAGE_SIZE)
            && (done ==> IsLeafPage(p[..], up, if isLeft then [se[x]] + es else es + [se[x]]))
            && (!done ==> IsLeafPage(p[..], up, es))
  {
    NumKeysRead(sib[..], sup, se);
    var m, sparent := ReadNumber(sib[..], 1, 2), ReadNumber(sib[..], 3, 4);
    var x := if isLeft then m - 1 else 0;
    var e, from := ReadEntryAt(sib, x, se);
    DropEntry(sib, from, 12 + |e.data|, m, sparent, se, x);
    done := Receive(p, e, isLeft, up, es);
  }

  method Receive(p: array<byte>, e: Entry, first: bool, ghost up: nat, ghost es: seq<Entry>) returns (done: bool)
    requires IsLeafPage(p[..], up, es) && KeyFits(e)
    modifies p
    ensures done <==> Offset(es, |es|) + EntrySize(e) <= PAGE_SIZE
    ensures done ==> IsLeafPage(p[..], up, if first then [e] + es else es + [e])
    ensures !done ==> p[..] == old(p[..])
  {
    NumKeysRead(p[..], up, es);
    var n, parent := ReadNumber(p[..], 1, 2), ReadNumber(p[..], 3, 4);
    var end := DataEnd(p, n, es);
    if end + 12 + |e.data| > PAGE_SIZE {
      return false;
    }
    InsertedAtEnds(es, e);
    PutEntry(p, if first then HEADER_SIZE else end, end, e, es, if first then 0 else |es|);
    SealLeaf(p, n + 1, parent, InsertAt(es, if first then 0 else |es|, e));
    done := true;
  }

  lemma {:induction false} InsertedAtEnds(es: seq<Entry>, e: Entry)
    ensures InsertAt(es, 0, e) == [e] + es && InsertAt(es, |es|, e) == es + [e]
  {
  }

  // ---------------------------------------------------------------- many entries

  /** Appends entries until one does not fit: the loop of a leaf merge. */
  method AppendAll(p: array<byte>, more: seq<Entry>, ghost parent: nat, ghost es: seq<Entry>) returns (done: bool)
    requires IsLeafPage(p[..], parent, es) && AllFit(more)
    modifies p
    ensures AllFit(es + more) && (done <==> Offset(es + more, |es + more|) <= PAGE_SIZE)
    ensures done ==> IsLeafPage(p[..], parent, es + more)
  {
    NumKeysRead(p[..], parent, es);
    var n, up := ReadNumber(p[..], 1, 2), ReadNumber(p[..], 3, 4);
    assert es + more[..0] == es;
    for i := 0 to |more|
      invariant HoldsEntries(p[..], es + more[..i]) && n == |es| + i
    {
      ghost var cur := es + more[..i];
      var end := DataEnd(p, n, cur);
      AppendedOffset(es, more, i);
      if end + 12 + |more[i].data| > PAGE_SIZE {
        return false;
      }
      InsertedLast(es, more, i);
      PutEntry(p, end, end, more[i], cur, |cur|);
      n := n + 1;
    }
    assert more[..|more|] == more;
    SealLeaf(p, n, up, es + more);
    done := true;
  }

  lemma {:induction false} InsertedLast(es: seq<Entry>, more: seq<Entry>, i: nat)
    requires i < |more|
    ensures var cur := es + more[..i];
            InsertAt(cur, |cur|, more[i]) == es + more[..i + 1]
  {
    assert more[..i + 1] == more[..i] + [more[i]];
  }

  lemma {:induction false} AppendedOffset(es: seq<Entry>, more: seq<Entry>, i: nat)
    requires AllFit(es) && AllFit(more) && i < |more|
    ensures AllFit(es + more[..i]) && AllFit(es + more)
    ensures Offset(es + more[..i], |es| + i) + EntrySize(more[i]) <= Offset(es + more, |es + more|)
  {
    var all, cur := es + more, es + more[..i];
    assert all[0..|cur|] == cur[0..|cur|];
    EncodedSame(all, 0, cur, 0, |cur|);
    EncodedSplit(all, 0, |cur| + 1, |all|);
    assert all[|cur|] == more[i];
  }

  /** A new page with the given entries: either half of a leaf split. */
  method WriteLeaf(parent: nat, es: seq<Entry>) returns (p: array<byte>)
    requires AllFit(es) && Offset(es, |es|) <= PAGE_SIZE && parent < U32_END
    ensures fresh(p) && IsLeafPage(p[..], parent, es)
  {
    p := new byte[PAGE_SIZE](_ => 0);
    SealLeaf(p, 0, parent, []);
    assert [] + es == es;
    var _ := AppendAll(p, es, parent, []);
  }
}
