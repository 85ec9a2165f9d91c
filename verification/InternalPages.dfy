/** Internal pages as bytes: the first child, then keys and children in turn. */
module InternalPages {
  import opened BTreeShape
  import opened LeafPages
  import LeafEdits
  import Bytes

  /** Keys are signed and children unsigned 64-bit numbers. */
  predicate Typed(keys: seq<int>, children: seq<PageId>) {
    && (forall i :: 0 <= i < |keys| ==> KEY_MIN <= keys[i] < KEY_END)
    && (forall i :: 0 <= i < |children| ==> children[i] < 0x1_0000_0000_0000_0000)
  }

  predicate Fits(keys: seq<int>, children: seq<PageId>) {
    Typed(keys, children) && |children| == |keys| + 1 && KeyAt(|keys|) <= PAGE_SIZE
  }

  function KeyAt(i: nat): nat {
    HEADER_SIZE + 8 + 16 * i
  }

  ghost predicate PairLies(s: seq<byte>, i: nat, key: int, child: PageId)
    requires KEY_MIN <= key < KEY_END && KeyAt(i) + 16 <= |s|
  {
    s[KeyAt(i)..KeyAt(i) + 8] == Bytes.ToLE(Bytes.SignedBits(key), 8) && s[KeyAt(i) + 8..KeyAt(i) + 16] == Bytes.ToLE(child, 8)
  }

  /** The first `n` keys, and the children around them, are on the page. */
  ghost predicate HoldsPairs(s: seq<byte>, keys: seq<int>, children: seq<PageId>, n: nat)
    requires Fits(keys, children) && n <= |keys|
  {
    && |s| == PAGE_SIZE && s[HEADER_SIZE..HEADER_SIZE + 8] == Bytes.ToLE(children[0], 8)
    && forall i :: 0 <= i < n ==> PairLies(s, i, keys[i], children[i + 1])
  }

  ghost predicate AllPairs(s: seq<byte>, keys: seq<int>, children: seq<PageId>) {
    Fits(keys, children) && HoldsPairs(s, keys, children, |keys|)
  }

  /** Writing behind a slice leaves it. */
  lemma SliceKept(s: seq<byte>, off: nat, bs: seq<byte>, lo: nat, hi: nat)
    requires off + |bs| <= |s| && lo <= hi <= off
    ensures Patched(s, off, bs)[lo..hi] == s[lo..hi]
  {
  }

  lemma SliceWritten(s: seq<byte>, off: nat, bs: seq<byte>)
    requires off + |bs| <= |s|
    ensures Patched(s, off, bs)[off..off + |bs|] == bs
  {
  }

  lemma PairWritten(s: seq<byte>, keys: seq<int>, children: seq<PageId>, i: nat, s1: seq<byte>, s2: seq<byte>)
    requires Fits(keys, children) && i < |keys| && HoldsPairs(s, keys, children, i)
    requires s1 == Patched(s, KeyAt(i), Bytes.ToLE(Bytes.SignedBits(keys[i]), 8)) && s2 == Patched(s1, KeyAt(i) + 8, Bytes.ToLE(children[i + 1], 8))
    ensures HoldsPairs(s2, keys, children, i + 1)
  {
    SliceWritten(s, KeyAt(i), Bytes.ToLE(Bytes.SignedBits(keys[i]), 8));
    SliceWritten(s1, KeyAt(i) + 8, Bytes.ToLE(children[i + 1], 8));
    SliceKept(s1, KeyAt(i) + 8, Bytes.ToLE(children[i + 1], 8), KeyAt(i), KeyAt(i) + 8);
    BothKept(s, s1, s2, i, Bytes.ToLE(Bytes.SignedBits(keys[i]), 8), Bytes.ToLE(children[i + 1], 8), HEADER_SIZE, HEADER_SIZE + 8);
    forall j | 0 <= j < i
      ensures PairLies(s2, j, keys[j], children[j + 1])
    {
      assert PairLies(s, j, keys[j], children[j + 1]);
      BothKept(s, s1, s2, i, Bytes.ToLE(Bytes.SignedBits(keys[i]), 8), Bytes.ToLE(children[i + 1], 8), KeyAt(j), KeyAt(j) + 8);
      BothKept(s, s1, s2, i, Bytes.ToLE(Bytes.SignedBits(keys[i]), 8), Bytes.ToLE(children[i + 1], 8), KeyAt(j) + 8, KeyAt(j) + 16);
    }
  }

  lemma BothKept(s: seq<byte>, s1: seq<byte>, s2: seq<byte>, i: nat, x: seq<byte>, y: seq<byte>, lo: nat, hi: nat)
    requires |x| == |y| == 8 && KeyAt(i) + 16 <= |s| && lo <= hi <= KeyAt(i)
    requires s1 == Patched(s, KeyAt(i), x) && s2 == Patched(s1, KeyAt(i) + 8, y)
    ensures s2[lo..hi] == s[lo..hi]
  {
    SliceKept(s, KeyAt(i), x, lo, hi);
    SliceKept(s1, KeyAt(i) + 8, y, lo, hi);
  }

  /** Writes children and keys in turn, if their numbers match and they fit the page. */
  method WriteInternalBody(p: array<byte>, keys: seq<int>, children: seq<PageId>) returns (ok: bool)
    requires Typed(keys, children) && p.Length == PAGE_SIZE
    modifies p
    ensures ok <==> Fits(keys, children)
    ensures ok ==> HoldsPairs(p[..], keys, children, |keys|)
    ensures !ok ==> p[..] == old(p[..])
  {
    if |children| != |keys| + 1 || HEADER_SIZE + 8 + |keys| * 16 > PAGE_SIZE {
      return false;
    }
    SliceWritten(p[..], HEADER_SIZE, Bytes.ToLE(children[0], 8));
    CopyInto(p, HEADER_SIZE, Bytes.ToLE(children[0], 8));
    for i := 0 to |keys|
      invariant HoldsPairs(p[..], keys, children, i)
    {
      WritePair(p, i, keys, children);
    }
    ok := true;
  }

  method WritePair(p: array<byte>, i: nat, keys: seq<int>, children: seq<PageId>)
    requires Fits(keys, children) && i < |keys| && HoldsPairs(p[..], keys, children, i)
    modifies p
    ensures HoldsPairs(p[..], keys, children, i + 1)
  {
    ghost var s := p[..];
    CopyInto(p, KeyAt(i), Bytes.ToLE(Bytes.SignedBits(keys[i]), 8));
    ghost var s1 := p[..];
    CopyInto(p, KeyAt(i) + 8, Bytes.ToLE(children[i + 1], 8));
    PairWritten(s, keys, children, i, s1, p[..]);
  }

  /** The bytes `s` are an internal node with the given parent field, keys and children. */
  ghost predicate IsInternalPage(s: seq<byte>, parent: nat, keys: seq<int>, children: seq<PageId>) {
    AllPairs(s, keys, children) && HasHeader(s, INTERNAL, |keys|, parent)
  }

  /** Writes a whole internal page. */
  method WriteInternal(p: array<byte>, parent: nat, keys: seq<int>, children: seq<PageId>) returns (ok: bool)
    requires Typed(keys, children) && p.Length == PAGE_SIZE && parent < U32_END
    modifies p
    ensures ok <==> Fits(keys, children)
    ensures ok ==> IsInternalPage(p[..], parent, keys, children)
  {
    ok := WriteInternalBody(p, keys, children);
    SealInternal(p, |keys|, parent, keys, children, ok);
  }

  /** Writes the header of a page that already holds its keys and children. */
  method SealInternal(p: array<byte>, n: nat, parent: nat, ghost keys: seq<int>, ghost children: seq<PageId>, ghost held: bool)
    requires p.Length == PAGE_SIZE && parent < U32_END && n == |keys| && (held ==> AllPairs(p[..], keys, children))
    modifies p
    ensures held ==> IsInternalPage(p[..], parent, keys, children)
  {
    HeaderWritten(p[..], INTERNAL, n, parent);
    if held {
      HeaderKeepsPairs(p[..], n, parent, keys, children);
    }
    SerializeHeader(p, INTERNAL, n, parent);
  }

  lemma {:induction false} HeaderKeepsPairs(s: seq<byte>, n: nat, parent: nat, keys: seq<int>, children: seq<PageId>)
    requires AllPairs(s, keys, children) && parent < U32_END
    ensures AllPairs(WithHeader(s, INTERNAL, n, parent), keys, children)
  {
    var r := WithHeader(s, INTERNAL, n, parent);
    HeaderWritten(s, INTERNAL, n, parent);
    assert r[HEADER_SIZE..HEADER_SIZE + 8] == s[HEADER_SIZE..HEADER_SIZE + 8];
    forall i | 0 <= i < |keys|
      ensures PairLies(r, i, keys[i], children[i + 1])
    {
      assert PairLies(s, i, keys[i], children[i + 1]);
      assert r[KeyAt(i)..KeyAt(i) + 8] == s[KeyAt(i)..KeyAt(i) + 8] && r[KeyAt(i) + 8..KeyAt(i) + 16] == s[KeyAt(i) + 8..KeyAt(i) + 16];
    }
  }

  lemma {:induction false} InternalHeaderRead(s: seq<byte>, parent: nat, keys: seq<int>, children: seq<PageId>)
    requires IsInternalPage(s, parent, keys, children)
    ensures ReadNumber(s, 1, 2) == |keys| && ReadNumber(s, 3, 4) == parent
  {
    HeaderRead(s, INTERNAL, |keys|, parent);
  }

  /** Reading a page back gives the keys and children that were written. */
  method ParseInternalNode(p: array<byte>, ghost parent: nat, ghost keys: seq<int>, ghost children: seq<PageId>) returns (ks: seq<int>, cs: seq<PageId>)
    requires IsInternalPage(p[..], parent, keys, children)
    ensures ks == keys && cs == children
  {
    ghost var s := p[..];
    InternalHeaderRead(s, parent, keys, children);
    var n := ReadNumber(p[..], 1, 2);
    Bytes.U64RoundTrip(children[0]);
    ks, cs := [], [ReadNumber(p[..], HEADER_SIZE, 8)];
    for i := 0 to n
      invariant ks == keys[..i] && cs == children[..i + 1]
    {
      assert PairLies(s, i, keys[i], children[i + 1]);
      Bytes.U64RoundTrip(Bytes.SignedBits(keys[i]));
      Bytes.U64RoundTrip(children[i + 1]);
      ks := ks + [Bytes.SignedOf(ReadNumber(p[..], KeyAt(i), 8))];
      cs := cs + [ReadNumber(p[..], KeyAt(i) + 8, 8)];
    }
  }

  // ---------------------------------------------------------------- one pair out, one pair in

  /** Moving bytes moves the slices among them and keeps those before the target. */
  lemma {:induction false} SliceMoved(s: seq<byte>, lo: nat, hi: nat, to: nat, a: nat, b: nat)
    requires lo <= a <= b <= hi <= |s| && to + (hi - lo) <= |s|
    ensures Patched(s, to, s[lo..hi])[to + a - lo..to + b - lo] == s[a..b]
  {
    var x, y := Patched(s, to, s[lo..hi])[to + a - lo..to + b - lo], s[a..b];
    assert |x| == |y| && forall k :: 0 <= k < |x| ==> x[k] == y[k];
  }

  lemma {:induction false} PairMoved(s: seq<byte>, keys: seq<int>, children: seq<PageId>, x: nat, to: nat, j: nat, r: seq<byte>)
    requires AllPairs(s, keys, children) && x <= j < |keys| && KeyAt(to) + 16 * (|keys| - x) <= PAGE_SIZE
    requires r == Patched(s, KeyAt(to), s[KeyAt(x)..KeyAt(|keys|)])
    ensures PairLies(r, to + j - x, keys[j], children[j + 1])
  {
    assert PairLies(s, j, keys[j], children[j + 1]);
    SliceMoved(s, KeyAt(x), KeyAt(|keys|), KeyAt(to), KeyAt(j), KeyAt(j) + 8);
    SliceMoved(s, KeyAt(x), KeyAt(|keys|), KeyAt(to), KeyAt(j) + 8, KeyAt(j) + 16);
  }

  lemma {:induction false} PairKept(s: seq<byte>, keys: seq<int>, children: seq<PageId>, off: nat, bs: seq<byte>, j: nat)
    requires AllPairs(s, keys, children) && j < |keys| && KeyAt(j) + 16 <= off && off + |bs| <= PAGE_SIZE
    ensures PairLies(Patched(s, off, bs), j, keys[j], children[j + 1])
  {
    assert PairLies(s, j, keys[j], children[j + 1]);
    SliceKept(s, off, bs, KeyAt(j), KeyAt(j) + 8);
    SliceKept(s, off, bs, KeyAt(j) + 8, KeyAt(j) + 16);
  }

  lemma {:induction false} PairRemoved(s: seq<byte>, keys: seq<int>, children: seq<PageId>, x: nat)
    requires AllPairs(s, keys, children) && x < |keys|
    ensures AllPairs(Patched(s, KeyAt(x), s[KeyAt(x + 1)..KeyAt(|keys|)]), RemoveAt(keys, x), RemoveAt(children, x + 1))
  {
    var ks, cs := RemoveAt(keys, x), RemoveAt(children, x + 1);
    var bs := s[KeyAt(x + 1)..KeyAt(|keys|)];
    var r := Patched(s, KeyAt(x), bs);
    SliceKept(s, KeyAt(x), bs, HEADER_SIZE, HEADER_SIZE + 8);
    forall j | 0 <= j < |ks|
      ensures PairLies(r, j, ks[j], cs[j + 1])
    {
      if j < x {
        PairKept(s, keys, children, KeyAt(x), bs, j);
      } else {
        PairMoved(s, keys, children, x + 1, x, j + 1, r);
      }
    }
  }

  /** Drops the child `c`, which is not the first, and the key before it, by closing the gap. */
  method RemovePair(p: array<byte>, c: PageId, ghost parent: nat, ghost keys: seq<int>, ghost children: seq<PageId>) returns (ghost x: nat)
    requires IsInternalPage(p[..], parent, keys, children) && c in children[1..]
    modifies p
    ensures x < |keys| && children[x + 1] == c && c !in children[1..x + 1]
    ensures IsInternalPage(p[..], parent, RemoveAt(keys, x), RemoveAt(children, x + 1))
  {
    InternalHeaderRead(p[..], parent, keys, children);
    var n, up := ReadNumber(p[..], 1, 2), ReadNumber(p[..], 3, 4);
    var slot := FindChild(p, c, keys, children);
    x := slot;
    PairRemoved(p[..], keys, children, slot);
    CopyWithin(p, KeyAt(slot + 1), KeyAt(n), KeyAt(slot));
    SealInternal(p, n - 1, up, RemoveAt(keys, slot), RemoveAt(children, slot + 1), true);
  }

  /** The key in front of child `c`. */
  method FindChild(p: array<byte>, c: PageId, ghost keys: seq<int>, ghost children: seq<PageId>) returns (x: nat)
    requires p.Length == PAGE_SIZE && AllPairs(p[..], keys, children) && c in children[1..]
    ensures x < |keys| && children[x + 1] == c && c !in children[1..x + 1]
  {
    ghost var s := p[..];
    ghost var w := IndexOf(children[1..], c);
    x := 0;
    while true
      invariant x <= w && c !in children[1..x + 1]
      decreases w - x
    {
      assert PairLies(s, x, keys[x], children[x + 1]);
      Bytes.U64RoundTrip(children[x + 1]);
      if ReadNumber(p[..], KeyAt(x) + 8, 8) == c {
        return;
      }
      assert children[1..x + 2] == children[1..x + 1] + [children[x + 1]];
      x := x + 1;
    }
  }

  /** Where a new separator goes. */
  method FindSlot(p: array<byte>, n: nat, key: int, ghost keys: seq<int>, ghost children: seq<PageId>) returns (i: nat)
    requires p.Length == PAGE_SIZE && AllPairs(p[..], keys, children) && n == |keys|
    ensures i <= n && (forall x :: 0 <= x < i ==> keys[x] <= key) && (i < n ==> key < keys[i])
  {
    ghost var s := p[..];
    i := 0;
    while i < n
      invariant i <= n && forall x :: 0 <= x < i ==> keys[x] <= key
    {
      assert PairLies(s, i, keys[i], children[i + 1]);
      Bytes.U64RoundTrip(Bytes.SignedBits(keys[i]));
      if key < Bytes.SignedOf(ReadNumber(p[..], KeyAt(i), 8)) {
        return;
      }
      i := i + 1;
    }
  }

  /** What is on the page once the pairs from `i` on have moved up by one place. */
  ghost predicate GapAt(r: seq<byte>, keys: seq<int>, children: seq<PageId>, i: nat)
    requires Fits(keys, children) && KeyAt(|keys|) + 16 <= PAGE_SIZE && i <= |keys|
  {
    && |r| == PAGE_SIZE && r[HEADER_SIZE..HEADER_SIZE + 8] == Bytes.ToLE(children[0], 8)
    && (forall j :: 0 <= j < i ==> PairLies(r, j, keys[j], children[j + 1]))
    && (forall j :: i < j <= |keys| ==> PairLies(r, j, keys[j - 1], children[j]))
  }

  lemma {:induction false} GapMade(s: seq<byte>, keys: seq<int>, children: seq<PageId>, i: nat, r: seq<byte>)
    requires AllPairs(s, keys, children) && i <= |keys| && KeyAt(|keys|) + 16 <= PAGE_SIZE
    requires r == Patched(s, KeyAt(i) + 16, s[KeyAt(i)..KeyAt(|keys|)])
    ensures GapAt(r, keys, children, i)
  {
    var bs := s[KeyAt(i)..KeyAt(|keys|)];
    assert r == Patched(s, KeyAt(i + 1), bs);
    SliceKept(s, KeyAt(i + 1), bs, HEADER_SIZE, HEADER_SIZE + 8);
    forall j | 0 <= j < i
      ensures PairLies(r, j, keys[j], children[j + 1])
    {
      PairKept(s, keys, children, KeyAt(i + 1), bs, j);
    }
    forall j | i < j <= |keys|
      ensures PairLies(r, j, keys[j - 1], children[j])
    {
      PairMoved(s, keys, children, i, i + 1, j - 1, r);
    }
  }

  /** Slices on either side of what is written stay. */
  lemma {:induction false} SliceApart(s: seq<byte>, off: nat, bs: seq<byte>, lo: nat, hi: nat)
    requires off + |bs| <= |s| && lo <= hi <= |s| && (hi <= off || off + |bs| <= lo)
    ensures Patched(s, off, bs)[lo..hi] == s[lo..hi]
  {
    var x, y := Patched(s, off, bs)[lo..hi], s[lo..hi];
    assert |x| == |y| && forall k :: 0 <= k < |x| ==> x[k] == y[k];
  }

  lemma {:induction false} PairApart(s: seq<byte>, i: nat, x: seq<byte>, y: seq<byte>, j: nat, key: int, child: PageId)
    requires |s| == PAGE_SIZE && |x| == |y| == 8 && KeyAt(i) + 16 <= PAGE_SIZE && KeyAt(j) + 16 <= PAGE_SIZE && i != j
    requires KEY_MIN <= key < KEY_END && PairLies(s, j, key, child)
    ensures PairLies(Patched(Patched(s, KeyAt(i), x), KeyAt(i) + 8, y), j, key, child)
  {
    var s1 := Patched(s, KeyAt(i), x);
    SliceApart(s, KeyAt(i), x, KeyAt(j), KeyAt(j) + 8);
    SliceApart(s, KeyAt(i), x, KeyAt(j) + 8, KeyAt(j) + 16);
    SliceApart(s1, KeyAt(i) + 8, y, KeyAt(j), KeyAt(j) + 8);
    SliceApart(s1, KeyAt(i) + 8, y, KeyAt(j) + 8, KeyAt(j) + 16);
  }

  lemma {:induction false} GapPair(s: seq<byte>, i: nat, key: int, child: PageId, r: seq<byte>)
    requires KeyAt(i) + 16 <= |s| && KEY_MIN <= key < KEY_END && child < 0x1_0000_0000_0000_0000
    requires r == Patched(Patched(s, KeyAt(i), Bytes.ToLE(Bytes.SignedBits(key), 8)), KeyAt(i) + 8, Bytes.ToLE(child, 8))
    ensures PairLies(r, i, key, child)
  {
    var x, y := Bytes.ToLE(Bytes.SignedBits(key), 8), Bytes.ToLE(child, 8);
    var s1 := Patched(s, KeyAt(i), x);
    SliceWritten(s, KeyAt(i), x);
    SliceWritten(s1, KeyAt(i) + 8, y);
    SliceApart(s1, KeyAt(i) + 8, y, KeyAt(i), KeyAt(i) + 8);
  }

  lemma {:induction false} GapFilled(s: seq<byte>, keys: seq<int>, children: seq<PageId>, i: nat, key: int, child: PageId, r: seq<byte>)
    requires Fits(keys, children) && KeyAt(|keys|) + 16 <= PAGE_SIZE && i <= |keys| && GapAt(s, keys, children, i)
    requires KEY_MIN <= key < KEY_END && child < 0x1_0000_0000_0000_0000
    requires r == Patched(Patched(s, KeyAt(i), Bytes.ToLE(Bytes.SignedBits(key), 8)), KeyAt(i) + 8, Bytes.ToLE(child, 8))
    ensures AllPairs(r, InsertAt(keys, i, key), InsertAt(children, i + 1, child))
  {
    var x, y := Bytes.ToLE(Bytes.SignedBits(key), 8), Bytes.ToLE(child, 8);
    var ks, cs := InsertAt(keys, i, key), InsertAt(children, i + 1, child);
    var s1 := Patched(s, KeyAt(i), x);
    SliceApart(s, KeyAt(i), x, HEADER_SIZE, HEADER_SIZE + 8);
    SliceApart(s1, KeyAt(i) + 8, y, HEADER_SIZE, HEADER_SIZE + 8);
    GapPair(s, i, key, child, r);
    forall j | 0 <= j < |ks|
      ensures PairLies(r, j, ks[j], cs[j + 1])
    {
      if j < i {
        PairApart(s, i, x, y, j, keys[j], children[j + 1]);
      } else if i < j {
        PairApart(s, i, x, y, j, keys[j - 1], children[j]);
      }
    }
  }

  /** Inserts a separator and the child behind it, unless the node is full. */
  method InsertPair(p: array<byte>, key: int, child: PageId, ghost parent: nat, ghost keys: seq<int>, ghost children: seq<PageId>) returns (ok: bool, ghost i: nat)
    requires IsInternalPage(p[..], parent, keys, children)
    requires KEY_MIN <= key < KEY_END && child < 0x1_0000_0000_0000_0000
    modifies p
    ensures i <= |keys| && (forall x :: 0 <= x < i ==> keys[x] <= key) && (i < |keys| ==> key < keys[i])
    ensures ok <==> |keys| < BTREE_ORDER
    ensures ok ==> IsInternalPage(p[..], parent, InsertAt(keys, i, key), InsertAt(children, i + 1, child))
    ensures !ok ==> p[..] == old(p[..])
  {
    InternalHeaderRead(p[..], parent, keys, children);
    var n, up := ReadNumber(p[..], 1, 2), ReadNumber(p[..], 3, 4);
    var slot := FindSlot(p, n, key, keys, children);
    i := slot;
    if n >= BTREE_ORDER {
      return false, slot;
    }
    PutPair(p, n, slot, key, child, keys, children);
    SealInternal(p, n + 1, up, InsertAt(keys, slot, key), InsertAt(children, slot + 1, child), true);
    ok := true;
  }

  /** Moves the pairs from `slot` on up by one place and fills the gap. */
  method PutPair(p: array<byte>, n: nat, slot: nat, key: int, child: PageId, ghost keys: seq<int>, ghost children: seq<PageId>)
    requires p.Length == PAGE_SIZE && AllPairs(p[..], keys, children) && slot <= n == |keys| < BTREE_ORDER
    requires KEY_MIN <= key < KEY_END && child < 0x1_0000_0000_0000_0000
    modifies p
    ensures AllPairs(p[..], InsertAt(keys, slot, key), InsertAt(children, slot + 1, child))
  {
    ghost var s := p[..];
    MakeGap(p, KeyAt(slot), KeyAt(n));
    ghost var gap := p[..];
    GapMade(s, keys, children, slot, gap);
    FillGap(p, KeyAt(slot), Bytes.ToLE(Bytes.SignedBits(key), 8), Bytes.ToLE(child, 8));
    GapFilled(gap, keys, children, slot, key, child, p[..]);
  }

  method MakeGap(p: array<byte>, lo: nat, hi: nat)
    requires lo <= hi && hi + 16 <= p.Length
    modifies p
    ensures p[..] == Patched(old(p[..]), lo + 16, old(p[..])[lo..hi])
  {
    if lo < hi {
      CopyWithin(p, lo, hi, lo + 16);
    } else {
      ghost var s := p[..];
      assert Patched(s, lo + 16, s[lo..hi]) == s;
    }
  }

  method FillGap(p: array<byte>, off: nat, x: seq<byte>, y: seq<byte>)
    requires |x| == |y| == 8 && off + 16 <= p.Length
    modifies p
    ensures p[..] == Patched(Patched(old(p[..]), off, x), off + 8, y)
  {
    CopyInto(p, off, x);
    CopyInto(p, off + 8, y);
  }

  // ---------------------------------------------------------------- nodes on pages

  /** The bytes `s` are the node `nd`. */
  ghost predicate Encodes(s: seq<byte>, nd: Node) {
    match nd
    case Leaf(parent, es) => IsLeafPage(s, parent, es)
    case Internal(parent, keys, children) => IsInternalPage(s, parent, keys, children)
  }

  /** A page is one node only. */
  lemma {:induction false} NodeUnique(s: seq<byte>, nd: Node, nd': Node)
    requires Encodes(s, nd) && Encodes(s, nd')
    ensures nd == nd'
  {
    if nd.Leaf? && nd'.Leaf? {
      LeafEdits.LeafPageUnique(s, nd.parent, nd.entries, nd'.parent, nd'.entries);
    } else if nd.Internal? && nd'.Internal? {
      InternalPageUnique(s, nd.parent, nd.keys, nd.children, nd'.parent, nd'.keys, nd'.children);
    }
  }

  lemma {:induction false} InternalPageUnique(s: seq<byte>, parent: nat, keys: seq<int>, children: seq<PageId>, parent': nat, keys': seq<int>, children': seq<PageId>)
    requires IsInternalPage(s, parent, keys, children) && IsInternalPage(s, parent', keys', children')
    ensures parent == parent' && keys == keys' && children == children'
  {
    InternalHeaderRead(s, parent, keys, children);
    InternalHeaderRead(s, parent', keys', children');
    Bytes.U64RoundTrip(children[0]);
    Bytes.U64RoundTrip(children'[0]);
    forall i | 0 <= i < |keys|
      ensures keys[i] == keys'[i] && children[i + 1] == children'[i + 1]
    {
      SamePair(s, i, keys[i], children[i + 1], keys'[i], children'[i + 1]);
    }
    forall j | 0 <= j < |children|
      ensures children[j] == children'[j]
    {
      assert j != 0 ==> keys[j - 1] == keys'[j - 1];
    }
  }

  lemma {:induction false} SamePair(s: seq<byte>, i: nat, key: int, child: PageId, key': int, child': PageId)
    requires KEY_MIN <= key < KEY_END && KEY_MIN <= key' < KEY_END && KeyAt(i) + 16 <= |s|
    requires child < 0x1_0000_0000_0000_0000 && child' < 0x1_0000_0000_0000_0000
    requires PairLies(s, i, key, child) && PairLies(s, i, key', child')
    ensures key == key' && child == child'
  {
    Bytes.U64RoundTrip(Bytes.SignedBits(key));
    Bytes.U64RoundTrip(Bytes.SignedBits(key'));
    Bytes.U64RoundTrip(child);
    Bytes.U64RoundTrip(child');
  }

  /** Writes the parent field of a page, leaf or internal, unless it is that already. */
  method SetParentPointer(p: array<byte>, parent: nat, ghost nd: Node)
    requires Encodes(p[..], nd) && parent < U32_END
    modifies p
    ensures Encodes(p[..], nd.(parent := parent))
  {
    ghost var s := p[..];
    ParentRead(s, nd);
    if ReadNumber(p[..], 3, 4) == parent {
      return;
    }
    ParentWritten(s, nd, parent);
    SerializeHeader(p, p[0], ReadNumber(p[..], 1, 2), parent);
  }

  lemma {:induction false} ParentRead(s: seq<byte>, nd: Node)
    requires Encodes(s, nd)
    ensures |s| == PAGE_SIZE && ReadNumber(s, 3, 4) == nd.parent
  {
    if nd.Leaf? {
      NumKeysRead(s, nd.parent, nd.entries);
    } else {
      InternalHeaderRead(s, nd.parent, nd.keys, nd.children);
    }
  }

  lemma {:induction false} ParentWritten(s: seq<byte>, nd: Node, parent: nat)
    requires Encodes(s, nd) && parent < U32_END && |s| == PAGE_SIZE
    ensures Encodes(WithHeader(s, s[0], ReadNumber(s, 1, 2), parent), nd.(parent := parent))
  {
    if nd.Leaf? {
      NumKeysRead(s, nd.parent, nd.entries);
      HeaderMakesLeaf(s, parent, nd.entries);
    } else {
      InternalHeaderRead(s, nd.parent, nd.keys, nd.children);
      HeaderWritten(s, INTERNAL, |nd.keys|, parent);
      HeaderKeepsPairs(s, |nd.keys|, parent, nd.keys, nd.children);
    }
  }
}
