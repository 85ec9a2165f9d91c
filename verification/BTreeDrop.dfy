/** A tree whose new root is dropped: 64 leaves under one root, and an insertion that splits
    the first leaf twice. */
module BTreeDrop {
  import opened BTreeShape
  import opened BTreeLimits
  import opened BTreeLink
  import opened BTreeInsert
  import opened BTreeBounds

  // The state that these insertions leave, starting from an empty tree on page 1: the keys
  // 0, 1000, 2000, ..., 64000 with rows of 2000 bytes, of which a leaf holds two, then the key 1
  // with a row of 2000 bytes and the keys 2 and 3 with rows of 13 bytes.  The third insertion
  // splits leaf 1 into pages 1 and 2 under the root, page 3; each one after it splits the last
  // leaf and puts the right half on the next page.

  const TOP: PageId := 3

  const LAST: PageId := 65

  /** The page of the leaf at index `i`. */
  function LeafId(i: nat): PageId {
    if i < 2 then i + 1 else i + 2
  }

  /** The index of a leaf, which holds the keys from 1000 times the index on. */
  function IndexOfLeaf(p: PageId): int {
    if p < 3 then p - 1 else p - 2
  }

  /** Two rows of 2000 bytes and two of thirteen. */
  function FirstLeaf(): seq<Entry> {
    [Entry(0, Zeros(2000)), Entry(1, Zeros(2000)), Entry(2, Zeros(13)), Entry(3, Zeros(13))]
  }

  function LastLeaf(): seq<Entry> {
    [Entry(63000, Zeros(2000)), Entry(64000, Zeros(2000))]
  }

  function LeafEntries(p: PageId): seq<Entry> {
    if p == 1 then FirstLeaf() else if p == LAST then LastLeaf() else [Entry(1000 * IndexOfLeaf(p), Zeros(2000))]
  }

  function Separators(): (ks: seq<int>)
    ensures |ks| == 63
  {
    seq(63, (i: nat) => 1000 * (i + 1))
  }

  function LeafIds(): (cs: seq<PageId>)
    ensures |cs| == 64
  {
    seq(64, (i: nat) => LeafId(i))
  }

  function DropPages(): Pages {
    map p: PageId | 1 <= p <= LAST :: if p == TOP then Internal(0, Separators(), LeafIds()) else Leaf(TOP, LeafEntries(p))
  }

  function DropInfo(p: PageId): Info {
    if p == TOP then Info(1, KEY_MIN, KEY_END)
    else Info(0, if p == 1 then KEY_MIN else 1000 * IndexOfLeaf(p), if p == LAST then KEY_END else 1000 * (IndexOfLeaf(p) + 1))
  }

  function DropInfos(): Infos {
    map p: PageId | 1 <= p <= LAST :: DropInfo(p)
  }

  function RowAt(k: int): seq<byte> {
    if k == 2 || k == 3 then Zeros(13) else Zeros(2000)
  }

  function DropRows(): Rows {
    map k: int | 0 <= k <= 64000 && (k < 4 || (1000 <= k && k % 1000 == 0)) :: RowAt(k)
  }

  function DropTree(): Tree {
    Tree(DropPages(), DropInfos(), DropRows(), LAST + 1)
  }

  // ---------------------------------------------------------------- it is a tree

  lemma {:induction false} FirstLeafBytes()
    ensures EntryBytes(FirstLeaf()) == 4074 && EntryBytes(FirstLeaf()[..2]) == 4024 && EntryBytes(FirstLeaf()[..1]) == 2012
  {
    var es := FirstLeaf();
    assert es[..1][..0] == [] && es[..2][..1] == es[..1] && es[..3][..2] == es[..2] && es[..4] == es && es[..4][..3] == es[..3];
    assert EntryBytes([]) == 0;
    assert EntryBytes(es[..1]) == EntryBytes([]) + EntrySize(es[0]);
    assert EntryBytes(es[..2]) == EntryBytes(es[..1]) + EntrySize(es[1]);
    assert EntryBytes(es[..3]) == EntryBytes(es[..2]) + EntrySize(es[2]);
    assert EntryBytes(es) == EntryBytes(es[..3]) + EntrySize(es[3]);
  }

  lemma {:induction false} LeafOk(p: PageId)
    requires 1 <= p <= LAST && p != TOP
    ensures NodeOk(DropPages(), DropInfos(), TOP, {}, p)
  {
    var es, f := LeafEntries(p), DropInfo(p);
    if p == 1 {
      FirstLeafBytes();
    } else if p == LAST {
      assert es[..1][..0] == [] && es[..1] == [es[0]];
      assert EntryBytes(es[..1]) == EntryBytes([]) + EntrySize(es[0]);
      assert EntryBytes(es) == EntryBytes(es[..1]) + EntrySize(es[1]);
    } else {
      assert es[..0] == [];
      assert EntryBytes(es) == EntryBytes([]) + EntrySize(es[0]);
    }
    assert EntriesOk(es, f);
  }

  lemma {:induction false} TopOk()
    ensures NodeOk(DropPages(), DropInfos(), TOP, {}, TOP)
  {
    var pages, m, ks, cs, f := DropPages(), DropInfos(), Separators(), LeafIds(), DropInfo(TOP);
    forall i | 0 <= i < |cs|
      ensures ChildOk(pages, m, TOP, ks, f, cs[i], i)
    {
      assert cs[i] == LeafId(i) && IndexOfLeaf(LeafId(i)) == i;
    }
    assert KeysOk(ks, f);
  }

  lemma {:induction false} LeafHeld(p: PageId)
    requires 1 <= p <= LAST && p != TOP
    ensures LeafHolds(LeafEntries(p), DropInfo(p), DropRows())
  {
    var es, f, rows := LeafEntries(p), DropInfo(p), DropRows();
    forall k | k in rows && f.lo <= k < f.hi
      ensures HasKey(es, k)
    {
      if p == 1 {
        assert es[k].key == k;
      } else if p == LAST {
        assert es[if k == 63000 then 0 else 1].key == k;
      } else {
        assert es[0].key == k;
      }
    }
  }

  lemma {:induction false} LinksOk(p: PageId)
    requires 1 <= p <= LAST
    ensures LinkOk(DropPages(), DropInfos(), TOP, p)
  {
    if p != TOP {
      assert LeafIds()[IndexOfLeaf(p)] == p;
    }
  }

  lemma {:induction false} PageOk(p: PageId)
    requires p in DropInfos()
    ensures NodeOk(DropPages(), DropInfos(), TOP, {}, p)
  {
    if p == TOP {
      TopOk();
    } else {
      LeafOk(p);
    }
  }

  /** A tree is valid when each of its pages is. */
  lemma {:induction false} ValidFrom(pages: Pages, m: Infos, t: PageId, n: nat)
    requires t in m && m[t].lo == KEY_MIN && m[t].hi == KEY_END && forall p :: p in pages ==> p < n
    requires forall p {:trigger NodeOk(pages, m, t, {}, p)} :: p in m ==> NodeOk(pages, m, t, {}, p)
    requires forall p {:trigger LinkOk(pages, m, t, p)} :: p in m ==> LinkOk(pages, m, t, p)
    ensures Valid(pages, m, t, n, {})
  {
  }

  lemma {:induction false} DropValid()
    ensures Valid(DropPages(), DropInfos(), TOP, LAST + 1, {})
  {
    var pages, m := DropPages(), DropInfos();
    forall p | p in m
      ensures NodeOk(pages, m, TOP, {}, p)
    {
      PageOk(p);
    }
    forall p | p in m
      ensures LinkOk(pages, m, TOP, p)
    {
      LinksOk(p);
    }
    ValidFrom(pages, m, TOP, LAST + 1);
  }

  lemma {:induction false} DropTreeSound()
    ensures Sound(DropTree(), TOP)
  {
    DropValid();
    forall p | p in DropInfos() && p in DropPages() && DropPages()[p].Leaf?
      ensures LeafHolds(DropPages()[p].entries, DropInfos()[p], DropRows())
    {
      LeafHeld(p);
    }
  }

  // ---------------------------------------------------------------- and it loses rows

  lemma {:induction false} TwoSplits()
    ensures Splits(FirstLeaf(), -1, Zeros(2000)) == 2 && !Stuck(FirstLeaf(), -1, Zeros(2000))
  {
    var es, data := FirstLeaf(), Zeros(2000);
    FirstLeafBytes();
    assert HalfFor(es, -1) == es[..2];
    assert HalfFor(es[..2], -1) == es[..2][..1] == es[..1];
    assert HasRoom(es[..1], data);
    assert Splits(es[..1], -1, data) == 0 && !Stuck(es[..1], -1, data);
    assert Splits(es[..2], -1, data) == 1 && !Stuck(es[..2], -1, data);
  }

  lemma {:induction false} RootWillBeFull()
    ensures Drops(DropTree(), 1, -1, Zeros(2000), TOP)
  {
    TwoSplits();
    var a := DropTree();
    assert a.pages[1] == Leaf(TOP, FirstLeaf()) && a.pages[TOP] == Internal(0, Separators(), LeafIds());
    assert Full(a.pages, a.info, TOP, TOP);
  }

  /** Every condition of `Insert` is met, the root is not stale, and rows are lost all the same:
      the second split fills the root, and the nested call's new root is dropped. */
  lemma {:induction false} NewRootIsDropped()
    ensures var a := DropTree();
            && Sound(a, TOP) && !Stale(a, TOP) && -1 !in a.rows && IsLeafFor(a.pages, a.info, 1, -1)
            && Splittable(a, 1, -1, Zeros(2000), TOP) && Loses(a, 1, -1, Zeros(2000), TOP)
  {
    DropTreeSound();
    TwoSplits();
    FirstLeafBytes();
    RootWillBeFull();
    var a := DropTree();
    assert a.pages[1] == Leaf(TOP, FirstLeaf());
  }
}
