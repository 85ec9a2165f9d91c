/** A run from an empty tree to a lost row, through the operations themselves. */
module BTreeWitness {
  import opened Results
  import opened BTreeShape
  import opened BTreeLimits
  import opened BTreeLink
  import opened BTreeInsert
  import opened BTreeDelete
  import opened BTreeRepair
  import opened BTreeBounds
  import opened BTreeIndex
  import opened BTreeSmall

  // ---------------------------------------------------------------- rows and shape

  /** Rows under the keys from `i` up to `n`. */
  function RowsFrom(i: int, n: int): Rows {
    map k: int | i <= k < n :: SmallRow(k)
  }

  lemma {:induction false} RowsCount(n: nat)
    ensures |RowsFrom(0, n)| == n
  {
    if n == 0 {
      assert RowsFrom(0, 0) == map[];
    } else {
      RowsCount(n - 1);
      assert RowsFrom(0, n) == RowsFrom(0, n - 1)[n - 1 := SmallRow(n - 1)];
      assert RowsFrom(0, n).Keys == RowsFrom(0, n - 1).Keys + {n - 1};
    }
  }

  /** A page of height `h` that is not the root answers for more than `h` rows. */
  lemma {:induction false} HeightRows(a: Tree, t: PageId, p: PageId) returns (ks: set<int>)
    requires Sound(a, t) && p in a.info && p != t
    ensures |ks| == a.info[p].height + 1 && forall k :: k in ks ==> k in a.rows && a.info[p].lo <= k < a.info[p].hi
    decreases a.info[p].height
  {
    assert NodeOk(a.pages, a.info, t, {}, p);
    if a.pages[p].Leaf? {
      var k := SubtreeHasRow(a.pages, a.info, t, a.n, a.rows, p);
      ks := {k};
    } else {
      var nd, f := a.pages[p], a.info[p];
      assert ChildOk(a.pages, a.info, p, nd.keys, f, nd.children[0], 0);
      assert ChildOk(a.pages, a.info, p, nd.keys, f, nd.children[1], 1);
      NotRoot(a, t, p, nd.children[0]);
      NotRoot(a, t, p, nd.children[1]);
      var lower := HeightRows(a, t, nd.children[0]);
      var k := SubtreeHasRow(a.pages, a.info, t, a.n, a.rows, nd.children[1]);
      ks := lower + {k};
    }
  }

  lemma {:induction false} NotRoot(a: Tree, t: PageId, p: PageId, c: PageId)
    requires Sound(a, t) && p in a.info && c in a.info && a.info[c].height < a.info[p].height
    ensures c != t
  {
    if p != t {
      assert LinkOk(a.pages, a.info, t, p);
    }
  }

  lemma {:induction false} SubsetSize(ks: set<int>, all: set<int>)
    requires forall k :: k in ks ==> k in all
    ensures |ks| <= |all|
  {
    var rest := all - ks;
    forall k
      ensures k in all <==> k in ks + rest
    {
    }
    assert all == ks + rest;
  }

  lemma {:induction false} HeightBound(a: Tree, t: PageId)
    requires Sound(a, t)
    ensures t in a.info && a.info[t].height <= |a.rows|
  {
    assert NodeOk(a.pages, a.info, t, {}, t);
    if a.pages[t].Internal? {
      var c := a.pages[t].children[0];
      assert ChildOk(a.pages, a.info, t, a.pages[t].keys, a.info[t], c, 0);
      NotRoot(a, t, t, c);
      var ks := HeightRows(a, t, c);
      SubsetSize(ks, a.rows.Keys);
    }
  }

  lemma {:induction false} KeysCount(es: seq<Entry>) returns (ks: set<int>)
    requires SortedEntries(es)
    ensures |ks| == |es| && forall k :: k in ks <==> HasKey(es, k)
    decreases |es|
  {
    if es == [] {
      ks := {};
    } else {
      var front, last := es[..|es| - 1], es[|es| - 1];
      var before := KeysCount(front);
      ks := before + {last.key};
      assert !HasKey(front, last.key);
      forall k
        ensures k in ks <==> HasKey(es, k)
      {
        if HasKey(front, k) {
          var i :| 0 <= i < |front| && front[i].key == k;
          assert es[i].key == k;
        }
        if HasKey(es, k) {
          var i :| 0 <= i < |es| && es[i].key == k;
          assert i < |front| ==> front[i].key == k;
        }
      }
    }
  }

  /** A root that is a leaf holds all rows, and rows of 52 bytes take 64 each. */
  lemma {:induction false} RootLeafBytes(a: Tree, t: PageId)
    requires Sound(a, t) && t in a.pages && a.pages[t].Leaf? && forall k :: k in a.rows ==> |a.rows[k]| == 52
    ensures |a.pages[t].entries| == |a.rows| && EntryBytes(a.pages[t].entries) == 64 * |a.rows|
  {
    var es := a.pages[t].entries;
    assert NodeOk(a.pages, a.info, t, {}, t);
    assert LeafHolds(es, a.info[t], a.rows);
    var ks := KeysCount(es);
    forall k
      ensures k in ks <==> k in a.rows.Keys
    {
      if HasKey(es, k) {
        var i :| 0 <= i < |es| && es[i].key == k;
      }
    }
    assert ks == a.rows.Keys;
    BytesExactly(es);
  }

  lemma {:induction false} BytesExactly(es: seq<Entry>)
    requires forall i :: 0 <= i < |es| ==> |es[i].data| == 52
    ensures EntryBytes(es) == 64 * |es|
    decreases |es|
  {
    if es != [] {
      BytesExactly(es[..|es| - 1]);
    }
  }

  lemma {:induction false} EmptyIsLeaf(a: Tree, t: PageId)
    requires Sound(a, t) && a.rows == map[]
    ensures t in a.pages && a.pages[t].Leaf?
  {
    HeightBound(a, t);
    assert NodeOk(a.pages, a.info, t, {}, t);
  }

  // ---------------------------------------------------------------- the run

  const ROOM: nat := 100

  method FillOne(t: BTree, i: nat)
    requires Small(t) && !Stale(t.Snap(), t.root) && i < 64 && t.rows == RowsFrom(0, i) && t.numPages <= 2 + i * ROOM
    modifies t
    ensures Small(t) && !Stale(t.Snap(), t.root) && t.rows == RowsFrom(0, i + 1) && t.numPages <= 2 + (i + 1) * ROOM
  {
    HeightBound(t.Snap(), t.root);
    RowsCount(i);
    assert RowsFrom(0, i + 1) == RowsFrom(0, i)[i := SmallRow(i)];
    var _ := InsertSmall(t, i, SmallRow(i));
  }

  lemma {:induction false} TooManyForALeaf(a: Tree, t: PageId)
    requires Sound(a, t) && a.rows == RowsFrom(0, 64)
    ensures t in a.pages && a.pages[t].Internal?
  {
    assert NodeOk(a.pages, a.info, t, {}, t);
    RowsCount(64);
    if a.pages[t].Leaf? {
      RootLeafBytes(a, t);
    }
  }

  /** Sixty-four rows go in, so the root is split. */
  method Fill(t: BTree)
    requires Small(t) && !Stale(t.Snap(), t.root) && t.rows == map[] && t.numPages <= 2
    modifies t
    ensures Small(t) && t.rows == RowsFrom(0, 64) && t.numPages <= 2 + 64 * ROOM
    ensures t.root in t.pages && t.pages[t.root].Internal?
  {
    assert RowsFrom(0, 0) == map[];
    for i := 0 to 64
      invariant Small(t) && !Stale(t.Snap(), t.root) && t.rows == RowsFrom(0, i) && t.numPages <= 2 + i * ROOM
    {
      FillOne(t, i);
    }
    TooManyForALeaf(t.Snap(), t.root);
  }

  /** All rows go out, so the root collapses, and keeps naming its parent. */
  method Empty(t: BTree)
    requires Small(t) && t.rows == RowsFrom(0, 64) && t.root in t.pages && t.pages[t.root].Internal?
    modifies t
    ensures Small(t) && t.rows == map[] && t.numPages == old(t.numPages)
    ensures StaleLeaf(t)
  {
    ghost var first := t.root;
    for i := 0 to 64
      invariant Small(t) && t.rows == RowsFrom(i, 64) && t.numPages == old(t.numPages)
      invariant t.root in t.pages && (Stale(t.Snap(), t.root) || (t.root == first && t.pages[first].Internal?))
    {
      var _ := DeleteSmall(t, i);
      assert RowsFrom(i + 1, 64) == RowsFrom(i, 64) - {i};
    }
    assert RowsFrom(64, 64) == map[];
    EmptyIsLeaf(t.Snap(), t.root);
  }

  /** The root is one leaf that still names a parent. */
  ghost predicate StaleLeaf(t: BTree)
    reads t
  {
    t.root in t.pages && t.pages[t.root].Leaf? && Stale(t.Snap(), t.root)
  }

  lemma {:induction false} RoomAtRoot(a: Tree, t: PageId, i: nat)
    requires Sound(a, t) && t in a.pages && a.pages[t].Leaf? && a.rows == RowsFrom(0, i) && i < 63
    ensures IsLeafFor(a.pages, a.info, t, i) && HasRoom(a.pages[t].entries, SmallRow(i))
    ensures !SplitsRoot(a, t, i, SmallRow(i), t)
  {
    RowsCount(i);
    RootLeafBytes(a, t);
    RootIsLeafFor(a, t, i);
  }

  method RefillOne(t: BTree, i: nat)
    requires Small(t) && StaleLeaf(t) && i < 63 && t.rows == RowsFrom(0, i) && t.numPages <= 2 + (64 + i) * ROOM
    modifies t
    ensures Small(t) && StaleLeaf(t) && t.rows == RowsFrom(0, i + 1) && t.numPages <= 2 + (65 + i) * ROOM
  {
    HeightBound(t.Snap(), t.root);
    RowsCount(i);
    RoomAtRoot(t.Snap(), t.root, i);
    assert RowsFrom(0, i + 1) == RowsFrom(0, i)[i := SmallRow(i)];
    var _ := InsertSmall(t, i, SmallRow(i));
  }

  /** Sixty-three rows fit into the leaf that is now the root. */
  method Refill(t: BTree)
    requires Small(t) && StaleLeaf(t) && t.rows == map[] && t.numPages <= 2 + 64 * ROOM
    modifies t
    ensures Small(t) && StaleLeaf(t) && t.rows == RowsFrom(0, 63) && t.numPages <= 2 + 127 * ROOM
  {
    assert RowsFrom(0, 0) == map[];
    for i := 0 to 63
      invariant Small(t) && StaleLeaf(t) && t.rows == RowsFrom(0, i) && t.numPages <= 2 + (64 + i) * ROOM
    {
      RefillOne(t, i);
    }
  }

  lemma {:induction false} RootIsLeafFor(a: Tree, t: PageId, key: int)
    requires Sound(a, t) && t in a.pages && a.pages[t].Leaf? && KEY_MIN <= key < KEY_END
    ensures IsLeafFor(a.pages, a.info, t, key)
  {
  }

  /** Every operation succeeds, and yet the last insertion of the run does not leave the rows
      it should: a row or more is lost. */
  method LoseRows() returns (t: BTree, ghost before: Rows, res: Result<()>)
    ensures fresh(t) && t.Valid() && res.Ok?
    ensures before == RowsFrom(0, 63) && t.rows != before[63 := SmallRow(63)]
  {
    t := new BTree(1);
    Fill(t);
    Empty(t);
    Refill(t);
    before := t.rows;
    HeightBound(t.Snap(), t.root);
    RowsCount(63);
    RootLeafBytes(t.Snap(), t.root);
    RootIsLeafFor(t.Snap(), t.root, 63);
    FullLeafSplits(t.Snap(), t.root);
    res := InsertSmall(t, 63, SmallRow(63));
  }

  lemma {:induction false} FullLeafSplits(a: Tree, t: PageId)
    requires Sound(a, t) && t in a.pages && a.pages[t].Leaf? && |a.pages[t].entries| == 63 && EntryBytes(a.pages[t].entries) == 64 * 63
    ensures SplitsRoot(a, t, 63, SmallRow(63), t)
  {
  }
}
