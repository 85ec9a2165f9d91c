/** A tree of four rows that refuses a deletion. */
module BTreeRefuse {
  import opened BTreeShape
  import opened BTreeLink
  import opened BTreeRepair
  import opened BTreeBounds

  /** What inserting the keys 0, 1000, 2000 and 1, with rows of 2000 bytes, leaves of an empty
      tree on page 1: a leaf holds two of them, the third insertion splits leaf 1 into pages 1 and
      2 under the root, page 3, and the fourth goes into leaf 1. */
  function FourRows(): Tree {
    Tree(map[1 := Leaf(3, TwoRows(0, 1)), 2 := Leaf(3, TwoRows(1000, 2000)), 3 := Internal(0, [1000], [1, 2])],
         map[1 := Info(0, KEY_MIN, 1000), 2 := Info(0, 1000, KEY_END), 3 := Info(1, KEY_MIN, KEY_END)],
         map[0 := Zeros(2000), 1 := Zeros(2000), 1000 := Zeros(2000), 2000 := Zeros(2000)],
         4)
  }

  function TwoRows(k: int, l: int): seq<Entry> {
    [Entry(k, Zeros(2000)), Entry(l, Zeros(2000))]
  }

  lemma {:induction false} TwoRowsBytes(k: int, l: int)
    ensures EntryBytes(TwoRows(k, l)) == 4024 && EntryBytes([Entry(l, Zeros(2000))]) == 2012
  {
    OneEntry(Entry(k, Zeros(2000)));
    OneEntry(Entry(l, Zeros(2000)));
    EntryBytesAppend([Entry(k, Zeros(2000))], [Entry(l, Zeros(2000))]);
    assert TwoRows(k, l) == [Entry(k, Zeros(2000))] + [Entry(l, Zeros(2000))];
  }

  lemma {:induction false} LeafListed(k: int, l: int, f: Info, rows: Rows)
    requires f.height == 0 && f.lo <= k < l < f.hi
    requires k in rows && l in rows && rows[k] == rows[l] == Zeros(2000) && forall x :: x in rows && f.lo <= x < f.hi ==> x == k || x == l
    ensures FitsPage(TwoRows(k, l)) && EntriesOk(TwoRows(k, l), f) && LeafHolds(TwoRows(k, l), f, rows)
  {
    var es := TwoRows(k, l);
    TwoRowsBytes(k, l);
    assert es[0].key == k && es[1].key == l;
  }

  lemma {:induction false} FourRowsSound()
    ensures Sound(FourRows(), 3)
  {
    var a := FourRows();
    LeafListed(0, 1, a.info[1], a.rows);
    LeafListed(1000, 2000, a.info[2], a.rows);
    var ks, cs := [1000], [1, 2];
    assert a.pages[3].keys == ks && a.pages[3].children == cs;
    assert ChildOk(a.pages, a.info, 3, ks, a.info[3], cs[0], 0) && ChildOk(a.pages, a.info, 3, ks, a.info[3], cs[1], 1);
    assert NodeOk(a.pages, a.info, 3, {}, 1) && NodeOk(a.pages, a.info, 3, {}, 2) && NodeOk(a.pages, a.info, 3, {}, 3);
    assert cs[0] == 1 && cs[1] == 2;
    assert LinkOk(a.pages, a.info, 3, 1) && LinkOk(a.pages, a.info, 3, 2) && LinkOk(a.pages, a.info, 3, 3);
  }

  /** The root is not stale and key 0 is there, and deleting it fails: leaf 1, down to one row,
      would have to be merged with leaf 2, which takes 6044 bytes. */
  lemma {:induction false} DeletionIsRefused()
    ensures var a := FourRows();
            && Sound(a, 3) && !Stale(a, 3) && 0 in a.rows && IsLeafFor(a.pages, a.info, 1, 0)
            && DeleteOverflows(a.pages, 3, 1, 0)
  {
    FourRowsSound();
    var a := FourRows();
    var es := a.pages[1].entries;
    assert es[0].key == 0;
    TwoRowsBytes(0, 1);
    TwoRowsBytes(1000, 2000);
    assert RemoveAt(es, 0) == [Entry(1, Zeros(2000))];
    var cs := a.pages[3].children;
    assert cs == [1, 2] && cs[0] == 1 && cs[1] == 2;
    assert IndexOf(cs, 1) == 0;
    assert !RepairFits(a.pages, 1, RemoveAt(es, 0));
  }
}
