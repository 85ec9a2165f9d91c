/** Trees of small rows: no operation fails, and what every run keeps. */
module BTreeSmall {
  import opened Results
  import opened BTreeShape
  import opened BTreeRoot
  import opened BTreeLimits
  import opened BTreeLink
  import opened BTreeInsert
  import opened BTreeDelete
  import opened BTreeRepair
  import opened BTreeBounds
  import opened BTreeIndex

  const SMALL_ENTRY: nat := 64

  ghost predicate AllSmall(rows: Rows) {
    forall k :: k in rows ==> ENTRY_HEADER + |rows[k]| <= SMALL_ENTRY
  }

  /** What every operation on a tree of small rows starts from and leaves. */
  ghost predicate Small(t: BTree)
    reads t
  {
    t.Valid() && StaleOk(t.Snap(), t.root) && AllSmall(t.rows)
  }

  lemma LeavesSmall(a: Tree, t: PageId, q: PageId)
    requires Sound(a, t) && AllSmall(a.rows) && q in a.info && q in a.pages && a.pages[q].Leaf?
    ensures AtMost(a.pages[q].entries, SMALL_ENTRY) && FitsPage(a.pages[q].entries)
  {
    assert NodeOk(a.pages, a.info, t, {}, q);
    assert LeafHolds(a.pages[q].entries, a.info[q], a.rows);
  }

  /** One split makes room, so only a stale root can cost rows. */
  lemma SmallInsert(a: Tree, t: PageId, p: PageId, key: int, data: seq<byte>)
    requires Sound(a, t) && AllSmall(a.rows) && StaleOk(a, t) && ENTRY_HEADER + |data| <= SMALL_ENTRY
    requires IsLeafFor(a.pages, a.info, p, key) && a.n + a.info[t].height + 3 <= U32_END
    ensures !HasRoom(a.pages[p].entries, data) ==> Splittable(a, p, key, data, t)
    ensures !Stuck(a.pages[p].entries, key, data)
    ensures Loses(a, p, key, data, t) <==> Stale(a, t) && SplitsRoot(a, p, key, data, t)
    ensures Allowance(Splits(a.pages[p].entries, key, data), a.info[t].height) <= a.info[t].height + 3
  {
    LeavesSmall(a, t, p);
    OneSplitSuffices(a.pages[p].entries, key, data);
    var n := Splits(a.pages[p].entries, key, data);
    assert n == 0 || n == 1;
    assert Allowance(n, a.info[t].height) <= a.info[t].height + 3;
  }

  /** Insertion never fails. It adds the row, and leaves a tree to which this applies again,
      unless the root is stale and the split reaches it: exactly then rows are lost. */
  method InsertSmall(t: BTree, key: int, data: seq<byte>) returns (res: Result<()>)
    requires Small(t) && KEY_MIN <= key < KEY_END && key !in t.rows && ENTRY_HEADER + |data| <= SMALL_ENTRY
    requires t.numPages + t.info[t.root].height + 3 <= U32_END
    modifies t
    ensures res.Ok? && t.Valid()
    ensures forall p :: IsLeafFor(old(t.pages), old(t.info), p, key) ==>
              (t.rows == old(t.rows)[key := data] <==> !(Stale(old(t.Snap()), old(t.root)) && SplitsRoot(old(t.Snap()), p, key, data, old(t.root))))
    ensures t.rows == old(t.rows)[key := data] ==> Small(t)
    ensures !Stale(old(t.Snap()), old(t.root)) ==> t.rows == old(t.rows)[key := data] && !Stale(t.Snap(), t.root)
    ensures t.numPages <= old(t.numPages) + old(t.info)[old(t.root)].height + 3
    ensures forall p :: IsLeafFor(old(t.pages), old(t.info), p, key) && HasRoom(old(t.pages)[p].entries, data) ==>
              t.root == old(t.root) && WroteLeaf(old(t.Snap()), t.Snap(), p, key, data, t.root)
  {
    ghost var a, root := t.Snap(), t.root;
    forall p | IsLeafFor(a.pages, a.info, p, key)
      ensures !HasRoom(a.pages[p].entries, data) ==> Splittable(a, p, key, data, root)
      ensures !Stuck(a.pages[p].entries, key, data)
      ensures Loses(a, p, key, data, root) <==> Stale(a, root) && SplitsRoot(a, p, key, data, root)
      ensures Allowance(Splits(a.pages[p].entries, key, data), a.info[root].height) <= a.info[root].height + 3
    {
      SmallInsert(a, root, p, key, data);
    }
    var p := t.FindLeaf(key);
    res := t.Insert(key, data);
    assert IsLeafFor(a.pages, a.info, p, key);
  }

  /** Deletion never fails either: every repair fits. */
  method DeleteSmall(t: BTree, key: int) returns (res: Result<bool>)
    requires Small(t) && KEY_MIN <= key < KEY_END
    modifies t
    ensures res.Ok? && Small(t) && t.rows == old(t.rows) - {key} && (res.value <==> key in old(t.rows))
    ensures RootKept(old(t.Snap()), t.Snap(), old(t.root), t.root) && t.numPages == old(t.numPages)
  {
    ghost var a := t.Snap();
    var p := t.FindLeaf(key);
    SmallDelete(a, t.root, p, key);
    res := t.Delete(key);
  }

  lemma SmallDelete(a: Tree, t: PageId, p: PageId, key: int)
    requires Sound(a, t) && AllSmall(a.rows) && IsLeafFor(a.pages, a.info, p, key)
    ensures !DeleteOverflows(a.pages, t, p, key)
  {
    if p != t {
      forall x | 0 <= x < |a.pages[p].entries| && a.pages[p].entries[x].key == key && |a.pages[p].entries| <= MIN_KEYS
        ensures RepairFits(a.pages, p, RemoveAt(a.pages[p].entries, x))
      {
        SmallRepair(a, t, p, x);
      }
    }
  }

  lemma SmallRepair(a: Tree, t: PageId, p: PageId, x: nat)
    requires Sound(a, t) && AllSmall(a.rows) && p in a.info && p in a.pages && p != t && a.pages[p].Leaf?
    requires x < |a.pages[p].entries| <= MIN_KEYS
    ensures RepairFits(a.pages, p, RemoveAt(a.pages[p].entries, x))
  {
    LeavesSmall(a, t, p);
    var es := RemoveAt(a.pages[p].entries, x);
    BytesAtMost(es, SMALL_ENTRY);
    var slot := ParentSlot(a.pages, a.info, t, a.n, {}, p);
    var q := a.pages[p].parent;
    assert NodeOk(a.pages, a.info, t, {}, q);
    var i := IndexOf(a.pages[q].children, p);
    var y := if i == 0 then 1 else i - 1;
    var sib := a.pages[q].children[y];
    assert ChildOk(a.pages, a.info, q, a.pages[q].keys, a.info[q], sib, y);
    assert NodeOk(a.pages, a.info, t, {}, sib) && NodeOk(a.pages, a.info, t, {}, p);
    assert a.pages[sib].Leaf?;
    LeavesSmall(a, t, sib);
    if |a.pages[sib].entries| <= MIN_KEYS {
      BytesAtMost(a.pages[sib].entries, SMALL_ENTRY);
    }
  }
}
