/** Merging two adjacent siblings of a B-tree.

    The right page's entries (or keys and children, with the separator between) move to
    the left page, and the separator and the right page leave the parent in the same
    step.  Borrowing from a sibling is a merge followed by a split at another place. */
module BTreeMerge {
  import opened BTreeShape
  import opened BTreeSplit

  predicate SameKind(l: Node, r: Node) {
    l.Leaf? <==> r.Leaf?
  }

  function Merged(l: Node, k: int, r: Node): Node
    requires SameKind(l, r)
  {
    match l
    case Leaf(q, es) => Leaf(q, es + r.entries)
    case Internal(q, ks, cs) => Internal(q, ks + [k] + r.keys, cs + r.children)
  }

  function RemoveChild(nd: Node, j: nat): Node
    requires nd.Internal? && 0 < j < |nd.children| && |nd.children| == |nd.keys| + 1
  {
    Internal(nd.parent, RemoveAt(nd.keys, j - 1), RemoveAt(nd.children, j))
  }

  /** Children `j - 1` and `j` of page `q` are pages of one kind. */
  ghost predicate PairOk(pages: Pages, q: PageId, j: nat) {
    && q in pages && pages[q].Internal?
    && |pages[q].children| == |pages[q].keys| + 1
    && 0 < j < |pages[q].children|
    && var l, r := pages[q].children[j - 1], pages[q].children[j];
       l in pages && r in pages && SameKind(pages[l], pages[r])
  }

  ghost function MergePages(pages: Pages, q: PageId, j: nat): Pages
    requires PairOk(pages, q, j)
  {
    var l, r := pages[q].children[j - 1], pages[q].children[j];
    Reparent(pages, Kids(pages[r]), l)
      [l := Merged(pages[l], pages[q].keys[j - 1], pages[r])]
      [q := RemoveChild(pages[q], j)]
  }

  ghost function MergeInfos(m: Infos, l: PageId, r: PageId): Infos
    requires l in m && r in m
  {
    (m - {r})[l := Info(m[l].height, m[l].lo, m[r].hi)]
  }

  ghost predicate MergePre(pages: Pages, m: Infos, root: PageId, n: nat, xs: set<PageId>, q: PageId, j: nat) {
    && Valid(pages, m, root, n, xs)
    && q in m && q in pages && pages[q].Internal?
    && 0 < j < |pages[q].children|
  }

  /** The two siblings being merged: distinct pages of one height, meeting at the separator. */
  lemma PairFacts(pages: Pages, m: Infos, root: PageId, n: nat, xs: set<PageId>, q: PageId, j: nat)
    requires MergePre(pages, m, root, n, xs, q, j)
    ensures PairOk(pages, q, j)
    ensures var l, r, k, f := pages[q].children[j - 1], pages[q].children[j], pages[q].keys[j - 1], m[q];
            && l in m && r in m && l != r && l != q && r != q && l != root && r != root
            && 0 < f.height
            && ChildOk(pages, m, q, pages[q].keys, f, l, j - 1)
            && ChildOk(pages, m, q, pages[q].keys, f, r, j)
            && m[l].hi == k == m[r].lo && m[l].height == m[r].height == f.height - 1
            && NodeOk(pages, m, root, xs, l) && NodeOk(pages, m, root, xs, r)
  {
    assert NodeOk(pages, m, root, xs, q);
    var l, r := pages[q].children[j - 1], pages[q].children[j];
    assert ChildOk(pages, m, q, pages[q].keys, m[q], l, j - 1);
    assert ChildOk(pages, m, q, pages[q].keys, m[q], r, j);
    assert NodeOk(pages, m, root, xs, l) && NodeOk(pages, m, root, xs, r);
    if q != root { var _ := ParentSlot(pages, m, root, n, xs, q); }
  }

  ghost predicate MergeView(pages: Pages, pages': Pages, m: Infos, q: PageId, j: nat)
    requires PairOk(pages, q, j)
  {
    var l, r := pages[q].children[j - 1], pages[q].children[j];
    var moved := Kids(pages[r]);
    && q in pages' && l in pages'
    && (forall c :: c in m && c in pages && c != l && c != q ==>
          c in pages' && pages'[c] == if c in moved then pages[c].(parent := l) else pages[c])
    && pages'[l] == Merged(pages[l], pages[q].keys[j - 1], pages[r])
    && pages'[q] == RemoveChild(pages[q], j)
    && (forall c :: c in moved ==> c in m && c in pages && pages[c].parent == r && c != l && c != q && c != r)
    && (forall c :: c in Kids(pages[l]) ==> c in m && c in pages && pages[c].parent == l && c != l && c != q && c != r && c !in moved)
  }

  lemma MergeKids(pages: Pages, m: Infos, root: PageId, n: nat, xs: set<PageId>, q: PageId, j: nat)
    requires MergePre(pages, m, root, n, xs, q, j)
    ensures PairOk(pages, q, j) && MergeView(pages, MergePages(pages, q, j), m, q, j)
  {
    PairFacts(pages, m, root, n, xs, q, j);
    var l, r := pages[q].children[j - 1], pages[q].children[j];
    LowerKids(pages, m, root, xs, l);
    LowerKids(pages, m, root, xs, r);
  }

  lemma LowerKids(pages: Pages, m: Infos, root: PageId, xs: set<PageId>, p: PageId)
    requires NodeOk(pages, m, root, xs, p)
    ensures forall c :: c in Kids(pages[p]) ==> c in m && c in pages && pages[c].parent == p && m[c].height < m[p].height
  {
    if pages[p].Internal? {
      var ks, cs := pages[p].keys, pages[p].children;
      forall c | c in cs
        ensures c in m && c in pages && pages[c].parent == p && m[c].height < m[p].height
      {
        var i := IndexOf(cs, c);
        assert ChildOk(pages, m, p, ks, m[p], cs[i], i);
      }
    }
  }

  lemma JoinedOk(l: Node, k: int, r: Node, h: nat, lo: int, hi: int)
    requires SameKind(l, r) && lo < k < hi
    requires l.Leaf? ==> EntriesOk(l.entries, Info(h, lo, k)) && EntriesOk(r.entries, Info(h, k, hi))
    requires l.Internal? ==> KeysOk(l.keys, Info(h, lo, k)) && KeysOk(r.keys, Info(h, k, hi))
    ensures l.Leaf? ==> EntriesOk(Merged(l, k, r).entries, Info(h, lo, hi))
    ensures l.Internal? ==> KeysOk(Merged(l, k, r).keys, Info(h, lo, hi))
  {
    if l.Internal? {
      var ks := l.keys + [k] + r.keys;
      assert forall i :: 0 <= i < |l.keys| ==> ks[i] == l.keys[i];
      assert forall i :: |l.keys| < i < |ks| ==> ks[i] == r.keys[i - |l.keys| - 1];
    }
  }

  lemma MergeChildren(pages: Pages, pages': Pages, m: Infos, root: PageId, n: nat, xs: set<PageId>, q: PageId, j: nat)
    requires MergePre(pages, m, root, n, xs, q, j) && PairOk(pages, q, j) && MergeView(pages, pages', m, q, j)
    requires pages[pages[q].children[j]].Internal?
    ensures var l, r := pages[q].children[j - 1], pages[q].children[j];
            && l in m && r in m
            && var m' := MergeInfos(m, l, r);
               ChildrenOk(pages', m', l, pages'[l].keys, pages'[l].children, m'[l])
  {
    PairFacts(pages, m, root, n, xs, q, j);
    var l, r, k := pages[q].children[j - 1], pages[q].children[j], pages[q].keys[j - 1];
    var m' := MergeInfos(m, l, r);
    var ks, cs, f := pages'[l].keys, pages'[l].children, m'[l];
    var a := |pages[l].children|;
    forall i | 0 <= i < |cs|
      ensures ChildOk(pages', m', l, ks, f, cs[i], i)
    {
      if i < a {
        var c := pages[l].children[i];
        assert ChildOk(pages, m, l, pages[l].keys, m[l], c, i);
        assert c in Kids(pages[l]);
      } else {
        var c := pages[r].children[i - a];
        assert ChildOk(pages, m, r, pages[r].keys, m[r], c, i - a);
        assert c in Kids(pages[r]);
      }
    }
  }

  lemma MergeLeftOk(pages: Pages, pages': Pages, m: Infos, root: PageId, n: nat, xs: set<PageId>, q: PageId, j: nat, ys: set<PageId>)
    requires MergePre(pages, m, root, n, xs, q, j) && PairOk(pages, q, j) && MergeView(pages, pages', m, q, j)
    requires var l := pages[q].children[j - 1]; l in ys || Occupied(pages'[l], false)
    ensures var l, r := pages[q].children[j - 1], pages[q].children[j];
            l in m && r in m && NodeOk(pages', MergeInfos(m, l, r), root, ys, l)
  {
    PairFacts(pages, m, root, n, xs, q, j);
    var l, r, k := pages[q].children[j - 1], pages[q].children[j], pages[q].keys[j - 1];
    JoinedOk(pages[l], k, pages[r], m[l].height, m[l].lo, m[r].hi);
    if pages[l].Internal? {
      MergeChildren(pages, pages', m, root, n, xs, q, j);
    }
  }

  lemma RemovedKeysOk(ks: seq<int>, i: nat, f: Info)
    requires KeysOk(ks, f) && i < |ks|
    ensures KeysOk(RemoveAt(ks, i), f)
  {
  }

  lemma MergeParentOk(pages: Pages, pages': Pages, m: Infos, root: PageId, n: nat, xs: set<PageId>, q: PageId, j: nat, ys: set<PageId>)
    requires MergePre(pages, m, root, n, xs, q, j) && PairOk(pages, q, j) && MergeView(pages, pages', m, q, j)
    requires q in ys
    ensures var l, r := pages[q].children[j - 1], pages[q].children[j];
            l in m && r in m && NodeOk(pages', MergeInfos(m, l, r), root, ys, q)
  {
    PairFacts(pages, m, root, n, xs, q, j);
    assert NodeOk(pages, m, root, xs, q);
    var l, r := pages[q].children[j - 1], pages[q].children[j];
    var m' := MergeInfos(m, l, r);
    RemovedKeysOk(pages[q].keys, j - 1, m[q]);
    forall i | 0 <= i < |pages'[q].children|
      ensures ChildOk(pages', m', q, pages'[q].keys, m[q], pages'[q].children[i], i)
    {
      MergeParentChild(pages, pages', m, root, xs, q, j, i);
    }
  }

  lemma MergeParentChild(pages: Pages, pages': Pages, m: Infos, root: PageId, xs: set<PageId>, q: PageId, j: nat, i: nat)
    requires NodeOk(pages, m, root, xs, q) && PairOk(pages, q, j) && MergeView(pages, pages', m, q, j)
    requires i < |pages'[q].children|
    requires pages[q].children[j - 1] in m && pages[q].children[j] in m
    ensures var l, r := pages[q].children[j - 1], pages[q].children[j];
            ChildOk(pages', MergeInfos(m, l, r), q, pages'[q].keys, m[q], pages'[q].children[i], i)
  {
    var ks, cs, f := pages[q].keys, pages[q].children, m[q];
    var l, r := cs[j - 1], cs[j];
    var o := if i < j then i else i + 1;
    var c := cs[o];
    RemovedSlot(ks, cs, j, i, f);
    assert ChildOk(pages, m, q, ks, f, c, o);
    assert ChildOk(pages, m, q, ks, f, r, j);
    SlotsApart(pages, m, root, xs, q, o, j);
    if o == j - 1 {
      assert pages'[l].parent == q;
    } else {
      SlotsApart(pages, m, root, xs, q, o, j - 1);
      assert c !in Kids(pages[r]);
      assert pages'[c] == pages[c];
    }
  }

  lemma SlotsApart(pages: Pages, m: Infos, root: PageId, xs: set<PageId>, p: PageId, i: nat, j: nat)
    requires NodeOk(pages, m, root, xs, p) && pages[p].Internal?
    requires i < |pages[p].children| && j < |pages[p].children| && i != j
    ensures pages[p].children[i] != pages[p].children[j]
  {
    if pages[p].children[i] == pages[p].children[j] {
      ChildIndex(pages, m, root, xs, p, i, j);
    }
  }

  /** Slot `i` after child `j` is removed, in terms of the slots before. */
  lemma RemovedSlot(ks: seq<int>, cs: seq<PageId>, j: nat, i: nat, f: Info)
    requires |cs| == |ks| + 1 && 0 < j < |cs| && i < |cs| - 1
    ensures var o := if i < j then i else i + 1;
            && RemoveAt(cs, j)[i] == cs[o]
            && ChildLo(RemoveAt(ks, j - 1), i, f.lo) == ChildLo(ks, o, f.lo)
            && ChildHi(RemoveAt(ks, j - 1), i, f.hi) == ChildHi(ks, if o == j - 1 then j else o, f.hi)
  {
  }

  lemma MergeOthersOk(pages: Pages, pages': Pages, m: Infos, root: PageId, n: nat, xs: set<PageId>, q: PageId, j: nat, ys: set<PageId>, p: PageId)
    requires MergePre(pages, m, root, n, xs, q, j) && PairOk(pages, q, j) && MergeView(pages, pages', m, q, j)
    requires p in m && p != q && p != pages[q].children[j - 1] && p != pages[q].children[j]
    requires p in ys || p !in xs
    ensures var l, r := pages[q].children[j - 1], pages[q].children[j];
            l in m && r in m && NodeOk(pages', MergeInfos(m, l, r), root, ys, p)
  {
    PairFacts(pages, m, root, n, xs, q, j);
    assert NodeOk(pages, m, root, xs, p);
    var l, r := pages[q].children[j - 1], pages[q].children[j];
    NodeOkFrame(pages, m, root, xs, pages', MergeInfos(m, l, r), root, ys, p);
  }

  lemma MergeLinkOk(pages: Pages, pages': Pages, m: Infos, root: PageId, n: nat, xs: set<PageId>, q: PageId, j: nat, p: PageId)
    requires MergePre(pages, m, root, n, xs, q, j) && PairOk(pages, q, j) && MergeView(pages, pages', m, q, j)
    requires p in m && p != pages[q].children[j]
    requires var l, r := pages[q].children[j - 1], pages[q].children[j];
             l in m && r in m && r != root && r != l && r != q
    ensures var l, r := pages[q].children[j - 1], pages[q].children[j];
            LinkOk(pages', MergeInfos(m, l, r), root, p)
  {
    if p == root {
      assert LinkOk(pages, m, root, p);
    } else {
      var i := ParentSlot(pages, m, root, n, xs, p);
      MergeSlot(pages, pages', m, q, j, p, i);
    }
  }

  lemma MergeSlot(pages: Pages, pages': Pages, m: Infos, q: PageId, j: nat, p: PageId, i: nat)
    requires PairOk(pages, q, j) && MergeView(pages, pages', m, q, j)
    requires p in m && SlotOk(pages, p, i) && pages[p].parent in m && p != pages[q].children[j]
    requires pages[q].children[j] != pages[q].children[j - 1] && pages[q].children[j] != q && pages[q].children[j - 1] in m && q in m
    ensures p in pages' && pages'[p].parent in m && pages'[p].parent in pages' && pages'[p].parent != pages[q].children[j]
    ensures pages'[pages'[p].parent].Internal? && p in pages'[pages'[p].parent].children
  {
    var l, r, u := pages[q].children[j - 1], pages[q].children[j], pages[p].parent;
    if u == q {
      assert pages'[q].children[if i < j then i else i - 1] == p;
    } else if u == r {
      assert p in Kids(pages[r]);
      assert pages'[l].children[|pages[l].children| + i] == p;
    } else if u == l {
      assert p in Kids(pages[l]);
      assert pages'[l].children[i] == p;
    }
  }

  /** Merging two adjacent siblings keeps the tree valid, leaving the parent (and whatever
      else is in `ys`) excused from occupancy. */
  lemma MergeOk(pages: Pages, m: Infos, root: PageId, n: nat, xs: set<PageId>, q: PageId, j: nat, ys: set<PageId>)
    requires MergePre(pages, m, root, n, xs, q, j) && PairOk(pages, q, j)
    requires var l, r := pages[q].children[j - 1], pages[q].children[j];
             && q in ys && xs - {l, r} <= ys
             && (l in ys || Occupied(Merged(pages[l], pages[q].keys[j - 1], pages[r]), false))
    ensures var l, r := pages[q].children[j - 1], pages[q].children[j];
            && l in m && r in m && Valid(MergePages(pages, q, j), MergeInfos(m, l, r), root, n, ys)
  {
    MergeKids(pages, m, root, n, xs, q, j);
    MergeViewOk(pages, MergePages(pages, q, j), m, root, n, xs, q, j, ys);
    PairFacts(pages, m, root, n, xs, q, j);
  }

  lemma MergeViewOk(pages: Pages, pages': Pages, m: Infos, root: PageId, n: nat, xs: set<PageId>, q: PageId, j: nat, ys: set<PageId>)
    requires MergePre(pages, m, root, n, xs, q, j) && PairOk(pages, q, j) && MergeView(pages, pages', m, q, j)
    requires var l, r := pages[q].children[j - 1], pages[q].children[j];
             && q in ys && xs - {l, r} <= ys
             && (l in ys || Occupied(pages'[l], false))
    requires forall p :: p in pages' ==> p < n
    ensures var l, r := pages[q].children[j - 1], pages[q].children[j];
            && l in m && r in m && Valid(pages', MergeInfos(m, l, r), root, n, ys)
  {
    PairFacts(pages, m, root, n, xs, q, j);
    var l, r := pages[q].children[j - 1], pages[q].children[j];
    var m' := MergeInfos(m, l, r);
    forall p | p in m'
      ensures NodeOk(pages', m', root, ys, p)
    {
      if p == l {
        MergeLeftOk(pages, pages', m, root, n, xs, q, j, ys);
      } else if p == q {
        MergeParentOk(pages, pages', m, root, n, xs, q, j, ys);
      } else {
        MergeOthersOk(pages, pages', m, root, n, xs, q, j, ys, p);
      }
    }
    forall p | p in m'
      ensures LinkOk(pages', m', root, p)
    {
      MergeLinkOk(pages, pages', m, root, n, xs, q, j, p);
    }
  }

  /** Merging two siblings loses and invents no row. */
  lemma MergeHolds(pages: Pages, m: Infos, root: PageId, n: nat, xs: set<PageId>, q: PageId, j: nat, rows: Rows)
    requires MergePre(pages, m, root, n, xs, q, j) && PairOk(pages, q, j)
    requires Holds(pages, m, rows)
    ensures var l, r := pages[q].children[j - 1], pages[q].children[j];
            && l in m && r in m && Holds(MergePages(pages, q, j), MergeInfos(m, l, r), rows)
  {
    MergeKids(pages, m, root, n, xs, q, j);
    PairFacts(pages, m, root, n, xs, q, j);
    var l, r := pages[q].children[j - 1], pages[q].children[j];
    var pages', m' := MergePages(pages, q, j), MergeInfos(m, l, r);
    if pages[l].Leaf? {
      JoinedLeafHolds(pages[l].entries, m[l], pages[r].entries, m[r], rows);
    }
    forall p | p in m' && p in pages' && pages'[p].Leaf?
      ensures LeafHolds(pages'[p].entries, m'[p], rows)
    {
      if p != l {
        assert NodeOk(pages, m, root, xs, p);
      }
    }
  }

  lemma JoinedLeafHolds(a: seq<Entry>, f: Info, b: seq<Entry>, g: Info, rows: Rows)
    requires LeafHolds(a, f, rows) && LeafHolds(b, g, rows) && f.hi == g.lo
    ensures LeafHolds(a + b, Info(f.height, f.lo, g.hi), rows)
  {
    forall k | k in rows && f.lo <= k < g.hi
      ensures HasKey(a + b, k)
    {
      if k < f.hi {
        var i :| 0 <= i < |a| && a[i].key == k;
        assert (a + b)[i].key == k;
      } else {
        var i :| 0 <= i < |b| && b[i].key == k;
        assert (a + b)[|a| + i].key == k;
      }
    }
  }
}
