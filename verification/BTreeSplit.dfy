/** Splitting one page of a B-tree in two.

    The separator and the new right page are inserted into the parent in the same step,
    so the parent may end up with one key too many; it is then the page excused from
    occupancy. */
module BTreeSplit {
  import opened BTreeShape

  function Kids(nd: Node): seq<PageId> {
    if nd.Leaf? then [] else nd.children
  }

  /** Point the parent field of every page in `cs` at `q`. */
  function Reparent(pages: Pages, cs: seq<PageId>, q: PageId): Pages {
    map c | c in pages :: if c in cs then pages[c].(parent := q) else pages[c]
  }

  predicate CanSplit(nd: Node, s: nat) {
    match nd
    case Leaf(_, es) => 0 < s < |es|
    case Internal(_, ks, cs) => s < |ks| && |cs| == |ks| + 1
  }

  /** The separator: the first key of the right leaf, or the promoted middle key. */
  function SplitKey(nd: Node, s: nat): int
    requires CanSplit(nd, s)
  {
    if nd.Leaf? then nd.entries[s].key else nd.keys[s]
  }

  function LeftHalf(nd: Node, s: nat): Node
    requires CanSplit(nd, s)
  {
    match nd
    case Leaf(q, es) => Leaf(q, es[..s])
    case Internal(q, ks, cs) => Internal(q, ks[..s], cs[..s + 1])
  }

  function RightHalf(nd: Node, s: nat, parent: PageId): Node
    requires CanSplit(nd, s)
  {
    match nd
    case Leaf(_, es) => Leaf(parent, es[s..])
    case Internal(_, ks, cs) => Internal(parent, ks[s + 1..], cs[s + 1..])
  }

  function InsertChild(nd: Node, i: nat, k: int, c: PageId): Node
    requires nd.Internal? && i <= |nd.keys| && |nd.children| == |nd.keys| + 1
  {
    Internal(nd.parent, InsertAt(nd.keys, i, k), InsertAt(nd.children, i + 1, c))
  }

  ghost predicate SlotOk(pages: Pages, p: PageId, i: nat) {
    && p in pages
    && var q := pages[p].parent;
       && q in pages && pages[q].Internal? && q != p
       && |pages[q].children| == |pages[q].keys| + 1
       && i < |pages[q].children| && pages[q].children[i] == p
  }

  /** Page `p`, child `i` of its parent, split at `s` with page `r` as the right half. */
  ghost function SplitPages(pages: Pages, p: PageId, i: nat, s: nat, r: PageId): Pages
    requires SlotOk(pages, p, i) && CanSplit(pages[p], s)
  {
    var nd, q := pages[p], pages[p].parent;
    var right := RightHalf(nd, s, q);
    Reparent(pages, Kids(right), r)
      [p := LeftHalf(nd, s)]
      [r := right]
      [q := InsertChild(pages[q], i, SplitKey(nd, s), r)]
  }

  ghost function SplitInfos(m: Infos, p: PageId, k: int, r: PageId): Infos
    requires p in m
  {
    m[p := Info(m[p].height, m[p].lo, k)][r := Info(m[p].height, k, m[p].hi)]
  }

  ghost predicate SplitPre(pages: Pages, m: Infos, root: PageId, n: nat, xs: set<PageId>, p: PageId, i: nat, s: nat, r: PageId) {
    && Valid(pages, m, root, n, xs)
    && p in m && p != root && r !in m && 0 < r
    && SlotOk(pages, p, i) && CanSplit(pages[p], s)
  }

  lemma SplitKeyInside(pages: Pages, m: Infos, root: PageId, n: nat, xs: set<PageId>, p: PageId, s: nat)
    requires Valid(pages, m, root, n, xs) && p in m && p in pages && CanSplit(pages[p], s)
    ensures m[p].lo < SplitKey(pages[p], s) < m[p].hi
  {
    assert NodeOk(pages, m, root, xs, p);
    if pages[p].Leaf? {
      assert pages[p].entries[0].key < pages[p].entries[s].key;
    }
  }

  lemma InsertedKeysOk(ks: seq<int>, i: nat, k: int, f: Info)
    requires KeysOk(ks, f) && i <= |ks|
    requires ChildLo(ks, i, f.lo) < k < ChildHi(ks, i, f.hi)
    ensures KeysOk(InsertAt(ks, i, k), f)
  {
    var ks' := InsertAt(ks, i, k);
    assert forall j :: 0 <= j < i ==> ks'[j] == ks[j];
    assert forall j :: i < j < |ks'| ==> ks'[j] == ks[j - 1];
  }

  /** A page whose own node and whose children's links are untouched stays right. */
  lemma NodeOkFrame(pages: Pages, m: Infos, root: PageId, xs: set<PageId>,
                    pages': Pages, m': Infos, root': PageId, ys: set<PageId>, q: PageId)
    requires NodeOk(pages, m, root, xs, q)
    requires q in m' && m'[q] == m[q] && q in pages' && Bare(pages'[q]) == Bare(pages[q])
    requires q in ys || (q !in xs && (q == root <==> q == root'))
             || Occupied(pages[q], q == root')
    requires forall c :: c in m && c in pages && pages[c].parent == q ==>
               c in m' && m'[c] == m[c] && c in pages' && pages'[c].parent == q
    ensures NodeOk(pages', m', root', ys, q)
  {
    if pages[q].Internal? {
      var ks, cs, f := pages[q].keys, pages[q].children, m[q];
      forall i | 0 <= i < |cs|
        ensures ChildOk(pages', m', q, ks, f, cs[i], i)
      {
        assert ChildOk(pages, m, q, ks, f, cs[i], i);
      }
      assert ChildrenOk(pages', m', q, ks, cs, f);
      assert pages'[q].keys == ks && pages'[q].children == cs;
    } else {
      assert pages'[q].entries == pages[q].entries;
    }
  }

  /** `c` is a child of `p` other than the pages a split of `p` rewrites. */
  ghost predicate IsKid(pages: Pages, m: Infos, p: PageId, r: PageId, c: PageId) {
    && c in m && c in pages && p in pages
    && pages[c].parent == p
    && c != p && c != pages[p].parent && c != r
  }

  lemma KidsOf(pages: Pages, m: Infos, root: PageId, n: nat, xs: set<PageId>, p: PageId, r: PageId)
    requires Valid(pages, m, root, n, xs) && p in m && p != root && r !in m
    ensures p in pages && forall c :: c in Kids(pages[p]) ==> IsKid(pages, m, p, r, c)
  {
    assert NodeOk(pages, m, root, xs, p);
    var _ := ParentSlot(pages, m, root, n, xs, p);
    if pages[p].Internal? {
      var ks, cs := pages[p].keys, pages[p].children;
      forall c | c in cs
        ensures IsKid(pages, m, p, r, c)
      {
        var j := IndexOf(cs, c);
        assert ChildOk(pages, m, p, ks, m[p], cs[j], j);
      }
    }
  }

  lemma KidsApart(pages: Pages, m: Infos, root: PageId, xs: set<PageId>, p: PageId, s: nat)
    requires NodeOk(pages, m, root, xs, p) && CanSplit(pages[p], s)
    ensures forall c :: c in Kids(LeftHalf(pages[p], s)) ==> c !in Kids(RightHalf(pages[p], s, 0))
  {
    if pages[p].Internal? {
      var cs := pages[p].children;
      forall a, b | 0 <= a < s + 1 <= b < |cs|
        ensures cs[a] != cs[b]
      {
        if cs[a] == cs[b] { ChildIndex(pages, m, root, xs, p, a, b); }
      }
    }
  }

  ghost predicate SplitView(pages: Pages, pages': Pages, m: Infos, p: PageId, i: nat, s: nat, r: PageId)
    requires SlotOk(pages, p, i) && CanSplit(pages[p], s)
  {
    var q, moved := pages[p].parent, Kids(RightHalf(pages[p], s, 0));
    && r != p && r != q && r in pages' && p in pages' && q in pages'
    && (forall c :: c in m && c in pages && c != p && c != q ==>
          c in pages' && pages'[c] == if c in moved then pages[c].(parent := r) else pages[c])
    && pages'[p] == LeftHalf(pages[p], s)
    && pages'[r] == RightHalf(pages[p], s, q)
    && pages'[q] == InsertChild(pages[q], i, SplitKey(pages[p], s), r)
    && (forall c :: c in Kids(pages[p]) ==> IsKid(pages, m, p, r, c))
    && (forall c :: c in Kids(LeftHalf(pages[p], s)) ==> c in Kids(pages[p]) && c !in moved)
    && (forall c :: c in moved ==> c in Kids(pages[p]))
  }

  /** What the pages look like after a split: the children moved to the right half, and
      only they, change parent. */
  lemma SplitKids(pages: Pages, m: Infos, root: PageId, n: nat, xs: set<PageId>, p: PageId, i: nat, s: nat, r: PageId)
    requires SplitPre(pages, m, root, n, xs, p, i, s, r)
    ensures SplitView(pages, SplitPages(pages, p, i, s, r), m, p, i, s, r)
  {
    assert NodeOk(pages, m, root, xs, p);
    var _ := ParentSlot(pages, m, root, n, xs, p);
    KidsOf(pages, m, root, n, xs, p, r);
    KidsApart(pages, m, root, xs, p, s);
  }

  lemma HalvesOk(nd: Node, s: nat, f: Info)
    requires CanSplit(nd, s)
    requires nd.Leaf? ==> EntriesOk(nd.entries, f)
    requires nd.Internal? ==> KeysOk(nd.keys, f)
    ensures var k := SplitKey(nd, s);
            && (nd.Leaf? ==> EntriesOk(nd.entries[..s], Info(f.height, f.lo, k)) && EntriesOk(nd.entries[s..], Info(f.height, k, f.hi)))
            && (nd.Internal? ==> KeysOk(nd.keys[..s], Info(f.height, f.lo, k)) && KeysOk(nd.keys[s + 1..], Info(f.height, k, f.hi)))
  {
  }

  lemma SplitLeftChildren(pages: Pages, pages': Pages, m: Infos, root: PageId, xs: set<PageId>, p: PageId, i: nat, s: nat, r: PageId)
    requires NodeOk(pages, m, root, xs, p) && pages[p].Internal? && r !in m
    requires SlotOk(pages, p, i) && CanSplit(pages[p], s) && SplitView(pages, pages', m, p, i, s, r)
    ensures var m' := SplitInfos(m, p, SplitKey(pages[p], s), r);
            ChildrenOk(pages', m', p, pages[p].keys[..s], pages[p].children[..s + 1], m'[p])
  {
    var m' := SplitInfos(m, p, SplitKey(pages[p], s), r);
    var ks, cs, f := pages[p].keys, pages[p].children, m'[p];
    var ks', cs' := ks[..s], cs[..s + 1];
    assert Kids(LeftHalf(pages[p], s)) == cs';
    forall j | 0 <= j < |cs'|
      ensures ChildOk(pages', m', p, ks', f, cs'[j], j)
    {
      var c := cs'[j];
      assert ChildOk(pages, m, p, ks, m[p], cs[j], j);
      assert c in cs';
      assert IsKid(pages, m, p, r, c);
      assert pages'[c] == pages[c];
    }
  }

  lemma SplitRightChildren(pages: Pages, pages': Pages, m: Infos, root: PageId, xs: set<PageId>, p: PageId, i: nat, s: nat, r: PageId)
    requires NodeOk(pages, m, root, xs, p) && pages[p].Internal? && r !in m
    requires SlotOk(pages, p, i) && CanSplit(pages[p], s) && SplitView(pages, pages', m, p, i, s, r)
    ensures var m' := SplitInfos(m, p, SplitKey(pages[p], s), r);
            ChildrenOk(pages', m', r, pages[p].keys[s + 1..], pages[p].children[s + 1..], m'[r])
  {
    var m' := SplitInfos(m, p, SplitKey(pages[p], s), r);
    var ks, cs, f := pages[p].keys, pages[p].children, m'[r];
    var ks', cs' := ks[s + 1..], cs[s + 1..];
    assert Kids(RightHalf(pages[p], s, 0)) == cs';
    forall j | 0 <= j < |cs'|
      ensures ChildOk(pages', m', r, ks', f, cs'[j], j)
    {
      var c := cs'[j];
      assert ChildOk(pages, m, p, ks, m[p], cs[s + 1 + j], s + 1 + j);
      assert c in cs';
      assert IsKid(pages, m, p, r, c);
      assert pages'[c] == pages[c].(parent := r);
    }
  }

  lemma SplitHalvesOk(pages: Pages, pages': Pages, m: Infos, root: PageId, n: nat, xs: set<PageId>, p: PageId, i: nat, s: nat, r: PageId, ys: set<PageId>)
    requires SplitPre(pages, m, root, n, xs, p, i, s, r) && SplitView(pages, pages', m, p, i, s, r)
    requires p in ys || Occupied(LeftHalf(pages[p], s), false)
    requires r in ys || Occupied(RightHalf(pages[p], s, 0), false)
    ensures NodeOk(pages', SplitInfos(m, p, SplitKey(pages[p], s), r), root, ys, p)
    ensures NodeOk(pages', SplitInfos(m, p, SplitKey(pages[p], s), r), root, ys, r)
  {
    SplitKeyInside(pages, m, root, n, xs, p, s);
    assert NodeOk(pages, m, root, xs, p);
    HalvesOk(pages[p], s, m[p]);
    if pages[p].Internal? {
      SplitLeftChildren(pages, pages', m, root, xs, p, i, s, r);
      SplitRightChildren(pages, pages', m, root, xs, p, i, s, r);
    }
  }

  lemma SplitParentOk(pages: Pages, pages': Pages, m: Infos, root: PageId, n: nat, xs: set<PageId>, p: PageId, i: nat, s: nat, r: PageId, ys: set<PageId>)
    requires SplitPre(pages, m, root, n, xs, p, i, s, r) && SplitView(pages, pages', m, p, i, s, r)
    requires pages[p].parent in ys
    ensures NodeOk(pages', SplitInfos(m, p, SplitKey(pages[p], s), r), root, ys, pages[p].parent)
  {
    SplitKeyInside(pages, m, root, n, xs, p, s);
    var _ := ParentSlot(pages, m, root, n, xs, p);
    var k, q := SplitKey(pages[p], s), pages[p].parent;
    var m' := SplitInfos(m, p, k, r);
    assert NodeOk(pages, m, root, xs, q);
    var ks, cs, f := pages[q].keys, pages[q].children, m[q];
    assert ChildOk(pages, m, q, ks, f, p, i);
    InsertedKeysOk(ks, i, k, f);
    var ks', cs' := InsertAt(ks, i, k), InsertAt(cs, i + 1, r);
    forall j | 0 <= j < |cs'|
      ensures ChildOk(pages', m', q, ks', f, cs'[j], j)
    {
      if j <= i {
        assert ChildOk(pages, m, q, ks, f, cs[j], j);
        assert cs[j] == p ==> i == j by { if cs[j] == p { ChildIndex(pages, m, root, xs, q, i, j); } }
      } else if i + 1 < j {
        assert ChildOk(pages, m, q, ks, f, cs[j - 1], j - 1);
      }
    }
    assert ChildrenOk(pages', m', q, ks', cs', f);
    assert pages'[q].Internal? && pages'[q].keys == ks' && pages'[q].children == cs' && m'[q] == f;
    assert KeysOk(ks', f);
  }

  lemma SplitOthersOk(pages: Pages, pages': Pages, m: Infos, root: PageId, n: nat, xs: set<PageId>, p: PageId, i: nat, s: nat, r: PageId, ys: set<PageId>, q: PageId)
    requires SplitPre(pages, m, root, n, xs, p, i, s, r) && SplitView(pages, pages', m, p, i, s, r)
    requires q in m && q != p && q != pages[p].parent
    requires q in ys || q !in xs
    ensures NodeOk(pages', SplitInfos(m, p, SplitKey(pages[p], s), r), root, ys, q)
  {
    assert NodeOk(pages, m, root, xs, q);
    NodeOkFrame(pages, m, root, xs, pages', SplitInfos(m, p, SplitKey(pages[p], s), r), root, ys, q);
  }

  lemma SplitLinkOk(pages: Pages, pages': Pages, m: Infos, root: PageId, n: nat, xs: set<PageId>, p: PageId, i: nat, s: nat, r: PageId, q: PageId)
    requires SplitPre(pages, m, root, n, xs, p, i, s, r) && SplitView(pages, pages', m, p, i, s, r)
    requires q in m || q == r
    ensures LinkOk(pages', SplitInfos(m, p, SplitKey(pages[p], s), r), root, q)
  {
    var _ := ParentSlot(pages, m, root, n, xs, p);
    var pp := pages[p].parent;
    var cs := pages[pp].children;
    assert InsertAt(cs, i + 1, r)[i + 1] == r;
    assert forall c :: c in cs ==> c in InsertAt(cs, i + 1, r) by {
      assert cs == cs[..i + 1] + cs[i + 1..];
    }
    if q != r {
      assert LinkOk(pages, m, root, q);
      if pages[q].parent == p && q != root {
        assert pages[p].children == pages[p].children[..s + 1] + pages[p].children[s + 1..];
      }
    }
  }

  /** Splitting a page keeps the tree valid, leaving its parent (and whatever else is in
      `ys`) excused from occupancy. */
  lemma SplitOk(pages: Pages, m: Infos, root: PageId, n: nat, xs: set<PageId>, p: PageId, i: nat, s: nat, r: PageId, n': nat, ys: set<PageId>)
    requires SplitPre(pages, m, root, n, xs, p, i, s, r)
    requires n <= n' && r < n'
    requires pages[p].parent in ys && xs - {p} <= ys
    requires p in ys || Occupied(LeftHalf(pages[p], s), false)
    requires r in ys || Occupied(RightHalf(pages[p], s, 0), false)
    ensures Valid(SplitPages(pages, p, i, s, r), SplitInfos(m, p, SplitKey(pages[p], s), r), root, n', ys)
  {
    var pages', k := SplitPages(pages, p, i, s, r), SplitKey(pages[p], s);
    var m' := SplitInfos(m, p, k, r);
    SplitKids(pages, m, root, n, xs, p, i, s, r);
    forall q | q in m'
      ensures NodeOk(pages', m', root, ys, q)
    {
      if q == p || q == r {
        SplitHalvesOk(pages, pages', m, root, n, xs, p, i, s, r, ys);
      } else if q == pages[p].parent {
        SplitParentOk(pages, pages', m, root, n, xs, p, i, s, r, ys);
      } else {
        SplitOthersOk(pages, pages', m, root, n, xs, p, i, s, r, ys, q);
      }
    }
    forall q | q in m'
      ensures LinkOk(pages', m', root, q)
    {
      SplitLinkOk(pages, pages', m, root, n, xs, p, i, s, r, q);
    }
  }

  /** Splitting a page loses and invents no row. */
  lemma SplitHolds(pages: Pages, m: Infos, root: PageId, n: nat, xs: set<PageId>, p: PageId, i: nat, s: nat, r: PageId, rows: Rows)
    requires SplitPre(pages, m, root, n, xs, p, i, s, r)
    requires Holds(pages, m, rows)
    ensures Holds(SplitPages(pages, p, i, s, r), SplitInfos(m, p, SplitKey(pages[p], s), r), rows)
  {
    SplitKids(pages, m, root, n, xs, p, i, s, r);
    assert NodeOk(pages, m, root, xs, p);
    var pages', k := SplitPages(pages, p, i, s, r), SplitKey(pages[p], s);
    var m' := SplitInfos(m, p, k, r);
    if pages[p].Leaf? {
      SplitLeafHolds(pages[p].entries, m[p], s, rows);
    }
    forall q | q in m' && q in pages' && pages'[q].Leaf?
      ensures LeafHolds(pages'[q].entries, m'[q], rows)
    {
      if q != p && q != r {
        assert NodeOk(pages, m, root, xs, q);
      }
    }
  }

  lemma SplitLeafHolds(es: seq<Entry>, f: Info, s: nat, rows: Rows)
    requires EntriesOk(es, f) && LeafHolds(es, f, rows) && 0 < s < |es|
    ensures LeafHolds(es[..s], Info(f.height, f.lo, es[s].key), rows)
    ensures LeafHolds(es[s..], Info(f.height, es[s].key, f.hi), rows)
  {
    forall k | k in rows && f.lo <= k < f.hi
      ensures k < es[s].key ==> HasKey(es[..s], k)
      ensures es[s].key <= k ==> HasKey(es[s..], k)
    {
      var j :| 0 <= j < |es| && es[j].key == k;
      if j < s {
        assert es[..s][j].key == k;
      } else {
        assert es[s..][j - s].key == k;
      }
    }
  }
}
