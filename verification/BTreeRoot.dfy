/** Growing and collapsing the root, rewriting one leaf, and what is left of a tree when
    the right half of a root split is never linked in. */
module BTreeRoot {
  import opened BTreeShape
  import opened BTreeSplit

  // ---------------------------------------------------------------- root growth

  /** A new root `t` above the old one, for now with a single child and no key. */
  ghost function GrownPages(pages: Pages, root: PageId, t: PageId): Pages
    requires root in pages
  {
    pages[root := pages[root].(parent := t)][t := Internal(0, [], [root])]
  }

  ghost function GrownInfos(m: Infos, root: PageId, t: PageId): Infos
    requires root in m
  {
    m[t := Info(m[root].height + 1, KEY_MIN, KEY_END)]
  }

  lemma GrowOk(pages: Pages, m: Infos, root: PageId, n: nat, xs: set<PageId>, t: PageId, n': nat, ys: set<PageId>)
    requires Valid(pages, m, root, n, xs)
    requires t !in m && 0 < t < n' && n <= n'
    requires xs + {root, t} <= ys
    ensures root in pages
    ensures Valid(GrownPages(pages, root, t), GrownInfos(m, root, t), t, n', ys)
  {
    assert NodeOk(pages, m, root, xs, root);
    var pages', m' := GrownPages(pages, root, t), GrownInfos(m, root, t);
    forall p | p in m'
      ensures NodeOk(pages', m', t, ys, p)
    {
      if p == t {
        assert ChildOk(pages', m', t, [], m'[t], root, 0);
      } else {
        assert NodeOk(pages, m, root, xs, p);
        RootIsNoChild(pages, m, root, n, xs, p);
        NodeOkRootFrame(pages, m, root, xs, pages', m', t, ys, p);
      }
    }
    forall p | p in m'
      ensures LinkOk(pages', m', t, p)
    {
      if p != t {
        assert LinkOk(pages, m, root, p);
        if p != root {
          var _ := ParentSlot(pages, m, root, n, xs, p);
        }
      }
    }
  }

  lemma NodeOkRootFrame(pages: Pages, m: Infos, root: PageId, xs: set<PageId>, pages': Pages, m': Infos, t: PageId, ys: set<PageId>, p: PageId)
    requires NodeOk(pages, m, root, xs, p) && root in m && root in pages && root in ys && xs <= ys
    requires forall q :: q in m ==> q in m' && m'[q] == m[q]
    requires forall q :: q in m && q in pages ==> q in pages' && Bare(pages'[q]) == Bare(pages[q])
    requires forall q :: q in m && q in pages && q != root ==> pages'[q] == pages[q]
    requires t !in m
    requires pages[p].Internal? ==> root !in pages[p].children
    ensures NodeOk(pages', m', t, ys, p)
  {
    if pages[p].Internal? {
      var ks, cs, f := pages[p].keys, pages[p].children, m[p];
      forall i | 0 <= i < |cs|
        ensures ChildOk(pages', m', p, ks, f, cs[i], i)
      {
        assert ChildOk(pages, m, p, ks, f, cs[i], i);
      }
      assert pages'[p].keys == ks && pages'[p].children == cs;
    } else {
      assert pages'[p].entries == pages[p].entries;
    }
  }

  lemma RootIsNoChild(pages: Pages, m: Infos, root: PageId, n: nat, xs: set<PageId>, p: PageId)
    requires Valid(pages, m, root, n, xs) && p in m
    ensures p in pages && (pages[p].Internal? ==> root !in pages[p].children)
  {
    assert NodeOk(pages, m, root, xs, p);
    if pages[p].Internal? && root in pages[p].children {
      var i := IndexOf(pages[p].children, root);
      assert ChildOk(pages, m, p, pages[p].keys, m[p], root, i);
      if p != root {
        var _ := ParentSlot(pages, m, root, n, xs, p);
      }
    }
  }

  lemma GrowHolds(pages: Pages, m: Infos, root: PageId, t: PageId, rows: Rows)
    requires Holds(pages, m, rows) && root in m && root in pages && t !in m
    ensures Holds(GrownPages(pages, root, t), GrownInfos(m, root, t), rows)
  {
  }

  // ---------------------------------------------------------------- root collapse

  /** A root with no key gives way to its only child; no page is written. */
  lemma CollapseOk(pages: Pages, m: Infos, root: PageId, n: nat, xs: set<PageId>)
    requires Valid(pages, m, root, n, xs)
    requires root in pages && pages[root].Internal? && |pages[root].keys| == 0
    ensures |pages[root].children| == 1 && pages[root].children[0] in m
    ensures Valid(pages, m - {root}, pages[root].children[0], n, xs - {root})
  {
    assert NodeOk(pages, m, root, xs, root);
    var c, m' := pages[root].children[0], m - {root};
    assert ChildOk(pages, m, root, pages[root].keys, m[root], c, 0);
    forall p | p in m'
      ensures NodeOk(pages, m', c, xs - {root}, p)
    {
      assert NodeOk(pages, m, root, xs, p);
      RootIsNoChild(pages, m, root, n, xs, p);
      if pages[p].Internal? {
        var ks, cs, f := pages[p].keys, pages[p].children, m[p];
        forall i | 0 <= i < |cs|
          ensures ChildOk(pages, m', p, ks, f, cs[i], i)
        {
          assert ChildOk(pages, m, p, ks, f, cs[i], i);
        }
      }
    }
    forall p | p in m'
      ensures LinkOk(pages, m', c, p)
    {
      var i := ParentSlot(pages, m, root, n, xs, p);
      if p != c {
        var u := pages[p].parent;
        if u != root {
          var _ := ParentSlot(pages, m, root, n, xs, u);
        }
      }
    }
  }

  // ---------------------------------------------------------------- one leaf

  lemma LeafRewriteOk(pages: Pages, m: Infos, root: PageId, n: nat, xs: set<PageId>, p: PageId, es: seq<Entry>, ys: set<PageId>)
    requires Valid(pages, m, root, n, xs) && p in m && p in pages && pages[p].Leaf?
    requires EntriesOk(es, m[p])
    requires xs - {p} <= ys && (p in ys || Occupied(Leaf(0, es), p == root))
    ensures Valid(pages[p := Leaf(pages[p].parent, es)], m, root, n, ys)
  {
    var pages' := pages[p := Leaf(pages[p].parent, es)];
    assert NodeOk(pages, m, root, xs, p);
    forall q | q in m
      ensures NodeOk(pages', m, root, ys, q)
    {
      if q != p {
        assert NodeOk(pages, m, root, xs, q);
        NodeOkFrame(pages, m, root, xs, pages', m, root, ys, q);
      }
    }
    forall q | q in m
      ensures LinkOk(pages', m, root, q)
    {
      assert LinkOk(pages, m, root, q);
    }
  }

  /** Changing one leaf changes the contents inside that leaf's range only. */
  lemma LeafRewriteHolds(pages: Pages, m: Infos, root: PageId, n: nat, xs: set<PageId>, p: PageId, es: seq<Entry>, rows: Rows, rows': Rows)
    requires Valid(pages, m, root, n, xs) && p in m && p in pages && pages[p].Leaf?
    requires Holds(pages, m, rows)
    requires forall k :: k in rows' ==> KEY_MIN <= k < KEY_END
    requires forall k :: !(m[p].lo <= k < m[p].hi) ==> (k in rows' <==> k in rows) && (k in rows ==> rows'[k] == rows[k])
    requires LeafHolds(es, m[p], rows')
    ensures Holds(pages[p := Leaf(pages[p].parent, es)], m, rows')
  {
    var pages' := pages[p := Leaf(pages[p].parent, es)];
    assert NodeOk(pages, m, root, xs, p);
    forall q | q in m && q in pages' && pages'[q].Leaf?
      ensures LeafHolds(pages'[q].entries, m[q], rows')
    {
      if q != p {
        assert NodeOk(pages, m, root, xs, q);
        RangesDisjoint(pages, m, root, n, xs, p, q);
      }
    }
  }

  // ---------------------------------------------------------------- a lost right half

  /** What is left of the tree below a root [l | k | r] when only `l` is kept: the pages
      below the separator, the rightmost ones now answering for everything above too. */
  ghost function KeptInfos(m: Infos, t: PageId, k: int): Infos {
    map q | q in m && q != t && m[q].hi <= k ::
      if m[q].hi == k then Info(m[q].height, m[q].lo, KEY_END) else m[q]
  }

  ghost function Below(rows: Rows, k: int): Rows {
    map x | x in rows && x < k :: rows[x]
  }

  ghost predicate TwoChildRoot(pages: Pages, m: Infos, t: PageId, n: nat, xs: set<PageId>, k: int, l: PageId, r: PageId) {
    && Valid(pages, m, t, n, xs)
    && t in pages && pages[t].Internal?
    && pages[t].keys == [k] && pages[t].children == [l, r]
  }

  /** Every page other than the root is on one side of the root's separator, with its parent. */
  lemma {:induction false} OneSide(pages: Pages, m: Infos, t: PageId, n: nat, xs: set<PageId>, k: int, l: PageId, r: PageId, p: PageId)
    requires TwoChildRoot(pages, m, t, n, xs, k, l, r)
    requires p in m && p != t
    ensures m[p].lo < m[p].hi && (m[p].hi <= k || k <= m[p].lo)
    ensures p in pages && (pages[p].parent == t ==> p == l || p == r)
    ensures m[p].hi <= k && p != l ==>
              var u := pages[p].parent;
              u in m && u != t && m[u].hi <= k
    decreases m[t].height - m[p].height
  {
    var i := ParentSlot(pages, m, t, n, xs, p);
    assert NodeOk(pages, m, t, xs, p);
    var u := pages[p].parent;
    if u != t {
      OneSide(pages, m, t, n, xs, k, l, r, u);
    }
  }

  lemma RootPair(pages: Pages, m: Infos, t: PageId, n: nat, xs: set<PageId>, k: int, l: PageId, r: PageId)
    requires TwoChildRoot(pages, m, t, n, xs, k, l, r)
    ensures KEY_MIN < k < KEY_END && l in m && l in pages && l != t && 0 < m[t].height
    ensures m[l] == Info(m[t].height - 1, KEY_MIN, k)
    ensures r in m && r in pages && r != t && r != l && m[r] == Info(m[t].height - 1, k, KEY_END)
    ensures pages[l].parent == t && pages[r].parent == t
  {
    assert NodeOk(pages, m, t, xs, t);
    assert ChildOk(pages, m, t, [k], m[t], pages[t].children[0], 0);
    assert ChildOk(pages, m, t, [k], m[t], pages[t].children[1], 1);
  }

  lemma KeptNodeOk(pages: Pages, pages': Pages, m: Infos, t: PageId, n: nat, xs: set<PageId>, k: int, l: PageId, r: PageId, p: PageId)
    requires TwoChildRoot(pages, m, t, n, xs, k, l, r)
    requires p in KeptInfos(m, t, k)
    requires forall q :: q in KeptInfos(m, t, k) && q in pages ==>
               q in pages' && pages'[q] == if q == l then pages[q].(parent := pages'[q].parent) else pages[q]
    ensures NodeOk(pages', KeptInfos(m, t, k), l, xs, p)
  {
    RootPair(pages, m, t, n, xs, k, l, r);
    assert NodeOk(pages, m, t, xs, p);
    var m' := KeptInfos(m, t, k);
    assert Bare(pages'[p]) == Bare(pages[p]);
    if pages[p].Internal? {
      var ks, cs, f := pages[p].keys, pages[p].children, m[p];
      assert pages'[p].keys == ks && pages'[p].children == cs;
      forall i | 0 <= i < |cs|
        ensures ChildOk(pages', m', p, ks, m'[p], cs[i], i)
      {
        assert ChildOk(pages, m, p, ks, f, cs[i], i);
        assert cs[i] != l && cs[i] != t by {
          RootIsNoChild(pages, m, t, n, xs, p);
        }
      }
    } else {
      assert pages'[p].entries == pages[p].entries;
    }
  }

  /** With only the left child of the root kept, what remains is again a valid tree. */
  lemma KeptOk(pages: Pages, pages': Pages, m: Infos, t: PageId, n: nat, xs: set<PageId>, k: int, l: PageId, r: PageId, n': nat)
    requires TwoChildRoot(pages, m, t, n, xs, k, l, r)
    requires forall q :: q in KeptInfos(m, t, k) && q in pages ==>
               q in pages' && pages'[q] == if q == l then pages[q].(parent := pages'[q].parent) else pages[q]
    requires forall q :: q in pages' ==> q < n'
    ensures Valid(pages', KeptInfos(m, t, k), l, n', xs)
  {
    RootPair(pages, m, t, n, xs, k, l, r);
    var m' := KeptInfos(m, t, k);
    forall p | p in m'
      ensures NodeOk(pages', m', l, xs, p)
    {
      KeptNodeOk(pages, pages', m, t, n, xs, k, l, r, p);
    }
    forall p | p in m'
      ensures LinkOk(pages', m', l, p)
    {
      OneSide(pages, m, t, n, xs, k, l, r, p);
      var i := ParentSlot(pages, m, t, n, xs, p);
      if p != l {
        var u := pages[p].parent;
        var _ := ParentSlot(pages, m, t, n, xs, u);
      }
    }
  }

  /** ... and it holds exactly the rows below the separator. */
  lemma KeptHolds(pages: Pages, pages': Pages, m: Infos, t: PageId, n: nat, xs: set<PageId>, k: int, l: PageId, r: PageId, rows: Rows)
    requires TwoChildRoot(pages, m, t, n, xs, k, l, r)
    requires forall q :: q in KeptInfos(m, t, k) && q in pages ==>
               q in pages' && pages'[q] == if q == l then pages[q].(parent := pages'[q].parent) else pages[q]
    requires Holds(pages, m, rows)
    ensures Holds(pages', KeptInfos(m, t, k), Below(rows, k))
  {
    var m', rows' := KeptInfos(m, t, k), Below(rows, k);
    forall p | p in m' && p in pages' && pages'[p].Leaf?
      ensures LeafHolds(pages'[p].entries, m'[p], rows')
    {
      assert NodeOk(pages, m, t, xs, p);
      assert pages'[p].entries == pages[p].entries;
      assert LeafHolds(pages[p].entries, m[p], rows);
    }
  }
}
