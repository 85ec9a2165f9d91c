/** The state between splitting a page and linking its new right half into the parent. */
module BTreePending {
  import opened BTreeShape
  import opened BTreeSplit
  import opened BTreeRoot

  /** The pages once separator `k` and page `r` are inserted after `l`, child `i` of its parent. */
  ghost function Attached(pages: Pages, l: PageId, i: nat, k: int, r: PageId): Pages
    requires SlotOk(pages, l, i) && r in pages
  {
    var q := pages[l].parent;
    pages[r := pages[r].(parent := q)][q := InsertChild(pages[q], i, k, r)]
  }

  /** The pages once a new root `t` joins `l` and `r`. */
  ghost function Rooted(pages: Pages, l: PageId, k: int, r: PageId, t: PageId): Pages
    requires l in pages && r in pages
  {
    pages[l := pages[l].(parent := t)][r := pages[r].(parent := t)][t := Internal(0, [k], [l, r])]
  }

  /** Page `l` has been split with `r` as its right half and separator `k`, and the tree is
      valid as soon as `r` is linked in: into the parent of `l` at slot `i`, or below a new
      root when `l` is the root `t`. */
  ghost predicate Pending(pages: Pages, m: Infos, t: PageId, n: nat, l: PageId, i: nat, r: PageId, k: int, rows: Rows) {
    && l in m && r in m && l in pages && r in pages && l != r && r != t && t in m && t in pages
    && 0 < n && n !in m && (forall p :: p in pages ==> p < n)
    && if l == t then
         && Valid(Rooted(pages, l, k, r, n), GrownInfos(m, t, n), n, n + 1, {})
         && Holds(Rooted(pages, l, k, r, n), GrownInfos(m, t, n), rows)
       else
         && SlotOk(pages, l, i)
         && pages[l].parent != r && pages[l].parent in m
         && Occupied(pages[pages[l].parent], pages[l].parent == t)
         && Valid(Attached(pages, l, i, k, r), m, t, n, {pages[l].parent})
         && Holds(Attached(pages, l, i, k, r), m, rows)
  }

  /** The pages just after page `p` was split at `s` into itself and `r`. */
  ghost function Halved(pages: Pages, p: PageId, s: nat, r: PageId): Pages
    requires p in pages && CanSplit(pages[p], s)
  {
    Reparent(pages, Kids(RightHalf(pages[p], s, 0)), r)
      [p := LeftHalf(pages[p], s)]
      [r := RightHalf(pages[p], s, 0)]
  }

  lemma AttachedIsSplit(pages: Pages, m: Infos, t: PageId, n: nat, p: PageId, i: nat, s: nat)
    requires SplitPre(pages, m, t, n, {p}, p, i, s, n)
    ensures var h := Halved(pages, p, s, n);
            && n in h && p in h && pages[p].parent in h && h[pages[p].parent] == pages[pages[p].parent]
            && SlotOk(h, p, i) && h[p].parent == pages[p].parent
            && Attached(h, p, i, SplitKey(pages[p], s), n) == SplitPages(pages, p, i, s, n)
  {
    SplitKids(pages, m, t, n, {p}, p, i, s, n);
  }

  lemma SplitPendingInner(pages: Pages, m: Infos, t: PageId, n: nat, p: PageId, i: nat, s: nat, rows: Rows)
    requires SplitPre(pages, m, t, n, {p}, p, i, s, n) && Holds(pages, m, rows)
    requires Occupied(LeftHalf(pages[p], s), false) && Occupied(RightHalf(pages[p], s, 0), false)
    ensures Pending(Halved(pages, p, s, n), SplitInfos(m, p, SplitKey(pages[p], s), n), t, n + 1, p, i, n, SplitKey(pages[p], s), rows)
  {
    var q := pages[p].parent;
    var _ := ParentSlot(pages, m, t, n, {p}, p);
    assert NodeOk(pages, m, t, {p}, q) && NodeOk(pages, m, t, {p}, t);
    FreshIsDead(pages, m, t, n, {p}, n + 1);
    SplitOk(pages, m, t, n, {p}, p, i, s, n, n + 1, {q});
    SplitHolds(pages, m, t, n, {p}, p, i, s, n, rows);
    AttachedIsSplit(pages, m, t, n, p, i, s);
  }

  /** Splitting the root below a freshly grown root. */
  lemma SplitGrown(pages: Pages, m: Infos, t: PageId, n: nat, s: nat, rows: Rows)
    requires Valid(pages, m, t, n, {t}) && Holds(pages, m, rows) && t in pages && CanSplit(pages[t], s)
    requires Occupied(LeftHalf(pages[t], s), false) && Occupied(RightHalf(pages[t], s, 0), false)
    requires 0 < n && t != n && t != n + 1 && n !in m && n + 1 !in m
    ensures var g, gm := GrownPages(pages, t, n + 1), GrownInfos(m, t, n + 1);
            && SlotOk(g, t, 0)
            && Valid(SplitPages(g, t, 0, s, n), SplitInfos(gm, t, SplitKey(pages[t], s), n), n + 1, n + 2, {n + 1})
            && Holds(SplitPages(g, t, 0, s, n), SplitInfos(gm, t, SplitKey(pages[t], s), n), rows)
  {
    var u := n + 1;
    GrowOk(pages, m, t, n, {t}, u, n + 2, {t, u});
    GrowHolds(pages, m, t, u, rows);
    var g, gm := GrownPages(pages, t, u), GrownInfos(m, t, u);
    assert Bare(g[t]) == Bare(pages[t]);
    assert SplitPre(g, gm, u, n + 2, {t, u}, t, 0, s, n);
    SplitOk(g, gm, u, n + 2, {t, u}, t, 0, s, n, n + 2, {u});
    SplitHolds(g, gm, u, n + 2, {t, u}, t, 0, s, n, rows);
  }

  lemma SplitPendingRoot(pages: Pages, m: Infos, t: PageId, n: nat, s: nat, rows: Rows)
    requires Valid(pages, m, t, n, {t}) && Holds(pages, m, rows) && t in pages && CanSplit(pages[t], s)
    requires Occupied(LeftHalf(pages[t], s), false) && Occupied(RightHalf(pages[t], s, 0), false)
    requires 0 < n
    ensures Pending(Halved(pages, t, s, n), SplitInfos(m, t, SplitKey(pages[t], s), n), t, n + 1, t, 0, n, SplitKey(pages[t], s), rows)
  {
    var k, u := SplitKey(pages[t], s), n + 1;
    FreshIsDead(pages, m, t, n, {t}, n);
    FreshIsDead(pages, m, t, n, {t}, u);
    SplitGrown(pages, m, t, n, s, rows);
    RootedIsSplit(pages, m, t, n, s);
    var g, gm := GrownPages(pages, t, u), GrownInfos(m, t, u);
    var v, vm := SplitPages(g, t, 0, s, n), SplitInfos(gm, t, k, n);
    assert vm == GrownInfos(SplitInfos(m, t, k, n), t, u);
    assert v[u] == Internal(0, [k], [t, n]);
    Unexcuse(v, vm, u, n + 2, {u});
  }

  lemma FreshIsDead(pages: Pages, m: Infos, t: PageId, n: nat, xs: set<PageId>, p: PageId)
    requires Valid(pages, m, t, n, xs) && n <= p
    ensures p !in m
  {
    assert p in m ==> NodeOk(pages, m, t, xs, p);
  }

  lemma RootedIsSplit(pages: Pages, m: Infos, t: PageId, n: nat, s: nat)
    requires Valid(pages, m, t, n, {t}) && t in pages && CanSplit(pages[t], s) && t != n && t != n + 1
    requires SlotOk(GrownPages(pages, t, n + 1), t, 0)
    ensures n in Halved(pages, t, s, n)
    ensures Rooted(Halved(pages, t, s, n), t, SplitKey(pages[t], s), n, n + 1) == SplitPages(GrownPages(pages, t, n + 1), t, 0, s, n)
  {
    var k, u := SplitKey(pages[t], s), n + 1;
    var a := Rooted(Halved(pages, t, s, n), t, k, n, u);
    var g := GrownPages(pages, t, u);
    var b := SplitPages(g, t, 0, s, n);
    assert u !in pages;
    assert InsertChild(g[u], 0, k, n) == Internal(0, [k], [t, n]);
    assert a.Keys == b.Keys;
    assert forall q :: q in a ==> a[q] == b[q];
  }

  /** Pages that are properly filled need no excuse. */
  lemma Unexcuse(pages: Pages, m: Infos, t: PageId, n: nat, xs: set<PageId>)
    requires Valid(pages, m, t, n, xs)
    requires forall p :: p in xs && p in m ==> p in pages && Occupied(pages[p], p == t)
    ensures Valid(pages, m, t, n, {})
  {
    forall p | p in m
      ensures NodeOk(pages, m, t, {}, p)
    {
      assert NodeOk(pages, m, t, xs, p);
    }
  }

  lemma Excuse(pages: Pages, m: Infos, t: PageId, n: nat, xs: set<PageId>)
    requires Valid(pages, m, t, n, {})
    ensures Valid(pages, m, t, n, xs)
  {
    forall p | p in m
      ensures NodeOk(pages, m, t, xs, p)
    {
      assert NodeOk(pages, m, t, {}, p);
    }
  }
}
