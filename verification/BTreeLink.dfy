/** What linking a split page into its ancestors does to the whole tree. */
module BTreeLink {
  import opened Options
  import opened BTreeShape
  import opened BTreeSplit
  import opened BTreeRoot
  import opened BTreePending
  import opened BTreeLimits

  /** A tree at one moment: its pages, their ranges, its rows, and the next free page id. */
  datatype Tree = Tree(pages: Pages, info: Infos, rows: Rows, n: nat)

  ghost predicate Sound(a: Tree, t: PageId) {
    Valid(a.pages, a.info, t, a.n, {}) && Holds(a.pages, a.info, a.rows)
  }

  /** No page is given up, and every page gained is a new one. */
  ghost predicate Grew(pages: Pages, n: nat, pages': Pages, n': nat) {
    n <= n' && (forall p :: p in pages ==> p in pages') && (forall p :: p in pages' ==> p in pages || n <= p)
  }

  lemma GrewTwice(pages: Pages, n: nat, pages': Pages, n': nat, pages2: Pages, n2: nat)
    requires Grew(pages, n, pages', n') && Grew(pages', n', pages2, n2)
    ensures Grew(pages, n, pages2, n2)
  {
  }

  /** The root still names a parent: the page it was promoted from when an earlier root
      collapsed. */
  ghost predicate Stale(a: Tree, t: PageId) {
    t in a.pages && a.pages[t].parent != 0
  }

  /** A stale parent is a page outside the tree with room for one more key. */
  ghost predicate StaleOk(a: Tree, t: PageId) {
    t in a.pages &&
    (a.pages[t].parent != 0 ==>
       var q := a.pages[t].parent;
       && q !in a.info && q in a.pages && a.pages[q].Internal?
       && |a.pages[q].keys| < BTREE_ORDER && |a.pages[q].children| == |a.pages[q].keys| + 1)
  }

  function NewRoot(res: Option<PageId>, t: PageId): PageId {
    if res.Some? then res.value else t
  }

  /** Pages below height `h` are untouched; those at height `h` changed at most their parent. */
  ghost predicate LowSame(a: Tree, b: Tree, h: nat) {
    && (forall q :: q in a.info && q in a.pages && a.info[q].height < h ==> q in b.pages && b.pages[q] == a.pages[q])
    && (forall q :: q in a.info && q in a.pages && a.info[q].height == h ==>
          q in b.pages && Bare(b.pages[q]) == Bare(a.pages[q]))
  }

  /** Pages above height `h` are untouched. */
  ghost predicate HighSame(a: Tree, b: Tree, h: nat) {
    forall q :: q in a.info && q in a.pages && h < a.info[q].height ==>
      q in b.pages && b.pages[q] == a.pages[q] && q in b.info && b.info[q] == a.info[q]
  }

  /** Ranges of pages at height `h` and below are untouched. */
  ghost predicate RangesSame(a: Tree, b: Tree, h: nat) {
    forall q :: q in a.info && a.info[q].height <= h ==> q in b.info && b.info[q] == a.info[q]
  }

  /** Pages outside the tree are untouched, except those in `xs`. */
  ghost predicate DeadSame(a: Tree, b: Tree, xs: set<PageId>) {
    forall q :: q in a.pages && q !in a.info && q !in xs ==> q in b.pages && b.pages[q] == a.pages[q] && q !in b.info
  }

  /** Everything from `kl` on has fallen out of the tree: rows, and pages at height `h` and below. */
  ghost predicate Cut(a: Tree, b: Tree, h: nat, kl: int) {
    && b.rows == Below(a.rows, kl)
    && (exists x :: x in a.rows && kl <= x)
    && (forall q :: q in a.info && a.info[q].height <= h ==>
          && (q in b.info ==> a.info[q].hi <= kl && b.info[q].height == a.info[q].height && b.info[q].lo == a.info[q].lo && a.info[q].hi <= b.info[q].hi)
          && (q !in b.info ==> kl <= a.info[q].lo))
  }

  /** The number of keys in the parent of each half, and that parent's ancestors. */
  ghost predicate ParentAfter(a: Tree, b: Tree, t: PageId, l: PageId, x: PageId)
    requires l in a.pages && l in a.info
  {
    && x in b.pages && b.pages[x].parent in b.pages && b.pages[b.pages[x].parent].Internal?
    && var u, u' := a.pages[l].parent, b.pages[x].parent;
       if l == t then |b.pages[u'].keys| == 1
       else
         && u in a.pages && a.pages[u].Internal? && u in a.info
         && if |a.pages[u].keys| < BTREE_ORDER then
              && u' == u && |b.pages[u].keys| == |a.pages[u].keys| + 1
              && HighSame(a, b, a.info[u].height)
              && u in b.info && b.info[u] == a.info[u] && b.pages[u].parent == a.pages[u].parent
            else |b.pages[u'].keys| == MIN_KEYS
  }

  /** The root and the number of pages after linking, when nothing is lost. */
  ghost predicate RootAfter(a: Tree, b: Tree, l: PageId, t: PageId, res: Option<PageId>)
    requires l in a.info && t in a.info && t in a.pages
  {
    var d := a.info[t].height - a.info[l].height;
    if res.None? then
      && t in b.pages && b.pages[t].parent == a.pages[t].parent
      && t in b.info && b.info[t].height == a.info[t].height
      && b.n <= a.n + d
    else
      && a.n <= res.value && res.value in b.pages && res.value in b.info
      && b.info[res.value].height == a.info[t].height + 1
      && b.n <= a.n + d + 1
      && exists k, r' :: b.pages[res.value] == Internal(0, [k], [t, r'])
  }

  /** When the root was lost: the page that half `x` names as its parent, in the tree exactly
      when that half is. */
  ghost predicate LostParent(a: Tree, b: Tree, t: PageId, l: PageId, x: PageId)
    requires t in a.pages
  {
    && x in b.pages && b.pages[x].parent in b.pages && b.pages[x].parent != 0 && b.pages[x].parent != x
    && var u := b.pages[x].parent;
       && b.pages[u].Internal? && |b.pages[u].children| == |b.pages[u].keys| + 1
       && (x !in b.info ==> u !in b.info)
       && if l == t then
            && u == a.pages[t].parent && u in a.pages && a.pages[u].Internal? && |b.pages[u].keys| == |a.pages[u].keys| + 1
            && u !in b.info && (x in b.info ==> x == t)
          else |b.pages[u].keys| == MIN_KEYS && (u in a.info || a.n <= u)
  }

  /** Linking up to the root is possible: a stale root has a page to lose its right half to. */
  ghost predicate StaleReady(a: Tree, l: PageId, t: PageId) {
    Full(a.pages, a.info, t, l) ==> StaleOk(a, t)
  }

  /** Tree `a`, with `l` split into `l` and `r`, has become tree `b` with `r` linked in; or,
      when `lost`, with everything from key `kl` on cut off. */
  ghost predicate Linked(a: Tree, b: Tree, l: PageId, r: PageId, t: PageId, res: Option<PageId>, lost: bool, kl: int)
    requires l in a.info && l in a.pages && t in a.pages && t in a.info
  {
    var h := a.info[l].height;
    && a.n <= b.n <= a.n + a.info[t].height - h + 1
    && (lost <==> Stale(a, t) && Full(a.pages, a.info, t, l))
    && (res.Some? <==> !Stale(a, t) && Full(a.pages, a.info, t, l))
    && DeadSame(a, b, if lost then {a.pages[t].parent} else {})
    && LowSame(a, b, h)
    && Sound(b, NewRoot(res, t))
    && if lost then
         && Cut(a, b, h, kl) && t in b.pages && b.pages[t].parent == a.pages[t].parent
         && t in b.info && b.info[t].height == a.info[t].height
         && LostParent(a, b, t, l, l) && LostParent(a, b, t, l, r)
       else
         && b.rows == a.rows
         && RangesSame(a, b, h)
         && ParentAfter(a, b, t, l, l) && ParentAfter(a, b, t, l, r)
         && RootAfter(a, b, l, t, res)
  }

  // ---------------------------------------------------------------- the ways a link ends

  /** A non-root page of a tree with no excused page answers for at least one row. */
  lemma {:induction false} SubtreeHasRow(pages: Pages, m: Infos, t: PageId, n: nat, rows: Rows, p: PageId) returns (x: int)
    requires Valid(pages, m, t, n, {}) && Holds(pages, m, rows) && p in m && p != t
    ensures x in rows && m[p].lo <= x < m[p].hi
    decreases m[p].height
  {
    assert NodeOk(pages, m, t, {}, p);
    if pages[p].Leaf? {
      x := pages[p].entries[0].key;
      assert LeafHolds(pages[p].entries, m[p], rows);
    } else {
      var c := pages[p].children[0];
      assert ChildOk(pages, m, p, pages[p].keys, m[p], c, 0);
      if c == t { var _ := ParentSlot(pages, m, t, n, {}, p); }
      x := SubtreeHasRow(pages, m, t, n, rows, c);
    }
  }

  ghost predicate PendingIn(a: Tree, t: PageId, l: PageId, i: nat, r: PageId, k: int) {
    Pending(a.pages, a.info, t, a.n, l, i, r, k, a.rows)
  }

  /** `l` was the root: a new root above it. */
  lemma LinkRoot(a: Tree, b: Tree, l: PageId, r: PageId, k: int, t: PageId)
    requires PendingIn(a, t, l, 0, r, k) && l == t && !Stale(a, t)
    requires b == Tree(Rooted(a.pages, l, k, r, a.n), GrownInfos(a.info, t, a.n), a.rows, a.n + 1)
    ensures Linked(a, b, l, r, t, Some(a.n), false, 0)
  {
    var u := a.n;
    FreshRootApart(a, b, t, l, r, k);
    assert TwoChildRoot(b.pages, b.info, u, b.n, {}, k, l, r);
    RootPair(b.pages, b.info, u, b.n, {}, k, l, r);
    RootedLooks(a, b, l, r, k, t);
  }

  lemma RootedLooks(a: Tree, b: Tree, l: PageId, r: PageId, k: int, t: PageId)
    requires l in a.pages && r in a.pages && l != r && l == t && l in a.info && r in a.info && a.n !in a.info && a.n !in a.pages
    requires b == Tree(Rooted(a.pages, l, k, r, a.n), GrownInfos(a.info, t, a.n), a.rows, a.n + 1)
    requires a.info[r].height == a.info[l].height && (forall q :: q in a.info && a.info[q].height == a.info[t].height ==> q == l || q == r)
    ensures DeadSame(a, b, {}) && LowSame(a, b, a.info[l].height) && RangesSame(a, b, a.info[l].height)
    ensures ParentAfter(a, b, t, l, l) && ParentAfter(a, b, t, l, r) && RootAfter(a, b, l, t, Some(a.n))
  {
    assert b.pages[a.n] == Internal(0, [k], [t, r]);
  }

  lemma FreshRootApart(a: Tree, b: Tree, t: PageId, l: PageId, r: PageId, k: int)
    requires PendingIn(a, t, l, 0, r, k) && l == t
    requires b.pages == Rooted(a.pages, l, k, r, a.n) && b.info == GrownInfos(a.info, t, a.n)
    ensures forall q :: q in a.info ==> q in b.info && b.info[q] == a.info[q] && q in a.pages && a.info[q].height <= a.info[t].height
    ensures forall q :: q in a.info && a.info[q].height == a.info[t].height ==> q == l || q == r
  {
    var u := a.n;
    var m := b.info;
    assert TwoChildRoot(b.pages, m, u, a.n + 1, {}, k, l, r);
    RootPair(b.pages, m, u, a.n + 1, {}, k, l, r);
    forall q | q in a.info
      ensures q in a.pages && a.info[q].height <= a.info[t].height
      ensures a.info[q].height == a.info[t].height ==> q == l || q == r
    {
      assert q in m && q != u;
      assert NodeOk(b.pages, m, u, {}, q);
      var _ := ParentSlot(b.pages, m, u, a.n + 1, {}, q);
      var v := b.pages[q].parent;
      if v != u {
        var _ := ParentSlot(b.pages, m, u, a.n + 1, {}, v);
      }
    }
  }

  /** `l` was the root but still names a parent: `r` is hung from that page, outside the tree. */
  lemma LinkLost(a: Tree, b: Tree, l: PageId, r: PageId, k: int, t: PageId, j: nat)
    requires PendingIn(a, t, l, 0, r, k) && l == t && Stale(a, t) && StaleOk(a, t)
    requires var s := a.pages[t].parent;
             && j <= |a.pages[s].keys|
             && b == Tree(a.pages[r := a.pages[r].(parent := s)][s := InsertChild(a.pages[s], j, k, r)],
                          KeptInfos(GrownInfos(a.info, t, a.n), a.n, k), Below(a.rows, k), a.n)
    ensures Linked(a, b, l, r, t, None, true, k)
  {
    LostIsSound(a, b, l, r, k, t);
    LostIsCut(a, b, t, l, r, k);
    LostIsLow(a, b, t, l, r, k);
    assert Full(a.pages, a.info, t, l);
    LostParents(a, b, l, r, k, t, j);
  }

  lemma LostParents(a: Tree, b: Tree, l: PageId, r: PageId, k: int, t: PageId, j: nat)
    requires l == t && l != r && l in a.pages && r in a.pages && l in a.info && r in a.info && l in b.info
    requires Stale(a, t) && StaleOk(a, t) && r !in b.info && a.pages[t].parent !in b.info
    requires var s := a.pages[t].parent;
             && j <= |a.pages[s].keys|
             && b.pages == a.pages[r := a.pages[r].(parent := s)][s := InsertChild(a.pages[s], j, k, r)]
    ensures LostParent(a, b, t, l, l) && LostParent(a, b, t, l, r)
  {
  }

  lemma LostIsLow(a: Tree, b: Tree, t: PageId, l: PageId, r: PageId, k: int)
    requires PendingIn(a, t, l, 0, r, k) && l == t
    requires b.info == KeptInfos(GrownInfos(a.info, t, a.n), a.n, k)
    requires forall q :: q in a.pages && q != r && q != a.pages[t].parent ==> q in b.pages && b.pages[q] == a.pages[q]
    requires r in b.pages && Bare(b.pages[r]) == Bare(a.pages[r])
    requires a.pages[t].parent !in a.info
    ensures LowSame(a, b, a.info[l].height) && DeadSame(a, b, {a.pages[t].parent})
  {
    var g := Tree(Rooted(a.pages, l, k, r, a.n), GrownInfos(a.info, t, a.n), a.rows, a.n + 1);
    FreshRootApart(a, g, t, l, r, k);
    assert TwoChildRoot(g.pages, g.info, a.n, a.n + 1, {}, k, l, r);
    RootPair(g.pages, g.info, a.n, a.n + 1, {}, k, l, r);
  }

  lemma LostIsSound(a: Tree, b: Tree, l: PageId, r: PageId, k: int, t: PageId)
    requires PendingIn(a, t, l, 0, r, k) && l == t
    requires a.pages[t].parent !in a.info
    requires forall q :: q in a.pages && q != r && q != a.pages[t].parent ==> q in b.pages && b.pages[q] == a.pages[q]
    requires forall q :: q in b.pages ==> q < a.n
    requires b.n == a.n && b.info == KeptInfos(GrownInfos(a.info, t, a.n), a.n, k) && b.rows == Below(a.rows, k)
    ensures Sound(b, t) && r !in b.info && a.pages[t].parent !in b.info
  {
    var u := a.n;
    var v, m := Rooted(a.pages, l, k, r, u), GrownInfos(a.info, t, u);
    assert TwoChildRoot(v, m, u, u + 1, {}, k, l, r);
    RootPair(v, m, u, u + 1, {}, k, l, r);
    assert r !in KeptInfos(m, u, k) && a.pages[t].parent !in KeptInfos(m, u, k) && u !in KeptInfos(m, u, k);
    KeptOk(v, b.pages, m, u, u + 1, {}, k, l, r, a.n);
    KeptHolds(v, b.pages, m, u, u + 1, {}, k, l, r, a.rows);
  }

  lemma LostIsCut(a: Tree, b: Tree, t: PageId, l: PageId, r: PageId, k: int)
    requires PendingIn(a, t, l, 0, r, k) && l == t
    requires b.info == KeptInfos(GrownInfos(a.info, t, a.n), a.n, k) && b.rows == Below(a.rows, k)
    ensures Cut(a, b, a.info[l].height, k)
  {
    var u := a.n;
    var v, m := Rooted(a.pages, l, k, r, u), GrownInfos(a.info, t, u);
    assert TwoChildRoot(v, m, u, u + 1, {}, k, l, r);
    RootPair(v, m, u, u + 1, {}, k, l, r);
    var x := SubtreeHasRow(v, m, u, u + 1, a.rows, r);
    forall q | q in a.info
      ensures a.info[q].hi <= k || k <= a.info[q].lo
      ensures a.info[q].lo < a.info[q].hi
    {
      OneSide(v, m, u, u + 1, {}, k, l, r, q);
    }
  }

  lemma HeightsOfPending(a: Tree, l: PageId, i: nat, r: PageId, k: int, t: PageId)
    requires PendingIn(a, t, l, i, r, k) && l != t
    ensures var q := a.pages[l].parent;
            && a.info[q].height == a.info[l].height + 1 && a.info[l].height < a.info[t].height
            && a.info[r].height == a.info[l].height
            && (q != t ==> a.info[q].height < a.info[t].height)
            && q != r && q != l && q != 0
  {
    var q := a.pages[l].parent;
    var v := Attached(a.pages, l, i, k, r);
    var _ := ParentSlot(v, a.info, t, a.n, {q}, l);
    var _ := ParentSlot(v, a.info, t, a.n, {q}, r);
    assert LinkOk(v, a.info, t, q);
    if q != t {
      var _ := ParentSlot(v, a.info, t, a.n, {q}, q);
    }
  }

  /** The parent of `l` had room. */
  lemma LinkInner(a: Tree, b: Tree, l: PageId, i: nat, r: PageId, k: int, t: PageId)
    requires PendingIn(a, t, l, i, r, k) && l != t
    requires |a.pages[a.pages[l].parent].keys| < BTREE_ORDER
    requires b == a.(pages := Attached(a.pages, l, i, k, r))
    ensures Linked(a, b, l, r, t, None, false, 0)
  {
    var q := a.pages[l].parent;
    assert b.pages[q].keys == InsertAt(a.pages[q].keys, i, k);
    Unexcuse(b.pages, b.info, t, b.n, {q});
    HeightsOfPending(a, l, i, r, k, t);
    AttachedLooks(a, b, l, i, r, k, q);
  }

  lemma AttachedLooks(a: Tree, b: Tree, l: PageId, i: nat, r: PageId, k: int, q: PageId)
    requires l in a.pages && l in a.info && r in a.pages && r in a.info && q in a.info && SlotOk(a.pages, l, i)
    requires q == a.pages[l].parent && q != r && q != l && a.info[q].height == a.info[l].height + 1 && a.info[r].height == a.info[l].height
    requires b == a.(pages := Attached(a.pages, l, i, k, r))
    ensures LowSame(a, b, a.info[l].height) && DeadSame(a, b, {}) && HighSame(a, b, a.info[q].height)
  {
  }

  /** `c` is `a` with the full parent of `l`, now also holding `r`, split in its turn. */
  ghost predicate SplitAbove(a: Tree, c: Tree, l: PageId, i: nat, r: PageId, k: int, t: PageId) {
    && PendingIn(a, t, l, i, r, k) && l != t
    && |a.pages[a.pages[l].parent].keys| == BTREE_ORDER
    && var v, q := Attached(a.pages, l, i, k, r), a.pages[l].parent;
       c == Tree(Halved(v, q, MIN_KEYS, a.n), SplitInfos(a.info, q, SplitKey(v[q], MIN_KEYS), a.n), a.rows, a.n + 1)
  }

  /** What the split of the full parent changed: the parent, the new page `a.n` beside it, and
      the parent fields of pages at the height of `l`. */
  ghost predicate AboveView(a: Tree, c: Tree, l: PageId, q: PageId, r: PageId, h: nat) {
    && q in a.pages
    && (forall p :: p in a.info && p in a.pages && a.info[p].height != h && p != q ==> p in c.pages && c.pages[p] == a.pages[p])
    && (forall p :: p in a.info && p in a.pages && a.info[p].height == h ==> p in c.pages && Bare(c.pages[p]) == Bare(a.pages[p]))
    && (forall p :: p in a.pages && p !in a.info ==> p in c.pages && c.pages[p] == a.pages[p] && p !in c.info)
    && (forall p :: p in a.info && p != q ==> p in c.info && c.info[p] == a.info[p])
    && HalfView(a, c, q, h) && HalfView(a, c, a.n, h)
    && c.pages[q].parent == a.pages[q].parent
    && l in c.pages && (c.pages[l].parent == q || c.pages[l].parent == a.n) && l in c.pages[c.pages[l].parent].children
    && r in c.pages && (c.pages[r].parent == q || c.pages[r].parent == a.n) && r in c.pages[c.pages[r].parent].children
  }

  ghost predicate HalfView(a: Tree, c: Tree, p: PageId, h: nat) {
    && p in c.info && c.info[p].height == h + 1
    && p in c.pages && c.pages[p].Internal? && |c.pages[p].keys| == MIN_KEYS && |c.pages[p].children| == MIN_KEYS + 1
  }

  /** `v` is `a` with `r` attached beside `l` under `q`, which is now overfull. */
  ghost predicate OverfullView(a: Tree, v: Pages, l: PageId, q: PageId, r: PageId, h: nat) {
    && q in v && q in a.info && q in a.pages && a.n !in v && a.n !in a.pages && a.n !in a.info && a.info[q].height == h + 1
    && v[q].Internal? && |v[q].keys| == BTREE_ORDER + 1 && |v[q].children| == BTREE_ORDER + 2
    && (forall x :: x in v[q].children ==> x in a.info && a.info[x].height == h && x in v && v[x].parent == q)
    && (forall p :: p in a.pages && p != q && p != r ==> p in v && v[p] == a.pages[p])
    && r in a.info && r in a.pages && r in v && Bare(v[r]) == Bare(a.pages[r])
    && v[q].parent == a.pages[q].parent
    && l in v[q].children && r in v[q].children
  }

  lemma OverfullKids(a: Tree, v: Pages, l: PageId, i: nat, q: PageId, r: PageId, t: PageId, h: nat)
    requires Valid(v, a.info, t, a.n, {q}) && q in a.info && a.info[q].height == h + 1 && q in v && v[q].Internal?
    requires i + 1 < |v[q].children| && v[q].children[i] == l && v[q].children[i + 1] == r
    ensures a.n !in v && a.n !in a.info && l in v[q].children && r in v[q].children && |v[q].children| == |v[q].keys| + 1
    ensures forall x :: x in v[q].children ==> x in a.info && a.info[x].height == h && x in v && v[x].parent == q
  {
    assert NodeOk(v, a.info, t, {q}, q);
    KidHeights(v, a.info, t, {q}, q);
    assert a.n in a.info ==> NodeOk(v, a.info, t, {q}, a.n);
  }

  lemma OverfullLooks(a: Tree, c: Tree, l: PageId, i: nat, r: PageId, k: int, t: PageId)
    requires SplitAbove(a, c, l, i, r, k, t)
    ensures OverfullView(a, Attached(a.pages, l, i, k, r), l, a.pages[l].parent, r, a.info[l].height)
  {
    HeightsOfPending(a, l, i, r, k, t);
    var v, q := Attached(a.pages, l, i, k, r), a.pages[l].parent;
    assert v[q].children[i] == l && v[q].children[i + 1] == r;
    OverfullKids(a, v, l, i, q, r, t, a.info[l].height);
  }

  lemma AboveLooks(a: Tree, c: Tree, l: PageId, i: nat, r: PageId, k: int, t: PageId)
    requires SplitAbove(a, c, l, i, r, k, t)
    ensures AboveView(a, c, l, a.pages[l].parent, r, a.info[l].height)
  {
    var v, q := Attached(a.pages, l, i, k, r), a.pages[l].parent;
    OverfullLooks(a, c, l, i, r, k, t);
    HalfKids(v, a.info, q, a.n, a.info[l].height);
    AboveMaps(a, c, v, l, q, r, a.info[l].height, SplitKey(v[q], MIN_KEYS));
  }

  lemma AboveMaps(a: Tree, c: Tree, v: Pages, l: PageId, q: PageId, r: PageId, h: nat, k: int)
    requires OverfullView(a, v, l, q, r, h)
    requires HalvedKids(v, c.pages, q, a.n) && c.info == SplitInfos(a.info, q, k, a.n)
    ensures AboveView(a, c, l, q, r, h)
  {
    AbovePages(a, c, v, l, q, r, h);
    AboveInfos(a, c, v, l, q, r, h, k);
    assert HalfView(a, c, q, h) && HalfView(a, c, a.n, h);
  }

  lemma AboveInfos(a: Tree, c: Tree, v: Pages, l: PageId, q: PageId, r: PageId, h: nat, k: int)
    requires OverfullView(a, v, l, q, r, h) && c.info == SplitInfos(a.info, q, k, a.n)
    ensures forall p :: p in a.info && p != q ==> p in c.info && c.info[p] == a.info[p]
    ensures forall p :: p in a.pages && p !in a.info ==> p !in c.info
    ensures q in c.info && c.info[q].height == h + 1 && a.n in c.info && c.info[a.n].height == h + 1
  {
  }

  lemma AbovePages(a: Tree, c: Tree, v: Pages, l: PageId, q: PageId, r: PageId, h: nat)
    requires OverfullView(a, v, l, q, r, h) && HalvedKids(v, c.pages, q, a.n)
    ensures forall p :: p in a.info && p in a.pages && a.info[p].height != h && p != q ==> p in c.pages && c.pages[p] == a.pages[p]
    ensures forall p :: p in a.info && p in a.pages && a.info[p].height == h ==> p in c.pages && Bare(c.pages[p]) == Bare(a.pages[p])
    ensures forall p :: p in a.pages && p !in a.info ==> p in c.pages && c.pages[p] == a.pages[p]
  {
    forall p | p in a.pages && p != q
      ensures p in c.pages
      ensures p in a.info && a.info[p].height == h ==> Bare(c.pages[p]) == Bare(a.pages[p])
      ensures (p in a.info ==> a.info[p].height != h) ==> c.pages[p] == a.pages[p]
    {
      assert p in v && Bare(v[p]) == Bare(a.pages[p]);
      assert p in v[q].children || c.pages[p] == v[p];
    }
  }

  /** `w` is `v` with the overfull internal page `q` halved, its right half on page `n`. */
  ghost predicate HalvedKids(v: Pages, w: Pages, q: PageId, n: nat) {
    && q in v && v[q].Internal?
    && (forall p :: p in v && p != q && p !in v[q].children ==> p in w && w[p] == v[p])
    && q in w && w[q].Internal? && |w[q].keys| == MIN_KEYS && |w[q].children| == MIN_KEYS + 1 && w[q].parent == v[q].parent
    && n in w && w[n].Internal? && |w[n].keys| == MIN_KEYS && |w[n].children| == MIN_KEYS + 1
    && (forall p :: p in v[q].children ==>
          p in v && p in w && Bare(w[p]) == Bare(v[p]) && (w[p].parent == q || w[p].parent == n) && p in w[w[p].parent].children)
  }

  lemma HalfKids(v: Pages, m: Infos, q: PageId, n: nat, h: nat)
    requires q in v && q in m && n !in v && n !in m && m[q].height == h + 1
    requires v[q].Internal? && |v[q].keys| == BTREE_ORDER + 1 && |v[q].children| == BTREE_ORDER + 2
    requires forall c :: c in v[q].children ==> c in m && m[c].height == h && c in v && v[c].parent == q
    ensures HalvedKids(v, Halved(v, q, MIN_KEYS, n), q, n)
  {
    assert forall p :: p in Kids(RightHalf(v[q], MIN_KEYS, 0)) ==> p in v[q].children;
    assert q !in v[q].children;
    assert forall p :: p in v[q].children ==> p in v[q].children[..MIN_KEYS + 1] || p in v[q].children[MIN_KEYS + 1..];
  }

  lemma KidHeights(pages: Pages, m: Infos, t: PageId, xs: set<PageId>, p: PageId)
    requires NodeOk(pages, m, t, xs, p)
    ensures forall c :: c in Kids(pages[p]) ==> c in m && m[c].height + 1 == m[p].height && c in pages && pages[c].parent == p
  {
    if pages[p].Internal? {
      forall c | c in pages[p].children
        ensures c in m && m[c].height + 1 == m[p].height && c in pages && pages[c].parent == p
      {
        var i := IndexOf(pages[p].children, c);
        assert ChildOk(pages, m, p, pages[p].keys, m[p], pages[p].children[i], i);
      }
    }
  }

  ghost predicate AboveChain(a: Tree, c: Tree, l: PageId, t: PageId) {
    && t in a.info && t in a.pages && t in c.pages && t in c.info && l in a.pages
    && c.pages[t].parent == a.pages[t].parent
    && c.info[t].height == a.info[t].height
    && (Full(a.pages, a.info, t, l) <==> Full(c.pages, c.info, t, a.pages[l].parent))
  }

  lemma AboveFull(a: Tree, c: Tree, l: PageId, i: nat, r: PageId, k: int, t: PageId)
    requires SplitAbove(a, c, l, i, r, k, t) && AboveView(a, c, l, a.pages[l].parent, r, a.info[l].height)
    ensures AboveChain(a, c, l, t)
  {
    HeightsOfPending(a, l, i, r, k, t);
    FullBefore(a, l, i, r, k, t);
    FullAfter(a, c, l, i, r, k, t, a.pages[l].parent, a.info[l].height);
  }

  lemma FullBefore(a: Tree, l: PageId, i: nat, r: PageId, k: int, t: PageId)
    requires PendingIn(a, t, l, i, r, k) && l != t && |a.pages[a.pages[l].parent].keys| == BTREE_ORDER
    ensures Full(a.pages, a.info, t, l) <==> Full(Attached(a.pages, l, i, k, r), a.info, t, a.pages[l].parent)
  {
    HeightsOfPending(a, l, i, r, k, t);
    SameFull(a, l, i, r, k, t, a.pages, a.info);
  }

  lemma FullAfter(a: Tree, c: Tree, l: PageId, i: nat, r: PageId, k: int, t: PageId, q: PageId, h: nat)
    requires PendingIn(a, t, l, i, r, k) && l != t && AboveView(a, c, l, q, r, h) && q == a.pages[l].parent
    requires h == a.info[l].height == a.info[r].height && a.info[q].height == h + 1 && h < a.info[t].height
    ensures Full(c.pages, c.info, t, q) <==> Full(Attached(a.pages, l, i, k, r), a.info, t, q)
    ensures t in c.pages && c.pages[t].parent == a.pages[t].parent && t in c.info && c.info[t].height == a.info[t].height
  {
    SameFull(a, l, i, r, k, t, c.pages, c.info);
  }

  lemma SameFull(a: Tree, l: PageId, i: nat, r: PageId, k: int, t: PageId, pages: Pages, m: Infos)
    requires PendingIn(a, t, l, i, r, k) && l != t
    requires var q := a.pages[l].parent;
             && q in pages && q in m && pages[q].parent == a.pages[q].parent && m[q].height == a.info[q].height
             && t in m && m[t].height == a.info[t].height
             && a.info[q].height == a.info[l].height + 1 && a.info[r].height == a.info[l].height
             && forall p :: p in a.info && p in a.pages && a.info[q].height < a.info[p].height ==>
                  p in m && m[p].height == a.info[p].height && p in pages && pages[p] == a.pages[p]
    ensures var q := a.pages[l].parent;
            Full(pages, m, t, q) <==> Full(Attached(a.pages, l, i, k, r), a.info, t, q)
  {
    var q := a.pages[l].parent;
    FullFrame(Attached(a.pages, l, i, k, r), a.info, t, a.n, {q}, pages, m, q);
  }

  /** Everything the lemmas below need of the three trees: the parent `q` of `l` was full and
      was split (`c`), and its own right half has been linked in (`b`). */
  ghost predicate LinkedAbove(a: Tree, c: Tree, b: Tree, l: PageId, q: PageId, r: PageId, t: PageId, res: Option<PageId>, lost: bool, kl: int) {
    HalvedAbove(a, c, l, q, r, t) && Linked(c, b, q, a.n, t, res, lost, kl)
  }

  ghost predicate HalvedAbove(a: Tree, c: Tree, l: PageId, q: PageId, r: PageId, t: PageId) {
    && l in a.pages && l in a.info && r in a.info && r in a.pages && l != t
    && q == a.pages[l].parent && q in a.info && q in a.pages && a.pages[q].Internal? && q != l && q != r
    && |a.pages[q].keys| >= BTREE_ORDER && q != 0 && 0 < a.n && l != a.n && r != a.n
    && a.info[q].height == a.info[l].height + 1 && a.info[r].height == a.info[l].height
    && AboveView(a, c, l, q, r, a.info[l].height) && AboveChain(a, c, l, t)
    && c.rows == a.rows && c.n == a.n + 1
    && q in c.info && q in c.pages && t in c.pages && t in c.info && c.info[q].height == a.info[q].height
  }

  lemma LinkUp(a: Tree, c: Tree, b: Tree, l: PageId, q: PageId, r: PageId, t: PageId, res: Option<PageId>, lost: bool, kl: int)
    requires LinkedAbove(a, c, b, l, q, r, t, res, lost, kl)
    ensures Linked(a, b, l, r, t, res, lost, kl)
  {
    AboveLow(a, c, b, l, q, r, a.info[l].height, if lost then {a.pages[t].parent} else {});
    if lost {
      AboveCut(a, c, b, l, q, r, a.info[l].height, kl);
      AboveLost(a, c, b, l, q, r, t, l);
      AboveLost(a, c, b, l, q, r, t, r);
    } else {
      LinkUpKept(a, c, b, l, q, r, t, res, kl);
    }
  }

  lemma LinkUpKept(a: Tree, c: Tree, b: Tree, l: PageId, q: PageId, r: PageId, t: PageId, res: Option<PageId>, kl: int)
    requires LinkedAbove(a, c, b, l, q, r, t, res, false, kl)
    ensures RangesSame(a, b, a.info[l].height) && RootAfter(a, b, l, t, res)
    ensures ParentAfter(a, b, t, l, l) && ParentAfter(a, b, t, l, r)
  {
    AboveParents(a, c, b, l, q, r, t);
    AboveRanges(a, c, b, l, q, r, a.info[l].height);
    AboveRoot(a, c, b, l, q, t, res);
  }

  lemma AboveLost(a: Tree, c: Tree, b: Tree, l: PageId, q: PageId, r: PageId, t: PageId, x: PageId)
    requires l in a.info && r in a.info && a.info[r].height == a.info[l].height && (x == l || x == r) && x in a.pages
    requires t in a.pages && l != t && l != q && r != q && q in a.info && a.info[q].height == a.info[l].height + 1 && q != 0 && 0 < a.n && x != a.n
    requires AboveView(a, c, l, q, r, a.info[l].height) && LowSame(c, b, a.info[l].height + 1) && Sound(b, t)
    ensures LostParent(a, b, t, l, x)
  {
    var u := c.pages[x].parent;
    assert b.pages[x] == c.pages[x] && Bare(b.pages[u]) == Bare(c.pages[u]);
    if u in b.info {
      assert NodeOk(b.pages, b.info, t, {}, u);
      KidHeights(b.pages, b.info, t, {}, u);
    }
  }

  lemma AboveRoot(a: Tree, c: Tree, b: Tree, l: PageId, q: PageId, t: PageId, res: Option<PageId>)
    requires l in a.info && q in c.info && c.info[q].height == a.info[l].height + 1 && c.n == a.n + 1
    requires AboveChain(a, c, l, t) && RootAfter(c, b, q, t, res)
    ensures RootAfter(a, b, l, t, res)
  {
  }

  lemma AboveCut(a: Tree, c: Tree, b: Tree, l: PageId, q: PageId, r: PageId, h: nat, kl: int)
    requires AboveView(a, c, l, q, r, h) && q in a.info && a.info[q].height == h + 1 && c.rows == a.rows
    requires Cut(c, b, h + 1, kl)
    ensures Cut(a, b, h, kl)
  {
  }

  lemma AboveRanges(a: Tree, c: Tree, b: Tree, l: PageId, q: PageId, r: PageId, h: nat)
    requires AboveView(a, c, l, q, r, h) && q in a.info && a.info[q].height == h + 1
    requires RangesSame(c, b, h + 1)
    ensures RangesSame(a, b, h)
  {
  }

  lemma AboveLow(a: Tree, c: Tree, b: Tree, l: PageId, q: PageId, r: PageId, h: nat, s: set<PageId>)
    requires AboveView(a, c, l, q, r, h) && q in a.info && a.info[q].height == h + 1
    requires DeadSame(c, b, s) && LowSame(c, b, h + 1)
    ensures DeadSame(a, b, s) && LowSame(a, b, h)
  {
  }

  lemma AboveParents(a: Tree, c: Tree, b: Tree, l: PageId, q: PageId, r: PageId, t: PageId)
    requires l in a.pages && l in a.info && r in a.info && r in a.pages && l != t
    requires q == a.pages[l].parent && q in a.info && q in a.pages && a.pages[q].Internal? && q != l && q != r
    requires |a.pages[q].keys| >= BTREE_ORDER
    requires a.info[q].height == a.info[l].height + 1 && a.info[r].height == a.info[l].height
    requires AboveView(a, c, l, q, r, a.info[l].height)
    requires LowSame(c, b, a.info[l].height + 1)
    ensures ParentAfter(a, b, t, l, l) && ParentAfter(a, b, t, l, r)
  {
    assert b.pages[l] == c.pages[l] && b.pages[r] == c.pages[r];
  }

  // ---------------------------------------------------------------- one level up

  lemma PageFacts(a: Tree, p: PageId, t: PageId)
    requires Sound(a, t) && p in a.info
    ensures p in a.pages && t in a.pages && t in a.info && 0 < a.n && a.n !in a.pages
    ensures a.pages[p].Leaf? ==> FitsPage(a.pages[p].entries) && a.info[p].height == 0
  {
    assert NodeOk(a.pages, a.info, t, {}, p) && NodeOk(a.pages, a.info, t, {}, t);
  }

  lemma OneLeaf(a: Tree, p: PageId, key: int, t: PageId)
    requires Sound(a, t) && IsLeafFor(a.pages, a.info, p, key)
    ensures forall q :: IsLeafFor(a.pages, a.info, q, key) ==> q == p
    ensures t in a.info
  {
    forall q | IsLeafFor(a.pages, a.info, q, key) && q != p
      ensures false
    {
      assert NodeOk(a.pages, a.info, t, {}, p) && NodeOk(a.pages, a.info, t, {}, q);
      RangesDisjoint(a.pages, a.info, t, a.n, {}, p, q);
    }
  }

  lemma InsertedPlace(ks: seq<int>, i: nat, k: int)
    requires i <= |ks| && SortedKeys(InsertAt(ks, i, k))
    ensures forall x :: 0 <= x < i ==> ks[x] < k
    ensures forall x :: i <= x < |ks| ==> k < ks[x]
  {
    var ks' := InsertAt(ks, i, k);
    assert ks'[i] == k;
    assert forall x :: 0 <= x < i ==> ks'[x] == ks[x];
    assert forall x :: i <= x < |ks| ==> ks'[x + 1] == ks[x];
  }

  /** Scanning the separators finds the slot next to the page that was split. */
  lemma SlotFound(a: Tree, t: PageId, l: PageId, i: nat, r: PageId, k: int, j: nat)
    requires PendingIn(a, t, l, i, r, k) && l != t
    requires var ks := a.pages[a.pages[l].parent].keys;
             && j <= |ks| && (forall x :: 0 <= x < j ==> ks[x] <= k) && (j < |ks| ==> k <= ks[j])
    ensures j == i
  {
    var q := a.pages[l].parent;
    var v := Attached(a.pages, l, i, k, r);
    assert NodeOk(v, a.info, t, {q}, q);
    var ks := a.pages[q].keys;
    InsertedPlace(ks, i, k);
    assert i < |ks| ==> k < ks[i];
  }

  /** Every child of the page about to be split is a page. */
  lemma KidsPresent(a: Tree, t: PageId, l: PageId, i: nat, r: PageId, k: int)
    requires PendingIn(a, t, l, i, r, k) && l != t
    ensures var q := a.pages[l].parent;
            forall c :: c in InsertAt(a.pages[q].children, i + 1, r) ==> c in a.pages && c != q
  {
    var v, q := Attached(a.pages, l, i, k, r), a.pages[l].parent;
    assert NodeOk(v, a.info, t, {q}, q);
    KidHeights(v, a.info, t, {q}, q);
    assert v[q].children == InsertAt(a.pages[q].children, i + 1, r);
  }

  lemma AboveSplit(a: Tree, l: PageId, i: nat, r: PageId, k: int, t: PageId) returns (i': nat)
    requires PendingIn(a, t, l, i, r, k) && l != t
    requires |a.pages[a.pages[l].parent].keys| == BTREE_ORDER
    ensures var v, q := Attached(a.pages, l, i, k, r), a.pages[l].parent;
            && CanSplit(v[q], MIN_KEYS)
            && Pending(Halved(v, q, MIN_KEYS, a.n), SplitInfos(a.info, q, SplitKey(v[q], MIN_KEYS), a.n), t, a.n + 1,
                       q, i', a.n, SplitKey(v[q], MIN_KEYS), a.rows)
  {
    var v, q := Attached(a.pages, l, i, k, r), a.pages[l].parent;
    assert v[q].keys == InsertAt(a.pages[q].keys, i, k);
    if q == t {
      i' := 0;
      SplitPendingRoot(v, a.info, t, a.n, MIN_KEYS, a.rows);
    } else {
      i' := ParentSlot(v, a.info, t, a.n, {q}, q);
      SplitPendingInner(v, a.info, t, a.n, q, i', MIN_KEYS, a.rows);
    }
  }

  lemma AbovePending(a: Tree, c: Tree, l: PageId, i: nat, r: PageId, k: int, t: PageId) returns (i': nat)
    requires SplitAbove(a, c, l, i, r, k, t) && StaleReady(a, l, t)
    ensures var q := a.pages[l].parent;
            && q in a.info && q in c.info && q in a.pages && c.info[q].height == a.info[q].height == a.info[l].height + 1
            && a.info[r].height == a.info[l].height && r in a.pages
            && PendingIn(c, t, q, i', a.n, SplitKey(Attached(a.pages, l, i, k, r)[q], MIN_KEYS))
            && StaleReady(c, q, t)
            && AboveView(a, c, l, q, r, a.info[l].height) && AboveChain(a, c, l, t)
  {
    var v, q := Attached(a.pages, l, i, k, r), a.pages[l].parent;
    HeightsOfPending(a, l, i, r, k, t);
    AboveLooks(a, c, l, i, r, k, t);
    AboveFull(a, c, l, i, r, k, t);
    i' := AboveSplit(a, l, i, r, k, t);
  }

  // ---------------------------------------------------------------- outside the tree

  /** Writing to a page that is outside the tree, an old one or a new one, changes nothing in it. */
  lemma OrphanPage(a: Tree, p: PageId, nd: Node, n: nat, t: PageId)
    requires Sound(a, t) && p !in a.info && p < n && a.n <= n
    ensures Sound(a.(pages := a.pages[p := nd], n := n), t)
  {
    var b := a.(pages := a.pages[p := nd], n := n);
    forall q | q in a.info
      ensures NodeOk(b.pages, a.info, t, {}, q)
    {
      assert NodeOk(a.pages, a.info, t, {}, q);
      NodeOkFrame(a.pages, a.info, t, {}, b.pages, a.info, t, {}, q);
    }
    forall q | q in a.info
      ensures LinkOk(b.pages, a.info, t, q)
    {
      assert LinkOk(a.pages, a.info, t, q);
    }
  }

  lemma OrphanWrite(a: Tree, p: PageId, nd: Node, t: PageId)
    requires Sound(a, t) && p in a.pages && p !in a.info
    ensures Sound(a.(pages := a.pages[p := nd]), t)
  {
    OrphanPage(a, p, nd, a.n, t);
  }

  /** A leaf outside the tree has been split into `l` and `r`; the page it names as its parent
      is outside the tree too and has room. */
  ghost predicate DeadPending(a: Tree, t: PageId, l: PageId, r: PageId) {
    && Sound(a, t) && a.n <= U32_END && l in a.pages && r in a.pages && l != r && l !in a.info && r !in a.info
    && var q := a.pages[l].parent;
       && q != 0 && q != l && q != r && q in a.pages && q !in a.info
       && a.pages[q].Internal? && |a.pages[q].children| == |a.pages[q].keys| + 1 && |a.pages[q].keys| < BTREE_ORDER
  }

  /** `r` now hangs from the parent of `l`, and the tree is as before. */
  ghost predicate DeadLinked(a: Tree, b: Tree, t: PageId, l: PageId, r: PageId) {
    && Sound(b, t) && b.info == a.info && b.rows == a.rows && b.n == a.n
    && l in a.pages && r in a.pages && a.pages[l].parent in a.pages && a.pages[a.pages[l].parent].Internal?
    && var q := a.pages[l].parent;
       && (forall y :: y in a.pages && y != r && y != q ==> y in b.pages && b.pages[y] == a.pages[y])
       && r in b.pages && b.pages[r] == a.pages[r].(parent := q)
       && q in b.pages && b.pages[q].Internal? && |b.pages[q].keys| == |a.pages[q].keys| + 1 && |b.pages[q].children| == |b.pages[q].keys| + 1
  }

  lemma DeadHere(a: Tree, b: Tree, t: PageId, l: PageId, r: PageId, k: int, j: nat)
    requires DeadPending(a, t, l, r) && j <= |a.pages[a.pages[l].parent].keys|
    requires var q := a.pages[l].parent;
             b == a.(pages := a.pages[r := a.pages[r].(parent := q)][q := InsertChild(a.pages[q], j, k, r)])
    ensures DeadLinked(a, b, t, l, r)
  {
    var q := a.pages[l].parent;
    var c := a.(pages := a.pages[r := a.pages[r].(parent := q)]);
    OrphanWrite(a, r, a.pages[r].(parent := q), t);
    OrphanWrite(c, q, InsertChild(a.pages[q], j, k, r), t);
  }

  /** The page named as the parent of `l`, in the tree or not, has room at slot `j`. */
  ghost predicate LinkRoom(a: Tree, l: PageId, i: nat, r: PageId, k: int, t: PageId, j: nat) {
    && Linkable(a, t, l, i, r, k)
    && var q := a.pages[l].parent;
       && q != 0 && q != r && q in a.pages && a.pages[q].Internal? && |a.pages[q].children| == |a.pages[q].keys| + 1
       && |a.pages[q].keys| < BTREE_ORDER
       && j <= |a.pages[q].keys| && (forall x :: 0 <= x < j ==> a.pages[q].keys[x] <= k) && (j < |a.pages[q].keys| ==> k < a.pages[q].keys[j])
  }

  lemma LinkHere(a: Tree, l: PageId, i: nat, r: PageId, k: int, t: PageId, j: nat) returns (b: Tree)
    requires LinkRoom(a, l, i, r, k, t, j)
    ensures var q := a.pages[l].parent;
            b.pages == a.pages[r := a.pages[r].(parent := q)][q := InsertChild(a.pages[q], j, k, r)] && b.n == a.n
    ensures LinkDone(a, b, l, r, t, None, l == t && l in a.info, k)
  {
    var q := a.pages[l].parent;
    var pages := a.pages[r := a.pages[r].(parent := q)][q := InsertChild(a.pages[q], j, k, r)];
    b := a.(pages := pages);
    if l !in a.info {
      DeadHere(a, b, t, l, r, k, j);
    } else if l == t {
      b := Tree(pages, KeptInfos(GrownInfos(a.info, t, a.n), a.n, k), Below(a.rows, k), a.n);
      LinkLost(a, b, l, r, k, t, j);
    } else {
      SlotFound(a, t, l, i, r, k, j);
      LinkInner(a, b, l, i, r, k, t);
    }
  }

  /** The right half `r` of `l` may be linked in, be `l` in the tree or not. */
  ghost predicate Linkable(a: Tree, t: PageId, l: PageId, i: nat, r: PageId, k: int) {
    if l in a.info then
      && PendingIn(a, t, l, i, r, k) && StaleReady(a, l, t)
      && a.info[l].height <= a.info[t].height && a.n + a.info[t].height - a.info[l].height + 1 <= U32_END
    else DeadPending(a, t, l, r)
  }

  ghost predicate LinkDone(a: Tree, b: Tree, l: PageId, r: PageId, t: PageId, res: Option<PageId>, lost: bool, kl: int)
    requires l in a.info ==> l in a.pages && t in a.pages && t in a.info
  {
    if l in a.info then Linked(a, b, l, r, t, res, lost, kl)
    else DeadLinked(a, b, t, l, r) && res == None && !lost
  }

  /** The page that `l` names as its parent is there. */
  lemma ParentThere(a: Tree, t: PageId, l: PageId, i: nat, r: PageId, k: int)
    requires Linkable(a, t, l, i, r, k) && a.pages[l].parent != 0
    ensures var q := a.pages[l].parent;
            && q in a.pages && q < a.n <= U32_END && q != r && q != l
            && a.pages[q].Internal? && |a.pages[q].children| == |a.pages[q].keys| + 1
            && (|a.pages[q].keys| >= BTREE_ORDER ==> l in a.info && l != t)
  {
  }
}
