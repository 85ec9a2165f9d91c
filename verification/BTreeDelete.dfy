/** Repairing an underfull page: borrowing from a sibling, or merging with it and passing
    the shortage on to the parent. */
module BTreeDelete {
  import opened BTreeShape
  import opened BTreeSplit
  import opened BTreeMerge
  import opened BTreeRoot
  import opened BTreePending
  import opened BTreeLink

  // ---------------------------------------------------------------- borrowing

  /** Children `j - 1` and `j` of `q` joined and parted again at `s`. */
  ghost predicate CanRebalance(pages: Pages, q: PageId, j: nat, s: nat) {
    && PairOk(pages, q, j)
    && CanSplit(Merged(pages[pages[q].children[j - 1]], pages[q].keys[j - 1], pages[pages[q].children[j]]), s)
  }

  ghost function RebalancedInfos(pages: Pages, m: Infos, q: PageId, j: nat, s: nat): Infos
    requires CanRebalance(pages, q, j, s) && pages[q].children[j - 1] in m && pages[q].children[j] in m
  {
    var l, r := pages[q].children[j - 1], pages[q].children[j];
    SplitInfos(MergeInfos(m, l, r), l, SplitKey(Merged(pages[l], pages[q].keys[j - 1], pages[r]), s), r)
  }

  lemma MergedSlot(pages: Pages, m: Infos, root: PageId, n: nat, xs: set<PageId>, q: PageId, j: nat)
    requires MergePre(pages, m, root, n, xs, q, j)
    ensures PairOk(pages, q, j)
    ensures var l, r, v := pages[q].children[j - 1], pages[q].children[j], MergePages(pages, q, j);
            && l in v && q in v && v[l] == Merged(pages[l], pages[q].keys[j - 1], pages[r]) && v[l].parent == q
            && v[q] == RemoveChild(pages[q], j) && SlotOk(v, l, j - 1)
            && l in m && r in m && l != r && l != q && r != q && l != root && r != root && 0 < r < n && 0 < l
  {
    PairFacts(pages, m, root, n, xs, q, j);
    var l, r := pages[q].children[j - 1], pages[q].children[j];
    assert LinkOk(pages, m, root, r) && LinkOk(pages, m, root, l);
    assert RemoveAt(pages[q].children, j)[j - 1] == l;
  }

  lemma RebalanceOk(pages: Pages, m: Infos, root: PageId, n: nat, xs: set<PageId>, q: PageId, j: nat, s: nat, rows: Rows)
    requires MergePre(pages, m, root, n, xs, q, j) && CanRebalance(pages, q, j, s) && Holds(pages, m, rows)
    requires var l, r := pages[q].children[j - 1], pages[q].children[j];
             var nd := Merged(pages[l], pages[q].keys[j - 1], pages[r]);
             xs <= {l, r} && Occupied(LeftHalf(nd, s), false) && Occupied(RightHalf(nd, s, 0), false)
    ensures var l, r, v := pages[q].children[j - 1], pages[q].children[j], MergePages(pages, q, j);
            && SlotOk(v, l, j - 1) && CanSplit(v[l], s) && l in m && r in m
            && Valid(SplitPages(v, l, j - 1, s, r), RebalancedInfos(pages, m, q, j, s), root, n, {q})
            && Holds(SplitPages(v, l, j - 1, s, r), RebalancedInfos(pages, m, q, j, s), rows)
  {
    MergedSlot(pages, m, root, n, xs, q, j);
    var l, r, v := pages[q].children[j - 1], pages[q].children[j], MergePages(pages, q, j);
    MergeOk(pages, m, root, n, xs, q, j, {l, q});
    MergeHolds(pages, m, root, n, xs, q, j, rows);
    var m' := MergeInfos(m, l, r);
    SplitOk(v, m', root, n, {l, q}, l, j - 1, s, r, n, {q});
    SplitHolds(v, m', root, n, {l, q}, l, j - 1, s, r, rows);
  }

  /** The pages after borrowing: the two siblings redivided, the separator replaced. */
  ghost function Rebalanced(pages: Pages, q: PageId, j: nat, s: nat): Pages
    requires CanRebalance(pages, q, j, s)
  {
    var l, r := pages[q].children[j - 1], pages[q].children[j];
    var nd := Merged(pages[l], pages[q].keys[j - 1], pages[r]);
    Reparent(Reparent(pages, Kids(LeftHalf(nd, s)), l), Kids(RightHalf(nd, s, 0)), r)
      [l := LeftHalf(nd, s)]
      [r := RightHalf(nd, s, q)]
      [q := Internal(pages[q].parent, pages[q].keys[j - 1 := SplitKey(nd, s)], pages[q].children)]
  }

  /** Off the three pages, joining and parting is a change of parent fields. */
  lemma RebalancedElsewhere(pages: Pages, v: Pages, q: PageId, l: PageId, r: PageId, nd: Node, s: nat, c: PageId)
    requires l in pages && r in pages && c in pages && c != l && c != r && c != q && CanSplit(nd, s)
    requires c in v && v[c] == if c in Kids(pages[r]) then pages[c].(parent := l) else pages[c]
    requires SameKind(pages[l], pages[r]) && nd.Leaf? == pages[l].Leaf? && Kids(nd) == Kids(pages[l]) + Kids(pages[r])
    requires c in Kids(pages[l]) ==> pages[c].parent == l
    ensures Reparent(v, Kids(RightHalf(nd, s, 0)), r)[c] == Reparent(Reparent(pages, Kids(LeftHalf(nd, s)), l), Kids(RightHalf(nd, s, 0)), r)[c]
  {
    RebalancedKids(nd, pages[l], pages[r], s);
  }

  lemma RebalancedIs(pages: Pages, m: Infos, root: PageId, n: nat, xs: set<PageId>, q: PageId, j: nat, s: nat)
    requires MergePre(pages, m, root, n, xs, q, j) && CanRebalance(pages, q, j, s)
    ensures var l, r, v := pages[q].children[j - 1], pages[q].children[j], MergePages(pages, q, j);
            && SlotOk(v, l, j - 1) && CanSplit(v[l], s)
            && SplitPages(v, l, j - 1, s, r) == Rebalanced(pages, q, j, s)
  {
    MergedSlot(pages, m, root, n, xs, q, j);
    MergeKids(pages, m, root, n, xs, q, j);
    PairFacts(pages, m, root, n, xs, q, j);
    var l, r, v := pages[q].children[j - 1], pages[q].children[j], MergePages(pages, q, j);
    LowerKids(pages, m, root, xs, l);
    var nd := v[l];
    var a, b := SplitPages(v, l, j - 1, s, r), Rebalanced(pages, q, j, s);
    RejoinedParent(pages[q].keys, pages[q].children, j, SplitKey(nd, s));
    assert a.Keys == b.Keys;
    forall c | c in a
      ensures a[c] == b[c]
    {
      if c != l && c != r && c != q {
        RebalancedElsewhere(pages, v, q, l, r, nd, s, c);
      }
    }
  }

  lemma RejoinedParent(ks: seq<int>, cs: seq<PageId>, j: nat, k: int)
    requires |cs| == |ks| + 1 && 0 < j < |cs|
    ensures InsertAt(RemoveAt(ks, j - 1), j - 1, k) == ks[j - 1 := k]
    ensures InsertAt(RemoveAt(cs, j), j, cs[j]) == cs
  {
  }

  lemma RebalancedKids(nd: Node, l: Node, r: Node, s: nat)
    requires SameKind(l, r) && nd.Leaf? == l.Leaf? && CanSplit(nd, s) && Kids(nd) == Kids(l) + Kids(r)
    ensures forall c :: c in Kids(nd) <==> c in Kids(LeftHalf(nd, s)) || c in Kids(RightHalf(nd, s, 0))
    ensures forall c :: c in Kids(nd) <==> c in Kids(l) || c in Kids(r)
  {
    if nd.Internal? {
      assert nd.children == nd.children[..s + 1] + nd.children[s + 1..];
    }
  }

  // ---------------------------------------------------------------- repair as a whole

  /** Two forms of a page with one parent field and kind. */
  predicate SameFace(x: Node, y: Node) {
    x.parent == y.parent && x.Leaf? == y.Leaf?
  }

  /** `b` is `a` repaired: the same rows in a sound tree, pages outside it untouched.  The
      root is still `t`, or `t` ran out of keys and its only child took over, with a parent
      field that still names `t`. */
  ghost predicate Settled(a: Tree, b: Tree, t: PageId, t': PageId) {
    && Sound(b, t') && b.rows == a.rows && b.n == a.n
    && DeadSame(a, b, {})
    && t in a.pages && t in b.pages && t' in b.pages
    && (t' == t ==> SameFace(b.pages[t], a.pages[t]))
    && (t' != t ==> b.pages[t'].parent == t && t !in b.info && b.pages[t].Internal? && |b.pages[t].keys| == 0 && |b.pages[t].children| == 1)
  }

  /** Page `p` is short of keys or entries; everything else is in order. */
  ghost predicate Short(a: Tree, t: PageId, p: PageId) {
    Valid(a.pages, a.info, t, a.n, {p}) && Holds(a.pages, a.info, a.rows) && p in a.info && p != t && p in a.pages
  }

  /** Child `j` of `q` is about to be removed, after which at most `q` is short. */
  ghost predicate Removable(a: Tree, t: PageId, q: PageId, j: nat) {
    && q in a.info && q in a.pages && a.pages[q].Internal? && t in a.pages
    && |a.pages[q].children| == |a.pages[q].keys| + 1 && 0 < j < |a.pages[q].children|
    && Occupied(a.pages[q], q == t)
    && (forall x :: 0 <= x < |a.pages[q].children| && a.pages[q].children[x] == a.pages[q].children[j] ==> x == j)
    && Valid(a.pages[q := RemoveChild(a.pages[q], j)], a.info, t, a.n, {q})
    && Holds(a.pages[q := RemoveChild(a.pages[q], j)], a.info, a.rows)
  }

  /** The sibling an underfull page turns to: the one to its left, or failing that to its right. */
  function RightSlot(i: nat): nat {
    if i == 0 then 1 else i
  }

  /** The pages just after children `j - 1` and `j` of `q` were joined, with `q` not yet told. */
  ghost predicate Joined(a: Tree, c: Tree, q: PageId, j: nat) {
    && PairOk(a.pages, q, j)
    && var l, r := a.pages[q].children[j - 1], a.pages[q].children[j];
       && l in a.info && r in a.info
       && q in c.pages && c.pages[q] == a.pages[q]
       && c.pages[q := RemoveChild(a.pages[q], j)] == MergePages(a.pages, q, j)
       && c.info == MergeInfos(a.info, l, r) && c.rows == a.rows && c.n == a.n
  }

  lemma JoinedRemovable(a: Tree, c: Tree, t: PageId, p: PageId, q: PageId, j: nat)
    requires Short(a, t, p) && Joined(a, c, q, j) && q in a.info && Occupied(a.pages[q], q == t)
    requires var l, r := a.pages[q].children[j - 1], a.pages[q].children[j];
             (p == l || p == r) && Occupied(Merged(a.pages[l], a.pages[q].keys[j - 1], a.pages[r]), false)
    ensures Removable(c, t, q, j)
    ensures DeadSame(a, c, {}) && t in c.pages && SameFace(c.pages[t], a.pages[t])
  {
    var l, r := a.pages[q].children[j - 1], a.pages[q].children[j];
    assert NodeOk(a.pages, a.info, t, {p}, t);
    PairFacts(a.pages, a.info, t, a.n, {p}, q, j);
    MergeOk(a.pages, a.info, t, a.n, {p}, q, j, {q});
    MergeHolds(a.pages, a.info, t, a.n, {p}, q, j, a.rows);
    JoinedDistinct(a, t, p, q, j);
    JoinedDead(a, c, t, p, q, j);
  }

  lemma JoinedDistinct(a: Tree, t: PageId, p: PageId, q: PageId, j: nat)
    requires Short(a, t, p) && q in a.info && q in a.pages && a.pages[q].Internal? && j < |a.pages[q].children|
    ensures forall x :: 0 <= x < |a.pages[q].children| && a.pages[q].children[x] == a.pages[q].children[j] ==> x == j
  {
    assert NodeOk(a.pages, a.info, t, {p}, q);
    forall x | 0 <= x < |a.pages[q].children| && a.pages[q].children[x] == a.pages[q].children[j]
      ensures x == j
    {
      ChildIndex(a.pages, a.info, t, {p}, q, x, j);
    }
  }

  lemma JoinedDead(a: Tree, c: Tree, t: PageId, p: PageId, q: PageId, j: nat)
    requires Short(a, t, p) && Joined(a, c, q, j) && q in a.info
    ensures DeadSame(a, c, {}) && t in c.pages && t in a.pages && SameFace(c.pages[t], a.pages[t])
  {
    MergeKids(a.pages, a.info, t, a.n, {p}, q, j);
    PairFacts(a.pages, a.info, t, a.n, {p}, q, j);
    assert NodeOk(a.pages, a.info, t, {p}, t);
    var v := MergePages(a.pages, q, j);
    assert forall x :: x in c.pages && x != q ==> x in v && c.pages[x] == v[x];
    RootNoKid(a, t, p, a.pages[q].children[j]);
    forall x | x in a.pages && x !in a.info
      ensures x in c.pages && c.pages[x] == a.pages[x] && x !in c.info
    {
      assert x in v && x != q;
      assert x !in Kids(a.pages[a.pages[q].children[j]]);
      assert v[x] == a.pages[x];
    }
  }

  lemma RootNoKid(a: Tree, t: PageId, p: PageId, r: PageId)
    requires Short(a, t, p) && r in a.info
    ensures r in a.pages && t !in Kids(a.pages[r])
  {
    RootIsNoChild(a.pages, a.info, t, a.n, {p}, r);
  }

  /** A repair that follows a join. */
  lemma SettledAfter(a: Tree, c: Tree, b: Tree, t: PageId, t': PageId)
    requires DeadSame(a, c, {}) && t in a.pages && t in c.pages && SameFace(c.pages[t], a.pages[t]) && c.rows == a.rows && c.n == a.n
    requires Settled(c, b, t, t')
    ensures Settled(a, b, t, t')
  {
  }

  /** What joining and parting two children leaves alone. */
  ghost predicate RebalancedView(pages: Pages, w: Pages, q: PageId, l: PageId, r: PageId, kids: seq<PageId>) {
    && q in pages && pages[q].Internal?
    && (forall c :: c in pages && c != l && c != r && c != q && c !in kids ==> c in w && w[c] == pages[c])
    && q in w && w[q].Internal? && SameFace(w[q], pages[q]) && |w[q].keys| == |pages[q].keys|
  }

  lemma RebalancedLooks(pages: Pages, q: PageId, j: nat, s: nat, l: PageId, r: PageId)
    requires CanRebalance(pages, q, j, s) && l == pages[q].children[j - 1] && r == pages[q].children[j]
    ensures RebalancedView(pages, Rebalanced(pages, q, j, s), q, l, r, Kids(pages[l]) + Kids(pages[r]))
  {
    var nd := Merged(pages[l], pages[q].keys[j - 1], pages[r]);
    RebalancedKids(nd, pages[l], pages[r], s);
  }

  /** Borrowing ends the repair. */
  lemma Borrowed(a: Tree, b: Tree, t: PageId, p: PageId, q: PageId, j: nat, s: nat)
    requires Short(a, t, p) && CanRebalance(a.pages, q, j, s) && q in a.info && Occupied(a.pages[q], q == t)
    requires var l, r := a.pages[q].children[j - 1], a.pages[q].children[j];
             var nd := Merged(a.pages[l], a.pages[q].keys[j - 1], a.pages[r]);
             && (p == l || p == r) && Occupied(LeftHalf(nd, s), false) && Occupied(RightHalf(nd, s, 0), false)
             && l in a.info && r in a.info
             && b == Tree(Rebalanced(a.pages, q, j, s), RebalancedInfos(a.pages, a.info, q, j, s), a.rows, a.n)
    ensures Settled(a, b, t, t)
  {
    BorrowedSound(a, b, t, p, q, j, s);
    BorrowedDead(a, b, t, p, q, j, s);
  }

  lemma BorrowedSound(a: Tree, b: Tree, t: PageId, p: PageId, q: PageId, j: nat, s: nat)
    requires Short(a, t, p) && CanRebalance(a.pages, q, j, s) && q in a.info && Occupied(a.pages[q], q == t)
    requires var l, r := a.pages[q].children[j - 1], a.pages[q].children[j];
             var nd := Merged(a.pages[l], a.pages[q].keys[j - 1], a.pages[r]);
             && (p == l || p == r) && Occupied(LeftHalf(nd, s), false) && Occupied(RightHalf(nd, s, 0), false)
             && l in a.info && r in a.info
             && b == Tree(Rebalanced(a.pages, q, j, s), RebalancedInfos(a.pages, a.info, q, j, s), a.rows, a.n)
    ensures Sound(b, t)
  {
    RebalanceOk(a.pages, a.info, t, a.n, {p}, q, j, s, a.rows);
    RebalancedIs(a.pages, a.info, t, a.n, {p}, q, j, s);
    RebalancedLooks(a.pages, q, j, s, a.pages[q].children[j - 1], a.pages[q].children[j]);
    Unexcuse(b.pages, b.info, t, b.n, {q});
  }

  lemma BorrowedDead(a: Tree, b: Tree, t: PageId, p: PageId, q: PageId, j: nat, s: nat)
    requires Short(a, t, p) && CanRebalance(a.pages, q, j, s) && q in a.info
    requires var l, r := a.pages[q].children[j - 1], a.pages[q].children[j];
             && l in a.info && r in a.info
             && b.pages == Rebalanced(a.pages, q, j, s) && b.info == RebalancedInfos(a.pages, a.info, q, j, s)
    ensures DeadSame(a, b, {}) && t in b.pages && t in a.pages && SameFace(b.pages[t], a.pages[t])
  {
    var l, r := a.pages[q].children[j - 1], a.pages[q].children[j];
    PairFacts(a.pages, a.info, t, a.n, {p}, q, j);
    RebalancedLooks(a.pages, q, j, s, l, r);
    LowerKids(a.pages, a.info, t, {p}, l);
    LowerKids(a.pages, a.info, t, {p}, r);
    RootNoKid(a, t, p, r);
    RootNoKid(a, t, p, l);
    DeadApart(a, b, t, p, q, l, r);
  }

  lemma DeadApart(a: Tree, b: Tree, t: PageId, p: PageId, q: PageId, l: PageId, r: PageId)
    requires Short(a, t, p) && q in a.info && l in a.info && r in a.info && l in a.pages && r in a.pages && t != l && t != r
    requires RebalancedView(a.pages, b.pages, q, l, r, Kids(a.pages[l]) + Kids(a.pages[r]))
    requires forall c :: c in Kids(a.pages[l]) + Kids(a.pages[r]) ==> c in a.info && c != t
    requires forall c :: c in b.info ==> c in a.info
    ensures DeadSame(a, b, {}) && t in b.pages && t in a.pages && SameFace(b.pages[t], a.pages[t])
  {
    assert NodeOk(a.pages, a.info, t, {p}, t);
  }
}
