/** Deletion from a leaf, and the cases of its repair. */
module BTreeRepair {
  import opened BTreeShape
  import opened BTreeSplit
  import opened BTreeMerge
  import opened BTreeRoot
  import opened BTreePending
  import opened BTreeLink
  import opened BTreeDelete

  // ---------------------------------------------------------------- the sibling

  /** Page `sib` is the neighbour that page `p`, child `i` of `q`, borrows from or merges with. */
  ghost predicate HasSibling(a: Tree, t: PageId, p: PageId, q: PageId, i: nat, sib: PageId, sep: int, isLeft: bool) {
    && p in a.pages && q == a.pages[p].parent && q in a.info && q in a.pages && a.pages[q].Internal? && q != p
    && |a.pages[q].children| == |a.pages[q].keys| + 1 && 0 < |a.pages[q].keys| && i < |a.pages[q].children|
    && a.pages[q].children[i] == p && (isLeft <==> 0 < i)
    && sep == a.pages[q].keys[RightSlot(i) - 1]
    && sib == a.pages[q].children[if i == 0 then 1 else i - 1]
    && sib in a.pages && sib in a.info && sib != p && sib != q && SameKind(a.pages[p], a.pages[sib])
    && Occupied(a.pages[q], q == t) && Occupied(a.pages[sib], false) && SortedKeys(a.pages[q].keys)
    && a.pages[sib].parent == q
    && (a.pages[p].Internal? ==> |a.pages[p].children| == |a.pages[p].keys| + 1 && |a.pages[sib].children| == |a.pages[sib].keys| + 1)
    && p in a.info && a.info[q].height == a.info[p].height + 1
    && 0 < p < a.n && 0 < sib < a.n
  }

  lemma SiblingSetup(a: Tree, t: PageId, p: PageId) returns (i: nat)
    requires Short(a, t, p)
    ensures var q := a.pages[p].parent;
            && q in a.pages && q in a.info && a.pages[q].Internal? && |a.pages[q].children| == |a.pages[q].keys| + 1 && 0 < |a.pages[q].keys|
            && i < |a.pages[q].children| && a.pages[q].children[i] == p
            && q != 0
            && forall x :: 0 <= x < |a.pages[q].children| && a.pages[q].children[x] == p ==> x == i
  {
    i := ParentSlot(a.pages, a.info, t, a.n, {p}, p);
    var q := a.pages[p].parent;
    assert NodeOk(a.pages, a.info, t, {p}, q) && LinkOk(a.pages, a.info, t, q);
    JoinedDistinct(a, t, p, q, i);
  }

  lemma SiblingKind(a: Tree, t: PageId, p: PageId, i: nat)
    requires Short(a, t, p)
    requires var q := a.pages[p].parent;
             && q in a.pages && q in a.info && a.pages[q].Internal? && |a.pages[q].children| == |a.pages[q].keys| + 1 && 0 < |a.pages[q].keys|
             && i < |a.pages[q].children| && a.pages[q].children[i] == p
    ensures var q := a.pages[p].parent;
            HasSibling(a, t, p, q, i, a.pages[q].children[if i == 0 then 1 else i - 1], a.pages[q].keys[RightSlot(i) - 1], 0 < i)
  {
    var q := a.pages[p].parent;
    assert NodeOk(a.pages, a.info, t, {p}, q) && NodeOk(a.pages, a.info, t, {p}, p);
    var _ := ParentSlot(a.pages, a.info, t, a.n, {p}, p);
    PairFacts(a.pages, a.info, t, a.n, {p}, q, RightSlot(i));
    var sib := a.pages[q].children[if i == 0 then 1 else i - 1];
    assert LinkOk(a.pages, a.info, t, sib) && LinkOk(a.pages, a.info, t, p);
  }

  lemma SiblingKids(a: Tree, t: PageId, p: PageId, q: PageId, i: nat, sib: PageId, sep: int, isLeft: bool)
    requires Short(a, t, p) && HasSibling(a, t, p, q, i, sib, sep, isLeft) && a.pages[p].Internal?
    ensures forall c :: c in a.pages[p].children || c in a.pages[sib].children ==> c in a.pages && c in a.info && c != p && c != sib && c != q
  {
    assert NodeOk(a.pages, a.info, t, {p}, sib) && NodeOk(a.pages, a.info, t, {p}, p);
    LowerKids(a.pages, a.info, t, {p}, sib);
    LowerKids(a.pages, a.info, t, {p}, p);
    PairFacts(a.pages, a.info, t, a.n, {p}, q, RightSlot(i));
  }

  lemma MovedKid(a: Tree, t: PageId, p: PageId, q: PageId, i: nat, sib: PageId, sep: int, isLeft: bool, moved: PageId)
    requires Short(a, t, p) && HasSibling(a, t, p, q, i, sib, sep, isLeft) && a.pages[p].Internal?
    requires moved in a.pages[sib].children
    ensures moved in a.pages && moved in a.info && a.pages[moved].parent == sib && moved != p && moved != sib && moved != q
  {
    assert NodeOk(a.pages, a.info, t, {p}, sib);
    LowerKids(a.pages, a.info, t, {p}, sib);
    PairFacts(a.pages, a.info, t, a.n, {p}, q, RightSlot(i));
  }

  lemma KidParents(a: Tree, t: PageId, p: PageId, q: PageId, i: nat, sib: PageId, sep: int, isLeft: bool)
    requires Short(a, t, p) && HasSibling(a, t, p, q, i, sib, sep, isLeft) && a.pages[p].Internal?
    ensures forall c :: c in a.pages[p].children ==> c in a.pages && a.pages[c].parent == p && c !in a.pages[sib].children
    ensures forall c :: c in a.pages[sib].children ==> c in a.pages && a.pages[c].parent == sib && c !in a.pages[p].children
    ensures forall x, y :: 0 <= x < y < |a.pages[sib].children| ==> a.pages[sib].children[x] != a.pages[sib].children[y]
  {
    assert NodeOk(a.pages, a.info, t, {p}, sib) && NodeOk(a.pages, a.info, t, {p}, p);
    LowerKids(a.pages, a.info, t, {p}, sib);
    LowerKids(a.pages, a.info, t, {p}, p);
    forall x, y | 0 <= x < y < |a.pages[sib].children|
      ensures a.pages[sib].children[x] != a.pages[sib].children[y]
    {
      SlotsApart(a.pages, a.info, t, {p}, sib, x, y);
    }
  }

  // ---------------------------------------------------------------- removing a child

  /** Removing a child touches nothing outside the tree. */
  lemma RemovedKept(a: Tree, b: Tree, t: PageId, q: PageId, j: nat)
    requires Removable(a, t, q, j) && b == a.(pages := a.pages[q := RemoveChild(a.pages[q], j)])
    ensures DeadSame(a, b, {}) && t in b.pages && SameFace(b.pages[t], a.pages[t])
    ensures q != t ==> Short(b, t, q)
    ensures Valid(b.pages, b.info, t, b.n, {q}) && Holds(b.pages, b.info, b.rows)
    ensures q in b.info && t in b.info && b.info[q].height <= b.info[t].height
  {
    if q != t { var _ := ParentSlot(b.pages, b.info, t, b.n, {q}, q); }
  }

  lemma CollapsedRoot(a: Tree, b: Tree, t: PageId)
    requires Valid(b.pages, b.info, t, b.n, {t}) && Holds(b.pages, b.info, b.rows)
    requires t in b.pages && b.pages[t].Internal? && |b.pages[t].keys| == 0
    requires |b.pages[t].children| == 1 && b.pages[t].children[0] in b.info
    requires Valid(b.pages, b.info - {t}, b.pages[t].children[0], b.n, {t} - {t})
    requires DeadSame(a, b, {}) && a.rows == b.rows && a.n == b.n && t in a.pages
    ensures Settled(a, b.(info := b.info - {t}), t, b.pages[t].children[0])
  {
    assert NodeOk(b.pages, b.info, t, {t}, t);
    assert ChildOk(b.pages, b.info, t, b.pages[t].keys, b.info[t], b.pages[t].children[0], 0);
    assert {t} - {t} == {};
  }

  // ---------------------------------------------------------------- internal pages

  /** Dividing the join of `l` and `r` one place further left. */
  lemma PartLeft(l: Node, k: int, r: Node)
    requires l.Internal? && r.Internal? && 0 < |l.keys| && |l.children| == |l.keys| + 1 && |r.children| == |r.keys| + 1
    ensures var nd, s, x := Merged(l, k, r), |l.keys| - 1, |l.children| - 1;
            && CanSplit(nd, s) && SplitKey(nd, s) == l.keys[s]
            && LeftHalf(nd, s) == Internal(l.parent, l.keys[..s], l.children[..x])
            && forall q :: RightHalf(nd, s, q) == Internal(q, [k] + r.keys, [l.children[x]] + r.children)
  {
    var nd, s, x := Merged(l, k, r), |l.keys| - 1, |l.children| - 1;
    assert nd.keys[s + 1..] == [k] + r.keys;
    assert nd.children[s + 1..] == [l.children[x]] + r.children;
  }

  /** Dividing the join of `l` and `r` one place further right. */
  lemma PartRight(l: Node, k: int, r: Node)
    requires l.Internal? && r.Internal? && 0 < |r.keys| && |l.children| == |l.keys| + 1 && |r.children| == |r.keys| + 1
    ensures var nd, s := Merged(l, k, r), |l.keys| + 1;
            && CanSplit(nd, s) && SplitKey(nd, s) == r.keys[0]
            && LeftHalf(nd, s) == Internal(l.parent, l.keys + [k], l.children + [r.children[0]])
            && forall q :: RightHalf(nd, s, q) == Internal(q, r.keys[1..], r.children[1..])
  {
    var nd, s := Merged(l, k, r), |l.keys| + 1;
    assert nd.keys[..s] == l.keys + [k];
    assert nd.keys[s + 1..] == r.keys[1..];
    assert nd.children[..s + 1] == l.children + [r.children[0]];
    assert nd.children[s + 1..] == r.children[1..];
  }

  ghost predicate KidsOfPair(pages: Pages, q: PageId, l: PageId, r: PageId) {
    && l in pages && r in pages && q in pages && l != r && l != q && r != q
    && pages[l].Internal? && pages[r].Internal? && pages[l].parent == q && pages[r].parent == q
    && |pages[l].children| == |pages[l].keys| + 1 && |pages[r].children| == |pages[r].keys| + 1
    && (forall c :: c in pages[l].children ==> c in pages && pages[c].parent == l && c !in pages[r].children && c != l && c != r && c != q)
    && (forall c :: c in pages[r].children ==> c in pages && pages[c].parent == r && c !in pages[l].children && c != l && c != r && c != q)
  }

  /** If every child of the two halves but `moved` already points to its half, redividing
      rewrites the halves, the separator and the parent field of `moved`. */
  lemma Redivided(pages: Pages, l: PageId, r: PageId, q: PageId, left: Node, right: Node, nq: Node, moved: PageId, to: PageId)
    requires moved in pages && l != r && l != q && r != q && (to == l || to == r)
    requires moved in Kids(if to == l then left else right) && moved != l && moved != r && moved != q
    requires forall c :: c in Kids(left) ==> c in pages && c !in Kids(right) && (c != moved ==> pages[c].parent == l)
    requires forall c :: c in Kids(right) ==> c in pages && c !in Kids(left) && (c != moved ==> pages[c].parent == r)
    ensures pages[l := left][r := right][moved := pages[moved].(parent := to)][q := nq]
         == Reparent(Reparent(pages, Kids(left), l), Kids(right), r)[l := left][r := right][q := nq]
  {
  }

  lemma BorrowLeft(pages: Pages, q: PageId, j: nat, l: PageId, k: int, r: PageId)
    requires KidsOfPair(pages, q, l, r) && PairOk(pages, q, j) && 0 < |pages[l].keys|
    requires l == pages[q].children[j - 1] && r == pages[q].children[j] && k == pages[q].keys[j - 1]
    requires var lc := pages[l].children; forall x :: 0 <= x < |lc| - 1 ==> lc[x] != lc[|lc| - 1]
    ensures var s, x := |pages[l].keys| - 1, |pages[l].children| - 1;
            var lk, lc, moved := pages[l].keys, pages[l].children, pages[l].children[x];
            && CanRebalance(pages, q, j, s)
            && Rebalanced(pages, q, j, s) ==
                 pages[l := Internal(q, lk[..s], lc[..x])][r := Internal(q, [k] + pages[r].keys, [moved] + pages[r].children)]
                      [moved := pages[moved].(parent := r)][q := Internal(pages[q].parent, pages[q].keys[j - 1 := lk[s]], pages[q].children)]
  {
    PartLeft(pages[l], k, pages[r]);
    var s, x := |pages[l].keys| - 1, |pages[l].children| - 1;
    var lk, lc := pages[l].keys, pages[l].children;
    var left, right := Internal(q, lk[..s], lc[..x]), Internal(q, [k] + pages[r].keys, [lc[x]] + pages[r].children);
    Redivided(pages, l, r, q, left, right, Internal(pages[q].parent, pages[q].keys[j - 1 := lk[s]], pages[q].children), lc[x], r);
  }

  lemma BorrowRight(pages: Pages, q: PageId, j: nat, l: PageId, k: int, r: PageId)
    requires KidsOfPair(pages, q, l, r) && PairOk(pages, q, j) && 0 < |pages[r].keys|
    requires l == pages[q].children[j - 1] && r == pages[q].children[j] && k == pages[q].keys[j - 1]
    requires var rc := pages[r].children; forall x :: 0 < x < |rc| ==> rc[x] != rc[0]
    ensures var s, rk, rc, moved := |pages[l].keys| + 1, pages[r].keys, pages[r].children, pages[r].children[0];
            && CanRebalance(pages, q, j, s)
            && Rebalanced(pages, q, j, s) ==
                 pages[r := Internal(q, rk[1..], rc[1..])][l := Internal(q, pages[l].keys + [k], pages[l].children + [moved])]
                      [moved := pages[moved].(parent := l)][q := Internal(pages[q].parent, pages[q].keys[j - 1 := rk[0]], pages[q].children)]
  {
    PartRight(pages[l], k, pages[r]);
    var rk, rc := pages[r].keys, pages[r].children;
    var left, right := Internal(q, pages[l].keys + [k], pages[l].children + [rc[0]]), Internal(q, rk[1..], rc[1..]);
    assert rc == [rc[0]] + rc[1..];
    Redivided(pages, l, r, q, left, right, Internal(pages[q].parent, pages[q].keys[j - 1 := rk[0]], pages[q].children), rc[0], l);
  }

  /** The pages after one child changed sides are the two siblings redivided. */
  lemma BorrowedInternal(a: Tree, pages: Pages, t: PageId, p: PageId, q: PageId, i: nat, sib: PageId, sep: int, isLeft: bool, moved: PageId, j: nat, s: nat)
    requires Short(a, t, p) && HasSibling(a, t, p, q, i, sib, sep, isLeft) && a.pages[p].Internal? && a.pages[p].parent == q
    requires |a.pages[p].keys| == MIN_KEYS - 1 && |a.pages[sib].keys| > MIN_KEYS
    requires j == RightSlot(i) && s == if isLeft then |a.pages[sib].keys| - 1 else |a.pages[p].keys| + 1
    requires var sk, sc, pk, pc := a.pages[sib].keys, a.pages[sib].children, a.pages[p].keys, a.pages[p].children;
             && moved == (if isLeft then sc[|sc| - 1] else sc[0])
             && moved in a.pages
             && pages == a.pages
                  [sib := Internal(q, if isLeft then sk[..|sk| - 1] else sk[1..], if isLeft then sc[..|sc| - 1] else sc[1..])]
                  [p := Internal(q, if isLeft then [sep] + pk else pk + [sep], if isLeft then [moved] + pc else pc + [moved])]
                  [moved := a.pages[moved].(parent := p)]
                  [q := Internal(a.pages[q].parent, a.pages[q].keys[j - 1 := if isLeft then sk[|sk| - 1] else sk[0]], a.pages[q].children)]
    ensures CanRebalance(a.pages, q, j, s) && pages == Rebalanced(a.pages, q, j, s)
    ensures var nd := Merged(a.pages[a.pages[q].children[j - 1]], a.pages[q].keys[j - 1], a.pages[a.pages[q].children[j]]);
            Occupied(LeftHalf(nd, s), false) && Occupied(RightHalf(nd, s, 0), false)
  {
    SiblingKids(a, t, p, q, i, sib, sep, isLeft);
    KidParents(a, t, p, q, i, sib, sep, isLeft);
    if isLeft {
      BorrowLeft(a.pages, q, j, sib, sep, p);
    } else {
      BorrowRight(a.pages, q, j, p, sep, sib);
    }
  }

  lemma MergedInternal(a: Tree, c: Tree, t: PageId, p: PageId, q: PageId, i: nat, sib: PageId, sep: int, isLeft: bool)
    requires Short(a, t, p) && HasSibling(a, t, p, q, i, sib, sep, isLeft) && a.pages[p].Internal?
    requires |a.pages[p].keys| == MIN_KEYS - 1 && |a.pages[sib].keys| == MIN_KEYS
    requires var l, r := if isLeft then sib else p, if isLeft then p else sib;
             && c.pages == Reparent(a.pages, a.pages[r].children, l)[l := Internal(q, a.pages[l].keys + [sep] + a.pages[r].keys, a.pages[l].children + a.pages[r].children)]
             && c.info == MergeInfos(a.info, l, r) && c.rows == a.rows && c.n == a.n
    ensures Removable(c, t, q, RightSlot(i))
    ensures c.pages[q] == a.pages[q]
    ensures DeadSame(a, c, {}) && t in c.pages && t in a.pages && SameFace(c.pages[t], a.pages[t])
    ensures q in c.info && t in c.info && c.info[t].height == a.info[t].height && c.info[q].height == a.info[p].height + 1
    ensures a.info[p].height < a.info[t].height && c.info[q].height <= c.info[t].height
  {
    var j := RightSlot(i);
    SiblingKids(a, t, p, q, i, sib, sep, isLeft);
    PairFacts(a.pages, a.info, t, a.n, {p}, q, j);
    var _ := ParentSlot(a.pages, a.info, t, a.n, {p}, p);
    assert Joined(a, c, q, j);
    JoinedRemovable(a, c, t, p, q, j);
    if q != t { var _ := ParentSlot(a.pages, a.info, t, a.n, {p}, q); }
  }

  // ---------------------------------------------------------------- leaves

  ghost predicate ShortLeaf(a: Tree, t: PageId, p: PageId) {
    Short(a, t, p) && a.pages[p].Leaf? && |a.pages[p].entries| < MIN_KEYS && FitsPage(a.pages[p].entries)
  }

  /** Leaf `p`, down to `es`, has room for what it would borrow, or for all of its sibling. */
  ghost predicate RepairFits(pages: Pages, p: PageId, es: seq<Entry>) {
    && p in pages && pages[p].parent in pages && pages[pages[p].parent].Internal?
    && p in pages[pages[p].parent].children && 1 < |pages[pages[p].parent].children|
    && var cs := pages[pages[p].parent].children;
       var i := IndexOf(cs, p);
       var sib := cs[if i == 0 then 1 else i - 1];
       && sib in pages && pages[sib].Leaf?
       && var se := pages[sib].entries;
          HEADER_SIZE + EntryBytes(es) + (if MIN_KEYS < |se| then EntrySize(if 0 < i then se[|se| - 1] else se[0]) else EntryBytes(se)) <= PAGE_SIZE
  }

  /** A sibling without the entry that was to be borrowed from it. */
  function Robbed(sib: Node, isLeft: bool): Node
    requires sib.Leaf? && 0 < |sib.entries|
  {
    Leaf(sib.parent, if isLeft then sib.entries[..|sib.entries| - 1] else sib.entries[1..])
  }

  /** Leaf `sib` is the neighbour that leaf `p` borrows from or merges with. */
  ghost predicate IsSibling(pages: Pages, p: PageId, sib: PageId, isLeft: bool) {
    && p in pages && pages[p].parent in pages && pages[pages[p].parent].Internal?
    && var cs := pages[pages[p].parent].children;
       && p in cs && 1 < |cs|
       && var i := IndexOf(cs, p);
          sib == cs[if i == 0 then 1 else i - 1] && (isLeft <==> 0 < i) && sib in pages && pages[sib].Leaf?
  }

  /** What a repair that does not fit leaves: nothing changed by a merge, but a borrow has by
      then written the sibling without its entry. */
  ghost function AfterFailure(pages: Pages, sib: PageId, isLeft: bool): Pages
    requires sib in pages && pages[sib].Leaf?
  {
    if MIN_KEYS < |pages[sib].entries| then pages[sib := Robbed(pages[sib], isLeft)] else pages
  }

  /** The key of the entry that has gone with it. */
  ghost function GoneWith(pages: Pages, sib: PageId, isLeft: bool): set<int>
    requires sib in pages && pages[sib].Leaf?
  {
    var se := pages[sib].entries;
    if MIN_KEYS < |se| then {(if isLeft then se[|se| - 1] else se[0]).key} else {}
  }

  ghost predicate FailedRepair(pages: Pages, pages': Pages, p: PageId) {
    exists sib, isLeft :: IsSibling(pages, p, sib, isLeft) && pages' == AfterFailure(pages, sib, isLeft)
  }

  /** What a deletion that fails leaves: the entry gone from its leaf, and with it the one that
      was to be borrowed, if any. */
  ghost predicate LeftShort(pages: Pages, pages': Pages, rows: Rows, rows': Rows, p: PageId, key: int) {
    && p in pages && pages[p].Leaf?
    && exists x, sib, isLeft ::
         && 0 <= x < |pages[p].entries| && pages[p].entries[x].key == key
         && WithoutEntry(pages, pages', rows, rows', p, x, sib, isLeft)
  }

  ghost predicate WithoutEntry(pages: Pages, pages': Pages, rows: Rows, rows': Rows, p: PageId, x: nat, sib: PageId, isLeft: bool)
    requires p in pages && pages[p].Leaf? && x < |pages[p].entries|
  {
    var mid := pages[p := Leaf(pages[p].parent, RemoveAt(pages[p].entries, x))];
    IsSibling(mid, p, sib, isLeft) && pages' == AfterFailure(mid, sib, isLeft) && rows' == rows - {pages[p].entries[x].key} - GoneWith(mid, sib, isLeft)
  }

  /** Deleting `key` leaves leaf `p` short, and the repair does not fit. */
  ghost predicate DeleteOverflows(pages: Pages, root: PageId, p: PageId, key: int) {
    && p in pages && pages[p].Leaf? && p != root
    && exists x :: 0 <= x < |pages[p].entries| && pages[p].entries[x].key == key && |pages[p].entries| <= MIN_KEYS
                   && !RepairFits(pages, p, RemoveAt(pages[p].entries, x))
  }

  lemma NoOverflow(pages: Pages, root: PageId, p: PageId, key: int)
    requires p in pages && pages[p].Leaf? && forall y :: 0 <= y < |pages[p].entries| ==> pages[p].entries[y].key != key
    ensures !DeleteOverflows(pages, root, p, key)
  {
  }

  lemma OneEntry(e: Entry)
    ensures EntryBytes([e]) == EntrySize(e)
  {
    assert EntryBytes([e]) == EntryBytes([]) + EntrySize(e);
  }

  lemma PrefixBytes(a: seq<Entry>, b: seq<Entry>, x: nat)
    requires x <= |b|
    ensures EntryBytes(a + b[..x]) <= EntryBytes(a + b)
  {
    assert a + b == (a + b[..x]) + b[x..];
    EntryBytesAppend(a + b[..x], b[x..]);
  }

  lemma {:induction false} RemovedBytes(es: seq<Entry>, x: nat)
    requires x < |es|
    ensures EntryBytes(RemoveAt(es, x)) <= EntryBytes(es)
  {
    EntryBytesAppend(es[..x], es[x + 1..]);
    BytesAround(es[..x], es[x], es[x + 1..]);
    assert es == es[..x] + [es[x]] + es[x + 1..];
  }

  lemma PartLeafLeft(l: Node, k: int, r: Node)
    requires l.Leaf? && r.Leaf? && 1 < |l.entries| && FitsPage(l.entries)
    requires HEADER_SIZE + EntryBytes(r.entries) + EntrySize(l.entries[|l.entries| - 1]) <= PAGE_SIZE
    ensures var nd, s := Merged(l, k, r), |l.entries| - 1;
            && CanSplit(nd, s) && SplitKey(nd, s) == l.entries[s].key
            && LeftHalf(nd, s) == Leaf(l.parent, l.entries[..s]) && (forall q :: RightHalf(nd, s, q) == Leaf(q, [l.entries[s]] + r.entries))
            && Occupied(LeftHalf(nd, s), false) && Occupied(RightHalf(nd, s, 0), false)
  {
    var nd, s := Merged(l, k, r), |l.entries| - 1;
    assert nd.entries[..s] == l.entries[..s];
    assert nd.entries[s..] == [l.entries[s]] + r.entries;
    EntryBytesAppend([l.entries[s]], r.entries);
    OneEntry(l.entries[s]);
  }

  lemma PartLeafRight(l: Node, k: int, r: Node)
    requires l.Leaf? && r.Leaf? && 1 < |r.entries| && FitsPage(r.entries)
    requires HEADER_SIZE + EntryBytes(l.entries) + EntrySize(r.entries[0]) <= PAGE_SIZE
    ensures var nd, s := Merged(l, k, r), |l.entries| + 1;
            && CanSplit(nd, s) && SplitKey(nd, s) == r.entries[1].key
            && LeftHalf(nd, s) == Leaf(l.parent, l.entries + [r.entries[0]]) && (forall q :: RightHalf(nd, s, q) == Leaf(q, r.entries[1..]))
            && Occupied(LeftHalf(nd, s), false) && Occupied(RightHalf(nd, s, 0), false)
  {
    var nd, s := Merged(l, k, r), |l.entries| + 1;
    assert nd.entries[..s] == l.entries + [r.entries[0]];
    assert nd.entries[s..] == r.entries[1..];
    EntryBytesAppend(l.entries, [r.entries[0]]);
    OneEntry(r.entries[0]);
    RemovedBytes(r.entries, 0);
    assert RemoveAt(r.entries, 0) == r.entries[1..];
  }

  ghost predicate LeafPair(pages: Pages, q: PageId, j: nat, l: PageId, k: int, r: PageId) {
    && PairOk(pages, q, j) && l == pages[q].children[j - 1] && r == pages[q].children[j] && k == pages[q].keys[j - 1]
    && l != r && l != q && r != q && pages[l].Leaf? && pages[r].Leaf? && pages[l].parent == q && pages[r].parent == q
  }

  lemma BorrowLeafLeft(pages: Pages, q: PageId, j: nat, l: PageId, k: int, r: PageId)
    requires LeafPair(pages, q, j, l, k, r) && 1 < |pages[l].entries| && FitsPage(pages[l].entries)
    requires HEADER_SIZE + EntryBytes(pages[r].entries) + EntrySize(pages[l].entries[|pages[l].entries| - 1]) <= PAGE_SIZE
    ensures var s, le := |pages[l].entries| - 1, pages[l].entries;
            && CanRebalance(pages, q, j, s)
            && Rebalanced(pages, q, j, s) == pages[l := Leaf(q, le[..s])][r := Leaf(q, [le[s]] + pages[r].entries)]
                                                  [q := Internal(pages[q].parent, pages[q].keys[j - 1 := le[s].key], pages[q].children)]
            && Occupied(LeftHalf(Merged(pages[l], k, pages[r]), s), false) && Occupied(RightHalf(Merged(pages[l], k, pages[r]), s, 0), false)
  {
    PartLeafLeft(pages[l], k, pages[r]);
    assert Reparent(Reparent(pages, [], l), [], r) == pages;
  }

  lemma BorrowLeafRight(pages: Pages, q: PageId, j: nat, l: PageId, k: int, r: PageId)
    requires LeafPair(pages, q, j, l, k, r) && 1 < |pages[r].entries| && FitsPage(pages[r].entries)
    requires HEADER_SIZE + EntryBytes(pages[l].entries) + EntrySize(pages[r].entries[0]) <= PAGE_SIZE
    ensures var s, re := |pages[l].entries| + 1, pages[r].entries;
            && CanRebalance(pages, q, j, s)
            && Rebalanced(pages, q, j, s) == pages[r := Leaf(q, re[1..])][l := Leaf(q, pages[l].entries + [re[0]])]
                                                  [q := Internal(pages[q].parent, pages[q].keys[j - 1 := re[1].key], pages[q].children)]
            && Occupied(LeftHalf(Merged(pages[l], k, pages[r]), s), false) && Occupied(RightHalf(Merged(pages[l], k, pages[r]), s, 0), false)
  {
    PartLeafRight(pages[l], k, pages[r]);
    assert Reparent(Reparent(pages, [], l), [], r) == pages;
  }

  lemma BorrowedLeaf(a: Tree, pages: Pages, t: PageId, p: PageId, q: PageId, i: nat, sib: PageId, sep: int, isLeft: bool, j: nat, s: nat)
    requires ShortLeaf(a, t, p) && HasSibling(a, t, p, q, i, sib, sep, isLeft) && |a.pages[sib].entries| > MIN_KEYS
    requires j == RightSlot(i) && s == if isLeft then |a.pages[sib].entries| - 1 else |a.pages[p].entries| + 1
    requires var se, es := a.pages[sib].entries, a.pages[p].entries;
             var stolen := if isLeft then se[|se| - 1] else se[0];
             && HEADER_SIZE + EntryBytes(es) + EntrySize(stolen) <= PAGE_SIZE
             && pages == a.pages
                  [sib := Leaf(q, if isLeft then se[..|se| - 1] else se[1..])]
                  [p := Leaf(q, if isLeft then [stolen] + es else es + [stolen])]
                  [q := Internal(a.pages[q].parent, a.pages[q].keys[j - 1 := if isLeft then stolen.key else se[1].key], a.pages[q].children)]
    ensures CanRebalance(a.pages, q, j, s) && pages == Rebalanced(a.pages, q, j, s)
    ensures var nd := Merged(a.pages[a.pages[q].children[j - 1]], a.pages[q].keys[j - 1], a.pages[a.pages[q].children[j]]);
            Occupied(LeftHalf(nd, s), false) && Occupied(RightHalf(nd, s, 0), false)
  {
    if isLeft {
      BorrowLeafLeft(a.pages, q, j, sib, sep, p);
    } else {
      BorrowLeafRight(a.pages, q, j, p, sep, sib);
    }
  }

  lemma BorrowedLeafSettles(a: Tree, b: Tree, t: PageId, p: PageId, q: PageId, i: nat, sib: PageId, sep: int, isLeft: bool, j: nat, s: nat)
    requires ShortLeaf(a, t, p) && HasSibling(a, t, p, q, i, sib, sep, isLeft) && j == RightSlot(i)
    requires CanRebalance(a.pages, q, j, s) && b == Tree(Rebalanced(a.pages, q, j, s), RebalancedInfos(a.pages, a.info, q, j, s), a.rows, a.n)
    requires var nd := Merged(a.pages[a.pages[q].children[j - 1]], a.pages[q].keys[j - 1], a.pages[a.pages[q].children[j]]);
             Occupied(LeftHalf(nd, s), false) && Occupied(RightHalf(nd, s, 0), false)
    ensures Settled(a, b, t, t)
  {
    Borrowed(a, b, t, p, q, j, s);
  }

  lemma MergedLeaf(a: Tree, c: Tree, t: PageId, p: PageId, q: PageId, i: nat, sib: PageId, sep: int, isLeft: bool)
    requires ShortLeaf(a, t, p) && HasSibling(a, t, p, q, i, sib, sep, isLeft)
    requires var l, r := if isLeft then sib else p, if isLeft then p else sib;
             && FitsPage(a.pages[l].entries + a.pages[r].entries)
             && c.pages == a.pages[l := Leaf(q, a.pages[l].entries + a.pages[r].entries)]
             && c.info == MergeInfos(a.info, l, r) && c.rows == a.rows && c.n == a.n
    ensures Removable(c, t, q, RightSlot(i)) && c.pages[q] == a.pages[q]
    ensures DeadSame(a, c, {}) && t in c.pages && t in a.pages && SameFace(c.pages[t], a.pages[t])
  {
    var l, r := if isLeft then sib else p, if isLeft then p else sib;
    assert Reparent(a.pages, [], l) == a.pages;
    assert Joined(a, c, q, RightSlot(i));
    JoinedRemovable(a, c, t, p, q, RightSlot(i));
  }

  // ---------------------------------------------------------------- taking an entry out

  lemma RemovedSorted(es: seq<Entry>, x: nat, f: Info)
    requires EntriesOk(es, f) && x < |es|
    ensures EntriesOk(RemoveAt(es, x), f)
  {
    var es' := RemoveAt(es, x);
    forall y, z | 0 <= y < z < |es'|
      ensures es'[y].key < es'[z].key
    {
      assert es'[y] == es[if y < x then y else y + 1] && es'[z] == es[if z < x then z else z + 1];
    }
  }

  lemma RemovedHolds(es: seq<Entry>, x: nat, f: Info, rows: Rows)
    requires SortedEntries(es) && LeafHolds(es, f, rows) && x < |es|
    ensures LeafHolds(RemoveAt(es, x), f, rows - {es[x].key})
  {
    var es' := RemoveAt(es, x);
    forall y | 0 <= y < |es'|
      ensures es'[y].key in rows - {es[x].key} && rows[es'[y].key] == es'[y].data
    {
      var z := if y < x then y else y + 1;
      assert es'[y] == es[z];
      assert if z < x then es[z].key < es[x].key else es[x].key < es[z].key;
    }
    forall k | k in rows - {es[x].key} && f.lo <= k < f.hi
      ensures HasKey(es', k)
    {
      var y :| 0 <= y < |es| && es[y].key == k;
      assert es'[if y < x then y else y - 1].key == k;
    }
  }

  lemma RemovedEntries(es: seq<Entry>, x: nat, f: Info, rows: Rows)
    requires EntriesOk(es, f) && LeafHolds(es, f, rows) && x < |es|
    ensures EntriesOk(RemoveAt(es, x), f) && LeafHolds(RemoveAt(es, x), f, rows - {es[x].key})
  {
    RemovedSorted(es, x, f);
    RemovedHolds(es, x, f, rows);
  }

  lemma OneSuch(es: seq<Entry>, x: nat, key: int)
    requires SortedEntries(es) && x < |es| && es[x].key == key
    ensures forall y :: 0 <= y < |es| && es[y].key == key ==> y == x
  {
  }

  lemma RemovedRepair(a: Tree, c: Tree, p: PageId, x: nat, t: PageId)
    requires Sound(a, t) && p in a.info && p in a.pages && a.pages[p].Leaf? && x < |a.pages[p].entries| && p != t
    requires c.pages == a.pages[p := Leaf(a.pages[p].parent, RemoveAt(a.pages[p].entries, x))]
    ensures RepairFits(c.pages, p, c.pages[p].entries) <==> RepairFits(a.pages, p, RemoveAt(a.pages[p].entries, x))
  {
    var _ := ParentSlot(a.pages, a.info, t, a.n, {}, p);
    var q := a.pages[p].parent;
    assert NodeOk(a.pages, a.info, t, {}, q);
    var i := IndexOf(a.pages[q].children, p);
    SlotsApart(a.pages, a.info, t, {}, q, i, if i == 0 then 1 else i - 1);
  }

  /** Taking one entry out of leaf `p`. */
  lemma RemoveEntry(a: Tree, c: Tree, p: PageId, key: int, x: nat, t: PageId)
    requires Sound(a, t) && p in a.info && p in a.pages && a.pages[p].Leaf? && a.info[p].lo <= key < a.info[p].hi
    requires x < |a.pages[p].entries| && a.pages[p].entries[x].key == key
    requires c == a.(pages := a.pages[p := Leaf(a.pages[p].parent, RemoveAt(a.pages[p].entries, x))], rows := a.rows - {key})
    ensures Valid(c.pages, c.info, t, c.n, {p}) && Holds(c.pages, c.info, c.rows)
    ensures FitsPage(RemoveAt(a.pages[p].entries, x)) && key in a.rows && p in c.pages
    ensures c.pages[p].parent == a.pages[p].parent && forall q :: q in a.pages && q != p ==> c.pages[q] == a.pages[q]
    ensures p != t && |c.pages[p].entries| < MIN_KEYS ==> ShortLeaf(c, t, p)
    ensures p != t && |c.pages[p].entries| < MIN_KEYS ==> (DeleteOverflows(a.pages, t, p, key) <==> !RepairFits(c.pages, p, c.pages[p].entries))
  {
    var es, es' := a.pages[p].entries, RemoveAt(a.pages[p].entries, x);
    assert NodeOk(a.pages, a.info, t, {}, p);
    assert LeafHolds(es, a.info[p], a.rows);
    RemovedEntries(es, x, a.info[p], a.rows);
    LeafRewriteOk(a.pages, a.info, t, a.n, {}, p, es', {p});
    LeafRewriteHolds(a.pages, a.info, t, a.n, {}, p, es', a.rows, c.rows);
    if p != t { RemovedRepair(a, c, p, x, t); }
    OneSuch(es, x, key);
    RemovedBytes(es, x);
  }

  lemma DeleteSettled(a: Tree, c: Tree, b: Tree, p: PageId, t: PageId, t': PageId)
    requires Sound(a, t) && p in a.info && p in a.pages && p in c.pages && c.info == a.info && c.n == a.n
    requires c.pages[p].parent == a.pages[p].parent && (forall q :: q in a.pages && q != p ==> q in c.pages && c.pages[q] == a.pages[q])
    requires Settled(c, b, t, t') && p != t
    ensures Sound(b, t') && b.n == a.n && b.rows == c.rows
    ensures StaleOk(a, t) ==> StaleOk(b, t')
    ensures RootKept(a, b, t, t')
  {
    assert LinkOk(a.pages, a.info, t, t);
  }

  /** The root is the same page with the same parent field, or the child of a collapsed root,
      whose parent field still names it. */
  ghost predicate RootKept(a: Tree, b: Tree, t: PageId, t': PageId) {
    && t' in b.pages
    && (t' == t ==> t in a.pages && SameFace(b.pages[t], a.pages[t]))
    && (t' != t ==> b.pages[t'].parent == t && 0 < t)
  }

  /** No repair was needed. */
  lemma DeleteRoomy(a: Tree, c: Tree, p: PageId, key: int, t: PageId)
    requires Sound(a, t) && p in a.info && p in a.pages && a.pages[p].Leaf? && p in c.pages && c.pages[p].Leaf? && c.info == a.info && c.n == a.n
    requires c.pages[p].parent == a.pages[p].parent && (forall q :: q in a.pages && q != p ==> q in c.pages && c.pages[q] == a.pages[q])
    requires Valid(c.pages, c.info, t, c.n, {p}) && Holds(c.pages, c.info, c.rows) && FitsPage(c.pages[p].entries)
    requires |c.pages[p].entries| == |a.pages[p].entries| - 1
    requires p == t || MIN_KEYS <= |c.pages[p].entries|
    ensures Sound(c, t) && (StaleOk(a, t) ==> StaleOk(c, t)) && !DeleteOverflows(a.pages, t, p, key) && RootKept(a, c, t, t)
  {
    Unexcuse(c.pages, c.info, t, c.n, {p});
    PageFacts(a, p, t);
  }

  /** A sibling that has lost its first or last entry. */
  lemma RobbedOk(c: Tree, t: PageId, p: PageId, sib: PageId, isLeft: bool)
    requires Valid(c.pages, c.info, t, c.n, {p}) && Holds(c.pages, c.info, c.rows)
    requires sib in c.info && sib in c.pages && c.pages[sib].Leaf? && sib != p && MIN_KEYS < |c.pages[sib].entries|
    ensures Valid(AfterFailure(c.pages, sib, isLeft), c.info, t, c.n, {p})
    ensures Holds(AfterFailure(c.pages, sib, isLeft), c.info, c.rows - GoneWith(c.pages, sib, isLeft))
  {
    var es := c.pages[sib].entries;
    var x := if isLeft then |es| - 1 else 0;
    assert RemoveAt(es, x) == if isLeft then es[..|es| - 1] else es[1..];
    TakenOut(c, t, {p}, sib, x);
  }

  lemma TakenOut(c: Tree, t: PageId, xs: set<PageId>, p: PageId, x: nat)
    requires Valid(c.pages, c.info, t, c.n, xs) && Holds(c.pages, c.info, c.rows)
    requires p in c.info && p in c.pages && c.pages[p].Leaf? && p !in xs && x < |c.pages[p].entries| && 1 < |c.pages[p].entries|
    ensures Valid(c.pages[p := Leaf(c.pages[p].parent, RemoveAt(c.pages[p].entries, x))], c.info, t, c.n, xs)
    ensures Holds(c.pages[p := Leaf(c.pages[p].parent, RemoveAt(c.pages[p].entries, x))], c.info, c.rows - {c.pages[p].entries[x].key})
  {
    var es := c.pages[p].entries;
    assert NodeOk(c.pages, c.info, t, xs, p);
    assert LeafHolds(es, c.info[p], c.rows);
    RemovedEntries(es, x, c.info[p], c.rows);
    RemovedBytes(es, x);
    LeafRewriteOk(c.pages, c.info, t, c.n, xs, p, RemoveAt(es, x), xs);
    LeafRewriteHolds(c.pages, c.info, t, c.n, xs, p, RemoveAt(es, x), c.rows, c.rows - {es[x].key});
  }

  lemma SiblingThere(c: Tree, t: PageId, p: PageId, sib: PageId, isLeft: bool)
    requires ShortLeaf(c, t, p) && IsSibling(c.pages, p, sib, isLeft)
    ensures sib in c.info && sib != p
  {
    var _ := SiblingSetup(c, t, p);
    var q := c.pages[p].parent;
    var i := IndexOf(c.pages[q].children, p);
    SiblingKind(c, t, p, i);
  }

  /** After a failed deletion every page but leaf `p` is as it should be, and the leaves hold
      what is left of the rows. */
  lemma FailedDelete(a: Tree, c: Tree, pages': Pages, p: PageId, x: nat, t: PageId) returns (rows': Rows)
    requires p in a.pages && a.pages[p].Leaf? && x < |a.pages[p].entries|
    requires c == a.(pages := a.pages[p := Leaf(a.pages[p].parent, RemoveAt(a.pages[p].entries, x))], rows := a.rows - {a.pages[p].entries[x].key})
    requires ShortLeaf(c, t, p) && Holds(c.pages, c.info, c.rows) && FailedRepair(c.pages, pages', p)
    ensures LeftShort(a.pages, pages', a.rows, rows', p, a.pages[p].entries[x].key)
    ensures Valid(pages', c.info, t, c.n, {p}) && Holds(pages', c.info, rows')
  {
    var sib, isLeft :| IsSibling(c.pages, p, sib, isLeft) && pages' == AfterFailure(c.pages, sib, isLeft);
    rows' := c.rows - GoneWith(c.pages, sib, isLeft);
    SiblingThere(c, t, p, sib, isLeft);
    if MIN_KEYS < |c.pages[sib].entries| {
      RobbedOk(c, t, p, sib, isLeft);
    } else {
      assert rows' == c.rows;
    }
    assert WithoutEntry(a.pages, pages', a.rows, rows', p, x, sib, isLeft);
  }
}
