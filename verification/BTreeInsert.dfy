/** What inserting one entry does to the whole tree. */
module BTreeInsert {
  import opened Options
  import opened BTreeShape
  import opened BTreeSplit
  import opened BTreeRoot
  import opened BTreePending
  import opened BTreeLimits
  import opened BTreeLink

  /** The root `u` is a new page joining the old root `t` with a page to its right. */
  ghost predicate TopOf(b: Tree, u: PageId, t: PageId) {
    u in b.pages && exists k, r :: b.pages[u] == Internal(0, [k], [t, r])
  }

  /** The insertion splits leaf `p` and every page up to the root. */
  ghost predicate SplitsRoot(a: Tree, p: PageId, key: int, data: seq<byte>, t: PageId) {
    && p in a.pages && a.pages[p].Leaf?
    && 0 < Splits(a.pages[p].entries, key, data) && Full(a.pages, a.info, t, p)
  }

  ghost predicate Drops(a: Tree, p: PageId, key: int, data: seq<byte>, t: PageId) {
    DropsRoot(a.pages, a.info, t, p, key, data)
  }

  /** One of the splits reaches the root. */
  ghost predicate Reaches(a: Tree, p: PageId, key: int, data: seq<byte>, t: PageId) {
    SplitsRoot(a, p, key, data, t) || Drops(a, p, key, data, t)
  }

  /** The true root after the insertion is `u`; the caller hears of it through `res` unless
      the nested call that created it was dropped. */
  ghost predicate RootIs(a: Tree, b: Tree, p: PageId, key: int, data: seq<byte>, t: PageId, u: PageId, res: Option<PageId>, lost: bool) {
    && (lost <==> Stale(a, t) && Reaches(a, p, key, data, t))
    && (res.Some? <==> !Stale(a, t) && SplitsRoot(a, p, key, data, t))
    && (u == t <==> lost || !Reaches(a, p, key, data, t))
    && (lost || !Drops(a, p, key, data, t) ==> u == NewRoot(res, t))
    && (!lost && (Drops(a, p, key, data, t) || (SplitsRoot(a, p, key, data, t) && p != t)) ==> TopOf(b, u, t))
    && (u != t ==> a.n <= u && u in b.pages && b.pages[u].parent == 0)
    && (u == t ==> t in b.pages && t in a.pages && b.pages[t].parent == a.pages[t].parent)
  }

  /** The parent of `p` takes in every new page itself, so nothing above it changes. */
  ghost predicate StaysLow(a: Tree, b: Tree, p: PageId, key: int, data: seq<byte>, t: PageId) {
    p != t && p in a.pages && a.pages[p].Leaf? ==>
      var q := a.pages[p].parent;
      (q in a.pages && a.pages[q].Internal? && q in a.info && |a.pages[q].keys| + Splits(a.pages[p].entries, key, data) <= BTREE_ORDER)
      ==> HighSame(a, b, a.info[q].height)
  }

  /** Tree `a` has become `b` by inserting (key, data) at leaf `p`. */
  ghost predicate Inserted(a: Tree, b: Tree, p: PageId, key: int, data: seq<byte>, t: PageId, u: PageId, res: Option<PageId>, stuck: bool, lost: bool, kl: int)
    requires p in a.pages && a.pages[p].Leaf?
  {
    && Sound(b, u)
    && a.n <= b.n && (t in a.info ==> b.n <= a.n + Allowance(Splits(a.pages[p].entries, key, data), a.info[t].height))
    && (stuck <==> Stuck(a.pages[p].entries, key, data))
    && RootIs(a, b, p, key, data, t, u, res, lost)
    && DeadSame(a, b, if lost && t in a.pages then {a.pages[t].parent} else {})
    && StaysLow(a, b, p, key, data, t)
    && (!lost && p in a.info ==> LeavesStay(a, b, p, 0 < Splits(a.pages[p].entries, key, data)))
    && (lost ==> b.rows == Below(RowsAfter(a.rows, key, data, stuck), kl) && exists x :: x in a.rows && kl <= x)
    && (!lost ==> b.rows == RowsAfter(a.rows, key, data, stuck))
  }

  /** Leaf `p` keeps the left end of its range, and every other leaf all of it. */
  ghost predicate LeavesStay(a: Tree, b: Tree, p: PageId, split: bool) {
    && p in a.info && p in b.info && p in b.pages && b.pages[p].Leaf? && b.info[p].height == 0
    && b.info[p].lo == a.info[p].lo && (if split then b.info[p].hi < a.info[p].hi else b.info[p].hi == a.info[p].hi)
    && forall q :: q in a.info && q in a.pages && a.pages[q].Leaf? && a.info[q].height == 0 && q != p ==>
         q in b.info && b.info[q] == a.info[q] && q in b.pages && b.pages[q].Leaf?
  }

  function RowsAfter(rows: Rows, key: int, data: seq<byte>, stuck: bool): Rows {
    if stuck then rows else rows[key := data]
  }

  /** Page ids an insertion may use up. */
  function Allowance(splits: nat, height: nat): nat {
    splits * (height + splits + 2)
  }

  lemma AllowanceStep(splits: nat, height: nat, n: nat, height': nat, n': nat)
    requires 0 < splits && height' <= height + 1 && n' <= n + height + 2
    ensures n' + Allowance(splits - 1, height') <= n + Allowance(splits, height)
    ensures n + height + 2 <= n + Allowance(splits, height)
  {
    var d := height + splits + 2;
    assert height' + (splits - 1) + 2 <= d;
    assert Allowance(splits - 1, height') <= (splits - 1) * d by {
      MulMonotone(splits - 1, height' + (splits - 1) + 2, d);
    }
    assert splits * d == (splits - 1) * d + d;
    assert 0 <= (splits - 1) * d;
  }

  lemma MulMonotone(x: nat, y: int, z: int)
    requires y <= z
    ensures x * y <= x * z
  {
  }

  // ---------------------------------------------------------------- room in the leaf

  lemma InsertedEntriesOk(es: seq<Entry>, j: nat, e: Entry, f: Info)
    requires EntriesOk(es, f) && j <= |es| && f.lo <= e.key < f.hi
    requires forall x :: 0 <= x < j ==> es[x].key < e.key
    requires forall x :: j <= x < |es| ==> e.key < es[x].key
    ensures EntriesOk(InsertAt(es, j, e), f)
  {
    var es' := InsertAt(es, j, e);
    assert forall x :: 0 <= x < j ==> es'[x] == es[x];
    assert forall x :: j < x < |es'| ==> es'[x] == es[x - 1];
  }

  lemma InsertedLeafHolds(es: seq<Entry>, j: nat, e: Entry, f: Info, rows: Rows)
    requires LeafHolds(es, f, rows) && j <= |es| && e.key !in rows
    ensures LeafHolds(InsertAt(es, j, e), f, rows[e.key := e.data])
  {
    var es' := InsertAt(es, j, e);
    assert es'[j] == e;
    assert forall x :: 0 <= x < j ==> es'[x] == es[x];
    assert forall x :: j < x < |es'| ==> es'[x] == es[x - 1];
    forall k | k in rows && f.lo <= k < f.hi
      ensures HasKey(es', k)
    {
      var x :| 0 <= x < |es| && es[x].key == k;
      assert es'[if x < j then x else x + 1].key == k;
    }
  }

  lemma {:induction false} InsertedBytes(es: seq<Entry>, j: nat, e: Entry)
    requires j <= |es|
    ensures EntryBytes(InsertAt(es, j, e)) == EntryBytes(es) + EntrySize(e)
  {
    BytesAround(es[..j], e, es[j..]);
    EntryBytesAppend(es[..j], es[j..]);
    assert es[..j] + es[j..] == es;
  }

  /** The leaf has room. */
  lemma InsertHereSound(a: Tree, b: Tree, p: PageId, key: int, data: seq<byte>, j: nat, t: PageId)
    requires Sound(a, t) && p in a.info && p in a.pages && a.pages[p].Leaf?
    requires a.info[p].lo <= key < a.info[p].hi && key !in a.rows && KEY_MIN <= key < KEY_END
    requires HasRoom(a.pages[p].entries, data) && PlaceFor(a.pages[p].entries, key, j)
    requires b == a.(pages := a.pages[p := Leaf(a.pages[p].parent, InsertAt(a.pages[p].entries, j, Entry(key, data)))], rows := a.rows[key := data])
    ensures Sound(b, t)
  {
    var es, e := a.pages[p].entries, Entry(key, data);
    assert NodeOk(a.pages, a.info, t, {}, p);
    assert LeafHolds(es, a.info[p], a.rows);
    InsertedEntriesOk(es, j, e, a.info[p]);
    InsertedLeafHolds(es, j, e, a.info[p], a.rows);
    InsertedBytes(es, j, e);
    LeafRewriteOk(a.pages, a.info, t, a.n, {}, p, InsertAt(es, j, e), {});
    LeafRewriteHolds(a.pages, a.info, t, a.n, {}, p, InsertAt(es, j, e), a.rows, b.rows);
  }

  lemma InsertHere(a: Tree, b: Tree, p: PageId, key: int, data: seq<byte>, j: nat, t: PageId)
    requires Sound(a, t) && p in a.info && p in a.pages && a.pages[p].Leaf?
    requires a.info[p].lo <= key < a.info[p].hi && key !in a.rows && KEY_MIN <= key < KEY_END
    requires HasRoom(a.pages[p].entries, data) && PlaceFor(a.pages[p].entries, key, j)
    requires b == a.(pages := a.pages[p := Leaf(a.pages[p].parent, InsertAt(a.pages[p].entries, j, Entry(key, data)))], rows := a.rows[key := data])
    ensures Inserted(a, b, p, key, data, t, t, None, false, false, 0)
  {
    InsertHereSound(a, b, p, key, data, j, t);
    assert NodeOk(a.pages, a.info, t, {}, p) && NodeOk(a.pages, a.info, t, {}, t);
    assert Splits(a.pages[p].entries, key, data) == 0;
    SameRoot(a, b, p, key, data, t);
    SameAbove(a, b, p, key, data, t);
  }

  /** Without a split the root stays. */
  lemma SameRoot(a: Tree, b: Tree, p: PageId, key: int, data: seq<byte>, t: PageId)
    requires p in a.pages && a.pages[p].Leaf? && Splits(a.pages[p].entries, key, data) == 0
    requires t in a.pages && t in b.pages && b.pages[t].parent == a.pages[t].parent
    ensures RootIs(a, b, p, key, data, t, t, None, false)
  {
  }

  /** Writing to leaf `p` leaves the pages above it alone. */
  lemma SameAbove(a: Tree, b: Tree, p: PageId, key: int, data: seq<byte>, t: PageId)
    requires Sound(a, t) && p in a.info && p in a.pages && a.pages[p].Leaf? && b.info == a.info
    requires forall q :: q in a.pages && q != p ==> q in b.pages && b.pages[q] == a.pages[q]
    ensures StaysLow(a, b, p, key, data, t)
  {
    if p != t {
      var _ := ParentSlot(a.pages, a.info, t, a.n, {}, p);
      assert HighSame(a, b, a.info[a.pages[p].parent].height);
    }
  }

  // ---------------------------------------------------------------- splitting the leaf

  /** `c` is `a` with leaf `p` split in the middle. */
  ghost predicate LeafHalved(a: Tree, c: Tree, p: PageId, t: PageId) {
    && Sound(a, t) && p in a.info && p in a.pages && a.pages[p].Leaf? && 2 <= |a.pages[p].entries|
    && var s := |a.pages[p].entries| / 2;
       c == Tree(Halved(a.pages, p, s, a.n), SplitInfos(a.info, p, SplitKey(a.pages[p], s), a.n), a.rows, a.n + 1)
  }

  lemma HalfPages(a: Tree, p: PageId, s: nat)
    requires p in a.pages && CanSplit(a.pages[p], s) && a.pages[p].Leaf? && FitsPage(a.pages[p].entries)
    ensures Occupied(LeftHalf(a.pages[p], s), false) && Occupied(RightHalf(a.pages[p], s, 0), false)
  {
    var es := a.pages[p].entries;
    EntryBytesAppend(es[..s], es[s..]);
    assert es[..s] + es[s..] == es;
  }

  /** Leaf `p` is excused, and both its halves are properly filled. */
  lemma HalvesReady(a: Tree, p: PageId, t: PageId, s: nat)
    requires Sound(a, t) && p in a.info && p in a.pages && CanSplit(a.pages[p], s) && a.pages[p].Leaf?
    ensures Valid(a.pages, a.info, t, a.n, {p}) && a.n !in a.info
    ensures Occupied(LeftHalf(a.pages[p], s), false) && Occupied(RightHalf(a.pages[p], s, 0), false)
  {
    assert NodeOk(a.pages, a.info, t, {}, p);
    HalfPages(a, p, s);
    Excuse(a.pages, a.info, t, a.n, {p});
    FreshIsDead(a.pages, a.info, t, a.n, {}, a.n);
  }

  lemma HalvedInner(a: Tree, p: PageId, t: PageId, s: nat) returns (i: nat)
    requires Sound(a, t) && p in a.info && p in a.pages && CanSplit(a.pages[p], s) && a.pages[p].Leaf? && p != t
    ensures Pending(Halved(a.pages, p, s, a.n), SplitInfos(a.info, p, SplitKey(a.pages[p], s), a.n), t, a.n + 1, p, i, a.n, SplitKey(a.pages[p], s), a.rows)
  {
    HalvesReady(a, p, t, s);
    i := ParentSlot(a.pages, a.info, t, a.n, {p}, p);
    SplitPendingInner(a.pages, a.info, t, a.n, p, i, s, a.rows);
  }

  lemma HalvedPending(a: Tree, c: Tree, p: PageId, t: PageId) returns (i: nat)
    requires LeafHalved(a, c, p, t) && 0 < a.n
    ensures PendingIn(c, t, p, i, a.n, SplitKey(a.pages[p], |a.pages[p].entries| / 2))
  {
    var s := |a.pages[p].entries| / 2;
    if p == t {
      i := 0;
      HalvesReady(a, p, t, s);
      SplitPendingRoot(a.pages, a.info, t, a.n, s, a.rows);
    } else {
      i := HalvedInner(a, p, t, s);
    }
  }

  /** What halving a leaf leaves alone. */
  ghost predicate HalvedView(a: Tree, c: Tree, p: PageId, t: PageId)
    requires p in a.pages && p in a.info && a.pages[p].Leaf? && 2 <= |a.pages[p].entries|
  {
    var s := |a.pages[p].entries| / 2;
    && a.info[p].height == 0
    && c.n == a.n + 1 && c.rows == a.rows
    && (forall q :: q in a.pages && q != p ==> q in c.pages && c.pages[q] == a.pages[q] && q != a.n)
    && p in c.pages && c.pages[p] == LeftHalf(a.pages[p], s)
    && a.n in c.pages && c.pages[a.n] == RightHalf(a.pages[p], s, 0)
    && (forall q :: q in a.info && q != p ==> q in c.info && c.info[q] == a.info[q] && q != a.n)
    && (forall q :: q in c.info ==> q in a.info || q == a.n)
    && p in c.info && c.info[p] == Info(0, a.info[p].lo, SplitKey(a.pages[p], s))
    && a.n in c.info && c.info[a.n] == Info(0, SplitKey(a.pages[p], s), a.info[p].hi)
    && t in a.pages && t in a.info && t in c.pages && t in c.info && t < a.n
    && c.pages[t].parent == a.pages[t].parent && c.info[t].height == a.info[t].height
    && (Full(c.pages, c.info, t, p) <==> Full(a.pages, a.info, t, p))
  }

  lemma HalvedLooks(a: Tree, c: Tree, p: PageId, t: PageId)
    requires LeafHalved(a, c, p, t)
    ensures HalvedView(a, c, p, t)
  {
    assert NodeOk(a.pages, a.info, t, {}, p) && NodeOk(a.pages, a.info, t, {}, t);
    FreshIsDead(a.pages, a.info, t, a.n, {}, a.n);
    HalvedFull(a, c, p, t);
    HalvedMaps(a, c, p, t);
  }

  lemma HalvedMaps(a: Tree, c: Tree, p: PageId, t: PageId)
    requires p in a.info && p in a.pages && a.pages[p].Leaf? && 2 <= |a.pages[p].entries| && a.info[p].height == 0
    requires a.n !in a.pages && a.n !in a.info && t in a.pages && t in a.info && t < a.n
    requires var s := |a.pages[p].entries| / 2;
             c == Tree(Halved(a.pages, p, s, a.n), SplitInfos(a.info, p, SplitKey(a.pages[p], s), a.n), a.rows, a.n + 1)
    requires Full(c.pages, c.info, t, p) <==> Full(a.pages, a.info, t, p)
    ensures HalvedView(a, c, p, t)
  {
  }

  lemma HalvedFull(a: Tree, c: Tree, p: PageId, t: PageId)
    requires LeafHalved(a, c, p, t)
    ensures Full(c.pages, c.info, t, p) <==> Full(a.pages, a.info, t, p)
  {
    assert NodeOk(a.pages, a.info, t, {}, p);
    FreshIsDead(a.pages, a.info, t, a.n, {}, a.n);
    FullFrame(a.pages, a.info, t, a.n, {}, c.pages, c.info, p);
  }

  // ---------------------------------------------------------------- after the split

  /** Leaf `p` of `a` was halved (`c`) and its right half linked in (`d`, with root `v`),
      nothing being lost; `x` is the half the entry belongs to. */
  ghost predicate HalfLinked(a: Tree, c: Tree, d: Tree, p: PageId, x: PageId, key: int, data: seq<byte>, t: PageId, v: PageId, res: Option<PageId>) {
    && p in a.pages && p in a.info && a.pages[p].Leaf? && 2 <= |a.pages[p].entries| && FitsPage(a.pages[p].entries)
    && HalvedView(a, c, p, t)
    && Linked(c, d, p, a.n, t, res, false, 0)
    && v == NewRoot(res, t)
    && x in d.pages && d.pages[x].Leaf? && (x == p || x == a.n)
    && d.pages[x].entries == HalfFor(a.pages[p].entries, key)
    && !HasRoom(a.pages[p].entries, data)
  }

  lemma HalfSplits(a: Tree, c: Tree, d: Tree, p: PageId, x: PageId, key: int, data: seq<byte>, t: PageId, v: PageId, res: Option<PageId>)
    requires HalfLinked(a, c, d, p, x, key, data, t, v, res)
    ensures Splits(a.pages[p].entries, key, data) == 1 + Splits(d.pages[x].entries, key, data) <= 9
    ensures Stuck(a.pages[p].entries, key, data) == Stuck(d.pages[x].entries, key, data)
    ensures Stale(c, t) == Stale(a, t)
    ensures res.Some? <==> !Stale(a, t) && Full(a.pages, a.info, t, p)
    ensures !(Stale(a, t) && Full(a.pages, a.info, t, p))
  {
    SplitsBound(a.pages[p].entries, key, data);
  }

  /** The parent of the half `x` after linking. */
  lemma HalfParent(a: Tree, c: Tree, d: Tree, p: PageId, x: PageId, key: int, data: seq<byte>, t: PageId, v: PageId, res: Option<PageId>)
    requires HalfLinked(a, c, d, p, x, key, data, t, v, res)
    ensures ParentAfter(c, d, t, p, x) && x != v && x in d.info && d.info[x] == c.info[x]
    ensures d.pages[x].parent in d.info && d.info[d.pages[x].parent].height == 1
    ensures v in d.pages && v in d.info && 1 <= d.info[v].height && d.pages[v].Internal?
  {
    assert RangesSame(c, d, 0);
    assert NodeOk(d.pages, d.info, v, {}, x) && NodeOk(d.pages, d.info, v, {}, v);
    var _ := ParentSlot(d.pages, d.info, v, d.n, {}, x);
  }

  /** `p` was the root, or its parent was full: the halves have sparse parents, so the nested
      insertion stays below them. */
  lemma StepSparse(a: Tree, c: Tree, d: Tree, b: Tree, p: PageId, x: PageId, key: int, data: seq<byte>, t: PageId, v: PageId, u: PageId,
                   res: Option<PageId>, res2: Option<PageId>, lost2: bool)
    requires HalfLinked(a, c, d, p, x, key, data, t, v, res)
    requires RootIs(d, b, x, key, data, v, u, res2, lost2) && StaysLow(d, b, x, key, data, v)
    requires p == t || (a.pages[p].parent in a.pages && a.pages[a.pages[p].parent].Internal? && |a.pages[a.pages[p].parent].keys| >= BTREE_ORDER && a.pages[p].parent != p)
    ensures u == v && res2 == None && HighSame(d, b, 1) && !lost2
    ensures RootIs(a, b, p, key, data, t, u, res, false)
  {
    HalfSplits(a, c, d, p, x, key, data, t, v, res);
    HalfParent(a, c, d, p, x, key, data, t, v, res);
    assert |d.pages[d.pages[x].parent].keys| <= MIN_KEYS;
    assert !Full(d.pages, d.info, v, x);
    assert !Drops(d, x, key, data, v);
    assert !Drops(a, p, key, data, t);
    if res.Some? {
      assert RootAfter(c, d, p, t, res);
      assert d.pages[v].Internal? && d.pages[v].parent == 0;
      if p != t {
        assert 1 < d.info[v].height;
        assert b.pages[v] == d.pages[v];
      }
    }
  }

  /** The parent of `p` had room: it now has one key more, and the same ancestors. */
  ghost predicate Roomy(a: Tree, d: Tree, p: PageId, x: PageId, key: int, data: seq<byte>, t: PageId) {
    && p in a.pages && a.pages[p].Leaf? && x in d.pages && d.pages[x].Leaf? && p != t && x != t && x in d.info
    && Splits(a.pages[p].entries, key, data) == 1 + Splits(d.pages[x].entries, key, data)
    && var q := a.pages[p].parent;
       && q in a.pages && a.pages[q].Internal? && |a.pages[q].keys| < BTREE_ORDER && q in a.info && a.info[q].height == 1
       && d.pages[x].parent == q && q in d.pages && d.pages[q].Internal? && |d.pages[q].keys| == |a.pages[q].keys| + 1
       && q in d.info && d.info[q].height == d.info[x].height + 1 && t in d.info && d.info[x].height < d.info[t].height
       && (Full(d.pages, d.info, t, q) <==> Full(a.pages, a.info, t, q))
       && d.info[q].height == 1
       && t in a.pages && a.n <= d.n && t in d.pages && d.pages[t].parent == a.pages[t].parent
       && HighSame(a, d, 1)
  }

  /** The next split reaches the root exactly when this one brings the parent up to it. */
  lemma RoomyReaches(a: Tree, d: Tree, p: PageId, x: PageId, key: int, data: seq<byte>, t: PageId)
    requires Roomy(a, d, p, x, key, data, t)
    ensures !SplitsRoot(a, p, key, data, t) && Stale(d, t) == Stale(a, t)
    ensures Drops(a, p, key, data, t) <==> Reaches(d, x, key, data, t)
  {
    var q := a.pages[p].parent;
    assert !Full(a.pages, a.info, t, p);
    assert Full(d.pages, d.info, t, x) <==> |a.pages[q].keys| + 1 >= BTREE_ORDER && Full(a.pages, a.info, t, q);
  }

  lemma RoomyRoot(a: Tree, d: Tree, b: Tree, p: PageId, x: PageId, key: int, data: seq<byte>, t: PageId, u: PageId, res2: Option<PageId>, lost: bool)
    requires Roomy(a, d, p, x, key, data, t)
    requires RootIs(d, b, x, key, data, t, u, res2, lost)
    ensures RootIs(a, b, p, key, data, t, u, None, lost)
  {
    RoomyReaches(a, d, p, x, key, data, t);
  }

  lemma RoomyLow(a: Tree, d: Tree, b: Tree, p: PageId, x: PageId, key: int, data: seq<byte>, t: PageId)
    requires Roomy(a, d, p, x, key, data, t) && StaysLow(d, b, x, key, data, t)
    ensures StaysLow(a, b, p, key, data, t)
  {
  }

  lemma StepRoomy(a: Tree, c: Tree, d: Tree, b: Tree, p: PageId, x: PageId, key: int, data: seq<byte>, t: PageId, v: PageId, u: PageId,
                  res: Option<PageId>, res2: Option<PageId>, lost: bool)
    requires HalfLinked(a, c, d, p, x, key, data, t, v, res) && Sound(a, t)
    requires RootIs(d, b, x, key, data, v, u, res2, lost) && StaysLow(d, b, x, key, data, v)
    requires p != t && a.pages[p].parent in a.pages && a.pages[a.pages[p].parent].Internal? && |a.pages[a.pages[p].parent].keys| < BTREE_ORDER
    ensures RootIs(a, b, p, key, data, t, u, res, lost)
    ensures StaysLow(a, b, p, key, data, t)
  {
    StepIsRoomy(a, c, d, p, x, key, data, t, v, res);
    RoomyRoot(a, d, b, p, x, key, data, t, u, res2, lost);
    RoomyLow(a, d, b, p, x, key, data, t);
  }

  lemma StepIsRoomy(a: Tree, c: Tree, d: Tree, p: PageId, x: PageId, key: int, data: seq<byte>, t: PageId, v: PageId, res: Option<PageId>)
    requires HalfLinked(a, c, d, p, x, key, data, t, v, res) && Sound(a, t)
    requires p != t && a.pages[p].parent in a.pages && a.pages[a.pages[p].parent].Internal? && |a.pages[a.pages[p].parent].keys| < BTREE_ORDER
    ensures Roomy(a, d, p, x, key, data, t) && res == None && v == t
  {
    HalfSplits(a, c, d, p, x, key, data, t, v, res);
    HalfParent(a, c, d, p, x, key, data, t, v, res);
    LeafParent(a, p, t);
    assert !Full(a.pages, a.info, t, p);
    assert RootAfter(c, d, p, t, None);
    RoomyParent(a, c, d, p, x, t);
    StepChain(a, c, d, p, a.pages[p].parent, t);
    assert HighSame(a, d, 1);
    assert d.info[t].height == a.info[t].height;
  }

  lemma LeafParent(a: Tree, p: PageId, t: PageId)
    requires Sound(a, t) && p in a.info && p != t && p in a.pages && a.pages[p].Leaf?
    ensures var q := a.pages[p].parent;
            q in a.info && q in a.pages && a.pages[q].Internal? && q != p && a.info[q].height == 1 && 0 < a.info[t].height
  {
    assert NodeOk(a.pages, a.info, t, {}, p);
    var _ := ParentSlot(a.pages, a.info, t, a.n, {}, p);
  }

  lemma RoomyParent(a: Tree, c: Tree, d: Tree, p: PageId, x: PageId, t: PageId)
    requires p in a.pages && p in a.info && a.pages[p].Leaf? && 2 <= |a.pages[p].entries| && HalvedView(a, c, p, t)
    requires p != t && ParentAfter(c, d, t, p, x)
    requires var q := a.pages[p].parent;
             q in a.info && q in a.pages && a.pages[q].Internal? && q != p && a.info[q].height == 1 && |a.pages[q].keys| < BTREE_ORDER
    ensures var q := a.pages[p].parent;
            && d.pages[x].parent == q && q in d.pages && d.pages[q].Internal? && |d.pages[q].keys| == |a.pages[q].keys| + 1
            && HighSame(c, d, 1) && q in d.info && d.info[q] == c.info[q] && d.pages[q].parent == c.pages[q].parent
  {
  }

  lemma StepChain(a: Tree, c: Tree, d: Tree, p: PageId, q: PageId, t: PageId)
    requires Sound(a, t) && p in a.pages && p in a.info && a.pages[p].Leaf? && 2 <= |a.pages[p].entries| && HalvedView(a, c, p, t)
    requires p != t && q == a.pages[p].parent && q in a.pages && q in a.info && a.info[q].height == 1
    requires HighSame(c, d, 1) && q in d.info && d.info[q] == c.info[q] && q in d.pages && d.pages[q].parent == c.pages[q].parent
    requires t in d.info && d.info[t].height == c.info[t].height
    ensures Full(d.pages, d.info, t, q) <==> Full(a.pages, a.info, t, q)
  {
    FullFrame(a.pages, a.info, t, a.n, {}, d.pages, d.info, q);
  }

  /** One split and the insertion into the right half make up an insertion. */
  lemma StepDone(a: Tree, c: Tree, d: Tree, b: Tree, p: PageId, x: PageId, key: int, data: seq<byte>, t: PageId, v: PageId, u: PageId,
                 res: Option<PageId>, res2: Option<PageId>, stuck: bool, lost: bool, kl: int)
    requires HalfLinked(a, c, d, p, x, key, data, t, v, res) && Sound(a, t)
    requires Inserted(d, b, x, key, data, v, u, res2, stuck, lost, kl)
    ensures Inserted(a, b, p, key, data, t, u, res, stuck, lost, kl)
  {
    HalfSplits(a, c, d, p, x, key, data, t, v, res);
    StepRoot(a, c, d, b, p, x, key, data, t, v, u, res, res2, lost);
    StepDead(a, c, d, b, p, t, v, res, lost);
    if !lost {
      HalfParent(a, c, d, p, x, key, data, t, v, res);
      SplitKeyInside(a.pages, a.info, t, a.n, {}, p, |a.pages[p].entries| / 2);
      StepLeaves(a, c, d, b, p, x, t, 0 < Splits(d.pages[x].entries, key, data));
    }
    StepCount(a, c, d, b, p, x, key, data, t, v, res);
  }

  lemma StepCount(a: Tree, c: Tree, d: Tree, b: Tree, p: PageId, x: PageId, key: int, data: seq<byte>, t: PageId, v: PageId, res: Option<PageId>)
    requires HalfLinked(a, c, d, p, x, key, data, t, v, res) && Sound(a, t)
    requires x in d.pages && d.pages[x].Leaf? && v in d.info && d.n <= b.n <= d.n + Allowance(Splits(d.pages[x].entries, key, data), d.info[v].height)
    ensures a.n <= b.n && t in a.info && b.n <= a.n + Allowance(Splits(a.pages[p].entries, key, data), a.info[t].height)
  {
    HalfSplits(a, c, d, p, x, key, data, t, v, res);
    CountAfter(a, c, d, p, t, v, res);
    AllowanceStep(Splits(a.pages[p].entries, key, data), a.info[t].height, a.n, d.info[v].height, d.n);
  }

  lemma StepRoot(a: Tree, c: Tree, d: Tree, b: Tree, p: PageId, x: PageId, key: int, data: seq<byte>, t: PageId, v: PageId, u: PageId,
                 res: Option<PageId>, res2: Option<PageId>, lost: bool)
    requires HalfLinked(a, c, d, p, x, key, data, t, v, res) && Sound(a, t)
    requires RootIs(d, b, x, key, data, v, u, res2, lost) && StaysLow(d, b, x, key, data, v)
    ensures RootIs(a, b, p, key, data, t, u, res, lost) && StaysLow(a, b, p, key, data, t)
  {
    HalfSplits(a, c, d, p, x, key, data, t, v, res);
    if p != t {
      LeafParent(a, p, t);
    }
    if p == t || |a.pages[a.pages[p].parent].keys| >= BTREE_ORDER {
      StepSparse(a, c, d, b, p, x, key, data, t, v, u, res, res2, lost);
    } else {
      StepRoomy(a, c, d, b, p, x, key, data, t, v, u, res, res2, lost);
    }
  }

  lemma StepLeaves(a: Tree, c: Tree, d: Tree, b: Tree, p: PageId, x: PageId, t: PageId, split: bool)
    requires p in a.pages && p in a.info && a.pages[p].Leaf? && 2 <= |a.pages[p].entries| && HalvedView(a, c, p, t)
    requires SplitKey(a.pages[p], |a.pages[p].entries| / 2) < a.info[p].hi && (x == p || x == a.n)
    requires RangesSame(c, d, 0) && LowSame(c, d, 0) && LeavesStay(d, b, x, split)
    ensures LeavesStay(a, b, p, true)
  {
    assert Bare(d.pages[p]) == Bare(c.pages[p]);
    forall q | q in a.info && q in a.pages && a.pages[q].Leaf? && a.info[q].height == 0 && q != p
      ensures q in b.info && b.info[q] == a.info[q] && q in b.pages && b.pages[q].Leaf?
    {
      assert q in c.info && c.info[q] == a.info[q] && q in c.pages && c.pages[q] == a.pages[q];
      assert Bare(d.pages[q]) == Bare(c.pages[q]);
    }
  }

  lemma StepDead(a: Tree, c: Tree, d: Tree, b: Tree, p: PageId, t: PageId, v: PageId, res: Option<PageId>, lost: bool)
    requires p in a.pages && p in a.info && a.pages[p].Leaf? && 2 <= |a.pages[p].entries| && HalvedView(a, c, p, t)
    requires Linked(c, d, p, a.n, t, res, false, 0) && v == NewRoot(res, t) && (lost ==> Stale(d, v))
    requires DeadSame(d, b, if lost && v in d.pages then {d.pages[v].parent} else {})
    ensures DeadSame(a, b, if lost then {a.pages[t].parent} else {})
  {
    StaleAfter(a, c, d, p, t, v, res);
    DeadChain(a, c, d, b, p, t, if lost then {a.pages[t].parent} else {});
  }

  lemma DeadChain(a: Tree, c: Tree, d: Tree, b: Tree, p: PageId, t: PageId, xs: set<PageId>)
    requires p in a.pages && p in a.info && a.pages[p].Leaf? && 2 <= |a.pages[p].entries| && HalvedView(a, c, p, t)
    requires DeadSame(c, d, xs) && DeadSame(d, b, xs)
    ensures DeadSame(a, b, xs)
  {
  }

  // ---------------------------------------------------------------- a lost half

  /** The right half of the root was hung from a stale parent (`d`), and the entry belongs to
      the half `x` of leaf `p`. */
  ghost predicate HalfLost(a: Tree, c: Tree, d: Tree, p: PageId, x: PageId, key: int, data: seq<byte>, t: PageId, kl: int) {
    && Sound(a, t) && p in a.pages && p in a.info && a.pages[p].Leaf? && 2 <= |a.pages[p].entries|
    && HalvedView(a, c, p, t) && Linked(c, d, p, a.n, t, None, true, kl)
    && (x == p || x == a.n) && x in d.pages && d.pages[x].Leaf? && d.pages[x].entries == HalfFor(a.pages[p].entries, key)
    && c.info[x].lo <= key < c.info[x].hi && !HasRoom(a.pages[p].entries, data)
  }

  /** Whatever the nested insertion then does, the first split has reached the root. */
  lemma LostFacts(a: Tree, c: Tree, d: Tree, b: Tree, p: PageId, x: PageId, key: int, data: seq<byte>, t: PageId, kl: int)
    requires HalfLost(a, c, d, p, x, key, data, t, kl)
    requires t in b.pages && b.pages[t].parent == d.pages[t].parent
    ensures Stale(a, t) && RootIs(a, b, p, key, data, t, t, None, true) && StaysLow(a, b, p, key, data, t)
    ensures Splits(a.pages[p].entries, key, data) == 1 + Splits(d.pages[x].entries, key, data)
    ensures Stuck(a.pages[p].entries, key, data) == Stuck(d.pages[x].entries, key, data)
    ensures d.n + Allowance(Splits(d.pages[x].entries, key, data), d.info[t].height) <= a.n + Allowance(Splits(a.pages[p].entries, key, data), a.info[t].height)
    ensures a.n <= d.n && DeadSame(c, d, {a.pages[t].parent})
  {
    assert SplitsRoot(a, p, key, data, t);
    AllowanceStep(Splits(a.pages[p].entries, key, data), a.info[t].height, a.n, d.info[t].height, d.n);
    LostLow(a, b, p, key, data, t);
  }

  /** The parent of a leaf that splits up to the root was full. */
  lemma LostLow(a: Tree, b: Tree, p: PageId, key: int, data: seq<byte>, t: PageId)
    requires Sound(a, t) && p in a.info && SplitsRoot(a, p, key, data, t)
    ensures StaysLow(a, b, p, key, data, t)
  {
    if p != t {
      assert |a.pages[a.pages[p].parent].keys| >= BTREE_ORDER;
    }
  }

  /** The half is still in the tree. */
  lemma StepLostIn(a: Tree, c: Tree, d: Tree, b: Tree, p: PageId, x: PageId, key: int, data: seq<byte>, t: PageId, kl: int,
                   u2: PageId, res2: Option<PageId>, stuck: bool, lost2: bool, kl2: int)
    requires HalfLost(a, c, d, p, x, key, data, t, kl) && x in d.info
    requires Inserted(d, b, x, key, data, t, u2, res2, stuck, lost2, kl2)
    ensures u2 == t && Inserted(a, b, p, key, data, t, t, None, stuck, true, FinalCut(true, kl, lost2, kl2))
  {
    assert Stale(d, t);
    LostFacts(a, c, d, b, p, x, key, data, t, kl);
    LostRows(a.rows, c, d, x, kl, key, data, stuck);
    CutTwice(a.rows, RowsAfter(a.rows, key, data, stuck), b.rows, kl, lost2, kl2);
    DeadChain(a, c, d, b, p, t, {a.pages[t].parent});
  }

  /** The half has fallen out of the tree. */
  lemma StepLostOut(a: Tree, c: Tree, d: Tree, b: Tree, p: PageId, x: PageId, key: int, data: seq<byte>, t: PageId, kl: int, stuck: bool)
    requires HalfLost(a, c, d, p, x, key, data, t, kl) && x !in d.info
    requires DeadInserted(d, b, x, key, data, t, stuck)
    ensures Inserted(a, b, p, key, data, t, t, None, stuck, true, kl)
  {
    LostFacts(a, c, d, b, p, x, key, data, t, kl);
    LostRows(a.rows, c, d, x, kl, key, data, stuck);
    LostDead(a, c, d, b, p, x, t);
    SplitsAllowed(Splits(d.pages[x].entries, key, data), d.info[t].height);
  }

  lemma SplitsAllowed(splits: nat, height: nat)
    ensures splits <= Allowance(splits, height)
  {
    MulMonotone(splits, 1, height + splits + 2);
  }

  lemma LostDead(a: Tree, c: Tree, d: Tree, b: Tree, p: PageId, x: PageId, t: PageId)
    requires p in a.pages && p in a.info && a.pages[p].Leaf? && 2 <= |a.pages[p].entries| && HalvedView(a, c, p, t)
    requires DeadSame(c, d, {a.pages[t].parent}) && LostParent(c, d, t, p, x) && (x == p || x == a.n) && b.info == d.info
    requires forall y :: y in d.pages && y != x && y != d.pages[x].parent ==> y in b.pages && b.pages[y] == d.pages[y]
    requires forall y :: y in a.pages ==> y < a.n
    ensures DeadSame(a, b, {a.pages[t].parent})
  {
    var u := d.pages[x].parent;
    assert u in c.info ==> u in a.info || u == a.n;
  }

  /** Where the rows are cut off after a first and perhaps a second loss. */
  function FinalCut(lost: bool, kl: int, lost2: bool, kl2: int): int {
    if lost && lost2 then (if kl < kl2 then kl else kl2) else if lost then kl else kl2
  }

  lemma LostRows(rows: Rows, c: Tree, d: Tree, x: PageId, kl: int, key: int, data: seq<byte>, stuck: bool)
    requires Cut(c, d, 0, kl) && c.rows == rows && x in c.info && c.info[x].height == 0 && c.info[x].lo <= key < c.info[x].hi
    ensures (if x in d.info then RowsAfter(d.rows, key, data, stuck) else d.rows) == Below(RowsAfter(rows, key, data, stuck), kl)
    ensures exists y :: y in rows && kl <= y
  {
  }

  lemma CutTwice(rows: Rows, all: Rows, got: Rows, kl: int, lost2: bool, kl2: int)
    requires got == if lost2 then Below(Below(all, kl), kl2) else Below(all, kl)
    requires exists y :: y in rows && kl <= y
    ensures got == Below(all, FinalCut(true, kl, lost2, kl2))
    ensures exists y :: y in rows && FinalCut(true, kl, lost2, kl2) <= y
  {
    var y :| y in rows && kl <= y;
    assert FinalCut(true, kl, lost2, kl2) <= y;
  }

  // ---------------------------------------------------------------- leaves outside the tree

  /** Leaf `p` is outside the tree, and so is the page it names as its parent, which has room
      for every half the insertion splits off. */
  ghost predicate DeadFits(a: Tree, p: PageId, key: int, data: seq<byte>) {
    && p in a.pages && a.pages[p].Leaf? && p !in a.info
    && var q := a.pages[p].parent;
       && q != 0 && q != p && q in a.pages && q !in a.info
       && a.pages[q].Internal? && |a.pages[q].children| == |a.pages[q].keys| + 1
       && |a.pages[q].keys| + Splits(a.pages[p].entries, key, data) <= BTREE_ORDER
       && a.n + Splits(a.pages[p].entries, key, data) <= U32_END
  }

  /** Inserting at leaf `p`, outside the tree, left the tree as it was. */
  ghost predicate DeadInserted(a: Tree, b: Tree, p: PageId, key: int, data: seq<byte>, t: PageId, stuck: bool)
    requires p in a.pages && a.pages[p].Leaf?
  {
    && Sound(b, t) && b.info == a.info && b.rows == a.rows
    && a.n <= b.n <= a.n + Splits(a.pages[p].entries, key, data)
    && (stuck <==> Stuck(a.pages[p].entries, key, data))
    && (forall y :: y in a.pages && y != p && y != a.pages[p].parent ==> y in b.pages && b.pages[y] == a.pages[y])
  }

  /** Leaf `p`, outside the tree, was split and its right half hung beside it (`d`); the entry
      belongs to the half `x`. */
  ghost predicate DeadHalf(a: Tree, d: Tree, p: PageId, x: PageId, key: int, data: seq<byte>, t: PageId) {
    && p in a.pages && a.pages[p].Leaf? && 2 <= |a.pages[p].entries| && !HasRoom(a.pages[p].entries, data)
    && Sound(d, t) && d.info == a.info && d.rows == a.rows && d.n == a.n + 1 && a.n !in a.pages
    && (x == p || x == a.n) && x in d.pages && d.pages[x].Leaf? && x !in d.info
    && d.pages[x].entries == HalfFor(a.pages[p].entries, key) && d.pages[x].parent == a.pages[p].parent
    && (forall y :: y in a.pages && y != p && y != a.pages[p].parent ==> y in d.pages && d.pages[y] == a.pages[y])
    && DeadFits(d, x, key, data)
  }

  /** Splitting a leaf outside the tree. */
  lemma DeadSplit(a: Tree, p: PageId, key: int, data: seq<byte>, t: PageId) returns (c: Tree)
    requires Sound(a, t) && DeadFits(a, p, key, data) && 2 <= |a.pages[p].entries| && !HasRoom(a.pages[p].entries, data)
    ensures c == a.(pages := Halved(a.pages, p, |a.pages[p].entries| / 2, a.n), n := a.n + 1)
    ensures DeadPending(c, t, p, a.n)
  {
    var s := |a.pages[p].entries| / 2;
    var m := a.(pages := a.pages[p := LeftHalf(a.pages[p], s)]);
    OrphanWrite(a, p, LeftHalf(a.pages[p], s), t);
    FreshIsDead(a.pages, a.info, t, a.n, {}, a.n);
    OrphanPage(m, a.n, RightHalf(a.pages[p], s, 0), a.n + 1, t);
    c := m.(pages := m.pages[a.n := RightHalf(a.pages[p], s, 0)], n := a.n + 1);
    assert Reparent(a.pages, [], a.n) == a.pages;
  }

  lemma DeadSplitLinked(a: Tree, c: Tree, d: Tree, p: PageId, x: PageId, key: int, data: seq<byte>, t: PageId)
    requires Sound(a, t) && DeadFits(a, p, key, data) && 2 <= |a.pages[p].entries| && !HasRoom(a.pages[p].entries, data)
    requires c == a.(pages := Halved(a.pages, p, |a.pages[p].entries| / 2, a.n), n := a.n + 1)
    requires DeadPending(c, t, p, a.n) && DeadLinked(c, d, t, p, a.n)
    requires x == if key < SplitKey(a.pages[p], |a.pages[p].entries| / 2) then p else a.n
    ensures DeadHalf(a, d, p, x, key, data, t)
  {
    assert Reparent(a.pages, [], a.n) == a.pages;
  }

  /** The nested insertion completes it. */
  lemma DeadStep(a: Tree, d: Tree, b: Tree, p: PageId, x: PageId, key: int, data: seq<byte>, t: PageId, stuck: bool)
    requires DeadHalf(a, d, p, x, key, data, t) && DeadInserted(d, b, x, key, data, t, stuck)
    ensures DeadInserted(a, b, p, key, data, t, stuck)
  {
  }

  // ---------------------------------------------------------------- the nested insertion

  /** Should a split reach a stale root, the page that root names as its parent, outside the
      tree, has room for what is hung from it: one half, or every right half that a root leaf
      splits off.  Beyond that the source links pages outside the tree under a new root. */
  ghost predicate StaleFits(a: Tree, p: PageId, key: int, data: seq<byte>, t: PageId)
    requires p in a.pages && a.pages[p].Leaf?
  {
    Stale(a, t) && Reaches(a, p, key, data, t) ==>
      && StaleOk(a, t)
      && (p == t ==> |a.pages[a.pages[t].parent].keys| + Splits(a.pages[p].entries, key, data) <= BTREE_ORDER)
  }

  /** Leaf `p` has no room for the entry; page ids do not run out on the way, and the page a
      stale root names as its parent does not fill up. */
  ghost predicate Splittable(a: Tree, p: PageId, key: int, data: seq<byte>, t: PageId) {
    && p in a.pages && a.pages[p].Leaf? && t in a.info
    && !HasRoom(a.pages[p].entries, data) && StaleFits(a, p, key, data, t)
    && a.n + Allowance(Splits(a.pages[p].entries, key, data), a.info[t].height) <= U32_END
  }

  /** Leaf `p` was split and its right half linked in or lost: the half `x` awaits the entry. */
  ghost predicate HalfReady(a: Tree, c: Tree, d: Tree, p: PageId, x: PageId, key: int, data: seq<byte>, t: PageId, v: PageId, res: Option<PageId>, lost: bool, kl: int) {
    && p in a.pages && p in a.info && a.pages[p].Leaf? && 2 <= |a.pages[p].entries| && HalvedView(a, c, p, t)
    && Linked(c, d, p, a.n, t, res, lost, kl) && Sound(d, v)
    && (x == p || x == a.n) && x in d.pages && d.pages[x].Leaf? && d.pages[x].entries == HalfFor(a.pages[p].entries, key)
    && c.info[x].lo <= key < c.info[x].hi
    && (x in d.info ==> d.info[x].lo <= key < d.info[x].hi && key !in d.rows)
    && (!HasRoom(d.pages[x].entries, data) ==> if x in d.info then Splittable(d, x, key, data, v) else DeadFits(d, x, key, data))
    && (lost ==> res == None)
    && (!lost ==> x in d.info)
  }

  /** The entry was written to leaf `x`, which may be outside the tree. */
  ghost predicate WroteLeaf(d: Tree, b: Tree, x: PageId, key: int, data: seq<byte>, v: PageId)
    requires x in d.pages
  {
    && Sound(b, v) && b.n == d.n && b.info == d.info
    && b.rows == (if x in d.info then d.rows[key := data] else d.rows)
    && exists es :: b.pages == d.pages[x := Leaf(d.pages[x].parent, es)]
  }

  lemma StaleKept(a: Tree, c: Tree, p: PageId, key: int, data: seq<byte>, t: PageId)
    requires p in a.pages && p in a.info && a.pages[p].Leaf? && 2 <= |a.pages[p].entries| && HalvedView(a, c, p, t)
    requires Splittable(a, p, key, data, t)
    ensures StaleReady(c, p, t)
  {
    if Full(c.pages, c.info, t, p) {
      assert SplitsRoot(a, p, key, data, t);
    }
  }

  lemma StaleAfter(a: Tree, c: Tree, d: Tree, p: PageId, t: PageId, v: PageId, res: Option<PageId>)
    requires p in a.pages && p in a.info && a.pages[p].Leaf? && 2 <= |a.pages[p].entries| && HalvedView(a, c, p, t)
    requires Linked(c, d, p, a.n, t, res, false, 0) && v == NewRoot(res, t)
    ensures (StaleOk(a, t) ==> StaleOk(d, v)) && (Stale(d, v) ==> Stale(a, t) && v == t && d.pages[t].parent == a.pages[t].parent)
  {
  }

  lemma HalfEntries(a: Tree, c: Tree, d: Tree, p: PageId, x: PageId, key: int, data: seq<byte>, t: PageId)
    requires p in a.pages && p in a.info && a.pages[p].Leaf? && 2 <= |a.pages[p].entries| && HalvedView(a, c, p, t)
    requires !HasRoom(a.pages[p].entries, data) && LowSame(c, d, 0)
    requires x == if key < SplitKey(a.pages[p], |a.pages[p].entries| / 2) then p else a.n
    ensures x in d.pages && d.pages[x].Leaf? && d.pages[x].entries == HalfFor(a.pages[p].entries, key)
    ensures Splits(a.pages[p].entries, key, data) == 1 + Splits(d.pages[x].entries, key, data)
    ensures Stuck(a.pages[p].entries, key, data) == Stuck(d.pages[x].entries, key, data)
  {
    assert Bare(d.pages[x]) == Bare(c.pages[x]);
  }

  lemma CountAfter(a: Tree, c: Tree, d: Tree, p: PageId, t: PageId, v: PageId, res: Option<PageId>)
    requires p in a.pages && p in a.info && a.pages[p].Leaf? && 2 <= |a.pages[p].entries| && HalvedView(a, c, p, t)
    requires Linked(c, d, p, a.n, t, res, false, 0) && v == NewRoot(res, t)
    ensures v in d.info && d.info[v].height <= a.info[t].height + 1 && d.n <= a.n + a.info[t].height + 2
  {
    assert RootAfter(c, d, p, t, res);
  }

  lemma AfterKept(a: Tree, c: Tree, d: Tree, p: PageId, x: PageId, key: int, data: seq<byte>, t: PageId, v: PageId, res: Option<PageId>)
    requires HalfLinked(a, c, d, p, x, key, data, t, v, res) && Sound(a, t) && Splittable(a, p, key, data, t)
    ensures !HasRoom(d.pages[x].entries, data) ==> Splittable(d, x, key, data, v)
  {
    HalfSplits(a, c, d, p, x, key, data, t, v, res);
    CountAfter(a, c, d, p, t, v, res);
    AllowanceStep(Splits(a.pages[p].entries, key, data), a.info[t].height, a.n, d.info[v].height, d.n);
    StaleAfter(a, c, d, p, t, v, res);
    if Stale(d, v) {
      ReachesBefore(a, c, d, p, x, key, data, t, v, res);
    }
  }

  /** Under a stale root, a nested split that reaches the root was in sight before. */
  lemma ReachesBefore(a: Tree, c: Tree, d: Tree, p: PageId, x: PageId, key: int, data: seq<byte>, t: PageId, v: PageId, res: Option<PageId>)
    requires HalfLinked(a, c, d, p, x, key, data, t, v, res) && Sound(a, t) && Stale(a, t)
    ensures p != t && x != v && (Reaches(d, x, key, data, v) ==> Reaches(a, p, key, data, t))
  {
    HalfSplits(a, c, d, p, x, key, data, t, v, res);
    HalfParent(a, c, d, p, x, key, data, t, v, res);
    LeafParent(a, p, t);
    if |a.pages[a.pages[p].parent].keys| < BTREE_ORDER {
      StepIsRoomy(a, c, d, p, x, key, data, t, v, res);
      RoomyReaches(a, d, p, x, key, data, t);
    } else {
      assert |d.pages[d.pages[x].parent].keys| <= MIN_KEYS;
    }
  }

  /** After a loss, the half `x` is where the entry can go, in the tree or outside it. */
  lemma AfterLost(a: Tree, c: Tree, d: Tree, p: PageId, x: PageId, key: int, data: seq<byte>, t: PageId, kl: int)
    requires HalfLost(a, c, d, p, x, key, data, t, kl) && Splittable(a, p, key, data, t) && FitsPage(a.pages[p].entries)
    requires !HasRoom(d.pages[x].entries, data)
    ensures if x in d.info then Splittable(d, x, key, data, t) else DeadFits(d, x, key, data)
  {
    LostFacts(a, c, d, d, p, x, key, data, t, kl);
    SplitsBound(a.pages[p].entries, key, data);
    assert SplitsRoot(a, p, key, data, t);
    if x in d.info {
      AfterLostIn(a, c, d, p, x, key, data, t);
    } else {
      assert LostParent(c, d, t, p, x);
      SplitsAllowed(Splits(d.pages[x].entries, key, data), d.info[t].height);
    }
  }

  lemma AfterLostIn(a: Tree, c: Tree, d: Tree, p: PageId, x: PageId, key: int, data: seq<byte>, t: PageId)
    requires t in a.pages && t in c.pages && c.pages[t].parent == a.pages[t].parent && x in d.info && x in d.pages && d.pages[x].Leaf?
    requires p in a.pages && a.pages[p].Leaf? && Splits(a.pages[p].entries, key, data) == 1 + Splits(d.pages[x].entries, key, data) <= 9
    requires LostParent(c, d, t, p, x) && StaleFits(a, p, key, data, t) && SplitsRoot(a, p, key, data, t) && Stale(a, t)
    requires p == t ==> a.pages[t].parent in a.pages && a.pages[t].parent in c.pages && c.pages[a.pages[t].parent] == a.pages[a.pages[t].parent]
    requires p != t ==> x != t
    ensures StaleFits(d, x, key, data, t)
  {
    if p != t {
      assert !Full(d.pages, d.info, t, x) && !Drops(d, x, key, data, t);
    }
  }

  /** Leaf `p` has been split: its right half may be linked in. */
  lemma SplitReady(a: Tree, c: Tree, p: PageId, key: int, data: seq<byte>, t: PageId) returns (i: nat)
    requires LeafHalved(a, c, p, t) && Splittable(a, p, key, data, t) && 0 < a.n
    ensures HalvedView(a, c, p, t) && FitsPage(a.pages[p].entries)
    ensures Linkable(c, t, p, i, a.n, SplitKey(a.pages[p], |a.pages[p].entries| / 2))
  {
    PageFacts(a, p, t);
    HalvedLooks(a, c, p, t);
    i := HalvedPending(a, c, p, t);
    StaleKept(a, c, p, key, data, t);
    AllowanceStep(Splits(a.pages[p].entries, key, data), a.info[t].height, a.n, a.info[t].height, a.n);
  }

  lemma LeafFacts(a: Tree, p: PageId, t: PageId)
    requires Sound(a, t) && p in a.pages
    ensures t in a.pages && t in a.info && 0 < a.n && a.n !in a.pages
  {
    PageFacts(a, t, t);
  }

  /** After linking, the half `x` is a leaf that the nested insertion may be applied to. */
  lemma AfterLink(a: Tree, c: Tree, d: Tree, p: PageId, x: PageId, key: int, data: seq<byte>, t: PageId, v: PageId, res: Option<PageId>, lost: bool, kl: int)
    requires p in a.pages && p in a.info && a.pages[p].Leaf? && 2 <= |a.pages[p].entries| && HalvedView(a, c, p, t)
    requires Sound(a, t) && FitsPage(a.pages[p].entries)
    requires Splittable(a, p, key, data, t) && a.info[p].lo <= key < a.info[p].hi && key !in a.rows
    requires Linked(c, d, p, a.n, t, res, lost, kl) && v == NewRoot(res, t)
    requires x == if key < SplitKey(a.pages[p], |a.pages[p].entries| / 2) then p else a.n
    ensures HalfReady(a, c, d, p, x, key, data, t, v, res, lost, kl)
  {
    HalfEntries(a, c, d, p, x, key, data, t);
    if lost {
      CutRange(a, c, d, x, key, kl);
      if !HasRoom(d.pages[x].entries, data) {
        AfterLost(a, c, d, p, x, key, data, t, kl);
      }
    } else {
      KeptRange(a, c, d, x, key);
      AfterKept(a, c, d, p, x, key, data, t, v, res);
    }
  }

  lemma KeptRange(a: Tree, c: Tree, d: Tree, x: PageId, key: int)
    requires RangesSame(c, d, 0) && d.rows == a.rows && key !in a.rows
    requires x in c.info && c.info[x].height == 0 && c.info[x].lo <= key < c.info[x].hi
    ensures x in d.info && d.info[x].lo <= key < d.info[x].hi && key !in d.rows
  {
  }

  /** A half that is still in the tree still holds the key in its range. */
  lemma CutRange(a: Tree, c: Tree, d: Tree, x: PageId, key: int, kl: int)
    requires Cut(c, d, 0, kl) && c.rows == a.rows && key !in a.rows
    requires x in c.info && c.info[x].height == 0 && c.info[x].lo <= key < c.info[x].hi
    ensures x in d.info ==> d.info[x].lo <= key < d.info[x].hi && key !in d.rows
  {
  }

  /** A leaf with fewer than two entries and no room cannot be split. */
  lemma NoSplit(a: Tree, p: PageId, key: int, data: seq<byte>, t: PageId)
    requires Sound(a, t) && p in a.info && p in a.pages && a.pages[p].Leaf? && t in a.pages
    requires !HasRoom(a.pages[p].entries, data) && |a.pages[p].entries| < 2
    ensures Inserted(a, a, p, key, data, t, t, None, true, false, 0)
  {
    assert NodeOk(a.pages, a.info, t, {}, p);
    assert Splits(a.pages[p].entries, key, data) == 0 && Stuck(a.pages[p].entries, key, data);
    assert Allowance(0, a.info[t].height) == 0;
    assert RootIs(a, a, p, key, data, t, t, None, false);
    assert DeadSame(a, a, {});
    assert StaysLow(a, a, p, key, data, t);
    assert LeavesStay(a, a, p, false);
  }

  lemma StepNotLost(a: Tree, c: Tree, d: Tree, p: PageId, x: PageId, key: int, data: seq<byte>, t: PageId, v: PageId, res: Option<PageId>, kl: int)
    requires HalfReady(a, c, d, p, x, key, data, t, v, res, false, kl) && v == NewRoot(res, t)
    requires FitsPage(a.pages[p].entries) && !HasRoom(a.pages[p].entries, data)
    ensures HalfLinked(a, c, d, p, x, key, data, t, v, res)
  {
  }

  lemma StepKept(a: Tree, c: Tree, d: Tree, b: Tree, p: PageId, x: PageId, key: int, data: seq<byte>, t: PageId, u2: PageId,
                 res: Option<PageId>, res2: Option<PageId>, stuck: bool, kl: int, lost2: bool, kl2: int)
    requires Sound(a, t) && HalfReady(a, c, d, p, x, key, data, t, NewRoot(res, t), res, false, kl)
    requires Splittable(a, p, key, data, t) && FitsPage(a.pages[p].entries)
    requires Inserted(d, b, x, key, data, NewRoot(res, t), u2, res2, stuck, lost2, kl2)
    ensures Inserted(a, b, p, key, data, t, u2, res, stuck, lost2, kl2)
  {
    var v := NewRoot(res, t);
    StepNotLost(a, c, d, p, x, key, data, t, v, res, kl);
    StepDone(a, c, d, b, p, x, key, data, t, v, u2, res, res2, stuck, lost2, kl2);
  }

  lemma StepAll(a: Tree, c: Tree, d: Tree, b: Tree, p: PageId, x: PageId, key: int, data: seq<byte>, t: PageId, u2: PageId,
                res: Option<PageId>, res2: Option<PageId>, stuck: bool, lost: bool, kl: int, lost2: bool, kl2: int)
    requires Sound(a, t) && HalfReady(a, c, d, p, x, key, data, t, NewRoot(res, t), res, lost, kl)
    requires Splittable(a, p, key, data, t) && FitsPage(a.pages[p].entries)
    requires x in d.info ==> Inserted(d, b, x, key, data, NewRoot(res, t), u2, res2, stuck, lost2, kl2)
    requires x !in d.info ==> DeadInserted(d, b, x, key, data, NewRoot(res, t), stuck) && !lost2
    ensures Inserted(a, b, p, key, data, t, if lost then t else u2, res, stuck, lost || lost2, FinalCut(lost, kl, lost2, kl2))
  {
    if !lost {
      StepKept(a, c, d, b, p, x, key, data, t, u2, res, res2, stuck, kl, lost2, kl2);
    } else if x in d.info {
      StepLostIn(a, c, d, b, p, x, key, data, t, kl, u2, res2, stuck, lost2, kl2);
    } else {
      StepLostOut(a, c, d, b, p, x, key, data, t, kl, stuck);
    }
  }

  // ---------------------------------------------------------------- in the tree or outside it

  /** The entry may be inserted at leaf `p`, be it in the tree or outside. */
  ghost predicate MayInsert(a: Tree, p: PageId, key: int, data: seq<byte>, t: PageId) {
    && Sound(a, t) && p in a.pages && a.pages[p].Leaf? && KEY_MIN <= key < KEY_END
    && (p in a.info ==> a.info[p].lo <= key < a.info[p].hi && key !in a.rows)
    && (!HasRoom(a.pages[p].entries, data) ==> if p in a.info then Splittable(a, p, key, data, t) else DeadFits(a, p, key, data))
  }

  ghost predicate InsertDone(a: Tree, b: Tree, p: PageId, key: int, data: seq<byte>, t: PageId, u: PageId, res: Option<PageId>, stuck: bool, lost: bool, kl: int)
    requires p in a.pages && a.pages[p].Leaf?
  {
    if p in a.info then Inserted(a, b, p, key, data, t, u, res, stuck, lost, kl)
    else DeadInserted(a, b, p, key, data, t, stuck) && !lost
  }

  /** Leaf `p` was split and the half `x` awaits the entry. */
  ghost predicate SplitDone(a: Tree, c: Tree, d: Tree, p: PageId, x: PageId, key: int, data: seq<byte>, t: PageId, res: Option<PageId>, lost: bool, kl: int) {
    && p in a.pages && a.pages[p].Leaf? && MayInsert(d, x, key, data, NewRoot(res, t)) && |d.pages[x].entries| < |a.pages[p].entries|
    && if p in a.info then HalfReady(a, c, d, p, x, key, data, t, NewRoot(res, t), res, lost, kl)
       else DeadHalf(a, d, p, x, key, data, t) && res == None && !lost
  }

  /** `c` is `a` with leaf `p` split in the middle. */
  ghost predicate HalvedHere(a: Tree, c: Tree, p: PageId) {
    && p in a.pages && a.pages[p].Leaf? && 2 <= |a.pages[p].entries|
    && var s := |a.pages[p].entries| / 2;
       c == Tree(Halved(a.pages, p, s, a.n), if p in a.info then SplitInfos(a.info, p, SplitKey(a.pages[p], s), a.n) else a.info, a.rows, a.n + 1)
  }

  lemma SplitLinkable(a: Tree, p: PageId, key: int, data: seq<byte>, t: PageId) returns (i: nat, c: Tree)
    requires MayInsert(a, p, key, data, t) && !HasRoom(a.pages[p].entries, data) && 2 <= |a.pages[p].entries|
    ensures HalvedHere(a, c, p)
    ensures Linkable(c, t, p, i, a.n, SplitKey(a.pages[p], |a.pages[p].entries| / 2))
  {
    LeafFacts(a, p, t);
    var s := |a.pages[p].entries| / 2;
    i := 0;
    if p in a.info {
      c := Tree(Halved(a.pages, p, s, a.n), SplitInfos(a.info, p, SplitKey(a.pages[p], s), a.n), a.rows, a.n + 1);
      i := SplitReady(a, c, p, key, data, t);
    } else {
      c := DeadSplit(a, p, key, data, t);
    }
  }

  lemma SplitLinked(a: Tree, c: Tree, d: Tree, p: PageId, x: PageId, key: int, data: seq<byte>, t: PageId, res: Option<PageId>, lost: bool, kl: int)
    requires MayInsert(a, p, key, data, t) && !HasRoom(a.pages[p].entries, data) && HalvedHere(a, c, p)
    requires p in c.info ==> p in c.pages && t in c.pages && t in c.info
    requires LinkDone(c, d, p, a.n, t, res, lost, kl)
    requires x == if key < SplitKey(a.pages[p], |a.pages[p].entries| / 2) then p else a.n
    ensures SplitDone(a, c, d, p, x, key, data, t, res, lost, kl)
  {
    LeafFacts(a, p, t);
    if p in a.info {
      PageFacts(a, p, t);
      HalvedLooks(a, c, p, t);
      AfterLink(a, c, d, p, x, key, data, t, NewRoot(res, t), res, lost, kl);
    } else {
      var c' := DeadSplit(a, p, key, data, t);
      DeadSplitLinked(a, c, d, p, x, key, data, t);
    }
  }

  lemma SplitFails(a: Tree, p: PageId, key: int, data: seq<byte>, t: PageId)
    requires MayInsert(a, p, key, data, t) && !HasRoom(a.pages[p].entries, data) && |a.pages[p].entries| < 2
    ensures InsertDone(a, a, p, key, data, t, t, None, true, false, 0)
  {
    if p in a.info {
      PageFacts(a, p, t);
      NoSplit(a, p, key, data, t);
    }
  }

  lemma StepBoth(a: Tree, c: Tree, d: Tree, b: Tree, p: PageId, x: PageId, key: int, data: seq<byte>, t: PageId, u2: PageId,
                 res: Option<PageId>, res2: Option<PageId>, stuck: bool, lost: bool, kl: int, lost2: bool, kl2: int)
    requires MayInsert(a, p, key, data, t) && !HasRoom(a.pages[p].entries, data)
    requires SplitDone(a, c, d, p, x, key, data, t, res, lost, kl)
    requires InsertDone(d, b, x, key, data, NewRoot(res, t), u2, res2, stuck, lost2, kl2)
    ensures InsertDone(a, b, p, key, data, t, if lost then t else u2, res, stuck, lost || lost2, FinalCut(lost, kl, lost2, kl2))
  {
    if p in a.info {
      PageFacts(a, p, t);
      StepAll(a, c, d, b, p, x, key, data, t, u2, res, res2, stuck, lost, kl, lost2, kl2);
    } else {
      DeadStep(a, d, b, p, x, key, data, t, stuck);
    }
  }

  // ---------------------------------------------------------------- the insertion as a whole

  /** The insertion at leaf `p` splits the root, but the root field is never told: either the
      root still names a stale parent, or the split happened in a nested call. */
  ghost predicate Loses(a: Tree, p: PageId, key: int, data: seq<byte>, t: PageId) {
    (Stale(a, t) && SplitsRoot(a, p, key, data, t)) || Drops(a, p, key, data, t)
  }

  /** Of the rows `all`, those from key `kl` on are missing. */
  ghost predicate CutAt(rows: Rows, all: Rows, kl: int) {
    rows == Below(all, kl)
  }

  ghost predicate IsCut(rows: Rows, all: Rows) {
    exists kl :: CutAt(rows, all, kl)
  }

  /** What inserting (key, data) at leaf `p` of `a`, with root `t`, makes of the tree: it fails
      exactly when no amount of splitting makes room, and the row is in, with every other row
      still there, exactly when nothing is lost.  A failure keeps all rows exactly when none of
      its splits reached the root, for a new root is then never installed. */
  ghost predicate Outcome(a: Tree, b: Tree, p: PageId, key: int, data: seq<byte>, t: PageId, u: PageId, ok: bool) {
    && p in a.pages && a.pages[p].Leaf? && t in a.info
    && (ok <==> !Stuck(a.pages[p].entries, key, data))
    && b.n <= a.n + Allowance(Splits(a.pages[p].entries, key, data), a.info[t].height)
    && (ok ==> (b.rows == a.rows[key := data] <==> !Loses(a, p, key, data, t)))
    && (!ok ==> (b.rows == a.rows <==> !Reaches(a, p, key, data, t)))
    && (ok && !Loses(a, p, key, data, t) ==> (StaleOk(a, t) ==> StaleOk(b, u)) && (!Stale(a, t) ==> !Stale(b, u)))
    && (HasRoom(a.pages[p].entries, data) ==> ok && u == t && WroteLeaf(a, b, p, key, data, t))
  }

  /** The same at the one leaf whose range holds the key. */
  ghost predicate OutcomeAtLeaf(a: Tree, b: Tree, key: int, data: seq<byte>, t: PageId, u: PageId, ok: bool) {
    forall p :: IsLeafFor(a.pages, a.info, p, key) ==> Outcome(a, b, p, key, data, t, u, ok)
  }

  /** The root `u` is never told of: what hangs right of the old root `t` is out of reach. */
  lemma DroppedCut(b: Tree, t: PageId, u: PageId) returns (k: int)
    requires Sound(b, u) && TopOf(b, u, t)
    ensures Sound(Tree(b.pages, KeptInfos(b.info, u, k), Below(b.rows, k), b.n), t)
    ensures Below(b.rows, k) != b.rows && CutAt(Below(b.rows, k), b.rows, k)
  {
    var k', r :| b.pages[u] == Internal(0, [k'], [t, r]);
    k := k';
    assert NodeOk(b.pages, b.info, u, {}, u);
    assert TwoChildRoot(b.pages, b.info, u, b.n, {}, k, t, r);
    KeptOk(b.pages, b.pages, b.info, u, b.n, {}, k, t, r, b.n);
    KeptHolds(b.pages, b.pages, b.info, u, b.n, {}, k, t, r, b.rows);
    RootPair(b.pages, b.info, u, b.n, {}, k, t, r);
    var x := SubtreeHasRow(b.pages, b.info, u, b.n, b.rows, r);
    assert x !in Below(b.rows, k);
  }

  /** The same when the old root was a leaf, of which the new root may have several halves. */
  lemma LeafCut(b: Tree, t: PageId, u: PageId) returns (b': Tree)
    requires Sound(b, u) && t != u && t in b.info && t in b.pages && b.pages[t].Leaf? && b.info[t].lo == KEY_MIN && b.info[t].hi < KEY_END
    ensures b' == Tree(b.pages, map[t := Info(0, KEY_MIN, KEY_END)], Below(b.rows, b.info[t].hi), b.n)
    ensures Sound(b', t) && b'.rows != b.rows
  {
    var hi, es := b.info[t].hi, b.pages[t].entries;
    b' := Tree(b.pages, map[t := Info(0, KEY_MIN, KEY_END)], Below(b.rows, hi), b.n);
    assert NodeOk(b.pages, b.info, u, {}, t) && LinkOk(b.pages, b.info, u, t);
    assert LeafHolds(es, b.info[t], b.rows);
    assert NodeOk(b'.pages, b'.info, t, {}, t) && LinkOk(b'.pages, b'.info, t, t);
    assert LeafHolds(es, b'.info[t], b'.rows);
    var x := RowFrom(b, t, u);
    assert x !in b'.rows;
  }

  /** There are rows behind a leaf that does not reach up to the last key. */
  lemma RowFrom(b: Tree, t: PageId, u: PageId) returns (x: int)
    requires Sound(b, u) && t != u && t in b.info && t in b.pages && b.pages[t].Leaf? && b.info[t].lo == KEY_MIN && b.info[t].hi < KEY_END
    ensures x in b.rows && b.info[t].hi <= x
  {
    assert NodeOk(b.pages, b.info, u, {}, t) && NodeOk(b.pages, b.info, u, {}, u);
    var p := LeafFor(b, u, b.info[t].hi, u);
    assert NodeOk(b.pages, b.info, u, {}, p);
    RangesDisjoint(b.pages, b.info, u, b.n, {}, p, t);
    var _ := ParentSlot(b.pages, b.info, u, b.n, {}, t);
    x := SubtreeHasRow(b.pages, b.info, u, b.n, b.rows, p);
  }

  lemma {:induction false} LeafFor(b: Tree, u: PageId, key: int, q: PageId) returns (p: PageId)
    requires Sound(b, u) && q in b.info && b.info[q].lo <= key < b.info[q].hi
    ensures IsLeafFor(b.pages, b.info, p, key)
    decreases b.info[q].height
  {
    assert NodeOk(b.pages, b.info, u, {}, q);
    if b.pages[q].Leaf? {
      p := q;
    } else {
      var ks, cs := b.pages[q].keys, b.pages[q].children;
      var i := SlotOf(ks, b.info[q], key);
      assert ChildOk(b.pages, b.info, q, ks, b.info[q], cs[i], i);
      p := LeafFor(b, u, key, cs[i]);
    }
  }

  lemma {:induction false} SlotOf(ks: seq<int>, f: Info, key: int) returns (i: nat)
    requires f.lo <= key < f.hi
    ensures i <= |ks| && ChildLo(ks, i, f.lo) <= key < ChildHi(ks, i, f.hi)
  {
    i := 0;
    while i < |ks| && ks[i] <= key
      invariant i <= |ks| && ChildLo(ks, i, f.lo) <= key
    {
      i := i + 1;
    }
  }

  lemma InsertEnds(a: Tree, b: Tree, p: PageId, key: int, data: seq<byte>, t: PageId, u: PageId, res: Option<PageId>, lost: bool, kl: int)
    requires p in a.pages && a.pages[p].Leaf? && t in a.pages && (Drops(a, p, key, data, t) ==> lost) && key !in a.rows
    requires Inserted(a, b, p, key, data, t, u, res, false, lost, kl)
    ensures u == NewRoot(res, t) && Sound(b, u)
    ensures lost <==> Loses(a, p, key, data, t)
    ensures b.rows == a.rows[key := data] <==> !lost
    ensures lost ==> CutAt(b.rows, a.rows[key := data], kl)
    ensures !lost && StaleOk(a, t) ==> StaleOk(b, u)
    ensures !lost && !Stale(a, t) ==> !Stale(b, u)
  {
    if lost {
      var x :| x in a.rows && kl <= x;
      assert x !in b.rows && x in a.rows[key := data];
    }
  }

  /** Leaf `p` is where the key belongs, and the entry may be inserted there. */
  ghost predicate InsertStarts(a: Tree, p: PageId, key: int, data: seq<byte>, t: PageId) {
    && MayInsert(a, p, key, data, t) && p in a.info && t in a.info && t in a.pages && a.n <= U32_END
    && (forall q :: IsLeafFor(a.pages, a.info, q, key) ==> q == p)
  }

  lemma StartInsert(a: Tree, p: PageId, key: int, data: seq<byte>, t: PageId)
    requires Sound(a, t) && IsLeafFor(a.pages, a.info, p, key) && KEY_MIN <= key < KEY_END && key !in a.rows && a.n <= U32_END
    requires !HasRoom(a.pages[p].entries, data) ==> Splittable(a, p, key, data, t)
    ensures InsertStarts(a, p, key, data, t)
  {
    OneLeaf(a, p, key, t);
    PageFacts(a, p, t);
  }

  /** ... and the insertion there is over. */
  ghost predicate InsertRan(a: Tree, b: Tree, p: PageId, key: int, data: seq<byte>, t: PageId, u: PageId, res: Option<PageId>, stuck: bool, lost: bool, kl: int) {
    && InsertStarts(a, p, key, data, t)
    && InsertDone(a, b, p, key, data, t, u, res, stuck, lost, kl)
    && (HasRoom(a.pages[p].entries, data) ==> res == None && WroteLeaf(a, b, p, key, data, t))
  }

  /** A failed insertion: its splits stay, and if one of them reached the root, what hangs right
      of the old root is out of reach. */
  lemma FailedOutcome(a: Tree, b: Tree, p: PageId, key: int, data: seq<byte>, t: PageId, u: PageId, res: Option<PageId>, lost: bool, kl: int) returns (b': Tree)
    requires InsertRan(a, b, p, key, data, t, u, res, true, lost, kl)
    ensures b'.pages == b.pages && b'.n == b.n && Sound(b', t) && b.n <= U32_END
    ensures OutcomeAtLeaf(a, b', key, data, t, t, false) && (b'.rows == a.rows || IsCut(b'.rows, a.rows))
  {
    b' := b;
    if lost {
      var x :| x in a.rows && kl <= x;
      assert x !in b.rows && CutAt(b.rows, a.rows, kl);
    } else if Reaches(a, p, key, data, t) {
      b' := FailedCut(a, b, p, key, data, t, u, res, kl);
    }
    assert Outcome(a, b', p, key, data, t, t, false);
  }

  lemma FailedCut(a: Tree, b: Tree, p: PageId, key: int, data: seq<byte>, t: PageId, u: PageId, res: Option<PageId>, kl: int) returns (b': Tree)
    requires Sound(a, t) && p in a.pages && a.pages[p].Leaf? && p in a.info && Inserted(a, b, p, key, data, t, u, res, true, false, kl)
    requires Reaches(a, p, key, data, t)
    ensures b'.pages == b.pages && b'.n == b.n && Sound(b', t) && b'.rows != a.rows && IsCut(b'.rows, a.rows)
  {
    if TopOf(b, u, t) {
      var k := DroppedCut(b, t, u);
      b' := Tree(b.pages, KeptInfos(b.info, u, k), Below(b.rows, k), b.n);
      assert CutAt(b'.rows, a.rows, k);
    } else {
      assert p == t;
      b' := LeafCut(b, t, u);
      assert CutAt(b'.rows, a.rows, b.info[t].hi);
    }
  }

  lemma DroppedOutcome(a: Tree, b: Tree, p: PageId, key: int, data: seq<byte>, t: PageId, u: PageId, res: Option<PageId>, kl: int) returns (b': Tree)
    requires InsertRan(a, b, p, key, data, t, u, res, false, false, kl) && Drops(a, p, key, data, t)
    ensures res == None && b'.pages == b.pages && b'.n == b.n && Sound(b', t) && b.n <= U32_END
    ensures OutcomeAtLeaf(a, b', key, data, t, t, true) && IsCut(b'.rows, a.rows[key := data])
  {
    var k := DroppedCut(b, t, u);
    b' := Tree(b.pages, KeptInfos(b.info, u, k), Below(b.rows, k), b.n);
    assert CutAt(b'.rows, a.rows[key := data], k);
    assert Outcome(a, b', p, key, data, t, t, true);
  }

  lemma InsertOutcome(a: Tree, b: Tree, p: PageId, key: int, data: seq<byte>, t: PageId, u: PageId, res: Option<PageId>, lost: bool, kl: int)
    requires InsertRan(a, b, p, key, data, t, u, res, false, lost, kl) && (Drops(a, p, key, data, t) ==> lost)
    ensures Sound(b, NewRoot(res, t)) && b.n <= U32_END && OutcomeAtLeaf(a, b, key, data, t, NewRoot(res, t), true)
    ensures b.rows == a.rows[key := data] || IsCut(b.rows, a.rows[key := data])
  {
    InsertEnds(a, b, p, key, data, t, u, res, lost, kl);
    if lost {
      assert CutAt(b.rows, a.rows[key := data], kl);
    }
    assert Outcome(a, b, p, key, data, t, NewRoot(res, t), true);
  }

  /** What is left of the tree once the insertion is over, whichever way it went. */
  lemma AfterInsert(a: Tree, b: Tree, p: PageId, key: int, data: seq<byte>, t: PageId, u: PageId, res: Option<PageId>, stuck: bool, lost: bool, kl: int) returns (b': Tree)
    requires InsertRan(a, b, p, key, data, t, u, res, stuck, lost, kl)
    ensures b'.pages == b.pages && b'.n == b.n
    ensures OutcomeAtLeaf(a, b', key, data, t, if stuck then t else NewRoot(res, t), !stuck)
    ensures Sound(b', if stuck then t else NewRoot(res, t)) && b.n <= U32_END
    ensures var all := RowsAfter(a.rows, key, data, stuck);
            b'.rows == all || IsCut(b'.rows, all)
  {
    b' := b;
    if stuck {
      b' := FailedOutcome(a, b, p, key, data, t, u, res, lost, kl);
    } else if Drops(a, p, key, data, t) && !lost {
      b' := DroppedOutcome(a, b, p, key, data, t, u, res, kl);
    } else {
      InsertOutcome(a, b, p, key, data, t, u, res, lost, kl);
    }
  }
}
