/** How far an insertion reaches: how often a leaf is split before the new entry fits, and
    whether a chain of full ancestors carries a split up to the root. */
module BTreeLimits {
  import opened BTreeShape
  import opened BTreeSplit
  import opened BTreeRoot
  import opened BTreePending

  predicate HasRoom(es: seq<Entry>, data: seq<byte>) {
    HEADER_SIZE + EntryBytes(es) + ENTRY_HEADER + |data| <= PAGE_SIZE
  }

  /** The half of a split leaf that a key belongs to. */
  function HalfFor(es: seq<Entry>, key: int): (h: seq<Entry>)
    requires 2 <= |es|
    ensures 0 < |h| < |es| && |h| <= (|es| + 1) / 2
  {
    var s := |es| / 2;
    if key < es[s].key then es[..s] else es[s..]
  }

  /** The number of leaf splits an insertion makes. */
  function Splits(es: seq<Entry>, key: int, data: seq<byte>): nat
    decreases |es|
  {
    if HasRoom(es, data) || |es| < 2 then 0 else 1 + Splits(HalfFor(es, key), key, data)
  }

  /** Splitting runs into a leaf with fewer than two entries that still has no room: the
      source then indexes past the end of its entry list. */
  predicate Stuck(es: seq<Entry>, key: int, data: seq<byte>)
    decreases |es|
  {
    !HasRoom(es, data) && (|es| < 2 || Stuck(HalfFor(es, key), key, data))
  }

  function Halvings(n: nat): nat {
    if n < 2 then 0 else 1 + Halvings((n + 1) / 2)
  }

  lemma {:induction false} HalvingsMonotone(a: nat, b: nat)
    requires a <= b
    ensures Halvings(a) <= Halvings(b)
    decreases b
  {
    if 2 <= a {
      HalvingsMonotone((a + 1) / 2, (b + 1) / 2);
    }
  }

  lemma {:induction false} SplitsHalvings(es: seq<Entry>, key: int, data: seq<byte>)
    ensures Splits(es, key, data) <= Halvings(|es|)
    decreases |es|
  {
    if !HasRoom(es, data) && 2 <= |es| {
      var h := HalfFor(es, key);
      SplitsHalvings(h, key, data);
      HalvingsMonotone(|h|, (|es| + 1) / 2);
    }
  }

  lemma {:induction false} EntryCount(es: seq<Entry>)
    ensures ENTRY_HEADER * |es| <= EntryBytes(es)
  {
    if es != [] {
      EntryCount(es[..|es| - 1]);
    }
  }

  /** No page holds enough entries for more than nine splits. */
  lemma SplitsBound(es: seq<Entry>, key: int, data: seq<byte>)
    requires FitsPage(es)
    ensures Splits(es, key, data) <= 9
  {
    EntryCount(es);
    SplitsHalvings(es, key, data);
    HalvingsMonotone(|es|, 340);
    HalvingsOfPage();
  }

  lemma HalvingsOfPage()
    ensures Halvings(340) == 9
  {
    assert Halvings(3) == 2 && Halvings(6) == 3 && Halvings(11) == 4 && Halvings(22) == 5;
    assert Halvings(43) == 6 && Halvings(85) == 7 && Halvings(170) == 8;
  }

  /** Every ancestor of `p` up to the root `t` holds BTREE_ORDER keys (vacuously so for the root). */
  ghost predicate Full(pages: Pages, m: Infos, t: PageId, p: PageId)
    decreases if p in m && t in m && m[p].height < m[t].height then m[t].height - m[p].height else 0
  {
    && p in m && t in m && p in pages
    && (p == t ||
        var u := pages[p].parent;
        && u in m && u in pages && pages[u].Internal?
        && m[p].height < m[t].height && m[u].height == m[p].height + 1
        && |pages[u].keys| >= BTREE_ORDER
        && Full(pages, m, t, u))
  }

  /** Only the ancestors matter. */
  lemma {:induction false} FullFrame(pages: Pages, m: Infos, t: PageId, n: nat, xs: set<PageId>, pages': Pages, m': Infos, p: PageId)
    requires Valid(pages, m, t, n, xs) && p in m && p in m' && p in pages && p in pages'
    requires pages'[p].parent == pages[p].parent && m'[p].height == m[p].height
    requires t in m' && m'[t].height == m[t].height
    requires forall q :: q in m && q in pages && m[p].height < m[q].height ==>
               q in m' && m'[q].height == m[q].height && q in pages' && pages'[q] == pages[q]
    ensures Full(pages, m, t, p) <==> Full(pages', m', t, p)
    decreases m[t].height - m[p].height
  {
    if p != t {
      var i := ParentSlot(pages, m, t, n, xs, p);
      var u := pages[p].parent;
      FullFrame(pages, m, t, n, xs, pages', m', u);
    }
  }

  /** An insertion into leaf `p` splits the root in a nested call, whose result the source
      drops: the parent has room for the first split but not for all of them, and every
      page above it is full. */
  ghost predicate DropsRoot(pages: Pages, m: Infos, t: PageId, p: PageId, key: int, data: seq<byte>) {
    && p in pages && pages[p].Leaf? && p != t
    && var u := pages[p].parent;
       && u in pages && pages[u].Internal?
       && |pages[u].keys| < BTREE_ORDER < |pages[u].keys| + Splits(pages[p].entries, key, data)
       && Full(pages, m, t, u)
  }
}
