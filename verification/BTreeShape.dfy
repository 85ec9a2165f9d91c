/** Pages of the B-tree, and what it means for them to form one.

    A page holds either a leaf (sorted entries) or an internal node (separator keys
    between child pointers), and every page carries a pointer to its parent.  The shape
    of the tree is described by a ghost map that gives each live page its height and the
    half-open key range it answers for, so that validity is a conjunction of conditions
    that each look at one page and its children. */
module BTreeShape {
  import Bytes

  type PageId = nat
  type byte = Bytes.byte

  const PAGE_SIZE: nat := Bytes.PAGE_SIZE
  const HEADER_SIZE: nat := 8
  const ENTRY_HEADER: nat := 12
  const BTREE_ORDER: nat := 64
  const MIN_KEYS: nat := 32

  /** Parent fields are 32 bits wide on the page. */
  const U32_END: nat := 0x1_0000_0000

  /** Keys are signed 64-bit integers: KEY_MIN <= key < KEY_END. */
  const KEY_MIN: int := -0x8000_0000_0000_0000
  const KEY_END: int := 0x8000_0000_0000_0000

  datatype Entry = Entry(key: int, data: seq<byte>)

  datatype Node =
    | Leaf(parent: PageId, entries: seq<Entry>)
    | Internal(parent: PageId, keys: seq<int>, children: seq<PageId>)

  /** A node apart from its parent field. */
  function Bare(nd: Node): Node {
    nd.(parent := 0)
  }

  type Pages = map<PageId, Node>

  /** Where a live page sits: its distance from the leaves and its key range [lo, hi). */
  datatype Info = Info(height: nat, lo: int, hi: int)

  type Infos = map<PageId, Info>

  type Rows = map<int, seq<byte>>

  // ---------------------------------------------------------------- sizes

  function EntrySize(e: Entry): nat {
    ENTRY_HEADER + |e.data|
  }

  /** Bytes taken by the entries of a leaf. */
  function EntryBytes(es: seq<Entry>): nat {
    if es == [] then 0 else EntryBytes(es[..|es| - 1]) + EntrySize(es[|es| - 1])
  }

  predicate FitsPage(es: seq<Entry>) {
    HEADER_SIZE + EntryBytes(es) <= PAGE_SIZE
  }

  // ---------------------------------------------------------------- sequences

  function InsertAt<T>(s: seq<T>, i: nat, x: T): seq<T>
    requires i <= |s|
  {
    s[..i] + [x] + s[i..]
  }

  function RemoveAt<T>(s: seq<T>, i: nat): seq<T>
    requires i < |s|
  {
    s[..i] + s[i + 1..]
  }

  ghost function IndexOf<T>(s: seq<T>, x: T): (i: nat)
    requires x in s
    ensures i < |s| && s[i] == x
  {
    var i :| 0 <= i < |s| && s[i] == x;
    i
  }

  ghost predicate SortedKeys(ks: seq<int>) {
    forall i, j :: 0 <= i < j < |ks| ==> ks[i] < ks[j]
  }

  ghost predicate SortedEntries(es: seq<Entry>) {
    forall i, j :: 0 <= i < j < |es| ==> es[i].key < es[j].key
  }

  ghost predicate HasKey(es: seq<Entry>, k: int) {
    exists i :: 0 <= i < |es| && es[i].key == k
  }

  /** Where an entry with this key goes: behind every key not above it. */
  ghost predicate PlaceFor(es: seq<Entry>, key: int, j: nat) {
    && j <= |es| && (forall x :: 0 <= x < j ==> es[x].key <= key) && (j < |es| ==> key < es[j].key)
  }

  // ---------------------------------------------------------------- one page

  function ChildLo(ks: seq<int>, i: nat, lo: int): int
    requires i <= |ks|
  {
    if i == 0 then lo else ks[i - 1]
  }

  function ChildHi(ks: seq<int>, i: nat, hi: int): int
    requires i <= |ks|
  {
    if i == |ks| then hi else ks[i]
  }

  ghost predicate KeysOk(ks: seq<int>, f: Info) {
    && SortedKeys(ks)
    && forall i :: 0 <= i < |ks| ==> f.lo < ks[i] < f.hi
  }

  ghost predicate EntriesOk(es: seq<Entry>, f: Info) {
    && SortedEntries(es)
    && forall i :: 0 <= i < |es| ==> f.lo <= es[i].key < f.hi
  }

  /** `c`, the child at index `i` of page `p`, points back to `p` and answers for
      exactly the keys between the separators around it. */
  ghost predicate ChildOk(pages: Pages, m: Infos, p: PageId, ks: seq<int>, f: Info, c: PageId, i: nat)
    requires i <= |ks| && 0 < f.height
  {
    && c in m && c in pages
    && pages[c].parent == p
    && m[c] == Info(f.height - 1, ChildLo(ks, i, f.lo), ChildHi(ks, i, f.hi))
  }

  ghost predicate ChildrenOk(pages: Pages, m: Infos, p: PageId, ks: seq<int>, cs: seq<PageId>, f: Info) {
    && |cs| == |ks| + 1
    && 0 < f.height
    && forall i :: 0 <= i < |cs| ==> ChildOk(pages, m, p, ks, f, cs[i], i)
  }

  /** Occupancy: a non-root leaf is not empty, an internal node has MIN_KEYS to
      BTREE_ORDER keys (at least one in the root). */
  ghost predicate Occupied(nd: Node, isRoot: bool) {
    match nd
    case Leaf(_, es) => FitsPage(es) && (isRoot || 0 < |es|)
    case Internal(_, ks, _) => (if isRoot then 1 else MIN_KEYS) <= |ks| <= BTREE_ORDER
  }

  /** Page `p` is right.  Pages in `xs` are excused from occupancy: they are the ones an
      operation under way has over- or under-filled. */
  ghost predicate NodeOk(pages: Pages, m: Infos, root: PageId, xs: set<PageId>, p: PageId) {
    && p in m && p in pages
    && m[p].lo < m[p].hi
    && (p in xs || Occupied(pages[p], p == root))
    && match pages[p]
       case Leaf(_, es) => m[p].height == 0 && EntriesOk(es, m[p])
       case Internal(_, ks, cs) => KeysOk(ks, m[p]) && ChildrenOk(pages, m, p, ks, cs, m[p])
  }

  /** Page `p` hangs from the page its parent field names, below the root. */
  ghost predicate LinkOk(pages: Pages, m: Infos, root: PageId, p: PageId) {
    && p in m && p in pages && root in m
    && 0 < p
    && (p != root ==>
          var q := pages[p].parent;
          && q in m && q in pages && pages[q].Internal?
          && p in pages[q].children
          && m[p].height < m[root].height)
  }

  /** The pages named by `m` form a B-tree with the given root; every page id is below `n`. */
  ghost predicate Valid(pages: Pages, m: Infos, root: PageId, n: nat, xs: set<PageId>) {
    && root in m
    && m[root].lo == KEY_MIN && m[root].hi == KEY_END
    && (forall p {:trigger NodeOk(pages, m, root, xs, p)} :: p in m ==> NodeOk(pages, m, root, xs, p))
    && (forall p {:trigger LinkOk(pages, m, root, p)} :: p in m ==> LinkOk(pages, m, root, p))
    && (forall p :: p in pages ==> p < n)
  }

  // ---------------------------------------------------------------- contents

  ghost predicate LeafHolds(es: seq<Entry>, f: Info, rows: Rows) {
    && (forall i :: 0 <= i < |es| ==> es[i].key in rows && rows[es[i].key] == es[i].data)
    && (forall k :: k in rows && f.lo <= k < f.hi ==> HasKey(es, k))
  }

  /** The leaves together hold exactly `rows`. */
  ghost predicate Holds(pages: Pages, m: Infos, rows: Rows) {
    && (forall k :: k in rows ==> KEY_MIN <= k < KEY_END)
    && (forall p :: p in m && p in pages && pages[p].Leaf? ==> LeafHolds(pages[p].entries, m[p], rows))
  }

  ghost predicate IsLeafFor(pages: Pages, m: Infos, p: PageId, key: int) {
    p in m && p in pages && pages[p].Leaf? && m[p].lo <= key < m[p].hi
  }

  // ---------------------------------------------------------------- basic facts

  lemma ChildIndex(pages: Pages, m: Infos, root: PageId, xs: set<PageId>, p: PageId, i: nat, j: nat)
    requires NodeOk(pages, m, root, xs, p) && pages[p].Internal?
    requires i < |pages[p].children| && j < |pages[p].children|
    requires pages[p].children[i] == pages[p].children[j]
    ensures i == j
  {
    var ks, f := pages[p].keys, m[p];
    assert ChildOk(pages, m, p, ks, f, pages[p].children[i], i);
    assert ChildOk(pages, m, p, ks, f, pages[p].children[j], j);
  }

  /** A non-root page and the child slot it fills in its parent. */
  lemma ParentSlot(pages: Pages, m: Infos, root: PageId, n: nat, xs: set<PageId>, p: PageId) returns (i: nat)
    requires Valid(pages, m, root, n, xs) && p in m && p != root
    ensures p in pages && 0 < p && m[p].height < m[root].height
    ensures var q := pages[p].parent;
            && q in m && q in pages && pages[q].Internal? && q != p
            && |pages[q].children| == |pages[q].keys| + 1
            && i < |pages[q].children| && pages[q].children[i] == p
            && 0 < m[q].height && ChildOk(pages, m, q, pages[q].keys, m[q], p, i)
            && KeysOk(pages[q].keys, m[q])
  {
    assert LinkOk(pages, m, root, p);
    var q := pages[p].parent;
    assert NodeOk(pages, m, root, xs, q);
    i := IndexOf(pages[q].children, p);
    assert ChildOk(pages, m, q, pages[q].keys, m[q], p, i);
  }

  /** Live pages of equal height answer for disjoint key ranges. */
  lemma {:induction false} RangesDisjoint(pages: Pages, m: Infos, root: PageId, n: nat, xs: set<PageId>, p: PageId, q: PageId)
    requires Valid(pages, m, root, n, xs)
    requires p in m && q in m && p != q && m[p].height == m[q].height
    ensures m[p].hi <= m[q].lo || m[q].hi <= m[p].lo
    decreases m[root].height - m[p].height
  {
    if p == root {
      var _ := ParentSlot(pages, m, root, n, xs, q);
    } else if q == root {
      var _ := ParentSlot(pages, m, root, n, xs, p);
    } else {
      var i := ParentSlot(pages, m, root, n, xs, p);
      var j := ParentSlot(pages, m, root, n, xs, q);
      var a, b := pages[p].parent, pages[q].parent;
      if a != b {
        RangesDisjoint(pages, m, root, n, xs, a, b);
      }
    }
  }

  lemma {:induction false} EntryBytesAppend(a: seq<Entry>, b: seq<Entry>)
    ensures EntryBytes(a + b) == EntryBytes(a) + EntryBytes(b)
    decreases |b|
  {
    if b == [] {
      assert a + b == a;
    } else {
      assert (a + b)[..|a + b| - 1] == a + b[..|b| - 1];
      EntryBytesAppend(a, b[..|b| - 1]);
    }
  }

  lemma {:induction false} BytesAround(a: seq<Entry>, e: Entry, b: seq<Entry>)
    ensures EntryBytes(a + [e] + b) == EntryBytes(a) + EntrySize(e) + EntryBytes(b)
  {
    EntryBytesAppend(a + [e], b);
    assert (a + [e])[..|a|] == a;
  }
}
