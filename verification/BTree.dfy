/** The B-tree itself: pages updated in place, one page at a time. */
module BTreeIndex {
  import opened Options
  import opened Results
  import opened BTreeShape
  import opened BTreeSplit
  import opened BTreeMerge
  import opened BTreeRoot
  import opened BTreePending
  import opened BTreeLimits
  import opened BTreeLink
  import opened BTreeInsert
  import opened BTreeDelete
  import opened BTreeRepair

  /** An all-zero page reads as an internal node with no key. */
  const BLANK: Node := Internal(0, [], [0])

  /** `es` lists the rows with keys in the range of `f`, in key order. */
  ghost predicate Listing(es: seq<Entry>, f: Info, rows: Rows) {
    EntriesOk(es, f) && LeafHolds(es, f, rows)
  }

  lemma JoinListing(a: seq<Entry>, f: Info, b: seq<Entry>, g: Info, rows: Rows)
    requires Listing(a, f, rows) && Listing(b, g, rows) && f.hi == g.lo && f.lo < f.hi < g.hi
    ensures forall h :: Listing(a + b, Info(h, f.lo, g.hi), rows)
  {
    JoinedLeafHolds(a, f, b, g, rows);
  }

  /** The rows of children `0` to `i - 1` of `p`, followed by those of child `i`. */
  lemma NextListing(a: Tree, root: PageId, p: PageId, i: nat, t: seq<Entry>, u: seq<Entry>)
    requires Sound(a, root) && p in a.info && p in a.pages && a.pages[p].Internal?
    requires 0 < i < |a.pages[p].children| && |a.pages[p].children| == |a.pages[p].keys| + 1
    requires Listing(t, Info(a.info[p].height, a.info[p].lo, ChildHi(a.pages[p].keys, i - 1, a.info[p].hi)), a.rows)
    requires a.pages[p].children[i] in a.info && Listing(u, a.info[a.pages[p].children[i]], a.rows)
    ensures Listing(t + u, Info(a.info[p].height, a.info[p].lo, ChildHi(a.pages[p].keys, i, a.info[p].hi)), a.rows)
  {
    var ks, cs, f := a.pages[p].keys, a.pages[p].children, a.info[p];
    assert NodeOk(a.pages, a.info, root, {}, p) && NodeOk(a.pages, a.info, root, {}, cs[i]);
    assert ChildOk(a.pages, a.info, p, ks, f, cs[i], i);
    JoinListing(t, Info(f.height, f.lo, ks[i - 1]), u, a.info[cs[i]], a.rows);
  }

  /** The new root may be written before the parents below it. */
  lemma RootedLast(pages: Pages, l: PageId, k: int, r: PageId, t: PageId)
    requires l in pages && r in pages && t !in pages
    ensures pages[t := BLANK][t := Internal(0, [k], [l, r])][l := pages[l].(parent := t)][r := pages[r].(parent := t)] == Rooted(pages, l, k, r, t)
  {
  }

  /** Append the entries `rs` one at a time, as long as the page has room. */
  method AppendEntries(ls: seq<Entry>, rs: seq<Entry>) returns (res: Result<seq<Entry>>)
    requires FitsPage(ls)
    ensures res.Ok? <==> FitsPage(ls + rs)
    ensures res.Ok? ==> res.value == ls + rs
  {
    var es, x := ls, 0;
    while x < |rs|
      invariant x <= |rs|
      invariant es == ls + rs[..x] && FitsPage(es)
    {
      EntryBytesAppend(es, [rs[x]]);
      OneEntry(rs[x]);
      assert es + [rs[x]] == ls + rs[..x + 1];
      if HEADER_SIZE + EntryBytes(es) + EntrySize(rs[x]) > PAGE_SIZE {
        PrefixBytes(ls, rs, x + 1);
        return Err(PageFull);
      }
      es := es + [rs[x]];
      x := x + 1;
    }
    assert rs[..x] == rs;
    return Ok(es);
  }

  /** Halving page `q`, overfull as `nd`, step by step. */
  lemma HalvedInSteps(pages: Pages, q: PageId, nd: Node, s: nat, n: PageId)
    requires q in pages && n !in pages && nd.Internal? && s < |nd.keys| && |nd.children| == |nd.keys| + 1
    requires forall c :: c in nd.children ==> c in pages && c != q
    ensures Reparent(pages[n := BLANK], nd.children[s + 1..], n)
              [n := Internal(0, nd.keys[s + 1..], nd.children[s + 1..])]
              [q := Internal(nd.parent, nd.keys[..s], nd.children[..s + 1])]
            == Halved(pages[q := nd], q, s, n)
  {
  }

  /** The first slot whose key is above `k`. */
  method SlotFor(keys: seq<int>, k: int) returns (j: nat)
    ensures j <= |keys| && (forall x :: 0 <= x < j ==> keys[x] <= k) && (j < |keys| ==> k < keys[j])
  {
    j := 0;
    while j < |keys| && keys[j] <= k
      invariant j <= |keys|
      invariant forall x :: 0 <= x < j ==> keys[x] <= k
    {
      j := j + 1;
    }
  }

  /** The first slot whose key is not below `k`. */
  method SlotAtLeast(keys: seq<int>, k: int) returns (j: nat)
    ensures j <= |keys| && (forall x :: 0 <= x < j ==> keys[x] < k) && (j < |keys| ==> k <= keys[j])
  {
    j := 0;
    while j < |keys| && keys[j] < k
      invariant j <= |keys|
      invariant forall x :: 0 <= x < j ==> keys[x] < k
    {
      j := j + 1;
    }
  }

  lemma InsertedKids(nd: Node, i: nat, k: int, c: PageId)
    requires nd.Internal? && i <= |nd.keys| && |nd.children| == |nd.keys| + 1
    ensures var nd' := InsertChild(nd, i, k, c);
            && nd'.Internal? && |nd'.keys| == |nd.keys| + 1 && |nd'.children| == |nd.children| + 1
            && forall x :: x in nd'.children ==> x in nd.children || x == c
  {
  }

  class BTree {
    var pages: Pages
    var numPages: nat
    var root: PageId
    ghost var info: Infos
    ghost var rows: Rows

    ghost function Snap(): Tree
      reads this
    {
      Tree(pages, info, rows, numPages)
    }

    ghost predicate Valid()
      reads this
    {
      Sound(Snap(), root) && numPages <= U32_END
    }

    /** A new tree is one empty leaf on the next free page; page 0 is never a node. */
    constructor (firstFree: nat)
      requires 0 < firstFree < U32_END
      ensures Valid() && rows == map[] && root == firstFree && root in pages && pages[root].parent == 0 && numPages == firstFree + 1
    {
      pages := map[firstFree := Leaf(0, [])];
      numPages := firstFree + 1;
      root := firstFree;
      info := map[firstFree := Info(0, KEY_MIN, KEY_END)];
      rows := map[];
    }

    // ------------------------------------------------------------ reading

    /** The leaf whose range holds `key`. */
    method FindLeaf(key: int) returns (p: PageId)
      requires Valid() && KEY_MIN <= key < KEY_END
      ensures IsLeafFor(pages, info, p, key)
    {
      p := root;
      while true
        invariant p in info && info[p].lo <= key < info[p].hi
        decreases info[p].height
      {
        assert NodeOk(pages, info, root, {}, p);
        var nd := pages[p];
        if nd.Leaf? {
          return;
        }
        var i := 0;
        while i < |nd.keys| && nd.keys[i] <= key
          invariant i <= |nd.keys|
          invariant ChildLo(nd.keys, i, info[p].lo) <= key
        {
          i := i + 1;
        }
        assert ChildOk(pages, info, p, nd.keys, info[p], nd.children[i], i);
        p := nd.children[i];
      }
    }

    method Search(key: int) returns (r: Option<seq<byte>>)
      requires Valid() && KEY_MIN <= key < KEY_END
      ensures r == if key in rows then Some(rows[key]) else None
    {
      var p := FindLeaf(key);
      var es := pages[p].entries;
      assert LeafHolds(es, info[p], rows);
      var i := 0;
      while i < |es|
        invariant i <= |es|
        invariant forall j :: 0 <= j < i ==> es[j].key != key
      {
        if es[i].key == key {
          return Some(es[i].data);
        }
        i := i + 1;
      }
      return None;
    }

    /** Every row, in key order. */
    method Scan() returns (es: seq<Entry>)
      requires Valid()
      ensures SortedEntries(es)
      ensures forall i :: 0 <= i < |es| ==> es[i].key in rows && rows[es[i].key] == es[i].data
      ensures forall k :: k in rows ==> HasKey(es, k)
    {
      es := ScanNode(root, []);
      assert es[0..] == es;
    }

    /** The rows of the subtree, in key order, behind those collected before. */
    method ScanNode(p: PageId, acc: seq<Entry>) returns (es: seq<Entry>)
      requires Valid() && p in info
      ensures |acc| <= |es| && es[..|acc|] == acc && Listing(es[|acc|..], info[p], rows)
      decreases info[p].height, 1
    {
      assert NodeOk(pages, info, root, {}, p);
      match pages[p]
      case Leaf(_, entries) =>
        assert LeafHolds(entries, info[p], rows);
        es := acc;
        var i := 0;
        while i < |entries|
          invariant i <= |entries|
          invariant es == acc + entries[..i]
        {
          es := es + [entries[i]];
          i := i + 1;
        }
        assert es[|acc|..] == entries;
      case Internal(_, _, _) =>
        es := ScanChildren(p, acc);
    }

    /** The subtrees below `p`, first child first. */
    method ScanChildren(p: PageId, acc: seq<Entry>) returns (es: seq<Entry>)
      requires Valid() && p in info && p in pages && pages[p].Internal?
      ensures |acc| <= |es| && es[..|acc|] == acc && Listing(es[|acc|..], info[p], rows)
      decreases info[p].height, 0
    {
      assert NodeOk(pages, info, root, {}, p);
      var ks, cs := pages[p].keys, pages[p].children;
      ghost var f := info[p];
      assert ChildOk(pages, info, p, ks, f, cs[0], 0);
      es := ScanNode(cs[0], acc);
      ghost var t := es[|acc|..];
      var i := 0;
      while i < |ks|
        invariant i <= |ks|
        invariant es == acc + t
        invariant Listing(t, Info(f.height, f.lo, ChildHi(ks, i, f.hi)), rows)
      {
        i := i + 1;
        assert ChildOk(pages, info, p, ks, f, cs[i], i);
        ghost var n := |es|;
        es := ScanNode(cs[i], es);
        NextListing(Snap(), root, p, i, t, es[n..]);
        t := t + es[n..];
      }
      assert es[|acc|..] == t;
    }

    // ------------------------------------------------------------ writing pages

    method Allocate() returns (p: PageId)
      modifies this`pages, this`numPages
      ensures p == old(numPages) && numPages == p + 1 && pages == old(pages)[p := BLANK]
    {
      p := numPages;
      pages := pages[p := BLANK];
      numPages := numPages + 1;
    }

    /** The parent field holds the low 32 bits of a page id. */
    method SetParent(p: PageId, q: PageId)
      requires p in pages
      modifies this`pages
      ensures pages == old(pages)[p := old(pages)[p].(parent := q % U32_END)]
    {
      var field := q % U32_END;
      if pages[p].parent != field {
        pages := pages[p := pages[p].(parent := field)];
      }
    }

    method SetParents(cs: seq<PageId>, q: PageId)
      requires q < U32_END && forall c :: c in cs ==> c in pages
      modifies this`pages
      ensures pages == Reparent(old(pages), cs, q)
      ensures Grew(old(pages), old(numPages), pages, numPages)
    {
      var i := 0;
      while i < |cs|
        invariant i <= |cs|
        invariant pages == Reparent(old(pages), cs[..i], q)
      {
        assert cs[i] in cs;
        SetParent(cs[i], q);
        assert forall c :: c in cs[..i + 1] <==> c in cs[..i] || c == cs[i];
        i := i + 1;
      }
      assert cs[..i] == cs;
    }

    // ------------------------------------------------------------ insertion

    method CreateNewRoot(l: PageId, r: PageId, k: int) returns (t: PageId)
      requires l in pages && r in pages && l != r && numPages !in pages && numPages < U32_END
      modifies this`pages, this`numPages
      ensures t == old(numPages) && numPages == t + 1
      ensures pages == Rooted(old(pages), l, k, r, t)
      ensures Grew(old(pages), old(numPages), pages, numPages)
    {
      t := Allocate();
      pages := pages[t := Internal(0, [k], [l, r])];
      SetParent(l, t);
      SetParent(r, t);
      RootedLast(old(pages), l, k, r, t);
    }

    /** The entries from the middle on move to a new page. */
    method SplitLeaf(p: PageId) returns (res: Result<(PageId, int)>)
      requires p in pages && pages[p].Leaf? && numPages !in pages
      modifies this`pages, this`numPages
      ensures res.Err? <==> |old(pages)[p].entries| < 2
      ensures res.Err? ==> pages == old(pages) && numPages == old(numPages) && res.error == OutOfBounds
      ensures res.Ok? ==>
                var nd, s := old(pages)[p], |old(pages)[p].entries| / 2;
                && res.value == (old(numPages), SplitKey(nd, s)) && numPages == old(numPages) + 1
                && pages == Halved(old(pages), p, s, old(numPages))
      ensures Grew(old(pages), old(numPages), pages, numPages)
    {
      var es := pages[p].entries;
      var s := |es| / 2;
      if s == 0 && |es| != 0 {
        s := 1;
      }
      if |es| <= s {
        return Err(OutOfBounds);
      }
      var r := Allocate();
      pages := pages[p := Leaf(pages[p].parent, es[..s])];
      pages := pages[r := Leaf(0, es[s..])];
      return Ok((r, es[s].key));
    }

    /** Link `r`, the new right half of `l`, into the tree whose root is `t`. */
    method InsertIntoParent(l: PageId, r: PageId, k: int, ghost i: nat, ghost t: PageId)
      returns (res: Option<PageId>, ghost lost: bool, ghost kl: int)
      requires Linkable(Snap(), t, l, i, r, k)
      modifies this`pages, this`numPages, this`info, this`rows
      ensures LinkDone(old(Snap()), Snap(), l, r, t, res, lost, kl)
      ensures Grew(old(pages), old(numPages), pages, numPages)
      decreases if l in info && t in info then info[t].height - info[l].height else 0, 2
    {
      ghost var a := Snap();
      if pages[l].parent == 0 {
        assert l == t by {
          if l != t { HeightsOfPending(a, l, i, r, k, t); }
        }
        var u := CreateNewRoot(l, r, k);
        info := GrownInfos(info, t, u);
        res, lost, kl := Some(u), false, 0;
        LinkRoot(a, Snap(), l, r, k, t);
      } else {
        res, lost, kl := InsertIntoInternal(pages[l].parent, l, r, k, i, t);
      }
    }

    method InsertIntoInternal(q: PageId, l: PageId, r: PageId, k: int, ghost i: nat, ghost t: PageId)
      returns (res: Option<PageId>, ghost lost: bool, ghost kl: int)
      requires Linkable(Snap(), t, l, i, r, k) && q == pages[l].parent && q != 0
      modifies this`pages, this`numPages, this`info, this`rows
      ensures LinkDone(old(Snap()), Snap(), l, r, t, res, lost, kl)
      ensures Grew(old(pages), old(numPages), pages, numPages)
      decreases if l in info && t in info then info[t].height - info[l].height else 0, 1
    {
      ghost var a := Snap();
      ParentThere(a, t, l, i, r, k);
      SetParent(r, q);
      var nd := pages[q];
      var j := SlotFor(nd.keys, k);
      if |nd.keys| >= BTREE_ORDER {
        HeightsOfPending(a, l, i, r, k, t);
        res, lost, kl := SplitInternal(q, l, r, k, i, t, a);
      } else {
        lost, kl := PlaceChild(q, l, r, k, j, i, t, a);
        res := None;
      }
    }

    /** Page `q`, which has room, takes in `r` at slot `j`. */
    method PlaceChild(q: PageId, l: PageId, r: PageId, k: int, j: nat, ghost i: nat, ghost t: PageId, ghost a: Tree)
      returns (ghost lost: bool, ghost kl: int)
      requires LinkRoom(a, l, i, r, k, t, j) && q == a.pages[l].parent
      requires Snap() == a.(pages := a.pages[r := a.pages[r].(parent := q)])
      modifies this`pages, this`info, this`rows
      ensures LinkDone(a, Snap(), l, r, t, None, lost, kl)
      ensures Grew(old(pages), old(numPages), pages, numPages)
    {
      ghost var b := LinkHere(a, l, i, r, k, t, j);
      pages := pages[q := InsertChild(pages[q], j, k, r)];
      info, rows := b.info, b.rows;
      lost, kl := l == t && l in a.info, k;
      assert Snap() == b;
    }

    /** Page `q`, full, takes in `r` and is split in its turn. */
    method SplitInternal(q: PageId, l: PageId, r: PageId, k: int, ghost i: nat, ghost t: PageId, ghost a: Tree)
      returns (res: Option<PageId>, ghost lost: bool, ghost kl: int)
      requires PendingIn(a, t, l, i, r, k) && StaleReady(a, l, t) && l != t
      requires q == a.pages[l].parent && |a.pages[q].keys| >= BTREE_ORDER
      requires Snap() == a.(pages := a.pages[r := a.pages[r].(parent := q)])
      requires info[l].height < info[t].height && numPages + info[t].height - info[l].height + 1 <= U32_END
      modifies this`pages, this`numPages, this`info, this`rows
      ensures Linked(a, Snap(), l, r, t, res, lost, kl)
      ensures Grew(old(pages), old(numPages), pages, numPages)
      decreases info[t].height - info[l].height, 0
    {
      var sib, promoted;
      ghost var i', c;
      sib, promoted, i', c := SplitFull(q, l, r, k, i, t, a);
      res, lost, kl := InsertIntoParent(q, sib, promoted, i', t);
      GrewTwice(old(pages), old(numPages), c.pages, c.n, pages, numPages);
      LinkUp(a, c, Snap(), l, q, r, t, res, lost, kl);
    }

    /** The halving itself: what is then to be linked in is the right half of `q`. */
    method SplitFull(q: PageId, l: PageId, r: PageId, k: int, ghost i: nat, ghost t: PageId, ghost a: Tree)
      returns (sib: PageId, promoted: int, ghost i': nat, ghost c: Tree)
      requires PendingIn(a, t, l, i, r, k) && StaleReady(a, l, t) && l != t
      requires q == a.pages[l].parent && |a.pages[q].keys| >= BTREE_ORDER
      requires Snap() == a.(pages := a.pages[r := a.pages[r].(parent := q)])
      requires info[l].height < info[t].height && numPages + info[t].height - info[l].height + 1 <= U32_END
      modifies this`pages, this`numPages, this`info
      ensures c == Snap() && sib == a.n && Linkable(c, t, q, i', sib, promoted) && HalvedAbove(a, c, l, q, r, t)
      ensures Grew(old(pages), old(numPages), pages, numPages)
    {
      HeightsOfPending(a, l, i, r, k, t);
      KidsPresent(a, t, l, i, r, k);
      ghost var j;
      sib, promoted, j := HalveInternal(q, r, k);
      SlotFound(a, t, l, i, r, k, j);
      info := SplitInfos(info, q, promoted, sib);
      c := Snap();
      assert Attached(a.pages, l, i, k, r) == a.pages[r := a.pages[r].(parent := q)][q := InsertChild(a.pages[q], i, k, r)];
      i' := AbovePending(a, c, l, i, r, k, t);
    }

    /** Insert `k` and `r` into the full page `q` and move everything right of the middle
        key, which is handed back, to a new page. */
    method HalveInternal(q: PageId, r: PageId, k: int) returns (sib: PageId, promoted: int, ghost j: nat)
      requires q in pages && pages[q].Internal? && numPages !in pages && numPages < U32_END
      requires |pages[q].keys| == BTREE_ORDER && |pages[q].children| == BTREE_ORDER + 1
      requires r in pages && r != q && forall c :: c in pages[q].children ==> c in pages && c != q
      modifies this`pages, this`numPages
      ensures sib == old(numPages) && numPages == sib + 1
      ensures var nd := old(pages)[q];
              && j <= |nd.keys| && (forall x :: 0 <= x < j ==> nd.keys[x] <= k) && (j < |nd.keys| ==> k <= nd.keys[j])
              && promoted == SplitKey(InsertChild(nd, j, k, r), MIN_KEYS)
              && pages == Halved(old(pages)[q := InsertChild(nd, j, k, r)], q, MIN_KEYS, sib)
      ensures Grew(old(pages), old(numPages), pages, numPages)
    {
      var nd := pages[q];
      var at := SlotAtLeast(nd.keys, k);
      j := at;
      var overfull := InsertChild(nd, at, k, r);
      InsertedKids(nd, at, k, r);
      sib, promoted := MoveRight(q, overfull);
    }

    /** Page `q`, overfull as `nd`, keeps the keys below the middle one; a new page takes those above. */
    method MoveRight(q: PageId, nd: Node) returns (sib: PageId, promoted: int)
      requires q in pages && numPages !in pages && numPages < U32_END
      requires nd.Internal? && 0 < |nd.keys| && |nd.children| == |nd.keys| + 1
      requires forall c :: c in nd.children ==> c in pages && c != q
      modifies this`pages, this`numPages
      ensures sib == old(numPages) && numPages == sib + 1 && promoted == nd.keys[|nd.keys| / 2]
      ensures pages == Halved(old(pages)[q := nd], q, |nd.keys| / 2, sib)
      ensures Grew(old(pages), old(numPages), pages, numPages)
    {
      var s := |nd.keys| / 2;
      promoted := nd.keys[s];
      sib := Allocate();
      SetParents(nd.children[s + 1..], sib);
      pages := pages[sib := Internal(0, nd.keys[s + 1..], nd.children[s + 1..])];
      pages := pages[q := Internal(nd.parent, nd.keys[..s], nd.children[..s + 1])];
      HalvedInSteps(old(pages), q, nd, s, sib);
    }

    /** The entry goes into leaf `p` if there is room; otherwise the leaf is split, its right
        half linked in, and the entry inserted into the half it belongs to.  A leaf that has
        fallen out of the tree is split among pages outside it, and the tree stays as it is. */
    method InsertIntoLeaf(p: PageId, key: int, data: seq<byte>, ghost t: PageId)
      returns (res: Result<Option<PageId>>, ghost grown: Option<PageId>, ghost u: PageId, ghost lost: bool, ghost kl: int)
      requires MayInsert(Snap(), p, key, data, t)
      modifies this`pages, this`numPages, this`info, this`rows
      ensures InsertDone(old(Snap()), Snap(), p, key, data, t, u, grown, res.Err?, lost, kl)
      ensures res.Ok? ==> res.value == grown
      ensures HasRoom(old(pages)[p].entries, data) ==>
                res == Ok(None) && WroteLeaf(old(Snap()), Snap(), p, key, data, t)
      ensures Grew(old(pages), old(numPages), pages, numPages)
      decreases |pages[p].entries|
    {
      ghost var a := Snap();
      var nd := pages[p];
      var j := 0;
      while j < |nd.entries| && nd.entries[j].key <= key
        invariant j <= |nd.entries|
        invariant forall x :: 0 <= x < j ==> nd.entries[x].key <= key
      {
        j := j + 1;
      }
      if HEADER_SIZE + EntryBytes(nd.entries) + ENTRY_HEADER + |data| > PAGE_SIZE {
        res, grown, u, lost, kl := SplitAndInsert(p, key, data, t);
        return;
      }
      pages := pages[p := Leaf(nd.parent, InsertAt(nd.entries, j, Entry(key, data)))];
      res, grown, u, lost, kl := Ok(None), None, t, false, 0;
      if p in info {
        rows := rows[key := data];
        InsertHere(a, Snap(), p, key, data, j, t);
      } else {
        OrphanWrite(a, p, pages[p], t);
      }
    }

    method SplitAndInsert(p: PageId, key: int, data: seq<byte>, ghost t: PageId)
      returns (res: Result<Option<PageId>>, ghost grown: Option<PageId>, ghost u: PageId, ghost lost: bool, ghost kl: int)
      requires MayInsert(Snap(), p, key, data, t) && !HasRoom(pages[p].entries, data)
      modifies this`pages, this`numPages, this`info, this`rows
      ensures InsertDone(old(Snap()), Snap(), p, key, data, t, u, grown, res.Err?, lost, kl)
      ensures res.Ok? ==> res.value == grown
      ensures Grew(old(pages), old(numPages), pages, numPages)
      decreases |pages[p].entries|, 0
    {
      ghost var a := Snap();
      var split;
      ghost var c, lost1, kl1;
      split, grown, lost1, kl1, c := SplitAndLink(p, key, data, t);
      if split.Err? {
        res, u, lost, kl := Err(split.error), t, false, 0;
        SplitFails(a, p, key, data, t);
        return;
      }
      var (newRoot, x) := split.value;
      ghost var d := Snap();
      var nested;
      ghost var grown2, u2, lost2, kl2;
      nested, grown2, u2, lost2, kl2 := InsertIntoLeaf(x, key, data, NewRoot(newRoot, t));
      u, lost, kl := if lost1 then t else u2, lost1 || lost2, FinalCut(lost1, kl1, lost2, kl2);
      GrewTwice(a.pages, a.n, d.pages, d.n, pages, numPages);
      StepBoth(a, c, d, Snap(), p, x, key, data, t, u2, newRoot, grown2, nested.Err?, lost1, kl1, lost2, kl2);
      res := if nested.Err? then Err(nested.error) else Ok(newRoot);
    }

    /** Split leaf `p`, link its right half in, and pick the half that `key` belongs to. */
    method SplitAndLink(p: PageId, key: int, data: seq<byte>, ghost t: PageId)
      returns (res: Result<(Option<PageId>, PageId)>, ghost grown: Option<PageId>, ghost lost: bool, ghost kl: int, ghost c: Tree)
      requires MayInsert(Snap(), p, key, data, t) && !HasRoom(pages[p].entries, data)
      modifies this`pages, this`numPages, this`info, this`rows
      ensures res.Err? <==> |old(pages)[p].entries| < 2
      ensures res.Err? ==> Snap() == old(Snap()) && grown == None
      ensures res.Ok? ==> grown == res.value.0 && SplitDone(old(Snap()), c, Snap(), p, res.value.1, key, data, t, grown, lost, kl)
      ensures Grew(old(pages), old(numPages), pages, numPages)
    {
      ghost var a, i := Snap(), 0;
      var split;
      split, i, c := SplitForLink(p, key, data, t);
      grown, lost, kl := None, false, 0;
      if split.Err? {
        return Err(split.error), None, false, 0, a;
      }
      var (r, k) := split.value;
      var newRoot;
      newRoot, lost, kl := InsertIntoParent(p, r, k, i, t);
      grown := newRoot;
      var x := if key < k then p else r;
      GrewTwice(a.pages, a.n, c.pages, c.n, pages, numPages);
      SplitLinked(a, c, Snap(), p, x, key, data, t, newRoot, lost, kl);
      res := Ok((newRoot, x));
    }

    /** The splitting itself: what is then to be linked in is the right half of `p`. */
    method SplitForLink(p: PageId, key: int, data: seq<byte>, ghost t: PageId) returns (split: Result<(PageId, int)>, ghost i: nat, ghost c: Tree)
      requires MayInsert(Snap(), p, key, data, t) && !HasRoom(pages[p].entries, data)
      modifies this`pages, this`numPages, this`info
      ensures split.Err? <==> |old(pages)[p].entries| < 2
      ensures c == Snap() && Grew(old(pages), old(numPages), pages, numPages)
      ensures split.Err? ==> c == old(Snap())
      ensures split.Ok? ==>
                && split.value == (old(numPages), SplitKey(old(pages)[p], |old(pages)[p].entries| / 2))
                && HalvedHere(old(Snap()), c, p) && Linkable(c, t, p, i, split.value.0, split.value.1)
    {
      ghost var a := Snap();
      LeafFacts(a, p, t);
      split := SplitLeaf(p);
      i, c := 0, a;
      if split.Ok? {
        i, c := SplitLinkable(a, p, key, data, t);
        info := c.info;
        assert Snap() == c;
      }
    }

    /** Insert a row under a key that is not in the table.  The insertion fails only where no
        amount of splitting makes room, and it is complete exactly when it does not lose the
        right part of the tree to a root split that `root` is never told of.  Either way a valid
        tree is left. */
    method Insert(key: int, data: seq<byte>) returns (res: Result<()>)
      requires Valid() && KEY_MIN <= key < KEY_END && key !in rows
      requires forall p :: IsLeafFor(pages, info, p, key) && !HasRoom(pages[p].entries, data) ==> Splittable(Snap(), p, key, data, root)
      modifies this
      ensures OutcomeAtLeaf(old(Snap()), Snap(), key, data, old(root), root, res.Ok?)
      ensures Valid()
      ensures var all := if res.Ok? then old(rows)[key := data] else old(rows);
              rows == all || IsCut(rows, all)
      ensures Grew(old(pages), old(numPages), pages, numPages)
    {
      ghost var a, t := Snap(), root;
      var p := FindLeaf(key);
      StartInsert(a, p, key, data, t);
      ghost var grown, u, lost, kl;
      res := Ok(());
      var inserted;
      inserted, grown, u, lost, kl := InsertIntoLeaf(p, key, data, root);
      ghost var b := AfterInsert(a, Snap(), p, key, data, t, u, grown, inserted.Err?, lost, kl);
      info, rows := b.info, b.rows;
      assert Snap() == b;
      if inserted.Err? {
        return Err(inserted.error);
      }
      if inserted.value.Some? {
        root := inserted.value.value;
      }
    }

    // ------------------------------------------------------------ deletion

    /** The sibling of child `c` of `q`, the separator between them, and the side it is on. */
    method FindSibling(q: PageId, c: PageId, ghost i: nat) returns (sib: PageId, sep: int, isLeft: bool)
      requires q in pages && pages[q].Internal? && |pages[q].children| == |pages[q].keys| + 1 && 0 < |pages[q].keys|
      requires i < |pages[q].children| && pages[q].children[i] == c
      requires forall x :: 0 <= x < |pages[q].children| && pages[q].children[x] == c ==> x == i
      ensures isLeft <==> 0 < i
      ensures sep == pages[q].keys[RightSlot(i) - 1]
      ensures sib == pages[q].children[if i == 0 then 1 else i - 1]
    {
      var nd := pages[q];
      if nd.children[0] == c {
        return nd.children[1], nd.keys[0], false;
      }
      var prev := nd.children[0];
      var x := 0;
      while x < |nd.keys|
        invariant x <= |nd.keys| && x < i
        invariant prev == nd.children[x]
      {
        if nd.children[x + 1] == c {
          return prev, nd.keys[x], true;
        }
        prev := nd.children[x + 1];
        x := x + 1;
      }
      assert false;
    }

    /** Replace the separator `sep` of `q`. */
    method UpdateParentKey(q: PageId, sep: int, k: int, ghost i: nat)
      requires q in pages && pages[q].Internal? && SortedKeys(pages[q].keys)
      requires i < |pages[q].keys| && pages[q].keys[i] == sep
      modifies this`pages
      ensures pages == old(pages)[q := Internal(old(pages)[q].parent, old(pages)[q].keys[i := k], old(pages)[q].children)]
    {
      var nd := pages[q];
      var x := 0;
      while nd.keys[x] != sep
        invariant x <= i
      {
        x := x + 1;
      }
      pages := pages[q := Internal(nd.parent, nd.keys[x := k], nd.children)];
    }

    /** Drop child `c` and the separator before it from `q`.  A root left without keys gives
        way to its only child; any other page left with too few keys is repaired. */
    method RemoveChildFromParent(q: PageId, c: PageId, ghost j: nat)
      requires Removable(Snap(), root, q, j) && c == pages[q].children[j] && numPages <= U32_END
      modifies this`pages, this`info, this`root
      ensures Settled(old(Snap()), Snap(), old(root), root)
      ensures Grew(old(pages), old(numPages), pages, numPages)
      decreases if q in info && root in info then info[root].height - info[q].height else 0, 3
    {
      ghost var a, t := Snap(), root;
      var nd := pages[q];
      if nd.children[0] == c {
        assert false;
      }
      var x := 1;
      while nd.children[x] != c
        invariant 1 <= x <= j
        decreases j - x
      {
        x := x + 1;
      }
      pages := pages[q := RemoveChild(nd, x)];
      var left := |nd.keys| - 1;
      RemovedKept(a, Snap(), t, q, j);
      if q == root && left == 0 {
        CollapseOk(pages, info, t, numPages, {q});
        CollapsedRoot(a, Snap(), t);
        root := pages[q].children[0];
        info := info - {q};
      } else if q != root && left < MIN_KEYS {
        HandleInternalUnderflow(q);
        SettledAfter(a, a.(pages := a.pages[q := RemoveChild(nd, j)]), Snap(), t, root);
      } else {
        Unexcuse(pages, info, t, numPages, {q});
      }
    }

    method HandleInternalUnderflow(p: PageId)
      requires Short(Snap(), root, p) && pages[p].Internal? && |pages[p].keys| == MIN_KEYS - 1 && numPages <= U32_END
      modifies this`pages, this`info, this`root
      ensures Settled(old(Snap()), Snap(), old(root), root)
      ensures Grew(old(pages), old(numPages), pages, numPages)
      decreases if p in info && root in info then info[root].height - info[p].height else 0, 2
    {
      ghost var a, t := Snap(), root;
      ghost var i := SiblingSetup(a, t, p);
      if pages[p].parent == 0 || p == root {
        assert false;
      }
      var q := pages[p].parent;
      var sib, sep, isLeft := FindSibling(q, p, i);
      SiblingKind(a, t, p, i);
      if |pages[sib].keys| > MIN_KEYS {
        RedistributeInternal(p, sib, q, sep, isLeft, i);
      } else {
        MergeInternal(p, sib, q, sep, isLeft, i);
      }
    }

    method RedistributeInternal(p: PageId, sib: PageId, q: PageId, sep: int, isLeft: bool, ghost i: nat)
      requires Short(Snap(), root, p) && pages[p].Internal? && |pages[p].keys| == MIN_KEYS - 1 && numPages <= U32_END
      requires HasSibling(Snap(), root, p, q, i, sib, sep, isLeft) && |pages[sib].keys| > MIN_KEYS
      modifies this`pages, this`info
      ensures Settled(old(Snap()), Snap(), root, root)
      ensures Grew(old(pages), old(numPages), pages, numPages)
    {
      ghost var a := Snap();
      ghost var j := RightSlot(i);
      ghost var s := if isLeft then |a.pages[sib].keys| - 1 else |a.pages[p].keys| + 1;
      MovedKid(a, root, p, q, i, sib, sep, isLeft, if isLeft then pages[sib].children[|pages[sib].children| - 1] else pages[sib].children[0]);
      var moved := BorrowChild(p, sib, q, sep, isLeft, j - 1);
      BorrowedInternal(a, pages, root, p, q, i, sib, sep, isLeft, moved, j, s);
      info := RebalancedInfos(a.pages, a.info, q, j, s);
      Borrowed(a, Snap(), root, p, q, j, s);
    }

    /** The nearest child of `sib` moves over to `p`; the separators rotate through `q`. */
    method BorrowChild(p: PageId, sib: PageId, q: PageId, sep: int, isLeft: bool, ghost slot: nat) returns (moved: PageId)
      requires p in pages && sib in pages && q in pages && p != sib && p != q && sib != q && p < U32_END
      requires pages[p].Internal? && pages[sib].Internal? && pages[q].Internal? && 0 < |pages[sib].keys| && 0 < |pages[sib].children|
      requires pages[p].parent == q && pages[sib].parent == q
      requires SortedKeys(pages[q].keys) && slot < |pages[q].keys| && pages[q].keys[slot] == sep
      requires var m := if isLeft then pages[sib].children[|pages[sib].children| - 1] else pages[sib].children[0];
               m in pages && m != p && m != sib && m != q
      modifies this`pages
      ensures var sk, sc, pk, pc := old(pages)[sib].keys, old(pages)[sib].children, old(pages)[p].keys, old(pages)[p].children;
              && moved == (if isLeft then sc[|sc| - 1] else sc[0])
              && pages == old(pages)
                   [sib := Internal(q, if isLeft then sk[..|sk| - 1] else sk[1..], if isLeft then sc[..|sc| - 1] else sc[1..])]
                   [p := Internal(q, if isLeft then [sep] + pk else pk + [sep], if isLeft then [moved] + pc else pc + [moved])]
                   [moved := old(pages)[moved].(parent := p)]
                   [q := Internal(old(pages)[q].parent, old(pages)[q].keys[slot := if isLeft then sk[|sk| - 1] else sk[0]], old(pages)[q].children)]
      ensures Grew(old(pages), old(numPages), pages, numPages)
    {
      var ks, cs := pages[p].keys, pages[p].children;
      var sks, scs := pages[sib].keys, pages[sib].children;
      var k;
      if isLeft {
        k, moved := sks[|sks| - 1], scs[|scs| - 1];
        sks, scs := sks[..|sks| - 1], scs[..|scs| - 1];
        ks, cs := [sep] + ks, [moved] + cs;
      } else {
        k, moved := sks[0], scs[0];
        sks, scs := sks[1..], scs[1..];
        ks, cs := ks + [sep], cs + [moved];
      }
      pages := pages[sib := Internal(pages[sib].parent, sks, scs)];
      pages := pages[p := Internal(pages[p].parent, ks, cs)];
      SetParent(moved, p);
      UpdateParentKey(q, sep, k, slot);
    }

    method MergeInternal(p: PageId, sib: PageId, q: PageId, sep: int, isLeft: bool, ghost i: nat)
      requires Short(Snap(), root, p) && pages[p].Internal? && |pages[p].keys| == MIN_KEYS - 1 && numPages <= U32_END
      requires HasSibling(Snap(), root, p, q, i, sib, sep, isLeft) && |pages[sib].keys| == MIN_KEYS
      modifies this`pages, this`info, this`root
      ensures Settled(old(Snap()), Snap(), old(root), root)
      ensures Grew(old(pages), old(numPages), pages, numPages)
      decreases if p in info && root in info then info[root].height - info[p].height else 0, 1
    {
      ghost var a, t := Snap(), root;
      ghost var j := RightSlot(i);
      var l, r := if isLeft then sib else p, if isLeft then p else sib;
      var keys := pages[l].keys + [sep] + pages[r].keys;
      var children := pages[l].children + pages[r].children;
      // The capacity check of the source can never fail.
      assert HEADER_SIZE + 8 + |keys| * 16 <= PAGE_SIZE;
      SiblingKids(a, t, p, q, i, sib, sep, isLeft);
      SetParents(pages[r].children, l);
      pages := pages[l := Internal(pages[l].parent, keys, children)];
      info := MergeInfos(info, l, r);
      ghost var c := Snap();
      MergedInternal(a, c, t, p, q, i, sib, sep, isLeft);
      RemoveChildFromParent(q, r, j);
      SettledAfter(a, c, Snap(), t, root);
    }

    method HandleLeafUnderflow(p: PageId) returns (res: Result<()>)
      requires ShortLeaf(Snap(), root, p) && numPages <= U32_END
      modifies this`pages, this`info, this`root
      ensures res.Ok? <==> RepairFits(old(pages), p, old(pages)[p].entries)
      ensures res.Ok? ==> Settled(old(Snap()), Snap(), old(root), root)
      ensures res.Err? ==> FailedRepair(old(pages), pages, p) && root == old(root) && info == old(info)
      ensures Grew(old(pages), old(numPages), pages, numPages)
    {
      ghost var a, t := Snap(), root;
      ghost var i := SiblingSetup(a, t, p);
      if pages[p].parent == 0 {
        assert false;
      }
      var q := pages[p].parent;
      var sib, sep, isLeft := FindSibling(q, p, i);
      SiblingKind(a, t, p, i);
      assert IsSibling(a.pages, p, sib, isLeft);
      if sib == 0 {
        assert false;
      }
      if |pages[sib].entries| > MIN_KEYS {
        res := RedistributeLeaf(p, sib, q, sep, isLeft, i);
      } else {
        res := MergeLeaves(p, sib, q, sep, isLeft, i);
      }
    }

    /** Leaf `p` borrows the entry of `sib` nearest to it, and the separator between them follows. */
    method RedistributeLeaf(p: PageId, sib: PageId, q: PageId, sep: int, isLeft: bool, ghost i: nat) returns (res: Result<()>)
      requires ShortLeaf(Snap(), root, p) && HasSibling(Snap(), root, p, q, i, sib, sep, isLeft) && |pages[sib].entries| > MIN_KEYS
      modifies this`pages, this`info
      ensures res.Ok? <==>
                var se := old(pages)[sib].entries;
                HEADER_SIZE + EntryBytes(old(pages)[p].entries) + EntrySize(if isLeft then se[|se| - 1] else se[0]) <= PAGE_SIZE
      ensures res.Ok? ==> Settled(old(Snap()), Snap(), root, root)
      ensures res.Err? ==> pages == old(pages)[sib := Robbed(old(pages)[sib], isLeft)] && info == old(info)
      ensures Grew(old(pages), old(numPages), pages, numPages)
    {
      ghost var a := Snap();
      ghost var j, s := RightSlot(i), if isLeft then |pages[sib].entries| - 1 else |pages[p].entries| + 1;
      res := BorrowEntry(p, sib, q, sep, isLeft, j - 1);
      if res.Ok? {
        BorrowedLeaf(a, pages, root, p, q, i, sib, sep, isLeft, j, s);
        info := RebalancedInfos(a.pages, a.info, q, j, s);
        BorrowedLeafSettles(a, Snap(), root, p, q, i, sib, sep, isLeft, j, s);
      }
    }

    method BorrowEntry(p: PageId, sib: PageId, q: PageId, sep: int, isLeft: bool, ghost slot: nat) returns (res: Result<()>)
      requires p in pages && sib in pages && q in pages && p != sib && p != q && sib != q
      requires pages[p].Leaf? && pages[sib].Leaf? && pages[q].Internal? && 1 < |pages[sib].entries|
      requires pages[p].parent == q && pages[sib].parent == q
      requires SortedKeys(pages[q].keys) && slot < |pages[q].keys| && pages[q].keys[slot] == sep
      modifies this`pages
      ensures var se, es, nd := old(pages)[sib].entries, old(pages)[p].entries, old(pages)[q];
              var stolen := if isLeft then se[|se| - 1] else se[0];
              && (res.Ok? <==> HEADER_SIZE + EntryBytes(es) + EntrySize(stolen) <= PAGE_SIZE)
              && (res.Ok? ==> pages == old(pages)
                    [sib := Leaf(q, if isLeft then se[..|se| - 1] else se[1..])]
                    [p := Leaf(q, if isLeft then [stolen] + es else es + [stolen])]
                    [q := Internal(nd.parent, nd.keys[slot := if isLeft then stolen.key else se[1].key], nd.children)])
              && (res.Err? ==> pages == old(pages)[sib := Robbed(old(pages)[sib], isLeft)])
      ensures Grew(old(pages), old(numPages), pages, numPages)
    {
      var se := pages[sib].entries;
      var stolen := if isLeft then se[|se| - 1] else se[0];
      pages := pages[sib := Leaf(pages[sib].parent, if isLeft then se[..|se| - 1] else se[1..])];
      var es := pages[p].entries;
      if HEADER_SIZE + EntryBytes(es) + EntrySize(stolen) > PAGE_SIZE {
        return Err(PageFull);
      }
      pages := pages[p := Leaf(pages[p].parent, if isLeft then [stolen] + es else es + [stolen])];
      var k := if isLeft then pages[p].entries[0].key else pages[sib].entries[0].key;
      UpdateParentKey(q, sep, k, slot);
      res := Ok(());
    }

    method MergeLeaves(p: PageId, sib: PageId, q: PageId, sep: int, isLeft: bool, ghost i: nat) returns (res: Result<()>)
      requires ShortLeaf(Snap(), root, p) && HasSibling(Snap(), root, p, q, i, sib, sep, isLeft) && numPages <= U32_END
      modifies this`pages, this`info, this`root
      ensures res.Ok? <==> HEADER_SIZE + EntryBytes(old(pages)[p].entries) + EntryBytes(old(pages)[sib].entries) <= PAGE_SIZE
      ensures res.Ok? ==> Settled(old(Snap()), Snap(), old(root), root)
      ensures res.Err? ==> Snap() == old(Snap()) && root == old(root)
      ensures Grew(old(pages), old(numPages), pages, numPages)
    {
      ghost var a, t := Snap(), root;
      ghost var j := RightSlot(i);
      var l, r := if isLeft then sib else p, if isLeft then p else sib;
      EntryBytesAppend(pages[l].entries, pages[r].entries);
      var joined := AppendEntries(pages[l].entries, pages[r].entries);
      if joined.Err? {
        return Err(joined.error);
      }
      var es := joined.value;
      pages := pages[l := Leaf(pages[l].parent, es)];
      info := MergeInfos(info, l, r);
      ghost var c := Snap();
      MergedLeaf(a, c, t, p, q, i, sib, sep, isLeft);
      RemoveChildFromParent(q, r, j);
      SettledAfter(a, c, Snap(), t, root);
      res := Ok(());
    }

    /** Remove the row under `key`.  The answer says whether there was one; the only failure
        is a leaf too full to take what a repair moves into it. */
    method Delete(key: int) returns (res: Result<bool>)
      requires Valid() && KEY_MIN <= key < KEY_END
      modifies this`pages, this`info, this`root, this`rows
      ensures forall p :: IsLeafFor(old(pages), old(info), p, key) ==> (res.Err? <==> DeleteOverflows(old(pages), old(root), p, key))
      ensures res.Ok? ==> Valid() && rows == old(rows) - {key} && (res.value <==> key in old(rows))
      ensures res.Ok? && StaleOk(old(Snap()), old(root)) ==> StaleOk(Snap(), root)
      ensures res.Ok? ==> RootKept(old(Snap()), Snap(), old(root), root)
      ensures res.Err? ==> root == old(root) && info == old(info)
      ensures res.Err? ==> forall p :: IsLeafFor(old(pages), old(info), p, key) ==>
                && LeftShort(old(pages), pages, old(rows), rows, p, key)
                && BTreeShape.Valid(pages, info, root, numPages, {p}) && Holds(pages, info, rows)
      ensures Grew(old(pages), old(numPages), pages, numPages)
    {
      ghost var a, t := Snap(), root;
      var p := FindLeaf(key);
      OneLeaf(a, p, key, t);
      PageFacts(a, p, t);
      var nd := pages[p];
      assert LeafHolds(nd.entries, info[p], rows);
      var x := 0;
      while x < |nd.entries| && nd.entries[x].key != key
        invariant x <= |nd.entries|
        invariant forall y :: 0 <= y < x ==> nd.entries[y].key != key
      {
        x := x + 1;
      }
      if x == |nd.entries| {
        assert rows - {key} == rows;
        NoOverflow(a.pages, root, p, key);
        return Ok(false);
      }
      var done := DeleteAt(p, x, key);
      res := if done.Ok? then Ok(true) else Err(done.error);
    }

    /** Take entry `x` out of leaf `p`, and repair the leaf if it is then short. */
    method DeleteAt(p: PageId, x: nat, ghost key: int) returns (res: Result<()>)
      requires Valid() && IsLeafFor(pages, info, p, key) && x < |pages[p].entries| && pages[p].entries[x].key == key
      modifies this`pages, this`info, this`root, this`rows
      ensures res.Err? <==> DeleteOverflows(old(pages), old(root), p, key)
      ensures res.Ok? ==> Valid() && rows == old(rows) - {key} && key in old(rows)
      ensures res.Ok? && StaleOk(old(Snap()), old(root)) ==> StaleOk(Snap(), root)
      ensures res.Ok? ==> RootKept(old(Snap()), Snap(), old(root), root)
      ensures res.Err? ==> root == old(root) && info == old(info)
      ensures res.Err? ==>
                && LeftShort(old(pages), pages, old(rows), rows, p, key)
                && BTreeShape.Valid(pages, info, root, numPages, {p}) && Holds(pages, info, rows)
      ensures Grew(old(pages), old(numPages), pages, numPages)
    {
      ghost var a, t := Snap(), root;
      var nd := pages[p];
      var es := RemoveAt(nd.entries, x);
      pages := pages[p := Leaf(nd.parent, es)];
      rows := rows - {key};
      ghost var c := Snap();
      RemoveEntry(a, c, p, key, x, t);
      if p != root && |es| < MIN_KEYS {
        var repaired := HandleLeafUnderflow(p);
        if repaired.Err? {
          rows := FailedDelete(a, c, pages, p, x, t);
          return Err(repaired.error);
        }
        DeleteSettled(a, c, Snap(), p, t, root);
      } else {
        DeleteRoomy(a, c, p, key, t);
      }
      res := Ok(());
    }
  }
}
