/** Entry sizes for which no page ever runs out of room, and a tree that loses rows. */
module BTreeBounds {
  import opened BTreeShape
  import opened BTreeSplit
  import opened BTreeRoot
  import opened BTreeLimits
  import opened BTreeLink
  import opened BTreeInsert

  /** Every entry takes at most `size` bytes. */
  ghost predicate AtMost(es: seq<Entry>, size: nat) {
    forall i :: 0 <= i < |es| ==> EntrySize(es[i]) <= size
  }

  lemma {:induction false} BytesAtMost(es: seq<Entry>, size: nat)
    requires AtMost(es, size)
    ensures EntryBytes(es) <= size * |es|
  {
    if es != [] {
      BytesAtMost(es[..|es| - 1], size);
    }
  }

  lemma HalfRoom(h: seq<Entry>, o: seq<Entry>, data: seq<byte>)
    requires AtMost(h, 200) && ENTRY_HEADER + |data| <= 200 && |h| <= |o| + 1
    requires HEADER_SIZE + EntryBytes(h) + EntryBytes(o) <= PAGE_SIZE
    ensures HasRoom(h, data)
  {
    BytesAtMost(h, 200);
    EntryCount(o);
  }

  lemma {:induction false} HalvesBytes(es: seq<Entry>, s: nat)
    requires s <= |es|
    ensures EntryBytes(es[..s]) + EntryBytes(es[s..]) == EntryBytes(es)
  {
    EntryBytesAppend(es[..s], es[s..]);
    assert es[..s] + es[s..] == es;
  }

  /** Entries of at most 200 bytes fit after one split, and never block. */
  lemma OneSplitSuffices(es: seq<Entry>, key: int, data: seq<byte>)
    requires FitsPage(es) && AtMost(es, 200) && ENTRY_HEADER + |data| <= 200
    ensures Splits(es, key, data) <= 1 && !Stuck(es, key, data)
  {
    if !HasRoom(es, data) {
      BytesAtMost(es, 200);
      var s := |es| / 2;
      HalvesBytes(es, s);
      if key < es[s].key {
        HalfRoom(es[..s], es[s..], data);
      } else {
        HalfRoom(es[s..], es[..s], data);
      }
    }
  }

  // ---------------------------------------------------------------- a tree that loses rows

  /** `n` rows of fifty-two zero bytes, under the keys 0, 1, 2, ... */
  function SmallRows(n: nat): seq<Entry> {
    seq(n, i => Entry(i, SmallRow(i)))
  }

  function SmallRow(i: int): (row: seq<byte>)
    ensures |row| == 52
  {
    seq(52, _ => 0)
  }

  /** What merging two leaves under the root leaves behind: leaf 1 with `n` such rows is the
      root and still names the old root, page 3, as its parent; page 2 was merged away. */
  function PromotedLeaf(n: nat, gone: seq<Entry>): Tree {
    Tree(map[1 := Leaf(3, SmallRows(n)), 2 := Leaf(3, gone), 3 := Internal(0, [], [1])], map[1 := Info(0, KEY_MIN, KEY_END)],
         map i: int | 0 <= i < n :: SmallRow(i), 4)
  }

  lemma {:induction false} SmallRowsBytes(n: nat)
    ensures EntryBytes(SmallRows(n)) == 64 * n
  {
    if n != 0 {
      var es := SmallRows(n);
      assert es[..n - 1] == SmallRows(n - 1);
      SmallRowsBytes(n - 1);
    }
  }

  lemma {:induction false} SmallRowsListed(n: nat)
    requires n <= 63
    ensures FitsPage(SmallRows(n)) && EntriesOk(SmallRows(n), Info(0, KEY_MIN, KEY_END))
    ensures LeafHolds(SmallRows(n), Info(0, KEY_MIN, KEY_END), map i: int | 0 <= i < n :: SmallRow(i))
  {
    var es := SmallRows(n);
    SmallRowsBytes(n);
    forall k: int | 0 <= k < n
      ensures HasKey(es, k)
    {
      assert es[k].key == k;
    }
  }

  lemma {:induction false} PromotedLeafSound(n: nat, gone: seq<Entry>)
    requires n <= 63
    ensures Sound(PromotedLeaf(n, gone), 1) && StaleOk(PromotedLeaf(n, gone), 1)
  {
    var a := PromotedLeaf(n, gone);
    SmallRowsListed(n);
    assert NodeOk(a.pages, a.info, 1, {}, 1);
  }

  lemma {:induction false} SixtyThreeSplitOnce(data: seq<byte>)
    requires |data| == 52
    ensures !HasRoom(SmallRows(63), data) && Splits(SmallRows(63), 63, data) == 1 && !Stuck(SmallRows(63), 63, data)
  {
    var es := SmallRows(63);
    SmallRowsBytes(63);
    SmallRowsBytes(31);
    HalvesBytes(es, 31);
    assert es[..31] == SmallRows(31);
    assert HalfFor(es, 63) == es[31..];
  }

  /** The state a root collapse leaves behind, grown to a full leaf, loses rows to the next
      insertion: every condition of `Insert` is met, and so is the condition for loss. */
  lemma PromotedLeafLoses(gone: seq<Entry>)
    ensures var a := PromotedLeaf(63, gone);
            && Sound(a, 1) && StaleOk(a, 1) && 63 !in a.rows && IsLeafFor(a.pages, a.info, 1, 63)
            && Splittable(a, 1, 63, SmallRow(63), 1) && Loses(a, 1, 63, SmallRow(63), 1)
  {
    PromotedLeafSound(63, gone);
    SixtyThreeSplitOnce(SmallRow(63));
    var a := PromotedLeaf(63, gone);
    assert Full(a.pages, a.info, 1, 1);
  }

  // ---------------------------------------------------------------- a leaf that cannot be split

  function Zeros(n: nat): (s: seq<byte>)
    ensures |s| == n
  {
    seq(n, _ => 0)
  }

  /** One row of 4000 bytes in a leaf, and a new one of 200: there is no room, and splitting a
      leaf of one entry indexes past the end of the entry list. */
  lemma {:induction false} BigRowIsStuck(key: int)
    ensures var es := [Entry(0, Zeros(4000))];
            FitsPage(es) && Stuck(es, key, Zeros(200))
  {
    var es := [Entry(0, Zeros(4000))];
    assert es[..0] == [];
    assert EntryBytes(es) == EntryBytes([]) + EntrySize(es[0]);
  }
}
