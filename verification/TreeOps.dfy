/** Runs of insertions and deletions on one tree, as a statement makes them. */
module TreeOps {
  import opened Results
  import opened BTreeShape
  import opened BTreeLimits
  import opened BTreeLink
  import opened BTreeInsert
  import opened BTreeRepair
  import opened BTreeIndex

  datatype TreeOp = Put(key: int, data: seq<byte>) | Take(key: int)

  function AfterOp(rows: Rows, op: TreeOp): Rows {
    match op
    case Put(k, data) => rows[k := data]
    case Take(k) => rows - {k}
  }

  function AfterOps(rows: Rows, ops: seq<TreeOp>): Rows {
    if ops == [] then rows else AfterOp(AfterOps(rows, ops[..|ops| - 1]), ops[|ops| - 1])
  }

  /** Tree `a` with root `t` becomes `b` with root `u`: what `Insert` and `Delete` promise when
      they succeed, for an insertion that loses nothing. */
  ghost predicate OpDone(a: Tree, t: PageId, op: TreeOp, b: Tree, u: PageId) {
    && Sound(a, t) && Sound(b, u) && Grew(a.pages, a.n, b.pages, b.n) && KEY_MIN <= op.key < KEY_END
    && match op
       case Put(k, data) =>
         && k !in a.rows && OutcomeAtLeaf(a, b, k, data, t, u, true)
         && forall p :: IsLeafFor(a.pages, a.info, p, k) ==> !Loses(a, p, k, data, t)
       case Take(k) => b.rows == a.rows - {k}
  }

  /** The rows change as a map does. */
  lemma {:induction false} OpRows(a: Tree, t: PageId, op: TreeOp, b: Tree, u: PageId)
    requires OpDone(a, t, op, b, u)
    ensures b.rows == AfterOp(a.rows, op)
  {
    if op.Put? {
      var p := LeafFor(a, t, op.key, t);
      assert Outcome(a, b, p, op.key, op.data, t, u, true);
    }
  }

  method PutRow(t: BTree, key: int, data: seq<byte>) returns (res: Result<()>)
    requires t.Valid() && KEY_MIN <= key < KEY_END && key !in t.rows
    requires forall p :: IsLeafFor(t.pages, t.info, p, key) && !HasRoom(t.pages[p].entries, data) ==> Splittable(t.Snap(), p, key, data, t.root)
    modifies t
    ensures t.Valid()
    ensures res.Ok? && (forall p :: IsLeafFor(old(t.pages), old(t.info), p, key) ==> !Loses(old(t.Snap()), p, key, data, old(t.root))) ==>
              OpDone(old(t.Snap()), old(t.root), Put(key, data), t.Snap(), t.root)
  {
    res := t.Insert(key, data);
  }

  method TakeRow(t: BTree, key: int) returns (res: Result<bool>)
    requires t.Valid() && KEY_MIN <= key < KEY_END
    modifies t
    ensures forall p :: IsLeafFor(old(t.pages), old(t.info), p, key) ==> (res.Err? <==> DeleteOverflows(old(t.pages), old(t.root), p, key))
    ensures res.Ok? ==> t.Valid() && OpDone(old(t.Snap()), old(t.root), Take(key), t.Snap(), t.root)
  {
    res := t.Delete(key);
  }

  /** The trees and roots of a run, one more than its operations. */
  ghost predicate IsOpRun(ts: seq<Tree>, us: seq<PageId>, ops: seq<TreeOp>) {
    |ts| == |us| == |ops| + 1 && forall i :: 0 <= i < |ops| ==> OpDone(ts[i], us[i], ops[i], ts[i + 1], us[i + 1])
  }

  lemma {:induction false} OpRunRows(ts: seq<Tree>, us: seq<PageId>, ops: seq<TreeOp>, n: nat)
    requires IsOpRun(ts, us, ops) && n <= |ops| && Sound(ts[0], us[0])
    ensures Sound(ts[n], us[n]) && Grew(ts[0].pages, ts[0].n, ts[n].pages, ts[n].n)
    ensures ts[n].rows == AfterOps(ts[0].rows, ops[..n])
    decreases n
  {
    if n != 0 {
      OpRunRows(ts, us, ops, n - 1);
      assert OpDone(ts[n - 1], us[n - 1], ops[n - 1], ts[n - 1 + 1], us[n - 1 + 1]);
      OpRows(ts[n - 1], us[n - 1], ops[n - 1], ts[n], us[n]);
      GrewTwice(ts[0].pages, ts[0].n, ts[n - 1].pages, ts[n - 1].n, ts[n].pages, ts[n].n);
      assert ops[..n][..n - 1] == ops[..n - 1];
    }
  }
}
