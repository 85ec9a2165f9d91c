/** Table locks: shared or exclusive, one entry per transaction and resource. */
module Locks {
  datatype Mode = Shared | Exclusive

  datatype LockEntry = LockEntry(txn: nat, mode: Mode)

  /** Exclusion: nobody holds a resource twice, and an exclusive holder is alone. */
  ghost predicate Excludes(es: seq<LockEntry>) {
    && (forall i, j :: 0 <= i < j < |es| ==> es[i].txn != es[j].txn)
    && (forall i :: 0 <= i < |es| && es[i].mode.Exclusive? ==> |es| == 1)
  }

  /** No other transaction stands in the way. */
  ghost predicate Grantable(es: seq<LockEntry>, txn: nat, mode: Mode) {
    forall i :: 0 <= i < |es| ==> es[i].txn == txn || (mode.Shared? && es[i].mode.Shared?)
  }

  /** `txn` holds the resource in this mode or a stronger one. */
  ghost predicate Covered(es: seq<LockEntry>, txn: nat, mode: Mode) {
    exists i :: 0 <= i < |es| && es[i].txn == txn && (es[i].mode.Exclusive? || mode.Shared?)
  }

  function Without(es: seq<LockEntry>, txn: nat): (r: seq<LockEntry>)
    ensures forall e :: e in r <==> e in es && e.txn != txn
    ensures Excludes(es) ==> Excludes(r)
    ensures |r| <= |es|
  {
    if es == [] then []
    else
      var front, last := Without(es[..|es| - 1], txn), es[|es| - 1];
      assert es == es[..|es| - 1] + [last];
      assert Excludes(es) ==> Excludes(es[..|es| - 1]);
      assert Excludes(es) ==> forall i :: 0 <= i < |front| ==> front[i] in es[..|es| - 1];
      if last.txn != txn then front + [last] else front
  }

  ghost predicate Dropped(before: seq<LockEntry>, after: seq<LockEntry>, txn: nat) {
    forall e :: e in after <==> e in before && e.txn != txn
  }

  /** One attempt. It succeeds exactly when no other transaction stands in the way, and then the
      lock is held, in the mode asked for unless a stronger one was held already, and everybody
      else's locks are what they were. */
  method TryAcquire(es: seq<LockEntry>, txn: nat, mode: Mode) returns (ok: bool, es': seq<LockEntry>)
    requires Excludes(es)
    ensures Excludes(es') && (ok <==> Grantable(es, txn, mode))
    ensures ok ==> Covered(es', txn, mode) && forall e: LockEntry :: e.txn != txn ==> (e in es' <==> e in es)
    ensures ok ==> if Covered(es, txn, mode) then es' == es else LockEntry(txn, mode) in es'
    ensures !ok ==> es' == es
  {
    es' := es;
    for i := 0 to |es|
      invariant es' == es && (0 < i ==> mode.Shared?)
      invariant forall j :: 0 <= j < i ==> es[j].txn != txn && es[j].mode.Shared?
    {
      var e := es[i];
      if e.txn == txn {
        if e.mode.Exclusive? || mode.Shared? {
          return true, es;
        }
        if exists j :: 0 <= j < |es| && es[j].txn != txn {
          return false, es;
        }
        es' := [LockEntry(txn, mode)];
        assert es'[0] == LockEntry(txn, mode);
        return true, es';
      } else if mode.Exclusive? || e.mode.Exclusive? {
        return false, es;
      }
    }
    es' := es + [LockEntry(txn, mode)];
    assert es'[|es|] == LockEntry(txn, mode);
    ok := true;
  }

  class LockManager {
    var locks: map<string, seq<LockEntry>>

    function HeldOn(resource: string): seq<LockEntry>
      reads this
    {
      if resource in locks then locks[resource] else []
    }

    ghost predicate Valid()
      reads this
    {
      forall r :: r in locks ==> Excludes(locks[r])
    }

    constructor ()
      ensures Valid() && locks == map[]
    {
      locks := map[];
    }

    method Acquire(resource: string, txn: nat, mode: Mode) returns (ok: bool)
      requires Valid()
      modifies this
      ensures Valid() && (ok <==> Grantable(old(HeldOn(resource)), txn, mode))
      ensures ok ==> Covered(HeldOn(resource), txn, mode)
      ensures if ok && !Covered(old(HeldOn(resource)), txn, mode) then LockEntry(txn, mode) in HeldOn(resource) else HeldOn(resource) == old(HeldOn(resource))
      ensures forall e: LockEntry :: e.txn != txn ==> (e in HeldOn(resource) <==> e in old(HeldOn(resource)))
      ensures forall r :: r != resource ==> HeldOn(r) == old(HeldOn(r))
    {
      var es;
      ok, es := TryAcquire(HeldOn(resource), txn, mode);
      locks := locks[resource := es];
    }

    method Release(resource: string, txn: nat)
      requires Valid()
      modifies this
      ensures Valid() && Dropped(old(HeldOn(resource)), HeldOn(resource), txn)
      ensures forall r :: r != resource ==> HeldOn(r) == old(HeldOn(r))
      ensures locks.Keys <= old(locks.Keys)
    {
      if resource in locks {
        var es := Without(locks[resource], txn);
        locks := if es == [] then locks - {resource} else locks[resource := es];
      }
    }

    /** Afterwards the transaction holds nothing, and the others hold what they held. */
    method ReleaseAll(txn: nat)
      requires Valid()
      modifies this
      ensures Valid() && forall r :: Dropped(old(HeldOn(r)), HeldOn(r), txn)
    {
      var todo := locks.Keys;
      while todo != {}
        invariant Valid() && todo <= old(locks.Keys) && locks.Keys <= old(locks.Keys)
        invariant forall r :: r in todo ==> HeldOn(r) == old(HeldOn(r))
        invariant forall r :: r !in todo ==> Dropped(old(HeldOn(r)), HeldOn(r), txn)
      {
        var r :| r in todo;
        Release(r, txn);
        todo := todo - {r};
      }
    }
  }

  /** Mutual exclusion: while one transaction covers a resource exclusively, no other holds it. */
  lemma ExclusiveIsAlone(es: seq<LockEntry>, txn: nat, other: nat)
    requires Excludes(es) && Covered(es, txn, Exclusive) && other != txn
    ensures !Covered(es, other, Shared)
  {
  }
}
