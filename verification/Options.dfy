/** Values that may be missing. */
module Options {
  datatype Option<+T> = None | Some(value: T)
}

/** Operations that may fail. */
module Results {
  /** PageFull is the source's storage error of the B-tree; OutOfBounds is where it would panic;
      Invalid stands for every error that a statement's own values cause. */
  datatype Error = Corruption | PageFull | OutOfBounds | Invalid

  datatype Result<+T> = Ok(value: T) | Err(error: Error)
}

/** Increasing sequences, and the keys of an ordered map. */
module Ordered {
  lemma SomeKey(keys: set<int>)
    ensures keys == {} || exists k :: k in keys
  {
    if forall k: int :: k !in keys {
      assert keys == {};
    }
  }

  method Least(keys: set<int>) returns (k: int)
    requires keys != {}
    ensures k in keys && forall j :: j in keys ==> k <= j
  {
    SomeKey(keys);
    k :| k in keys;
    var todo := keys - {k};
    while todo != {}
      invariant todo <= keys && k in keys
      invariant forall j :: j in keys && j !in todo ==> k <= j
    {
      SomeKey(todo);
      var j :| j in todo;
      if j < k {
        k := j;
      }
      todo := todo - {j};
    }
  }

  ghost predicate Increasing(ks: seq<int>) {
    forall i, j :: 0 <= i < j < |ks| ==> ks[i] < ks[j]
  }

  /** The keys of an ordered map, in its order of iteration. */
  method InOrder(keys: set<int>) returns (ks: seq<int>)
    ensures Increasing(ks) && forall k :: k in keys <==> k in ks
  {
    ks := [];
    var todo := keys;
    while todo != {}
      invariant todo <= keys && Increasing(ks)
      invariant forall k :: k in keys <==> k in ks || k in todo
      invariant forall j, k :: j in ks && k in todo ==> j < k
    {
      var k := Least(todo);
      assert forall i :: 0 <= i < |ks| ==> ks[i] in ks;
      ks := ks + [k];
      todo := todo - {k};
    }
  }
}
