/** UNIQUE columns: the checks of INSERT and UPDATE, and what they guarantee. */
module Unique {
  import opened Rows
  import opened Values
  import opened Cdc
  import opened Queries

  predicate IsUniqueColumn(schema: Schema, ci: nat) {
    ci < |schema.columns| && schema.columns[ci].unique && !schema.columns[ci].primaryKey
  }

  /** Two rows hold the same non-NULL value in a column. */
  predicate Clash(lib: Library, a: Row, b: Row, ci: nat) {
    ci < |a| && ci < |b| && !a[ci].Null? && !b[ci].Null? && Compare(lib, a[ci], b[ci]) == Equal
  }

  ghost predicate ColumnUnique(lib: Library, t: Table, ci: nat) {
    forall k, l :: k in t && l in t && k != l ==> !Clash(lib, t[k], t[l], ci)
  }

  ghost predicate UniqueOk(lib: Library, schema: Schema, t: Table) {
    forall ci :: IsUniqueColumn(schema, ci) ==> ColumnUnique(lib, t, ci)
  }

  lemma ClashFlip(lib: Library, a: Row, b: Row, ci: nat)
    ensures Clash(lib, a, b, ci) <==> Clash(lib, b, a, ci)
  {
    if ci < |a| && ci < |b| {
      CompareFlip(lib, a[ci], b[ci]);
    }
  }

  /** A clash is two values that are there and are the same. */
  lemma ClashMeans(lib: Library, a: Row, b: Row, ci: nat)
    ensures Clash(lib, a, b, ci) <==> ci < |a| && ci < |b| && !a[ci].Null? && !b[ci].Null? && SameValue(lib, a[ci], b[ci])
  {
    if ci < |a| && ci < |b| {
      CompareMeans(lib, a[ci], b[ci]);
    }
  }

  /** The rows hold the same value, not NULL, in a column marked UNIQUE that is not the key. */
  ghost predicate Share(lib: Library, schema: Schema, ci: nat, a: Row, b: Row) {
    && ci < |schema.columns| && schema.columns[ci].unique && !schema.columns[ci].primaryKey
    && ci < |a| && ci < |b| && a[ci] != Null && b[ci] != Null && SameValue(lib, a[ci], b[ci])
  }

  lemma ShareIsClash(lib: Library, schema: Schema, ci: nat, a: Row, b: Row)
    ensures Share(lib, schema, ci, a, b) <==> IsUniqueColumn(schema, ci) && Clash(lib, a, b, ci)
  {
    ClashMeans(lib, a, b, ci);
  }

  /** UNIQUE holds when no two rows share a value. */
  lemma {:induction false} UniqueMeans(lib: Library, schema: Schema, t: Table)
    ensures UniqueOk(lib, schema, t) <==> forall ci: nat, k, l :: k in t && l in t && k != l ==> !Share(lib, schema, ci, t[k], t[l])
  {
    forall ci: nat, k, l | k in t && l in t && k != l && UniqueOk(lib, schema, t)
      ensures !Share(lib, schema, ci, t[k], t[l])
    {
      ShareIsClash(lib, schema, ci, t[k], t[l]);
      assert IsUniqueColumn(schema, ci) ==> ColumnUnique(lib, t, ci);
    }
    if !UniqueOk(lib, schema, t) {
      var ci: nat :| IsUniqueColumn(schema, ci) && !ColumnUnique(lib, t, ci);
      var k, l :| k in t && l in t && k != l && Clash(lib, t[k], t[l], ci);
      ShareIsClash(lib, schema, ci, t[k], t[l]);
    }
  }

  function UniqueColumns(schema: Schema, n: nat): (cs: seq<nat>)
    requires n <= |schema.columns|
    ensures forall ci: nat :: ci in cs <==> ci < n && IsUniqueColumn(schema, ci)
  {
    if n == 0 then []
    else if IsUniqueColumn(schema, n - 1) then UniqueColumns(schema, n - 1) + [n - 1]
    else UniqueColumns(schema, n - 1)
  }

  // ---------------------------------------------------------------- INSERT

  ghost predicate Fresh(lib: Library, schema: Schema, rows: seq<(int, Row)>, row: Row) {
    forall i, ci :: 0 <= i < |rows| && IsUniqueColumn(schema, ci) ==> !Clash(lib, rows[i].1, row, ci)
  }

  /** A row is fresh when it shares no value with a stored one. */
  lemma {:induction false} FreshMeans(lib: Library, schema: Schema, t: Table, scan: seq<(int, Row)>, row: Row)
    requires IsScan(t, scan)
    ensures Fresh(lib, schema, scan, row) <==> forall ci: nat, k :: k in t ==> !Share(lib, schema, ci, t[k], row)
  {
    forall ci: nat, k | k in t && Fresh(lib, schema, scan, row)
      ensures !Share(lib, schema, ci, t[k], row)
    {
      var i := PlaceOf(scan, (k, t[k]));
      ShareIsClash(lib, schema, ci, scan[i].1, row);
    }
    if !Fresh(lib, schema, scan, row) {
      var i, ci :| 0 <= i < |scan| && IsUniqueColumn(schema, ci) && Clash(lib, scan[i].1, row, ci);
      ShareIsClash(lib, schema, ci, t[scan[i].0], row);
    }
  }

  /** Compares the new row with every stored one, column by column. */
  method CheckInsertUnique(lib: Library, schema: Schema, scan: seq<(int, Row)>, row: Row) returns (ok: bool)
    ensures ok <==> Fresh(lib, schema, scan, row)
  {
    var cols := UniqueColumns(schema, |schema.columns|);
    for i := 0 to |scan|
      invariant Fresh(lib, schema, scan[..i], row)
    {
      for c := 0 to |cols|
        invariant forall d :: 0 <= d < c ==> !Clash(lib, scan[i].1, row, cols[d])
      {
        if Clash(lib, scan[i].1, row, cols[c]) {
          assert cols[c] in cols;
          return false;
        }
      }
      forall ci | IsUniqueColumn(schema, ci)
        ensures !Clash(lib, scan[i].1, row, ci)
      {
        assert ci in cols;
      }
    }
    assert scan[..|scan|] == scan;
    return true;
  }

  /** Adding a row under a new key keeps UNIQUE exactly when the check lets it through. */
  lemma {:induction false} InsertKeepsUnique(lib: Library, schema: Schema, t: Table, scan: seq<(int, Row)>, k: int, row: Row)
    requires UniqueOk(lib, schema, t) && IsScan(t, scan) && k !in t
    ensures UniqueOk(lib, schema, t[k := row]) <==> Fresh(lib, schema, scan, row)
  {
    var t' := t[k := row];
    if Fresh(lib, schema, scan, row) {
      forall ci, x, y | IsUniqueColumn(schema, ci) && x in t' && y in t' && x != y
        ensures !Clash(lib, t'[x], t'[y], ci)
      {
        if x == k {
          ClashFlip(lib, t'[x], t'[y], ci);
          assert (y, t[y]) in scan;
        } else if y == k {
          assert (x, t[x]) in scan;
        } else {
          assert ColumnUnique(lib, t, ci);
        }
      }
    } else {
      var i, ci :| 0 <= i < |scan| && IsUniqueColumn(schema, ci) && Clash(lib, scan[i].1, row, ci);
      assert Clash(lib, t'[scan[i].0], t'[k], ci);
    }
  }

  // ---------------------------------------------------------------- sort, then compare neighbours

  type Same = (Value, Value) -> bool

  ghost function SameBy(lib: Library): Same {
    (a: Value, b: Value) => Compare(lib, a, b) == Equal
  }

  ghost predicate Repeats(same: Same, s: seq<Value>) {
    exists i, j :: 0 <= i < j < |s| && same(s[i], s[j])
  }

  ghost predicate Occurs(same: Same, s: seq<Value>, v: Value) {
    exists i :: 0 <= i < |s| && same(s[i], v)
  }

  ghost predicate HasEqual(lib: Library, s: seq<Value>) {
    Repeats(SameBy(lib), s)
  }

  ghost predicate EqualsSome(lib: Library, s: seq<Value>, v: Value) {
    Occurs(SameBy(lib), s, v)
  }

  ghost predicate Sorted(lib: Library, s: seq<Value>) {
    forall i, j :: 0 <= i < j < |s| ==> Compare(lib, s[i], s[j]) != Greater
  }

  lemma {:induction false} RepeatsStay(same: Same, a: seq<Value>, v: Value, b: seq<Value>)
    requires Repeats(same, a + b)
    ensures Repeats(same, a + [v] + b)
  {
    var s, t := a + [v] + b, a + b;
    var i, j :| 0 <= i < j < |t| && same(t[i], t[j]);
    var x, y := if i < |a| then i else i + 1, if j < |a| then j else j + 1;
    assert s[x] == t[i] && s[y] == t[j];
  }

  lemma {:induction false} OccursRepeats(same: Same, a: seq<Value>, v: Value, b: seq<Value>)
    requires Occurs(same, a + b, v) && forall x, y :: same(x, y) ==> same(y, x)
    ensures Repeats(same, a + [v] + b)
  {
    var s, t := a + [v] + b, a + b;
    var i :| 0 <= i < |t| && same(t[i], v);
    assert s[|a|] == v;
    if i < |a| {
      assert s[i] == t[i];
    } else {
      assert s[i + 1] == t[i];
    }
  }

  lemma {:induction false} RepeatsCome(same: Same, a: seq<Value>, v: Value, b: seq<Value>)
    requires Repeats(same, a + [v] + b) && forall x, y :: same(x, y) ==> same(y, x)
    ensures Repeats(same, a + b) || Occurs(same, a + b, v)
  {
    var s, t := a + [v] + b, a + b;
    var i, j :| 0 <= i < j < |s| && same(s[i], s[j]);
    var x, y := if i <= |a| then i else i - 1, if j <= |a| then j else j - 1;
    if i == |a| {
      assert t[y] == s[j];
    } else if j == |a| {
      assert t[x] == s[i];
    } else {
      assert t[x] == s[i] && t[y] == s[j];
    }
  }

  /** A value put in anywhere repeats exactly when it equals one that is there. */
  lemma {:induction false} HasEqualWith(lib: Library, a: seq<Value>, v: Value, b: seq<Value>)
    ensures HasEqual(lib, a + [v] + b) <==> HasEqual(lib, a + b) || EqualsSome(lib, a + b, v)
  {
    var same := SameBy(lib);
    forall x, y | same(x, y)
      ensures same(y, x)
    {
      CompareFlip(lib, x, y);
    }
    if HasEqual(lib, a + b) {
      RepeatsStay(same, a, v, b);
    }
    if EqualsSome(lib, a + b, v) {
      OccursRepeats(same, a, v, b);
    }
    if HasEqual(lib, a + [v] + b) {
      RepeatsCome(same, a, v, b);
    }
  }

  lemma {:induction false} OccursShuffled(same: Same, s: seq<Value>, t: seq<Value>, v: Value)
    requires multiset(s) == multiset(t) && Occurs(same, s, v)
    ensures Occurs(same, t, v)
  {
    var i :| 0 <= i < |s| && same(s[i], v);
    assert s[i] in multiset(s);
    assert s[i] in t;
  }

  lemma {:induction false} EqualsSomeShuffled(lib: Library, s: seq<Value>, t: seq<Value>, v: Value)
    requires multiset(s) == multiset(t)
    ensures EqualsSome(lib, s, v) <==> EqualsSome(lib, t, v)
  {
    if EqualsSome(lib, s, v) {
      OccursShuffled(SameBy(lib), s, t, v);
    }
    if EqualsSome(lib, t, v) {
      OccursShuffled(SameBy(lib), t, s, v);
    }
  }

  lemma {:induction false} PutInPlace(lib: Library, vs: seq<Value>, s: seq<Value>, j: nat, v: Value)
    requires multiset(s) == multiset(vs) && (HasEqual(lib, s) <==> HasEqual(lib, vs)) && j <= |s|
    ensures multiset(s[..j] + [v] + s[j..]) == multiset(vs + [v])
    ensures HasEqual(lib, s[..j] + [v] + s[j..]) <==> HasEqual(lib, vs + [v])
  {
    var a, b := s[..j], s[j..];
    assert a + b == s;
    PutAnywhere(lib, vs, a, b, v);
  }

  lemma {:induction false} PutAnywhere(lib: Library, vs: seq<Value>, a: seq<Value>, b: seq<Value>, v: Value)
    requires multiset(a + b) == multiset(vs) && (HasEqual(lib, a + b) <==> HasEqual(lib, vs))
    ensures multiset(a + [v] + b) == multiset(vs + [v])
    ensures HasEqual(lib, a + [v] + b) <==> HasEqual(lib, vs + [v])
  {
    HasEqualWith(lib, a, v, b);
    HasEqualWith(lib, vs, v, []);
    assert vs + [] == vs && vs + [v] + [] == vs + [v];
    EqualsSomeShuffled(lib, a + b, vs, v);
  }

  method Sort(lib: Library, vs: seq<Value>) returns (s: seq<Value>)
    ensures Sorted(lib, s) && multiset(s) == multiset(vs)
    ensures HasEqual(lib, s) <==> HasEqual(lib, vs)
  {
    s := [];
    for i := 0 to |vs|
      invariant Sorted(lib, s) && multiset(s) == multiset(vs[..i])
      invariant HasEqual(lib, s) <==> HasEqual(lib, vs[..i])
    {
      var v := vs[i];
      var j := Place(lib, s, v);
      assert vs[..i + 1] == vs[..i] + [v];
      PutInPlace(lib, vs[..i], s, j, v);
      s := s[..j] + [v] + s[j..];
    }
    assert vs[..|vs|] == vs;
  }

  /** Where `v` goes in a sorted sequence. */
  method Place(lib: Library, s: seq<Value>, v: Value) returns (j: nat)
    requires Sorted(lib, s)
    ensures j <= |s| && Sorted(lib, s[..j] + [v] + s[j..])
  {
    j := 0;
    while j < |s| && Compare(lib, s[j], v) != Greater
      invariant j <= |s| && forall i :: 0 <= i < j ==> Compare(lib, s[i], v) != Greater
    {
      j := j + 1;
    }
    forall i | j <= i < |s|
      ensures Compare(lib, v, s[i]) != Greater
    {
      CompareFlip(lib, s[j], v);
      if j < i {
        CompareChain(lib, v, s[j], s[i]);
      }
    }
  }

  /** In a sorted sequence a repeated value has an equal neighbour. */
  lemma {:induction false} EqualNeighbours(lib: Library, s: seq<Value>)
    requires Sorted(lib, s)
    ensures HasEqual(lib, s) <==> exists i :: 0 <= i < |s| - 1 && Compare(lib, s[i], s[i + 1]) == Equal
  {
    if HasEqual(lib, s) {
      var i, j :| 0 <= i < j < |s| && Compare(lib, s[i], s[j]) == Equal;
      if i + 1 < j {
        CompareChain(lib, s[i], s[i + 1], s[j]);
      }
    }
  }

  method NoRepeats(lib: Library, vs: seq<Value>) returns (ok: bool)
    ensures ok <==> !HasEqual(lib, vs)
  {
    var s := Sort(lib, vs);
    EqualNeighbours(lib, s);
    var i := 0;
    while i + 1 < |s|
      invariant forall x :: 0 <= x < i && x < |s| - 1 ==> Compare(lib, s[x], s[x + 1]) != Equal
    {
      if Compare(lib, s[i], s[i + 1]) == Equal {
        return false;
      }
      i := i + 1;
    }
    return true;
  }

  // ---------------------------------------------------------------- UPDATE

  /** The non-NULL values of a column. */
  function NonNulls(rows: seq<Row>, ci: nat): seq<Value>
    decreases |rows|
  {
    if rows == [] then []
    else
      var front, last := NonNulls(rows[..|rows| - 1], ci), rows[|rows| - 1];
      if ci < |last| && !last[ci].Null? then front + [last[ci]] else front
  }

  ghost predicate ClashAmong(lib: Library, rows: seq<Row>, ci: nat) {
    exists i, j :: 0 <= i < j < |rows| && Clash(lib, rows[i], rows[j], ci)
  }

  lemma {:induction false} NonNullsHave(lib: Library, rows: seq<Row>, ci: nat, v: Value)
    ensures EqualsSome(lib, NonNulls(rows, ci), v) <==> exists i :: 0 <= i < |rows| && ci < |rows[i]| && !rows[i][ci].Null? && Compare(lib, rows[i][ci], v) == Equal
    decreases |rows|
  {
    if rows != [] {
      var front, last := rows[..|rows| - 1], rows[|rows| - 1];
      NonNullsHave(lib, front, ci, v);
      var f := NonNulls(front, ci);
      if ci < |last| && !last[ci].Null? {
        assert (f + [last[ci]])[|f|] == last[ci];
        assert forall i :: 0 <= i < |f| ==> (f + [last[ci]])[i] == f[i];
      }
      assert forall i :: 0 <= i < |front| ==> front[i] == rows[i];
    }
  }

  lemma {:induction false} NonNullsRepeat(lib: Library, rows: seq<Row>, ci: nat)
    ensures HasEqual(lib, NonNulls(rows, ci)) <==> ClashAmong(lib, rows, ci)
    decreases |rows|
  {
    if rows != [] {
      var front, last := rows[..|rows| - 1], rows[|rows| - 1];
      NonNullsRepeat(lib, front, ci);
      assert forall i :: 0 <= i < |front| ==> front[i] == rows[i];
      var f := NonNulls(front, ci);
      if ci < |last| && !last[ci].Null? {
        NonNullsHave(lib, front, ci, last[ci]);
        HasEqualWith(lib, f, last[ci], []);
        assert f + [] == f && f + [last[ci]] + [] == f + [last[ci]];
      }
    }
  }

  /** Accepts the rows exactly when no two of them clash in any of the columns. */
  method CheckUnique(lib: Library, cols: seq<nat>, rows: seq<Row>) returns (ok: bool)
    ensures ok <==> forall ci :: ci in cols ==> !ClashAmong(lib, rows, ci)
  {
    for c := 0 to |cols|
      invariant forall d :: 0 <= d < c ==> !ClashAmong(lib, rows, cols[d])
    {
      NonNullsRepeat(lib, rows, cols[c]);
      ok := NoRepeats(lib, NonNulls(rows, cols[c]));
      if !ok {
        return;
      }
    }
    return true;
  }
}
