/** INSERT, UPDATE and DELETE on tables, and the changes they capture. */
module Dml {
  import opened Options
  import opened Rows
  import opened Values
  import opened Cdc
  import opened Queries
  import opened Unique

  // ---------------------------------------------------------------- INSERT

  /** NULL everywhere, then the listed values in order: a column listed twice takes the last. */
  function RowFrom(schema: Schema, names: seq<string>, values: seq<Value>): (row: Row)
    requires |names| == |values|
    ensures |row| == |schema.columns|
    decreases |names|
  {
    if names == [] then seq(|schema.columns|, _ => Null)
    else
      var row := RowFrom(schema, names[..|names| - 1], values[..|values| - 1]);
      var p := Position(schema.columns, names[|names| - 1]);
      if p.None? then row else row[p.value := values[|values| - 1]]
  }

  /** The first place in the list that names the column. */
  function FirstNamed(names: seq<string>, name: string): (r: Option<nat>)
    ensures r.Some? ==> r.value < |names| && names[r.value] == name && forall i :: 0 <= i < r.value ==> names[i] != name
    ensures r.None? ==> name !in names
    decreases |names|
  {
    if names == [] then None
    else if names[0] == name then Some(0)
    else
      var r := FirstNamed(names[1..], name);
      assert names == [names[0]] + names[1..];
      if r.Some? then Some(r.value + 1) else None
  }

  /** The last place in the list that names the column. */
  function LastNamed(names: seq<string>, name: string): (r: Option<nat>)
    ensures r.Some? ==> r.value < |names| && names[r.value] == name && forall i :: r.value < i < |names| ==> names[i] != name
    ensures r.None? ==> name !in names
    decreases |names|
  {
    if names == [] then None
    else if names[|names| - 1] == name then Some(|names| - 1)
    else
      var r := LastNamed(names[..|names| - 1], name);
      assert names == names[..|names| - 1] + [names[|names| - 1]];
      r
  }

  datatype Inserting = Row(key: int, row: Row) | Refused

  predicate NullRefused(schema: Schema, names: seq<string>, values: seq<Value>)
    requires |names| == |values|
  {
    exists i :: 0 <= i < |names| && values[i].Null? && var p := Position(schema.columns, names[i]); p.Some? && schema.columns[p.value].notNull
  }

  /** A value for a vector column must be NULL or a vector of its dimension. */
  predicate VectorRefused(schema: Schema, names: seq<string>, values: seq<Value>)
    requires |names| == |values|
  {
    exists i :: 0 <= i < |names| && var p := Position(schema.columns, names[i]); p.Some? && WrongVector(schema.columns[p.value], values[i])
  }

  predicate WrongVector(c: Column, v: Value) {
    c.dimension.Some? && !v.Null? && !(v.Vector? && |v.parts| == c.dimension.value)
  }

  /** The key and the row that an INSERT would store, before uniqueness is looked at. */
  function InsertedRow(schema: Schema, names: seq<string>, values: seq<Value>): Inserting {
    if |names| != |values| || KeyColumn(schema.columns).None? then Refused
    else
      var first := FirstNamed(names, schema.columns[KeyColumn(schema.columns).value].name);
      if first.None? || !values[first.value].Integer? || NullRefused(schema, names, values) || VectorRefused(schema, names, values) then Refused
      else Inserting.Row(values[first.value].i, RowFrom(schema, names, values))
  }

  /** A value that the column does not take: NULL where it must not be, or anything but NULL and a
      vector of the right length in a vector column. */
  ghost predicate NotTaken(c: Column, v: Value) {
    || (v == Null && c.notNull)
    || (c.dimension.Some? && v != Null && (v.Vector? ==> |v.parts| != c.dimension.value))
  }

  /** INSERT refuses exactly: lists of different lengths, a table without key, a list that does not
      name the key or first gives it no integer, and a value that its column does not take. */
  lemma {:induction false} RefusedMeans(schema: Schema, names: seq<string>, values: seq<Value>)
    requires DistinctNames(schema.columns)
    ensures InsertedRow(schema, names, values).Refused? <==>
            || |names| != |values|
            || (forall p :: 0 <= p < |schema.columns| ==> !schema.columns[p].primaryKey)
            || (var pk := schema.columns[KeyColumn(schema.columns).value].name;
                || pk !in names
                || exists i :: 0 <= i < |names| && names[i] == pk && (forall j :: 0 <= j < i ==> names[j] != pk) && !values[i].Integer?)
            || (exists i: nat, p: nat :: BadValue(schema, names, values, i, p))
  {
    if |names| == |values| && KeyColumn(schema.columns).Some? {
      var pk := schema.columns[KeyColumn(schema.columns).value].name;
      ValuesTaken(schema, names, values);
    }
  }

  /** The list gives column `p`, in place `i`, a value that it does not take. */
  ghost predicate BadValue(schema: Schema, names: seq<string>, values: seq<Value>, i: nat, p: nat)
    requires |names| == |values|
  {
    i < |names| && p < |schema.columns| && names[i] == schema.columns[p].name && NotTaken(schema.columns[p], values[i])
  }

  lemma {:induction false} ValuesTaken(schema: Schema, names: seq<string>, values: seq<Value>)
    requires |names| == |values| && DistinctNames(schema.columns)
    ensures NullRefused(schema, names, values) || VectorRefused(schema, names, values) <==> exists i: nat, p: nat :: BadValue(schema, names, values, i, p)
  {
    if i: nat, p: nat :| BadValue(schema, names, values, i, p) {
      assert Position(schema.columns, names[i]) == Some(p);
    } else {
      forall i: nat | i < |names| && Position(schema.columns, names[i]).Some?
        ensures var c := schema.columns[Position(schema.columns, names[i]).value]; !NotTaken(c, values[i])
      {
        assert !BadValue(schema, names, values, i, Position(schema.columns, names[i]).value);
      }
    }
  }

  lemma {:induction false} RowFromAt(schema: Schema, names: seq<string>, values: seq<Value>, p: nat)
    requires |names| == |values| && DistinctNames(schema.columns) && p < |schema.columns|
    ensures var last := LastNamed(names, schema.columns[p].name);
            RowFrom(schema, names, values)[p] == if last.Some? then values[last.value] else Null
    decreases |names|
  {
    if names != [] {
      RowFromAt(schema, names[..|names| - 1], values[..|values| - 1], p);
      var q := Position(schema.columns, names[|names| - 1]);
      if q.Some? && q.value != p {
        assert schema.columns[p].name != names[|names| - 1];
      }
    }
  }

  /** The stored row carries its key exactly when the first and the last value given for the
      key column agree: naming the key column twice can break it. */
  lemma {:induction false} InsertKeyed(schema: Schema, names: seq<string>, values: seq<Value>)
    requires DistinctNames(schema.columns) && InsertedRow(schema, names, values).Row?
    ensures var ins, name := InsertedRow(schema, names, values), schema.columns[KeyColumn(schema.columns).value].name;
            && FirstNamed(names, name).Some? && LastNamed(names, name).Some?
            && (RowOk(schema, ins.key, ins.row) <==> values[LastNamed(names, name).value] == values[FirstNamed(names, name).value])
  {
    RowFromAt(schema, names, values, KeyColumn(schema.columns).value);
  }

  /** A list that names every column at most once, as the list of all columns does, is safe. */
  lemma {:induction false} DistinctListKeyed(schema: Schema, names: seq<string>, values: seq<Value>)
    requires DistinctNames(schema.columns) && InsertedRow(schema, names, values).Row?
    requires forall i, j :: 0 <= i < j < |names| ==> names[i] != names[j]
    ensures RowOk(schema, InsertedRow(schema, names, values).key, InsertedRow(schema, names, values).row)
  {
    InsertKeyed(schema, names, values);
  }

  /** INSERT INTO t (id, id) VALUES (1, 2) stores under key 1 a row that says 2. */
  lemma {:induction false} TwiceNamedKey()
    ensures var schema := Schema("t", [Column("id", true, false, false, None)]);
            InsertedRow(schema, ["id", "id"], [Integer(1), Integer(2)]) == Inserting.Row(1, [Integer(2)])
  {
    var schema, names, values := Schema("t", [Column("id", true, false, false, None)]), ["id", "id"], [Integer(1), Integer(2)];
    assert schema.columns[0].name == "id";
    assert Position(schema.columns, "id") == Some(0) && KeyColumn(schema.columns) == Some(0);
    assert FirstNamed(names, "id") == Some(0);
    assert RowFrom(schema, names, values) == [Integer(2)];
    assert !NullRefused(schema, names, values) && !VectorRefused(schema, names, values);
  }

  /** What a statement leaves: new tables with the changes captured, a failure, or a key stored
      twice in the table's tree, which then is no longer a map from keys to rows. */
  datatype Outcome = Done(table: Table, changes: seq<Change>) | Failed | Doubled

  /** INSERT goes through exactly when it is well formed, its key is absent and no UNIQUE column
      clashes; then it adds the row and captures it. */
  ghost predicate Inserts(lib: Library, schema: Schema, t: Table, scan: seq<(int, Row)>, names: seq<string>, values: seq<Value>, out: Outcome) {
    var ins := InsertedRow(schema, names, values);
    && (out.Done? <==> ins.Row? && ins.key !in t && Fresh(lib, schema, scan, ins.row))
    && (out.Done? ==> out == Done(t[ins.key := ins.row], [Inserted(schema.name, ins.key, ins.row)]))
    && !out.Doubled?
  }

  method ExecuteInsert(lib: Library, schema: Schema, t: Table, scan: seq<(int, Row)>, names: seq<string>, values: seq<Value>) returns (out: Outcome)
    ensures Inserts(lib, schema, t, scan, names, values, out)
  {
    var ins := InsertedRow(schema, names, values);
    if ins.Refused? || ins.key in t {
      return Failed;
    }
    var accepted := CheckInsertUnique(lib, schema, scan, ins.row);
    if !accepted {
      return Failed;
    }
    return Done(t[ins.key := ins.row], [Inserted(schema.name, ins.key, ins.row)]);
  }

  /** The changes replay to the table's new contents, whatever the other tables are. */
  /** The row holds, in every column, the last value that the list gives it, and NULL where it gives none. */
  ghost predicate HoldsListed(schema: Schema, names: seq<string>, values: seq<Value>, row: Row)
    requires |names| == |values|
  {
    |row| == |schema.columns| && forall p :: 0 <= p < |row| ==> HoldsLast(names, values, schema.columns[p].name, row[p])
  }

  ghost predicate HoldsLast(names: seq<string>, values: seq<Value>, name: string, v: Value)
    requires |names| == |values|
  {
    && (name !in names ==> v == Null)
    && (forall i :: 0 <= i < |names| && names[i] == name && (forall j :: i < j < |names| ==> names[j] != name) ==> v == values[i])
  }

  /** An INSERT goes through exactly when the list is not refused, its key is free, and its row
      shares no value with a stored one in a UNIQUE column; then that row, holding the listed
      values, is under the key that the list gives first, and nothing else has changed. */
  lemma {:induction false} InsertMeans(lib: Library, schema: Schema, t: Table, scan: seq<(int, Row)>, names: seq<string>, values: seq<Value>, out: Outcome)
    requires DistinctNames(schema.columns) && IsScan(t, scan) && Inserts(lib, schema, t, scan, names, values, out)
    ensures var ins := InsertedRow(schema, names, values);
            && (out.Done? <==> ins.Row? && ins.key !in t && forall ci: nat, k :: k in t ==> !Share(lib, schema, ci, t[k], ins.row))
            && (out.Done? ==>
                  && out.table == t[ins.key := ins.row] && |names| == |values| && HoldsListed(schema, names, values, ins.row)
                  && exists i :: 0 <= i < |names| && values[i] == Integer(ins.key) && names[i] == schema.columns[KeyColumn(schema.columns).value].name
                                 && forall j :: 0 <= j < i ==> names[j] != names[i])
  {
    var ins := InsertedRow(schema, names, values);
    if ins.Row? {
      FreshMeans(lib, schema, t, scan, ins.row);
      forall p | 0 <= p < |schema.columns|
        ensures HoldsLast(names, values, schema.columns[p].name, ins.row[p])
      {
        RowFromAt(schema, names, values, p);
      }
    }
  }

  ghost predicate Replays(pk: KeyOf, name: string, t: Table, changes: seq<Change>, t': Table) {
    forall db: Tables {:trigger ReplayedAll(pk, db, changes)} :: name in db && db[name] == t ==> ReplayedAll(pk, db, changes) == db[name := t']
  }

  lemma ReplaysNone(pk: KeyOf, name: string, t: Table)
    ensures Replays(pk, name, t, [], t)
  {
  }

  lemma ReplaysOneMore(pk: KeyOf, name: string, t: Table, cs: seq<Change>, t': Table, c: Change, t2: Table)
    requires Replays(pk, name, t, cs, t') && c.table == name
    requires t2 == match c
                   case Inserted(_, k, after) => t'[k := after]
                   case Updated(_, k, _, after) => (t' - {k})[pk(name, after) := after]
                   case Deleted(_, k, _) => t' - {k}
    ensures Replays(pk, name, t, cs + [c], t2)
  {
    forall db: Tables | name in db && db[name] == t
      ensures ReplayedAll(pk, db, cs + [c]) == db[name := t2]
    {
      assert (cs + [c])[..|cs|] == cs;
      assert ReplayedAll(pk, db, cs) == db[name := t'];
    }
  }

  /** The key column is given one value, however often it is named. */
  ghost predicate KeyGivenOnce(schema: Schema, names: seq<string>, values: seq<Value>) {
    |names| == |values| && KeyColumn(schema.columns).Some? ==>
      var name := schema.columns[KeyColumn(schema.columns).value].name;
      FirstNamed(names, name).Some? ==> LastNamed(names, name).Some? && values[LastNamed(names, name).value] == values[FirstNamed(names, name).value]
  }

  /** An INSERT that goes through keeps UNIQUE, its change replays to its result, and its row
      carries its key if the key column is given one value. */
  lemma {:induction false} InsertSound(lib: Library, schema: Schema, t: Table, scan: seq<(int, Row)>, names: seq<string>, values: seq<Value>, out: Outcome, pk: KeyOf)
    requires IsScan(t, scan) && Inserts(lib, schema, t, scan, names, values, out) && out.Done?
    ensures UniqueOk(lib, schema, t) ==> UniqueOk(lib, schema, out.table)
    ensures Replays(pk, schema.name, t, out.changes, out.table)
    ensures DistinctNames(schema.columns) && WellKeyed(schema, t) && KeyGivenOnce(schema, names, values) ==> WellKeyed(schema, out.table)
  {
    var ins := InsertedRow(schema, names, values);
    if UniqueOk(lib, schema, t) {
      InsertKeepsUnique(lib, schema, t, scan, ins.key, ins.row);
    }
    ReplaysNone(pk, schema.name, t);
    ReplaysOneMore(pk, schema.name, t, [], t, Inserted(schema.name, ins.key, ins.row), out.table);
    assert [] + [Inserted(schema.name, ins.key, ins.row)] == out.changes;
    if DistinctNames(schema.columns) && KeyGivenOnce(schema, names, values) {
      InsertKeyed(schema, names, values);
    }
  }

  // ---------------------------------------------------------------- DELETE

  ghost predicate Among(rows: seq<(int, Row)>, k: int) {
    exists i :: 0 <= i < |rows| && rows[i].0 == k
  }

  ghost predicate CapturesDeletes(name: string, rows: seq<(int, Row)>, n: nat, changes: seq<Change>)
    requires n <= |rows|
  {
    |changes| == n && forall i :: 0 <= i < n ==> changes[i] == Deleted(name, rows[i].0, rows[i].1)
  }

  /** The rows of `t` without those among the first `n` of `rows`. */
  ghost predicate Without(t: Table, rows: seq<(int, Row)>, n: nat, t': Table)
    requires n <= |rows|
  {
    && (forall k :: k in t' <==> k in t && !Among(rows[..n], k))
    && (forall k :: k in t' ==> t'[k] == t[k])
  }

  /** Deletes the selected rows one by one. */
  method DeleteRows(schema: Schema, t: Table, rows: seq<(int, Row)>) returns (t': Table, changes: seq<Change>)
    ensures Without(t, rows, |rows|, t') && CapturesDeletes(schema.name, rows, |rows|, changes)
  {
    t', changes := t, [];
    for n := 0 to |rows|
      invariant Without(t, rows, n, t') && CapturesDeletes(schema.name, rows, n, changes)
    {
      AmongStep(rows, n);
      t' := t' - {rows[n].0};
      changes := changes + [Deleted(schema.name, rows[n].0, rows[n].1)];
    }
  }

  lemma SameTable(a: Table, b: Table)
    requires forall k :: (k in a <==> k in b) && (k in a ==> a[k] == b[k])
    ensures a == b
  {
    forall k
      ensures k in a <==> k in b
      ensures k in a ==> a[k] == b[k]
    {
    }
  }

  lemma {:induction false} DeletesReplay(pk: KeyOf, name: string, t: Table, rows: seq<(int, Row)>, n: nat, changes: seq<Change>, t': Table)
    requires n <= |rows| && Without(t, rows, n, t') && CapturesDeletes(name, rows, n, changes)
    ensures Replays(pk, name, t, changes, t')
    decreases n
  {
    if n == 0 {
      SameTable(t', t);
      ReplaysNone(pk, name, t);
    } else {
      var before := map k | k in t && !Among(rows[..n - 1], k) :: t[k];
      var front := changes[..n - 1];
      DeletesReplay(pk, name, t, rows, n - 1, front, before);
      AmongStep(rows, n - 1);
      SameTable(t', before - {rows[n - 1].0});
      ReplaysOneMore(pk, name, t, front, before, changes[n - 1], t');
      assert changes == front + [changes[n - 1]];
    }
  }

  lemma AmongStep(rows: seq<(int, Row)>, n: nat)
    requires n < |rows|
    ensures forall k :: Among(rows[..n + 1], k) <==> Among(rows[..n], k) || k == rows[n].0
  {
    forall k
      ensures Among(rows[..n + 1], k) <==> Among(rows[..n], k) || k == rows[n].0
    {
      if Among(rows[..n], k) {
        var i :| 0 <= i < n && rows[..n][i].0 == k;
        assert rows[..n + 1][i].0 == k;
      }
      if k == rows[n].0 {
        assert rows[..n + 1][n].0 == k;
      }
    }
  }

  /** DELETE removes exactly the chosen rows and captures them. */
  ghost predicate Deletes(lib: Library, schema: Schema, t: Table, scan: seq<(int, Row)>, clause: Option<seq<Condition>>, out: Outcome) {
    var rows := Chosen(lib, schema, t, scan, clause);
    out.Done? && Without(t, rows, |rows|, out.table) && CapturesDeletes(schema.name, rows, |rows|, out.changes)
  }

  method ExecuteDelete(lib: Library, schema: Schema, t: Table, scan: seq<(int, Row)>, clause: Option<seq<Condition>>) returns (out: Outcome)
    requires IsScan(t, scan)
    ensures Deletes(lib, schema, t, scan, clause, out)
  {
    var rows := Filter(lib, schema, clause, CandidateRows(schema, t, scan, clause));
    var t', changes := DeleteRows(schema, t, rows);
    return Done(t', changes);
  }

  /** DELETE keeps what holds of every row, its changes replay to what is left, and where rows
      carry their keys exactly the selected ones are gone. */
  lemma {:induction false} DeleteSound(lib: Library, schema: Schema, t: Table, scan: seq<(int, Row)>, clause: Option<seq<Condition>>, out: Outcome, pk: KeyOf)
    requires IsScan(t, scan) && Deletes(lib, schema, t, scan, clause, out)
    ensures WellKeyed(schema, t) ==> WellKeyed(schema, out.table)
    ensures UniqueOk(lib, schema, t) ==> UniqueOk(lib, schema, out.table)
    ensures Replays(pk, schema.name, t, out.changes, out.table)
    ensures DistinctNames(schema.columns) && WellKeyed(schema, t) ==>
              forall k :: k in out.table <==> k in t && !Selected(lib, schema, clause, t[k])
  {
    var rows := Chosen(lib, schema, t, scan, clause);
    DeletesReplay(pk, schema.name, t, rows, |rows|, out.changes, out.table);
    if UniqueOk(lib, schema, t) {
      forall ci: nat | IsUniqueColumn(schema, ci)
        ensures ColumnUnique(lib, out.table, ci)
      {
        assert ColumnUnique(lib, t, ci);
      }
    }
    if DistinctNames(schema.columns) && WellKeyed(schema, t) {
      FastPathExact(lib, schema, t, scan, clause);
      assert rows[..|rows|] == rows;
      forall k | k in t
        ensures Among(rows, k) <==> Selected(lib, schema, clause, t[k])
      {
        FilterAmong(lib, schema, clause, t, scan, k);
      }
    }
  }

  /** DELETE FROM t WHERE c > y takes the rows with more than y in that column, and leaves the rest. */
  lemma {:induction false} DeleteAbove(lib: Library, schema: Schema, t: Table, scan: seq<(int, Row)>, p: nat, y: I64, out: Outcome)
    requires DistinctNames(schema.columns) && WellKeyed(schema, t) && IsScan(t, scan) && p < |schema.columns|
    requires forall k :: k in t ==> t[k][p].Integer?
    requires Deletes(lib, schema, t, scan, Some([Condition(schema.columns[p].name, GreaterThan, Integer(y))]), out)
    ensures forall k :: k in out.table <==> k in t && t[k][p].i <= y
    ensures forall k :: k in out.table ==> out.table[k] == t[k]
  {
    var pk: KeyOf := (_, _) => 0;
    DeleteSound(lib, schema, t, scan, Some([Condition(schema.columns[p].name, GreaterThan, Integer(y))]), out, pk);
    forall k | k in t
      ensures Selected(lib, schema, Some([Condition(schema.columns[p].name, GreaterThan, Integer(y))]), t[k]) <==> t[k][p].i > y
    {
      assert RowOk(schema, k, t[k]);
      SelectedByInteger(lib, schema, p, y, t[k]);
    }
  }

  lemma {:induction false} FilterHas(lib: Library, schema: Schema, clause: Option<seq<Condition>>, rows: seq<(int, Row)>, r: (int, Row))
    ensures r in Filter(lib, schema, clause, rows) <==> r in rows && Selected(lib, schema, clause, r.1)
    decreases |rows|
  {
    if rows != [] {
      FilterHas(lib, schema, clause, rows[1..], r);
      assert rows == [rows[0]] + rows[1..];
    }
  }

  lemma {:induction false} FilterAmong(lib: Library, schema: Schema, clause: Option<seq<Condition>>, t: Table, scan: seq<(int, Row)>, k: int)
    requires IsScan(t, scan) && k in t
    ensures Among(Filter(lib, schema, clause, scan), k) <==> Selected(lib, schema, clause, t[k])
  {
    var rows := Filter(lib, schema, clause, scan);
    FilterHas(lib, schema, clause, scan, (k, t[k]));
    if Among(rows, k) {
      var i :| 0 <= i < |rows| && rows[i].0 == k;
      FilterHas(lib, schema, clause, scan, rows[i]);
    }
  }

  /** The consumer can tell the key of a row from the row. */
  ghost predicate KnowsKeys(pk: KeyOf, schema: Schema) {
    KeyColumn(schema.columns).Some? ==> forall k, row :: RowOk(schema, k, row) ==> pk(schema.name, row) == k
  }
}
