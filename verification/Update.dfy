/** UPDATE: plan every new row, check, then delete and insert row by row. */
module Update {
  import opened Options
  import opened Results
  import opened Rows
  import opened Values
  import opened Cdc
  import opened Queries
  import opened Unique
  import opened Dml

  datatype Assignment = Assignment(column: string, value: Value)

  datatype RowUpdate = RowUpdate(key: int, newKey: int, before: Row, after: Row)

  // ---------------------------------------------------------------- one row

  predicate ToKey(schema: Schema, a: Assignment) {
    Position(schema.columns, a.column).Some? && Position(schema.columns, a.column) == KeyColumn(schema.columns)
  }

  /** The assignments applied to one row and its key; NULL in a NOT NULL column and a key that
      is no integer are errors, and unknown columns are passed over. */
  function Assigned(schema: Schema, az: seq<Assignment>, key: int, row: Row): Result<(int, Row)>
    decreases |az|
  {
    if az == [] then Ok((key, row))
    else
      var p, v := Position(schema.columns, az[0].column), az[0].value;
      if p.None? || p.value >= |row| then Assigned(schema, az[1..], key, row)
      else if schema.columns[p.value].notNull && v.Null? then Err(Invalid)
      else if ToKey(schema, az[0]) && !v.Integer? then Err(Invalid)
      else Assigned(schema, az[1..], if ToKey(schema, az[0]) then v.i else key, row[p.value := v])
  }

  ghost predicate AssignsKey(schema: Schema, az: seq<Assignment>) {
    exists i :: 0 <= i < |az| && ToKey(schema, az[i])
  }

  ghost predicate Names(az: seq<Assignment>, column: string) {
    exists i :: 0 <= i < |az| && az[i].column == column
  }

  lemma {:induction false} FirstOrRest(schema: Schema, az: seq<Assignment>)
    requires az != []
    ensures AssignsKey(schema, az) <==> ToKey(schema, az[0]) || AssignsKey(schema, az[1..])
    ensures forall c :: Names(az, c) <==> az[0].column == c || Names(az[1..], c)
  {
    assert forall i :: 0 <= i < |az| - 1 ==> az[1..][i] == az[i + 1];
    forall c
      ensures Names(az, c) <==> az[0].column == c || Names(az[1..], c)
    {
      if Names(az[1..], c) {
        var i :| 0 <= i < |az[1..]| && az[1..][i].column == c;
        assert az[i + 1].column == c;
      }
    }
    if AssignsKey(schema, az[1..]) {
      var i :| 0 <= i < |az[1..]| && ToKey(schema, az[1..][i]);
      assert ToKey(schema, az[i + 1]);
    }
  }

  /** Column `p` of the new row: the value of the last assignment that names it, else the old one. */
  ghost predicate ColumnAssigned(schema: Schema, az: seq<Assignment>, p: nat, was: Value, v: Value)
    requires p < |schema.columns|
  {
    var name := schema.columns[p].name;
    && (!Names(az, name) ==> v == was)
    && (forall i :: 0 <= i < |az| && az[i].column == name && !Names(az[i + 1..], name) ==> v == az[i].value)
  }

  ghost predicate RowAssigned(schema: Schema, az: seq<Assignment>, before: Row, after: Row) {
    |before| == |after| == |schema.columns| && forall p :: 0 <= p < |before| ==> ColumnAssigned(schema, az, p, before[p], after[p])
  }

  /** An assignment that fails: NULL to a NOT NULL column, or to the key what is no integer. */
  ghost predicate BadAssignment(schema: Schema, a: Assignment, p: nat) {
    && p < |schema.columns| && schema.columns[p].name == a.column
    && ((a.value == Null && schema.columns[p].notNull) || (KeyColumn(schema.columns) == Some(p) && !a.value.Integer?))
  }

  lemma {:induction false} AssignedFails(schema: Schema, az: seq<Assignment>, key: int, row: Row)
    requires DistinctNames(schema.columns) && |row| == |schema.columns|
    ensures Assigned(schema, az, key, row).Err? <==> exists i, p: nat :: 0 <= i < |az| && BadAssignment(schema, az[i], p)
    decreases |az|
  {
    if az != [] {
      var p, v := Position(schema.columns, az[0].column), az[0].value;
      assert forall q: nat :: BadAssignment(schema, az[0], q) ==> p == Some(q);
      assert forall i :: 0 <= i < |az| - 1 ==> az[1..][i] == az[i + 1];
      if p.Some? && BadAssignment(schema, az[0], p.value) {
        assert Assigned(schema, az, key, row).Err?;
      } else {
        var key' := if ToKey(schema, az[0]) then v.i else key;
        var row' := if p.None? then row else row[p.value := v];
        AssignedFails(schema, az[1..], key', row');
        if i, q: nat :| 0 <= i < |az[1..]| && BadAssignment(schema, az[1..][i], q) {
          assert BadAssignment(schema, az[i + 1], q);
        }
        if i, q: nat :| 0 <= i < |az| && BadAssignment(schema, az[i], q) {
          assert i != 0 && BadAssignment(schema, az[1..][i - 1], q);
        }
      }
    }
  }

  lemma {:induction false} ColumnStep(schema: Schema, az: seq<Assignment>, p: nat, was: Value, v: Value)
    requires az != [] && p < |schema.columns|
    requires ColumnAssigned(schema, az[1..], p, if schema.columns[p].name == az[0].column then az[0].value else was, v)
    ensures ColumnAssigned(schema, az, p, was, v)
  {
    var name := schema.columns[p].name;
    FirstOrRestNames(az, name);
    forall i | 0 <= i < |az| && az[i].column == name && !Names(az[i + 1..], name)
      ensures v == az[i].value
    {
      if i != 0 {
        assert az[1..][i - 1] == az[i] && az[1..][i - 1 + 1..] == az[i + 1..];
      }
    }
  }

  lemma {:induction false} FirstOrRestNames(az: seq<Assignment>, c: string)
    requires az != []
    ensures Names(az, c) <==> az[0].column == c || Names(az[1..], c)
  {
    if Names(az[1..], c) {
      var i :| 0 <= i < |az[1..]| && az[1..][i].column == c;
      assert az[i + 1].column == c;
    }
    if Names(az, c) {
      var i :| 0 <= i < |az| && az[i].column == c;
      assert i != 0 ==> az[1..][i - 1].column == c;
    }
  }

  /** Every column named takes the value of its last assignment, and all others stay. */
  lemma {:induction false} AssignedHolds(schema: Schema, az: seq<Assignment>, key: int, row: Row)
    requires DistinctNames(schema.columns) && |row| == |schema.columns| && Assigned(schema, az, key, row).Ok?
    ensures RowAssigned(schema, az, row, Assigned(schema, az, key, row).value.1)
    decreases |az|
  {
    if az != [] {
      var p, v := Position(schema.columns, az[0].column), az[0].value;
      var key' := if ToKey(schema, az[0]) then v.i else key;
      var row' := if p.None? then row else row[p.value := v];
      AssignedHolds(schema, az[1..], key', row');
      var after := Assigned(schema, az, key, row).value.1;
      assert after == Assigned(schema, az[1..], key', row').value.1;
      forall q | 0 <= q < |row|
        ensures ColumnAssigned(schema, az, q, row[q], after[q])
      {
        assert row'[q] == if schema.columns[q].name == az[0].column then v else row[q];
        ColumnStep(schema, az, q, row[q], after[q]);
      }
    }
  }

  /** The new row carries its new key; columns that are not named stay; a key that is not
      assigned stays. */
  lemma {:induction false} AssignedOk(schema: Schema, az: seq<Assignment>, key: int, row: Row)
    requires RowOk(schema, key, row) && Assigned(schema, az, key, row).Ok?
    ensures var r := Assigned(schema, az, key, row).value;
            && RowOk(schema, r.0, r.1)
            && (forall ci :: 0 <= ci < |row| && !Names(az, schema.columns[ci].name) ==> r.1[ci] == row[ci])
            && (!AssignsKey(schema, az) ==> r.0 == key)
    decreases |az|
  {
    if az != [] {
      FirstOrRest(schema, az);
      var p, v := Position(schema.columns, az[0].column), az[0].value;
      if p.None? {
        AssignedOk(schema, az[1..], key, row);
      } else {
        AssignedOk(schema, az[1..], if ToKey(schema, az[0]) then v.i else key, row[p.value := v]);
      }
    }
  }

  /** A key that is assigned becomes the same for every row. */
  lemma {:induction false} AssignedSame(schema: Schema, az: seq<Assignment>, k: int, row: Row, k': int, row': Row)
    requires |row| == |row'| == |schema.columns| && Assigned(schema, az, k, row).Ok? && Assigned(schema, az, k', row').Ok?
    requires AssignsKey(schema, az) || k == k'
    ensures Assigned(schema, az, k, row).value.0 == Assigned(schema, az, k', row').value.0
    decreases |az|
  {
    if az != [] {
      FirstOrRest(schema, az);
      var p, v := Position(schema.columns, az[0].column), az[0].value;
      if p.None? {
        AssignedSame(schema, az[1..], k, row, k', row');
      } else {
        var key := ToKey(schema, az[0]);
        AssignedSame(schema, az[1..], if key then v.i else k, row[p.value := v], if key then v.i else k', row'[p.value := v]);
      }
    }
  }

  // ---------------------------------------------------------------- the plan

  /** A row that cannot be updated: an assignment fails, or its new key is taken in the table as
      it is before the statement. */
  predicate Refuses(schema: Schema, t: Table, az: seq<Assignment>, r: (int, Row)) {
    var a := Assigned(schema, az, r.0, r.1);
    a.Err? || (a.value.0 != r.0 && a.value.0 in t)
  }

  ghost predicate AnyRefuses(schema: Schema, t: Table, az: seq<Assignment>, rows: seq<(int, Row)>) {
    exists i :: 0 <= i < |rows| && Refuses(schema, t, az, rows[i])
  }

  function PlanFor(schema: Schema, az: seq<Assignment>, r: (int, Row)): RowUpdate {
    var a := Assigned(schema, az, r.0, r.1);
    if a.Ok? then RowUpdate(r.0, a.value.0, r.1, a.value.1) else RowUpdate(r.0, r.0, r.1, r.1)
  }

  /** The new row of every selected one. */
  function PlanOf(schema: Schema, az: seq<Assignment>, rows: seq<(int, Row)>): (us: seq<RowUpdate>)
    ensures |us| == |rows| && forall i :: 0 <= i < |us| ==> us[i] == PlanFor(schema, az, rows[i])
  {
    seq(|rows|, i requires 0 <= i < |rows| => PlanFor(schema, az, rows[i]))
  }

  method PlanUpdates(schema: Schema, t: Table, az: seq<Assignment>, rows: seq<(int, Row)>) returns (res: Result<seq<RowUpdate>>)
    ensures res == if AnyRefuses(schema, t, az, rows) then Err(Invalid) else Ok(PlanOf(schema, az, rows))
  {
    var us := [];
    for i := 0 to |rows|
      invariant |us| == i && forall j :: 0 <= j < i ==> us[j] == PlanFor(schema, az, rows[j]) && !Refuses(schema, t, az, rows[j])
    {
      if Refuses(schema, t, az, rows[i]) {
        return Err(Invalid);
      }
      var a := Assigned(schema, az, rows[i].0, rows[i].1).value;
      us := us + [RowUpdate(rows[i].0, a.0, rows[i].1, a.1)];
    }
    assert us == PlanOf(schema, az, rows);
    return Ok(us);
  }

  /** The updates belong to distinct stored rows, and no new key is the key of another row. */
  ghost predicate PlanOk(t: Table, us: seq<RowUpdate>) {
    && (forall i :: 0 <= i < |us| ==> us[i].key in t && t[us[i].key] == us[i].before && (us[i].newKey == us[i].key || us[i].newKey !in t))
    && (forall i, j :: 0 <= i < j < |us| ==> us[i].key != us[j].key)
  }

  // ---------------------------------------------------------------- applying it

  ghost predicate Touched(us: seq<RowUpdate>, n: nat, k: int)
    requires n <= |us|
  {
    exists i :: 0 <= i < n && us[i].key == k
  }

  ghost predicate Made(us: seq<RowUpdate>, n: nat, k: int)
    requires n <= |us|
  {
    exists i :: 0 <= i < n && us[i].newKey == k
  }

  /** The table after the first `n` updates: each old row deleted, then the new one inserted. */
  ghost function Applied(t: Table, us: seq<RowUpdate>, n: nat): Table
    requires n <= |us|
  {
    if n == 0 then t else (Applied(t, us, n - 1) - {us[n - 1].key})[us[n - 1].newKey := us[n - 1].after]
  }

  /** The row under `k` is the new row of the update that made it, or an untouched old one. */
  ghost predicate IsNewRow(us: seq<RowUpdate>, n: nat, k: int, row: Row)
    requires n <= |us|
  {
    exists i :: 0 <= i < n && us[i].newKey == k && us[i].after == row
  }

  lemma {:induction false} TouchedStep(us: seq<RowUpdate>, n: nat, k: int)
    requires n < |us|
    ensures Touched(us, n + 1, k) <==> Touched(us, n, k) || k == us[n].key
    ensures Made(us, n + 1, k) <==> Made(us, n, k) || k == us[n].newKey
  {
    if k == us[n].key {
      assert us[n].key == k;
    }
    if k == us[n].newKey {
      assert us[n].newKey == k;
    }
  }

  /** What a key holds after `n` updates whose new keys differ: the new row that went there, else
      the old row unless it was touched. */
  lemma {:induction false} AppliedKey(t: Table, us: seq<RowUpdate>, n: nat, k: int)
    requires n <= |us| && PlanOk(t, us) && NewKeysDiffer(us, n)
    ensures var t' := Applied(t, us, n);
            && (Made(us, n, k) ==> k in t' && IsNewRow(us, n, k, t'[k]))
            && (!Made(us, n, k) ==> (k in t' <==> k in t && !Touched(us, n, k)) && (k in t' ==> t'[k] == t[k]))
    decreases n
  {
    if n != 0 {
      var u, before := us[n - 1], Applied(t, us, n - 1);
      AppliedKey(t, us, n - 1, k);
      TouchedStep(us, n - 1, k);
      if k == u.newKey {
        assert us[n - 1].newKey == k && us[n - 1].after == u.after;
      } else if Made(us, n - 1, k) {
        var i :| 0 <= i < n - 1 && us[i].newKey == k && us[i].after == before[k];
        assert k != u.key;
      }
    }
  }

  /** The new key is taken only if an earlier update of the plan took it. */
  lemma {:induction false} TakenBefore(t: Table, us: seq<RowUpdate>, n: nat)
    requires n < |us| && PlanOk(t, us) && NewKeysDiffer(us, n)
    ensures us[n].newKey in Applied(t, us, n) - {us[n].key} <==> Made(us, n, us[n].newKey)
  {
    AppliedKey(t, us, n, us[n].newKey);
    if Made(us, n, us[n].newKey) {
      var i :| 0 <= i < n && us[i].newKey == us[n].newKey;
      assert us[i].newKey != us[n].key;
    }
  }

  ghost predicate Captures(name: string, us: seq<RowUpdate>, n: nat, changes: seq<Change>)
    requires n <= |us|
  {
    |changes| == n && forall i :: 0 <= i < n ==> changes[i] == Updated(name, us[i].key, us[i].before, us[i].after)
  }

  ghost predicate NewKeysDiffer(us: seq<RowUpdate>, n: nat)
    requires n <= |us|
  {
    forall i, j :: 0 <= i < j < n ==> us[i].newKey != us[j].newKey
  }

  lemma {:induction false} OneMoreUpdate(name: string, us: seq<RowUpdate>, n: nat, changes: seq<Change>)
    requires n < |us| && Captures(name, us, n, changes) && NewKeysDiffer(us, n)
    ensures Captures(name, us, n + 1, changes + [Updated(name, us[n].key, us[n].before, us[n].after)])
    ensures if Made(us, n, us[n].newKey) then !NewKeysDiffer(us, |us|) else NewKeysDiffer(us, n + 1)
  {
  }

  /** Deletes each old row and inserts the new one, unless its key is already there. */
  method ApplyUpdates(schema: Schema, t: Table, us: seq<RowUpdate>) returns (out: Outcome)
    requires PlanOk(t, us)
    ensures out.Doubled? <==> !NewKeysDiffer(us, |us|)
    ensures !out.Failed?
    ensures out.Done? ==> out.table == Applied(t, us, |us|) && Captures(schema.name, us, |us|, out.changes)
  {
    var cur, changes := t, [];
    for n := 0 to |us|
      invariant cur == Applied(t, us, n) && Captures(schema.name, us, n, changes) && NewKeysDiffer(us, n)
    {
      var u := us[n];
      TakenBefore(t, us, n);
      OneMoreUpdate(schema.name, us, n, changes);
      cur := cur - {u.key};
      if u.newKey in cur {
        return Doubled;
      }
      cur := cur[u.newKey := u.after];
      changes := changes + [Updated(schema.name, u.key, u.before, u.after)];
    }
    return Done(cur, changes);
  }

  /** The captured changes, replayed one by one, make the tables that the updates make. */
  lemma {:induction false} UpdatesReplay(pk: KeyOf, name: string, t: Table, us: seq<RowUpdate>, n: nat, changes: seq<Change>)
    requires n <= |us| && Captures(name, us, n, changes)
    requires forall i :: 0 <= i < |us| ==> pk(name, us[i].after) == us[i].newKey
    ensures Replays(pk, name, t, changes, Applied(t, us, n))
    decreases n
  {
    if n == 0 {
      assert changes == [];
      ReplaysNone(pk, name, t);
    } else {
      var front := changes[..n - 1];
      UpdatesReplay(pk, name, t, us, n - 1, front);
      ReplaysOneMore(pk, name, t, front, Applied(t, us, n - 1), changes[n - 1], Applied(t, us, n));
      assert changes == front + [changes[n - 1]];
    }
  }

  // ---------------------------------------------------------------- UNIQUE

  function RowsOf(rs: seq<(int, Row)>): (s: seq<Row>)
    ensures |s| == |rs| && forall i :: 0 <= i < |rs| ==> s[i] == rs[i].1
  {
    seq(|rs|, i requires 0 <= i < |rs| => rs[i].1)
  }

  function NewRows(us: seq<RowUpdate>): (rs: seq<(int, Row)>)
    ensures |rs| == |us| && forall i :: 0 <= i < |us| ==> rs[i] == (us[i].newKey, us[i].after)
  {
    seq(|us|, i requires 0 <= i < |us| => (us[i].newKey, us[i].after))
  }

  function KeysOf(us: seq<RowUpdate>): set<int> {
    set i | 0 <= i < |us| :: us[i].key
  }

  /** The rows of a scan that the plan leaves alone. */
  function Untouched(scan: seq<(int, Row)>, keys: set<int>): (rest: seq<(int, Row)>)
    ensures forall r :: r in rest <==> r in scan && r.0 !in keys
    decreases |scan|
  {
    if scan == [] then []
    else
      var front, last := Untouched(scan[..|scan| - 1], keys), scan[|scan| - 1];
      assert scan == scan[..|scan| - 1] + [last];
      if last.0 in keys then front else front + [last]
  }

  /** The rows of the table as it will be: the untouched ones, then the new ones. */
  function FinalRows(scan: seq<(int, Row)>, us: seq<RowUpdate>): seq<(int, Row)> {
    Untouched(scan, KeysOf(us)) + NewRows(us)
  }

  ghost predicate IsFinal(t: Table, us: seq<RowUpdate>, fin: seq<(int, Row)>) {
    && (forall k :: k in t && !Touched(us, |us|, k) ==> (k, t[k]) in fin)
    && (forall i :: 0 <= i < |us| ==> (us[i].newKey, us[i].after) in fin)
  }

  /** Every row of the updated table is among the final rows. */
  lemma {:induction false} InFinal(t: Table, us: seq<RowUpdate>, fin: seq<(int, Row)>, k: int)
    requires PlanOk(t, us) && NewKeysDiffer(us, |us|) && IsFinal(t, us, fin) && k in Applied(t, us, |us|)
    ensures (k, Applied(t, us, |us|)[k]) in fin
  {
    AppliedKey(t, us, |us|, k);
  }

  /** A column that the check passed is free of repeats in the table as updated. */
  lemma {:induction false} CheckedUnique(lib: Library, t: Table, us: seq<RowUpdate>, t': Table, fin: seq<(int, Row)>, ci: nat)
    requires PlanOk(t, us) && NewKeysDiffer(us, |us|) && t' == Applied(t, us, |us|)
    requires IsFinal(t, us, fin) && !ClashAmong(lib, RowsOf(fin), ci)
    ensures ColumnUnique(lib, t', ci)
  {
    forall k, l | k in t' && l in t' && k != l
      ensures !Clash(lib, t'[k], t'[l], ci)
    {
      InFinal(t, us, fin, k);
      InFinal(t, us, fin, l);
      var i := PlaceOf(fin, (k, t'[k]));
      var j := PlaceOf(fin, (l, t'[l]));
      ClashFlip(lib, t'[k], t'[l], ci);
      assert RowsOf(fin)[i] == t'[k] && RowsOf(fin)[j] == t'[l];
    }
  }

  /** The row under `k` in the updated table comes from the one under `from`, as it was or as
      update number `i` changed it. */
  ghost predicate ComesFrom(t: Table, us: seq<RowUpdate>, t': Table, k: int, from: int, i: int) {
    && k in t' && from in t
    && (i == -1 ==> !Touched(us, |us|, k) && from == k && t'[k] == t[k])
    && (i != -1 ==> 0 <= i < |us| && us[i].newKey == k && us[i].key == from && t'[k] == us[i].after)
  }

  lemma {:induction false} SourceOf(t: Table, us: seq<RowUpdate>, t': Table, k: int) returns (from: int, i: int)
    requires PlanOk(t, us) && NewKeysDiffer(us, |us|) && t' == Applied(t, us, |us|) && k in t'
    ensures ComesFrom(t, us, t', k, from, i)
  {
    AppliedKey(t, us, |us|, k);
    if Made(us, |us|, k) {
      i :| 0 <= i < |us| && us[i].newKey == k && us[i].after == t'[k];
      from := us[i].key;
    } else {
      from, i := k, -1;
    }
  }

  lemma {:induction false} SourcesDiffer(t: Table, us: seq<RowUpdate>, t': Table, k: int, from: int, i: int, l: int, to: int, j: int)
    requires PlanOk(t, us) && ComesFrom(t, us, t', k, from, i) && ComesFrom(t, us, t', l, to, j) && k != l
    ensures from != to
  {
    if i == -1 && j != -1 {
      assert us[j].key == to && !Touched(us, |us|, k);
    } else if i != -1 && j == -1 {
      assert us[i].key == from && !Touched(us, |us|, l);
    }
  }

  /** A column that is not assigned stays free of repeats. */
  lemma {:induction false} UnassignedUnique(lib: Library, t: Table, us: seq<RowUpdate>, t': Table, ci: nat)
    requires PlanOk(t, us) && NewKeysDiffer(us, |us|) && t' == Applied(t, us, |us|) && ColumnUnique(lib, t, ci)
    requires forall i :: 0 <= i < |us| ==> ci < |us[i].before| == |us[i].after| && us[i].after[ci] == us[i].before[ci]
    ensures ColumnUnique(lib, t', ci)
  {
    forall k, l | k in t' && l in t' && k != l
      ensures !Clash(lib, t'[k], t'[l], ci)
    {
      var from, i := SourceOf(t, us, t', k);
      var to, j := SourceOf(t, us, t', l);
      SourcesDiffer(t, us, t', k, from, i, l, to, j);
      assert !Clash(lib, t[from], t[to], ci);
      SameClash(lib, t, us, t', k, from, i, l, to, j, ci);
    }
  }

  lemma {:induction false} SameClash(lib: Library, t: Table, us: seq<RowUpdate>, t': Table, k: int, from: int, i: int, l: int, to: int, j: int, ci: nat)
    requires PlanOk(t, us) && ComesFrom(t, us, t', k, from, i) && ComesFrom(t, us, t', l, to, j)
    requires forall x :: 0 <= x < |us| ==> ci < |us[x].before| == |us[x].after| && us[x].after[ci] == us[x].before[ci]
    ensures Clash(lib, t'[k], t'[l], ci) <==> Clash(lib, t[from], t[to], ci)
  {
    KeptValue(t, us, t', k, from, i, ci);
    KeptValue(t, us, t', l, to, j, ci);
  }

  lemma {:induction false} KeptValue(t: Table, us: seq<RowUpdate>, t': Table, k: int, from: int, i: int, ci: nat)
    requires PlanOk(t, us) && ComesFrom(t, us, t', k, from, i)
    requires forall x :: 0 <= x < |us| ==> ci < |us[x].before| == |us[x].after| && us[x].after[ci] == us[x].before[ci]
    ensures (ci < |t'[k]| <==> ci < |t[from]|) && (ci < |t'[k]| ==> t'[k][ci] == t[from][ci])
  {
  }

  // ---------------------------------------------------------------- the statement

  /** Some rows of a scan, none of them twice. */
  ghost predicate SomeOf(rows: seq<(int, Row)>, t: Table) {
    && (forall i :: 0 <= i < |rows| ==> rows[i].0 in t && t[rows[i].0] == rows[i].1)
    && (forall i, j :: 0 <= i < j < |rows| ==> rows[i].0 != rows[j].0)
  }

  lemma {:induction false} ChosenSub(lib: Library, schema: Schema, clause: Option<seq<Condition>>, scan: seq<(int, Row)>, t: Table)
    requires IsScan(t, scan)
    ensures SomeOf(Chosen(lib, schema, t, scan, clause), t)
    ensures forall r :: r in Chosen(lib, schema, t, scan, clause) ==> Selected(lib, schema, clause, r.1)
  {
    var candidates := CandidateRows(schema, t, scan, clause);
    FilterSub(lib, schema, clause, candidates, t);
    forall r | r in Chosen(lib, schema, t, scan, clause)
      ensures Selected(lib, schema, clause, r.1)
    {
      FilterHas(lib, schema, clause, candidates, r);
    }
  }

  lemma {:induction false} FilterSub(lib: Library, schema: Schema, clause: Option<seq<Condition>>, all: seq<(int, Row)>, t: Table)
    requires forall i, j :: 0 <= i < j < |all| ==> all[i].0 < all[j].0
    requires forall i :: 0 <= i < |all| ==> all[i].0 in t && t[all[i].0] == all[i].1
    ensures SomeOf(Filter(lib, schema, clause, all), t)
  {
    FilterIncreasing(lib, schema, clause, all);
    var rows := Filter(lib, schema, clause, all);
    forall i | 0 <= i < |rows|
      ensures rows[i].0 in t && t[rows[i].0] == rows[i].1
    {
      FilterHas(lib, schema, clause, all, rows[i]);
      assert rows[i] in all;
    }
  }

  lemma {:induction false} FilterIncreasing(lib: Library, schema: Schema, clause: Option<seq<Condition>>, rows: seq<(int, Row)>)
    requires forall i, j :: 0 <= i < j < |rows| ==> rows[i].0 < rows[j].0
    ensures var f := Filter(lib, schema, clause, rows);
            forall i, j :: 0 <= i < j < |f| ==> f[i].0 < f[j].0
    decreases |rows|
  {
    if rows != [] {
      var f := Filter(lib, schema, clause, rows[1..]);
      FilterIncreasing(lib, schema, clause, rows[1..]);
      forall i | 0 <= i < |f|
        ensures rows[0].0 < f[i].0
      {
        FilterHas(lib, schema, clause, rows[1..], f[i]);
        var j := PlaceOf(rows[1..], f[i]);
        assert rows[j + 1] == f[i];
      }
    }
  }

  /** Every planned row is as wide as the schema and carries its key, and the columns that are
      not named keep their values. */
  ghost predicate PlanKeeps(schema: Schema, az: seq<Assignment>, us: seq<RowUpdate>) {
    forall i :: 0 <= i < |us| ==> UpdateKeeps(schema, az, us[i])
  }

  ghost predicate UpdateKeeps(schema: Schema, az: seq<Assignment>, u: RowUpdate) {
    && RowOk(schema, u.key, u.before) && RowOk(schema, u.newKey, u.after)
    && (forall ci :: 0 <= ci < |schema.columns| && !Names(az, schema.columns[ci].name) ==> u.after[ci] == u.before[ci])
    && (!AssignsKey(schema, az) ==> u.newKey == u.key)
  }

  ghost predicate Wide(schema: Schema, t: Table) {
    forall k :: k in t ==> |t[k]| == |schema.columns|
  }

  lemma {:induction false} PlanIsOk(schema: Schema, t: Table, az: seq<Assignment>, rows: seq<(int, Row)>)
    requires SomeOf(rows, t) && !AnyRefuses(schema, t, az, rows)
    ensures PlanOk(t, PlanOf(schema, az, rows))
  {
    var us := PlanOf(schema, az, rows);
    forall i | 0 <= i < |us|
      ensures us[i].key == rows[i].0 && us[i].before == rows[i].1 && (us[i].newKey == us[i].key || us[i].newKey !in t)
    {
      assert !Refuses(schema, t, az, rows[i]) && us[i] == PlanFor(schema, az, rows[i]);
    }
  }

  lemma {:induction false} PlanIsKeyed(schema: Schema, t: Table, az: seq<Assignment>, rows: seq<(int, Row)>)
    requires WellKeyed(schema, t) && SomeOf(rows, t) && !AnyRefuses(schema, t, az, rows)
    ensures PlanKeeps(schema, az, PlanOf(schema, az, rows))
  {
    var us := PlanOf(schema, az, rows);
    forall i | 0 <= i < |us|
      ensures UpdateKeeps(schema, az, us[i])
    {
      assert !Refuses(schema, t, az, rows[i]) && us[i] == PlanFor(schema, az, rows[i]);
      AssignedOk(schema, az, us[i].key, us[i].before);
    }
  }

  lemma {:induction false} PlanDoubles(schema: Schema, t: Table, az: seq<Assignment>, rows: seq<(int, Row)>)
    requires Wide(schema, t) && SomeOf(rows, t) && !AnyRefuses(schema, t, az, rows)
    ensures NewKeysDiffer(PlanOf(schema, az, rows), |rows|) <==> !AssignsKey(schema, az) || |rows| < 2
  {
    var us := PlanOf(schema, az, rows);
    if AssignsKey(schema, az) && 2 <= |us| {
      assert !Refuses(schema, t, az, rows[0]) && !Refuses(schema, t, az, rows[1]);
      assert us[0] == PlanFor(schema, az, rows[0]) && us[1] == PlanFor(schema, az, rows[1]);
      AssignedSame(schema, az, us[0].key, us[0].before, us[1].key, us[1].before);
    } else if !AssignsKey(schema, az) {
      forall i | 0 <= i < |us|
        ensures us[i].newKey == rows[i].0
      {
        assert !Refuses(schema, t, az, rows[i]) && us[i] == PlanFor(schema, az, rows[i]);
        KeyUnassigned(schema, az, rows[i].0, rows[i].1);
      }
    }
  }

  lemma {:induction false} KeyUnassigned(schema: Schema, az: seq<Assignment>, key: int, row: Row)
    requires !AssignsKey(schema, az) && Assigned(schema, az, key, row).Ok?
    ensures Assigned(schema, az, key, row).value.0 == key
    decreases |az|
  {
    if az != [] {
      FirstOrRest(schema, az);
      assert !ToKey(schema, az[0]);
      var p := Position(schema.columns, az[0].column);
      KeyUnassigned(schema, az[1..], key, if p.None? || p.value >= |row| then row else row[p.value := az[0].value]);
    }
  }

  /** Whether any of the UNIQUE columns is assigned, and which. */
  method TouchedColumns(schema: Schema, az: seq<Assignment>) returns (cols: seq<nat>)
    ensures forall ci: nat :: ci in cols <==> IsUniqueColumn(schema, ci) && Names(az, schema.columns[ci].name)
  {
    var all := UniqueColumns(schema, |schema.columns|);
    cols := [];
    for n := 0 to |all|
      invariant forall ci: nat :: ci in cols <==> ci in all[..n] && ci < |schema.columns| && Names(az, schema.columns[ci].name)
    {
      assert all[n] in all;
      assert all[..n + 1] == all[..n] + [all[n]];
      if exists i :: 0 <= i < |az| && az[i].column == schema.columns[all[n]].name {
        cols := cols + [all[n]];
      }
    }
    assert all[..|all|] == all;
  }

  /** An accepted plan keeps UNIQUE, whichever columns it assigns. */
  lemma {:induction false} PlanKeepsUnique(lib: Library, schema: Schema, t: Table, az: seq<Assignment>, us: seq<RowUpdate>, t': Table, fin: seq<(int, Row)>)
    requires UniqueOk(lib, schema, t) && PlanOk(t, us) && PlanKeeps(schema, az, us)
    requires t' == Applied(t, us, |us|) && NewKeysDiffer(us, |us|) && IsFinal(t, us, fin)
    requires forall ci: nat :: IsUniqueColumn(schema, ci) && Names(az, schema.columns[ci].name) ==> !ClashAmong(lib, RowsOf(fin), ci)
    ensures UniqueOk(lib, schema, t')
  {
    forall ci: nat | IsUniqueColumn(schema, ci)
      ensures ColumnUnique(lib, t', ci)
    {
      if Names(az, schema.columns[ci].name) {
        CheckedUnique(lib, t, us, t', fin, ci);
      } else {
        assert ColumnUnique(lib, t, ci);
        forall i | 0 <= i < |us|
          ensures ci < |us[i].before| == |us[i].after| && us[i].after[ci] == us[i].before[ci]
        {
          assert UpdateKeeps(schema, az, us[i]);
        }
        UnassignedUnique(lib, t, us, t', ci);
      }
    }
  }

  /** Two of the final rows hold the same value in a UNIQUE column that is assigned. */
  ghost predicate WouldClash(lib: Library, schema: Schema, scan: seq<(int, Row)>, az: seq<Assignment>, us: seq<RowUpdate>) {
    us != [] && exists ci: nat :: IsUniqueColumn(schema, ci) && Names(az, schema.columns[ci].name) && ClashAmong(lib, RowsOf(FinalRows(scan, us)), ci)
  }

  /** What UPDATE does: it fails exactly when a row refuses or the final rows would clash; it
      stores a key twice exactly when two new keys agree; otherwise every chosen row is
      replaced by its new one, and captured. */
  ghost predicate Updates(lib: Library, schema: Schema, t: Table, scan: seq<(int, Row)>, az: seq<Assignment>, clause: Option<seq<Condition>>, out: Outcome) {
    var rows := Chosen(lib, schema, t, scan, clause);
    var us := PlanOf(schema, az, rows);
    && (out.Failed? <==> KeyColumn(schema.columns).None? || AnyRefuses(schema, t, az, rows) || WouldClash(lib, schema, scan, az, us))
    && (!out.Failed? ==> (out.Doubled? <==> !NewKeysDiffer(us, |us|)))
    && (out.Done? ==> out.table == Applied(t, us, |us|) && Captures(schema.name, us, |us|, out.changes))
  }

  /** The check of the assigned UNIQUE columns on the final rows. */
  method Clashes(lib: Library, schema: Schema, scan: seq<(int, Row)>, az: seq<Assignment>, us: seq<RowUpdate>) returns (yes: bool)
    ensures yes <==> WouldClash(lib, schema, scan, az, us)
  {
    var cols := TouchedColumns(schema, az);
    if cols == [] || us == [] {
      return false;
    }
    var accepted := CheckUnique(lib, cols, RowsOf(FinalRows(scan, us)));
    return !accepted;
  }

  method ExecuteUpdate(lib: Library, schema: Schema, t: Table, scan: seq<(int, Row)>, az: seq<Assignment>, clause: Option<seq<Condition>>) returns (out: Outcome)
    requires IsScan(t, scan)
    ensures Updates(lib, schema, t, scan, az, clause, out)
  {
    ChosenSub(lib, schema, clause, scan, t);
    var rows := Filter(lib, schema, clause, CandidateRows(schema, t, scan, clause));
    if KeyColumn(schema.columns).None? {
      return Failed;
    }
    var plan := PlanUpdates(schema, t, az, rows);
    if plan.Err? {
      return Failed;
    }
    PlanIsOk(schema, t, az, rows);
    var clash := Clashes(lib, schema, scan, az, plan.value);
    if clash {
      return Failed;
    }
    out := ApplyUpdates(schema, t, plan.value);
  }

  /** UPDATE stores a key twice exactly when it assigns the key column on two rows or more. */
  lemma {:induction false} UpdateDoubles(lib: Library, schema: Schema, t: Table, scan: seq<(int, Row)>, az: seq<Assignment>, clause: Option<seq<Condition>>, out: Outcome)
    requires Wide(schema, t) && IsScan(t, scan) && Updates(lib, schema, t, scan, az, clause, out) && !out.Failed?
    ensures out.Doubled? <==> AssignsKey(schema, az) && 2 <= |Chosen(lib, schema, t, scan, clause)|
  {
    ChosenSub(lib, schema, clause, scan, t);
    PlanDoubles(schema, t, az, Chosen(lib, schema, t, scan, clause));
  }

  /** An UPDATE that goes through leaves rows that carry their keys, UNIQUE columns free of
      repeats, and changes that replay to the new table. */
  lemma {:induction false} UpdateSound(lib: Library, schema: Schema, t: Table, scan: seq<(int, Row)>, az: seq<Assignment>, clause: Option<seq<Condition>>, out: Outcome, pk: KeyOf)
    requires WellKeyed(schema, t) && IsScan(t, scan) && Updates(lib, schema, t, scan, az, clause, out) && out.Done?
    ensures WellKeyed(schema, out.table)
    ensures UniqueOk(lib, schema, t) ==> UniqueOk(lib, schema, out.table)
    ensures KnowsKeys(pk, schema) ==> Replays(pk, schema.name, t, out.changes, out.table)
  {
    var rows := Chosen(lib, schema, t, scan, clause);
    var us := PlanOf(schema, az, rows);
    ChosenSub(lib, schema, clause, scan, t);
    PlanIsOk(schema, t, az, rows);
    PlanIsKeyed(schema, t, az, rows);
    AppliedKeyed(schema, t, az, us, |us|);
    if UniqueOk(lib, schema, t) {
      AcceptedUnique(lib, schema, t, scan, az, us, out.table);
    }
    if KnowsKeys(pk, schema) {
      KeysKnown(schema, az, us, pk);
      UpdatesReplay(pk, schema.name, t, us, |us|, out.changes);
    }
  }

  lemma {:induction false} AcceptedUnique(lib: Library, schema: Schema, t: Table, scan: seq<(int, Row)>, az: seq<Assignment>, us: seq<RowUpdate>, t': Table)
    requires IsScan(t, scan) && UniqueOk(lib, schema, t) && PlanOk(t, us) && PlanKeeps(schema, az, us) && !WouldClash(lib, schema, scan, az, us)
    requires t' == Applied(t, us, |us|) && NewKeysDiffer(us, |us|)
    ensures UniqueOk(lib, schema, t')
  {
    if us == [] {
      assert t' == t;
    } else {
      FinalOf(t, scan, us);
      PlanKeepsUnique(lib, schema, t, az, us, t', FinalRows(scan, us));
    }
  }

  lemma KeysKnown(schema: Schema, az: seq<Assignment>, us: seq<RowUpdate>, pk: KeyOf)
    requires PlanKeeps(schema, az, us) && KnowsKeys(pk, schema) && KeyColumn(schema.columns).Some?
    ensures forall i :: 0 <= i < |us| ==> pk(schema.name, us[i].after) == us[i].newKey
  {
    forall i | 0 <= i < |us|
      ensures pk(schema.name, us[i].after) == us[i].newKey
    {
      assert UpdateKeeps(schema, az, us[i]);
    }
  }

  lemma {:induction false} AppliedKeyed(schema: Schema, t: Table, az: seq<Assignment>, us: seq<RowUpdate>, n: nat)
    requires WellKeyed(schema, t) && PlanKeeps(schema, az, us) && n <= |us|
    ensures WellKeyed(schema, Applied(t, us, n))
    decreases n
  {
    if n != 0 {
      AppliedKeyed(schema, t, az, us, n - 1);
      assert UpdateKeeps(schema, az, us[n - 1]);
    }
  }

  lemma FinalOf(t: Table, scan: seq<(int, Row)>, us: seq<RowUpdate>)
    requires IsScan(t, scan)
    ensures IsFinal(t, us, FinalRows(scan, us))
  {
    forall i | 0 <= i < |us|
      ensures (us[i].newKey, us[i].after) in FinalRows(scan, us)
    {
      assert NewRows(us)[i] in NewRows(us);
    }
    forall k | k in t && !Touched(us, |us|, k)
      ensures (k, t[k]) in FinalRows(scan, us)
    {
      assert (k, t[k]) in scan && k !in KeysOf(us);
    }
  }

  /** UPDATE t SET id = 3 on the rows 1 and 2 stores the key 3 twice. */
  lemma {:induction false} TwoRowsOneKey(lib: Library, out: Outcome)
    requires Updates(lib, Schema("t", [Column("id", true, false, false, None)]), map[1 := [Integer(1)], 2 := [Integer(2)]],
                     [(1, [Integer(1)]), (2, [Integer(2)])], [Assignment("id", Integer(3))], None, out)
    ensures out.Doubled?
  {
    var schema := Schema("t", [Column("id", true, false, false, None)]);
    var t: Table := map[1 := [Integer(1)], 2 := [Integer(2)]];
    var scan, az := [(1, [Integer(1)]), (2, [Integer(2)])], [Assignment("id", Integer(3))];
    assert KeyColumn(schema.columns) == Some(0) && Position(schema.columns, "id") == Some(0);
    AllSelected(lib, schema, scan);
    assert ToKey(schema, az[0]);
    OneAssignment(schema, az[0], 1, [Integer(1)]);
    OneAssignment(schema, az[0], 2, [Integer(2)]);
    assert [az[0]] == az;
    assert forall i :: 0 <= i < |scan| ==> !Refuses(schema, t, az, scan[i]);
    var us := PlanOf(schema, az, scan);
    assert us[0].newKey == 3 && us[1].newKey == 3;
  }

  lemma {:induction false} OneAssignment(schema: Schema, a: Assignment, k: int, row: Row)
    requires ToKey(schema, a) && a.value.Integer? && |row| == |schema.columns|
    ensures Assigned(schema, [a], k, row) == Ok((a.value.i, row[Position(schema.columns, a.column).value := a.value]))
  {
    assert [a][1..] == [];
  }

  lemma {:induction false} AllSelected(lib: Library, schema: Schema, rows: seq<(int, Row)>)
    ensures Filter(lib, schema, None, rows) == rows
    decreases |rows|
  {
    if rows != [] {
      AllSelected(lib, schema, rows[1..]);
      assert rows == [rows[0]] + rows[1..];
    }
  }
}
