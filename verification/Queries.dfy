/** WHERE clauses, and the lookup that replaces a scan when the clause names the primary key. */
module Queries {
  import opened Options
  import opened Results
  import opened Rows
  import opened Values
  import opened Cdc

  /** A column; `dimension` is that of a vector column. */
  datatype Column = Column(name: string, primaryKey: bool, unique: bool, notNull: bool, dimension: Option<nat>)

  datatype Schema = Schema(name: string, columns: seq<Column>)

  datatype Condition = Condition(column: string, op: Operator, value: Value)

  // ---------------------------------------------------------------- columns

  /** The first column with the given name. */
  function Position(cs: seq<Column>, name: string): (r: Option<nat>)
    ensures r.Some? ==> r.value < |cs| && cs[r.value].name == name
    ensures r.None? ==> forall i :: 0 <= i < |cs| ==> cs[i].name != name
    decreases |cs|
  {
    if cs == [] then None
    else if cs[0].name == name then Some(0)
    else
      var r := Position(cs[1..], name);
      assert forall i :: 0 < i < |cs| ==> cs[i] == cs[1..][i - 1];
      if r.Some? then Some(r.value + 1) else None
  }

  /** The first column marked as primary key. */
  function KeyColumn(cs: seq<Column>): (r: Option<nat>)
    ensures r.Some? ==> r.value < |cs| && cs[r.value].primaryKey && forall i :: 0 <= i < r.value ==> !cs[i].primaryKey
    ensures r.None? ==> forall i :: 0 <= i < |cs| ==> !cs[i].primaryKey
    decreases |cs|
  {
    if cs == [] then None
    else if cs[0].primaryKey then Some(0)
    else
      var r := KeyColumn(cs[1..]);
      assert forall i :: 0 < i < |cs| ==> cs[i] == cs[1..][i - 1];
      if r.Some? then Some(r.value + 1) else None
  }

  ghost predicate DistinctNames(cs: seq<Column>) {
    forall i, j :: 0 <= i < j < |cs| ==> cs[i].name != cs[j].name
  }

  /** Every row is as wide as the schema, and its key column holds the key it is stored under. */
  ghost predicate WellKeyed(schema: Schema, t: Table) {
    forall k :: k in t ==> RowOk(schema, k, t[k])
  }

  ghost predicate RowOk(schema: Schema, k: int, row: Row) {
    && |row| == |schema.columns|
    && (KeyColumn(schema.columns).Some? ==> var v := row[KeyColumn(schema.columns).value]; v.Integer? && v.i == k)
  }

  // ---------------------------------------------------------------- conditions

  /** One condition on one row; an unknown column is an error. */
  function IsTrueOf(lib: Library, schema: Schema, c: Condition, row: Row): Result<bool> {
    var p := Position(schema.columns, c.column);
    if p.None? || p.value >= |row| then Err(Invalid) else Evaluate(lib, c.op, row[p.value], c.value)
  }

  /** Conditions are tried in order up to the first that is false or fails. */
  function EvaluateWhere(lib: Library, schema: Schema, cs: seq<Condition>, row: Row): Result<bool>
    decreases |cs|
  {
    if cs == [] then Ok(true)
    else
      var r := IsTrueOf(lib, schema, cs[0], row);
      if r == Ok(true) then EvaluateWhere(lib, schema, cs[1..], row) else r
  }

  /** A row is selected when its clause evaluates to true: an error counts as false. */
  predicate Selected(lib: Library, schema: Schema, clause: Option<seq<Condition>>, row: Row) {
    clause.None? || EvaluateWhere(lib, schema, clause.value, row) == Ok(true)
  }

  /** A row is selected exactly when every condition evaluates to true on it. */
  lemma {:induction false} SelectedMeansAll(lib: Library, schema: Schema, cs: seq<Condition>, row: Row)
    ensures EvaluateWhere(lib, schema, cs, row) == Ok(true) <==> forall i :: 0 <= i < |cs| ==> IsTrueOf(lib, schema, cs[i], row) == Ok(true)
    decreases |cs|
  {
    if cs != [] {
      SelectedMeansAll(lib, schema, cs[1..], row);
      assert forall i :: 0 < i < |cs| ==> cs[i] == cs[1..][i - 1];
    }
  }

  /** One condition on a column selects by that column's value in the row, on the left, and the
      value in the statement, on the right; all else about the row is immaterial. */
  lemma {:induction false} SelectedByColumn(lib: Library, schema: Schema, p: nat, op: Operator, v: Value, row: Row)
    requires DistinctNames(schema.columns) && p < |schema.columns| && p < |row|
    ensures Selected(lib, schema, Some([Condition(schema.columns[p].name, op, v)]), row) <==> Evaluate(lib, op, row[p], v) == Ok(true)
  {
    var cs := [Condition(schema.columns[p].name, op, v)];
    assert Position(schema.columns, schema.columns[p].name) == Some(p);
    SelectedMeansAll(lib, schema, cs, row);
    assert cs[0].column == schema.columns[p].name;
  }

  /** WHERE c > 5 and the like, on integers. */
  lemma {:induction false} SelectedByInteger(lib: Library, schema: Schema, p: nat, y: I64, row: Row)
    requires DistinctNames(schema.columns) && p < |schema.columns| && p < |row| && row[p].Integer?
    ensures var name, x := schema.columns[p].name, row[p].i;
            && (Selected(lib, schema, Some([Condition(name, EqualTo, Integer(y))]), row) <==> x == y)
            && (Selected(lib, schema, Some([Condition(name, NotEqual, Integer(y))]), row) <==> x != y)
            && (Selected(lib, schema, Some([Condition(name, GreaterThan, Integer(y))]), row) <==> x > y)
            && (Selected(lib, schema, Some([Condition(name, LessThan, Integer(y))]), row) <==> x < y)
            && (Selected(lib, schema, Some([Condition(name, AtLeast, Integer(y))]), row) <==> x >= y)
            && (Selected(lib, schema, Some([Condition(name, AtMost, Integer(y))]), row) <==> x <= y)
  {
    EvaluateIntegers(lib, row[p].i, y);
    SelectedByColumn(lib, schema, p, EqualTo, Integer(y), row);
    SelectedByColumn(lib, schema, p, NotEqual, Integer(y), row);
    SelectedByColumn(lib, schema, p, GreaterThan, Integer(y), row);
    SelectedByColumn(lib, schema, p, LessThan, Integer(y), row);
    SelectedByColumn(lib, schema, p, AtLeast, Integer(y), row);
    SelectedByColumn(lib, schema, p, AtMost, Integer(y), row);
  }

  /** A condition on a column that does not exist selects nothing. */
  lemma {:induction false} UnknownColumn(lib: Library, schema: Schema, c: Condition, row: Row)
    requires forall i :: 0 <= i < |schema.columns| ==> schema.columns[i].name != c.column
    ensures !Selected(lib, schema, Some([c]), row)
  {
    SelectedMeansAll(lib, schema, [c], row);
    assert [c][0] == c;
  }

  function Filter(lib: Library, schema: Schema, clause: Option<seq<Condition>>, rows: seq<(int, Row)>): seq<(int, Row)>
    decreases |rows|
  {
    if rows == [] then []
    else if Selected(lib, schema, clause, rows[0].1) then [rows[0]] + Filter(lib, schema, clause, rows[1..])
    else Filter(lib, schema, clause, rows[1..])
  }

  // ---------------------------------------------------------------- the fast path

  /** The integer that the first condition of the form <key column> = <integer> asks for. */
  function WantedKey(name: string, cs: seq<Condition>): (r: Option<int>)
    ensures r.Some? ==> exists i :: 0 <= i < |cs| && cs[i].column == name && cs[i].op.EqualTo? && cs[i].value.Integer? && cs[i].value.i == r.value
    decreases |cs|
  {
    if cs == [] then None
    else if cs[0].op.EqualTo? && cs[0].value.Integer? && cs[0].column == name then Some(cs[0].value.i)
    else
      var r := WantedKey(name, cs[1..]);
      assert forall i :: 0 <= i < |cs[1..]| ==> cs[1..][i] == cs[i + 1];
      r
  }

  /** A scan of the table: its rows by increasing key. */
  ghost predicate IsScan(t: Table, rows: seq<(int, Row)>) {
    && (forall i, j :: 0 <= i < j < |rows| ==> rows[i].0 < rows[j].0)
    && (forall i :: 0 <= i < |rows| ==> rows[i].0 in t && t[rows[i].0] == rows[i].1)
    && (forall k :: k in t ==> (k, t[k]) in rows)
  }

  /** The rows that a clause could select: one lookup if it asks for a key, else the whole scan. */
  function CandidateRows(schema: Schema, t: Table, scan: seq<(int, Row)>, clause: Option<seq<Condition>>): seq<(int, Row)> {
    var p := KeyColumn(schema.columns);
    if clause.None? || p.None? then scan
    else
      var wanted := WantedKey(schema.columns[p.value].name, clause.value);
      if wanted.None? then scan
      else if wanted.value in t then [(wanted.value, t[wanted.value])]
      else []
  }

  /** The rows that a statement works on. */
  function Chosen(lib: Library, schema: Schema, t: Table, scan: seq<(int, Row)>, clause: Option<seq<Condition>>): seq<(int, Row)> {
    Filter(lib, schema, clause, CandidateRows(schema, t, scan, clause))
  }

  /** A row under another key than the one asked for is not selected, whether the conditions
      before that one hold, fail or raise errors. */
  lemma {:induction false} OthersNotSelected(lib: Library, schema: Schema, cs: seq<Condition>, k: int, row: Row)
    requires DistinctNames(schema.columns) && KeyColumn(schema.columns).Some? && RowOk(schema, k, row)
    requires var w := WantedKey(schema.columns[KeyColumn(schema.columns).value].name, cs); w.Some? && w.value != k
    ensures EvaluateWhere(lib, schema, cs, row) != Ok(true)
  {
    var p := KeyColumn(schema.columns).value;
    var name := schema.columns[p].name;
    var i :| 0 <= i < |cs| && cs[i].column == name && cs[i].op.EqualTo? && cs[i].value.Integer? && cs[i].value.i == WantedKey(name, cs).value;
    assert Position(schema.columns, name) == Some(p);
    assert IsTrueOf(lib, schema, cs[i], row) == Ok(false);
    SelectedMeansAll(lib, schema, cs, row);
  }

  lemma {:induction false} FilterNone(lib: Library, schema: Schema, clause: Option<seq<Condition>>, rows: seq<(int, Row)>)
    requires forall i :: 0 <= i < |rows| ==> !Selected(lib, schema, clause, rows[i].1)
    ensures Filter(lib, schema, clause, rows) == []
    decreases |rows|
  {
    if rows != [] {
      assert forall i :: 0 <= i < |rows[1..]| ==> rows[1..][i] == rows[i + 1];
      FilterNone(lib, schema, clause, rows[1..]);
    }
  }

  lemma {:induction false} FilterAppend(lib: Library, schema: Schema, clause: Option<seq<Condition>>, a: seq<(int, Row)>, b: seq<(int, Row)>)
    ensures Filter(lib, schema, clause, a + b) == Filter(lib, schema, clause, a) + Filter(lib, schema, clause, b)
    decreases |a|
  {
    if a == [] {
      assert a + b == b;
    } else {
      assert (a + b)[1..] == a[1..] + b;
      FilterAppend(lib, schema, clause, a[1..], b);
    }
  }

  /** The lookup preserves the meaning of the query: on every table whose rows carry their keys,
      and for every clause, errors included, filtering the candidates is filtering the scan. */
  lemma {:induction false} FastPathExact(lib: Library, schema: Schema, t: Table, scan: seq<(int, Row)>, clause: Option<seq<Condition>>)
    requires DistinctNames(schema.columns) && WellKeyed(schema, t) && IsScan(t, scan)
    ensures Chosen(lib, schema, t, scan, clause) == Filter(lib, schema, clause, scan)
  {
    var p := KeyColumn(schema.columns);
    if clause.Some? && p.Some? {
      var w := WantedKey(schema.columns[p.value].name, clause.value);
      if w.Some? {
        forall i | 0 <= i < |scan| && scan[i].0 != w.value
          ensures !Selected(lib, schema, clause, scan[i].1)
        {
          OthersNotSelected(lib, schema, clause.value, scan[i].0, scan[i].1);
        }
        if w.value in t {
          OneWanted(lib, schema, t, scan, clause, w.value);
        } else {
          FilterNone(lib, schema, clause, scan);
        }
      }
    }
  }

  lemma {:induction false} FilterAround(lib: Library, schema: Schema, clause: Option<seq<Condition>>, a: seq<(int, Row)>, x: (int, Row), b: seq<(int, Row)>)
    requires forall i :: 0 <= i < |a| ==> !Selected(lib, schema, clause, a[i].1)
    requires forall i :: 0 <= i < |b| ==> !Selected(lib, schema, clause, b[i].1)
    ensures Filter(lib, schema, clause, a + ([x] + b)) == Filter(lib, schema, clause, [x])
  {
    FilterNone(lib, schema, clause, a);
    FilterNone(lib, schema, clause, b);
    FilterAppend(lib, schema, clause, a, [x] + b);
    FilterAppend(lib, schema, clause, [x], b);
  }

  lemma {:induction false} OneWanted(lib: Library, schema: Schema, t: Table, scan: seq<(int, Row)>, clause: Option<seq<Condition>>, k: int)
    requires IsScan(t, scan) && k in t
    requires forall i :: 0 <= i < |scan| && scan[i].0 != k ==> !Selected(lib, schema, clause, scan[i].1)
    ensures Filter(lib, schema, clause, scan) == Filter(lib, schema, clause, [(k, t[k])])
  {
    var i := PlaceOf(scan, (k, t[k]));
    FilterAround(lib, schema, clause, scan[..i], scan[i], scan[i + 1..]);
    assert scan == scan[..i] + ([scan[i]] + scan[i + 1..]);
  }

  lemma PlaceOf(rows: seq<(int, Row)>, r: (int, Row)) returns (i: nat)
    requires r in rows
    ensures i < |rows| && rows[i] == r
  {
    i :| 0 <= i < |rows| && rows[i] == r;
  }
}
