/** Runs of statements on one table: what every table that the executor makes satisfies. */
module TableRuns {
  import opened Options
  import opened Results
  import opened Rows
  import opened Values
  import opened Cdc
  import opened Queries
  import opened Unique
  import opened Dml
  import opened Update
  import Shape = BTreeShape

  datatype TableState = TableState(schema: Schema, table: Table)

  datatype Alteration =
    | AddColumn(column: Column)
    | DropColumn(name: string)
    | RenameColumn(name: string, newName: string)

  datatype Statement =
    | InsertInto(names: seq<string>, values: seq<Value>)
    | UpdateSet(assignments: seq<Assignment>, where: Option<seq<Condition>>)
    | DeleteFrom(where: Option<seq<Condition>>)
    | AlterTable(action: Alteration)

  // ---------------------------------------------------------------- ALTER TABLE

  function Rewritten(t: Table, f: Row -> Row): Table {
    map k | k in t :: f(t[k])
  }

  function AlteredColumns(cs: seq<Column>, a: Alteration): Option<seq<Column>> {
    match a
    case AddColumn(c) => if Position(cs, c.name).Some? then None else Some(cs + [c])
    case DropColumn(name) =>
      var p := Position(cs, name);
      if p.None? || cs[p.value].primaryKey then None else Some(Shape.RemoveAt(cs, p.value))
    case RenameColumn(name, newName) =>
      var p := Position(cs, name);
      if Position(cs, newName).Some? || p.None? then None else Some(cs[p.value := cs[p.value].(name := newName)])
  }

  /** What becomes of a row: a trailing NULL, or the dropped column taken out. */
  function AlteredRow(cs: seq<Column>, a: Alteration): Row -> Row {
    match a
    case AddColumn(_) => (row: Row) => row + [Null]
    case DropColumn(name) => (row: Row) => if Position(cs, name).Some? && Position(cs, name).value < |row| then Shape.RemoveAt(row, Position(cs, name).value) else row
    case RenameColumn(_, _) => (row: Row) => row
  }

  function Altered(st: TableState, a: Alteration): Option<TableState> {
    var cs := AlteredColumns(st.schema.columns, a);
    if cs.None? then None
    else Some(TableState(st.schema.(columns := cs.value), Rewritten(st.table, AlteredRow(st.schema.columns, a))))
  }

  /** Deletes and reinserts every row of a scan in its new form. */
  method RewriteRows(t: Table, scan: seq<(int, Row)>, f: Row -> Row) returns (t': Table)
    requires IsScan(t, scan)
    ensures t' == Rewritten(t, f)
  {
    t' := t;
    for n := 0 to |scan|
      invariant forall k :: k in t' <==> k in t
      invariant forall i :: 0 <= i < n ==> t'[scan[i].0] == f(scan[i].1)
      invariant forall i :: n <= i < |scan| ==> t'[scan[i].0] == scan[i].1
    {
      t' := t' - {scan[n].0};
      t' := t'[scan[n].0 := f(scan[n].1)];
    }
    forall k
      ensures (k in t' <==> k in Rewritten(t, f)) && (k in t' ==> t'[k] == Rewritten(t, f)[k])
    {
      if k in t {
        assert (k, t[k]) in scan;
      }
    }
    SameTable(t', Rewritten(t, f));
  }

  method ExecuteAlter(st: TableState, scan: seq<(int, Row)>, a: Alteration) returns (res: Option<TableState>)
    requires IsScan(st.table, scan)
    ensures res == Altered(st, a)
  {
    var cs := AlteredColumns(st.schema.columns, a);
    if cs.None? {
      return None;
    }
    var t := RewriteRows(st.table, scan, AlteredRow(st.schema.columns, a));
    return Some(TableState(st.schema.(columns := cs.value), t));
  }

  // ---------------------------------------------------------------- what ALTER TABLE means

  /** The row holds `v` in the column `c`. */
  ghost predicate Has(cs: seq<Column>, row: Row, c: Column, v: Value) {
    exists p :: HasAt(cs, row, c, v, p)
  }

  ghost predicate HasAt(cs: seq<Column>, row: Row, c: Column, v: Value, p: int) {
    0 <= p < |cs| && p < |row| && cs[p] == c && row[p] == v
  }

  ghost predicate HasName(cs: seq<Column>, name: string) {
    exists p :: 0 <= p < |cs| && cs[p].name == name
  }

  /** What a column holds afterwards: an added one NULL, a renamed one its value under the new
      name, all others but the dropped one what they held. */
  ghost predicate HasAfter(cs: seq<Column>, a: Alteration, row: Row, c: Column, v: Value) {
    match a
    case AddColumn(added) => Has(cs, row, c, v) || (c == added && v == Null)
    case DropColumn(name) => c.name != name && Has(cs, row, c, v)
    case RenameColumn(name, newName) => (c.name != name && Has(cs, row, c, v)) || (c.name == newName && Has(cs, row, c.(name := name), v))
  }

  lemma {:induction false} AddMeans(cs: seq<Column>, added: Column, row: Row, c: Column, v: Value)
    requires |row| == |cs|
    ensures Has(cs + [added], row + [Null], c, v) <==> Has(cs, row, c, v) || (c == added && v == Null)
  {
    if Has(cs, row, c, v) {
      var p :| HasAt(cs, row, c, v, p);
      assert HasAt(cs + [added], row + [Null], c, v, p);
    } else if c == added && v == Null {
      assert HasAt(cs + [added], row + [Null], c, v, |cs|);
    }
    if Has(cs + [added], row + [Null], c, v) {
      var p :| HasAt(cs + [added], row + [Null], c, v, p);
      assert p < |cs| ==> HasAt(cs, row, c, v, p);
    }
  }

  lemma {:induction false} DropMeans(cs: seq<Column>, d: nat, row: Row, c: Column, v: Value)
    requires |row| == |cs| && DistinctNames(cs) && d < |cs|
    ensures Has(Shape.RemoveAt(cs, d), Shape.RemoveAt(row, d), c, v) <==> c.name != cs[d].name && Has(cs, row, c, v)
  {
    var cs', row' := Shape.RemoveAt(cs, d), Shape.RemoveAt(row, d);
    if Has(cs', row', c, v) {
      var p :| HasAt(cs', row', c, v, p);
      assert HasAt(cs, row, c, v, if p < d then p else p + 1);
    }
    if c.name != cs[d].name && Has(cs, row, c, v) {
      var p :| HasAt(cs, row, c, v, p);
      assert HasAt(cs', row', c, v, if p < d then p else p - 1);
    }
  }

  lemma {:induction false} RenameMeans(cs: seq<Column>, d: nat, newName: string, row: Row, c: Column, v: Value)
    requires |row| == |cs| && DistinctNames(cs) && d < |cs|
    ensures Has(cs[d := cs[d].(name := newName)], row, c, v) <==>
            (c.name != cs[d].name && Has(cs, row, c, v)) || (c.name == newName && Has(cs, row, c.(name := cs[d].name), v))
  {
    var cs' := cs[d := cs[d].(name := newName)];
    if Has(cs', row, c, v) {
      WasNamed(cs, d, newName, row, c, v);
    }
    if c.name != cs[d].name && Has(cs, row, c, v) {
      var p :| HasAt(cs, row, c, v, p);
      assert HasAt(cs', row, c, v, p);
    }
    if c.name == newName && Has(cs, row, c.(name := cs[d].name), v) {
      var p :| HasAt(cs, row, c.(name := cs[d].name), v, p);
      assert HasAt(cs', row, c, v, p);
    }
  }

  lemma {:induction false} WasNamed(cs: seq<Column>, d: nat, newName: string, row: Row, c: Column, v: Value)
    requires |row| == |cs| && DistinctNames(cs) && d < |cs| && Has(cs[d := cs[d].(name := newName)], row, c, v)
    ensures (c.name != cs[d].name && Has(cs, row, c, v)) || (c.name == newName && Has(cs, row, c.(name := cs[d].name), v))
  {
    var p :| HasAt(cs[d := cs[d].(name := newName)], row, c, v, p);
    if p == d {
      assert HasAt(cs, row, c.(name := cs[d].name), v, p);
    } else {
      assert HasAt(cs, row, c, v, p);
    }
  }

  /** ALTER TABLE refuses a name that is taken, a column that is not there and dropping the key;
      otherwise it keeps every row under its key, and in every column what it held. */
  lemma {:induction false} AlterMeans(st: TableState, a: Alteration)
    requires DistinctNames(st.schema.columns) && WellKeyed(st.schema, st.table)
    ensures var cs := st.schema.columns;
            Altered(st, a).None? <==> match a
              case AddColumn(c) => HasName(cs, c.name)
              case DropColumn(name) => forall p :: 0 <= p < |cs| && cs[p].name == name ==> cs[p].primaryKey
              case RenameColumn(name, newName) => !HasName(cs, name) || HasName(cs, newName)
    ensures Altered(st, a).Some? ==>
              var st' := Altered(st, a).value;
              && (forall k :: k in st'.table <==> k in st.table)
              && (forall k, c, v :: k in st.table ==> (Has(st'.schema.columns, st'.table[k], c, v) <==> HasAfter(st.schema.columns, a, st.table[k], c, v)))
  {
    var cs := st.schema.columns;
    if Altered(st, a).Some? {
      var st' := Altered(st, a).value;
      forall k, c, v | k in st.table
        ensures Has(st'.schema.columns, st'.table[k], c, v) <==> HasAfter(cs, a, st.table[k], c, v)
      {
        var row := st.table[k];
        assert RowOk(st.schema, k, row);
        match a
        case AddColumn(added) => AddMeans(cs, added, row, c, v);
        case DropColumn(name) => DropMeans(cs, Position(cs, name).value, row, c, v);
        case RenameColumn(name, newName) => RenameMeans(cs, Position(cs, name).value, newName, row, c, v);
      }
    }
  }

  /** Column `c` is column `d` afterwards. */
  ghost predicate IsNow(a: Alteration, c: Column, d: Column) {
    d == if a.RenameColumn? && a.name == c.name then c.(name := a.newName) else c
  }

  /** The columns keep their order, and an added one comes last. */
  lemma {:induction false} AlterOrder(cs: seq<Column>, a: Alteration, i: nat, j: nat, i': nat, j': nat)
    requires DistinctNames(cs) && AlteredColumns(cs, a).Some?
    requires i < j < |cs| && i' < |AlteredColumns(cs, a).value| && j' < |AlteredColumns(cs, a).value|
    requires IsNow(a, cs[i], AlteredColumns(cs, a).value[i']) && IsNow(a, cs[j], AlteredColumns(cs, a).value[j'])
    ensures i' < j'
    ensures a.AddColumn? ==> AlteredColumns(cs, a).value[|cs|] == a.column
  {
    var cs' := AlteredColumns(cs, a).value;
    if a.DropColumn? {
      var p := Position(cs, a.name).value;
      assert cs'[i'] == cs[if i' < p then i' else i' + 1] && cs'[j'] == cs[if j' < p then j' else j' + 1];
    }
  }

  // ---------------------------------------------------------------- what tables satisfy

  /** Column names are distinct, rows carry their keys, UNIQUE columns hold no value twice, and a
      table without a key column is empty. */
  ghost predicate SoundTable(lib: Library, st: TableState) {
    && DistinctNames(st.schema.columns)
    && WellKeyed(st.schema, st.table)
    && UniqueOk(lib, st.schema, st.table)
    && (KeyColumn(st.schema.columns).None? ==> st.table == map[])
  }

  lemma {:induction false} KeyColumnIs(cs: seq<Column>, p: nat)
    requires p < |cs| && cs[p].primaryKey && forall i :: 0 <= i < p ==> !cs[i].primaryKey
    ensures KeyColumn(cs) == Some(p)
  {
  }

  /** A row in its new form still carries its key. */
  ghost predicate KeyStays(cs: seq<Column>, cs': seq<Column>, row: Row, row': Row) {
    && |row'| == |cs'|
    && KeyColumn(cs).Some? && KeyColumn(cs').Some?
    && |row| == |cs| && row'[KeyColumn(cs').value] == row[KeyColumn(cs).value]
  }

  lemma {:induction false} AddKeyStays(cs: seq<Column>, c: Column, row: Row)
    requires |row| == |cs| && KeyColumn(cs).Some?
    ensures KeyStays(cs, cs + [c], row, row + [Null])
  {
    KeyColumnIs(cs + [c], KeyColumn(cs).value);
  }

  lemma {:induction false} DropKeyStays(cs: seq<Column>, p: nat, row: Row)
    requires |row| == |cs| && KeyColumn(cs).Some? && p < |cs| && !cs[p].primaryKey
    ensures KeyStays(cs, Shape.RemoveAt(cs, p), row, Shape.RemoveAt(row, p))
  {
    var q := KeyColumn(cs).value;
    KeyColumnIs(Shape.RemoveAt(cs, p), if q < p then q else q - 1);
  }

  lemma {:induction false} RenameKeyStays(cs: seq<Column>, p: nat, name: string, row: Row)
    requires |row| == |cs| && KeyColumn(cs).Some? && p < |cs|
    ensures KeyStays(cs, cs[p := cs[p].(name := name)], row, row)
  {
    KeyColumnIs(cs[p := cs[p].(name := name)], KeyColumn(cs).value);
  }

  lemma {:induction false} AlterKeyStays(cs: seq<Column>, a: Alteration, row: Row)
    requires |row| == |cs| && KeyColumn(cs).Some? && AlteredColumns(cs, a).Some?
    ensures KeyStays(cs, AlteredColumns(cs, a).value, row, AlteredRow(cs, a)(row))
  {
    match a
    case AddColumn(c) => AddKeyStays(cs, c, row);
    case DropColumn(name) => DropKeyStays(cs, Position(cs, name).value, row);
    case RenameColumn(name, newName) => RenameKeyStays(cs, Position(cs, name).value, newName, row);
  }

  lemma {:induction false} AlterNames(cs: seq<Column>, a: Alteration)
    requires DistinctNames(cs) && AlteredColumns(cs, a).Some?
    ensures DistinctNames(AlteredColumns(cs, a).value)
  {
    var cs' := AlteredColumns(cs, a).value;
    match a
    case AddColumn(c) =>
    case RenameColumn(name, newName) =>
    case DropColumn(name) =>
      var p := Position(cs, name).value;
      forall i, j | 0 <= i < j < |cs'|
        ensures cs'[i].name != cs'[j].name
      {
        assert cs'[i] == cs[if i < p then i else i + 1] && cs'[j] == cs[if j < p then j else j + 1];
      }
  }

  /** The UNIQUE column that a UNIQUE column of the altered table was, if it was there. */
  lemma {:induction false} AlterClash(lib: Library, schema: Schema, a: Alteration, x: Row, y: Row, ci: nat)
    requires AlteredColumns(schema.columns, a).Some? && |x| == |y| == |schema.columns|
    requires IsUniqueColumn(schema.(columns := AlteredColumns(schema.columns, a).value), ci)
    ensures var f := AlteredRow(schema.columns, a);
            Clash(lib, f(x), f(y), ci) ==> exists cj: nat :: IsUniqueColumn(schema, cj) && Clash(lib, x, y, cj)
  {
    var cs := schema.columns;
    var f := AlteredRow(cs, a);
    if Clash(lib, f(x), f(y), ci) {
      match a
      case AddColumn(c) =>
        assert ci < |cs|;
        assert IsUniqueColumn(schema, ci) && Clash(lib, x, y, ci);
      case RenameColumn(_, _) =>
        assert IsUniqueColumn(schema, ci) && Clash(lib, x, y, ci);
      case DropColumn(name) =>
        var p := Position(cs, name).value;
        var cj := if ci < p then ci else ci + 1;
        assert IsUniqueColumn(schema, cj) && Clash(lib, x, y, cj);
    }
  }

  /** ALTER TABLE keeps all of it. */
  lemma {:induction false} AlterSound(lib: Library, st: TableState, a: Alteration)
    requires SoundTable(lib, st) && Altered(st, a).Some?
    ensures SoundTable(lib, Altered(st, a).value)
  {
    var cs, st' := st.schema.columns, Altered(st, a).value;
    var f := AlteredRow(cs, a);
    AlterNames(cs, a);
    if KeyColumn(cs).None? {
      assert st'.table == map[];
    } else {
      forall k | k in st'.table
        ensures RowOk(st'.schema, k, st'.table[k])
      {
        assert RowOk(st.schema, k, st.table[k]);
        AlterKeyStays(cs, a, st.table[k]);
      }
      forall ci: nat, k, l | IsUniqueColumn(st'.schema, ci) && k in st'.table && l in st'.table && k != l
        ensures !Clash(lib, st'.table[k], st'.table[l], ci)
      {
        assert RowOk(st.schema, k, st.table[k]) && RowOk(st.schema, l, st.table[l]);
        AlterClash(lib, st.schema, a, st.table[k], st.table[l], ci);
      }
      KeyColumnKept(cs, a, st);
    }
  }

  lemma {:induction false} KeyColumnKept(cs: seq<Column>, a: Alteration, st: TableState)
    requires KeyColumn(cs).Some? && AlteredColumns(cs, a).Some?
    ensures KeyColumn(AlteredColumns(cs, a).value).Some?
  {
    AlterKeyStays(cs, a, seq(|cs|, _ => Null));
  }

  // ---------------------------------------------------------------- one statement

  /** What INSERT, UPDATE and DELETE compute from a table and its scan. */
  ghost predicate Computes(lib: Library, schema: Schema, t: Table, scan: seq<(int, Row)>, stmt: Statement, out: Outcome) {
    match stmt
    case InsertInto(names, values) => Inserts(lib, schema, t, scan, names, values, out)
    case UpdateSet(az, where) => Updates(lib, schema, t, scan, az, where, out)
    case DeleteFrom(where) => Deletes(lib, schema, t, scan, where, out)
    case AlterTable(_) => false
  }

  /** The two things a statement must not do: give the key column two different values, or
      assign it on two rows. */
  ghost predicate Proper(lib: Library, schema: Schema, t: Table, stmt: Statement) {
    match stmt
    case InsertInto(names, values) => KeyGivenOnce(schema, names, values)
    case UpdateSet(az, where) =>
      AssignsKey(schema, az) ==> forall k, l :: k in t && l in t && Selected(lib, schema, where, t[k]) && Selected(lib, schema, where, t[l]) ==> k == l
    case _ => true
  }

  lemma {:induction false} ProperNotDoubled(lib: Library, schema: Schema, t: Table, scan: seq<(int, Row)>, stmt: Statement, out: Outcome)
    requires WellKeyed(schema, t) && IsScan(t, scan) && Computes(lib, schema, t, scan, stmt, out) && Proper(lib, schema, t, stmt)
    ensures !out.Doubled?
  {
    if stmt.UpdateSet? && !out.Failed? {
      UpdateDoubles(lib, schema, t, scan, stmt.assignments, stmt.where, out);
      var rows := Chosen(lib, schema, t, scan, stmt.where);
      ChosenSub(lib, schema, stmt.where, scan, t);
      assert 2 <= |rows| ==> rows[0] in rows && rows[1] in rows;
    }
  }

  /** A statement that goes through keeps keys and UNIQUE, and what it captures replays to the
      table it makes. */
  lemma {:induction false} StatementSound(lib: Library, schema: Schema, t: Table, scan: seq<(int, Row)>, stmt: Statement, out: Outcome, pk: KeyOf)
    requires DistinctNames(schema.columns) && WellKeyed(schema, t) && IsScan(t, scan)
    requires Computes(lib, schema, t, scan, stmt, out) && Proper(lib, schema, t, stmt) && out.Done?
    ensures WellKeyed(schema, out.table)
    ensures UniqueOk(lib, schema, t) ==> UniqueOk(lib, schema, out.table)
    ensures KnowsKeys(pk, schema) ==> Replays(pk, schema.name, t, out.changes, out.table)
    ensures KeyColumn(schema.columns).None? && t == map[] ==> out.table == map[]
  {
    match stmt
    case InsertInto(names, values) => InsertSound(lib, schema, t, scan, names, values, out, pk);
    case UpdateSet(az, where) => UpdateSound(lib, schema, t, scan, az, where, out, pk);
    case DeleteFrom(where) =>
      DeleteSound(lib, schema, t, scan, where, out, pk);
      if t == map[] {
        SameTable(out.table, map[]);
      }
  }

  /** One statement, failing for any reason or done. A key stored twice leaves no table to speak of. */
  ghost predicate Steps(lib: Library, st: TableState, stmt: Statement, st': TableState) {
    || st' == st
    || (stmt.AlterTable? && Altered(st, stmt.action) == Some(st'))
    || exists scan, out :: IsScan(st.table, scan) && Computes(lib, st.schema, st.table, scan, stmt, out) && LeadsTo(st, out, st')
  }

  ghost predicate LeadsTo(st: TableState, out: Outcome, st': TableState) {
    match out
    case Done(t, _) => st' == st.(table := t)
    case Failed => st' == st
    case Doubled => true
  }

  lemma {:induction false} StepSound(lib: Library, st: TableState, stmt: Statement, st': TableState)
    requires SoundTable(lib, st) && Steps(lib, st, stmt, st') && Proper(lib, st.schema, st.table, stmt)
    ensures SoundTable(lib, st')
  {
    if st' != st {
      if stmt.AlterTable? && Altered(st, stmt.action) == Some(st') {
        AlterSound(lib, st, stmt.action);
      } else {
        var scan, out :| IsScan(st.table, scan) && Computes(lib, st.schema, st.table, scan, stmt, out) && LeadsTo(st, out, st');
        ProperNotDoubled(lib, st.schema, st.table, scan, stmt, out);
        var pk: KeyOf := (_, _) => 0;
        StatementSound(lib, st.schema, st.table, scan, stmt, out, pk);
      }
    }
  }

  // ---------------------------------------------------------------- whole runs

  /** The states of a run, one more than its statements. */
  ghost predicate IsRun(lib: Library, states: seq<TableState>, stmts: seq<Statement>) {
    && |states| == |stmts| + 1
    && forall i :: 0 <= i < |stmts| ==> Steps(lib, states[i], stmts[i], states[i + 1]) && Proper(lib, states[i].schema, states[i].table, stmts[i])
  }

  lemma {:induction false} RunSound(lib: Library, states: seq<TableState>, stmts: seq<Statement>, n: nat)
    requires IsRun(lib, states, stmts) && SoundTable(lib, states[0]) && n < |states|
    ensures SoundTable(lib, states[n])
    decreases n
  {
    if n != 0 {
      RunSound(lib, states, stmts, n - 1);
      assert Steps(lib, states[n - 1], stmts[n - 1], states[n - 1 + 1]) && Proper(lib, states[n - 1].schema, states[n - 1].table, stmts[n - 1]);
      StepSound(lib, states[n - 1], stmts[n - 1], states[n]);
    }
  }

  /** From an empty table, over every run of INSERT, UPDATE, DELETE and ALTER TABLE, each failing
      or done, that never gives the key column two values nor assigns it on two rows: every row
      carries its key, UNIQUE columns hold no value twice, and so every query answered through
      the key lookup is the query on the whole table. */
  lemma {:induction false} TableInvariants(lib: Library, states: seq<TableState>, stmts: seq<Statement>, n: nat)
    requires IsRun(lib, states, stmts) && n < |states|
    requires states[0].table == map[] && DistinctNames(states[0].schema.columns)
    ensures WellKeyed(states[n].schema, states[n].table) && UniqueOk(lib, states[n].schema, states[n].table)
    ensures forall scan, where :: IsScan(states[n].table, scan) ==>
              Chosen(lib, states[n].schema, states[n].table, scan, where) == Filter(lib, states[n].schema, where, scan)
  {
    RunSound(lib, states, stmts, n);
    forall scan, where | IsScan(states[n].table, scan)
      ensures Chosen(lib, states[n].schema, states[n].table, scan, where) == Filter(lib, states[n].schema, where, scan)
    {
      FastPathExact(lib, states[n].schema, states[n].table, scan, where);
    }
  }

  // ---------------------------------------------------------------- why the key must be given once

  function TwoColumns(): Schema {
    Schema("t", [Column("id", true, false, false, None), Column("v", false, false, false, None)])
  }

  lemma {:induction false} TwoColumnsAre()
    ensures var cs := TwoColumns().columns;
            KeyColumn(cs) == Some(0) && Position(cs, "id") == Some(0) && Position(cs, "v") == Some(1)
  {
    var cs := TwoColumns().columns;
    assert cs[0].name == "id" && cs[1].name == "v" && "id"[0] != "v"[0];
    KeyColumnIs(cs, 0);
  }

  lemma {:induction false} TwiceNamedInsert(lib: Library)
    ensures Inserts(lib, TwoColumns(), map[], [], ["id", "id"], [Integer(1), Integer(2)],
                    Done(map[1 := [Integer(2), Null]], [Inserted("t", 1, [Integer(2), Null])]))
  {
    var schema, names, values := TwoColumns(), ["id", "id"], [Integer(1), Integer(2)];
    TwoColumnsAre();
    assert FirstNamed(names, "id") == Some(0);
    assert names[..1] == ["id"] && values[..1] == [Integer(1)] && names[..1][..0] == [] && values[..1][..0] == [];
    assert RowFrom(schema, [], []) == [Null, Null];
    assert RowFrom(schema, names[..1], values[..1]) == [Integer(1), Null];
    assert RowFrom(schema, names, values) == [Integer(2), Null];
    assert !NullRefused(schema, names, values) && !VectorRefused(schema, names, values);
    var none: Table := map[];
    assert none[1 := [Integer(2), Null]] == map[1 := [Integer(2), Null]];
  }

  lemma {:induction false} ThenUpdate(lib: Library)
    ensures Updates(lib, TwoColumns(), map[1 := [Integer(2), Null]], [(1, [Integer(2), Null])], [Assignment("v", Integer(7))], None,
                    Done(map[1 := [Integer(2), Integer(7)]], [Updated("t", 1, [Integer(2), Null], [Integer(2), Integer(7)])]))
  {
    var schema, scan, az := TwoColumns(), [(1, [Integer(2), Null])], [Assignment("v", Integer(7))];
    var t: Table := map[1 := [Integer(2), Null]];
    TwoColumnsAre();
    AllSelected(lib, schema, scan);
    assert az[1..] == [];
    assert [Integer(2), Null][1 := Integer(7)] == [Integer(2), Integer(7)];
    assert Assigned(schema, az, 1, [Integer(2), Null]) == Ok((1, [Integer(2), Integer(7)]));
    var us := PlanOf(schema, az, scan);
    assert us == [RowUpdate(1, 1, [Integer(2), Null], [Integer(2), Integer(7)])];
    assert Applied(t, us, 0) == t;
    SameTable(Applied(t, us, 1), map[1 := [Integer(2), Integer(7)]]);
    assert !Refuses(schema, t, az, scan[0]);
    assert forall ci: nat :: !IsUniqueColumn(schema, ci);
  }

  /** A row stored under a key it does not carry leads the feed astray: after the next UPDATE
      that touches it, replaying the changes does not give the table. */
  lemma {:induction false} TwiceNamedDiverges(lib: Library, pk: KeyOf)
    requires KnowsKeys(pk, TwoColumns())
    ensures var t1, c1 := map[1 := [Integer(2), Null]], [Inserted("t", 1, [Integer(2), Null])];
            var t2, c2 := map[1 := [Integer(2), Integer(7)]], [Updated("t", 1, [Integer(2), Null], [Integer(2), Integer(7)])];
            && Inserts(lib, TwoColumns(), map[], [], ["id", "id"], [Integer(1), Integer(2)], Done(t1, c1))
            && Updates(lib, TwoColumns(), t1, [(1, [Integer(2), Null])], [Assignment("v", Integer(7))], None, Done(t2, c2))
            && ReplayedAll(pk, map["t" := map[]], c1 + c2) != map["t" := t2]
  {
    TwiceNamedInsert(lib);
    ThenUpdate(lib);
    TwoColumnsAre();
    var c1, c2 := Inserted("t", 1, [Integer(2), Null]), Updated("t", 1, [Integer(2), Null], [Integer(2), Integer(7)]);
    var db: Tables := map["t" := map[]];
    assert RowOk(TwoColumns(), 2, [Integer(2), Integer(7)]);
    assert pk("t", [Integer(2), Integer(7)]) == 2;
    assert [c1] + [c2] == [c1, c2] && [c1, c2][..1] == [c1] && [c1][..0] == [];
    assert ReplayedAll(pk, db, []) == db;
    var mid := ReplayedAll(pk, db, [c1]);
    var end := ReplayedAll(pk, db, [c1, c2]);
    assert end == Replayed(pk, mid, c2);
    assert 2 in end["t"];
  }

  /** Nor is such a row found through the value it carries: the lookup goes by the key. */
  lemma {:induction false} FastPathMisses(lib: Library)
    ensures var t, scan := map[1 := [Integer(2), Null]], [(1, [Integer(2), Null])];
            var clause := Some([Condition("id", EqualTo, Integer(2))]);
            IsScan(t, scan) && Chosen(lib, TwoColumns(), t, scan, clause) == [] && Filter(lib, TwoColumns(), clause, scan) == scan
  {
    var t, scan := map[1 := [Integer(2), Null]], [(1, [Integer(2), Null])];
    var cs := [Condition("id", EqualTo, Integer(2))];
    TwoColumnsAre();
    assert WantedKey("id", cs) == Some(2);
    assert scan[0] == (1, t[1]);
    assert cs[1..] == [] && scan[1..] == [];
    assert IsTrueOf(lib, TwoColumns(), cs[0], scan[0].1) == Ok(true);
    assert EvaluateWhere(lib, TwoColumns(), cs, scan[0].1) == Ok(true);
    assert Selected(lib, TwoColumns(), Some(cs), scan[0].1);
  }
}
