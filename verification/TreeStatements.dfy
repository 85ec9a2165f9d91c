/** INSERT, UPDATE and DELETE as runs of tree operations, and what they make of the pages. */
module TreeStatements {
  import opened Options
  import opened Bytes
  import opened Wal
  import opened PagerStore
  import opened Rows
  import opened Values
  import opened Cdc
  import opened Queries
  import opened Dml
  import opened Update
  import opened Sessions
  import opened Replication
  import opened Layouts
  import Sql = TableRuns
  import Shape = BTreeShape
  import Link = BTreeLink
  import Ops = TreeOps
  import Codec = RowCodec

  // ---------------------------------------------------------------- rows as bytes

  type RowWriter = Row -> seq<byte>

  ghost function Writing(): RowWriter {
    row => Codec.EncodeRow(row)
  }

  /** A row that comes back as it was: it can be stored, and no value of it is a Real. */
  ghost predicate Plain(utf8: Utf8, row: Row) {
    Codec.Storable(utf8, row) && forall i :: 0 <= i < |row| ==> !row[i].Real?
  }

  /** Reading undoes writing, for this row. */
  ghost predicate Coded(write: RowWriter, read: RowReader, row: Row) {
    read(write(row)) == row
  }

  lemma {:induction false} PlainIsCoded(utf8: Utf8, row: Row)
    requires Plain(utf8, row)
    ensures Coded(Writing(), Reading(utf8), row)
  {
    var buf := Codec.EncodeRow(row);
    assert buf[0..0 + |buf|] == buf;
    assert Codec.Holds(buf, row);
    Codec.RowRoundTrip(utf8, buf, row);
    assert Codec.RowBack(row) == row;
  }

  // ---------------------------------------------------------------- statements as tree operations

  function DeleteOps(rows: seq<(int, Row)>): (ops: seq<Ops.TreeOp>)
    ensures |ops| == |rows| && forall i :: 0 <= i < |ops| ==> ops[i] == Ops.Take(rows[i].0)
  {
    seq(|rows|, i requires 0 <= i < |rows| => Ops.Take(rows[i].0))
  }

  ghost function UpdateOps(write: RowWriter, us: seq<RowUpdate>, n: nat): seq<Ops.TreeOp>
    requires n <= |us|
  {
    if n == 0 then [] else UpdateOps(write, us, n - 1) + [Ops.Take(us[n - 1].key), Ops.Put(us[n - 1].newKey, write(us[n - 1].after))]
  }

  /** The tree operations of a statement, in order. */
  ghost function OpsFor(write: RowWriter, lib: Library, schema: Schema, t: Table, scan: seq<(int, Row)>, dml: Sql.Statement): seq<Ops.TreeOp> {
    match dml
    case InsertInto(names, values) =>
      var ins := InsertedRow(schema, names, values);
      if ins.Row? then [Ops.Put(ins.key, write(ins.row))] else []
    case DeleteFrom(where) => DeleteOps(Chosen(lib, schema, t, scan, where))
    case UpdateSet(az, where) =>
      var us := PlanOf(schema, az, Chosen(lib, schema, t, scan, where));
      UpdateOps(write, us, |us|)
    case AlterTable(_) => []
  }

  /** Every row that the statement stores comes back as it was. */
  ghost predicate AllCoded(write: RowWriter, read: RowReader, lib: Library, schema: Schema, t: Table, scan: seq<(int, Row)>, dml: Sql.Statement) {
    match dml
    case InsertInto(names, values) =>
      var ins := InsertedRow(schema, names, values);
      ins.Row? ==> Coded(write, read, ins.row)
    case UpdateSet(az, where) =>
      var us := PlanOf(schema, az, Chosen(lib, schema, t, scan, where));
      forall i :: 0 <= i < |us| ==> Coded(write, read, us[i].after)
    case _ => true
  }

  lemma {:induction false} PutDecoded(read: RowReader, rows: Shape.Rows, k: int, data: seq<byte>)
    ensures Decoded(read, rows[k := data]) == Decoded(read, rows)[k := read(data)]
  {
    SameTable(Decoded(read, rows[k := data]), Decoded(read, rows)[k := read(data)]);
  }

  lemma {:induction false} TakeDecoded(read: RowReader, rows: Shape.Rows, k: int)
    ensures Decoded(read, rows - {k}) == Decoded(read, rows) - {k}
  {
    SameTable(Decoded(read, rows - {k}), Decoded(read, rows) - {k});
  }

  lemma {:induction false} DeleteOpsRows(read: RowReader, rows: Shape.Rows, rs: seq<(int, Row)>, n: nat)
    requires n <= |rs|
    ensures Without(Decoded(read, rows), rs, n, Decoded(read, Ops.AfterOps(rows, DeleteOps(rs)[..n])))
    decreases n
  {
    var ops := DeleteOps(rs);
    if n != 0 {
      DeleteOpsRows(read, rows, rs, n - 1);
      AmongStep(rs, n - 1);
      assert ops[..n][..n - 1] == ops[..n - 1];
      TakeDecoded(read, Ops.AfterOps(rows, ops[..n - 1]), rs[n - 1].0);
    }
  }

  lemma {:induction false} TwoMore(rows: Shape.Rows, ops: seq<Ops.TreeOp>, x: Ops.TreeOp, y: Ops.TreeOp)
    ensures Ops.AfterOps(rows, ops + [x, y]) == Ops.AfterOp(Ops.AfterOp(Ops.AfterOps(rows, ops), x), y)
  {
    var all := ops + [x, y];
    assert all[..|all| - 1] == ops + [x] && (ops + [x])[..|ops|] == ops;
  }

  lemma {:induction false} UpdateOpsRows(write: RowWriter, read: RowReader, rows: Shape.Rows, us: seq<RowUpdate>, n: nat)
    requires n <= |us| && forall i :: 0 <= i < |us| ==> Coded(write, read, us[i].after)
    ensures Decoded(read, Ops.AfterOps(rows, UpdateOps(write, us, n))) == Applied(Decoded(read, rows), us, n)
    decreases n
  {
    if n != 0 {
      var u, front := us[n - 1], UpdateOps(write, us, n - 1);
      UpdateOpsRows(write, read, rows, us, n - 1);
      TwoMore(rows, front, Ops.Take(u.key), Ops.Put(u.newKey, write(u.after)));
      var before := Ops.AfterOps(rows, front);
      TakeDecoded(read, before, u.key);
      PutDecoded(read, before - {u.key}, u.newKey, write(u.after));
      assert Coded(write, read, u.after);
    }
  }

  /** The operations make of the tree's rows the table that the statement computes. */
  lemma {:induction false} OpsCompute(write: RowWriter, read: RowReader, lib: Library, schema: Schema, rows: Shape.Rows, scan: seq<(int, Row)>, dml: Sql.Statement, out: Outcome)
    requires Sql.Computes(lib, schema, Decoded(read, rows), scan, dml, out) && out.Done?
    requires AllCoded(write, read, lib, schema, Decoded(read, rows), scan, dml)
    ensures Decoded(read, Ops.AfterOps(rows, OpsFor(write, lib, schema, Decoded(read, rows), scan, dml))) == out.table
  {
    var t := Decoded(read, rows);
    match dml
    case InsertInto(names, values) =>
      var ins := InsertedRow(schema, names, values);
      var op := Ops.Put(ins.key, write(ins.row));
      assert [op][..0] == [];
      assert Ops.AfterOps(rows, [op]) == Ops.AfterOp(Ops.AfterOps(rows, []), op);
      PutDecoded(read, rows, ins.key, write(ins.row));
    case DeleteFrom(where) =>
      var rs := Chosen(lib, schema, t, scan, where);
      DeleteOpsRows(read, rows, rs, |rs|);
      assert DeleteOps(rs)[..|rs|] == DeleteOps(rs);
      SameTable(out.table, Decoded(read, Ops.AfterOps(rows, DeleteOps(rs))));
    case UpdateSet(az, where) =>
      var us := PlanOf(schema, az, Chosen(lib, schema, t, scan, where));
      UpdateOpsRows(write, read, rows, us, |us|);
  }

  // ---------------------------------------------------------------- statements on pages

  lemma {:induction false} PutElsewhere(db: seq<Page>, ws: seq<PageWrite>, p: nat)
    requires Orderly(|db|, ws) && p < |db| && forall i :: 0 <= i < |ws| ==> ws[i].page != p
    ensures p < |PutAll(db, ws)| && PutAll(db, ws)[p] == db[p]
    decreases |ws|
  {
    if ws != [] {
      assert forall i :: 0 <= i < |ws| - 1 ==> ws[..|ws| - 1][i] == ws[i];
      PutElsewhere(db, ws[..|ws| - 1], p);
    }
  }

  lemma {:induction false} LenGrows(n: nat, ws: seq<PageWrite>)
    ensures n <= LenAfter(n, ws)
    decreases |ws|
  {
    if ws != [] {
      LenGrows(n, ws[..|ws| - 1]);
    }
  }

  /** Every page that is written belongs to tree `b`, and afterwards its pages hold its nodes. */
  ghost predicate NodesWritten(view: seq<Page>, ws: seq<PageWrite>, b: Link.Tree)
    requires Orderly(|view|, ws)
  {
    && |PutAll(view, ws)| == b.n && Shows(PutAll(view, ws), b.pages)
    && forall i :: 0 <= i < |ws| ==> ws[i].page in b.pages
  }

  lemma {:induction false} TreeWritten(view: seq<Page>, ws: seq<PageWrite>, a: Link.Tree, root: nat, b: Link.Tree)
    requires SCHEMA_PAGE < |view| && Orderly(|view|, ws) && NodesWritten(view, ws, b)
    requires Link.Sound(b, root) && Link.Grew(a.pages, |view|, b.pages, b.n) && SCHEMA_PAGE !in a.pages
    ensures Replaces(OnPages(), view, PutAll(view, ws), a, root, b)
  {
    LenGrows(|view|, ws);
    forall p | 0 <= p < |view| && p !in b.pages
      ensures PutAll(view, ws)[p] == view[p]
    {
      PutElsewhere(view, ws, p);
    }
  }

  /** Writing the schema page does not matter to a tree. */
  lemma {:induction false} SchemaApart(view: seq<Page>, db: seq<Page>, page: Page, a: Link.Tree, root: nat, b: Link.Tree)
    requires SCHEMA_PAGE < |db| && Replaces(OnPages(), view, db, a, root, b)
    ensures Replaces(OnPages(), view, db[SCHEMA_PAGE := page], a, root, b)
  {
    var db' := db[SCHEMA_PAGE := page];
    assert forall p :: p in b.pages ==> p < |db| && db'[p] == db[p];
    assert TreeOn(db, root, b);
    assert TreeOn(db', root, b);
  }

  /** All that a statement writes, the schema included. */
  lemma {:induction false} StatementWritten(env: Env, view: seq<Page>, e: Effect, a: Link.Tree, root: nat, b: Link.Tree)
    requires EnvOk(env) && SCHEMA_PAGE < |view| && EffectOk(env, view, env.schemaOf(view[SCHEMA_PAGE]), e) && e.ok && NodesWritten(view, e.writes, b)
    requires Link.Sound(b, root) && Link.Grew(a.pages, |view|, b.pages, b.n) && SCHEMA_PAGE !in a.pages
    ensures var ws := WritesOf(env, env.schemaOf(view[SCHEMA_PAGE]), e);
            && Orderly(|view|, ws) && Replaces(OnPages(), view, PutAll(view, ws), a, root, b)
            && SCHEMA_PAGE < |PutAll(view, ws)| && env.schemaOf(PutAll(view, ws)[SCHEMA_PAGE]) == e.catalog
  {
    var cat := env.schemaOf(view[SCHEMA_PAGE]);
    var ws := WritesOf(env, cat, e);
    CatalogSaved(env, view, cat, e);
    TreeWritten(view, e.writes, a, root, b);
    LenGrows(|view|, e.writes);
    if ws != e.writes {
      assert ws[..|ws| - 1] == e.writes;
      SchemaApart(view, PutAll(view, e.writes), env.schemaPage(e.catalog), a, root, b);
    }
  }

  /** How rows are written and read back. */
  datatype Coder = Coder(write: RowWriter, read: RowReader)

  ghost function TreeLayout(env: Env, read: RowReader, pk: KeyOf): Layout {
    Layout(db => TablesOf(env, OnPages(), read, db), pk)
  }

  /** On the trees in view, a statement that succeeds makes the tree operations of `dml` on the
      table's tree, each with the outcome that the tree promises and losing nothing; it writes the
      nodes of the tree it gets and keeps its root in the catalog. */
  ghost predicate RunsOn(env: Env, code: Coder, lib: Library, ss: Session, stmt: Statement, name: string, dml: Sql.Statement, trees: map<string, Link.Tree>) {
    var view := Visible(ss.store);
    var e := stmt(view, ss.catalog);
    e.ok ==>
      && !e.ddl && name in ss.catalog.tables && name in trees && name in ss.catalog.roots && Orderly(|view|, e.writes)
      && exists scan, out, ts, us ::
           OnTree(code, lib, ss.catalog, view, e, name, dml, trees[name], scan, out, ts, us)
  }

  ghost predicate OnTree(code: Coder, lib: Library, cat: Catalog, view: seq<Page>, e: Effect, name: string, dml: Sql.Statement, a: Link.Tree,
                         scan: seq<(int, Row)>, out: Outcome, ts: seq<Link.Tree>, us: seq<nat>)
    requires name in cat.tables && name in cat.roots && Orderly(|view|, e.writes)
  {
    var schema, t := cat.tables[name], Decoded(code.read, a.rows);
    && IsScan(t, scan) && Sql.Computes(lib, schema, t, scan, dml, out) && out.Done? && AllCoded(code.write, code.read, lib, schema, t, scan, dml)
    && Ops.IsOpRun(ts, us, OpsFor(code.write, lib, schema, t, scan, dml)) && ts[0] == a && us[0] == cat.roots[name]
    && e.changes == out.changes && e.catalog == cat.(roots := cat.roots[name := us[|us| - 1]])
    && NodesWritten(view, e.writes, ts[|ts| - 1])
  }

  ghost predicate Executes(env: Env, code: Coder, lib: Library, ss: Session, stmt: Statement, name: string, dml: Sql.Statement) {
    Behaves(env, ss, stmt) && forall trees :: Laid(OnPages(), Visible(ss.store), ss.catalog, trees) ==> RunsOn(env, code, lib, ss, stmt, name, dml, trees)
  }

  /** The tree that the operations leave holds the table that the statement computes. */
  lemma {:induction false} TreeAfter(code: Coder, lib: Library, schema: Schema, dml: Sql.Statement, a: Link.Tree,
                                     scan: seq<(int, Row)>, out: Outcome, ts: seq<Link.Tree>, us: seq<nat>)
    requires var t := Decoded(code.read, a.rows);
             && Sql.Computes(lib, schema, t, scan, dml, out) && out.Done? && AllCoded(code.write, code.read, lib, schema, t, scan, dml)
             && Ops.IsOpRun(ts, us, OpsFor(code.write, lib, schema, t, scan, dml)) && ts[0] == a && Link.Sound(a, us[0])
    ensures var b := ts[|ts| - 1];
            Link.Sound(b, us[|us| - 1]) && Link.Grew(a.pages, a.n, b.pages, b.n) && Decoded(code.read, b.rows) == out.table
  {
    var ops := OpsFor(code.write, lib, schema, Decoded(code.read, a.rows), scan, dml);
    Ops.OpRunRows(ts, us, ops, |ops|);
    assert ops[..|ops|] == ops;
    OpsCompute(code.write, code.read, lib, schema, a.rows, scan, dml, out);
  }

  lemma {:induction false} TableOnPages(env: Env, read: RowReader, view: seq<Page>, e: Effect, trees: map<string, Link.Tree>, name: string, root: nat, b: Link.Tree)
    requires EnvOk(env) && SCHEMA_PAGE < |view| && EffectOk(env, view, env.schemaOf(view[SCHEMA_PAGE]), e) && e.ok && NodesWritten(view, e.writes, b)
    requires Laid(OnPages(), view, env.schemaOf(view[SCHEMA_PAGE]), trees) && name in trees
    requires Link.Sound(b, root) && Link.Grew(trees[name].pages, |view|, b.pages, b.n) && SCHEMA_PAGE !in trees[name].pages
    requires var cat := env.schemaOf(view[SCHEMA_PAGE]);
             e.catalog == cat.(roots := cat.roots[name := root])
    ensures var ws := WritesOf(env, env.schemaOf(view[SCHEMA_PAGE]), e);
            && Orderly(|view|, ws) && IsLaid(env, OnPages(), PutAll(view, ws))
            && TablesOf(env, OnPages(), read, view) == TablesIn(read, trees)
            && TablesOf(env, OnPages(), read, PutAll(view, ws)) == TablesIn(read, trees)[name := Decoded(read, b.rows)]
  {
    StatementWritten(env, view, e, trees[name], root, b);
    PagesDetermine();
    TreesStay();
    TreesBounded();
    TableReplaced(env, OnPages(), read, view, PutAll(view, WritesOf(env, env.schemaOf(view[SCHEMA_PAGE]), e)), trees, name, root, b);
  }

  /** Then the table on the pages is the one that the statement computes, and all others stay. */
  lemma {:induction false} TreeComputes(env: Env, code: Coder, lib: Library, view: seq<Page>, e: Effect, name: string, dml: Sql.Statement, trees: map<string, Link.Tree>,
                                        scan: seq<(int, Row)>, out: Outcome, ts: seq<Link.Tree>, us: seq<nat>)
    requires EnvOk(env) && SCHEMA_PAGE < |view| && EffectOk(env, view, env.schemaOf(view[SCHEMA_PAGE]), e) && e.ok
    requires var cat := env.schemaOf(view[SCHEMA_PAGE]);
             && Laid(OnPages(), view, cat, trees) && name in trees && name in cat.tables && name in cat.roots
             && OnTree(code, lib, cat, view, e, name, dml, trees[name], scan, out, ts, us)
    ensures var ws := WritesOf(env, env.schemaOf(view[SCHEMA_PAGE]), e);
            && Orderly(|view|, ws) && IsLaid(env, OnPages(), PutAll(view, ws))
            && TablesOf(env, OnPages(), code.read, view) == TablesIn(code.read, trees)
            && TablesOf(env, OnPages(), code.read, PutAll(view, ws)) == TablesIn(code.read, trees)[name := out.table]
  {
    var cat := env.schemaOf(view[SCHEMA_PAGE]);
    var a := trees[name];
    assert Planted(OnPages(), view, cat, name, a) && TreeOn(view, cat.roots[name], a);
    TreeAfter(code, lib, cat.tables[name], dml, a, scan, out, ts, us);
    TableOnPages(env, code.read, view, e, trees, name, us[|us| - 1], ts[|ts| - 1]);
  }

  // ---------------------------------------------------------------- the layout holds, over whole runs

  lemma {:induction false} SettledView(env: Env, ss: Session)
    requires Settles(env, ss)
    ensures SCHEMA_PAGE < |Visible(ss.store)| && ss.catalog == env.schemaOf(Visible(ss.store)[SCHEMA_PAGE])
  {
    var gs :| Settled(env, ss, gs);
  }

  /** The layout is no assumption where statements run on the trees: the pages they leave hold the
      table they compute, and hold trees again. */
  lemma {:induction false} TreePerforms(env: Env, code: Coder, lib: Library, pk: KeyOf, ss: Session, stmt: Statement, name: string, dml: Sql.Statement)
    requires EnvOk(env) && Settles(env, ss) && IsLaid(env, OnPages(), Visible(ss.store)) && Executes(env, code, lib, ss, stmt, name, dml)
    ensures Performs(env, lib, TreeLayout(env, code.read, pk), ss, stmt, name, dml)
    ensures var view := Visible(ss.store);
            var e := stmt(view, ss.catalog);
            var ws := WritesOf(env, ss.catalog, e);
            e.ok && Orderly(|view|, ws) ==> IsLaid(env, OnPages(), PutAll(view, ws))
  {
    var view := Visible(ss.store);
    var e := stmt(view, ss.catalog);
    SettledView(env, ss);
    var trees :| Laid(OnPages(), view, ss.catalog, trees);
    assert RunsOn(env, code, lib, ss, stmt, name, dml, trees);
    if e.ok {
      var scan, out, ts, us :| OnTree(code, lib, ss.catalog, view, e, name, dml, trees[name], scan, out, ts, us);
      TreeComputes(env, code, lib, view, e, name, dml, trees, scan, out, ts, us);
      PerformsFrom(env, code, lib, pk, ss, stmt, name, dml, trees, scan, out);
    }
  }

  lemma {:induction false} PerformsFrom(env: Env, code: Coder, lib: Library, pk: KeyOf, ss: Session, stmt: Statement, name: string, dml: Sql.Statement,
                                        trees: map<string, Link.Tree>, scan: seq<(int, Row)>, out: Outcome)
    requires Behaves(env, ss, stmt)
    requires var view := Visible(ss.store);
             var e := stmt(view, ss.catalog);
             var ws := WritesOf(env, ss.catalog, e);
             && e.ok && !e.ddl && name in ss.catalog.tables && name in trees && Orderly(|view|, ws)
             && IsScan(Decoded(code.read, trees[name].rows), scan)
             && Sql.Computes(lib, ss.catalog.tables[name], Decoded(code.read, trees[name].rows), scan, dml, out) && out.Done? && e.changes == out.changes
             && TablesOf(env, OnPages(), code.read, view) == TablesIn(code.read, trees)
             && TablesOf(env, OnPages(), code.read, PutAll(view, ws)) == TablesIn(code.read, trees)[name := out.table]
    ensures Performs(env, lib, TreeLayout(env, code.read, pk), ss, stmt, name, dml)
  {
    var lay, view := TreeLayout(env, code.read, pk), Visible(ss.store);
    var e := stmt(view, ss.catalog);
    var ws, db := WritesOf(env, ss.catalog, e), lay.tables(view);
    assert db == TablesIn(code.read, trees) && lay.tables(PutAll(view, ws)) == db[name := out.table];
    assert db[name] == Decoded(code.read, trees[name].rows);
    PerformsBy(env, lib, lay, ss, stmt, name, dml, scan, out);
  }

  lemma {:induction false} PerformsBy(env: Env, lib: Library, lay: Layout, ss: Session, stmt: Statement, name: string, dml: Sql.Statement, scan: seq<(int, Row)>, out: Outcome)
    requires Behaves(env, ss, stmt)
    requires var view := Visible(ss.store);
             var e := stmt(view, ss.catalog);
             var ws, db, defs := WritesOf(env, ss.catalog, e), lay.tables(view), ss.catalog.tables;
             && !e.ddl && name in defs && name in db && Orderly(|view|, ws)
             && IsScan(db[name], scan) && Sql.Computes(lib, defs[name], db[name], scan, dml, out) && out.Done?
             && e.changes == out.changes && lay.tables(PutAll(view, ws)) == db[name := out.table]
    ensures Performs(env, lib, lay, ss, stmt, name, dml)
  {
  }

  ghost predicate TreeEvent(env: Env, code: Coder, lib: Library, pk: KeyOf, ss: Session, e: Event) {
    e.Execute? ==> Executes(env, code, lib, ss, e.stmt, e.table, e.dml) && ProperAt(lib, TreeLayout(env, code.read, pk), ss, e.table, e.dml)
  }

  /** Both the database in view and the committed one are trees on pages. */
  ghost predicate OnTrees(env: Env, ss: Session) {
    Settles(env, ss) && IsLaid(env, OnPages(), Visible(ss.store)) && IsLaid(env, OnPages(), Logical(ss.store))
  }

  lemma {:induction false} StepOnTrees(env: Env, code: Coder, lib: Library, pk: KeyOf, ss: Session, e: Event)
    requires EnvOk(env) && OnTrees(env, ss) && TreeEvent(env, code, lib, pk, ss, e)
    ensures OnTrees(env, Next(env, ss, e)) && SaneEvent(env, lib, TreeLayout(env, code.read, pk), ss, e)
  {
    match e
    case Execute(stmt, name, dml, logs) =>
      TreePerforms(env, code, lib, pk, ss, stmt, name, dml);
      ExecuteSettles(env, ss, stmt, logs);
      if !ss.inTxn {
        IdleFacts(env, Executed(env, ss, stmt, logs));
      }
    case Begin => BeginSettles(env, ss);
    case Commit(logs) => CommitTxnSettles(env, ss, logs);
    case Rollback => RollbackSettles(env, ss);
    case Checkpoint => CheckpointSettles(env, ss, e);
    case CheckpointFails(_) => CheckpointSettles(env, ss, e);
  }

  /** A condition that follows, step by step, from another holds along the run if that does. */
  lemma {:induction false} SaneToo(step: Step, inv: Session -> bool, sane: Sanity, sane': Sanity, ss: Session, es: seq<Event>)
    requires forall s, e {:trigger sane'(s, e)} {:trigger step(s, e)} :: inv(s) && sane(s, e) ==> inv(step(s, e)) && sane'(s, e)
    requires inv(ss) && SaneBy(step, sane, ss, es)
    ensures SaneBy(step, sane', ss, es)
    decreases |es|
  {
    if es != [] {
      assert inv(step(ss, es[0])) && sane'(ss, es[0]);
      SaneToo(step, inv, sane, sane', step(ss, es[0]), es[1..]);
    }
  }

  ghost function TreeSanity(env: Env, code: Coder, lib: Library, pk: KeyOf): Sanity {
    (ss: Session, e: Event) => TreeEvent(env, code, lib, pk, ss, e)
  }

  lemma {:induction false} TreeRunSane(env: Env, code: Coder, lib: Library, pk: KeyOf, ss: Session, es: seq<Event>)
    requires EnvOk(env) && OnTrees(env, ss) && SaneBy(StepOf(env), TreeSanity(env, code, lib, pk), ss, es)
    ensures SaneRun(env, lib, TreeLayout(env, code.read, pk), ss, es)
  {
    var step, inv := StepOf(env), (s: Session) => OnTrees(env, s);
    var sane, sane' := TreeSanity(env, code, lib, pk), SanityOf(env, lib, TreeLayout(env, code.read, pk));
    forall s, e | inv(s) && sane(s, e)
      ensures inv(step(s, e)) && sane'(s, e)
    {
      StepOnTrees(env, code, lib, pk, s, e);
    }
    SaneToo(step, inv, sane, sane', ss, es);
  }

  /** The feed of a database on trees: start from any idle session whose tables are trees on its
      pages, rows carrying their keys; then over every run of INSERT, UPDATE and DELETE that the
      tree carries out without failing or losing rows, in and out of transactions, with commits,
      rollbacks and checkpoints, replaying the published changes over the tables decoded from the
      pages at the start gives the tables decoded from the pages last committed. */
  lemma {:induction false} TreeFeedReplicates(env: Env, code: Coder, lib: Library, pk: KeyOf, ss: Session, before: seq<Change>, es: seq<Event>)
    requires EnvOk(env) && Settles(env, ss) && !ss.inTxn && ss.feed.enabled && Retains(ss.feed, before)
    requires IsLaid(env, OnPages(), Logical(ss.store)) && DefinitionsOk(pk, ss.catalog.tables)
    requires AllKeyed(ss.catalog.tables, TablesOf(env, OnPages(), code.read, Logical(ss.store)))
    requires SaneBy(StepOf(env), TreeSanity(env, code, lib, pk), ss, es)
    ensures var end, news := Run(env, ss, es), News(env, ss, es);
            && Retains(end.feed, before + news)
            && TablesOf(env, OnPages(), code.read, Logical(end.store)) == ReplayedAll(pk, TablesOf(env, OnPages(), code.read, Logical(ss.store)), news)
  {
    IdleFacts(env, ss);
    TreeRunSane(env, code, lib, pk, ss, es);
    FeedReplicates(env, lib, TreeLayout(env, code.read, pk), ss, before, es);
  }
}
