/** Statements and transactions: a savepoint per statement, a write group per transaction, and
    captured changes that are published when the group commits. */
module Sessions {
  import opened Options
  import opened Bytes
  import opened Wal
  import opened WalGroups
  import opened PagerStore
  import opened Cdc
  import opened Queries

  /** The in-memory schema: table definitions, and the root page of each table's tree. */
  datatype Catalog = Catalog(tables: map<string, Schema>, roots: map<string, nat>)

  /** What running one statement does: the pages it writes, the roots and definitions it leaves
      in memory, and the changes it stages. A failed statement may do any of it before it fails. */
  datatype Effect = Effect(ok: bool, ddl: bool, writes: seq<PageWrite>, catalog: Catalog, changes: seq<Change>)

  type Statement = (seq<Page>, Catalog) -> Effect

  const SCHEMA_PAGE: nat := 1

  /** The schema codec, for those catalogs that fit in the schema page. */
  datatype Env = Env(crc: Crc, fits: Catalog -> bool, schemaPage: Catalog -> Page, schemaOf: Page -> Catalog)

  ghost predicate EnvOk(env: Env) {
    forall c {:trigger env.schemaPage(c)} :: env.fits(c) ==> env.schemaOf(env.schemaPage(c)) == c
  }

  datatype Session = Session(store: Store, inTxn: bool, catalog: Catalog, feed: Feed)

  // ---------------------------------------------------------------- operations

  function WrittenAll(s: Store, ws: seq<PageWrite>): Store
    decreases |ws|
  {
    if ws == [] then s else Written(WrittenAll(s, ws[..|ws| - 1]), ws[|ws| - 1].page, ws[|ws| - 1].data)
  }

  /** Every write a statement causes: its own and, when definitions or roots changed, the schema. */
  function WritesOf(env: Env, catalog: Catalog, e: Effect): seq<PageWrite> {
    if e.ok && (e.ddl || e.catalog.roots != catalog.roots) then e.writes + [PageWrite(SCHEMA_PAGE, env.schemaPage(e.catalog))]
    else e.writes
  }

  /** The schema as rebuilt from the pages in view. */
  function StoredCatalog(env: Env, s: Store): Catalog {
    if SCHEMA_PAGE < s.numPages then env.schemaOf(Visible(s)[SCHEMA_PAGE]) else Catalog(map[], map[])
  }

  /** A statement; `logs` says whether appending to the log succeeds, should it commit. */
  ghost function Executed(env: Env, ss: Session, stmt: Statement, logs: bool): Session {
    var e := stmt(Visible(ss.store), ss.catalog);
    var begun := if ss.inTxn then SavepointBegun(ss.store) else Begun(ss.store);
    var done := WrittenAll(begun, WritesOf(env, ss.catalog, e));
    var staged := Staged(ss.feed, e.changes);
    if e.ok && ss.inTxn then ss.(store := Released(done), catalog := e.catalog, feed := staged)
    else if e.ok && (logs || done.pending == map[]) then ss.(store := Committed(env.crc, done), catalog := e.catalog, feed := Published(staged))
    else
      var undone := if ss.inTxn then RolledBack(done) else Aborted(done);
      ss.(store := undone, catalog := StoredCatalog(env, undone), feed := Discarded(staged, |ss.feed.staged|))
  }

  /** BEGIN, which fails inside a transaction. */
  function TxnBegun(ss: Session): Session {
    if ss.inTxn then ss else ss.(store := Begun(ss.store), inTxn := true)
  }

  /** ROLLBACK, which fails outside a transaction. */
  function TxnRolledBack(env: Env, ss: Session): Session {
    if !ss.inTxn then ss
    else
      var undone := Aborted(ss.store);
      ss.(store := undone, inTxn := false, catalog := StoredCatalog(env, undone), feed := Discarded(ss.feed, 0))
  }

  /** COMMIT, which fails outside a transaction, and rolls back when the log cannot be written. */
  ghost function TxnCommitted(env: Env, ss: Session, logs: bool): Session {
    if !ss.inTxn then ss
    else if logs || ss.store.pending == map[] then
      ss.(store := Committed(env.crc, ss.store), inTxn := false, feed := Published(ss.feed))
    else TxnRolledBack(env, ss)
  }

  // ---------------------------------------------------------------- what statements may do

  /** Pages are overwritten or appended one by one; the schema page is not a statement's. */
  ghost predicate Orderly(n: nat, ws: seq<PageWrite>)
    decreases |ws|
  {
    ws == [] || (Orderly(n, ws[..|ws| - 1]) && ws[|ws| - 1].page <= LenAfter(n, ws[..|ws| - 1]) && ws[|ws| - 1].page + 1 < 0x1_0000_0000_0000_0000)
  }

  ghost predicate OffSchema(ws: seq<PageWrite>) {
    forall i :: 0 <= i < |ws| ==> ws[i].page != SCHEMA_PAGE
  }

  ghost predicate EffectOk(env: Env, view: seq<Page>, catalog: Catalog, e: Effect) {
    && Orderly(|view|, e.writes) && OffSchema(e.writes)
    && (e.ok ==> env.fits(e.catalog))
    && (e.ok && !e.ddl ==> e.catalog.tables == catalog.tables)
  }

  /** Where it runs, the statement writes in order, off the schema page; only DDL changes
      definitions, and the catalog it leaves fits in the schema page. */
  ghost predicate Behaves(env: Env, ss: Session, stmt: Statement) {
    EffectOk(env, Visible(ss.store), ss.catalog, stmt(Visible(ss.store), ss.catalog))
  }

  // ---------------------------------------------------------------- the invariant

  /** Between statements: a group is open exactly in a transaction, no savepoint is, and the
      schema in memory is the schema in view. */
  ghost predicate Settled(env: Env, ss: Session, gs: seq<Group>) {
    && Inv(env.crc, ss.store, gs)
    && (ss.inTxn <==> ss.store.active.Some?)
    && ss.store.savepoint.None?
    && SCHEMA_PAGE < BasePages(ss.store)
    && ss.catalog == StoredCatalog(env, ss.store)
    && (!ss.inTxn ==> ss.feed.staged == [])
  }

  /** What a run of writes makes of the view. */
  ghost function PutAll(db: seq<Page>, ws: seq<PageWrite>): (r: seq<Page>)
    requires Orderly(|db|, ws)
    ensures |r| == LenAfter(|db|, ws)
    decreases |ws|
  {
    if ws == [] then db else Put(PutAll(db, ws[..|ws| - 1]), ws[|ws| - 1].page, ws[|ws| - 1].data)
  }

  /** Writes show in the view, leave what is committed alone, and can be undone. */
  lemma {:induction false} WritesKeep(crc: Crc, s: Store, gs: seq<Group>, ws: seq<PageWrite>)
    requires Inv(crc, s, gs) && s.active.Some? && Orderly(s.numPages, ws)
    ensures Inv(crc, WrittenAll(s, ws), gs) && WrittenAll(s, ws).active == s.active && WrittenAll(s, ws).groupStart == s.groupStart
    ensures Visible(WrittenAll(s, ws)) == PutAll(Visible(s), ws) && Logical(WrittenAll(s, ws)) == Logical(s)
    ensures WrittenAll(s, ws) == s.(pending := WrittenAll(s, ws).pending, numPages := LenAfter(s.numPages, ws), savepoint := WrittenAll(s, ws).savepoint)
    decreases |ws|
  {
    if ws != [] {
      WritesKeep(crc, s, gs, ws[..|ws| - 1]);
      WriteKeeps(crc, WrittenAll(s, ws[..|ws| - 1]), gs, ws[|ws| - 1].page, ws[|ws| - 1].data);
    }
  }

  /** A page holds what was last written to it; a page that is not written stays. */
  lemma {:induction false} PutAllIs(db: seq<Page>, ws: seq<PageWrite>, p: nat)
    requires Orderly(|db|, ws) && p < |PutAll(db, ws)|
    ensures forall i :: 0 <= i < |ws| && ws[i].page == p && (forall j :: i < j < |ws| ==> ws[j].page != p) ==> PutAll(db, ws)[p] == ws[i].data
    ensures (forall i :: 0 <= i < |ws| ==> ws[i].page != p) ==> p < |db| && PutAll(db, ws)[p] == db[p]
    decreases |ws|
  {
    if ws != [] {
      var front := ws[..|ws| - 1];
      assert forall i :: 0 <= i < |front| ==> front[i] == ws[i];
      if ws[|ws| - 1].page != p {
        PutAllIs(db, front, p);
      }
    }
  }

  /** Whatever is written under a savepoint, rolling back restores the group exactly. */
  lemma {:induction false} WritesUndone(s: Store, ws: seq<PageWrite>)
    requires s.active.Some? && s.savepoint.Some?
    ensures var t := WrittenAll(s, ws);
            && t.active == s.active && t.savepoint.Some?
            && RolledBack(t) == RolledBack(s)
    decreases |ws|
  {
    if ws != [] {
      WritesUndone(s, ws[..|ws| - 1]);
      UndoAfterWrite(WrittenAll(s, ws[..|ws| - 1]), ws[|ws| - 1].page, ws[|ws| - 1].data);
    }
  }

  lemma SavepointRoundTrip(s: Store)
    requires s.active.Some? && s.savepoint.None?
    ensures RolledBack(SavepointBegun(s)) == s
  {
    assert Restored(s.pending, map[]) == s.pending;
  }

  lemma StagedRoundTrip(f: Feed, cs: seq<Change>)
    ensures Discarded(Staged(f, cs), |f.staged|) == f
  {
    assert (f.staged + cs)[..|f.staged|] == f.staged;
  }

  /** A statement that fails inside a transaction leaves no trace at all. */
  lemma {:induction false} FailedStatement(env: Env, ss: Session, gs: seq<Group>, stmt: Statement, logs: bool)
    requires Settled(env, ss, gs) && ss.inTxn && !stmt(Visible(ss.store), ss.catalog).ok
    ensures Executed(env, ss, stmt, logs) == ss
  {
    var e := stmt(Visible(ss.store), ss.catalog);
    SavepointRoundTrip(ss.store);
    WritesUndone(SavepointBegun(ss.store), WritesOf(env, ss.catalog, e));
    StagedRoundTrip(ss.feed, e.changes);
  }

  // ---------------------------------------------------------------- every step settles

  lemma {:induction false} SchemaUntouched(db: seq<Page>, ws: seq<PageWrite>)
    requires SCHEMA_PAGE < |db| && Orderly(|db|, ws) && OffSchema(ws)
    ensures SCHEMA_PAGE < |PutAll(db, ws)| && PutAll(db, ws)[SCHEMA_PAGE] == db[SCHEMA_PAGE]
    decreases |ws|
  {
    if ws != [] {
      assert forall i :: 0 <= i < |ws| - 1 ==> ws[..|ws| - 1][i] == ws[i];
      SchemaUntouched(db, ws[..|ws| - 1]);
    }
  }

  /** After a statement that succeeds, the pages in view store the catalog it leaves in memory. */
  lemma {:induction false} CatalogSaved(env: Env, db: seq<Page>, catalog: Catalog, e: Effect)
    requires EnvOk(env) && SCHEMA_PAGE < |db| && catalog == env.schemaOf(db[SCHEMA_PAGE]) && EffectOk(env, db, catalog, e)
    ensures Orderly(|db|, WritesOf(env, catalog, e)) && SCHEMA_PAGE < |PutAll(db, WritesOf(env, catalog, e))|
    ensures e.ok ==> env.schemaOf(PutAll(db, WritesOf(env, catalog, e))[SCHEMA_PAGE]) == e.catalog
  {
    SchemaUntouched(db, e.writes);
    var ws := WritesOf(env, catalog, e);
    if ws != e.writes {
      assert ws[..|ws| - 1] == e.writes;
    }
  }

  /** The store while a statement runs, and the view it has built when it is done. */
  lemma {:induction false} StatementView(env: Env, ss: Session, gs: seq<Group>, stmt: Statement)
    requires EnvOk(env) && Settled(env, ss, gs) && Behaves(env, ss, stmt)
    ensures var e := stmt(Visible(ss.store), ss.catalog);
            var ws := WritesOf(env, ss.catalog, e);
            var done := WrittenAll(if ss.inTxn then SavepointBegun(ss.store) else Begun(ss.store), ws);
            && Orderly(|Visible(ss.store)|, ws)
            && Inv(env.crc, done, gs) && done.active.Some? && BasePages(done) == BasePages(ss.store)
            && Visible(done) == PutAll(Visible(ss.store), ws) && Logical(done) == Logical(ss.store)
            && (e.ok ==> StoredCatalog(env, done) == e.catalog)
  {
    var e := stmt(Visible(ss.store), ss.catalog);
    var begun := if ss.inTxn then SavepointBegun(ss.store) else Begun(ss.store);
    CatalogSaved(env, Visible(ss.store), ss.catalog, e);
    BeginKeeps(env.crc, ss.store, gs);
    SavepointKeeps(env.crc, ss.store, gs);
    assert Visible(begun) == Visible(ss.store);
    WritesKeep(env.crc, begun, gs, WritesOf(env, ss.catalog, e));
  }

  /** The statement took effect: it did not fail, and its own commit, if it has one, did not. */
  ghost predicate Succeeds(env: Env, ss: Session, stmt: Statement, logs: bool) {
    var e := stmt(Visible(ss.store), ss.catalog);
    e.ok && (ss.inTxn || logs || WrittenAll(Begun(ss.store), WritesOf(env, ss.catalog, e)).pending == map[])
  }

  ghost predicate Settles(env: Env, ss: Session) {
    exists gs :: Settled(env, ss, gs)
  }

  /** A statement that succeeds shows all of its writes; one that fails shows none, in memory
      or in the staged changes either. */
  ghost predicate AllOrNothing(env: Env, ss: Session, stmt: Statement, logs: bool, ss': Session) {
    var e := stmt(Visible(ss.store), ss.catalog);
    var ws := WritesOf(env, ss.catalog, e);
    && Orderly(|Visible(ss.store)|, ws)
    && ss'.inTxn == ss.inTxn
    && (ss.inTxn ==> Logical(ss'.store) == Logical(ss.store))
    && (!ss.inTxn ==> Logical(ss'.store) == Visible(ss'.store))
    && (if Succeeds(env, ss, stmt, logs) then
          && Visible(ss'.store) == PutAll(Visible(ss.store), ws)
          && ss'.feed == (if ss.inTxn then Staged(ss.feed, e.changes) else Published(Staged(ss.feed, e.changes)))
        else
          Visible(ss'.store) == Visible(ss.store) && ss'.catalog == ss.catalog && ss'.feed == ss.feed)
  }

  lemma {:induction false} ExecuteInTxn(env: Env, ss: Session, gs: seq<Group>, stmt: Statement, logs: bool)
    requires EnvOk(env) && Settled(env, ss, gs) && Behaves(env, ss, stmt) && ss.inTxn
    ensures Settles(env, Executed(env, ss, stmt, logs)) && AllOrNothing(env, ss, stmt, logs, Executed(env, ss, stmt, logs))
  {
    var e := stmt(Visible(ss.store), ss.catalog);
    var ss' := Executed(env, ss, stmt, logs);
    StatementView(env, ss, gs, stmt);
    if e.ok {
      var done := WrittenAll(SavepointBegun(ss.store), WritesOf(env, ss.catalog, e));
      SavepointKeeps(env.crc, done, gs);
      assert Visible(Released(done)) == Visible(done);
      assert Settled(env, ss', gs);
    } else {
      FailedStatement(env, ss, gs, stmt, logs);
    }
  }

  lemma {:induction false} IdleView(crc: Crc, s: Store, gs: seq<Group>)
    requires Inv(crc, s, gs) && s.active.None?
    ensures Visible(s) == Logical(s)
  {
  }

  lemma {:induction false} CommitSettles(env: Env, done: Store, gs: seq<Group>) returns (gs': seq<Group>)
    requires Inv(env.crc, done, gs) && done.active.Some?
    ensures var s := Committed(env.crc, done);
            && Inv(env.crc, s, gs') && s.active.None? && s.savepoint.None?
            && Logical(s) == Visible(s) == Visible(done) && s.numPages == done.numPages
  {
    if done.pending != map[] {
      CommitKeeps(env.crc, done, gs);
      gs' := gs + [GroupOf(done)];
    } else {
      EmptyCommitKeeps(env.crc, done, gs);
      gs' := gs;
    }
    IdleView(env.crc, Committed(env.crc, done), gs');
  }

  lemma {:induction false} PublishedClears(f: Feed)
    ensures Published(f).staged == []
  {
    RecordedAllStaged(f.(staged := []), f.staged);
  }

  lemma {:induction false} RecordedAllStaged(f: Feed, cs: seq<Change>)
    ensures RecordedAll(f, cs).staged == f.staged
    decreases |cs|
  {
    if cs != [] {
      RecordedAllStaged(f, cs[..|cs| - 1]);
    }
  }

  lemma {:induction false} ExecuteAlone(env: Env, ss: Session, gs: seq<Group>, stmt: Statement, logs: bool)
    requires EnvOk(env) && Settled(env, ss, gs) && Behaves(env, ss, stmt) && !ss.inTxn
    ensures Settles(env, Executed(env, ss, stmt, logs)) && AllOrNothing(env, ss, stmt, logs, Executed(env, ss, stmt, logs))
  {
    var e := stmt(Visible(ss.store), ss.catalog);
    var ss' := Executed(env, ss, stmt, logs);
    var done := WrittenAll(Begun(ss.store), WritesOf(env, ss.catalog, e));
    StatementView(env, ss, gs, stmt);
    if Succeeds(env, ss, stmt, logs) {
      var gs' := CommitSettles(env, done, gs);
      PublishedClears(Staged(ss.feed, e.changes));
      assert Settled(env, ss', gs');
    } else {
      AbortKeeps(env.crc, done, gs);
      IdleView(env.crc, ss.store, gs);
      StagedRoundTrip(ss.feed, e.changes);
      assert Visible(ss'.store) == Visible(ss.store);
      assert Settled(env, ss', gs);
    }
  }

  lemma {:induction false} ExecuteSettles(env: Env, ss: Session, stmt: Statement, logs: bool)
    requires EnvOk(env) && Settles(env, ss) && Behaves(env, ss, stmt)
    ensures Settles(env, Executed(env, ss, stmt, logs)) && AllOrNothing(env, ss, stmt, logs, Executed(env, ss, stmt, logs))
  {
    var gs :| Settled(env, ss, gs);
    if ss.inTxn {
      ExecuteInTxn(env, ss, gs, stmt, logs);
    } else {
      ExecuteAlone(env, ss, gs, stmt, logs);
    }
  }

  /** A statement that takes effect leaves its catalog in memory, and in view every page as it
      wrote it; only the schema page is not its own. */
  lemma {:induction false} StatementShows(env: Env, ss: Session, stmt: Statement, logs: bool)
    requires EnvOk(env) && Settles(env, ss) && Behaves(env, ss, stmt) && Succeeds(env, ss, stmt, logs)
    ensures var e, view := stmt(Visible(ss.store), ss.catalog), Visible(Executed(env, ss, stmt, logs).store);
            && Executed(env, ss, stmt, logs).catalog == e.catalog
            && |view| == |PutAll(Visible(ss.store), e.writes)|
            && forall p :: 0 <= p < |view| && p != SCHEMA_PAGE ==> view[p] == PutAll(Visible(ss.store), e.writes)[p]
  {
    ExecuteSettles(env, ss, stmt, logs);
    var db, e := Visible(ss.store), stmt(Visible(ss.store), ss.catalog);
    var gs :| Settled(env, ss, gs);
    CatalogSaved(env, db, ss.catalog, e);
    SchemaUntouched(db, e.writes);
    var ws := WritesOf(env, ss.catalog, e);
    if ws != e.writes {
      assert ws[..|ws| - 1] == e.writes;
    }
  }

  lemma {:induction false} BeginSettles(env: Env, ss: Session)
    requires Settles(env, ss)
    ensures Settles(env, TxnBegun(ss))
    ensures Visible(TxnBegun(ss).store) == Visible(ss.store) && Logical(TxnBegun(ss).store) == Logical(ss.store)
  {
    var gs :| Settled(env, ss, gs);
    BeginKeeps(env.crc, ss.store, gs);
    assert Settled(env, TxnBegun(ss), gs);
  }

  lemma {:induction false} RollbackSettles(env: Env, ss: Session)
    requires Settles(env, ss)
    ensures Settles(env, TxnRolledBack(env, ss))
    ensures Visible(TxnRolledBack(env, ss).store) == Logical(TxnRolledBack(env, ss).store) == Logical(ss.store)
  {
    var gs :| Settled(env, ss, gs);
    if ss.inTxn {
      AbortKeeps(env.crc, ss.store, gs);
      assert Settled(env, TxnRolledBack(env, ss), gs);
    } else {
      IdleView(env.crc, ss.store, gs);
    }
  }

  lemma {:induction false} CommitTxnSettles(env: Env, ss: Session, logs: bool)
    requires Settles(env, ss)
    ensures var ss' := TxnCommitted(env, ss, logs);
            && Settles(env, ss') && !ss'.inTxn
            && Visible(ss'.store) == Logical(ss'.store)
            && Logical(ss'.store) == if ss.inTxn && !logs && ss.store.pending != map[] then Logical(ss.store) else Visible(ss.store)
  {
    var gs :| Settled(env, ss, gs);
    if !ss.inTxn {
      IdleView(env.crc, ss.store, gs);
    } else if logs || ss.store.pending == map[] {
      var gs' := CommitSettles(env, ss.store, gs);
      PublishedClears(ss.feed);
      assert Settled(env, TxnCommitted(env, ss, logs), gs');
    } else {
      RollbackSettles(env, ss);
    }
  }

  // ---------------------------------------------------------------- statements of a transaction

  ghost function Ran(env: Env, ss: Session, stmts: seq<Statement>): Session
    decreases |stmts|
  {
    if stmts == [] then ss else Ran(env, Executed(env, ss, stmts[0], true), stmts[1..])
  }

  /** The statements that succeed when it is their turn. */
  ghost function Successes(env: Env, ss: Session, stmts: seq<Statement>): seq<Statement>
    decreases |stmts|
  {
    if stmts == [] then []
    else
      var rest := Successes(env, Executed(env, ss, stmts[0], true), stmts[1..]);
      if stmts[0](Visible(ss.store), ss.catalog).ok then [stmts[0]] + rest else rest
  }

  /** Every statement behaves when it is its turn. */
  ghost predicate AllBehave(env: Env, ss: Session, stmts: seq<Statement>)
    decreases |stmts|
  {
    stmts == [] || (Behaves(env, ss, stmts[0]) && AllBehave(env, Executed(env, ss, stmts[0], true), stmts[1..]))
  }

  /** Statement atomicity: the statements of a transaction leave the database, the log of staged
      changes and the schema exactly as the successful ones alone would, and in that run every
      one of those succeeds. */
  lemma {:induction false} OnlySuccessesCount(env: Env, ss: Session, stmts: seq<Statement>)
    requires EnvOk(env) && Settles(env, ss) && ss.inTxn && AllBehave(env, ss, stmts)
    ensures Ran(env, ss, stmts) == Ran(env, ss, Successes(env, ss, stmts))
    ensures Successes(env, ss, Successes(env, ss, stmts)) == Successes(env, ss, stmts)
    ensures Settles(env, Ran(env, ss, stmts)) && Ran(env, ss, stmts).inTxn
    decreases |stmts|
  {
    if stmts != [] {
      var ss' := Executed(env, ss, stmts[0], true);
      ExecuteSettles(env, ss, stmts[0], true);
      OnlySuccessesCount(env, ss', stmts[1..]);
      var rest := Successes(env, ss', stmts[1..]);
      if stmts[0](Visible(ss.store), ss.catalog).ok {
        assert ([stmts[0]] + rest)[1..] == rest;
      } else {
        var gs :| Settled(env, ss, gs);
        FailedStatement(env, ss, gs, stmts[0], true);
      }
    }
  }

  lemma {:induction false} RanLogical(env: Env, ss: Session, stmts: seq<Statement>)
    requires EnvOk(env) && Settles(env, ss) && ss.inTxn && AllBehave(env, ss, stmts)
    ensures Logical(Ran(env, ss, stmts).store) == Logical(ss.store)
    ensures Ran(env, ss, stmts).feed == ss.feed.(staged := Ran(env, ss, stmts).feed.staged)
    ensures Settles(env, Ran(env, ss, stmts)) && Ran(env, ss, stmts).inTxn
    decreases |stmts|
  {
    if stmts != [] {
      ExecuteSettles(env, ss, stmts[0], true);
      RanLogical(env, Executed(env, ss, stmts[0], true), stmts[1..]);
    }
  }

  /** Transaction atomicity: BEGIN, any statements, then ROLLBACK (or a COMMIT that cannot be
      logged) gives the database, schema and change feed of before BEGIN; COMMIT makes what the statements
      built the committed database. */
  lemma {:induction false} TransactionAtomic(env: Env, ss: Session, stmts: seq<Statement>)
    requires EnvOk(env) && Settles(env, ss) && !ss.inTxn && AllBehave(env, TxnBegun(ss), stmts)
    ensures var end := Ran(env, TxnBegun(ss), stmts);
            var back, done := TxnRolledBack(env, end), TxnCommitted(env, end, true);
            && Visible(back.store) == Logical(back.store) == Visible(ss.store) && back.catalog == ss.catalog && back.feed == ss.feed && !back.inTxn
            && Logical(done.store) == Visible(done.store) == Visible(end.store) && done.catalog == end.catalog && !done.inTxn
            && (TxnCommitted(env, end, false) == if end.store.pending == map[] then done else back)
  {
    var gs :| Settled(env, ss, gs);
    IdleView(env.crc, ss.store, gs);
    BeginSettles(env, ss);
    RanLogical(env, TxnBegun(ss), stmts);
    RollbackSettles(env, Ran(env, TxnBegun(ss), stmts));
    CommitTxnSettles(env, Ran(env, TxnBegun(ss), stmts), true);
  }
}
