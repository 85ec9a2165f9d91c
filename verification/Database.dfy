/** The database object: statements and transactions over the pager and the change feed. */
module Databases {
  import opened Options
  import opened Bytes
  import opened Wal
  import opened WalGroups
  import opened WalManagers
  import opened PagerStore
  import opened Pagers
  import opened Cdc
  import opened Sessions

  /** The pager's store when the statement has written all it writes. */
  ghost function StoreWhenDone(env: Env, ss: Session, stmt: Statement): Store {
    var begun := if ss.inTxn then SavepointBegun(ss.store) else Begun(ss.store);
    WrittenAll(begun, WritesOf(env, ss.catalog, stmt(Visible(ss.store), ss.catalog)))
  }

  ghost predicate CanFlushAfter(s: Store, io: Flush) {
    io.Fails? ==> TornDisk(s.disk, s.committed + s.pending, s.numPages, io.torn)
  }

  /** The commit set off a checkpoint, if the log had grown long enough. */
  ghost function WithCheckpoint(before: Store, after: Session, io: Flush): Session {
    if before.pending != map[] && |after.store.wal| >= CHECKPOINT_WAL_BYTES then after.(store := AfterCheckpoint(after.store, io)) else after
  }

  ghost function AfterStatement(env: Env, ss: Session, stmt: Statement, logs: bool, io: Flush): Session {
    var next := Executed(env, ss, stmt, logs);
    if !ss.inTxn && Sessions.Succeeds(env, ss, stmt, logs) then WithCheckpoint(StoreWhenDone(env, ss, stmt), next, io) else next
  }

  ghost function AfterTxnCommit(env: Env, ss: Session, logs: bool, io: Flush): Session {
    var next := TxnCommitted(env, ss, logs);
    if ss.inTxn && (logs || ss.store.pending == map[]) then WithCheckpoint(ss.store, next, io) else next
  }

  class Database {
    const env: Env
    const pager: Pager
    const cdc: CdcManager
    var inTxn: bool
    var catalog: Catalog

    function View(): Session
      reads this, pager, pager.wal, cdc
    {
      Session(pager.State(), inTxn, catalog, cdc.View())
    }

    ghost predicate Valid()
      reads this, pager, pager.wal, cdc
    {
      pager.Valid() && cdc.Valid() && pager.wal.crc == env.crc && EnvOk(env) && Settles(env, View())
    }

    /** Opens an initialized database: the schema is read from the pages in view. */
    constructor (env: Env, pager: Pager, cdc: CdcManager)
      requires pager.Valid() && cdc.Valid() && pager.wal.crc == env.crc && EnvOk(env)
      requires pager.active.None? && SCHEMA_PAGE < pager.numPages && cdc.staged == []
      ensures Valid() && this.pager == pager && this.cdc == cdc && this.env == env && !inTxn
      ensures catalog == StoredCatalog(env, pager.State())
    {
      this.env := env;
      this.pager := pager;
      this.cdc := cdc;
      inTxn := false;
      catalog := StoredCatalog(env, pager.State());
      new;
      OpenSettles(env, View(), pager.cache);
    }

    /** Pages written one after another inside the open group. */
    method WriteAllPages(ws: seq<PageWrite>)
      requires pager.Valid() && pager.active.Some? && Orderly(pager.numPages, ws)
      modifies pager, pager.wal
      ensures pager.Valid() && pager.State() == WrittenAll(old(pager.State()), ws)
    {
      ghost var s := pager.State();
      for i := 0 to |ws|
        invariant pager.Valid() && pager.State() == WrittenAll(s, ws[..i]) && pager.active.Some?
      {
        OrderlyStep(s, ws, i);
        var _ := pager.WritePage(ws[i].page, ws[i].data, Succeeds, Completes);
      }
      assert ws[..|ws|] == ws;
    }

    /** Opens a savepoint or a group, and runs the statement as far as it gets. */
    method RunStatement(stmt: Statement) returns (e: Effect)
      requires Valid() && Behaves(env, View(), stmt)
      modifies pager, pager.wal, cdc
      ensures pager.Valid() && pager.State() == StoreWhenDone(env, old(View()), stmt)
      ensures cdc.Valid() && cdc.View() == Staged(old(cdc.View()), e.changes)
      ensures e == stmt(old(Visible(pager.State())), old(catalog))
    {
      StatementStart(env, View(), stmt);
      e := stmt(Visible(pager.State()), catalog);
      if inTxn {
        var _ := pager.BeginSavepoint();
      } else {
        var _ := pager.BeginGroup();
      }
      WriteAllPages(WritesOf(env, catalog, e));
      StageAll(e.changes);
    }

    method ExecuteInTransaction(stmt: Statement) returns (ok: bool)
      requires Valid() && Behaves(env, View(), stmt) && inTxn
      modifies this, pager, pager.wal, cdc
      ensures Valid() && View() == Executed(env, old(View()), stmt, true)
      ensures ok == stmt(old(Visible(pager.State())), old(catalog)).ok
    {
      ghost var ss := View();
      ExecuteSettles(env, ss, stmt, true);
      var mark := |cdc.staged|;
      var e := RunStatement(stmt);
      ok := e.ok;
      if ok {
        pager.ReleaseSavepoint();
        catalog := e.catalog;
      } else {
        var _ := pager.RollbackToSavepoint();
        cdc.DiscardStagedFrom(mark);
        catalog := StoredCatalog(env, pager.State());
      }
      assert View() == Executed(env, ss, stmt, true);
    }

    method ExecuteAlone(stmt: Statement, append: WriteOutcome, io: Flush) returns (ok: bool)
      requires Valid() && Behaves(env, View(), stmt) && !inTxn && CanFlushAfter(StoreWhenDone(env, View(), stmt), io)
      modifies this, pager, pager.wal, cdc
      ensures Valid() && View() == AfterStatement(env, old(View()), stmt, append.Succeeds?, io)
      ensures ok == Sessions.Succeeds(env, old(View()), stmt, append.Succeeds?)
    {
      ghost var ss, logs := View(), append.Succeeds?;
      AloneSettles(env, ss, stmt, logs, io);
      var mark := |cdc.staged|;
      var e := RunStatement(stmt);
      ok := FinishAlone(e, mark, append, io);
      AloneIs(env, ss, stmt, append, io);
      assert View() == AfterStatement(env, ss, stmt, logs, io);
    }

    /** Commits the group of a statement that succeeded, or undoes it and what it staged. */
    method FinishAlone(e: Effect, mark: nat, append: WriteOutcome, io: Flush) returns (ok: bool)
      requires pager.Valid() && cdc.Valid() && pager.active.Some? && mark <= |cdc.staged| && CanFlushAfter(pager.State(), io)
      modifies this`catalog, pager, pager.wal, cdc
      ensures pager.Valid() && cdc.Valid()
      ensures ok == (e.ok && (append.Succeeds? || old(pager.pending) == map[]))
      ensures pager.State() == if e.ok then CommitOutcome(pager.wal.crc, old(pager.State()), append, io) else Aborted(old(pager.State()))
      ensures cdc.View() == if ok then Published(old(cdc.View())) else Discarded(old(cdc.View()), mark)
      ensures catalog == if ok then e.catalog else StoredCatalog(env, pager.State())
    {
      if e.ok {
        var committed := pager.CommitGroup(append, io);
        ok := committed.Success?;
        if ok {
          cdc.PublishStaged();
          catalog := e.catalog;
        }
      } else {
        var _ := pager.AbortGroup();
        ok := false;
      }
      if !ok {
        cdc.DiscardStagedFrom(mark);
        catalog := StoredCatalog(env, pager.State());
      }
    }

    /** Any statement but BEGIN, COMMIT and ROLLBACK. */
    method Execute(stmt: Statement, append: WriteOutcome, io: Flush) returns (ok: bool)
      requires Valid() && Behaves(env, View(), stmt) && (!inTxn ==> CanFlushAfter(StoreWhenDone(env, View(), stmt), io))
      modifies this, pager, pager.wal, cdc
      ensures Valid() && View() == AfterStatement(env, old(View()), stmt, append.Succeeds?, io)
      ensures ok == Sessions.Succeeds(env, old(View()), stmt, append.Succeeds?)
    {
      if inTxn {
        ok := ExecuteInTransaction(stmt);
      } else {
        ok := ExecuteAlone(stmt, append, io);
      }
    }

    method Begin() returns (ok: bool)
      requires Valid()
      modifies this, pager, pager.wal
      ensures Valid() && View() == TxnBegun(old(View())) && ok == !old(inTxn)
    {
      ghost var ss := View();
      BeginSettles(env, ss);
      if inTxn {
        return false;
      }
      inTxn := true;
      ActiveInTxn(env, ss);
      var _ := pager.BeginGroup();
      assert View() == TxnBegun(ss);
      ok := true;
    }

    method Rollback() returns (ok: bool)
      requires Valid()
      modifies this, pager, pager.wal, cdc
      ensures Valid() && View() == TxnRolledBack(env, old(View())) && ok == old(inTxn)
    {
      ghost var ss := View();
      RollbackSettles(env, ss);
      if !inTxn {
        return false;
      }
      var _ := pager.AbortGroup();
      cdc.DiscardStagedFrom(0);
      catalog := StoredCatalog(env, pager.State());
      inTxn := false;
      assert View() == TxnRolledBack(env, ss);
      ok := true;
    }

    /** Makes the transaction durable, or rolls it back when the log cannot be written. */
    method Commit(append: WriteOutcome, io: Flush) returns (ok: bool)
      requires Valid() && (inTxn ==> CanFlushAfter(pager.State(), io))
      modifies this, pager, pager.wal, cdc
      ensures Valid() && View() == AfterTxnCommit(env, old(View()), append.Succeeds?, io)
      ensures ok <==> old(inTxn) && (append.Succeeds? || old(pager.pending) == map[])
    {
      ghost var ss, logs := View(), append.Succeeds?;
      CommitSettlesToo(env, ss, logs, io);
      if !inTxn {
        return false;
      }
      ActiveInTxn(env, ss);
      var committed := pager.CommitGroup(append, io);
      if committed.Success? {
        cdc.PublishStaged();
        ok := true;
      } else {
        cdc.DiscardStagedFrom(0);
        catalog := StoredCatalog(env, pager.State());
        ok := false;
      }
      inTxn := false;
      assert View() == AfterTxnCommit(env, ss, logs, io);
    }

    method StageAll(changes: seq<Change>)
      requires cdc.Valid()
      modifies cdc
      ensures cdc.Valid() && cdc.View() == Staged(old(cdc.View()), changes) && cdc.all == old(cdc.all)
    {
      ghost var f := cdc.View();
      assert f.staged + [] == f.staged;
      for i := 0 to |changes|
        invariant cdc.Valid() && cdc.View() == Staged(f, changes[..i]) && cdc.all == old(cdc.all)
      {
        assert f.staged + changes[..i] + [changes[i]] == f.staged + changes[..i + 1];
        cdc.Stage(changes[i]);
      }
      assert changes[..|changes|] == changes;
    }
  }

  /** Gives a new data file its two pages, root and schema, in one group. */
  method Initialize(pager: Pager, append: WriteOutcome) returns (status: Status)
    requires pager.Valid() && pager.active.None?
    modifies pager, pager.wal
    ensures pager.Valid() && pager.active.None?
    ensures status.Success? <==> old(pager.numPages) != 0 || append.Succeeds?
    ensures Visible(pager.State()) == if old(pager.numPages) == 0 && status.Success? then [ZeroPage(), ZeroPage()] else old(Visible(pager.State()))
    ensures old(pager.numPages) == 0 ==> Logical(pager.State()) == Visible(pager.State())
  {
    if pager.numPages != 0 {
      return Success;
    }
    NewFile(pager.State(), pager.wal.crc, pager.cache);
    var _ := pager.BeginGroup();
    var _ := pager.AllocatePage(append, Completes);
    var _ := pager.AllocatePage(append, Completes);
    assert Visible(pager.State()) == [ZeroPage(), ZeroPage()];
    assert 0 in pager.pending;
    status := pager.CommitGroup(append, Completes);
  }

  lemma {:induction false} NewFile(s: Store, crc: Crc, cache: PageMap)
    requires Good(crc, s, cache) && s.active.None? && s.numPages == 0
    ensures Visible(s) == [] && Logical(s) == []
  {
    GoodIsSound(crc, s, cache);
  }

  /** Opens a recovered data file, a new one included. */
  method OpenDatabase(env: Env, pager: Pager, cdc: CdcManager, append: WriteOutcome) returns (db: Option<Database>)
    requires pager.Valid() && cdc.Valid() && pager.wal.crc == env.crc && EnvOk(env) && pager.active.None? && cdc.staged == []
    requires pager.numPages != 1
    modifies pager, pager.wal
    ensures db.None? <==> old(pager.numPages) == 0 && append.FailsAfter?
    ensures db.Some? ==>
              && db.value.Valid() && db.value.pager == pager && db.value.cdc == cdc && !db.value.inTxn
              && db.value.catalog == StoredCatalog(env, pager.State())
              && Visible(pager.State()) == if old(pager.numPages) == 0 then [ZeroPage(), ZeroPage()] else old(Visible(pager.State()))
  {
    var status := Initialize(pager, append);
    if !status.Success? {
      return None;
    }
    assert |Visible(pager.State())| == pager.numPages;
    var made := new Database(env, pager, cdc);
    return Some(made);
  }

  lemma {:induction false} OrderlyPrefix(n: nat, ws: seq<PageWrite>, i: nat)
    requires Orderly(n, ws) && i <= |ws|
    ensures Orderly(n, ws[..i])
    decreases |ws|
  {
    if i < |ws| {
      assert ws[..|ws| - 1][..i] == ws[..i];
      OrderlyPrefix(n, ws[..|ws| - 1], i);
    } else {
      assert ws[..i] == ws;
    }
  }

  lemma {:induction false} OrderlyStep(s: Store, ws: seq<PageWrite>, i: nat)
    requires Orderly(s.numPages, ws) && i < |ws| && s.active.Some?
    ensures ws[i].page <= WrittenAll(s, ws[..i]).numPages && ws[i].page + 1 < U64_END
    ensures WrittenAll(s, ws[..i + 1]) == Written(WrittenAll(s, ws[..i]), ws[i].page, ws[i].data)
  {
    OrderlyPrefix(s.numPages, ws, i + 1);
    assert ws[..i + 1][..i] == ws[..i];
    WrittenPages(s, ws[..i]);
  }

  lemma {:induction false} WrittenPages(s: Store, ws: seq<PageWrite>)
    requires s.active.Some?
    ensures WrittenAll(s, ws).numPages == LenAfter(s.numPages, ws) && WrittenAll(s, ws).active == s.active
    decreases |ws|
  {
    if ws != [] {
      WrittenPages(s, ws[..|ws| - 1]);
    }
  }

  /** What a statement may write is orderly, schema included, in the group it opens. */
  lemma {:induction false} StatementStart(env: Env, ss: Session, stmt: Statement)
    requires EnvOk(env) && Settles(env, ss) && Behaves(env, ss, stmt)
    ensures var begun := if ss.inTxn then SavepointBegun(ss.store) else Begun(ss.store);
            && begun.active.Some? && begun.numPages == ss.store.numPages
            && Orderly(begun.numPages, WritesOf(env, ss.catalog, stmt(Visible(ss.store), ss.catalog)))
    ensures ss.inTxn <==> ss.store.active.Some?
    ensures ss.store.savepoint.None?
  {
    var gs :| Settled(env, ss, gs);
    StatementView(env, ss, gs, stmt);
  }

  lemma {:induction false} OpenSettles(env: Env, ss: Session, cache: PageMap)
    requires Good(env.crc, ss.store, cache) && ss.store.active.None? && SCHEMA_PAGE < ss.store.numPages
    requires !ss.inTxn && ss.feed.staged == [] && ss.catalog == StoredCatalog(env, ss.store)
    ensures Settles(env, ss)
  {
    GoodIsSound(env.crc, ss.store, cache);
    var gs :| Inv(env.crc, ss.store, gs);
    assert Settled(env, ss, gs);
  }

  lemma {:induction false} ActiveInTxn(env: Env, ss: Session)
    requires Settles(env, ss)
    ensures ss.inTxn <==> ss.store.active.Some?
  {
    var gs :| Settled(env, ss, gs);
  }

  /** A checkpoint settles too. */
  lemma {:induction false} CheckpointSettlesToo(env: Env, ss: Session, io: Flush)
    requires Settles(env, ss) && CanFlush(ss.store, io)
    ensures Settles(env, ss.(store := AfterCheckpoint(ss.store, io)))
  {
    var gs :| Settled(env, ss, gs);
    CheckpointKeeps(env.crc, ss.store, gs);
    if ss.store.committed != map[] {
      if io.Completes? {
        assert Settled(env, ss.(store := Checkpointed(ss.store)), []);
      } else {
        HalfCheckpointKeeps(env.crc, ss.store, gs, io.torn);
        assert Settled(env, ss.(store := HalfCheckpointed(ss.store, io.torn)), gs);
      }
    }
  }

  lemma {:induction false} AloneSettles(env: Env, ss: Session, stmt: Statement, logs: bool, io: Flush)
    requires EnvOk(env) && Settles(env, ss) && Behaves(env, ss, stmt) && !ss.inTxn && CanFlushAfter(StoreWhenDone(env, ss, stmt), io)
    ensures Settles(env, AfterStatement(env, ss, stmt, logs, io))
    ensures StoreWhenDone(env, ss, stmt).active.Some?
  {
    ExecuteSettles(env, ss, stmt, logs);
    StatementStart(env, ss, stmt);
    WrittenPages(Begun(ss.store), WritesOf(env, ss.catalog, stmt(Visible(ss.store), ss.catalog)));
    var next, done := Executed(env, ss, stmt, logs), StoreWhenDone(env, ss, stmt);
    if Sessions.Succeeds(env, ss, stmt, logs) && done.pending != map[] {
      assert next.store == Committed(env.crc, done);
      CheckpointSettlesToo(env, next, io);
    }
  }

  /** A statement outside a transaction, said by what its parts do. */
  lemma {:induction false} AloneIs(env: Env, ss: Session, stmt: Statement, append: WriteOutcome, io: Flush)
    requires !ss.inTxn && StoreWhenDone(env, ss, stmt).active.Some?
    ensures var e, done, ok := stmt(Visible(ss.store), ss.catalog), StoreWhenDone(env, ss, stmt), Sessions.Succeeds(env, ss, stmt, append.Succeeds?);
            var store := if e.ok then CommitOutcome(env.crc, done, append, io) else Aborted(done);
            var staged := Staged(ss.feed, e.changes);
            && ok == (e.ok && (append.Succeeds? || done.pending == map[]))
            && AfterStatement(env, ss, stmt, append.Succeeds?, io)
               == ss.(store := store, catalog := if ok then e.catalog else StoredCatalog(env, store),
                      feed := if ok then Published(staged) else Discarded(staged, |ss.feed.staged|))
  {
  }

  lemma {:induction false} CommitSettlesToo(env: Env, ss: Session, logs: bool, io: Flush)
    requires Settles(env, ss) && (ss.inTxn ==> CanFlushAfter(ss.store, io))
    ensures Settles(env, AfterTxnCommit(env, ss, logs, io))
  {
    CommitTxnSettles(env, ss, logs);
    ActiveInTxn(env, ss);
    if ss.inTxn && logs && ss.store.pending != map[] {
      CheckpointSettlesToo(env, TxnCommitted(env, ss, logs), io);
    }
  }
}
