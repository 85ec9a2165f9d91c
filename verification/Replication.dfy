/** The published changes of a whole run of INSERT, UPDATE and DELETE, in and out of
    transactions, replay to the committed tables. */
module Replication {
  import opened Options
  import opened Bytes
  import opened Wal
  import opened WalGroups
  import opened PagerStore
  import opened Rows
  import opened Values
  import opened Cdc
  import opened Queries
  import opened Dml
  import opened Sessions
  import Sql = TableRuns

  /** `stmt` is what running `dml` on the table does to the pages; `logs` says whether a commit
      reaches the log. */
  datatype Event =
    | Execute(stmt: Statement, table: string, dml: Sql.Statement, logs: bool)
    | Begin
    | Commit(logs: bool)
    | Rollback
    | Checkpoint
    | CheckpointFails(torn: seq<Page>)

  ghost function Next(env: Env, ss: Session, e: Event): Session {
    match e
    case Execute(stmt, _, _, logs) => Executed(env, ss, stmt, logs)
    case Begin => TxnBegun(ss)
    case Commit(logs) => TxnCommitted(env, ss, logs)
    case Rollback => TxnRolledBack(env, ss)
    case Checkpoint => ss.(store := Checkpointed(ss.store))
    case CheckpointFails(torn) =>
      if TornDisk(ss.store.disk, ss.store.committed, BasePages(ss.store), torn) then ss.(store := HalfCheckpointed(ss.store, torn)) else ss
  }

  /** A statement outside a transaction publishes its changes if it succeeds. */
  ghost function PublishesAlone(env: Env, ss: Session, stmt: Statement, logs: bool): seq<Change> {
    if !ss.inTxn && Succeeds(env, ss, stmt, logs) then stmt(Visible(ss.store), ss.catalog).changes else []
  }

  /** The changes that an event publishes. */
  ghost function Publishes(env: Env, ss: Session, e: Event): seq<Change> {
    if e.Execute? then PublishesAlone(env, ss, e.stmt, e.logs)
    else if e.Commit? && ss.inTxn && (e.logs || ss.store.pending == map[]) then ss.feed.staged
    else []
  }

  type Step = (Session, Event) -> Session

  type Sanity = (Session, Event) -> bool

  type Output = (Session, Event) -> seq<Change>

  ghost function RunBy(step: Step, ss: Session, es: seq<Event>): Session
    decreases |es|
  {
    if es == [] then ss else RunBy(step, step(ss, es[0]), es[1..])
  }

  ghost function NewsBy(step: Step, out: Output, ss: Session, es: seq<Event>): seq<Change>
    decreases |es|
  {
    if es == [] then [] else out(ss, es[0]) + NewsBy(step, out, step(ss, es[0]), es[1..])
  }

  /** Every event of a run meets the condition in the session where it happens. */
  ghost predicate SaneBy(step: Step, sane: Sanity, ss: Session, es: seq<Event>)
    decreases |es|
  {
    es == [] || (sane(ss, es[0]) && SaneBy(step, sane, step(ss, es[0]), es[1..]))
  }

  ghost function StepOf(env: Env): Step {
    (ss: Session, e: Event) => Next(env, ss, e)
  }

  ghost function OutputOf(env: Env): Output {
    (ss: Session, e: Event) => Publishes(env, ss, e)
  }

  /** The session after a run, and all that the run publishes. */
  ghost function Run(env: Env, ss: Session, es: seq<Event>): Session {
    RunBy(StepOf(env), ss, es)
  }

  ghost function News(env: Env, ss: Session, es: seq<Event>): seq<Change> {
    NewsBy(StepOf(env), OutputOf(env), ss, es)
  }

  /** How pages hold tables, and where rows hold their keys. */
  datatype Layout = Layout(tables: seq<Page> -> Tables, pk: KeyOf)

  type Definitions = map<string, Schema>

  /** Definitions go by their names, and a consumer can tell the key of a row from the row. */
  ghost predicate DefinitionsOk(pk: KeyOf, defs: Definitions) {
    forall name :: name in defs ==> defs[name].name == name && DistinctNames(defs[name].columns) && KnowsKeys(pk, defs[name])
  }

  /** Rows carry their keys in every table. */
  ghost predicate AllKeyed(defs: Definitions, db: Tables) {
    forall name :: name in defs && name in db ==> WellKeyed(defs[name], db[name])
  }

  /** The pages that a successful statement leaves hold the table that `dml` computes from the
      one they held, and it stages the changes that `dml` captures. */
  ghost predicate Performs(env: Env, lib: Library, lay: Layout, ss: Session, stmt: Statement, name: string, dml: Sql.Statement) {
    var view := Visible(ss.store);
    var e := stmt(view, ss.catalog);
    var ws, db, defs := WritesOf(env, ss.catalog, e), lay.tables(view), ss.catalog.tables;
    && Behaves(env, ss, stmt)
    && (e.ok ==>
          && !e.ddl && name in defs && name in db
          && exists scan, out ::
               && IsScan(db[name], scan) && Sql.Computes(lib, defs[name], db[name], scan, dml, out) && !out.Failed?
               && (out.Done? && Orderly(|view|, ws) ==> e.changes == out.changes && lay.tables(PutAll(view, ws)) == db[name := out.table]))
  }

  /** What is asked of the SQL: no UPDATE assigns the key column on two rows, and no INSERT
      gives it two different values. */
  ghost predicate ProperAt(lib: Library, lay: Layout, ss: Session, name: string, dml: Sql.Statement) {
    var db, defs := lay.tables(Visible(ss.store)), ss.catalog.tables;
    name in defs && name in db ==> Sql.Proper(lib, defs[name], db[name], dml)
  }

  ghost predicate SaneEvent(env: Env, lib: Library, lay: Layout, ss: Session, e: Event) {
    e.Execute? ==> Performs(env, lib, lay, ss, e.stmt, e.table, e.dml) && ProperAt(lib, lay, ss, e.table, e.dml)
  }

  ghost function SanityOf(env: Env, lib: Library, lay: Layout): Sanity {
    (ss: Session, e: Event) => SaneEvent(env, lib, lay, ss, e)
  }

  ghost predicate SaneRun(env: Env, lib: Library, lay: Layout, ss: Session, es: seq<Event>) {
    SaneBy(StepOf(env), SanityOf(env, lib, lay), ss, es)
  }

  // ---------------------------------------------------------------- what a statement stages is what it does

  /** The changes staged replay the tables in view before to those after. */
  ghost predicate Faithful(env: Env, lay: Layout, ss: Session, stmt: Statement) {
    var view := Visible(ss.store);
    var e := stmt(view, ss.catalog);
    var ws := WritesOf(env, ss.catalog, e);
    && Behaves(env, ss, stmt)
    && (e.ok && Orderly(|view|, ws) ==> lay.tables(PutAll(view, ws)) == ReplayedAll(lay.pk, lay.tables(view), e.changes))
  }

  /** What INSERT, UPDATE and DELETE capture on one table among many replays to their result. */
  lemma {:induction false} TableReplays(lib: Library, pk: KeyOf, defs: Definitions, db: Tables, name: string, scan: seq<(int, Row)>, dml: Sql.Statement, out: Outcome)
    requires DefinitionsOk(pk, defs) && AllKeyed(defs, db) && name in defs && name in db && IsScan(db[name], scan)
    requires Sql.Computes(lib, defs[name], db[name], scan, dml, out) && Sql.Proper(lib, defs[name], db[name], dml) && !out.Failed?
    ensures out.Done? && ReplayedAll(pk, db, out.changes) == db[name := out.table] && AllKeyed(defs, db[name := out.table])
  {
    Sql.ProperNotDoubled(lib, defs[name], db[name], scan, dml, out);
    Sql.StatementSound(lib, defs[name], db[name], scan, dml, out, pk);
  }

  /** INSERT, UPDATE and DELETE are faithful, and keep the keys in their rows. */
  lemma {:induction false} DmlIsFaithful(env: Env, lib: Library, lay: Layout, ss: Session, stmt: Statement, name: string, dml: Sql.Statement)
    requires DefinitionsOk(lay.pk, ss.catalog.tables) && AllKeyed(ss.catalog.tables, lay.tables(Visible(ss.store)))
    requires Performs(env, lib, lay, ss, stmt, name, dml) && ProperAt(lib, lay, ss, name, dml)
    ensures Faithful(env, lay, ss, stmt)
    ensures var view := Visible(ss.store);
            var e := stmt(view, ss.catalog);
            var ws := WritesOf(env, ss.catalog, e);
            e.ok && Orderly(|view|, ws) ==> AllKeyed(ss.catalog.tables, lay.tables(PutAll(view, ws)))
  {
    var view := Visible(ss.store);
    var e := stmt(view, ss.catalog);
    var ws, db, defs := WritesOf(env, ss.catalog, e), lay.tables(view), ss.catalog.tables;
    if e.ok && Orderly(|view|, ws) {
      var scan, out :|
        && IsScan(db[name], scan) && Sql.Computes(lib, defs[name], db[name], scan, dml, out) && !out.Failed?
        && (out.Done? && Orderly(|view|, ws) ==> e.changes == out.changes && lay.tables(PutAll(view, ws)) == db[name := out.table]);
      TableReplays(lib, lay.pk, defs, db, name, scan, dml, out);
    }
  }

  // ---------------------------------------------------------------- definitions and keys over a run

  /** The definitions stored in the committed pages. */
  ghost function CommittedDefinitions(env: Env, ss: Session): Definitions {
    if SCHEMA_PAGE < |Logical(ss.store)| then env.schemaOf(Logical(ss.store)[SCHEMA_PAGE]).tables else map[]
  }

  ghost predicate Tabled(env: Env, lay: Layout, ss: Session, defs: Definitions) {
    && ss.catalog.tables == defs && CommittedDefinitions(env, ss) == defs
    && AllKeyed(defs, lay.tables(Visible(ss.store))) && AllKeyed(defs, lay.tables(Logical(ss.store)))
  }

  lemma {:induction false} SettledDefinitions(env: Env, ss: Session)
    requires Settles(env, ss) && Visible(ss.store) == Logical(ss.store)
    ensures CommittedDefinitions(env, ss) == ss.catalog.tables
  {
    var gs :| Settled(env, ss, gs);
  }

  lemma {:induction false} ExecuteTabled(env: Env, lib: Library, lay: Layout, ss: Session, defs: Definitions, e: Event)
    requires EnvOk(env) && Settles(env, ss) && DefinitionsOk(lay.pk, defs) && Tabled(env, lay, ss, defs) && e.Execute? && SaneEvent(env, lib, lay, ss, e)
    ensures Tabled(env, lay, Next(env, ss, e), defs)
  {
    var ss' := Next(env, ss, e);
    ExecuteSettles(env, ss, e.stmt, e.logs);
    DmlIsFaithful(env, lib, lay, ss, e.stmt, e.table, e.dml);
    if !ss.inTxn {
      SettledDefinitions(env, ss');
    }
  }

  lemma {:induction false} StepTabled(env: Env, lib: Library, lay: Layout, ss: Session, defs: Definitions, e: Event)
    requires EnvOk(env) && Settles(env, ss) && DefinitionsOk(lay.pk, defs) && Tabled(env, lay, ss, defs) && SaneEvent(env, lib, lay, ss, e)
    ensures Tabled(env, lay, Next(env, ss, e), defs)
  {
    match e
    case Execute(_, _, _, _) => ExecuteTabled(env, lib, lay, ss, defs, e);
    case Begin => BeginSettles(env, ss);
    case Commit(logs) => CommitTabled(env, lay, ss, defs, logs);
    case Rollback => RollbackTabled(env, lay, ss, defs);
    case Checkpoint => CheckpointSettles(env, ss, e);
    case CheckpointFails(_) => CheckpointSettles(env, ss, e);
  }

  lemma {:induction false} RollbackTabled(env: Env, lay: Layout, ss: Session, defs: Definitions)
    requires Settles(env, ss) && Tabled(env, lay, ss, defs)
    ensures Tabled(env, lay, TxnRolledBack(env, ss), defs)
  {
    RollbackSettles(env, ss);
    SettledDefinitions(env, TxnRolledBack(env, ss));
  }

  lemma {:induction false} CommitTabled(env: Env, lay: Layout, ss: Session, defs: Definitions, logs: bool)
    requires Settles(env, ss) && Tabled(env, lay, ss, defs)
    ensures Tabled(env, lay, TxnCommitted(env, ss, logs), defs)
  {
    CommitTxnSettles(env, ss, logs);
    if ss.inTxn && !logs && ss.store.pending != map[] {
      RollbackTabled(env, lay, ss, defs);
    } else {
      SettledDefinitions(env, TxnCommitted(env, ss, logs));
    }
  }

  // ---------------------------------------------------------------- captured changes over a run

  /** `base` with the published `news` is the committed database, and with the staged changes
      the one in view. */
  ghost predicate Captured(env: Env, lay: Layout, ss: Session, before: seq<Change>, base: Tables, news: seq<Change>) {
    && Settles(env, ss) && ss.feed.enabled
    && Retains(ss.feed, before + news) && KeepsLast(ss.feed, |news|)
    && lay.tables(Logical(ss.store)) == ReplayedAll(lay.pk, base, news)
    && lay.tables(Visible(ss.store)) == ReplayedAll(lay.pk, base, news + ss.feed.staged)
  }

  lemma {:induction false} IdleFacts(env: Env, ss: Session)
    requires Settles(env, ss) && !ss.inTxn
    ensures ss.feed.staged == [] && Visible(ss.store) == Logical(ss.store)
  {
    var gs :| Settled(env, ss, gs);
    IdleView(env.crc, ss.store, gs);
  }

  /** Publishing turns staged changes into news. */
  lemma {:induction false} PublishRetains(f: Feed, before: seq<Change>, news: seq<Change>)
    requires f.enabled && Retains(f, before + news) && KeepsLast(f, |news|)
    ensures Published(f).enabled && Published(f).staged == []
    ensures Retains(Published(f), before + (news + f.staged)) && KeepsLast(Published(f), |news + f.staged|)
  {
    var g := f.(staged := []);
    assert Retains(g, before + news) && KeepsLast(g, |news|);
    RecordAllRetains(g, before + news, f.staged, |news|);
    assert before + news + f.staged == before + (news + f.staged);
  }

  lemma {:induction false} StagedRetains(f: Feed, cs: seq<Change>, all: seq<Change>, n: nat)
    requires f.enabled && Retains(f, all) && KeepsLast(f, n)
    ensures Staged(f, cs).enabled && Staged(f, cs).staged == f.staged + cs && Retains(Staged(f, cs), all) && KeepsLast(Staged(f, cs), n)
  {
  }

  lemma {:induction false} ReplayMore(pk: KeyOf, base: Tables, news: seq<Change>, staged: seq<Change>, cs: seq<Change>)
    ensures ReplayedAll(pk, ReplayedAll(pk, base, news + staged), cs) == ReplayedAll(pk, base, news + (staged + cs))
  {
    ReplayAppend(pk, base, news + staged, cs);
    assert news + staged + cs == news + (staged + cs);
  }

  /** In view after a statement that succeeds: what was in view, with its changes. */
  lemma {:induction false} ViewChanged(env: Env, lay: Layout, ss: Session, stmt: Statement, logs: bool)
    requires EnvOk(env) && Settles(env, ss) && Faithful(env, lay, ss, stmt) && Succeeds(env, ss, stmt, logs)
    ensures lay.tables(Visible(Executed(env, ss, stmt, logs).store))
            == ReplayedAll(lay.pk, lay.tables(Visible(ss.store)), stmt(Visible(ss.store), ss.catalog).changes)
  {
    ExecuteSettles(env, ss, stmt, logs);
  }

  lemma {:induction false} ViewReplays(env: Env, lay: Layout, ss: Session, before: seq<Change>, base: Tables, news: seq<Change>, stmt: Statement, logs: bool)
    requires EnvOk(env) && Captured(env, lay, ss, before, base, news) && Faithful(env, lay, ss, stmt) && Succeeds(env, ss, stmt, logs)
    ensures var f := Staged(ss.feed, stmt(Visible(ss.store), ss.catalog).changes);
            && f.enabled && Retains(f, before + news) && KeepsLast(f, |news|)
            && lay.tables(Visible(Executed(env, ss, stmt, logs).store)) == ReplayedAll(lay.pk, base, news + f.staged)
  {
    var cs := stmt(Visible(ss.store), ss.catalog).changes;
    StagedRetains(ss.feed, cs, before + news, |news|);
    ViewChanged(env, lay, ss, stmt, logs);
    ReplayMore(lay.pk, base, news, ss.feed.staged, cs);
  }

  lemma {:induction false} ExecuteCaptured(env: Env, lay: Layout, ss: Session, before: seq<Change>, base: Tables, news: seq<Change>, stmt: Statement, logs: bool)
    requires EnvOk(env) && Captured(env, lay, ss, before, base, news) && Faithful(env, lay, ss, stmt)
    ensures Captured(env, lay, Executed(env, ss, stmt, logs), before, base, news + PublishesAlone(env, ss, stmt, logs))
  {
    ExecuteSettles(env, ss, stmt, logs);
    assert news + [] == news;
    if !Succeeds(env, ss, stmt, logs) {
      if !ss.inTxn {
        IdleFacts(env, ss);
      }
    } else {
      ViewReplays(env, lay, ss, before, base, news, stmt, logs);
      if !ss.inTxn {
        AloneCaptured(env, lay, ss, before, base, news, stmt, logs);
      }
    }
  }

  lemma {:induction false} AloneCaptured(env: Env, lay: Layout, ss: Session, before: seq<Change>, base: Tables, news: seq<Change>, stmt: Statement, logs: bool)
    requires EnvOk(env) && Captured(env, lay, ss, before, base, news) && Faithful(env, lay, ss, stmt)
    requires Succeeds(env, ss, stmt, logs) && !ss.inTxn
    ensures Captured(env, lay, Executed(env, ss, stmt, logs), before, base, news + PublishesAlone(env, ss, stmt, logs))
  {
    var cs := stmt(Visible(ss.store), ss.catalog).changes;
    ExecuteSettles(env, ss, stmt, logs);
    ViewReplays(env, lay, ss, before, base, news, stmt, logs);
    IdleFacts(env, ss);
    assert [] + cs == cs;
    PublishRetains(Staged(ss.feed, cs), before, news);
    assert news + cs + [] == news + cs;
  }

  lemma {:induction false} CommitCaptured(env: Env, lay: Layout, ss: Session, before: seq<Change>, base: Tables, news: seq<Change>, logs: bool)
    requires Captured(env, lay, ss, before, base, news)
    ensures Captured(env, lay, TxnCommitted(env, ss, logs), before, base, news + Publishes(env, ss, Commit(logs)))
  {
    CommitTxnSettles(env, ss, logs);
    assert news + [] == news;
    if !ss.inTxn {
      IdleFacts(env, ss);
    } else if logs || ss.store.pending == map[] {
      PublishRetains(ss.feed, before, news);
      assert news + ss.feed.staged + [] == news + ss.feed.staged;
    } else {
      RollbackCaptured(env, lay, ss, before, base, news);
    }
  }

  lemma {:induction false} RollbackCaptured(env: Env, lay: Layout, ss: Session, before: seq<Change>, base: Tables, news: seq<Change>)
    requires Captured(env, lay, ss, before, base, news)
    ensures Captured(env, lay, TxnRolledBack(env, ss), before, base, news)
  {
    RollbackSettles(env, ss);
    assert news + [] == news;
    if !ss.inTxn {
      IdleFacts(env, ss);
    } else {
      assert TxnRolledBack(env, ss).feed.staged == [];
    }
  }

  /** Moving pages to the data file, or failing half-way, changes no page in view. */
  lemma {:induction false} CheckpointSettles(env: Env, ss: Session, e: Event)
    requires Settles(env, ss) && (e.Checkpoint? || e.CheckpointFails?)
    ensures Settles(env, Next(env, ss, e)) && Next(env, ss, e).feed == ss.feed
    ensures Visible(Next(env, ss, e).store) == Visible(ss.store) && Logical(Next(env, ss, e).store) == Logical(ss.store)
  {
    var gs :| Settled(env, ss, gs);
    CheckpointKeeps(env.crc, ss.store, gs);
    if e.Checkpoint? {
      assert Settled(env, Next(env, ss, e), if ss.store.committed == map[] then gs else []);
    } else if TornDisk(ss.store.disk, ss.store.committed, BasePages(ss.store), e.torn) {
      HalfCheckpointKeeps(env.crc, ss.store, gs, e.torn);
      assert Settled(env, Next(env, ss, e), gs);
    }
  }

  lemma {:induction false} StepCaptured(env: Env, lay: Layout, ss: Session, before: seq<Change>, base: Tables, news: seq<Change>, e: Event)
    requires EnvOk(env) && Captured(env, lay, ss, before, base, news) && (e.Execute? ==> Faithful(env, lay, ss, e.stmt))
    ensures Captured(env, lay, Next(env, ss, e), before, base, news + Publishes(env, ss, e))
  {
    assert news + [] == news;
    match e
    case Execute(stmt, _, _, logs) => ExecuteCaptured(env, lay, ss, before, base, news, stmt, logs);
    case Begin => BeginSettles(env, ss);
    case Commit(logs) => CommitCaptured(env, lay, ss, before, base, news, logs);
    case Rollback => RollbackCaptured(env, lay, ss, before, base, news);
    case Checkpoint => CheckpointSettles(env, ss, e);
    case CheckpointFails(_) => CheckpointSettles(env, ss, e);
  }

  /** What every step keeps, a run keeps. */
  lemma {:induction false} RunKeeps(step: Step, out: Output, good: (Session, seq<Change>) -> bool, sane: Sanity, ss: Session, news: seq<Change>, es: seq<Event>)
    requires forall s, n, e {:trigger good(s, n), step(s, e)} :: good(s, n) && sane(s, e) ==> good(step(s, e), n + out(s, e))
    requires good(ss, news) && SaneBy(step, sane, ss, es)
    ensures good(RunBy(step, ss, es), news + NewsBy(step, out, ss, es))
    decreases |es|
  {
    if es == [] {
      assert news + [] == news;
    } else {
      var now, ss' := out(ss, es[0]), step(ss, es[0]);
      RunKeeps(step, out, good, sane, ss', news + now, es[1..]);
      assert news + now + NewsBy(step, out, ss', es[1..]) == news + (now + NewsBy(step, out, ss', es[1..]));
    }
  }

  ghost predicate Good(env: Env, lay: Layout, defs: Definitions, before: seq<Change>, base: Tables, ss: Session, news: seq<Change>) {
    Captured(env, lay, ss, before, base, news) && Tabled(env, lay, ss, defs)
  }

  lemma {:induction false} StepGood(env: Env, lib: Library, lay: Layout, defs: Definitions, before: seq<Change>, base: Tables, ss: Session, news: seq<Change>, e: Event)
    requires EnvOk(env) && DefinitionsOk(lay.pk, defs) && Good(env, lay, defs, before, base, ss, news) && SaneEvent(env, lib, lay, ss, e)
    ensures Good(env, lay, defs, before, base, Next(env, ss, e), news + Publishes(env, ss, e))
  {
    if e.Execute? {
      DmlIsFaithful(env, lib, lay, ss, e.stmt, e.table, e.dml);
    }
    StepCaptured(env, lay, ss, before, base, news, e);
    StepTabled(env, lib, lay, ss, defs, e);
  }

  lemma {:induction false} RunGood(env: Env, lib: Library, lay: Layout, defs: Definitions, before: seq<Change>, base: Tables, ss: Session, es: seq<Event>)
    requires EnvOk(env) && DefinitionsOk(lay.pk, defs) && Good(env, lay, defs, before, base, ss, []) && SaneRun(env, lib, lay, ss, es)
    ensures Good(env, lay, defs, before, base, Run(env, ss, es), News(env, ss, es))
  {
    var good := (s: Session, n: seq<Change>) => Good(env, lay, defs, before, base, s, n);
    var step, out, sane := StepOf(env), OutputOf(env), SanityOf(env, lib, lay);
    forall s, n, e | good(s, n) && sane(s, e)
      ensures good(step(s, e), n + out(s, e))
    {
      StepGood(env, lib, lay, defs, before, base, s, n, e);
    }
    RunKeeps(step, out, good, sane, ss, [], es);
    assert [] + News(env, ss, es) == News(env, ss, es);
  }

  /** Capture is a faithful replication log. Start from any idle session with capture on, after
      the changes `before`, whose tables hold rows that carry their keys; then over every run of
      INSERT, UPDATE and DELETE in and out of transactions, with commits, rollbacks and
      checkpoints, each failing or not, in which no UPDATE assigns the key column on two rows
      and no INSERT gives it two values: the log holds the latest changes under consecutive
      numbers up to the last, all that are new while they fit its capacity, and replaying the
      new ones over the tables as they were gives the tables as last committed. */
  lemma {:induction false} FeedReplicates(env: Env, lib: Library, lay: Layout, ss: Session, before: seq<Change>, es: seq<Event>)
    requires EnvOk(env) && Settles(env, ss) && !ss.inTxn && ss.feed.enabled && Retains(ss.feed, before)
    requires DefinitionsOk(lay.pk, ss.catalog.tables) && AllKeyed(ss.catalog.tables, lay.tables(Logical(ss.store)))
    requires SaneRun(env, lib, lay, ss, es)
    ensures var end, news := Run(env, ss, es), News(env, ss, es);
            && Retains(end.feed, before + news)
            && (|news| <= end.feed.capacity ==> |news| <= |end.feed.log|)
            && lay.tables(Logical(end.store)) == ReplayedAll(lay.pk, lay.tables(Logical(ss.store)), news)
  {
    IdleFacts(env, ss);
    SettledDefinitions(env, ss);
    var base := lay.tables(Logical(ss.store));
    assert before + [] == before;
    assert [] + ss.feed.staged == [];
    assert Captured(env, lay, ss, before, base, []);
    RunGood(env, lib, lay, ss.catalog.tables, before, base, ss, es);
  }
}
