/** Statements and transactions with crashes at any point: what a restart finds. */
module SessionRuns {
  import opened Bytes
  import opened Wal
  import opened WalGroups
  import opened PagerStore
  import opened Cdc
  import opened Sessions
  import Runs = PagerRuns

  /** A running database, or the two files that a crash left behind. */
  datatype System = Up(session: Session) | Down(disk: seq<Page>, wal: seq<byte>)

  datatype Event =
    | Execute(stmt: Statement, logs: bool)
    | Begin
    | Commit(logs: bool)
    | Rollback
    | Checkpoint
    | CheckpointFails(torn: seq<Page>)
    | Crash                                          // between two statements
    | CrashInStatement(stmt: Statement, writes: nat) // after that many of its page writes
    | CrashInOwnCommit(stmt: Statement, arrived: nat) // while its own group is appended
    | CrashInCommit(arrived: nat)                    // while the transaction's group is appended
    | CrashInCheckpoint(torn: seq<Page>)
    | Reopen(nextGroup: U64, feed: Feed)
    | CrashInRecovery(torn: seq<Page>)

  /** The store of a session while a statement of its runs, after `n` page writes. */
  ghost function Midway(env: Env, ss: Session, stmt: Statement, n: nat): Store {
    var ws := WritesOf(env, ss.catalog, stmt(Visible(ss.store), ss.catalog));
    WrittenAll(if ss.inTxn then SavepointBegun(ss.store) else Begun(ss.store), if n < |ws| then ws[..n] else ws)
  }

  ghost function WhenDone(env: Env, ss: Session, stmt: Statement): Store {
    WrittenAll(Begun(ss.store), WritesOf(env, ss.catalog, stmt(Visible(ss.store), ss.catalog)))
  }

  ghost predicate CanTear(s: Store, torn: seq<Page>) {
    TornDisk(s.disk, s.committed, BasePages(s), torn)
  }

  ghost predicate Appending(s: Store) {
    s.active.Some? && s.pending != map[]
  }

  ghost predicate Possible(env: Env, sys: System, e: Event) {
    match e
    case Execute(stmt, _) => sys.Up? && Behaves(env, sys.session, stmt)
    case CheckpointFails(torn) => sys.Up? && CanTear(sys.session.store, torn)
    case CrashInCheckpoint(torn) => sys.Up? && CanTear(sys.session.store, torn)
    case CrashInOwnCommit(stmt, k) =>
      && sys.Up? && !sys.session.inTxn && Behaves(env, sys.session, stmt) && stmt(Visible(sys.session.store), sys.session.catalog).ok
      && Appending(WhenDone(env, sys.session, stmt)) && k <= |EncodeGroup(env.crc, GroupOf(WhenDone(env, sys.session, stmt)))|
    case CrashInCommit(k) => sys.Up? && Appending(sys.session.store) && k <= |EncodeGroup(env.crc, GroupOf(sys.session.store))|
    case Reopen(_, feed) => sys.Down? && feed.staged == []
    case CrashInRecovery(torn) =>
      sys.Down? && TornDisk(sys.disk, MapOf(Runs.Replay(env.crc, sys.wal)), LenAfter(|sys.disk|, Runs.Replay(env.crc, sys.wal)), torn)
    case _ => sys.Up?
  }

  ghost function Reopened(env: Env, sys: System, next: U64, feed: Feed): Session
    requires sys.Down?
  {
    var s := Opened(env.crc, sys.disk, sys.wal, next);
    Session(s, false, StoredCatalog(env, s), feed)
  }

  ghost function Next(env: Env, sys: System, e: Event): System
    requires Possible(env, sys, e)
  {
    match e
    case Execute(stmt, logs) => Up(Executed(env, sys.session, stmt, logs))
    case Begin => Up(TxnBegun(sys.session))
    case Commit(logs) => Up(TxnCommitted(env, sys.session, logs))
    case Rollback => Up(TxnRolledBack(env, sys.session))
    case Checkpoint => Up(sys.session.(store := Checkpointed(sys.session.store)))
    case CheckpointFails(torn) => Up(sys.session.(store := HalfCheckpointed(sys.session.store, torn)))
    case Crash => Down(sys.session.store.disk, sys.session.store.wal)
    case CrashInStatement(stmt, n) => var s := Midway(env, sys.session, stmt, n); Down(s.disk, s.wal)
    case CrashInOwnCommit(stmt, k) =>
      var s := WhenDone(env, sys.session, stmt);
      Down(s.disk, s.wal + EncodeGroup(env.crc, GroupOf(s))[..k])
    case CrashInCommit(k) =>
      Down(sys.session.store.disk, sys.session.store.wal + EncodeGroup(env.crc, GroupOf(sys.session.store))[..k])
    case CrashInCheckpoint(torn) => Down(torn, sys.session.store.wal)
    case Reopen(next, feed) => Up(Reopened(env, sys, next, feed))
    case CrashInRecovery(torn) => Down(torn, sys.wal)
  }

  /** The database after an event: what a statement outside a transaction or a COMMIT built, once
      it commits; a commit that a crash cut off counts exactly when all of its bytes arrived. */
  ghost function Committed(env: Env, sys: System, e: Event, db: seq<Page>): seq<Page> {
    if sys.Down? then db
    else
      var ss := sys.session;
      match e
      case Execute(stmt, logs) => if !ss.inTxn && Succeeds(env, ss, stmt, logs) then Visible(WhenDone(env, ss, stmt)) else db
      case Commit(logs) => if ss.inTxn && (logs || ss.store.pending == map[]) then Visible(ss.store) else db
      case CrashInOwnCommit(stmt, k) =>
        var s := WhenDone(env, ss, stmt);
        if s.active.Some? && k == |EncodeGroup(env.crc, GroupOf(s))| then Visible(s) else db
      case CrashInCommit(k) => if ss.store.active.Some? && k == |EncodeGroup(env.crc, GroupOf(ss.store))| then Visible(ss.store) else db
      case _ => db
  }

  ghost predicate Feasible(env: Env, sys: System, es: seq<Event>)
    decreases |es|
  {
    es == [] || (Possible(env, sys, es[0]) && Feasible(env, Next(env, sys, es[0]), es[1..]))
  }

  ghost function Run(env: Env, sys: System, es: seq<Event>): System
    requires Feasible(env, sys, es)
    decreases |es|
  {
    if es == [] then sys else Run(env, Next(env, sys, es[0]), es[1..])
  }

  /** The database that the last commit of a run left. */
  ghost function LastCommitted(env: Env, sys: System, es: seq<Event>, db: seq<Page>): seq<Page>
    requires Feasible(env, sys, es)
    decreases |es|
  {
    if es == [] then db else LastCommitted(env, Next(env, sys, es[0]), es[1..], Committed(env, sys, es[0], db))
  }

  /** `db` is committed in a running database, and is what a restart finds after a crash. */
  ghost predicate Holds(env: Env, sys: System, db: seq<Page>) {
    && SCHEMA_PAGE < |db|
    && match sys
       case Up(ss) => Settles(env, ss) && Logical(ss.store) == db
       case Down(disk, wal) => Runs.Holds(env.crc, Runs.Down(disk, wal), db)
  }

  // ---------------------------------------------------------------- crashes

  lemma {:induction false} CommittedPages(env: Env, ss: Session)
    requires Settles(env, ss)
    ensures SCHEMA_PAGE < |Logical(ss.store)| <= |Visible(ss.store)|
  {
    var gs :| Settled(env, ss, gs);
  }

  /** No page write reaches a file before its group commits. */
  lemma {:induction false} WritesStayInMemory(s: Store, ws: seq<PageWrite>)
    ensures WrittenAll(s, ws).disk == s.disk && WrittenAll(s, ws).wal == s.wal
    decreases |ws|
  {
    if ws != [] {
      WritesStayInMemory(s, ws[..|ws| - 1]);
    }
  }

  lemma {:induction false} CrashHolds(env: Env, ss: Session)
    requires Settles(env, ss)
    ensures Holds(env, Down(ss.store.disk, ss.store.wal), Logical(ss.store))
  {
    CommittedPages(env, ss);
    var gs :| Settled(env, ss, gs);
    Runs.CrashHolds(env.crc, ss.store, gs);
  }

  lemma {:induction false} TornHolds(env: Env, ss: Session, torn: seq<Page>)
    requires Settles(env, ss) && CanTear(ss.store, torn)
    ensures Holds(env, Down(torn, ss.store.wal), Logical(ss.store))
  {
    CommittedPages(env, ss);
    var gs :| Settled(env, ss, gs);
    HalfCheckpointKeeps(env.crc, ss.store, gs, torn);
    Runs.CrashHolds(env.crc, HalfCheckpointed(ss.store, torn), gs);
  }

  /** Cutting off an append: the group is there exactly when all of its bytes are. */
  lemma {:induction false} CutOffHolds(crc: Crc, s: Store, gs: seq<Group>, k: nat)
    requires Inv(crc, s, gs) && Appending(s) && k <= |EncodeGroup(crc, GroupOf(s))|
    ensures Runs.Holds(crc, Runs.Down(s.disk, s.wal + EncodeGroup(crc, GroupOf(s))[..k]),
                       if k == |EncodeGroup(crc, GroupOf(s))| then Visible(s) else Logical(s))
  {
    Runs.CrashInCommitHolds(crc, s, gs, k);
    CommitKeeps(crc, s, gs);
    Runs.FlattenOne(GroupOf(s));
  }

  lemma {:induction false} CommitCutOff(env: Env, ss: Session, k: nat)
    requires Settles(env, ss) && Appending(ss.store) && k <= |EncodeGroup(env.crc, GroupOf(ss.store))|
    ensures Holds(env, Next(env, Up(ss), CrashInCommit(k)), Committed(env, Up(ss), CrashInCommit(k), Logical(ss.store)))
  {
    CommittedPages(env, ss);
    var gs :| Settled(env, ss, gs);
    CutOffHolds(env.crc, ss.store, gs, k);
  }

  lemma {:induction false} OwnCommitCutOff(env: Env, ss: Session, stmt: Statement, k: nat)
    requires EnvOk(env) && Settles(env, ss) && Possible(env, Up(ss), CrashInOwnCommit(stmt, k))
    ensures Holds(env, Next(env, Up(ss), CrashInOwnCommit(stmt, k)), Committed(env, Up(ss), CrashInOwnCommit(stmt, k), Logical(ss.store)))
  {
    CommittedPages(env, ss);
    var gs :| Settled(env, ss, gs);
    StatementView(env, ss, gs, stmt);
    CutOffHolds(env.crc, WhenDone(env, ss, stmt), gs, k);
  }

  // ---------------------------------------------------------------- one step

  lemma {:induction false} ExecuteHolds(env: Env, ss: Session, stmt: Statement, logs: bool)
    requires EnvOk(env) && Settles(env, ss) && Behaves(env, ss, stmt)
    ensures Holds(env, Up(Executed(env, ss, stmt, logs)), Committed(env, Up(ss), Execute(stmt, logs), Logical(ss.store)))
  {
    ExecuteSettles(env, ss, stmt, logs);
    CommittedPages(env, ss);
    CommittedPages(env, Executed(env, ss, stmt, logs));
    var gs :| Settled(env, ss, gs);
    StatementView(env, ss, gs, stmt);
    if !ss.inTxn {
      IdleView(env.crc, ss.store, gs);
    }
  }

  lemma {:induction false} CommitHolds(env: Env, ss: Session, logs: bool)
    requires Settles(env, ss)
    ensures Holds(env, Up(TxnCommitted(env, ss, logs)), Committed(env, Up(ss), Commit(logs), Logical(ss.store)))
  {
    CommitTxnSettles(env, ss, logs);
    CommittedPages(env, TxnCommitted(env, ss, logs));
    var gs :| Settled(env, ss, gs);
    if !ss.inTxn {
      IdleView(env.crc, ss.store, gs);
    }
  }

  lemma {:induction false} CheckpointHolds(env: Env, ss: Session, torn: seq<Page>)
    requires Settles(env, ss)
    ensures Holds(env, Up(ss.(store := Checkpointed(ss.store))), Logical(ss.store))
    ensures CanTear(ss.store, torn) ==> Holds(env, Up(ss.(store := HalfCheckpointed(ss.store, torn))), Logical(ss.store))
  {
    CommittedPages(env, ss);
    var gs :| Settled(env, ss, gs);
    CheckpointKeeps(env.crc, ss.store, gs);
    assert Settled(env, ss.(store := Checkpointed(ss.store)), if ss.store.committed == map[] then gs else []);
    if CanTear(ss.store, torn) {
      HalfCheckpointKeeps(env.crc, ss.store, gs, torn);
      assert Settled(env, ss.(store := HalfCheckpointed(ss.store, torn)), gs);
    }
  }

  /** Reopening finds the database as last committed, and its schema with it. */
  lemma {:induction false} ReopenHolds(env: Env, sys: System, db: seq<Page>, next: U64, feed: Feed)
    requires sys.Down? && Holds(env, sys, db) && feed.staged == []
    ensures var ss := Reopened(env, sys, next, feed);
            && Holds(env, Up(ss), db)
            && Visible(ss.store) == ss.store.disk == db && ss.catalog == env.schemaOf(db[SCHEMA_PAGE])
  {
    Runs.ReopenHolds(env.crc, sys.disk, sys.wal, next);
    assert Settled(env, Reopened(env, sys, next, feed), []);
  }

  lemma {:induction false} UpStepHolds(env: Env, ss: Session, e: Event)
    requires EnvOk(env) && Settles(env, ss) && Possible(env, Up(ss), e)
    ensures Holds(env, Next(env, Up(ss), e), Committed(env, Up(ss), e, Logical(ss.store)))
  {
    CommittedPages(env, ss);
    match e
    case Execute(stmt, logs) => ExecuteHolds(env, ss, stmt, logs);
    case Begin => BeginSettles(env, ss);
    case Commit(logs) => CommitHolds(env, ss, logs);
    case Rollback => RollbackSettles(env, ss);
    case Checkpoint => CheckpointHolds(env, ss, []);
    case CheckpointFails(torn) => CheckpointHolds(env, ss, torn);
    case Crash => CrashHolds(env, ss);
    case CrashInStatement(stmt, n) =>
      var ws := WritesOf(env, ss.catalog, stmt(Visible(ss.store), ss.catalog));
      WritesStayInMemory(if ss.inTxn then SavepointBegun(ss.store) else Begun(ss.store), if n < |ws| then ws[..n] else ws);
      CrashHolds(env, ss);
    case CrashInOwnCommit(stmt, k) => OwnCommitCutOff(env, ss, stmt, k);
    case CrashInCommit(k) => CommitCutOff(env, ss, k);
    case CrashInCheckpoint(torn) => TornHolds(env, ss, torn);
  }

  lemma {:induction false} StepHolds(env: Env, sys: System, db: seq<Page>, e: Event)
    requires EnvOk(env) && Holds(env, sys, db) && Possible(env, sys, e)
    ensures Holds(env, Next(env, sys, e), Committed(env, sys, e, db))
  {
    match sys
    case Up(ss) => UpStepHolds(env, ss, e);
    case Down(disk, wal) =>
      if e.Reopen? {
        ReopenHolds(env, sys, db, e.nextGroup, e.feed);
      } else {
        Runs.ReplayTwice(disk, Runs.Replay(env.crc, wal), e.torn);
      }
  }

  lemma {:induction false} RunHolds(env: Env, sys: System, db: seq<Page>, es: seq<Event>)
    requires EnvOk(env) && Holds(env, sys, db) && Feasible(env, sys, es)
    ensures Holds(env, Run(env, sys, es), LastCommitted(env, sys, es, db))
    decreases |es|
  {
    if es != [] {
      StepHolds(env, sys, db, es[0]);
      RunHolds(env, Next(env, sys, es[0]), Committed(env, sys, es[0], db), es[1..]);
    }
  }

  /** Durability and atomicity over whole runs: from an initialized data file, after any run of
      statements and transactions with crashes anywhere, within statements, commits, checkpoints
      and recovery itself, reopening gives exactly the database that the last commit left, with
      the schema stored in it. */
  lemma {:induction false} NothingCommittedIsLost(env: Env, disk: seq<Page>, es: seq<Event>, next: U64, feed: Feed)
    requires EnvOk(env) && SCHEMA_PAGE < |disk| < 0x1_0000_0000_0000_0000 && Feasible(env, Down(disk, []), es) && feed.staged == []
    ensures var sys, db := Run(env, Down(disk, []), es), LastCommitted(env, Down(disk, []), es, disk);
            && SCHEMA_PAGE < |db|
            && (sys.Up? ==> Logical(sys.session.store) == db)
            && (sys.Down? ==>
                  var ss := Reopened(env, sys, next, feed);
                  Visible(ss.store) == ss.store.disk == db && ss.catalog == env.schemaOf(db[SCHEMA_PAGE]) && !ss.inTxn)
  {
    NothingFound(env.crc);
    assert Runs.Replay(env.crc, []) == [];
    RunHolds(env, Down(disk, []), disk, es);
    var sys := Run(env, Down(disk, []), es);
    if sys.Down? {
      ReopenHolds(env, sys, LastCommitted(env, Down(disk, []), es, disk), next, feed);
    }
  }
}
