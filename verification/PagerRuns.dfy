/** Whole runs of the pager, with crashes at any point. */
module PagerRuns {
  import opened Options
  import opened Bytes
  import opened Wal
  import opened WalGroups
  import opened PagerStore

  /** A running pager, or the two files that a crash left behind. */
  datatype System = Up(store: Store) | Down(disk: seq<Page>, wal: seq<byte>)

  datatype Event =
    | BeginGroup
    | WritePage(page: nat, data: Page)
    | BeginSavepoint
    | ReleaseSavepoint
    | RollbackToSavepoint
    | AbortGroup
    | CommitGroup
    | CommitFails                        // the append failed and was cut off again
    | Checkpoint
    | CheckpointFails(torn: seq<Page>)   // any part of the pages was written
    | Crash                              // between two operations
    | CrashInCommit(arrived: nat)        // that many bytes of the group reached the log
    | CrashInCheckpoint(torn: seq<Page>) // before the log was truncated
    | Reopen(nextGroup: U64)
    | CrashInRecovery(torn: seq<Page>)   // before the log was truncated

  /** The writes a restart finds in the log. */
  ghost function Replay(crc: Crc, wal: seq<byte>): seq<PageWrite> {
    Flatten(Recovered(crc, wal))
  }

  ghost predicate Possible(crc: Crc, sys: System, e: Event) {
    match e
    case WritePage(p, _) =>
      sys.Up? && sys.store.active.Some? && p <= sys.store.numPages && p + 1 < 0x1_0000_0000_0000_0000
    case CheckpointFails(torn) => sys.Up? && TornDisk(sys.store.disk, sys.store.committed, BasePages(sys.store), torn)
    case CrashInCheckpoint(torn) => sys.Up? && TornDisk(sys.store.disk, sys.store.committed, BasePages(sys.store), torn)
    case CrashInCommit(k) => Appends(sys) && k <= |EncodeGroup(crc, GroupOf(sys.store))|
    case Reopen(_) => sys.Down?
    case CrashInRecovery(torn) =>
      sys.Down? && TornDisk(sys.disk, MapOf(Replay(crc, sys.wal)), LenAfter(|sys.disk|, Replay(crc, sys.wal)), torn)
    case _ => sys.Up?
  }

  /** Committing would append a group to the log. */
  ghost predicate Appends(sys: System) {
    sys.Up? && sys.store.active.Some? && sys.store.pending != map[]
  }

  ghost function Next(crc: Crc, sys: System, e: Event): System
    requires Possible(crc, sys, e)
  {
    match e
    case BeginGroup => Up(Begun(sys.store))
    case WritePage(p, data) => Up(Written(sys.store, p, data))
    case BeginSavepoint => Up(SavepointBegun(sys.store))
    case ReleaseSavepoint => Up(Released(sys.store))
    case RollbackToSavepoint => Up(RolledBack(sys.store))
    case AbortGroup => Up(Aborted(sys.store))
    case CommitGroup => Up(Committed(crc, sys.store))
    case CommitFails => Up(Aborted(sys.store))
    case Checkpoint => Up(Checkpointed(sys.store))
    case CheckpointFails(torn) => Up(HalfCheckpointed(sys.store, torn))
    case Crash => Down(sys.store.disk, sys.store.wal)
    case CrashInCommit(k) => Down(sys.store.disk, sys.store.wal + EncodeGroup(crc, GroupOf(sys.store))[..k])
    case CrashInCheckpoint(torn) => Down(torn, sys.store.wal)
    case Reopen(next) => Up(Opened(crc, sys.disk, sys.wal, next))
    case CrashInRecovery(torn) => Down(torn, sys.wal)
  }

  /** The groups that an event commits: one for a commit, and one for a crash in a commit
      exactly when every byte of the group, COMMIT included, arrived. */
  ghost function Commits(crc: Crc, sys: System, e: Event): seq<Group> {
    if Appends(sys) && (e.CommitGroup? || (e.CrashInCommit? && e.arrived == |EncodeGroup(crc, GroupOf(sys.store))|)) then [GroupOf(sys.store)]
    else []
  }

  ghost predicate Feasible(crc: Crc, sys: System, es: seq<Event>)
    decreases |es|
  {
    es == [] || (Possible(crc, sys, es[0]) && Feasible(crc, Next(crc, sys, es[0]), es[1..]))
  }

  ghost function Run(crc: Crc, sys: System, es: seq<Event>): System
    requires Feasible(crc, sys, es)
    decreases |es|
  {
    if es == [] then sys else Run(crc, Next(crc, sys, es[0]), es[1..])
  }

  /** The groups committed over a run, in commit order. */
  ghost function History(crc: Crc, sys: System, es: seq<Event>): seq<Group>
    requires Feasible(crc, sys, es)
    decreases |es|
  {
    if es == [] then [] else Commits(crc, sys, es[0]) + History(crc, Next(crc, sys, es[0]), es[1..])
  }

  /** The database is `db`: as committed while up, as a restart will find it while down. */
  ghost predicate Holds(crc: Crc, sys: System, db: seq<Page>) {
    match sys
    case Up(s) => Logical(s) == db && exists gs :: Inv(crc, s, gs)
    case Down(disk, wal) => AllFormed(Parse(crc, wal)) && WriteAll(disk, Replay(crc, wal)) == db && |db| < 0x1_0000_0000_0000_0000
  }

  lemma {:induction false} HoldsUp(crc: Crc, s: Store, gs: seq<Group>, db: seq<Page>)
    requires Inv(crc, s, gs) && Logical(s) == db
    ensures Holds(crc, Up(s), db)
  {
  }

  // ---------------------------------------------------------------- crashes

  /** Replaying a log over the file it started from gives the database as committed. */
  lemma {:induction false} ReplayIsLogical(crc: Crc, s: Store, gs: seq<Group>)
    requires Inv(crc, s, gs)
    ensures WriteAll(s.disk, Flatten(gs)) == Logical(s)
  {
    WriteAllImage(s.disk, Flatten(gs));
  }

  lemma {:induction false} CrashHolds(crc: Crc, s: Store, gs: seq<Group>)
    requires Inv(crc, s, gs)
    ensures Holds(crc, Down(s.disk, s.wal), Logical(s))
  {
    RecoveredAll(crc, gs);
    ReplayIsLogical(crc, s, gs);
  }

  /** A restart that finds the group in flight applies it after those before it. */
  lemma {:induction false} ReplayWithLast(crc: Crc, s: Store, gs: seq<Group>)
    requires Inv(crc, s, gs) && Appends(Up(s))
    ensures WriteAll(s.disk, Flatten(gs + [GroupOf(s)])) == WriteAll(Logical(s), Flatten([GroupOf(s)]))
    ensures |WriteAll(Logical(s), Flatten([GroupOf(s)]))| == s.numPages
  {
    var g := GroupOf(s);
    CommitKeeps(crc, s, gs);
    ReplayIsLogical(crc, Committed(crc, s), gs + [g]);
    FlattenOne(g);
  }

  lemma {:induction false} CrashInCommitHolds(crc: Crc, s: Store, gs: seq<Group>, k: nat)
    requires Inv(crc, s, gs) && Appends(Up(s)) && k <= |EncodeGroup(crc, GroupOf(s))|
    ensures Holds(crc, Down(s.disk, s.wal + EncodeGroup(crc, GroupOf(s))[..k]),
                  WriteAll(Logical(s), Flatten(Commits(crc, Up(s), CrashInCommit(k)))))
  {
    TornAppend(crc, gs, GroupOf(s), k);
    ReplayIsLogical(crc, s, gs);
    ReplayWithLast(crc, s, gs);
  }

  lemma {:induction false} FlattenOne(g: Group)
    ensures Flatten([g]) == g.writes
  {
    assert [g][..0] == [];
    assert Flatten([g]) == Flatten([]) + g.writes;
  }

  /** Replaying over a file that already has any part of the replay gives the same file. */
  lemma {:induction false} ReplayTwice(disk: seq<Page>, ws: seq<PageWrite>, torn: seq<Page>)
    requires TornDisk(disk, MapOf(ws), LenAfter(|disk|, ws), torn)
    ensures WriteAll(torn, ws) == WriteAll(disk, ws)
  {
    WriteAllImage(disk, ws);
    WriteAllImage(torn, ws);
    LenAfterTorn(|disk|, |torn|, ws);
    TornRepaired(disk, MapOf(ws), LenAfter(|disk|, ws), torn);
  }

  lemma {:induction false} ReopenHolds(crc: Crc, disk: seq<Page>, wal: seq<byte>, next: U64)
    requires |WriteAll(disk, Replay(crc, wal))| < 0x1_0000_0000_0000_0000
    ensures var s := Opened(crc, disk, wal, next);
            Inv(crc, s, []) && Logical(s) == Visible(s) == s.disk == WriteAll(disk, Replay(crc, wal))
  {
    assert EncodeGroups(crc, []) == [] && Flatten([]) == [];
    var s := Opened(crc, disk, wal, next);
    assert Logical(s) == s.disk;
  }

  // ---------------------------------------------------------------- one step

  lemma {:induction false} StoreStep(crc: Crc, s: Store, gs: seq<Group>, e: Event)
    requires Inv(crc, s, gs) && Possible(crc, Up(s), e) && Next(crc, Up(s), e).Up? && !e.CommitGroup?
    ensures Holds(crc, Next(crc, Up(s), e), Logical(s))
  {
    match e
    case BeginGroup => BeginKeeps(crc, s, gs);
    case WritePage(p, data) => WriteKeeps(crc, s, gs, p, data);
    case BeginSavepoint => SavepointKeeps(crc, s, gs);
    case ReleaseSavepoint => SavepointKeeps(crc, s, gs);
    case RollbackToSavepoint => SavepointKeeps(crc, s, gs);
    case AbortGroup => AbortKeeps(crc, s, gs);
    case CommitFails => AbortKeeps(crc, s, gs);
    case Checkpoint => CheckpointKeeps(crc, s, gs);
    case CheckpointFails(torn) => HalfCheckpointKeeps(crc, s, gs, torn);
  }

  lemma {:induction false} CommitStep(crc: Crc, s: Store, gs: seq<Group>)
    requires Inv(crc, s, gs)
    ensures Holds(crc, Up(Committed(crc, s)), WriteAll(Logical(s), Flatten(Commits(crc, Up(s), CommitGroup))))
  {
    if Appends(Up(s)) {
      CommitKeeps(crc, s, gs);
      FlattenOne(GroupOf(s));
      HoldsUp(crc, Committed(crc, s), gs + [GroupOf(s)], WriteAll(Logical(s), GroupOf(s).writes));
    } else {
      EmptyCommitKeeps(crc, s, gs);
    }
  }

  lemma {:induction false} CrashStep(crc: Crc, s: Store, gs: seq<Group>, e: Event)
    requires Inv(crc, s, gs) && Possible(crc, Up(s), e) && Next(crc, Up(s), e).Down?
    ensures Holds(crc, Next(crc, Up(s), e), WriteAll(Logical(s), Flatten(Commits(crc, Up(s), e))))
  {
    match e
    case Crash => CrashHolds(crc, s, gs);
    case CrashInCommit(k) => CrashInCommitHolds(crc, s, gs, k);
    case CrashInCheckpoint(torn) =>
      HalfCheckpointKeeps(crc, s, gs, torn);
      CrashHolds(crc, HalfCheckpointed(s, torn), gs);
  }

  lemma {:induction false} StepHolds(crc: Crc, sys: System, db: seq<Page>, e: Event)
    requires Holds(crc, sys, db) && Possible(crc, sys, e)
    ensures Holds(crc, Next(crc, sys, e), WriteAll(db, Flatten(Commits(crc, sys, e))))
  {
    match sys
    case Up(s) =>
      var gs :| Inv(crc, s, gs);
      if e.CommitGroup? {
        CommitStep(crc, s, gs);
      } else if Next(crc, sys, e).Up? {
        StoreStep(crc, s, gs, e);
      } else {
        CrashStep(crc, s, gs, e);
      }
    case Down(disk, wal) =>
      if e.Reopen? {
        ReopenHolds(crc, disk, wal, e.nextGroup);
      } else {
        ReplayTwice(disk, Replay(crc, wal), e.torn);
      }
  }

  lemma {:induction false} FlattenAppend(a: seq<Group>, b: seq<Group>)
    ensures Flatten(a + b) == Flatten(a) + Flatten(b)
    decreases |b|
  {
    if b == [] {
      assert a + b == a;
    } else {
      assert (a + b)[..|a + b| - 1] == a + b[..|b| - 1];
      FlattenAppend(a, b[..|b| - 1]);
    }
  }

  lemma {:induction false} RunHolds(crc: Crc, sys: System, db: seq<Page>, es: seq<Event>)
    requires Holds(crc, sys, db) && Feasible(crc, sys, es)
    ensures Holds(crc, Run(crc, sys, es), WriteAll(db, Flatten(History(crc, sys, es))))
    decreases |es|
  {
    if es != [] {
      var now, next := Commits(crc, sys, es[0]), Next(crc, sys, es[0]);
      var later := History(crc, next, es[1..]);
      StepHolds(crc, sys, db, es[0]);
      RunHolds(crc, next, WriteAll(db, Flatten(now)), es[1..]);
      FlattenAppend(now, later);
      WriteAllAppend(db, Flatten(now), Flatten(later));
    }
  }

  /** Crash safety: after any run from a data file `disk` with an empty log, with crashes at any
      point, recovery included, what is committed (and what any reopening finds) is `disk` with
      exactly the committed groups applied, in commit order. */
  lemma {:induction false} CrashSafety(crc: Crc, disk: seq<Page>, es: seq<Event>, next: U64)
    requires |disk| < 0x1_0000_0000_0000_0000 && Feasible(crc, Down(disk, []), es)
    ensures var db, sys := WriteAll(disk, Flatten(History(crc, Down(disk, []), es))), Run(crc, Down(disk, []), es);
            && (sys.Up? ==> Logical(sys.store) == db)
            && (sys.Down? ==> AllFormed(Parse(crc, sys.wal)))
            && (sys.Down? ==> var s := Opened(crc, sys.disk, sys.wal, next); s.disk == db && s.numPages == |db|)
  {
    NothingFound(crc);
    assert Replay(crc, []) == [];
    RunHolds(crc, Down(disk, []), disk, es);
  }
}
