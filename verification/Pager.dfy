/** The pager: a bounded cache over write groups, committed pages, a log and a data file. */
module Pagers {
  import opened Options
  import opened Results
  import opened Bytes
  import opened Wal
  import opened WalGroups
  import opened WalManagers
  import opened PagerStore

  const CACHE_SIZE: nat := 1024
  const CHECKPOINT_WAL_BYTES: nat := 4 * 1024 * 1024
  const U64_END: nat := 0x1_0000_0000_0000_0000

  datatype Status = Success | TransactionError | StorageError | Corrupted

  /** What a checkpoint meets: no failure, or a failure that left the data file so. */
  datatype Flush = Completes | Fails(torn: seq<Page>)

  ghost predicate CanFlush(s: Store, io: Flush) {
    io.Fails? ==> TornDisk(s.disk, s.committed, BasePages(s), io.torn)
  }

  ghost function AfterCheckpoint(s: Store, io: Flush): Store {
    if s.committed == map[] then s
    else if io.Completes? then Checkpointed(s)
    else HalfCheckpointed(s, io.torn)
  }

  /** A commit that reached the log, and the checkpoint it sets off when the log is long. */
  ghost function AfterCommit(crc: Crc, s: Store, io: Flush): Store {
    var t := Committed(crc, s);
    if s.active.Some? && s.pending != map[] && |t.wal| >= CHECKPOINT_WAL_BYTES then AfterCheckpoint(t, io) else t
  }

  ghost function CommitOutcome(crc: Crc, s: Store, append: WriteOutcome, io: Flush): Store {
    if s.active.Some? && s.pending != map[] && append.FailsAfter? then Aborted(s) else AfterCommit(crc, s, io)
  }

  ghost predicate CacheOk(s: Store, cache: PageMap) {
    && |cache| <= CACHE_SIZE
    && forall p :: p in cache ==> p < s.numPages && cache[p] == Visible(s)[p]
  }

  /** The log and the tables agree, and every cached page is the newest version of itself. */
  ghost predicate Sound(crc: Crc, s: Store, cache: PageMap) {
    && CacheOk(s, cache)
    && exists gs :: Inv(crc, s, gs)
  }

  ghost predicate Unfolded(key: nat) {
    true
  }

  /** `Sound`, unfolded only where `GoodIsSound` is called: the methods pass it along whole. */
  ghost predicate Good(crc: Crc, s: Store, cache: PageMap) {
    forall key: nat {:trigger Unfolded(key)} :: Unfolded(key) ==> Sound(crc, s, cache)
  }

  lemma GoodIsSound(crc: Crc, s: Store, cache: PageMap)
    ensures Good(crc, s, cache) <==> Sound(crc, s, cache)
  {
    assert Unfolded(0);
  }

  /** Some pages of `cache`, and not more of them. */
  ghost predicate Sub(left: PageMap, cache: PageMap) {
    |left| <= |cache| && forall p :: p in left ==> p in cache && left[p] == cache[p]
  }

  /** Same view on every cached page that is kept. */
  lemma CacheKept(s: Store, cache: PageMap, t: Store, cache': PageMap)
    requires CacheOk(s, cache) && |cache'| <= CACHE_SIZE
    requires forall p :: p in cache' ==> p in cache && cache'[p] == cache[p] && p < t.numPages && Visible(t)[p] == Visible(s)[p]
    ensures CacheOk(t, cache')
  {
  }

  lemma FewerPages(cache: PageMap, gone: set<nat>)
    ensures |cache - gone| <= |cache|
  {
    var left, all := (cache - gone).Keys, cache.Keys;
    assert all == left + (all - left);
  }

  /** The pages that leave the view when a group aborts or a statement is undone are exactly the
      evicted ones: all others look the same. */
  lemma AbortView(crc: Crc, s: Store, gs: seq<Group>, p: nat)
    requires Inv(crc, s, gs) && s.active.Some? && p < s.numPages && p !in s.pending
    ensures p < Aborted(s).numPages && Visible(Aborted(s))[p] == Visible(s)[p]
  {
  }

  lemma RollbackView(crc: Crc, s: Store, gs: seq<Group>, p: nat)
    requires Inv(crc, s, gs) && s.savepoint.Some? && p < s.numPages && p !in s.savepoint.value.undo
    ensures p < RolledBack(s).numPages && Visible(RolledBack(s))[p] == Visible(s)[p]
  {
    var sp := s.savepoint.value;
    var m := Restored(s.pending, sp.undo);
    assert p in m <==> p in s.pending;
  }

  class Pager {
    const wal: WalManager
    var disk: seq<Page>
    var numPages: nat
    var cache: PageMap
    var active: Option<U64>
    var pending: PageMap
    var committed: PageMap
    var groupStart: nat
    var savepoint: Option<Savepoint>

    function State(): Store
      reads this, wal
    {
      Store(disk, wal.file, wal.nextGroup, numPages, active, pending, committed, groupStart, savepoint)
    }

    ghost predicate Valid()
      reads this, wal
    {
      wal.Valid() && Good(wal.crc, State(), cache)
    }

    /** The files as found, before recovery. */
    constructor (crc: Crc, disk: seq<Page>, log: seq<byte>)
      ensures fresh(wal) && wal.Valid() && wal.crc == crc && wal.nextGroup == 1
      ensures State() == Store(disk, log, 1, |disk|, None, map[], map[], |disk|, None) && cache == map[]
    {
      wal := new WalManager(crc, log);
      this.disk := disk;
      numPages := |disk|;
      cache := map[];
      active := None;
      pending := map[];
      committed := map[];
      groupStart := |disk|;
      savepoint := None;
    }

    method WritePageRaw(w: PageWrite)
      modifies this`disk, this`numPages
      ensures disk == WriteRaw(old(disk), w) && numPages == Max(old(numPages), w.page + 1)
    {
      disk := WriteRaw(disk, w);
      if w.page >= numPages {
        numPages := w.page + 1;
      }
    }

    method WritePages(ws: seq<PageWrite>)
      modifies this`disk, this`numPages
      ensures disk == WriteAll(old(disk), ws) && numPages == LenAfter(old(numPages), ws)
    {
      for i := 0 to |ws|
        invariant disk == WriteAll(old(disk), ws[..i]) && numPages == LenAfter(old(numPages), ws[..i])
      {
        assert ws[..i + 1][..i] == ws[..i];
        WritePageRaw(ws[i]);
      }
      assert ws[..|ws|] == ws;
    }

    method ApplyGroups(groups: seq<Group>)
      modifies this`disk, this`numPages
      ensures disk == WriteAll(old(disk), Flatten(groups)) && numPages == LenAfter(old(numPages), Flatten(groups))
    {
      for i := 0 to |groups|
        invariant disk == WriteAll(old(disk), Flatten(groups[..i])) && numPages == LenAfter(old(numPages), Flatten(groups[..i]))
      {
        assert groups[..i + 1][..i] == groups[..i];
        WriteAllAppend(old(disk), Flatten(groups[..i]), groups[i].writes);
        LenAfterAppend(old(numPages), Flatten(groups[..i]), groups[i].writes);
        WritePages(groups[i].writes);
      }
      assert groups[..|groups|] == groups;
    }

    /** Replays the log over the data file and empties it; a corrupt log stops the open. */
    method Recover() returns (status: Status)
      requires wal.Valid() && State() == Store(disk, wal.file, 1, |disk|, None, map[], map[], |disk|, None) && cache == map[]
      requires |WriteAll(disk, Flatten(Recovered(wal.crc, wal.file)))| < U64_END
      modifies this, wal
      ensures status == if AllFormed(Parse(wal.crc, old(wal.file))) then Success else Corrupted
      ensures status.Corrupted? ==> disk == old(disk) && wal.file == old(wal.file)
      ensures status.Success? ==> Valid() && State() == Opened(wal.crc, old(disk), old(wal.file), wal.nextGroup)
    {
      if wal.len == 0 {
        NothingFound(wal.crc);
      } else {
        var groups := wal.ReadCommittedGroups();
        if groups.Err? {
          return Corrupted;
        }
        ApplyGroups(groups.value);
        wal.Truncate();
      }
      WriteAllImage(old(disk), Flatten(Recovered(wal.crc, old(wal.file))));
      OpenedGood(wal.crc, old(disk), old(wal.file), wal.nextGroup);
      return Success;
    }

    /** Moves the committed pages into the data file and empties the log. */
    method Checkpoint(io: Flush) returns (status: Status)
      requires Valid() && CanFlush(State(), io)
      modifies this, wal
      ensures Valid() && cache == old(cache)
      ensures status == if old(committed) != map[] && io.Fails? then StorageError else Success
      ensures State() == AfterCheckpoint(old(State()), io)
      ensures Visible(State()) == old(Visible(State())) && Logical(State()) == old(Logical(State()))
    {
      CheckpointGood(wal.crc, State(), cache, io);
      if committed == map[] {
        return Success;
      }
      match io
      case Fails(torn) =>
        disk := torn;
        status := StorageError;
      case Completes =>
        WritePages(Listed(committed, if active.Some? then groupStart else numPages));
        committed := map[];
        wal.Truncate();
        status := Success;
    }

    method BeginGroup() returns (status: Status)
      requires Valid()
      modifies this`active, this`groupStart, wal`nextGroup
      ensures Valid() && State() == Begun(old(State())) && Visible(State()) == old(Visible(State()))
      ensures status == if old(active).Some? then TransactionError else Success
    {
      ghost var s := State();
      BeginGood(wal.crc, s, cache);
      if active.Some? {
        return TransactionError;
      }
      var id := wal.AllocateGroupId();
      active := Some(id);
      groupStart := numPages;
      assert State() == Begun(s);
      return Success;
    }

    method Evict(p: nat)
      modifies this`cache
      ensures cache == old(cache) - {p}
    {
      cache := cache - {p};
    }

    method EvictAll(pages: set<nat>)
      modifies this`cache
      ensures cache == old(cache) - pages
    {
      var todo := pages;
      while todo != {}
        invariant todo <= pages && cache == old(cache) - (pages - todo)
      {
        var p :| p in todo;
        Evict(p);
        todo := todo - {p};
      }
    }

    /** Discards the group: afterwards the pages read as they did before it began. */
    method AbortGroup() returns (status: Status)
      requires Valid()
      modifies this
      ensures Valid() && State() == Aborted(old(State()))
      ensures status == if old(active).None? then TransactionError else Success
      ensures Visible(State()) == Logical(State()) == old(Logical(State()))
    {
      ghost var s := State();
      AbortGood(wal.crc, s, cache);
      if active.None? {
        return TransactionError;
      }
      active := None;
      savepoint := None;
      var discarded := pending;
      pending := map[];
      EvictAll(discarded.Keys);
      numPages := groupStart;
      assert State() == Aborted(s);
      return Success;
    }

    method BeginSavepoint() returns (status: Status)
      requires Valid()
      modifies this`savepoint
      ensures Valid() && State() == SavepointBegun(old(State())) && Visible(State()) == old(Visible(State()))
      ensures status == if old(active).None? || old(savepoint).Some? then TransactionError else Success
    {
      SavepointGood(wal.crc, State(), cache);
      if active.None? || savepoint.Some? {
        return TransactionError;
      }
      savepoint := Some(Savepoint(map[], numPages));
      return Success;
    }

    method ReleaseSavepoint()
      requires Valid()
      modifies this`savepoint
      ensures Valid() && State() == Released(old(State())) && Visible(State()) == old(Visible(State()))
    {
      SavepointGood(wal.crc, State(), cache);
      savepoint := None;
    }

    /** Undoes what was written since the savepoint began, and nothing else. */
    method RollbackToSavepoint() returns (status: Status)
      requires Valid()
      modifies this
      ensures Valid() && State() == RolledBack(old(State()))
      ensures status == if old(savepoint).None? then TransactionError else Success
    {
      ghost var s := State();
      RollbackGood(wal.crc, s, cache);
      if savepoint.None? {
        return TransactionError;
      }
      var sp := savepoint.value;
      savepoint := None;
      UndoAll(sp.undo);
      numPages := sp.numPages;
      assert State() == RolledBack(s);
      return Success;
    }

    method UndoAll(undo: map<nat, Option<Page>>)
      modifies this`pending, this`cache
      ensures pending == Restored(old(pending), undo) && cache == old(cache) - undo.Keys
    {
      var todo := undo.Keys;
      while todo != {}
        invariant todo <= undo.Keys && cache == old(cache) - (undo.Keys - todo)
        invariant forall p :: PriorOf(pending, p) == if p in undo && p !in todo then undo[p] else PriorOf(old(pending), p)
      {
        var p :| p in todo;
        match undo[p] {
          case Some(page) => pending := pending[p := page];
          case None => pending := pending - {p};
        }
        Evict(p);
        todo := todo - {p};
      }
      SamePages(pending, Restored(old(pending), undo));
    }

    /** The cache changes nothing: a page reads as pending, else committed, else on disk, and
        every page below `numPages` can be read. */
    method ReadPage(p: nat) returns (page: Option<Page>)
      requires Valid()
      modifies this`cache
      ensures Valid() && State() == old(State())
      ensures page == if p < numPages then Some(Visible(State())[p]) else None
    {
      ReadView(wal.crc, State(), cache, p);
      if p in pending {
        return Some(pending[p]);
      }
      if p in cache {
        return Some(cache[p]);
      }
      var found: Page;
      if p in committed {
        found := committed[p];
      } else {
        if p >= numPages {
          return None;
        }
        found := disk[p];
      }
      while |cache| >= CACHE_SIZE
        invariant Good(wal.crc, State(), cache)
        decreases |cache|
      {
        var k :| k in cache;
        EvictedGood(wal.crc, State(), cache, k);
        Evict(k);
      }
      CachedGood(wal.crc, State(), cache, p, found);
      cache := cache[p := found];
      return Some(found);
    }

    /** Appends the pending pages to the log, all of them or, when the append fails, none. */
    method LogPending(append: WriteOutcome) returns (logged: bool)
      requires Valid() && active.Some? && pending != map[]
      modifies this, wal
      ensures logged == append.Succeeds? && wal.Valid()
      ensures logged ==> State() == Committed(wal.crc, old(State())) && cache == old(cache)
      ensures !logged ==> Valid() && State() == Aborted(old(State()))
    {
      ghost var s := State();
      SavepointGood(wal.crc, s, cache);
      PagesFit(wal.crc, s, cache);
      savepoint := None;
      assert State() == Released(s);
      logged := wal.AppendGroup(active.value, Listed(pending, numPages), append);
      if !logged {
        var _ := AbortGroup();
        assert State() == Aborted(s);
      } else {
        MoveToCommitted();
      }
    }

    /** Once logged, the pending pages count as committed. */
    method MoveToCommitted()
      modifies this`active, this`committed, this`pending
      ensures State() == old(State()).(active := None, committed := old(committed + pending), pending := map[])
    {
      active := None;
      committed := committed + pending;
      pending := map[];
    }

    /** Makes the group durable in the log, and checkpoints when the log has grown long. */
    method CommitGroup(append: WriteOutcome, io: Flush) returns (status: Status)
      requires Valid()
      requires io.Fails? ==> TornDisk(disk, committed + pending, numPages, io.torn)
      modifies this, wal
      ensures Valid() && State() == CommitOutcome(wal.crc, old(State()), append, io)
      ensures status == if old(active).None? then TransactionError else if old(pending) != map[] && append.FailsAfter? then StorageError else Success
      ensures status.Success? ==> Logical(State()) == Visible(State()) == old(Visible(State()))
      ensures status.StorageError? ==> Logical(State()) == Visible(State()) == old(Logical(State()))
    {
      ghost var s := State();
      CommitGood(wal.crc, s, cache);
      if active.None? {
        return TransactionError;
      }
      if pending == map[] {
        savepoint := None;
        active := None;
        assert State() == Committed(wal.crc, s);
        return Success;
      }
      var logged := LogPending(append);
      if !logged {
        AbortGood(wal.crc, s, old(cache));
        return StorageError;
      }
      if wal.len >= CHECKPOINT_WAL_BYTES {
        var _ := Checkpoint(io);
      }
      return Success;
    }

    /** Evicts pages, whichever come first, until one more fits or `p` itself comes up. */
    method MakeRoom(p: nat)
      modifies this`cache
      ensures Sub(cache, old(cache)) && (|cache| < CACHE_SIZE || p in cache)
    {
      while |cache| >= CACHE_SIZE
        invariant Sub(cache, old(cache))
        decreases |cache|
      {
        var k :| k in cache;
        if k == p {
          return;
        }
        assert (cache - {k}).Keys == cache.Keys - {k};
        Evict(k);
      }
    }

    /** Buffers a page in the group, noting for the savepoint what it replaces. */
    method BufferPage(p: nat, data: Page)
      requires Valid() && active.Some? && p <= numPages && p + 1 < U64_END
      modifies this
      ensures Valid() && State() == Written(old(State()), p, data)
      ensures Visible(State()) == Put(old(Visible(State())), p, data)
    {
      ghost var s, c := State(), cache;
      savepoint := Noted(savepoint, pending, p);
      pending := pending[p := data];
      MakeRoom(p);
      WriteGood(wal.crc, s, c, cache, p, data);
      cache := cache[p := data];
      if p >= numPages {
        numPages := p + 1;
      }
      assert State() == Written(s, p, data);
    }

    /** Writes one page, in the group in progress or in a group of its own. */
    method WritePage(p: nat, data: Page, append: WriteOutcome, io: Flush) returns (status: Status)
      requires Valid() && p <= numPages && p + 1 < U64_END
      requires active.None? && io.Fails? ==> TornDisk(disk, committed + map[p := data], Max(numPages, p + 1), io.torn)
      modifies this, wal
      ensures Valid()
      ensures old(active).Some? ==> status.Success? && State() == Written(old(State()), p, data)
      ensures old(active).None? ==>
                && status == (if append.Succeeds? then Success else StorageError)
                && State() == CommitOutcome(wal.crc, Written(Begun(old(State())), p, data), append, io)
      ensures Visible(State()) == if status.Success? then Put(old(Visible(State())), p, data) else old(Visible(State()))
    {
      ghost var s, c := State(), cache;
      BeginGood(wal.crc, s, c);
      if active.Some? {
        BufferPage(p, data);
        return Success;
      }
      IdleGood(wal.crc, s, c);
      var _ := BeginGroup();
      BufferPage(p, data);
      assert p in pending;
      status := CommitGroup(append, io);
    }

    /** A new page of zeros at the end. */
    method AllocatePage(append: WriteOutcome, io: Flush) returns (res: Option<nat>)
      requires Valid() && numPages + 1 < U64_END
      requires active.None? && io.Fails? ==> TornDisk(disk, committed + map[numPages := ZeroPage()], numPages + 1, io.torn)
      modifies this, wal
      ensures Valid()
      ensures res.None? <==> old(active).None? && append.FailsAfter?
      ensures old(active).Some? ==> State() == Written(old(State()), old(numPages), ZeroPage())
      ensures res.Some? ==> res.value == old(numPages) && Visible(State()) == old(Visible(State())) + [ZeroPage()]
      ensures res.None? ==> Visible(State()) == old(Visible(State()))
    {
      var p := numPages;
      var status := WritePage(p, ZeroPage(), append, io);
      return if status.Success? then Some(p) else None;
    }

    /** Closing: drops a group in progress and moves everything committed to the data file. */
    method FlushAll(io: Flush) returns (status: Status)
      requires Valid()
      requires io.Fails? ==> TornDisk(disk, committed, BasePages(State()), io.torn)
      modifies this, wal
      ensures Valid() && State() == AfterCheckpoint(Aborted(old(State())), io)
      ensures status == if old(committed) != map[] && io.Fails? then StorageError else Success
      ensures status.Success? ==> disk == old(Logical(State())) && wal.file == (if old(committed) == map[] then old(wal.file) else [])
    {
      ghost var s := State();
      AbortGood(wal.crc, s, cache);
      if active.Some? {
        var _ := AbortGroup();
      }
      AllOnDisk(wal.crc, State(), cache);
      status := Checkpoint(io);
    }
  }

  lemma OpenedGood(crc: Crc, disk: seq<Page>, log: seq<byte>, next: U64)
    requires |WriteAll(disk, Flatten(Recovered(crc, log)))| < U64_END
    ensures Good(crc, Opened(crc, disk, log, next), map[])
  {
    GoodIsSound(crc, Opened(crc, disk, log, next), map[]);
    assert EncodeGroups(crc, []) == [] && Flatten([]) == [];
    assert Inv(crc, Opened(crc, disk, log, next), []);

  }

  lemma CheckpointGood(crc: Crc, s: Store, cache: PageMap, io: Flush)
    requires Good(crc, s, cache) && CanFlush(s, io)
    ensures var t := AfterCheckpoint(s, io);
            Good(crc, t, cache) && Visible(t) == Visible(s) && Logical(t) == Logical(s)
    ensures BasePages(s) <= s.numPages < U64_END
    ensures WriteAll(s.disk, Listed(s.committed, BasePages(s))) == Image(s.disk, s.committed, BasePages(s))
    ensures LenAfter(s.numPages, Listed(s.committed, BasePages(s))) == s.numPages
  {
    GoodIsSound(crc, s, cache);
    GoodIsSound(crc, AfterCheckpoint(s, io), cache);
    var gs :| Inv(crc, s, gs);
    CheckpointWrites(crc, s, gs);
    if s.committed != map[] {
      match io
      case Fails(torn) => HalfCheckpointKeeps(crc, s, gs, torn);
      case Completes => CheckpointKeeps(crc, s, gs);
    }

  }

  /** Writing the committed pages in order of their ids makes the image. */
  lemma {:induction false} CheckpointWrites(crc: Crc, s: Store, gs: seq<Group>)
    requires Inv(crc, s, gs)
    ensures WriteAll(s.disk, Listed(s.committed, BasePages(s))) == Image(s.disk, s.committed, BasePages(s))
    ensures LenAfter(s.numPages, Listed(s.committed, BasePages(s))) == s.numPages
  {
    ListedIs(s.committed, BasePages(s));
    assert Lower(s.committed, BasePages(s)) == s.committed;
    ListedLength(s.committed, BasePages(s), |s.disk|);
    ListedShort(s.committed, BasePages(s), s.numPages);
    WriteAllImage(s.disk, Listed(s.committed, BasePages(s)));
  }

  lemma SamePages(m: PageMap, m': PageMap)
    requires forall p :: PriorOf(m, p) == PriorOf(m', p)
    ensures m == m'
  {
    forall p
      ensures p in m <==> p in m'
      ensures p in m ==> m[p] == m'[p]
    {
      assert PriorOf(m, p) == PriorOf(m', p);
    }
  }

  lemma BeginGood(crc: Crc, s: Store, cache: PageMap)
    requires Good(crc, s, cache)
    ensures Good(crc, Begun(s), cache) && Visible(Begun(s)) == Visible(s)
  {
    GoodIsSound(crc, s, cache);
    GoodIsSound(crc, Begun(s), cache);
    var gs :| Inv(crc, s, gs);
    BeginKeeps(crc, s, gs);

  }

  lemma AbortGood(crc: Crc, s: Store, cache: PageMap)
    requires Good(crc, s, cache)
    ensures Good(crc, Aborted(s), if s.active.Some? then cache - s.pending.Keys else cache)
    ensures Visible(Aborted(s)) == Logical(Aborted(s)) == Logical(s)
  {
    GoodIsSound(crc, s, cache);
    GoodIsSound(crc, Aborted(s), if s.active.Some? then cache - s.pending.Keys else cache);
    var gs :| Inv(crc, s, gs);
    AbortKeeps(crc, s, gs);
    if s.active.Some? {
      var kept := cache - s.pending.Keys;
      FewerPages(cache, s.pending.Keys);
      forall p | p in kept
        ensures p < Aborted(s).numPages && Visible(Aborted(s))[p] == Visible(s)[p]
      {
        AbortView(crc, s, gs, p);
      }
      CacheKept(s, cache, Aborted(s), kept);
    }

  }

  lemma SavepointGood(crc: Crc, s: Store, cache: PageMap)
    requires Good(crc, s, cache)
    ensures Good(crc, SavepointBegun(s), cache) && Good(crc, Released(s), cache)
    ensures Visible(SavepointBegun(s)) == Visible(Released(s)) == Visible(s)
  {
    GoodIsSound(crc, s, cache);
    var gs :| Inv(crc, s, gs);
    SavepointKeeps(crc, s, gs);
    GoodFrom(crc, s, cache, SavepointBegun(s), gs);
    GoodFrom(crc, s, cache, Released(s), gs);
  }

  lemma RollbackGood(crc: Crc, s: Store, cache: PageMap)
    requires Good(crc, s, cache)
    ensures Good(crc, RolledBack(s), if s.savepoint.Some? then cache - s.savepoint.value.undo.Keys else cache)
  {
    GoodIsSound(crc, s, cache);
    GoodIsSound(crc, RolledBack(s), if s.savepoint.Some? then cache - s.savepoint.value.undo.Keys else cache);
    var gs :| Inv(crc, s, gs);
    SavepointKeeps(crc, s, gs);
    if s.savepoint.Some? {
      var kept := cache - s.savepoint.value.undo.Keys;
      FewerPages(cache, s.savepoint.value.undo.Keys);
      forall p | p in kept
        ensures p < RolledBack(s).numPages && Visible(RolledBack(s))[p] == Visible(s)[p]
      {
        RollbackView(crc, s, gs, p);
      }
      CacheKept(s, cache, RolledBack(s), kept);
    }

  }

  lemma ReadView(crc: Crc, s: Store, cache: PageMap, p: nat)
    requires Good(crc, s, cache)
    ensures p in s.pending ==> p < s.numPages && Visible(s)[p] == s.pending[p]
    ensures p in cache ==> p < s.numPages && Visible(s)[p] == cache[p]
    ensures p !in s.pending && p in s.committed ==> p < s.numPages && Visible(s)[p] == s.committed[p]
    ensures p !in s.pending && p !in s.committed && p < s.numPages ==> p < |s.disk| && Visible(s)[p] == s.disk[p]
  {
    GoodIsSound(crc, s, cache);
    var gs :| Inv(crc, s, gs);

  }

  lemma EvictedGood(crc: Crc, s: Store, cache: PageMap, k: nat)
    requires Good(crc, s, cache) && k in cache
    ensures Good(crc, s, cache - {k}) && |cache - {k}| < |cache|
  {
    GoodIsSound(crc, s, cache);
    GoodIsSound(crc, s, cache - {k});
    assert (cache - {k}).Keys == cache.Keys - {k};

  }

  lemma CachedOk(s: Store, cache: PageMap, p: nat, page: Page)
    requires CacheOk(s, cache) && p < s.numPages && Visible(s)[p] == page && (|cache| < CACHE_SIZE || p in cache)
    ensures CacheOk(s, cache[p := page])
  {
    assert cache[p := page].Keys == cache.Keys + {p};
  }

  lemma CachedGood(crc: Crc, s: Store, cache: PageMap, p: nat, page: Page)
    requires Good(crc, s, cache) && p < s.numPages && Visible(s)[p] == page && (|cache| < CACHE_SIZE || p in cache)
    ensures Good(crc, s, cache[p := page])
  {
    GoodIsSound(crc, s, cache);
    GoodIsSound(crc, s, cache[p := page]);
    var gs :| Inv(crc, s, gs);
    CachedOk(s, cache, p, page);

  }

  lemma GoodFrom(crc: Crc, s: Store, cache: PageMap, t: Store, gs: seq<Group>)
    requires CacheOk(s, cache) && Inv(crc, t, gs) && Visible(t) == Visible(s) && t.numPages == s.numPages
    ensures Good(crc, t, cache)
  {
    GoodIsSound(crc, t, cache);

  }

  lemma IdleView(t: Store)
    requires t.active.None? && t.pending == map[]
    ensures Visible(t) == Logical(t)
  {
  }

  lemma PagesFit(crc: Crc, s: Store, cache: PageMap)
    requires Good(crc, s, cache)
    ensures s.numPages < U64_END && (s.active.None? ==> s.pending == map[])
  {
    GoodIsSound(crc, s, cache);

  }

  lemma CommitGood(crc: Crc, s: Store, cache: PageMap)
    requires Good(crc, s, cache)
    ensures s.numPages < U64_END && Good(crc, Committed(crc, s), cache)
    ensures Visible(Committed(crc, s)) == Logical(Committed(crc, s)) == Visible(s)
  {
    GoodIsSound(crc, s, cache);
    var gs :| Inv(crc, s, gs);
    PagesFit(crc, s, cache);
    var t := Committed(crc, s);
    IdleView(t);
    if s.active.Some? && s.pending != map[] {
      CommitKeeps(crc, s, gs);
      GoodFrom(crc, s, cache, t, gs + [GroupOf(s)]);
    } else {
      EmptyCommitKeeps(crc, s, gs);
      GoodFrom(crc, s, cache, t, gs);
    }

  }

  lemma WriteGood(crc: Crc, s: Store, cache: PageMap, left: PageMap, p: nat, data: Page)
    requires Good(crc, s, cache) && s.active.Some? && p <= s.numPages && p + 1 < U64_END
    requires Sub(left, cache) && (|left| < CACHE_SIZE || p in left)
    ensures Good(crc, Written(s, p, data), left[p := data])
    ensures Visible(Written(s, p, data)) == Put(Visible(s), p, data)
  {
    GoodIsSound(crc, s, cache);
    GoodIsSound(crc, Written(s, p, data), left[p := data]);
    var gs :| Inv(crc, s, gs);
    var t := Written(s, p, data);
    WriteKeeps(crc, s, gs, p, data);
    CacheKept(s, cache, s, left);
    CacheWritten(s, left, t, p, data);

  }

  lemma CacheWritten(s: Store, cache: PageMap, t: Store, p: nat, data: Page)
    requires CacheOk(s, cache) && p <= s.numPages <= t.numPages && (|cache| < CACHE_SIZE || p in cache)
    requires Visible(t) == Put(Visible(s), p, data)
    ensures CacheOk(t, cache[p := data])
  {
    assert cache[p := data].Keys == cache.Keys + {p};
    assert |Visible(t)| == t.numPages;
  }

  lemma IdleGood(crc: Crc, s: Store, cache: PageMap)
    requires Good(crc, s, cache) && s.active.None?
    ensures s.pending == map[] && Visible(s) == Logical(s) && Logical(Begun(s)) == Logical(s)
  {
    GoodIsSound(crc, s, cache);
    IdleView(s);

  }

  lemma AllOnDisk(crc: Crc, s: Store, cache: PageMap)
    requires Good(crc, s, cache) && s.active.None?
    ensures Checkpointed(s).disk == Logical(s)
  {
    GoodIsSound(crc, s, cache);
    var gs :| Inv(crc, s, gs);
    if s.committed == map[] {
      assert |s.disk| < BasePages(s) ==> |s.disk| in s.committed;
      assert Logical(s) == s.disk;
    }

  }
}
