/** The pager's state as a value: data file, log, and the write group in progress. */
module PagerStore {
  import opened Options
  import opened Bytes
  import opened Wal
  import opened WalGroups

  type PageMap = map<nat, Page>

  /** For every page written since the savepoint began, what the group held for it before. */
  datatype Savepoint = Savepoint(undo: map<nat, Option<Page>>, numPages: nat)

  datatype Store = Store(
    disk: seq<Page>,
    wal: seq<byte>,
    nextGroup: U64,
    numPages: nat,
    active: Option<U64>,
    pending: PageMap,
    committed: PageMap,
    groupStart: nat,
    savepoint: Option<Savepoint>)

  // ---------------------------------------------------------------- disk images

  /** The first `n` pages of `disk` with the pages in `m` written over them; what neither
      holds is a hole of zero bytes. */
  function PageIn(disk: seq<Page>, m: PageMap, i: nat): Page {
    if i in m then m[i]
    else if i < |disk| then disk[i]
    else ZeroPage()
  }

  function Image(disk: seq<Page>, m: PageMap, n: nat): (d: seq<Page>)
    ensures |d| == n
    ensures forall i :: 0 <= i < n ==> d[i] == PageIn(disk, m, i)
  {
    seq(n, (i: nat) => PageIn(disk, m, i))
  }

  /** Writing one page to a file, extending it if need be. */
  function WriteRaw(disk: seq<Page>, w: PageWrite): (d: seq<Page>)
    ensures |d| == Max(|disk|, w.page + 1)
  {
    if w.page < |disk| then disk[w.page := w.data]
    else disk + seq(w.page - |disk|, _ => ZeroPage()) + [w.data]
  }

  ghost function WriteAll(disk: seq<Page>, ws: seq<PageWrite>): seq<Page> {
    if ws == [] then disk else WriteRaw(WriteAll(disk, ws[..|ws| - 1]), ws[|ws| - 1])
  }

  ghost function MapOf(ws: seq<PageWrite>): PageMap {
    if ws == [] then map[] else MapOf(ws[..|ws| - 1])[ws[|ws| - 1].page := ws[|ws| - 1].data]
  }

  ghost function LenAfter(n: nat, ws: seq<PageWrite>): nat {
    if ws == [] then n else Max(LenAfter(n, ws[..|ws| - 1]), ws[|ws| - 1].page + 1)
  }

  lemma RewriteImage(disk: seq<Page>, m: PageMap, n: nat, w: PageWrite)
    requires |disk| <= n && forall p :: p in m ==> p < n
    ensures WriteRaw(Image(disk, m, n), w) == Image(disk, m[w.page := w.data], Max(n, w.page + 1))
  {
  }

  /** Writing pages one after another leaves the image of the last write to each. */
  lemma {:induction false} WriteAllImage(disk: seq<Page>, ws: seq<PageWrite>)
    ensures |disk| <= LenAfter(|disk|, ws)
    ensures forall p :: p in MapOf(ws) ==> p < LenAfter(|disk|, ws)
    ensures WriteAll(disk, ws) == Image(disk, MapOf(ws), LenAfter(|disk|, ws))
    decreases |ws|
  {
    if ws != [] {
      WriteAllImage(disk, ws[..|ws| - 1]);
      RewriteImage(disk, MapOf(ws[..|ws| - 1]), LenAfter(|disk|, ws[..|ws| - 1]), ws[|ws| - 1]);
    } else {
      assert Image(disk, map[], |disk|) == disk;
    }
  }

  /** Every page write of the groups, in commit order. */
  ghost function Flatten(gs: seq<Group>): seq<PageWrite> {
    if gs == [] then [] else Flatten(gs[..|gs| - 1]) + gs[|gs| - 1].writes
  }

  lemma {:induction false} MapOfAppend(a: seq<PageWrite>, b: seq<PageWrite>)
    ensures MapOf(a + b) == MapOf(a) + MapOf(b)
    decreases |b|
  {
    if b == [] {
      assert a + b == a;
    } else {
      assert (a + b)[..|a + b| - 1] == a + b[..|b| - 1];
      MapOfAppend(a, b[..|b| - 1]);
    }
  }

  lemma {:induction false} LenAfterAppend(n: nat, a: seq<PageWrite>, b: seq<PageWrite>)
    ensures LenAfter(n, a + b) == LenAfter(LenAfter(n, a), b)
    decreases |b|
  {
    if b == [] {
      assert a + b == a;
    } else {
      assert (a + b)[..|a + b| - 1] == a + b[..|b| - 1];
      LenAfterAppend(n, a, b[..|b| - 1]);
    }
  }

  lemma {:induction false} WriteAllAppend(disk: seq<Page>, a: seq<PageWrite>, b: seq<PageWrite>)
    ensures WriteAll(disk, a + b) == WriteAll(WriteAll(disk, a), b)
    decreases |b|
  {
    if b == [] {
      assert a + b == a;
    } else {
      assert (a + b)[..|a + b| - 1] == a + b[..|b| - 1];
      WriteAllAppend(disk, a, b[..|b| - 1]);
    }
  }

  /** A file that a crash left with any subset of the pages in `m` written over `disk`, whole
      or torn, and extended by any part of what they need. */
  ghost predicate TornDisk(disk: seq<Page>, m: PageMap, n: nat, torn: seq<Page>) {
    && |disk| <= |torn| <= n
    && forall i :: 0 <= i < |torn| && i !in m ==> torn[i] == PageIn(disk, m, i)
  }

  /** Writing the pages of `m` again repairs any such file, and does so to one and the same. */
  lemma TornRepaired(disk: seq<Page>, m: PageMap, n: nat, torn: seq<Page>)
    requires TornDisk(disk, m, n, torn)
    ensures Image(torn, m, n) == Image(disk, m, n)
  {
    var a, b := Image(torn, m, n), Image(disk, m, n);
    forall i | 0 <= i < n
      ensures a[i] == b[i]
    {
      assert a[i] == PageIn(torn, m, i) && b[i] == PageIn(disk, m, i);
    }
  }

  /** An image of an image. */
  lemma ImageOfImage(disk: seq<Page>, m: PageMap, n: nat, m': PageMap, n': nat)
    requires |disk| <= n <= n'
    requires forall p :: p in m ==> p < n
    ensures Image(Image(disk, m, n), m', n') == Image(disk, m + m', n')
  {
    var a, b := Image(Image(disk, m, n), m', n'), Image(disk, m + m', n');
    forall i | 0 <= i < n'
      ensures a[i] == b[i]
    {
      assert a[i] == PageIn(Image(disk, m, n), m', i) && b[i] == PageIn(disk, m + m', i);
    }
  }

  // ---------------------------------------------------------------- what is stored

  /** The number of pages that are not the doing of the group in progress. */
  function BasePages(s: Store): nat {
    if s.active.Some? then s.groupStart else s.numPages
  }

  /** The database as last committed. */
  function Logical(s: Store): seq<Page> {
    Image(s.disk, s.committed, BasePages(s))
  }

  /** The database as readers see it, including the group in progress. */
  function Visible(s: Store): seq<Page> {
    Image(Logical(s), s.pending, s.numPages)
  }

  /** What the group held when the savepoint began. */
  function Restored(pending: PageMap, undo: map<nat, Option<Page>>): PageMap {
    map p | p in pending.Keys + undo.Keys && (if p in undo then undo[p].Some? else p in pending) ::
      if p in undo then undo[p].value else pending[p]
  }

  /** Pages between `from` and `to` are all in `m`, and `m` has none from `to` on. */
  ghost predicate Covers(m: PageMap, from: nat, to: nat) {
    && from <= to < 0x1_0000_0000_0000_0000
    && (forall p :: from <= p < to ==> p in m)
    && (forall p :: p in m ==> p < to)
  }

  /** The log holds the groups `gs`, `committed` is their effect, and no page is missing. */
  ghost predicate Inv(crc: Crc, s: Store, gs: seq<Group>) {
    && s.wal == EncodeGroups(crc, gs)
    && s.committed == MapOf(Flatten(gs))
    && BasePages(s) == LenAfter(|s.disk|, Flatten(gs))
    && |s.disk| <= BasePages(s)
    && Covers(s.committed, |s.disk|, BasePages(s))
    && Covers(s.pending, BasePages(s), s.numPages)
    && (s.active.None? ==> s.pending == map[] && s.savepoint.None?)
    && (s.savepoint.Some? ==>
          var sp := s.savepoint.value;
          && sp.numPages <= s.numPages
          && Covers(Restored(s.pending, sp.undo), BasePages(s), sp.numPages))
  }

  // ---------------------------------------------------------------- operations

  /** The pages of `m` below `n`, in increasing order. */
  function Listed(m: PageMap, n: nat): (ws: seq<PageWrite>) {
    if n == 0 then []
    else if n - 1 in m && n <= 0x1_0000_0000_0000_0000 then Listed(m, n - 1) + [PageWrite(n - 1, m[n - 1])]
    else Listed(m, n - 1)
  }

  function Begun(s: Store): Store {
    if s.active.Some? then s
    else s.(active := Some(s.nextGroup), nextGroup := (s.nextGroup + 1) % 0x1_0000_0000_0000_0000, groupStart := s.numPages)
  }

  function PriorOf(m: PageMap, p: nat): Option<Page> {
    if p in m then Some(m[p]) else None
  }

  function Noted(sp: Option<Savepoint>, pending: PageMap, p: nat): Option<Savepoint> {
    if sp.None? || p in sp.value.undo then sp else Some(sp.value.(undo := sp.value.undo[p := PriorOf(pending, p)]))
  }

  function Written(s: Store, p: nat, data: Page): Store {
    if s.active.None? then s
    else s.(savepoint := Noted(s.savepoint, s.pending, p), pending := s.pending[p := data], numPages := Max(s.numPages, p + 1))
  }

  function Aborted(s: Store): Store {
    if s.active.None? then s
    else s.(active := None, savepoint := None, pending := map[], numPages := s.groupStart)
  }

  /** The group that a commit of `s` appends to the log. */
  function GroupOf(s: Store): Group
    requires s.active.Some?
  {
    Group(s.active.value, Listed(s.pending, s.numPages))
  }

  ghost function Committed(crc: Crc, s: Store): Store {
    if s.active.None? then s
    else if s.pending == map[] then s.(active := None, savepoint := None)
    else s.(active := None, savepoint := None, pending := map[], committed := s.committed + s.pending, wal := s.wal + EncodeGroup(crc, GroupOf(s)))
  }

  function SavepointBegun(s: Store): Store {
    if s.active.None? || s.savepoint.Some? then s else s.(savepoint := Some(Savepoint(map[], s.numPages)))
  }

  function Released(s: Store): Store {
    s.(savepoint := None)
  }

  function RolledBack(s: Store): Store {
    if s.savepoint.None? then s
    else s.(savepoint := None, pending := Restored(s.pending, s.savepoint.value.undo), numPages := s.savepoint.value.numPages)
  }

  function Checkpointed(s: Store): Store {
    if s.committed == map[] then s
    else s.(disk := Image(s.disk, s.committed, BasePages(s)), wal := [], committed := map[])
  }

  /** A checkpoint that failed after writing any part of the pages. */
  function HalfCheckpointed(s: Store, torn: seq<Page>): Store {
    s.(disk := torn)
  }

  /** Opening the files: the groups found in the log are written to the data file. */
  ghost function Opened(crc: Crc, disk: seq<Page>, wal: seq<byte>, next: U64): Store {
    var d := WriteAll(disk, Flatten(Recovered(crc, wal)));
    Store(d, [], next, |d|, None, map[], map[], |disk|, None)
  }

  // ---------------------------------------------------------------- every operation keeps the invariant

  function Lower(m: PageMap, n: nat): PageMap {
    map p | p in m && p < n :: m[p]
  }

  lemma LowerStep(m: PageMap, n: nat)
    ensures Lower(m, n + 1) == if n in m then Lower(m, n)[n := m[n]] else Lower(m, n)
  {
  }

  lemma {:induction false} ListedIs(m: PageMap, n: nat)
    requires n <= 0x1_0000_0000_0000_0000
    ensures MapOf(Listed(m, n)) == Lower(m, n)
  {
    if n == 0 {
      LowerNone(m);
    } else {
      var k := n - 1;
      ListedIs(m, k);
      ListedStep(m, k);
      LowerStep(m, k);
    }
  }

  lemma LowerNone(m: PageMap)
    ensures MapOf(Listed(m, 0)) == Lower(m, 0)
  {
    assert Lower(m, 0) == map[];
  }

  lemma {:induction false} ListedStep(m: PageMap, n: nat)
    requires n < 0x1_0000_0000_0000_0000
    ensures MapOf(Listed(m, n + 1)) == if n in m then MapOf(Listed(m, n))[n := m[n]] else MapOf(Listed(m, n))
  {
    if n in m {
      MapOfOne(Listed(m, n), PageWrite(n, m[n]));
    }
  }

  lemma MapOfOne(ws: seq<PageWrite>, w: PageWrite)
    ensures MapOf(ws + [w]) == MapOf(ws)[w.page := w.data]
  {
    assert (ws + [w])[..|ws|] == ws;
  }

  lemma {:induction false} ListedLength(m: PageMap, n: U64, from: nat)
    requires from <= n && forall p :: from <= p < n ==> p in m
    ensures LenAfter(from, Listed(m, n)) == n
  {
    if n != 0 {
      var ws := Listed(m, n);
      if from < n {
        ListedLength(m, n - 1, from);
        assert n - 1 in m;
        assert ws[..|ws| - 1] == Listed(m, n - 1);
      } else {
        ListedShort(m, n, from);
      }
    }
  }

  lemma {:induction false} ListedShort(m: PageMap, n: U64, from: nat)
    requires n <= from
    ensures LenAfter(from, Listed(m, n)) == from
  {
    if n != 0 {
      ListedShort(m, n - 1, from);
      if n - 1 in m {
        var ws := Listed(m, n);
        assert ws[..|ws| - 1] == Listed(m, n - 1);
      }
    }
  }

  lemma {:induction false} CommitKeeps(crc: Crc, s: Store, gs: seq<Group>)
    requires Inv(crc, s, gs) && s.active.Some? && s.pending != map[]
    ensures Inv(crc, Committed(crc, s), gs + [GroupOf(s)])
    ensures Logical(Committed(crc, s)) == Visible(s) == WriteAll(Logical(s), GroupOf(s).writes)
  {
    var g := GroupOf(s);
    var s' := Committed(crc, s);
    EncodeGroupsAppend(crc, gs, g);
    assert (gs + [g])[..|gs|] == gs;
    MapOfAppend(Flatten(gs), g.writes);
    LenAfterAppend(|s.disk|, Flatten(gs), g.writes);
    ListedIs(s.pending, s.numPages);
    assert Lower(s.pending, s.numPages) == s.pending;
    ListedLength(s.pending, s.numPages, BasePages(s));
    ImageOfImage(s.disk, s.committed, BasePages(s), s.pending, s.numPages);
    WriteAllImage(Logical(s), g.writes);
  }

  lemma EmptyCommitKeeps(crc: Crc, s: Store, gs: seq<Group>)
    requires Inv(crc, s, gs) && (s.active.None? || s.pending == map[])
    ensures Inv(crc, Committed(crc, s), gs) && Logical(Committed(crc, s)) == Logical(s) == Visible(s)
  {
    if s.pending == map[] {
      assert BasePages(s) < s.numPages ==> BasePages(s) in s.pending;
      assert Visible(s) == Logical(s);
    }
  }

  /** A page overwritten, or one more page. */
  function Put(db: seq<Page>, p: nat, data: Page): seq<Page>
    requires p <= |db|
  {
    if p < |db| then db[p := data] else db + [data]
  }

  /** A write shows in the view, at its page only, and what is committed stays. */
  lemma WriteKeeps(crc: Crc, s: Store, gs: seq<Group>, p: nat, data: Page)
    requires Inv(crc, s, gs) && s.active.Some? && p <= s.numPages && p + 1 < 0x1_0000_0000_0000_0000
    ensures Inv(crc, Written(s, p, data), gs)
    ensures Logical(Written(s, p, data)) == Logical(s)
    ensures Visible(Written(s, p, data)) == Put(Visible(s), p, data)
  {
    if s.savepoint.Some? {
      UndoAfterWrite(s, p, data);
    }
  }

  /** Noting the prior page keeps what a rollback will restore. */
  lemma UndoAfterWrite(s: Store, p: nat, data: Page)
    requires s.active.Some? && s.savepoint.Some?
    ensures var t := Written(s, p, data);
            && t.savepoint.Some? && t.savepoint.value.numPages == s.savepoint.value.numPages
            && Restored(t.pending, t.savepoint.value.undo) == Restored(s.pending, s.savepoint.value.undo)
  {
  }

  lemma AbortKeeps(crc: Crc, s: Store, gs: seq<Group>)
    requires Inv(crc, s, gs)
    ensures Inv(crc, Aborted(s), gs)
    ensures Visible(Aborted(s)) == Logical(Aborted(s)) == Logical(s)
  {
  }

  lemma BeginKeeps(crc: Crc, s: Store, gs: seq<Group>)
    requires Inv(crc, s, gs)
    ensures Inv(crc, Begun(s), gs)
    ensures Logical(Begun(s)) == Logical(s) && Visible(Begun(s)) == Visible(s)
  {
  }

  lemma SavepointKeeps(crc: Crc, s: Store, gs: seq<Group>)
    requires Inv(crc, s, gs)
    ensures Inv(crc, SavepointBegun(s), gs) && Inv(crc, Released(s), gs) && Inv(crc, RolledBack(s), gs)
    ensures Logical(SavepointBegun(s)) == Logical(Released(s)) == Logical(RolledBack(s)) == Logical(s)
  {
    assert Restored(s.pending, map[]) == s.pending;
  }

  lemma CheckpointKeeps(crc: Crc, s: Store, gs: seq<Group>)
    requires Inv(crc, s, gs)
    ensures Inv(crc, Checkpointed(s), if s.committed == map[] then gs else [])
    ensures Logical(Checkpointed(s)) == Logical(s) && Visible(Checkpointed(s)) == Visible(s)
  {
    if s.committed != map[] {
      assert EncodeGroups(crc, []) == [] && Flatten([]) == [];
      assert Logical(Checkpointed(s)) == Logical(s);
    }
  }

  lemma {:induction false} LenAfterTorn(a: nat, b: nat, ws: seq<PageWrite>)
    requires a <= b <= LenAfter(a, ws)
    ensures LenAfter(b, ws) == LenAfter(a, ws)
    decreases |ws|
  {
    if ws != [] {
      if b <= LenAfter(a, ws[..|ws| - 1]) {
        LenAfterTorn(a, b, ws[..|ws| - 1]);
      } else {
        LenAfterTop(a, b, ws[..|ws| - 1]);
      }
    }
  }

  lemma {:induction false} LenAfterTop(a: nat, b: nat, ws: seq<PageWrite>)
    requires LenAfter(a, ws) <= b
    ensures LenAfter(b, ws) == b
    decreases |ws|
  {
    if ws != [] {
      LenAfterTop(a, b, ws[..|ws| - 1]);
    }
  }

  lemma HalfCheckpointKeeps(crc: Crc, s: Store, gs: seq<Group>, torn: seq<Page>)
    requires Inv(crc, s, gs) && TornDisk(s.disk, s.committed, BasePages(s), torn)
    ensures Inv(crc, HalfCheckpointed(s, torn), gs)
    ensures Logical(HalfCheckpointed(s, torn)) == Logical(s) && Visible(HalfCheckpointed(s, torn)) == Visible(s)
  {
    LenAfterTorn(|s.disk|, |torn|, Flatten(gs));
    TornRepaired(s.disk, s.committed, BasePages(s), torn);
  }
}
