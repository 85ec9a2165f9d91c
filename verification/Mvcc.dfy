/** Snapshot visibility and the step system of the version store. */
module Mvcc {
  import opened Options
  import opened Rows
  import opened Ordered

  /** A row version: `xmax` and `deletedAt` are 0 while it is not deleted. */
  datatype Version = Version(xmin: nat, xmax: nat, createdAt: nat, deletedAt: nat, data: Row)

  /** A transaction's snapshot, with the transactions that were active when it began. */
  datatype Snapshot = Snapshot(timestamp: nat, txn: nat, active: set<nat>)

  datatype Loc = Loc(table: string, key: int)

  datatype State = State(
    clock: nat,
    nextTxn: nat,
    active: map<nat, Snapshot>,
    committed: map<nat, nat>,
    store: map<Loc, seq<Version>>)

  // ---------------------------------------------------------------- visibility

  predicate TxnVisible(s: Snapshot, t: nat) {
    t == s.txn || (t < s.txn && t !in s.active)
  }

  predicate IsVisible(v: Version, s: Snapshot) {
    && v.createdAt <= s.timestamp
    && TxnVisible(s, v.xmin)
    && !(v.xmax > 0 && TxnVisible(s, v.xmax))
  }

  /** The position of the newest visible version, or -1. */
  function SeenAt(vs: seq<Version>, s: Snapshot): (r: int)
    ensures -1 <= r < |vs|
    ensures r >= 0 ==> IsVisible(vs[r], s)
    ensures forall i :: r < i < |vs| ==> !IsVisible(vs[i], s)
  {
    if vs == [] then -1
    else if IsVisible(vs[|vs| - 1], s) then |vs| - 1
    else SeenAt(vs[..|vs| - 1], s)
  }

  function Seen(vs: seq<Version>, s: Snapshot): Option<Version> {
    if SeenAt(vs, s) < 0 then None else Some(vs[SeenAt(vs, s)])
  }

  function VersionsAt(st: State, loc: Loc): seq<Version> {
    if loc in st.store then st.store[loc] else []
  }

  /** What a reader with snapshot `s` finds at `loc`. */
  function Read(st: State, loc: Loc, s: Snapshot): Option<Row> {
    var v := Seen(VersionsAt(st, loc), s);
    if v.Some? then Some(v.value.data) else None
  }

  // ---------------------------------------------------------------- steps

  datatype Event =
    | Begin(id: nat)
    | Commit(txn: nat)
    | Abort(txn: nat)
    | Insert(txn: nat, loc: Loc, data: Row)
    | Delete(txn: nat, loc: Loc)
    | Vacuum

  /** Ids come from a counter shared with other managers, so some may be skipped; only active
      transactions end or write. */
  predicate Possible(st: State, e: Event) {
    match e
    case Begin(id) => id >= st.nextTxn
    case Commit(t) => t in st.active
    case Abort(t) => t in st.active
    case Insert(t, _, _) => t in st.active
    case Delete(t, _) => t in st.active
    case Vacuum => true
  }

  function SnapshotFor(st: State, id: nat): Snapshot {
    Snapshot(st.clock, id, st.active.Keys)
  }

  /** The newest version is marked deleted, whoever marked it before. */
  function Marked(vs: seq<Version>, t: nat, at: nat): seq<Version> {
    if vs == [] then vs else vs[|vs| - 1 := vs[|vs| - 1].(xmax := t, deletedAt := at)]
  }

  predicate Kept(v: Version, horizon: nat) {
    v.deletedAt == 0 || v.deletedAt >= horizon
  }

  function Retained(vs: seq<Version>, horizon: nat): (r: seq<Version>)
    ensures forall v :: v in r ==> v in vs && Kept(v, horizon)
  {
    if vs == [] then []
    else
      var front, last := Retained(vs[..|vs| - 1], horizon), vs[|vs| - 1];
      if Kept(last, horizon) then front + [last] else front
  }

  /** `h` is the least timestamp of an active snapshot, or the clock when there is none. */
  ghost predicate IsHorizon(st: State, h: nat) {
    && (forall t :: t in st.active ==> h <= st.active[t].timestamp)
    && (if st.active == map[] then h == st.clock else exists t :: t in st.active && h == st.active[t].timestamp)
  }

  lemma HorizonExists(st: State, m: map<nat, Snapshot>) returns (h: nat)
    requires m != map[]
    ensures forall t :: t in m ==> h <= m[t].timestamp
    ensures exists t :: t in m && h == m[t].timestamp
    decreases |m|
  {
    var t :| t in m;
    var rest := m - {t};
    if rest == map[] {
      assert forall u :: u in m && u != t ==> u in rest;
      h := m[t].timestamp;
    } else {
      assert rest.Keys == m.Keys - {t};
      var k := HorizonExists(st, rest);
      h := if k < m[t].timestamp then k else m[t].timestamp;
      assert forall u :: u in m ==> u == t || u in rest;
    }
  }

  ghost function Horizon(st: State): (h: nat)
    ensures IsHorizon(st, h)
  {
    assert exists h :: IsHorizon(st, h) by {
      if st.active == map[] {
        assert IsHorizon(st, st.clock);
      } else {
        var h := HorizonExists(st, st.active);
        assert IsHorizon(st, h);
      }
    }
    var h :| IsHorizon(st, h);
    h
  }

  ghost function Next(st: State, e: Event): State {
    match e
    case Begin(id) => st.(clock := st.clock + 1, nextTxn := id + 1, active := st.active[id := SnapshotFor(st, id)])
    case Commit(t) => st.(clock := st.clock + 1, active := st.active - {t}, committed := st.committed[t := st.clock])
    case Abort(t) => st.(active := st.active - {t})
    case Insert(t, loc, data) =>
      st.(store := st.store[loc := VersionsAt(st, loc) + [Version(t, 0, st.clock, 0, data)]])
    case Delete(t, loc) =>
      st.(clock := st.clock + 1, store := if loc in st.store then st.store[loc := Marked(st.store[loc], t, st.clock)] else st.store)
    case Vacuum =>
      var h := Horizon(st);
      st.(committed := map t | t in st.committed && st.committed[t] >= h :: st.committed[t],
          store := map loc | loc in st.store :: Retained(st.store[loc], h))
  }

  const INITIAL: State := State(1, 1, map[], map[], map[])

  // ---------------------------------------------------------------- invariant

  /** A snapshot knows every older transaction that is still active. */
  ghost predicate SnapshotOk(st: State, t: nat)
    requires t in st.active
  {
    var s := st.active[t];
    && s.txn == t && 0 < t < st.nextTxn && s.timestamp < st.clock
    && (forall u :: u in s.active ==> u < t)
    && (forall u :: u in st.active && u < t ==> u in s.active && st.active[u].timestamp < s.timestamp)
  }

  /** Ids and timestamps run in step: what happened before a snapshot was done by older transactions. */
  ghost predicate VersionOk(st: State, v: Version) {
    && 0 < v.xmin < st.nextTxn && v.xmax < st.nextTxn
    && v.createdAt <= st.clock && v.deletedAt < st.clock
    && (v.xmax == 0 <==> v.deletedAt == 0)
    && (forall t :: t in st.active ==>
          && (v.createdAt <= st.active[t].timestamp ==> v.xmin < t)
          && (v.xmax > 0 && v.deletedAt <= st.active[t].timestamp ==> v.xmax < t))
    && (v.xmax in st.active ==> st.active[v.xmax].timestamp < v.deletedAt)
  }

  ghost predicate Inv(st: State) {
    && 0 < st.nextTxn && 0 < st.clock
    && (forall t :: t in st.active ==> SnapshotOk(st, t))
    && (forall loc :: loc in st.store ==> forall v :: v in st.store[loc] ==> VersionOk(st, v))
  }

  lemma InitialOk()
    ensures Inv(INITIAL)
  {
  }

  lemma SnapshotsOk(st: State, e: Event)
    requires Inv(st) && Possible(st, e)
    ensures forall t :: t in Next(st, e).active ==> SnapshotOk(Next(st, e), t)
  {
    forall t | t in Next(st, e).active
      ensures SnapshotOk(Next(st, e), t)
    {
      if t in st.active {
        assert SnapshotOk(st, t);
      }
      if e.Begin? && t == e.id {
        forall u | u in st.active
          ensures u < t && st.active[u].timestamp < st.clock
        {
          assert SnapshotOk(st, u);
        }
      }
    }
  }

  lemma VersionStays(st: State, e: Event, v: Version)
    requires Inv(st) && Possible(st, e) && VersionOk(st, v)
    ensures VersionOk(Next(st, e), v)
  {
  }

  /** The version an insert adds, or the one a delete marks. */
  lemma VersionMade(st: State, e: Event, v: Version)
    requires Inv(st) && Possible(st, e)
    requires || (e.Insert? && v == Version(e.txn, 0, st.clock, 0, e.data))
             || (e.Delete? && exists w :: VersionOk(st, w) && v == w.(xmax := e.txn, deletedAt := st.clock))
    ensures VersionOk(Next(st, e), v)
  {
    assert SnapshotOk(st, e.txn);
    forall t | t in st.active
      ensures st.active[t].timestamp < st.clock
    {
      assert SnapshotOk(st, t);
    }
  }

  lemma StepInv(st: State, e: Event)
    requires Inv(st) && Possible(st, e)
    ensures Inv(Next(st, e))
  {
    var st' := Next(st, e);
    SnapshotsOk(st, e);
    forall loc, v | loc in st'.store && v in st'.store[loc]
      ensures VersionOk(st', v)
    {
      if loc in st.store && v in st.store[loc] {
        assert VersionOk(st, v);
        VersionStays(st, e, v);
      } else {
        if e.Delete? {
          assert VersionOk(st, st.store[loc][|st.store[loc]| - 1]);
        }
        VersionMade(st, e, v);
      }
    }
  }

  // ---------------------------------------------------------------- what a snapshot sees

  /** A new snapshot sees exactly the versions made by transactions no longer active, unless one
      no longer active deleted them. */
  lemma BeginSees(st: State, id: nat, v: Version)
    requires Inv(st) && id >= st.nextTxn && VersionOk(st, v)
    ensures IsVisible(v, SnapshotFor(st, id)) <==> v.xmin !in st.active && (v.xmax == 0 || v.xmax in st.active)
  {
  }

  /** All that an active transaction ever sees was made by transactions that were over when it
      began: never by itself, never by one of its active set, never by a later one. */
  lemma SeenWasOver(st: State, t: nat, loc: Loc, v: Version)
    requires Inv(st) && t in st.active && loc in st.store && v in st.store[loc] && IsVisible(v, st.active[t])
    ensures v.xmin < t && v.xmin !in st.active[t].active
  {
    assert VersionOk(st, v) && SnapshotOk(st, t);
  }

  lemma AppendUnseen(vs: seq<Version>, v: Version, s: Snapshot)
    requires !IsVisible(v, s)
    ensures Seen(vs + [v], s) == Seen(vs, s)
  {
    assert (vs + [v])[..|vs|] == vs;
  }

  /** No active transaction sees a fresh insert, not even the one that made it. */
  lemma InsertUnseen(st: State, e: Event, t: nat)
    requires Inv(st) && e.Insert? && Possible(st, e) && t in st.active
    ensures forall loc :: Read(Next(st, e), loc, st.active[t]) == Read(st, loc, st.active[t])
  {
    assert SnapshotOk(st, t);
    var s, v := st.active[t], Version(e.txn, 0, st.clock, 0, e.data);
    assert !IsVisible(v, s);
    InsertReads(st, Next(st, e), e.loc, v, s);
  }

  lemma {:induction false} InsertReads(st: State, st': State, at: Loc, v: Version, s: Snapshot)
    requires !IsVisible(v, s) && st'.store == st.store[at := VersionsAt(st, at) + [v]]
    ensures forall loc :: Read(st', loc, s) == Read(st, loc, s)
  {
    AppendUnseen(VersionsAt(st, at), v, s);
    forall loc
      ensures Seen(VersionsAt(st', loc), s) == Seen(VersionsAt(st, loc), s)
    {
      if loc != at {
        assert VersionsAt(st', loc) == VersionsAt(st, loc);
      }
    }
  }

  /** Marking the newest version brings it back for `s`: a deletion that `s` saw is forgotten. */
  ghost predicate Resurrects(vs: seq<Version>, s: Snapshot) {
    && vs != []
    && var v := vs[|vs| - 1];
       v.createdAt <= s.timestamp && TxnVisible(s, v.xmin) && v.xmax > 0 && TxnVisible(s, v.xmax)
  }

  /** A delete by another active transaction changes what `s` sees exactly when it resurrects. */
  lemma DeleteSeen(st: State, e: Event, t: nat)
    requires Inv(st) && e.Delete? && Possible(st, e) && t in st.active && t != e.txn
    ensures SeenAt(VersionsAt(Next(st, e), e.loc), st.active[t]) == SeenAt(VersionsAt(st, e.loc), st.active[t])
            <==> !Resurrects(VersionsAt(st, e.loc), st.active[t])
    ensures !Resurrects(VersionsAt(st, e.loc), st.active[t]) ==>
              forall loc :: Read(Next(st, e), loc, st.active[t]) == Read(st, loc, st.active[t])
  {
    var s, vs := st.active[t], VersionsAt(st, e.loc);
    assert SnapshotOk(st, t) && SnapshotOk(st, e.txn);
    assert e.txn > 0 && !TxnVisible(s, e.txn);
    var vs' := Marked(vs, e.txn, st.clock);
    if vs != [] {
      assert vs'[..|vs| - 1] == vs[..|vs| - 1];
    }
  }

  /** Its own delete hides the newest version from a transaction, and only that one. */
  lemma OwnDeleteSeen(st: State, e: Event)
    requires Inv(st) && e.Delete? && Possible(st, e)
    ensures var vs, s := VersionsAt(st, e.loc), st.active[e.txn];
            SeenAt(VersionsAt(Next(st, e), e.loc), s) == if vs == [] then -1 else SeenAt(vs[..|vs| - 1], s)
    ensures forall loc :: loc != e.loc ==> Read(Next(st, e), loc, st.active[e.txn]) == Read(st, loc, st.active[e.txn])
  {
    assert SnapshotOk(st, e.txn);
    var vs := VersionsAt(st, e.loc);
    if vs != [] {
      assert Marked(vs, e.txn, st.clock)[..|vs| - 1] == vs[..|vs| - 1];
    }
  }

  /** Dropping versions leaves the one that is seen, if it is kept. */
  lemma {:induction false} RetainedSeen(vs: seq<Version>, h: nat, s: Snapshot)
    requires Seen(vs, s).Some? ==> Kept(Seen(vs, s).value, h)
    ensures Seen(Retained(vs, h), s) == Seen(vs, s)
    decreases |vs|
  {
    if vs != [] {
      var front, last := vs[..|vs| - 1], vs[|vs| - 1];
      if IsVisible(last, s) {
        var r := Retained(vs, h);
        assert r[|r| - 1] == last;
      } else {
        assert SeenAt(front, s) == SeenAt(vs, s);
        RetainedSeen(front, h, s);
        var r := Retained(vs, h);
        if Kept(last, h) {
          assert r[..|r| - 1] == Retained(front, h);
        }
      }
    }
  }

  /** Vacuum takes away the version that `s` sees: its deleter, since ended, is one `s` must
      not notice. */
  ghost predicate Strips(st: State, s: Snapshot, loc: Loc) {
    var v := Seen(VersionsAt(st, loc), s);
    v.Some? && 0 < v.value.deletedAt < Horizon(st) && v.value.xmax in s.active && v.value.xmax !in st.active
  }

  /** Vacuum leaves an active snapshot's view of `loc` alone exactly when it does not strip it. */
  lemma VacuumSeen(st: State, t: nat, loc: Loc)
    requires Inv(st) && t in st.active
    ensures Seen(VersionsAt(Next(st, Vacuum), loc), st.active[t]) == Seen(VersionsAt(st, loc), st.active[t])
            <==> !Strips(st, st.active[t], loc)
  {
    var s, h, vs := st.active[t], Horizon(st), VersionsAt(st, loc);
    assert SnapshotOk(st, t);
    assert VersionsAt(Next(st, Vacuum), loc) == Retained(vs, h);
    var v := Seen(vs, s);
    if v.Some? {
      assert v.value in vs && VersionOk(st, v.value);
      if v.value.xmax in st.active {
        assert h <= st.active[v.value.xmax].timestamp;
      }
      assert Strips(st, s, loc) <==> !Kept(v.value, h);
    }
    if v.None? || Kept(v.value, h) {
      RetainedSeen(vs, h, s);
    }
  }

  /** While every transaction that a snapshot lists is still active, vacuum is invisible to it. */
  lemma VacuumInvisible(st: State, t: nat)
    requires Inv(st) && t in st.active && forall u :: u in st.active[t].active ==> u in st.active
    ensures forall loc :: Read(Next(st, Vacuum), loc, st.active[t]) == Read(st, loc, st.active[t])
  {
    forall loc
      ensures Read(Next(st, Vacuum), loc, st.active[t]) == Read(st, loc, st.active[t])
    {
      VacuumSeen(st, t, loc);
    }
  }

  // ---------------------------------------------------------------- whole runs

  /** A step that leaves transaction `t` running and undisturbed. */
  ghost predicate Quiet(st: State, e: Event, t: nat) {
    && t in st.active
    && match e
       case Commit(u) => u != t
       case Abort(u) => u != t
       case Delete(u, loc) => u != t && !Resurrects(VersionsAt(st, loc), st.active[t])
       case Vacuum => forall loc :: !Strips(st, st.active[t], loc)
       case _ => true
  }

  /** Deletes that hit a version nobody deleted yet, and vacuum while the listed ones run, are quiet. */
  lemma CleanIsQuiet(st: State, e: Event, t: nat)
    requires Inv(st) && Possible(st, e) && t in st.active
    requires e.Commit? || e.Abort? || e.Delete? ==> e.txn != t
    requires e.Delete? ==> var vs := VersionsAt(st, e.loc); vs != [] ==> vs[|vs| - 1].xmax == 0
    requires e.Vacuum? ==> forall u :: u in st.active[t].active ==> u in st.active
    ensures Quiet(st, e, t)
  {
  }

  lemma QuietStep(st: State, e: Event, t: nat)
    requires Inv(st) && Possible(st, e) && Quiet(st, e, t)
    ensures t in Next(st, e).active && Next(st, e).active[t] == st.active[t]
    ensures forall loc :: Read(Next(st, e), loc, st.active[t]) == Read(st, loc, st.active[t])
  {
    assert SnapshotOk(st, t);
    match e
    case Begin(_) =>
    case Commit(_) =>
    case Abort(_) =>
    case Insert(_, _, _) => InsertUnseen(st, e, t);
    case Delete(_, _) => DeleteSeen(st, e, t);
    case Vacuum =>
      forall loc
        ensures Read(Next(st, e), loc, st.active[t]) == Read(st, loc, st.active[t])
      {
        VacuumSeen(st, t, loc);
      }
  }

  ghost predicate Feasible(st: State, es: seq<Event>)
    decreases |es|
  {
    es == [] || (Possible(st, es[0]) && Feasible(Next(st, es[0]), es[1..]))
  }

  ghost function Run(st: State, es: seq<Event>): State
    requires Feasible(st, es)
    decreases |es|
  {
    if es == [] then st else Run(Next(st, es[0]), es[1..])
  }

  ghost predicate QuietRun(st: State, es: seq<Event>, t: nat)
    requires Feasible(st, es)
    decreases |es|
  {
    es == [] || (Quiet(st, es[0], t) && QuietRun(Next(st, es[0]), es[1..], t))
  }

  lemma {:induction false} RunInv(st: State, es: seq<Event>)
    requires Inv(st) && Feasible(st, es)
    ensures Inv(Run(st, es))
    decreases |es|
  {
    if es != [] {
      StepInv(st, es[0]);
      RunInv(Next(st, es[0]), es[1..]);
    }
  }

  /** Repeatable reads: over any quiet run an active transaction reads every row as before. */
  lemma {:induction false} RepeatableReads(st: State, es: seq<Event>, t: nat)
    requires Inv(st) && t in st.active && Feasible(st, es) && QuietRun(st, es, t)
    ensures t in Run(st, es).active && Run(st, es).active[t] == st.active[t]
    ensures forall loc :: Read(Run(st, es), loc, st.active[t]) == Read(st, loc, st.active[t])
    decreases |es|
  {
    if es != [] {
      StepInv(st, es[0]);
      QuietStep(st, es[0], t);
      RepeatableReads(Next(st, es[0]), es[1..], t);
    }
  }

  /** A transaction reads, for as long as it runs, the state of the transactions that were over
      when it began: for each row the newest version not made, and not deleted, by those. */
  lemma {:induction false} SnapshotReads(st: State, id: nat, es: seq<Event>, loc: Loc)
    requires Inv(st) && id >= st.nextTxn && Feasible(Next(st, Begin(id)), es) && QuietRun(Next(st, Begin(id)), es, id)
    ensures Read(Run(Next(st, Begin(id)), es), loc, SnapshotFor(st, id)) == OverAt(st, VersionsAt(st, loc))
  {
    StepInv(st, Begin(id));
    RepeatableReads(Next(st, Begin(id)), es, id);
    SeenIsOver(st, id, VersionsAt(st, loc));
  }

  /** The newest version made by a transaction that is over and not deleted by one. */
  ghost function OverAt(st: State, vs: seq<Version>): Option<Row> {
    if vs == [] then None
    else
      var v := vs[|vs| - 1];
      if v.xmin !in st.active && (v.xmax == 0 || v.xmax in st.active) then Some(v.data) else OverAt(st, vs[..|vs| - 1])
  }

  lemma {:induction false} SeenIsOver(st: State, id: nat, vs: seq<Version>)
    requires Inv(st) && id >= st.nextTxn && forall v :: v in vs ==> VersionOk(st, v)
    ensures var v := Seen(vs, SnapshotFor(st, id));
            OverAt(st, vs) == if v.Some? then Some(v.value.data) else None
    decreases |vs|
  {
    if vs != [] {
      BeginSees(st, id, vs[|vs| - 1]);
      SeenIsOver(st, id, vs[..|vs| - 1]);
    }
  }

  // ---------------------------------------------------------------- what the next transaction reads

  /** What a transaction that began now would read at `loc`. */
  ghost function NextReads(st: State, loc: Loc): Option<Row> {
    OverAt(st, VersionsAt(st, loc))
  }

  lemma NextReadsIs(st: State, id: nat, loc: Loc)
    requires Inv(st) && id >= st.nextTxn
    ensures Read(Next(st, Begin(id)), loc, Next(st, Begin(id)).active[id]) == NextReads(st, loc)
  {
    SeenIsOver(st, id, VersionsAt(st, loc));
  }

  /** Only which transactions are active among those that made or deleted the versions matters. */
  lemma {:induction false} OverSame(st: State, st': State, vs: seq<Version>)
    requires forall v :: v in vs ==> (v.xmin in st.active <==> v.xmin in st'.active) && (v.xmax == 0 || (v.xmax in st.active <==> v.xmax in st'.active))
    ensures OverAt(st', vs) == OverAt(st, vs)
    decreases |vs|
  {
    if vs != [] {
      assert vs[|vs| - 1] in vs;
      OverSame(st, st', vs[..|vs| - 1]);
    }
  }

  /** A transaction that has written nothing at a place changes nothing there by beginning or by
      ending, either way. */
  lemma {:induction false} ReaderLeavesNoTrace(st: State, e: Event, loc: Loc)
    requires Inv(st) && Possible(st, e) && (e.Begin? || e.Commit? || e.Abort?)
    requires !e.Begin? ==> forall v :: v in VersionsAt(st, loc) ==> v.xmin != e.txn && v.xmax != e.txn
    ensures NextReads(Next(st, e), loc) == NextReads(st, loc)
  {
    var vs := VersionsAt(st, loc);
    forall v | v in vs
      ensures v.xmin < st.nextTxn && v.xmax < st.nextTxn
    {
      assert VersionOk(st, v);
    }
    OverSame(st, Next(st, e), vs);
  }

  /** What is inserted shows to nobody before its maker is over. */
  lemma {:induction false} InsertWaits(st: State, e: Event, loc: Loc)
    requires Inv(st) && e.Insert? && Possible(st, e)
    ensures NextReads(Next(st, e), loc) == NextReads(st, loc)
  {
    var vs, v := VersionsAt(st, e.loc), Version(e.txn, 0, st.clock, 0, e.data);
    assert (vs + [v])[..|vs|] == vs;
    OverSame(st, Next(st, e), vs);
    OverSame(st, Next(st, e), VersionsAt(st, loc));
  }

  /** Insert and commit: the next transaction reads the row, whatever was there before, and reads
      every other place as if only the commit had happened. */
  lemma {:induction false} InsertThenCommit(st: State, t: nat, loc: Loc, data: Row)
    requires Inv(st) && t in st.active
    ensures var st' := Next(Next(st, Insert(t, loc, data)), Commit(t));
            && NextReads(st', loc) == Some(data)
            && forall l :: l != loc ==> NextReads(st', l) == NextReads(Next(st, Commit(t)), l)
  {
    var st' := Next(Next(st, Insert(t, loc, data)), Commit(t));
    var vs, v := VersionsAt(st, loc), Version(t, 0, st.clock, 0, data);
    assert VersionsAt(st', loc) == vs + [v];
    forall l | l != loc
      ensures NextReads(st', l) == NextReads(Next(st, Commit(t)), l)
    {
      OverSame(Next(st, Commit(t)), st', VersionsAt(st, l));
    }
  }

  /** Delete and commit: the newest version at the place is gone, and with it nothing else. */
  lemma {:induction false} DeleteThenCommit(st: State, t: nat, loc: Loc)
    requires Inv(st) && t in st.active
    ensures var st', vs := Next(Next(st, Delete(t, loc)), Commit(t)), VersionsAt(st, loc);
            && NextReads(st', loc) == (if vs == [] then None else OverAt(Next(st, Commit(t)), vs[..|vs| - 1]))
            && forall l :: l != loc ==> NextReads(st', l) == NextReads(Next(st, Commit(t)), l)
  {
    var st', vs := Next(Next(st, Delete(t, loc)), Commit(t)), VersionsAt(st, loc);
    assert SnapshotOk(st, t);
    if vs != [] {
      var vs' := Marked(vs, t, st.clock);
      assert VersionsAt(st', loc) == vs' && vs'[..|vs| - 1] == vs[..|vs| - 1];
      OverSame(Next(st, Commit(t)), st', vs[..|vs| - 1]);
    }
    forall l | l != loc
      ensures NextReads(st', l) == NextReads(Next(st, Commit(t)), l)
    {
      OverSame(Next(st, Commit(t)), st', VersionsAt(st, l));
    }
  }

  /** Aborting shows whatever committing shows. */
  lemma {:induction false} AbortShows(st: State, t: nat, loc: Loc)
    requires Inv(st) && t in st.active
    ensures NextReads(Next(st, Abort(t)), loc) == NextReads(Next(st, Commit(t)), loc)
  {
    OverSame(Next(st, Abort(t)), Next(st, Commit(t)), VersionsAt(st, loc));
  }

  /** A delete shows to nobody before its maker is over, except where it covers up an earlier one. */
  lemma {:induction false} DeleteWaits(st: State, t: nat, loc: Loc)
    requires Inv(st) && t in st.active
    ensures var vs := VersionsAt(st, loc);
            NextReads(Next(st, Delete(t, loc)), loc) ==
            if vs != [] && vs[|vs| - 1].xmin !in st.active then Some(vs[|vs| - 1].data) else NextReads(st, loc)
    ensures forall l :: l != loc ==> NextReads(Next(st, Delete(t, loc)), l) == NextReads(st, l)
  {
    var st', vs := Next(st, Delete(t, loc)), VersionsAt(st, loc);
    if vs != [] {
      var vs' := Marked(vs, t, st.clock);
      assert VersionsAt(st', loc) == vs' && vs'[..|vs| - 1] == vs[..|vs| - 1];
      OverSame(st, st', vs[..|vs| - 1]);
    }
    forall l | l != loc
      ensures NextReads(st', l) == NextReads(st, l)
    {
      OverSame(st, st', VersionsAt(st, l));
    }
  }

  lemma {:induction false} RetainedOver(st: State, vs: seq<Version>, h: nat)
    requires forall v :: v in vs && !Kept(v, h) ==> v.xmax != 0 && v.xmax !in st.active
    ensures OverAt(st, Retained(vs, h)) == OverAt(st, vs)
    decreases |vs|
  {
    if vs != [] {
      var front, last := vs[..|vs| - 1], vs[|vs| - 1];
      assert last in vs;
      RetainedOver(st, front, h);
      if Kept(last, h) {
        var r := Retained(vs, h);
        assert r[|r| - 1] == last && r[..|r| - 1] == Retained(front, h);
      }
    }
  }

  /** Vacuum, whoever is active or nobody, changes nothing that the next transaction reads. */
  lemma {:induction false} VacuumKeepsNext(st: State, loc: Loc)
    requires Inv(st)
    ensures NextReads(Next(st, Vacuum), loc) == NextReads(st, loc)
  {
    var h, vs := Horizon(st), VersionsAt(st, loc);
    forall v | v in vs && !Kept(v, h)
      ensures v.xmax != 0 && v.xmax !in st.active
    {
      assert VersionOk(st, v);
    }
    var st' := Next(st, Vacuum);
    assert VersionsAt(st', loc) == Retained(vs, h) && st'.active == st.active;
    RetainedNext(st, st', vs, h);
  }

  lemma {:induction false} RetainedNext(st: State, st': State, vs: seq<Version>, h: nat)
    requires st'.active == st.active && forall v :: v in vs && !Kept(v, h) ==> v.xmax != 0 && v.xmax !in st.active
    ensures OverAt(st', Retained(vs, h)) == OverAt(st, vs)
  {
    RetainedOver(st, vs, h);
    OverSame(st, st', Retained(vs, h));
  }

  ghost predicate DeletedBefore(v: Version, h: nat) {
    0 < v.deletedAt < h
  }

  /** `r` holds the versions at the positions `ix`, which are those not deleted before `h`. */
  ghost predicate KeepsAt(vs: seq<Version>, h: nat, ix: seq<nat>, r: seq<Version>) {
    && Increasing(ix) && |r| == |ix|
    && (forall k :: 0 <= k < |ix| ==> ix[k] < |vs| && r[k] == vs[ix[k]] && !DeletedBefore(r[k], h))
    && (forall i: nat :: i < |vs| && i !in ix ==> DeletedBefore(vs[i], h))
  }

  lemma {:induction false} KeepsStep(front: seq<Version>, last: Version, h: nat, ix: seq<nat>, r: seq<Version>)
    requires KeepsAt(front, h, ix, r)
    ensures DeletedBefore(last, h) ==> KeepsAt(front + [last], h, ix, r)
    ensures !DeletedBefore(last, h) ==> KeepsAt(front + [last], h, ix + [|front|], r + [last])
  {
    var vs := front + [last];
    assert vs[|front|] == last && forall i :: 0 <= i < |front| ==> vs[i] == front[i];
    forall i: nat | i < |front| && i !in ix
      ensures DeletedBefore(vs[i], h)
    {
      assert DeletedBefore(front[i], h);
    }
  }

  /** Vacuum keeps, in order, exactly the versions not deleted before the horizon. */
  lemma {:induction false} RetainedExact(vs: seq<Version>, h: nat) returns (ix: seq<nat>)
    ensures KeepsAt(vs, h, ix, Retained(vs, h))
    decreases |vs|
  {
    if vs == [] {
      ix := [];
    } else {
      var front, last := vs[..|vs| - 1], vs[|vs| - 1];
      var before := RetainedExact(front, h);
      assert vs == front + [last];
      KeepsStep(front, last, h, before, Retained(front, h));
      ix := if Kept(last, h) then before + [|front|] else before;
    }
  }

  // ---------------------------------------------------------------- states that are really reached

  ghost predicate Reachable(st: State) {
    exists es :: Feasible(INITIAL, es) && Run(INITIAL, es) == st
  }

  lemma {:induction false} RunOneMore(st: State, es: seq<Event>, e: Event)
    requires Feasible(st, es) && Possible(Run(st, es), e)
    ensures Feasible(st, es + [e]) && Run(st, es + [e]) == Next(Run(st, es), e)
    decreases |es|
  {
    if es == [] {
      assert es + [e] == [e] && [e][1..] == [];
      assert Feasible(Next(st, e), []);
    } else {
      assert (es + [e])[1..] == es[1..] + [e];
      RunOneMore(Next(st, es[0]), es[1..], e);
    }
  }

  lemma {:induction false} ReachNext(st: State, e: Event)
    requires Reachable(st) && Possible(st, e)
    ensures Reachable(Next(st, e)) && Inv(Next(st, e))
  {
    var es :| Feasible(INITIAL, es) && Run(INITIAL, es) == st;
    RunOneMore(INITIAL, es, e);
    InitialOk();
    RunInv(INITIAL, es);
    StepInv(st, e);
  }

  /** One row, inserted and committed by transaction 1. */
  lemma {:induction false} OneRow(loc: Loc, data: Row) returns (st: State)
    ensures Reachable(st) && st == State(3, 2, map[], map[1 := 2], map[loc := [Version(1, 0, 2, 0, data)]])
  {
    assert Feasible(INITIAL, []) && Run(INITIAL, []) == INITIAL;
    st := INITIAL;
    ReachNext(st, Begin(1));
    st := Next(st, Begin(1));
    ReachNext(st, Insert(1, loc, data));
    st := Next(st, Insert(1, loc, data));
    assert st.store[loc] == [Version(1, 0, 2, 0, data)];
    assert st.store == map[loc := [Version(1, 0, 2, 0, data)]];
    ReachNext(st, Commit(1));
    st := Next(st, Commit(1));
    assert st.active == map[];
  }

  /** That row, deleted by transaction 2, which has not ended. */
  lemma {:induction false} OneRowDeleted(loc: Loc, data: Row) returns (st: State)
    ensures Reachable(st)
    ensures st == State(5, 3, map[2 := Snapshot(3, 2, {})], map[1 := 2], map[loc := [Version(1, 2, 2, 4, data)]])
  {
    st := OneRow(loc, data);
    ReachNext(st, Begin(2));
    assert st.active.Keys == {};
    st := Next(st, Begin(2));
    assert st.active == map[2 := Snapshot(3, 2, {})];
    ReachNext(st, Delete(2, loc));
    st := Next(st, Delete(2, loc));
    assert st.store[loc] == [Version(1, 2, 2, 4, data)];
    assert st.store == map[loc := [Version(1, 2, 2, 4, data)]];
  }

  /** Vacuum can take a row from under a reader: the condition of `VacuumInvisible` is needed. */
  lemma {:induction false} VacuumLosesRow(loc: Loc, data: Row) returns (st: State, t: nat)
    ensures Reachable(st) && t in st.active
    ensures Read(st, loc, st.active[t]) == Some(data) && Read(Next(st, Vacuum), loc, st.active[t]) == None
  {
    st := OneRowDeleted(loc, data);
    assert st.active.Keys == {2};
    ReachNext(st, Begin(3));
    st := Next(st, Begin(3));
    ReachNext(st, Commit(2));
    st := Next(st, Commit(2));
    t := 3;
    assert st.active == map[3 := Snapshot(5, 3, {2})];
    assert 3 in st.active && IsHorizon(st, Horizon(st));
    assert Horizon(st) == 5;
    var vs := [Version(1, 2, 2, 4, data)];
    assert VersionsAt(st, loc) == vs && SeenAt(vs, st.active[t]) == 0;
    assert Retained(vs, 5) == [];
  }

  /** A second delete can bring a deleted row back for a reader. */
  lemma {:induction false} DeleteBringsBack(loc: Loc, data: Row) returns (st: State, t: nat)
    ensures Reachable(st) && t in st.active && 3 in st.active && t != 3
    ensures Read(st, loc, st.active[t]) == None && Read(Next(st, Delete(3, loc)), loc, st.active[t]) == Some(data)
  {
    st := OneRowDeleted(loc, data);
    ReachNext(st, Commit(2));
    st := Next(st, Commit(2));
    ReachNext(st, Begin(3));
    st := Next(st, Begin(3));
    ReachNext(st, Begin(4));
    st := Next(st, Begin(4));
    t := 4;
    assert VersionsAt(st, loc) == [Version(1, 2, 2, 4, data)];
    assert st.active[4] == Snapshot(7, 4, {3});
    assert VersionsAt(Next(st, Delete(3, loc)), loc) == [Version(1, 3, 2, 8, data)];
  }

  /** Abort undoes nothing: what an aborted transaction wrote is seen by the next one. */
  lemma {:induction false} AbortedInsertIsSeen(loc: Loc, data: Row) returns (st: State, t: nat)
    ensures Reachable(st) && t in st.active && 1 !in st.active && 1 !in st.committed
    ensures Read(st, loc, st.active[t]) == Some(data)
  {
    assert Feasible(INITIAL, []) && Run(INITIAL, []) == INITIAL;
    st := INITIAL;
    ReachNext(st, Begin(1));
    st := Next(st, Begin(1));
    ReachNext(st, Insert(1, loc, data));
    st := Next(st, Insert(1, loc, data));
    ReachNext(st, Abort(1));
    st := Next(st, Abort(1));
    ReachNext(st, Begin(2));
    st := Next(st, Begin(2));
    t := 2;
    assert VersionsAt(st, loc) == [Version(1, 0, 2, 0, data)];
    assert st.active[2] == Snapshot(2, 2, {});
  }

  /** A deletion brings the value before the last one back: the newest version alone is marked. */
  lemma {:induction false} DeleteShowsOlder(loc: Loc, first: Row, second: Row) returns (st: State)
    ensures Reachable(st) && NextReads(st, loc) == Some(first)
    ensures exists before :: Reachable(before) && NextReads(before, loc) == Some(second) && 3 in before.active && st == Next(Next(before, Delete(3, loc)), Commit(3))
  {
    st := OneRow(loc, first);
    ReachNext(st, Begin(2));
    st := Next(st, Begin(2));
    ReachNext(st, Insert(2, loc, second));
    st := Next(st, Insert(2, loc, second));
    ReachNext(st, Commit(2));
    st := Next(st, Commit(2));
    assert VersionsAt(st, loc) == [Version(1, 0, 2, 0, first), Version(2, 0, 4, 0, second)];
    assert st.active == map[];
    ReachNext(st, Begin(3));
    st := Next(st, Begin(3));
    var before := st;
    assert before.active.Keys == {3} && NextReads(before, loc) == Some(second);
    ReachNext(st, Delete(3, loc));
    st := Next(st, Delete(3, loc));
    ReachNext(st, Commit(3));
    st := Next(st, Commit(3));
    DeleteThenCommit(before, 3, loc);
    var vs := VersionsAt(before, loc);
    assert vs[..1] == [Version(1, 0, 2, 0, first)];
    assert OverAt(Next(before, Commit(3)), vs[..1]) == Some(first);
  }
}
