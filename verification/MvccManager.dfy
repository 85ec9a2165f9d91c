/** The version store, updated in place; each call is one atomic step. */
module MvccManagers {
  import opened Options
  import opened Rows
  import opened Mvcc
  import opened Ordered

  lemma HorizonUnique(st: State, h: nat)
    requires IsHorizon(st, h)
    ensures h == Horizon(st)
  {
    var k := Horizon(st);
    if st.active != map[] {
      var t :| t in st.active && h == st.active[t].timestamp;
      var u :| u in st.active && k == st.active[u].timestamp;
    }
  }

  /** The newest version that is visible, looked for from the end. */
  method VisibleVersion(vs: seq<Version>, s: Snapshot) returns (v: Option<Version>)
    ensures v == Seen(vs, s)
  {
    var i := |vs|;
    while i > 0
      invariant 0 <= i <= |vs| && SeenAt(vs, s) == SeenAt(vs[..i], s)
    {
      assert vs[..i][..i - 1] == vs[..i - 1];
      if IsVisible(vs[i - 1], s) {
        return Some(vs[i - 1]);
      }
      i := i - 1;
    }
    return None;
  }

  /** `rows` holds what `read` finds at the keys `ks`, by increasing key. */
  ghost predicate ListsAt(read: int -> Option<Row>, ks: seq<int>, rows: seq<(int, Row)>) {
    && (forall i, j :: 0 <= i < j < |rows| ==> rows[i].0 < rows[j].0)
    && (forall i :: 0 <= i < |rows| ==> rows[i].0 in ks && read(rows[i].0) == Some(rows[i].1))
    && (forall k :: k in ks && read(k).Some? ==> (k, read(k).value) in rows)
  }

  /** `rows` holds what `read` finds, at any key, by increasing key. */
  ghost predicate ListsAll(read: int -> Option<Row>, rows: seq<(int, Row)>) {
    && (forall i, j :: 0 <= i < j < |rows| ==> rows[i].0 < rows[j].0)
    && (forall k, row :: (k, row) in rows <==> read(k) == Some(row))
  }

  /** What the reader with snapshot `s` finds in a table. */
  ghost function ReaderOf(st: State, table: string, s: Snapshot): int -> Option<Row> {
    k => Read(st, Loc(table, k), s)
  }

  lemma OnlyStored(st: State, table: string, s: Snapshot, keys: set<int>)
    requires keys == set loc | loc in st.store && loc.table == table :: loc.key
    ensures forall k :: ReaderOf(st, table, s)(k).Some? ==> k in keys
  {
    forall k | ReaderOf(st, table, s)(k).Some?
      ensures k in keys
    {
      assert Loc(table, k) in st.store && Loc(table, k).key == k;
    }
  }

  lemma ScanWhole(read: int -> Option<Row>, ks: seq<int>, rows: seq<(int, Row)>)
    requires ListsAt(read, ks, rows) && forall k :: read(k).Some? ==> k in ks
    ensures ListsAll(read, rows)
  {
  }

  lemma ScanStep(read: int -> Option<Row>, ks: seq<int>, n: nat, rows: seq<(int, Row)>)
    requires n < |ks| && Increasing(ks) && ListsAt(read, ks[..n], rows)
    ensures ListsAt(read, ks[..n + 1], if read(ks[n]).Some? then rows + [(ks[n], read(ks[n]).value)] else rows)
  {
    assert ks[..n + 1] == ks[..n] + [ks[n]];
    forall i | 0 <= i < |rows|
      ensures rows[i].0 < ks[n]
    {
      assert rows[i].0 in ks[..n];
    }
  }

  class MvccManager {
    var clock: nat
    var nextTxn: nat
    var active: map<nat, Snapshot>
    var committed: map<nat, nat>
    var store: map<Loc, seq<Version>>

    function View(): State
      reads this
    {
      State(clock, nextTxn, active, committed, store)
    }

    ghost predicate Valid()
      reads this
    {
      Inv(View())
    }

    constructor ()
      ensures Valid() && View() == INITIAL
    {
      clock := 1;
      nextTxn := 1;
      active := map[];
      committed := map[];
      store := map[];
      new;
      InitialOk();
    }

    /** Begins a transaction under the next id of the shared counter. */
    method BeginTransaction(id: nat) returns (s: Snapshot)
      requires Valid() && id >= nextTxn
      modifies this
      ensures Valid() && View() == Next(old(View()), Begin(id))
      ensures s == View().active[id] && s.active == old(active).Keys && s.timestamp == old(clock)
    {
      ghost var st := View();
      StepInv(st, Begin(id));
      nextTxn := id + 1;
      var timestamp := clock;
      clock := clock + 1;
      s := Snapshot(timestamp, id, active.Keys);
      active := active[id := s];
      assert View() == Next(st, Begin(id));
    }

    method CommitTransaction(s: Snapshot)
      modifies this
      ensures View() == Next(old(View()), Commit(s.txn))
      ensures old(Valid()) && s.txn in old(active) ==> Valid()
    {
      if Valid() && s.txn in active {
        StepInv(View(), Commit(s.txn));
      }
      var timestamp := clock;
      clock := clock + 1;
      committed := committed[s.txn := timestamp];
      active := active - {s.txn};
    }

    method AbortTransaction(s: Snapshot)
      modifies this
      ensures View() == Next(old(View()), Abort(s.txn))
      ensures old(Valid()) && s.txn in old(active) ==> Valid()
    {
      if Valid() && s.txn in active {
        StepInv(View(), Abort(s.txn));
      }
      active := active - {s.txn};
    }

    method InsertVersion(loc: Loc, data: Row, s: Snapshot)
      modifies this
      ensures View() == Next(old(View()), Insert(s.txn, loc, data))
      ensures old(Valid()) && s.txn in old(active) ==> Valid()
    {
      if Valid() && s.txn in active {
        StepInv(View(), Insert(s.txn, loc, data));
      }
      var version := Version(s.txn, 0, clock, 0, data);
      if loc !in store {
        store := store[loc := []];
      }
      store := store[loc := store[loc] + [version]];
    }

    /** Marks the newest version; the clock advances even when there is nothing to mark. */
    method DeleteVersion(loc: Loc, s: Snapshot) returns (found: bool)
      modifies this
      ensures View() == Next(old(View()), Delete(s.txn, loc))
      ensures found <==> loc in old(store) && old(store)[loc] != []
      ensures old(Valid()) && s.txn in old(active) ==> Valid()
    {
      if Valid() && s.txn in active {
        StepInv(View(), Delete(s.txn, loc));
      }
      var deletedAt := clock;
      clock := clock + 1;
      if loc !in store {
        return false;
      }
      var vs := store[loc];
      if vs == [] {
        assert store[loc := Marked(vs, s.txn, deletedAt)] == store;
        return false;
      }
      store := store[loc := vs[|vs| - 1 := vs[|vs| - 1].(xmax := s.txn, deletedAt := deletedAt)]];
      return true;
    }

    method ReadVersion(loc: Loc, s: Snapshot) returns (row: Option<Row>)
      ensures row == Read(View(), loc, s)
    {
      if loc !in store {
        return None;
      }
      var v := VisibleVersion(store[loc], s);
      return if v.Some? then Some(v.value.data) else None;
    }

    /** Every row that a read would find, once, by increasing key. */
    method ScanTable(table: string, s: Snapshot) returns (rows: seq<(int, Row)>)
      ensures ListsAll(ReaderOf(View(), table, s), rows)
    {
      ghost var read := ReaderOf(View(), table, s);
      var keys := set loc | loc in store && loc.table == table :: loc.key;
      OnlyStored(View(), table, s, keys);
      var ks := InOrder(keys);
      rows := [];
      for n := 0 to |ks|
        invariant ListsAt(read, ks[..n], rows)
      {
        var row := ReadVersion(Loc(table, ks[n]), s);
        ScanStep(read, ks, n, rows);
        if row.Some? {
          rows := rows + [(ks[n], row.value)];
        }
      }
      assert ks[..|ks|] == ks;
      ScanWhole(read, ks, rows);
    }

    method OldestTimestamp() returns (h: nat)
      ensures h == Horizon(View())
    {
      if active == map[] {
        h := clock;
      } else {
        var t :| t in active;
        h := active[t].timestamp;
        var todo := active.Keys - {t};
        while todo != {}
          invariant todo <= active.Keys
          invariant forall u :: u in active && u !in todo ==> h <= active[u].timestamp
          invariant exists u :: u in active && h == active[u].timestamp
        {
          var u :| u in todo;
          if active[u].timestamp < h {
            h := active[u].timestamp;
          }
          todo := todo - {u};
        }
      }
      HorizonUnique(View(), h);
    }

    method VacuumRecords(h: nat)
      modifies this`store
      ensures store == map loc | loc in old(store) :: Retained(old(store)[loc], h)
    {
      var todo := store.Keys;
      while todo != {}
        invariant todo <= store.Keys == old(store).Keys
        invariant forall loc :: loc in old(store) ==> store[loc] == if loc in todo then old(store)[loc] else Retained(old(store)[loc], h)
      {
        var loc :| loc in todo;
        store := store[loc := Retained(store[loc], h)];
        todo := todo - {loc};
      }
    }

    method VacuumAll()
      requires Valid()
      modifies this
      ensures Valid() && View() == Next(old(View()), Vacuum)
    {
      ghost var st := View();
      StepInv(st, Vacuum);
      var h := OldestTimestamp();
      committed := map t | t in committed && committed[t] >= h :: committed[t];
      VacuumRecords(h);
      assert View() == Next(st, Vacuum);
    }
  }
}
