/** Change data capture: staged changes, and a bounded log of published ones. */
module Cdc {
  import opened Bytes
  import opened Rows

  /** One changed row. */
  datatype Change =
    | Inserted(table: string, rowid: int, after: Row)
    | Updated(table: string, rowid: int, before: Row, after: Row)
    | Deleted(table: string, rowid: int, before: Row)

  datatype ChangeEvent = ChangeEvent(number: nat, change: Change)

  datatype Feed = Feed(enabled: bool, nextSeq: nat, capacity: nat, log: seq<ChangeEvent>, staged: seq<Change>)

  // ---------------------------------------------------------------- operations

  function Recorded(f: Feed, c: Change): Feed {
    if !f.enabled then f
    else
      var kept := if |f.log| >= f.capacity && f.log != [] then f.log[1..] else f.log;
      f.(nextSeq := f.nextSeq + 1, log := kept + [ChangeEvent(f.nextSeq, c)])
  }

  function RecordedAll(f: Feed, cs: seq<Change>): Feed
    decreases |cs|
  {
    if cs == [] then f else Recorded(RecordedAll(f, cs[..|cs| - 1]), cs[|cs| - 1])
  }

  function Staged(f: Feed, cs: seq<Change>): Feed {
    if f.enabled then f.(staged := f.staged + cs) else f
  }

  function Discarded(f: Feed, mark: nat): Feed {
    if mark < |f.staged| then f.(staged := f.staged[..mark]) else f
  }

  function Published(f: Feed): Feed {
    RecordedAll(f.(staged := []), f.staged)
  }

  // ---------------------------------------------------------------- what the log retains

  /** The log holds the last of the published changes, numbered consecutively up to the latest:
      all of them while they fit. `all` is what was published since numbering began. */
  ghost predicate Retains(f: Feed, all: seq<Change>) {
    && f.nextSeq == |all| + 1
    && |f.log| <= |all| && |f.log| <= Max(f.capacity, 1)
    && (forall i :: 0 <= i < |f.log| ==> f.log[i] == ChangeEvent(|all| - |f.log| + i + 1, all[|all| - |f.log| + i]))
  }

  /** The last `n` published changes are retained, up to the capacity. */
  ghost predicate KeepsLast(f: Feed, n: nat) {
    |f.log| >= (if n < Max(f.capacity, 1) then n else Max(f.capacity, 1))
  }

  lemma RecordRetains(f: Feed, all: seq<Change>, c: Change, n: nat)
    requires Retains(f, all) && f.enabled && KeepsLast(f, n)
    ensures Retains(Recorded(f, c), all + [c]) && KeepsLast(Recorded(f, c), n + 1)
  {
  }

  lemma {:induction false} RecordAllRetains(f: Feed, all: seq<Change>, cs: seq<Change>, n: nat)
    requires Retains(f, all) && f.enabled && KeepsLast(f, n)
    ensures Retains(RecordedAll(f, cs), all + cs) && KeepsLast(RecordedAll(f, cs), n + |cs|)
    ensures RecordedAll(f, cs).enabled && RecordedAll(f, cs).staged == f.staged
    decreases |cs|
  {
    if cs == [] {
      assert all + cs == all;
    } else {
      var front, last := cs[..|cs| - 1], cs[|cs| - 1];
      RecordAllRetains(f, all, front, n);
      RecordRetains(RecordedAll(f, front), all + front, last, n + |front|);
      assert all + front + [last] == all + cs;
    }
  }

  // ---------------------------------------------------------------- replaying changes

  type Table = map<int, Row>

  type Tables = map<string, Table>

  function TableOf(db: Tables, name: string): Table {
    if name in db then db[name] else map[]
  }

  /** The primary key that a row of a table carries. */
  type KeyOf = (string, Row) -> int

  /** What a consumer does with one change: a changed row may have moved to another key. */
  function Replayed(pk: KeyOf, db: Tables, c: Change): Tables {
    var t := TableOf(db, c.table);
    match c
    case Inserted(n, k, after) => db[n := t[k := after]]
    case Updated(n, k, _, after) => db[n := (t - {k})[pk(n, after) := after]]
    case Deleted(n, k, _) => db[n := t - {k}]
  }

  function ReplayedAll(pk: KeyOf, db: Tables, cs: seq<Change>): Tables
    decreases |cs|
  {
    if cs == [] then db else Replayed(pk, ReplayedAll(pk, db, cs[..|cs| - 1]), cs[|cs| - 1])
  }

  lemma {:induction false} ReplayAppend(pk: KeyOf, db: Tables, a: seq<Change>, b: seq<Change>)
    ensures ReplayedAll(pk, db, a + b) == ReplayedAll(pk, ReplayedAll(pk, db, a), b)
    decreases |b|
  {
    if b == [] {
      assert a + b == a;
    } else {
      assert (a + b)[..|a + b| - 1] == a + b[..|b| - 1];
      ReplayAppend(pk, db, a, b[..|b| - 1]);
    }
  }

  // ---------------------------------------------------------------- the manager

  class CdcManager {
    const capacity: nat
    var enabled: bool
    var nextSeq: nat
    var log: seq<ChangeEvent>
    var staged: seq<Change>
    ghost var all: seq<Change>

    function View(): Feed
      reads this
    {
      Feed(enabled, nextSeq, capacity, log, staged)
    }

    ghost predicate Valid()
      reads this
    {
      Retains(View(), all)
    }

    constructor (capacity: nat)
      ensures Valid() && View() == Feed(false, 1, capacity, [], []) && all == []
    {
      this.capacity := capacity;
      enabled := false;
      nextSeq := 1;
      log := [];
      staged := [];
      all := [];
    }

    method Enable()
      requires Valid()
      modifies this`enabled
      ensures Valid() && enabled
    {
      enabled := true;
    }

    method Disable()
      requires Valid()
      modifies this`enabled, this`log, this`staged
      ensures Valid() && !enabled && log == [] && staged == []
    {
      enabled := false;
      log := [];
      staged := [];
    }

    method Record(c: Change)
      requires Valid()
      modifies this`nextSeq, this`log, this`all
      ensures Valid() && View() == Recorded(old(View()), c)
      ensures all == if enabled then old(all) + [c] else old(all)
    {
      if !enabled {
        return;
      }
      RecordRetains(View(), all, c, 0);
      var number := nextSeq;
      nextSeq := nextSeq + 1;
      if |log| >= capacity {
        if |log| > 0 {
          log := log[1..];
        }
      }
      log := log + [ChangeEvent(number, c)];
      all := all + [c];
    }

    method Stage(c: Change)
      requires Valid()
      modifies this`staged
      ensures Valid() && View() == Staged(old(View()), [c])
    {
      if enabled {
        staged := staged + [c];
      }
    }

    method DiscardStagedFrom(mark: nat)
      requires Valid()
      modifies this`staged
      ensures Valid() && View() == Discarded(old(View()), mark)
    {
      if mark < |staged| {
        staged := staged[..mark];
      }
    }

    /** Publishes every staged change, in order, under consecutive numbers. */
    method PublishStaged()
      requires Valid()
      modifies this
      ensures Valid() && View() == Published(old(View()))
      ensures all == if enabled then old(all) + old(staged) else old(all)
    {
      var changes := staged;
      staged := [];
      ghost var f := View();
      for i := 0 to |changes|
        invariant Valid() && staged == [] && enabled == f.enabled
        invariant View() == RecordedAll(f, changes[..i])
        invariant all == if enabled then old(all) + changes[..i] else old(all)
      {
        assert changes[..i + 1][..i] == changes[..i];
        assert changes[..i + 1] == changes[..i] + [changes[i]];
        Record(changes[i]);
      }
      assert changes[..|changes|] == changes;
    }

    /** Every retained change after `since`. A consumer that has seen the first `since` changes
        gets exactly the rest if the first number it gets is the next one, and only then. */
    method ChangesSince(since: nat) returns (events: seq<ChangeEvent>)
      requires Valid()
      ensures forall i :: 0 <= i < |events| ==> events[i].number == nextSeq - |events| + i
      ensures |events| == if since >= nextSeq - 1 then 0 else if nextSeq - 1 - since < |log| then nextSeq - 1 - since else |log|
      ensures forall i :: 0 <= i < |events| ==> events[i].change == all[|all| - |events| + i]
      ensures events != [] ==> (events[0].number == since + 1 <==> |events| == |all| - since)
    {
      events := [];
      ghost var first := if since + 1 + |log| > nextSeq then since + 1 + |log| - nextSeq else 0;
      for i := 0 to |log|
        invariant events == if i <= first then [] else log[first..i]
      {
        if log[i].number > since {
          events := events + [log[i]];
        }
      }
    }

    method LatestSeq() returns (n: nat)
      requires Valid()
      ensures n == |all|
    {
      n := nextSeq - 1;
    }
  }
}
