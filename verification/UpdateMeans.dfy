/** What UPDATE stores and when it fails, said by columns and rows alone. */
module UpdateMeans {
  import opened Options
  import opened Results
  import opened Rows
  import opened Values
  import opened Cdc
  import opened Queries
  import opened Unique
  import opened Dml
  import opened Update

  // ---------------------------------------------------------------- one row

  lemma {:induction false} LastNaming(az: seq<Assignment>, name: string) returns (i: nat)
    requires Names(az, name)
    ensures i < |az| && az[i].column == name && !Names(az[i + 1..], name)
    decreases |az|
  {
    FirstOrRestNames(az, name);
    if Names(az[1..], name) {
      var j := LastNaming(az[1..], name);
      i := j + 1;
      assert az[1..][j + 1..] == az[i + 1..];
    } else {
      i := 0;
    }
  }

  /** The assignments leave no choice. */
  lemma {:induction false} AfterUnique(schema: Schema, az: seq<Assignment>, before: Row, x: Row, y: Row)
    requires RowAssigned(schema, az, before, x) && RowAssigned(schema, az, before, y)
    ensures x == y
  {
    forall p | 0 <= p < |before|
      ensures x[p] == y[p]
    {
      var name := schema.columns[p].name;
      assert ColumnAssigned(schema, az, p, before[p], x[p]) && ColumnAssigned(schema, az, p, before[p], y[p]);
      if Names(az, name) {
        var i := LastNaming(az, name);
      }
    }
  }

  ghost predicate CarriesKey(schema: Schema, row: Row, k: int) {
    var p := KeyColumn(schema.columns);
    p.Some? && p.value < |row| && row[p.value].Integer? && row[p.value].i == k
  }

  /** The row `k` cannot be updated: an assignment fails, or the key it would get is another row's. */
  ghost predicate CannotUpdate(schema: Schema, t: Table, az: seq<Assignment>, k: int, row: Row) {
    || (exists i, p: nat :: 0 <= i < |az| && BadAssignment(schema, az[i], p))
    || (exists l, after :: l != k && l in t && RowAssigned(schema, az, row, after) && CarriesKey(schema, after, l))
  }

  /** The plan refuses exactly the rows that cannot be updated. */
  lemma {:induction false} RefusesMeans(schema: Schema, t: Table, az: seq<Assignment>, k: int, row: Row)
    requires DistinctNames(schema.columns) && KeyColumn(schema.columns).Some? && RowOk(schema, k, row)
    ensures Refuses(schema, t, az, (k, row)) <==> CannotUpdate(schema, t, az, k, row)
  {
    var a := Assigned(schema, az, k, row);
    AssignedFails(schema, az, k, row);
    if a.Ok? {
      AssignedHolds(schema, az, k, row);
      AssignedOk(schema, az, k, row);
      assert CarriesKey(schema, a.value.1, a.value.0);
      forall l, after | RowAssigned(schema, az, row, after) && CarriesKey(schema, after, l)
        ensures l == a.value.0
      {
        AfterUnique(schema, az, row, after, a.value.1);
      }
    }
  }

  lemma {:induction false} AnyRefusesMeans(lib: Library, schema: Schema, t: Table, scan: seq<(int, Row)>, az: seq<Assignment>, clause: Option<seq<Condition>>)
    requires DistinctNames(schema.columns) && KeyColumn(schema.columns).Some? && WellKeyed(schema, t) && IsScan(t, scan)
    ensures AnyRefuses(schema, t, az, Filter(lib, schema, clause, scan)) <==>
            exists k :: k in t && Selected(lib, schema, clause, t[k]) && CannotUpdate(schema, t, az, k, t[k])
  {
    var rows := Filter(lib, schema, clause, scan);
    if AnyRefuses(schema, t, az, rows) {
      var i :| 0 <= i < |rows| && Refuses(schema, t, az, rows[i]);
      FilterHas(lib, schema, clause, scan, rows[i]);
      assert rows[i] in scan && rows[i].0 in t && t[rows[i].0] == rows[i].1;
      assert RowOk(schema, rows[i].0, t[rows[i].0]);
      RefusesMeans(schema, t, az, rows[i].0, rows[i].1);
    }
    if k :| k in t && Selected(lib, schema, clause, t[k]) && CannotUpdate(schema, t, az, k, t[k]) {
      FilterHas(lib, schema, clause, scan, (k, t[k]));
      var i := PlaceOf(rows, (k, t[k]));
      assert RowOk(schema, k, t[k]);
      RefusesMeans(schema, t, az, k, t[k]);
    }
  }

  // ---------------------------------------------------------------- all rows

  /** The form that the row under `k` takes: a selected one its assigned values, others their own. */
  ghost predicate Becomes(lib: Library, schema: Schema, t: Table, az: seq<Assignment>, clause: Option<seq<Condition>>, k: int, row: Row) {
    k in t && if Selected(lib, schema, clause, t[k]) then RowAssigned(schema, az, t[k], row) else row == t[k]
  }

  /** The updates are those of the selected rows, and each assigns its row. */
  ghost predicate Covers(lib: Library, schema: Schema, t: Table, az: seq<Assignment>, clause: Option<seq<Condition>>, us: seq<RowUpdate>) {
    && PlanOk(t, us)
    && (forall i :: 0 <= i < |us| ==> RowAssigned(schema, az, us[i].before, us[i].after) && Selected(lib, schema, clause, us[i].before))
    && (forall k :: k in t && Selected(lib, schema, clause, t[k]) ==> Touched(us, |us|, k))
  }

  lemma {:induction false} PlanCovers(lib: Library, schema: Schema, t: Table, scan: seq<(int, Row)>, az: seq<Assignment>, clause: Option<seq<Condition>>, rows: seq<(int, Row)>)
    requires DistinctNames(schema.columns) && WellKeyed(schema, t) && IsScan(t, scan)
    requires rows == Filter(lib, schema, clause, scan) && SomeOf(rows, t) && !AnyRefuses(schema, t, az, rows)
    ensures Covers(lib, schema, t, az, clause, PlanOf(schema, az, rows))
  {
    var us := PlanOf(schema, az, rows);
    PlanIsOk(schema, t, az, rows);
    forall i | 0 <= i < |us|
      ensures RowAssigned(schema, az, us[i].before, us[i].after) && Selected(lib, schema, clause, us[i].before)
    {
      assert !Refuses(schema, t, az, rows[i]) && us[i] == PlanFor(schema, az, rows[i]);
      assert RowOk(schema, rows[i].0, t[rows[i].0]);
      AssignedHolds(schema, az, rows[i].0, rows[i].1);
      FilterHas(lib, schema, clause, scan, rows[i]);
    }
    forall k | k in t && Selected(lib, schema, clause, t[k])
      ensures Touched(us, |us|, k)
    {
      FilterHas(lib, schema, clause, scan, (k, t[k]));
      var i := PlaceOf(rows, (k, t[k]));
      assert us[i] == PlanFor(schema, az, rows[i]);
      assert us[i].key == k;
    }
  }

  lemma {:induction false} TouchedIsSelected(lib: Library, schema: Schema, t: Table, az: seq<Assignment>, clause: Option<seq<Condition>>, us: seq<RowUpdate>, k: int)
    requires Covers(lib, schema, t, az, clause, us) && k in t
    ensures Touched(us, |us|, k) <==> Selected(lib, schema, clause, t[k])
    ensures !Touched(us, |us|, k) ==> !Made(us, |us|, k)
  {
    if Touched(us, |us|, k) {
      var i :| 0 <= i < |us| && us[i].key == k;
      assert us[i].before == t[k];
    }
  }

  // ---------------------------------------------------------------- what it stores

  /** Where the row under `k` goes. */
  lemma {:induction false} GoesTo(lib: Library, schema: Schema, t: Table, az: seq<Assignment>, clause: Option<seq<Condition>>, us: seq<RowUpdate>, t': Table, k: int) returns (k': int)
    requires Covers(lib, schema, t, az, clause, us) && NewKeysDiffer(us, |us|) && t' == Applied(t, us, |us|) && k in t
    ensures k' in t' && Becomes(lib, schema, t, az, clause, k, t'[k'])
    ensures !Selected(lib, schema, clause, t[k]) ==> k' == k
    ensures (forall i :: 0 <= i < |us| ==> us[i].newKey == us[i].key) ==> k' == k
  {
    TouchedIsSelected(lib, schema, t, az, clause, us, k);
    if Touched(us, |us|, k) {
      var i :| 0 <= i < |us| && us[i].key == k;
      k' := us[i].newKey;
      assert Made(us, |us|, k');
      AppliedKey(t, us, |us|, k');
      var j :| 0 <= j < |us| && us[j].newKey == k' && us[j].after == t'[k'];
      assert j == i;
    } else {
      k' := k;
      AppliedKey(t, us, |us|, k);
    }
  }

  /** Where the row under `k` came from. */
  lemma {:induction false} CameFrom(lib: Library, schema: Schema, t: Table, az: seq<Assignment>, clause: Option<seq<Condition>>, us: seq<RowUpdate>, t': Table, k: int) returns (from: int)
    requires Covers(lib, schema, t, az, clause, us) && NewKeysDiffer(us, |us|) && t' == Applied(t, us, |us|) && k in t'
    ensures Becomes(lib, schema, t, az, clause, from, t'[k])
    ensures !Selected(lib, schema, clause, t[from]) ==> from == k
    ensures (forall i :: 0 <= i < |us| ==> us[i].newKey == us[i].key) ==> from == k
  {
    var i: int;
    from, i := SourceOf(t, us, t', k);
    TouchedIsSelected(lib, schema, t, az, clause, us, from);
    if i != -1 {
      assert us[i].key == from;
      assert Touched(us, |us|, from);
    }
  }

  /** The row under `k` is found under `k'` in its form: in its place, unless its key is assigned. */
  ghost predicate MovesTo(lib: Library, schema: Schema, t: Table, az: seq<Assignment>, clause: Option<seq<Condition>>, t': Table, k: int, k': int) {
    && k' in t' && Becomes(lib, schema, t, az, clause, k, t'[k'])
    && (k' == k || (Selected(lib, schema, clause, t[k]) && AssignsKey(schema, az)))
  }

  lemma {:induction false} CoveredStores(lib: Library, schema: Schema, t: Table, az: seq<Assignment>, clause: Option<seq<Condition>>, us: seq<RowUpdate>, t': Table)
    requires Covers(lib, schema, t, az, clause, us) && NewKeysDiffer(us, |us|) && t' == Applied(t, us, |us|)
    requires !AssignsKey(schema, az) ==> forall i :: 0 <= i < |us| ==> us[i].newKey == us[i].key
    ensures forall k :: k in t ==> exists k' :: MovesTo(lib, schema, t, az, clause, t', k, k')
    ensures forall k' :: k' in t' ==> exists k :: MovesTo(lib, schema, t, az, clause, t', k, k')
  {
    forall k | k in t
      ensures exists k' :: MovesTo(lib, schema, t, az, clause, t', k, k')
    {
      var k' := GoesTo(lib, schema, t, az, clause, us, t', k);
      assert MovesTo(lib, schema, t, az, clause, t', k, k');
    }
    forall k' | k' in t'
      ensures exists k :: MovesTo(lib, schema, t, az, clause, t', k, k')
    {
      var k := CameFrom(lib, schema, t, az, clause, us, t', k');
      assert MovesTo(lib, schema, t, az, clause, t', k, k');
    }
  }

  /** An UPDATE that goes through stores every row in its form and nothing else: unselected rows
      stay where they are, and so do all rows unless the key is assigned. */
  lemma {:induction false} UpdateStores(lib: Library, schema: Schema, t: Table, scan: seq<(int, Row)>, az: seq<Assignment>, clause: Option<seq<Condition>>, out: Outcome)
    requires DistinctNames(schema.columns) && WellKeyed(schema, t) && IsScan(t, scan) && Updates(lib, schema, t, scan, az, clause, out) && out.Done?
    ensures forall k :: k in t ==> exists k' :: MovesTo(lib, schema, t, az, clause, out.table, k, k')
    ensures forall k' :: k' in out.table ==> exists k :: MovesTo(lib, schema, t, az, clause, out.table, k, k')
  {
    var rows := Chosen(lib, schema, t, scan, clause);
    FastPathExact(lib, schema, t, scan, clause);
    ChosenSub(lib, schema, clause, scan, t);
    PlanCovers(lib, schema, t, scan, az, clause, rows);
    KeysStay(schema, t, az, rows);
    CoveredStores(lib, schema, t, az, clause, PlanOf(schema, az, rows), out.table);
  }

  lemma {:induction false} KeysStay(schema: Schema, t: Table, az: seq<Assignment>, rows: seq<(int, Row)>)
    requires WellKeyed(schema, t) && SomeOf(rows, t) && !AnyRefuses(schema, t, az, rows)
    ensures var us := PlanOf(schema, az, rows); !AssignsKey(schema, az) ==> forall i :: 0 <= i < |us| ==> us[i].newKey == us[i].key
  {
    PlanIsKeyed(schema, t, az, rows);
    var us := PlanOf(schema, az, rows);
    assert forall i :: 0 <= i < |us| ==> UpdateKeeps(schema, az, us[i]);
  }

  // ---------------------------------------------------------------- when it fails

  ghost predicate KeysIncrease(rows: seq<(int, Row)>) {
    forall i, j :: 0 <= i < j < |rows| ==> rows[i].0 < rows[j].0
  }

  lemma {:induction false} UntouchedIncreasing(scan: seq<(int, Row)>, keys: set<int>)
    requires KeysIncrease(scan)
    ensures KeysIncrease(Untouched(scan, keys))
    decreases |scan|
  {
    if scan != [] {
      var front, last := scan[..|scan| - 1], scan[|scan| - 1];
      UntouchedIncreasing(front, keys);
      var rest := Untouched(front, keys);
      forall i | 0 <= i < |rest|
        ensures rest[i].0 < last.0
      {
        assert rest[i] in rest;
        var j := PlaceOf(front, rest[i]);
        assert scan[j] == rest[i];
      }
      OneMoreKey(rest, last);
    }
  }

  lemma {:induction false} OneMoreKey(rows: seq<(int, Row)>, last: (int, Row))
    requires KeysIncrease(rows) && forall i :: 0 <= i < |rows| ==> rows[i].0 < last.0
    ensures KeysIncrease(rows + [last])
  {
  }

  /** `rest` are the rows that the updates leave alone. */
  ghost predicate LeftAlone(t: Table, us: seq<RowUpdate>, rest: seq<(int, Row)>) {
    && KeysIncrease(rest)
    && (forall i :: 0 <= i < |rest| ==> rest[i].0 in t && t[rest[i].0] == rest[i].1 && !Touched(us, |us|, rest[i].0))
    && (forall k :: k in t && !Touched(us, |us|, k) ==> (k, t[k]) in rest)
  }

  lemma {:induction false} UntouchedLeft(t: Table, scan: seq<(int, Row)>, us: seq<RowUpdate>)
    requires IsScan(t, scan)
    ensures LeftAlone(t, us, Untouched(scan, KeysOf(us)))
  {
    var rest := Untouched(scan, KeysOf(us));
    UntouchedIncreasing(scan, KeysOf(us));
    forall k
      ensures Touched(us, |us|, k) <==> k in KeysOf(us)
    {
    }
    forall i | 0 <= i < |rest|
      ensures rest[i].0 in t && t[rest[i].0] == rest[i].1 && !Touched(us, |us|, rest[i].0)
    {
      assert rest[i] in rest && rest[i] in scan;
    }
    forall k | k in t && !Touched(us, |us|, k)
      ensures (k, t[k]) in rest
    {
      assert (k, t[k]) in scan;
    }
  }

  /** Position `i` of the final rows holds the form of the row under `k`. */
  ghost predicate StandsFor(rest: seq<(int, Row)>, us: seq<RowUpdate>, i: int, k: int) {
    0 <= i < |rest| + |us| && k == if i < |rest| then rest[i].0 else us[i - |rest|].key
  }

  lemma {:induction false} StandIn(lib: Library, schema: Schema, t: Table, az: seq<Assignment>, clause: Option<seq<Condition>>, us: seq<RowUpdate>, rest: seq<(int, Row)>, i: nat) returns (k: int)
    requires Covers(lib, schema, t, az, clause, us) && LeftAlone(t, us, rest) && i < |rest| + |us|
    ensures StandsFor(rest, us, i, k) && Becomes(lib, schema, t, az, clause, k, (rest + NewRows(us))[i].1)
  {
    if i < |rest| {
      k := rest[i].0;
      TouchedIsSelected(lib, schema, t, az, clause, us, k);
    } else {
      var j := i - |rest|;
      k := us[j].key;
      assert us[j].before == t[k];
    }
  }

  lemma {:induction false} OthersDiffer(t: Table, us: seq<RowUpdate>, rest: seq<(int, Row)>, i: int, k: int, j: int, l: int)
    requires PlanOk(t, us) && LeftAlone(t, us, rest) && StandsFor(rest, us, i, k) && StandsFor(rest, us, j, l) && i < j
    ensures k != l
  {
    if i < |rest| <= j {
      assert us[j - |rest|].key == l;
      assert Touched(us, |us|, l);
    }
  }

  lemma {:induction false} HasStandIn(t: Table, us: seq<RowUpdate>, rest: seq<(int, Row)>, k: int) returns (i: nat)
    requires LeftAlone(t, us, rest) && k in t
    ensures StandsFor(rest, us, i, k)
  {
    if Touched(us, |us|, k) {
      var j :| 0 <= j < |us| && us[j].key == k;
      i := |rest| + j;
    } else {
      i := PlaceOf(rest, (k, t[k]));
    }
  }

  /** Two of the rows, in the form they take, share a value in a UNIQUE column that is assigned. */
  ghost predicate WouldShare(lib: Library, schema: Schema, t: Table, az: seq<Assignment>, clause: Option<seq<Condition>>, ci: nat, k: int, x: Row, l: int, y: Row) {
    && k != l && Becomes(lib, schema, t, az, clause, k, x) && Becomes(lib, schema, t, az, clause, l, y)
    && ci < |schema.columns| && Names(az, schema.columns[ci].name) && Share(lib, schema, ci, x, y)
  }

  lemma {:induction false} ClashIsShared(lib: Library, schema: Schema, t: Table, az: seq<Assignment>, clause: Option<seq<Condition>>, us: seq<RowUpdate>, rest: seq<(int, Row)>, fin: seq<(int, Row)>, ci: nat, i: nat, j: nat)
    requires Covers(lib, schema, t, az, clause, us) && LeftAlone(t, us, rest) && fin == rest + NewRows(us) && i < j < |fin|
    requires IsUniqueColumn(schema, ci) && Names(az, schema.columns[ci].name) && Clash(lib, fin[i].1, fin[j].1, ci)
    ensures exists k, x, l, y :: WouldShare(lib, schema, t, az, clause, ci, k, x, l, y)
  {
    var k := StandIn(lib, schema, t, az, clause, us, rest, i);
    var l := StandIn(lib, schema, t, az, clause, us, rest, j);
    OthersDiffer(t, us, rest, i, k, j, l);
    ShareIsClash(lib, schema, ci, fin[i].1, fin[j].1);
    assert WouldShare(lib, schema, t, az, clause, ci, k, fin[i].1, l, fin[j].1);
  }

  lemma {:induction false} FormIsFinal(lib: Library, schema: Schema, t: Table, az: seq<Assignment>, clause: Option<seq<Condition>>, us: seq<RowUpdate>, rest: seq<(int, Row)>, k: int, x: Row) returns (i: nat)
    requires Covers(lib, schema, t, az, clause, us) && LeftAlone(t, us, rest) && Becomes(lib, schema, t, az, clause, k, x)
    ensures StandsFor(rest, us, i, k) && (rest + NewRows(us))[i].1 == x
  {
    i := HasStandIn(t, us, rest, k);
    var l := StandIn(lib, schema, t, az, clause, us, rest, i);
    if Selected(lib, schema, clause, t[k]) {
      AfterUnique(schema, az, t[k], x, (rest + NewRows(us))[i].1);
    }
  }

  lemma {:induction false} SharedIsClash(lib: Library, schema: Schema, t: Table, az: seq<Assignment>, clause: Option<seq<Condition>>, us: seq<RowUpdate>, rest: seq<(int, Row)>, fin: seq<(int, Row)>, ci: nat, k: int, x: Row, l: int, y: Row)
    requires Covers(lib, schema, t, az, clause, us) && LeftAlone(t, us, rest) && fin == rest + NewRows(us)
    requires WouldShare(lib, schema, t, az, clause, ci, k, x, l, y)
    ensures IsUniqueColumn(schema, ci) && ClashAmong(lib, RowsOf(fin), ci)
  {
    var i := FormIsFinal(lib, schema, t, az, clause, us, rest, k, x);
    var j := FormIsFinal(lib, schema, t, az, clause, us, rest, l, y);
    ShareIsClash(lib, schema, ci, x, y);
    ClashFlip(lib, x, y, ci);
    TwoClash(lib, RowsOf(fin), i, j, ci);
  }

  lemma {:induction false} TwoClash(lib: Library, rows: seq<Row>, i: nat, j: nat, ci: nat)
    requires i < |rows| && j < |rows| && i != j && Clash(lib, rows[i], rows[j], ci) && Clash(lib, rows[j], rows[i], ci)
    ensures ClashAmong(lib, rows, ci)
  {
    assert i < j || j < i;
  }

  lemma {:induction false} WouldClashMeans(lib: Library, schema: Schema, t: Table, scan: seq<(int, Row)>, az: seq<Assignment>, clause: Option<seq<Condition>>, us: seq<RowUpdate>)
    requires IsScan(t, scan) && Covers(lib, schema, t, az, clause, us)
    ensures WouldClash(lib, schema, scan, az, us) <==>
            && (exists k :: k in t && Selected(lib, schema, clause, t[k]))
            && exists ci: nat, k, x, l, y :: WouldShare(lib, schema, t, az, clause, ci, k, x, l, y)
  {
    var rest, fin := Untouched(scan, KeysOf(us)), FinalRows(scan, us);
    UntouchedLeft(t, scan, us);
    if us != [] {
      assert us[0].key in t && Selected(lib, schema, clause, t[us[0].key]);
    }
    if WouldClash(lib, schema, scan, az, us) {
      var ci: nat :| IsUniqueColumn(schema, ci) && Names(az, schema.columns[ci].name) && ClashAmong(lib, RowsOf(fin), ci);
      var i, j :| 0 <= i < j < |RowsOf(fin)| && Clash(lib, RowsOf(fin)[i], RowsOf(fin)[j], ci);
      ClashIsShared(lib, schema, t, az, clause, us, rest, fin, ci, i, j);
    }
    if us != [] {
      forall ci: nat, k, x, l, y | WouldShare(lib, schema, t, az, clause, ci, k, x, l, y)
        ensures WouldClash(lib, schema, scan, az, us)
      {
        SharedIsClash(lib, schema, t, az, clause, us, rest, fin, ci, k, x, l, y);
      }
    }
  }

  /** An UPDATE on rows that carry their keys fails exactly when the table has no key, a selected
      row cannot be updated, or a row is selected and two rows, in the form they take, share a
      value in an assigned UNIQUE column. */
  lemma {:induction false} UpdateFails(lib: Library, schema: Schema, t: Table, scan: seq<(int, Row)>, az: seq<Assignment>, clause: Option<seq<Condition>>, out: Outcome)
    requires DistinctNames(schema.columns) && WellKeyed(schema, t) && IsScan(t, scan) && Updates(lib, schema, t, scan, az, clause, out)
    ensures out.Failed? <==>
            || KeyColumn(schema.columns).None?
            || (exists k :: k in t && Selected(lib, schema, clause, t[k]) && CannotUpdate(schema, t, az, k, t[k]))
            || ((exists k :: k in t && Selected(lib, schema, clause, t[k]))
                && exists ci: nat, k, x, l, y :: WouldShare(lib, schema, t, az, clause, ci, k, x, l, y))
  {
    var rows := Chosen(lib, schema, t, scan, clause);
    FastPathExact(lib, schema, t, scan, clause);
    ChosenSub(lib, schema, clause, scan, t);
    if KeyColumn(schema.columns).Some? {
      AnyRefusesMeans(lib, schema, t, scan, az, clause);
      if !AnyRefuses(schema, t, az, rows) {
        PlanCovers(lib, schema, t, scan, az, clause, rows);
        WouldClashMeans(lib, schema, t, scan, az, clause, PlanOf(schema, az, rows));
      }
    }
  }
}
