/** Write groups in the log: which of them a reader finds committed. */
module WalGroups {
  import opened Results
  import opened Bytes
  import opened Ordered
  import opened Wal

  // ---------------------------------------------------------------- collecting groups

  /** A record that the reader rejects as corruption. */
  predicate Malformed(r: Record) {
    (r.kind == REC_PAGE_WRITE && |r.payload| < 8 + PAGE_SIZE) || (r.kind != REC_PAGE_WRITE && r.kind != REC_COMMIT)
  }

  function WriteOf(r: Record): PageWrite
    requires !Malformed(r) && r.kind == REC_PAGE_WRITE
  {
    PageWrite(U64At(r.payload, 0), r.payload[8..8 + PAGE_SIZE])
  }

  ghost predicate AllFormed(rs: seq<Record>) {
    forall i :: 0 <= i < |rs| ==> !Malformed(rs[i])
  }

  /** The page writes of group `g` that no COMMIT of `g` has followed yet. */
  ghost function OwnWrites(rs: seq<Record>, g: U64): seq<PageWrite>
    requires AllFormed(rs)
  {
    if rs == [] then []
    else
      var last, before := rs[|rs| - 1], OwnWrites(rs[..|rs| - 1], g);
      if last.group != g then before
      else if last.kind == REC_PAGE_WRITE then before + [WriteOf(last)]
      else []
  }

  /** One group per COMMIT record, in log order, each with its own writes. */
  ghost function CommittedOf(rs: seq<Record>): seq<Group>
    requires AllFormed(rs)
  {
    if rs == [] then []
    else
      var last, before := rs[|rs| - 1], CommittedOf(rs[..|rs| - 1]);
      if last.kind == REC_COMMIT then before + [Group(last.group, OwnWrites(rs[..|rs| - 1], last.group))] else before
  }

  function PendingOf(pending: map<U64, seq<PageWrite>>, g: U64): seq<PageWrite> {
    if g in pending then pending[g] else []
  }

  /** The second pass of the reader, with its map from group ids to writes seen so far. */
  method CollectGroups(records: seq<Record>) returns (res: Result<seq<Group>>)
    ensures res.Ok? <==> AllFormed(records)
    ensures res.Ok? ==> res.value == CommittedOf(records)
  {
    var pending: map<U64, seq<PageWrite>> := map[];
    var committed: seq<Group> := [];
    for i := 0 to |records|
      invariant AllFormed(records[..i])
      invariant forall g :: PendingOf(pending, g) == OwnWrites(records[..i], g)
      invariant committed == CommittedOf(records[..i])
    {
      var rec := records[i];
      if Malformed(rec) {
        return Err(Corruption);
      }
      assert records[..i + 1][..i] == records[..i];
      if rec.kind == REC_PAGE_WRITE {
        pending := pending[rec.group := PendingOf(pending, rec.group) + [WriteOf(rec)]];
      } else {
        committed := committed + [Group(rec.group, PendingOf(pending, rec.group))];
        pending := pending - {rec.group};
      }
    }
    assert records[..|records|] == records;
    return Ok(committed);
  }

  // ---------------------------------------------------------------- what the two passes find

  /** The reader accepts COMMIT records, and page writes whatever follows them in the payload, and
      takes them for what was written. */
  lemma {:induction false} FormedIs(r: Record)
    ensures !Malformed(r) <==> r.kind == REC_COMMIT || exists w, more :: r == Record(REC_PAGE_WRITE, r.group, WriteRecord(r.group, w).payload + more)
    ensures forall w, more :: r == Record(REC_PAGE_WRITE, r.group, WriteRecord(r.group, w).payload + more) ==> !Malformed(r) && WriteOf(r) == w
  {
    forall w, more | r == Record(REC_PAGE_WRITE, r.group, WriteRecord(r.group, w).payload + more)
      ensures !Malformed(r) && WriteOf(r) == w
    {
      WriteRecordRoundTrip(r.group, w);
      var p := WriteRecord(r.group, w).payload;
      assert (p + more)[0..8] == p[0..8] && (p + more)[8..8 + PAGE_SIZE] == p[8..8 + PAGE_SIZE];
    }
    if !Malformed(r) && r.kind == REC_PAGE_WRITE {
      var w, more := WriteOf(r), r.payload[8 + PAGE_SIZE..];
      LEInverse(r.payload[0..8]);
      assert r.payload == r.payload[0..8] + r.payload[8..8 + PAGE_SIZE] + more;
      assert r == Record(REC_PAGE_WRITE, r.group, WriteRecord(r.group, w).payload + more);
    }
  }

  /** Record `i` writes a page for group `g`, and no COMMIT of `g` comes after it. */
  ghost predicate OpenWrite(rs: seq<Record>, g: U64, i: nat) {
    && i < |rs| && rs[i].group == g && rs[i].kind == REC_PAGE_WRITE
    && forall j :: i < j < |rs| && rs[j].group == g ==> rs[j].kind != REC_COMMIT
  }

  /** The positions `ix` are those of the open writes of `g`, in order. */
  ghost predicate ListsOpen(rs: seq<Record>, g: U64, ix: seq<nat>) {
    Increasing(ix) && (forall k :: 0 <= k < |ix| ==> OpenWrite(rs, g, ix[k])) && (forall i: nat :: OpenWrite(rs, g, i) ==> i in ix)
  }

  ghost predicate WritesAt(rs: seq<Record>, ix: seq<nat>, ws: seq<PageWrite>) {
    && |ws| == |ix|
    && forall k :: 0 <= k < |ix| ==> ix[k] < |rs| && rs[ix[k]].kind == REC_PAGE_WRITE && !Malformed(rs[ix[k]]) && ws[k] == WriteOf(rs[ix[k]])
  }

  lemma {:induction false} OpenStep(front: seq<Record>, last: Record, g: U64, i: nat)
    ensures OpenWrite(front + [last], g, i) <==>
            if i == |front| then last.group == g && last.kind == REC_PAGE_WRITE
            else OpenWrite(front, g, i) && !(last.group == g && last.kind == REC_COMMIT)
  {
    var rs := front + [last];
    assert rs[|front|] == last && forall j :: 0 <= j < |front| ==> rs[j] == front[j];
  }

  lemma {:induction false} ListsStep(front: seq<Record>, last: Record, g: U64, ix: seq<nat>)
    requires ListsOpen(front, g, ix)
    ensures last.group == g && last.kind == REC_PAGE_WRITE ==> ListsOpen(front + [last], g, ix + [|front|])
    ensures last.group == g && last.kind == REC_COMMIT ==> ListsOpen(front + [last], g, [])
    ensures last.group != g ==> ListsOpen(front + [last], g, ix)
  {
    forall i: nat
      ensures OpenWrite(front + [last], g, i) <==>
              if i == |front| then last.group == g && last.kind == REC_PAGE_WRITE
              else OpenWrite(front, g, i) && !(last.group == g && last.kind == REC_COMMIT)
    {
      OpenStep(front, last, g, i);
    }
    assert forall k :: 0 <= k < |ix| ==> OpenWrite(front, g, ix[k]) && ix[k] < |front|;
  }

  lemma {:induction false} WritesAtStep(front: seq<Record>, last: Record, ix: seq<nat>, ws: seq<PageWrite>)
    requires WritesAt(front, ix, ws)
    ensures WritesAt(front + [last], ix, ws)
    ensures last.kind == REC_PAGE_WRITE && !Malformed(last) ==> WritesAt(front + [last], ix + [|front|], ws + [WriteOf(last)])
  {
    var rs := front + [last];
    assert rs[|front|] == last;
    forall k | 0 <= k < |ix|
      ensures ix[k] < |rs| && rs[ix[k]] == front[ix[k]]
    {
    }
  }

  /** The writes `ws` are those that the records leave open for `g`, in log order. */
  ghost predicate AreOpen(rs: seq<Record>, g: U64, ws: seq<PageWrite>) {
    exists ix :: ListsOpen(rs, g, ix) && WritesAt(rs, ix, ws)
  }

  /** However the records of groups interleave, what is pending for a group is exactly its open
      writes, in log order. */
  lemma {:induction false} OwnWritesAre(rs: seq<Record>, g: U64)
    requires AllFormed(rs)
    ensures AreOpen(rs, g, OwnWrites(rs, g))
    decreases |rs|
  {
    if rs == [] {
      assert ListsOpen(rs, g, []) && WritesAt(rs, [], []);
    } else {
      var last, front := rs[|rs| - 1], rs[..|rs| - 1];
      OwnWritesAre(front, g);
      var ix :| ListsOpen(front, g, ix) && WritesAt(front, ix, OwnWrites(front, g));
      assert rs == front + [last];
      ListsStep(front, last, g, ix);
      WritesAtStep(front, last, ix, OwnWrites(front, g));
      if last.group == g && last.kind == REC_COMMIT {
        assert ListsOpen(rs, g, []) && WritesAt(rs, [], []);
      }
    }
  }

  /** Record `i` is a COMMIT, and `g` is the group with the writes that were open for it there. */
  ghost predicate CommitAt(rs: seq<Record>, i: nat, g: Group) {
    i < |rs| && rs[i].kind == REC_COMMIT && g.id == rs[i].group && AreOpen(rs[..i], g.id, g.writes)
  }

  /** The positions `ix` are those of the COMMIT records, in order, and the groups are theirs. */
  ghost predicate CommitsAt(rs: seq<Record>, ix: seq<nat>, gs: seq<Group>) {
    && Increasing(ix) && |gs| == |ix|
    && (forall i: nat :: i < |rs| && rs[i].kind == REC_COMMIT ==> i in ix)
    && forall k :: 0 <= k < |ix| ==> CommitAt(rs, ix[k], gs[k])
  }

  lemma {:induction false} CommitStays(front: seq<Record>, last: Record, i: nat, g: Group)
    requires CommitAt(front, i, g)
    ensures CommitAt(front + [last], i, g)
  {
    assert (front + [last])[..i] == front[..i];
  }

  lemma {:induction false} CommitsStep(front: seq<Record>, last: Record, ix: seq<nat>, gs: seq<Group>, own: seq<PageWrite>)
    requires CommitsAt(front, ix, gs) && AreOpen(front, last.group, own)
    ensures last.kind != REC_COMMIT ==> CommitsAt(front + [last], ix, gs)
    ensures last.kind == REC_COMMIT ==> CommitsAt(front + [last], ix + [|front|], gs + [Group(last.group, own)])
  {
    var rs := front + [last];
    assert rs[|front|] == last && rs[..|front|] == front && forall i :: 0 <= i < |front| ==> rs[i] == front[i];
    forall k | 0 <= k < |ix|
      ensures CommitAt(rs, ix[k], gs[k]) && ix[k] < |front|
    {
      CommitStays(front, last, ix[k], gs[k]);
    }
    if last.kind == REC_COMMIT {
      assert CommitAt(rs, |front|, Group(last.group, own));
    }
  }

  /** One group for every COMMIT record and no other, in log order, each with the writes that were
      open for it there. */
  lemma {:induction false} CommittedAre(rs: seq<Record>) returns (ix: seq<nat>)
    requires AllFormed(rs)
    ensures CommitsAt(rs, ix, CommittedOf(rs))
    decreases |rs|
  {
    if rs == [] {
      ix := [];
    } else {
      var last, front := rs[|rs| - 1], rs[..|rs| - 1];
      ix := CommittedAre(front);
      assert rs == front + [last];
      OwnWritesAre(front, last.group);
      CommitsStep(front, last, ix, CommittedOf(front), OwnWrites(front, last.group));
      ix := if last.kind == REC_COMMIT then ix + [|front|] else ix;
    }
  }

  /** Nothing is left pending after `a`, so what follows is read as if it stood alone. */
  lemma {:induction false} CommittedAppend(a: seq<Record>, b: seq<Record>)
    requires AllFormed(a) && AllFormed(b) && (forall g :: OwnWrites(a, g) == [])
    ensures AllFormed(a + b)
    ensures forall g :: OwnWrites(a + b, g) == OwnWrites(b, g)
    ensures CommittedOf(a + b) == CommittedOf(a) + CommittedOf(b)
    decreases |b|
  {
    if b == [] {
      assert a + b == a;
    } else {
      var b' := b[..|b| - 1];
      CommittedAppend(a, b');
      assert (a + b)[..|a + b| - 1] == a + b';
    }
  }

  // ---------------------------------------------------------------- writing groups

  function WriteRecord(g: U64, w: PageWrite): (r: Record)
    ensures ShortPayload(r) && !Malformed(r)
  {
    Record(REC_PAGE_WRITE, g, ToLE(w.page, 8) + w.data)
  }

  function CommitRecord(g: U64): Record {
    Record(REC_COMMIT, g, [])
  }

  lemma {:induction false} WriteRecordRoundTrip(g: U64, w: PageWrite)
    ensures WriteOf(WriteRecord(g, w)) == w
  {
    var p := WriteRecord(g, w).payload;
    assert p[0..8] == ToLE(w.page, 8);
    assert p[8..8 + PAGE_SIZE] == w.data;
    U64RoundTrip(w.page);
  }

  ghost function WriteRecords(g: U64, ws: seq<PageWrite>): (rs: seq<Record>)
    ensures |rs| == |ws| && AllShort(rs) && AllFormed(rs)
    ensures forall i :: 0 <= i < |rs| ==> rs[i] == WriteRecord(g, ws[i])
  {
    seq(|ws|, i requires 0 <= i < |ws| => WriteRecord(g, ws[i]))
  }

  ghost function RecordsOf(g: Group): (rs: seq<Record>)
    ensures AllShort(rs) && AllFormed(rs)
  {
    WriteRecords(g.id, g.writes) + [CommitRecord(g.id)]
  }

  ghost function EncodeGroup(crc: Crc, g: Group): seq<byte> {
    EncodeAll(crc, RecordsOf(g))
  }

  ghost function EncodeGroups(crc: Crc, gs: seq<Group>): seq<byte> {
    if gs == [] then [] else EncodeGroup(crc, gs[0]) + EncodeGroups(crc, gs[1..])
  }

  /** The groups a reader finds in the log file `buf`. */
  ghost function Recovered(crc: Crc, buf: seq<byte>): seq<Group> {
    if AllFormed(Parse(crc, buf)) then CommittedOf(Parse(crc, buf)) else []
  }

  /** Writes without their COMMIT commit nothing; with it, exactly their group. */
  lemma {:induction false} WritesPending(g: U64, ws: seq<PageWrite>, h: U64)
    ensures CommittedOf(WriteRecords(g, ws)) == []
    ensures OwnWrites(WriteRecords(g, ws), h) == if h == g then ws else []
    decreases |ws|
  {
    if ws != [] {
      var ws' := ws[..|ws| - 1];
      WritesPending(g, ws', h);
      assert WriteRecords(g, ws)[..|ws| - 1] == WriteRecords(g, ws');
      WriteRecordRoundTrip(g, ws[|ws| - 1]);
      assert ws == ws' + [ws[|ws| - 1]];
    }
  }

  lemma {:induction false} GroupCommits(g: Group)
    ensures CommittedOf(RecordsOf(g)) == [g]
    ensures forall h :: OwnWrites(RecordsOf(g), h) == []
  {
    var rs := RecordsOf(g);
    assert rs[..|rs| - 1] == WriteRecords(g.id, g.writes);
    forall h
      ensures OwnWrites(rs, h) == []
    {
      WritesPending(g.id, g.writes, h);
    }
    WritesPending(g.id, g.writes, g.id);
  }

  lemma {:induction false} WholeBelow(crc: Crc, rs: seq<Record>, k: nat)
    requires AllShort(rs) && k < |EncodeAll(crc, rs)|
    ensures WholeRecords(crc, rs, k) < |rs|
    decreases |rs|
  {
    var n := |EncodeRecord(crc, rs[0])|;
    if n <= k {
      WholeBelow(crc, rs[1..], k - n);
    }
  }

  /** A group cut off anywhere, even within its COMMIT record, is not found. */
  lemma {:induction false} TornGroup(crc: Crc, g: Group, k: nat)
    requires k < |EncodeGroup(crc, g)|
    ensures Finds(crc, EncodeGroup(crc, g)[..k], [])
  {
    var rs := RecordsOf(g);
    ParsePrefix(crc, rs, k);
    WholeBelow(crc, rs, k);
    var w := WholeRecords(crc, rs, k);
    assert rs[..w] == WriteRecords(g.id, g.writes[..w]);
    WritesPending(g.id, g.writes[..w], g.id);
  }

  /** The number of groups whose encoding, COMMIT included, lies within the first `k` bytes. */
  ghost function WholeGroups(crc: Crc, gs: seq<Group>, k: nat): (n: nat)
    ensures n <= |gs|
  {
    if gs == [] || k < |EncodeGroup(crc, gs[0])| then 0
    else 1 + WholeGroups(crc, gs[1..], k - |EncodeGroup(crc, gs[0])|)
  }

  /** A reader of `buf` meets no corruption and finds exactly `gs`. */
  ghost predicate Finds(crc: Crc, buf: seq<byte>, gs: seq<Group>) {
    AllFormed(Parse(crc, buf)) && CommittedOf(Parse(crc, buf)) == gs
  }

  /** A whole group in front is found, whatever follows. */
  lemma {:induction false} GroupFound(crc: Crc, g: Group, rest: seq<byte>, gs: seq<Group>)
    requires Finds(crc, rest, gs)
    ensures Finds(crc, EncodeGroup(crc, g) + rest, [g] + gs)
  {
    ParseAll(crc, RecordsOf(g), rest);
    GroupCommits(g);
    CommittedAppend(RecordsOf(g), Parse(crc, rest));
  }

  lemma {:induction false} PrefixOfSum(b: seq<byte>, rest: seq<byte>, k: nat)
    requires k <= |b| + |rest|
    ensures k < |b| ==> (b + rest)[..k] == b[..k]
    ensures |b| <= k ==> (b + rest)[..k] == b + rest[..k - |b|]
  {
  }

  lemma {:induction false} PrefixFinds(crc: Crc, gs: seq<Group>, k: nat)
    requires k <= |EncodeGroups(crc, gs)|
    ensures Finds(crc, EncodeGroups(crc, gs)[..k], gs[..WholeGroups(crc, gs, k)])
    decreases |gs|
  {
    if gs == [] {
      NothingFound(crc);
    } else {
      var b := EncodeGroup(crc, gs[0]);
      if k < |b| {
        FirstIsTorn(crc, gs, k);
      } else {
        PrefixFinds(crc, gs[1..], k - |b|);
        FirstIsWhole(crc, gs, EncodeGroups(crc, gs[1..]), k, WholeGroups(crc, gs[1..], k - |b|));
      }
    }
  }

  lemma {:induction false} FirstIsTorn(crc: Crc, gs: seq<Group>, k: nat)
    requires gs != [] && k < |EncodeGroup(crc, gs[0])|
    ensures Finds(crc, EncodeGroups(crc, gs)[..k], gs[..WholeGroups(crc, gs, k)])
  {
    PrefixOfSum(EncodeGroup(crc, gs[0]), EncodeGroups(crc, gs[1..]), k);
    TornGroup(crc, gs[0], k);
    assert gs[..0] == [];
  }

  lemma {:induction false} FirstIsWhole(crc: Crc, gs: seq<Group>, rest: seq<byte>, k: nat, w: nat)
    requires gs != [] && w < |gs| && |EncodeGroup(crc, gs[0])| <= k <= |EncodeGroup(crc, gs[0])| + |rest|
    requires Finds(crc, rest[..k - |EncodeGroup(crc, gs[0])|], gs[1..][..w])
    ensures Finds(crc, (EncodeGroup(crc, gs[0]) + rest)[..k], gs[..1 + w])
  {
    FoundInFront(crc, gs[0], rest, k, gs[1..][..w]);
    FirstOf(gs, w);
  }

  lemma {:induction false} FoundInFront(crc: Crc, g: Group, rest: seq<byte>, k: nat, gs: seq<Group>)
    requires |EncodeGroup(crc, g)| <= k <= |EncodeGroup(crc, g)| + |rest| && Finds(crc, rest[..k - |EncodeGroup(crc, g)|], gs)
    ensures Finds(crc, (EncodeGroup(crc, g) + rest)[..k], [g] + gs)
  {
    var b := EncodeGroup(crc, g);
    PrefixOfSum(b, rest, k);
    GroupFound(crc, g, rest[..k - |b|], gs);
  }

  /** Torn-prefix theorem: whatever byte prefix of a log survives, the reader finds exactly the
      groups whose COMMIT record survived whole, in order, with exactly their writes. */
  lemma {:induction false} TornPrefix(crc: Crc, gs: seq<Group>, k: nat)
    requires k <= |EncodeGroups(crc, gs)|
    ensures AllFormed(Parse(crc, EncodeGroups(crc, gs)[..k]))
    ensures Recovered(crc, EncodeGroups(crc, gs)[..k]) == gs[..WholeGroups(crc, gs, k)]
  {
    PrefixFinds(crc, gs, k);
  }

  lemma {:induction false} NothingFound(crc: Crc)
    ensures Finds(crc, [], []) && Recovered(crc, []) == []
  {
    assert Parse(crc, []) == [];
  }

  lemma {:induction false} FirstOf(gs: seq<Group>, w: nat)
    requires gs != [] && w < |gs|
    ensures gs[..1 + w] == [gs[0]] + gs[1..][..w]
  {
  }

  lemma {:induction false} WholeAll(crc: Crc, gs: seq<Group>)
    ensures WholeGroups(crc, gs, |EncodeGroups(crc, gs)|) == |gs|
    decreases |gs|
  {
    if gs != [] {
      WholeAll(crc, gs[1..]);
    }
  }

  /** A log that was written whole is read back whole. */
  lemma {:induction false} RecoveredAll(crc: Crc, gs: seq<Group>)
    ensures AllFormed(Parse(crc, EncodeGroups(crc, gs)))
    ensures Recovered(crc, EncodeGroups(crc, gs)) == gs
  {
    var b := EncodeGroups(crc, gs);
    assert b[..|b|] == b;
    TornPrefix(crc, gs, |b|);
    WholeAll(crc, gs);
    assert gs[..|gs|] == gs;
  }

  lemma {:induction false} EncodeGroupsAppend(crc: Crc, gs: seq<Group>, g: Group)
    ensures EncodeGroups(crc, gs + [g]) == EncodeGroups(crc, gs) + EncodeGroup(crc, g)
    decreases |gs|
  {
    if gs == [] {
      assert gs + [g] == [g] && [g][1..] == [];
      assert EncodeGroups(crc, []) == [];
    } else {
      assert (gs + [g])[1..] == gs[1..] + [g];
      EncodeGroupsAppend(crc, gs[1..], g);
    }
  }

  lemma {:induction false} WholeGroupsAppend(crc: Crc, gs: seq<Group>, g: Group, k: nat)
    requires k <= |EncodeGroup(crc, g)|
    ensures WholeGroups(crc, gs + [g], |EncodeGroups(crc, gs)| + k) == |gs| + (if k == |EncodeGroup(crc, g)| then 1 else 0)
    decreases |gs|
  {
    if gs == [] {
      assert gs + [g] == [g] && [g][1..] == [];
    } else {
      assert (gs + [g])[1..] == gs[1..] + [g];
      WholeGroupsAppend(crc, gs[1..], g, k);
    }
  }

  lemma {:induction false} AppendPrefix(crc: Crc, gs: seq<Group>, g: Group, k: nat)
    requires k <= |EncodeGroup(crc, g)|
    ensures var n := |EncodeGroups(crc, gs)| + k;
            && n <= |EncodeGroups(crc, gs + [g])|
            && EncodeGroups(crc, gs + [g])[..n] == EncodeGroups(crc, gs) + EncodeGroup(crc, g)[..k]
  {
    EncodeGroupsAppend(crc, gs, g);
    PrefixOfSum(EncodeGroups(crc, gs), EncodeGroup(crc, g), |EncodeGroups(crc, gs)| + k);
  }

  lemma {:induction false} InitOf(gs: seq<Group>, g: Group)
    ensures (gs + [g])[..|gs|] == gs && (gs + [g])[..|gs| + 1] == gs + [g]
  {
  }

  /** A crash while group `g` is appended to a log of `gs`: `g` is found exactly when all of
      its bytes arrived. */
  lemma {:induction false} TornAppend(crc: Crc, gs: seq<Group>, g: Group, k: nat)
    requires k <= |EncodeGroup(crc, g)|
    ensures var buf := EncodeGroups(crc, gs) + EncodeGroup(crc, g)[..k];
            && AllFormed(Parse(crc, buf))
            && Recovered(crc, buf) == if k == |EncodeGroup(crc, g)| then gs + [g] else gs
  {
    var all, n := gs + [g], |EncodeGroups(crc, gs)| + k;
    AppendPrefix(crc, gs, g, k);
    TornPrefix(crc, all, n);
    WholeGroupsAppend(crc, gs, g, k);
    InitOf(gs, g);
  }
}
