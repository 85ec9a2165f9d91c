/** The log file and its counters, updated in place. */
module WalManagers {
  import opened Results
  import opened Bytes
  import opened Wal
  import opened WalGroups

  /** What the operating system does with a write: all of it, or a failure after some bytes. */
  datatype WriteOutcome = Succeeds | FailsAfter(bytes: nat)

  lemma {:induction false} EncodeAllSnoc(crc: Crc, rs: seq<Record>, r: Record)
    requires AllShort(rs) && ShortPayload(r)
    ensures EncodeAll(crc, rs + [r]) == EncodeAll(crc, rs) + EncodeRecord(crc, r)
    decreases |rs|
  {
    if rs == [] {
      assert rs + [r] == [r] && [r][1..] == [];
    } else {
      assert (rs + [r])[1..] == rs[1..] + [r];
      EncodeAllSnoc(crc, rs[1..], r);
    }
  }

  /** The bytes of a whole group, record after record. */
  method GroupBytes(crc: Crc, id: U64, pages: seq<PageWrite>) returns (buf: seq<byte>)
    ensures buf == EncodeGroup(crc, Group(id, pages))
  {
    buf := [];
    for i := 0 to |pages|
      invariant buf == EncodeAll(crc, WriteRecords(id, pages[..i]))
    {
      var r := WriteRecord(id, pages[i]);
      EncodeAllSnoc(crc, WriteRecords(id, pages[..i]), r);
      assert WriteRecords(id, pages[..i + 1]) == WriteRecords(id, pages[..i]) + [r];
      buf := buf + EncodeRecord(crc, r);
    }
    assert pages[..|pages|] == pages;
    EncodeAllSnoc(crc, WriteRecords(id, pages), CommitRecord(id));
    buf := buf + EncodeRecord(crc, CommitRecord(id));
  }

  class WalManager {
    const crc: Crc
    var file: seq<byte>
    var len: nat
    var nextGroup: U64

    /** Everything in the file has been accounted for. */
    predicate Valid()
      reads this
    {
      len == |file|
    }

    constructor (crc: Crc, file: seq<byte>)
      ensures Valid() && this.crc == crc && this.file == file && nextGroup == 1
    {
      this.crc := crc;
      this.file := file;
      len := |file|;
      nextGroup := 1;
    }

    method AllocateGroupId() returns (id: U64)
      modifies this`nextGroup
      ensures id == old(nextGroup) && nextGroup == (id + 1) % 0x1_0000_0000_0000_0000
    {
      id := nextGroup;
      nextGroup := (nextGroup + 1) % 0x1_0000_0000_0000_0000;
    }

    /** Afterwards the next id lies above `floor`, unless the counter wrapped. */
    method ObserveGroupId(floor: U64)
      modifies this`nextGroup
      ensures nextGroup == if old(nextGroup) > floor then old(nextGroup) else (floor + 1) % 0x1_0000_0000_0000_0000
    {
      if nextGroup <= floor {
        nextGroup := (floor + 1) % 0x1_0000_0000_0000_0000;
      }
    }

    /** Appends a whole group, or nothing. */
    method AppendGroup(id: U64, pages: seq<PageWrite>, outcome: WriteOutcome) returns (ok: bool)
      requires Valid()
      modifies this`file, this`len
      ensures Valid() && ok == outcome.Succeeds?
      ensures file == if ok then old(file) + EncodeGroup(crc, Group(id, pages)) else old(file)
    {
      var buf := GroupBytes(crc, id, pages);
      match outcome
      case Succeeds =>
        file := file + buf;
        len := len + |buf|;
        ok := true;
      case FailsAfter(k) =>
        file := file + buf[..if k < |buf| then k else |buf|];
        file := file[..len];
        ok := false;
    }

    method Truncate()
      modifies this`file, this`len
      ensures Valid() && file == []
    {
      file := [];
      len := 0;
    }

    /** The committed groups, in commit order; ids seen in the log are not handed out again. */
    method ReadCommittedGroups() returns (res: Result<seq<Group>>)
      modifies this`nextGroup
      ensures res.Ok? <==> AllFormed(Parse(crc, file))
      ensures res.Ok? ==> res.value == Recovered(crc, file)
      ensures exists h: U64 :: IsHighest(Parse(crc, file), h)
                          && nextGroup == if old(nextGroup) > h then old(nextGroup) else (h + 1) % 0x1_0000_0000_0000_0000
    {
      var records := ParseRecords(crc, file);
      var highest := HighestGroup(records);
      ObserveGroupId(highest);
      res := CollectGroups(records);
    }
  }
}
