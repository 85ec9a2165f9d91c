/** The schema on pages: written in chunks from page 1 on, and read back. */
module SchemaPages {
  import opened Options
  import opened Bytes
  import opened WalManagers
  import opened PagerStore
  import opened Pagers
  import LeafPages

  const CHUNK: nat := PAGE_SIZE - 4

  function PagesNeeded(n: nat): (k: nat)
    ensures 0 < k && (k - 1) * CHUNK <= n <= k * CHUNK && (k == 1 || (k - 1) * CHUNK < n)
  {
    if n == 0 then 1 else (n + CHUNK - 1) / CHUNK
  }

  function Chunk(buf: seq<byte>, i: nat): (c: seq<byte>)
    requires i < PagesNeeded(|buf|)
    ensures |c| <= CHUNK
  {
    buf[i * CHUNK..if (i + 1) * CHUNK < |buf| then (i + 1) * CHUNK else |buf|]
  }

  /** A page with the length of the chunk, the chunk, and zeros. */
  function ChunkPage(c: seq<byte>): Page
    requires |c| <= CHUNK
  {
    ToLE(|c|, 4) + c + seq(CHUNK - |c|, _ => 0)
  }

  // ---------------------------------------------------------------- writing

  /** `db'` is `db` with the schema `buf` written from page 1 on, and nothing else changed. */
  ghost predicate Stored(db: seq<Page>, db': seq<Page>, buf: seq<byte>) {
    var n := PagesNeeded(|buf|);
    && |db'| == Max(|db|, 1 + n)
    && (forall i :: 0 <= i < n ==> db'[1 + i] == ChunkPage(Chunk(buf, i)))
    && (forall p :: 0 <= p < |db| && (p == 0 || n < p) ==> db'[p] == db[p])
  }

  /** Writes the schema inside the open group, growing the file first if need be. */
  method SaveSchema(pager: Pager, buf: seq<byte>)
    requires pager.Valid() && pager.active.Some? && pager.numPages + |buf| + 3 < U64_END
    modifies pager, pager.wal
    ensures pager.Valid() && pager.active.Some?
    ensures Stored(old(Visible(pager.State())), Visible(pager.State()), buf)
  {
    ghost var db := Visible(pager.State());
    var n := PagesNeeded(|buf|);
    GrowFile(pager, 1 + n);
    ghost var grown := Visible(pager.State());
    for i := 0 to n
      invariant pager.Valid() && pager.active.Some? && pager.numPages == |grown| == Max(|db|, 1 + n) && |grown| + 1 < U64_END
      invariant Written(grown, Visible(pager.State()), buf, i)
    {
      WriteChunk(pager, grown, buf, i);
    }
    SavedAll(db, grown, Visible(pager.State()), buf);
  }

  lemma SavedAll(db: seq<Page>, grown: seq<Page>, db': seq<Page>, buf: seq<byte>)
    requires |grown| == Max(|db|, 1 + PagesNeeded(|buf|)) && (forall p :: 0 <= p < |db| ==> grown[p] == db[p])
    requires Written(grown, db', buf, PagesNeeded(|buf|))
    ensures Stored(db, db', buf)
  {
  }

  method GrowFile(pager: Pager, n: nat)
    requires pager.Valid() && pager.active.Some? && pager.numPages + 1 < U64_END && n + 1 < U64_END
    modifies pager, pager.wal
    ensures pager.Valid() && pager.active.Some? && pager.numPages == |Visible(pager.State())| == Max(old(pager.numPages), n)
    ensures forall p :: 0 <= p < |old(Visible(pager.State()))| ==> p < pager.numPages && Visible(pager.State())[p] == old(Visible(pager.State()))[p]
  {
    ghost var db := Visible(pager.State());
    while pager.numPages < n
      invariant pager.Valid() && pager.active.Some? && |db| <= pager.numPages <= Max(|db|, n)
      invariant forall p :: 0 <= p < |db| ==> Visible(pager.State())[p] == db[p]
      decreases n - pager.numPages
    {
      var _ := pager.AllocatePage(Succeeds, Completes);
    }
  }

  method WriteChunk(pager: Pager, ghost grown: seq<Page>, buf: seq<byte>, i: nat)
    requires pager.Valid() && pager.active.Some? && pager.numPages == |grown| && |grown| + 1 < U64_END
    requires i < PagesNeeded(|buf|) && 1 + i < |grown| && Written(grown, Visible(pager.State()), buf, i)
    modifies pager, pager.wal
    ensures pager.Valid() && pager.active.Some? && pager.numPages == |grown|
    ensures Written(grown, Visible(pager.State()), buf, i + 1)
  {
    ghost var before := Visible(pager.State());
    var page := ChunkPage(Chunk(buf, i));
    var _ := pager.WritePage(1 + i, page, Succeeds, Completes);
    OneMore(grown, before, Visible(pager.State()), buf, i, page);
  }

  lemma OneMore(db: seq<Page>, before: seq<Page>, after: seq<Page>, buf: seq<byte>, i: nat, page: Page)
    requires i < PagesNeeded(|buf|) && 1 + i < |db| && Written(db, before, buf, i) && page == ChunkPage(Chunk(buf, i))
    requires after == Put(before, 1 + i, page)
    ensures Written(db, after, buf, i + 1)
  {
  }

  /** The first `k` chunks are written. */
  ghost predicate Written(db: seq<Page>, db': seq<Page>, buf: seq<byte>, k: nat)
    requires k <= PagesNeeded(|buf|)
  {
    && |db'| == |db| && k < |db|
    && (forall i :: 0 <= i < k ==> db'[1 + i] == ChunkPage(Chunk(buf, i)))
    && (forall p :: 0 <= p < |db| && (p == 0 || k < p) ==> db'[p] == db[p])
  }

  // ---------------------------------------------------------------- reading

  function ChunkOn(page: Page): seq<byte> {
    var n := U32At(page, 0);
    page[4..if 4 + n < PAGE_SIZE then 4 + n else PAGE_SIZE]
  }

  /** Chunk after chunk, up to the first that does not fill its page or the end of the file. */
  ghost function LoadFrom(db: seq<Page>, p: nat): seq<byte>
    decreases |db| - p
  {
    if |db| <= p then []
    else if U32At(db[p], 0) < CHUNK then ChunkOn(db[p])
    else ChunkOn(db[p]) + LoadFrom(db, p + 1)
  }

  lemma {:induction false} LoadOne(db: seq<Page>, p: nat, data: seq<byte>)
    requires p < |db|
    ensures data + LoadFrom(db, p) == if U32At(db[p], 0) < CHUNK then data + ChunkOn(db[p]) else data + ChunkOn(db[p]) + LoadFrom(db, p + 1)
  {
  }

  method LoadSchema(pager: Pager) returns (data: seq<byte>)
    requires pager.Valid()
    modifies pager`cache
    ensures pager.Valid() && pager.State() == old(pager.State())
    ensures data == LoadFrom(Visible(pager.State()), 1)
  {
    ghost var db := Visible(pager.State());
    data := [];
    var p := 1;
    while true
      invariant pager.Valid() && pager.State() == old(pager.State())
      invariant LoadFrom(db, 1) == data + LoadFrom(db, p)
      decreases |db| - p
    {
      var page := pager.ReadPage(p);
      if page.None? {
        assert LoadFrom(db, p) == [];
        return;
      }
      LoadOne(db, p, data);
      data := data + ChunkOn(page.value);
      if U32At(page.value, 0) < CHUNK {
        return;
      }
      p := p + 1;
    }
  }

  // ---------------------------------------------------------------- what comes back

  lemma {:induction false} ChunkRead(c: seq<byte>)
    requires |c| <= CHUNK
    ensures U32At(ChunkPage(c), 0) == |c| && ChunkOn(ChunkPage(c)) == c
  {
    U32RoundTrip(|c|);
    assert ChunkPage(c)[0..4] == ToLE(|c|, 4);
    assert ChunkPage(c)[4..4 + |c|] == c;
  }

  /** What the reader finds behind a schema whose last chunk fills its page. */
  ghost function Trailing(db: seq<Page>, n: nat): seq<byte> {
    if 0 < n && n % CHUNK == 0 then LoadFrom(db, 1 + PagesNeeded(n)) else []
  }

  lemma {:induction false} LoadChunk(db: seq<Page>, p: nat, c: seq<byte>)
    requires |c| <= CHUNK && p < |db| && db[p] == ChunkPage(c)
    ensures LoadFrom(db, p) == if |c| < CHUNK then c else c + LoadFrom(db, p + 1)
  {
    ChunkRead(c);
  }

  lemma {:induction false} ChunkThenRest(buf: seq<byte>, i: nat)
    requires i < PagesNeeded(|buf|)
    ensures i + 1 < PagesNeeded(|buf|) ==> |Chunk(buf, i)| == CHUNK && (i + 1) * CHUNK <= |buf| && buf[i * CHUNK..] == Chunk(buf, i) + buf[(i + 1) * CHUNK..]
    ensures i + 1 == PagesNeeded(|buf|) ==> buf[i * CHUNK..] == Chunk(buf, i) && (|Chunk(buf, i)| == CHUNK <==> 0 < |buf| && |buf| % CHUNK == 0)
  {
  }

  lemma {:induction false} LoadRest(db: seq<Page>, db': seq<Page>, buf: seq<byte>, i: nat)
    requires Stored(db, db', buf) && i < PagesNeeded(|buf|)
    ensures LoadFrom(db', 1 + i) == buf[i * CHUNK..] + Trailing(db', |buf|)
    decreases PagesNeeded(|buf|) - i
  {
    var c, rest := Chunk(buf, i), Trailing(db', |buf|);
    LoadChunk(db', 1 + i, c);
    ChunkThenRest(buf, i);
    if i + 1 < PagesNeeded(|buf|) {
      LoadRest(db, db', buf, i + 1);
      assert c + (buf[(i + 1) * CHUNK..] + rest) == buf[i * CHUNK..] + rest;
    } else if |c| < CHUNK {
      assert c + [] == c;
    }
  }

  /** Reading back a stored schema gives it whole; when its last chunk fills a page, the chunks
      of whatever lies behind it are read as well. */
  lemma {:induction false} SchemaRoundTrip(db: seq<Page>, db': seq<Page>, buf: seq<byte>)
    requires Stored(db, db', buf)
    ensures LoadFrom(db', 1) == buf + Trailing(db', |buf|)
  {
    LoadRest(db, db', buf, 0);
    assert buf[0..] == buf;
  }

  // ---------------------------------------------------------------- what saving overwrites

  /** Saving the schema leaves every page but page 1 alone exactly when the pages behind it that
      it needs held the same chunks before; a schema that fits page 1 needs none. */
  lemma {:induction false} SaveKeepsOthers(db: seq<Page>, db': seq<Page>, buf: seq<byte>)
    requires Stored(db, db', buf)
    ensures (forall p :: 0 <= p < |db| && p != 1 ==> db'[p] == db[p]) <==>
            (forall i :: 1 <= i < PagesNeeded(|buf|) && 1 + i < |db| ==> db[1 + i] == ChunkPage(Chunk(buf, i)))
    ensures PagesNeeded(|buf|) == 1 <==> |buf| <= CHUNK
  {
    var n := PagesNeeded(|buf|);
    if forall p :: 0 <= p < |db| && p != 1 ==> db'[p] == db[p] {
      forall i | 1 <= i < n && 1 + i < |db|
        ensures db[1 + i] == ChunkPage(Chunk(buf, i))
      {
        assert db'[1 + i] == db[1 + i];
      }
    } else {
      var p :| 0 <= p < |db| && p != 1 && db'[p] != db[p];
      assert 1 <= p - 1 < n && db'[1 + (p - 1)] == ChunkPage(Chunk(buf, p - 1));
    }
  }

  /** Page 2 is the first page of the first table. A schema of 4093 bytes that ends, as they do,
      in a zero byte is written over it, and what is left there is an empty leaf. */
  lemma {:induction false} SchemaEmptiesTable(db: seq<Page>, db': seq<Page>, buf: seq<byte>)
    requires Stored(db, db', buf) && 2 < |db| && |buf| == CHUNK + 1 && buf[CHUNK] == 0
    ensures LeafPages.IsLeafPage(db'[2], 0, [])
  {
    assert PagesNeeded(|buf|) == 2;
    var c := Chunk(buf, 1);
    assert c == [0];
    assert db'[1 + 1] == ChunkPage(c);
    OneByteChunk(ChunkPage(c));
  }

  lemma {:induction false} OneByteChunk(page: Page)
    requires page == ChunkPage([0])
    ensures LeafPages.IsLeafPage(page, 0, [])
  {
    assert ByteAt(0, 0) == 0 && ByteAt(0, 1) == 0 && ByteAt(0, 2) == 0 && ByteAt(0, 3) == 0;
    assert ByteAt(1, 0) == 1 && ByteAt(1, 1) == 0 && ByteAt(1, 2) == 0 && ByteAt(1, 3) == 0;
    assert ToLE(1, 4) == [1, 0, 0, 0];
    assert page[1..3] == [0, 0] == ToLE(0, 2);
    assert page[3..7] == [0, 0, 0, 0] == ToLE(0, 4);
  }
}
