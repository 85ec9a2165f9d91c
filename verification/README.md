# VelociDB in Dafny

A model of the storage and transaction core of VelociDB, an embedded SQL engine written in
Rust, with machine-checked proofs about it. Seven layers are modelled, each in the form its
source has: objects with mutable fields are classes, in-place edits of pages work on arrays,
pure code is functions. `dafny verify dfyconfig.toml` checks everything.

| layer | files | main results |
|---|---|---|
| B-tree over pages with parent pointers | `BTree*.dfy` | insert and delete refine a map through any cascade of splits, merges and borrows; the exact condition under which an insert loses rows, and runs that meet it |
| pages as bytes | `LeafPages.dfy`, `LeafEdits.dfy`, `InternalPages.dfy`, `RowCodec.dfy` | every in-place shift is the list edit it stands for; encodings round trip, and nothing else is read |
| write-ahead log | `Wal.dfy`, `WalGroups.dfy`, `WalManager.dfy` | torn-prefix theorem: any byte prefix yields exactly the groups whose COMMIT survived; of any bytes, damaged ones too, exactly what lies encoded in front with its checksum is read |
| pager | `PagerStore.dfy`, `PagerRuns.dfy`, `Pager.dfy` | crash safety over whole runs, recovery included; the cache refines a three-level overlay |
| statements, transactions, SQL tables, change capture | `SchemaPages.dfy`, `Sessions.dfy`, `SessionRuns.dfy`, `Database.dfy`, `Cdc.dfy`, `Replication.dfy`, `Values.dfy`, `Queries.dfy`, `Unique.dfy`, `Dml.dfy`, `Update.dfy`, `UpdateMeans.dfy`, `TableRuns.dfy`, `Locks.dfy` | statement and transaction atomicity, with crashes anywhere in a run; over every run of INSERT, UPDATE and DELETE the change log replays to the committed tables; over every run of these and ALTER TABLE rows carry their keys, UNIQUE holds and the key lookup preserves queries; what WHERE, UNIQUE and each statement mean, by values and columns alone |
| tables as trees on pages | `Layouts.dfy`, `TreeOps.dfy`, `TreeStatements.dfy` | the pages determine the tables; INSERT, UPDATE and DELETE as runs of tree operations leave pages that hold the table they compute, over whole runs with transactions |
| multi-version store | `Mvcc.dfy`, `MvccManager.dfy` | repeatable reads over all interleavings, and when exactly they fail; what each step does to what the next transaction reads |

`Bytes.dfy`, `Rows.dfy` and `Options.dfy` hold what several layers share.

## How the model is set up

**B-tree.** Pages are a map from page ids to nodes that carry their `parent` field; two ghost
maps give each live page its height and key range, and the rows the tree stands for. `Valid`
says page by page that separators bound their subtrees, children point back, all leaves have
height 0, non-root internal nodes hold 32 to 64 keys, and leaves fit their page. Every method
is proved against it. Two things the code does are kept as they are: a root promoted by a
collapse keeps its old `parent` field, and `insert_into_leaf` drops the root that its nested
call returns. `Insert` therefore states when the new rows are the old ones plus the new one:
if and only if not `Loses`. A leaf that is split down to one entry without making room (the
code then indexes past its entry list) is an `Err`, again with an exact condition, `Stuck`.
Pages that have fallen out of the tree stay in the model: an insertion that loses half of the
tree may go on splitting leaves out there, and is followed until it ends.

**Log and pager.** The checksum is an arbitrary function parameter. A failed or interrupted
write is a parameter of the call: how many bytes of a group reached the log, or what a data
file looks like after any subset of the page writes, whole or torn. Cutting the log to zero
length is atomic, and a failed append is cut off again. `PagerRuns` runs the pager with a crash
possible at every step. A pager write with no group open is the group of one write that the
code makes of it.

**Statements.** A statement is any function from the pages in view and the schema in memory to
an effect: pages written, roots and definitions left in memory, changes staged, success or
failure. It may fail after doing any of it. The schema is taken to fit in page 1, through an
arbitrary codec for the catalogs that fit: a larger one is written over pages of the tables
(`SchemaPages`), and nothing holds after that.

**SQL tables.** A table is a map from keys to rows, which the B-tree is proved to refine. For
each of INSERT, UPDATE, DELETE and ALTER TABLE a predicate says what it computes from a table;
the executor's methods are proved against it, and the run theorems are about sequences of
statements that satisfy it. Beside each predicate stands a theorem that says the same by values,
columns and rows alone, without the functions that compute it (`Values.CompareMeans`,
`Unique.UniqueMeans`, `Dml.InsertMeans`, `UpdateMeans`, `TableRuns.AlterMeans`). Comparison of
numbers is over reals.

**Replication.** `Replication` takes one thing from the layers below, the layout: the pages that a
successful statement leaves hold the table that its INSERT, UPDATE or DELETE computes from the one
they held, and it stages the changes that the executor captures. That these changes replay to
that table is derived there. `TreeStatements` derives the layout: tables are decoded from the pages
by way of the roots in the schema, a statement is a run of tree operations with the outcomes that
`BTree.Insert` and `BTree.Delete` promise, and what is left to assume is that each page it
writes is the encoding of the node that the tree has there, which is what the byte edits
are proved to leave. Rows must come back as they were written: a Real comes back as a Float.

**Versions.** Each manager call is one atomic step; ids come from a counter that other managers
may share, so they may have gaps.

## What the proofs found

- After a root collapse the promoted root keeps a parent field (`BTreeIndex.BTree.Delete` says
  so); an insert whose splits then reach the root hangs the upper half of the tree from the dead
  page: rows are lost. `BTreeWitness.LoseRows` is a run from a new tree, every call succeeding,
  that ends so, and `BTreeBounds.PromotedLeafLoses` is a state of that kind;
  `BTreeIndex.BTree.Insert` has the exact condition. With rows of at most 52 bytes this is the
  only way to lose rows, and no insert or delete ever fails (`BTreeSmall`).
- Larger rows can lose rows without a stale root: when one insertion splits a leaf twice and the
  second split fills the root, the new root is dropped (`BTreeDrop.NewRootIsDropped`, a state that
  68 insertions lead to).
- A table of four rows of 2000 bytes, inserted under the keys 0, 1000, 2000 and 1, refuses to
  delete key 0: the leaf left with one row would have to be merged with one that is full
  (`BTreeRefuse.DeletionIsRefused`). A refused deletion has by then removed the row, and perhaps
  one more from the sibling; the statement around it is rolled back.
- A leaf with one row of 4000 bytes cannot take one of 200: the split indexes past the end of the
  entry list (`BTreeBounds.BigRowIsStuck`).
- A schema of more than 4092 bytes is written over page 2 and those behind it, which belong to
  the tables (`SchemaPages.SaveKeepsOthers`); one of 4093 bytes leaves an empty leaf in place of
  the first page of the first table (`SchemaPages.SchemaEmptiesTable`).
- The branch of `remove_child_from_parent` for a first child is never reached, and the capacity
  check of `merge_internal` never fires: both are proved where they stand in the methods.
- A transaction of the version store never sees its own inserts, although the comment at
  src/mvcc.rs:170 says that its own changes are always visible: a new version is stamped with a
  clock that is already past the snapshot's timestamp (`Mvcc.InsertUnseen`).
- An aborted transaction's versions are seen by later ones, a second delete can resurrect a
  row, and vacuum can take a row from under a reader (`Mvcc.AbortedInsertIsSeen`,
  `Mvcc.DeleteBringsBack`, `Mvcc.VacuumLosesRow`).
- Deleting a row that was written twice brings the older value back: a delete marks the newest
  version only, and the one before it is still there to be read (`Mvcc.DeleteShowsOlder`).
- `INSERT INTO t (id, id) VALUES (1, 2)` stores a row that does not carry its key
  (`Dml.TwiceNamedKey`), and after the next UPDATE of that row the change log no longer replays
  to the table (`TableRuns.TwiceNamedDiverges`); nor is the row found by `WHERE id = 2`
  (`TableRuns.FastPathMisses`). An UPDATE that assigns the key column on two rows
  stores one key twice (`Update.TwoRowsOneKey`). Without these two, no run breaks anything
  (`TableRuns.TableInvariants`, `Replication.FeedReplicates`).

## Model

| member | source | states |
|---|---|---|
| `BTreeIndex.BTree.Insert` | src/btree.rs:100-118 | inserting an absent key, with any number of leaf splits, under a stale root too: fails iff splitting gets stuck; a valid tree is left either way; on success the rows are the old map plus the key iff nothing `Loses`, on failure the old map iff no split reached the root, and otherwise exactly the rows of that map below some key; page ids used up are bounded, and no page of another tree is touched |
| `BTreeIndex.BTree.Delete` | src/btree.rs:236-305 | fails iff a repair would overflow a leaf; otherwise the tree is valid, the rows are the old map minus the key, the answer says whether the key was there, and a root promoted by a collapse names the dead root as its parent; after a failure the tree is valid but for the short leaf, and holds the old map minus the key and minus the key of the entry that was to be borrowed, if any |
| `BTreeIndex.BTree.DeleteAt` | src/btree.rs:270-303 | takes one entry out of its leaf and repairs it, with the same outcomes |
| `BTreeIndex.BTree.Search` | src/btree.rs:121-156 | the answer is what the map holds for the key |
| `BTreeIndex.BTree.Scan` | src/btree.rs:160-168 | all rows of the map, by strictly increasing key |
| `BTreeIndex.BTree.ScanNode` | src/btree.rs:170-234 | appends exactly the rows of the subtree's key range, in order |
| `BTreeIndex.BTree.ScanChildren` | src/btree.rs:203-231 | the subtrees of an internal page, first child first, one after another |
| `BTreeIndex.BTree.FindLeaf` | src/btree.rs:1051-1096 | reaches the leaf whose key range holds the key |
| `BTreeIndex.BTree.constructor` | src/btree.rs:75-91 | a new tree is valid and empty, one leaf on the given page, which is not page 0, and the next page id is the one after it |
| `BTreeIndex.BTree.InsertIntoLeaf` | src/btree.rs:1098-1179 | from any sound tree, at a leaf in it or outside it: the entry is in, with the new root, the page ids used up, the rows lost and the pages left alone all described; outside the tree nothing in the tree changes |
| `BTreeIndex.BTree.SplitAndInsert` | src/btree.rs:1140-1158 | the branch for a full leaf, to any depth of nested splits: split, link, then insert into the right half, dropping the nested call's root |
| `BTreeIndex.BTree.SplitLeaf` | src/btree.rs:1213-1293 | the leaf and a fresh page hold the two halves; a leaf with fewer than two entries is an error |
| `BTreeIndex.BTree.InsertIntoParent` | src/btree.rs:1295-1321 | links a split-off page in: the tree is sound again, with a new root iff every ancestor was full and the root not stale; if it was stale, exactly the part from the separator on is cut off |
| `BTreeIndex.BTree.CreateNewRoot` | src/btree.rs:1323-1364 | a new root above both halves keeps the tree sound |
| `BTreeIndex.BTree.SetParent` | src/btree.rs:1369-1385 | writes the low 32 bits of the parent id, whatever the id |
| `BTreeIndex.BTree.InsertIntoInternal` | src/btree.rs:1387-1449 | separator and child go in at their place, or the node is split in its turn |
| `BTreeIndex.BTree.PlaceChild` | src/btree.rs:1424-1449 | a page with room takes the new child in at its place, be it in the tree, a dead page under a stale root, or the parent of a leaf outside the tree |
| `BTreeIndex.BTree.SplitInternal` | src/btree.rs:1451-1570 | an overfull node is halved and its right half linked upward |
| `BTreeIndex.BTree.HalveInternal` | src/btree.rs:1498-1565 | keys and children are divided around the promoted key and every moved child points to its new parent |
| `BTreeIndex.BTree.MoveRight` | src/btree.rs:1512-1565 | the overfull page and a fresh one are its halves around the middle key, every moved child pointing to the new page |
| `BTreeIndex.BTree.FindSibling` | src/btree.rs:374-428 | the left sibling if there is one, else the right, with the separator between |
| `BTreeIndex.BTree.UpdateParentKey` | src/btree.rs:585-613 | replaces exactly that separator |
| `BTreeIndex.BTree.HandleLeafUnderflow` | src/btree.rs:306-372 | a short leaf is repaired: the tree is sound with the same rows; it fails iff a leaf would overflow, and then at most the sibling has lost the entry to be borrowed |
| `BTreeIndex.BTree.RedistributeLeaf` | src/btree.rs:430-554 | borrowing keeps the tree sound; it fails iff the page has no room, and then the sibling is without that entry and all else as before |
| `BTreeIndex.BTree.MergeLeaves` | src/btree.rs:616-688 | merging keeps the tree sound, and fails, changing nothing, iff both leaves exceed a page |
| `BTreeIndex.AppendEntries` | src/btree.rs:655-681 | the merge loop appends all entries iff together they fit a page |
| `BTreeIndex.BTree.RemoveChildFromParent` | src/btree.rs:690-767 | dropping a merged child, with root collapse or upward repair, leaves a sound tree with the same rows |
| `BTreeIndex.BTree.HandleInternalUnderflow` | src/btree.rs:769-833 | a short internal node is repaired without failure |
| `BTreeIndex.BTree.RedistributeInternal` | src/btree.rs:903-978 | rotating a key through the parent keeps the tree sound |
| `BTreeIndex.BTree.BorrowChild` | src/btree.rs:903-978 | the nearest child of the sibling moves over, the two separators rotate through the parent, and the child points to its new parent |
| `BTreeIndex.BTree.MergeInternal` | src/btree.rs:980-1049 | merging around the separator keeps the tree sound; 31 + 1 + 32 keys always fit |
| `BTreeShape.RangesDisjoint` | src/btree.rs:1051-1096 | pages of one height answer for disjoint key ranges, so a key has one leaf |
| `BTreeSplit.SplitOk` | src/btree.rs:1213-1570 | splitting any node under its parent keeps validity |
| `BTreeSplit.SplitHolds` | src/btree.rs:1213-1293 | splitting keeps the rows |
| `BTreeMerge.MergeOk` | src/btree.rs:616-767 | merging two neighbours and dropping the right one keeps validity |
| `BTreeMerge.MergeHolds` | src/btree.rs:616-688 | merging keeps the rows |
| `BTreeRoot.GrowOk` | src/btree.rs:1323-1364 | a new root over the old one keeps validity |
| `BTreeRoot.CollapseOk` | src/btree.rs:750-757 | promoting the only child of the root keeps validity, whatever its parent field says |
| `BTreeRoot.KeptOk` | src/btree.rs:1295-1321 | if the right half of the root is linked to a dead page, what is left is still a valid tree |
| `BTreeRoot.KeptHolds` | src/btree.rs:1295-1321 | and it holds exactly the rows below the separator |
| `BTreeDelete.RebalanceOk` | src/btree.rs:430-554 | borrowing is a merge followed by a split, and keeps validity and rows |
| `BTreeInsert.InsertEnds` | src/btree.rs:100-118 | the insertion as a whole loses rows iff `Loses`, and a root without stale parent stays so |
| `BTreeInsert.AfterInsert` | src/btree.rs:100-118 | however the insertion went, what is left is described: failed iff stuck, rows complete iff nothing was lost, else cut off at a key |
| `BTreeInsert.FailedOutcome` | src/btree.rs:1140-1158 | a failed insertion leaves a valid tree: its splits stay, and the rows do iff none of them reached the root |
| `BTreeInsert.StepLostIn` | src/btree.rs:1295-1321 | after a lost root half, a further loss in the nested insertion cuts at the smaller of the two keys |
| `BTreeInsert.StepLostOut` | src/btree.rs:1151-1157 | when the half the entry belongs to has fallen out of the tree, the nested insertion leaves the tree as it is |
| `BTreeInsert.DroppedCut` | src/btree.rs:1151-1157 | when the nested call's root is dropped, exactly the rows from some key on are out of reach |
| `BTreeLimits.SplitsBound` | src/btree.rs:1141-1158 | an insertion makes at most nine leaf splits |
| `BTreeBounds.OneSplitSuffices` | src/btree.rs:1141-1158 | with entries of at most 200 bytes one split makes room and nothing gets stuck |
| `BTreeBounds.BigRowIsStuck` | src/btree.rs:1222-1250 | a leaf of one 4000-byte row and a new row of 200 bytes get stuck |
| `BTreeBounds.PromotedLeafLoses` | src/btree.rs:1295-1321 | a tree with a stale root, as a collapse leaves it, that meets every condition of insert and loses rows, with rows of 52 bytes |
| `BTreeDrop.DropTreeSound` | src/btree.rs:1151-1157 | the tree that 65 insertions of rising keys and three at the front lead to, 63 separators over leaves, is sound |
| `BTreeDrop.NewRootIsDropped` | src/btree.rs:1151-1157 | on that tree, whose root is not stale, an insertion that needs two splits meets every condition and loses rows |
| `BTreeRefuse.FourRowsSound` | src/btree.rs:1213-1293 | the tree that inserting the keys 0, 1000, 2000 and 1 with rows of 2000 bytes leads to is sound |
| `BTreeRefuse.DeletionIsRefused` | src/btree.rs:655-681 | on that tree the deletion of key 0, which is there, fails |
| `BTreeSmall.SmallInsert` | src/btree.rs:1141-1158 | with entries of at most 64 bytes only a stale root reached by the splits loses rows |
| `BTreeSmall.InsertSmall` | src/btree.rs:100-118 | over every run of small rows insert never fails, and adds the row unless a stale root is split |
| `BTreeSmall.SmallDelete` | src/btree.rs:298-301 | with entries of at most 64 bytes every merge and borrow fits |
| `BTreeSmall.DeleteSmall` | src/btree.rs:236-305 | over every run of small rows delete never fails and removes the row |
| `BTreeWitness.LoseRows` | src/btree.rs:750-757 | from a new tree: 64 inserts, 64 deletes and 64 inserts of 52-byte rows all succeed, and a row is missing |
| `BTreeWitness.HeightBound` | src/btree.rs:1051-1096 | a tree is no higher than it has rows |
| `LeafEdits.ReadEntries` | src/btree.rs:1222-1240 | the collecting loop returns exactly the encoded entries |
| `LeafEdits.LeafPageUnique` | src/btree.rs:1181-1211 | a page encodes one list of entries only |
| `LeafEdits.InsertEntry` | src/btree.rs:1113-1176 | shift and write is list insertion in key order, or nothing when the page is full |
| `LeafEdits.RoomMeans` | src/btree.rs:1137-1141 | the tree layer takes a leaf to have room iff the encoded entries and the new one fit the page |
| `LeafEdits.DeleteEntry` | src/btree.rs:250-291 | shift is removal of the first entry with that key |
| `LeafEdits.ReadEntryAt` | src/btree.rs:556-583 | finds the entry with that index and its offset |
| `LeafEdits.Borrow` | src/btree.rs:440-524 | the sibling's nearest entry moves to the front or the end of the other page |
| `LeafEdits.AppendAll` | src/btree.rs:655-681 | the append loop is list concatenation, iff it fits |
| `LeafEdits.WriteLeaf` | src/btree.rs:1252-1290 | the loops of a split write a page that encodes the given half |
| `LeafPages.FindDataEnd` | src/btree.rs:1181-1211 | on any page: fails iff the page does not hold that many entries, and otherwise gives the header plus the size of all of them |
| `LeafPages.WalkGivesEntries` | src/btree.rs:1181-1211 | a walk that stays on the page is a walk over entries |
| `LeafPages.FreeAt` | src/btree.rs:1137-1141 | the bytes in use are the size the tree layer reckons with |
| `LeafPages.EntryInBytes` | src/btree.rs:1160-1172 | key in eight bytes, size of the row in four, row: a whole entry, byte for byte |
| `InternalPages.WriteInternalBody` | src/btree.rs:873-901 | refuses iff the children do not match the keys or do not fit; otherwise every key and child is at its offset |
| `InternalPages.ParseInternalNode` | src/btree.rs:835-868 | reading an internal page gives the keys and children written, as many as the header says |
| `InternalPages.InsertPair` | src/btree.rs:1404-1445 | find place, shift, write, header: the page is the internal node with the key and its right child inserted, unless it is full |
| `InternalPages.RemovePair` | src/btree.rs:731-745 | find the child, shift, header: the page is the internal node without that child and the key before it |
| `InternalPages.WriteInternal` | src/btree.rs:1518-1565 | header and body make the page of an internal node |
| `InternalPages.SetParentPointer` | src/btree.rs:1369-1385 | on the page of any node, leaf or internal: the page of that node with the new parent |
| `InternalPages.NodeUnique` | src/btree.rs:50-65 | a page is the encoding of one node only |
| `RowCodec.SerializeRow` | src/btree.rs:1572-1612 | the loop writes the count and the encoded values in order |
| `RowCodec.DeserializeRow` | src/btree.rs:1614-1702 | any buffer: reads a row iff the buffer starts with an encoded row, and then that row, with Real as Float |
| `RowCodec.RowRoundTrip` | src/btree.rs:1572-1702 | a storable row is read from a buffer iff the buffer starts with its encoding |
| `RowCodec.RowReadHolds` | src/btree.rs:1614-1702 | whatever is read lies encoded at the start of the buffer |
| `RowCodec.ValueLies` | src/btree.rs:1614-1702 | each kind of value is read at a position iff its encoding lies there |
| `RowCodec.NumberBytes` | src/btree.rs:1579-1590 | NULL, integers and floats in bytes, tags included |
| `RowCodec.StringBytes` | src/btree.rs:1591-1600 | text and blobs in bytes, lengths included |
| `RowCodec.VectorBytes` | src/btree.rs:1601-1608 | a vector in bytes |
| `RowCodec.RowBytes` | src/btree.rs:1572-1612 | a row is the number of its values in four bytes, then the values in order |
| `Bytes.LERoundTrip` | src/wal.rs:304-314 | little-endian numbers of any width round trip |
| `Bytes.LEInverse` | src/wal.rs:212-238 | and every byte string is the encoding of the number it reads as |
| `Wal.ReadRecord` | src/wal.rs:212-238 | the record that `Wal.ReadExact` speaks of, or none |
| `Wal.ReadExact` | src/wal.rs:212-238 | at every position of every buffer: a record is read there iff it lies there encoded, right checksum included |
| `Wal.ParseRecords` | src/wal.rs:210-251 | the cursor loop returns the records up to the first unreadable one |
| `Wal.ParseLies` | src/wal.rs:210-251 | of any bytes: the records read lie encoded at the start, checksums included |
| `Wal.ParseExact` | src/wal.rs:210-251 | of any bytes: records are the first ones read iff the buffer starts with their encodings, so reading stops exactly where no whole record lies |
| `Wal.WrongChecksumStops` | src/wal.rs:232-238 | a COMMIT record whose checksum field is 0 where it should not be is not read |
| `Wal.RecordBytes` | src/wal.rs:304-314 | a whole record, byte for byte |
| `Wal.HighestGroup` | src/wal.rs:247-254 | the largest group id seen |
| `Wal.ParseOne` | src/wal.rs:304-314 | a whole record in front is read back, whatever follows |
| `Wal.ParseTorn` | src/wal.rs:213-225 | a record cut off anywhere is not read, whatever the checksum function |
| `Wal.ParsePrefix` | src/wal.rs:210-251 | any byte prefix of a log parses to the records it holds whole |
| `WalGroups.CollectGroups` | src/wal.rs:256-289 | interleaved records: each COMMIT yields its group's own writes, in commit order; fails iff a record is malformed |
| `WalGroups.FormedIs` | src/wal.rs:260-283 | a record is accepted iff it is a COMMIT or starts with a page id and a whole page, and is taken for that write |
| `WalGroups.OwnWritesAre` | src/wal.rs:256-283 | however groups interleave: the writes kept for a group are those at the positions of its page records that no COMMIT of it follows, in order |
| `WalGroups.CommittedAre` | src/wal.rs:256-289 | the groups found are one per COMMIT record, in log order, each with the writes that were open for it there |
| `WalGroups.TornPrefix` | src/wal.rs:198-290 | for all groups and every byte prefix: exactly the groups whose COMMIT lies within, in order, with their exact writes |
| `WalGroups.TornAppend` | src/wal.rs:102-142 | a group in flight is found iff all of its bytes arrived |
| `WalManagers.GroupBytes` | src/wal.rs:107-121 | the buffer built is the encoding of the group |
| `WalManagers.WalManager.AppendGroup` | src/wal.rs:102-142 | the whole group is appended, or the file is as before |
| `WalManagers.WalManager.ObserveGroupId` | src/wal.rs:154-158 | the next id lies above the floor, unless it wraps |
| `WalManagers.WalManager.ReadCommittedGroups` | src/wal.rs:198-290 | the committed groups, or corruption iff a record is malformed; ids seen are passed over |
| `PagerStore.CommitKeeps` | src/storage.rs:226-261 | `committed` stays the fold of the log's groups, and the committed database becomes what was in view |
| `PagerStore.WriteKeeps` | src/storage.rs:386-431 | a write shows at its page only, and what is committed stays |
| `PagerStore.AbortKeeps` | src/storage.rs:267-280 | the view returns to the committed database |
| `PagerStore.CheckpointKeeps` | src/storage.rs:161-179 | moving pages to the data file changes no view, and leaves an empty log |
| `PagerStore.HalfCheckpointKeeps` | src/storage.rs:174-178 | a checkpoint that failed after any part of its writes changes no view either |
| `PagerStore.TornRepaired` | src/storage.rs:141-156 | replaying pages repairs a file with any subset of them, whole or torn |
| `PagerRuns.ReplayTwice` | src/storage.rs:136-156 | replaying over any partial replay gives the same file |
| `PagerRuns.CrashInCommitHolds` | src/storage.rs:238-249 | a crash in a commit leaves the database with the group iff all its bytes arrived |
| `PagerRuns.StepHolds` | src/storage.rs:141-280 | every step, crash or not, changes the durable database by exactly what it commits |
| `PagerRuns.CrashSafety` | src/storage.rs:141-280 | after every run with crashes anywhere, recovery included, reopening gives the initial file with exactly the committed groups applied in commit order, and that page count |
| `Pagers.Pager.Recover` | src/storage.rs:141-156 | the log's groups are in the data file and the log is empty; a corrupt log stops the open with the files unchanged |
| `Pagers.Pager.Checkpoint` | src/storage.rs:161-179 | what is in view and what is committed stay; on failure the pages stay committed |
| `Pagers.Pager.BeginGroup` | src/storage.rs:203-214 | opens a group with the next id, or fails if one is open |
| `Pagers.Pager.CommitGroup` | src/storage.rs:226-261 | success makes the view the committed database; a failed append gives the database before the group |
| `Pagers.Pager.LogPending` | src/storage.rs:238-252 | the pending pages reach the log and count as committed, or the group is undone |
| `Pagers.Pager.AbortGroup` | src/storage.rs:267-280 | afterwards the view is the committed database, cache included |
| `Pagers.Pager.BeginSavepoint` | src/storage.rs:285-301 | needs an open group and no savepoint, and changes no view |
| `Pagers.Pager.RollbackToSavepoint` | src/storage.rs:310-328 | pending pages and page count are those of the savepoint, cache included |
| `Pagers.Pager.ReadPage` | src/storage.rs:336-384 | under any eviction a page reads as pending, else committed, else on disk; every id below the page count is readable and no other |
| `Pagers.Pager.WritePage` | src/storage.rs:386-431 | in a group or as one of its own: the view changes at that page, or not at all when the log cannot be written |
| `Pagers.Pager.AllocatePage` | src/storage.rs:434-440 | one zero page more, at the id returned |
| `Pagers.Pager.FlushAll` | src/storage.rs:446-456 | the data file is the committed database, without the group in progress |
| `SchemaPages.SaveSchema` | src/storage.rs:884-915 | in the open group: the file is grown if need be, every chunk is on its page from page 1 on, and no other page changes |
| `SchemaPages.LoadSchema` | src/storage.rs:562-596 | reads chunk after chunk up to the first that does not fill its page, through the cache, changing no view |
| `SchemaPages.SchemaRoundTrip` | src/storage.rs:562-915 | a stored schema of any length is read back whole, and with nothing behind it unless its last chunk fills a page |
| `SchemaPages.SaveKeepsOthers` | src/storage.rs:884-915 | saving leaves all pages but page 1 alone iff those it needs behind it held the same chunks before; it needs none iff the schema has at most 4092 bytes |
| `SchemaPages.SchemaEmptiesTable` | src/storage.rs:884-915 | a schema of 4093 bytes turns page 2 into an empty leaf |
| `Sessions.FailedStatement` | src/storage.rs:1020-1031 | a statement that fails in a transaction leaves the session exactly as it was |
| `Sessions.ExecuteSettles` | src/storage.rs:949-1033 | every statement shows all of its writes or none, and the schema in memory is the one stored |
| `Sessions.StatementShows` | src/storage.rs:990-1018 | a statement that takes effect leaves its roots and definitions in memory, and in view every page as it wrote it, the schema page aside |
| `Sessions.PutAllIs` | src/storage.rs:386-431 | a page holds what was last written to it, and a page not written stays |
| `Sessions.CatalogSaved` | src/storage.rs:995-1001 | saving on DDL or changed roots is enough to keep stored and in-memory schema equal |
| `Sessions.OnlySuccessesCount` | src/storage.rs:949-1033 | the statements of a transaction leave what the successful ones alone would leave |
| `Sessions.TransactionAtomic` | src/storage.rs:1080-1127 | ROLLBACK, or a COMMIT that cannot be logged, gives the database, schema and feed of before BEGIN; COMMIT makes what was built durable |
| `Sessions.CommitTxnSettles` | src/storage.rs:1093-1112 | COMMIT makes the view the committed database, or rolls back |
| `SessionRuns.StepHolds` | src/storage.rs:141-1127 | every statement, transaction step, checkpoint, crash and recovery changes the durable database by exactly what it commits |
| `SessionRuns.NothingCommittedIsLost` | src/storage.rs:141-1127 | after every run of statements and transactions with crashes anywhere, in statements, commits, checkpoints and recovery, reopening gives the database the last commit left, and the schema stored in it |
| `Databases.Database.constructor` | src/storage.rs:509-529 | an initialized database opens settled, with the schema read from its pages |
| `Databases.Initialize` | src/storage.rs:531-560 | a new file gets two zero pages, durably, iff the log can be written; any other file is left alone |
| `Databases.OpenDatabase` | src/storage.rs:509-560 | a recovered file, a new one included, opens settled with the schema read from its pages, unless initializing it fails |
| `Databases.Database.RunStatement` | src/storage.rs:970-1001 | savepoint or group, then the writes, schema included, and the staged changes |
| `Databases.Database.FinishAlone` | src/storage.rs:1002-1031 | outside a transaction: commit and publish, or undo the pages, the staged changes and the schema |
| `Databases.Database.Execute` | src/storage.rs:949-1033 | the objects do what the session step says, checkpoint included |
| `Databases.Database.Begin` | src/storage.rs:1080-1090 | opens the group of the transaction, or fails inside one |
| `Databases.Database.Commit` | src/storage.rs:1093-1112 | succeeds iff in a transaction that is empty or could be logged |
| `Databases.Database.Rollback` | src/storage.rs:1115-1127 | succeeds iff in a transaction, and undoes it |
| `Cdc.RecordAllRetains` | src/cdc.rs:113-139 | the log holds the latest changes under consecutive numbers, all of them while they fit |
| `Cdc.CdcManager.Record` | src/cdc.rs:113-139 | appends under the next number and drops the oldest when full |
| `Cdc.CdcManager.Enable` | src/cdc.rs:96-99 | capture is on, and the numbering goes on |
| `Cdc.CdcManager.Disable` | src/cdc.rs:102-106 | clears log and staged changes and keeps the numbering |
| `Cdc.CdcManager.DiscardStagedFrom` | src/cdc.rs:169-171 | keeps exactly what was staged before the mark |
| `Cdc.CdcManager.PublishStaged` | src/cdc.rs:174-179 | staged changes become the latest published ones, in order |
| `Cdc.CdcManager.ChangesSince` | src/cdc.rs:182-189 | consecutive numbers up to the latest; complete iff the first is the next one the consumer expects |
| `Cdc.CdcManager.LatestSeq` | src/cdc.rs:192-194 | the number of changes ever published |
| `Replication.FeedReplicates` | src/storage.rs:949-1127 | over every run of INSERT, UPDATE and DELETE in and out of transactions, with commits, rollbacks and checkpoints, failing or not, in which no UPDATE assigns the key on two rows and no INSERT gives it two values: replaying the published changes over the tables at the start gives the tables as last committed |
| `Replication.DmlIsFaithful` | src/executor.rs:479-917 | an INSERT, UPDATE or DELETE that the executor computes, and that is proper, stages changes that replay the tables in view before to those after, and keeps keys in rows |
| `Replication.TableReplays` | src/executor.rs:455-917 | what each of them captures replays to the table it computes, all other tables untouched |
| `Layouts.RowsUnique` | src/btree.rs:160-234 | pages and root determine the rows of a tree |
| `Layouts.TablesAre` | src/storage.rs:562-812 | pages and schema determine the tables |
| `Layouts.TableReplaced` | src/btree.rs:100-305 | when one tree is replaced on its own and new pages, its table changes and no other |
| `TreeOps.PutRow` | src/btree.rs:100-118 | an insertion that succeeds and loses nothing is a step of a run |
| `TreeOps.TakeRow` | src/btree.rs:236-305 | a deletion is a step of a run unless it overflows a leaf |
| `TreeOps.OpRunRows` | src/btree.rs:100-305 | a run of insertions and deletions changes the rows as it would change a map, and touches no page of another tree |
| `TreeStatements.PlainIsCoded` | src/btree.rs:1572-1702 | a storable row without Real values comes back as it was |
| `TreeStatements.OpsCompute` | src/executor.rs:455-917 | the tree operations of INSERT, UPDATE and DELETE make of the tree the table that the statement computes |
| `TreeStatements.TreePerforms` | src/storage.rs:949-1033 | a statement that makes them, and writes the nodes it gets, leaves pages that hold the table it computes, all others as before |
| `TreeStatements.StepOnTrees` | src/storage.rs:949-1127 | statements, commits, rollbacks and checkpoints keep tables on trees, in view and committed |
| `TreeStatements.TreeFeedReplicates` | src/storage.rs:949-1127 | over every run of such statements, replaying the published changes over the tables decoded from the pages at the start gives the tables decoded from the pages last committed |
| `Values.CompareFlip` | src/executor.rs:954-976 | comparing the other way round gives the mirrored answer |
| `Values.CompareChain` | src/executor.rs:954-976 | the order is transitive across all kinds of values, equality included |
| `Values.BytesOrder` | src/executor.rs:954-976 | byte strings are ordered as words in a dictionary: one is before the other iff they agree up to a place where it ends or has the smaller byte; equal iff the same |
| `Values.CompareMeans` | src/executor.rs:954-976 | two values are equal iff both are NULL, the same text, the same blob, vectors that print alike or numbers of the same value; before and after likewise, NULL last and other kinds by their names |
| `Values.EvaluateIntegers` | src/parser.rs:118-131 | the six operators on integers are =, <>, >, <, >= and <= |
| `Values.EvaluateNumbers` | src/parser.rs:132-164 | and on numbers of any two kinds, by value; LIKE is an error |
| `Values.EvaluateTexts` | src/parser.rs:166-192 | and on texts in dictionary order; LIKE is the matcher's answer |
| `Values.EvaluateOthers` | src/parser.rs:118-200 | nothing holds of NULL, and values of other kinds cannot be compared |
| `Queries.SelectedMeansAll` | src/executor.rs:922-947 | a row is selected iff every condition evaluates to true on it |
| `Queries.SelectedByColumn` | src/executor.rs:922-947 | one condition selects by the row's value in that column, on the left, and the statement's, on the right |
| `Queries.SelectedByInteger` | src/executor.rs:922-947 | WHERE c > 5 and its five sisters select the rows whose integer is so |
| `Queries.UnknownColumn` | src/executor.rs:922-947 | a condition on a column that does not exist selects nothing |
| `Queries.OthersNotSelected` | src/executor.rs:981-1007 | a row under another key than the one asked for is never selected, even when conditions raise errors |
| `Queries.FastPathExact` | src/executor.rs:981-1007 | filtering the candidate rows is filtering a full scan, for every clause |
| `Unique.CheckInsertUnique` | src/executor.rs:1031-1051 | accepts iff no stored row clashes with the new one, which `Unique.FreshMeans` spells out |
| `Unique.ClashMeans` | src/executor.rs:1031-1051 | rows clash in a column iff both values are there and are the same |
| `Unique.FreshMeans` | src/executor.rs:1031-1051 | the check passes iff the new row shares no value with a stored one in a column marked UNIQUE |
| `Unique.UniqueMeans` | src/executor.rs:1031-1072 | UNIQUE holds iff no two rows share a value in such a column |
| `Unique.InsertKeepsUnique` | src/executor.rs:467-471 | adding the row keeps UNIQUE iff the check accepts it |
| `Unique.EqualNeighbours` | src/executor.rs:1063-1068 | in a sorted column a repeated value has an equal neighbour |
| `Unique.CheckUnique` | src/executor.rs:1055-1072 | sort-then-adjacent accepts iff no two rows clash |
| `Dml.InsertKeyed` | src/executor.rs:384-448 | the stored row carries its key iff the first and last value given for the key column agree |
| `Dml.DistinctListKeyed` | src/executor.rs:384-448 | no column named twice is enough for it |
| `Dml.TwiceNamedKey` | src/executor.rs:384-448 | naming the key column twice breaks it |
| `Dml.RefusedMeans` | src/executor.rs:355-448 | INSERT refuses iff the lists differ in length, the table has no key, the key is not named or its first value is no integer, or a value is NULL in a NOT NULL column or no vector of the right length in a vector column |
| `Dml.InsertMeans` | src/executor.rs:355-480 | it goes through iff nothing is refused, the key is absent and no value is shared; the new row holds in every column the last value listed for it, or NULL, and all other rows stay |
| `Dml.ExecuteInsert` | src/executor.rs:355-480 | goes through iff well formed, NULL and vector checks included, the key absent and no UNIQUE clash; then adds the row and captures it |
| `Dml.InsertSound` | src/executor.rs:455-480 | UNIQUE is kept, the row carries its key if that was given once, and the captured change replays to the new table |
| `Dml.ExecuteDelete` | src/executor.rs:874-920 | on any table: removes exactly the rows chosen through lookup or scan, and captures each; which these are say `Dml.DeleteSound` and `Queries.SelectedByInteger` |
| `Dml.DeleteSound` | src/executor.rs:874-920 | keys, UNIQUE and the rest of the table are kept, the captured changes replay to what is left, and where rows carry their keys exactly the selected ones are gone |
| `Dml.DeleteAbove` | src/executor.rs:874-920 | DELETE ... WHERE c > y takes exactly the rows with more than y in that column |
| `Dml.DeletesReplay` | src/executor.rs:895-918 | replaying the deletions removes exactly those keys |
| `Update.PlanUpdates` | src/executor.rs:786-830 | fails iff an assignment fails or a new key is taken, and else plans exactly the rows selected; `UpdateMeans.RefusesMeans` and `Update.AssignedHolds` say when and what |
| `Update.AssignedFails` | src/executor.rs:793-818 | an assignment list fails iff it gives NULL to a NOT NULL column or something other than an integer to the key |
| `Update.AssignedHolds` | src/executor.rs:793-818 | every column named holds the value of the last assignment to it, and every other its old one |
| `UpdateMeans.RefusesMeans` | src/executor.rs:786-830 | a row is refused iff an assignment fails, or the key that its new row carries is another row's |
| `Update.PlanKeepsUnique` | src/executor.rs:832-847 | checking the assigned UNIQUE columns on the final rows keeps every UNIQUE column |
| `Update.ApplyUpdates` | src/executor.rs:850-857 | stores a key twice iff two new keys agree; otherwise the table is the planned one and each update is captured |
| `Update.AppliedKey` | src/executor.rs:850-857 | after the deletes and inserts, key by key: the new row under its new key, nothing under a key left, all else as before |
| `Update.UpdatesReplay` | src/executor.rs:858-866 | the captured changes replay to it |
| `Update.ExecuteUpdate` | src/executor.rs:738-868 | on any table: fails iff there is no key column, an assignment fails, a new key is taken, or two final rows clash in an assigned UNIQUE column; else stores a key twice iff two new keys agree, or leaves the planned table |
| `Update.UpdateSound` | src/executor.rs:738-868 | an UPDATE that stores no key twice keeps keys and UNIQUE, and its changes replay to the new table |
| `UpdateMeans.UpdateStores` | src/executor.rs:786-857 | the new table is the old one with every selected row in its assigned form and every other as it was: each is there, under its key unless that is assigned, and nothing else is |
| `UpdateMeans.UpdateFails` | src/executor.rs:738-847 | it fails iff the table has no key, a selected row is refused, or a row is selected and two rows in their new form share a value in an assigned UNIQUE column |
| `UpdateMeans.WouldClashMeans` | src/executor.rs:832-847 | the check on the final rows fails iff two rows in their new form share such a value |
| `Update.UpdateDoubles` | src/executor.rs:850-857 | it stores a key twice iff it assigns the key on two rows or more |
| `Update.TwoRowsOneKey` | src/executor.rs:786-857 | on the rows 1 and 2, SET id = 3 passes every check and stores the key 3 twice |
| `TableRuns.ExecuteAlter` | src/executor.rs:249-350 | ADD, DROP and RENAME COLUMN: the new columns and every row rewritten, or refused |
| `TableRuns.AlterMeans` | src/executor.rs:249-350 | refused iff a name is taken, a column is missing or the key would be dropped; otherwise every row keeps its key, every surviving column its value and its attributes, an added one is NULL, and a renamed one has its value under the new name |
| `TableRuns.AlterOrder` | src/executor.rs:249-350 | columns keep their order, and an added one comes last |
| `TableRuns.AlterSound` | src/executor.rs:249-350 | each keeps distinct names, keys in rows and UNIQUE |
| `TableRuns.ProperNotDoubled` | src/executor.rs:786-857 | an UPDATE that does not assign the key on two rows stores no key twice |
| `TableRuns.StatementSound` | src/executor.rs:355-920 | every proper statement keeps keys and UNIQUE, and its changes replay |
| `TableRuns.TableInvariants` | src/executor.rs:249-1072 | from an empty table, over every run of INSERT, UPDATE, DELETE and ALTER TABLE, each failing or done: every row carries its key, UNIQUE holds, and filtering the candidate rows is filtering a full scan |
| `TableRuns.TwiceNamedDiverges` | src/executor.rs:384-480 | an INSERT that gives the key two values, then an UPDATE: the changes do not replay to the table |
| `TableRuns.FastPathMisses` | src/executor.rs:981-1007 | such a row is not found through the value it carries, though a scan would select it |
| `Locks.TryAcquire` | src/transaction.rs:283-335 | granted iff no other transaction stands in the way, in the mode asked for unless a stronger one was held; others' locks stay |
| `Locks.LockManager.Acquire` | src/transaction.rs:283-335 | exclusion is kept on every resource |
| `Locks.LockManager.Release` | src/transaction.rs:337-348 | drops exactly that transaction's lock |
| `Locks.LockManager.ReleaseAll` | src/transaction.rs:350-357 | afterwards the transaction holds nothing and the others what they held |
| `Locks.ExclusiveIsAlone` | src/transaction.rs:283-335 | whoever holds a resource exclusively is its only holder |
| `Mvcc.StepInv` | src/mvcc.rs:223-390 | every step keeps ids, timestamps and snapshots in step |
| `Mvcc.BeginSees` | src/mvcc.rs:44-61 | a new snapshot sees a version iff its maker is over and its deleter, if any, is not |
| `Mvcc.SeenWasOver` | src/mvcc.rs:169-182 | all that an active transaction sees was made by transactions that were over when it began |
| `Mvcc.InsertUnseen` | src/mvcc.rs:273-297 | no active transaction sees a fresh insert, not even its maker |
| `Mvcc.DeleteSeen` | src/mvcc.rs:320-333 | another's delete changes what a snapshot sees iff it overwrites a deletion the snapshot saw |
| `Mvcc.OwnDeleteSeen` | src/mvcc.rs:320-333 | its own delete hides the newest version from a transaction, and only that |
| `Mvcc.VacuumSeen` | src/mvcc.rs:132-142 | vacuum changes what a snapshot sees iff it removes the seen version, deleted by a listed transaction that has ended |
| `Mvcc.VacuumInvisible` | src/mvcc.rs:365-389 | while all transactions a snapshot lists are active, vacuum changes none of its reads |
| `Mvcc.RepeatableReads` | src/mvcc.rs:223-389 | over every quiet run an active transaction reads every row as before |
| `Mvcc.CleanIsQuiet` | src/mvcc.rs:320-389 | deletes of undeleted versions and such vacuums are quiet |
| `Mvcc.SnapshotReads` | src/mvcc.rs:223-318 | for as long as it runs a transaction reads the state of the transactions that were over when it began |
| `Mvcc.NextReadsIs` | src/mvcc.rs:223-317 | what the next transaction will read, as a function of the store |
| `Mvcc.ReaderLeavesNoTrace` | src/mvcc.rs:223-270 | beginning, and ending without having written at a place, changes nothing there |
| `Mvcc.InsertWaits` | src/mvcc.rs:273-297 | an insert shows to no later transaction while its maker is active |
| `Mvcc.InsertThenCommit` | src/mvcc.rs:244-297 | insert and commit: the next transaction reads the row, whatever was there before, and every other place as after the commit alone |
| `Mvcc.DeleteWaits` | src/mvcc.rs:320-333 | a delete shows to no later transaction while its maker is active, except that it covers up an earlier deletion |
| `Mvcc.DeleteThenCommit` | src/mvcc.rs:244-333 | delete and commit: the newest version is gone, and nothing else |
| `Mvcc.AbortShows` | src/mvcc.rs:244-270 | aborting shows the next transaction what committing would |
| `Mvcc.VacuumKeepsNext` | src/mvcc.rs:365-389 | vacuum, whoever is active or nobody, changes nothing that the next transaction reads |
| `Mvcc.RetainedExact` | src/mvcc.rs:132-142 | it keeps, in order, exactly the versions not deleted before the horizon |
| `Mvcc.DeleteShowsOlder` | src/mvcc.rs:320-333 | a reachable state in which a delete and its commit bring an older value back |
| `Mvcc.VacuumLosesRow` | src/mvcc.rs:365-389 | a reachable state in which vacuum takes a row from a reader |
| `Mvcc.DeleteBringsBack` | src/mvcc.rs:122-129 | a reachable state in which a delete resurrects a row for a reader |
| `Mvcc.AbortedInsertIsSeen` | src/mvcc.rs:262-270 | a reachable state in which an aborted insert is read |
| `MvccManagers.VisibleVersion` | src/mvcc.rs:116-119 | the newest visible version |
| `MvccManagers.MvccManager.BeginTransaction` | src/mvcc.rs:223-241 | a snapshot of the clock and the active transactions |
| `MvccManagers.MvccManager.CommitTransaction` | src/mvcc.rs:244-259 | the commit step |
| `MvccManagers.MvccManager.AbortTransaction` | src/mvcc.rs:262-270 | the abort step, which leaves the versions |
| `MvccManagers.MvccManager.InsertVersion` | src/mvcc.rs:273-297 | the insert step: a new version behind those that are there |
| `MvccManagers.MvccManager.DeleteVersion` | src/mvcc.rs:320-333 | the delete step; the clock advances even when nothing is found |
| `MvccManagers.MvccManager.ReadVersion` | src/mvcc.rs:300-317 | what the snapshot sees |
| `MvccManagers.MvccManager.ScanTable` | src/mvcc.rs:336-357 | every row a read would find, once, by increasing key |
| `MvccManagers.MvccManager.OldestTimestamp` | src/mvcc.rs:367-374 | the least timestamp of an active snapshot, or the clock |
| `MvccManagers.MvccManager.VacuumAll` | src/mvcc.rs:365-389 | the vacuum step on every record |

## Left out

- BTreeIndex.BTree.Insert: when splits reach a stale root, the dead page it names is taken to have room for the halves hung from it (`StaleFits`); beyond 64 of them the code splits that page and may make a dead page the root. Page ids are taken to stay within the 32 bits of the parent field.
- BTreeIndex.BTree.InsertIntoLeaf: the same two conditions.
- BTreeIndex.BTree.SplitAndInsert: the same two conditions.
- BTreeIndex.BTree.InsertIntoParent: the same two conditions.
- BTreeIndex.BTree.InsertIntoInternal: the same two conditions.
- Databases.OpenDatabase: a file of one page, which nothing in the code leaves behind, is not covered.
- Sessions.ExecuteSettles: a statement is an arbitrary function of the pages in view and the schema, off the schema page; `TreeStatements` says what INSERT, UPDATE and DELETE are. The schema fits page 1.
- Sessions.CatalogSaved: the schema fits page 1; `SchemaPages.SaveKeepsOthers` shows what a larger one does.
- Replication.FeedReplicates: for an arbitrary layout, of which it assumes that statements respect it; `TreeStatements.TreeFeedReplicates` is the theorem for trees on pages. CREATE, DROP and ALTER TABLE are not captured by the code, and are not part of its runs.
- TreeStatements.TreeFeedReplicates: statements that fail, refuse or lose rows in the tree do not count as successful ones; that each page written encodes its node is assumed, the byte edits being proved one by one in `LeafEdits` and `InternalPages`.
- Update.ExecuteUpdate: assignments are a list rather than a hash map.
- RowCodec.DeserializeRow: a slice past the end of the buffer, which makes the code panic, is an error here.
- Values.CompareFlip: numbers are reals, so neither NaN nor the rounding of large integers to floats is covered.
- Values.CompareChain: numbers are reals, as above; the printed form behind the comparison of vectors is an arbitrary function.
- Locks.LockManager.Acquire: one attempt is one atomic step; timeouts, back-off and the unlocked moment inside release are not modelled.
- Locks and reference-counted pages that callers share with the cache: pages are values, so a caller cannot change a cached page through an alias.
- Operating-system errors beyond failed appends, failed checkpoints and crashes; a crash between truncating the log and its fsync.
- The bytes of the schema itself, CREATE and DROP TABLE, RENAME TO, NOT NULL for columns that an INSERT does not list, LIKE, parsing, ORDER BY and LIMIT.
- Vector search, SIMD, lock-free and hybrid storage, CRDTs, cloud and persistent-memory back ends, the asynchronous API and the command line.
