/** How the pages of a database hold its tables: a B-tree per table, rooted where the schema says,
    each row encoded in a leaf entry. */
module Layouts {
  import opened Options
  import opened Results
  import opened Bytes
  import opened Rows
  import opened Cdc
  import opened Wal
  import opened PagerStore
  import opened Sessions
  import Shape = BTreeShape
  import Link = BTreeLink
  import Insertion = BTreeInsert
  import Nodes = InternalPages
  import Codec = RowCodec

  type Utf8 = seq<byte> -> bool

  // ---------------------------------------------------------------- trees on pages

  /** Every one of these pages is on the page of that number. */
  ghost predicate Shows(db: seq<Page>, pages: Shape.Pages) {
    forall p :: p in pages ==> p < |db| && Nodes.Encodes(db[p], pages[p])
  }

  ghost predicate TreeOn(db: seq<Page>, root: nat, a: Link.Tree) {
    Link.Sound(a, root) && a.n == |db| && Shows(db, a.pages)
  }

  /** Two readings of the pages from the same root find the same under a key. */
  lemma {:induction false} SameBelow(db: seq<Page>, root: nat, a: Link.Tree, b: Link.Tree, p: nat, k: int)
    requires TreeOn(db, root, a) && TreeOn(db, root, b) && p in a.info && p in b.info
    requires a.info[p].lo == b.info[p].lo && a.info[p].hi == b.info[p].hi && a.info[p].lo <= k < a.info[p].hi
    ensures (k in a.rows <==> k in b.rows) && (k in a.rows ==> a.rows[k] == b.rows[k])
    decreases a.info[p].height
  {
    assert Shape.NodeOk(a.pages, a.info, root, {}, p) && Shape.NodeOk(b.pages, b.info, root, {}, p);
    Nodes.NodeUnique(db[p], a.pages[p], b.pages[p]);
    if a.pages[p].Leaf? {
      assert Shape.LeafHolds(a.pages[p].entries, a.info[p], a.rows) && Shape.LeafHolds(b.pages[p].entries, b.info[p], b.rows);
    } else {
      var ks, cs := a.pages[p].keys, a.pages[p].children;
      var i := Insertion.SlotOf(ks, a.info[p], k);
      assert Shape.ChildOk(a.pages, a.info, p, ks, a.info[p], cs[i], i);
      assert Shape.ChildOk(b.pages, b.info, p, ks, b.info[p], cs[i], i);
      SameBelow(db, root, a, b, cs[i], k);
    }
  }

  lemma {:induction false} SameMap(x: Shape.Rows, y: Shape.Rows)
    requires forall k :: (k in x <==> k in y) && (k in x ==> x[k] == y[k])
    ensures x == y
  {
    forall k
      ensures k in x <==> k in y
      ensures k in x ==> x[k] == y[k]
    {
    }
  }

  /** The pages and the root determine the rows. */
  lemma {:induction false} RowsUnique(db: seq<Page>, root: nat, a: Link.Tree, b: Link.Tree)
    requires TreeOn(db, root, a) && TreeOn(db, root, b)
    ensures a.rows == b.rows
  {
    forall k
      ensures (k in a.rows <==> k in b.rows) && (k in a.rows ==> a.rows[k] == b.rows[k])
    {
      if Shape.KEY_MIN <= k < Shape.KEY_END {
        SameBelow(db, root, a, b, root, k);
      }
    }
    SameMap(a.rows, b.rows);
  }

  // ---------------------------------------------------------------- tables

  /** What a row is read as. */
  type RowReader = seq<byte> -> Row

  ghost function Reading(utf8: Utf8): RowReader {
    buf =>
      var r := Codec.DecodeRow(Codec.Decoding(utf8), buf);
      if r.Ok? then r.value else []
  }

  ghost function Decoded(read: RowReader, rows: Shape.Rows): Table {
    map k | k in rows :: read(rows[k])
  }

  /** What it means for a tree to be on the pages, under a root. */
  type Holding = (seq<Page>, nat, Link.Tree) -> bool

  ghost function OnPages(): Holding {
    (db: seq<Page>, root: nat, a: Link.Tree) => TreeOn(db, root, a)
  }

  /** The pages and the root determine the rows. */
  ghost predicate Determines(on: Holding) {
    forall db, root, a, b {:trigger on(db, root, a), on(db, root, b)} :: on(db, root, a) && on(db, root, b) ==> a.rows == b.rows
  }

  lemma {:induction false} PagesDetermine()
    ensures Determines(OnPages())
  {
    var on := OnPages();
    forall db, root, a, b | on(db, root, a) && on(db, root, b)
      ensures a.rows == b.rows
    {
      RowsUnique(db, root, a, b);
    }
  }

  ghost predicate Planted(on: Holding, db: seq<Page>, cat: Catalog, name: string, a: Link.Tree) {
    name in cat.roots && on(db, cat.roots[name], a) && SCHEMA_PAGE !in a.pages
  }

  ghost predicate Apart(trees: map<string, Link.Tree>) {
    forall m, n, p :: m in trees && n in trees && p in trees[m].pages && p in trees[n].pages ==> m == n
  }

  /** Each table of the catalog has its tree on the pages; no two share a page, and none has the
      schema page. */
  ghost predicate Laid(on: Holding, db: seq<Page>, cat: Catalog, trees: map<string, Link.Tree>) {
    trees.Keys == cat.tables.Keys && (forall name :: name in trees ==> Planted(on, db, cat, name, trees[name])) && Apart(trees)
  }

  ghost predicate IsLaid(env: Env, on: Holding, db: seq<Page>) {
    SCHEMA_PAGE < |db| && exists trees :: Laid(on, db, env.schemaOf(db[SCHEMA_PAGE]), trees)
  }

  ghost function TablesIn(read: RowReader, trees: map<string, Link.Tree>): Tables {
    map name | name in trees :: Decoded(read, trees[name].rows)
  }

  ghost function TablesOf(env: Env, on: Holding, read: RowReader, db: seq<Page>): Tables {
    if IsLaid(env, on, db) then
      var trees :| Laid(on, db, env.schemaOf(db[SCHEMA_PAGE]), trees);
      TablesIn(read, trees)
    else map[]
  }

  lemma {:induction false} SameTables(on: Holding, read: RowReader, db: seq<Page>, cat: Catalog, trees: map<string, Link.Tree>, others: map<string, Link.Tree>)
    requires Determines(on) && Laid(on, db, cat, trees) && Laid(on, db, cat, others)
    ensures TablesIn(read, others) == TablesIn(read, trees)
  {
    forall name | name in trees
      ensures others[name].rows == trees[name].rows
    {
      assert Planted(on, db, cat, name, others[name]) && Planted(on, db, cat, name, trees[name]);
    }
    SameNamed(TablesIn(read, others), TablesIn(read, trees));
  }

  lemma {:induction false} SameNamed(x: Tables, y: Tables)
    requires forall name :: (name in x <==> name in y) && (name in x ==> x[name] == y[name])
    ensures x == y
  {
    forall name
      ensures name in x <==> name in y
      ensures name in x ==> x[name] == y[name]
    {
    }
  }

  /** Whichever trees are found on the pages, the tables are theirs. */
  lemma {:induction false} TablesAre(env: Env, on: Holding, read: RowReader, db: seq<Page>, trees: map<string, Link.Tree>)
    requires Determines(on) && SCHEMA_PAGE < |db| && Laid(on, db, env.schemaOf(db[SCHEMA_PAGE]), trees)
    ensures IsLaid(env, on, db) && TablesOf(env, on, read, db) == TablesIn(read, trees)
  {
    var cat := env.schemaOf(db[SCHEMA_PAGE]);
    forall others | Laid(on, db, cat, others)
      ensures TablesIn(read, others) == TablesIn(read, trees)
    {
      SameTables(on, read, db, cat, trees, others);
    }
  }

  // ---------------------------------------------------------------- one tree changes

  lemma {:induction false} SoundLater(a: Link.Tree, t: nat, n: nat)
    requires Link.Sound(a, t) && a.n <= n
    ensures Link.Sound(a.(n := n), t)
  {
    assert forall p :: p in a.pages ==> p < n;
  }

  /** A tree whose pages are not touched stays. */
  ghost predicate Stays(on: Holding) {
    forall db, db', t, a {:trigger on(db, t, a), on(db', t, a.(n := |db'|))} ::
      on(db, t, a) && |db| <= |db'| && (forall p :: p in a.pages && p < |db| ==> db'[p] == db[p]) ==> on(db', t, a.(n := |db'|))
  }

  lemma {:induction false} TreesStay()
    ensures Stays(OnPages())
  {
    var on := OnPages();
    forall db, db', t, a | on(db, t, a) && |db| <= |db'| && (forall p :: p in a.pages && p < |db| ==> db'[p] == db[p])
      ensures on(db', t, a.(n := |db'|))
    {
      SoundLater(a, t, |db'|);
    }
  }

  /** Tree `b` is where tree `a` was, and no page has changed but its own, new pages and the
      schema page. */
  ghost predicate Replaces(on: Holding, db: seq<Page>, db': seq<Page>, a: Link.Tree, root: nat, b: Link.Tree) {
    && on(db', root, b) && Link.Grew(a.pages, |db|, b.pages, b.n) && SCHEMA_PAGE !in b.pages
    && |db| <= |db'| && forall p :: 0 <= p < |db| && p != SCHEMA_PAGE && p !in b.pages ==> db'[p] == db[p]
  }

  ghost function WithTree(trees: map<string, Link.Tree>, n: nat, name: string, b: Link.Tree): map<string, Link.Tree> {
    map m | m in trees :: if m == name then b else trees[m].(n := n)
  }

  /** Pages of a tree are pages of the file. */
  ghost predicate Bounded(on: Holding) {
    forall db, t, a, p :: on(db, t, a) && p in a.pages ==> p < |db|
  }

  lemma {:induction false} TreesBounded()
    ensures Bounded(OnPages())
  {
  }

  lemma {:induction false} OthersStay(on: Holding, db: seq<Page>, db': seq<Page>, cat: Catalog, trees: map<string, Link.Tree>, name: string, root: nat, b: Link.Tree, m: string)
    requires Stays(on) && Bounded(on) && Laid(on, db, cat, trees) && name in trees && Replaces(on, db, db', trees[name], root, b) && m in trees && m != name
    ensures Planted(on, db', cat.(roots := cat.roots[name := root]), m, trees[m].(n := |db'|))
    ensures forall p :: p in trees[m].pages ==> p !in b.pages
  {
    assert Planted(on, db, cat, m, trees[m]);
    forall p | p in trees[m].pages
      ensures p !in b.pages && p != SCHEMA_PAGE && p < |db|
    {
      assert p !in trees[name].pages;
    }
    assert on(db', cat.roots[m], trees[m].(n := |db'|));
  }

  lemma {:induction false} StillApart(trees: map<string, Link.Tree>, n: nat, name: string, b: Link.Tree)
    requires Apart(trees) && forall m, p :: m in trees && m != name && p in trees[m].pages ==> p !in b.pages
    ensures Apart(WithTree(trees, n, name, b))
  {
  }

  lemma {:induction false} StillLaid(on: Holding, db: seq<Page>, db': seq<Page>, cat: Catalog, trees: map<string, Link.Tree>, name: string, root: nat, b: Link.Tree)
    requires Stays(on) && Bounded(on) && Laid(on, db, cat, trees) && name in trees && Replaces(on, db, db', trees[name], root, b)
    ensures Laid(on, db', cat.(roots := cat.roots[name := root]), WithTree(trees, |db'|, name, b))
  {
    var cat', trees' := cat.(roots := cat.roots[name := root]), WithTree(trees, |db'|, name, b);
    forall m | m in trees'
      ensures Planted(on, db', cat', m, trees'[m])
      ensures m != name ==> forall p :: p in trees[m].pages ==> p !in b.pages
    {
      if m != name {
        OthersStay(on, db, db', cat, trees, name, root, b, m);
      }
    }
    StillApart(trees, |db'|, name, b);
  }

  lemma {:induction false} TablesWith(read: RowReader, trees: map<string, Link.Tree>, n: nat, name: string, b: Link.Tree)
    requires name in trees
    ensures TablesIn(read, WithTree(trees, n, name, b)) == TablesIn(read, trees)[name := Decoded(read, b.rows)]
  {
    SameNamed(TablesIn(read, WithTree(trees, n, name, b)), TablesIn(read, trees)[name := Decoded(read, b.rows)]);
  }

  /** Then the tables are as before, but for the one that the tree holds. */
  lemma {:induction false} TableReplaced(env: Env, on: Holding, read: RowReader, db: seq<Page>, db': seq<Page>, trees: map<string, Link.Tree>, name: string, root: nat, b: Link.Tree)
    requires Determines(on) && Stays(on) && Bounded(on)
    requires SCHEMA_PAGE < |db| && Laid(on, db, env.schemaOf(db[SCHEMA_PAGE]), trees) && name in trees && Replaces(on, db, db', trees[name], root, b)
    requires var cat := env.schemaOf(db[SCHEMA_PAGE]);
             SCHEMA_PAGE < |db'| && env.schemaOf(db'[SCHEMA_PAGE]) == cat.(roots := cat.roots[name := root])
    ensures IsLaid(env, on, db')
    ensures TablesOf(env, on, read, db) == TablesIn(read, trees)
    ensures TablesOf(env, on, read, db') == TablesIn(read, trees)[name := Decoded(read, b.rows)]
  {
    StillLaid(on, db, db', env.schemaOf(db[SCHEMA_PAGE]), trees, name, root, b);
    TablesAre(env, on, read, db, trees);
    TablesAre(env, on, read, db', WithTree(trees, |db'|, name, b));
    TablesWith(read, trees, |db'|, name, b);
  }
}
