/** Starting again after a crash: cut the log's torn tail, replay it, open the catalog and read every table, whether or not a
    split was under way. */
module Reopenings {
  import opened Pages
  import opened Cells
  import opened Trees
  import opened TreeTop
  import opened LogClosed
  import opened Wal
  import opened Recovery
  import opened PoolModel
  import opened Buffers
  import opened BTrees
  import opened CatalogModel
  import opened CatalogRuns
  import opened RowCodecs
  import opened Catalogs
  import opened CatalogCalls
  import opened Journals
  import Engines
  import Plans

  // ---------- what the tables can be ----------

  /** Each table has an accepted schema and rows it accepts under their keys; no name is used twice. */
  ghost predicate ContentOk(ts: Content) {
    && (forall i <- ts :: i < MAX_CATALOG_TABLES && TableOk(ts[i]))
    && (forall i <- ts, j <- ts :: ts[i].name == ts[j].name ==> i == j)
  }

  ghost predicate TableOk(t: TableRows) {
    SchemaOk(t.columns) && forall k <- t.rows :: RowOk(t.columns, t.rows[k]) && KeyOf(t.columns, t.rows[k]) == k
  }

  lemma EffectOk(ts: Content, call: Call)
    requires ContentOk(ts)
    ensures ContentOk(Effect(ts, call))
  {
    hide SchemaOk, RowOk, KeyOf;
    match call
    case Create(_, _) => FirstFreeIs(ts, 0);
    case Insert(_, _) =>
  }

  /** Calls leave nothing else. */
  lemma {:induction false} EffectsOk(ts: Content, calls: seq<Call>)
    requires ContentOk(ts)
    ensures ContentOk(Effects(ts, calls))
    decreases |calls|
  {
    hide ContentOk, Effect;
    if calls != [] {
      EffectsOk(ts, calls[..|calls| - 1]);
      EffectOk(Effects(ts, calls[..|calls| - 1]), calls[|calls| - 1]);
    }
  }

  // ---------- the catalog a store holds ----------

  function HandlesOf(ts: Content): (hs: seq<Handle>)
    ensures |hs| == MAX_CATALOG_TABLES
    ensures forall i: nat :: i < MAX_CATALOG_TABLES ==>
                               (hs[i].inUse <==> i in ts) && (i in ts ==> hs[i].name == ts[i].name && hs[i].columns == ts[i].columns)
  {
    seq(MAX_CATALOG_TABLES, i requires 0 <= i < MAX_CATALOG_TABLES =>
      if i in ts then Handle(true, ts[i].name, ts[i].columns, None) else Handle(false, "", [], None))
  }

  function RowsOf(ts: Content): (rows: seq<map<Key, Row>>)
    ensures |rows| == MAX_CATALOG_TABLES && forall i: nat :: i < MAX_CATALOG_TABLES && i in ts ==> rows[i] == ts[i].rows
  {
    seq(MAX_CATALOG_TABLES, i requires 0 <= i < MAX_CATALOG_TABLES => if i in ts then ts[i].rows else map[])
  }

  ghost function TreeIn(s: Store, i: nat, m: map<Key, Bytes>): (t: Tree)
    requires HoldsMap(s, Some(i), m)
    ensures HoldsTree(s, Some(i), t) && ToMap(Contents(t)) == m
  {
    var t :| HoldsTree(s, Some(i), t) && ToMap(Contents(t)) == m;
    t
  }

  ghost function TreesOf(s: Store, ts: Content): (trees: seq<TableTree>)
    requires HoldsCatalog(s, StoredTables(ts)) && ContentOk(ts)
    ensures |trees| == MAX_CATALOG_TABLES
    ensures forall i: nat :: i in ts ==>
              && i < MAX_CATALOG_TABLES && HoldsTree(s, Some(i), trees[i].tree)
              && ToMap(Contents(trees[i].tree)) == Encoded(ts[i].columns, ts[i].rows)
  {
    seq(MAX_CATALOG_TABLES, i requires 0 <= i < MAX_CATALOG_TABLES =>
      if i in ts then
        StoredEntry(s, ts, i);
        TableTree(TreeIn(s, i, Encoded(ts[i].columns, ts[i].rows)), 0)
      else TableTree(Leaf(0, []), 0))
  }

  lemma StoredEntry(s: Store, ts: Content, i: nat)
    requires HoldsCatalog(s, StoredTables(ts)) && i in ts
    ensures InUse(s, i) && s[ANCHOR].tables[i].name == ts[i].name && s[ANCHOR].tables[i].columns == ts[i].columns
    ensures HoldsMap(s, Some(i), Encoded(ts[i].columns, ts[i].rows))
  {
    hide HoldsMap, Encoded;
    assert i in StoredTables(ts);
    assert HoldsTable(s, i, StoredTables(ts)[i]);
  }

  lemma EncodedStores(columns: seq<ColumnDef>, rows: map<Key, Row>)
    requires SchemaOk(columns) && forall k <- rows :: RowOk(columns, rows[k]) && KeyOf(columns, rows[k]) == k
    ensures Stores(columns, rows, Encoded(columns, rows))
  {
    hide RowOk, RowBytes, KeyOf, SchemaOk;
  }

  /** A store that holds the tables can be read as a catalog of them. */
  lemma Rebuilt(s: Store, ts: Content)
    requires HoldsCatalog(s, StoredTables(ts)) && ContentOk(ts)
    ensures ANCHOR in s && s[ANCHOR].CatalogPage? && |s[ANCHOR].tables| == MAX_CATALOG_TABLES
    ensures Held(s, TreesOf(s, ts)) && Mirrors(HandlesOf(ts), RowsOf(ts), TreesOf(s, ts), s[ANCHOR])
  {
    hide HoldsMap, Encoded, SchemaOk, RowOk, KeyOf, Stores, HoldsTree, Contents, ToMap, HoldsTable, TreesOf, HandlesOf, RowsOf;
    forall i: nat
      ensures InUse(s, i) <==> i in ts
    {
      assert i in StoredTables(ts) <==> i in ts;
    }
    forall i: nat | i in ts
      ensures InUse(s, i) && s[ANCHOR].tables[i].name == ts[i].name && s[ANCHOR].tables[i].columns == ts[i].columns
      ensures TableStored(ts[i].columns, ts[i].rows, TreesOf(s, ts)[i])
    {
      StoredEntry(s, ts, i);
      EncodedStores(ts[i].columns, ts[i].rows);
    }
  }

  lemma ToldBack(hs: seq<Handle>, ts: Content, page: Page)
    requires ContentOk(ts) && page.CatalogPage? && |hs| == |page.tables| == MAX_CATALOG_TABLES
    requires forall i :: 0 <= i < |hs| ==> SameEntry(hs[i], page.tables[i]) && SameEntry(HandlesOf(ts)[i], page.tables[i])
    ensures Told(hs, RowsOf(ts)) == ts
  {
    hide TableOk, HandlesOf, RowsOf;
  }

  // ---------- reopening ----------

  /** Cut the log's torn tail, replay it over whatever the data file holds, and open the catalog.  If the surviving log holds
      the tables, in the middle of a split perhaps, the catalog has exactly those. */
  method Reopen(file: seq<Slot>, contents: Store, length: nat, poolSize: nat, ghost ts: Content) returns (c: Catalog)
    requires Increasing(ValidPrefix(file)) && poolSize > 0 && ContentOk(ts)
    requires (forall p <- contents :: p < length) && (length > 0 ==> length - 1 in contents)
    requires forall p <- contents :: p in Apply(map[], Images(ValidPrefix(file)))
    requires HoldsCatalog(Apply(map[], Images(ValidPrefix(file))), StoredTables(ts))
    ensures fresh(c) && fresh(c.pool) && fresh(c.pool.disk) && fresh(c.pool.wal) && fresh(c.Objects())
    ensures c.Readable() && ContentOf(c) == ts && c.pool.View() == Apply(map[], Images(ValidPrefix(file)))
  {
    hide HoldsCatalog, Apply, ValidPrefix, Images, Open, ClosedLog, Extends, Held, Mirrors, BufferPool.View, BufferPool.Pins, Told, StoredTables,
         ContentOk, Catalogued, TreesOf, HandlesOf, RowsOf, PoolModel.Inv;
    var wal := new WALManager(file);
    var disk := new DiskManager(contents, length);
    RunRecovery(disk, wal);
    ReplayForgetsDisk(contents, contents, Images(wal.validRecords));
    var pool := new BufferPool(poolSize, disk, wal);
    ghost var s := pool.View();
    Rebuilt(s, ts);
    assert pool.View() == pool.Durable();
    c := OpenCatalog(pool, HandlesOf(ts), TreesOf(s, ts), RowsOf(ts));
    MirrorsEntries(HandlesOf(ts), RowsOf(ts), TreesOf(s, ts), s[ANCHOR]);
    ToldBack(c.handles, ts, s[ANCHOR]);
  }

  lemma MirrorsEntries(hs: seq<Handle>, rows: seq<map<Key, Row>>, trees: seq<TableTree>, page: Page)
    requires Mirrors(hs, rows, trees, page)
    ensures |hs| == |page.tables| == MAX_CATALOG_TABLES && forall i :: 0 <= i < |hs| ==> SameEntry(hs[i], page.tables[i])
  {
    hide SchemaOk, Stores;
  }

  /** And scan every table: each gives the rows it has, in key order, with the count its catalog entry keeps. */
  method ReopenAndRead(file: seq<Slot>, contents: Store, length: nat, poolSize: nat, ghost ts: Content) returns (c: Catalog, db: Plans.Db)
    requires Increasing(ValidPrefix(file)) && poolSize > 0 && ContentOk(ts)
    requires (forall p <- contents :: p < length) && (length > 0 ==> length - 1 in contents)
    requires forall p <- contents :: p in Apply(map[], Images(ValidPrefix(file)))
    requires HoldsCatalog(Apply(map[], Images(ValidPrefix(file))), StoredTables(ts))
    ensures fresh(c) && c.Readable()
    ensures ContentOf(c) == ts && Engines.Shows(c.handles, c.rows, Apply(map[], Images(ValidPrefix(file))), db)
  {
    hide HoldsCatalog, Apply, ValidPrefix, Images, BufferPool.View, BufferPool.Valid, BufferPool.Pins, Held, Mirrors, Opened, Catalog.TreesOpened,
         Told, StoredTables, ContentOk, Engines.Shows, Extends, ClosedLog;
    c := Reopen(file, contents, length, poolSize, ts);
    ghost var hs := c.handles;
    db := Engines.ReadTables(c);
    ToldSame(hs, c.handles, c.rows);
  }

  /** From an empty database on, whatever prefix of the log a crash leaves, those tables are the ones after some of the calls:
      the premises of reopening hold. */
  lemma CrashReopens(now: Store, calls: seq<Call>) returns (done: nat)
    requires HoldsOne(HoldsCatalog, now, TablesAfter(map[], calls))
    ensures done <= |calls| && ContentOk(Effects(map[], calls[..done])) && HoldsCatalog(now, StoredTables(Effects(map[], calls[..done])))
  {
    hide HoldsCatalog, StoredTables, Effects, TablesAfter;
    var vs := TablesAfter(map[], calls);
    var j :| 0 <= j < |vs| && HoldsCatalog(now, vs[j]);
    done := j;
    EffectsOk(map[], calls[..done]);
  }
}
