/** The catalog object: tables by name, each a B+tree of encoded rows over the shared buffer pool. */
module Catalogs {
  import opened Pages
  import opened Cells
  import opened Trees
  import opened TreeTop
  import opened TreeStages
  import opened TreeUpdate
  import opened PoolModel
  import opened Buffers
  import opened BTrees
  import opened CatalogModel
  import opened CatalogRuns
  import opened Journals
  import opened LogClosed
  import opened RowCodecs
  import Query

  type Row = seq<Query.Value>

  /** What is kept in memory of one table; its tree is opened on first use. */
  datatype Handle = Handle(inUse: bool, name: string, columns: seq<ColumnDef>, tree: Option<BTree>)

  const MAX_CATALOG_COLUMNS := 8
  const CATALOG_TABLE_NAME_LEN := 32
  const CATALOG_COLUMN_NAME_LEN := 24

  // ---------- schemas ----------

  ghost predicate OnePrimaryKey(columns: seq<ColumnDef>) {
    exists k :: 0 <= k < |columns| && columns[k].isPrimaryKey && columns[k].ctype.IntegerType?
                && forall j :: 0 <= j < |columns| && columns[j].isPrimaryKey ==> j == k
  }

  ghost predicate SchemaOk(columns: seq<ColumnDef>) {
    && 1 <= |columns| <= MAX_CATALOG_COLUMNS
    && (forall c <- columns :: 1 <= |c.name| < CATALOG_COLUMN_NAME_LEN)
    && OnePrimaryKey(columns)
    && EncodedSize(columns) <= VALUE_SIZE
  }

  /** The schemas accepted: one to eight columns with names of 1 to 23 bytes, of which exactly one is the primary key, an INTEGER.
      The check of the encoded size never refuses one of them. */
  lemma SchemaIs(columns: seq<ColumnDef>)
    ensures SchemaOk(columns) <==>
            && 1 <= |columns| <= 8 && (forall c <- columns :: 1 <= |c.name| <= 23)
            && exists k :: 0 <= k < |columns| && columns[k].isPrimaryKey && columns[k].ctype.IntegerType?
                           && forall j :: 0 <= j < |columns| && columns[j].isPrimaryKey ==> j == k
  {
    hide PrimaryKeyIndex, WidthOf;
    WidthBound(columns, |columns|);
    if k :| 0 <= k < |columns| && columns[k].isPrimaryKey {
      assert columns[k] in columns;
    }
  }

  /** The position of the primary key. */
  function KeyIndex(columns: seq<ColumnDef>): (k: nat)
    requires SchemaOk(columns)
    ensures k < |columns| && columns[k].isPrimaryKey && columns[k].ctype.IntegerType? && PrimaryKeyIndex(columns) == Some(k)
  {
    PrimaryKeyIndex(columns).value
  }

  method CheckColumns(columns: seq<ColumnDef>) returns (ok: bool)
    ensures ok <==> SchemaOk(columns)
  {
    if columns == [] || |columns| > MAX_CATALOG_COLUMNS {
      return false;
    }
    var pkCount, pkIndex := 0, 0;
    var i := 0;
    while i < |columns|
      invariant 0 <= i <= |columns| && pkCount >= 0
      invariant forall j :: 0 <= j < i ==> 1 <= |columns[j].name| < CATALOG_COLUMN_NAME_LEN
      invariant pkCount == 0 <==> forall j :: 0 <= j < i ==> !columns[j].isPrimaryKey
      invariant pkCount > 0 ==> 0 <= pkIndex < i && columns[pkIndex].isPrimaryKey
      invariant pkCount == 1 ==> forall j :: 0 <= j < i && columns[j].isPrimaryKey ==> j == pkIndex
      invariant pkCount > 1 ==> exists j :: 0 <= j < pkIndex && columns[j].isPrimaryKey
    {
      if columns[i].name == "" || |columns[i].name| >= CATALOG_COLUMN_NAME_LEN {
        assert columns[i] in columns;
        return false;
      }
      if columns[i].isPrimaryKey {
        pkCount, pkIndex := pkCount + 1, i;
      }
      i := i + 1;
    }
    assert forall c <- columns :: 1 <= |c.name| < CATALOG_COLUMN_NAME_LEN;
    if pkCount != 1 {
      return false;
    }
    if !columns[pkIndex].ctype.IntegerType? {
      return false;
    }
    return EncodedSize(columns) <= VALUE_SIZE;
  }

  // ---------- rows in a tree ----------

  /** A row as the table accepts it. */
  ghost predicate RowOk(columns: seq<ColumnDef>, row: Row) {
    && SchemaOk(columns) && RowEncodable(columns, row, |columns|) && AllRepresentable(row) && row[KeyIndex(columns)].IntV?
  }

  ghost function KeyOf(columns: seq<ColumnDef>, row: Row): Key
    requires RowOk(columns, row)
  {
    assert row[KeyIndex(columns)] in row;
    row[KeyIndex(columns)].i
  }

  /** The rows accepted: a value of its type for each column, the key included, integers of 64 bits and texts of at most 15 bytes. */
  lemma RowIs(columns: seq<ColumnDef>, row: Row)
    requires SchemaOk(columns)
    ensures RowOk(columns, row) <==>
            && |row| == |columns|
            && forall k :: 0 <= k < |row| ==>
                             match row[k]
                             case IntV(i) => columns[k].ctype.IntegerType? && -0x8000_0000_0000_0000 <= i <= 0x7FFF_FFFF_FFFF_FFFF
                             case TextV(s) => columns[k].ctype.TextType? && |s| <= 15 && forall c <- s :: c as int <= 255
  {
    hide PrimaryKeyIndex, SchemaOk;
    var pk := KeyIndex(columns);
    if |row| == |columns| {
      assert row[pk] in row;
      forall k | 0 <= k < |row|
        ensures row[k] in row
        ensures Stored(columns, k) <==> k != pk
      {
      }
      forall v | v in row
        ensures exists k :: 0 <= k < |row| && row[k] == v
      {
      }
    }
  }

  /** The entries of the tree are the encoded rows, each under its own primary key. */
  ghost predicate Stores(columns: seq<ColumnDef>, rows: map<Key, Row>, entries: map<Key, Bytes>) {
    && rows.Keys == entries.Keys
    && forall k <- rows :: RowOk(columns, rows[k]) && KeyOf(columns, rows[k]) == k && entries[k] == RowBytes(columns, rows[k], |columns|)
  }

  function PutRow(rows: map<Key, Row>, key: Key, row: Row): map<Key, Row> {
    rows[key := row]
  }

  lemma StoresPut(columns: seq<ColumnDef>, rows: map<Key, Row>, entries: map<Key, Bytes>, row: Row)
    requires Stores(columns, rows, entries) && RowOk(columns, row)
    ensures Stores(columns, PutRow(rows, KeyOf(columns, row), row), entries[KeyOf(columns, row) := RowBytes(columns, row, |columns|)])
  {
    hide RowOk, RowBytes;
  }

  /** The scan result: one row per key, in strictly increasing key order. */
  ghost predicate InKeyOrder(columns: seq<ColumnDef>, rows: map<Key, Row>, out: seq<Row>) {
    && (forall k <- rows :: rows[k] in out)
    && (forall k :: 0 <= k < |out| ==> RowOk(columns, out[k]) && KeyOf(columns, out[k]) in rows && rows[KeyOf(columns, out[k])] == out[k])
    && (forall a, b :: 0 <= a < b < |out| ==> KeyOf(columns, out[a]) < KeyOf(columns, out[b]))
  }

  /** One stored cell decodes to its row. */
  lemma CellRow(columns: seq<ColumnDef>, rows: map<Key, Row>, entries: map<Key, Bytes>, key: Key, out: Row)
    requires SchemaOk(columns) && Stores(columns, rows, entries) && key in entries
    requires |out| == |columns| && Decoded(columns, key, entries[key], |columns|, out)
    ensures out == rows[key]
  {
    hide RowBytes, SchemaOk, Decoded;
    DecodeUndoesEncode(columns, rows[key], key, out);
  }

  lemma CellSize(columns: seq<ColumnDef>, rows: map<Key, Row>, entries: map<Key, Bytes>, key: Key)
    requires Stores(columns, rows, entries) && key in entries
    ensures |entries[key]| == EncodedSize(columns)
  {
  }

  lemma SameKeys(columns: seq<ColumnDef>, rows: map<Key, Row>, entries: map<Key, Bytes>)
    requires Stores(columns, rows, entries)
    ensures rows.Keys == entries.Keys
  {
  }

  /** Decode the cells of a scan. */
  method DecodeAll(columns: seq<ColumnDef>, cells: seq<Cell>, ghost rows: map<Key, Row>, ghost entries: map<Key, Bytes>)
    returns (out: seq<Row>)
    requires SchemaOk(columns) && Stores(columns, rows, entries) && IsRange(cells, entries, KEY_MIN, KEY_MAX)
    ensures InKeyOrder(columns, rows, out)
  {
    hide RowBytes, SchemaOk, Decoded, Stores;
    SameKeys(columns, rows, entries);
    out := [];
    var i := 0;
    while i < |cells|
      invariant i <= |cells| && |out| == i
      invariant forall c <- cells :: c.key in entries && c.key in rows && entries[c.key] == c.value
      invariant forall k :: 0 <= k < i ==> out[k] == rows[cells[k].key]
    {
      var key, blob := cells[i].key, cells[i].value;
      assert cells[i] in cells;
      CellSize(columns, rows, entries, key);
      var row := Decode(columns, key, blob);
      CellRow(columns, rows, entries, key, row);
      out := out + [row];
      i := i + 1;
    }
    AllDecoded(columns, cells, rows, entries, out);
  }

  lemma AllDecoded(columns: seq<ColumnDef>, cells: seq<Cell>, rows: map<Key, Row>, entries: map<Key, Bytes>, out: seq<Row>)
    requires SchemaOk(columns) && Stores(columns, rows, entries) && IsRange(cells, entries, KEY_MIN, KEY_MAX)
    requires |out| == |cells| && forall k :: 0 <= k < |cells| ==> cells[k].key in rows && out[k] == rows[cells[k].key]
    ensures InKeyOrder(columns, rows, out)
  {
    hide RowOk, RowBytes, SchemaOk;
    forall k | k in rows
      ensures rows[k] in out
    {
      var c := Cell(k, entries[k]);
      assert c in cells;
      var a :| 0 <= a < |cells| && cells[a] == c;
      assert out[a] == rows[k];
    }
  }

  // ---------- the catalog ----------

  /** The tree object of table `i`, in step with the model. */
  ghost predicate Opened(b: BTree, pool: BufferPool, i: nat, tt: TableTree)
    reads b
  {
    b.pool == pool && b.slot == Some(i) && b.root == RootId(tt.tree) && b.tree == tt.tree && b.height == tt.height
  }

  predicate SameEntry(h: Handle, e: TableEntry) {
    h.inUse == e.inUse && (h.inUse ==> h.name == e.name && h.columns == e.columns)
  }

  /** The handles mirror the catalog page, no table name is used twice, and each tree stores its table's rows. */
  ghost predicate Mirrors(handles: seq<Handle>, rows: seq<map<Key, Row>>, trees: seq<TableTree>, page: Page) {
    && page.CatalogPage? && |handles| == |page.tables| == |rows| == |trees| == MAX_CATALOG_TABLES
    && (forall i :: 0 <= i < |handles| ==> SameEntry(handles[i], page.tables[i]))
    && (forall i, j :: 0 <= i < j < |handles| && handles[i].inUse && handles[j].inUse ==> handles[i].name != handles[j].name)
    && (forall i :: 0 <= i < |handles| && handles[i].inUse ==> TableStored(handles[i].columns, rows[i], trees[i]))
  }

  ghost predicate TableStored(columns: seq<ColumnDef>, rows: map<Key, Row>, tt: TableTree) {
    SchemaOk(columns) && Stores(columns, rows, ToMap(Contents(tt.tree)))
  }

  /** The same tables, whichever of their trees are open. */
  ghost predicate SameTables(a: seq<Handle>, b: seq<Handle>) {
    |a| == |b| && forall j :: 0 <= j < |a| ==> a[j].(tree := None) == b[j].(tree := None)
  }

  lemma SameSelf(a: seq<Handle>)
    ensures SameTables(a, a)
  {
  }

  lemma SameThrough(a: seq<Handle>, b: seq<Handle>, c: seq<Handle>)
    requires SameTables(a, b) && SameTables(b, c)
    ensures SameTables(a, c) && |a| == |c|
  {
  }

  /** The mirror after a row is stored: one root moved, one count up, one row in. */
  lemma StoredMirrors(hs: seq<Handle>, hs': seq<Handle>, rows: seq<map<Key, Row>>, trees: seq<TableTree>, tt: TableTree, page: Page,
                      root: PageId, i: nat, key: Key, row: Row)
    requires Mirrors(hs, rows, trees, page) && i < |hs| && hs[i].inUse && SameTables(hs', hs)
    requires RowOk(hs[i].columns, row) && KeyOf(hs[i].columns, row) == key
    requires ToMap(Contents(tt.tree)) == ToMap(Contents(trees[i].tree))[key := RowBytes(hs[i].columns, row, |hs[i].columns|)]
    ensures Mirrors(hs', rows[i := PutRow(rows[i], key, row)], trees[i := tt], Bumped(SetRoot(page, Some(i), root), i))
  {
    hide Stores, SchemaOk, RowOk, RowBytes, Contents, ToMap, KeyOf, PutRow;
    StoresPut(hs[i].columns, rows[i], ToMap(Contents(trees[i].tree)), row);
    forall j | 0 <= j < |hs|
      ensures hs'[j].inUse == hs[j].inUse && hs'[j].name == hs[j].name && hs'[j].columns == hs[j].columns
    {
      assert hs'[j].(tree := None) == hs[j].(tree := None);
    }
  }

  /** The number kept in the catalog page for table `i`. */
  ghost function CountIn(s: Store, i: nat): nat {
    if ANCHOR in s && AnchorOk(s[ANCHOR], Some(i)) then s[ANCHOR].tables[i].rowCount else 0
  }

  /** The count of table `i` went up by one, and no other count changed. */
  ghost predicate Counted(was: Store, now: Store, i: nat) {
    forall j: nat :: CountIn(now, j) == CountIn(was, j) + if j == i then 1 else 0
  }

  ghost predicate CanCreate(hs: seq<Handle>, name: string, columns: seq<ColumnDef>) {
    && 1 <= |name| < CATALOG_TABLE_NAME_LEN && SchemaOk(columns)
    && (forall j :: 0 <= j < |hs| && hs[j].inUse ==> hs[j].name != name)
    && exists j :: 0 <= j < |hs| && !hs[j].inUse
  }

  /** Some table in use has this name and accepts the row. */
  ghost predicate Accepts(hs: seq<Handle>, name: string, values: Row) {
    exists i :: 0 <= i < |hs| && hs[i].inUse && hs[i].name == name && RowOk(hs[i].columns, values)
  }

  /** `i` is the slot in use under this name. */
  ghost predicate Named(hs: seq<Handle>, name: string, i: nat) {
    i < |hs| && hs[i].inUse && hs[i].name == name
  }

  /** The rows after one insert: one row more, or another under its key, in one table. */
  ghost predicate RowIn(columns: seq<ColumnDef>, was: seq<map<Key, Row>>, now: seq<map<Key, Row>>, i: nat, values: Row) {
    RowOk(columns, values) && i < |was| && now == was[i := PutRow(was[i], KeyOf(columns, values), values)]
  }

  /** What storing a row changes: one entry of the tree, then the count. */
  ghost function RowChanges(columns: seq<ColumnDef>, i: nat, values: Row): seq<Change>
    requires RowOk(columns, values)
  {
    [PutEntry(i, KeyOf(columns, values), RowBytes(columns, values, |columns|)), CountRow(i)]
  }

  /** Key and blob of a row, if the table can take it. */
  method PrepareRow(columns: seq<ColumnDef>, values: Row) returns (r: Option<(Key, Bytes)>)
    requires SchemaOk(columns) && AllRepresentable(values)
    ensures r.Some? <==> RowOk(columns, values)
    ensures r.Some? ==> r.value == (KeyOf(columns, values), RowBytes(columns, values, |columns|))
  {
    hide RowBytes, Stored, EncodedSize, SchemaOk;
    if |values| != |columns| {
      return None;
    }
    var pk := PrimaryKeyIndex(columns);
    assert pk == Some(KeyIndex(columns));
    if !values[pk.value].IntV? {
      return None;
    }
    assert values[pk.value] in values;
    var blob := Encode(columns, values);
    return if blob.Err? then None else Some((values[pk.value].i, blob.value));
  }

  class Catalog {
    const pool: BufferPool
    var handles: seq<Handle>
    ghost var trees: seq<TableTree>
    /** For each table, the last row inserted under each key. */
    ghost var rows: seq<map<Key, Row>>

    constructor (p: BufferPool, hs: seq<Handle>, ghost ts: seq<TableTree>, ghost rs: seq<map<Key, Row>>)
      ensures pool == p && handles == hs && trees == ts && rows == rs
    {
      pool, handles, trees, rows := p, hs, ts, rs;
    }

    ghost function Objects(): set<BTree>
      reads this
    {
      set i | 0 <= i < |handles| && handles[i].tree.Some? :: handles[i].tree.value
    }

    ghost predicate Synced()
      reads pool, pool.disk, pool.wal
    {
      && pool.Valid() && pool.View() == pool.Durable() && pool.Pins() == map[] && |pool.frames| > 0
    }

    /** The store, the trees in it, and the next page id. */
    ghost function State(): CatalogState
      requires pool.Valid()
      reads this, pool, pool.disk, pool.wal
    {
      CatalogState(pool.View(), trees, pool.disk.nextPageId)
    }

    ghost predicate TreesOpened()
      reads this, Objects()
    {
      forall i: nat :: i < |handles| && handles[i].tree.Some? ==>
                         handles[i].inUse && i < |trees| && Opened(handles[i].tree.value, pool, i, trees[i])
    }

    /** In a state to be read: any store whose tables' trees are whole, or were left in the middle of a split by a crash. */
    ghost predicate Readable()
      reads this, pool, pool.disk, pool.wal, Objects()
    {
      Synced() && Held(pool.View(), trees) && Mirrors(handles, rows, trees, pool.View()[ANCHOR]) && TreesOpened()
    }

    /** Between operations. */
    ghost predicate Valid()
      reads this, pool, pool.disk, pool.wal, Objects()
    {
      Readable() && Catalogued(pool.View(), trees, pool.disk.nextPageId)
    }

    /** The slot of the table in use under this name. */
    method FindTableIndex(name: string) returns (found: Option<nat>)
      ensures found.Some? ==> found.value < |handles| && handles[found.value].inUse && handles[found.value].name == name
      ensures found.None? ==> forall i :: 0 <= i < |handles| && handles[i].inUse ==> handles[i].name != name
    {
      var i := 0;
      while i < |handles|
        invariant i <= |handles|
        invariant forall j :: 0 <= j < i && handles[j].inUse ==> handles[j].name != name
      {
        if handles[i].inUse && handles[i].name == name {
          return Some(i);
        }
        i := i + 1;
      }
      return None;
    }

    /** Nothing happened to the pool, the log or the tables. */
    ghost predicate Still(was: Pool, state: CatalogState)
      requires pool.Valid()
      reads this, pool, pool.disk, pool.wal
    {
      pool.State() == was && State() == state
    }

    lemma StillEither()
      requires pool.Valid() && pool.View() == pool.Durable() && Good(State())
      ensures Either(HoldsCatalog, pool.Log(), |pool.Log()|, |pool.Log()|, ValueOf(State()), ValueOf(State()))
    {
      hide Good, ValueOf, HoldsCatalog, BufferPool.Valid, BufferPool.View, BufferPool.Log;
      GoodHolds(State());
      assert pool.Log()[..|pool.Log()|] == pool.Log();
    }

    /** The tree of table `i`, opened on first use from the root its catalog slot records. */
    method GetTable(i: nat) returns (b: BTree)
      requires Readable() && i < |handles| && handles[i].inUse
      modifies this`handles, pool, pool.disk, pool.wal
      ensures Readable() && (old(Valid()) ==> Valid() && b.Valid()) && handles[i].tree == Some(b) && (b in old(Objects()) || fresh(b))
      ensures handles == old(handles)[i := old(handles)[i].(tree := Some(b))]
      ensures pool.View() == old(pool.View()) && |pool.frames| == old(|pool.frames|) && pool.disk.nextPageId == old(pool.disk.nextPageId)
      ensures b.Readable() && b.tree == trees[i].tree && b.height == trees[i].height && Extends(old(pool.Log()), pool.Log(), [])
    {
      hide BufferPool.Valid, BufferPool.View, BufferPool.Pins, BufferPool.Log, BufferPool.State, Apply, Extends,
           HoldsTree, Balanced, Contents, ToMap, Ids, TableStored;
      if handles[i].tree.Some? {
        b := handles[i].tree.value;
        assert handles == handles[i := handles[i].(tree := Some(b))];
        ExtendsNothing(pool.Log());
        return;
      }
      assert InUse(pool.View(), i);
      b := OpenTree(pool, Some(i), trees[i].tree, trees[i].height);
      handles := handles[i := handles[i].(tree := Some(b))];
    }

    /** Add one to the count the catalog page keeps. */
    method BumpRowCount(i: nat)
      requires Synced() && ANCHOR in pool.View() && AnchorOk(pool.View()[ANCHOR], Some(i))
      modifies pool, pool.disk, pool.wal
      ensures Synced() && |pool.frames| == old(|pool.frames|) && pool.disk.nextPageId == old(pool.disk.nextPageId)
      ensures pool.View() == old(pool.View())[ANCHOR := Bumped(old(pool.View())[ANCHOR], i)]
      ensures Extends(old(pool.Log()), pool.Log(), [Image(ANCHOR, Bumped(old(pool.View())[ANCHOR], i))])
    {
      hide BufferPool.Valid, BufferPool.View, BufferPool.Pins, BufferPool.Log, BufferPool.State, Apply, Extends,
           PoolModel.Write, PoolModel.Release, PoolModel.FetchPage, PoolModel.FindVictimFrame, AddPin, DropPin;
      var ok, guard := pool.FetchPage(ANCHOR);
      assert ok;
      PinOne(map[], ANCHOR, guard.frame);
      var page := pool.Read(guard);
      pool.WritePage(guard, CatalogPage(page.tables[i := page.tables[i].(rowCount := page.tables[i].rowCount + 1)]));
      ghost var log := pool.Log();
      pool.Release(guard);
      ExtendsRelease(log, pool.Log(), Image(ANCHOR, Bumped(page, i)));
    }

    /** Enough frames and page ids for one insert into table `i`. */
    ghost predicate HasRoom(i: nat)
      reads this, pool, pool.disk
    {
      i < |trees| ==> trees[i].height + 2 <= |pool.frames| && pool.disk.nextPageId + trees[i].height + 2 <= INVALID_PAGE_ID
    }

    /** Insert a blob into the tree of table `i`. */
    method TreeInsert(i: nat, key: Key, blob: Bytes)
      requires Valid() && i < |handles| && handles[i].inUse && HasRoom(i) && |blob| <= VALUE_SIZE
      modifies this`handles, this`trees, pool, pool.disk, pool.wal, Objects()
      ensures Synced() && Catalogued(pool.View(), trees, pool.disk.nextPageId) && TreesOpened() && |pool.frames| == old(|pool.frames|)
      ensures SameTables(handles, old(handles)) && fresh(Objects() - old(Objects()))
      ensures i < |trees| && trees == old(trees)[i := trees[i]]
      ensures ToMap(Contents(trees[i].tree)) == ToMap(Contents(old(trees)[i].tree))[key := blob]
      ensures AnchorOk(old(pool.View())[ANCHOR], Some(i))
      ensures pool.View()[ANCHOR] == SetRoot(old(pool.View())[ANCHOR], Some(i), RootId(trees[i].tree))
      ensures var out := InsertOut(old(pool.View()), old(trees), old(pool.disk.nextPageId), i, key, blob);
              && trees[i].tree == out.tree && out.next <= INVALID_PAGE_ID && pool.View() == Apply(old(pool.View()), out.writes)
              && Extends(old(pool.Log()), pool.Log(), out.writes)
      ensures Enabled(old(State()), PutEntry(i, key, blob)) && State() == Next(old(State()), PutEntry(i, key, blob))
    {
      hide BufferPool.Valid, BufferPool.View, BufferPool.Pins, BufferPool.Log, BufferPool.State, Apply, Extends,
           HoldsTree, Balanced, Contents, ToMap, Ids, TableStored, InsertTop, HeightAfter, HoldsMap, ClosedLog, Mirrors;
      ghost var v0, free, log0 := pool.View(), pool.disk.nextPageId, pool.Log();
      MirrorsInUse(handles, rows, trees, v0[ANCHOR], i);
      var b := GetTable(i);
      ghost var log1 := pool.Log();
      assert InUse(v0, i);
      b.ValidWritable();
      var _ := b.Insert(key, blob);
      ExtendsQuietly(log0, log1, pool.Log(), InsertOut(v0, trees, free, i, key, blob).writes);
      ghost var out := InsertOut(v0, trees, free, i, key, blob);
      BalancedFits(trees[i].tree, trees[i].height, 1);
      TopNextBound(trees[i].tree, trees[i].height, key, blob, free, Some(i), v0[ANCHOR]);
      InsertKeeps(v0, trees, free, i, key, blob);
      trees := trees[i := TableTree(out.tree, HeightAfter(trees[i].tree, trees[i].height, key, blob, free))];
    }

    /** Insert the row's blob into the table's tree, then count it. */
    method StoreRow(i: nat, key: Key, blob: Bytes, ghost row: Row)
      requires Valid() && i < |handles| && handles[i].inUse && HasRoom(i)
      requires RowOk(handles[i].columns, row) && KeyOf(handles[i].columns, row) == key
      requires blob == RowBytes(handles[i].columns, row, |handles[i].columns|)
      modifies this, pool, pool.disk, pool.wal, Objects()
      ensures Valid() && fresh(Objects() - old(Objects())) && |pool.frames| == old(|pool.frames|)
      ensures SameTables(handles, old(handles))
      ensures i < |old(rows)| && rows == old(rows)[i := PutRow(old(rows)[i], key, row)]
      ensures Counted(old(pool.View()), pool.View(), i)
      ensures Changes(old(pool.Log()), pool.Log(), old(State()), State(), [PutEntry(i, key, blob), CountRow(i)])
    {
      hide BufferPool.Valid, BufferPool.View, BufferPool.Pins, BufferPool.Log, BufferPool.State, Apply, Extends,
           HoldsTree, Balanced, Contents, ToMap, Ids, TableStored, RowBytes, RowOk, KeyOf, HoldsMap, PutRow, Mirrors, Counted, Changes, InsertTop;
      ghost var hs, ts, v0, log0, c0 := handles, trees, pool.View(), pool.Log(), State();
      ghost var page := v0[ANCHOR];
      StoreFits(handles[i].columns, row);
      MirrorsInUse(hs, rows, ts, page, i);
      TreeInsert(i, key, blob);
      ghost var log1, c1 := pool.Log(), State();
      StoredMirrors(hs, handles, rows, ts, trees[i], page, RootId(trees[i].tree), i, key, row);
      BumpKeeps(pool.View(), trees, pool.disk.nextPageId, i);
      rows := rows[i := PutRow(rows[i], key, row)];
      BumpRowCount(i);
      CountedOne(page, RootId(trees[i].tree), i, c1.s, pool.View(), v0);
      ApplyOne(c1.s, Image(ANCHOR, Bumped(c1.s[ANCHOR], i)));
      TwoChanges(c0, PutEntry(i, key, blob), CountRow(i), log0, log1, pool.Log());
    }

    /** The first slot not in use. */
    method FreeSlot() returns (found: Option<nat>)
      ensures found.Some? ==> found.value < |handles| && !handles[found.value].inUse
                              && forall j :: 0 <= j < found.value ==> handles[j].inUse
      ensures found.None? ==> forall i :: 0 <= i < |handles| ==> handles[i].inUse
    {
      var i := 0;
      while i < |handles|
        invariant i <= |handles| && forall j :: 0 <= j < i ==> handles[j].inUse
      {
        if !handles[i].inUse {
          return Some(i);
        }
        i := i + 1;
      }
      return None;
    }

    /** Allocate, fill and log an empty root leaf. */
    method NewRoot() returns (root: PageId)
      requires Synced()
      modifies pool, pool.disk, pool.wal
      ensures Synced() && |pool.frames| == old(|pool.frames|) && pool.disk.nextPageId == old(pool.disk.nextPageId) + 1
      ensures root == old(pool.disk.nextPageId) && pool.View() == old(pool.View())[root := LeafPage([], INVALID_PAGE_ID)]
      ensures Extends(old(pool.Log()), pool.Log(), [Image(root, LeafPage([], INVALID_PAGE_ID))])
    {
      hide BufferPool.Valid, BufferPool.View, BufferPool.Pins, BufferPool.Log, BufferPool.State, Apply, Extends,
           PoolModel.NewPage, PoolModel.Write, PoolModel.Release, PoolModel.FindVictimFrame, AddPin, DropPin;
      var ok, guard := pool.NewPage();
      assert ok;
      PinOne(map[], guard.pageId, guard.frame);
      pool.WritePage(guard, LeafPage([], INVALID_PAGE_ID));
      ghost var log := pool.Log();
      pool.Release(guard);
      ExtendsRelease(log, pool.Log(), Image(guard.pageId, LeafPage([], INVALID_PAGE_ID)));
      root := guard.pageId;
    }

    /** Fill one slot of the catalog page. */
    method NameTable(i: nat, entry: TableEntry)
      requires Synced() && ANCHOR in pool.View() && AnchorOk(pool.View()[ANCHOR], Some(i))
      modifies pool, pool.disk, pool.wal
      ensures Synced() && |pool.frames| == old(|pool.frames|) && pool.disk.nextPageId == old(pool.disk.nextPageId)
      ensures var page := CatalogPage(old(pool.View()[ANCHOR]).tables[i := entry]);
              pool.View() == old(pool.View())[ANCHOR := page] && Extends(old(pool.Log()), pool.Log(), [Image(ANCHOR, page)])
    {
      hide BufferPool.Valid, BufferPool.View, BufferPool.Pins, BufferPool.Log, BufferPool.State, Apply, Extends,
           PoolModel.Write, PoolModel.Release, PoolModel.FetchPage, PoolModel.FindVictimFrame, AddPin, DropPin;
      var ok, guard := pool.FetchPage(ANCHOR);
      assert ok;
      PinOne(map[], ANCHOR, guard.frame);
      var page := pool.Read(guard);
      pool.WritePage(guard, CatalogPage(page.tables[i := entry]));
      ghost var log := pool.Log();
      pool.Release(guard);
      ExtendsRelease(log, pool.Log(), Image(ANCHOR, CatalogPage(page.tables[i := entry])));
    }

    /** Log an empty root page, then the catalog page that names it. */
    method WriteTable(i: nat, name: string, columns: seq<ColumnDef>)
      requires Synced() && ANCHOR in pool.View() && AnchorOk(pool.View()[ANCHOR], Some(i)) && pool.disk.nextPageId > ANCHOR
      modifies pool, pool.disk, pool.wal
      ensures Synced() && |pool.frames| == old(|pool.frames|) && pool.disk.nextPageId == old(pool.disk.nextPageId) + 1
      ensures var writes := CreateWrites(old(pool.View()[ANCHOR]).tables, i, name, columns, old(pool.disk.nextPageId));
              pool.View() == Apply(old(pool.View()), writes) && Extends(old(pool.Log()), pool.Log(), writes)
    {
      hide BufferPool.Valid, BufferPool.View, BufferPool.Pins, BufferPool.Log, BufferPool.State, Apply, Extends;
      ghost var v0, log0 := pool.View(), pool.Log();
      ghost var w := CreateWrites(v0[ANCHOR].tables, i, name, columns, pool.disk.nextPageId);
      var root := NewRoot();
      ghost var log1 := pool.Log();
      NameTable(i, TableEntry(true, name, columns, root, 0));
      ExtendsAppend(log0, log1, pool.Log(), [w[0]], [w[1]]);
      assert [w[0]] + [w[1]] == w;
      ApplyTwo(v0, w[0], w[1]);
    }

    /** Fill a free slot with a new, empty table. */
    method AddTable(i: nat, name: string, columns: seq<ColumnDef>)
      requires Valid() && pool.disk.nextPageId < INVALID_PAGE_ID && SchemaOk(columns)
      requires i < |handles| && !handles[i].inUse && forall j :: 0 <= j < |handles| && handles[j].inUse ==> handles[j].name != name
      modifies this, pool, pool.disk, pool.wal
      ensures Valid() && |pool.frames| == old(|pool.frames|)
      ensures handles == old(handles)[i := Handle(true, name, columns, None)]
      ensures i < |old(rows)| && rows == old(rows)[i := map[]]
      ensures Changes(old(pool.Log()), pool.Log(), old(State()), State(), [MakeTable(i, name, columns)])
    {
      hide BufferPool.Valid, BufferPool.View, BufferPool.Pins, BufferPool.Log, BufferPool.State, Apply, Extends, SchemaOk,
           Mirrors, Opened, HoldsTree, Balanced, Ids, Changes, Contents, ToMap;
      NotInUse(handles, rows, trees, pool.View()[ANCHOR], i);
      ghost var v0, free, log0, c0 := pool.View(), pool.disk.nextPageId, pool.Log(), State();
      CreateKeeps(v0, trees, free, i, name, columns);
      CreatedMirrors(handles, rows, trees, v0[ANCHOR], i, name, columns, free);
      WriteTable(i, name, columns);
      handles := handles[i := Handle(true, name, columns, None)];
      trees := trees[i := TableTree(Leaf(free, []), 0)];
      rows := rows[i := map[]];
      OneChange(c0, MakeTable(i, name, columns), log0, pool.Log());
    }

    /** A new, empty table.  Refused: a bad or used name, a bad schema, or a full catalog. */
    method CreateTable(name: string, columns: seq<ColumnDef>) returns (ok: bool, ghost i: nat)
      requires Valid() && pool.disk.nextPageId < INVALID_PAGE_ID
      modifies this, pool, pool.disk, pool.wal
      ensures Valid() && |pool.frames| == old(|pool.frames|)
      ensures ok <==> CanCreate(old(handles), name, columns)
      ensures ok ==> i < |old(handles)| && handles == old(handles)[i := Handle(true, name, columns, None)] && !old(handles)[i].inUse
      ensures ok ==> i < |old(rows)| && rows == old(rows)[i := map[]]
      ensures ok ==> forall j :: 0 <= j < i ==> old(handles)[j].inUse
      ensures ok ==> Changes(old(pool.Log()), pool.Log(), old(State()), State(), [MakeTable(i, name, columns)])
      ensures Either(HoldsCatalog, pool.Log(), old(|pool.Log()|), |pool.Log()|, ValueOf(old(State())), ValueOf(State()))
      ensures old(pool.Log()) <= pool.Log() && (old(ClosedLog(pool.Log())) ==> ClosedLog(pool.Log()))
      ensures !ok ==> handles == old(handles) && rows == old(rows) && Still(old(pool.State()), old(State()))
    {
      hide BufferPool.Valid, BufferPool.View, BufferPool.Pins, BufferPool.Log, BufferPool.State, Apply, Extends, SchemaOk,
           Mirrors, Opened, ClosedLog, Either, ValueOf, After, Changes, Catalogued;
      i := 0;
      StillEither();
      ghost var log0, c0 := pool.Log(), State();
      if name == "" || |name| >= CATALOG_TABLE_NAME_LEN {
        return false, i;
      }
      var found := FindTableIndex(name);
      if found.Some? {
        return false, i;
      }
      var good := CheckColumns(columns);
      if !good {
        return false, i;
      }
      var slot := FreeSlot();
      if slot.None? {
        return false, i;
      }
      i := slot.value;
      AddTable(slot.value, name, columns);
      ChangesAtomic(log0, pool.Log(), c0, State(), [MakeTable(i, name, columns)]);
      return true, i;
    }

    lemma HowManyRows()
      requires Readable()
      ensures |rows| == |handles|
    {
    }

    lemma SlotFacts(i: nat)
      requires Readable() && i < |handles| && handles[i].inUse
      ensures |rows| == |trees| == |handles| && SchemaOk(handles[i].columns) && TableStored(handles[i].columns, rows[i], trees[i])
      ensures forall j: nat :: Named(handles, handles[i].name, j) ==> j == i
      ensures forall values :: Accepts(handles, handles[i].name, values) <==> RowOk(handles[i].columns, values)
    {
      hide Mirrors, SchemaOk, TableStored;
      OneSlot(handles, rows, trees, pool.View()[ANCHOR], i);
    }

    /** Insert a row, or replace the one with the same primary key.  Refused: an unknown table, the wrong number of
        values, a key that is not an integer, or a value its column cannot hold. */
    method InsertRow(name: string, values: Row) returns (ok: bool, ghost i: nat)
      requires Valid() && AllRepresentable(values) && forall i: nat :: Named(handles, name, i) ==> HasRoom(i)
      modifies this, pool, pool.disk, pool.wal, Objects()
      ensures Valid() && fresh(Objects() - old(Objects())) && |pool.frames| == old(|pool.frames|)
      ensures SameTables(handles, old(handles)) && (ok <==> Accepts(old(handles), name, values))
      ensures ok ==> Named(handles, name, i) && RowIn(handles[i].columns, old(rows), rows, i, values)
      ensures ok ==> Counted(old(pool.View()), pool.View(), i)
      ensures ok ==> Changes(old(pool.Log()), pool.Log(), old(State()), State(), RowChanges(handles[i].columns, i, values))
      ensures Either(HoldsCatalog, pool.Log(), old(|pool.Log()|), |pool.Log()|, ValueOf(old(State())), ValueOf(State()))
      ensures old(pool.Log()) <= pool.Log() && (old(ClosedLog(pool.Log())) ==> ClosedLog(pool.Log()))
      ensures !ok ==> rows == old(rows) && Still(old(pool.State()), old(State()))
    {
      hide BufferPool.Valid, BufferPool.View, BufferPool.Pins, BufferPool.Log, BufferPool.State, Catalogued, TreesOpened, HasRoom, Opened,
           Mirrors, RowBytes, RowOk, SchemaOk, KeyOf, PutRow, Counted, Changes, Either, ValueOf, After, ClosedLog;
      i := 0;
      StillEither();
      var found := FindTableIndex(name);
      if found.None? {
        return false, i;
      }
      i := found.value;
      SlotFacts(i);
      var prepared := PrepareRow(handles[found.value].columns, values);
      if prepared.None? {
        return false, i;
      }
      ghost var c0, log0 := State(), pool.Log();
      StoreRow(found.value, prepared.value.0, prepared.value.1, values);
      ChangesAtomic(log0, pool.Log(), c0, State(), RowChanges(handles[i].columns, i, values));
      return true, i;
    }

    method ScanSlot(i: nat) returns (out: seq<Row>)
      requires Readable() && i < |handles| && handles[i].inUse
      modifies this`handles, pool, pool.disk, pool.wal
      ensures Readable() && (old(Valid()) ==> Valid()) && fresh(Objects() - old(Objects())) && |pool.frames| == old(|pool.frames|)
      ensures SameTables(handles, old(handles)) && pool.View() == old(pool.View()) && pool.disk.nextPageId == old(pool.disk.nextPageId)
      ensures Extends(old(pool.Log()), pool.Log(), []) && (old(ClosedLog(pool.Log())) ==> ClosedLog(pool.Log()))
      ensures i < |rows| && SchemaOk(handles[i].columns) && InKeyOrder(handles[i].columns, rows[i], out)
    {
      hide BufferPool.Valid, BufferPool.View, BufferPool.Pins, BufferPool.Log, BufferPool.State, Apply, Extends, Catalogued,
           HoldsTree, Balanced, Contents, ToMap, Ids, Stores, SchemaOk, InKeyOrder, IsRange, Mirrors, ClosedLog;
      ghost var log0 := pool.Log();
      if ClosedLog(log0) {
        ReadsClosed(log0);
      }
      SlotFacts(i);
      var b := GetTable(i);
      ghost var log1 := pool.Log();
      var cells := b.RangeScan(KEY_MIN, KEY_MAX);
      ExtendsQuietly(log0, log1, pool.Log(), []);
      out := DecodeAll(handles[i].columns, cells, rows[i], b.Entries());
    }

    /** The count the catalog page keeps for table `i`. */
    method SlotCount(i: nat) returns (n: nat)
      requires Readable() && i < |handles| && handles[i].inUse
      modifies pool, pool.disk, pool.wal
      ensures Readable() && (old(Valid()) ==> Valid()) && |pool.frames| == old(|pool.frames|) && pool.View() == old(pool.View())
      ensures pool.disk.nextPageId == old(pool.disk.nextPageId) && Extends(old(pool.Log()), pool.Log(), [])
      ensures old(ClosedLog(pool.Log())) ==> ClosedLog(pool.Log())
      ensures n == CountIn(pool.View(), i)
    {
      hide BufferPool.Valid, BufferPool.View, BufferPool.Pins, BufferPool.Log, BufferPool.State, Apply, Extends, Mirrors, ClosedLog,
           PoolModel.Release, PoolModel.FetchPage, PoolModel.FindVictimFrame, AddPin, DropPin, HoldsTree, Balanced, Ids, Opened;
      ghost var log0 := pool.Log();
      if ClosedLog(log0) {
        ReadsClosed(log0);
      }
      MirrorsInUse(handles, rows, trees, pool.View()[ANCHOR], i);
      var ok, guard := pool.FetchPage(ANCHOR);
      assert ok;
      PinOne(map[], ANCHOR, guard.frame);
      var page := pool.Read(guard);
      n := page.tables[i].rowCount;
      pool.Release(guard);
      ExtendsRelease(log0, pool.Log(), Image(ANCHOR, page));
    }

    /** The count kept for the table of this name; an error if there is none. */
    method EstimatedRowCount(name: string) returns (out: Query.Result<nat>, ghost i: nat)
      requires Readable()
      modifies pool, pool.disk, pool.wal
      ensures Readable() && (old(Valid()) ==> Valid()) && |pool.frames| == old(|pool.frames|) && pool.View() == old(pool.View())
      ensures pool.disk.nextPageId == old(pool.disk.nextPageId) && Extends(old(pool.Log()), pool.Log(), [])
      ensures old(ClosedLog(pool.Log())) ==> ClosedLog(pool.Log())
      ensures out.Err? ==> forall j: nat :: !Named(handles, name, j)
      ensures out.Ok? ==> Named(handles, name, i) && out.value == CountIn(pool.View(), i)
    {
      hide Catalogued, Mirrors, Opened, Synced, SchemaOk, ClosedLog, Extends;
      i := 0;
      ExtendsNothing(pool.Log());
      var found := FindTableIndex(name);
      if found.None? {
        return Query.Err, i;
      }
      i := found.value;
      var n := SlotCount(found.value);
      return Query.Ok(n), i;
    }

    /** Every stored row, in strictly increasing key order, each decoded to the last row inserted under its key. */
    method ScanTable(name: string) returns (out: Query.Result<seq<Row>>, ghost i: nat)
      requires Readable()
      modifies this`handles, pool, pool.disk, pool.wal
      ensures Readable() && (old(Valid()) ==> Valid()) && fresh(Objects() - old(Objects())) && |pool.frames| == old(|pool.frames|)
      ensures SameTables(handles, old(handles)) && pool.View() == old(pool.View()) && pool.disk.nextPageId == old(pool.disk.nextPageId)
      ensures Extends(old(pool.Log()), pool.Log(), []) && (old(ClosedLog(pool.Log())) ==> ClosedLog(pool.Log()))
      ensures out.Err? ==> forall j: nat :: !Named(old(handles), name, j)
      ensures out.Ok? ==> Named(handles, name, i) && i < |rows| && SchemaOk(handles[i].columns)
                          && InKeyOrder(handles[i].columns, rows[i], out.value)
    {
      hide Catalogued, Mirrors, Opened, Synced, SchemaOk, InKeyOrder, ClosedLog, Extends;
      i := 0;
      ExtendsNothing(pool.Log());
      var found := FindTableIndex(name);
      if found.None? {
        return Query.Err, i;
      }
      i := found.value;
      var rs := ScanSlot(found.value);
      return Query.Ok(rs), i;
    }
  }

  lemma NotInUse(hs: seq<Handle>, rows: seq<map<Key, Row>>, trees: seq<TableTree>, page: Page, i: nat)
    requires Mirrors(hs, rows, trees, page) && i < |hs| && !hs[i].inUse
    ensures |rows| == |hs| == MAX_CATALOG_TABLES && AnchorOk(page, Some(i)) && !page.tables[i].inUse
  {
  }

  lemma CreatedMirrors(hs: seq<Handle>, rows: seq<map<Key, Row>>, trees: seq<TableTree>, page: Page, i: nat, name: string,
                       columns: seq<ColumnDef>, root: PageId)
    requires Mirrors(hs, rows, trees, page) && i < |hs| && !hs[i].inUse && SchemaOk(columns)
    requires forall j :: 0 <= j < |hs| && hs[j].inUse ==> hs[j].name != name
    ensures Mirrors(hs[i := Handle(true, name, columns, None)], rows[i := map[]], trees[i := TableTree(Leaf(root, []), 0)],
                    CatalogPage(page.tables[i := TableEntry(true, name, columns, root, 0)]))
  {
    hide SchemaOk, RowOk, RowBytes, Stores;
    NothingStored(columns, root);
  }

  lemma NothingStored(columns: seq<ColumnDef>, root: PageId)
    ensures Stores(columns, map[], ToMap(Contents(Leaf(root, []))))
  {
  }

  lemma MirrorsInUse(hs: seq<Handle>, rows: seq<map<Key, Row>>, trees: seq<TableTree>, page: Page, i: nat)
    requires Mirrors(hs, rows, trees, page) && i < |hs| && hs[i].inUse
    ensures |rows| == |hs| && AnchorOk(page, Some(i)) && page.tables[i].inUse
  {
  }

  lemma CountedOne(page: Page, root: PageId, i: nat, v1: Store, v2: Store, v0: Store)
    requires AnchorOk(page, Some(i)) && ANCHOR in v0 && v0[ANCHOR] == page
    requires ANCHOR in v1 && v1[ANCHOR] == SetRoot(page, Some(i), root) && v2 == v1[ANCHOR := Bumped(v1[ANCHOR], i)]
    ensures Counted(v0, v2, i)
  {
  }

  /** A name in use stands for one slot. */
  lemma OneSlot(hs: seq<Handle>, rows: seq<map<Key, Row>>, trees: seq<TableTree>, page: Page, i: nat)
    requires Mirrors(hs, rows, trees, page) && i < |hs| && hs[i].inUse
    ensures |trees| == |hs|
    ensures |rows| == |hs| && SchemaOk(hs[i].columns) && TableStored(hs[i].columns, rows[i], trees[i])
    ensures forall j: nat :: Named(hs, hs[i].name, j) ==> j == i
    ensures forall values :: Accepts(hs, hs[i].name, values) <==> RowOk(hs[i].columns, values)
  {
    hide RowOk, SchemaOk, Stores;
  }

  lemma StoreFits(columns: seq<ColumnDef>, row: Row)
    requires RowOk(columns, row)
    ensures |RowBytes(columns, row, |columns|)| <= VALUE_SIZE
  {
  }

  // ---------- a scan is determined by the rows ----------

  /** Accepted rows under strictly increasing keys. */
  ghost predicate Ascending(columns: seq<ColumnDef>, out: seq<Row>) {
    && (forall k :: 0 <= k < |out| ==> RowOk(columns, out[k]))
    && (forall a, b :: 0 <= a < b < |out| ==> KeyOf(columns, out[a]) < KeyOf(columns, out[b]))
  }

  lemma AscendingTail(columns: seq<ColumnDef>, out: seq<Row>)
    requires Ascending(columns, out) && out != []
    ensures Ascending(columns, out[1..]) && forall r :: r in out[1..] <==> r in out && r != out[0]
  {
    hide RowOk, KeyOf;
    forall r
      ensures r in out[1..] <==> r in out && r != out[0]
    {
      if r in out && r != out[0] {
        var i :| 0 <= i < |out| && out[i] == r;
        assert out[1..][i - 1] == r;
      }
      if r in out[1..] {
        var i :| 0 <= i < |out| - 1 && out[1..][i] == r;
        assert KeyOf(columns, out[0]) < KeyOf(columns, out[i + 1]);
      }
    }
  }

  lemma AscendingFirst(columns: seq<ColumnDef>, a: seq<Row>, b: seq<Row>)
    requires Ascending(columns, a) && Ascending(columns, b) && a != [] && b != [] && a[0] in b && b[0] in a
    ensures a[0] == b[0]
  {
    hide RowOk, KeyOf;
    var i :| 0 <= i < |b| && b[i] == a[0];
    var j :| 0 <= j < |a| && a[j] == b[0];
    assert KeyOf(columns, b[0]) <= KeyOf(columns, b[i]);
    assert KeyOf(columns, a[0]) <= KeyOf(columns, a[j]);
  }

  lemma {:induction false} AscendingSame(columns: seq<ColumnDef>, a: seq<Row>, b: seq<Row>)
    requires Ascending(columns, a) && Ascending(columns, b) && forall r :: r in a <==> r in b
    ensures a == b
    decreases |a|
  {
    hide Ascending;
    assert a != [] ==> a[0] in a;
    assert b != [] ==> b[0] in b;
    if a != [] && b != [] {
      AscendingFirst(columns, a, b);
      AscendingTail(columns, a);
      AscendingTail(columns, b);
      AscendingSame(columns, a[1..], b[1..]);
      assert a == [a[0]] + a[1..] && b == [b[0]] + b[1..];
    }
  }

  /** The rows of a table determine its scan. */
  lemma ScanUnique(columns: seq<ColumnDef>, rows: map<Key, Row>, a: seq<Row>, b: seq<Row>)
    requires InKeyOrder(columns, rows, a) && InKeyOrder(columns, rows, b)
    ensures a == b
  {
    hide RowOk, KeyOf;
    forall r
      ensures r in a <==> r in b
    {
      if r in a {
        var k :| 0 <= k < |a| && a[k] == r;
        assert rows[KeyOf(columns, a[k])] in b;
      }
      if r in b {
        var k :| 0 <= k < |b| && b[k] == r;
        assert rows[KeyOf(columns, b[k])] in a;
      }
    }
    AscendingSame(columns, a, b);
  }

  // ---------- many inserts ----------

  /** The key a row would be stored under; none if the table refuses the row. */
  ghost function KeyIn(columns: seq<ColumnDef>, row: Row): Option<Key> {
    if RowOk(columns, row) then Some(KeyOf(columns, row)) else None
  }

  /** The rows of a new table after a sequence of inserts, some perhaps refused. */
  ghost function AfterInserts(columns: seq<ColumnDef>, values: seq<Row>): map<Key, Row>
    decreases |values|
  {
    if values == [] then map[]
    else
      var n := |values| - 1;
      var before, key := AfterInserts(columns, values[..n]), KeyIn(columns, values[n]);
      if key.None? then before else PutRow(before, key.value, values[n])
  }

  /** Entry `j` is the last one inserted under its key. */
  ghost predicate LastUnder(columns: seq<ColumnDef>, values: seq<Row>, j: nat, key: Key) {
    j < |values| && KeyIn(columns, values[j]) == Some(key) && forall k :: j < k < |values| ==> KeyIn(columns, values[k]) != Some(key)
  }

  lemma LastBefore(columns: seq<ColumnDef>, values: seq<Row>, j: nat, key: Key)
    requires values != [] && KeyIn(columns, values[|values| - 1]) != Some(key)
    ensures LastUnder(columns, values, j, key) <==> LastUnder(columns, values[..|values| - 1], j, key)
  {
    hide KeyIn;
    var before := values[..|values| - 1];
    assert forall k :: 0 <= k < |before| ==> before[k] == values[k];
  }

  /** A key is stored exactly when some accepted insert had it, and then with the last such row. */
  lemma {:induction false} LastInsertWins(columns: seq<ColumnDef>, values: seq<Row>, key: Key)
    ensures key in AfterInserts(columns, values) <==> exists j: nat :: LastUnder(columns, values, j, key)
    ensures forall j: nat :: LastUnder(columns, values, j, key) ==> AfterInserts(columns, values)[key] == values[j]
    decreases |values|
  {
    hide KeyIn;
    if values != [] {
      var n := |values| - 1;
      LastInsertWins(columns, values[..n], key);
      if KeyIn(columns, values[n]) == Some(key) {
        assert LastUnder(columns, values, n, key);
      } else {
        hide LastUnder;
        forall j: nat
          ensures LastUnder(columns, values, j, key) <==> LastUnder(columns, values[..n], j, key)
        {
          LastBefore(columns, values, j, key);
        }
        forall j: nat | LastUnder(columns, values, j, key)
          ensures values[..n][j] == values[j]
        {
          LastInRange(columns, values[..n], j, key);
        }
      }
    }
  }

  lemma LastInRange(columns: seq<ColumnDef>, values: seq<Row>, j: nat, key: Key)
    requires LastUnder(columns, values, j, key)
    ensures j < |values|
  {
  }

  // ---------- opening ----------

  lemma FreshCatalog(s: Store)
    requires s == map[ANCHOR := EMPTY_CATALOG]
    ensures var trees := seq(MAX_CATALOG_TABLES, _ => TableTree(Leaf(0, []), 0));
            var rows: seq<map<Key, Row>> := seq(MAX_CATALOG_TABLES, _ => map[]);
            && Catalogued(s, trees, 1)
            && Mirrors(seq(MAX_CATALOG_TABLES, _ => Handle(false, "", [], None)), rows, trees, s[ANCHOR])
  {
  }

  /** First use of an empty database: the catalog page, on page 0, with no table. */
  method CreateCatalog(pool: BufferPool) returns (c: Catalog)
    requires pool.Valid() && pool.View() == pool.Durable() == map[] && pool.Pins() == map[] && pool.disk.nextPageId == 0
    requires |pool.frames| > 0
    modifies pool, pool.disk, pool.wal
    ensures fresh(c) && c.pool == pool && c.Valid() && fresh(c.Objects())
    ensures forall i :: 0 <= i < |c.handles| ==> !c.handles[i].inUse
    ensures c.State() == Fresh() && |pool.frames| == old(|pool.frames|)
    ensures old(pool.Log()) == [] && Extends([], pool.Log(), [FIRST_CATALOG]) && ClosedLog(pool.Log())
  {
    hide BufferPool.Valid, BufferPool.View, BufferPool.Pins, BufferPool.Log, BufferPool.State, Apply, Mirrors, Catalogued, Extends, ClosedLog,
         PoolModel.NewPage, PoolModel.Write, PoolModel.Release, PoolModel.FindVictimFrame, AddPin, DropPin;
    EmptyLogClosed(pool.Log());
    var ok, guard := pool.NewPage();
    assert ok;
    PinOne(map[], 0, guard.frame);
    pool.WritePage(guard, EMPTY_CATALOG);
    pool.Release(guard);
    ExtendsRelease([], pool.Log(), FIRST_CATALOG);
    FirstClosed(pool.Log());
    FreshCatalog(pool.View());
    c := new Catalog(pool, seq(MAX_CATALOG_TABLES, _ => Handle(false, "", [], None)),
                     seq(MAX_CATALOG_TABLES, _ => TableTree(Leaf(0, []), 0)), seq(MAX_CATALOG_TABLES, _ => map[]));
  }

  /** Open an existing database: read the catalog page; no tree is opened yet.  The tables, their rows and their counts
      are those the store holds. */
  method OpenCatalog(pool: BufferPool, ghost hs: seq<Handle>, ghost trees: seq<TableTree>, ghost rows: seq<map<Key, Row>>)
    returns (c: Catalog)
    requires pool.Valid() && pool.View() == pool.Durable() && pool.Pins() == map[] && |pool.frames| > 0
    requires Held(pool.View(), trees) && Mirrors(hs, rows, trees, pool.View()[ANCHOR])
    modifies pool, pool.disk, pool.wal
    ensures fresh(c) && c.pool == pool && c.Readable() && fresh(c.Objects()) && c.rows == rows && c.trees == trees
    ensures Catalogued(old(pool.View()), trees, old(pool.disk.nextPageId)) ==> c.Valid()
    ensures pool.View() == old(pool.View()) && |c.handles| == |hs| && Extends(old(pool.Log()), pool.Log(), [])
    ensures forall i :: 0 <= i < |hs| ==> SameEntry(c.handles[i], old(pool.View()[ANCHOR]).tables[i])
    ensures forall i :: 0 <= i < |hs| ==> SameEntry(hs[i], old(pool.View()[ANCHOR]).tables[i])
  {
    hide BufferPool.Valid, BufferPool.View, BufferPool.Pins, BufferPool.Log, BufferPool.State, Apply, Extends,
         PoolModel.FetchPage, PoolModel.Release, PoolModel.FindVictimFrame, AddPin, DropPin, HoldsTree, Balanced, Ids, TableStored;
    var reader := new BTree(pool, None, INVALID_PAGE_ID, Leaf(0, []), 0);
    var page := reader.ReadOnce(ANCHOR);
    var handles: seq<Handle> := [];
    var i := 0;
    while i < |page.tables|
      invariant i <= |page.tables| && |handles| == i
      invariant forall j :: 0 <= j < i ==> SameEntry(handles[j], page.tables[j]) && handles[j].tree.None?
    {
      var e := page.tables[i];
      handles := handles + [if e.inUse then Handle(true, e.name, e.columns, None) else Handle(false, "", [], None)];
      i := i + 1;
    }
    c := new Catalog(pool, handles, trees, rows);
  }
}
