/** Calls on the catalog object, one after the other: what the tables hold in the end, and after a crash anywhere. */
module CatalogCalls {
  import opened Pages
  import opened Cells
  import opened Trees
  import opened TreeUpdate
  import opened TreeStages
  import opened TreeDelete
  import opened TreeTop
  import opened LogClosed
  import opened PoolModel
  import opened Buffers
  import opened BTrees
  import opened CatalogModel
  import opened CatalogRuns
  import opened Journals
  import opened TreeShape
  import opened RowCodecs
  import opened Catalogs
  import Query

  // ---------- tables as rows ----------

  datatype TableRows = TableRows(name: string, columns: seq<ColumnDef>, rows: map<Key, Row>)

  /** The tables in use, by slot, with their rows. */
  type Content = map<nat, TableRows>

  ghost function Told(hs: seq<Handle>, rows: seq<map<Key, Row>>): Content {
    map i: nat | i < |hs| && i < |rows| && hs[i].inUse :: TableRows(hs[i].name, hs[i].columns, rows[i])
  }

  /** The entries a table's rows are stored as. */
  ghost function Encoded(columns: seq<ColumnDef>, rows: map<Key, Row>): map<Key, Bytes> {
    map k | k in rows && RowOk(columns, rows[k]) :: RowBytes(columns, rows[k], |columns|)
  }

  ghost function StoredTables(ts: Content): Tables {
    map i | i in ts :: TableValue(ts[i].name, ts[i].columns, Encoded(ts[i].columns, ts[i].rows))
  }

  lemma StoresEncoded(columns: seq<ColumnDef>, rows: map<Key, Row>, entries: map<Key, Bytes>)
    requires Stores(columns, rows, entries)
    ensures entries == Encoded(columns, rows)
  {
    hide RowOk, RowBytes;
  }

  /** What the store holds is the rows, encoded. */
  lemma ToldStored(hs: seq<Handle>, rows: seq<map<Key, Row>>, c: CatalogState)
    requires Good(c) && Mirrors(hs, rows, c.trees, c.s[ANCHOR])
    ensures ValueOf(c) == StoredTables(Told(hs, rows))
  {
    hide Settled, Contents, ToMap, Stores, SchemaOk, Encoded, Ids;
    forall i: nat | i < |hs| && hs[i].inUse
      ensures ToMap(Contents(c.trees[i].tree)) == Encoded(hs[i].columns, rows[i])
    {
      assert TableStored(hs[i].columns, rows[i], c.trees[i]);
      StoresEncoded(hs[i].columns, rows[i], ToMap(Contents(c.trees[i].tree)));
    }
  }

  /** Opening trees changes no table. */
  lemma ToldSame(hs: seq<Handle>, hs': seq<Handle>, rows: seq<map<Key, Row>>)
    requires SameTables(hs', hs)
    ensures Told(hs', rows) == Told(hs, rows)
  {
    forall j | 0 <= j < |hs|
      ensures hs'[j].inUse == hs[j].inUse && hs'[j].name == hs[j].name && hs'[j].columns == hs[j].columns
    {
      assert hs'[j].(tree := None) == hs[j].(tree := None);
    }
  }

  // ---------- what a call means ----------

  datatype Call = Create(name: string, columns: seq<ColumnDef>) | Insert(table: string, values: Row)

  ghost predicate NameUsed(ts: Content, name: string) {
    exists i <- ts :: ts[i].name == name
  }

  /** The first slot not in use. */
  function FirstFree(ts: Content, from: nat): nat
    decreases MAX_CATALOG_TABLES - from
  {
    if from >= MAX_CATALOG_TABLES || from !in ts then from else FirstFree(ts, from + 1)
  }

  /** A call that is refused changes nothing. */
  ghost function Effect(ts: Content, call: Call): Content {
    match call
    case Create(name, columns) =>
      if 1 <= |name| < CATALOG_TABLE_NAME_LEN && SchemaOk(columns) && !NameUsed(ts, name) && FirstFree(ts, 0) < MAX_CATALOG_TABLES
      then ts[FirstFree(ts, 0) := TableRows(name, columns, map[])]
      else ts
    case Insert(name, values) =>
      map i | i in ts ::
        if ts[i].name == name && RowOk(ts[i].columns, values)
        then ts[i].(rows := PutRow(ts[i].rows, KeyOf(ts[i].columns, values), values))
        else ts[i]
  }

  ghost function Effects(ts: Content, calls: seq<Call>): Content
    decreases |calls|
  {
    if calls == [] then ts else Effect(Effects(ts, calls[..|calls| - 1]), calls[|calls| - 1])
  }

  lemma {:induction false} FirstFreeIs(ts: Content, from: nat)
    requires from <= MAX_CATALOG_TABLES
    ensures var f := FirstFree(ts, from);
            && from <= f <= MAX_CATALOG_TABLES && (f < MAX_CATALOG_TABLES ==> f !in ts) && forall j: nat :: from <= j < f ==> j in ts
    decreases MAX_CATALOG_TABLES - from
  {
    if from < MAX_CATALOG_TABLES && from in ts {
      FirstFreeIs(ts, from + 1);
    }
  }

  /** A row stored under its key in the table of that name: the effect of the call. */
  lemma InsertEffect(hs: seq<Handle>, hs': seq<Handle>, rows: seq<map<Key, Row>>, rows': seq<map<Key, Row>>, i: nat, name: string, values: Row)
    requires |rows| == |hs| && SameTables(hs', hs) && Named(hs', name, i) && RowIn(hs'[i].columns, rows, rows', i, values)
    requires forall j: nat, k: nat :: Named(hs, name, j) && Named(hs, name, k) ==> j == k
    ensures Told(hs', rows') == Effect(Told(hs, rows), Insert(name, values))
  {
    hide RowOk, KeyOf, PutRow;
    forall j | 0 <= j < |hs|
      ensures hs'[j].inUse == hs[j].inUse && hs'[j].name == hs[j].name && hs'[j].columns == hs[j].columns
    {
      assert hs'[j].(tree := None) == hs[j].(tree := None);
    }
    assert Named(hs, name, i);
    var ts, ts' := Told(hs, rows), Told(hs', rows');
    forall j | j in ts
      ensures j in ts' && ts'[j] == Effect(ts, Insert(name, values))[j]
    {
      assert ts[j].name == name ==> Named(hs, name, j);
    }
  }

  lemma InsertRefused(hs: seq<Handle>, hs': seq<Handle>, rows: seq<map<Key, Row>>, name: string, values: Row)
    requires |rows| == |hs| && SameTables(hs', hs) && !Accepts(hs, name, values)
    ensures Told(hs', rows) == Effect(Told(hs, rows), Insert(name, values))
  {
    hide RowOk, KeyOf, PutRow;
    forall j | 0 <= j < |hs|
      ensures hs'[j].inUse == hs[j].inUse && hs'[j].name == hs[j].name && hs'[j].columns == hs[j].columns
    {
      assert hs'[j].(tree := None) == hs[j].(tree := None);
    }
  }

  lemma CreateEffect(hs: seq<Handle>, rows: seq<map<Key, Row>>, i: nat, name: string, columns: seq<ColumnDef>)
    requires |rows| == |hs| == MAX_CATALOG_TABLES && CanCreate(hs, name, columns)
    requires i < |hs| && !hs[i].inUse && forall j :: 0 <= j < i ==> hs[j].inUse
    ensures Told(hs[i := Handle(true, name, columns, None)], rows[i := map[]]) == Effect(Told(hs, rows), Create(name, columns))
  {
    hide SchemaOk;
    var ts := Told(hs, rows);
    FirstFreeIs(ts, 0);
    assert FirstFree(ts, 0) == i;
    hide FirstFree;
    assert !NameUsed(ts, name);
    assert Told(hs[i := Handle(true, name, columns, None)], rows[i := map[]]) == ts[i := TableRows(name, columns, map[])];
  }

  lemma CreateRefused(hs: seq<Handle>, rows: seq<map<Key, Row>>, name: string, columns: seq<ColumnDef>)
    requires |rows| == |hs| == MAX_CATALOG_TABLES && !CanCreate(hs, name, columns)
    ensures Told(hs, rows) == Effect(Told(hs, rows), Create(name, columns))
  {
    hide SchemaOk;
    var ts := Told(hs, rows);
    FirstFreeIs(ts, 0);
    if !(forall j :: 0 <= j < |hs| && hs[j].inUse ==> hs[j].name != name) {
      var j: nat :| j < |hs| && hs[j].inUse && hs[j].name == name;
      assert j in ts && ts[j].name == name;
    }
  }

  // ---------- room ----------

  /** No change takes more than 22 page ids. */
  lemma ChangeGrowth(c: CatalogState, ch: Change)
    requires Good(c) && Enabled(c, ch)
    ensures Next(c, ch).free <= c.free + if ch.CountRow? then 0 else MOST_FRAMES
  {
    hide Apply, InsertTop, DeleteFrom, Contents, ToMap, Rep, Ordered, Distinct, Ids, Balanced, InsertInto, Catalogued;
    match ch
    case PutEntry(i, key, value) => PutGrowth(c, i, key, value);
    case _ =>
  }

  lemma PutGrowth(c: CatalogState, i: nat, key: Key, value: Bytes)
    requires Good(c) && InUse(c.s, i)
    ensures i < |c.trees| && AnchorOk(c.s[ANCHOR], Some(i))
    ensures InsertOut(c.s, c.trees, c.free, i, key, value).next <= c.free + MOST_FRAMES
  {
    hide InsertTop, Rep, Ordered, Distinct, Ids, Balanced;
    HeightBound(c.s, Some(i), c.trees[i].tree, c.trees[i].height, c.free);
    BalancedFits(c.trees[i].tree, c.trees[i].height, 1);
    TopNextBound(c.trees[i].tree, c.trees[i].height, key, value, c.free, Some(i), c.s[ANCHOR]);
  }

  lemma CallGrowth(log: seq<Image>, log': seq<Image>, c: CatalogState, c': CatalogState, chs: seq<Change>)
    requires Changes(log, log', c, c', chs)
    requires (|chs| == 1 || (|chs| == 2 && chs[1].CountRow?)) && !chs[0].CountRow?
    ensures c'.free <= c.free + MOST_FRAMES && log <= log'
  {
    hide Good, Enabled, WritesOf, Next, Extends;
    ExtendsGrows(log, log', LogOf(c, chs));
    StepKeeps(c, chs[0]);
    ChangeGrowth(c, chs[0]);
    var c1 := Next(c, chs[0]);
    assert Runs(c1, chs[1..]) && RunTo(c, chs) == RunTo(c1, chs[1..]);
    if |chs| == 2 {
      assert chs[1..][0] == chs[1];
      StepKeeps(c1, chs[1]);
      ChangeGrowth(c1, chs[1]);
      NoMore(Next(c1, chs[1]), chs[1..][1..]);
      assert RunTo(c1, chs[1..]) == RunTo(Next(c1, chs[1]), chs[1..][1..]);
    } else {
      NoMore(c1, chs[1..]);
    }
  }

  // ---------- one call ----------

  ghost predicate Representable(call: Call) {
    call.Insert? ==> AllRepresentable(call.values)
  }

  /** The catalog accepts the call. */
  ghost predicate AcceptsCall(hs: seq<Handle>, call: Call) {
    match call
    case Create(name, columns) => CanCreate(hs, name, columns)
    case Insert(name, values) => Accepts(hs, name, values)
  }

  ghost function ContentOf(c: Catalog): Content
    reads c
  {
    Told(c.handles, c.rows)
  }

  lemma ValueIsContent(c: Catalog)
    requires c.Valid()
    ensures ValueOf(c.State()) == StoredTables(ContentOf(c)) && |c.rows| == |c.handles| == MAX_CATALOG_TABLES
  {
    ToldStored(c.handles, c.rows, c.State());
  }

  /** One call. */
  method RunCall(c: Catalog, call: Call) returns (ok: bool)
    requires c.Valid() && Representable(call) && Roomy(|c.pool.frames|, c.pool.disk.nextPageId, 1)
    modifies c, c.pool, c.pool.disk, c.pool.wal, c.Objects()
    ensures c.Valid() && fresh(c.Objects() - old(c.Objects())) && |c.pool.frames| == old(|c.pool.frames|)
    ensures ok <==> AcceptsCall(old(c.handles), call)
    ensures ContentOf(c) == Effect(old(ContentOf(c)), call)
    ensures Either(HoldsCatalog, c.pool.Log(), old(|c.pool.Log()|), |c.pool.Log()|, StoredTables(old(ContentOf(c))), StoredTables(ContentOf(c)))
    ensures old(c.pool.Log()) <= c.pool.Log()
    ensures old(ClosedLog(c.pool.Log())) ==> ClosedLog(c.pool.Log())
    ensures c.pool.disk.nextPageId <= old(c.pool.disk.nextPageId) + MOST_FRAMES
  {
    hide BufferPool.Valid, BufferPool.View, BufferPool.Pins, BufferPool.Log, BufferPool.State, Mirrors, Catalogued, Opened, ClosedLog, Changes,
         Either, ValueOf, Effect, Told, StoredTables, CanCreate, Accepts, RowOk, Counted;
    ghost var log0, s0, hs, rows := c.pool.Log(), c.State(), c.handles, c.rows;
    ValueIsContent(c);
    match call {
      case Create(name, columns) =>
        ghost var i;
        ok, i := c.CreateTable(name, columns);
        if ok {
          CreateEffect(hs, rows, i, name, columns);
          CallGrowth(log0, c.pool.Log(), s0, c.State(), [MakeTable(i, name, columns)]);
        } else {
          CreateRefused(hs, rows, name, columns);
        }
      case Insert(name, values) =>
        RoomNow(c, name);
        ghost var i;
        ok, i := c.InsertRow(name, values);
        if ok {
          InsertEffect(hs, c.handles, rows, c.rows, i, name, values);
          CallGrowth(log0, c.pool.Log(), s0, c.State(), RowChanges(c.handles[i].columns, i, values));
        } else {
          InsertRefused(hs, c.handles, rows, name, values);
        }
    }
    ValueIsContent(c);
  }

  lemma RoomIn(c: Catalog, i: nat)
    requires c.Valid() && i < |c.handles| && c.handles[i].inUse && Roomy(|c.pool.frames|, c.pool.disk.nextPageId, 1)
    ensures c.HasRoom(i)
  {
    hide Rep, Ordered, Distinct, Ids, Balanced, Contents, ToMap, FramesSuffice, BufferPool.Valid, BufferPool.View, SchemaOk, Stores, Opened;
    MirrorsInUse(c.handles, c.rows, c.trees, c.pool.View()[ANCHOR], i);
    assert InUse(c.pool.View(), i);
    RoomyInsert(c.trees[i].tree, c.trees[i].height, |c.pool.frames|, c.pool.disk.nextPageId);
  }

  lemma RoomNow(c: Catalog, name: string)
    requires c.Valid() && Roomy(|c.pool.frames|, c.pool.disk.nextPageId, 1)
    ensures forall i: nat :: Named(c.handles, name, i) ==> c.HasRoom(i)
    ensures forall i: nat, j: nat :: Named(c.handles, name, i) && Named(c.handles, name, j) ==> i == j
  {
    hide Catalogued, Mirrors, Opened, Catalog.TreesOpened, BufferPool.Valid, BufferPool.View, Catalog.HasRoom, Roomy, TableStored, SchemaOk;
    forall i: nat | Named(c.handles, name, i)
      ensures c.HasRoom(i)
      ensures forall j: nat :: Named(c.handles, name, j) ==> i == j
    {
      RoomIn(c, i);
      c.SlotFacts(i);
    }
  }

  // ---------- sequences of calls ----------

  /** The tables before the first call and after each of them, rows encoded. */
  ghost function TablesAfter(ts: Content, calls: seq<Call>): (vs: seq<Tables>)
    ensures |vs| == |calls| + 1 && forall j: nat :: j <= |calls| ==> vs[j] == StoredTables(Effects(ts, calls[..j]))
  {
    seq(|calls| + 1, j requires 0 <= j <= |calls| => StoredTables(Effects(ts, calls[..j])))
  }

  lemma TablesMore(ts: Content, calls: seq<Call>, i: nat)
    requires i < |calls|
    ensures Effects(ts, calls[..i + 1]) == Effect(Effects(ts, calls[..i]), calls[i])
    ensures TablesAfter(ts, calls[..i])[i] == StoredTables(Effects(ts, calls[..i]))
    ensures TablesAfter(ts, calls[..i + 1]) == TablesAfter(ts, calls[..i]) + [StoredTables(Effects(ts, calls[..i + 1]))]
  {
    hide Effect, Effects, StoredTables, TablesAfter;
    EffectsOne(ts, calls, i);
    var now, before, last := TablesAfter(ts, calls[..i + 1]), TablesAfter(ts, calls[..i]), StoredTables(Effects(ts, calls[..i + 1]));
    assert calls[..i][..i] == calls[..i] && calls[..i + 1][..i + 1] == calls[..i + 1];
    forall j: nat | j < |now|
      ensures now[j] == (before + [last])[j]
    {
      if j <= i {
        assert calls[..i + 1][..j] == calls[..i][..j];
      }
    }
  }

  lemma CallsStart(c: Catalog, calls: seq<Call>)
    requires c.Valid()
    ensures Journal(HoldsCatalog, c.pool.Log(), [|c.pool.Log()|], TablesAfter(ContentOf(c), calls[..0]))
    ensures Effects(ContentOf(c), calls[..0]) == ContentOf(c)
  {
    hide Either, HoldsCatalog, BufferPool.Valid, BufferPool.View, BufferPool.Log, Mirrors, Catalogued, Opened, StoredTables;
    c.StillEither();
    ValueIsContent(c);
    JournalStarts(HoldsCatalog, c.pool.Log(), StoredTables(ContentOf(c)));
    assert TablesAfter(ContentOf(c), calls[..0]) == [StoredTables(ContentOf(c))];
  }

  lemma EffectsOne(ts: Content, calls: seq<Call>, i: nat)
    requires i < |calls|
    ensures Effects(ts, calls[..i + 1]) == Effect(Effects(ts, calls[..i]), calls[i])
  {
    assert calls[..i + 1][..i] == calls[..i];
  }

  /** Every sequence of CREATE TABLE and INSERT calls, refused ones included: the tables end as the calls say, and a crash
      at any point of the log the pool wrote recovers the tables after the completed calls, or after one more. */
  method RunCalls(c: Catalog, calls: seq<Call>) returns (ghost ends: seq<nat>)
    requires c.Valid() && forall k :: 0 <= k < |calls| ==> Representable(calls[k])
    requires Roomy(|c.pool.frames|, c.pool.disk.nextPageId, |calls|)
    modifies c, c.pool, c.pool.disk, c.pool.wal, c.Objects()
    ensures c.Valid() && fresh(c.Objects() - old(c.Objects())) && |c.pool.frames| == old(|c.pool.frames|)
    ensures ContentOf(c) == Effects(old(ContentOf(c)), calls)
    ensures Journal(HoldsCatalog, c.pool.Log(), ends, TablesAfter(old(ContentOf(c)), calls))
    ensures ends[0] == old(|c.pool.Log()|) && ends[|calls|] == |c.pool.Log()|
    ensures old(c.pool.Log()) <= c.pool.Log() && (old(ClosedLog(c.pool.Log())) ==> ClosedLog(c.pool.Log()))
  {
    hide BufferPool.Valid, BufferPool.View, BufferPool.Pins, BufferPool.Log, BufferPool.State, Mirrors, Catalogued, Opened, ClosedLog,
         Catalog.TreesOpened, Either, Effect, Effects, Told, StoredTables, TablesAfter, Journal, HoldsCatalog, Representable, Roomy;
    ghost var ts, log0 := ContentOf(c), c.pool.Log();
    ends := [|log0|];
    CallsStart(c, calls);
    var i := 0;
    while i < |calls|
      invariant i <= |calls| && |ends| == i + 1 && ends[0] == |log0| && ends[i] == |c.pool.Log()| && log0 <= c.pool.Log()
      invariant c.Valid() && fresh(c.Objects() - old(c.Objects())) && |c.pool.frames| == old(|c.pool.frames|)
      invariant Roomy(|c.pool.frames|, c.pool.disk.nextPageId, |calls| - i)
      invariant ContentOf(c) == Effects(ts, calls[..i])
      invariant Journal(HoldsCatalog, c.pool.Log(), ends, TablesAfter(ts, calls[..i]))
      invariant old(ClosedLog(c.pool.Log())) ==> ClosedLog(c.pool.Log())
    {
      ghost var log, free := c.pool.Log(), c.pool.disk.nextPageId;
      RoomyNow(|c.pool.frames|, free, |calls| - i);
      var _ := RunCall(c, calls[i]);
      RoomyNext(|c.pool.frames|, free, c.pool.disk.nextPageId, |calls| - i);
      TablesMore(ts, calls, i);
      JournalMore(HoldsCatalog, log, c.pool.Log(), ends, TablesAfter(ts, calls[..i]), StoredTables(ContentOf(c)));
      ends := ends + [|c.pool.Log()|];
      i := i + 1;
    }
    assert calls[..i] == calls;
  }

  lemma FreshPrefix(first: seq<Image>, n: nat, calls: seq<Call>)
    requires Extends([], first, [FIRST_CATALOG]) && n <= |first| && ANCHOR in Apply(map[], first[..n])
    ensures HoldsOne(HoldsCatalog, Apply(map[], first[..n]), TablesAfter(map[], calls))
  {
    hide Extends, HoldsCatalog;
    FirstPrefix(first, n, []);
    var done: nat :| done <= 0 && HoldsCatalog(Apply(map[], first[..n]), AfterAll(map[], [][..done]));
    assert calls[..0] == [];
    assert TablesAfter(map[], calls)[0] == map[];
  }

  /** The life of a database from its first page on: no log prefix has a dangling pointer, and every prefix that names
      the catalog page holds the tables, with all their rows, after some of the calls. */
  method RunFromEmpty(pool: BufferPool, calls: seq<Call>) returns (c: Catalog)
    requires pool.Valid() && pool.View() == pool.Durable() == map[] && pool.Pins() == map[] && pool.disk.nextPageId == 0
    requires Roomy(|pool.frames|, 1, |calls|) && forall k :: 0 <= k < |calls| ==> Representable(calls[k])
    modifies pool, pool.disk, pool.wal
    ensures fresh(c) && c.pool == pool && c.Valid() && ContentOf(c) == Effects(map[], calls)
    ensures ClosedLog(pool.Log())
    ensures forall n :: 0 <= n <= |pool.Log()| && ANCHOR in Apply(map[], pool.Log()[..n]) ==>
                          HoldsOne(HoldsCatalog, Apply(map[], pool.Log()[..n]), TablesAfter(map[], calls))
  {
    hide BufferPool.Valid, BufferPool.View, BufferPool.Pins, BufferPool.Log, BufferPool.State, Apply, Extends, ClosedLog, Mirrors, Catalogued,
         Opened, Catalog.TreesOpened, HoldsCatalog, HoldsOne, Effects, TablesAfter, StoredTables, Representable, Pow3;
    c := CreateCatalog(pool);
    ghost var log := pool.Log();
    FreshContent(c);
    var ends := RunCalls(c, calls);
    forall n | 0 <= n <= |pool.Log()| && ANCHOR in Apply(map[], pool.Log()[..n])
      ensures HoldsOne(HoldsCatalog, Apply(map[], pool.Log()[..n]), TablesAfter(map[], calls))
    {
      if n <= |log| {
        assert pool.Log()[..n] == log[..n];
        FreshPrefix(log, n, calls);
      } else {
        JournalCovers(HoldsCatalog, pool.Log(), ends, TablesAfter(map[], calls), n);
      }
    }
  }

  lemma FreshContent(c: Catalog)
    requires c.pool.Valid() && c.State() == Fresh() && forall i :: 0 <= i < |c.handles| ==> !c.handles[i].inUse
    ensures ContentOf(c) == map[]
  {
  }

  // ---------- inserts and scans ----------

  /** INSERTs into one table, one per row. */
  function InsertsOf(name: string, values: seq<Row>): (calls: seq<Call>)
    ensures |calls| == |values| && forall k :: 0 <= k < |calls| ==> calls[k] == Insert(name, values[k])
  {
    seq(|values|, k requires 0 <= k < |values| => Insert(name, values[k]))
  }

  /** Into an empty table, they leave the last accepted row under each key. */
  lemma {:induction false} InsertsEffect(ts: Content, i: nat, name: string, values: seq<Row>)
    requires i in ts && ts[i].name == name && ts[i].rows == map[]
    ensures var ts' := Effects(ts, InsertsOf(name, values));
            i in ts' && ts'[i] == ts[i].(rows := AfterInserts(ts[i].columns, values))
    decreases |values|
  {
    hide RowOk, KeyOf, PutRow;
    if values != [] {
      var n := |values| - 1;
      assert InsertsOf(name, values)[..n] == InsertsOf(name, values[..n]);
      InsertsEffect(ts, i, name, values[..n]);
    }
  }

  /** A scan after any sequence of INSERTs into a new table: the last accepted row under each key, in strictly increasing
      key order, and nothing else. */
  method InsertAndScan(c: Catalog, name: string, values: seq<Row>) returns (out: Query.Result<seq<Row>>, ghost i: nat)
    requires c.Valid() && forall k :: 0 <= k < |values| ==> AllRepresentable(values[k])
    requires Roomy(|c.pool.frames|, c.pool.disk.nextPageId, |values|)
    requires forall j <- ContentOf(c) :: ContentOf(c)[j].name == name ==> ContentOf(c)[j].rows == map[]
    modifies c, c.pool, c.pool.disk, c.pool.wal, c.Objects()
    ensures c.Valid() && (out.Ok? <==> NameUsed(old(ContentOf(c)), name))
    ensures out.Ok? ==> Named(c.handles, name, i) && i < |c.rows| && SchemaOk(c.handles[i].columns)
    ensures out.Ok? ==> c.rows[i] == AfterInserts(c.handles[i].columns, values)
    ensures out.Ok? ==> LastOfEach(c.handles[i].columns, values, out.value)
  {
    hide BufferPool.Valid, BufferPool.View, BufferPool.Pins, BufferPool.Log, BufferPool.State, Mirrors, Catalogued, Opened, ClosedLog, Extends,
         Effects, SchemaOk, InKeyOrder, AfterInserts, LastOfEach, AllRepresentable, Journal, NameUsed, Roomy, Named,
         Catalog.Readable;
    ghost var ts := ContentOf(c);
    var _ := RunCalls(c, InsertsOf(name, values));
    InsertsKeepNames(ts, name, values);
    ghost var hs := c.handles;
    out, i := c.ScanTable(name);
    ValueIsContent(c);
    NameIsUsed(c, ts, hs, name, values);
    if out.Ok? {
      InsertedRows(c, ts, name, values, i);
      LastOfEachIs(c.handles[i].columns, values, out.value);
    }
  }

  lemma {:induction false} InsertsKeepNames(ts: Content, name: string, values: seq<Row>)
    ensures var ts' := Effects(ts, InsertsOf(name, values));
            ts'.Keys == ts.Keys && forall j <- ts :: ts'[j].name == ts[j].name && ts'[j].columns == ts[j].columns
    decreases |values|
  {
    hide RowOk, KeyOf, PutRow;
    if values != [] {
      var n := |values| - 1;
      assert InsertsOf(name, values)[..n] == InsertsOf(name, values[..n]);
      InsertsKeepNames(ts, name, values[..n]);
    }
  }

  lemma NameIsUsed(c: Catalog, ts: Content, hs: seq<Handle>, name: string, values: seq<Row>)
    requires ContentOf(c) == Effects(ts, InsertsOf(name, values)) && SameTables(c.handles, hs) && |c.rows| == |c.handles|
    ensures forall j: nat :: Named(c.handles, name, j) ==> NameUsed(ts, name)
    ensures (forall j: nat :: !Named(hs, name, j)) ==> !NameUsed(ts, name)
  {
    hide Effects;
    InsertsKeepNames(ts, name, values);
    forall j: nat | j < |hs|
      ensures c.handles[j].inUse == hs[j].inUse && c.handles[j].name == hs[j].name
    {
      assert c.handles[j].(tree := None) == hs[j].(tree := None);
    }
    var now := ContentOf(c);
    forall j: nat
      ensures Named(hs, name, j) <==> j in ts && ts[j].name == name
      ensures Named(hs, name, j) <==> Named(c.handles, name, j)
    {
      assert Named(hs, name, j) <==> j in now && now[j].name == name;
    }
  }

  lemma InsertedRows(c: Catalog, ts: Content, name: string, values: seq<Row>, i: nat)
    requires ContentOf(c) == Effects(ts, InsertsOf(name, values)) && Named(c.handles, name, i) && i < |c.rows|
    requires forall j <- ts :: ts[j].name == name ==> ts[j].rows == map[]
    ensures c.rows[i] == AfterInserts(c.handles[i].columns, values)
  {
    hide Effects, AfterInserts;
    InsertsKeepNames(ts, name, values);
    assert i in ContentOf(c);
    InsertsEffect(ts, i, name, values);
  }

  lemma LastOfEachIs(columns: seq<ColumnDef>, values: seq<Row>, out: seq<Row>)
    requires SchemaOk(columns) && InKeyOrder(columns, AfterInserts(columns, values), out)
    ensures LastOfEach(columns, values, out)
  {
    hide RowOk, KeyOf, AfterInserts, SchemaOk;
    var rows := AfterInserts(columns, values);
    forall j: nat, key: Key | LastUnder(columns, values, j, key)
      ensures values[j] in out
    {
      LastInsertWins(columns, values, key);
    }
    forall k | 0 <= k < |out|
      ensures IsLast(columns, values, out[k])
    {
      LastInsertWins(columns, values, KeyOf(columns, out[k]));
    }
  }

  /** For every key some accepted row had, the last such row; no other row; keys strictly increasing. */
  ghost predicate LastOfEach(columns: seq<ColumnDef>, values: seq<Row>, out: seq<Row>) {
    && (forall j: nat, key: Key :: LastUnder(columns, values, j, key) ==> values[j] in out)
    && (forall k :: 0 <= k < |out| ==> RowOk(columns, out[k]) && IsLast(columns, values, out[k]))
    && (forall a, b :: 0 <= a < b < |out| ==> RowOk(columns, out[a]) && RowOk(columns, out[b]) && KeyOf(columns, out[a]) < KeyOf(columns, out[b]))
  }

  ghost predicate IsLast(columns: seq<ColumnDef>, values: seq<Row>, row: Row)
    requires RowOk(columns, row)
  {
    exists j: nat :: LastUnder(columns, values, j, KeyOf(columns, row)) && values[j] == row
  }
}
