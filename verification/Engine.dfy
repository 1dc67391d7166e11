/** Statements executed against the catalog. */
module Engines {
  import opened Pages
  import opened Plans
  import opened References
  import opened JoinOrder
  import opened Planner
  import opened PlanMeaning
  import opened Semantic
  import opened SelectMeaning
  import opened Inserts
  import opened RowCodecs
  import Executor
  import Catalogs
  import CatalogModel
  import CatalogRuns
  import Journals
  import LogClosed
  import Buffers
  import Query

  /** What a scan returns is well typed, as the planner's guarantees assume. */
  lemma {:induction false} ScannedTyped(columns: seq<ColumnDef>, rows: map<Key, Catalogs.Row>, out: seq<Catalogs.Row>, count: nat)
    requires Catalogs.SchemaOk(columns) && Catalogs.InKeyOrder(columns, rows, out)
    ensures TypedTable(Table(columns, out, count))
  {
    forall r | r in out
      ensures |r| == |columns| && forall k :: 0 <= k < |columns| ==> Fits(r[k], columns[k].ctype)
    {
      var a :| 0 <= a < |out| && out[a] == r;
      assert Catalogs.RowOk(columns, out[a]);
      var pk := Catalogs.KeyIndex(columns);
      forall k | 0 <= k < |columns|
        ensures Fits(r[k], columns[k].ctype)
      {
        assert k != pk ==> Stored(columns, k);
      }
    }
  }

  /** Check the column list and place the values in schema order. */
  method PrepareInsert(names: seq<string>, values: seq<Query.Value>, columns: seq<ColumnDef>) returns (r: Option<seq<Query.Value>>)
    requires AllRepresentable(values)
    ensures r.Some? <==> ValidInsert(names, values, columns)
    ensures r.Some? ==> Placed(names, values, columns, r.value) && AllRepresentable(r.value)
  {
    var valid := ValidateInsert(names, values, columns);
    if !valid {
      return None;
    }
    var placed := PlaceValues(names, values, columns);
    PlacedRepresentable(names, values, columns, placed);
    return Some(placed);
  }

  lemma SameColumns(was: seq<Catalogs.Handle>, now: seq<Catalogs.Handle>, table: string, i: nat)
    requires Catalogs.SameTables(now, was)
    ensures Catalogs.Named(now, table, i) <==> Catalogs.Named(was, table, i)
    ensures Catalogs.Named(now, table, i) ==> now[i].columns == was[i].columns
  {
    if i < |now| {
      assert now[i].(tree := None) == was[i].(tree := None);
    }
  }

  /** The row an INSERT statement stands for in a table with these columns. */
  ghost predicate RowFrom(names: seq<string>, values: seq<Query.Value>, columns: seq<ColumnDef>, row: seq<Query.Value>) {
    ValidInsert(names, values, columns) && Placed(names, values, columns, row)
  }

  /** An INSERT stands for one row. */
  lemma {:induction false} RowFromUnique(names: seq<string>, values: seq<Query.Value>, columns: seq<ColumnDef>, a: seq<Query.Value>, b: seq<Query.Value>)
    requires RowFrom(names, values, columns, a) && RowFrom(names, values, columns, b)
    ensures a == b
  {
    if names != [] {
      forall j | 0 <= j < |columns|
        ensures a[j] == b[j]
      {
        assert ListedFor(names, values, columns, j, a[j]) && ListedFor(names, values, columns, j, b[j]);
        var i: nat :| Names(names, columns, i, j) && i < |values| && a[j] == values[i];
        var k: nat :| Names(names, columns, k, j) && k < |values| && b[j] == values[k];
        assert i == k;
      }
    }
  }

  /** The statement passes validation against the table, and the table accepts its row. */
  ghost predicate Takes(columns: seq<ColumnDef>, names: seq<string>, values: seq<Query.Value>) {
    exists row :: RowFrom(names, values, columns, row) && Catalogs.RowOk(columns, row)
  }

  lemma TakesIs(columns: seq<ColumnDef>, names: seq<string>, values: seq<Query.Value>, row: seq<Query.Value>)
    requires RowFrom(names, values, columns, row)
    ensures Takes(columns, names, values) <==> Catalogs.RowOk(columns, row)
  {
    hide RowFrom, Catalogs.RowOk;
    if Takes(columns, names, values) {
      var r :| RowFrom(names, values, columns, r) && Catalogs.RowOk(columns, r);
      RowFromUnique(names, values, columns, r, row);
    }
  }

  /** Some table of this name takes the statement. */
  ghost predicate Accepted(hs: seq<Catalogs.Handle>, table: string, names: seq<string>, values: seq<Query.Value>) {
    exists i: nat :: Catalogs.Named(hs, table, i) && Takes(hs[i].columns, names, values)
  }

  lemma AcceptedIs(hs: seq<Catalogs.Handle>, table: string, names: seq<string>, values: seq<Query.Value>, i: nat)
    requires Catalogs.Named(hs, table, i) && forall j: nat :: Catalogs.Named(hs, table, j) ==> j == i
    ensures Accepted(hs, table, names, values) <==> Takes(hs[i].columns, names, values)
  {
    hide Takes, Catalogs.Named;
  }

  /** INSERT: accepted exactly when the table exists, the statement passes validation against it, and the table accepts the
      row it stands for; then the row is stored and counted, atomically at every crash point, and else nothing changes. */
  method ExecuteInsert(c: Catalogs.Catalog, table: string, names: seq<string>, values: seq<Query.Value>)
    returns (ok: bool, ghost row: seq<Query.Value>, ghost i: nat)
    requires c.Valid() && AllRepresentable(values) && forall i: nat :: Catalogs.Named(c.handles, table, i) ==> c.HasRoom(i)
    modifies c, c.pool, c.pool.disk, c.pool.wal, c.Objects()
    ensures c.Valid() && fresh(c.Objects() - old(c.Objects())) && |c.pool.frames| == old(|c.pool.frames|)
    ensures Catalogs.SameTables(c.handles, old(c.handles))
    ensures ok <==> Accepted(old(c.handles), table, names, values)
    ensures ok ==> Catalogs.Named(c.handles, table, i) && RowFrom(names, values, c.handles[i].columns, row)
    ensures ok ==> Catalogs.RowIn(c.handles[i].columns, old(c.rows), c.rows, i, row)
    ensures ok ==> Catalogs.Counted(old(c.pool.View()), c.pool.View(), i)
    ensures Journals.Either(CatalogRuns.HoldsCatalog, c.pool.Log(), old(|c.pool.Log()|), |c.pool.Log()|,
                                     CatalogRuns.ValueOf(old(c.State())), CatalogRuns.ValueOf(c.State()))
    ensures ok ==> CatalogRuns.Changes(old(c.pool.Log()), c.pool.Log(), old(c.State()), c.State(), Catalogs.RowChanges(c.handles[i].columns, i, row))
    ensures old(c.pool.Log()) <= c.pool.Log() && (old(LogClosed.ClosedLog(c.pool.Log())) ==> LogClosed.ClosedLog(c.pool.Log()))
    ensures !ok ==> c.rows == old(c.rows) && c.pool.State() == old(c.pool.State()) && c.State() == old(c.State())
  {
    hide CatalogModel.Catalogued, Catalogs.Mirrors, Catalogs.Opened, Catalogs.RowOk, Catalogs.RowIn, Catalogs.Accepts,
         Catalogs.Counted, Catalogs.SchemaOk, Catalogs.TableStored, Catalogs.Catalog.TreesOpened, Buffers.BufferPool.Valid,
         Buffers.BufferPool.Pins, Buffers.BufferPool.State, Buffers.BufferPool.View, Buffers.BufferPool.Log,
         ValidInsert, Placed, RowFrom, Takes, Accepted, Catalogs.Catalog.HasRoom, Journals.Either, CatalogRuns.ValueOf, CatalogRuns.Changes, LogClosed.ClosedLog;
    row, i := [], 0;
    c.StillEither();
    var found := c.FindTableIndex(table);
    if found.None? {
      NoTable(c.handles, table, names, values);
      return false, row, i;
    }
    c.SlotFacts(found.value);
    AcceptedIs(c.handles, table, names, values, found.value);
    var prepared := PrepareInsert(names, values, c.handles[found.value].columns);
    if prepared.None? {
      NotTaken(c.handles[found.value].columns, names, values);
      return false, row, i;
    }
    row := prepared.value;
    ghost var handles := c.handles;
    FromPlaced(names, values, handles[found.value].columns, row);
    TakesIs(handles[found.value].columns, names, values, row);
    ok, i := c.InsertRow(table, prepared.value);
    SameColumns(handles, c.handles, table, i);
  }

  lemma NoTable(hs: seq<Catalogs.Handle>, table: string, names: seq<string>, values: seq<Query.Value>)
    requires forall i :: 0 <= i < |hs| && hs[i].inUse ==> hs[i].name != table
    ensures !Accepted(hs, table, names, values)
  {
  }

  lemma NotTaken(columns: seq<ColumnDef>, names: seq<string>, values: seq<Query.Value>)
    requires !ValidInsert(names, values, columns)
    ensures !Takes(columns, names, values)
  {
  }

  lemma FromPlaced(names: seq<string>, values: seq<Query.Value>, columns: seq<ColumnDef>, row: seq<Query.Value>)
    requires ValidInsert(names, values, columns) && Placed(names, values, columns, row)
    ensures RowFrom(names, values, columns, row)
  {
  }

  lemma PlacedRepresentable(names: seq<string>, values: seq<Query.Value>, columns: seq<ColumnDef>, row: seq<Query.Value>)
    requires AllRepresentable(values) && Placed(names, values, columns, row)
    ensures AllRepresentable(row)
  {
    if names != [] {
      forall v | v in row
        ensures Representable(v)
      {
        var j :| 0 <= j < |row| && row[j] == v;
        assert ListedFor(names, values, columns, j, row[j]);
      }
    }
  }

  // ---------- SELECT ----------

  /** The tables a query sees are those of the catalog: their columns, a scan of their rows, and their counts. */
  ghost predicate Shows(hs: seq<Catalogs.Handle>, rows: seq<map<Key, Catalogs.Row>>, store: Store, db: Db) {
    && |rows| == |hs|
    && (forall n :: n in db <==> exists i: nat :: Catalogs.Named(hs, n, i))
    && (forall i: nat :: i < |hs| && hs[i].inUse ==> ShowsTable(hs[i], rows[i], Catalogs.CountIn(store, i), db))
  }

  ghost predicate ShowsTable(h: Catalogs.Handle, rows: map<Key, Catalogs.Row>, count: nat, db: Db) {
    && h.name in db && db[h.name].columns == h.columns && db[h.name].rowCount == count
    && Catalogs.SchemaOk(h.columns) && Catalogs.InKeyOrder(h.columns, rows, db[h.name].rows)
  }

  /** There is only one such view. */
  lemma ShowsUnique(hs: seq<Catalogs.Handle>, rows: seq<map<Key, Catalogs.Row>>, store: Store, a: Db, b: Db)
    requires Shows(hs, rows, store, a) && Shows(hs, rows, store, b)
    ensures a == b
  {
    hide Catalogs.SchemaOk, Catalogs.InKeyOrder, Catalogs.CountIn;
    forall n | n in a
      ensures n in b && a[n] == b[n]
    {
      var i: nat :| Catalogs.Named(hs, n, i);
      assert ShowsTable(hs[i], rows[i], Catalogs.CountIn(store, i), a);
      assert ShowsTable(hs[i], rows[i], Catalogs.CountIn(store, i), b);
      Catalogs.ScanUnique(hs[i].columns, rows[i], a[n].rows, b[n].rows);
    }
  }

  /** The view is well typed. */
  lemma {:induction false} ShownTyped(hs: seq<Catalogs.Handle>, rows: seq<map<Key, Catalogs.Row>>, store: Store, db: Db)
    requires Shows(hs, rows, store, db)
    ensures DbOk(db) && forall n <- db :: TypedTable(db[n])
  {
    hide Catalogs.SchemaOk, Catalogs.InKeyOrder, Catalogs.CountIn, TypedTable;
    forall n | n in db
      ensures TypedTable(db[n])
    {
      var i: nat :| Catalogs.Named(hs, n, i);
      assert ShowsTable(hs[i], rows[i], Catalogs.CountIn(store, i), db);
      ScannedTyped(hs[i].columns, rows[i], db[n].rows, db[n].rowCount);
    }
    TypedOk(db);
  }

  lemma TypedOk(db: Db)
    requires forall n <- db :: TypedTable(db[n])
    ensures DbOk(db)
  {
  }

  /** The tables among the first `n` slots. */
  ghost predicate ShowsFirst(hs: seq<Catalogs.Handle>, rows: seq<map<Key, Catalogs.Row>>, store: Store, db: Db, n: nat) {
    && |rows| == |hs| && n <= |hs|
    && (forall name :: name in db <==> exists i: nat :: i < n && Catalogs.Named(hs, name, i))
    && (forall i: nat :: i < n && hs[i].inUse ==> ShowsTable(hs[i], rows[i], Catalogs.CountIn(store, i), db))
  }

  lemma ShowsMore(hs: seq<Catalogs.Handle>, rows: seq<map<Key, Catalogs.Row>>, store: Store, db: Db, n: nat, t: Table)
    requires ShowsFirst(hs, rows, store, db, n) && n < |hs| && hs[n].inUse
    requires forall i: nat :: Catalogs.Named(hs, hs[n].name, i) ==> i == n
    requires t.columns == hs[n].columns && t.rowCount == Catalogs.CountIn(store, n)
    requires Catalogs.SchemaOk(hs[n].columns) && Catalogs.InKeyOrder(hs[n].columns, rows[n], t.rows)
    ensures ShowsFirst(hs, rows, store, db[hs[n].name := t], n + 1)
  {
    hide Catalogs.SchemaOk, Catalogs.InKeyOrder, Catalogs.CountIn;
    var db' := db[hs[n].name := t];
    forall name
      ensures name in db' <==> exists i: nat :: i < n + 1 && Catalogs.Named(hs, name, i)
    {
      if name == hs[n].name {
        assert Catalogs.Named(hs, name, n);
      }
    }
    forall i: nat | i < n + 1 && hs[i].inUse
      ensures ShowsTable(hs[i], rows[i], Catalogs.CountIn(store, i), db')
    {
      if i < n {
        assert ShowsTable(hs[i], rows[i], Catalogs.CountIn(store, i), db);
        assert Catalogs.Named(hs, hs[i].name, i);
      }
    }
  }

  lemma ShowsSkip(hs: seq<Catalogs.Handle>, rows: seq<map<Key, Catalogs.Row>>, store: Store, db: Db, n: nat)
    requires ShowsFirst(hs, rows, store, db, n) && n < |hs| && !hs[n].inUse
    ensures ShowsFirst(hs, rows, store, db, n + 1)
  {
    hide Catalogs.SchemaOk, Catalogs.InKeyOrder, Catalogs.CountIn;
  }

  /** Whichever trees are open, the view is the same. */
  lemma ShowsSame(hs: seq<Catalogs.Handle>, hs': seq<Catalogs.Handle>, rows: seq<map<Key, Catalogs.Row>>, store: Store, db: Db, n: nat)
    requires ShowsFirst(hs, rows, store, db, n) && Catalogs.SameTables(hs', hs)
    ensures ShowsFirst(hs', rows, store, db, n)
  {
    hide Catalogs.SchemaOk, Catalogs.InKeyOrder, Catalogs.CountIn;
    forall i | 0 <= i < |hs|
      ensures hs'[i].inUse == hs[i].inUse && hs'[i].name == hs[i].name && hs'[i].columns == hs[i].columns
    {
      assert hs'[i].(tree := None) == hs[i].(tree := None);
    }
    forall name, i: nat | i < n
      ensures Catalogs.Named(hs', name, i) <==> Catalogs.Named(hs, name, i)
    {
    }
    forall i: nat | i < n && hs'[i].inUse
      ensures ShowsTable(hs'[i], rows[i], Catalogs.CountIn(store, i), db)
    {
      assert ShowsTable(hs[i], rows[i], Catalogs.CountIn(store, i), db);
    }
  }

  /** One table: scanned and counted. */
  method ReadTable(c: Catalogs.Catalog, i: nat) returns (t: Table)
    requires c.Readable() && i < |c.handles| && c.handles[i].inUse
    modifies c`handles, c.pool, c.pool.disk, c.pool.wal
    ensures c.Readable() && (old(c.Valid()) ==> c.Valid()) && fresh(c.Objects() - old(c.Objects())) && |c.pool.frames| == old(|c.pool.frames|)
    ensures Catalogs.SameTables(c.handles, old(c.handles)) && c.pool.View() == old(c.pool.View())
    ensures c.pool.disk.nextPageId == old(c.pool.disk.nextPageId) && Extends(old(c.pool.Log()), c.pool.Log(), [])
    ensures old(LogClosed.ClosedLog(c.pool.Log())) ==> LogClosed.ClosedLog(c.pool.Log())
    ensures i < |c.handles| && i < |c.rows| && t.columns == c.handles[i].columns && t.rowCount == Catalogs.CountIn(c.pool.View(), i)
    ensures Catalogs.SchemaOk(c.handles[i].columns) && Catalogs.InKeyOrder(c.handles[i].columns, c.rows[i], t.rows)
  {
    hide CatalogModel.Catalogued, Catalogs.Mirrors, Catalogs.Opened, Catalogs.SchemaOk, Catalogs.InKeyOrder, Catalogs.CountIn,
         Buffers.BufferPool.View, Buffers.BufferPool.Log, LogClosed.ClosedLog, Extends;
    ghost var hs, log0 := c.handles, c.pool.Log();
    var rows := c.ScanSlot(i);
    SameColumns(hs, c.handles, hs[i].name, i);
    ghost var log1 := c.pool.Log();
    var count := c.SlotCount(i);
    ExtendsQuietly(log0, log1, c.pool.Log(), []);
    t := Table(c.handles[i].columns, rows, count);
  }

  /** One slot more. */
  method ReadSlot(c: Catalogs.Catalog, i: nat, db: Db) returns (db': Db)
    requires c.Readable() && i < |c.handles| && ShowsFirst(c.handles, c.rows, c.pool.View(), db, i)
    modifies c`handles, c.pool, c.pool.disk, c.pool.wal
    ensures c.Readable() && (old(c.Valid()) ==> c.Valid()) && fresh(c.Objects() - old(c.Objects()))
    ensures Catalogs.SameTables(c.handles, old(c.handles)) && c.pool.View() == old(c.pool.View())
    ensures c.pool.disk.nextPageId == old(c.pool.disk.nextPageId) && |c.pool.frames| == old(|c.pool.frames|)
    ensures Extends(old(c.pool.Log()), c.pool.Log(), [])
    ensures old(LogClosed.ClosedLog(c.pool.Log())) ==> LogClosed.ClosedLog(c.pool.Log())
    ensures ShowsFirst(c.handles, c.rows, c.pool.View(), db', i + 1)
  {
    hide CatalogModel.Catalogued, Catalogs.Mirrors, Catalogs.Opened, Catalogs.SchemaOk, Catalogs.InKeyOrder, Catalogs.CountIn, ShowsFirst,
         Buffers.BufferPool.View, Buffers.BufferPool.Log, LogClosed.ClosedLog, Extends;
    if !c.handles[i].inUse {
      ShowsSkip(c.handles, c.rows, c.pool.View(), db, i);
      ExtendsNothing(c.pool.Log());
      return db;
    }
    ghost var hs, view := c.handles, c.pool.View();
    c.SlotFacts(i);
    var t := ReadTable(c, i);
    ShowsSame(hs, c.handles, c.rows, view, db, i);
    forall j: nat
      ensures Catalogs.Named(c.handles, hs[i].name, j) ==> j == i
    {
      SameColumns(hs, c.handles, hs[i].name, j);
    }
    SameColumns(hs, c.handles, hs[i].name, i);
    ShowsMore(c.handles, c.rows, view, db, i, t);
    db' := db[c.handles[i].name := t];
  }

  /** Every table of the catalog. */
  method ReadTables(c: Catalogs.Catalog) returns (db: Db)
    requires c.Readable()
    modifies c`handles, c.pool, c.pool.disk, c.pool.wal
    ensures c.Readable() && (old(c.Valid()) ==> c.Valid()) && fresh(c.Objects() - old(c.Objects()))
    ensures Catalogs.SameTables(c.handles, old(c.handles)) && c.pool.View() == old(c.pool.View())
    ensures c.pool.disk.nextPageId == old(c.pool.disk.nextPageId) && |c.pool.frames| == old(|c.pool.frames|)
    ensures Extends(old(c.pool.Log()), c.pool.Log(), [])
    ensures old(LogClosed.ClosedLog(c.pool.Log())) ==> LogClosed.ClosedLog(c.pool.Log())
    ensures Shows(c.handles, c.rows, c.pool.View(), db)
  {
    hide CatalogModel.Catalogued, Catalogs.Mirrors, Catalogs.Opened, Catalogs.Catalog.TreesOpened, Catalogs.SameTables, Buffers.BufferPool.Valid,
         Buffers.BufferPool.View, Buffers.BufferPool.Pins, Buffers.BufferPool.Log, LogClosed.ClosedLog, ShowsFirst, Shows, Extends;
    ghost var hs, view, log0 := c.handles, c.pool.View(), c.pool.Log();
    db := map[];
    c.HowManyRows();
    ShowsNone(c.handles, c.rows, view);
    Catalogs.SameSelf(hs);
    ExtendsNothing(log0);
    var i := 0;
    while i < |c.handles|
      invariant 0 <= i <= |c.handles| && c.Readable() && (old(c.Valid()) ==> c.Valid()) && fresh(c.Objects() - old(c.Objects()))
      invariant Catalogs.SameTables(c.handles, hs) && |c.handles| == |hs| && c.pool.View() == view
      invariant old(LogClosed.ClosedLog(c.pool.Log())) ==> LogClosed.ClosedLog(c.pool.Log())
      invariant c.pool.disk.nextPageId == old(c.pool.disk.nextPageId) && |c.pool.frames| == old(|c.pool.frames|)
      invariant Extends(log0, c.pool.Log(), [])
      invariant ShowsFirst(c.handles, c.rows, view, db, i)
      decreases |hs| - i
    {
      ghost var before, log := c.handles, c.pool.Log();
      db := ReadSlot(c, i, db);
      ExtendsQuietly(log0, log, c.pool.Log(), []);
      Catalogs.SameThrough(c.handles, before, hs);
      i := i + 1;
    }
    ShowsAll(c.handles, c.rows, view, db);
  }

  lemma ShowsNone(hs: seq<Catalogs.Handle>, rows: seq<map<Key, Catalogs.Row>>, store: Store)
    requires |rows| == |hs|
    ensures ShowsFirst(hs, rows, store, map[], 0)
  {
  }

  lemma ShowsAll(hs: seq<Catalogs.Handle>, rows: seq<map<Key, Catalogs.Row>>, store: Store, db: Db)
    requires ShowsFirst(hs, rows, store, db, |hs|)
    ensures Shows(hs, rows, store, db)
  {
  }

  /** How an answer relates to a validated statement, given the greedy order of its plan.  Over well-typed ON conditions it is what
      the statement means if the order keeps the meaning of every ON reference, as it does when unqualified ones are near.  In
      any case it is what the statement would mean with its tables written in that order, if that is valid and well typed. */
  ghost predicate Answers(stmt: SelectStmt, db: Db, order: seq<nat>, out: Query.Result<seq<Query.Row>>)
    requires DbOk(db)
  {
    var c := ContextOf(stmt, db);
    && Orders(stmt, order) && Greedy(c, order)
    && (Plannable(c) && (Reached(c, order) || Near(c)) ==> Tells(stmt, db, out))
    && (ValidSelect(Reorder(stmt, order), db) && Plannable(ContextOf(Reorder(stmt, order), db)) ==> Tells(Reorder(stmt, order), db, out))
  }

  /** What agrees with the text tells what the text means. */
  lemma AgreeAnswers(stmt: SelectStmt, db: Db, order: seq<nat>, out: Query.Result<seq<Query.Row>>)
    requires DbOk(db) && ValidSelect(stmt, db) && Orders(stmt, order) && Greedy(ContextOf(stmt, db), order)
    requires var c := ContextOf(stmt, db);
             Plannable(c) && (Reached(c, order) || Near(c)) ==> SameAnswer(stmt.isStar, out, Meaning(TextPlan(stmt), db))
    requires ValidSelect(Reorder(stmt, order), db) && Plannable(ContextOf(Reorder(stmt, order), db)) ==>
               SameAnswer(stmt.isStar, out, Meaning(TextPlan(Reorder(stmt, order)), db))
    ensures Answers(stmt, db, order, out)
  {
    hide ValidSelect, DbOk, Plannable, SameAnswer, Near, Reached, Greedy, Orders, Tells, Meaning, TextPlan;
    SameStar(stmt, order);
    hide Reorder;
    if SameAnswer(stmt.isStar, out, Meaning(TextPlan(stmt), db)) {
      AgreeTells(stmt, db, out);
    }
    if ValidSelect(Reorder(stmt, order), db) && Plannable(ContextOf(Reorder(stmt, order), db)) {
      AgreeTells(Reorder(stmt, order), db, out);
    }
  }

  lemma SameStar(stmt: SelectStmt, order: seq<nat>)
    requires Orders(stmt, order)
    ensures Reorder(stmt, order).isStar == stmt.isStar
  {
  }

  /** Validate, plan and run. */
  method RunSelect(stmt: SelectStmt, db: Db) returns (out: Query.Result<seq<Query.Row>>, ghost order: seq<nat>)
    requires DbOk(db)
    ensures out.Ok? ==> ValidSelect(stmt, db)
    ensures ValidSelect(stmt, db) ==> Answers(stmt, db, order, out)
  {
    hide ValidSelect, DbOk, Plannable, SameAnswer, Near, Reached, Connected, Greedy, JoinPlan, Orders, Reorder;
    order := [];
    var valid := ValidateSelect(stmt, db);
    if !valid {
      return Query.Err, order;
    }
    var plan, b := PlanSelect(stmt, db);
    order := b.order;
    if plan.Err? {
      return Query.Err, order;
    }
    out := Executor.Execute(plan.value, db);
    AgreeAnswers(stmt, db, order, out);
  }

  /** SELECT on the catalog, also one recovered in the middle of a split: only validated statements have an answer, and the
      answer relates to the rows the tables hold, which are well typed. */
  method ExecuteSelect(c: Catalogs.Catalog, stmt: SelectStmt)
    returns (out: Query.Result<seq<Query.Row>>, ghost db: Db, ghost order: seq<nat>)
    requires c.Readable()
    modifies c`handles, c.pool, c.pool.disk, c.pool.wal
    ensures c.Readable() && (old(c.Valid()) ==> c.Valid()) && fresh(c.Objects() - old(c.Objects()))
    ensures Catalogs.SameTables(c.handles, old(c.handles)) && c.pool.View() == old(c.pool.View())
    ensures c.pool.disk.nextPageId == old(c.pool.disk.nextPageId) && |c.pool.frames| == old(|c.pool.frames|)
    ensures Extends(old(c.pool.Log()), c.pool.Log(), []) && (old(LogClosed.ClosedLog(c.pool.Log())) ==> LogClosed.ClosedLog(c.pool.Log()))
    ensures Shows(c.handles, c.rows, c.pool.View(), db) && DbOk(db) && forall n <- db :: TypedTable(db[n])
    ensures out.Ok? ==> ValidSelect(stmt, db)
    ensures ValidSelect(stmt, db) ==> Answers(stmt, db, order, out)
  {
    hide CatalogModel.Catalogued, Catalogs.Mirrors, Catalogs.Opened, Catalogs.Catalog.TreesOpened, Buffers.BufferPool.View, Buffers.BufferPool.Log,
         LogClosed.ClosedLog, Extends, Shows, ValidSelect, Answers, DbOk, TypedTable;
    var tables := ReadTables(c);
    db := tables;
    ShownTyped(c.handles, c.rows, c.pool.View(), tables);
    out, order := RunSelect(stmt, tables);
  }

  // ---------- a column declared twice ----------

  /** SELECT x FROM t */
  function SelectOne(t: string, x: string): SelectStmt {
    SelectStmt(false, [SelectItem(None, x, None)], TableRef(t, None), [], None)
  }

  function OneTable(t: string, columns: seq<ColumnDef>, rows: seq<seq<Query.Value>>): Db {
    map[t := Table(columns, rows, |rows|)]
  }

  lemma SelectOneNodes(t: string, x: string)
    ensures NodesOf(SelectOne(t, x)) == [TableNode(t, t, None)] && SelectOne(t, x).where.None? && !SelectOne(t, x).isStar
  {
  }

  lemma SelectOneValid(t: string, columns: seq<ColumnDef>, rows: seq<seq<Query.Value>>, x: string)
    requires HasColumn(columns, x)
    ensures ValidSelect(SelectOne(t, x), OneTable(t, columns, rows))
  {
    hide HasColumn;
    SelectOneNodes(t, x);
    var db, nodes := OneTable(t, columns, rows), [TableNode(t, t, None)];
    assert ScopeOf(nodes, db, 0) == map[];
    assert ScopeOf(nodes, db, 1) == map[t := columns];
    assert t in ScopeOf(nodes, db, 1) && InScope(ScopeOf(nodes, db, 1), None, x);
    forall i | i in SelectOne(t, x).items
      ensures InScope(ScopeOf(nodes, db, 1), i.table, i.column)
    {
      assert i == SelectItem(None, x, None);
    }
  }

  lemma SelectOneMeans(t: string, columns: seq<ColumnDef>, rows: seq<seq<Query.Value>>, x: string)
    requires forall r <- rows :: |r| == |columns|
    ensures var db := OneTable(t, columns, rows);
            DbOk(db) && Meaning(TextPlan(SelectOne(t, x)), db) == ProjectRows(ScanRows(db[t], t), [SelectItem(None, x, None)])
  {
    hide ScanRows, ProjectRows;
  }

  /** Validation accepts an unqualified column that its one table declares twice, and the query fails as soon as the table
      has a row. */
  lemma RepeatedColumnFails(t: string, columns: seq<ColumnDef>, rows: seq<seq<Query.Value>>, x: string)
    requires Times(columns, x) > 1 && forall r <- rows :: |r| == |columns|
    ensures DbOk(OneTable(t, columns, rows)) && ValidSelect(SelectOne(t, x), OneTable(t, columns, rows))
    ensures Meaning(TextPlan(SelectOne(t, x)), OneTable(t, columns, rows)).Err? <==> rows != []
  {
    hide ValidSelect, DbOk, Meaning, TextPlan, Times, HasColumn, Query.Find, Query.Named, Tag;
    TimesPositive(columns, x);
    SelectOneValid(t, columns, rows, x);
    SelectOneMeans(t, columns, rows, x);
    if rows != [] {
      assert rows[0] in rows;
      NamedTag(t, columns, rows[0], x);
      Query.FindUnqualified(ScanRows(Table(columns, rows, |rows|), t)[0], x);
    }
  }

  /** A schema with a repeated column is accepted. */
  lemma RepeatedSchema()
    ensures var columns := [ColumnDef("id", IntegerType, true), ColumnDef("x", IntegerType, false), ColumnDef("x", IntegerType, false)];
            Catalogs.SchemaOk(columns) && Times(columns, "x") > 1
  {
    var columns := [ColumnDef("id", IntegerType, true), ColumnDef("x", IntegerType, false), ColumnDef("x", IntegerType, false)];
    assert PrimaryKeyIndex(columns) == Some(0);
    assert WidthOf(columns, 1) == 0 && WidthOf(columns, 2) == 8 && WidthOf(columns, 3) == 16;
    assert columns[0].isPrimaryKey;
    assert columns[1..] == [columns[1], columns[2]] && columns[1..][1..] == [columns[2]];
    assert Times([columns[2]], "x") == 1;
  }
}
