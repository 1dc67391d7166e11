/** A text of SQL, executed: lexed, parsed, validated and run against the catalog. */
module Sqls {
  import opened Pages
  import opened Query
  import opened Plans
  import opened Planner
  import opened Semantic
  import opened Inserts
  import opened RowCodecs
  import opened Grammar
  import opened Statements
  import opened CatalogModel
  import opened CatalogRuns
  import opened Catalogs
  import opened CatalogCalls
  import opened LogClosed
  import opened Journals
  import opened TreeShape
  import opened Engines
  import Buffers
  import Lexing
  import Parsers

  // ---------- literals of a byte text can be stored ----------

  /** The text is made of bytes. */
  predicate Bytewise(text: string) {
    forall c <- text :: c as int < 256
  }

  predicate Literals(ts: Tokens) {
    && (forall t <- ts :: t.INTEGER_LITERAL? ==> t.number <= Lexing.MAX_LITERAL)
    && (forall t <- ts :: t.STRING_LITERAL? ==> Bytewise(t.chars))
  }

  lemma {:induction false} BodyBytes(s: string)
    requires Bytewise(s)
    ensures Lexing.StringBody(s).Some? ==> Bytewise(Lexing.StringBody(s).value.0) && Bytewise(Lexing.StringBody(s).value.1)
    decreases |s|
  {
    if s != [] {
      assert s[0] in s && (forall c <- s[1..] :: c in s);
      if s[0] != '\'' {
        BodyBytes(s[1..]);
      } else if |s| > 1 && s[1] == '\'' {
        assert forall c <- s[2..] :: c in s;
        BodyBytes(s[2..]);
      }
    }
  }

  lemma SuffixBytes(s: string, k: nat)
    requires Bytewise(s) && k <= |s|
    ensures Bytewise(s[k..])
  {
    assert forall c <- s[k..] :: c in s;
  }

  lemma OneBytes(s: string)
    requires s != [] && Bytewise(s)
    ensures Lexing.LexOne(s).Some? ==> Literals([Lexing.LexOne(s).value.0]) && Bytewise(Lexing.LexOne(s).value.1)
  {
    hide Lexing.Keywords, Lexing.Number, Lexing.StringBody, Lexing.Upper;
    SuffixBytes(s, 1);
    BodyBytes(s[1..]);
    KeywordsPlain();
    SuffixBytes(s, Lexing.Span(s, false));
    SuffixBytes(s, Lexing.Span(s, true));
    var symbol := Lexing.Symbol(s);
    if symbol.Some? {
      SuffixBytes(s, symbol.value.1);
    }
  }

  lemma KeywordsPlain()
    ensures forall w <- Lexing.Keywords() :: !Lexing.Keywords()[w].INTEGER_LITERAL? && !Lexing.Keywords()[w].STRING_LITERAL?
  {
  }

  /** Lexing gives 64-bit integers and byte strings. */
  lemma {:induction false} LexLiterals(s: string)
    requires Bytewise(s)
    ensures Lexing.Lex(s).Some? ==> Literals(Lexing.Lex(s).value)
    decreases |s|
  {
    hide Lexing.LexOne;
    if s != [] {
      assert forall c <- s[1..] :: c in s;
      if Lexing.IsSpace(s[0]) {
        LexLiterals(s[1..]);
      } else {
        OneBytes(s);
        if Lexing.LexOne(s).Some? {
          LexLiterals(Lexing.LexOne(s).value.1);
        }
      }
    }
  }

  lemma LiteralsTail(ts: Tokens)
    requires Literals(ts) && ts != []
    ensures Literals(ts[1..])
  {
    assert forall t <- ts[1..] :: t in ts;
  }

  lemma LiteralValue(ts: Tokens)
    requires Literals(ts) && ParseLiteral(ts).Some?
    ensures RowCodecs.Representable(ParseLiteral(ts).value.0) && Literals(ParseLiteral(ts).value.1)
  {
    assert ts[0] in ts;
    LiteralsTail(ts);
  }

  lemma {:induction false} LiteralTail(done: seq<Value>, ts: Tokens)
    requires Literals(ts) && AllRepresentable(done)
    ensures ListTail(ParseLiteral, done, ts).Some? ==> AllRepresentable(ListTail(ParseLiteral, done, ts).value.0)
    decreases |ts|
  {
    hide ParseLiteral, Literals, RowCodecs.Representable;
    if Starts(ts, COMMA) {
      LiteralsTail(ts);
      var x := ParseLiteral(ts[1..]);
      if x.Some? {
        LiteralValue(ts[1..]);
        if |x.value.1| < |ts| {
          LiteralTail(done + [x.value.0], x.value.1);
        }
      }
    }
  }

  lemma {:induction false} IdentTail(done: seq<string>, ts: Tokens)
    requires Literals(ts)
    ensures ListTail(ParseIdent, done, ts).Some? ==> Literals(ListTail(ParseIdent, done, ts).value.1)
    decreases |ts|
  {
    hide Literals;
    if Starts(ts, COMMA) {
      LiteralsTail(ts);
      var x := ParseIdent(ts[1..]);
      if x.Some? {
        LiteralsTail(ts[1..]);
        if |x.value.1| < |ts| {
          IdentTail(done + [x.value.0], x.value.1);
        }
      }
    }
  }

  lemma NamesLiterals(ts: Tokens)
    requires Literals(ts)
    ensures ParseNames(ts).Some? ==> Literals(ParseNames(ts).value.1)
  {
    hide Literals;
    if Starts(ts, LPAREN) {
      LiteralsTail(ts);
      var first := ParseIdent(ts[1..]);
      if first.Some? {
        LiteralsTail(ts[1..]);
        IdentTail([first.value.0], first.value.1);
        var list := ParseList(ParseIdent, ts[1..]);
        if list.Some? && list.value.1 != [] {
          LiteralsTail(list.value.1);
        }
      }
    }
  }

  lemma InsertValues(ts: Tokens)
    requires Literals(ts) && ParseInsert(ts).Some?
    ensures ParseInsert(ts).value.0.Insert? && AllRepresentable(ParseInsert(ts).value.0.values)
  {
    hide Literals, ParseNames, ParseLiteral, RowCodecs.Representable;
    LiteralsTail(ts);
    LiteralsTail(ts[1..]);
    LiteralsTail(ts[1..][1..]);
    var table := ParseIdent(ts[1..][1..]);
    NamesLiterals(table.value.1);
    var rest := ParseNames(table.value.1).value.1;
    LiteralsTail(rest);
    LiteralsTail(rest[1..]);
    var first := ParseLiteral(rest[1..][1..]);
    LiteralValue(rest[1..][1..]);
    LiteralTail([first.value.0], first.value.1);
  }

  /** So the values of a parsed INSERT can be stored. */
  lemma SqlRepresentable(text: string)
    requires Bytewise(text)
    ensures Parsers.Sql(text).Some? && Parsers.Sql(text).value.Insert? ==> AllRepresentable(Parsers.Sql(text).value.values)
  {
    hide Literals, ParseInsert, ParseSelect, ParseCreate, Lexing.Lex;
    LexLiterals(text);
    var tokens := Lexing.Lex(text);
    if tokens.Some? {
      BodyKind(tokens.value);
      if Starts(tokens.value, INSERT) && ParseInsert(tokens.value).Some? {
        InsertValues(tokens.value);
      }
    }
  }

  lemma BodyKind(ts: Tokens)
    ensures ParseCreate(ts).Some? ==> ParseCreate(ts).value.0.CreateTable?
    ensures ParseSelect(ts).Some? ==> ParseSelect(ts).value.0.Select?
  {
    hide ParseEnclosed, ParseItems, ParseTableRef, ParseWhere, JoinsTail;
  }

  // ---------- what a statement means to the tables ----------

  /** The row an accepted INSERT stands for. */
  ghost function RowOf(names: seq<string>, values: seq<Value>, columns: seq<ColumnDef>): (row: seq<Value>)
    requires Takes(columns, names, values)
    ensures RowFrom(names, values, columns, row) && RowOk(columns, row)
  {
    var row :| RowFrom(names, values, columns, row) && RowOk(columns, row);
    row
  }

  /** The tables after a statement; one that is refused changes nothing, and so does a SELECT. */
  ghost function Meant(ts: Content, stmt: Statement): Content {
    match stmt
    case CreateTable(name, columns) => Effect(ts, Create(name, columns))
    case Insert(table, names, values) =>
      map i | i in ts ::
        if ts[i].name == table && Takes(ts[i].columns, names, values)
        then var row := RowOf(names, values, ts[i].columns); ts[i].(rows := PutRow(ts[i].rows, KeyOf(ts[i].columns, row), row))
        else ts[i]
    case Select(_) => ts
  }

  lemma InsertMeant(hs: seq<Handle>, hs': seq<Handle>, rows: seq<map<Key, Catalogs.Row>>, rows': seq<map<Key, Catalogs.Row>>, i: nat, table: string,
                    names: seq<string>, values: seq<Value>, row: seq<Value>)
    requires |rows| == |hs| && SameTables(hs', hs) && Catalogs.Named(hs', table, i) && RowFrom(names, values, hs'[i].columns, row)
    requires RowIn(hs'[i].columns, rows, rows', i, row) && forall j: nat, k: nat :: Catalogs.Named(hs, table, j) && Catalogs.Named(hs, table, k) ==> j == k
    ensures Told(hs', rows') == Meant(Told(hs, rows), Statement.Insert(table, names, values))
  {
    hide RowOk, KeyOf, PutRow, RowFrom, Takes;
    SameColumns(hs, hs', table, i);
    var columns := hs[i].columns;
    TakesIs(columns, names, values, row);
    RowFromUnique(names, values, columns, row, RowOf(names, values, columns));
    forall j | 0 <= j < |hs|
      ensures hs'[j].inUse == hs[j].inUse && hs'[j].name == hs[j].name && hs'[j].columns == hs[j].columns
    {
      assert hs'[j].(tree := None) == hs[j].(tree := None);
    }
    var ts, ts' := Told(hs, rows), Told(hs', rows');
    forall j | j in ts
      ensures j in ts' && ts'[j] == Meant(ts, Statement.Insert(table, names, values))[j]
    {
      assert ts[j].name == table ==> Catalogs.Named(hs, table, j);
    }
  }

  lemma InsertNotMeant(hs: seq<Handle>, hs': seq<Handle>, rows: seq<map<Key, Catalogs.Row>>, table: string, names: seq<string>, values: seq<Value>)
    requires |rows| == |hs| && SameTables(hs', hs) && !Accepted(hs, table, names, values)
    ensures Told(hs', rows) == Meant(Told(hs, rows), Statement.Insert(table, names, values))
  {
    hide Takes, RowOk, KeyOf, PutRow;
    forall j | 0 <= j < |hs|
      ensures hs'[j].inUse == hs[j].inUse && hs'[j].name == hs[j].name && hs'[j].columns == hs[j].columns
    {
      assert hs'[j].(tree := None) == hs[j].(tree := None);
    }
    var ts := Told(hs, rows);
    forall j | j in ts
      ensures !(ts[j].name == table && Takes(ts[j].columns, names, values))
    {
      assert ts[j].name == table ==> Catalogs.Named(hs, table, j);
    }
  }

  // ---------- executing a text ----------

  /** A failure stands for the exception; CREATE TABLE and INSERT give no rows. */
  datatype Outcome = Failed | Done | Selected(rows: seq<Query.Row>)

  /** When a statement fails, and what a SELECT gives. */
  ghost predicate Gives(hs: seq<Handle>, stmt: Statement, db: Db, order: seq<nat>, out: Outcome)
    requires stmt.Select? ==> DbOk(db)
  {
    match stmt
    case CreateTable(name, columns) => out == if CanCreate(hs, name, columns) then Done else Failed
    case Insert(table, names, values) => out == if Accepted(hs, table, names, values) then Done else Failed
    case Select(select) =>
      && !out.Done? && (out.Selected? ==> ValidSelect(select, db))
      && (ValidSelect(select, db) ==> Answers(select, db, order, if out.Selected? then Ok(out.rows) else Err))
  }

  /** A read changes no table and at no point what the log holds. */
  lemma ReadEither(log: seq<Image>, log': seq<Image>, c: CatalogState)
    requires Good(c) && Apply(map[], log) == c.s && Extends(log, log', [])
    ensures Either(HoldsCatalog, log', |log|, |log'|, ValueOf(c), ValueOf(c)) && log <= log'
  {
    hide Good, HoldsCatalog, ValueOf, Apply, Extends;
    GoodHolds(c);
    ExtendsGrows(log, log', []);
    forall n | |log| <= n <= |log'|
      ensures Apply(map[], log'[..n]) == c.s
    {
      CrashPoints(log, log', [], n);
      NothingVisited(c.s, Apply(map[], log'[..n]));
    }
  }

  /** INSERT: the tables are as the statement means, and every crash point shows them as before or as after. */
  method RunInsert(c: Catalog, table: string, names: seq<string>, values: seq<Value>) returns (out: Outcome)
    requires c.Valid() && AllRepresentable(values) && Roomy(|c.pool.frames|, c.pool.disk.nextPageId, 1)
    modifies c, c.pool, c.pool.disk, c.pool.wal, c.Objects()
    ensures c.Valid() && fresh(c.Objects() - old(c.Objects())) && |c.pool.frames| == old(|c.pool.frames|)
    ensures out == if Accepted(old(c.handles), table, names, values) then Done else Failed
    ensures ContentOf(c) == Meant(old(ContentOf(c)), Statement.Insert(table, names, values))
    ensures Either(HoldsCatalog, c.pool.Log(), old(|c.pool.Log()|), |c.pool.Log()|, StoredTables(old(ContentOf(c))), StoredTables(ContentOf(c)))
    ensures old(c.pool.Log()) <= c.pool.Log() && (old(ClosedLog(c.pool.Log())) ==> ClosedLog(c.pool.Log()))
    ensures c.pool.disk.nextPageId <= old(c.pool.disk.nextPageId) + MOST_FRAMES
  {
    hide Buffers.BufferPool.Valid, Buffers.BufferPool.View, Buffers.BufferPool.Pins, Buffers.BufferPool.Log, Buffers.BufferPool.State, Mirrors,
         Catalogued, Opened, Catalog.TreesOpened, Catalog.HasRoom, ClosedLog, Changes, Either, ValueOf, Told, StoredTables, Accepted, Takes,
         RowOk, RowFrom, Counted, Meant, Roomy;
    ghost var log0, s0, hs, rows := c.pool.Log(), c.State(), c.handles, c.rows;
    ValueIsContent(c);
    RoomNow(c, table);
    var ok, row, i := ExecuteInsert(c, table, names, values);
    if ok {
      OneName(hs, c.handles, table);
      InsertMeant(hs, c.handles, rows, c.rows, i, table, names, values, row);
      CallGrowth(log0, c.pool.Log(), s0, c.State(), RowChanges(c.handles[i].columns, i, row));
    } else {
      InsertNotMeant(hs, c.handles, rows, table, names, values);
    }
    ValueIsContent(c);
    out := if ok then Done else Failed;
  }

  lemma OneName(hs: seq<Handle>, hs': seq<Handle>, table: string)
    requires SameTables(hs', hs)
    requires forall i: nat, j: nat :: Catalogs.Named(hs, table, i) && Catalogs.Named(hs, table, j) ==> i == j
    ensures forall i: nat, j: nat :: Catalogs.Named(hs', table, i) && Catalogs.Named(hs', table, j) ==> i == j
  {
    forall i: nat, j: nat | Catalogs.Named(hs', table, i) && Catalogs.Named(hs', table, j)
      ensures i == j
    {
      SameColumns(hs, hs', table, i);
      SameColumns(hs, hs', table, j);
    }
  }

  /** SELECT: nothing changes, at no crash point. */
  method RunQuery(c: Catalog, select: SelectStmt) returns (out: Outcome, ghost db: Db, ghost order: seq<nat>)
    requires c.Valid()
    modifies c`handles, c.pool, c.pool.disk, c.pool.wal
    ensures c.Valid() && fresh(c.Objects() - old(c.Objects())) && |c.pool.frames| == old(|c.pool.frames|)
    ensures Shows(c.handles, c.rows, c.pool.View(), db) && DbOk(db) && Gives([], Select(select), db, order, out)
    ensures ContentOf(c) == old(ContentOf(c)) && c.pool.disk.nextPageId == old(c.pool.disk.nextPageId)
    ensures Either(HoldsCatalog, c.pool.Log(), old(|c.pool.Log()|), |c.pool.Log()|, StoredTables(ContentOf(c)), StoredTables(ContentOf(c)))
    ensures old(c.pool.Log()) <= c.pool.Log() && (old(ClosedLog(c.pool.Log())) ==> ClosedLog(c.pool.Log()))
  {
    hide Buffers.BufferPool.Valid, Buffers.BufferPool.View, Buffers.BufferPool.Pins, Buffers.BufferPool.Log, Buffers.BufferPool.State, Mirrors,
         Opened, Catalog.TreesOpened, ClosedLog, Either, ValueOf, Told, StoredTables, Extends, Shows, Answers, ValidSelect, DbOk, Good;
    ghost var log0, s0, hs := c.pool.Log(), c.State(), c.handles;
    StateGood(c);
    ValueIsContent(c);
    var rows, tables, o := ExecuteSelect(c, select);
    db, order := tables, o;
    ReadEither(log0, c.pool.Log(), s0);
    ToldSame(hs, c.handles, c.rows);
    out := if rows.Ok? then Selected(rows.value) else Failed;
  }

  lemma StateGood(c: Catalog)
    requires c.Valid()
    ensures Good(c.State()) && c.pool.View() == c.State().s == Apply(map[], c.pool.Log())
  {
  }

  /** A text of SQL: it fails, or gives rows, as its statement does; the tables are then as the statement means, every crash
      point in between recovers them as before or as after, and no log prefix has a dangling pointer. */
  method ExecuteSQL(c: Catalog, sql: string) returns (out: Outcome, ghost db: Db, ghost order: seq<nat>)
    requires c.Valid() && Bytewise(sql) && Roomy(|c.pool.frames|, c.pool.disk.nextPageId, 1)
    modifies c, c.pool, c.pool.disk, c.pool.wal, c.Objects()
    ensures c.Valid() && fresh(c.Objects() - old(c.Objects())) && |c.pool.frames| == old(|c.pool.frames|)
    ensures Parsers.Sql(sql).None? ==> out.Failed? && ContentOf(c) == old(ContentOf(c))
    ensures Parsers.Sql(sql).Some? ==>
              && DbOk(db) && Gives(old(c.handles), Parsers.Sql(sql).value, db, order, out)
              && ContentOf(c) == Meant(old(ContentOf(c)), Parsers.Sql(sql).value)
              && (Parsers.Sql(sql).value.Select? ==> Shows(c.handles, c.rows, c.pool.View(), db))
    ensures Either(HoldsCatalog, c.pool.Log(), old(|c.pool.Log()|), |c.pool.Log()|, StoredTables(old(ContentOf(c))), StoredTables(ContentOf(c)))
    ensures old(c.pool.Log()) <= c.pool.Log() && (old(ClosedLog(c.pool.Log())) ==> ClosedLog(c.pool.Log()))
    ensures c.pool.disk.nextPageId <= old(c.pool.disk.nextPageId) + MOST_FRAMES
  {
    hide Buffers.BufferPool.Valid, Buffers.BufferPool.View, Buffers.BufferPool.Pins, Buffers.BufferPool.Log, Buffers.BufferPool.State, Mirrors,
         Catalogued, Opened, Catalog.TreesOpened, ClosedLog, Either, ValueOf, Told, StoredTables, Shows, Answers, ValidSelect, Accepted,
         AllRepresentable, Parsers.Sql, Bytewise, Roomy, CanCreate, Effect;
    SqlRepresentable(sql);
    db, order := map[], [];
    var parsed := Parsers.ParseSQL(sql);
    if parsed.Err? {
      NothingRuns(c);
      return Failed, db, order;
    }
    match parsed.value {
      case CreateTable(name, columns) =>
        var ok := RunCall(c, Create(name, columns));
        return if ok then Done else Failed, db, order;
      case Insert(table, names, values) =>
        out := RunInsert(c, table, names, values);
      case Select(select) =>
        out, db, order := RunQuery(c, select);
    }
  }

  lemma NothingRuns(c: Catalog)
    requires c.Valid()
    ensures Either(HoldsCatalog, c.pool.Log(), |c.pool.Log()|, |c.pool.Log()|, StoredTables(ContentOf(c)), StoredTables(ContentOf(c)))
  {
    hide Either, StoredTables, ValueOf;
    c.StillEither();
    ValueIsContent(c);
  }
}
