/** The names of tables in a statement: what AS does, which references a statement may make, and that names alone change nothing. */
module Naming {
  import opened Pages
  import opened Query
  import opened Joins
  import opened Plans
  import opened References
  import opened JoinOrder
  import opened Planner
  import opened PlanMeaning
  import opened Semantic

  // ---------- what a table is called ----------

  /** After AS comes the table's only name in the statement; without AS it goes by its own. */
  predicate Called(ref: TableRef, name: string) {
    ref.alias == Some(name) || (ref.alias.None? && ref.table == name)
  }

  /** The tables of a statement, as written. */
  function RefAt(stmt: SelectStmt, k: nat): TableRef
    requires k <= |stmt.joins|
  {
    if k == 0 then stmt.from else stmt.joins[k - 1].table
  }

  lemma NodeNamed(stmt: SelectStmt, k: nat)
    requires k <= |stmt.joins|
    ensures var node := NodesOf(stmt)[k];
            node.table == RefAt(stmt, k).table && forall name :: Called(RefAt(stmt, k), name) <==> name == node.alias
  {
  }

  // ---------- what a statement may refer to ----------

  predicate Declares(columns: seq<ColumnDef>, name: string) {
    exists c <- columns :: c.name == name
  }

  lemma DeclaresIs(columns: seq<ColumnDef>, name: string)
    ensures Declares(columns, name) <==> HasColumn(columns, name)
  {
    var k := IndexOf(columns, name);
    if k.Some? {
      assert columns[k.value] in columns;
    }
  }

  /** Table `k` of the statement has the column. */
  ghost predicate Offers(stmt: SelectStmt, db: Db, k: nat, column: string) {
    k <= |stmt.joins| && RefAt(stmt, k).table in db && Declares(db[RefAt(stmt, k).table].columns, column)
  }

  /** Of the first `n` tables, one is called by the name that a reference is qualified with, and has its column; an unqualified
      column is that of exactly one of them. */
  ghost predicate Sees(stmt: SelectStmt, db: Db, n: nat, table: Option<string>, column: string) {
    match table
    case Some(name) => exists k: nat :: k < n && Offers(stmt, db, k, column) && Called(RefAt(stmt, k), name)
    case None =>
      exists k: nat :: k < n && Offers(stmt, db, k, column) && forall j: nat :: j < n && Offers(stmt, db, j, column) ==> j == k
  }

  ghost predicate SeesAll(stmt: SelectStmt, db: Db, n: nat, e: Expr) {
    match e
    case ColumnRef(table, column) => Sees(stmt, db, n, table, column)
    case Literal(_) => true
    case Compare(_, l, r) => SeesAll(stmt, db, n, l) && SeesAll(stmt, db, n, r)
    case And(l, r) => SeesAll(stmt, db, n, l) && SeesAll(stmt, db, n, r)
    case Or(l, r) => SeesAll(stmt, db, n, l) && SeesAll(stmt, db, n, r)
  }

  /** No two tables are called the same. */
  ghost predicate Distinct(stmt: SelectStmt) {
    forall j: nat, k: nat, name: string ::
      j < k <= |stmt.joins| && Called(RefAt(stmt, j), name) ==> !Called(RefAt(stmt, k), name)
  }

  ghost predicate Exist(stmt: SelectStmt, db: Db) {
    forall k: nat :: k <= |stmt.joins| ==> RefAt(stmt, k).table in db
  }

  /** The tables exist and are called differently; an ON condition sees the tables written up to its own, the select list and
      WHERE see all of them. */
  ghost predicate Accepts(stmt: SelectStmt, db: Db) {
    && Exist(stmt, db) && Distinct(stmt)
    && (forall k: nat :: k < |stmt.joins| ==> SeesAll(stmt, db, k + 2, stmt.joins[k].on))
    && (!stmt.isStar ==> forall i <- stmt.items :: Sees(stmt, db, |stmt.joins| + 1, i.table, i.column))
    && (stmt.where.Some? ==> SeesAll(stmt, db, |stmt.joins| + 1, stmt.where.value))
  }

  lemma DistinctIs(stmt: SelectStmt)
    ensures Distinct(stmt) <==> FreshAliases(NodesOf(stmt), |stmt.joins| + 1)
  {
    hide Called, NodesOf;
    forall k: nat | k <= |stmt.joins|
      ensures forall name :: Called(RefAt(stmt, k), name) <==> name == NodesOf(stmt)[k].alias
    {
      NodeNamed(stmt, k);
    }
    if Distinct(stmt) {
      forall i, j | 0 <= i < j < |stmt.joins| + 1
        ensures NodesOf(stmt)[i].alias != NodesOf(stmt)[j].alias
      {
        assert Called(RefAt(stmt, i), NodesOf(stmt)[i].alias) && Called(RefAt(stmt, j), NodesOf(stmt)[j].alias);
      }
    }
  }

  lemma ExistIs(stmt: SelectStmt, db: Db)
    ensures Exist(stmt, db) <==> forall i :: 0 <= i < |stmt.joins| + 1 ==> NodesOf(stmt)[i].table in db
  {
    forall k: nat | k <= |stmt.joins|
      ensures NodesOf(stmt)[k].table == RefAt(stmt, k).table
    {
      NodeNamed(stmt, k);
    }
  }

  /** The scope of the first `n` tables holds each of them under what it is called, and nothing else. */
  lemma ScopeNames(stmt: SelectStmt, db: Db, n: nat)
    requires Exist(stmt, db) && Distinct(stmt) && n <= |stmt.joins| + 1
    ensures forall name :: name in ScopeOf(NodesOf(stmt), db, n) <==> exists k: nat :: k < n && Called(RefAt(stmt, k), name)
    ensures forall k: nat, name :: k < n && Called(RefAt(stmt, k), name) ==>
              name in ScopeOf(NodesOf(stmt), db, n) && ScopeOf(NodesOf(stmt), db, n)[name] == db[RefAt(stmt, k).table].columns
  {
    DistinctIs(stmt);
    ExistIs(stmt, db);
    hide Called, NodesOf, ScopeOf;
    var nodes, scope := NodesOf(stmt), ScopeOf(NodesOf(stmt), db, n);
    ScopeKeys(nodes, db, n);
    forall k: nat | k < n
      ensures forall name :: Called(RefAt(stmt, k), name) <==> name == nodes[k].alias
      ensures nodes[k].alias in scope && scope[nodes[k].alias] == db[RefAt(stmt, k).table].columns
    {
      NodeNamed(stmt, k);
      ScopeAt(nodes, db, n, k);
    }
    forall name
      ensures name in scope <==> exists k: nat :: k < n && Called(RefAt(stmt, k), name)
    {
      if k: nat :| k < n && Called(RefAt(stmt, k), name) {
        assert name == nodes[k].alias;
      }
    }
  }

  lemma NamedSeen(stmt: SelectStmt, db: Db, n: nat, name: string, column: string)
    requires Exist(stmt, db) && Distinct(stmt) && n <= |stmt.joins| + 1
    ensures InScope(ScopeOf(NodesOf(stmt), db, n), Some(name), column) <==> Sees(stmt, db, n, Some(name), column)
  {
    ScopeNames(stmt, db, n);
    hide Called, NodesOf, ScopeOf, Declares, HasColumn, Distinct;
    var scope := ScopeOf(NodesOf(stmt), db, n);
    if k: nat :| k < n && Called(RefAt(stmt, k), name) {
      DeclaresIs(scope[name], column);
      forall j: nat | j < n && Called(RefAt(stmt, j), name)
        ensures db[RefAt(stmt, j).table].columns == scope[name]
      {
      }
    }
  }

  lemma UnnamedSeen(stmt: SelectStmt, db: Db, n: nat, column: string)
    requires Exist(stmt, db) && Distinct(stmt) && n <= |stmt.joins| + 1
    ensures InScope(ScopeOf(NodesOf(stmt), db, n), None, column) <==> Sees(stmt, db, n, None, column)
  {
    hide Called, ScopeOf, Distinct, Exist, InScope, Sees, HasColumn, Offers;
    var nodes, scope := NodesOf(stmt), ScopeOf(NodesOf(stmt), db, n);
    hide NodesOf;
    var names := seq(n, k requires 0 <= k < n => nodes[k].alias);
    forall k: nat | k < n
      ensures names[k] in scope && (HasColumn(scope[names[k]], column) <==> Offers(stmt, db, k, column))
    {
      NamedOffers(stmt, db, n, k, column);
    }
    DistinctIs(stmt);
    ScopeKeys(nodes, db, n);
    forall name | name in scope
      ensures exists k: nat :: k < n && names[k] == name
    {
      var k: nat :| k < n && nodes[k].alias == name;
      assert names[k] == name;
    }
    OneOffer(stmt, db, n, column, scope, names);
  }

  lemma NamedOffers(stmt: SelectStmt, db: Db, n: nat, k: nat, column: string)
    requires Exist(stmt, db) && Distinct(stmt) && k < n <= |stmt.joins| + 1
    ensures var scope, name := ScopeOf(NodesOf(stmt), db, n), NodesOf(stmt)[k].alias;
            name in scope && (HasColumn(scope[name], column) <==> Offers(stmt, db, k, column))
  {
    hide Called, NodesOf, ScopeOf, Declares, HasColumn, Distinct;
    ScopeNames(stmt, db, n);
    NodeNamed(stmt, k);
    assert Called(RefAt(stmt, k), NodesOf(stmt)[k].alias);
    DeclaresIs(ScopeOf(NodesOf(stmt), db, n)[NodesOf(stmt)[k].alias], column);
  }

  /** A scope under pairwise different names, counted by name or by table. */
  lemma OneOffer(stmt: SelectStmt, db: Db, n: nat, column: string, scope: Scope, names: seq<string>)
    requires |names| == n && (forall name <- scope :: exists k: nat :: k < n && names[k] == name)
    requires forall k: nat :: k < n ==> names[k] in scope && (HasColumn(scope[names[k]], column) <==> Offers(stmt, db, k, column))
    requires forall j: nat, k: nat :: j < n && k < n && names[j] == names[k] ==> j == k
    ensures InScope(scope, None, column) <==> Sees(stmt, db, n, None, column)
  {
    hide HasColumn, Offers;
    if InScope(scope, None, column) {
      var a :| a in scope && HasColumn(scope[a], column) && forall b <- scope :: HasColumn(scope[b], column) ==> b == a;
      var k: nat :| k < n && names[k] == a;
      forall j: nat | j < n && Offers(stmt, db, j, column)
        ensures j == k
      {
        assert names[j] == a;
      }
    }
    if Sees(stmt, db, n, None, column) {
      var k: nat :| k < n && Offers(stmt, db, k, column) && forall j: nat :: j < n && Offers(stmt, db, j, column) ==> j == k;
      forall b | b in scope && HasColumn(scope[b], column)
        ensures b == names[k]
      {
        var j: nat :| j < n && names[j] == b;
      }
      assert names[k] in scope && HasColumn(scope[names[k]], column);
    }
  }

  lemma {:induction false} AllSeen(stmt: SelectStmt, db: Db, n: nat, e: Expr)
    requires Exist(stmt, db) && Distinct(stmt) && n <= |stmt.joins| + 1
    ensures RefsInScope(e, ScopeOf(NodesOf(stmt), db, n)) <==> SeesAll(stmt, db, n, e)
    decreases e
  {
    hide Exist, Distinct, NodesOf, ScopeOf, InScope, Sees;
    match e
    case ColumnRef(table, column) =>
      if table.Some? {
        NamedSeen(stmt, db, n, table.value, column);
      } else {
        UnnamedSeen(stmt, db, n, column);
      }
    case Literal(_) =>
    case Compare(_, l, r) =>
      AllSeen(stmt, db, n, l);
      AllSeen(stmt, db, n, r);
    case And(l, r) =>
      AllSeen(stmt, db, n, l);
      AllSeen(stmt, db, n, r);
    case Or(l, r) =>
      AllSeen(stmt, db, n, l);
      AllSeen(stmt, db, n, r);
  }

  /** The statements that pass validation, said without a scope. */
  lemma ValidIs(stmt: SelectStmt, db: Db)
    ensures ValidSelect(stmt, db) <==> Accepts(stmt, db)
  {
    DistinctIs(stmt);
    ExistIs(stmt, db);
    if Exist(stmt, db) && Distinct(stmt) {
      TablesSeen(stmt, db);
      RestSeen(stmt, db);
    }
  }

  lemma TablesSeen(stmt: SelectStmt, db: Db)
    requires Exist(stmt, db) && Distinct(stmt)
    ensures ValidTables(NodesOf(stmt), db, |stmt.joins| + 1)
       <==> forall k: nat :: k < |stmt.joins| ==> SeesAll(stmt, db, k + 2, stmt.joins[k].on)
  {
    DistinctIs(stmt);
    ExistIs(stmt, db);
    hide Exist, Distinct, ScopeOf, RefsInScope, SeesAll, FreshAliases;
    var nodes := NodesOf(stmt);
    forall k: nat | k < |stmt.joins|
      ensures nodes[k + 1].cond == Some(stmt.joins[k].on)
      ensures RefsInScope(stmt.joins[k].on, ScopeOf(nodes, db, k + 2)) <==> SeesAll(stmt, db, k + 2, stmt.joins[k].on)
    {
      AllSeen(stmt, db, k + 2, stmt.joins[k].on);
    }
    assert nodes[0].cond.None?;
    forall i | 0 < i < |nodes|
      ensures nodes[i].cond == Some(stmt.joins[i - 1].on)
    {
    }
    if ValidTables(nodes, db, |stmt.joins| + 1) {
      forall k: nat | k < |stmt.joins|
        ensures SeesAll(stmt, db, k + 2, stmt.joins[k].on)
      {
        assert RefsInScope(nodes[k + 1].cond.value, ScopeOf(nodes, db, k + 2));
      }
    }
  }

  lemma RestSeen(stmt: SelectStmt, db: Db)
    requires Exist(stmt, db) && Distinct(stmt)
    ensures var n, all := |stmt.joins| + 1, ScopeOf(NodesOf(stmt), db, |stmt.joins| + 1);
            && (ItemsInScope(stmt.items, all) <==> forall i <- stmt.items :: Sees(stmt, db, n, i.table, i.column))
            && (stmt.where.Some? ==> (RefsInScope(stmt.where.value, all) <==> SeesAll(stmt, db, n, stmt.where.value)))
  {
    hide Exist, Distinct, ScopeOf, Sees, InScope, NodesOf;
    var n, all := |stmt.joins| + 1, ScopeOf(NodesOf(stmt), db, |stmt.joins| + 1);
    forall i | i in stmt.items
      ensures InScope(all, i.table, i.column) <==> Sees(stmt, db, n, i.table, i.column)
    {
      AllSeen(stmt, db, n, ColumnRef(i.table, i.column));
    }
    if stmt.where.Some? {
      AllSeen(stmt, db, n, stmt.where.value);
    }
  }

  // ---------- one table ----------

  /** A reference to a column of the one table, which is called `name`. */
  predicate RefersTo(name: string, columns: seq<ColumnDef>, table: Option<string>, column: string) {
    (table.None? || table == Some(name)) && Declares(columns, column)
  }

  predicate RefersOnly(name: string, columns: seq<ColumnDef>, e: Expr) {
    match e
    case ColumnRef(table, column) => RefersTo(name, columns, table, column)
    case Literal(_) => true
    case Compare(_, l, r) => RefersOnly(name, columns, l) && RefersOnly(name, columns, r)
    case And(l, r) => RefersOnly(name, columns, l) && RefersOnly(name, columns, r)
    case Or(l, r) => RefersOnly(name, columns, l) && RefersOnly(name, columns, r)
  }

  lemma OneSees(stmt: SelectStmt, db: Db, name: string, table: Option<string>, column: string)
    requires stmt.joins == [] && Called(stmt.from, name) && stmt.from.table in db
    ensures Sees(stmt, db, 1, table, column) <==> RefersTo(name, db[stmt.from.table].columns, table, column)
  {
    hide Declares;
    if RefersTo(name, db[stmt.from.table].columns, table, column) {
      assert Offers(stmt, db, 0, column) && Called(RefAt(stmt, 0), name);
    }
  }

  lemma {:induction false} OneSeesAll(stmt: SelectStmt, db: Db, name: string, e: Expr)
    requires stmt.joins == [] && Called(stmt.from, name) && stmt.from.table in db
    ensures SeesAll(stmt, db, 1, e) <==> RefersOnly(name, db[stmt.from.table].columns, e)
    decreases e
  {
    hide Called, Sees, RefersTo;
    match e
    case ColumnRef(table, column) => OneSees(stmt, db, name, table, column);
    case Literal(_) =>
    case Compare(_, l, r) =>
      OneSeesAll(stmt, db, name, l);
      OneSeesAll(stmt, db, name, r);
    case And(l, r) =>
      OneSeesAll(stmt, db, name, l);
      OneSeesAll(stmt, db, name, r);
    case Or(l, r) =>
      OneSeesAll(stmt, db, name, l);
      OneSeesAll(stmt, db, name, r);
  }

  /** A statement on one table may refer to its columns, bare or under what the table is called; written AS another name, not
      under its own. */
  lemma OneTableAccepts(stmt: SelectStmt, db: Db, name: string)
    requires stmt.joins == [] && Called(stmt.from, name)
    ensures ValidSelect(stmt, db) <==>
            && stmt.from.table in db
            && (!stmt.isStar ==> forall i <- stmt.items :: RefersTo(name, db[stmt.from.table].columns, i.table, i.column))
            && (stmt.where.Some? ==> RefersOnly(name, db[stmt.from.table].columns, stmt.where.value))
  {
    ValidIs(stmt, db);
    assert RefAt(stmt, 0) == stmt.from;
    if stmt.from.table in db {
      hide Called, Sees, SeesAll, RefersTo, RefersOnly, ValidSelect;
      forall i | i in stmt.items
        ensures Sees(stmt, db, 1, i.table, i.column) <==> RefersTo(name, db[stmt.from.table].columns, i.table, i.column)
      {
        OneSees(stmt, db, name, i.table, i.column);
      }
      if stmt.where.Some? {
        OneSeesAll(stmt, db, name, stmt.where.value);
      }
    }
  }

  // ---------- a table joined with itself ----------

  /** SELECT * FROM t AS a JOIN t AS b ON ... */
  function SelfJoin(t: string, a: Option<string>, b: Option<string>, on: Expr): SelectStmt {
    SelectStmt(true, [], TableRef(t, a), [JoinClause(TableRef(t, b), on)], None)
  }

  /** Every reference is qualified with one of the two names. */
  predicate RefersToEither(a: string, b: string, columns: seq<ColumnDef>, e: Expr) {
    match e
    case ColumnRef(table, column) => (table == Some(a) || table == Some(b)) && Declares(columns, column)
    case Literal(_) => true
    case Compare(_, l, r) => RefersToEither(a, b, columns, l) && RefersToEither(a, b, columns, r)
    case And(l, r) => RefersToEither(a, b, columns, l) && RefersToEither(a, b, columns, r)
    case Or(l, r) => RefersToEither(a, b, columns, l) && RefersToEither(a, b, columns, r)
  }

  lemma SelfSees(t: string, a: string, b: string, on: Expr, db: Db, table: Option<string>, column: string)
    requires t in db
    ensures Sees(SelfJoin(t, Some(a), Some(b), on), db, 2, table, column)
       <==> (table == Some(a) || table == Some(b)) && Declares(db[t].columns, column)
  {
    hide Declares;
    var s := SelfJoin(t, Some(a), Some(b), on);
    assert Offers(s, db, 0, column) == Offers(s, db, 1, column) == Declares(db[t].columns, column);
    assert Called(RefAt(s, 0), a) && Called(RefAt(s, 1), b);
  }

  lemma {:induction false} SelfSeesAll(t: string, a: string, b: string, on: Expr, db: Db, e: Expr)
    requires t in db
    ensures SeesAll(SelfJoin(t, Some(a), Some(b), on), db, 2, e) <==> RefersToEither(a, b, db[t].columns, e)
    decreases e
  {
    hide Sees, Declares, SelfJoin;
    match e
    case ColumnRef(table, column) => SelfSees(t, a, b, on, db, table, column);
    case Literal(_) =>
    case Compare(_, l, r) =>
      SelfSeesAll(t, a, b, on, db, l);
      SelfSeesAll(t, a, b, on, db, r);
    case And(l, r) =>
      SelfSeesAll(t, a, b, on, db, l);
      SelfSeesAll(t, a, b, on, db, r);
    case Or(l, r) =>
      SelfSeesAll(t, a, b, on, db, l);
      SelfSeesAll(t, a, b, on, db, r);
  }

  /** A table can be joined with itself under two names, and only so; its condition then says which of the two it means. */
  lemma SelfJoinAccepts(t: string, a: string, b: string, on: Expr, db: Db)
    ensures ValidSelect(SelfJoin(t, Some(a), Some(b), on), db) <==> t in db && a != b && RefersToEither(a, b, db[t].columns, on)
    ensures !ValidSelect(SelfJoin(t, None, None, on), db)
  {
    BareRefused(t, on, db);
    var s := SelfJoin(t, Some(a), Some(b), on);
    ValidIs(s, db);
    assert RefAt(s, 0) == TableRef(t, Some(a)) && RefAt(s, 1) == TableRef(t, Some(b));
    assert Called(RefAt(s, 0), a) && Called(RefAt(s, 1), b);
    assert Distinct(s) <==> a != b;
    assert Exist(s, db) <==> t in db;
    hide Sees, SeesAll, ValidSelect, RefersToEither, Distinct, Exist;
    if t in db {
      SelfSeesAll(t, a, b, on, db, on);
    }
  }

  lemma BareRefused(t: string, on: Expr, db: Db)
    ensures !ValidSelect(SelfJoin(t, None, None, on), db)
  {
    hide ValidSelect, SeesAll, Sees;
    var bare := SelfJoin(t, None, None, on);
    ValidIs(bare, db);
    assert Called(RefAt(bare, 0), t) && Called(RefAt(bare, 1), t);
  }

  // ---------- other names ----------

  type Names = string -> string

  ghost predicate Injective(f: Names) {
    forall a, b :: f(a) == f(b) ==> a == b
  }

  function Renamed(table: Option<string>, f: Names): Option<string> {
    if table.Some? then Some(f(table.value)) else None
  }

  function RenameExpr(e: Expr, f: Names): Expr {
    match e
    case ColumnRef(table, column) => ColumnRef(Renamed(table, f), column)
    case Literal(v) => Literal(v)
    case Compare(op, l, r) => Compare(op, RenameExpr(l, f), RenameExpr(r, f))
    case And(l, r) => And(RenameExpr(l, f), RenameExpr(r, f))
    case Or(l, r) => Or(RenameExpr(l, f), RenameExpr(r, f))
  }

  /** A table, called by its new name. */
  function RenameRef(r: TableRef, f: Names): TableRef {
    TableRef(r.table, Some(match r.alias case Some(a) => f(a) case None => f(r.table)))
  }

  function RenameItem(i: SelectItem, f: Names): SelectItem {
    i.(table := Renamed(i.table, f))
  }

  function RenameItems(items: seq<SelectItem>, f: Names): (r: seq<SelectItem>)
    ensures |r| == |items| && forall k :: 0 <= k < |items| ==> r[k] == RenameItem(items[k], f)
  {
    seq(|items|, k requires 0 <= k < |items| => RenameItem(items[k], f))
  }

  function RenameJoins(joins: seq<JoinClause>, f: Names): (r: seq<JoinClause>)
    ensures |r| == |joins|
    ensures forall k :: 0 <= k < |joins| ==> r[k] == JoinClause(RenameRef(joins[k].table, f), RenameExpr(joins[k].on, f))
  {
    seq(|joins|, k requires 0 <= k < |joins| => JoinClause(RenameRef(joins[k].table, f), RenameExpr(joins[k].on, f)))
  }

  /** The statement with every table called by a new name, and every reference to it. */
  function Rename(stmt: SelectStmt, f: Names): SelectStmt {
    SelectStmt(stmt.isStar, RenameItems(stmt.items, f), RenameRef(stmt.from, f), RenameJoins(stmt.joins, f),
               if stmt.where.Some? then Some(RenameExpr(stmt.where.value, f)) else None)
  }

  lemma CalledRenamed(stmt: SelectStmt, f: Names, k: nat)
    requires Injective(f) && k <= |stmt.joins|
    ensures RefAt(Rename(stmt, f), k).table == RefAt(stmt, k).table
    ensures forall name :: Called(RefAt(Rename(stmt, f), k), f(name)) <==> Called(RefAt(stmt, k), name)
    ensures forall m :: Called(RefAt(Rename(stmt, f), k), m) ==> exists name :: m == f(name) && Called(RefAt(stmt, k), name)
  {
    var r := RefAt(stmt, k);
    assert RefAt(Rename(stmt, f), k) == RenameRef(r, f);
    var name := if r.alias.Some? then r.alias.value else r.table;
    assert Called(r, name);
  }

  lemma SeesRenamed(stmt: SelectStmt, f: Names, db: Db, n: nat, table: Option<string>, column: string)
    requires Injective(f)
    ensures Sees(Rename(stmt, f), db, n, Renamed(table, f), column) <==> Sees(stmt, db, n, table, column)
  {
    hide Called, Declares, Injective;
    var s := Rename(stmt, f);
    hide Rename;
    assert |s.joins| == |stmt.joins| by {
      JoinsRenamed(stmt, f);
    }
    forall k: nat | k <= |stmt.joins|
      ensures Offers(s, db, k, column) <==> Offers(stmt, db, k, column)
      ensures table.Some? ==> (Called(RefAt(s, k), f(table.value)) <==> Called(RefAt(stmt, k), table.value))
    {
      CalledRenamed(stmt, f, k);
    }
    SameSees(stmt, s, f, db, n, table, column);
  }

  lemma JoinsRenamed(stmt: SelectStmt, f: Names)
    ensures |Rename(stmt, f).joins| == |stmt.joins|
  {
  }

  lemma SameSees(stmt: SelectStmt, s: SelectStmt, f: Names, db: Db, n: nat, table: Option<string>, column: string)
    requires |s.joins| == |stmt.joins|
    requires forall k: nat :: k <= |stmt.joins| ==> (Offers(s, db, k, column) <==> Offers(stmt, db, k, column))
    requires forall k: nat :: k <= |stmt.joins| && table.Some? ==> (Called(RefAt(s, k), f(table.value)) <==> Called(RefAt(stmt, k), table.value))
    ensures Sees(s, db, n, Renamed(table, f), column) <==> Sees(stmt, db, n, table, column)
  {
    hide Called, Declares;
    forall k: nat
      ensures Offers(s, db, k, column) <==> Offers(stmt, db, k, column)
    {
    }
  }

  lemma {:induction false} SeesAllRenamed(stmt: SelectStmt, f: Names, db: Db, n: nat, e: Expr)
    requires Injective(f)
    ensures SeesAll(Rename(stmt, f), db, n, RenameExpr(e, f)) <==> SeesAll(stmt, db, n, e)
    decreases e
  {
    hide Sees, Rename, Injective;
    match e
    case ColumnRef(table, column) => SeesRenamed(stmt, f, db, n, table, column);
    case Literal(_) =>
    case Compare(_, l, r) =>
      SeesAllRenamed(stmt, f, db, n, l);
      SeesAllRenamed(stmt, f, db, n, r);
    case And(l, r) =>
      SeesAllRenamed(stmt, f, db, n, l);
      SeesAllRenamed(stmt, f, db, n, r);
    case Or(l, r) =>
      SeesAllRenamed(stmt, f, db, n, l);
      SeesAllRenamed(stmt, f, db, n, r);
  }

  lemma TablesRenamed(stmt: SelectStmt, f: Names, db: Db)
    requires Injective(f)
    ensures Exist(Rename(stmt, f), db) <==> Exist(stmt, db)
    ensures Distinct(Rename(stmt, f)) <==> Distinct(stmt)
  {
    JoinsRenamed(stmt, f);
    hide Called, Injective;
    var s := Rename(stmt, f);
    hide Rename;
    forall k: nat | k <= |stmt.joins|
      ensures RefAt(s, k).table == RefAt(stmt, k).table
      ensures forall name :: Called(RefAt(s, k), f(name)) <==> Called(RefAt(stmt, k), name)
      ensures forall m :: Called(RefAt(s, k), m) ==> exists name :: m == f(name) && Called(RefAt(stmt, k), name)
    {
      CalledRenamed(stmt, f, k);
    }
    if Distinct(stmt) {
      forall j: nat, k: nat, m: string | j < k <= |s.joins| && Called(RefAt(s, j), m)
        ensures !Called(RefAt(s, k), m)
      {
        var name :| m == f(name) && Called(RefAt(stmt, j), name);
      }
    }
    if Distinct(s) {
      forall j: nat, k: nat, name: string | j < k <= |stmt.joins| && Called(RefAt(stmt, j), name)
        ensures !Called(RefAt(stmt, k), name)
      {
        assert Called(RefAt(s, j), f(name));
      }
    }
  }

  /** New names, different for different tables, change nothing about what is accepted. */
  lemma RenamingAccepts(stmt: SelectStmt, f: Names, db: Db)
    requires Injective(f)
    ensures ValidSelect(Rename(stmt, f), db) <==> ValidSelect(stmt, db)
  {
    hide Exist, Distinct, SeesAll, Sees, ValidSelect, Injective, RenameExpr, RenameRef, Rename;
    var s := Rename(stmt, f);
    ValidIs(stmt, db);
    ValidIs(s, db);
    TablesRenamed(stmt, f, db);
    JoinsRenamed(stmt, f);
    forall k: nat | k < |stmt.joins|
      ensures SeesAll(s, db, k + 2, s.joins[k].on) <==> SeesAll(stmt, db, k + 2, stmt.joins[k].on)
    {
      OnRenamed(stmt, f, k);
      SeesAllRenamed(stmt, f, db, k + 2, stmt.joins[k].on);
    }
    RestRenamed(stmt, f, db);
  }

  lemma OnRenamed(stmt: SelectStmt, f: Names, k: nat)
    requires k < |stmt.joins|
    ensures |Rename(stmt, f).joins| == |stmt.joins| && Rename(stmt, f).joins[k].on == RenameExpr(stmt.joins[k].on, f)
  {
  }

  lemma RestRenamed(stmt: SelectStmt, f: Names, db: Db)
    requires Injective(f)
    ensures var s, n := Rename(stmt, f), |stmt.joins| + 1;
            && s.isStar == stmt.isStar && (s.where.Some? <==> stmt.where.Some?)
            && ((forall i <- s.items :: Sees(s, db, n, i.table, i.column)) <==> (forall i <- stmt.items :: Sees(stmt, db, n, i.table, i.column)))
            && (stmt.where.Some? ==> (SeesAll(s, db, n, s.where.value) <==> SeesAll(stmt, db, n, stmt.where.value)))
  {
    hide SeesAll, Sees, Injective, RenameExpr, RenameRef, RenameJoins;
    var s, n := Rename(stmt, f), |stmt.joins| + 1;
    forall k | 0 <= k < |stmt.items|
      ensures Sees(s, db, n, s.items[k].table, s.items[k].column) <==> Sees(stmt, db, n, stmt.items[k].table, stmt.items[k].column)
    {
      SeesRenamed(stmt, f, db, n, stmt.items[k].table, stmt.items[k].column);
    }
    ItemsRenamed(stmt, s, db, n);
    if stmt.where.Some? {
      SeesAllRenamed(stmt, f, db, n, stmt.where.value);
    }
  }

  lemma ItemsRenamed(stmt: SelectStmt, s: SelectStmt, db: Db, n: nat)
    requires |s.items| == |stmt.items|
    requires forall k :: 0 <= k < |stmt.items| ==>
               (Sees(s, db, n, s.items[k].table, s.items[k].column) <==> Sees(stmt, db, n, stmt.items[k].table, stmt.items[k].column))
    ensures (forall i <- s.items :: Sees(s, db, n, i.table, i.column)) <==> (forall i <- stmt.items :: Sees(stmt, db, n, i.table, i.column))
  {
    hide Sees;
    if forall i <- s.items :: Sees(s, db, n, i.table, i.column) {
      forall i | i in stmt.items
        ensures Sees(stmt, db, n, i.table, i.column)
      {
        var k :| 0 <= k < |stmt.items| && stmt.items[k] == i;
        assert s.items[k] in s.items;
      }
    }
    if forall i <- stmt.items :: Sees(stmt, db, n, i.table, i.column) {
      forall i | i in s.items
        ensures Sees(s, db, n, i.table, i.column)
      {
        var k :| 0 <= k < |s.items| && s.items[k] == i;
        assert stmt.items[k] in stmt.items;
      }
    }
  }

  // ---------- and nothing about the answer ----------

  function RenameRow(row: Row, f: Names): (r: Row)
    ensures |r| == |row| && forall k :: 0 <= k < |row| ==> r[k] == row[k].(table := f(row[k].table))
  {
    seq(|row|, k requires 0 <= k < |row| => row[k].(table := f(row[k].table)))
  }

  function RenameRows(rows: seq<Row>, f: Names): (r: seq<Row>)
    ensures |r| == |rows| && forall k :: 0 <= k < |rows| ==> r[k] == RenameRow(rows[k], f)
  {
    seq(|rows|, k requires 0 <= k < |rows| => RenameRow(rows[k], f))
  }

  function RenameResult(r: Result<seq<Row>>, f: Names): Result<seq<Row>> {
    if r.Err? then Err else Ok(RenameRows(r.value, f))
  }

  lemma RenameTail(row: Row, f: Names)
    requires row != []
    ensures RenameRow(row, f)[1..] == RenameRow(row[1..], f)
  {
  }

  lemma RenameBoth(a: Row, b: Row, f: Names)
    ensures RenameRow(a + b, f) == RenameRow(a, f) + RenameRow(b, f)
  {
  }

  lemma RenameCons(row: Row, rows: seq<Row>, f: Names)
    ensures RenameRows([row] + rows, f) == [RenameRow(row, f)] + RenameRows(rows, f)
  {
  }

  lemma RenameRest(rows: seq<Row>, f: Names)
    requires rows != []
    ensures RenameRows(rows, f)[1..] == RenameRows(rows[1..], f)
  {
  }

  lemma AbsentRenamed(row: Row, column: string, f: Names)
    ensures Absent(RenameRow(row, f), column) <==> Absent(row, column)
  {
    var r := RenameRow(row, f);
    if Absent(row, column) {
      forall g | g in r
        ensures g.column != column
      {
        var k :| 0 <= k < |r| && r[k] == g;
        assert row[k] in row;
      }
    }
    if Absent(r, column) {
      forall g | g in row
        ensures g.column != column
      {
        var k :| 0 <= k < |row| && row[k] == g;
        assert r[k] in r;
      }
    }
  }

  lemma MatchesRenamed(g: Field, table: Option<string>, column: string, f: Names)
    requires Injective(f)
    ensures Matches(g.(table := f(g.table)), Renamed(table, f), column) <==> Matches(g, table, column)
  {
  }

  lemma {:induction false} FindRenamed(row: Row, table: Option<string>, column: string, f: Names)
    requires Injective(f)
    ensures Find(RenameRow(row, f), Renamed(table, f), column) == Find(row, table, column)
  {
    hide Matches, Absent, Injective;
    if row != [] {
      RenameTail(row, f);
      FindRenamed(row[1..], table, column, f);
      MatchesRenamed(row[0], table, column, f);
      AbsentRenamed(row[1..], column, f);
    }
  }

  lemma {:induction false} EvalRenamed(e: Expr, row: Row, f: Names)
    requires Injective(f)
    ensures EvalBool(RenameExpr(e, f), RenameRow(row, f)) == EvalBool(e, row)
    ensures EvalValue(RenameExpr(e, f), RenameRow(row, f)) == EvalValue(e, row)
    decreases e
  {
    hide Find, Injective, RenameRow;
    match e
    case ColumnRef(table, column) => FindRenamed(row, table, column, f);
    case Literal(_) =>
    case Compare(_, l, r) =>
      EvalRenamed(l, row, f);
      EvalRenamed(r, row, f);
    case And(l, r) =>
      EvalRenamed(l, row, f);
      EvalRenamed(r, row, f);
    case Or(l, r) =>
      EvalRenamed(l, row, f);
      EvalRenamed(r, row, f);
  }

  lemma {:induction false} NestedRenamed(left: seq<Row>, right: seq<Row>, cond: Expr, f: Names, a: nat, b: nat)
    requires Injective(f)
    ensures NestedFrom(RenameRows(left, f), RenameRows(right, f), RenameExpr(cond, f), a, b) == RenameResult(NestedFrom(left, right, cond, a, b), f)
    decreases |left| - a, |right| - b
  {
    hide EvalBool, Injective, RenameExpr, RenameRow;
    if a >= |left| {
      assert RenameRows([], f) == [];
    } else if b >= |right| {
      NestedRenamed(left, right, cond, f, a + 1, 0);
    } else {
      NestedRenamed(left, right, cond, f, a, b + 1);
      RenameBoth(left[a], right[b], f);
      EvalRenamed(cond, left[a] + right[b], f);
      var rest := NestedFrom(left, right, cond, a, b + 1);
      if rest.Ok? {
        RenameCons(left[a] + right[b], rest.value, f);
      }
    }
  }

  lemma {:induction false} FilterRenamed(rows: seq<Row>, where: Expr, f: Names)
    requires Injective(f)
    ensures FilterRows(RenameRows(rows, f), RenameExpr(where, f)) == RenameResult(FilterRows(rows, where), f)
  {
    hide EvalBool, Injective, RenameExpr, RenameRow;
    if rows == [] {
      assert RenameRows(rows, f) == [];
    } else {
      FilterRenamed(rows[1..], where, f);
      RenameRest(rows, f);
      EvalRenamed(where, rows[0], f);
      var rest := FilterRows(rows[1..], where);
      if rest.Ok? {
        RenameCons(rows[0], rest.value, f);
      }
    }
  }

  /** In a shown row the fields of qualified items carry the new names; those of unqualified items carry none. */
  function RenameShown(row: Row, items: seq<SelectItem>, f: Names): (r: Row)
    ensures |r| == |row|
    ensures forall k :: 0 <= k < |row| ==> r[k] == if k < |items| && items[k].table.Some? then row[k].(table := f(row[k].table)) else row[k]
  {
    seq(|row|, k requires 0 <= k < |row| => if k < |items| && items[k].table.Some? then row[k].(table := f(row[k].table)) else row[k])
  }

  function RenameShownRows(rows: seq<Row>, items: seq<SelectItem>, f: Names): (r: seq<Row>)
    ensures |r| == |rows| && forall k :: 0 <= k < |rows| ==> r[k] == RenameShown(rows[k], items, f)
  {
    seq(|rows|, k requires 0 <= k < |rows| => RenameShown(rows[k], items, f))
  }

  function RenameAnswer(stmt: SelectStmt, r: Result<seq<Row>>, f: Names): Result<seq<Row>> {
    if r.Err? then Err else Ok(if stmt.isStar then RenameRows(r.value, f) else RenameShownRows(r.value, stmt.items, f))
  }

  lemma {:induction false} ProjectRowRenamed(row: Row, items: seq<SelectItem>, f: Names)
    requires Injective(f)
    ensures var p := ProjectRow(row, items);
            ProjectRow(RenameRow(row, f), RenameItems(items, f)) == if p.Err? then Err else Ok(RenameShown(p.value, items, f))
  {
    hide Find, Injective, RenameRow;
    if items == [] {
      assert RenameItems(items, f) == [] && RenameShown([], items, f) == [];
    } else {
      ProjectRowRenamed(row, items[1..], f);
      assert RenameItems(items, f)[1..] == RenameItems(items[1..], f);
      FindRenamed(row, items[0].table, items[0].column, f);
      if ProjectRow(row, items).Ok? {
        OneShown(row, items, f);
      }
    }
  }

  lemma OneShown(row: Row, items: seq<SelectItem>, f: Names)
    requires items != [] && ProjectRow(row, items).Ok?
    ensures ProjectRow(row, items[1..]).Ok?
    ensures var p, q := ProjectRow(row, items).value, ProjectRow(row, items[1..]).value;
            && p != [] && p[1..] == q
            && RenameShown(p, items, f) == [if items[0].table.Some? then p[0].(table := f(p[0].table)) else p[0]] + RenameShown(q, items[1..], f)
  {
    hide Find, RenameShown;
    var p, q := ProjectRow(row, items).value, ProjectRow(row, items[1..]).value;
    assert p == [p[0]] + q;
    FirstShown(p[0], q, items, f);
  }

  lemma FirstShown(g: Field, row: Row, items: seq<SelectItem>, f: Names)
    requires items != []
    ensures RenameShown([g] + row, items, f)
         == [if items[0].table.Some? then g.(table := f(g.table)) else g] + RenameShown(row, items[1..], f)
  {
  }

  lemma {:induction false} ProjectRenamed(rows: seq<Row>, items: seq<SelectItem>, f: Names)
    requires Injective(f)
    ensures var p := ProjectRows(rows, items);
            ProjectRows(RenameRows(rows, f), RenameItems(items, f)) == if p.Err? then Err else Ok(RenameShownRows(p.value, items, f))
  {
    hide ProjectRow, Injective, RenameRow, RenameShown, RenameItems;
    if rows == [] {
      assert RenameRows(rows, f) == [] && RenameShownRows([], items, f) == [];
    } else {
      ProjectRenamed(rows[1..], items, f);
      RenameRest(rows, f);
      ProjectRowRenamed(rows[0], items, f);
      var p, rest := ProjectRow(rows[0], items), ProjectRows(rows[1..], items);
      if p.Ok? && rest.Ok? {
        assert RenameShownRows([p.value] + rest.value, items, f) == [RenameShown(p.value, items, f)] + RenameShownRows(rest.value, items, f);
      }
    }
  }

  lemma ScanRenamed(t: Table, r: TableRef, f: Names)
    requires TableOk(t)
    ensures ScanRows(t, AliasOf(RenameRef(r, f))) == RenameRows(ScanRows(t, AliasOf(r)), f)
  {
    var a, b := ScanRows(t, AliasOf(RenameRef(r, f))), RenameRows(ScanRows(t, AliasOf(r)), f);
    forall k | 0 <= k < |a|
      ensures a[k] == b[k]
    {
      assert t.rows[k] in t.rows;
    }
  }

  lemma {:induction false} TreeRenamed(from: TableRef, joins: seq<JoinClause>, f: Names, db: Db)
    requires Injective(f) && DbOk(db)
    ensures Meaning(TextTree(RenameRef(from, f), RenameJoins(joins, f)), db) == RenameResult(Meaning(TextTree(from, joins), db), f)
    decreases |joins|
  {
    hide Injective, NestedFrom, ScanRows, RenameRows, RenameExpr, DbOk, FilterRows, ProjectRows;
    if joins == [] {
      assert RenameJoins(joins, f) == [];
      ScanOfRenamed(from, f, db);
    } else {
      var n := |joins| - 1;
      assert RenameJoins(joins, f)[..n] == RenameJoins(joins[..n], f);
      TreeRenamed(from, joins[..n], f, db);
      ScanOfRenamed(joins[n].table, f, db);
      var l, r := Meaning(TextTree(from, joins[..n]), db), Meaning(LScan(joins[n].table.table, AliasOf(joins[n].table)), db);
      if l.Ok? && r.Ok? {
        NestedRenamed(l.value, r.value, joins[n].on, f, 0, 0);
      }
    }
  }

  lemma ScanOfRenamed(r: TableRef, f: Names, db: Db)
    requires DbOk(db)
    ensures Meaning(LScan(r.table, AliasOf(RenameRef(r, f))), db) == RenameResult(Meaning(LScan(r.table, AliasOf(r)), db), f)
  {
    hide ScanRows, RenameRows;
    if r.table in db {
      ScanRenamed(db[r.table], r, f);
    }
  }

  /** New names, different for different tables, change nothing about the answer but the names. */
  lemma RenamingAnswers(stmt: SelectStmt, f: Names, db: Db)
    requires Injective(f) && DbOk(db)
    ensures Meaning(TextPlan(Rename(stmt, f)), db) == RenameAnswer(stmt, Meaning(TextPlan(stmt), db), f)
  {
    hide Injective, RenameRows, RenameExpr, DbOk, FilterRows, ProjectRows, TextTree, RenameJoins, RenameRef, RenameShownRows, RenameItems;
    TreeRenamed(stmt.from, stmt.joins, f, db);
    var rows := Meaning(TextTree(stmt.from, stmt.joins), db);
    if rows.Ok? {
      if stmt.where.Some? {
        FilterRenamed(rows.value, stmt.where.value, f);
        rows := FilterRows(rows.value, stmt.where.value);
      }
      if rows.Ok? && !stmt.isStar {
        ProjectRenamed(rows.value, stmt.items, f);
      }
    }
  }
}
