/** The checks made before a statement is planned or run, and what they promise to the planner and the executor. */
module Semantic {
  import opened Pages
  import opened Query
  import opened Joins
  import opened Plans
  import opened References
  import opened JoinOrder
  import opened JoinSteps
  import opened Planner
  import opened PlanMeaning
  import Inserts

  /** The tables a reference may name, each with its columns. */
  type Scope = map<string, seq<ColumnDef>>

  // ---------- column references ----------

  /** A qualified reference names a column of its table; an unqualified one a column of exactly one table. */
  ghost predicate InScope(aliases: Scope, table: Option<string>, column: string) {
    match table
    case Some(a) => a in aliases && HasColumn(aliases[a], column)
    case None =>
      exists a <- aliases :: HasColumn(aliases[a], column) && forall b <- aliases :: HasColumn(aliases[b], column) ==> b == a
  }

  function Owners(aliases: Scope, column: string): set<string> {
    set a | a in aliases && HasColumn(aliases[a], column)
  }

  lemma ExactlyOne(owners: set<string>)
    ensures |owners| == 1 <==> exists a <- owners :: forall b <- owners :: b == a
  {
    if |owners| == 1 {
      var a :| a in owners;
      assert |owners - {a}| == 0;
      assert owners == {a};
    }
    if a :| a in owners && forall b <- owners :: b == a {
      assert owners == {a};
    }
  }

  lemma OneOwner(aliases: Scope, column: string)
    ensures |Owners(aliases, column)| == 1 <==> InScope(aliases, None, column)
  {
    hide HasColumn;
    var owners := Owners(aliases, column);
    assert forall a :: a in owners <==> a in aliases && HasColumn(aliases[a], column);
    ExactlyOne(owners);
  }

  /** The tables of the scope that have a column of this name. */
  method CountMatches(aliases: Scope, column: string) returns (matches: nat)
    ensures matches == |Owners(aliases, column)|
  {
    hide HasColumn;
    ghost var owners := Owners(aliases, column);
    assert forall a <- aliases :: a in owners <==> HasColumn(aliases[a], column);
    hide Owners;
    matches := 0;
    var rest := aliases.Keys;
    while rest != {}
      invariant rest <= aliases.Keys
      invariant matches == |owners - rest|
    {
      var a :| a in rest;
      if HasColumn(aliases[a], column) {
        assert owners - (rest - {a}) == (owners - rest) + {a};
        matches := matches + 1;
      } else {
        assert owners - (rest - {a}) == owners - rest;
      }
      rest := rest - {a};
    }
    assert owners - rest == owners;
  }

  method CheckRef(aliases: Scope, table: Option<string>, column: string) returns (ok: bool)
    ensures ok <==> InScope(aliases, table, column)
  {
    if table.Some? {
      return table.value in aliases && HasColumn(aliases[table.value], column);
    }
    var matches := CountMatches(aliases, column);
    OneOwner(aliases, column);
    return matches == 1;
  }

  ghost predicate RefsInScope(e: Expr, aliases: Scope) {
    match e
    case ColumnRef(table, column) => InScope(aliases, table, column)
    case Literal(_) => true
    case Compare(_, l, r) => RefsInScope(l, aliases) && RefsInScope(r, aliases)
    case And(l, r) => RefsInScope(l, aliases) && RefsInScope(r, aliases)
    case Or(l, r) => RefsInScope(l, aliases) && RefsInScope(r, aliases)
  }

  method ValidateColumnRefsIn(e: Expr, aliases: Scope) returns (ok: bool)
    ensures ok <==> RefsInScope(e, aliases)
    decreases e
  {
    match e {
      case ColumnRef(table, column) => ok := CheckRef(aliases, table, column);
      case Literal(_) => ok := true;
      case Compare(_, l, r) =>
        ok := ValidateColumnRefsIn(l, aliases);
        if ok {
          ok := ValidateColumnRefsIn(r, aliases);
        }
      case And(l, r) =>
        ok := ValidateColumnRefsIn(l, aliases);
        if ok {
          ok := ValidateColumnRefsIn(r, aliases);
        }
      case Or(l, r) =>
        ok := ValidateColumnRefsIn(l, aliases);
        if ok {
          ok := ValidateColumnRefsIn(r, aliases);
        }
    }
  }

  // ---------- SELECT ----------

  /** The first `n` tables of the statement, by alias. */
  function ScopeOf(nodes: seq<TableNode>, db: Db, n: nat): Scope
    requires n <= |nodes|
  {
    if n == 0 then map[]
    else
      var t := nodes[n - 1];
      ScopeOf(nodes, db, n - 1)[t.alias := if t.table in db then db[t.table].columns else []]
  }

  ghost predicate FreshAliases(nodes: seq<TableNode>, n: nat)
    requires n <= |nodes|
  {
    forall i, j :: 0 <= i < j < n ==> nodes[i].alias != nodes[j].alias
  }

  /** The first `n` tables exist under different aliases, and each ON condition among them sees only the tables written
      so far. */
  ghost predicate ValidTables(nodes: seq<TableNode>, db: Db, n: nat)
    requires n <= |nodes|
  {
    && (forall i :: 0 <= i < n ==> nodes[i].table in db)
    && FreshAliases(nodes, n)
    && (forall i :: 0 <= i < n && nodes[i].cond.Some? ==> RefsInScope(nodes[i].cond.value, ScopeOf(nodes, db, i + 1)))
  }

  ghost predicate ItemsInScope(items: seq<SelectItem>, aliases: Scope) {
    forall i <- items :: InScope(aliases, i.table, i.column)
  }

  ghost predicate ValidSelect(stmt: SelectStmt, db: Db) {
    var nodes := NodesOf(stmt);
    var all := ScopeOf(nodes, db, |nodes|);
    && ValidTables(nodes, db, |nodes|)
    && (!stmt.isStar ==> ItemsInScope(stmt.items, all))
    && (stmt.where.Some? ==> RefsInScope(stmt.where.value, all))
  }

  lemma {:induction false} ScopeKeys(nodes: seq<TableNode>, db: Db, n: nat)
    requires n <= |nodes|
    ensures forall a :: a in ScopeOf(nodes, db, n) <==> exists i :: 0 <= i < n && nodes[i].alias == a
  {
    if n > 0 {
      ScopeKeys(nodes, db, n - 1);
      assert nodes[n - 1].alias in ScopeOf(nodes, db, n);
      forall a
        ensures a in ScopeOf(nodes, db, n) <==> exists i :: 0 <= i < n && nodes[i].alias == a
      {
        if i :| 0 <= i < n && nodes[i].alias == a {
          assert i == n - 1 || i < n - 1;
        }
      }
    }
  }

  /** Add one table to the scope; it must exist and its alias must be new. */
  method AddTable(ref: TableRef, db: Db, aliases: Scope) returns (r: Option<Scope>)
    ensures r.Some? <==> ref.table in db && AliasOf(ref) !in aliases
    ensures r.Some? ==> r.value == aliases[AliasOf(ref) := db[ref.table].columns]
  {
    if ref.table !in db || AliasOf(ref) in aliases {
      return None;
    }
    return Some(aliases[AliasOf(ref) := db[ref.table].columns]);
  }

  lemma TablesMore(nodes: seq<TableNode>, db: Db, n: nat)
    requires n < |nodes|
    ensures ValidTables(nodes, db, n + 1) <==>
            && ValidTables(nodes, db, n) && nodes[n].table in db && nodes[n].alias !in ScopeOf(nodes, db, n)
            && (nodes[n].cond.Some? ==> RefsInScope(nodes[n].cond.value, ScopeOf(nodes, db, n + 1)))
  {
    hide RefsInScope, ScopeOf;
    ScopeKeys(nodes, db, n);
  }

  lemma {:induction false} TablesPrefix(nodes: seq<TableNode>, db: Db, m: nat, n: nat)
    requires m <= n <= |nodes| && ValidTables(nodes, db, n)
    ensures ValidTables(nodes, db, m)
  {
    hide RefsInScope, ScopeOf;
  }

  lemma NoTables(nodes: seq<TableNode>, db: Db)
    ensures ValidTables(nodes, db, 0)
  {
  }

  method ValidateTables(stmt: SelectStmt, db: Db) returns (scope: Option<Scope>)
    ensures scope.Some? <==> ValidTables(NodesOf(stmt), db, |stmt.joins| + 1)
    ensures scope.Some? ==> scope.value == ScopeOf(NodesOf(stmt), db, |stmt.joins| + 1)
  {
    hide RefsInScope, InScope, ValidTables;
    ghost var nodes, total := NodesOf(stmt), |stmt.joins| + 1;
    TablesMore(nodes, db, 0);
    NoTables(nodes, db);
    scope := AddTable(stmt.from, db, map[]);
    if scope.None? {
      StopHere(nodes, db, 0);
      return;
    }
    var aliases := scope.value;
    var k := 0;
    while k < |stmt.joins|
      invariant k <= |stmt.joins| && aliases == ScopeOf(nodes, db, k + 1) && ValidTables(nodes, db, k + 1)
    {
      TablesMore(nodes, db, k + 1);
      scope := AddTable(stmt.joins[k].table, db, aliases);
      if scope.None? {
        StopHere(nodes, db, k + 1);
        return;
      }
      aliases := scope.value;
      var ok := ValidateColumnRefsIn(stmt.joins[k].on, aliases);
      if !ok {
        StopHere(nodes, db, k + 1);
        return None;
      }
      k := k + 1;
    }
    return Some(aliases);
  }

  /** Tables that fail to extend a valid prefix fail as a whole. */
  lemma StopHere(nodes: seq<TableNode>, db: Db, n: nat)
    requires n < |nodes| && !ValidTables(nodes, db, n + 1)
    ensures !ValidTables(nodes, db, |nodes|)
  {
    hide RefsInScope, ScopeOf, ValidTables;
    if ValidTables(nodes, db, |nodes|) {
      TablesPrefix(nodes, db, n + 1, |nodes|);
    }
  }

  method ValidateItems(items: seq<SelectItem>, aliases: Scope) returns (ok: bool)
    ensures ok <==> ItemsInScope(items, aliases)
  {
    hide InScope;
    var i := 0;
    while i < |items|
      invariant i <= |items| && forall j :: 0 <= j < i ==> InScope(aliases, items[j].table, items[j].column)
    {
      ok := CheckRef(aliases, items[i].table, items[i].column);
      if !ok {
        assert items[i] in items;
        return;
      }
      i := i + 1;
    }
    return true;
  }

  method ValidateSelect(stmt: SelectStmt, db: Db) returns (ok: bool)
    ensures ok <==> ValidSelect(stmt, db)
  {
    hide ValidTables, RefsInScope, ItemsInScope, ScopeOf;
    var aliases := ValidateTables(stmt, db);
    if aliases.None? {
      return false;
    }
    if !stmt.isStar {
      ok := ValidateItems(stmt.items, aliases.value);
      if !ok {
        return;
      }
    }
    if stmt.where.Some? {
      ok := ValidateColumnRefsIn(stmt.where.value, aliases.value);
      return;
    }
    return true;
  }

  // ---------- what the planner relies on ----------

  lemma {:induction false} RefsAreKeys(e: Expr, aliases: Scope)
    requires RefsInScope(e, aliases)
    ensures Refs(e) <= aliases.Keys
    decreases e
  {
    match e
    case ColumnRef(_, _) =>
    case Literal(_) =>
    case Compare(_, l, r) =>
      RefsAreKeys(l, aliases);
      RefsAreKeys(r, aliases);
    case And(l, r) =>
      RefsAreKeys(l, aliases);
      RefsAreKeys(r, aliases);
    case Or(l, r) =>
      RefsAreKeys(l, aliases);
      RefsAreKeys(r, aliases);
  }

  lemma ValidContext(stmt: SelectStmt, db: Db)
    requires DbOk(db) && ValidSelect(stmt, db)
    ensures ContextOk(ContextOf(stmt, db))
  {
    hide RefsInScope, DbOk, ScopeOf, ItemsInScope;
  }

  lemma NamesEarlier(c: Context, p: nat)
    requires ContextOk(c) && p < |c.nodes| && ValidTables(c.nodes, c.db, |c.nodes|) && c.nodes[p].cond.Some?
    ensures NamesWithin(c, c.nodes[p].cond.value, TextOrder(|c.nodes|)[..p + 1])
  {
    hide RefsInScope, DbOk, ScopeOf, Unique, ContextOk;
    var text := TextOrder(|c.nodes|);
    RefsAreKeys(c.nodes[p].cond.value, ScopeOf(c.nodes, c.db, p + 1));
    ScopeKeys(c.nodes, c.db, p + 1);
    forall a | a in Refs(c.nodes[p].cond.value)
      ensures NodeIndex(c.nodes, a).Some? && NodeIndex(c.nodes, a).value in text[..p + 1]
    {
      var i :| 0 <= i < p + 1 && c.nodes[i].alias == a;
      NodeIndexIs(c, i);
      assert text[..p + 1][i] == i;
    }
  }

  /** A validated SELECT is in the form the planner's guarantees are about. */
  lemma ValidScoped(stmt: SelectStmt, db: Db)
    requires DbOk(db) && ValidSelect(stmt, db)
    ensures Scoped(ContextOf(stmt, db))
  {
    hide ValidTables, NamesWithin, ItemsInScope, RefsInScope, ContextOk, Unique;
    var c := ContextOf(stmt, db);
    ValidContext(stmt, db);
    forall p | 0 <= p < |c.nodes| && c.nodes[p].cond.Some?
      ensures NamesWithin(c, c.nodes[p].cond.value, TextOrder(|c.nodes|)[..p + 1])
    {
      NamesEarlier(c, p);
    }
  }

  lemma {:induction false} ScopeAt(nodes: seq<TableNode>, db: Db, n: nat, j: nat)
    requires j < n <= |nodes| && FreshAliases(nodes, n) && forall i :: 0 <= i < n ==> nodes[i].table in db
    ensures nodes[j].table in db && nodes[j].alias in ScopeOf(nodes, db, n)
    ensures ScopeOf(nodes, db, n)[nodes[j].alias] == db[nodes[j].table].columns
  {
    if j < n - 1 {
      ScopeAt(nodes, db, n - 1, j);
    }
  }

  lemma ScopeTable(c: Context, n: nat, k: nat)
    requires ContextOk(c) && k < n <= |c.nodes|
    ensures c.nodes[k].alias in ScopeOf(c.nodes, c.db, n) && ScopeOf(c.nodes, c.db, n)[c.nodes[k].alias] == TableOf(c, k).columns
  {
    hide ScopeOf;
    assert forall i :: 0 <= i < n ==> c.nodes[i] in c.nodes;
    ScopeAt(c.nodes, c.db, n, k);
  }

  lemma ScopeNode(c: Context, n: nat, a: string) returns (k: nat)
    requires ContextOk(c) && n <= |c.nodes| && a in ScopeOf(c.nodes, c.db, n)
    ensures k < n && c.nodes[k].alias == a && ScopeOf(c.nodes, c.db, n)[a] == TableOf(c, k).columns
  {
    hide ScopeOf, ContextOk;
    ScopeKeys(c.nodes, c.db, n);
    k :| k < n && c.nodes[k].alias == a;
    ScopeTable(c, n, k);
  }

  /** Validation in the scope of the first `n` tables accepts exactly the expressions that are resolved among them. */
  lemma {:induction false} ScopeResolves(c: Context, e: Expr, n: nat, layout: seq<nat>)
    requires ContextOk(c) && n <= |c.nodes| && forall j: nat :: j in layout <==> j < n
    ensures RefsInScope(e, ScopeOf(c.nodes, c.db, n)) <==> ResolvedIn(c, n, e, layout)
    decreases e
  {
    hide ContextOk, ScopeOf, OwnerOf, HasColumn, InScope;
    match e
    case ColumnRef(table, column) =>
      if table.Some? {
        NamedResolves(c, table.value, column, n, layout);
      } else {
        UnnamedResolves(c, column, n, layout);
      }
    case Literal(_) =>
    case Compare(_, l, r) =>
      ScopeResolves(c, l, n, layout);
      ScopeResolves(c, r, n, layout);
    case And(l, r) =>
      ScopeResolves(c, l, n, layout);
      ScopeResolves(c, r, n, layout);
    case Or(l, r) =>
      ScopeResolves(c, l, n, layout);
      ScopeResolves(c, r, n, layout);
  }

  lemma NamedResolves(c: Context, table: string, column: string, n: nat, layout: seq<nat>)
    requires ContextOk(c) && n <= |c.nodes| && forall j: nat :: j in layout <==> j < n
    ensures InScope(ScopeOf(c.nodes, c.db, n), Some(table), column) <==> Resolves(c, n, Some(table), column, layout)
  {
    hide HasColumn, ScopeOf, ContextOk;
    var j := NodeIndex(c.nodes, table);
    if table in ScopeOf(c.nodes, c.db, n) {
      var k := ScopeNode(c, n, table);
      NodeIndexIs(c, k);
    } else if j.Some? && j.value < n {
      ScopeTable(c, n, j.value);
    }
  }

  lemma UnnamedResolves(c: Context, column: string, n: nat, layout: seq<nat>)
    requires ContextOk(c) && n <= |c.nodes| && forall j: nat :: j in layout <==> j < n
    ensures InScope(ScopeOf(c.nodes, c.db, n), None, column) <==> Resolves(c, n, None, column, layout)
  {
    hide ScopeOf, ContextOk, InScope, Sole, OwnerOf, Resolves;
    if j: nat :| Sole(c, n, column, j) {
      SoleInScope(c, column, n, j);
      SoleResolves(c, column, n, j, layout);
    } else {
      NoneResolves(c, column, n, layout);
      if InScope(ScopeOf(c.nodes, c.db, n), None, column) {
        var j := ScopeSole(c, column, n);
        assert false;
      }
    }
  }

  lemma SoleResolves(c: Context, column: string, n: nat, j: nat, layout: seq<nat>)
    requires ContextOk(c) && n <= |c.nodes| && Sole(c, n, column, j) && forall k: nat :: k in layout <==> k < n
    ensures Resolves(c, n, None, column, layout)
  {
    hide HasColumn, ContextOk;
    SoleOwner(c, n, column, j);
  }

  lemma NoneResolves(c: Context, column: string, n: nat, layout: seq<nat>)
    requires ContextOk(c) && forall j: nat :: !Sole(c, n, column, j)
    ensures !Resolves(c, n, None, column, layout)
  {
    hide HasColumn, ContextOk, Sole;
  }

  lemma SoleInScope(c: Context, column: string, n: nat, j: nat)
    requires ContextOk(c) && n <= |c.nodes| && Sole(c, n, column, j)
    ensures InScope(ScopeOf(c.nodes, c.db, n), None, column)
  {
    hide HasColumn, ScopeOf, ContextOk;
    var s, a := ScopeOf(c.nodes, c.db, n), c.nodes[j].alias;
    ScopeTable(c, n, j);
    forall b | b in s && HasColumn(s[b], column)
      ensures b == a
    {
      var k := ScopeNode(c, n, b);
    }
    assert a in s && HasColumn(s[a], column);
  }

  lemma ScopeSole(c: Context, column: string, n: nat) returns (j: nat)
    requires ContextOk(c) && n <= |c.nodes| && InScope(ScopeOf(c.nodes, c.db, n), None, column)
    ensures Sole(c, n, column, j)
  {
    hide HasColumn, ScopeOf, ContextOk;
    var s := ScopeOf(c.nodes, c.db, n);
    var a :| a in s && HasColumn(s[a], column) && forall b <- s :: HasColumn(s[b], column) ==> b == a;
    j := ScopeNode(c, n, a);
    forall k: nat | k < n && HasColumn(TableOf(c, k).columns, column)
      ensures c.nodes[k].alias == a
    {
      ScopeTable(c, n, k);
    }
    OnlyThere(c, column, n, j, a);
  }

  lemma OnlyThere(c: Context, column: string, n: nat, j: nat, a: string)
    requires ContextOk(c) && j < n <= |c.nodes| && c.nodes[j].alias == a && HasColumn(TableOf(c, j).columns, column)
    requires forall k: nat :: k < n && HasColumn(TableOf(c, k).columns, column) ==> c.nodes[k].alias == a
    ensures Sole(c, n, column, j)
  {
    hide HasColumn;
    forall k: nat | k < n && k != j
      ensures !HasColumn(TableOf(c, k).columns, column)
    {
      if HasColumn(TableOf(c, k).columns, column) {
        AliasesDiffer(c, k, j);
      }
    }
  }

  lemma TextResolved(c: Context, p: nat)
    requires ContextOk(c) && p < |c.nodes|
    ensures CondResolved(c, p, TextOrder(|c.nodes|)[..p + 1])
       <==> (c.nodes[p].cond.Some? ==> RefsInScope(c.nodes[p].cond.value, ScopeOf(c.nodes, c.db, p + 1)))
  {
    hide ContextOk, ResolvedIn, RefsInScope, Unique, ScopeOf;
    var before := TextOrder(|c.nodes|)[..p + 1];
    if c.nodes[p].cond.Some? {
      forall j: nat
        ensures j in before <==> j < p + 1
      {
        if j < p + 1 {
          assert before[j] == j;
        }
      }
      ScopeResolves(c, c.nodes[p].cond.value, p + 1, before);
    }
  }

  /** Validation accepts the tables and ON conditions exactly when every reference is resolved in the order written. */
  lemma TextReached(c: Context)
    requires ContextOk(c)
    ensures ValidTables(c.nodes, c.db, |c.nodes|) <==> Reached(c, TextOrder(|c.nodes|))
  {
    hide CondResolved, RefsInScope, ScopeOf, DbOk, Unique;
    assert forall i :: 0 <= i < |c.nodes| ==> c.nodes[i] in c.nodes;
    var text := TextOrder(|c.nodes|);
    forall p | 0 <= p < |c.nodes|
      ensures text[p] == p
      ensures CondResolved(c, p, text[..p + 1])
         <==> (c.nodes[p].cond.Some? ==> RefsInScope(c.nodes[p].cond.value, ScopeOf(c.nodes, c.db, p + 1)))
    {
      TextResolved(c, p);
    }
  }

  /** In the textual order of a validated SELECT every ON reference has its meaning. */
  lemma ValidReached(stmt: SelectStmt, db: Db)
    requires DbOk(db) && ValidSelect(stmt, db)
    ensures var c := ContextOf(stmt, db); Scoped(c) && Reached(c, TextOrder(|c.nodes|))
  {
    hide ValidTables, ContextOk, ItemsInScope, RefsInScope, Unique, DbOk, Reached;
    ValidScoped(stmt, db);
    TextReached(ContextOf(stmt, db));
  }

  /** Plan a validated SELECT: the fallback is never taken, and on well-typed conditions the plan answers exactly what the
      text asks, provided its order keeps the meaning of every ON reference.  It does when every unqualified one is to the
      first table or to the one its condition introduces, and no other table has its column.  In any case the plan answers
      what the statement would ask with its tables written in the order of the plan, if that is valid and well typed. */
  method PlanSelect(stmt: SelectStmt, db: Db) returns (r: Result<PhysicalPlan>, ghost b: Built)
    requires DbOk(db)
    ensures ValidSelect(stmt, db) ==>
              && r.Ok? && !b.fellBack && Greedy(ContextOf(stmt, db), b.order) && Connected(ContextOf(stmt, db), b.order)
    ensures r.Ok? ==>
              && r.value == Dressed(TextPlan(stmt), b.joins) && JoinPlan(ContextOf(stmt, db), b.joins, b.order)
              && Unique(b.order) && forall i: nat :: i in b.order <==> i <= |stmt.joins|
    ensures ValidSelect(stmt, db) && Plannable(ContextOf(stmt, db)) && Reached(ContextOf(stmt, db), b.order) ==>
              SameAnswer(stmt.isStar, Exec(r.value, db), Meaning(TextPlan(stmt), db))
    ensures ValidSelect(stmt, db) && Plannable(ContextOf(stmt, db)) && Near(ContextOf(stmt, db)) ==> Reached(ContextOf(stmt, db), b.order)
    ensures ValidSelect(stmt, db) ==>
              && Orders(stmt, b.order)
              && (ValidSelect(Reorder(stmt, b.order), db) && Plannable(ContextOf(Reorder(stmt, b.order), db)) ==>
                    SameAnswer(stmt.isStar, Exec(r.value, db), Meaning(TextPlan(Reorder(stmt, b.order)), db)))
  {
    hide ValidSelect, DbOk, Greedy, Connected, Plannable, SameAnswer, JoinPlan, Unique, Reached, Near;
    var logical := BuildLogicalPlan(stmt);
    FlattenText(stmt);
    r, b := BuildPhysicalPlan(logical, db);
    if ValidSelect(stmt, db) {
      ValidReached(stmt, db);
      FirstIsZero(ContextOf(stmt, db), b.joins, b.order);
      IsOrder(stmt, b.order);
      ReorderedAnswer(stmt, db, b);
      if Plannable(ContextOf(stmt, db)) {
        if Near(ContextOf(stmt, db)) {
          NearReached(ContextOf(stmt, db), b.order);
        }
        if Reached(ContextOf(stmt, db), b.order) {
          PlanKeepsMeaning(stmt, db, b.joins, b.order);
        }
      }
    }
  }

  lemma IsOrder(stmt: SelectStmt, order: seq<nat>)
    requires Unique(order) && (forall i: nat :: i in order <==> i <= |stmt.joins|) && order != [] && order[0] == 0
    ensures Orders(stmt, order)
  {
    Inserts.HowMany(order, |stmt.joins| + 1);
    forall k | 0 < k < |order|
      ensures 0 < order[k] <= |stmt.joins|
    {
      assert order[k] in order && order[k] != order[0];
    }
  }

  lemma ReorderedAnswer(stmt: SelectStmt, db: Db, b: Built)
    requires DbOk(db) && Orders(stmt, b.order) && JoinPlan(ContextOf(stmt, db), b.joins, b.order)
    ensures ValidSelect(Reorder(stmt, b.order), db) && Plannable(ContextOf(Reorder(stmt, b.order), db)) ==>
              SameAnswer(stmt.isStar, Exec(Dressed(TextPlan(stmt), b.joins), db), Meaning(TextPlan(Reorder(stmt, b.order)), db))
  {
    hide ValidSelect, Plannable, SameAnswer, JoinPlan, Reached, Meaning, Exec, Dressed, TextPlan, Reorder;
    if ValidSelect(Reorder(stmt, b.order), db) && Plannable(ContextOf(Reorder(stmt, b.order), db)) {
      ValidReached(Reorder(stmt, b.order), db);
      PlanMeansReordered(stmt, db, b.joins, b.order);
    }
  }
}
