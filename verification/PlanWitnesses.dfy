/** Three validated statements that the planner's order does not answer: an ON reference joined before its table, one made
    ambiguous by a table written later, and one that silently reads the later table instead. */
module PlanWitnesses {
  import opened Pages
  import opened Query
  import opened Joins
  import opened Plans
  import opened References
  import opened JoinOrder
  import opened Bags
  import opened JoinSteps
  import opened Planner
  import opened PlanMeaning
  import opened Semantic
  import opened PlanLimits
  import Inserts

  // ---------- tables of integers ----------

  function Int(name: string): ColumnDef {
    ColumnDef(name, IntegerType, name == "id")
  }

  /** A table with a column `id`, and one with columns `id` and `x`. */
  function Ids(values: seq<int>): Table {
    Table([Int("id")], seq(|values|, k requires 0 <= k < |values| => [IntV(values[k])]), |values|)
  }

  function Pairs(values: seq<(int, int)>): Table {
    Table([Int("id"), Int("x")], seq(|values|, k requires 0 <= k < |values| => [IntV(values[k].0), IntV(values[k].1)]), |values|)
  }

  ghost predicate IntTable(t: Table) {
    TypedTable(t) && forall k :: 0 <= k < |t.columns| ==> t.columns[k].ctype.IntegerType?
  }

  lemma IdsTable(values: seq<int>)
    ensures var t := Ids(values);
            && IntTable(t) && |t.rows| == t.rowCount == |values| && IndexOf(t.columns, "id") == Some(0) && !HasColumn(t.columns, "x")
            && forall k :: 0 <= k < |values| ==> t.rows[k] == [IntV(values[k])]
  {
  }

  lemma PairsTable(values: seq<(int, int)>)
    ensures var t := Pairs(values);
            && IntTable(t) && |t.rows| == t.rowCount == |values| && IndexOf(t.columns, "id") == Some(0) && IndexOf(t.columns, "x") == Some(1)
            && Times(t.columns, "x") == 1
            && forall k :: 0 <= k < |values| ==> t.rows[k] == [IntV(values[k].0), IntV(values[k].1)]
  {
    var columns := Pairs(values).columns;
    assert columns[1..] == [Int("x")] && columns[1..][1..] == [];
  }

  lemma IdsColumns(t: Table, values: seq<int>)
    requires t == Ids(values)
    ensures HasColumn(t.columns, "id") && !HasColumn(t.columns, "x") && |t.rows| == |values|
  {
    IdsTable(values);
  }

  lemma PairsColumns(t: Table, values: seq<(int, int)>)
    requires t == Pairs(values)
    ensures HasColumn(t.columns, "id") && HasColumn(t.columns, "x") && Times(t.columns, "x") == 1 && |t.rows| == |values|
  {
    PairsTable(values);
  }

  // ---------- equalities with the new table's id ----------

  function On(table: Option<string>, column: string, next: string): Expr {
    Compare(Eq, ColumnRef(table, column), ColumnRef(Some(next), "id"))
  }

  /** Table `i` is introduced by such an equality, whose other side is a column of table `j`. */
  ghost predicate JoinsOn(c: Context, i: nat, table: Option<string>, column: string, j: nat)
    requires ContextOk(c)
  {
    && 0 < i < |c.nodes| && j < i && c.nodes[i].cond == Some(On(table, column, c.nodes[i].alias))
    && OwnerOf(c, i + 1, table, column) == Some(j) && Once(c, j, table, column) && HasColumn(TableOf(c, i).columns, "id")
  }

  ghost predicate IntContext(c: Context) {
    ContextOk(c) && forall n <- c.db :: IntTable(c.db[n])
  }

  lemma IntColumn(c: Context, j: nat, column: string)
    requires IntContext(c) && j < |c.nodes| && HasColumn(TableOf(c, j).columns, column)
    ensures TableOf(c, j).columns[IndexOf(TableOf(c, j).columns, column).value].ctype == IntegerType
  {
    assert c.nodes[j] in c.nodes;
    assert IntTable(TableOf(c, j));
  }

  lemma OnSound(c: Context, i: nat, table: Option<string>, column: string, j: nat)
    requires IntContext(c) && JoinsOn(c, i, table, column, j)
    ensures c.nodes[i].cond.Some? && WellTyped(c, i + 1, c.nodes[i].cond.value) && !SelfKeyed(c, i)
  {
    hide IntContext, ContextOk, IndexOf, Times;
    assert ContextOk(c) by {
      IntOk(c);
    }
    var cond := c.nodes[i].cond.value;
    NodeIndexIs(c, i);
    IntColumn(c, j, column);
    IntColumn(c, i, "id");
    assert TypeOf(c, i + 1, cond.left) == Some(IntegerType) && TypeOf(c, i + 1, cond.right) == Some(IntegerType);
    forall acc, next | Sides(cond, c.nodes[i].alias, acc, next)
      ensures OwnerOf(c, i + 1, acc.table, acc.column) != Some(i)
    {
      if table == Some(c.nodes[i].alias) {
        assert false;
      }
      assert acc == KeyRef(table, column);
    }
  }

  lemma IntOk(c: Context)
    requires IntContext(c)
    ensures ContextOk(c) && Typed(c)
  {
  }

  /** The equality holds of a choice exactly if the two values are the same. */
  lemma OnMeets(c: Context, i: nat, table: Option<string>, column: string, j: nat, x: Choice)
    requires IntContext(c) && JoinsOn(c, i, table, column, j) && Picks(c, [j, i], x)
    ensures HasColumn(TableOf(c, j).columns, column)
    ensures Meets(c, i, x) <==> ValueAt(c, j, column, x) == ValueAt(c, i, "id", x)
  {
    hide IntContext, ContextOk, IndexOf, Times, ValueAt;
    IntOk(c);
    NodeIndexIs(c, i);
    assert j in [j, i] && i in [j, i];
    IntColumn(c, j, column);
    IntColumn(c, i, "id");
  }

  /** For each table the other side of the equality that introduces it, and that side's table. */
  datatype Side = Side(table: Option<string>, column: string, owner: nat)

  ghost predicate AllOn(c: Context, sides: seq<Side>)
    requires ContextOk(c)
  {
    |sides| == |c.nodes| && forall i: nat :: 0 < i < |c.nodes| ==> JoinsOn(c, i, sides[i].table, sides[i].column, sides[i].owner)
  }

  lemma OnResolved(c: Context, i: nat, table: Option<string>, column: string, j: nat, layout: seq<nat>)
    requires ContextOk(c) && JoinsOn(c, i, table, column, j) && i in layout && j in layout
    requires table.None? ==> forall k <- layout :: k <= i
    ensures CondResolved(c, i, layout)
  {
    hide ContextOk, HasColumn, Times;
    NodeIndexIs(c, i);
    assert Resolves(c, i + 1, table, column, layout);
    assert Resolves(c, i + 1, Some(c.nodes[i].alias), "id", layout);
    var cond := c.nodes[i].cond.value;
    assert ResolvedIn(c, i + 1, cond.left, layout) && ResolvedIn(c, i + 1, cond.right, layout);
  }

  /** Such a statement is one the planner's guarantee is about. */
  lemma AllOnPlannable(c: Context, sides: seq<Side>)
    requires IntContext(c) && AllOn(c, sides) && c.nodes != []
    ensures Plannable(c) && Reached(c, TextOrder(|c.nodes|))
  {
    hide IntContext, ContextOk, CondResolved, JoinsOn, WellTyped, SelfKeyed, Typed, Unique;
    IntOk(c);
    var text := TextOrder(|c.nodes|);
    forall i: nat | 0 < i < |c.nodes|
      ensures c.nodes[i].cond.Some? && WellTyped(c, i + 1, c.nodes[i].cond.value) && !SelfKeyed(c, i)
    {
      OnSound(c, i, sides[i].table, sides[i].column, sides[i].owner);
    }
    forall p | 0 <= p < |text|
      ensures text[p] == p && CondResolved(c, p, text[..p + 1])
    {
      PrefixResolved(c, sides, p);
    }
  }

  lemma PrefixResolved(c: Context, sides: seq<Side>, p: nat)
    requires ContextOk(c) && AllOn(c, sides) && p < |c.nodes|
    ensures CondResolved(c, p, TextOrder(|c.nodes|)[..p + 1])
  {
    var before := TextOrder(|c.nodes|)[..p + 1];
    if p > 0 {
      assert before[p] == p && before[sides[p].owner] == sides[p].owner;
      hide ContextOk, ResolvedIn, Unique;
      OnResolved(c, p, sides[p].table, sides[p].column, sides[p].owner, before);
    }
  }

  lemma AllOnValid(stmt: SelectStmt, db: Db, sides: seq<Side>)
    requires var c := ContextOf(stmt, db); IntContext(c) && AllOn(c, sides)
    requires stmt.isStar && stmt.where.None?
    ensures DbOk(db) && ValidSelect(stmt, db) && Plannable(ContextOf(stmt, db))
    ensures Reached(ContextOf(stmt, db), TextOrder(|stmt.joins| + 1)) && Meaning(TextPlan(stmt), db).Ok?
  {
    hide IntContext, ContextOk, ValidTables, Reached, AllOn, Plannable, Meaning, TextPlan, DbOk, Unique;
    IntOk(ContextOf(stmt, db));
    TypedContextOk(ContextOf(stmt, db));
    AllOnPlannable(ContextOf(stmt, db), sides);
    TextReached(ContextOf(stmt, db));
    TextAnswers(stmt, db);
  }

  lemma TypedContextOk(c: Context)
    requires ContextOk(c)
    ensures DbOk(c.db)
  {
  }

  /** With two tables to attach, the smaller one is taken although it is written last. */
  lemma SmallerFirst(c: Context, order: seq<nat>)
    requires |c.nodes| == 3 && Unique(order) && (forall i: nat :: i in order <==> i < 3) && order != [] && order[0] == 0
    requires Greedy(c, order) && Attachable(c.nodes, {c.nodes[0].alias}, 2)
    requires c.nodes[1].table in c.db && c.nodes[2].table in c.db && c.db[c.nodes[2].table].rowCount < c.db[c.nodes[1].table].rowCount
    ensures order == [0, 2, 1]
  {
    hide Attachable;
    Inserts.HowMany(order, 3);
    assert order[..1] == [0];
    var done, joined := ConsumedBy(3, [0]), AliasesOf(c.nodes, [0]);
    assert joined == {c.nodes[0].alias};
    assert Fewest(c.nodes, done, joined, c.db, 3, order[1]);
    assert Candidate(c.nodes, done, joined, 2);
    assert order[1] != 1;
    assert order[1] in order && order[2] in order;
  }

  lemma DressedFails(stmt: SelectStmt, db: Db, joins: PhysicalPlan)
    requires DbOk(db) && Exec(joins, db).Err?
    ensures Exec(Dressed(TextPlan(stmt), joins), db).Err?
  {
    hide TextPlan;
  }

  lemma FirstOnly(c: Context)
    requires ContextOk(c) && c.nodes != [] && TableOf(c, 0).rows != []
    ensures Reached(c, [0]) && Satisfiable(c, [0])
  {
    hide ContextOk, ResolvedIn, CondIn;
    FirstFree(c);
    var x: Choice := map[0 := 0];
    assert Satisfies(c, [0], x);
  }

  lemma FirstFree(c: Context)
    requires ContextOk(c) && c.nodes != []
    ensures c.nodes[0].cond.None?
  {
  }

  lemma ValueIs(c: Context, j: nat, column: string, x: Choice)
    requires ContextOk(c) && j < |c.nodes| && j in x && x[j] < |TableOf(c, j).rows| && IndexOf(TableOf(c, j).columns, column).Some?
    ensures IndexOf(TableOf(c, j).columns, column).value < |TableOf(c, j).rows[x[j]]|
    ensures ValueAt(c, j, column, x) == TableOf(c, j).rows[x[j]][IndexOf(TableOf(c, j).columns, column).value]
  {
    assert TableOf(c, j).rows[x[j]] in TableOf(c, j).rows;
  }

  lemma FirstMeets(c: Context, x: Choice)
    requires ContextOk(c) && c.nodes != []
    ensures Meets(c, 0, x)
  {
  }

  /** The first table and one that names it. */
  lemma PairReached(c: Context, i: nat, alias: string, column: string)
    requires ContextOk(c) && JoinsOn(c, i, Some(alias), column, 0)
    ensures Reached(c, [0, i])
  {
    FirstFree(c);
    hide ContextOk, JoinsOn, ResolvedIn;
    IsTable(c, i, Some(alias), column);
    assert [0, i][..1] == [0] && [0, i][..2] == [0, i];
    OnResolved(c, i, Some(alias), column, 0, [0, i]);
  }

  lemma IsTable(c: Context, i: nat, table: Option<string>, column: string)
    requires ContextOk(c) && JoinsOn(c, i, table, column, 0)
    ensures 0 < i < |c.nodes| && HasColumn(TableOf(c, i).columns, "id") && HasColumn(TableOf(c, 0).columns, column)
  {
  }

  /** If their first rows match, some combination does. */
  lemma PairMatch(c: Context, i: nat, table: Option<string>, column: string)
    requires IntContext(c) && ContextOk(c) && JoinsOn(c, i, table, column, 0) && i < |c.nodes|
    requires TableOf(c, 0).rows != [] && TableOf(c, i).rows != []
    requires ValueAt(c, 0, column, map[0 := 0, i := 0]) == ValueAt(c, i, "id", map[0 := 0, i := 0])
    ensures Satisfiable(c, [0, i])
  {
    hide IntContext, ContextOk, JoinsOn, CondIn, ValueAt;
    IsTable(c, i, table, column);
    var x: Choice := map[0 := 0, i := 0];
    assert Picks(c, [0, i], x);
    OnMeets(c, i, table, column, 0, x);
    FirstMeets(c, x);
    hide Meets;
    assert Satisfies(c, [0, i], x);
  }

  // ---------- joined before its table ----------

  /** SELECT * FROM a JOIN b ON a.id = b.id JOIN c ON x = c.id, where only b has a column `x`. */
  function LooseStmt(): SelectStmt {
    SelectStmt(true, [], TableRef("a", None),
               [JoinClause(TableRef("b", None), On(Some("a"), "id", "b")), JoinClause(TableRef("c", None), On(None, "x", "c"))], None)
  }

  function LooseDb(): Db {
    map["a" := Ids([1]), "b" := Pairs([(1, 7), (2, 8)]), "c" := Ids([7])]
  }

  lemma NamedOn(c: Context, i: nat, j: nat)
    requires ContextOk(c) && j < i < |c.nodes| && c.nodes[i].cond == Some(On(Some(c.nodes[j].alias), "id", c.nodes[i].alias))
    requires HasColumn(TableOf(c, i).columns, "id") && HasColumn(TableOf(c, j).columns, "id")
    ensures JoinsOn(c, i, Some(c.nodes[j].alias), "id", j)
  {
    hide ContextOk, HasColumn;
    NodeIndexIs(c, j);
  }

  lemma UnnamedOn(c: Context, i: nat, j: nat)
    requires ContextOk(c) && j < i < |c.nodes| && c.nodes[i].cond == Some(On(None, "x", c.nodes[i].alias))
    requires HasColumn(TableOf(c, i).columns, "id") && Sole(c, i + 1, "x", j) && Times(TableOf(c, j).columns, "x") == 1
    ensures JoinsOn(c, i, None, "x", j)
  {
    hide ContextOk, HasColumn, Times;
    SoleOwner(c, i + 1, "x", j);
  }

  lemma LooseTables()
    ensures var db := LooseDb();
            && "a" in db && "b" in db && "c" in db && (forall n <- db :: IntTable(db[n]))
            && db["a"] == Ids([1]) && db["b"] == Pairs([(1, 7), (2, 8)]) && db["c"] == Ids([7])
  {
    IdsTable([1]);
    PairsTable([(1, 7), (2, 8)]);
    IdsTable([7]);
    hide Ids, Pairs, IntTable;
  }

  lemma IntDb(db: Db)
    requires forall n <- db :: IntTable(db[n])
    ensures DbOk(db)
  {
  }

  lemma ThreeContext(c: Context)
    requires |c.nodes| == 3 && (forall n <- c.db :: IntTable(c.db[n])) && forall i :: 0 <= i < 3 ==> c.nodes[i].table in c.db
    requires c.nodes[0].alias != c.nodes[1].alias && c.nodes[0].alias != c.nodes[2].alias && c.nodes[1].alias != c.nodes[2].alias
    requires c.nodes[0].cond.None? && c.nodes[1].cond.Some? && c.nodes[2].cond.Some?
    ensures IntContext(c)
  {
    hide IntTable, DbOk;
    IntDb(c.db);
  }

  lemma LooseContext(c: Context)
    requires c == ContextOf(LooseStmt(), LooseDb())
    ensures IntContext(c) && |c.nodes| == 3
    ensures TableOf(c, 0) == Ids([1]) && TableOf(c, 1) == Pairs([(1, 7), (2, 8)]) && TableOf(c, 2) == Ids([7])
  {
    hide LooseStmt, LooseDb, NodesOf, Ids, Pairs, IntTable;
    LooseNodes();
    LooseTables();
    ThreeContext(c);
  }

  lemma LooseSides(c: Context)
    requires c == ContextOf(LooseStmt(), LooseDb())
    ensures ContextOk(c) && AllOn(c, [Side(None, "", 0), Side(Some("a"), "id", 0), Side(None, "x", 1)])
  {
    LooseNodes();
    LooseContext(c);
    IdsTable([1]);
    PairsTable([(1, 7), (2, 8)]);
    IdsTable([7]);
    IntOk(c);
    hide LooseStmt, NodesOf, LooseDb, Ids, Pairs, Times, IntContext, IntTable, ContextOk, JoinsOn;
    NamedOn(c, 1, 0);
    UnnamedOn(c, 2, 1);
  }

  lemma LooseNodes()
    ensures var n := NodesOf(LooseStmt());
            && |n| == 3 && n[0] == TableNode("a", "a", None) && n[1] == TableNode("b", "b", Some(On(Some("a"), "id", "b")))
            && n[2] == TableNode("c", "c", Some(On(None, "x", "c")))
  {
  }

  lemma LooseOrder(c: Context, order: seq<nat>)
    requires c == ContextOf(LooseStmt(), LooseDb()) && Greedy(c, order)
    requires Unique(order) && (forall i: nat :: i in order <==> i < 3) && order != [] && order[0] == 0
    ensures order == [0, 2, 1]
  {
    LooseNodes();
    LooseTables();
    IdsTable([7]);
    PairsTable([(1, 7), (2, 8)]);
    assert Refs(On(None, "x", "c")) == {"c"};
    hide LooseStmt, LooseDb, NodesOf, Ids, Pairs, IntTable, Greedy, Refs;
    SmallerFirst(c, order);
  }

  lemma LooseUnreadable(c: Context)
    requires c == ContextOf(LooseStmt(), LooseDb())
    ensures ContextOk(c) && |c.nodes| == 3 && !Readable(c, [0] + [2], "x")
  {
    LooseContext(c);
    IntOk(c);
    IdsTable([1]);
    IdsTable([7]);
    hide LooseStmt, LooseDb, NodesOf, Ids, Pairs, IntTable, ContextOk, Times;
    TimesPositive(Ids([1]).columns, "x");
    TimesPositive(Ids([7]).columns, "x");
  }

  /** The statement passes validation, `x` being a column of exactly one table, and has an answer. */
  lemma LooseValid()
    ensures DbOk(LooseDb()) && ValidSelect(LooseStmt(), LooseDb())
    ensures Plannable(ContextOf(LooseStmt(), LooseDb())) && Meaning(TextPlan(LooseStmt()), LooseDb()).Ok?
  {
    var c := ContextOf(LooseStmt(), LooseDb());
    assert LooseStmt().isStar && LooseStmt().where.None?;
    hide Meaning, LooseDb, LooseStmt, NodesOf, DbOk, TextPlan, ContextOk, IntContext, ValidSelect, AllOn, Plannable, Reached;
    LooseContext(c);
    LooseSides(c);
    AllOnValid(LooseStmt(), LooseDb(), [Side(None, "", 0), Side(Some("a"), "id", 0), Side(None, "x", 1)]);
  }

  lemma LooseLost(c: Context)
    requires c == ContextOf(LooseStmt(), LooseDb())
    ensures ContextOk(c) && |c.nodes| == 3 && Reached(c, [0]) && Satisfiable(c, [0]) && TableOf(c, 2).rows != []
    ensures LooseEquality(c, 2, "x", "id") && !Readable(c, [0] + [2], "x")
  {
    LooseNodes();
    LooseContext(c);
    IntOk(c);
    IdsTable([1]);
    IdsTable([7]);
    hide LooseDb, LooseStmt, NodesOf, Ids, Pairs, IntContext, IntTable, ContextOk, Reached, Satisfiable, Readable;
    FirstOnly(c);
    LooseUnreadable(c);
  }

  /** On this statement every plan in a greedy order fails, while the statement as written has an answer. */
  lemma UnqualifiedReferenceFails(joins: PhysicalPlan, order: seq<nat>)
    requires JoinPlan(ContextOf(LooseStmt(), LooseDb()), joins, order) && Greedy(ContextOf(LooseStmt(), LooseDb()), order)
    requires Unique(order) && forall i: nat :: i in order <==> i < 3
    ensures DbOk(LooseDb()) && ValidSelect(LooseStmt(), LooseDb()) && Meaning(TextPlan(LooseStmt()), LooseDb()).Ok?
    ensures Exec(Dressed(TextPlan(LooseStmt()), joins), LooseDb()).Err?
  {
    hide Greedy, Unique, Meaning, LooseDb, LooseStmt, NodesOf, DbOk, Exec, TextPlan, JoinPlan, ContextOk, ValidSelect,
         Plannable, Reached, Satisfiable, Readable, LooseEquality, Dressed;
    var c := ContextOf(LooseStmt(), LooseDb());
    FirstIsZero(c, joins, order);
    LooseOrder(c, order);
    LooseValid();
    LooseLost(c);
    assert [0] + [2] + [1] == order;
    AloneUnique(0);
    PlanFails(c, joins, [0], 2, [1], "x", "id");
    DressedFails(LooseStmt(), LooseDb(), joins);
  }

  lemma AloneUnique(i: nat)
    ensures Unique([i])
  {
  }

  /** Planning it succeeds, without the fallback, and the plan fails. */
  method PlanLoose() returns (r: Result<PhysicalPlan>)
    ensures DbOk(LooseDb()) && ValidSelect(LooseStmt(), LooseDb())
    ensures r.Ok? && Exec(r.value, LooseDb()).Err? && Meaning(TextPlan(LooseStmt()), LooseDb()).Ok?
  {
    hide Greedy, Unique, Meaning, Exec, JoinPlan, LooseDb, NodesOf, DbOk, ValidSelect, TextPlan, Plannable, Reached, Near;
    LooseValid();
    assert |LooseStmt().joins| == 2;
    hide LooseStmt;
    ghost var b;
    r, b := PlanSelect(LooseStmt(), LooseDb());
    UnqualifiedReferenceFails(b.joins, b.order);
  }

  // ---------- made ambiguous by a table written later ----------

  /** SELECT * FROM a JOIN b ON x = b.id JOIN c ON a.id = c.id, where a and c have a column `x`. */
  function ClashStmt(): SelectStmt {
    SelectStmt(true, [], TableRef("a", None),
               [JoinClause(TableRef("b", None), On(None, "x", "b")), JoinClause(TableRef("c", None), On(Some("a"), "id", "c"))], None)
  }

  function ClashDb(): Db {
    map["a" := Pairs([(1, 7)]), "b" := Ids([7, 8]), "c" := Pairs([(1, 9)])]
  }

  lemma ClashNodes()
    ensures var n := NodesOf(ClashStmt());
            && |n| == 3 && n[0] == TableNode("a", "a", None) && n[1] == TableNode("b", "b", Some(On(None, "x", "b")))
            && n[2] == TableNode("c", "c", Some(On(Some("a"), "id", "c")))
  {
  }

  lemma ClashTables()
    ensures var db := ClashDb();
            && "a" in db && "b" in db && "c" in db && (forall n <- db :: IntTable(db[n]))
            && db["a"] == Pairs([(1, 7)]) && db["b"] == Ids([7, 8]) && db["c"] == Pairs([(1, 9)])
  {
    PairsTable([(1, 7)]);
    IdsTable([7, 8]);
    PairsTable([(1, 9)]);
    hide Ids, Pairs, IntTable;
  }

  lemma ClashContext(c: Context)
    requires c == ContextOf(ClashStmt(), ClashDb())
    ensures IntContext(c) && |c.nodes| == 3
    ensures TableOf(c, 0) == Pairs([(1, 7)]) && TableOf(c, 1) == Ids([7, 8]) && TableOf(c, 2) == Pairs([(1, 9)])
  {
    hide ClashStmt, ClashDb, NodesOf, Ids, Pairs, IntTable;
    ClashNodes();
    ClashTables();
    ThreeContext(c);
  }

  lemma ClashSides(c: Context)
    requires c == ContextOf(ClashStmt(), ClashDb())
    ensures ContextOk(c) && AllOn(c, [Side(None, "", 0), Side(None, "x", 0), Side(Some("a"), "id", 0)])
  {
    ClashNodes();
    ClashContext(c);
    PairsTable([(1, 7)]);
    IdsTable([7, 8]);
    PairsTable([(1, 9)]);
    IntOk(c);
    hide ClashStmt, NodesOf, ClashDb, Ids, Pairs, Times, IntContext, IntTable, ContextOk, JoinsOn;
    UnnamedOn(c, 1, 0);
    NamedOn(c, 2, 0);
  }

  lemma ClashOrder(c: Context, order: seq<nat>)
    requires c == ContextOf(ClashStmt(), ClashDb()) && Greedy(c, order)
    requires Unique(order) && (forall i: nat :: i in order <==> i < 3) && order != [] && order[0] == 0
    ensures order == [0, 2, 1]
  {
    ClashNodes();
    ClashTables();
    IdsTable([7, 8]);
    PairsTable([(1, 9)]);
    assert Refs(On(Some("a"), "id", "c")) == {"a", "c"};
    hide ClashStmt, ClashDb, NodesOf, Ids, Pairs, IntTable, Greedy, Refs;
    SmallerFirst(c, order);
  }

  /** The statement passes validation, only a having `x` where it is written, and has an answer. */
  lemma ClashValid()
    ensures DbOk(ClashDb()) && ValidSelect(ClashStmt(), ClashDb())
    ensures Plannable(ContextOf(ClashStmt(), ClashDb())) && Meaning(TextPlan(ClashStmt()), ClashDb()).Ok?
  {
    var c := ContextOf(ClashStmt(), ClashDb());
    assert ClashStmt().isStar && ClashStmt().where.None?;
    hide Meaning, ClashDb, ClashStmt, NodesOf, DbOk, TextPlan, ContextOk, IntContext, ValidSelect, AllOn, Plannable, Reached;
    ClashContext(c);
    ClashSides(c);
    AllOnValid(ClashStmt(), ClashDb(), [Side(None, "", 0), Side(None, "x", 0), Side(Some("a"), "id", 0)]);
  }

  lemma ClashReached(c: Context)
    requires c == ContextOf(ClashStmt(), ClashDb())
    ensures ContextOk(c) && Reached(c, [0, 2]) && Satisfiable(c, [0, 2])
  {
    ClashContext(c);
    ClashSides(c);
    PairsTable([(1, 7)]);
    PairsTable([(1, 9)]);
    hide ClashStmt, ClashDb, NodesOf, Ids, Pairs, IntTable, IntContext, ContextOk, JoinsOn, Reached, Satisfiable, IndexOf, Times;
    assert JoinsOn(c, 2, Some("a"), "id", 0);
    PairReached(c, 2, "a", "id");
    PairMatch(c, 2, Some("a"), "id");
  }

  lemma ClashLost(c: Context)
    requires c == ContextOf(ClashStmt(), ClashDb())
    ensures ContextOk(c) && |c.nodes| == 3 && TableOf(c, 1).rows != []
    ensures LooseEquality(c, 1, "x", "id") && !Readable(c, [0, 2] + [1], "x")
  {
    ClashNodes();
    ClashContext(c);
    IntOk(c);
    PairsTable([(1, 7)]);
    IdsTable([7, 8]);
    PairsTable([(1, 9)]);
    hide ClashDb, ClashStmt, NodesOf, Ids, Pairs, IntContext, IntTable, ContextOk, Times;
    TimesPositive(Ids([7, 8]).columns, "x");
    assert 0 in [0, 2] + [1] && 2 in [0, 2] + [1];
  }

  /** On this statement too every plan in a greedy order fails: c, joined first because it is smaller, makes `x` ambiguous. */
  lemma AmbiguousReferenceFails(joins: PhysicalPlan, order: seq<nat>)
    requires JoinPlan(ContextOf(ClashStmt(), ClashDb()), joins, order) && Greedy(ContextOf(ClashStmt(), ClashDb()), order)
    requires Unique(order) && forall i: nat :: i in order <==> i < 3
    ensures DbOk(ClashDb()) && ValidSelect(ClashStmt(), ClashDb()) && Meaning(TextPlan(ClashStmt()), ClashDb()).Ok?
    ensures Exec(Dressed(TextPlan(ClashStmt()), joins), ClashDb()).Err?
  {
    hide Greedy, Unique, Meaning, ClashDb, ClashStmt, NodesOf, DbOk, Exec, TextPlan, JoinPlan, ContextOk, ValidSelect,
         Plannable, Reached, Satisfiable, Readable, LooseEquality, Dressed;
    var c := ContextOf(ClashStmt(), ClashDb());
    FirstIsZero(c, joins, order);
    ClashOrder(c, order);
    ClashValid();
    ClashReached(c);
    ClashLost(c);
    assert [0, 2] + [1] + [] == order;
    TwoUnique(0, 2);
    PlanFails(c, joins, [0, 2], 1, [], "x", "id");
    DressedFails(ClashStmt(), ClashDb(), joins);
  }

  lemma TwoUnique(i: nat, j: nat)
    requires i != j
    ensures Unique([i, j])
  {
  }

  /** Planning it succeeds, without the fallback, and the plan fails. */
  method PlanClash() returns (r: Result<PhysicalPlan>)
    ensures DbOk(ClashDb()) && ValidSelect(ClashStmt(), ClashDb())
    ensures r.Ok? && Exec(r.value, ClashDb()).Err? && Meaning(TextPlan(ClashStmt()), ClashDb()).Ok?
  {
    hide Greedy, Unique, Meaning, Exec, JoinPlan, ClashDb, NodesOf, DbOk, ValidSelect, TextPlan, Plannable, Reached, Near;
    ClashValid();
    assert |ClashStmt().joins| == 2;
    hide ClashStmt;
    ghost var b;
    r, b := PlanSelect(ClashStmt(), ClashDb());
    AmbiguousReferenceFails(b.joins, b.order);
  }

  // ---------- read from the wrong table ----------

  /** SELECT * FROM a JOIN p ON a.id = p.id JOIN c ON x = c.id JOIN q ON a.id = q.id, where p and q both have a column `x`. */
  function StrayStmt(p: string, q: string): SelectStmt {
    SelectStmt(true, [], TableRef("a", None),
               [JoinClause(TableRef(p, None), On(Some("a"), "id", p)), JoinClause(TableRef("c", None), On(None, "x", "c")),
                JoinClause(TableRef(q, None), On(Some("a"), "id", q))], None)
  }

  function StrayDb(): Db {
    map["a" := Ids([1]), "b" := Pairs([(1, 7), (2, 8), (3, 8)]), "c" := Ids([7, 9]), "d" := Pairs([(1, 0)])]
  }

  /** b and d in either order. */
  predicate Both(p: string, q: string) {
    (p == "b" && q == "d") || (p == "d" && q == "b")
  }

  function PairsOf(p: string): seq<(int, int)> {
    if p == "b" then [(1, 7), (2, 8), (3, 8)] else [(1, 0)]
  }

  lemma StrayNodes(p: string, q: string)
    ensures var n := NodesOf(StrayStmt(p, q));
            && |n| == 4 && n[0] == TableNode("a", "a", None) && n[1] == TableNode(p, p, Some(On(Some("a"), "id", p)))
            && n[2] == TableNode("c", "c", Some(On(None, "x", "c"))) && n[3] == TableNode(q, q, Some(On(Some("a"), "id", q)))
  {
  }

  lemma StrayTables()
    ensures var db := StrayDb();
            && "a" in db && "b" in db && "c" in db && "d" in db && (forall n <- db :: IntTable(db[n]))
            && db["a"] == Ids([1]) && db["b"] == Pairs(PairsOf("b")) && db["c"] == Ids([7, 9]) && db["d"] == Pairs(PairsOf("d"))
  {
    IdsTable([1]);
    PairsTable(PairsOf("b"));
    IdsTable([7, 9]);
    PairsTable(PairsOf("d"));
    hide Ids, Pairs, IntTable;
  }

  lemma FourContext(c: Context)
    requires |c.nodes| == 4 && (forall n <- c.db :: IntTable(c.db[n])) && forall i :: 0 <= i < 4 ==> c.nodes[i].table in c.db
    requires c.nodes[0].alias != c.nodes[1].alias && c.nodes[0].alias != c.nodes[2].alias && c.nodes[0].alias != c.nodes[3].alias
    requires c.nodes[1].alias != c.nodes[2].alias && c.nodes[1].alias != c.nodes[3].alias && c.nodes[2].alias != c.nodes[3].alias
    requires c.nodes[0].cond.None? && c.nodes[1].cond.Some? && c.nodes[2].cond.Some? && c.nodes[3].cond.Some?
    ensures IntContext(c)
  {
    hide IntTable, DbOk;
    IntDb(c.db);
  }

  lemma StrayContext(c: Context, p: string, q: string)
    requires Both(p, q) && c == ContextOf(StrayStmt(p, q), StrayDb())
    ensures IntContext(c) && ContextOk(c) && |c.nodes| == 4 && c.nodes[0].alias == "a"
    ensures c.nodes[1].cond == Some(On(Some("a"), "id", c.nodes[1].alias)) && c.nodes[2].cond == Some(On(None, "x", c.nodes[2].alias))
    ensures c.nodes[3].cond == Some(On(Some("a"), "id", c.nodes[3].alias))
    ensures TableOf(c, 0) == Ids([1]) && TableOf(c, 1) == Pairs(PairsOf(p))
    ensures TableOf(c, 2) == Ids([7, 9]) && TableOf(c, 3) == Pairs(PairsOf(q))
  {
    hide StrayStmt, StrayDb, NodesOf, Ids, Pairs, PairsOf, IntTable, On;
    StrayNodes(p, q);
    StrayTables();
    FourContext(c);
  }

  /** How the four tables are joined. */
  ghost predicate StrayOn(c: Context) {
    && IntContext(c) && ContextOk(c) && |c.nodes| == 4
    && JoinsOn(c, 1, Some("a"), "id", 0) && JoinsOn(c, 2, None, "x", 1) && JoinsOn(c, 3, Some("a"), "id", 0)
  }

  lemma StrayJoins(c: Context)
    requires IntContext(c) && ContextOk(c) && |c.nodes| == 4 && c.nodes[0].alias == "a"
    requires c.nodes[1].cond == Some(On(Some("a"), "id", c.nodes[1].alias)) && c.nodes[2].cond == Some(On(None, "x", c.nodes[2].alias))
    requires c.nodes[3].cond == Some(On(Some("a"), "id", c.nodes[3].alias))
    requires forall j: nat :: j < 4 ==> HasColumn(TableOf(c, j).columns, "id")
    requires !HasColumn(TableOf(c, 0).columns, "x") && !HasColumn(TableOf(c, 2).columns, "x")
    requires HasColumn(TableOf(c, 1).columns, "x") && Times(TableOf(c, 1).columns, "x") == 1
    ensures StrayOn(c)
  {
    hide IntContext, ContextOk, HasColumn, Times, JoinsOn;
    NamedOn(c, 1, 0);
    UnnamedOn(c, 2, 1);
    NamedOn(c, 3, 0);
  }

  lemma StraySides(c: Context, p: string, q: string)
    requires Both(p, q) && c == ContextOf(StrayStmt(p, q), StrayDb())
    ensures StrayOn(c)
  {
    hide *;
    StrayContext(c, p, q);
    IdsColumns(TableOf(c, 0), [1]);
    PairsColumns(TableOf(c, 1), PairsOf(p));
    IdsColumns(TableOf(c, 2), [7, 9]);
    PairsColumns(TableOf(c, 3), PairsOf(q));
    StrayJoins(c);
  }

  lemma StrayAll(c: Context)
    requires StrayOn(c)
    ensures AllOn(c, [Side(None, "", 0), Side(Some("a"), "id", 0), Side(None, "x", 1), Side(Some("a"), "id", 0)])
  {
    hide IntContext, ContextOk, JoinsOn;
  }

  /** Both statements pass validation and have an answer: at c only the table written before it has `x`. */
  lemma StrayValid(p: string, q: string)
    requires Both(p, q)
    ensures DbOk(StrayDb()) && ValidSelect(StrayStmt(p, q), StrayDb()) && Meaning(TextPlan(StrayStmt(p, q)), StrayDb()).Ok?
    ensures var c := ContextOf(StrayStmt(p, q), StrayDb());
            && ContextOk(c) && Plannable(c) && |c.nodes| == 4 && Reached(c, TextOrder(4))
            && (Meaning(TextPlan(StrayStmt(p, q)), StrayDb()).value != [] <==> Satisfiable(c, TextOrder(4)))
  {
    var c := ContextOf(StrayStmt(p, q), StrayDb());
    StrayForm(p, q);
    StraySides(c, p, q);
    StrayAll(c);
    hide Meaning, StrayDb, StrayStmt, NodesOf, DbOk, TextPlan, ContextOk, IntContext, ValidSelect, AllOn, JoinsOn, Plannable, Reached,
         Satisfiable, Both, PairsOf, TextOrder;
    AllOnValid(StrayStmt(p, q), StrayDb(), [Side(None, "", 0), Side(Some("a"), "id", 0), Side(None, "x", 1), Side(Some("a"), "id", 0)]);
    TextAnswers(StrayStmt(p, q), StrayDb());
  }

  lemma StrayForm(p: string, q: string)
    ensures StrayStmt(p, q).isStar && StrayStmt(p, q).where.None? && |StrayStmt(p, q).joins| == 3 && TextPlan(StrayStmt(p, q)).LProject?
  {
  }

  lemma FourSatisfies(c: Context, x: Choice)
    requires ContextOk(c) && |c.nodes| == 4 && x.Keys == {0, 1, 2, 3} && forall j: nat :: j < 4 ==> x[j] < |TableOf(c, j).rows| && Meets(c, j, x)
    ensures Satisfiable(c, TextOrder(4))
  {
    hide ContextOk, Meets, Unique;
    assert Satisfies(c, TextOrder(4), x);
  }

  /** The chosen row of table `j` holds `v` in this column. */
  ghost predicate ReadsAt(c: Context, j: nat, column: string, x: Choice, v: int)
    requires ContextOk(c)
  {
    && j < |c.nodes| && j in x && x[j] < |TableOf(c, j).rows|
    && HasColumn(TableOf(c, j).columns, column) && ValueAt(c, j, column, x) == IntV(v)
  }

  /** If the values agree, the combination satisfies the conditions. */
  lemma StrayMatch(c: Context, x: Choice, a: int, k: int)
    requires StrayOn(c) && x.Keys == {0, 1, 2, 3} && ReadsAt(c, 0, "id", x, a) && ReadsAt(c, 1, "id", x, a) && ReadsAt(c, 1, "x", x, k)
    requires ReadsAt(c, 2, "id", x, k) && ReadsAt(c, 3, "id", x, a)
    ensures Satisfiable(c, TextOrder(4))
  {
    hide IntContext, ContextOk, JoinsOn, Meets, ValueAt, Satisfiable, HasColumn;
    OnMeets(c, 1, Some("a"), "id", 0, x);
    OnMeets(c, 2, None, "x", 1, x);
    OnMeets(c, 3, Some("a"), "id", 0, x);
    FirstMeets(c, x);
    FourSatisfies(c, x);
  }

  lemma IdsValue(c: Context, j: nat, x: Choice, values: seq<int>, k: nat)
    requires ContextOk(c) && j < |c.nodes| && TableOf(c, j) == Ids(values) && j in x && x[j] == k < |values|
    ensures ReadsAt(c, j, "id", x, values[k])
  {
    IdsTable(values);
    hide ContextOk, Ids;
    ValueIs(c, j, "id", x);
  }

  lemma PairsValue(c: Context, j: nat, x: Choice, values: seq<(int, int)>, k: nat)
    requires ContextOk(c) && j < |c.nodes| && TableOf(c, j) == Pairs(values) && j in x && x[j] == k < |values|
    ensures ReadsAt(c, j, "id", x, values[k].0) && ReadsAt(c, j, "x", x, values[k].1)
  {
    PairsTable(values);
    hide ContextOk, Pairs;
    ValueIs(c, j, "id", x);
    ValueIs(c, j, "x", x);
  }

  lemma HeadsMatch(c: Context, ps: seq<(int, int)>, ks: seq<int>, qs: seq<(int, int)>)
    requires StrayOn(c) && |ps| > 0 && |ks| > 0 && |qs| > 0 && ps[0].0 == 1 && ps[0].1 == ks[0] && qs[0].0 == 1
    requires TableOf(c, 0) == Ids([1]) && TableOf(c, 1) == Pairs(ps) && TableOf(c, 2) == Ids(ks) && TableOf(c, 3) == Pairs(qs)
    ensures Satisfiable(c, TextOrder(4))
  {
    hide Ids, Pairs, ReadsAt, Satisfiable, TextOrder, IntContext, ContextOk, JoinsOn;
    var x: Choice := map[0 := 0, 1 := 0, 2 := 0, 3 := 0];
    IdsValue(c, 0, x, [1], 0);
    PairsValue(c, 1, x, ps, 0);
    IdsValue(c, 2, x, ks, 0);
    PairsValue(c, 3, x, qs, 0);
    StrayMatch(c, x, 1, ks[0]);
  }

  /** Written with b first, they do. */
  lemma StrayMatches(c: Context)
    requires c == ContextOf(StrayStmt("b", "d"), StrayDb())
    ensures ContextOk(c) && Satisfiable(c, TextOrder(4))
  {
    assert Both("b", "d") && PairsOf("b")[0] == (1, 7) && PairsOf("d")[0] == (1, 0) && |PairsOf("b")| == 3 && |PairsOf("d")| == 1;
    hide *;
    StrayContext(c, "b", "d");
    StraySides(c, "b", "d");
    HeadsMatch(c, PairsOf("b"), [7, 9], PairsOf("d"));
  }

  /** If no `x` of the second table is an id of the third, no combination satisfies the conditions. */
  lemma StrayMismatch(c: Context)
    requires StrayOn(c) && HasColumn(TableOf(c, 1).columns, "x") && HasColumn(TableOf(c, 2).columns, "id")
    requires forall x: Choice :: Picks(c, [1, 2], x) ==> ValueAt(c, 1, "x", x) != ValueAt(c, 2, "id", x)
    ensures !Satisfiable(c, TextOrder(4))
  {
    hide IntContext, ContextOk, JoinsOn, Meets, ValueAt, HasColumn, Unique;
    forall x
      ensures !Satisfies(c, TextOrder(4), x)
    {
      if Satisfies(c, TextOrder(4), x) {
        assert 1 in TextOrder(4) && 2 in TextOrder(4);
        assert Picks(c, [1, 2], x);
        OnMeets(c, 2, None, "x", 1, x);
      }
    }
  }

  /** Written with d first, that is so. */
  lemma StrayNever(c: Context)
    requires c == ContextOf(StrayStmt("d", "b"), StrayDb())
    ensures ContextOk(c) && !Satisfiable(c, TextOrder(4))
  {
    StrayContext(c, "d", "b");
    StraySides(c, "d", "b");
    forall x: Choice | Picks(c, [1, 2], x)
      ensures HasColumn(TableOf(c, 1).columns, "x") && HasColumn(TableOf(c, 2).columns, "id")
      ensures ValueAt(c, 1, "x", x) != ValueAt(c, 2, "id", x)
    {
      StrayDiffers(c, x);
    }
    hide *;
    PairsColumns(TableOf(c, 1), PairsOf("d"));
    IdsColumns(TableOf(c, 2), [7, 9]);
    StrayMismatch(c);
  }

  lemma StrayDiffers(c: Context, x: Choice)
    requires ContextOk(c) && |c.nodes| == 4 && Picks(c, [1, 2], x)
    requires TableOf(c, 1) == Pairs(PairsOf("d")) && TableOf(c, 2) == Ids([7, 9])
    ensures HasColumn(TableOf(c, 1).columns, "x") && HasColumn(TableOf(c, 2).columns, "id")
    ensures ValueAt(c, 1, "x", x) != ValueAt(c, 2, "id", x)
  {
    assert PairsOf("d") == [(1, 0)] && 1 in [1, 2] && 2 in [1, 2];
    hide Ids, Pairs, PairsOf, ContextOk, HasColumn, ValueAt;
    PairsColumns(TableOf(c, 1), PairsOf("d"));
    IdsColumns(TableOf(c, 2), [7, 9]);
    PairsValue(c, 1, x, PairsOf("d"), x[1]);
    IdsValue(c, 2, x, [7, 9], x[2]);
  }

  lemma OnRefs(table: Option<string>, column: string, next: string)
    ensures Refs(On(table, column, next)) == {next} + if table.Some? then {table.value} else {}
  {
  }

  lemma StrayCounts()
    ensures StrayDb().Keys == {"a", "b", "c", "d"}
    ensures StrayDb()["d"].rowCount < StrayDb()["c"].rowCount < StrayDb()["b"].rowCount
  {
    StrayTables();
    IdsTable([7, 9]);
    PairsTable(PairsOf("b"));
    PairsTable(PairsOf("d"));
    assert |PairsOf("b")| == 3 && |PairsOf("d")| == 1;
    hide Ids, Pairs, PairsOf, IntTable;
  }

  lemma StraySizes(c: Context)
    requires c == ContextOf(StrayStmt("b", "d"), StrayDb())
    ensures |c.nodes| == 4 && forall i :: 0 <= i < 4 ==> c.nodes[i].table in c.db
    ensures c.nodes[2].cond.Some? && Refs(c.nodes[2].cond.value) <= {c.nodes[2].alias}
    ensures c.nodes[3].cond.Some? && Refs(c.nodes[3].cond.value) <= {c.nodes[0].alias, c.nodes[3].alias}
    ensures c.db[c.nodes[3].table].rowCount < c.db[c.nodes[2].table].rowCount < c.db[c.nodes[1].table].rowCount
  {
    assert c.nodes == NodesOf(StrayStmt("b", "d")) && c.db == StrayDb();
    hide *;
    StrayNodes("b", "d");
    StrayCounts();
    OnRefs(None, "x", "c");
    OnRefs(Some("a"), "id", "d");
  }

  /** After a the planner attaches d, the smallest, then c, which seems to name no table but itself, then b. */
  lemma StrayOrder(c: Context, order: seq<nat>)
    requires c == ContextOf(StrayStmt("b", "d"), StrayDb()) && Greedy(c, order)
    requires Unique(order) && (forall i: nat :: i in order <==> i < 4) && order != [] && order[0] == 0
    ensures order == [0, 3, 2, 1]
  {
    hide *;
    StraySizes(c);
    SmallestFirst(c, order);
  }

  lemma SmallestFirst(c: Context, order: seq<nat>)
    requires |c.nodes| == 4 && Greedy(c, order) && (forall i :: 0 <= i < 4 ==> c.nodes[i].table in c.db)
    requires Unique(order) && (forall i: nat :: i in order <==> i < 4) && order != [] && order[0] == 0
    requires c.nodes[2].cond.Some? && Refs(c.nodes[2].cond.value) <= {c.nodes[2].alias}
    requires c.nodes[3].cond.Some? && Refs(c.nodes[3].cond.value) <= {c.nodes[0].alias, c.nodes[3].alias}
    requires c.db[c.nodes[3].table].rowCount < c.db[c.nodes[2].table].rowCount < c.db[c.nodes[1].table].rowCount
    ensures order == [0, 3, 2, 1]
  {
    hide Refs;
    Inserts.HowMany(order, 4);
    assert order[..1] == [0];
    var joined := AliasesOf(c.nodes, [0]);
    assert joined == {c.nodes[0].alias};
    assert Fewest(c.nodes, ConsumedBy(4, [0]), joined, c.db, 4, order[1]);
    assert Candidate(c.nodes, ConsumedBy(4, [0]), joined, 3);
    assert order[1] == 3;
    assert order[..2] == [0, 3];
    var joined2 := AliasesOf(c.nodes, [0, 3]);
    assert Fewest(c.nodes, ConsumedBy(4, [0, 3]), joined2, c.db, 4, order[2]);
    assert Candidate(c.nodes, ConsumedBy(4, [0, 3]), joined2, 2);
    assert order[2] == 2;
    assert order[3] in order;
  }

  lemma {:induction false} SomeRows(rows: seq<Row>)
    ensures rows != [] <==> Bag(rows) != multiset{}
  {
  }

  lemma NotSame(a: Result<seq<Row>>, b: Result<seq<Row>>, c: Result<seq<Row>>)
    requires SameAnswer(true, a, b) && b.Ok? && b.value == [] && c.Ok? && c.value != []
    ensures a.Ok? && !SameAnswer(true, a, c)
  {
    hide Bag;
    SomeRows(b.value);
    SomeRows(c.value);
  }

  lemma StrayReordered()
    ensures |StrayStmt("b", "d").joins| == 3 && Orders(StrayStmt("b", "d"), [0, 3, 2, 1])
    ensures Reorder(StrayStmt("b", "d"), [0, 3, 2, 1]) == StrayStmt("d", "b")
  {
    var s, r := StrayStmt("b", "d"), Reorder(StrayStmt("b", "d"), [0, 3, 2, 1]);
    assert r.joins == StrayStmt("d", "b").joins;
  }

  lemma BothWays()
    ensures Both("b", "d") && Both("d", "b")
  {
  }

  lemma StrayAnswers(joins: PhysicalPlan)
    requires JoinPlan(ContextOf(StrayStmt("b", "d"), StrayDb()), joins, [0, 3, 2, 1])
    ensures DbOk(StrayDb()) && ValidSelect(StrayStmt("b", "d"), StrayDb()) && Meaning(TextPlan(StrayStmt("b", "d")), StrayDb()).Ok?
    ensures var plan := Exec(Dressed(TextPlan(StrayStmt("b", "d")), joins), StrayDb());
            plan.Ok? && !SameAnswer(true, plan, Meaning(TextPlan(StrayStmt("b", "d")), StrayDb()))
  {
    hide *;
    var c, stmt := ContextOf(StrayStmt("b", "d"), StrayDb()), StrayStmt("b", "d");
    BothWays();
    StrayForm("b", "d");
    StrayValid("b", "d");
    StrayValid("d", "b");
    StrayMatches(c);
    StrayNever(ContextOf(StrayStmt("d", "b"), StrayDb()));
    StrayReordered();
    PlanMeansReordered(stmt, StrayDb(), joins, [0, 3, 2, 1]);
    NotSame(Exec(Dressed(TextPlan(stmt), joins), StrayDb()), Meaning(TextPlan(StrayStmt("d", "b")), StrayDb()),
            Meaning(TextPlan(stmt), StrayDb()));
  }

  /** On this statement every plan in a greedy order succeeds with a different answer: d, joined before c, takes the place of b in
      c's condition. */
  lemma StrayReferenceMisread(joins: PhysicalPlan, order: seq<nat>)
    requires JoinPlan(ContextOf(StrayStmt("b", "d"), StrayDb()), joins, order) && Greedy(ContextOf(StrayStmt("b", "d"), StrayDb()), order)
    requires Unique(order) && forall i: nat :: i in order <==> i < 4
    ensures DbOk(StrayDb()) && ValidSelect(StrayStmt("b", "d"), StrayDb()) && Meaning(TextPlan(StrayStmt("b", "d")), StrayDb()).Ok?
    ensures var plan := Exec(Dressed(TextPlan(StrayStmt("b", "d")), joins), StrayDb());
            plan.Ok? && !SameAnswer(true, plan, Meaning(TextPlan(StrayStmt("b", "d")), StrayDb()))
  {
    hide *;
    var c := ContextOf(StrayStmt("b", "d"), StrayDb());
    StrayMatches(c);
    FirstIsZero(c, joins, order);
    StrayOrder(c, order);
    StrayAnswers(joins);
  }

  /** Planning it succeeds, without the fallback, and the plan answers another question. */
  method PlanStray() returns (r: Result<PhysicalPlan>)
    ensures DbOk(StrayDb()) && ValidSelect(StrayStmt("b", "d"), StrayDb()) && r.Ok?
    ensures Exec(r.value, StrayDb()).Ok? && !SameAnswer(true, Exec(r.value, StrayDb()), Meaning(TextPlan(StrayStmt("b", "d")), StrayDb()))
  {
    StrayForm("b", "d");
    assert Both("b", "d");
    hide Greedy, Unique, Meaning, Exec, JoinPlan, StrayDb, NodesOf, DbOk, ValidSelect, TextPlan, Plannable, Reached, Near, Both, SameAnswer,
         Satisfiable;
    StrayValid("b", "d");
    var stmt := StrayStmt("b", "d");
    hide StrayStmt;
    ghost var b;
    r, b := PlanSelect(stmt, StrayDb());
    StrayReferenceMisread(b.joins, b.order);
  }
}
