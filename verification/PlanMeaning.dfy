/** The physical plan answers the query the text asks. */
module PlanMeaning {
  import opened Pages
  import opened Query
  import opened Joins
  import opened Plans
  import opened References
  import opened JoinOrder
  import opened JoinSteps
  import opened Bags
  import opened Planner

  // ---------- the planner ----------

  function TreeOf(project: LogicalNode): LogicalNode
    requires project.LProject?
  {
    if project.pinput.LFilter? then project.pinput.input else project.pinput
  }

  /** A join plan under the filter and the select list of the logical plan. */
  function Dressed(project: LogicalNode, joins: PhysicalPlan): PhysicalPlan
    requires project.LProject?
  {
    Project(if project.pinput.LFilter? then Filter(joins, project.pinput.where) else joins, project.isStar, project.items)
  }


  datatype Built = Built(joins: PhysicalPlan, order: seq<nat>, fellBack: bool)

  /** A left-deep tree of joins becomes one join per table, in the greedy order; any other shape is refused. */
  method BuildPhysicalPlan(logical: LogicalNode, db: Db) returns (r: Result<PhysicalPlan>, ghost b: Built)
    ensures r.Err? ==> !Shaped(logical) || !Present(FlattenJoins(TreeOf(logical)).value, db)
    ensures r.Ok? ==>
              && Shaped(logical) && r.value == Dressed(logical, b.joins)
              && var c := Context(FlattenJoins(TreeOf(logical)).value, db);
                 && JoinPlan(c, b.joins, b.order) && Unique(b.order) && (forall i: nat :: i in b.order <==> i < |c.nodes|)
                 && (Scoped(c) ==> !b.fellBack && Connected(c, b.order) && Greedy(c, b.order))
  {
    b := Built(Scan("", ""), [], false);
    if !logical.LProject? {
      return Err, b;
    }
    var root := logical.pinput;
    var where: Option<Expr> := None;
    if root.LFilter? {
      where := Some(root.where);
      root := root.input;
    }
    var nodes := FlattenJoins(root);
    if nodes.Err? {
      return Err, b;
    }
    FlattenShape(root);
    var joins, order, fellBack := JoinAll(nodes.value, db);
    if joins.Err? {
      return Err, b;
    }
    b := Built(joins.value, order, fellBack);
    var plan := joins.value;
    if where.Some? {
      plan := Filter(plan, where.value);
    }
    plan := Project(plan, logical.isStar, logical.items);
    return Ok(plan), b;
  }

  /** A select list over an optional filter over a left-deep tree of joins. */
  ghost predicate Shaped(logical: LogicalNode) {
    logical.LProject? && FlattenJoins(TreeOf(logical)).Ok?
  }

  // ---------- the textual plan as a join plan ----------

  /** The textual tree, every join a nested loop. */
  function NestedTree(nodes: seq<TableNode>): PhysicalPlan
    requires nodes != [] && forall i :: 0 < i < |nodes| ==> nodes[i].cond.Some?
  {
    if |nodes| == 1 then ScanOf(nodes[0])
    else
      var last := nodes[|nodes| - 1];
      NestedLoop(NestedTree(nodes[..|nodes| - 1]), ScanOf(last), last.cond.value)
  }

  lemma {:induction false} MeaningIsNested(stmt: SelectStmt, n: nat, db: Db)
    requires DbOk(db) && n <= |stmt.joins|
    ensures Meaning(TextTree(stmt.from, stmt.joins[..n]), db) == Exec(NestedTree(NodesOf(stmt)[..n + 1]), db)
  {
    hide NestedRows, FilterRows, ProjectRows, HashRows, DbOk, ScanRows;
    var nodes := NodesOf(stmt)[..n + 1];
    if n > 0 {
      MeaningIsNested(stmt, n - 1, db);
      var before, last := NestedTree(NodesOf(stmt)[..n]), nodes[n];
      assert nodes[..n] == NodesOf(stmt)[..n];
      assert NestedTree(nodes) == NestedLoop(before, ScanOf(last), last.cond.value);
      assert stmt.joins[..n][..n - 1] == stmt.joins[..n - 1];
      assert TextTree(stmt.from, stmt.joins[..n])
          == LJoin(TextTree(stmt.from, stmt.joins[..n - 1]), LScan(last.table, last.alias), last.cond.value);
    }
  }

  lemma {:induction false} NestedIsJoinPlan(c: Context, n: nat)
    requires ContextOk(c) && 0 < n <= |c.nodes|
    ensures JoinPlan(c, NestedTree(c.nodes[..n]), TextOrder(n))
  {
    var nodes, order := c.nodes[..n], TextOrder(n);
    assert order[..n - 1] == TextOrder(n - 1);
    assert nodes[..n - 1] == c.nodes[..n - 1];
    if n > 1 {
      NestedIsJoinPlan(c, n - 1);
    }
  }

  // ---------- the answer is the same ----------

  /** Both fail, or both succeed: a select list gives the same rows with the same multiplicities; `*` gives the same
      rows up to the order of their tables, with the same multiplicities. */
  ghost predicate SameAnswer(isStar: bool, a: Result<seq<Row>>, b: Result<seq<Row>>) {
    if isStar then SameBag(a, b) else SameRows(a, b)
  }

  /** What the filter and the select list make of the joined rows. */
  ghost function Finish(rows: seq<Row>, where: Option<Expr>, isStar: bool, items: seq<SelectItem>): Result<seq<Row>> {
    var f := if where.None? then Ok(rows) else FilterRows(rows, where.value);
    if f.Err? || isStar then f else ProjectRows(f.value, items)
  }

  lemma FinishSame(rows: seq<Row>, others: seq<Row>, where: Option<Expr>, isStar: bool, items: seq<SelectItem>)
    requires Bag(rows) == Bag(others)
    ensures SameAnswer(isStar, Finish(rows, where, isStar, items), Finish(others, where, isStar, items))
  {
    hide Bag, FilterRows, ProjectRows;
    if where.Some? {
      FilterSame(rows, others, where.value);
    }
    var f, g := if where.None? then Ok(rows) else FilterRows(rows, where.value), if where.None? then Ok(others) else FilterRows(others, where.value);
    assert SameBag(f, g);
    if f.Ok? && !isStar {
      ProjectSame(f.value, g.value, items);
    }
  }

  ghost function ContextOf(stmt: SelectStmt, db: Db): Context {
    Context(NodesOf(stmt), db)
  }

  lemma FlattenText(stmt: SelectStmt)
    ensures Shaped(TextPlan(stmt)) && FlattenJoins(TreeOf(TextPlan(stmt))) == Ok(NodesOf(stmt))
  {
    FlattenUndoes(stmt, |stmt.joins|);
    assert stmt.joins[..|stmt.joins|] == stmt.joins && NodesOf(stmt)[..|stmt.joins| + 1] == NodesOf(stmt);
    assert TreeOf(TextPlan(stmt)) == TextTree(stmt.from, stmt.joins);
  }

  /** The joins alone: the same bag of rows as the textual tree. */
  lemma JoinsKeepMeaning(stmt: SelectStmt, db: Db, joins: PhysicalPlan, order: seq<nat>)
    requires var c := ContextOf(stmt, db); Plannable(c) && Reached(c, TextOrder(|c.nodes|))
    requires var c := ContextOf(stmt, db); JoinPlan(c, joins, order) && Unique(order) && Reached(c, order)
    requires forall i: nat :: i in order <==> i <= |stmt.joins|
    ensures DbOk(db) && Exec(joins, db).Ok? && Meaning(TextTree(stmt.from, stmt.joins), db).Ok?
    ensures Bag(Exec(joins, db).value) == Bag(Meaning(TextTree(stmt.from, stmt.joins), db).value)
  {
    hide JoinPlan, Unique, Reached, Plannable, Bag, NestedTree, TextTree, ContextOk, Typed, Exec, Meaning, DbOk;
    var c, n := ContextOf(stmt, db), |stmt.joins|;
    TypedThere(c);
    assert NodesOf(stmt)[..n + 1] == NodesOf(stmt) && stmt.joins[..n] == stmt.joins;
    NestedIsJoinPlan(c, n + 1);
    MeaningIsNested(stmt, n, db);
    JoinOrderDoesNotMatter(c, joins, order, NestedTree(NodesOf(stmt)), TextOrder(n + 1));
  }

  /** Any join plan over the statement's tables, in any order that reaches what its conditions refer to, answers the
      textual query. */
  lemma PlanKeepsMeaning(stmt: SelectStmt, db: Db, joins: PhysicalPlan, order: seq<nat>)
    requires var c := ContextOf(stmt, db); Plannable(c) && Reached(c, TextOrder(|c.nodes|))
    requires var c := ContextOf(stmt, db); JoinPlan(c, joins, order) && Unique(order) && Reached(c, order)
    requires forall i: nat :: i in order <==> i <= |stmt.joins|
    ensures SameAnswer(stmt.isStar, Exec(Dressed(TextPlan(stmt), joins), db), Meaning(TextPlan(stmt), db))
  {
    hide JoinPlan, Unique, Reached, Plannable, Bag, SameAnswer, FilterRows, ProjectRows, TextTree, TextPlan, Exec, Meaning, DbOk, Finish;
    JoinsKeepMeaning(stmt, db, joins, order);
    var rows, text := Exec(joins, db).value, Meaning(TextTree(stmt.from, stmt.joins), db).value;
    FinishSame(rows, text, stmt.where, stmt.isStar, stmt.items);
    DressedIs(stmt, db, joins);
    TextIs(stmt, db);
  }

  // ---------- what a plan in another order means ----------

  /** The first table, and then each of the joined ones. */
  ghost predicate Orders(stmt: SelectStmt, order: seq<nat>) {
    |order| == |stmt.joins| + 1 && forall k :: 0 < k < |order| ==> 0 < order[k] <= |stmt.joins|
  }

  /** The statement with its tables, and the conditions that introduce them, written in another order. */
  function Reorder(stmt: SelectStmt, order: seq<nat>): SelectStmt
    requires Orders(stmt, order)
  {
    stmt.(joins := seq(|stmt.joins|, k requires 0 <= k < |stmt.joins| => stmt.joins[order[k + 1] - 1]))
  }

  lemma {:induction false} PlanReordered(stmt: SelectStmt, db: Db, plan: PhysicalPlan, order: seq<nat>, n: nat)
    requires Orders(stmt, order)
    requires 0 < n <= |order| && JoinPlan(ContextOf(stmt, db), plan, order[..n])
    ensures JoinPlan(ContextOf(Reorder(stmt, order), db), plan, TextOrder(n))
    decreases n
  {
    var c, c', text := ContextOf(stmt, db), ContextOf(Reorder(stmt, order), db), TextOrder(n);
    var before, i := order[..n][..n - 1], order[n - 1];
    assert before == order[..n - 1] && text[..n - 1] == TextOrder(n - 1);
    assert n > 1 ==> c'.nodes[n - 1] == c.nodes[i];
    if n > 1 {
      match plan
      case NestedLoop(left, _, _) => PlanReordered(stmt, db, left, order, n - 1);
      case Hash(build, probe, _, _) =>
        if JoinPlan(c, build, before) {
          PlanReordered(stmt, db, build, order, n - 1);
        }
        if JoinPlan(c, probe, before) {
          PlanReordered(stmt, db, probe, order, n - 1);
        }
    }
  }

  lemma DressedReorder(stmt: SelectStmt, joins: PhysicalPlan, order: seq<nat>)
    requires Orders(stmt, order)
    ensures Dressed(TextPlan(stmt), joins) == Dressed(TextPlan(Reorder(stmt, order)), joins)
  {
  }

  /** A plan computes what the statement would mean with its tables written in the order of the plan, whenever that is
      well typed and resolved.  So it answers the statement exactly when writing it in that order changes nothing. */
  lemma PlanMeansReordered(stmt: SelectStmt, db: Db, joins: PhysicalPlan, order: seq<nat>)
    requires Orders(stmt, order)
    requires JoinPlan(ContextOf(stmt, db), joins, order)
    requires var c := ContextOf(Reorder(stmt, order), db); Plannable(c) && Reached(c, TextOrder(|c.nodes|))
    ensures SameAnswer(stmt.isStar, Exec(Dressed(TextPlan(stmt), joins), db), Meaning(TextPlan(Reorder(stmt, order)), db))
  {
    hide JoinPlan, Reached, Plannable, SameAnswer, TextTree, Exec, Meaning;
    assert order[..|order|] == order;
    PlanReordered(stmt, db, joins, order, |order|);
    DressedReorder(stmt, joins, order);
    PlanKeepsMeaning(Reorder(stmt, order), db, joins, TextOrder(|order|));
  }

  lemma DressedIs(stmt: SelectStmt, db: Db, joins: PhysicalPlan)
    requires DbOk(db) && Exec(joins, db).Ok?
    ensures Exec(Dressed(TextPlan(stmt), joins), db) == Finish(Exec(joins, db).value, stmt.where, stmt.isStar, stmt.items)
  {
    hide FilterRows, ProjectRows;
    FlattenText(stmt);
  }

  lemma TextIs(stmt: SelectStmt, db: Db)
    requires DbOk(db) && Meaning(TextTree(stmt.from, stmt.joins), db).Ok?
    ensures Meaning(TextPlan(stmt), db)
         == Finish(Meaning(TextTree(stmt.from, stmt.joins), db).value, stmt.where, stmt.isStar, stmt.items)
  {
    hide FilterRows, ProjectRows;
  }
}
