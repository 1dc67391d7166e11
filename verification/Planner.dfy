/** From a SELECT statement to a logical plan, and from a logical plan to a physical one. */
module Planner {
  import opened Pages
  import opened Query
  import opened Joins
  import opened Plans
  import opened References
  import opened JoinOrder
  import opened JoinSteps
  import opened Bags

  datatype TableRef = TableRef(table: string, alias: Option<string>)

  datatype JoinClause = JoinClause(table: TableRef, on: Expr)

  datatype SelectStmt =
    SelectStmt(isStar: bool, items: seq<SelectItem>, from: TableRef, joins: seq<JoinClause>, where: Option<Expr>)

  datatype LogicalNode =
    | LScan(table: string, alias: string)
    | LFilter(input: LogicalNode, where: Expr)
    | LJoin(left: LogicalNode, right: LogicalNode, condition: Expr)
    | LProject(pinput: LogicalNode, isStar: bool, items: seq<SelectItem>)

  function AliasOf(ref: TableRef): string {
    if ref.alias.Some? then ref.alias.value else ref.table
  }

  // ---------- the textual plan ----------

  /** The tables joined left to right, as written. */
  function TextTree(from: TableRef, joins: seq<JoinClause>): LogicalNode {
    if joins == [] then LScan(from.table, AliasOf(from))
    else
      var last := joins[|joins| - 1];
      LJoin(TextTree(from, joins[..|joins| - 1]), LScan(last.table.table, AliasOf(last.table)), last.on)
  }

  function TextPlan(stmt: SelectStmt): LogicalNode {
    var tree := TextTree(stmt.from, stmt.joins);
    LProject(if stmt.where.Some? then LFilter(tree, stmt.where.value) else tree, stmt.isStar, stmt.items)
  }

  method BuildLogicalPlan(stmt: SelectStmt) returns (plan: LogicalNode)
    ensures plan == TextPlan(stmt)
  {
    plan := LScan(stmt.from.table, AliasOf(stmt.from));
    var n := 0;
    while n < |stmt.joins|
      invariant n <= |stmt.joins| && plan == TextTree(stmt.from, stmt.joins[..n])
    {
      var join := stmt.joins[n];
      assert stmt.joins[..n + 1][..n] == stmt.joins[..n];
      plan := LJoin(plan, LScan(join.table.table, AliasOf(join.table)), join.on);
      n := n + 1;
    }
    assert stmt.joins[..n] == stmt.joins;
    if stmt.where.Some? {
      plan := LFilter(plan, stmt.where.value);
    }
    plan := LProject(plan, stmt.isStar, stmt.items);
  }

  /** What a logical plan asks for: every pair of rows for which the join condition holds, then the filter, then the
      select list. */
  ghost function Meaning(node: LogicalNode, db: Db): Result<seq<Row>>
    requires DbOk(db)
  {
    match node
    case LScan(table, alias) => if table in db then Ok(ScanRows(db[table], alias)) else Err
    case LFilter(input, p) =>
      var r := Meaning(input, db);
      if r.Err? then Err else FilterRows(r.value, p)
    case LJoin(left, right, cond) =>
      var l, r := Meaning(left, db), Meaning(right, db);
      if l.Err? || r.Err? then Err else NestedRows(l.value, r.value, cond)
    case LProject(input, isStar, items) =>
      var r := Meaning(input, db);
      if r.Err? || isStar then r else ProjectRows(r.value, items)
  }

  // ---------- the flat list of tables ----------

  /** A left-deep tree of joins, as a list of tables each with the condition that introduced it. */
  function FlattenJoins(node: LogicalNode): Result<seq<TableNode>> {
    match node
    case LScan(table, alias) => Ok([TableNode(table, alias, None)])
    case LJoin(left, right, cond) =>
      var before := FlattenJoins(left);
      if before.Err? || !right.LScan? then Err
      else Ok(before.value + [TableNode(right.table, right.alias, Some(cond))])
    case _ => Err
  }

  function NodesOf(stmt: SelectStmt): (nodes: seq<TableNode>)
    ensures |nodes| == |stmt.joins| + 1
  {
    [TableNode(stmt.from.table, AliasOf(stmt.from), None)]
    + seq(|stmt.joins|, k requires 0 <= k < |stmt.joins| =>
          var j := stmt.joins[k]; TableNode(j.table.table, AliasOf(j.table), Some(j.on)))
  }

  /** Flattening undoes the construction of the textual tree. */
  lemma {:induction false} FlattenUndoes(stmt: SelectStmt, n: nat)
    requires n <= |stmt.joins|
    ensures FlattenJoins(TextTree(stmt.from, stmt.joins[..n])) == Ok(NodesOf(stmt)[..n + 1])
  {
    var nodes := NodesOf(stmt);
    if n > 0 {
      FlattenUndoes(stmt, n - 1);
      var joins := stmt.joins[..n];
      assert joins[..n - 1] == stmt.joins[..n - 1];
      assert nodes[..n + 1] == nodes[..n] + [nodes[n]];
    }
  }

  lemma {:induction false} FlattenShape(node: LogicalNode)
    ensures var nodes := FlattenJoins(node);
            nodes.Ok? ==> |nodes.value| > 0 && forall i :: 0 <= i < |nodes.value| ==> (nodes.value[i].cond.None? <==> i == 0)
  {
    if node.LJoin? {
      FlattenShape(node.left);
    }
  }

  // ---------- cost estimates ----------

  const WRAP: nat := 0x1_0000_0000_0000_0000

  function Estimated(plan: PhysicalPlan, db: Db): Result<nat> {
    match plan
    case Scan(table, _) => if table in db then Ok(db[table].rowCount) else Err
    case Filter(input, _) => Estimated(input, db)
    case NestedLoop(left, right, _) =>
      var l, r := Estimated(left, db), Estimated(right, db);
      if l.Err? || r.Err? then Err else Ok(l.value * r.value % WRAP)
    case Hash(build, probe, _, _) =>
      var b, p := Estimated(build, db), Estimated(probe, db);
      if b.Err? || p.Err? then Err else Ok((b.value + p.value) % WRAP)
    case Project(input, _, _) => Estimated(input, db)
  }

  /** Every table of the list is in the database. */
  ghost predicate Present(nodes: seq<TableNode>, db: Db) {
    forall n <- nodes :: n.table in db
  }

  // ---------- one join ----------

  function ExtractEquiJoin(cond: Expr): (r: Option<(KeyRef, KeyRef)>)
    ensures r.Some? <==> ColumnEquality(cond)
  {
    if ColumnEquality(cond) then
      Some((KeyRef(cond.left.table, cond.left.column), KeyRef(cond.right.table, cond.right.column)))
    else None
  }

  function ScanOf(node: TableNode): PhysicalPlan {
    Scan(node.table, node.alias)
  }

  /** `plan` joins the table of `node` to the rows of `left`. */
  ghost predicate JoinsWith(plan: PhysicalPlan, left: PhysicalPlan, node: TableNode) {
    && node.cond.Some?
    && match plan
       case NestedLoop(l, r, cond) => l == left && r == ScanOf(node) && cond == node.cond.value
       case Hash(build, probe, bk, pk) =>
         || (build == left && probe == ScanOf(node) && Sides(node.cond.value, node.alias, bk, pk))
         || (probe == left && build == ScanOf(node) && Sides(node.cond.value, node.alias, pk, bk))
       case _ => false
  }

  predicate MentionsNew(cond: Expr, alias: string)
    requires ColumnEquality(cond)
  {
    cond.left.table == Some(alias) || cond.right.table == Some(alias)
  }

  /** A hash join where the condition allows one and it is no dearer; it builds on the side estimated smaller. */
  method JoinNext(accumulated: PhysicalPlan, next: TableNode, db: Db) returns (r: Result<PhysicalPlan>)
    requires next.cond.Some?
    ensures r.Ok? <==> next.table in db && Estimated(accumulated, db).Ok?
    ensures r.Ok? ==> JoinsWith(r.value, accumulated, next)
    ensures r.Ok? ==>
              var a, b := Estimated(accumulated, db).value, db[next.table].rowCount;
              && (r.value.Hash? <==> ColumnEquality(next.cond.value) && (a + b) % WRAP <= a * b % WRAP
                                     && MentionsNew(next.cond.value, next.alias))
              && (r.value.Hash? ==> if a <= b then r.value.build == accumulated else r.value.build == ScanOf(next))
  {
    var rightScan := Scan(next.table, next.alias);
    if next.table !in db {
      return Err;
    }
    var rightRows := db[next.table].rowCount;
    var estimate := Estimated(accumulated, db);
    if estimate.Err? {
      return Err;
    }
    var leftRows := estimate.value;
    var equi := ExtractEquiJoin(next.cond.value);
    var nestedCost := leftRows * rightRows % WRAP;
    var hashCost := if equi.Some? then (leftRows + rightRows) % WRAP else WRAP - 1;
    if equi.Some? && hashCost <= nestedCost {
      var nextRef, accRef := None, None;
      if equi.value.0.table == Some(next.alias) {
        nextRef, accRef := Some(equi.value.0), Some(equi.value.1);
      } else if equi.value.1.table == Some(next.alias) {
        nextRef, accRef := Some(equi.value.1), Some(equi.value.0);
      }
      if nextRef.Some? {
        if leftRows <= rightRows {
          return Ok(Hash(accumulated, rightScan, accRef.value, nextRef.value));
        }
        return Ok(Hash(rightScan, accumulated, nextRef.value, accRef.value));
      }
    }
    return Ok(NestedLoop(accumulated, rightScan, next.cond.value));
  }

  // ---------- the tables a condition names ----------

  /** The aliases an expression names; unqualified references name none. */
  function Refs(e: Expr): set<string> {
    match e
    case ColumnRef(t, _) => if t.Some? then {t.value} else {}
    case Literal(_) => {}
    case Compare(_, l, r) => Refs(l) + Refs(r)
    case And(l, r) => Refs(l) + Refs(r)
    case Or(l, r) => Refs(l) + Refs(r)
  }

  ghost predicate NamesWithin(c: Context, e: Expr, layout: seq<nat>) {
    forall a <- Refs(e) :: NodeIndex(c.nodes, a).Some? && NodeIndex(c.nodes, a).value in layout
  }

  /** Each table comes after every other table its condition names. */
  ghost predicate Connected(c: Context, order: seq<nat>) {
    forall p :: 0 <= p < |order| ==>
                  && order[p] < |c.nodes|
                  && (c.nodes[order[p]].cond.Some? ==> NamesWithin(c, c.nodes[order[p]].cond.value, order[..p + 1]))
  }

  // ---------- which table next ----------

  /** Every table the condition of table `i` names is joined already, or is table `i` itself. */
  predicate Attachable(nodes: seq<TableNode>, joined: set<string>, i: nat) {
    i < |nodes| && nodes[i].cond.Some? && Refs(nodes[i].cond.value) - {nodes[i].alias} <= joined
  }

  method AllJoined(refs: set<string>, joined: set<string>) returns (connected: bool)
    ensures connected <==> refs <= joined
  {
    var rest := refs;
    while rest != {}
      invariant rest <= refs && refs - rest <= joined
    {
      var r :| r in rest;
      if r !in joined {
        return false;
      }
      rest := rest - {r};
    }
    return true;
  }

  /** A candidate: not yet joined, and attachable. */
  predicate Candidate(nodes: seq<TableNode>, consumed: seq<bool>, joined: set<string>, i: nat) {
    0 < i < |nodes| && i < |consumed| && !consumed[i] && Attachable(nodes, joined, i)
  }

  /** `i` is the candidate below `n` with the fewest rows, the first such in textual order. */
  ghost predicate Fewest(nodes: seq<TableNode>, consumed: seq<bool>, joined: set<string>, db: Db, n: nat, i: nat) {
    && i < n && Candidate(nodes, consumed, joined, i) && nodes[i].table in db
    && forall j :: 0 <= j < n && Candidate(nodes, consumed, joined, j) ==>
                     && nodes[j].table in db
                     && db[nodes[i].table].rowCount <= db[nodes[j].table].rowCount
                     && (j < i ==> db[nodes[i].table].rowCount < db[nodes[j].table].rowCount)
  }

  method PickNext(nodes: seq<TableNode>, consumed: seq<bool>, joined: set<string>, db: Db) returns (best: Result<Option<nat>>)
    requires |consumed| == |nodes| && forall i :: 0 < i < |nodes| ==> nodes[i].cond.Some?
    ensures best.Err? ==> !Present(nodes, db)
    ensures best == Ok(None) ==> forall i :: !Candidate(nodes, consumed, joined, i)
    ensures best.Ok? && best.value.Some? ==> Fewest(nodes, consumed, joined, db, |nodes|, best.value.value)
  {
    var bestIdx: Option<nat> := None;
    var bestRows := 0;
    var i := 1;
    while i < |nodes|
      invariant 1 <= i
      invariant bestIdx.None? ==> forall j :: 0 <= j < i ==> !Candidate(nodes, consumed, joined, j)
      invariant bestIdx.Some? ==> Fewest(nodes, consumed, joined, db, i, bestIdx.value)
                                  && bestRows == db[nodes[bestIdx.value].table].rowCount
    {
      if !consumed[i] {
        var connected := AllJoined(Refs(nodes[i].cond.value) - {nodes[i].alias}, joined);
        if connected {
          if nodes[i].table !in db {
            assert nodes[i] in nodes;
            return Err;
          }
          var rows := db[nodes[i].table].rowCount;
          if bestIdx.None? || rows < bestRows {
            bestIdx, bestRows := Some(i), rows;
          }
        }
      }
      i := i + 1;
    }
    return Ok(bestIdx);
  }

  /** The fallback: the first table not yet joined. */
  method FirstUnconsumed(consumed: seq<bool>) returns (i: nat)
    requires |consumed| > 0 && consumed[0] && exists j :: 0 <= j < |consumed| && !consumed[j]
    ensures 0 < i < |consumed| && !consumed[i] && forall j :: 0 <= j < i ==> consumed[j]
  {
    i := 1;
    while i < |consumed|
      invariant 1 <= i <= |consumed| && forall j :: 0 <= j < i ==> consumed[j]
    {
      if !consumed[i] {
        return;
      }
      i := i + 1;
    }
  }

  // ---------- the greedy order ----------

  function ConsumedBy(n: nat, order: seq<nat>): (r: seq<bool>)
    ensures |r| == n && forall i :: 0 <= i < n ==> (r[i] <==> i in order)
  {
    seq(n, i => i in order)
  }

  ghost function AliasesOf(nodes: seq<TableNode>, order: seq<nat>): set<string>
    requires forall i <- order :: i < |nodes|
  {
    set i | i in order :: nodes[i].alias
  }

  function TextOrder(n: nat): (r: seq<nat>)
    ensures |r| == n && (forall i :: 0 <= i < n ==> r[i] == i) && Unique(r) && forall i: nat :: i in r <==> i < n
  {
    var r := seq(n, i => i);
    assert forall i: nat :: i < n ==> i in r by {
      forall i: nat | i < n
        ensures i in r
      {
        assert r[i] == i;
      }
    }
    r
  }

  /** Each ON condition names only tables that are written no later than it is. */
  ghost predicate Scoped(c: Context) {
    ContextOk(c) && |c.nodes| > 0 && Connected(c, TextOrder(|c.nodes|))
  }

  /** Every table after the first is the smallest of those that could be joined at that point. */
  ghost predicate Greedy(c: Context, order: seq<nat>) {
    forall p :: 0 < p < |order| ==>
                  && (forall i <- order[..p] :: i < |c.nodes|)
                  && Fewest(c.nodes, ConsumedBy(|c.nodes|, order[..p]), AliasesOf(c.nodes, order[..p]), c.db, |c.nodes|, order[p])
  }

  /** While a table is left, some table is attachable: the first one left is. */
  lemma NeverStuck(c: Context, order: seq<nat>, i: nat)
    requires Scoped(c) && 0 < i < |c.nodes| && i !in order && (forall j <- order :: j < |c.nodes|)
    requires forall j: nat :: j < i ==> j in order
    ensures Candidate(c.nodes, ConsumedBy(|c.nodes|, order), AliasesOf(c.nodes, order), i)
  {
    var text, cond, joined := TextOrder(|c.nodes|), c.nodes[i].cond.value, AliasesOf(c.nodes, order);
    assert text[i] == i;
    forall a | a in Refs(cond) && a != c.nodes[i].alias
      ensures a in joined
    {
      var j := NodeIndex(c.nodes, a).value;
      assert j in text[..i + 1];
      assert j < i;
      assert j in order && c.nodes[j].alias == a;
    }
  }

  lemma AttachConnected(c: Context, order: seq<nat>, i: nat)
    requires ContextOk(c) && Connected(c, order) && (forall j <- order :: j < |c.nodes|)
    requires Attachable(c.nodes, AliasesOf(c.nodes, order), i)
    ensures Connected(c, order + [i])
  {
    var all, cond := order + [i], c.nodes[i].cond.value;
    forall a | a in Refs(cond)
      ensures NodeIndex(c.nodes, a).Some? && NodeIndex(c.nodes, a).value in all
    {
      if a == c.nodes[i].alias {
        NodeIndexIs(c, i);
        assert all[|order|] == i;
      } else {
        assert a in AliasesOf(c.nodes, order);
        var j :| j in order && c.nodes[j].alias == a;
        NodeIndexIs(c, j);
      }
    }
    forall p | 0 <= p < |all|
      ensures all[p] < |c.nodes|
      ensures c.nodes[all[p]].cond.Some? ==> NamesWithin(c, c.nodes[all[p]].cond.value, all[..p + 1])
    {
      if p < |order| {
        assert all[p] == order[p] && all[..p + 1] == order[..p + 1];
      } else {
        assert all[..p + 1] == all;
      }
    }
  }

  lemma GreedyMore(c: Context, order: seq<nat>, i: nat)
    requires Greedy(c, order) && (forall j <- order :: j < |c.nodes|)
    requires Fewest(c.nodes, ConsumedBy(|c.nodes|, order), AliasesOf(c.nodes, order), c.db, |c.nodes|, i)
    ensures Greedy(c, order + [i])
  {
    hide Fewest;
    var all := order + [i];
    forall p | 0 < p < |all|
      ensures forall i <- all[..p] :: i < |c.nodes|
      ensures Fewest(c.nodes, ConsumedBy(|c.nodes|, all[..p]), AliasesOf(c.nodes, all[..p]), c.db, |c.nodes|, all[p])
    {
      if p < |order| {
        assert all[p] == order[p] && all[..p] == order[..p];
      } else {
        assert all[..p] == order;
      }
    }
  }

  lemma JoinPlanMore(c: Context, plan: PhysicalPlan, left: PhysicalPlan, order: seq<nat>, i: nat)
    requires JoinPlan(c, left, order) && i < |c.nodes| && JoinsWith(plan, left, c.nodes[i])
    ensures JoinPlan(c, plan, order + [i])
  {
    assert (order + [i])[..|order|] == order && order != [];
  }

  /** How many tables are still to be joined. */
  function Waiting(consumed: seq<bool>): nat {
    if consumed == [] then 0 else (if consumed[0] then 0 else 1) + Waiting(consumed[1..])
  }

  lemma {:induction false} WaitingLess(consumed: seq<bool>, i: nat)
    requires i < |consumed| && !consumed[i]
    ensures Waiting(consumed[i := true]) == Waiting(consumed) - 1
  {
    if i > 0 {
      assert consumed[i := true][1..] == consumed[1..][i - 1 := true];
      WaitingLess(consumed[1..], i - 1);
    } else {
      assert consumed[i := true][1..] == consumed[1..];
    }
  }

  lemma {:induction false} WaitingNone(consumed: seq<bool>)
    ensures Waiting(consumed) == 0 <==> forall i :: 0 <= i < |consumed| ==> consumed[i]
  {
    if consumed != [] {
      assert forall i :: 0 < i < |consumed| ==> consumed[i] == consumed[1..][i - 1];
      assert forall i :: 0 <= i < |consumed[1..]| ==> consumed[1..][i] == consumed[i + 1];
      WaitingNone(consumed[1..]);
    }
  }

  lemma {:induction false} WaitingFalse(n: nat)
    ensures Waiting(seq(n, _ => false)) == n
  {
    if n > 0 {
      assert seq(n, _ => false)[1..] == seq(n - 1, _ => false);
      WaitingFalse(n - 1);
    }
  }

  /** The plan built so far joins the tables of `order`; the bookkeeping agrees with it. */
  ghost predicate Building(c: Context, plan: PhysicalPlan, consumed: seq<bool>, joined: set<string>, order: seq<nat>) {
    && JoinPlan(c, plan, order) && Unique(order) && (forall j <- order :: j < |c.nodes|) && 0 in order
    && consumed == ConsumedBy(|c.nodes|, order) && joined == AliasesOf(c.nodes, order)
    && (Present(c.nodes, c.db) ==> Estimated(plan, c.db).Ok?)
  }

  ghost predicate GoodSoFar(c: Context, order: seq<nat>, fellBack: bool) {
    Scoped(c) ==> !fellBack && Connected(c, order) && Greedy(c, order)
  }

  lemma BuildingMore(c: Context, plan: PhysicalPlan, left: PhysicalPlan, consumed: seq<bool>, joined: set<string>, order: seq<nat>, i: nat)
    requires Building(c, left, consumed, joined, order) && i < |c.nodes| && !consumed[i] && JoinsWith(plan, left, c.nodes[i])
    ensures Building(c, plan, consumed[i := true], joined + {c.nodes[i].alias}, order + [i])
  {
    hide Unique;
    JoinPlanMore(c, plan, left, order, i);
    UniqueSnoc(order, i);
    assert c.nodes[i] in c.nodes;
    assert Estimated(left, c.db).Ok? && c.nodes[i].table in c.db ==> Estimated(plan, c.db).Ok?;
    assert forall j <- order + [i] :: j in order || j == i;
    assert consumed[i := true] == ConsumedBy(|c.nodes|, order + [i]);
    assert AliasesOf(c.nodes, order + [i]) == joined + {c.nodes[i].alias};
  }

  lemma StartBuilding(c: Context, consumed: seq<bool>)
    requires |c.nodes| > 0 && (c.nodes[0].cond.None?) && consumed == seq(|c.nodes|, _ => false)[0 := true]
    ensures Building(c, ScanOf(c.nodes[0]), consumed, {c.nodes[0].alias}, [0])
    ensures GoodSoFar(c, [0], false)
  {
    assert consumed == ConsumedBy(|c.nodes|, [0]);
    assert Present(c.nodes, c.db) ==> c.nodes[0].table in c.db by {
      assert c.nodes[0] in c.nodes;
    }
    assert [0][..0] == [];
  }

  lemma GoodMore(c: Context, plan: PhysicalPlan, consumed: seq<bool>, joined: set<string>, order: seq<nat>, i: nat, fellBack: bool)
    requires Building(c, plan, consumed, joined, order) && GoodSoFar(c, order, fellBack)
    requires Fewest(c.nodes, consumed, joined, c.db, |c.nodes|, i)
    ensures GoodSoFar(c, order + [i], fellBack) && 0 < i < |c.nodes| && !consumed[i]
  {
    hide Connected, Greedy, JoinPlan, Unique;
    if Scoped(c) {
      AttachConnected(c, order, i);
      GreedyMore(c, order, i);
    }
  }

  /** With no candidate left, some condition names a table written after it. */
  lemma NotScoped(c: Context, plan: PhysicalPlan, consumed: seq<bool>, joined: set<string>, order: seq<nat>, i: nat)
    requires Building(c, plan, consumed, joined, order)
    requires 0 < i < |c.nodes| && !consumed[i] && forall j :: 0 <= j < i ==> consumed[j]
    requires forall j :: !Candidate(c.nodes, consumed, joined, j)
    ensures !Scoped(c)
  {
    hide Scoped, JoinPlan, Unique, Candidate;
    if Scoped(c) {
      NeverStuck(c, order, i);
    }
  }

  method JoinAll(nodes: seq<TableNode>, db: Db) returns (r: Result<PhysicalPlan>, ghost order: seq<nat>, ghost fellBack: bool)
    requires |nodes| > 0 && forall i :: 0 <= i < |nodes| ==> (nodes[i].cond.None? <==> i == 0)
    ensures r.Err? ==> !Present(nodes, db)
    ensures r.Ok? ==>
              var c := Context(nodes, db);
              && JoinPlan(c, r.value, order) && Unique(order) && (forall i: nat :: i in order <==> i < |nodes|)
              && GoodSoFar(c, order, fellBack)
  {
    hide Unique, JoinPlan, JoinsWith, Fewest, Candidate, Connected, Scoped, Greedy;
    ghost var c := Context(nodes, db);
    var accumulated := Scan(nodes[0].table, nodes[0].alias);
    var joined := {nodes[0].alias};
    var consumed := seq(|nodes|, _ => false);
    WaitingFalse(|nodes|);
    WaitingLess(consumed, 0);
    consumed := consumed[0 := true];
    var remaining := |nodes| - 1;
    order, fellBack := [0], false;
    StartBuilding(c, consumed);
    while remaining > 0
      invariant Building(c, accumulated, consumed, joined, order)
      invariant GoodSoFar(c, order, fellBack)
      invariant remaining == Waiting(consumed)
      decreases remaining
    {
      WaitingNone(consumed);
      var best := PickNext(nodes, consumed, joined, db);
      if best.Err? {
        return Err, order, fellBack;
      }
      var next: nat;
      if best.value.None? {
        next := FirstUnconsumed(consumed);
        fellBack := true;
        NotScoped(c, accumulated, consumed, joined, order, next);
      } else {
        next := best.value.value;
        GoodMore(c, accumulated, consumed, joined, order, next, fellBack);
      }
      var more := JoinNext(accumulated, nodes[next], db);
      if more.Err? {
        assert nodes[next] in nodes;
        return Err, order, fellBack;
      }
      BuildingMore(c, more.value, accumulated, consumed, joined, order, next);
      WaitingLess(consumed, next);
      accumulated := more.value;
      joined := joined + {nodes[next].alias};
      consumed := consumed[next := true];
      remaining := remaining - 1;
      order := order + [next];
    }
    WaitingNone(consumed);
    return Ok(accumulated), order, fellBack;
  }

  // ---------- unqualified references ----------

  /** No other table of the query has the column. */
  ghost predicate Unrepeated(c: Context, column: string, j: nat)
    requires ContextOk(c)
  {
    forall i: nat :: i < |c.nodes| && i != j ==> !HasColumn(TableOf(c, i).columns, column)
  }

  /** Each unqualified reference of table `i`'s condition is to the first table or to table `i`, and no other table of the
      query, written later perhaps, has its column. */
  ghost predicate NearIn(c: Context, i: nat, e: Expr)
    requires ContextOk(c)
  {
    match e
    case ColumnRef(table, column) =>
      var j := OwnerOf(c, i + 1, table, column);
      table.None? && j.Some? ==> (j.value == 0 || j.value == i) && Unrepeated(c, column, j.value)
    case Literal(_) => true
    case Compare(_, l, r) => NearIn(c, i, l) && NearIn(c, i, r)
    case And(l, r) => NearIn(c, i, l) && NearIn(c, i, r)
    case Or(l, r) => NearIn(c, i, l) && NearIn(c, i, r)
  }

  ghost predicate Near(c: Context)
    requires ContextOk(c)
  {
    forall i: nat :: 0 < i < |c.nodes| ==> NearIn(c, i, c.nodes[i].cond.value)
  }

  lemma {:induction false} OperandNear(c: Context, i: nat, e: Expr, layout: seq<nat>)
    requires ContextOk(c) && TypeOf(c, i + 1, e).Some? && NamesWithin(c, e, layout) && NearIn(c, i, e) && 0 in layout && i in layout
    ensures ResolvedIn(c, i + 1, e, layout)
  {
    match e
    case ColumnRef(table, _) =>
      assert table.Some? ==> table.value in Refs(e);
    case Literal(_) =>
  }

  lemma {:induction false} NearResolves(c: Context, i: nat, e: Expr, layout: seq<nat>)
    requires ContextOk(c) && WellTyped(c, i + 1, e) && NamesWithin(c, e, layout) && NearIn(c, i, e) && 0 in layout && i in layout
    ensures ResolvedIn(c, i + 1, e, layout)
    decreases e
  {
    hide TypeOf, ContextOk;
    match e
    case Compare(_, l, r) =>
      OperandNear(c, i, l, layout);
      OperandNear(c, i, r, layout);
    case And(l, r) =>
      NearResolves(c, i, l, layout);
      NearResolves(c, i, r, layout);
    case Or(l, r) =>
      NearResolves(c, i, l, layout);
      NearResolves(c, i, r, layout);
  }

  /** Then joining each table after the tables its condition names keeps the meaning of every reference. */
  lemma NearReached(c: Context, order: seq<nat>)
    requires Plannable(c) && Near(c) && Connected(c, order) && (order != [] ==> order[0] == 0)
    ensures Reached(c, order)
  {
    hide NamesWithin, ResolvedIn, NearIn, WellTyped, SelfKeyed, Typed;
    assert ContextOk(c) by {
      TypedContext(c);
    }
    hide ContextOk;
    forall p | 0 <= p < |order| && c.nodes[order[p]].cond.Some?
      ensures ResolvedIn(c, order[p] + 1, c.nodes[order[p]].cond.value, order[..p + 1])
    {
      var i := order[p];
      assert order[..p + 1][0] == 0 && order[..p + 1][p] == i;
      NotFirst(c, i);
      NearResolves(c, i, c.nodes[i].cond.value, order[..p + 1]);
    }
  }

  lemma NotFirst(c: Context, i: nat)
    requires ContextOk(c) && i < |c.nodes| && c.nodes[i].cond.Some?
    ensures i > 0
  {
  }

  /** Only the first table has no condition, so it is the first of every order. */
  lemma {:induction false} FirstIsZero(c: Context, plan: PhysicalPlan, order: seq<nat>)
    requires JoinPlan(c, plan, order)
    ensures |order| > 0 && order[0] == 0
    decreases |order|
  {
    var before := order[..|order| - 1];
    if before != [] {
      match plan
      case NestedLoop(left, _, _) => FirstIsZero(c, left, before);
      case Hash(build, probe, _, _) => FirstIsZero(c, if JoinPlan(c, build, before) then build else probe, before);
    }
  }

  // ---------- what the estimates add up to ----------

  /** Every join of the plan is a nested loop (a hash join). */
  predicate JoinsBy(plan: PhysicalPlan, hash: bool) {
    match plan
    case Scan(_, _) => true
    case NestedLoop(left, right, _) => !hash && JoinsBy(left, hash) && JoinsBy(right, hash)
    case Hash(build, probe, _, _) => hash && JoinsBy(build, hash) && JoinsBy(probe, hash)
    case _ => false
  }

  ghost predicate InDb(c: Context, order: seq<nat>) {
    forall i <- order :: i < |c.nodes| && c.nodes[i].table in c.db
  }

  /** The product (for hash joins, the sum) of the row counts of the tables. */
  ghost function Combined(c: Context, order: seq<nat>, hash: bool): nat
    requires InDb(c, order) && order != []
  {
    var last, before := order[|order| - 1], order[..|order| - 1];
    assert last in order && forall i <- before :: i in order;
    var rows := c.db[c.nodes[last].table].rowCount;
    if before == [] then rows
    else if hash then Combined(c, before, hash) + rows
    else Combined(c, before, hash) * rows
  }

  lemma WrapShift(x: nat, k: nat)
    ensures (x + WRAP * k) % WRAP == x % WRAP
  {
  }

  lemma WrapProduct(a: nat, b: nat)
    ensures (a % WRAP) * b % WRAP == a * b % WRAP
  {
    var q, m := a / WRAP, a % WRAP;
    assert a == m + WRAP * q;
    calc {
      a * b;
      (m + WRAP * q) * b;
      m * b + WRAP * (q * b);
    }
    WrapShift(m * b, q * b);
  }

  lemma SameWrap(a: nat, b: nat, rows: nat)
    requires a % WRAP == b % WRAP
    ensures a * rows % WRAP % WRAP == b * rows % WRAP
    ensures (a + rows) % WRAP % WRAP == (b + rows) % WRAP && (rows + a) % WRAP % WRAP == (b + rows) % WRAP
  {
    WrapProduct(a, rows);
    WrapProduct(b, rows);
    WrapShift(a % WRAP + rows, a / WRAP);
    WrapShift(b % WRAP + rows, b / WRAP);
  }

  /** A plan of nested loops is estimated at the product of the row counts, one of hash joins at their sum, modulo 2^64. */
  lemma {:induction false} EstimateIs(c: Context, plan: PhysicalPlan, order: seq<nat>, hash: bool)
    requires JoinPlan(c, plan, order) && JoinsBy(plan, hash) && InDb(c, order)
    ensures order != [] && Estimated(plan, c.db).Ok? && Estimated(plan, c.db).value % WRAP == Combined(c, order, hash) % WRAP
    decreases |order|
  {
    hide Sides;
    var last, before := order[|order| - 1], order[..|order| - 1];
    assert last in order && forall i <- before :: i in order;
    if before != [] {
      var rows := c.db[c.nodes[last].table].rowCount;
      match plan
      case NestedLoop(left, _, _) =>
        EstimateIs(c, left, before, hash);
        SameWrap(Estimated(left, c.db).value, Combined(c, before, hash), rows);
      case Hash(build, probe, _, _) =>
        var left := if JoinPlan(c, build, before) then build else probe;
        EstimateIs(c, left, before, hash);
        SameWrap(Estimated(left, c.db).value, Combined(c, before, hash), rows);
    }
  }
}
