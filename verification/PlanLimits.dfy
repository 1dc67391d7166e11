/** Where the planner's guarantee stops: an equality inside the new table, and an ON reference without its table. */
module PlanLimits {
  import opened Pages
  import opened Query
  import opened Joins
  import opened Plans
  import opened References
  import opened JoinOrder
  import opened JoinSteps
  import opened Planner
  import opened PlanMeaning
  import opened Semantic
  import opened HashNested
  import Inserts

  // ---------- a key that the accumulated rows do not have ----------

  lemma HashOfNone(rows: seq<Row>, bk: KeyRef, pk: KeyRef)
    ensures HashFrom([], rows, bk, pk, 0, 0).Ok? <==> Keyed(rows, pk)
    ensures HashFrom([], rows, bk, pk, 0, 0).Ok? ==> HashFrom([], rows, bk, pk, 0, 0) == Ok([])
    ensures HashFrom(rows, [], bk, pk, 0, 0) == Ok([])
  {
    EmptyBuild(rows, bk, pk, 0);
    assert rows[0..] == rows;
  }

  lemma {:induction false} EmptyBuild(rows: seq<Row>, bk: KeyRef, pk: KeyRef, p: nat)
    requires p <= |rows|
    ensures HashFrom([], rows, bk, pk, p, 0).Ok? <==> Keyed(rows[p..], pk)
    ensures HashFrom([], rows, bk, pk, p, 0).Ok? ==> HashFrom([], rows, bk, pk, p, 0) == Ok([])
    decreases |rows| - p
  {
    if p < |rows| {
      EmptyBuild(rows, bk, pk, p + 1);
      assert rows[p..] == [rows[p]] + rows[p + 1..];
    }
  }

  /** A hash join whose key is missing from the accumulated rows fails if and only if there is such a row, whichever side
      it builds on. */
  lemma AbsentKeyFails(left: seq<Row>, right: seq<Row>, acc: KeyRef, next: KeyRef)
    requires (forall l <- left :: KeyOf(l, acc).Err?) && Keyed(right, next)
    ensures HashRows(left, right, acc, next).Err? <==> left != []
    ensures HashRows(right, left, next, acc).Err? <==> left != []
  {
    hide KeyOf;
    if left == [] {
      HashOfNone(right, acc, next);
      HashOfNone(right, next, acc);
    } else {
      assert left[0] in left;
    }
  }

  /** A nested-loop join under a comparison that no pair can evaluate fails if and only if there is a pair. */
  lemma AbsentOperandFails(left: seq<Row>, right: seq<Row>, op: CmpOp, a: Expr, b: Expr)
    requires forall l, r :: l in left && r in right ==> EvalValue(a, l + r).Err? || EvalValue(b, l + r).Err?
    ensures NestedRows(left, right, Compare(op, a, b)).Err? <==> left != [] && right != []
  {
    hide EvalValue, NestedFrom;
    var cond := Compare(op, a, b);
    if left != [] && right != [] {
      assert left[0] in left && right[0] in right;
      NestedErr(left, right, cond, 0, 0, (0, 0));
    } else {
      NestedPairs(left, right, cond, 0, 0);
    }
  }

  lemma {:induction false} NotFound(row: Row, table: string, column: string)
    requires forall f <- row :: f.table != table
    ensures Find(row, Some(table), column).Err?
  {
    if row != [] {
      assert row[0] in row;
      NotFound(row[1..], table, column);
    }
  }

  /** With both columns in the new table `alias`, a hash join looks one of them up in the accumulated rows: it fails as
      soon as there is one, whichever side it builds on, where the nested loop would not. */
  lemma SelfEqualityFails(left: seq<Row>, right: seq<Row>, alias: string, a: string, b: string)
    requires forall l <- left :: forall f <- l :: f.table != alias
    requires Keyed(right, KeyRef(Some(alias), a)) && Keyed(right, KeyRef(Some(alias), b))
    requires Evaluable(left, right, Equality(KeyRef(Some(alias), a), KeyRef(Some(alias), b)))
    ensures var cond := Equality(KeyRef(Some(alias), a), KeyRef(Some(alias), b));
            && NestedRows(left, right, cond).Ok?
            && (HashRows(left, right, KeyRef(Some(alias), b), KeyRef(Some(alias), a)).Ok? <==> left == [])
            && (HashRows(right, left, KeyRef(Some(alias), a), KeyRef(Some(alias), b)).Ok? <==> left == [])
  {
    hide Find, EvalBool, NestedFrom;
    NestedPairs(left, right, Equality(KeyRef(Some(alias), a), KeyRef(Some(alias), b)), 0, 0);
    forall l | l in left
      ensures KeyOf(l, KeyRef(Some(alias), b)).Err?
    {
      NotFound(l, alias, b);
    }
    AbsentKeyFails(left, right, KeyRef(Some(alias), b), KeyRef(Some(alias), a));
  }

  // ---------- a reference that lost its meaning ----------

  /** An unqualified name can be read from the joined rows of these tables: one of them declares it, alone and once. */
  ghost predicate Readable(c: Context, layout: seq<nat>, column: string)
    requires ContextOk(c) && forall i <- layout :: i < |c.nodes|
  {
    exists j :: Alone(c, layout, column, j)
  }

  lemma ReadableSame(c: Context, a: seq<nat>, b: seq<nat>, column: string)
    requires ContextOk(c) && (forall i <- a :: i < |c.nodes|) && forall j :: j in a <==> j in b
    ensures Readable(c, a, column) <==> Readable(c, b, column)
  {
    hide ContextOk, HasColumn, Times;
    assert forall j :: Alone(c, a, column, j) <==> Alone(c, b, column, j);
  }

  /** On the rows that `l` lists, and on those rows joined to a row of table `i`, the name is found exactly if it is readable. */
  lemma FoundIfReadable(c: Context, order: seq<nat>, i: nat, l: Listing, name: string, a: nat, k: nat)
    requires ContextOk(c) && Listed(c, order, l) && i < |c.nodes| && i !in order && forall j <- order :: j < |c.nodes|
    requires a < |l.xs| && k < |TableOf(c, i).rows|
    ensures |l.rows| == |l.xs| && (Find(l.rows[a], None, name).Ok? <==> Readable(c, order, name))
    ensures Find(l.rows[a] + NewRows(c, i)[k], None, name).Ok? <==> Readable(c, order + [i], name)
  {
    hide RowFor, Find, Complete, Alone, ContextOk, Readable;
    ExtendRow(c, l.layout, l.xs[a], i, k);
    UniqueSnoc(l.layout, i);
    ReadableIs(c, l.layout, name);
    ReadableIs(c, l.layout + [i], name);
    FindIfAlone(c, l.layout, l.xs[a], name);
    FindIfAlone(c, l.layout + [i], l.xs[a][i := k], name);
    ReadableSame(c, order, l.layout, name);
    ReadableSame(c, order + [i], l.layout + [i], name);
    assert l.rows[a] + NewRows(c, i)[k] == RowFor(c, l.layout + [i], l.xs[a][i := k]);
  }

  lemma ReadableIs(c: Context, layout: seq<nat>, column: string)
    requires ContextOk(c) && forall i <- layout :: i < |c.nodes|
    ensures Readable(c, layout, column) <==> exists j :: Alone(c, layout, column, j)
  {
  }

  /** If the name is not readable once table `i` is joined, because its table is not there or another one has the column
      too, a comparison on it fails exactly when there is a pair of rows; if it is not readable before, a hash join keyed
      on it fails exactly when there is an accumulated row.  If it is readable, no pair fails on it. */
  lemma UnreadableFails(c: Context, order: seq<nat>, i: nat, l: Listing, name: string, op: CmpOp, other: Expr, next: KeyRef)
    requires ContextOk(c) && Listed(c, order, l) && i < |c.nodes| && i !in order && forall j <- order :: j < |c.nodes|
    ensures !Readable(c, order + [i], name) ==>
              && (NestedRows(l.rows, NewRows(c, i), Compare(op, ColumnRef(None, name), other)).Err? <==> l.rows != [] && NewRows(c, i) != [])
              && (NestedRows(l.rows, NewRows(c, i), Compare(op, other, ColumnRef(None, name))).Err? <==> l.rows != [] && NewRows(c, i) != [])
    ensures !Readable(c, order, name) && Keyed(NewRows(c, i), next) ==>
              && (HashRows(l.rows, NewRows(c, i), KeyRef(None, name), next).Err? <==> l.rows != [])
              && (HashRows(NewRows(c, i), l.rows, next, KeyRef(None, name)).Err? <==> l.rows != [])
    ensures Readable(c, order + [i], name) ==> forall p, q :: p in l.rows && q in NewRows(c, i) ==> Find(p + q, None, name).Ok?
  {
    hide Find, Readable, NestedRows, HashRows, Keyed, ContextOk, Complete, RowFor;
    var left, right, ref := l.rows, NewRows(c, i), ColumnRef(None, name);
    forall p, q | p in left && q in right
      ensures Find(p + q, None, name).Ok? <==> Readable(c, order + [i], name)
      ensures EvalValue(ref, p + q) == Find(p + q, None, name)
      ensures Find(p, None, name).Ok? <==> Readable(c, order, name)
    {
      var a: nat :| a < |left| && left[a] == p;
      var k: nat :| k < |right| && right[k] == q;
      FoundIfReadable(c, order, i, l, name, a, k);
    }
    if !Readable(c, order + [i], name) {
      AbsentOperandFails(left, right, op, ref, other);
      AbsentOperandFails(left, right, op, other, ref);
    }
    if !Readable(c, order, name) && Keyed(right, next) {
      forall p | p in left
        ensures KeyOf(p, KeyRef(None, name)).Err?
      {
        var a: nat :| a < |left| && left[a] == p;
        NotInRow(c, order, l, name, a);
      }
      AbsentKeyFails(left, right, KeyRef(None, name), next);
    }
  }

  lemma NotInRow(c: Context, order: seq<nat>, l: Listing, name: string, a: nat)
    requires ContextOk(c) && Listed(c, order, l) && (forall j <- order :: j < |c.nodes|) && a < |l.rows| && !Readable(c, order, name)
    ensures Find(l.rows[a], None, name).Err?
  {
    hide RowFor, Find, Complete, Alone, ContextOk, Readable;
    ReadableIs(c, l.layout, name);
    FindIfAlone(c, l.layout, l.xs[a], name);
    ReadableSame(c, order, l.layout, name);
  }

  // ---------- and the plan with it ----------

  /** Some combination of rows of these tables satisfies their conditions. */
  ghost predicate Satisfiable(c: Context, order: seq<nat>)
    requires ContextOk(c)
  {
    exists x :: Satisfies(c, order, x)
  }

  /** The ON condition of table `i` equates an unqualified column with a column of table `i`. */
  ghost predicate LooseEquality(c: Context, i: nat, name: string, column: string)
    requires i < |c.nodes|
  {
    c.nodes[i].cond == Some(Compare(Eq, ColumnRef(None, name), ColumnRef(Some(c.nodes[i].alias), column)))
  }

  /** The new table does not have the column: it would be the owner, and the equality keyed inside it. */
  lemma NotItsOwn(c: Context, i: nat, name: string, column: string)
    requires Plannable(c) && 0 < i < |c.nodes| && LooseEquality(c, i, name, column)
    ensures ContextOk(c) && !HasColumn(TableOf(c, i).columns, name)
  {
    hide Times, HasColumn, ContextOk, TypedTable, Typed, Once;
    TypedThere(c);
    var acc, next := KeyRef(None, name), KeyRef(Some(c.nodes[i].alias), column);
    assert Sides(c.nodes[i].cond.value, c.nodes[i].alias, acc, next);
    assert !SelfKeyed(c, i);
    assert WellTyped(c, i + 1, c.nodes[i].cond.value);
    assert TypeOf(c, i + 1, ColumnRef(None, name)).Some?;
  }

  /** So it cannot make the name readable. */
  lemma ReadableWith(c: Context, order: seq<nat>, i: nat, name: string, column: string)
    requires Plannable(c) && 0 < i < |c.nodes| && LooseEquality(c, i, name, column) && forall j <- order :: j < |c.nodes|
    ensures ContextOk(c)
    ensures Readable(c, order, name) ==> Readable(c, order + [i], name)
  {
    hide Times, HasColumn, ContextOk, Plannable;
    NotItsOwn(c, i, name, column);
    if j :| Alone(c, order, name, j) {
      assert Alone(c, order + [i], name, j);
    }
  }

  /** A plan that joins such a table where the name is not readable fails exactly when some combination of rows got that
      far, and, for a nested loop, the table has a row. */
  lemma StepFails(c: Context, plan: PhysicalPlan, order: seq<nat>, i: nat, name: string, column: string)
    requires Plannable(c) && Unique(order + [i]) && Reached(c, order) && JoinPlan(c, plan, order + [i]) && order != []
    requires 0 < i < |c.nodes| && LooseEquality(c, i, name, column) && (forall j <- order :: j < |c.nodes|) && !Readable(c, order + [i], name)
    ensures Exec(plan, c.db).Err? <==> Satisfiable(c, order) && (plan.Hash? || TableOf(c, i).rows != [])
  {
    hide Reached, Unique, Plannable, Readable, HashRows, NestedRows, Satisfies, ContextOk, Listed, Keyed, ScanRows;
    TypedThere(c);
    ReadableWith(c, order, i, name, column);
    UniquePrefix(order, i);
    ScanExec(c, i);
    var all := order + [i];
    assert all[..|all| - 1] == order && all[|all| - 1] == i;
    var left := match plan
      case NestedLoop(l, _, _) => l
      case Hash(build, probe, _, _) => if probe == Scan(c.nodes[i].table, c.nodes[i].alias) && JoinPlan(c, build, order) then build else probe;
    var l := JoinPlanLists(c, left, order);
    ListedSome(c, order, l);
    var acc, next := KeyRef(None, name), KeyRef(Some(c.nodes[i].alias), column);
    NextKeyed(c, i, acc, next);
    UnreadableFails(c, order, i, l, name, Eq, ColumnRef(Some(c.nodes[i].alias), column), next);
  }

  lemma NextKeyed(c: Context, i: nat, acc: KeyRef, next: KeyRef)
    requires Plannable(c) && 0 < i < |c.nodes| && c.nodes[i].cond.Some? && Sides(c.nodes[i].cond.value, c.nodes[i].alias, acc, next)
    ensures ContextOk(c) && Keyed(NewRows(c, i), next)
  {
    hide KeyOf, Sides, ContextOk;
    TypedThere(c);
    forall r | r in NewRows(c, i)
      ensures KeyOf(r, next).Ok?
    {
      var k: nat :| k < |NewRows(c, i)| && NewRows(c, i)[k] == r;
      NextKey(c, i, acc, next, k);
    }
  }

  lemma ListedSome(c: Context, order: seq<nat>, l: Listing)
    requires ContextOk(c) && Listed(c, order, l)
    ensures l.rows != [] <==> Satisfiable(c, order)
  {
    hide Satisfies, Picks, RowFor, ContextOk;
    if l.rows != [] {
      assert l.xs[0] in l.xs;
    }
  }

  /** Whatever is joined later, the failure stays. */
  lemma {:induction false} PrefixFails(c: Context, plan: PhysicalPlan, order: seq<nat>, n: nat)
    requires ContextOk(c) && DbOk(c.db) && JoinPlan(c, plan, order) && 0 < n <= |order|
    requires forall q :: JoinPlan(c, q, order[..n]) ==> Exec(q, c.db).Err?
    ensures Exec(plan, c.db).Err?
    decreases |order|
  {
    hide ContextOk, NestedRows, HashRows;
    if n == |order| {
      assert order[..n] == order;
    } else {
      var before := order[..|order| - 1];
      assert before[..n] == order[..n] && before != [];
      match plan
      case NestedLoop(left, _, _) => PrefixFails(c, left, before, n);
      case Hash(build, probe, _, _) =>
        if JoinPlan(c, build, before) {
          PrefixFails(c, build, before, n);
        } else {
          PrefixFails(c, probe, before, n);
        }
    }
  }

  /** A plan whose order takes a name's meaning away fails if rows get that far. */
  lemma PlanFails(c: Context, plan: PhysicalPlan, before: seq<nat>, i: nat, rest: seq<nat>, name: string, column: string)
    requires ContextOk(c) && Plannable(c) && JoinPlan(c, plan, before + [i] + rest) && before != []
    requires 0 < i < |c.nodes| && i !in before && Unique(before) && forall j <- before :: j < |c.nodes|
    requires Reached(c, before) && Satisfiable(c, before) && TableOf(c, i).rows != []
    requires LooseEquality(c, i, name, column) && !Readable(c, before + [i], name)
    ensures DbOk(c.db) && Exec(plan, c.db).Err?
  {
    hide Reached, Plannable, Readable, Satisfiable, ContextOk, DbOk, LooseEquality, JoinPlan, Exec, Unique;
    TypedThere(c);
    UniqueSnoc(before, i);
    var all, n := before + [i] + rest, |before| + 1;
    assert all[..n] == before + [i];
    forall q | JoinPlan(c, q, all[..n])
      ensures Exec(q, c.db).Err?
    {
      StepFails(c, q, before, i, name, column);
    }
    PrefixFails(c, plan, all, n);
  }

  /** Read as written, a validated SELECT * over well-typed conditions has an answer, and rows exactly if some combination
      satisfies the conditions. */
  lemma TextAnswers(stmt: SelectStmt, db: Db)
    requires var c := ContextOf(stmt, db); Plannable(c) && Reached(c, TextOrder(|c.nodes|))
    requires stmt.isStar && stmt.where.None?
    ensures DbOk(db) && ContextOk(ContextOf(stmt, db)) && Meaning(TextPlan(stmt), db).Ok?
    ensures Meaning(TextPlan(stmt), db).value != [] <==> Satisfiable(ContextOf(stmt, db), TextOrder(|stmt.joins| + 1))
  {
    hide Plannable, Reached, JoinPlan, NestedTree, TextTree, Exec, Meaning, Unique, ContextOk, DbOk, TextPlan, Satisfies, Listed;
    var c, n := ContextOf(stmt, db), |stmt.joins|;
    TypedThere(c);
    assert NodesOf(stmt)[..n + 1] == NodesOf(stmt) && stmt.joins[..n] == stmt.joins;
    NestedIsJoinPlan(c, n + 1);
    MeaningIsNested(stmt, n, db);
    var l := JoinPlanLists(c, NestedTree(NodesOf(stmt)), TextOrder(n + 1));
    ListedSome(c, TextOrder(n + 1), l);
    TextIs(stmt, db);
  }
}
