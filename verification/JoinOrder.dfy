/** Join order and strategy do not matter: any plan that joins each table once, after every table its ON condition
    refers to, enumerates exactly the combinations that satisfy all the conditions. */
module JoinOrder {
  import opened Pages
  import opened Query
  import opened Joins
  import opened Plans
  import opened References

  // ---------- what a condition means for a choice of rows ----------

  predicate Fits(v: Value, t: ColumnType) {
    v.IntV? <==> t.IntegerType?
  }

  /** Stored values have the types of their columns. */
  ghost predicate TypedTable(t: Table) {
    && Plans.TableOk(t)
    && forall r <- t.rows :: forall k :: 0 <= k < |t.columns| ==> Fits(r[k], t.columns[k].ctype)
  }

  ghost predicate Typed(c: Context) {
    ContextOk(c) && forall n <- c.db :: TypedTable(c.db[n])
  }

  /** The type of a literal, or of a column reference that has an owner and can be read from it, among the first `n` tables. */
  ghost function TypeOf(c: Context, n: nat, e: Expr): Option<ColumnType>
    requires ContextOk(c)
  {
    match e
    case ColumnRef(table, column) =>
      var j := OwnerOf(c, n, table, column);
      if j.Some? && Once(c, j.value, table, column) then
        var t := TableOf(c, j.value);
        Some(t.columns[IndexOf(t.columns, column).value].ctype)
      else None
    case Literal(v) => Some(if v.IntV? then IntegerType else TextType)
    case _ => None
  }

  /** A boolean combination of comparisons between such columns and literals, of equal type. */
  ghost predicate WellTyped(c: Context, n: nat, e: Expr)
    requires ContextOk(c)
  {
    match e
    case Compare(_, l, r) => TypeOf(c, n, l).Some? && TypeOf(c, n, l) == TypeOf(c, n, r)
    case And(l, r) => WellTyped(c, n, l) && WellTyped(c, n, r)
    case Or(l, r) => WellTyped(c, n, l) && WellTyped(c, n, r)
    case _ => false
  }

  /** Each reference of an expression, validated with the first `n` tables in scope, still has that meaning in the layout:
      its owner is there, and no other table there has an unqualified one's column. */
  ghost predicate ResolvedIn(c: Context, n: nat, e: Expr, layout: seq<nat>)
    requires ContextOk(c)
  {
    match e
    case ColumnRef(table, column) => Resolves(c, n, table, column, layout)
    case Literal(_) => true
    case Compare(_, l, r) => ResolvedIn(c, n, l, layout) && ResolvedIn(c, n, r, layout)
    case And(l, r) => ResolvedIn(c, n, l, layout) && ResolvedIn(c, n, r, layout)
    case Or(l, r) => ResolvedIn(c, n, l, layout) && ResolvedIn(c, n, r, layout)
  }

  lemma {:induction false} ResolvedSame(c: Context, n: nat, e: Expr, layout: seq<nat>, layout': seq<nat>)
    requires ContextOk(c) && ResolvedIn(c, n, e, layout) && forall j :: j in layout <==> j in layout'
    ensures ResolvedIn(c, n, e, layout')
    decreases e
  {
    hide ContextOk, OwnerOf;
    match e
    case ColumnRef(_, _) =>
    case Literal(_) =>
    case Compare(_, l, r) =>
      ResolvedSame(c, n, l, layout, layout');
      ResolvedSame(c, n, r, layout, layout');
    case And(l, r) =>
      ResolvedSame(c, n, l, layout, layout');
      ResolvedSame(c, n, r, layout, layout');
    case Or(l, r) =>
      ResolvedSame(c, n, l, layout, layout');
      ResolvedSame(c, n, r, layout, layout');
  }

  /** The value of an operand under a choice. */
  ghost function ValueIn(c: Context, n: nat, e: Expr, x: Choice): Value
    requires ContextOk(c)
  {
    match e
    case ColumnRef(table, column) =>
      var j := OwnerOf(c, n, table, column);
      if j.Some? then ValueAt(c, j.value, column, x) else IntV(0)
    case Literal(v) => v
    case _ => IntV(0)
  }

  /** Whether a condition holds of a choice, with no row in between. */
  ghost predicate CondIn(c: Context, n: nat, e: Expr, x: Choice)
    requires ContextOk(c)
  {
    match e
    case Compare(op, l, r) => Compares(op, ValueIn(c, n, l, x), ValueIn(c, n, r, x))
    case And(l, r) => CondIn(c, n, l, x) && CondIn(c, n, r, x)
    case Or(l, r) => CondIn(c, n, l, x) || CondIn(c, n, r, x)
    case _ => false
  }

  /** The ON condition of table `i`, with the tables up to `i` in scope, holds of a choice. */
  ghost predicate Meets(c: Context, i: nat, x: Choice)
    requires ContextOk(c) && i < |c.nodes|
  {
    c.nodes[i].cond.Some? ==> CondIn(c, i + 1, c.nodes[i].cond.value, x)
  }

  lemma {:induction false} CondAgree(c: Context, n: nat, e: Expr, layout: seq<nat>, x: Choice, y: Choice)
    requires ContextOk(c) && ResolvedIn(c, n, e, layout)
    requires forall j <- layout :: j in x && j in y && x[j] == y[j]
    ensures CondIn(c, n, e, x) == CondIn(c, n, e, y) && ValueIn(c, n, e, x) == ValueIn(c, n, e, y)
    decreases e
  {
    hide ContextOk, OwnerOf;
    match e
    case ColumnRef(_, _) =>
    case Literal(_) =>
    case Compare(_, l, r) =>
      CondAgree(c, n, l, layout, x, y);
      CondAgree(c, n, r, layout, x, y);
    case And(l, r) =>
      CondAgree(c, n, l, layout, x, y);
      CondAgree(c, n, r, layout, x, y);
    case Or(l, r) =>
      CondAgree(c, n, l, layout, x, y);
      CondAgree(c, n, r, layout, x, y);
  }

  // ---------- evaluation on a joined row agrees with the meaning ----------

  /** There is no value to compare: an unqualified column that its table declares more than once, or not an operand. */
  ghost predicate Unreadable(c: Context, n: nat, e: Expr)
    requires ContextOk(c)
  {
    match e
    case ColumnRef(table, column) =>
      var j := OwnerOf(c, n, table, column);
      j.None? || !Once(c, j.value, table, column)
    case Literal(_) => false
    case _ => true
  }

  /** Deciding the condition for a choice fails: it comes to an unreadable operand, or compares an integer with a text.  AND and
      OR come to their right side only if the left side leaves it open. */
  ghost predicate Stuck(c: Context, n: nat, e: Expr, x: Choice)
    requires ContextOk(c)
  {
    match e
    case Compare(_, l, r) => Unreadable(c, n, l) || Unreadable(c, n, r) || !SameKind(ValueIn(c, n, l, x), ValueIn(c, n, r, x))
    case And(l, r) => Stuck(c, n, l, x) || (CondIn(c, n, l, x) && Stuck(c, n, r, x))
    case Or(l, r) => Stuck(c, n, l, x) || (!CondIn(c, n, l, x) && Stuck(c, n, r, x))
    case _ => true
  }

  /** A column that its owner declares more than once is not there once. */
  lemma NotAlone(c: Context, n: nat, column: string, layout: seq<nat>, j: nat)
    requires ContextOk(c) && (forall i <- layout :: i < |c.nodes|) && Resolves(c, n, None, column, layout)
    requires OwnerOf(c, n, None, column) == Some(j) && !Once(c, j, None, column)
    ensures forall i :: !Alone(c, layout, column, i)
  {
    hide OwnerOf, Times, HasColumn, ContextOk;
    forall i
      ensures !Alone(c, layout, column, i)
    {
      if i in layout {
        TimesPositive(TableOf(c, i).columns, column);
      }
    }
  }

  /** An operand reads its value on any row in which its reference keeps its meaning, or is unreadable. */
  lemma OperandIs(c: Context, n: nat, e: Expr, layout: seq<nat>, x: Choice)
    requires ContextOk(c) && ResolvedIn(c, n, e, layout) && Picks(c, layout, x) && Unique(layout)
    ensures EvalValue(e, RowFor(c, layout, x)) == if Unreadable(c, n, e) then Err else Ok(ValueIn(c, n, e, x))
  {
    hide OwnerOf, RowFor, Find, Times, HasColumn, ContextOk;
    if e.ColumnRef? {
      var j := OwnerOf(c, n, e.table, e.column).value;
      if Once(c, j, e.table, e.column) {
        FindInRow(c, n, layout, x, e.table, e.column);
      } else {
        FindIfAlone(c, layout, x, e.column);
        NotAlone(c, n, e.column, layout, j);
      }
    }
  }

  /** A condition evaluates to its meaning on any row in which its references keep theirs, or fails where it is stuck. */
  lemma {:induction false} EvalIs(c: Context, n: nat, e: Expr, layout: seq<nat>, x: Choice)
    requires ContextOk(c) && ResolvedIn(c, n, e, layout) && Picks(c, layout, x) && Unique(layout)
    ensures EvalBool(e, RowFor(c, layout, x)) == if Stuck(c, n, e, x) then Err else Ok(CondIn(c, n, e, x))
    decreases e
  {
    hide RowFor, Find, ContextOk, OwnerOf, Once, Compares, CompareBy, Unreadable, ValueIn;
    match e
    case Compare(op, l, r) =>
      OperandIs(c, n, l, layout, x);
      OperandIs(c, n, r, layout, x);
      ComparesIs(op, ValueIn(c, n, l, x), ValueIn(c, n, r, x));
      CompareErr(op, EvalValue(l, RowFor(c, layout, x)), EvalValue(r, RowFor(c, layout, x)));
    case And(l, r) =>
      EvalIs(c, n, l, layout, x);
      EvalIs(c, n, r, layout, x);
    case Or(l, r) =>
      EvalIs(c, n, l, layout, x);
      EvalIs(c, n, r, layout, x);
    case _ =>
  }

  lemma CompareErr(op: CmpOp, a: Result<Value>, b: Result<Value>)
    ensures a.Err? || b.Err? ==> CompareBy(op, a, b).Err?
  {
  }

  // ---------- well-typed conditions ----------

  /** The choice picks a row of the operand's owner. */
  ghost predicate Chosen(c: Context, n: nat, e: Expr, x: Choice)
    requires ContextOk(c)
  {
    e.ColumnRef? ==>
      var j := OwnerOf(c, n, e.table, e.column);
      j.Some? && j.value in x && x[j.value] < |TableOf(c, j.value).rows|
  }

  lemma ValueFits(c: Context, n: nat, e: Expr, x: Choice)
    requires Typed(c) && TypeOf(c, n, e).Some? && Chosen(c, n, e, x)
    ensures Fits(ValueIn(c, n, e, x), TypeOf(c, n, e).value)
  {
    if e.ColumnRef? {
      var j := OwnerOf(c, n, e.table, e.column).value;
      var t := TableOf(c, j);
      assert c.nodes[j] in c.nodes && TypedTable(t);
      assert t.rows[x[j]] in t.rows;
    }
  }

  lemma TypedContext(c: Context)
    requires Typed(c)
    ensures ContextOk(c)
  {
  }

  lemma OperandChosen(c: Context, n: nat, e: Expr, layout: seq<nat>, x: Choice)
    requires ContextOk(c) && TypeOf(c, n, e).Some? && ResolvedIn(c, n, e, layout) && Picks(c, layout, x)
    ensures Chosen(c, n, e, x) && !Unreadable(c, n, e)
  {
    hide OwnerOf, Once;
  }

  /** A well-typed condition is never stuck. */
  lemma {:induction false} NeverStuckTyped(c: Context, n: nat, e: Expr, layout: seq<nat>, x: Choice)
    requires Typed(c) && WellTyped(c, n, e) && ResolvedIn(c, n, e, layout) && Picks(c, layout, x)
    ensures ContextOk(c) && !Stuck(c, n, e, x)
    decreases e
  {
    TypedContext(c);
    hide ContextOk, Typed, OwnerOf, Once, Unreadable, CondIn, ValueIn, TypeOf;
    match e
    case Compare(_, l, r) =>
      OperandChosen(c, n, l, layout, x);
      OperandChosen(c, n, r, layout, x);
      ValueFits(c, n, l, x);
      ValueFits(c, n, r, x);
    case And(l, r) =>
      NeverStuckTyped(c, n, l, layout, x);
      NeverStuckTyped(c, n, r, layout, x);
    case Or(l, r) =>
      NeverStuckTyped(c, n, l, layout, x);
      NeverStuckTyped(c, n, r, layout, x);
  }

  // ---------- the combinations a set of joins must produce ----------

  /** The choice picks one row for each table of `order` and satisfies the ON condition of each. */
  ghost predicate Satisfies(c: Context, order: seq<nat>, x: Choice)
    requires ContextOk(c)
  {
    && (forall j :: j in x <==> j in order)
    && Picks(c, order, x)
    && (forall j <- order :: Meets(c, j, x))
  }

  /** The listed choices are exactly the satisfying ones, each once. */
  ghost predicate Complete(c: Context, order: seq<nat>, xs: seq<Choice>)
    requires ContextOk(c)
  {
    Unique(xs) && forall x :: x in xs <==> Satisfies(c, order, x)
  }

  /** Row by row, the output is made from the listed choices. */
  ghost predicate Enumerates(c: Context, rows: seq<Row>, layout: seq<nat>, xs: seq<Choice>)
    requires ContextOk(c)
  {
    && |rows| == |xs|
    && forall k :: 0 <= k < |xs| ==> Picks(c, layout, xs[k]) && rows[k] == RowFor(c, layout, xs[k])
  }

  /** The references of table `i`'s condition, validated with the tables up to `i` in scope, keep their meaning in the layout. */
  ghost predicate CondResolved(c: Context, i: nat, layout: seq<nat>)
    requires ContextOk(c) && i < |c.nodes|
  {
    c.nodes[i].cond.Some? ==> ResolvedIn(c, i + 1, c.nodes[i].cond.value, layout)
  }

  /** Each table is joined when the tables its condition refers to are there, and before any other table that has an
      unqualified one's column. */
  ghost predicate Reached(c: Context, order: seq<nat>)
    requires ContextOk(c)
  {
    forall p :: 0 <= p < |order| ==> order[p] < |c.nodes| && CondResolved(c, order[p], order[..p + 1])
  }

  /** The pairs of (accumulated choice, new row) that a join of table `i` must keep. */
  ghost predicate ExactJoin(c: Context, xs: seq<Choice>, i: nat, pairs: seq<Pair>)
    requires ContextOk(c) && i < |c.nodes| && c.nodes[i].cond.Some?
  {
    && Unique(pairs)
    && forall p: Pair :: p in pairs <==>
                           p.0 < |xs| && p.1 < |TableOf(c, i).rows| && Meets(c, i, xs[p.0][i := p.1])
  }

  function Extend(xs: seq<Choice>, i: nat, pairs: seq<Pair>): (ys: seq<Choice>)
    requires forall p <- pairs :: p.0 < |xs|
    ensures |ys| == |pairs|
    ensures forall t :: 0 <= t < |ys| ==> pairs[t] in pairs && ys[t] == xs[pairs[t].0][i := pairs[t].1]
  {
    seq(|pairs|, t requires 0 <= t < |pairs| => assert pairs[t] in pairs; xs[pairs[t].0][i := pairs[t].1])
  }

  lemma ConditionsCarryOver(c: Context, order: seq<nat>, i: nat, x: Choice, y: Choice)
    requires ContextOk(c) && Reached(c, order) && i !in order
    requires forall j <- order :: j in x && j in y && x[j] == y[j]
    ensures forall j <- order :: Meets(c, j, x) == Meets(c, j, y)
  {
    hide CondIn, ResolvedIn, ContextOk;
    forall j | j in order
      ensures Meets(c, j, x) == Meets(c, j, y)
    {
      var p :| 0 <= p < |order| && order[p] == j;
      assert forall q <- order[..p + 1] :: q in order;
      if c.nodes[j].cond.Some? {
        CondAgree(c, j + 1, c.nodes[j].cond.value, order[..p + 1], x, y);
      }
    }
  }

  /** Extending a satisfying choice by a matching row satisfies one more condition. */
  lemma ExtendSatisfies(c: Context, order: seq<nat>, i: nat, x: Choice, k: nat)
    requires ContextOk(c) && Reached(c, order) && i !in order && i < |c.nodes| && c.nodes[i].cond.Some?
    requires Satisfies(c, order, x) && k < |TableOf(c, i).rows| && Meets(c, i, x[i := k])
    ensures Satisfies(c, order + [i], x[i := k])
  {
    hide Reached, Meets, CondResolved;
    ConditionsCarryOver(c, order, i, x, x[i := k]);
  }

  /** A satisfying choice for one more table restricts to a satisfying choice. */
  lemma RestrictSatisfies(c: Context, order: seq<nat>, i: nat, y: Choice)
    requires ContextOk(c) && Reached(c, order) && i !in order && i < |c.nodes| && c.nodes[i].cond.Some?
    requires Satisfies(c, order + [i], y)
    ensures Satisfies(c, order, y - {i}) && (y - {i})[i := y[i]] == y
    ensures y[i] < |TableOf(c, i).rows| && Meets(c, i, y)
  {
    hide Reached, Meets, CondResolved;
    assert i in order + [i];
    assert forall j <- order :: j in order + [i];
    ConditionsCarryOver(c, order, i, y, y - {i});
  }

  lemma ExtendUnique(xs: seq<Choice>, i: nat, pairs: seq<Pair>)
    requires Unique(xs) && Unique(pairs) && (forall x <- xs :: i !in x) && forall p <- pairs :: p.0 < |xs|
    ensures Unique(Extend(xs, i, pairs))
  {
    var ys := Extend(xs, i, pairs);
    forall s, t | 0 <= s < t < |ys|
      ensures ys[s] != ys[t]
    {
      var p, q := pairs[s], pairs[t];
      assert xs[p.0] in xs && xs[q.0] in xs;
      assert ys[s][i] == p.1 && ys[t][i] == q.1;
      assert ys[s] - {i} == xs[p.0] && ys[t] - {i} == xs[q.0];
    }
  }

  /** An exact join of one more table keeps the enumeration complete. */
  lemma JoinComplete(c: Context, order: seq<nat>, i: nat, xs: seq<Choice>, pairs: seq<Pair>)
    requires ContextOk(c) && Reached(c, order) && i !in order && i < |c.nodes| && c.nodes[i].cond.Some?
    requires Complete(c, order, xs) && ExactJoin(c, xs, i, pairs)
    ensures Complete(c, order + [i], Extend(xs, i, pairs))
  {
    hide Picks, Meets, Unique;
    var ys := Extend(xs, i, pairs);
    assert forall x <- xs :: Satisfies(c, order, x);
    ExtendUnique(xs, i, pairs);
    forall y
      ensures y in ys <==> Satisfies(c, order + [i], y)
    {
      if y in ys {
        var t :| 0 <= t < |ys| && ys[t] == y;
        var p := pairs[t];
        assert xs[p.0] in xs;
        ExtendSatisfies(c, order, i, xs[p.0], p.1);
      }
      if Satisfies(c, order + [i], y) {
        RestrictSatisfies(c, order, i, y);
        var a :| 0 <= a < |xs| && xs[a] == y - {i};
        assert (a, y[i]) in pairs;
        var t :| 0 <= t < |pairs| && pairs[t] == (a, y[i]);
        assert ys[t] == y;
      }
    }
  }

  lemma ExtendRow(c: Context, layout: seq<nat>, x: Choice, i: nat, k: nat)
    requires ContextOk(c) && Picks(c, layout, x) && i !in layout && i < |c.nodes| && k < |TableOf(c, i).rows|
    ensures Picks(c, layout + [i], x[i := k]) && Picks(c, [i] + layout, x[i := k])
    ensures RowFor(c, layout + [i], x[i := k]) == RowFor(c, layout, x) + Part(c, i, k)
    ensures RowFor(c, [i] + layout, x[i := k]) == Part(c, i, k) + RowFor(c, layout, x)
  {
    var y := x[i := k];
    assert Picks(c, layout, y);
    RowForAgree(c, layout, x, y);
    assert Picks(c, layout + [i], y);
    RowForAppend(c, layout, [i], y);
    assert Picks(c, [i] + layout, y);
    RowForAppend(c, [i], layout, y);
    assert RowFor(c, [i], y) == Part(c, i, k) by {
      assert [i][1..] == [];
      assert RowFor(c, [], y) == [];
      assert Part(c, i, k) + [] == Part(c, i, k);
    }
  }

  // ---------- plans that join each table once ----------

  predicate ColumnEquality(cond: Expr) {
    cond.Compare? && cond.op.Eq? && cond.left.ColumnRef? && cond.right.ColumnRef?
  }

  /** The columns of an equality between the new table and an earlier one, as the planner assigns them to sides: the side
      that names the new table is its key, the other one the key of the accumulated rows. */
  ghost predicate Sides(cond: Expr, alias: string, acc: KeyRef, next: KeyRef) {
    && ColumnEquality(cond)
    && var l, r := KeyRef(cond.left.table, cond.left.column), KeyRef(cond.right.table, cond.right.column);
       if l.table == Some(alias) then next == l && acc == r else r.table == Some(alias) && next == r && acc == l
  }

  /** `plan` joins the tables of `order` one after the other, each by either strategy and with either build side. */
  ghost predicate JoinPlan(c: Context, plan: PhysicalPlan, order: seq<nat>)
    decreases |order|
  {
    if |order| == 0 || order[|order| - 1] >= |c.nodes| then false
    else
      var i, before := order[|order| - 1], order[..|order| - 1];
      var scan := Scan(c.nodes[i].table, c.nodes[i].alias);
      if before == [] then i == 0 && plan == scan
      else
        && c.nodes[i].cond.Some?
        && match plan
           case NestedLoop(left, right, cond) =>
             right == scan && cond == c.nodes[i].cond.value && JoinPlan(c, left, before)
           case Hash(build, probe, bk, pk) =>
             || (probe == scan && Sides(c.nodes[i].cond.value, c.nodes[i].alias, bk, pk) && JoinPlan(c, build, before))
             || (build == scan && Sides(c.nodes[i].cond.value, c.nodes[i].alias, pk, bk) && JoinPlan(c, probe, before))
           case _ => false
  }

  /** A hash join of table `i` would look up a column of table `i` itself in the accumulated rows. */
  ghost predicate SelfKeyed(c: Context, i: nat)
    requires ContextOk(c) && 0 < i < |c.nodes|
  {
    exists acc, next :: Sides(c.nodes[i].cond.value, c.nodes[i].alias, acc, next) && OwnerOf(c, i + 1, acc.table, acc.column) == Some(i)
  }

  /** Every ON condition is well typed with the tables written so far in scope, and no equality that names the table it
      introduces has both columns there. */
  ghost predicate SoundConditions(c: Context)
    requires ContextOk(c)
  {
    forall i: nat :: 0 < i < |c.nodes| ==> WellTyped(c, i + 1, c.nodes[i].cond.value) && !SelfKeyed(c, i)
  }

  /** Over typed tables. */
  ghost predicate Plannable(c: Context) {
    Typed(c) && SoundConditions(c)
  }

  /** The result of a join plan, as the combinations it stands for. */
  datatype Listing = Listing(rows: seq<Row>, layout: seq<nat>, xs: seq<Choice>)

  ghost predicate Listed(c: Context, order: seq<nat>, l: Listing)
    requires ContextOk(c)
  {
    && Enumerates(c, l.rows, l.layout, l.xs) && Complete(c, order, l.xs)
    && Unique(l.layout) && forall j :: j in l.layout <==> j in order
  }

  ghost predicate Lists(c: Context, plan: PhysicalPlan, order: seq<nat>, l: Listing)
    requires ContextOk(c)
  {
    Exec(plan, c.db) == Ok(l.rows) && Listed(c, order, l)
  }

  function ScanChoices(n: nat): (xs: seq<Choice>)
    ensures |xs| == n && forall k :: 0 <= k < n ==> xs[k] == map[0 as nat := k]
  {
    seq(n, (k: nat) => map[0 as nat := k])
  }

  lemma ScanUnique(n: nat)
    ensures Unique(ScanChoices(n))
  {
    var xs := ScanChoices(n);
    forall a, b | 0 <= a < b < |xs|
      ensures xs[a] != xs[b]
    {
      assert xs[a][0] == a && xs[b][0] == b;
    }
  }

  lemma ScanSatisfies(c: Context, x: Choice)
    requires ContextOk(c) && |c.nodes| > 0
    ensures x in ScanChoices(|TableOf(c, 0).rows|) <==> Satisfies(c, [0], x)
  {
    var xs := ScanChoices(|TableOf(c, 0).rows|);
    assert 0 in [0 as nat];
    if Satisfies(c, [0], x) {
      assert x == map[0 := x[0]];
      assert xs[x[0]] == x;
    }
  }

  lemma ScanRow(c: Context, k: nat)
    requires ContextOk(c) && |c.nodes| > 0 && k < |TableOf(c, 0).rows|
    ensures Picks(c, [0], map[0 := k]) && Part(c, 0, k) == RowFor(c, [0], map[0 := k])
  {
    var x: Choice := map[0 := k];
    assert [0][1..] == [];
    assert RowFor(c, [], x) == [];
    assert Part(c, 0, k) + [] == Part(c, 0, k);
  }

  lemma ScanLists(c: Context) returns (l: Listing)
    requires ContextOk(c) && |c.nodes| > 0
    ensures Lists(c, Scan(c.nodes[0].table, c.nodes[0].alias), [0], l) && l.layout == [0]
  {
    hide Satisfies, RowFor;
    var t := TableOf(c, 0);
    var xs := ScanChoices(|t.rows|);
    l := Listing(ScanRows(t, c.nodes[0].alias), [0], xs);
    assert c.nodes[0] in c.nodes;
    forall k | 0 <= k < |xs|
      ensures Picks(c, [0], xs[k]) && l.rows[k] == RowFor(c, [0], xs[k])
    {
      ScanRow(c, k);
    }
    ScanUnique(|t.rows|);
    forall x
      ensures x in xs <==> Satisfies(c, [0], x)
    {
      ScanSatisfies(c, x);
    }
  }

  /** Table `i` comes next after the tables that `l` lists. */
  ghost predicate Follows(c: Context, order: seq<nat>, i: nat, l: Listing)
    requires ContextOk(c)
  {
    Unique(order) && Reached(c, order + [i]) && i !in order && 0 < i < |c.nodes| && Listed(c, order, l)
  }

  ghost predicate Ready(c: Context, order: seq<nat>, i: nat, l: Listing)
    requires ContextOk(c)
  {
    Plannable(c) && Follows(c, order, i, l)
  }

  ghost function NewRows(c: Context, i: nat): seq<Row>
    requires ContextOk(c) && i < |c.nodes|
  {
    ScanRows(TableOf(c, i), c.nodes[i].alias)
  }

  lemma ReachedBefore(c: Context, order: seq<nat>, i: nat)
    requires ContextOk(c) && Reached(c, order + [i])
    ensures Reached(c, order) && i < |c.nodes| && CondResolved(c, i, order + [i])
  {
    hide CondResolved;
    var all := order + [i];
    assert all[..|all|] == all && all[|order|] == i;
    forall p | 0 <= p < |order|
      ensures order[p] < |c.nodes| && CondResolved(c, order[p], order[..p + 1])
    {
      assert all[p] == order[p] && all[..p + 1] == order[..p + 1];
    }
  }

  /** A joined pair is the row of the extended choice, on which the condition evaluates to its meaning or is stuck. */
  lemma PairIs(c: Context, order: seq<nat>, i: nat, l: Listing, a: nat, k: nat)
    requires ContextOk(c) && Follows(c, order, i, l) && a < |l.xs| && k < |TableOf(c, i).rows|
    ensures var e, y := c.nodes[i].cond.value, l.xs[a][i := k];
            EvalBool(e, l.rows[a] + NewRows(c, i)[k]) == if Stuck(c, i + 1, e, y) then Err else Ok(Meets(c, i, y))
    ensures Picks(c, l.layout + [i], l.xs[a][i := k]) && l.rows[a] + NewRows(c, i)[k] == RowFor(c, l.layout + [i], l.xs[a][i := k])
    ensures Picks(c, [i] + l.layout, l.xs[a][i := k]) && NewRows(c, i)[k] + l.rows[a] == RowFor(c, [i] + l.layout, l.xs[a][i := k])
  {
    hide EvalBool, CondIn, RowFor, Complete, ResolvedIn, Stuck;
    ReachedBefore(c, order, i);
    ExtendRow(c, l.layout, l.xs[a], i, k);
    UniqueSnoc(l.layout, i);
    ResolvedSame(c, i + 1, c.nodes[i].cond.value, order + [i], l.layout + [i]);
    EvalIs(c, i + 1, c.nodes[i].cond.value, l.layout + [i], l.xs[a][i := k]);
  }

  /** Over well-typed conditions no pair is stuck. */
  lemma PairDecided(c: Context, order: seq<nat>, i: nat, l: Listing, a: nat, k: nat)
    requires ContextOk(c) && Ready(c, order, i, l) && a < |l.xs| && k < |TableOf(c, i).rows|
    ensures !Stuck(c, i + 1, c.nodes[i].cond.value, l.xs[a][i := k])
  {
    hide CondIn, RowFor, Complete, WellTyped, ResolvedIn, Stuck;
    ReachedBefore(c, order, i);
    ExtendRow(c, l.layout, l.xs[a], i, k);
    ResolvedSame(c, i + 1, c.nodes[i].cond.value, order + [i], l.layout + [i]);
    NeverStuckTyped(c, i + 1, c.nodes[i].cond.value, l.layout + [i], l.xs[a][i := k]);
  }

  lemma UniqueSnoc(xs: seq<nat>, x: nat)
    requires Unique(xs) && x !in xs
    ensures Unique(xs + [x]) && Unique([x] + xs)
  {
    UniqueCons(x, xs);
    var all := xs + [x];
    forall i, j | 0 <= i < j < |all|
      ensures all[i] != all[j]
    {
      assert all[i] == xs[i] && xs[i] in xs;
      assert j < |xs| ==> all[j] == xs[j];
    }
  }

  /** Exact pairs turn a listing of `order` into a listing of `order` and `i`. */
  lemma ListMore(c: Context, order: seq<nat>, i: nat, l: Listing, pairs: seq<Pair>, rows: seq<Row>, front: bool) returns (l': Listing)
    requires ContextOk(c) && Follows(c, order, i, l) && ExactJoin(c, l.xs, i, pairs) && |rows| == |pairs|
    requires forall t :: 0 <= t < |pairs| && pairs[t] in pairs ==>
                           rows[t] == if front then NewRows(c, i)[pairs[t].1] + l.rows[pairs[t].0]
                                      else l.rows[pairs[t].0] + NewRows(c, i)[pairs[t].1]
    ensures l'.rows == rows && Listed(c, order + [i], l') && (!front ==> l'.layout == l.layout + [i])
  {
    hide EvalBool, Meets, RowFor, Satisfies;
    ReachedBefore(c, order, i);
    JoinComplete(c, order, i, l.xs, pairs);
    UniqueSnoc(l.layout, i);
    var layout := if front then [i] + l.layout else l.layout + [i];
    var ys := Extend(l.xs, i, pairs);
    forall t | 0 <= t < |ys|
      ensures Picks(c, layout, ys[t]) && rows[t] == RowFor(c, layout, ys[t])
    {
      assert pairs[t] in pairs;
      PairIs(c, order, i, l, pairs[t].0, pairs[t].1);
    }
    l' := Listing(rows, layout, ys);
  }
}
