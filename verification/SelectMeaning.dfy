/** What a SELECT means, said over the stored rows alone: which choices of one row per table it keeps, what it shows of each, and
    when it has no answer. */
module SelectMeaning {
  import opened Pages
  import opened Query
  import opened Joins
  import opened Plans
  import opened References
  import opened JoinOrder
  import opened JoinSteps
  import opened Bags
  import opened Planner
  import opened PlanMeaning
  import opened Semantic

  // ---------- which choices, and when there is no answer ----------

  /** The choice picks a row of each of the first `n` tables, and satisfies their ON conditions. */
  ghost predicate Joined(c: Context, n: nat, x: Choice)
    requires ContextOk(c)
  {
    Satisfies(c, TextOrder(n), x)
  }

  /** A choice that is to be shown: it satisfies WHERE as well. */
  ghost predicate Kept(c: Context, where: Option<Expr>, x: Choice)
    requires ContextOk(c)
  {
    Joined(c, |c.nodes|, x) && (where.Some? ==> CondIn(c, |c.nodes|, where.value, x))
  }

  /** Table `i` is reached by a choice of rows before it, and has a row with which the condition that introduces it is stuck. */
  ghost predicate StuckAt(c: Context, i: nat, x: Choice, k: nat)
    requires ContextOk(c)
  {
    0 < i < |c.nodes| && k < |TableOf(c, i).rows| && Joined(c, i, x) && Stuck(c, i + 1, c.nodes[i].cond.value, x[i := k])
  }

  /** An ON condition among the first `n` tables is stuck. */
  ghost predicate JoinStuck(c: Context, n: nat)
    requires ContextOk(c)
  {
    exists i: nat, x, k :: i < n && StuckAt(c, i, x, k)
  }

  ghost predicate WhereStuck(c: Context, where: Option<Expr>)
    requires ContextOk(c)
  {
    where.Some? && exists x :: Joined(c, |c.nodes|, x) && Stuck(c, |c.nodes|, where.value, x)
  }

  function ItemRef(i: SelectItem): Expr {
    ColumnRef(i.table, i.column)
  }

  ghost predicate ItemStuck(c: Context, items: seq<SelectItem>)
    requires ContextOk(c)
  {
    exists i <- items :: Unreadable(c, |c.nodes|, ItemRef(i))
  }

  /** There is no answer: some condition is stuck on rows it is asked about, or some row is to be shown and an item of the select
      list cannot be read. */
  ghost predicate Fails(c: Context, stmt: SelectStmt)
    requires ContextOk(c)
  {
    || JoinStuck(c, |c.nodes|)
    || WhereStuck(c, stmt.where)
    || (!stmt.isStar && ItemStuck(c, stmt.items) && exists x :: Kept(c, stmt.where, x))
  }

  // ---------- what is shown ----------

  /** The fields of row `k` of table `j`. */
  function FieldsOf(c: Context, j: nat, k: nat): Row
    requires ContextOk(c) && j < |c.nodes| && k < |TableOf(c, j).rows|
  {
    var t := TableOf(c, j);
    assert t.rows[k] in t.rows;
    seq(|t.columns|, i requires 0 <= i < |t.columns| => Field(c.nodes[j].alias, t.columns[i].name, t.rows[k][i]))
  }

  /** For `*`: the chosen row of each of the first `n` tables, side by side. */
  function StarRow(c: Context, n: nat, x: Choice): Row
    requires ContextOk(c) && n <= |c.nodes| && forall j: nat :: j < n ==> j in x && x[j] < |TableOf(c, j).rows|
  {
    if n == 0 then [] else StarRow(c, n - 1, x) + FieldsOf(c, n - 1, x[n - 1])
  }

  /** For an item: its value, named by its alias if it has one and by its column if not. */
  ghost function ItemField(c: Context, i: SelectItem, x: Choice): Field
    requires ContextOk(c)
  {
    Field(if i.table.Some? then i.table.value else "", if i.alias.Some? then i.alias.value else i.column,
          ValueIn(c, |c.nodes|, ItemRef(i), x))
  }

  ghost function ItemRow(c: Context, items: seq<SelectItem>, x: Choice): (r: Row)
    requires ContextOk(c)
    ensures |r| == |items| && forall k :: 0 <= k < |items| ==> r[k] == ItemField(c, items[k], x)
  {
    seq(|items|, k requires 0 <= k < |items| => ItemField(c, items[k], x))
  }

  ghost function Shown(c: Context, isStar: bool, items: seq<SelectItem>, x: Choice): Row
    requires ContextOk(c) && Joined(c, |c.nodes|, x)
  {
    if isStar then StarRow(c, |c.nodes|, x) else ItemRow(c, items, x)
  }

  /** Exactly the choices to be shown, each once. */
  ghost predicate Keeps(c: Context, where: Option<Expr>, xs: seq<Choice>)
    requires ContextOk(c)
  {
    Unique(xs) && forall x :: x in xs <==> Kept(c, where, x)
  }

  ghost function ShownRows(c: Context, stmt: SelectStmt, xs: seq<Choice>): (rows: seq<Row>)
    requires ContextOk(c) && Keeps(c, stmt.where, xs)
  {
    seq(|xs|, k requires 0 <= k < |xs| => assert xs[k] in xs; Shown(c, stmt.isStar, stmt.items, xs[k]))
  }

  /** The result is what the statement means: an error exactly if it fails, and else one row for each choice to be shown, in some
      order; for `*` also in some order of the tables. */
  ghost predicate Tells(stmt: SelectStmt, db: Db, out: Result<seq<Row>>) {
    var c := ContextOf(stmt, db);
    && ContextOk(c)
    && (out.Err? <==> Fails(c, stmt))
    && (out.Ok? ==> exists xs :: Keeps(c, stmt.where, xs) && SameAnswer(stmt.isStar, out, Ok(ShownRows(c, stmt, xs))))
  }

  // ---------- the joins ----------

  lemma FirstText()
    ensures TextOrder(1) == [0]
  {
  }

  lemma MoreText(n: nat)
    ensures TextOrder(n) + [n] == TextOrder(n + 1)
    ensures Unique(TextOrder(n)) && n !in TextOrder(n)
  {
  }

  lemma ReachedFirst(c: Context, n: nat)
    requires ContextOk(c) && Reached(c, TextOrder(|c.nodes|)) && n <= |c.nodes|
    ensures Reached(c, TextOrder(n))
  {
    hide CondResolved, ContextOk;
    var all, text := TextOrder(|c.nodes|), TextOrder(n);
    forall p | 0 <= p < n
      ensures text[p] < |c.nodes| && CondResolved(c, text[p], text[..p + 1])
    {
      assert text[p] == all[p] && text[..p + 1] == all[..p + 1];
    }
  }

  /** One more table: stuck if some pair is, and else listed. */
  lemma NestedMeans(c: Context, i: nat, l: Listing) returns (l': Listing)
    requires ContextOk(c) && Follows(c, TextOrder(i), i, l) && l.layout == TextOrder(i)
    ensures var r := NestedRows(l.rows, NewRows(c, i), c.nodes[i].cond.value);
            && (r.Err? <==> exists x, k :: StuckAt(c, i, x, k))
            && (r.Ok? ==> r == Ok(l'.rows) && Listed(c, TextOrder(i + 1), l') && l'.layout == TextOrder(i + 1))
  {
    hide Listed, Reached, Meets, RowFor, Unique, NestedFrom, ContextOk, Evaluable, NestedTest, PairsFrom, EvalBool, Stuck;
    CondThere(c, i);
    SameLength(c, TextOrder(i), l);
    MoreText(i);
    var left, right, cond := l.rows, NewRows(c, i), c.nodes[i].cond.value;
    if x, k :| StuckAt(c, i, x, k) {
      var a := ListedAt(c, i, l, x);
      PairIs(c, TextOrder(i), i, l, a, k);
      NestedErr(left, right, cond, 0, 0, (a, k));
      l' := l;
    } else {
      forall a: nat, k: nat | a < |l.xs| && k < |TableOf(c, i).rows|
        ensures EvalBool(cond, left[a] + right[k]) == Ok(Meets(c, i, l.xs[a][i := k]))
      {
        PairIs(c, TextOrder(i), i, l, a, k);
        ListedJoined(c, i, l, a);
        assert !StuckAt(c, i, l.xs[a], k);
      }
      NestedFine(c, i, l);
      NestedPairs(left, right, cond, 0, 0);
      var test := NestedTest(left, right, cond);
      ExactTest(c, l.xs, i, test);
      var pairs := PairsFrom(|left|, |right|, test, 0, 0);
      l' := ListMore(c, TextOrder(i), i, l, pairs, RowsOf(left, right, pairs), false);
    }
  }

  lemma ListedAt(c: Context, i: nat, l: Listing, x: Choice) returns (a: nat)
    requires ContextOk(c) && Listed(c, TextOrder(i), l) && Joined(c, i, x)
    ensures a < |l.xs| && l.xs[a] == x
  {
    hide Satisfies;
    assert x in l.xs;
    a :| a < |l.xs| && l.xs[a] == x;
  }

  lemma ListedJoined(c: Context, i: nat, l: Listing, a: nat)
    requires ContextOk(c) && Listed(c, TextOrder(i), l) && a < |l.xs|
    ensures Joined(c, i, l.xs[a])
  {
    hide Satisfies;
    assert l.xs[a] in l.xs;
  }

  lemma NestedFine(c: Context, i: nat, l: Listing)
    requires ContextOk(c) && 0 < i < |c.nodes| && c.nodes[i].cond.Some? && |l.rows| == |l.xs|
    requires forall a: nat, k: nat :: a < |l.xs| && k < |TableOf(c, i).rows| ==>
               EvalBool(c.nodes[i].cond.value, l.rows[a] + NewRows(c, i)[k]) == Ok(Meets(c, i, l.xs[a][i := k]))
    ensures Evaluable(l.rows, NewRows(c, i), c.nodes[i].cond.value)
    ensures forall a, k :: 0 <= a < |l.xs| && 0 <= k < |TableOf(c, i).rows| ==>
                             (NestedTest(l.rows, NewRows(c, i), c.nodes[i].cond.value)((a, k)) <==> Meets(c, i, l.xs[a][i := k]))
  {
    hide EvalBool, Meets, ContextOk;
  }

  /** The first `n` tables, joined as written: an error if one of their conditions is stuck, and else the choices that satisfy them. */
  lemma {:induction false} TreeMeans(c: Context, n: nat) returns (l: Listing)
    requires ContextOk(c) && Reached(c, TextOrder(|c.nodes|)) && 0 < n <= |c.nodes|
    ensures DbOk(c.db) && forall i :: 0 < i < n ==> c.nodes[..n][i].cond.Some?
    ensures var r := Exec(NestedTree(c.nodes[..n]), c.db);
            && (r.Err? <==> JoinStuck(c, n))
            && (r.Ok? ==> r == Ok(l.rows) && Listed(c, TextOrder(n), l) && l.layout == TextOrder(n))
    decreases n
  {
    CondsThere(c, n);
    ContextDb(c);
    hide Listed, Reached, NestedRows, StuckAt, TextOrder, Unique, NestedTree, Exec, JoinStuck, ContextOk, DbOk, Follows;
    if n == 1 {
      FirstText();
      FirstTree(c);
      l := ScanLists(c);
    } else {
      l := TreeMeans(c, n - 1);
      TreeStep(c, n - 1);
      StuckMore(c, n - 1);
      if !JoinStuck(c, n - 1) {
        ReachedFirst(c, n);
        MoreText(n - 1);
        NextFollows(c, n - 1, l);
        l := NestedMeans(c, n - 1, l);
      }
    }
  }

  lemma CondsThere(c: Context, n: nat)
    requires ContextOk(c) && 0 < n <= |c.nodes|
    ensures forall i :: 0 < i < |c.nodes| ==> c.nodes[i].cond.Some?
    ensures forall i :: 0 < i < n ==> c.nodes[..n][i].cond.Some?
  {
  }

  lemma ContextDb(c: Context)
    requires ContextOk(c)
    ensures DbOk(c.db)
  {
  }

  lemma NextFollows(c: Context, i: nat, l: Listing)
    requires ContextOk(c) && 0 < i < |c.nodes| && Listed(c, TextOrder(i), l) && Reached(c, TextOrder(i + 1)) && TextOrder(i) + [i] == TextOrder(i + 1)
    requires Unique(TextOrder(i)) && i !in TextOrder(i)
    ensures Follows(c, TextOrder(i), i, l)
  {
  }

  lemma FirstTree(c: Context)
    requires ContextOk(c) && |c.nodes| > 0
    ensures NestedTree(c.nodes[..1]) == Scan(c.nodes[0].table, c.nodes[0].alias)
    ensures !JoinStuck(c, 1)
  {
  }

  lemma TreeStep(c: Context, i: nat)
    requires ContextOk(c) && 0 < i < |c.nodes| && forall j :: 0 < j < |c.nodes| ==> c.nodes[j].cond.Some?
    ensures var r := Exec(NestedTree(c.nodes[..i]), c.db);
            Exec(NestedTree(c.nodes[..i + 1]), c.db) == if r.Err? then Err else NestedRows(r.value, NewRows(c, i), c.nodes[i].cond.value)
  {
    hide NestedRows, HashRows, FilterRows, ProjectRows, ScanRows, ContextOk;
    assert c.nodes[..i + 1][..i] == c.nodes[..i];
    assert NestedTree(c.nodes[..i + 1]) == NestedLoop(NestedTree(c.nodes[..i]), ScanOf(c.nodes[i]), c.nodes[i].cond.value);
    ScanExec(c, i);
  }

  lemma StuckMore(c: Context, i: nat)
    requires ContextOk(c)
    ensures JoinStuck(c, i + 1) <==> JoinStuck(c, i) || exists x, k :: StuckAt(c, i, x, k)
  {
    hide StuckAt, ContextOk;
    if x, k :| StuckAt(c, i, x, k) {
      assert StuckAt(c, i, x, k) && i < i + 1;
    }
    if j: nat, x, k :| j < i && StuckAt(c, j, x, k) {
      assert j < i + 1;
    }
    if j: nat, x, k :| j < i + 1 && StuckAt(c, j, x, k) {
      assert j == i || j < i;
    }
  }

  // ---------- WHERE ----------

  /** Rows that stand for choices, in order. */
  ghost predicate StandFor(c: Context, rows: seq<Row>, xs: seq<Choice>)
    requires ContextOk(c)
  {
    Enumerates(c, rows, TextOrder(|c.nodes|), xs)
  }

  lemma StandTail(c: Context, rows: seq<Row>, xs: seq<Choice>)
    requires ContextOk(c) && StandFor(c, rows, xs) && xs != []
    ensures rows != [] && StandFor(c, rows[1..], xs[1..])
    ensures Picks(c, TextOrder(|c.nodes|), xs[0]) && rows[0] == RowFor(c, TextOrder(|c.nodes|), xs[0])
  {
    hide ContextOk, Picks, RowFor, TextOrder;
  }

  lemma StandCons(c: Context, row: Row, rows: seq<Row>, x: Choice, xs: seq<Choice>)
    requires ContextOk(c) && StandFor(c, rows, xs)
    requires Picks(c, TextOrder(|c.nodes|), x) && row == RowFor(c, TextOrder(|c.nodes|), x)
    ensures StandFor(c, [row] + rows, [x] + xs)
  {
    hide ContextOk, Picks, RowFor, TextOrder;
  }

  /** A filter fails if it is stuck on some choice, and else keeps the choices for which its condition holds. */
  lemma {:induction false} FilterMeans(c: Context, where: Expr, rows: seq<Row>, xs: seq<Choice>) returns (ys: seq<Choice>)
    requires ContextOk(c) && StandFor(c, rows, xs) && ResolvedIn(c, |c.nodes|, where, TextOrder(|c.nodes|))
    ensures FilterRows(rows, where).Err? <==> exists x <- xs :: Stuck(c, |c.nodes|, where, x)
    ensures FilterRows(rows, where).Ok? ==> StandFor(c, FilterRows(rows, where).value, ys)
    ensures forall x :: x in ys <==> x in xs && CondIn(c, |c.nodes|, where, x)
    ensures Unique(xs) ==> Unique(ys)
    decreases |xs|
  {
    hide EvalBool, Stuck, CondIn, ResolvedIn, ContextOk, StandFor, Unique, TextOrder;
    if xs == [] {
      ys := [];
      StandNone(c, rows);
    } else {
      StandTail(c, rows, xs);
      ys := FilterMeans(c, where, rows[1..], xs[1..]);
      TextUnique(c);
      EvalIs(c, |c.nodes|, where, TextOrder(|c.nodes|), xs[0]);
      assert xs == [xs[0]] + xs[1..];
      UniqueTail(xs);
      if CondIn(c, |c.nodes|, where, xs[0]) {
        if FilterRows(rows[1..], where).Ok? {
          StandCons(c, rows[0], FilterRows(rows[1..], where).value, xs[0], ys);
        }
        if Unique(xs) {
          UniqueFirst(xs[0], ys);
        }
        ys := [xs[0]] + ys;
      }
    }
  }

  lemma StandNone(c: Context, rows: seq<Row>)
    requires ContextOk(c)
    ensures StandFor(c, [], []) && Unique<Choice>([]) && (StandFor(c, rows, []) ==> rows == [])
  {
  }

  lemma TextUnique(c: Context)
    ensures Unique(TextOrder(|c.nodes|))
  {
  }

  lemma UniqueTail<T>(xs: seq<T>)
    requires xs != []
    ensures Unique(xs) ==> Unique(xs[1..]) && xs[0] !in xs[1..]
  {
  }

  lemma UniqueFirst<T>(x: T, xs: seq<T>)
    requires Unique(xs) && x !in xs
    ensures Unique([x] + xs)
  {
    UniqueCons(x, xs);
  }

  // ---------- the select list ----------

  lemma FirstStuck(c: Context, items: seq<SelectItem>)
    requires ContextOk(c) && items != []
    ensures ItemStuck(c, items) <==> Unreadable(c, |c.nodes|, ItemRef(items[0])) || ItemStuck(c, items[1..])
  {
    hide Unreadable, ContextOk;
    assert items == [items[0]] + items[1..];
  }

  lemma NoneItemStuck(c: Context)
    requires ContextOk(c)
    ensures !ItemStuck(c, [])
  {
  }

  /** The items read their values on a joined row, unless one of them cannot be read. */
  lemma {:induction false} ItemsMean(c: Context, items: seq<SelectItem>, x: Choice)
    requires ContextOk(c) && Picks(c, TextOrder(|c.nodes|), x)
    requires forall i <- items :: ResolvedIn(c, |c.nodes|, ItemRef(i), TextOrder(|c.nodes|))
    ensures ProjectRow(RowFor(c, TextOrder(|c.nodes|), x), items)
         == if ItemStuck(c, items) then Err else Ok(ItemRow(c, items, x))
  {
    hide Find, RowFor, ResolvedIn, Unreadable, ContextOk, Picks, TextOrder, ValueIn, ItemStuck, Unique, EvalValue;
    NoneItemStuck(c);
    if items != [] {
      assert items[0] in items && (forall i <- items[1..] :: i in items);
      ItemsMean(c, items[1..], x);
      TextUnique(c);
      OperandIs(c, |c.nodes|, ItemRef(items[0]), TextOrder(|c.nodes|), x);
      OneItem(c, RowFor(c, TextOrder(|c.nodes|), x), items, x);
    }
  }

  lemma OneItem(c: Context, row: Row, items: seq<SelectItem>, x: Choice)
    requires ContextOk(c) && items != []
    requires EvalValue(ItemRef(items[0]), row)
          == if Unreadable(c, |c.nodes|, ItemRef(items[0])) then Err else Ok(ValueIn(c, |c.nodes|, ItemRef(items[0]), x))
    requires ProjectRow(row, items[1..]) == if ItemStuck(c, items[1..]) then Err else Ok(ItemRow(c, items[1..], x))
    ensures ProjectRow(row, items) == if ItemStuck(c, items) then Err else Ok(ItemRow(c, items, x))
  {
    hide Find, Unreadable, ContextOk, ValueIn, ItemStuck;
    FirstStuck(c, items);
    assert ItemRow(c, items, x) == [ItemField(c, items[0], x)] + ItemRow(c, items[1..], x);
  }

  ghost function ItemRows(c: Context, items: seq<SelectItem>, xs: seq<Choice>): (rows: seq<Row>)
    requires ContextOk(c)
    ensures |rows| == |xs| && forall k :: 0 <= k < |xs| ==> rows[k] == ItemRow(c, items, xs[k])
  {
    seq(|xs|, k requires 0 <= k < |xs| => ItemRow(c, items, xs[k]))
  }

  /** A select list fails if there is a row and an item that cannot be read, and else shows each choice. */
  lemma {:induction false} ProjectMeans(c: Context, items: seq<SelectItem>, rows: seq<Row>, xs: seq<Choice>)
    requires ContextOk(c) && StandFor(c, rows, xs)
    requires forall i <- items :: ResolvedIn(c, |c.nodes|, ItemRef(i), TextOrder(|c.nodes|))
    ensures ProjectRows(rows, items)
         == if ItemStuck(c, items) && xs != [] then Err else Ok(ItemRows(c, items, xs))
    decreases |xs|
  {
    hide ProjectRow, ItemStuck, ItemRow, ResolvedIn, ContextOk, StandFor, TextOrder, Picks, RowFor;
    if xs == [] {
      StandNone(c, rows);
    } else {
      StandTail(c, rows, xs);
      ProjectMeans(c, items, rows[1..], xs[1..]);
      ItemsMean(c, items, xs[0]);
      assert ItemRows(c, items, xs) == [ItemRow(c, items, xs[0])] + ItemRows(c, items, xs[1..]);
    }
  }

  /** The joined row in textual order is the chosen rows side by side. */
  lemma {:induction false} StarMeans(c: Context, n: nat, x: Choice)
    requires ContextOk(c) && n <= |c.nodes| && Picks(c, TextOrder(n), x)
    ensures forall j: nat :: j < n ==> j in x && x[j] < |TableOf(c, j).rows|
    ensures RowFor(c, TextOrder(n), x) == StarRow(c, n, x)
  {
    hide ContextOk, FieldsOf, Part;
    forall j: nat | j < n
      ensures j in x && x[j] < |TableOf(c, j).rows|
    {
      assert j in TextOrder(n);
    }
    if n > 0 {
      MoreText(n - 1);
      RowForAppend(c, TextOrder(n - 1), [n - 1], x);
      StarMeans(c, n - 1, x);
      PartIsFields(c, n - 1, x[n - 1]);
      assert RowFor(c, [n - 1], x) == Part(c, n - 1, x[n - 1]) + RowFor(c, [n - 1][1..], x);
      assert Part(c, n - 1, x[n - 1]) + [] == Part(c, n - 1, x[n - 1]);
    }
  }

  lemma PartIsFields(c: Context, j: nat, k: nat)
    requires ContextOk(c) && j < |c.nodes| && k < |TableOf(c, j).rows|
    ensures Part(c, j, k) == FieldsOf(c, j, k)
  {
    var t := TableOf(c, j);
    assert t.rows[k] in t.rows;
  }

  // ---------- the whole statement ----------

  /** The references of a validated statement keep their meaning on the rows joined as written. */
  lemma ValidResolves(stmt: SelectStmt, db: Db)
    requires DbOk(db) && ValidSelect(stmt, db)
    ensures var c := ContextOf(stmt, db); ContextOk(c) && |c.nodes| > 0 && Reached(c, TextOrder(|c.nodes|))
    ensures var c := ContextOf(stmt, db); stmt.where.Some? ==> ResolvedIn(c, |c.nodes|, stmt.where.value, TextOrder(|c.nodes|))
    ensures var c := ContextOf(stmt, db);
            !stmt.isStar ==> forall i <- stmt.items :: ResolvedIn(c, |c.nodes|, ItemRef(i), TextOrder(|c.nodes|))
  {
    hide ValidTables, ContextOk, Unique, DbOk, Reached, ScopeOf, InScope, Resolves;
    var c := ContextOf(stmt, db);
    ValidContext(stmt, db);
    ValidReached(stmt, db);
    var n, text := |c.nodes|, TextOrder(|c.nodes|);
    if stmt.where.Some? {
      ScopeResolves(c, stmt.where.value, n, text);
    }
    if !stmt.isStar {
      forall i | i in stmt.items
        ensures ResolvedIn(c, n, ItemRef(i), text)
      {
        ScopeResolves(c, ItemRef(i), n, text);
      }
    }
  }

  /** The joins of the statement. */
  lemma JoinsMean(stmt: SelectStmt, db: Db) returns (l: Listing)
    requires var c := ContextOf(stmt, db); ContextOk(c) && Reached(c, TextOrder(|c.nodes|))
    ensures DbOk(db)
    ensures var c, r := ContextOf(stmt, db), Meaning(TextTree(stmt.from, stmt.joins), db);
            && (r.Err? <==> JoinStuck(c, |c.nodes|))
            && (r.Ok? ==> r == Ok(l.rows) && StandFor(c, l.rows, l.xs) && Unique(l.xs) && forall x :: x in l.xs <==> Joined(c, |c.nodes|, x))
  {
    hide Reached, ContextOk, JoinStuck, Exec, Meaning, NestedTree, TextTree, Unique, RowFor, Satisfies, TextOrder;
    var c, n := ContextOf(stmt, db), |stmt.joins|;
    ContextDb(c);
    l := TreeMeans(c, n + 1);
    assert NodesOf(stmt)[..n + 1] == NodesOf(stmt) && stmt.joins[..n] == stmt.joins && c.nodes[..n + 1] == c.nodes;
    MeaningIsNested(stmt, n, db);
  }

  lemma ShownAre(c: Context, stmt: SelectStmt, rows: seq<Row>, xs: seq<Choice>)
    requires ContextOk(c) && StandFor(c, rows, xs) && Keeps(c, stmt.where, xs)
    ensures stmt.isStar ==> rows == ShownRows(c, stmt, xs)
    ensures !stmt.isStar ==> ShownRows(c, stmt, xs) == ItemRows(c, stmt.items, xs)
  {
    hide ContextOk, StarRow, RowFor, TextOrder, ItemField;
    forall k | 0 <= k < |xs|
      ensures stmt.isStar ==> rows[k] == ShownRows(c, stmt, xs)[k]
    {
      StarMeans(c, |c.nodes|, xs[k]);
    }
  }

  /** What a validated statement means, as written: an error exactly if it fails, and else a row for each choice to be shown. */
  lemma TextMeans(stmt: SelectStmt, db: Db) returns (xs: seq<Choice>)
    requires DbOk(db) && ValidSelect(stmt, db)
    ensures var c := ContextOf(stmt, db);
            && ContextOk(c)
            && (Meaning(TextPlan(stmt), db).Err? <==> Fails(c, stmt))
            && (Meaning(TextPlan(stmt), db).Ok? ==> Keeps(c, stmt.where, xs) && Meaning(TextPlan(stmt), db) == Ok(ShownRows(c, stmt, xs)))
  {
    hide Reached, ContextOk, JoinStuck, Meaning, TextTree, TextPlan, Unique, Joined, TextOrder, StandFor, FilterRows, ProjectRows, Stuck, CondIn,
         ResolvedIn, ValidSelect, DbOk, ItemStuck, ShownRows, ItemRow;
    var c := ContextOf(stmt, db);
    ValidResolves(stmt, db);
    var l := JoinsMean(stmt, db);
    xs := l.xs;
    if Meaning(TextTree(stmt.from, stmt.joins), db).Err? {
      TextErr(stmt, db);
    } else {
      TextIs(stmt, db);
      var rows := l.rows;
      if stmt.where.Some? {
        xs := FilterMeans(c, stmt.where.value, rows, l.xs);
        if FilterRows(rows, stmt.where.value).Ok? {
          rows := FilterRows(rows, stmt.where.value).value;
        }
      }
      if WhereStuck(c, stmt.where) {
        var x :| Joined(c, |c.nodes|, x) && Stuck(c, |c.nodes|, stmt.where.value, x);
        assert x in l.xs;
      } else {
        assert Keeps(c, stmt.where, xs);
        ShownAre(c, stmt, rows, xs);
        if !stmt.isStar {
          ProjectMeans(c, stmt.items, rows, xs);
          SomeKept(c, stmt.where, xs);
        }
      }
    }
  }

  lemma SomeKept(c: Context, where: Option<Expr>, xs: seq<Choice>)
    requires ContextOk(c) && Keeps(c, where, xs)
    ensures xs != [] <==> exists x :: Kept(c, where, x)
  {
    hide Kept, ContextOk;
    if xs != [] {
      assert xs[0] in xs;
    }
  }

  lemma TextErr(stmt: SelectStmt, db: Db)
    requires DbOk(db) && Meaning(TextTree(stmt.from, stmt.joins), db).Err?
    ensures Meaning(TextPlan(stmt), db).Err?
  {
    hide FilterRows, ProjectRows;
  }

  /** A result that agrees with the text is what the statement means. */
  lemma AgreeTells(stmt: SelectStmt, db: Db, out: Result<seq<Row>>)
    requires DbOk(db) && ValidSelect(stmt, db) && SameAnswer(stmt.isStar, out, Meaning(TextPlan(stmt), db))
    ensures Tells(stmt, db, out)
  {
    hide ContextOk, Meaning, TextPlan, Fails, Keeps, Bag, ValidSelect, DbOk, ShownRows;
    var xs := TextMeans(stmt, db);
  }
}
