/** Plans and their meaning.  A joined row is determined by which row of each table it was made from; every join
    order and strategy enumerates the same combinations. */
module Plans {
  import opened Pages
  import opened Query
  import opened Joins

  datatype Table = Table(columns: seq<ColumnDef>, rows: seq<seq<Value>>, rowCount: nat)

  type Db = map<string, Table>

  datatype SelectItem = SelectItem(table: Option<string>, column: string, alias: Option<string>)

  /** One table of a query, with the ON condition that introduced it; the first table has none. */
  datatype TableNode = TableNode(table: string, alias: string, cond: Option<Expr>)

  datatype PhysicalPlan =
    | Scan(table: string, alias: string)
    | Filter(input: PhysicalPlan, where: Expr)
    | NestedLoop(left: PhysicalPlan, right: PhysicalPlan, condition: Expr)
    | Hash(build: PhysicalPlan, probe: PhysicalPlan, buildKey: KeyRef, probeKey: KeyRef)
    | Project(pinput: PhysicalPlan, isStar: bool, items: seq<SelectItem>)

  // ---------- execution ----------

  /** A stored row with each value tagged by alias and column. */
  function Tag(alias: string, columns: seq<ColumnDef>, values: seq<Value>): (row: Row)
    requires |values| == |columns|
    ensures |row| == |columns|
    ensures forall c :: 0 <= c < |columns| ==> row[c] == Field(alias, columns[c].name, values[c])
  {
    seq(|columns|, c requires 0 <= c < |columns| => Field(alias, columns[c].name, values[c]))
  }

  ghost predicate TableOk(t: Table) {
    forall r <- t.rows :: |r| == |t.columns|
  }

  ghost predicate DbOk(db: Db) {
    forall n <- db :: TableOk(db[n])
  }

  function ScanRows(t: Table, alias: string): (rows: seq<Row>)
    requires TableOk(t)
    ensures |rows| == |t.rows|
    ensures forall k :: 0 <= k < |rows| ==> t.rows[k] in t.rows && rows[k] == Tag(alias, t.columns, t.rows[k])
  {
    seq(|t.rows|, k requires 0 <= k < |t.rows| => assert t.rows[k] in t.rows; Tag(alias, t.columns, t.rows[k]))
  }

  /** The rows that pass a predicate, in order; one failing evaluation fails the query. */
  function FilterRows(rows: seq<Row>, where: Expr): Result<seq<Row>> {
    if rows == [] then Ok([])
    else
      var hit := EvalBool(where, rows[0]);
      if hit.Err? then Err else Cons(hit.value, rows[0], FilterRows(rows[1..], where))
  }

  function ProjectRow(row: Row, items: seq<SelectItem>): Result<Row> {
    if items == [] then Ok([])
    else
      var v, rest := Find(row, items[0].table, items[0].column), ProjectRow(row, items[1..]);
      if v.Err? || rest.Err? then Err
      else Ok([Field(if items[0].table.Some? then items[0].table.value else "",
                     if items[0].alias.Some? then items[0].alias.value else items[0].column, v.value)] + rest.value)
  }

  function ProjectRows(rows: seq<Row>, items: seq<SelectItem>): Result<seq<Row>> {
    if rows == [] then Ok([])
    else
      var p := ProjectRow(rows[0], items);
      if p.Err? then Err else Cons(true, p.value, ProjectRows(rows[1..], items))
  }

  ghost function Exec(plan: PhysicalPlan, db: Db): Result<seq<Row>>
    requires DbOk(db)
  {
    match plan
    case Scan(table, alias) => if table in db then Ok(ScanRows(db[table], alias)) else Err
    case Filter(input, p) =>
      var r := Exec(input, db);
      if r.Err? then Err else FilterRows(r.value, p)
    case NestedLoop(left, right, c) =>
      var l, r := Exec(left, db), Exec(right, db);
      if l.Err? || r.Err? then Err else NestedRows(l.value, r.value, c)
    case Hash(build, probe, bk, pk) =>
      var b, p := Exec(build, db), Exec(probe, db);
      if b.Err? || p.Err? then Err else HashRows(b.value, p.value, bk, pk)
    case Project(input, isStar, items) =>
      var r := Exec(input, db);
      if r.Err? || isStar then r else ProjectRows(r.value, items)
  }

  // ---------- rows made from chosen table rows ----------

  /** For each joined table (by position in the query), the index of its row. */
  type Choice = map<nat, nat>

  datatype Context = Context(nodes: seq<TableNode>, db: Db)

  ghost predicate ContextOk(c: Context) {
    && DbOk(c.db)
    && (forall n <- c.nodes :: n.table in c.db)
    && (forall i, j :: 0 <= i < j < |c.nodes| ==> c.nodes[i].alias != c.nodes[j].alias)
    && (forall i :: 0 <= i < |c.nodes| ==> (c.nodes[i].cond.None? <==> i == 0))
  }

  function TableOf(c: Context, j: nat): Table
    requires ContextOk(c) && j < |c.nodes|
  {
    assert c.nodes[j] in c.nodes;
    c.db[c.nodes[j].table]
  }

  /** The choice picks an existing row for each table of `layout`. */
  ghost predicate Picks(c: Context, layout: seq<nat>, x: Choice)
    requires ContextOk(c)
  {
    forall j <- layout :: j < |c.nodes| && j in x && x[j] < |TableOf(c, j).rows|
  }

  function Part(c: Context, j: nat, k: nat): Row
    requires ContextOk(c) && j < |c.nodes| && k < |TableOf(c, j).rows|
  {
    ScanRows(TableOf(c, j), c.nodes[j].alias)[k]
  }

  /** The joined row: the chosen row of each table, in layout order. */
  function RowFor(c: Context, layout: seq<nat>, x: Choice): Row
    requires ContextOk(c) && Picks(c, layout, x)
  {
    if layout == [] then [] else Part(c, layout[0], x[layout[0]]) + RowFor(c, layout[1..], x)
  }

  lemma {:induction false} RowForAppend(c: Context, a: seq<nat>, b: seq<nat>, x: Choice)
    requires ContextOk(c) && Picks(c, a + b, x)
    ensures Picks(c, a, x) && Picks(c, b, x) && RowFor(c, a + b, x) == RowFor(c, a, x) + RowFor(c, b, x)
  {
    hide ContextOk, Part;
    assert forall j <- a :: j in a + b;
    assert forall j <- b :: j in a + b;
    if a == [] {
      assert a + b == b;
      assert RowFor(c, a, x) + RowFor(c, b, x) == RowFor(c, b, x);
    } else {
      assert (a + b)[1..] == a[1..] + b;
      assert forall j <- a[1..] :: j in a;
      RowForAppend(c, a[1..], b, x);
      var p, q, r := Part(c, a[0], x[a[0]]), RowFor(c, a[1..], x), RowFor(c, b, x);
      Reassociate(p, q, r);
    }
  }

  lemma Reassociate(p: Row, q: Row, r: Row)
    ensures p + (q + r) == (p + q) + r
  {
  }

  lemma PartFields(c: Context, j: nat, k: nat)
    requires ContextOk(c) && j < |c.nodes| && k < |TableOf(c, j).rows|
    ensures forall f <- Part(c, j, k) :: f.table == c.nodes[j].alias
  {
  }

  lemma AliasesDiffer(c: Context, i: nat, j: nat)
    requires ContextOk(c) && i < |c.nodes| && j < |c.nodes| && i != j
    ensures c.nodes[i].alias != c.nodes[j].alias
  {
  }

  lemma {:induction false} RowForAgree(c: Context, layout: seq<nat>, x: Choice, y: Choice)
    requires ContextOk(c) && Picks(c, layout, x) && Picks(c, layout, y)
    requires forall j <- layout :: x[j] == y[j]
    ensures RowFor(c, layout, x) == RowFor(c, layout, y)
  {
    if layout != [] {
      assert layout[0] in layout;
      RowForAgree(c, layout[1..], x, y);
    }
  }

  lemma {:induction false} OnlyPart(row: Row, table: string)
    ensures (forall f <- row :: f.table == table) ==> Only(row, table) == row
    ensures (forall f <- row :: f.table != table) ==> Only(row, table) == []
  {
    if row != [] {
      assert row == [row[0]] + row[1..];
      assert row[0] in row;
      assert forall f <- row[1..] :: f in row;
      OnlyPart(row[1..], table);
    }
  }

  /** The fields a joined row holds for the table at position `j`: the chosen row, wherever `j` stands in the layout. */
  lemma {:induction false} OnlyRowFor(c: Context, layout: seq<nat>, x: Choice, a: string)
    requires ContextOk(c) && Picks(c, layout, x) && Unique(layout)
    ensures forall j <- layout :: c.nodes[j].alias == a ==> Only(RowFor(c, layout, x), a) == Part(c, j, x[j])
    ensures (forall j <- layout :: c.nodes[j].alias != a) ==> Only(RowFor(c, layout, x), a) == []
  {
    hide ContextOk, Part, Only;
    if layout == [] {
      OnlyPart([], a);
    } else {
      var i := layout[0];
      assert layout == [i] + layout[1..];
      assert forall j <- layout[1..] :: j in layout && j != i;
      var part, rest := Part(c, i, x[i]), RowFor(c, layout[1..], x);
      PartFields(c, i, x[i]);
      OnlyPart(part, a);
      OnlyAppend(part, rest, a);
      OnlyRowFor(c, layout[1..], x, a);
      assert part + [] == part && [] + Only(rest, a) == Only(rest, a);
      if c.nodes[i].alias == a {
        forall j | j in layout[1..]
          ensures c.nodes[j].alias != a
        {
          AliasesDiffer(c, i, j);
        }
      }
    }
  }

  /** Layouts of the same tables give the same row, up to the order of the tables. */
  lemma LayoutsSame(c: Context, a: seq<nat>, b: seq<nat>, x: Choice)
    requires ContextOk(c) && Picks(c, a, x) && Picks(c, b, x) && Unique(a) && Unique(b)
    requires forall j :: j in a <==> j in b
    ensures SameRow(RowFor(c, a, x), RowFor(c, b, x))
  {
    forall t
      ensures Only(RowFor(c, a, x), t) == Only(RowFor(c, b, x), t)
    {
      OnlyRowFor(c, a, x, t);
      OnlyRowFor(c, b, x, t);
      if j :| j in a && c.nodes[j].alias == t {
        assert j in b;
      }
    }
  }
}
