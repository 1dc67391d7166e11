/** What a column reference in a query refers to, and what it reads in a joined row. */
module References {
  import opened Pages
  import opened Query
  import opened Joins
  import opened Plans

  // ---------- columns and tables by name ----------

  function IndexOf(columns: seq<ColumnDef>, name: string): (r: Option<nat>)
    ensures r.Some? ==> r.value < |columns| && columns[r.value].name == name && forall k :: 0 <= k < r.value ==> columns[k].name != name
    ensures r.None? ==> forall c <- columns :: c.name != name
  {
    if columns == [] then None
    else if columns[0].name == name then Some(0)
    else
      var rest := IndexOf(columns[1..], name);
      if rest.Some? then Some(rest.value + 1) else None
  }

  function NodeIndex(nodes: seq<TableNode>, alias: string): (r: Option<nat>)
    ensures r.Some? ==> r.value < |nodes| && nodes[r.value].alias == alias
    ensures r.None? ==> forall n <- nodes :: n.alias != alias
  {
    if nodes == [] then None
    else if nodes[0].alias == alias then Some(0)
    else
      var rest := NodeIndex(nodes[1..], alias);
      if rest.Some? then Some(rest.value + 1) else None
  }

  predicate HasColumn(columns: seq<ColumnDef>, name: string) {
    IndexOf(columns, name).Some?
  }

  lemma NodeIndexIs(c: Context, j: nat)
    requires ContextOk(c) && j < |c.nodes|
    ensures NodeIndex(c.nodes, c.nodes[j].alias) == Some(j)
  {
    var r := NodeIndex(c.nodes, c.nodes[j].alias);
    assert c.nodes[j] in c.nodes;
    if r.Some? && r.value != j {
      AliasesDiffer(c, r.value, j);
    }
  }

  /** How many columns of a table have this name; nothing keeps CREATE TABLE from repeating one. */
  function Times(columns: seq<ColumnDef>, name: string): nat {
    if columns == [] then 0 else (if columns[0].name == name then 1 else 0) + Times(columns[1..], name)
  }

  lemma {:induction false} TimesPositive(columns: seq<ColumnDef>, name: string)
    ensures Times(columns, name) > 0 <==> HasColumn(columns, name)
  {
    if columns != [] {
      TimesPositive(columns[1..], name);
    }
  }

  lemma {:induction false} NamedAppend(r: Row, s: Row, column: string)
    ensures Named(r + s, column) == Named(r, column) + Named(s, column)
  {
    if r == [] {
      assert r + s == s;
    } else {
      assert (r + s)[1..] == r[1..] + s;
      NamedAppend(r[1..], s, column);
      var head := if r[0].column == column then [r[0]] else [];
      var p, q := Named(r[1..], column), Named(s, column);
      assert Named(r + s, column) == head + (p + q);
      assert head + (p + q) == (head + p) + q;
    }
  }

  lemma {:induction false} NamedTag(alias: string, columns: seq<ColumnDef>, values: seq<Value>, column: string)
    requires |values| == |columns|
    ensures |Named(Tag(alias, columns, values), column)| == Times(columns, column)
  {
    if columns != [] {
      assert Tag(alias, columns, values)[1..] == Tag(alias, columns[1..], values[1..]);
      NamedTag(alias, columns[1..], values[1..], column);
    }
  }

  lemma NamedPart(c: Context, j: nat, k: nat, column: string)
    requires ContextOk(c) && j < |c.nodes| && k < |TableOf(c, j).rows|
    ensures |Named(Part(c, j, k), column)| == Times(TableOf(c, j).columns, column)
  {
    var t := TableOf(c, j);
    assert t.rows[k] in t.rows;
    NamedTag(c.nodes[j].alias, t.columns, t.rows[k], column);
  }

  lemma NoneNamed(column: string)
    ensures Named([], column) == []
  {
  }

  // ---------- the table a reference is about ----------

  /** Of the first `n` tables, table `j` alone has the column. */
  ghost predicate Sole(c: Context, n: nat, column: string, j: nat)
    requires ContextOk(c)
  {
    && j < n && j < |c.nodes| && HasColumn(TableOf(c, j).columns, column)
    && forall i: nat :: i < n && i < |c.nodes| && i != j ==> !HasColumn(TableOf(c, i).columns, column)
  }

  /** The table a reference names, or, if it names none, the only one of the first `n` with that column: what validation
      resolves it to when those are the tables in scope. */
  ghost function OwnerOf(c: Context, n: nat, table: Option<string>, column: string): (r: Option<nat>)
    requires ContextOk(c)
    ensures r.Some? ==> r.value < |c.nodes| && HasColumn(TableOf(c, r.value).columns, column)
  {
    match table
    case Some(a) =>
      var j := NodeIndex(c.nodes, a);
      if j.Some? && HasColumn(TableOf(c, j.value).columns, column) then j else None
    case None => if j: nat :| Sole(c, n, column, j) then Some(j) else None
  }

  lemma SoleOwner(c: Context, n: nat, column: string, j: nat)
    requires ContextOk(c) && Sole(c, n, column, j)
    ensures OwnerOf(c, n, None, column) == Some(j)
  {
  }

  lemma OwnerNamed(c: Context, n: nat, a: string, column: string)
    requires ContextOk(c) && OwnerOf(c, n, Some(a), column).Some?
    ensures c.nodes[OwnerOf(c, n, Some(a), column).value].alias == a
  {
  }

  /** An unqualified name can be read from table `j` only if the table declares it once. */
  ghost predicate Once(c: Context, j: nat, table: Option<string>, column: string)
    requires ContextOk(c) && j < |c.nodes|
  {
    table.None? ==> Times(TableOf(c, j).columns, column) == 1
  }

  /** The value in the chosen row of table `j`. */
  ghost function ValueAt(c: Context, j: nat, column: string, x: Choice): Value
    requires ContextOk(c) && j < |c.nodes| && HasColumn(TableOf(c, j).columns, column)
  {
    var t := TableOf(c, j);
    if j in x && x[j] < |t.rows| then
      assert t.rows[x[j]] in t.rows;
      t.rows[x[j]][IndexOf(t.columns, column).value]
    else IntV(0)
  }

  // ---------- what is found in a joined row ----------

  lemma {:induction false} FindTagged(alias: string, columns: seq<ColumnDef>, values: seq<Value>, column: string)
    requires |values| == |columns|
    ensures var k := IndexOf(columns, column);
            Find(Tag(alias, columns, values), Some(alias), column) == if k.Some? then Ok(values[k.value]) else Err
  {
    if columns != [] {
      assert Tag(alias, columns, values)[1..] == Tag(alias, columns[1..], values[1..]);
      FindTagged(alias, columns[1..], values[1..], column);
    }
  }

  /** An unqualified name declared once. */
  lemma {:induction false} FindTaggedOnce(alias: string, columns: seq<ColumnDef>, values: seq<Value>, column: string)
    requires |values| == |columns| && Times(columns, column) == 1
    ensures HasColumn(columns, column)
    ensures Find(Tag(alias, columns, values), None, column) == Ok(values[IndexOf(columns, column).value])
  {
    TimesPositive(columns, column);
    var row := Tag(alias, columns, values);
    assert row[1..] == Tag(alias, columns[1..], values[1..]);
    if columns[0].name == column {
      TimesPositive(columns[1..], column);
    } else {
      FindTaggedOnce(alias, columns[1..], values[1..], column);
    }
  }

  lemma PartIs(c: Context, j: nat, k: nat, column: string)
    requires ContextOk(c) && j < |c.nodes| && k < |TableOf(c, j).rows| && HasColumn(TableOf(c, j).columns, column)
    ensures var t := TableOf(c, j);
            && |t.rows[k]| == |t.columns| && Part(c, j, k) == Tag(c.nodes[j].alias, t.columns, t.rows[k])
            && ValueAt(c, j, column, map[j := k]) == t.rows[k][IndexOf(t.columns, column).value]
  {
    var t := TableOf(c, j);
    assert t.rows[k] in t.rows;
  }

  lemma FindPart(c: Context, n: nat, j: nat, k: nat, table: Option<string>, column: string)
    requires ContextOk(c) && j < |c.nodes| && k < |TableOf(c, j).rows|
    requires OwnerOf(c, n, table, column) == Some(j) && Once(c, j, table, column)
    ensures Find(Part(c, j, k), table, column) == Ok(ValueAt(c, j, column, map[j := k]))
  {
    hide Find, Times, IndexOf, OwnerOf, Sole, ContextOk;
    var t := TableOf(c, j);
    PartIs(c, j, k, column);
    if table.Some? {
      OwnerNamed(c, n, table.value, column);
      FindTagged(c.nodes[j].alias, t.columns, t.rows[k], column);
    } else {
      FindTaggedOnce(c.nodes[j].alias, t.columns, t.rows[k], column);
    }
  }

  /** Of the tables of a layout, table `j` alone has the column, and declares it once. */
  ghost predicate Alone(c: Context, layout: seq<nat>, column: string, j: nat)
    requires ContextOk(c) && forall i <- layout :: i < |c.nodes|
  {
    j in layout && Times(TableOf(c, j).columns, column) == 1 && forall i <- layout :: i != j ==> !HasColumn(TableOf(c, i).columns, column)
  }

  /** How often the tables of a layout declare the column. */
  function Declared(c: Context, layout: seq<nat>, column: string): nat
    requires ContextOk(c) && forall i <- layout :: i < |c.nodes|
  {
    if layout == [] then 0
    else
      assert layout[0] in layout && forall i <- layout[1..] :: i in layout;
      Times(TableOf(c, layout[0]).columns, column) + Declared(c, layout[1..], column)
  }

  lemma {:induction false} NamedDeclared(c: Context, layout: seq<nat>, x: Choice, column: string)
    requires ContextOk(c) && Picks(c, layout, x)
    ensures |Named(RowFor(c, layout, x), column)| == Declared(c, layout, column)
  {
    hide ContextOk, Part, Named, Times;
    if layout == [] {
      NoneNamed(column);
    } else {
      var i, rest := layout[0], layout[1..];
      assert i in layout && forall k <- rest :: k in layout;
      NamedDeclared(c, rest, x, column);
      NamedPart(c, i, x[i], column);
      NamedAppend(Part(c, i, x[i]), RowFor(c, rest, x), column);
    }
  }

  lemma {:induction false} DeclaredNone(c: Context, layout: seq<nat>, column: string)
    requires ContextOk(c) && forall i <- layout :: i < |c.nodes|
    ensures Declared(c, layout, column) == 0 <==> forall i <- layout :: !HasColumn(TableOf(c, i).columns, column)
  {
    hide ContextOk, Times, HasColumn;
    if layout != [] {
      var i, rest := layout[0], layout[1..];
      assert i in layout && (forall k <- rest :: k in layout) && forall k <- layout :: k == i || k in rest;
      TimesPositive(TableOf(c, i).columns, column);
      DeclaredNone(c, rest, column);
    }
  }

  /** Declared once means that one table has it, alone. */
  lemma {:induction false} DeclaredOnce(c: Context, layout: seq<nat>, column: string)
    requires ContextOk(c) && Unique(layout) && forall i <- layout :: i < |c.nodes|
    ensures Declared(c, layout, column) == 1 <==> exists j :: Alone(c, layout, column, j)
  {
    hide ContextOk, Times, HasColumn;
    if layout != [] {
      var i, rest := layout[0], layout[1..];
      assert i in layout && i !in rest && (forall k <- rest :: k in layout) && forall k <- layout :: k == i || k in rest;
      TimesPositive(TableOf(c, i).columns, column);
      DeclaredNone(c, rest, column);
      DeclaredOnce(c, rest, column);
      if j :| Alone(c, layout, column, j) {
        assert j != i ==> Alone(c, rest, column, j);
      }
      if j :| Alone(c, rest, column, j) {
        assert !HasColumn(TableOf(c, i).columns, column) ==> Alone(c, layout, column, j);
      }
      if Declared(c, layout, column) == 1 && HasColumn(TableOf(c, i).columns, column) {
        assert Alone(c, layout, column, i);
      }
    }
  }

  /** An unqualified name is found in a joined row if and only if one table of it has the column alone. */
  lemma FindIfAlone(c: Context, layout: seq<nat>, x: Choice, column: string)
    requires ContextOk(c) && Picks(c, layout, x) && Unique(layout)
    ensures Find(RowFor(c, layout, x), None, column).Ok? <==> exists j :: Alone(c, layout, column, j)
  {
    hide Find, Named, ContextOk, RowFor, Alone;
    NamedDeclared(c, layout, x, column);
    DeclaredOnce(c, layout, column);
    FindUnqualified(RowFor(c, layout, x), column);
  }

  lemma {:induction false} NamedAlone(c: Context, layout: seq<nat>, x: Choice, column: string, j: nat)
    requires ContextOk(c) && Picks(c, layout, x) && Unique(layout) && j < |c.nodes|
    requires forall i <- layout :: i != j ==> !HasColumn(TableOf(c, i).columns, column)
    ensures Named(RowFor(c, layout, x), column) == if j in layout then Named(Part(c, j, x[j]), column) else []
  {
    hide ContextOk, Part, Named, Times, HasColumn;
    if layout == [] {
      NoneNamed(column);
    } else {
      var i, rest := layout[0], layout[1..];
      assert i in layout && i !in rest && forall k <- rest :: k in layout;
      NamedAlone(c, rest, x, column, j);
      NamedPart(c, i, x[i], column);
      NamedAppend(Part(c, i, x[i]), RowFor(c, rest, x), column);
      TimesPositive(TableOf(c, i).columns, column);
      var here := Named(Part(c, i, x[i]), column);
      assert here + [] == here && (|here| == 0 ==> here == []);
      assert [] + Named(RowFor(c, rest, x), column) == Named(RowFor(c, rest, x), column);
    }
  }

  /** And then it reads that table, whichever the reference was validated against. */
  lemma FindAlone(c: Context, layout: seq<nat>, x: Choice, column: string, j: nat)
    requires ContextOk(c) && Picks(c, layout, x) && Unique(layout) && Alone(c, layout, column, j)
    ensures HasColumn(TableOf(c, j).columns, column)
    ensures Find(RowFor(c, layout, x), None, column) == Ok(ValueAt(c, j, column, x))
  {
    hide Find, Named, Times, IndexOf, ContextOk, RowFor;
    var t := TableOf(c, j);
    TimesPositive(t.columns, column);
    PartIs(c, j, x[j], column);
    FindTaggedOnce(c.nodes[j].alias, t.columns, t.rows[x[j]], column);
    NamedAlone(c, layout, x, column, j);
    FindUnqualified(RowFor(c, layout, x), column);
    FindUnqualified(Part(c, j, x[j]), column);
  }

  /** The layout holds the table a reference was resolved to and, if the reference names no table, no other with that column. */
  ghost predicate Resolves(c: Context, n: nat, table: Option<string>, column: string, layout: seq<nat>)
    requires ContextOk(c)
  {
    var j := OwnerOf(c, n, table, column);
    && j.Some? && j.value in layout
    && (table.None? ==> forall i <- layout :: i < |c.nodes| && i != j.value ==> !HasColumn(TableOf(c, i).columns, column))
  }

  /** Then it reads its owner's value, wherever the owner stands. */
  lemma FindInRow(c: Context, n: nat, layout: seq<nat>, x: Choice, table: Option<string>, column: string)
    requires ContextOk(c) && Picks(c, layout, x) && Unique(layout)
    requires Resolves(c, n, table, column, layout) && Once(c, OwnerOf(c, n, table, column).value, table, column)
    ensures Find(RowFor(c, layout, x), table, column) == Ok(ValueAt(c, OwnerOf(c, n, table, column).value, column, x))
  {
    hide Find, Only, Named, Sole, Times, HasColumn, OwnerOf;
    var j := OwnerOf(c, n, table, column).value;
    if table.Some? {
      FindPart(c, n, j, x[j], table, column);
      OwnerNamed(c, n, table.value, column);
      FindQualified(RowFor(c, layout, x), table.value, column);
      OnlyRowFor(c, layout, x, table.value);
      FindQualified(Part(c, j, x[j]), table.value, column);
      PartFields(c, j, x[j]);
      OnlyPart(Part(c, j, x[j]), table.value);
    } else {
      FindAlone(c, layout, x, column, j);
    }
  }
}
