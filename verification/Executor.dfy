/** Running a plan, operator by operator. */
module Executor {
  import opened Pages
  import opened Query
  import opened Joins
  import opened Plans

  /** Tag every stored row with alias and column names. */
  method ScanTable(t: Table, alias: string) returns (rows: seq<Row>)
    requires TableOk(t)
    ensures rows == ScanRows(t, alias)
  {
    rows := [];
    var cursor := 0;
    while cursor < |t.rows|
      invariant cursor <= |t.rows| && rows == ScanRows(t, alias)[..cursor]
    {
      assert t.rows[cursor] in t.rows;
      var row: Row := [];
      var i := 0;
      while i < |t.columns|
        invariant i <= |t.columns| && row == Tag(alias, t.columns, t.rows[cursor])[..i]
      {
        row := row + [Field(alias, t.columns[i].name, t.rows[cursor][i])];
        i := i + 1;
      }
      assert row == ScanRows(t, alias)[cursor];
      rows := rows + [row];
      cursor := cursor + 1;
    }
  }

  method FilterAll(input: seq<Row>, where: Expr) returns (out: Result<seq<Row>>)
    ensures out == FilterRows(input, where)
  {
    hide EvalBool;
    var rows: seq<Row> := [];
    AfterCons([], [], FilterRows(input, where));
    assert input[0..] == input;
    var i := 0;
    while i < |input|
      invariant i <= |input|
      invariant FilterRows(input, where) == After(rows, FilterRows(input[i..], where))
    {
      assert input[i..][1..] == input[i + 1..];
      var hit := EvalBool(where, input[i]);
      if hit.Err? {
        return Err;
      }
      if hit.value {
        AfterCons(rows, input[i], FilterRows(input[i + 1..], where));
        rows := rows + [input[i]];
      }
      i := i + 1;
    }
    AfterCons(rows, [], Ok([]));
    return Ok(rows);
  }

  method ProjectOne(row: Row, items: seq<SelectItem>) returns (out: Result<Row>)
    ensures out == ProjectRow(row, items)
  {
    hide Find;
    var done: Row := [];
    assert items[0..] == items;
    AfterProjectNone(ProjectRow(row, items));
    var i := 0;
    while i < |items|
      invariant i <= |items|
      invariant ProjectRow(row, items) == AfterFields(done, ProjectRow(row, items[i..]))
    {
      assert items[i..][1..] == items[i + 1..];
      var v := FindColumn(row, items[i].table, items[i].column);
      if v.Err? {
        return Err;
      }
      var outTable := if items[i].table.Some? then items[i].table.value else "";
      var outColumn := if items[i].alias.Some? then items[i].alias.value else items[i].column;
      ghost var rest := ProjectRow(row, items[i + 1..]);
      assert rest.Ok? ==> done + ([Field(outTable, outColumn, v.value)] + rest.value)
                          == done + [Field(outTable, outColumn, v.value)] + rest.value;
      done := done + [Field(outTable, outColumn, v.value)];
      i := i + 1;
    }
    assert done + [] == done;
    return Ok(done);
  }

  function AfterFields(done: Row, rest: Result<Row>): Result<Row> {
    if rest.Err? then Err else Ok(done + rest.value)
  }

  lemma AfterProjectNone(rest: Result<Row>)
    ensures AfterFields([], rest) == rest
  {
    assert rest.Ok? ==> [] + rest.value == rest.value;
  }

  method ProjectAll(input: seq<Row>, items: seq<SelectItem>) returns (out: Result<seq<Row>>)
    ensures out == ProjectRows(input, items)
  {
    hide ProjectRow;
    var rows: seq<Row> := [];
    AfterCons([], [], ProjectRows(input, items));
    assert input[0..] == input;
    var i := 0;
    while i < |input|
      invariant i <= |input|
      invariant ProjectRows(input, items) == After(rows, ProjectRows(input[i..], items))
    {
      assert input[i..][1..] == input[i + 1..];
      var projected := ProjectOne(input[i], items);
      if projected.Err? {
        return Err;
      }
      AfterCons(rows, projected.value, ProjectRows(input[i + 1..], items));
      rows := rows + [projected.value];
      i := i + 1;
    }
    AfterCons(rows, [], Ok([]));
    return Ok(rows);
  }

  /** Pull a plan to exhaustion. */
  method Execute(plan: PhysicalPlan, db: Db) returns (out: Result<seq<Row>>)
    requires DbOk(db)
    ensures out == Exec(plan, db)
    decreases plan
  {
    hide FilterRows, ProjectRows, HashRows, NestedRows, ScanRows;
    match plan {
      case Scan(table, alias) =>
        if table !in db {
          return Err;
        }
        var rows := ScanTable(db[table], alias);
        return Ok(rows);
      case Filter(input, where) =>
        out := Execute(input, db);
        if out.Ok? {
          out := FilterAll(out.value, where);
        }
      case NestedLoop(left, right, cond) =>
        var l := Execute(left, db);
        var r := Execute(right, db);
        if l.Err? || r.Err? {
          return Err;
        }
        out := RunNestedLoop(l.value, r.value, cond);
      case Hash(build, probe, bk, pk) =>
        var b := Execute(build, db);
        var p := Execute(probe, db);
        if b.Err? || p.Err? {
          return Err;
        }
        out := RunHashJoin(b.value, p.value, bk, pk);
      case Project(input, isStar, items) =>
        out := Execute(input, db);
        if out.Ok? && !isStar {
          out := ProjectAll(out.value, items);
        }
    }
  }
}
