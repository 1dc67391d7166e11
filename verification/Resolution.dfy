/** What validation promises about column references at run time. */
module Resolution {
  import opened Pages
  import opened Query
  import opened Joins
  import opened Plans
  import opened References
  import opened JoinOrder
  import opened Planner
  import opened PlanMeaning
  import opened Semantic

  /** A validated reference resolves on every joined row, in any layout, exactly when it is qualified or its column is
      declared only once in its table. */
  lemma ValidatedResolves(c: Context, layout: seq<nat>, x: Choice, table: Option<string>, column: string)
    requires ContextOk(c) && ValidTables(c.nodes, c.db, |c.nodes|) && InScope(ScopeOf(c.nodes, c.db, |c.nodes|), table, column)
    requires Picks(c, layout, x) && Unique(layout) && forall j: nat :: j in layout <==> j < |c.nodes|
    ensures Find(RowFor(c, layout, x), table, column).Ok? <==>
            table.Some? || exists j: nat :: j < |c.nodes| && Times(TableOf(c, j).columns, column) == 1
  {
    hide Find, RowFor, Times, ScopeOf, ValidTables, Unique, ContextOk, InScope, HasColumn, Sole;
    var n := |c.nodes|;
    if table.Some? {
      NamedResolves(c, table.value, column, n, layout);
      FindInRow(c, n, layout, x, table, column);
    } else {
      UnnamedResolves(c, column, n, layout);
      FindIfAlone(c, layout, x, column);
      var j := OwnerOf(c, n, None, column).value;
      forall i: nat | i < n
        ensures Times(TableOf(c, i).columns, column) > 0 <==> i == j
      {
        TimesPositive(TableOf(c, i).columns, column);
      }
      assert Alone(c, layout, column, j) <==> Times(TableOf(c, j).columns, column) == 1;
    }
  }
}
