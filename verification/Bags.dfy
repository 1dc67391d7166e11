/** Results compared as bags of rows, each row as a map from table alias to that table's fields. */
module Bags {
  import opened Pages
  import opened Query
  import opened Joins
  import opened Plans

  // ---------- a row as a map ----------

  /** For each alias that occurs in the row, its fields. */
  ghost function Blocks(row: Row): map<string, Row> {
    map f | f in row :: f.table := Only(row, f.table)
  }

  /** Equal maps mean equal fields for every alias, and nothing else. */
  lemma BlocksSame(r: Row, s: Row)
    ensures Blocks(r) == Blocks(s) <==> SameRow(r, s)
  {
    BlocksKeys(r);
    BlocksKeys(s);
    if Blocks(r) == Blocks(s) {
      forall a
        ensures Only(r, a) == Only(s, a)
      {
        assert a in Blocks(r) <==> a in Blocks(s);
      }
    }
    if SameRow(r, s) {
      forall a
        ensures a in Blocks(r) <==> a in Blocks(s)
        ensures a in Blocks(r) ==> Blocks(r)[a] == Blocks(s)[a]
      {
        assert Only(r, a) == Only(s, a);
      }
    }
  }

  lemma BlocksKeys(row: Row)
    ensures forall a :: a in Blocks(row) <==> Only(row, a) != []
    ensures forall a <- Blocks(row) :: Blocks(row)[a] == Only(row, a)
  {
    forall a
      ensures a in Blocks(row) <==> Only(row, a) != []
    {
      OnlyMembers(row, a);
      if Only(row, a) != [] {
        var f := Only(row, a)[0];
        assert f in Only(row, a);
        assert f in row && f.table == a;
      }
    }
  }

  // ---------- bags ----------

  ghost function Bag(rows: seq<Row>): multiset<map<string, Row>> {
    if rows == [] then multiset{} else multiset{Blocks(rows[0])} + Bag(rows[1..])
  }

  /** Both fail, or both succeed with the same bag. */
  ghost predicate SameBag(a: Result<seq<Row>>, b: Result<seq<Row>>) {
    (a.Err? <==> b.Err?) && (a.Ok? ==> Bag(a.value) == Bag(b.value))
  }

  /** Both fail, or both succeed with the same rows, each the same number of times. */
  ghost predicate SameRows(a: Result<seq<Row>>, b: Result<seq<Row>>) {
    (a.Err? <==> b.Err?) && (a.Ok? ==> multiset(a.value) == multiset(b.value))
  }

  lemma {:induction false} BagMember(rows: seq<Row>, b: map<string, Row>)
    ensures b in Bag(rows) <==> exists r <- rows :: Blocks(r) == b
  {
    if rows != [] {
      BagMember(rows[1..], b);
      assert rows == [rows[0]] + rows[1..];
      if r :| r in rows && Blocks(r) == b {
        assert r == rows[0] || r in rows[1..];
      }
    }
  }

  lemma {:induction false} BagSplit(a: seq<Row>, b: seq<Row>)
    ensures Bag(a + b) == Bag(a) + Bag(b)
  {
    if a == [] {
      assert a + b == b;
    } else {
      assert (a + b)[1..] == a[1..] + b;
      BagSplit(a[1..], b);
    }
  }

  lemma BagWithout(rows: seq<Row>, k: nat)
    requires k < |rows|
    ensures Bag(rows) == multiset{Blocks(rows[k])} + Bag(rows[..k] + rows[k + 1..])
  {
    hide Blocks, Bag;
    var a, b := rows[..k], rows[k + 1..];
    assert rows == a + ([rows[k]] + b);
    BagSplit(a, [rows[k]] + b);
    BagSplit(a, b);
    BagCons(rows[k], b);
  }

  lemma BagCons(r: Row, rows: seq<Row>)
    ensures Bag([r] + rows) == multiset{Blocks(r)} + Bag(rows)
  {
    assert ([r] + rows)[1..] == rows;
  }

  /** Two lists with the same bag: the first row of one occurs in the other, and the rests agree. */
  lemma BagPick(rows: seq<Row>, others: seq<Row>) returns (k: nat)
    requires rows != [] && Bag(rows) == Bag(others)
    ensures k < |others| && Blocks(others[k]) == Blocks(rows[0])
    ensures Bag(rows[1..]) == Bag(others[..k] + others[k + 1..])
  {
    hide Blocks, Bag;
    BagMember(rows, Blocks(rows[0]));
    assert rows[0] in rows;
    BagMember(others, Blocks(rows[0]));
    var r :| r in others && Blocks(r) == Blocks(rows[0]);
    k :| 0 <= k < |others| && others[k] == r;
    BagWithout(rows, 0);
    BagWithout(others, k);
    var x, y := Bag(rows[1..]), Bag(others[..k] + others[k + 1..]);
    assert rows[..0] + rows[0 + 1..] == rows[1..];
    assert x == Bag(rows) - multiset{Blocks(rows[0])} && y == Bag(others) - multiset{Blocks(rows[0])};
  }

  // ---------- filters ----------

  lemma {:induction false} FilterErr(rows: seq<Row>, where: Expr)
    ensures FilterRows(rows, where).Err? <==> exists r <- rows :: EvalBool(where, r).Err?
  {
    if rows != [] {
      FilterErr(rows[1..], where);
      assert rows == [rows[0]] + rows[1..];
      if r :| r in rows && EvalBool(where, r).Err? {
        assert r == rows[0] || r in rows[1..];
      }
    }
  }

  /** A row of some list with these fields passes. */
  ghost predicate Passes(where: Expr, b: map<string, Row>) {
    exists r :: Blocks(r) == b && EvalBool(where, r) == Ok(true)
  }

  lemma PassesIs(where: Expr, r: Row)
    ensures Passes(where, Blocks(r)) <==> EvalBool(where, r) == Ok(true)
  {
    if Passes(where, Blocks(r)) {
      var s :| Blocks(s) == Blocks(r) && EvalBool(where, s) == Ok(true);
      BlocksSame(r, s);
      EvalSame(where, r, s);
    }
  }

  /** A filter keeps every copy of a row that passes and no copy of one that does not. */
  lemma {:induction false} FilterBag(rows: seq<Row>, where: Expr, b: map<string, Row>)
    requires FilterRows(rows, where).Ok?
    ensures Bag(FilterRows(rows, where).value)[b] == if Passes(where, b) then Bag(rows)[b] else 0
  {
    hide Blocks, Passes, EvalBool;
    if rows != [] {
      FilterBag(rows[1..], where, b);
      PassesIs(where, rows[0]);
      var rest := FilterRows(rows[1..], where).value;
      assert ([rows[0]] + rest)[1..] == rest;
    }
  }

  lemma FilterSame(rows: seq<Row>, others: seq<Row>, where: Expr)
    requires Bag(rows) == Bag(others)
    ensures SameBag(FilterRows(rows, where), FilterRows(others, where))
  {
    hide FilterRows, Bag;
    FilterErr(rows, where);
    FilterErr(others, where);
    ErrMoves(rows, others, where);
    ErrMoves(others, rows, where);
    if FilterRows(rows, where).Ok? {
      var r, s := FilterRows(rows, where).value, FilterRows(others, where).value;
      forall b
        ensures Bag(r)[b] == Bag(s)[b]
      {
        FilterBag(rows, where, b);
        FilterBag(others, where, b);
      }
      assert Bag(r) == Bag(s);
    }
  }

  lemma ErrMoves(rows: seq<Row>, others: seq<Row>, where: Expr)
    requires Bag(rows) == Bag(others)
    ensures (exists r <- rows :: EvalBool(where, r).Err?) ==> exists s <- others :: EvalBool(where, s).Err?
  {
    if r :| r in rows && EvalBool(where, r).Err? {
      BagMember(rows, Blocks(r));
      BagMember(others, Blocks(r));
      var s :| s in others && Blocks(s) == Blocks(r);
      BlocksSame(r, s);
      EvalSame(where, r, s);
    }
  }

  // ---------- select lists ----------

  lemma {:induction false} ProjectSameRow(r: Row, s: Row, items: seq<SelectItem>)
    requires SameRow(r, s)
    ensures ProjectRow(r, items) == ProjectRow(s, items)
  {
    if items != [] {
      FindSame(r, s, items[0].table, items[0].column);
      ProjectSameRow(r, s, items[1..]);
    }
  }

  lemma {:induction false} ProjectSplit(a: seq<Row>, b: seq<Row>, items: seq<SelectItem>)
    ensures var p, q := ProjectRows(a, items), ProjectRows(b, items);
            ProjectRows(a + b, items) == if p.Err? || q.Err? then Err else Ok(p.value + q.value)
  {
    if a == [] {
      assert a + b == b;
      assert ProjectRows(b, items).Ok? ==> [] + ProjectRows(b, items).value == ProjectRows(b, items).value;
    } else {
      assert (a + b)[1..] == a[1..] + b;
      ProjectSplit(a[1..], b, items);
      var p, q, r := ProjectRow(a[0], items), ProjectRows(a[1..], items), ProjectRows(b, items);
      if p.Ok? && q.Ok? && r.Ok? {
        assert [p.value] + (q.value + r.value) == ([p.value] + q.value) + r.value;
      }
    }
  }

  lemma BagEmpty(rows: seq<Row>)
    ensures Bag(rows) == multiset{} <==> rows == []
  {
    if rows != [] {
      assert Blocks(rows[0]) in Bag(rows);
    }
  }

  /** A select list gives the same rows, with the same multiplicities, on either side. */
  lemma {:induction false} ProjectSame(rows: seq<Row>, others: seq<Row>, items: seq<SelectItem>)
    requires Bag(rows) == Bag(others)
    ensures SameRows(ProjectRows(rows, items), ProjectRows(others, items))
  {
    hide Blocks, Bag, ProjectRow;
    BagEmpty(rows);
    if rows == [] {
      BagEmpty(others);
    } else {
      var k := BagPick(rows, others);
      var a, b := others[..k], others[k + 1..];
      ProjectSame(rows[1..], a + b, items);
      BlocksSame(rows[0], others[k]);
      ProjectSameRow(rows[0], others[k], items);
      ProjectPick(others, k, items);
    }
  }

  lemma ProjectPick(rows: seq<Row>, k: nat, items: seq<SelectItem>)
    requires k < |rows|
    ensures var p, q := ProjectRow(rows[k], items), ProjectRows(rows[..k] + rows[k + 1..], items);
            && (ProjectRows(rows, items).Err? <==> p.Err? || q.Err?)
            && (p.Ok? && q.Ok? ==> multiset(ProjectRows(rows, items).value) == multiset{p.value} + multiset(q.value))
  {
    var a, b := rows[..k], rows[k + 1..];
    assert rows == a + ([rows[k]] + b);
    ProjectSplit(a, [rows[k]] + b, items);
    ProjectSplit(a, b, items);
    assert ([rows[k]] + b)[1..] == b;
  }
}
