/** INSERT: the check of the column list, and the placement of values into schema order. */
module Inserts {
  import opened Pages
  import opened Query
  import opened Joins
  import opened Plans
  import opened References

  /** With no column list: one value per column.  With one: every column of the schema, by name, no name twice. */
  ghost predicate ValidInsert(columns: seq<string>, values: seq<Value>, schema: seq<ColumnDef>) {
    if columns == [] then |values| == |schema|
    else
      && |columns| == |schema| && |columns| == |values|
      && (forall name <- columns :: IndexOf(schema, name).Some?)
      && Unique(columns)
  }

  method ValidateInsert(columns: seq<string>, values: seq<Value>, schema: seq<ColumnDef>) returns (ok: bool)
    ensures ok <==> ValidInsert(columns, values, schema)
  {
    if columns == [] {
      return |values| == |schema|;
    }
    if |columns| != |schema| || |columns| != |values| {
      return false;
    }
    var seen: set<string> := {};
    var i := 0;
    while i < |columns|
      invariant i <= |columns|
      invariant forall k :: 0 <= k < i ==> IndexOf(schema, columns[k]).Some? && columns[k] in seen
      invariant forall name <- seen :: exists k :: 0 <= k < i && columns[k] == name
      invariant forall j, k :: 0 <= j < k < i ==> columns[j] != columns[k]
    {
      if IndexOf(schema, columns[i]).None? {
        assert columns[i] in columns;
        return false;
      }
      if columns[i] in seen {
        return false;
      }
      seen := seen + {columns[i]};
      i := i + 1;
    }
    return true;
  }

  // ---------- the column list is a permutation of the schema ----------

  ghost function Elements<T(!new)>(xs: seq<T>): (r: set<T>)
    ensures forall x :: x in r <==> x in xs
  {
    set x | x in xs
  }

  lemma {:induction false} Distinct<T(!new)>(xs: seq<T>)
    requires Unique(xs)
    ensures |Elements(xs)| == |xs|
  {
    if xs != [] {
      var rest := xs[1..];
      assert xs == [xs[0]] + rest;
      assert Unique(rest) && xs[0] !in rest by {
        assert forall i :: 0 <= i < |rest| ==> rest[i] == xs[i + 1];
      }
      Distinct(rest);
      assert Elements(xs) == Elements(rest) + {xs[0]};
    }
  }

  function Below(n: nat): (r: set<nat>)
    ensures |r| == n && forall i: nat :: i in r <==> i < n
  {
    if n == 0 then {} else Below(n - 1) + {n - 1}
  }

  lemma SubsetOfSameSize(a: set<nat>, b: set<nat>)
    requires a <= b && |a| == |b|
    ensures a == b
  {
    assert b == a + (b - a);
    assert |b| == |a| + |b - a|;
  }

  /** `n` different numbers below `n` are all the numbers below `n`. */
  lemma AllOfThem(xs: seq<nat>)
    requires Unique(xs) && forall x <- xs :: x < |xs|
    ensures forall i: nat :: i < |xs| ==> i in xs
  {
    Distinct(xs);
    SubsetOfSameSize(Elements(xs), Below(|xs|));
    forall i: nat | i < |xs|
      ensures i in xs
    {
      assert i in Below(|xs|);
    }
  }

  lemma HowMany(xs: seq<nat>, n: nat)
    requires Unique(xs) && forall i: nat :: i in xs <==> i < n
    ensures |xs| == n
  {
    Distinct(xs);
    assert Elements(xs) == Below(n);
  }

  /** The schema position of each listed column. */
  function Positions(columns: seq<string>, schema: seq<ColumnDef>): (r: seq<nat>)
    requires forall name <- columns :: IndexOf(schema, name).Some?
    ensures |r| == |columns|
    ensures forall i :: 0 <= i < |columns| ==> columns[i] in columns && r[i] == IndexOf(schema, columns[i]).value
  {
    seq(|columns|, i requires 0 <= i < |columns| => assert columns[i] in columns; IndexOf(schema, columns[i]).value)
  }

  /** An accepted column list names every schema position exactly once. */
  lemma PositionsPermute(columns: seq<string>, values: seq<Value>, schema: seq<ColumnDef>)
    requires ValidInsert(columns, values, schema) && columns != []
    ensures Unique(Positions(columns, schema))
    ensures forall j: nat :: j in Positions(columns, schema) <==> j < |schema|
  {
    var at := Positions(columns, schema);
    forall i, j | 0 <= i < j < |at|
      ensures at[i] != at[j]
    {
      assert schema[at[i]].name == columns[i] && schema[at[j]].name == columns[j];
    }
    forall x | x in at
      ensures x < |schema|
    {
      var i :| 0 <= i < |at| && at[i] == x;
    }
    AllOfThem(at);
  }

  // ---------- placement ----------

  /** Entry `i` of the list, and no other, is for schema position `j`. */
  ghost predicate Names(columns: seq<string>, schema: seq<ColumnDef>, i: nat, j: nat) {
    && i < |columns| && j < |schema| && columns[i] == schema[j].name
    && forall k :: 0 <= k < |columns| && k != i ==> columns[k] != schema[j].name
  }

  /** Every schema position holds the value listed for its column; a column is listed exactly once. */
  ghost predicate Placed(columns: seq<string>, values: seq<Value>, schema: seq<ColumnDef>, row: seq<Value>) {
    && |row| == |schema|
    && if columns == [] then row == values
       else forall j :: 0 <= j < |row| ==> ListedFor(columns, values, schema, j, row[j])
  }

  ghost predicate ListedFor(columns: seq<string>, values: seq<Value>, schema: seq<ColumnDef>, j: nat, v: Value) {
    exists i: nat :: Names(columns, schema, i, j) && i < |values| && v == values[i]
  }

  method PlaceValues(columns: seq<string>, values: seq<Value>, schema: seq<ColumnDef>) returns (row: seq<Value>)
    requires ValidInsert(columns, values, schema)
    ensures Placed(columns, values, schema, row)
  {
    var slots := new Value[|schema|](_ => IntV(0));
    if columns == [] {
      var i := 0;
      while i < |schema|
        invariant i <= |schema| && slots[..i] == values[..i]
      {
        slots[i] := values[i];
        i := i + 1;
      }
      assert slots[..] == slots[..i] && values == values[..i];
      return slots[..];
    }
    PositionsPermute(columns, values, schema);
    ghost var at := Positions(columns, schema);
    var i := 0;
    while i < |columns|
      invariant i <= |columns|
      invariant forall k :: 0 <= k < i ==> at[k] < |schema| && slots[at[k]] == values[k]
    {
      assert columns[i] in columns;
      var idx := IndexOf(schema, columns[i]);
      slots[idx.value] := values[i];
      i := i + 1;
    }
    row := slots[..];
    forall j | 0 <= j < |row|
      ensures ListedFor(columns, values, schema, j, row[j])
    {
      var i := SlotFilled(columns, values, schema, j);
      assert row[j] == slots[at[i]] == values[i];
    }
  }

  /** The one listed column that fills slot `j`. */
  lemma SlotFilled(columns: seq<string>, values: seq<Value>, schema: seq<ColumnDef>, j: nat) returns (i: nat)
    requires ValidInsert(columns, values, schema) && columns != [] && j < |schema|
    ensures Names(columns, schema, i, j) && Positions(columns, schema)[i] == j
  {
    PositionsPermute(columns, values, schema);
    var at := Positions(columns, schema);
    assert j in at;
    i :| 0 <= i < |at| && at[i] == j;
    assert columns[i] == schema[j].name;
  }
}
