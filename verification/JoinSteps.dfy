/** Each join step of a plan, by either operator and either build side, lists exactly the satisfying combinations;
    so every join order that respects the conditions gives the same rows. */
module JoinSteps {
  import opened Pages
  import opened Query
  import opened Joins
  import opened Plans
  import opened References
  import opened JoinOrder
  import opened Bags

  lemma SameLength(c: Context, order: seq<nat>, l: Listing)
    requires ContextOk(c) && Listed(c, order, l)
    ensures |l.rows| == |l.xs|
  {
  }

  /** A test that decides the condition picks exactly the pairs to keep. */
  lemma ExactTest(c: Context, xs: seq<Choice>, i: nat, test: Pair -> bool)
    requires ContextOk(c) && i < |c.nodes| && c.nodes[i].cond.Some?
    requires forall a, k :: 0 <= a < |xs| && 0 <= k < |TableOf(c, i).rows| ==>
                              (test((a, k)) <==> Meets(c, i, xs[a][i := k]))
    ensures ExactJoin(c, xs, i, PairsFrom(|xs|, |TableOf(c, i).rows|, test, 0, 0))
  {
    hide Meets, Unique, PairsFrom, ContextOk;
    PairsExact(|xs|, |TableOf(c, i).rows|, test, 0, 0);
  }

  // ---------- nested loop ----------

  lemma NestedDecides(c: Context, order: seq<nat>, i: nat, l: Listing)
    requires ContextOk(c) && Ready(c, order, i, l)
    ensures |l.rows| == |l.xs|
    ensures Evaluable(l.rows, NewRows(c, i), c.nodes[i].cond.value)
    ensures forall a, k :: 0 <= a < |l.xs| && 0 <= k < |TableOf(c, i).rows| ==>
                             (NestedTest(l.rows, NewRows(c, i), c.nodes[i].cond.value)((a, k)) <==>
                              Meets(c, i, l.xs[a][i := k]))
  {
    hide Listed, Reached, EvalBool, Meets, RowFor, ContextOk, Plannable, Unique, Stuck;
    SameLength(c, order, l);
    CondThere(c, i);
    forall a, k | 0 <= a < |l.xs| && 0 <= k < |TableOf(c, i).rows|
      ensures EvalBool(c.nodes[i].cond.value, l.rows[a] + NewRows(c, i)[k]) == Ok(Meets(c, i, l.xs[a][i := k]))
    {
      PairIs(c, order, i, l, a, k);
      PairDecided(c, order, i, l, a, k);
    }
  }

  lemma NestedStep(c: Context, order: seq<nat>, i: nat, l: Listing) returns (l': Listing)
    requires ContextOk(c) && Ready(c, order, i, l)
    ensures NestedRows(l.rows, NewRows(c, i), c.nodes[i].cond.value) == Ok(l'.rows) && Listed(c, order + [i], l')
  {
    hide Listed, Reached, Meets, RowFor, Unique, NestedFrom, ContextOk, Plannable, Evaluable, NestedTest, PairsFrom, TypedTable, Typed;
    CondThere(c, i);
    var left, right, cond := l.rows, NewRows(c, i), c.nodes[i].cond.value;
    NestedDecides(c, order, i, l);
    NestedPairs(left, right, cond, 0, 0);
    var test := NestedTest(left, right, cond);
    ExactTest(c, l.xs, i, test);
    var pairs := PairsFrom(|left|, |right|, test, 0, 0);
    l' := ListMore(c, order, i, l, pairs, RowsOf(left, right, pairs), false);
  }

  lemma CondThere(c: Context, i: nat)
    requires ContextOk(c) && 0 < i < |c.nodes|
    ensures c.nodes[i].cond.Some?
  {
  }

  // ---------- hash join ----------

  /** The side of an equality that the accumulated rows are keyed on reads its value in the choice. */
  lemma AccKey(c: Context, order: seq<nat>, i: nat, l: Listing, acc: KeyRef, next: KeyRef, a: nat)
    requires ContextOk(c) && Ready(c, order, i, l) && a < |l.xs|
    requires Sides(c.nodes[i].cond.value, c.nodes[i].alias, acc, next)
    ensures |l.rows| == |l.xs| && Chosen(c, i + 1, RefOf(acc), l.xs[a]) && OwnerOf(c, i + 1, acc.table, acc.column) != Some(i)
    ensures KeyOf(l.rows[a], acc) == Ok(ValueIn(c, i + 1, RefOf(acc), l.xs[a]))
  {
    hide RowFor, Complete, Find, ContextOk, Typed, Unique, OwnerOf;
    CondThere(c, i);
    var cond := c.nodes[i].cond.value;
    ReachedBefore(c, order, i);
    assert TypeOf(c, i + 1, RefOf(acc)).Some?;
    var j := OwnerOf(c, i + 1, acc.table, acc.column).value;
    assert !SelfKeyed(c, i);
    assert CondResolved(c, i, order + [i]) && ResolvedIn(c, i + 1, cond, order + [i]);
    assert RefOf(acc) == cond.left || RefOf(acc) == cond.right;
    assert ResolvedIn(c, i + 1, RefOf(acc), order + [i]);
    assert j in l.layout;
    FindInRow(c, i + 1, l.layout, l.xs[a], acc.table, acc.column);
  }

  function RefOf(k: KeyRef): Expr {
    ColumnRef(k.table, k.column)
  }

  lemma NextKey(c: Context, i: nat, acc: KeyRef, next: KeyRef, k: nat)
    requires ContextOk(c) && 0 < i < |c.nodes| && k < |TableOf(c, i).rows| && WellTyped(c, i + 1, c.nodes[i].cond.value)
    requires Sides(c.nodes[i].cond.value, c.nodes[i].alias, acc, next)
    ensures OwnerOf(c, i + 1, next.table, next.column) == Some(i)
    ensures KeyOf(NewRows(c, i)[k], next) == Ok(ValueIn(c, i + 1, RefOf(next), map[i := k]))
  {
    hide Find, ContextOk;
    NodeIndexIs(c, i);
    assert TypeOf(c, i + 1, RefOf(next)).Some?;
    FindPart(c, i + 1, i, k, next.table, next.column);
  }

  /** On typed values the equality holds exactly when the two sides are the same value. */
  lemma EqualityIn(c: Context, i: nat, acc: KeyRef, next: KeyRef, y: Choice)
    requires Typed(c) && 0 < i < |c.nodes| && WellTyped(c, i + 1, c.nodes[i].cond.value)
    requires Sides(c.nodes[i].cond.value, c.nodes[i].alias, acc, next)
    requires Chosen(c, i + 1, RefOf(acc), y) && Chosen(c, i + 1, RefOf(next), y)
    ensures Meets(c, i, y) <==> ValueIn(c, i + 1, RefOf(acc), y) == ValueIn(c, i + 1, RefOf(next), y)
  {
    hide ContextOk, ValueIn, OwnerOf;
    CondThere(c, i);
    var u, v, cond := RefOf(acc), RefOf(next), c.nodes[i].cond.value;
    assert (u == cond.left && v == cond.right) || (u == cond.right && v == cond.left);
    assert Meets(c, i, y) == CondIn(c, i + 1, cond, y);
  }

  /** The key columns compare equal exactly when the condition holds. */
  lemma KeysAre(c: Context, order: seq<nat>, i: nat, l: Listing, acc: KeyRef, next: KeyRef, a: nat, k: nat)
    requires ContextOk(c) && Ready(c, order, i, l) && a < |l.xs| && k < |TableOf(c, i).rows|
    requires Sides(c.nodes[i].cond.value, c.nodes[i].alias, acc, next)
    ensures |l.rows| == |l.xs| && KeyOf(l.rows[a], acc).Ok? && KeyOf(NewRows(c, i)[k], next).Ok?
    ensures KeyOf(l.rows[a], acc) == KeyOf(NewRows(c, i)[k], next) <==> Meets(c, i, l.xs[a][i := k])
  {
    hide Listed, KeyOf, Unique, ContextOk, Meets, Sides, OwnerOf;
    var y := l.xs[a][i := k];
    AccKey(c, order, i, l, acc, next, a);
    NextKey(c, i, acc, next, k);
    EqualityIn(c, i, acc, next, y);
  }

  function Swap(pairs: seq<Pair>): (r: seq<Pair>)
    ensures |r| == |pairs| && forall t :: 0 <= t < |r| ==> r[t] == (pairs[t].1, pairs[t].0)
    ensures forall p: Pair :: p in r <==> (p.1, p.0) in pairs
  {
    var r := seq(|pairs|, t requires 0 <= t < |pairs| => (pairs[t].1, pairs[t].0));
    assert forall p: Pair :: (p.1, p.0) in pairs ==> p in r by {
      forall p: Pair | (p.1, p.0) in pairs
        ensures p in r
      {
        var t :| 0 <= t < |pairs| && pairs[t] == (p.1, p.0);
        assert r[t] == p;
      }
    }
    r
  }

  lemma SwapUnique(pairs: seq<Pair>)
    requires Unique(pairs)
    ensures Unique(Swap(pairs))
  {
    var r := Swap(pairs);
    forall s, t | 0 <= s < t < |r|
      ensures r[s] != r[t]
    {
      assert pairs[s] != pairs[t];
    }
  }

  lemma HashKeyed(c: Context, order: seq<nat>, i: nat, l: Listing, acc: KeyRef, next: KeyRef)
    requires ContextOk(c) && Ready(c, order, i, l) && Sides(c.nodes[i].cond.value, c.nodes[i].alias, acc, next)
    ensures |l.rows| == |l.xs|
    ensures Keyed(l.rows, acc)
    ensures Keyed(NewRows(c, i), next)
  {
    hide Listed, KeyOf, Unique, ContextOk, Meets, Sides, Plannable, Reached;
    SameLength(c, order, l);
    forall r | r in l.rows
      ensures KeyOf(r, acc).Ok?
    {
      var a :| 0 <= a < |l.rows| && l.rows[a] == r;
      AccKey(c, order, i, l, acc, next, a);
    }
    forall r | r in NewRows(c, i)
      ensures KeyOf(r, next).Ok?
    {
      var k :| 0 <= k < |NewRows(c, i)| && NewRows(c, i)[k] == r;
      WellTypedThere(c, i);
      NextKey(c, i, acc, next, k);
    }
  }

  lemma WellTypedThere(c: Context, i: nat)
    requires Plannable(c) && 0 < i < |c.nodes|
    ensures c.nodes[i].cond.Some? && WellTyped(c, i + 1, c.nodes[i].cond.value)
  {
  }

  /** Building on the new table and probing with the accumulated rows. */
  lemma HashOnNew(c: Context, order: seq<nat>, i: nat, l: Listing, acc: KeyRef, next: KeyRef) returns (l': Listing)
    requires ContextOk(c) && Ready(c, order, i, l) && Sides(c.nodes[i].cond.value, c.nodes[i].alias, acc, next)
    ensures HashRows(NewRows(c, i), l.rows, next, acc) == Ok(l'.rows) && Listed(c, order + [i], l')
  {
    hide Listed, Reached, Meets, KeyOf, Unique, HashFrom, ContextOk, Plannable, PairsFrom, Sides, Keyed;
    HashKeyed(c, order, i, l, acc, next);
    CondThere(c, i);
    var build, probe := NewRows(c, i), l.rows;
    var test := HashTest(build, probe, next, acc);
    forall a, k | 0 <= a < |l.xs| && 0 <= k < |TableOf(c, i).rows|
      ensures test((a, k)) <==> Meets(c, i, l.xs[a][i := k])
    {
      KeysAre(c, order, i, l, acc, next, a, k);
    }
    ExactTest(c, l.xs, i, test);
    HashPairs(build, probe, next, acc, 0, 0);
    var pairs := PairsFrom(|probe|, |build|, test, 0, 0);
    l' := ListMore(c, order, i, l, pairs, RowsOf(probe, build, pairs), false);
  }

  lemma ExactSwapped(c: Context, xs: seq<Choice>, i: nat, test: Pair -> bool)
    requires ContextOk(c) && i < |c.nodes| && c.nodes[i].cond.Some?
    requires forall a, k :: 0 <= a < |xs| && 0 <= k < |TableOf(c, i).rows| ==>
                              (test((k, a)) <==> Meets(c, i, xs[a][i := k]))
    ensures ExactJoin(c, xs, i, Swap(PairsFrom(|TableOf(c, i).rows|, |xs|, test, 0, 0)))
  {
    hide Meets, Unique, PairsFrom, ContextOk;
    var pairs := PairsFrom(|TableOf(c, i).rows|, |xs|, test, 0, 0);
    PairsExact(|TableOf(c, i).rows|, |xs|, test, 0, 0);
    SwapUnique(pairs);
  }

  /** Building on the accumulated rows and probing with the new table. */
  lemma HashOnAccumulated(c: Context, order: seq<nat>, i: nat, l: Listing, acc: KeyRef, next: KeyRef) returns (l': Listing)
    requires ContextOk(c) && Ready(c, order, i, l) && Sides(c.nodes[i].cond.value, c.nodes[i].alias, acc, next)
    ensures HashRows(l.rows, NewRows(c, i), acc, next) == Ok(l'.rows) && Listed(c, order + [i], l')
  {
    hide Listed, Reached, Meets, KeyOf, Unique, HashFrom, ContextOk, Plannable, PairsFrom, Sides, Keyed, Swap;
    HashKeyed(c, order, i, l, acc, next);
    CondThere(c, i);
    var build, probe := l.rows, NewRows(c, i);
    var test := HashTest(build, probe, acc, next);
    forall a, k | 0 <= a < |l.xs| && 0 <= k < |TableOf(c, i).rows|
      ensures test((k, a)) <==> Meets(c, i, l.xs[a][i := k])
    {
      KeysAre(c, order, i, l, acc, next, a, k);
    }
    ExactSwapped(c, l.xs, i, test);
    HashPairs(build, probe, acc, next, 0, 0);
    var pairs := PairsFrom(|probe|, |build|, test, 0, 0);
    l' := ListMore(c, order, i, l, Swap(pairs), RowsOf(probe, build, pairs), true);
  }

  // ---------- whole join trees ----------

  lemma {:induction false} JoinPlanLists(c: Context, plan: PhysicalPlan, order: seq<nat>) returns (l: Listing)
    requires Plannable(c) && JoinPlan(c, plan, order) && Unique(order) && Reached(c, order)
    ensures Lists(c, plan, order, l)
    decreases |order|
  {
    hide Listed, Reached, Unique, ContextOk, Plannable, Sides, HashRows, NestedRows;
    var i, before := order[|order| - 1], order[..|order| - 1];
    assert order == before + [i];
    TypedThere(c);
    if before == [] {
      l := ScanLists(c);
    } else {
      ReachedBefore(c, before, i);
      UniquePrefix(before, i);
      CondAfter(c, plan, order);
      ScanExec(c, i);
      match plan {
        case NestedLoop(left, _, _) =>
          var m := JoinPlanLists(c, left, before);
          l := NestedStep(c, before, i, m);
        case Hash(build, probe, bk, pk) =>
          if probe == Scan(c.nodes[i].table, c.nodes[i].alias) && Sides(c.nodes[i].cond.value, c.nodes[i].alias, bk, pk)
             && JoinPlan(c, build, before) {
            var m := JoinPlanLists(c, build, before);
            l := HashOnAccumulated(c, before, i, m, bk, pk);
          } else {
            var m := JoinPlanLists(c, probe, before);
            l := HashOnNew(c, before, i, m, pk, bk);
          }
      }
    }
  }

  lemma TypedThere(c: Context)
    requires Plannable(c)
    ensures ContextOk(c) && Typed(c) && DbOk(c.db)
  {
  }

  lemma ScanExec(c: Context, i: nat)
    requires ContextOk(c) && i < |c.nodes|
    ensures Exec(Scan(c.nodes[i].table, c.nodes[i].alias), c.db) == Ok(NewRows(c, i))
  {
    assert c.nodes[i] in c.nodes;
  }

  lemma CondAfter(c: Context, plan: PhysicalPlan, order: seq<nat>)
    requires ContextOk(c) && JoinPlan(c, plan, order) && |order| > 1
    ensures order[|order| - 1] > 0
  {
  }

  lemma UniquePrefix(xs: seq<nat>, x: nat)
    requires Unique(xs + [x])
    ensures Unique(xs) && x !in xs
  {
    var all := xs + [x];
    assert forall i :: 0 <= i < |xs| ==> xs[i] == all[i];
    assert all[|xs|] == x;
  }

  // ---------- two listings of the same tables ----------

  ghost predicate SameMembers<T(!new)>(a: seq<T>, b: seq<T>) {
    forall x :: x in a <==> x in b
  }

  lemma NoMembers<T(!new)>(a: seq<T>, b: seq<T>)
    requires SameMembers(a, b)
    ensures a == [] <==> b == []
  {
    if a != [] {
      assert a[0] in a;
    }
    if b != [] {
      assert b[0] in b;
    }
  }

  lemma SatisfiesSame(c: Context, a: seq<nat>, b: seq<nat>, x: Choice)
    requires ContextOk(c) && SameMembers(a, b)
    ensures Satisfies(c, a, x) == Satisfies(c, b, x)
  {
    hide Meets, ContextOk;
  }

  lemma UniqueWithout<T>(xs: seq<T>, k: nat)
    requires Unique(xs) && k < |xs|
    ensures Unique(xs[..k] + xs[k + 1..])
    ensures forall x :: x in xs[..k] + xs[k + 1..] <==> x in xs && x != xs[k]
  {
    var rest := xs[..k] + xs[k + 1..];
    assert forall i :: 0 <= i < |rest| ==> rest[i] == xs[if i < k then i else i + 1];
    forall x | x in xs && x != xs[k]
      ensures x in rest
    {
      var i :| 0 <= i < |xs| && xs[i] == x;
      assert rest[if i < k then i else i - 1] == x;
    }
  }

  lemma RowsBlocks(c: Context, a: seq<nat>, b: seq<nat>, x: Choice)
    requires ContextOk(c) && Picks(c, a, x) && Picks(c, b, x) && Unique(a) && Unique(b) && SameMembers(a, b)
    ensures Blocks(RowFor(c, a, x)) == Blocks(RowFor(c, b, x))
  {
    hide Blocks, RowFor, Unique, Picks;
    LayoutsSame(c, a, b, x);
    BlocksSame(RowFor(c, a, x), RowFor(c, b, x));
  }

  lemma EnumeratesWithout(c: Context, l: Listing, k: nat) returns (l': Listing)
    requires ContextOk(c) && Enumerates(c, l.rows, l.layout, l.xs) && k < |l.xs|
    ensures l' == Listing(l.rows[..k] + l.rows[k + 1..], l.layout, l.xs[..k] + l.xs[k + 1..])
    ensures Enumerates(c, l'.rows, l'.layout, l'.xs)
  {
    hide RowFor, ContextOk, Picks;
    l' := Listing(l.rows[..k] + l.rows[k + 1..], l.layout, l.xs[..k] + l.xs[k + 1..]);
    forall t | 0 <= t < |l'.xs|
      ensures Picks(c, l.layout, l'.xs[t]) && l'.rows[t] == RowFor(c, l.layout, l'.xs[t])
    {
      var s := if t < k then t else t + 1;
      assert l'.xs[t] == l.xs[s] && l'.rows[t] == l.rows[s];
    }
  }

  /** Lists of the same combinations, each once, are the same bag of rows, whatever their order and layout. */
  lemma {:induction false} SameChoicesSameBag(c: Context, l: Listing, m: Listing)
    requires ContextOk(c) && Enumerates(c, l.rows, l.layout, l.xs) && Enumerates(c, m.rows, m.layout, m.xs)
    requires Unique(l.layout) && Unique(m.layout) && SameMembers(l.layout, m.layout)
    requires Unique(l.xs) && Unique(m.xs) && SameMembers(l.xs, m.xs)
    ensures Bag(l.rows) == Bag(m.rows)
    decreases |l.xs|
  {
    hide Bag, Blocks, RowFor, Unique, ContextOk, Picks;
    if l.xs == [] {
      NoMembers(l.xs, m.xs);
    } else {
      assert l.xs[0] in l.xs;
      var k :| 0 <= k < |m.xs| && m.xs[k] == l.xs[0];
      var l' := EnumeratesWithout(c, l, 0);
      var m' := EnumeratesWithout(c, m, k);
      UniqueWithout(l.xs, 0);
      UniqueWithout(m.xs, k);
      forall x
        ensures x in l'.xs <==> x in m'.xs
      {
        assert x in l'.xs <==> x in l.xs && x != l.xs[0];
        assert x in m'.xs <==> x in m.xs && x != m.xs[k];
      }
      SameChoicesSameBag(c, l', m');
      RowsBlocks(c, l.layout, m.layout, l.xs[0]);
      BagWithout(l.rows, 0);
      BagWithout(m.rows, k);
    }
  }

  /** Every order, strategy and choice of build side gives the same bag of rows. */
  lemma JoinOrderDoesNotMatter(c: Context, plan: PhysicalPlan, order: seq<nat>, other: PhysicalPlan, order': seq<nat>)
    requires Plannable(c) && SameMembers(order, order')
    requires JoinPlan(c, plan, order) && Unique(order) && Reached(c, order)
    requires JoinPlan(c, other, order') && Unique(order') && Reached(c, order')
    ensures Exec(plan, c.db).Ok? && Exec(other, c.db).Ok? && Bag(Exec(plan, c.db).value) == Bag(Exec(other, c.db).value)
  {
    hide JoinPlan, Reached, Exec, Bag, Satisfies, RowFor;
    var l := JoinPlanLists(c, plan, order);
    var m := JoinPlanLists(c, other, order');
    forall x
      ensures x in l.xs <==> x in m.xs
    {
      SatisfiesSame(c, order, order', x);
    }
    SameChoicesSameBag(c, l, m);
  }
}
