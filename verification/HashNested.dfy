/** The hash join against the nested loop under `column = column`: the same rows exactly when no pair of keys mixes the
    two kinds of value. */
module HashNested {
  import opened Pages
  import opened Query
  import opened Joins
  import opened Plans
  import opened JoinSteps
  import opened Bags

  function Equality(l: KeyRef, r: KeyRef): Expr {
    Compare(Eq, ColumnRef(l.table, l.column), ColumnRef(r.table, r.column))
  }

  /** No alias occurs on both sides. */
  ghost predicate Apart(left: seq<Row>, right: seq<Row>) {
    forall l, r, f, g :: l in left && r in right && f in l && g in r ==> f.table != g.table
  }

  /** Every key of one side is of the same kind as every key of the other. */
  ghost predicate SameKinds(left: seq<Row>, right: seq<Row>, lk: KeyRef, rk: KeyRef)
    requires Keyed(left, lk) && Keyed(right, rk)
  {
    forall a, b :: 0 <= a < |left| && 0 <= b < |right| ==> KeysAlike(KeyOf(left[a], lk), KeyOf(right[b], rk))
  }

  predicate KeysAlike(a: Result<Value>, b: Result<Value>) {
    a.Ok? && b.Ok? && SameKind(a.value, b.value)
  }

  /** The two sides of a join on qualified columns. */
  ghost predicate Joinable(left: seq<Row>, right: seq<Row>, lk: KeyRef, rk: KeyRef) {
    Apart(left, right) && lk.table.Some? && rk.table.Some? && Keyed(left, lk) && Keyed(right, rk)
  }

  // ---------- what the condition reads on a combined row ----------

  lemma {:induction false} FoundIsThere(row: Row, table: string, column: string)
    ensures Find(row, Some(table), column).Ok? ==> exists f <- row :: f.table == table
  {
    if row != [] {
      assert row[0] in row;
      assert forall f <- row[1..] :: f in row;
      FoundIsThere(row[1..], table, column);
    }
  }

  /** A key of one side is found in the combined row, whichever side comes first. */
  lemma FindCombined(l: Row, r: Row, k: KeyRef)
    requires k.table.Some? && KeyOf(l, k).Ok? && forall f, g :: f in l && g in r ==> f.table != g.table
    ensures KeyOf(l + r, k) == KeyOf(l, k) && KeyOf(r + l, k) == KeyOf(l, k)
  {
    hide Find, Only;
    var a := k.table.value;
    FoundIsThere(l, a, k.column);
    OnlyPart(r, a);
    OnlyAppend(l, r, a);
    OnlyAppend(r, l, a);
    assert Only(l, a) + [] == Only(l, a) && [] + Only(l, a) == Only(l, a);
    FindQualified(l, a, k.column);
    FindQualified(l + r, a, k.column);
    FindQualified(r + l, a, k.column);
  }

  /** On a pair the condition is the equality of the keys if they are of one kind, and an error if not. */
  lemma PairEquality(l: Row, r: Row, lk: KeyRef, rk: KeyRef)
    requires lk.table.Some? && rk.table.Some? && KeyOf(l, lk).Ok? && KeyOf(r, rk).Ok?
    requires forall f, g :: f in l && g in r ==> f.table != g.table
    ensures EvalBool(Equality(lk, rk), l + r)
         == if KeysAlike(KeyOf(l, lk), KeyOf(r, rk)) then Ok(KeyOf(l, lk) == KeyOf(r, rk)) else Err
  {
    hide Find, CompareValues, TextBelow;
    FindCombined(l, r, lk);
    FindCombined(r, l, rk);
    var u, v := KeyOf(l, lk).value, KeyOf(r, rk).value;
    ComparesIs(Eq, u, v);
  }

  // ---------- nested loop ----------

  lemma {:induction false} PairsSame(n: nat, m: nat, f: Pair -> bool, g: Pair -> bool, a: nat, b: nat)
    requires forall p: Pair :: p.0 < n && p.1 < m ==> f(p) == g(p)
    ensures PairsFrom(n, m, f, a, b) == PairsFrom(n, m, g, a, b)
    decreases n - a, m - b
  {
    if a < n {
      if b >= m {
        PairsSame(n, m, f, g, a + 1, 0);
      } else {
        PairsSame(n, m, f, g, a, b + 1);
      }
    }
  }

  /** Keys of one kind: the nested loop keeps exactly the pairs with equal keys. */
  lemma NestedByKeys(left: seq<Row>, right: seq<Row>, lk: KeyRef, rk: KeyRef)
    requires Joinable(left, right, lk, rk) && SameKinds(left, right, lk, rk)
    ensures Evaluable(left, right, Equality(lk, rk))
    ensures forall p: Pair :: p.0 < |left| && p.1 < |right| ==>
                                (NestedTest(left, right, Equality(lk, rk))(p) <==> KeyOf(left[p.0], lk) == KeyOf(right[p.1], rk))
  {
    hide KeyOf, EvalBool, Equality;
    forall a, b | 0 <= a < |left| && 0 <= b < |right|
      ensures EvalBool(Equality(lk, rk), left[a] + right[b]) == Ok(KeyOf(left[a], lk) == KeyOf(right[b], rk))
    {
      assert left[a] in left && right[b] in right;
      PairEquality(left[a], right[b], lk, rk);
    }
  }

  lemma MixedFails(left: seq<Row>, right: seq<Row>, lk: KeyRef, rk: KeyRef)
    requires Joinable(left, right, lk, rk) && !SameKinds(left, right, lk, rk)
    ensures NestedRows(left, right, Equality(lk, rk)).Err?
  {
    hide KeyOf, EvalBool, Equality, NestedFrom;
    var a: nat, b: nat :| a < |left| && b < |right| && !KeysAlike(KeyOf(left[a], lk), KeyOf(right[b], rk));
    assert left[a] in left && right[b] in right;
    PairEquality(left[a], right[b], lk, rk);
    NestedErr(left, right, Equality(lk, rk), 0, 0, (a, b));
  }

  // ---------- building on the right side ----------

  /** Built on the right side, a hash join emits what the nested loop emits, in the same order, exactly when no pair of
      keys mixes kinds; the nested loop then fails, and the hash join does not. */
  lemma HashRightIsNested(left: seq<Row>, right: seq<Row>, lk: KeyRef, rk: KeyRef)
    requires Joinable(left, right, lk, rk)
    ensures HashRows(right, left, rk, lk).Ok?
    ensures HashRows(right, left, rk, lk) == NestedRows(left, right, Equality(lk, rk)) <==> SameKinds(left, right, lk, rk)
  {
    hide KeyOf, EvalBool, Equality, NestedFrom, HashFrom, PairsFrom, Apart, SameKinds;
    HashPairs(right, left, rk, lk, 0, 0);
    if SameKinds(left, right, lk, rk) {
      NestedByKeys(left, right, lk, rk);
      NestedPairs(left, right, Equality(lk, rk), 0, 0);
      PairsSame(|left|, |right|, HashTest(right, left, rk, lk), NestedTest(left, right, Equality(lk, rk)), 0, 0);
    } else {
      MixedFails(left, right, lk, rk);
    }
  }

  // ---------- building on the left side ----------

  lemma SwappedBlocks(l: Row, r: Row)
    requires forall f, g :: f in l && g in r ==> f.table != g.table
    ensures Blocks(l + r) == Blocks(r + l)
  {
    hide Blocks, Only;
    forall a
      ensures Only(l + r, a) == Only(r + l, a)
    {
      OnlyAppend(l, r, a);
      OnlyAppend(r, l, a);
      if f :| f in l && f.table == a {
        OnlyPart(r, a);
      } else {
        OnlyPart(l, a);
      }
    }
    BlocksSame(l + r, r + l);
  }

  lemma RowsWithout(left: seq<Row>, right: seq<Row>, pairs: seq<Pair>, k: nat)
    requires InBounds(pairs, |left|, |right|) && k < |pairs|
    ensures InBounds(pairs[..k] + pairs[k + 1..], |left|, |right|)
    ensures var rows := RowsOf(left, right, pairs);
            rows[..k] + rows[k + 1..] == RowsOf(left, right, pairs[..k] + pairs[k + 1..])
  {
    assert forall p <- pairs[..k] + pairs[k + 1..] :: p in pairs;
  }

  ghost predicate Mirrors(pairs: seq<Pair>, swapped: seq<Pair>) {
    forall a: nat, b: nat :: (a, b) in pairs <==> (b, a) in swapped
  }

  lemma MirrorsWithout(pairs: seq<Pair>, swapped: seq<Pair>, i: nat, k: nat)
    requires Unique(pairs) && Unique(swapped) && Mirrors(pairs, swapped)
    requires i < |pairs| && k < |swapped| && swapped[k] == (pairs[i].1, pairs[i].0)
    ensures Mirrors(pairs[..i] + pairs[i + 1..], swapped[..k] + swapped[k + 1..])
  {
    hide Unique;
    UniqueWithout(pairs, i);
    UniqueWithout(swapped, k);
    var ps, qs := pairs[..i] + pairs[i + 1..], swapped[..k] + swapped[k + 1..];
    forall a: nat, b: nat
      ensures (a, b) in ps <==> (b, a) in qs
    {
      assert (a, b) in ps <==> (a, b) in pairs && (a, b) != pairs[i];
      assert (b, a) in qs <==> (b, a) in swapped && (b, a) != swapped[k];
    }
  }

  /** One row out of the bag. */
  lemma RowOut(left: seq<Row>, right: seq<Row>, pairs: seq<Pair>, k: nat)
    requires InBounds(pairs, |left|, |right|) && k < |pairs|
    ensures pairs[k] in pairs && InBounds(pairs[..k] + pairs[k + 1..], |left|, |right|)
    ensures Bag(RowsOf(left, right, pairs))
         == multiset{Blocks(left[pairs[k].0] + right[pairs[k].1])} + Bag(RowsOf(left, right, pairs[..k] + pairs[k + 1..]))
  {
    hide Bag, Blocks;
    RowsWithout(left, right, pairs, k);
    BagWithout(RowsOf(left, right, pairs), k);
  }

  /** The same pairs, each once, in another order and the other way round, give the same bag of rows. */
  lemma {:induction false} SwappedBag(left: seq<Row>, right: seq<Row>, pairs: seq<Pair>, swapped: seq<Pair>)
    requires Apart(left, right) && InBounds(pairs, |left|, |right|) && InBounds(swapped, |right|, |left|)
    requires Unique(pairs) && Unique(swapped) && Mirrors(pairs, swapped)
    ensures Bag(RowsOf(left, right, pairs)) == Bag(RowsOf(right, left, swapped))
    decreases |pairs|
  {
    hide Bag, Blocks, Unique, RowsOf;
    if pairs == [] {
      NoMirror(pairs, swapped);
    } else {
      var a, b := pairs[0].0, pairs[0].1;
      assert (a, b) in pairs;
      var k :| 0 <= k < |swapped| && swapped[k] == (b, a);
      UniqueWithout(pairs, 0);
      UniqueWithout(swapped, k);
      MirrorsWithout(pairs, swapped, 0, k);
      RowOut(left, right, pairs, 0);
      RowOut(right, left, swapped, k);
      SwappedBag(left, right, pairs[..0] + pairs[0 + 1..], swapped[..k] + swapped[k + 1..]);
      assert left[a] in left && right[b] in right;
      SwappedBlocks(left[a], right[b]);
    }
  }

  lemma NoMirror(pairs: seq<Pair>, swapped: seq<Pair>)
    requires Mirrors(pairs, swapped)
    ensures swapped != [] ==> pairs != []
  {
    if swapped != [] {
      assert (swapped[0].0, swapped[0].1) in swapped;
      assert (swapped[0].1, swapped[0].0) in pairs;
    }
  }

  /** Built on the left side, a hash join emits the same rows up to the order of their tables, again exactly when no pair
      of keys mixes kinds. */
  lemma HashLeftIsNested(left: seq<Row>, right: seq<Row>, lk: KeyRef, rk: KeyRef)
    requires Joinable(left, right, lk, rk)
    ensures HashRows(left, right, lk, rk).Ok?
    ensures SameBag(HashRows(left, right, lk, rk), NestedRows(left, right, Equality(lk, rk))) <==> SameKinds(left, right, lk, rk)
  {
    hide KeyOf, EvalBool, Equality, NestedFrom, HashFrom, PairsFrom, Apart, SameKinds, Bag, Unique, RowsOf;
    HashPairs(left, right, lk, rk, 0, 0);
    if SameKinds(left, right, lk, rk) {
      NestedByKeys(left, right, lk, rk);
      NestedPairs(left, right, Equality(lk, rk), 0, 0);
      var test, swap := NestedTest(left, right, Equality(lk, rk)), HashTest(left, right, lk, rk);
      PairsExact(|left|, |right|, test, 0, 0);
      PairsExact(|right|, |left|, swap, 0, 0);
      var pairs, swapped := PairsFrom(|left|, |right|, test, 0, 0), PairsFrom(|right|, |left|, swap, 0, 0);
      forall a: nat, b: nat
        ensures (a, b) in pairs <==> (b, a) in swapped
      {
        assert (a, b) in pairs <==> a < |left| && b < |right| && test((a, b));
        assert (b, a) in swapped <==> b < |right| && a < |left| && swap((b, a));
      }
      SwappedBag(left, right, pairs, swapped);
    } else {
      MixedFails(left, right, lk, rk);
    }
  }
}
