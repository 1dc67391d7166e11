/** The two join operators: what each emits, and the iterators that emit it row by row. */
module Joins {
  import opened Pages
  import opened Query

  // ---------- pairs of row indices, in loop order ----------

  type Pair = (nat, nat)

  /** The pairs that pass `test`, outer index first, from (a, b) on. */
  function PairsFrom(n: nat, m: nat, test: Pair -> bool, a: nat, b: nat): seq<Pair>
    decreases n - a, m - b
  {
    if a >= n then []
    else if b >= m then PairsFrom(n, m, test, a + 1, 0)
    else (if test((a, b)) then [(a, b)] else []) + PairsFrom(n, m, test, a, b + 1)
  }

  predicate AtOrAfter(p: Pair, a: nat, b: nat) {
    p.0 > a || (p.0 == a && p.1 >= b)
  }

  ghost predicate Unique<T>(xs: seq<T>) {
    forall i, j :: 0 <= i < j < |xs| ==> xs[i] != xs[j]
  }

  lemma UniqueCons<T>(x: T, xs: seq<T>)
    requires Unique(xs) && x !in xs
    ensures Unique([x] + xs)
  {
    var all := [x] + xs;
    forall i, j | 0 <= i < j < |all|
      ensures all[i] != all[j]
    {
      assert all[j] == xs[j - 1] && xs[j - 1] in xs;
      assert i > 0 ==> all[i] == xs[i - 1];
    }
  }

  lemma {:induction false} PairsMembers(n: nat, m: nat, test: Pair -> bool, a: nat, b: nat, p: Pair)
    ensures p in PairsFrom(n, m, test, a, b) <==> p.0 < n && p.1 < m && AtOrAfter(p, a, b) && test(p)
    decreases n - a, m - b
  {
    if a < n {
      if b >= m {
        PairsMembers(n, m, test, a + 1, 0, p);
      } else {
        PairsMembers(n, m, test, a, b + 1, p);
      }
    }
  }

  lemma {:induction false} PairsUnique(n: nat, m: nat, test: Pair -> bool, a: nat, b: nat)
    ensures Unique(PairsFrom(n, m, test, a, b))
    decreases n - a, m - b
  {
    if a < n {
      if b >= m {
        PairsUnique(n, m, test, a + 1, 0);
      } else {
        PairsUnique(n, m, test, a, b + 1);
        var rest := PairsFrom(n, m, test, a, b + 1);
        if test((a, b)) {
          PairsMembers(n, m, test, a, b + 1, (a, b));
          UniqueCons((a, b), rest);
          assert PairsFrom(n, m, test, a, b) == [(a, b)] + rest;
        } else {
          assert PairsFrom(n, m, test, a, b) == rest;
        }
      }
    }
  }

  /** Each pair in range that passes the test is listed exactly once, and no other. */
  lemma PairsExact(n: nat, m: nat, test: Pair -> bool, a: nat, b: nat)
    ensures forall p: Pair :: p in PairsFrom(n, m, test, a, b) <==> p.0 < n && p.1 < m && AtOrAfter(p, a, b) && test(p)
    ensures Unique(PairsFrom(n, m, test, a, b))
  {
    forall p: Pair
      ensures p in PairsFrom(n, m, test, a, b) <==> p.0 < n && p.1 < m && AtOrAfter(p, a, b) && test(p)
    {
      PairsMembers(n, m, test, a, b, p);
    }
    PairsUnique(n, m, test, a, b);
  }

  ghost predicate InBounds(pairs: seq<Pair>, n: nat, m: nat) {
    forall p <- pairs :: p.0 < n && p.1 < m
  }

  function RowsOf(left: seq<Row>, right: seq<Row>, pairs: seq<Pair>): (rows: seq<Row>)
    requires InBounds(pairs, |left|, |right|)
    ensures |rows| == |pairs|
    ensures forall t :: 0 <= t < |pairs| ==> rows[t] == left[pairs[t].0] + right[pairs[t].1]
  {
    seq(|pairs|, t requires 0 <= t < |pairs| => assert pairs[t] in pairs; left[pairs[t].0] + right[pairs[t].1])
  }

  /** One more row in front, if it is a hit. */
  function Cons(hit: bool, row: Row, rest: Result<seq<Row>>): (r: Result<seq<Row>>)
    ensures !hit ==> r == rest
  {
    if rest.Err? || !hit then rest else Ok([row] + rest.value)
  }

  lemma RowsOfCons(left: seq<Row>, right: seq<Row>, p: Pair, rest: seq<Pair>)
    requires InBounds(rest, |left|, |right|) && p.0 < |left| && p.1 < |right|
    ensures InBounds([p] + rest, |left|, |right|)
    ensures RowsOf(left, right, [p] + rest) == [left[p.0] + right[p.1]] + RowsOf(left, right, rest)
  {
  }

  // ---------- nested loop ----------

  /** What a nested-loop join still emits when it is about to test left row `a` against right row `b`. */
  function NestedFrom(left: seq<Row>, right: seq<Row>, cond: Expr, a: nat, b: nat): Result<seq<Row>>
    decreases |left| - a, |right| - b
  {
    if a >= |left| then Ok([])
    else if b >= |right| then NestedFrom(left, right, cond, a + 1, 0)
    else
      var hit := EvalBool(cond, left[a] + right[b]);
      if hit.Err? then Err
      else Cons(hit.value, left[a] + right[b], NestedFrom(left, right, cond, a, b + 1))
  }

  function NestedRows(left: seq<Row>, right: seq<Row>, cond: Expr): Result<seq<Row>> {
    NestedFrom(left, right, cond, 0, 0)
  }

  /** The condition can be evaluated on every pair. */
  ghost predicate Evaluable(left: seq<Row>, right: seq<Row>, cond: Expr) {
    forall a, b :: 0 <= a < |left| && 0 <= b < |right| ==> EvalBool(cond, left[a] + right[b]).Ok?
  }

  function NestedTest(left: seq<Row>, right: seq<Row>, cond: Expr): Pair -> bool {
    (p: Pair) => p.0 < |left| && p.1 < |right| && EvalBool(cond, left[p.0] + right[p.1]) == Ok(true)
  }

  lemma {:induction false} NestedPairs(left: seq<Row>, right: seq<Row>, cond: Expr, a: nat, b: nat)
    requires Evaluable(left, right, cond)
    ensures var pairs := PairsFrom(|left|, |right|, NestedTest(left, right, cond), a, b);
            InBounds(pairs, |left|, |right|) && NestedFrom(left, right, cond, a, b) == Ok(RowsOf(left, right, pairs))
    decreases |left| - a, |right| - b
  {
    hide Unique, RowsOf;
    var test := NestedTest(left, right, cond);
    PairsExact(|left|, |right|, test, a, b);
    if a < |left| {
      if b >= |right| {
        NestedPairs(left, right, cond, a + 1, 0);
      } else {
        NestedPairs(left, right, cond, a, b + 1);
        var rest := PairsFrom(|left|, |right|, test, a, b + 1);
        if test((a, b)) {
          RowsOfCons(left, right, (a, b), rest);
          assert PairsFrom(|left|, |right|, test, a, b) == [(a, b)] + rest;
        } else {
          assert PairsFrom(|left|, |right|, test, a, b) == rest;
        }
      }
    }
  }

  /** One pair on which the condition fails to evaluate fails the whole join. */
  lemma {:induction false} NestedErr(left: seq<Row>, right: seq<Row>, cond: Expr, a: nat, b: nat, p: Pair)
    requires p.0 < |left| && p.1 < |right| && AtOrAfter(p, a, b) && EvalBool(cond, left[p.0] + right[p.1]).Err?
    ensures NestedFrom(left, right, cond, a, b).Err?
    decreases |left| - a, |right| - b
  {
    if b >= |right| {
      NestedErr(left, right, cond, a + 1, 0, p);
    } else if p != (a, b) {
      NestedErr(left, right, cond, a, b + 1, p);
    }
  }

  // ---------- hash join ----------

  /** The column that a side of a hash join is keyed on. */
  datatype KeyRef = KeyRef(table: Option<string>, column: string)

  function KeyOf(row: Row, k: KeyRef): Result<Value> {
    Find(row, k.table, k.column)
  }

  /** What a hash join still emits when it is about to compare probe row `p` with build row `b`. */
  function HashFrom(build: seq<Row>, probe: seq<Row>, bk: KeyRef, pk: KeyRef, p: nat, b: nat): Result<seq<Row>>
    decreases |probe| - p, |build| - b
  {
    if p >= |probe| then Ok([])
    else if KeyOf(probe[p], pk).Err? then Err
    else if b >= |build| then HashFrom(build, probe, bk, pk, p + 1, 0)
    else Cons(KeyOf(build[b], bk) == KeyOf(probe[p], pk), probe[p] + build[b], HashFrom(build, probe, bk, pk, p, b + 1))
  }

  ghost predicate Keyed(rows: seq<Row>, k: KeyRef) {
    forall r <- rows :: KeyOf(r, k).Ok?
  }

  /** Building the table reads the key of every build row first. */
  ghost function HashRows(build: seq<Row>, probe: seq<Row>, bk: KeyRef, pk: KeyRef): Result<seq<Row>> {
    if Keyed(build, bk) then HashFrom(build, probe, bk, pk, 0, 0) else Err
  }

  function HashTest(build: seq<Row>, probe: seq<Row>, bk: KeyRef, pk: KeyRef): Pair -> bool {
    (p: Pair) => p.0 < |probe| && p.1 < |build| && KeyOf(build[p.1], bk) == KeyOf(probe[p.0], pk)
  }

  lemma {:induction false} HashPairs(build: seq<Row>, probe: seq<Row>, bk: KeyRef, pk: KeyRef, p: nat, b: nat)
    requires Keyed(probe, pk)
    ensures var pairs := PairsFrom(|probe|, |build|, HashTest(build, probe, bk, pk), p, b);
            InBounds(pairs, |probe|, |build|) && HashFrom(build, probe, bk, pk, p, b) == Ok(RowsOf(probe, build, pairs))
    decreases |probe| - p, |build| - b
  {
    hide Unique, RowsOf, KeyOf;
    var test := HashTest(build, probe, bk, pk);
    PairsExact(|probe|, |build|, test, p, b);
    if p < |probe| {
      assert probe[p] in probe;
      if b >= |build| {
        HashPairs(build, probe, bk, pk, p + 1, 0);
      } else {
        HashPairs(build, probe, bk, pk, p, b + 1);
        var rest := PairsFrom(|probe|, |build|, test, p, b + 1);
        if test((p, b)) {
          RowsOfCons(probe, build, (p, b), rest);
          assert PairsFrom(|probe|, |build|, test, p, b) == [(p, b)] + rest;
        } else {
          assert PairsFrom(|probe|, |build|, test, p, b) == rest;
        }
      }
    }
  }

  // ---------- the nested-loop iterator ----------

  class NestedLoopJoin {
    const condition: Expr
    /** What the left input yields, and how many rows have been pulled from it. */
    var left: seq<Row>
    var pulled: nat
    var currentLeft: Option<Row>
    var rightRows: seq<Row>
    var rightCursor: nat

    ghost predicate Valid()
      reads this
    {
      && pulled <= |left|
      && (currentLeft.None? ==> pulled == |left|)
      && (currentLeft.Some? ==> pulled > 0 && currentLeft.value == left[pulled - 1])
      && rightCursor <= |rightRows|
    }

    /** The rows still to come. */
    ghost function Remaining(): Result<seq<Row>>
      requires Valid()
      reads this
    {
      if currentLeft.None? then Ok([]) else NestedFrom(left, rightRows, condition, pulled - 1, rightCursor)
    }

    method PullLeft() returns (row: Option<Row>)
      requires pulled <= |left|
      modifies this`pulled
      ensures row == if old(pulled) < |left| then Some(left[old(pulled)]) else None
      ensures pulled == if old(pulled) < |left| then old(pulled) + 1 else old(pulled)
    {
      if pulled >= |left| {
        return None;
      }
      row := Some(left[pulled]);
      pulled := pulled + 1;
    }

    /** Open: read all of the right input, then the first left row. */
    constructor (l: seq<Row>, r: seq<Row>, c: Expr)
      ensures Valid() && condition == c && left == l && rightRows == r
      ensures Remaining() == NestedRows(l, r, c)
    {
      condition, left, pulled, currentLeft := c, l, 0, None;
      rightCursor, rightRows := 0, [];
      new;
      var i := 0;
      while i < |r|
        invariant i <= |r| && rightRows == r[..i] && left == l && pulled == 0 && rightCursor == 0
      {
        rightRows := rightRows + [r[i]];
        i := i + 1;
      }
      assert rightRows == r;
      currentLeft := PullLeft();
    }

    /** The next matching pair, joined. */
    method Next() returns (row: Result<Option<Row>>)
      requires Valid()
      modifies this
      ensures Valid() && left == old(left) && rightRows == old(rightRows)
      ensures row.Err? ==> old(Remaining()).Err?
      ensures row == Ok(None) ==> old(Remaining()) == Ok([])
      ensures row.Ok? && row.value.Some? ==>
                && old(Remaining()) == Cons(true, row.value.value, Remaining())
                && (pulled > old(pulled) || (pulled == old(pulled) && rightCursor > old(rightCursor)))
    {
      while currentLeft.Some?
        invariant Valid() && left == old(left) && rightRows == old(rightRows)
        invariant Remaining() == old(Remaining())
        invariant currentLeft.Some? ==> pulled > old(pulled) || (pulled == old(pulled) && rightCursor >= old(rightCursor))
        decreases |left| - pulled + if currentLeft.Some? then 1 else 0
      {
        ghost var at := pulled;
        while rightCursor < |rightRows|
          invariant Valid() && left == old(left) && rightRows == old(rightRows) && currentLeft.Some? && pulled == at
          invariant Remaining() == old(Remaining())
          invariant pulled > old(pulled) || (pulled == old(pulled) && rightCursor >= old(rightCursor))
          decreases |rightRows| - rightCursor
        {
          var candidate := currentLeft.value + rightRows[rightCursor];
          rightCursor := rightCursor + 1;
          var hit := EvalBool(condition, candidate);
          if hit.Err? {
            return Err;
          }
          if hit.value {
            return Ok(Some(candidate));
          }
        }
        assert NestedFrom(left, rightRows, condition, pulled - 1, rightCursor) == NestedFrom(left, rightRows, condition, pulled, 0);
        currentLeft := PullLeft();
        rightCursor := 0;
      }
      return Ok(None);
    }
  }

  /** Pull a nested-loop join to exhaustion. */
  method RunNestedLoop(left: seq<Row>, right: seq<Row>, cond: Expr) returns (out: Result<seq<Row>>)
    ensures out == NestedRows(left, right, cond)
  {
    var it := new NestedLoopJoin(left, right, cond);
    var rows: seq<Row> := [];
    assert it.Remaining().Ok? ==> rows + it.Remaining().value == it.Remaining().value;
    while true
      invariant it.Valid() && it.left == left && it.rightRows == right
      invariant NestedRows(left, right, cond) == if it.Remaining().Err? then Err else Ok(rows + it.Remaining().value)
      decreases |left| - it.pulled, |right| - it.rightCursor
    {
      var r := it.Next();
      if r.Err? {
        return Err;
      }
      if r.value.None? {
        assert rows + [] == rows;
        return Ok(rows);
      }
      ghost var rest := it.Remaining();
      assert rest.Ok? ==> rows + ([r.value.value] + rest.value) == rows + [r.value.value] + rest.value;
      rows := rows + [r.value.value];
    }
  }

  // ---------- the hash-join iterator ----------

  /** The build rows stored under a key, in insertion order. */
  function Bucket(build: seq<Row>, bk: KeyRef, key: Value): seq<Row> {
    if build == [] then []
    else (if KeyOf(build[0], bk) == Ok(key) then [build[0]] else []) + Bucket(build[1..], bk, key)
  }

  lemma {:induction false} BucketAppend(build: seq<Row>, bk: KeyRef, key: Value, r: Row)
    ensures Bucket(build + [r], bk, key) == Bucket(build, bk, key) + if KeyOf(r, bk) == Ok(key) then [r] else []
  {
    if build == [] {
      assert build + [r] == [r];
      assert [r][1..] == [];
    } else {
      assert (build + [r])[1..] == build[1..] + [r];
      BucketAppend(build[1..], bk, key, r);
    }
  }

  /** A probe row joined with each row of a bucket. */
  function Combine(probeRow: Row, bucket: seq<Row>, rest: Result<seq<Row>>): Result<seq<Row>> {
    if bucket == [] then rest else Cons(true, probeRow + bucket[0], Combine(probeRow, bucket[1..], rest))
  }

  /** Comparing a probe row with every build row is the same as joining it with its bucket. */
  lemma {:induction false} HashFromBucket(build: seq<Row>, probe: seq<Row>, bk: KeyRef, pk: KeyRef, p: nat, b: nat)
    requires p < |probe| && KeyOf(probe[p], pk).Ok? && b <= |build|
    ensures HashFrom(build, probe, bk, pk, p, b)
         == Combine(probe[p], Bucket(build[b..], bk, KeyOf(probe[p], pk).value), HashFrom(build, probe, bk, pk, p + 1, 0))
    decreases |build| - b
  {
    if b < |build| {
      assert build[b..][1..] == build[b + 1..];
      HashFromBucket(build, probe, bk, pk, p, b + 1);
      var key := KeyOf(probe[p], pk).value;
      if KeyOf(build[b], bk) == Ok(key) {
        assert Bucket(build[b..], bk, key) == [build[b]] + Bucket(build[b + 1..], bk, key);
        assert Bucket(build[b..], bk, key)[1..] == Bucket(build[b + 1..], bk, key);
      } else {
        assert Bucket(build[b..], bk, key) == Bucket(build[b + 1..], bk, key);
      }
    }
  }

  /** The multimap holds each bucket under its key. */
  ghost predicate Indexed(table: map<Value, seq<Row>>, build: seq<Row>, bk: KeyRef) {
    forall key :: Bucket(build, bk, key) == if key in table then table[key] else []
  }

  class HashJoin {
    const buildKey: KeyRef
    const probeKey: KeyRef
    var buildTable: map<Value, seq<Row>>
    var probe: seq<Row>
    var pulled: nat
    var currentProbe: Option<Row>
    var matches: seq<Row>
    var matchCursor: nat
    ghost var build: seq<Row>

    constructor (bk: KeyRef, pk: KeyRef, p: seq<Row>)
      ensures buildKey == bk && probeKey == pk && probe == p && build == [] && buildTable == map[]
      ensures pulled == 0 && matches == [] && matchCursor == 0
    {
      buildKey, probeKey, probe, pulled, currentProbe := bk, pk, p, 0, None;
      buildTable, matches, matchCursor, build := map[], [], 0, [];
    }

    ghost predicate Valid()
      reads this
    {
      && pulled <= |probe|
      && (currentProbe.None? ==> pulled == |probe|)
      && (currentProbe.Some? ==> pulled > 0 && currentProbe.value == probe[pulled - 1])
      && Indexed(buildTable, build, buildKey)
      && matchCursor <= |matches|
      && (matches != [] ==> currentProbe.Some? && KeyOf(currentProbe.value, probeKey).Ok?
                            && matches == Bucket(build, buildKey, KeyOf(currentProbe.value, probeKey).value))
    }

    /** The rows still to come. */
    ghost function Remaining(): Result<seq<Row>>
      requires Valid()
      reads this
    {
      if currentProbe.None? then Ok([])
      else if matches != [] then
        Combine(currentProbe.value, matches[matchCursor..], HashFrom(build, probe, buildKey, probeKey, pulled, 0))
      else HashFrom(build, probe, buildKey, probeKey, pulled - 1, 0)
    }

    lemma Bounds()
      requires Valid()
      ensures pulled <= |probe| && matchCursor <= |matches|
    {
    }

    method PullProbe()
      requires pulled <= |probe|
      modifies this`pulled, this`currentProbe
      ensures currentProbe == if old(pulled) < |probe| then Some(probe[old(pulled)]) else None
      ensures pulled == if old(pulled) < |probe| then old(pulled) + 1 else old(pulled)
    {
      if pulled >= |probe| {
        currentProbe := None;
        return;
      }
      currentProbe := Some(probe[pulled]);
      pulled := pulled + 1;
    }

    /** Open: index every build row by its key, then pull the first probe row. */
    method Open(b: seq<Row>) returns (ok: bool)
      requires build == [] && buildTable == map[] && pulled == 0 && matches == [] && matchCursor == 0
      modifies this
      ensures probe == old(probe) && (ok <==> Keyed(b, buildKey))
      ensures ok ==> matchCursor <= |matches| && pulled <= |probe|
      ensures ok ==> Valid() && build == b && Remaining() == HashRows(b, probe, buildKey, probeKey)
    {
      var i := 0;
      while i < |b|
        invariant i <= |b| && build == b[..i] && Keyed(b[..i], buildKey)
        invariant Indexed(buildTable, build, buildKey)
        invariant probe == old(probe) && pulled == 0 && matches == [] && matchCursor == 0
      {
        var key := Find(b[i], buildKey.table, buildKey.column);
        if key.Err? {
          assert b[i] in b;
          return false;
        }
        var bucket := if key.value in buildTable then buildTable[key.value] else [];
        AddToIndex(buildTable, build, buildKey, b[i], key.value);
        buildTable := buildTable[key.value := bucket + [b[i]]];
        assert b[..i + 1] == b[..i] + [b[i]];
        build := build + [b[i]];
        i := i + 1;
      }
      assert b[..i] == b;
      PullProbe();
      return true;
    }

    /** Look up the build rows that match the current probe row. */
    method LoadMatches() returns (ok: bool)
      requires Valid() && currentProbe.Some? && matchCursor == 0 && matches == []
      modifies this`matches
      ensures Valid() && (ok <==> KeyOf(currentProbe.value, probeKey).Ok?)
      ensures Remaining() == old(Remaining()) && (!ok ==> Remaining().Err?)
      ensures ok && matches == [] ==> Remaining() == HashFrom(build, probe, buildKey, probeKey, pulled, 0)
    {
      hide Find;
      var key := Find(currentProbe.value, probeKey.table, probeKey.column);
      if key.Err? {
        return false;
      }
      HashFromBucket(build, probe, buildKey, probeKey, pulled - 1, 0);
      assert build[0..] == build;
      matches := if key.value in buildTable then buildTable[key.value] else [];
      assert matches[0..] == matches;
      return true;
    }

    /** The next joined row. */
    method Next() returns (row: Result<Option<Row>>)
      requires Valid()
      modifies this
      ensures Valid() && probe == old(probe) && build == old(build)
      ensures row.Err? ==> old(Remaining()).Err?
      ensures row == Ok(None) ==> old(Remaining()) == Ok([])
      ensures row.Ok? && row.value.Some? ==>
                && old(Remaining()) == Cons(true, row.value.value, Remaining())
                && matches != [] && matchCursor <= |matches| && pulled <= |probe|
                && (|| pulled > old(pulled)
                    || (pulled == old(pulled) && (old(matches) == [] || (matches == old(matches) && matchCursor > old(matchCursor)))))
    {
      hide Find, Bucket, Indexed, HashFrom;
      while currentProbe.Some?
        invariant Valid() && probe == old(probe) && build == old(build)
        invariant Remaining() == old(Remaining())
        invariant pulled >= old(pulled)
        invariant pulled == old(pulled) && currentProbe.Some? ==> matchCursor == old(matchCursor) && matches == old(matches)
        decreases |probe| - pulled + if currentProbe.Some? then 1 else 0
      {
        if matchCursor == 0 && matches == [] {
          var ok := LoadMatches();
          if !ok {
            return Err;
          }
        }
        if matchCursor < |matches| {
          var combined := currentProbe.value + matches[matchCursor];
          assert matches[matchCursor..][1..] == matches[matchCursor + 1..];
          matchCursor := matchCursor + 1;
          return Ok(Some(combined));
        }
        assert matches[matchCursor..] == [];
        PastEnd(build, probe, buildKey, probeKey, pulled);
        PullProbe();
        matches := [];
        matchCursor := 0;
      }
      return Ok(None);
    }
  }

  lemma PastEnd(build: seq<Row>, probe: seq<Row>, bk: KeyRef, pk: KeyRef, p: nat)
    ensures p >= |probe| ==> HashFrom(build, probe, bk, pk, p, 0) == Ok([])
  {
  }

  /** Rows already out, followed by the rows still to come. */
  function After(rows: seq<Row>, rest: Result<seq<Row>>): Result<seq<Row>> {
    if rest.Err? then Err else Ok(rows + rest.value)
  }

  lemma AfterCons(rows: seq<Row>, row: Row, rest: Result<seq<Row>>)
    ensures After(rows, Cons(true, row, rest)) == After(rows + [row], rest)
    ensures After([], rest) == rest && After(rows, Ok([])) == Ok(rows)
  {
    if rest.Ok? {
      assert rows + ([row] + rest.value) == rows + [row] + rest.value;
      assert [] + rest.value == rest.value;
    }
    assert rows + [] == rows;
  }

  method Drain(it: HashJoin) returns (out: Result<seq<Row>>)
    requires it.Valid()
    modifies it
    ensures out == old(it.Remaining())
  {
    it.Bounds();
    hide HashJoin.Valid, HashJoin.Remaining, Cons, After;
    var rows: seq<Row> := [];
    AfterCons([], [], it.Remaining());
    while true
      invariant it.Valid() && it.probe == old(it.probe)
      invariant it.pulled <= |it.probe| && it.matchCursor <= |it.matches|
      invariant After(rows, it.Remaining()) == old(it.Remaining())
      decreases |it.probe| - it.pulled, it.matches == [], |it.matches| - it.matchCursor
    {
      ghost var before := it.Remaining();
      var r := it.Next();
      if r.Err? {
        ErrStays(rows, before);
        return Err;
      }
      if r.value.None? {
        AfterCons(rows, [], Ok([]));
        return Ok(rows);
      }
      AfterCons(rows, r.value.value, it.Remaining());
      rows := rows + [r.value.value];
    }
  }

  lemma ErrStays(rows: seq<Row>, rest: Result<seq<Row>>)
    requires rest.Err?
    ensures After(rows, rest).Err?
  {
  }

  /** Pull a hash join to exhaustion. */
  method RunHashJoin(build: seq<Row>, probe: seq<Row>, bk: KeyRef, pk: KeyRef) returns (out: Result<seq<Row>>)
    ensures out == HashRows(build, probe, bk, pk)
  {
    var it := new HashJoin(bk, pk, probe);
    var ok := it.Open(build);
    if !ok {
      return Err;
    }
    out := Drain(it);
  }

  lemma AddToIndex(table: map<Value, seq<Row>>, build: seq<Row>, bk: KeyRef, r: Row, key: Value)
    requires Indexed(table, build, bk) && KeyOf(r, bk) == Ok(key)
    ensures Indexed(table[key := (if key in table then table[key] else []) + [r]], build + [r], bk)
  {
    forall k
      ensures Bucket(build + [r], bk, k)
           == if k == key then (if key in table then table[key] else []) + [r] else if k in table then table[k] else []
    {
      BucketAppend(build, bk, k, r);
      assert Bucket(build, bk, k) + [] == Bucket(build, bk, k);
    }
  }
}
