/** Values, rows and expressions, and how an expression is evaluated on a row.  `Err` stands for a thrown exception. */
module Query {
  import opened Pages

  datatype Result<+T> = Ok(value: T) | Err

  datatype Value = IntV(i: int) | TextV(s: string)

  datatype Field = Field(table: string, column: string, value: Value)

  type Row = seq<Field>

  datatype CmpOp = Eq | Neq | Lt | Lte | Gt | Gte

  datatype Expr =
    | ColumnRef(table: Option<string>, column: string)
    | Literal(lit: Value)
    | Compare(op: CmpOp, left: Expr, right: Expr)
    | And(aleft: Expr, aright: Expr)
    | Or(oleft: Expr, oright: Expr)

  // ---------- column resolution ----------

  predicate Matches(f: Field, table: Option<string>, column: string) {
    f.column == column && (table.Some? ==> f.table == table.value)
  }

  /** A qualified reference takes the first match; an unqualified one must match exactly once. */
  function Find(row: Row, table: Option<string>, column: string): Result<Value> {
    if row == [] then Err
    else if !Matches(row[0], table, column) then Find(row[1..], table, column)
    else if table.Some? || Absent(row[1..], column) then Ok(row[0].value)
    else Err
  }

  predicate Absent(row: Row, column: string) {
    forall f <- row :: f.column != column
  }

  /** The two lookup loops of a row. */
  method FindColumn(row: Row, table: Option<string>, column: string) returns (r: Result<Value>)
    ensures r == Find(row, table, column)
  {
    if table.Some? {
      var i := 0;
      while i < |row|
        invariant i <= |row|
        invariant Find(row, table, column) == Find(row[i..], table, column)
      {
        if row[i].table == table.value && row[i].column == column {
          return Ok(row[i].value);
        }
        assert row[i..][1..] == row[i + 1..];
        i := i + 1;
      }
      return Err;
    }
    var found: Option<Value> := None;
    var i := 0;
    while i < |row|
      invariant i <= |row|
      invariant found.None? ==> Find(row, table, column) == Find(row[i..], table, column)
      invariant found.Some? ==> Find(row, table, column) == if Absent(row[i..], column) then Ok(found.value) else Err
    {
      assert row[i..] == [row[i]] + row[i..][1..] && row[i..][1..] == row[i + 1..];
      if row[i].column == column {
        if found.Some? {
          return Err;
        }
        found := Some(row[i].value);
      }
      i := i + 1;
    }
    return if found.None? then Err else Ok(found.value);
  }

  // ---------- evaluation ----------

  /** Three-way comparison of texts, character by character. */
  function CompareText(a: string, b: string): int {
    if a == [] then (if b == [] then 0 else -1)
    else if b == [] then 1
    else if a[0] < b[0] then -1
    else if a[0] > b[0] then 1
    else CompareText(a[1..], b[1..])
  }

  function CompareValues(a: Value, b: Value): Result<int> {
    match (a, b)
    case (IntV(x), IntV(y)) => Ok(if x < y then -1 else if x > y then 1 else 0)
    case (TextV(x), TextV(y)) => Ok(CompareText(x, y))
    case _ => Err
  }

  function EvalValue(e: Expr, row: Row): Result<Value> {
    match e
    case ColumnRef(table, column) => Find(row, table, column)
    case Literal(v) => Ok(v)
    case _ => Err
  }

  predicate Holds(op: CmpOp, c: int) {
    match op
    case Eq => c == 0
    case Neq => c != 0
    case Lt => c < 0
    case Lte => c <= 0
    case Gt => c > 0
    case Gte => c >= 0
  }

  function CompareBy(op: CmpOp, a: Result<Value>, b: Result<Value>): Result<bool> {
    if a.Err? || b.Err? || CompareValues(a.value, b.value).Err? then Err
    else Ok(Holds(op, CompareValues(a.value, b.value).value))
  }

  /** AND and OR evaluate their right side only when the left side does not decide. */
  function EvalBool(e: Expr, row: Row): Result<bool> {
    match e
    case Compare(op, l, r) => CompareBy(op, EvalValue(l, row), EvalValue(r, row))
    case And(l, r) =>
      var a := EvalBool(l, row);
      if a.Ok? && a.value then EvalBool(r, row) else a
    case Or(l, r) =>
      var a := EvalBool(l, row);
      if a.Ok? && !a.value then EvalBool(r, row) else a
    case _ => Err
  }

  // ---------- what the comparisons mean ----------

  predicate SameKind(a: Value, b: Value) {
    a.IntV? <==> b.IntV?
  }

  /** The texts agree before position `k`, where the first one ends or has the smaller character. */
  ghost predicate BelowAt(a: string, b: string, k: nat) {
    k <= |a| && k < |b| && a[..k] == b[..k] && (k < |a| ==> a[k] < b[k])
  }

  /** Lexicographic order: the first differing character decides, and a proper prefix comes first. */
  ghost predicate TextBelow(a: string, b: string) {
    exists k: nat :: BelowAt(a, b, k)
  }

  /** The relation an operator stands for: the order of integers, or the lexicographic order of texts. */
  ghost predicate Compares(op: CmpOp, a: Value, b: Value) {
    match (a, b)
    case (IntV(x), IntV(y)) =>
      (match op
       case Eq => x == y
       case Neq => x != y
       case Lt => x < y
       case Lte => x <= y
       case Gt => x > y
       case Gte => x >= y)
    case (TextV(s), TextV(t)) =>
      (match op
       case Eq => s == t
       case Neq => s != t
       case Lt => TextBelow(s, t)
       case Lte => TextBelow(s, t) || s == t
       case Gt => TextBelow(t, s)
       case Gte => TextBelow(t, s) || s == t)
    case _ => false
  }

  lemma BelowAtTail(c: char, a: string, b: string, k: nat)
    ensures BelowAt([c] + a, [c] + b, k + 1) <==> BelowAt(a, b, k)
  {
    var p, q := [c] + a, [c] + b;
    if k <= |a| && k < |b| {
      assert p[..k + 1] == [c] + a[..k] && q[..k + 1] == [c] + b[..k];
      assert p[..k + 1][1..] == a[..k] && q[..k + 1][1..] == b[..k];
    }
  }

  lemma BelowTail(c: char, a: string, b: string)
    ensures TextBelow([c] + a, [c] + b) <==> TextBelow(a, b)
  {
    hide BelowAt;
    NotBelowHead(c, a, b);
    if k: nat :| BelowAt([c] + a, [c] + b, k) {
      BelowAtTail(c, a, b, k - 1);
    }
    if k: nat :| BelowAt(a, b, k) {
      BelowAtTail(c, a, b, k);
    }
  }

  lemma NotBelowHead(c: char, a: string, b: string)
    ensures !BelowAt([c] + a, [c] + b, 0)
  {
  }

  lemma BelowHead(a: string, b: string)
    requires a == [] || b == [] || a[0] != b[0]
    ensures TextBelow(a, b) <==> b != [] && (a == [] || a[0] < b[0])
  {
    if b != [] && (a == [] || a[0] < b[0]) {
      assert BelowAt(a, b, 0);
    }
    if k: nat :| BelowAt(a, b, k) {
      HeadsAgree(a, b, k);
    }
  }

  lemma HeadsAgree(a: string, b: string, k: nat)
    requires BelowAt(a, b, k)
    ensures k > 0 ==> a != [] && b != [] && a[0] == b[0]
  {
    if k > 0 {
      assert a[..k][0] == b[..k][0];
    }
  }

  /** The character-by-character comparison decides that order. */
  lemma {:induction false} CompareTextIs(a: string, b: string)
    ensures CompareText(a, b) < 0 <==> TextBelow(a, b)
    ensures CompareText(a, b) == 0 <==> a == b
    ensures CompareText(a, b) > 0 <==> TextBelow(b, a)
  {
    hide TextBelow;
    if a != [] && b != [] && a[0] == b[0] {
      CompareTextIs(a[1..], b[1..]);
      assert a == [a[0]] + a[1..] && b == [b[0]] + b[1..];
      BelowTail(a[0], a[1..], b[1..]);
      BelowTail(a[0], b[1..], a[1..]);
    } else {
      BelowHead(a, b);
      BelowHead(b, a);
    }
  }

  /** A comparison of two values of one kind gives the relation of its operator; of two kinds it fails. */
  lemma ComparesIs(op: CmpOp, a: Value, b: Value)
    ensures CompareBy(op, Ok(a), Ok(b)) == if SameKind(a, b) then Ok(Compares(op, a, b)) else Err
  {
    hide TextBelow, CompareText;
    if a.TextV? && b.TextV? {
      CompareTextIs(a.s, b.s);
    }
  }

  // ---------- rows up to the order of their tables ----------

  /** The fields of one table, in order. */
  function Only(row: Row, table: string): Row {
    if row == [] then []
    else if row[0].table == table then [row[0]] + Only(row[1..], table)
    else Only(row[1..], table)
  }

  /** Rows that hold the same fields for every table, wherever each table's fields stand in the row. */
  ghost predicate SameRow(r: Row, s: Row) {
    forall a :: Only(r, a) == Only(s, a)
  }

  lemma {:induction false} OnlyAppend(r: Row, s: Row, table: string)
    ensures Only(r + s, table) == Only(r, table) + Only(s, table)
  {
    if r == [] {
      assert r + s == s;
    } else {
      assert (r + s)[1..] == r[1..] + s;
      OnlyAppend(r[1..], s, table);
    }
  }

  lemma {:induction false} OnlyMembers(row: Row, table: string)
    ensures forall f :: f in Only(row, table) <==> f in row && f.table == table
    ensures forall f: Field :: f.table == table ==> multiset(Only(row, table))[f] == multiset(row)[f]
    ensures forall f: Field :: f.table != table ==> multiset(Only(row, table))[f] == 0
  {
    if row != [] {
      assert row == [row[0]] + row[1..];
      OnlyMembers(row[1..], table);
    }
  }

  lemma {:induction false} FindQualified(row: Row, table: string, column: string)
    ensures Find(row, Some(table), column) == Find(Only(row, table), Some(table), column)
  {
    if row != [] {
      FindQualified(row[1..], table, column);
    }
  }

  lemma SameFields(r: Row, s: Row)
    requires SameRow(r, s)
    ensures multiset(r) == multiset(s)
  {
    forall f: Field
      ensures multiset(r)[f] == multiset(s)[f]
    {
      OnlyMembers(r, f.table);
      OnlyMembers(s, f.table);
      assert Only(r, f.table) == Only(s, f.table);
    }
  }

  /** The fields with a given column name. */
  function Named(row: Row, column: string): Row {
    if row == [] then [] else (if row[0].column == column then [row[0]] else []) + Named(row[1..], column)
  }

  lemma {:induction false} FindUnqualified(row: Row, column: string)
    ensures Find(row, None, column) == if |Named(row, column)| == 1 then Ok(Named(row, column)[0].value) else Err
    ensures Absent(row, column) <==> Named(row, column) == []
    ensures forall f: Field :: multiset(Named(row, column))[f] == if f.column == column then multiset(row)[f] else 0
  {
    if row != [] {
      assert row == [row[0]] + row[1..];
      FindUnqualified(row[1..], column);
    }
  }

  lemma SameSingleton<T>(a: seq<T>, b: seq<T>)
    requires multiset(a) == multiset(b)
    ensures |a| == |b| && (|a| == 1 ==> a[0] == b[0])
  {
    assert |multiset(a)| == |a| && |multiset(b)| == |b|;
    if |a| == 1 {
      assert a == [a[0]] && b == [b[0]];
      assert a[0] in multiset(b);
    }
  }

  lemma FindSameUnqualified(r: Row, s: Row, column: string)
    requires multiset(r) == multiset(s)
    ensures Find(r, None, column) == Find(s, None, column)
  {
    hide Find, Absent, Named;
    FindUnqualified(r, column);
    FindUnqualified(s, column);
    assert multiset(Named(r, column)) == multiset(Named(s, column));
    SameSingleton(Named(r, column), Named(s, column));
  }

  lemma FindSame(r: Row, s: Row, table: Option<string>, column: string)
    requires SameRow(r, s)
    ensures Find(r, table, column) == Find(s, table, column)
  {
    hide Find;
    match table
    case Some(a) =>
      FindQualified(r, a, column);
      FindQualified(s, a, column);
    case None =>
      SameFields(r, s);
      FindSameUnqualified(r, s, column);
  }

  /** Evaluation does not see the order in which tables were joined. */
  lemma {:induction false} EvalSame(e: Expr, r: Row, s: Row)
    requires SameRow(r, s)
    ensures EvalBool(e, r) == EvalBool(e, s) && EvalValue(e, r) == EvalValue(e, s)
    decreases e
  {
    match e
    case ColumnRef(table, column) => FindSame(r, s, table, column);
    case Literal(_) =>
    case Compare(_, a, b) =>
      EvalSame(a, r, s);
      EvalSame(b, r, s);
    case And(a, b) =>
      EvalSame(a, r, s);
      EvalSame(b, r, s);
    case Or(a, b) =>
      EvalSame(a, r, s);
      EvalSame(b, r, s);
  }
}
