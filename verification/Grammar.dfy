/** The SQL grammar: tokens, statements, a printer, and what the recursive-descent parser computes on a list of tokens. */
module Grammar {
  import opened Pages
  import opened Query
  import opened Plans
  import opened Planner

  datatype Token =
    | CREATE | TABLE | INSERT | INTO | VALUES | SELECT | FROM | WHERE | JOIN | ON | AS | AND | OR | PRIMARY | KEY
    | INTEGER_TYPE | TEXT_TYPE
    | IDENTIFIER(text: string)
    | INTEGER_LITERAL(number: nat)
    | STRING_LITERAL(chars: string)
    | STAR | COMMA | DOT | SEMICOLON | LPAREN | RPAREN
    | EQ | NEQ | LT | LTE | GT | GTE
    | END_OF_INPUT

  type Tokens = seq<Token>

  /** What was parsed, and the tokens left. */
  type Parsed<T> = Option<(T, Tokens)>

  predicate Starts(ts: Tokens, t: Token) {
    ts != [] && ts[0] == t
  }

  // ---------- values and comparisons ----------

  function OpToken(op: CmpOp): Token {
    match op
    case Eq => EQ
    case Neq => NEQ
    case Lt => LT
    case Lte => LTE
    case Gt => GT
    case Gte => GTE
  }

  function ParseOp(ts: Tokens): (r: Parsed<CmpOp>)
    ensures r.Some? ==> |r.value.1| < |ts|
  {
    if ts == [] then None
    else
      match ts[0]
      case EQ => Some((Eq, ts[1..]))
      case NEQ => Some((Neq, ts[1..]))
      case LT => Some((Lt, ts[1..]))
      case LTE => Some((Lte, ts[1..]))
      case GT => Some((Gt, ts[1..]))
      case GTE => Some((Gte, ts[1..]))
      case _ => None
  }

  function ParseIdent(ts: Tokens): (r: Parsed<string>)
    ensures r.Some? ==> |r.value.1| < |ts|
  {
    if ts != [] && ts[0].IDENTIFIER? then Some((ts[0].text, ts[1..])) else None
  }

  function ParseLiteral(ts: Tokens): (r: Parsed<Value>)
    ensures r.Some? ==> |r.value.1| < |ts|
  {
    if ts == [] then None
    else if ts[0].INTEGER_LITERAL? then Some((IntV(ts[0].number), ts[1..]))
    else if ts[0].STRING_LITERAL? then Some((TextV(ts[0].chars), ts[1..]))
    else None
  }

  /** One identifier, or two with a dot between them. */
  function ParseQualified(ts: Tokens): (r: Parsed<(Option<string>, string)>)
    ensures r.Some? ==> |r.value.1| < |ts|
  {
    var first := ParseIdent(ts);
    if first.None? then None
    else
      var (name, rest) := first.value;
      if !Starts(rest, DOT) then Some(((None, name), rest))
      else
        var second := ParseIdent(rest[1..]);
        if second.None? then None else Some(((Some(name), second.value.0), second.value.1))
  }

  function ParseValue(ts: Tokens): (r: Parsed<Expr>)
    ensures r.Some? ==> |r.value.1| < |ts|
  {
    if ts != [] && ts[0].IDENTIFIER? then
      var q := ParseQualified(ts);
      if q.None? then None else Some((ColumnRef(q.value.0.0, q.value.0.1), q.value.1))
    else
      var l := ParseLiteral(ts);
      if l.None? then None else Some((Literal(l.value.0), l.value.1))
  }

  function ParseComparison(ts: Tokens): (r: Parsed<Expr>)
    ensures r.Some? ==> |r.value.1| < |ts|
  {
    var left := ParseValue(ts);
    if left.None? then None
    else
      var op := ParseOp(left.value.1);
      if op.None? then None
      else
        var right := ParseValue(op.value.1);
        if right.None? then None else Some((Compare(op.value.0, left.value.0, right.value.0), right.value.1))
  }

  // ---------- boolean expressions ----------

  function ParseExpr(ts: Tokens): (r: Parsed<Expr>)
    ensures r.Some? ==> |r.value.1| < |ts|
    decreases |ts|, 3
  {
    var left := ParseAnd(ts);
    if left.None? then None else OrTail(left.value.0, left.value.1)
  }

  /** Further operands of OR, each taken into the left operand. */
  function OrTail(left: Expr, ts: Tokens): (r: Parsed<Expr>)
    ensures r.Some? ==> |r.value.1| <= |ts|
    decreases |ts|, 4
  {
    if !Starts(ts, OR) then Some((left, ts))
    else
      var right := ParseAnd(ts[1..]);
      if right.None? then None else OrTail(Or(left, right.value.0), right.value.1)
  }

  function ParseAnd(ts: Tokens): (r: Parsed<Expr>)
    ensures r.Some? ==> |r.value.1| < |ts|
    decreases |ts|, 2
  {
    var left := ParsePrimary(ts);
    if left.None? then None else AndTail(left.value.0, left.value.1)
  }

  function AndTail(left: Expr, ts: Tokens): (r: Parsed<Expr>)
    ensures r.Some? ==> |r.value.1| <= |ts|
    decreases |ts|, 4
  {
    if !Starts(ts, AND) then Some((left, ts))
    else
      var right := ParsePrimary(ts[1..]);
      if right.None? then None else AndTail(And(left, right.value.0), right.value.1)
  }

  function ParsePrimary(ts: Tokens): (r: Parsed<Expr>)
    ensures r.Some? ==> |r.value.1| < |ts|
    decreases |ts|, 1
  {
    if !Starts(ts, LPAREN) then ParseComparison(ts)
    else
      var inner := ParseExpr(ts[1..]);
      if inner.None? || !Starts(inner.value.1, RPAREN) then None else Some((inner.value.0, inner.value.1[1..]))
  }

  // ---------- printing ----------

  /** What the grammar allows as an operand: a column or a literal; there are no negative literals. */
  predicate IsOperand(e: Expr) {
    e.ColumnRef? || (e.Literal? && (e.lit.IntV? ==> e.lit.i >= 0))
  }

  predicate IsCondition(e: Expr) {
    match e
    case Compare(_, l, r) => IsOperand(l) && IsOperand(r)
    case And(l, r) => IsCondition(l) && IsCondition(r)
    case Or(l, r) => IsCondition(l) && IsCondition(r)
    case _ => false
  }

  function PrintQualified(table: Option<string>, column: string): Tokens {
    (if table.Some? then [IDENTIFIER(table.value), DOT] else []) + [IDENTIFIER(column)]
  }

  function LiteralToken(v: Value): Token
    requires v.IntV? ==> v.i >= 0
  {
    if v.IntV? then INTEGER_LITERAL(v.i) else STRING_LITERAL(v.s)
  }

  function PrintOperand(e: Expr): Tokens
    requires IsOperand(e)
  {
    if e.ColumnRef? then PrintQualified(e.table, e.column) else [LiteralToken(e.lit)]
  }

  // ---------- the ways to write a condition ----------

  /** A condition as written: comparisons under AND and OR, and parentheses anywhere, needed or not. */
  datatype Writing =
    | Bare(op: CmpOp, left: Expr, right: Expr)
    | Paren(inner: Writing)
    | Conj(cleft: Writing, cright: Writing)
    | Disj(dleft: Writing, dright: Writing)

  /** AND binds closer than OR, and both group to the left: the right side of AND is a comparison or in parentheses, its left
      side is not an OR, and neither is the right side of OR. */
  predicate Grammatical(w: Writing) {
    match w
    case Bare(_, l, r) => IsOperand(l) && IsOperand(r)
    case Paren(i) => Grammatical(i)
    case Conj(l, r) => Grammatical(l) && Grammatical(r) && !l.Disj? && (r.Bare? || r.Paren?)
    case Disj(l, r) => Grammatical(l) && Grammatical(r) && !r.Disj?
  }

  function Spelling(w: Writing): (ts: Tokens)
    requires Grammatical(w)
    ensures ts != []
  {
    match w
    case Bare(op, l, r) => PrintOperand(l) + [OpToken(op)] + PrintOperand(r)
    case Paren(i) => [LPAREN] + Spelling(i) + [RPAREN]
    case Conj(l, r) => Spelling(l) + [AND] + Spelling(r)
    case Disj(l, r) => Spelling(l) + [OR] + Spelling(r)
  }

  /** The condition written, without the parentheses. */
  function Reading(w: Writing): (e: Expr)
    requires Grammatical(w)
    ensures IsCondition(e)
  {
    match w
    case Bare(op, l, r) => Compare(op, l, r)
    case Paren(i) => Reading(i)
    case Conj(l, r) => And(Reading(l), Reading(r))
    case Disj(l, r) => Or(Reading(l), Reading(r))
  }

  // ---------- expressions: parsing undoes printing ----------

  /** The next token does not continue a column reference. */
  predicate Clear(rest: Tokens) {
    !Starts(rest, DOT)
  }

  lemma QualifiedBack(table: Option<string>, column: string, rest: Tokens)
    requires Clear(rest)
    ensures ParseQualified(PrintQualified(table, column) + rest) == Some(((table, column), rest))
  {
    var ts := PrintQualified(table, column) + rest;
    if table.Some? {
      assert ts == [IDENTIFIER(table.value), DOT, IDENTIFIER(column)] + rest;
      assert ts[1..][1..] == [IDENTIFIER(column)] + rest;
      assert ([IDENTIFIER(column)] + rest)[1..] == rest;
    } else {
      assert ts == [IDENTIFIER(column)] + rest;
      assert ts[1..] == rest;
    }
  }

  lemma OperandBack(e: Expr, rest: Tokens)
    requires IsOperand(e) && Clear(rest)
    ensures ParseValue(PrintOperand(e) + rest) == Some((e, rest))
  {
    var ts := PrintOperand(e) + rest;
    if e.ColumnRef? {
      QualifiedBack(e.table, e.column, rest);
      assert ts[0].IDENTIFIER?;
    } else {
      assert ts == [LiteralToken(e.lit)] + rest;
      assert ts[1..] == rest;
    }
  }

  lemma OpBack(op: CmpOp, rest: Tokens)
    ensures ParseOp([OpToken(op)] + rest) == Some((op, rest)) && Clear([OpToken(op)] + rest)
  {
    assert ([OpToken(op)] + rest)[1..] == rest;
  }

  lemma ComparisonBack(op: CmpOp, l: Expr, r: Expr, rest: Tokens)
    requires IsOperand(l) && IsOperand(r) && Clear(rest)
    ensures var ts := PrintOperand(l) + [OpToken(op)] + PrintOperand(r) + rest;
            ParseComparison(ts) == Some((Compare(op, l, r), rest)) && !Starts(ts, LPAREN)
  {
    hide ParseValue, ParseOp;
    var ts := PrintOperand(l) + [OpToken(op)] + PrintOperand(r) + rest;
    var after := PrintOperand(r) + rest;
    assert ts == PrintOperand(l) + ([OpToken(op)] + after);
    OpBack(op, after);
    OperandBack(l, [OpToken(op)] + after);
    OperandBack(r, rest);
  }

  /** A comparison or a condition in parentheses. */
  lemma {:induction false} PrimaryBack(w: Writing, rest: Tokens)
    requires Grammatical(w) && (w.Bare? || w.Paren?) && Clear(rest)
    ensures ParsePrimary(Spelling(w) + rest) == Some((Reading(w), rest))
    decreases w, 0
  {
    var ts := Spelling(w) + rest;
    if w.Bare? {
      ComparisonBack(w.op, w.left, w.right, rest);
    } else {
      var close := [RPAREN] + rest;
      assert ts == [LPAREN] + (Spelling(w.inner) + close);
      assert ts[1..] == Spelling(w.inner) + close && close[1..] == rest;
      ExprBack(w.inner, close);
    }
  }

  /** What follows a written conjunction is parsed as its further operands. */
  lemma {:induction false} AndBack(w: Writing, rest: Tokens)
    requires Grammatical(w) && !w.Disj? && Clear(rest)
    ensures ParseAnd(Spelling(w) + rest) == AndTail(Reading(w), rest)
    decreases w, 1
  {
    if w.Conj? {
      var last := Spelling(w.cright) + rest;
      var more := [AND] + last;
      assert Spelling(w) + rest == Spelling(w.cleft) + more;
      assert more[1..] == last;
      AndBack(w.cleft, more);
      PrimaryBack(w.cright, rest);
    } else {
      PrimaryBack(w, rest);
    }
  }

  lemma {:induction false} OrBack(w: Writing, rest: Tokens)
    requires Grammatical(w) && Clear(rest) && !Starts(rest, AND)
    ensures ParseExpr(Spelling(w) + rest) == OrTail(Reading(w), rest)
    decreases w, 2
  {
    if w.Disj? {
      var last := Spelling(w.dright) + rest;
      var more := [OR] + last;
      assert Spelling(w) + rest == Spelling(w.dleft) + more;
      assert more[1..] == last;
      OrBack(w.dleft, more);
      AndBack(w.dright, rest);
    } else {
      AndBack(w, rest);
    }
  }

  /** However a condition is written, parsing gives the condition and leaves what follows. */
  lemma {:induction false} ExprBack(w: Writing, rest: Tokens)
    requires Grammatical(w) && Clear(rest) && !Starts(rest, AND) && !Starts(rest, OR)
    ensures ParseExpr(Spelling(w) + rest) == Some((Reading(w), rest))
    decreases w, 3
  {
    OrBack(w, rest);
  }

  // ---------- and nothing else is parsed ----------

  lemma QualifiedWritten(ts: Tokens)
    ensures ParseQualified(ts).Some? ==> var (q, rest) := ParseQualified(ts).value; ts == PrintQualified(q.0, q.1) + rest
  {
  }

  lemma OperandWritten(ts: Tokens)
    ensures ParseValue(ts).Some? ==> var (e, rest) := ParseValue(ts).value; IsOperand(e) && ts == PrintOperand(e) + rest
  {
    hide ParseQualified, PrintQualified;
    QualifiedWritten(ts);
  }

  lemma OpWritten(ts: Tokens)
    ensures ParseOp(ts).Some? ==> ts == [OpToken(ParseOp(ts).value.0)] + ParseOp(ts).value.1
  {
  }

  lemma ComparisonWritten(ts: Tokens) returns (w: Writing)
    requires ParseComparison(ts).Some?
    ensures Written(w, ts, ParseComparison(ts).value) && w.Bare?
  {
    hide ParseValue, ParseOp, PrintOperand, IsOperand;
    var left := ParseValue(ts).value;
    var op := ParseOp(left.1).value;
    var right := ParseValue(op.1).value;
    OperandWritten(ts);
    OpWritten(left.1);
    OperandWritten(op.1);
    w := Bare(op.0, left.0, right.0);
    assert Spelling(w) + right.1 == PrintOperand(left.0) + ([OpToken(op.0)] + (PrintOperand(right.0) + right.1));
  }

  /** What was parsed is what `w` writes, and is followed by what was left. */
  ghost predicate Written(w: Writing, ts: Tokens, parsed: (Expr, Tokens)) {
    Grammatical(w) && Reading(w) == parsed.0 && ts == Spelling(w) + parsed.1
  }

  /** Whatever parses to a condition is a writing of it. */
  lemma {:induction false} ExprWritten(ts: Tokens) returns (w: Writing)
    requires ParseExpr(ts).Some?
    ensures Written(w, ts, ParseExpr(ts).value)
    decreases |ts|, 3
  {
    hide ParseAnd, Spelling;
    var left := ParseAnd(ts).value;
    var first := AndWritten(ts);
    w := OrTailWritten(first, left.1);
  }

  lemma {:induction false} OrTailWritten(left: Writing, ts: Tokens) returns (w: Writing)
    requires Grammatical(left) && OrTail(Reading(left), ts).Some?
    ensures Written(w, Spelling(left) + ts, OrTail(Reading(left), ts).value)
    decreases |ts|, 4
  {
    hide ParseAnd, Spelling;
    if Starts(ts, OR) {
      var right := ParseAnd(ts[1..]).value;
      var next := AndWritten(ts[1..]);
      var both := Disj(left, next);
      w := OrTailWritten(both, right.1);
      OrSpelled(left, next, ts, right.1);
    } else {
      w := left;
    }
  }

  lemma OrSpelled(left: Writing, next: Writing, ts: Tokens, rest: Tokens)
    requires Grammatical(left) && Grammatical(next) && !next.Disj? && Starts(ts, OR) && ts[1..] == Spelling(next) + rest
    ensures Spelling(Disj(left, next)) + rest == Spelling(left) + ts
  {
    hide PrintOperand, IsOperand;
    var a, b := Spelling(left), Spelling(next);
    assert Spelling(Disj(left, next)) == a + [OR] + b;
    assert ts == [OR] + ts[1..];
    assert a + [OR] + b + rest == a + ([OR] + (b + rest));
  }

  lemma {:induction false} AndWritten(ts: Tokens) returns (w: Writing)
    requires ParseAnd(ts).Some?
    ensures Written(w, ts, ParseAnd(ts).value) && !w.Disj?
    decreases |ts|, 2
  {
    hide ParsePrimary, Spelling;
    var left := ParsePrimary(ts).value;
    var first := PrimaryWritten(ts);
    w := AndTailWritten(first, left.1);
  }

  lemma {:induction false} AndTailWritten(left: Writing, ts: Tokens) returns (w: Writing)
    requires Grammatical(left) && !left.Disj? && AndTail(Reading(left), ts).Some?
    ensures Written(w, Spelling(left) + ts, AndTail(Reading(left), ts).value) && !w.Disj?
    decreases |ts|, 4
  {
    hide ParsePrimary, Spelling;
    if Starts(ts, AND) {
      var right := ParsePrimary(ts[1..]).value;
      var next := PrimaryWritten(ts[1..]);
      var both := Conj(left, next);
      w := AndTailWritten(both, right.1);
      AndSpelled(left, next, ts, right.1);
    } else {
      w := left;
    }
  }

  lemma AndSpelled(left: Writing, next: Writing, ts: Tokens, rest: Tokens)
    requires Grammatical(left) && Grammatical(next) && !left.Disj? && (next.Bare? || next.Paren?)
    requires Starts(ts, AND) && ts[1..] == Spelling(next) + rest
    ensures Spelling(Conj(left, next)) + rest == Spelling(left) + ts
  {
    hide PrintOperand, IsOperand;
    var a, b := Spelling(left), Spelling(next);
    assert Spelling(Conj(left, next)) == a + [AND] + b;
    assert ts == [AND] + ts[1..];
    assert a + [AND] + b + rest == a + ([AND] + (b + rest));
  }

  lemma {:induction false} PrimaryWritten(ts: Tokens) returns (w: Writing)
    requires ParsePrimary(ts).Some?
    ensures Written(w, ts, ParsePrimary(ts).value) && (w.Bare? || w.Paren?)
    decreases |ts|, 1
  {
    hide ParseExpr, ParseComparison;
    if Starts(ts, LPAREN) {
      var inner := ParseExpr(ts[1..]).value;
      var i := ExprWritten(ts[1..]);
      w := Paren(i);
      assert ts == [LPAREN] + ts[1..] && inner.1 == [RPAREN] + inner.1[1..];
    } else {
      w := ComparisonWritten(ts);
    }
  }

  /** No tokens can be read as two conditions. */
  lemma OneReading(v: Writing, w: Writing)
    requires Grammatical(v) && Grammatical(w) && Spelling(v) == Spelling(w)
    ensures Reading(v) == Reading(w)
  {
    hide ParseExpr, Spelling, Reading;
    ExprBack(v, []);
    ExprBack(w, []);
  }

  // ---------- the shortest writing ----------

  function Wrap(w: Writing, wrap: bool): Writing {
    if wrap then Paren(w) else w
  }

  /** Parentheses only where the grammar needs them. */
  function Shortest(e: Expr): (w: Writing)
    requires IsCondition(e)
    ensures Grammatical(w) && Reading(w) == e
    ensures (w.Bare? <==> e.Compare?) && (w.Conj? <==> e.And?) && (w.Disj? <==> e.Or?)
  {
    match e
    case Compare(op, l, r) => Bare(op, l, r)
    case And(l, r) => Conj(Wrap(Shortest(l), l.Or?), Wrap(Shortest(r), !r.Compare?))
    case Or(l, r) => Disj(Shortest(l), Wrap(Shortest(r), r.Or?))
  }

  /** No writing of a condition is shorter. */
  lemma {:induction false} NoneShorter(w: Writing)
    requires Grammatical(w)
    ensures |Spelling(Shortest(Reading(w)))| <= |Spelling(w)|
    ensures !w.Disj? ==> |Spelling(Wrap(Shortest(Reading(w)), Reading(w).Or?))| <= |Spelling(w)|
    ensures w.Bare? || w.Paren? ==> |Spelling(Wrap(Shortest(Reading(w)), !Reading(w).Compare?))| <= |Spelling(w)|
  {
    match w
    case Bare(_, _, _) =>
    case Paren(i) => NoneShorter(i);
    case Conj(l, r) =>
      NoneShorter(l);
      NoneShorter(r);
    case Disj(l, r) =>
      NoneShorter(l);
      NoneShorter(r);
  }
}
