/** The recursive-descent parser: one method per production, all moving one cursor over the tokens. */
module Parsers {
  import opened Pages
  import opened Query
  import opened Plans
  import opened Planner
  import opened Grammar
  import opened Statements
  import Lexing

  /** The method succeeded exactly when the grammar function does, with its result and its rest. */
  ghost predicate Did<T>(p: Parsed<T>, r: Result<T>, rest: Tokens) {
    if p.None? then r.Err? else r == Ok(p.value.0) && rest == p.value.1
  }

  /** A token without text of its own. */
  predicate Plain(t: Token) {
    !t.IDENTIFIER? && !t.INTEGER_LITERAL? && !t.STRING_LITERAL? && !t.END_OF_INPUT?
  }

  class Parser {
    const tokens: Tokens
    var pos: nat

    /** The cursor is never past the one END_OF_INPUT, which is last. */
    ghost predicate Valid()
      reads this
    {
      && pos < |tokens|
      && forall k :: 0 <= k < |tokens| ==> (tokens[k].END_OF_INPUT? <==> k == |tokens| - 1)
    }

    ghost function Rest(): (r: Tokens)
      requires Valid()
      reads this
      ensures r != [] && r[0] == tokens[pos] && |r| == |tokens| - pos
    {
      tokens[pos..]
    }

    constructor (ts: Tokens)
      requires ts != [] && forall k :: 0 <= k < |ts| ==> (ts[k].END_OF_INPUT? <==> k == |ts| - 1)
      ensures Valid() && Rest() == ts && tokens == ts
    {
      tokens, pos := ts, 0;
    }

    function Peek(): Token
      requires Valid()
      reads this
    {
      tokens[pos]
    }

    /** The current token; the cursor stays on END_OF_INPUT. */
    method Advance() returns (t: Token)
      requires Valid()
      modifies this`pos
      ensures Valid() && t == old(Peek())
      ensures pos == if old(Peek()).END_OF_INPUT? then old(pos) else old(pos) + 1
      ensures !t.END_OF_INPUT? ==> Rest() == old(Rest())[1..]
    {
      t := tokens[pos];
      if pos < |tokens| - 1 {
        pos := pos + 1;
      }
    }

    method Match(t: Token) returns (matched: bool)
      requires Valid() && Plain(t)
      modifies this`pos
      ensures Valid() && (matched <==> Starts(old(Rest()), t))
      ensures matched ==> pos == old(pos) + 1 && Rest() == old(Rest())[1..]
      ensures !matched ==> pos == old(pos)
    {
      if tokens[pos] != t {
        return false;
      }
      var _ := Advance();
      return true;
    }

    // ---------- values ----------

    method Ident() returns (r: Result<string>)
      requires Valid()
      modifies this`pos
      ensures Valid() && pos >= old(pos) && Did(ParseIdent(old(Rest())), r, Rest())
    {
      if !tokens[pos].IDENTIFIER? {
        return Err;
      }
      var t := Advance();
      return Ok(t.text);
    }

    method Literal() returns (r: Result<Value>)
      requires Valid()
      modifies this`pos
      ensures Valid() && pos >= old(pos) && Did(ParseLiteral(old(Rest())), r, Rest())
    {
      if tokens[pos].INTEGER_LITERAL? {
        var t := Advance();
        return Ok(IntV(t.number));
      }
      if tokens[pos].STRING_LITERAL? {
        var t := Advance();
        return Ok(TextV(t.chars));
      }
      return Err;
    }

    method Qualified() returns (r: Result<(Option<string>, string)>)
      requires Valid()
      modifies this`pos
      ensures Valid() && pos >= old(pos) && Did(ParseQualified(old(Rest())), r, Rest())
    {
      var first := Ident();
      if first.Err? {
        return Err;
      }
      var dot := Match(DOT);
      if !dot {
        return Ok((None, first.value));
      }
      var second := Ident();
      if second.Err? {
        return Err;
      }
      return Ok((Some(first.value), second.value));
    }

    method Value() returns (r: Result<Expr>)
      requires Valid()
      modifies this`pos
      ensures Valid() && pos >= old(pos) && Did(ParseValue(old(Rest())), r, Rest())
    {
      hide ParseQualified, ParseLiteral;
      if tokens[pos].IDENTIFIER? {
        var q := Qualified();
        return if q.Err? then Err else Ok(ColumnRef(q.value.0, q.value.1));
      }
      var l := Literal();
      return if l.Err? then Err else Ok(Expr.Literal(l.value));
    }

    method ComparisonOp() returns (r: Result<CmpOp>)
      requires Valid()
      modifies this`pos
      ensures Valid() && pos >= old(pos) && Did(ParseOp(old(Rest())), r, Rest())
    {
      match tokens[pos]
      case EQ =>
        var _ := Advance();
        return Ok(Eq);
      case NEQ =>
        var _ := Advance();
        return Ok(Neq);
      case LT =>
        var _ := Advance();
        return Ok(Lt);
      case LTE =>
        var _ := Advance();
        return Ok(Lte);
      case GT =>
        var _ := Advance();
        return Ok(Gt);
      case GTE =>
        var _ := Advance();
        return Ok(Gte);
      case _ => return Err;
    }

    method Comparison() returns (r: Result<Expr>)
      requires Valid()
      modifies this`pos
      ensures Valid() && pos >= old(pos) && Did(ParseComparison(old(Rest())), r, Rest())
    {
      hide ParseValue, ParseOp;
      var left := Value();
      if left.Err? {
        return Err;
      }
      var op := ComparisonOp();
      if op.Err? {
        return Err;
      }
      var right := Value();
      if right.Err? {
        return Err;
      }
      return Ok(Compare(op.value, left.value, right.value));
    }

    // ---------- boolean expressions ----------

    method Expression() returns (r: Result<Expr>)
      requires Valid()
      modifies this`pos
      ensures Valid() && pos >= old(pos) && Did(ParseExpr(old(Rest())), r, Rest())
      decreases |tokens| - pos, 3
    {
      hide ParseAnd;
      r := AndExpression();
      if r.Err? {
        return;
      }
      var left := r.value;
      var more := Match(OR);
      while more
        invariant Valid() && pos >= old(pos)
        invariant more ==> pos > old(pos)
        invariant ParseExpr(old(Rest())) == if more then OrRight(left, Rest()) else OrTail(left, Rest())
        invariant !more ==> !Starts(Rest(), OR)
        decreases |tokens| - pos, more
      {
        r := AndExpression();
        if r.Err? {
          return;
        }
        left := Or(left, r.value);
        more := Match(OR);
      }
      return Ok(left);
    }

    method AndExpression() returns (r: Result<Expr>)
      requires Valid()
      modifies this`pos
      ensures Valid() && pos >= old(pos) && Did(ParseAnd(old(Rest())), r, Rest())
      decreases |tokens| - pos, 2
    {
      hide ParsePrimary;
      r := Primary();
      if r.Err? {
        return;
      }
      var left := r.value;
      var more := Match(AND);
      while more
        invariant Valid() && pos >= old(pos)
        invariant more ==> pos > old(pos)
        invariant ParseAnd(old(Rest())) == if more then AndRight(left, Rest()) else AndTail(left, Rest())
        invariant !more ==> !Starts(Rest(), AND)
        decreases |tokens| - pos, more
      {
        r := Primary();
        if r.Err? {
          return;
        }
        left := And(left, r.value);
        more := Match(AND);
      }
      return Ok(left);
    }

    method Primary() returns (r: Result<Expr>)
      requires Valid()
      modifies this`pos
      ensures Valid() && pos >= old(pos) && Did(ParsePrimary(old(Rest())), r, Rest())
      decreases |tokens| - pos, 1
    {
      hide ParseExpr, ParseComparison;
      var open := Match(LPAREN);
      if !open {
        r := Comparison();
        return;
      }
      r := Expression();
      if r.Err? {
        return;
      }
      var close := Match(RPAREN);
      return if close then r else Err;
    }

    // ---------- lists ----------

    method Identifiers() returns (r: Result<seq<string>>)
      requires Valid()
      modifies this`pos
      ensures Valid() && pos >= old(pos) && Did(ParseList(ParseIdent, old(Rest())), r, Rest())
    {
      hide ParseIdent;
      var first := Ident();
      if first.Err? {
        return Err;
      }
      var list := [first.value];
      var more := Match(COMMA);
      while more
        invariant Valid() && pos >= old(pos)
        invariant more ==> pos > old(pos)
        invariant ParseList(ParseIdent, old(Rest())) == if more then ListRight(ParseIdent, list, Rest()) else ListTail(ParseIdent, list, Rest())
        invariant !more ==> !Starts(Rest(), COMMA)
        decreases |tokens| - pos, more
      {
        var next := Ident();
        if next.Err? {
          return Err;
        }
        list := list + [next.value];
        more := Match(COMMA);
      }
      return Ok(list);
    }

    method Literals() returns (r: Result<seq<Query.Value>>)
      requires Valid()
      modifies this`pos
      ensures Valid() && pos >= old(pos) && Did(ParseList(ParseLiteral, old(Rest())), r, Rest())
    {
      hide ParseLiteral;
      var first := Literal();
      if first.Err? {
        return Err;
      }
      var list := [first.value];
      var more := Match(COMMA);
      while more
        invariant Valid() && pos >= old(pos)
        invariant more ==> pos > old(pos)
        invariant ParseList(ParseLiteral, old(Rest())) == if more then ListRight(ParseLiteral, list, Rest()) else ListTail(ParseLiteral, list, Rest())
        invariant !more ==> !Starts(Rest(), COMMA)
        decreases |tokens| - pos, more
      {
        var next := Literal();
        if next.Err? {
          return Err;
        }
        list := list + [next.value];
        more := Match(COMMA);
      }
      return Ok(list);
    }

    method ColumnDefs() returns (r: Result<seq<ColumnDef>>)
      requires Valid()
      modifies this`pos
      ensures Valid() && pos >= old(pos) && Did(ParseList(ParseColumnDef, old(Rest())), r, Rest())
    {
      hide ParseColumnDef;
      var first := OneColumn();
      if first.Err? {
        return Err;
      }
      var list := [first.value];
      var more := Match(COMMA);
      while more
        invariant Valid() && pos >= old(pos)
        invariant more ==> pos > old(pos)
        invariant ParseList(ParseColumnDef, old(Rest())) == if more then ListRight(ParseColumnDef, list, Rest()) else ListTail(ParseColumnDef, list, Rest())
        invariant !more ==> !Starts(Rest(), COMMA)
        decreases |tokens| - pos, more
      {
        var next := OneColumn();
        if next.Err? {
          return Err;
        }
        list := list + [next.value];
        more := Match(COMMA);
      }
      return Ok(list);
    }

    method SelectItems() returns (r: Result<seq<SelectItem>>)
      requires Valid()
      modifies this`pos
      ensures Valid() && pos >= old(pos) && Did(ParseList(ParseSelectItem, old(Rest())), r, Rest())
    {
      hide ParseSelectItem;
      var first := OneItem();
      if first.Err? {
        return Err;
      }
      var list := [first.value];
      var more := Match(COMMA);
      while more
        invariant Valid() && pos >= old(pos)
        invariant more ==> pos > old(pos)
        invariant ParseList(ParseSelectItem, old(Rest())) == if more then ListRight(ParseSelectItem, list, Rest()) else ListTail(ParseSelectItem, list, Rest())
        invariant !more ==> !Starts(Rest(), COMMA)
        decreases |tokens| - pos, more
      {
        var next := OneItem();
        if next.Err? {
          return Err;
        }
        list := list + [next.value];
        more := Match(COMMA);
      }
      return Ok(list);
    }

    // ---------- CREATE TABLE ----------

    method TypeName() returns (r: Result<ColumnType>)
      requires Valid()
      modifies this`pos
      ensures Valid() && pos >= old(pos) && Did(ParseType(old(Rest())), r, Rest())
    {
      var isInteger := Match(INTEGER_TYPE);
      if isInteger {
        return Ok(IntegerType);
      }
      var isText := Match(TEXT_TYPE);
      return if isText then Ok(TextType) else Err;
    }

    method OneColumn() returns (r: Result<ColumnDef>)
      requires Valid()
      modifies this`pos
      ensures Valid() && pos >= old(pos) && Did(ParseColumnDef(old(Rest())), r, Rest())
    {
      hide ParseIdent, ParseType;
      var name := Ident();
      if name.Err? {
        return Err;
      }
      var t := TypeName();
      if t.Err? {
        return Err;
      }
      var primary := Match(PRIMARY);
      if primary {
        var key := Match(KEY);
        if !key {
          return Err;
        }
      }
      return Ok(ColumnDef(name.value, t.value, primary));
    }

    method EnclosedColumns() returns (r: Result<seq<ColumnDef>>)
      requires Valid()
      modifies this`pos
      ensures Valid() && pos >= old(pos) && Did(ParseEnclosed(ParseColumnDef, old(Rest())), r, Rest())
    {
      hide ParseList, ParseColumnDef;
      var open := Match(LPAREN);
      if !open {
        return Err;
      }
      r := ColumnDefs();
      if r.Err? {
        return;
      }
      var close := Match(RPAREN);
      return if close then r else Err;
    }

    method Create() returns (r: Result<Statements.Statement>)
      requires Valid()
      modifies this`pos
      ensures Valid() && pos >= old(pos) && Did(ParseCreate(old(Rest())), r, Rest())
    {
      hide ParseIdent, ParseEnclosed, ParseColumnDef;
      var create := Match(CREATE);
      if !create {
        return Err;
      }
      var table := Match(TABLE);
      if !table {
        return Err;
      }
      var name := Ident();
      if name.Err? {
        return Err;
      }
      var columns := EnclosedColumns();
      return if columns.Err? then Err else Ok(CreateTable(name.value, columns.value));
    }

    // ---------- INSERT ----------

    method Names() returns (r: Result<seq<string>>)
      requires Valid()
      modifies this`pos
      ensures Valid() && pos >= old(pos) && Did(ParseNames(old(Rest())), r, Rest())
    {
      hide ParseList, ParseIdent;
      var open := Match(LPAREN);
      if !open {
        return Ok([]);
      }
      r := Identifiers();
      if r.Err? {
        return;
      }
      var close := Match(RPAREN);
      return if close then r else Err;
    }

    method EnclosedValues() returns (r: Result<seq<Query.Value>>)
      requires Valid()
      modifies this`pos
      ensures Valid() && pos >= old(pos) && Did(ParseEnclosed(ParseLiteral, old(Rest())), r, Rest())
    {
      hide ParseList, ParseLiteral;
      var open := Match(LPAREN);
      if !open {
        return Err;
      }
      r := Literals();
      if r.Err? {
        return;
      }
      var close := Match(RPAREN);
      return if close then r else Err;
    }

    method InsertInto() returns (r: Result<Statements.Statement>)
      requires Valid()
      modifies this`pos
      ensures Valid() && pos >= old(pos) && Did(ParseInsert(old(Rest())), r, Rest())
    {
      hide ParseEnclosed, ParseIdent, ParseLiteral, ParseNames;
      var insert := Match(INSERT);
      if !insert {
        return Err;
      }
      var into := Match(INTO);
      if !into {
        return Err;
      }
      var table := Ident();
      if table.Err? {
        return Err;
      }
      var names := Names();
      if names.Err? {
        return Err;
      }
      var values := Match(VALUES);
      if !values {
        return Err;
      }
      var list := EnclosedValues();
      return if list.Err? then Err else Ok(Insert(table.value, names.value, list.value));
    }

    // ---------- SELECT ----------

    method Alias() returns (r: Result<Option<string>>)
      requires Valid()
      modifies this`pos
      ensures Valid() && pos >= old(pos) && Did(ParseAlias(old(Rest())), r, Rest())
    {
      var as_ := Match(AS);
      if !as_ {
        return Ok(None);
      }
      var name := Ident();
      return if name.Err? then Err else Ok(Some(name.value));
    }

    method OneItem() returns (r: Result<SelectItem>)
      requires Valid()
      modifies this`pos
      ensures Valid() && pos >= old(pos) && Did(ParseSelectItem(old(Rest())), r, Rest())
    {
      hide ParseQualified, ParseAlias;
      var q := Qualified();
      if q.Err? {
        return Err;
      }
      var alias := Alias();
      return if alias.Err? then Err else Ok(SelectItem(q.value.0, q.value.1, alias.value));
    }

    method OneTable() returns (r: Result<TableRef>)
      requires Valid()
      modifies this`pos
      ensures Valid() && pos >= old(pos) && Did(ParseTableRef(old(Rest())), r, Rest())
    {
      hide ParseIdent, ParseAlias;
      var table := Ident();
      if table.Err? {
        return Err;
      }
      var alias := Alias();
      return if alias.Err? then Err else Ok(TableRef(table.value, alias.value));
    }

    method OneJoin() returns (r: Result<JoinClause>)
      requires Valid()
      modifies this`pos
      ensures Valid() && pos >= old(pos) && Did(ParseJoin(old(Rest())), r, Rest())
    {
      hide ParseTableRef, ParseExpr;
      var join := Match(JOIN);
      if !join {
        return Err;
      }
      var table := OneTable();
      if table.Err? {
        return Err;
      }
      var on := Match(ON);
      if !on {
        return Err;
      }
      var condition := Expression();
      return if condition.Err? then Err else Ok(JoinClause(table.value, condition.value));
    }

    method Joins() returns (r: Result<seq<JoinClause>>)
      requires Valid()
      modifies this`pos
      ensures Valid() && pos >= old(pos) && Did(JoinsTail([], old(Rest())), r, Rest())
    {
      hide ParseJoin;
      var joins := [];
      while tokens[pos] == JOIN
        invariant Valid() && pos >= old(pos)
        invariant JoinsTail([], old(Rest())) == JoinsTail(joins, Rest())
        decreases |tokens| - pos
      {
        ghost var before := Rest();
        var j := OneJoin();
        if j.Err? {
          return Err;
        }
        assert |Rest()| < |before|;
        joins := joins + [j.value];
      }
      return Ok(joins);
    }

    method Items() returns (r: Result<(bool, seq<SelectItem>)>)
      requires Valid()
      modifies this`pos
      ensures Valid() && pos >= old(pos) && Did(ParseItems(old(Rest())), r, Rest())
    {
      hide ParseList, ParseSelectItem;
      var star := Match(STAR);
      if star {
        return Ok((true, []));
      }
      var items := SelectItems();
      return if items.Err? then Err else Ok((false, items.value));
    }

    method Where() returns (r: Result<Option<Expr>>)
      requires Valid()
      modifies this`pos
      ensures Valid() && pos >= old(pos) && Did(ParseWhere(old(Rest())), r, Rest())
    {
      hide ParseExpr;
      var where := Match(WHERE);
      if !where {
        return Ok(None);
      }
      var e := Expression();
      return if e.Err? then Err else Ok(Some(e.value));
    }

    method SelectFrom() returns (r: Result<Statements.Statement>)
      requires Valid()
      modifies this`pos
      ensures Valid() && pos >= old(pos) && Did(ParseSelect(old(Rest())), r, Rest())
    {
      hide ParseItems, ParseTableRef, JoinsTail, ParseWhere;
      var select := Match(SELECT);
      if !select {
        return Err;
      }
      var items := Items();
      if items.Err? {
        return Err;
      }
      var from := Match(FROM);
      if !from {
        return Err;
      }
      var table := OneTable();
      if table.Err? {
        return Err;
      }
      var joins := Joins();
      if joins.Err? {
        return Err;
      }
      var where := Where();
      if where.Err? {
        return Err;
      }
      return Ok(Select(SelectStmt(items.value.0, items.value.1, table.value, joins.value, where.value)));
    }

    // ---------- statements ----------

    /** One statement, then an optional semicolon, then the end. */
    method Statement() returns (r: Result<Statements.Statement>)
      requires Valid()
      modifies this`pos
      ensures Valid() && pos >= old(pos)
      ensures r == match ParseStatement(old(Rest())) case None => Err case Some(s) => Ok(s)
    {
      hide ParseBody;
      r := Body();
      if r.Err? {
        return;
      }
      var _ := Match(SEMICOLON);
      return if tokens[pos].END_OF_INPUT? then r else Err;
    }

    method Body() returns (r: Result<Statements.Statement>)
      requires Valid()
      modifies this`pos
      ensures Valid() && pos >= old(pos) && Did(ParseBody(old(Rest())), r, Rest())
    {
      hide ParseCreate, ParseInsert, ParseSelect;
      match tokens[pos] {
        case CREATE => r := Create();
        case INSERT => r := InsertInto();
        case SELECT => r := SelectFrom();
        case _ => return Err;
      }
    }
  }

  /** What is left to parse just after an OR (an AND) has been matched. */
  ghost function OrRight(left: Expr, ts: Tokens): Parsed<Expr> {
    var right := ParseAnd(ts);
    if right.None? then None else OrTail(Or(left, right.value.0), right.value.1)
  }

  ghost function AndRight(left: Expr, ts: Tokens): Parsed<Expr> {
    var right := ParsePrimary(ts);
    if right.None? then None else AndTail(And(left, right.value.0), right.value.1)
  }

  ghost function ListRight<T>(item: Tokens -> Parsed<T>, done: seq<T>, ts: Tokens): Parsed<seq<T>> {
    var x := item(ts);
    if x.None? || |x.value.1| > |ts| then None else ListTail(item, done + [x.value.0], x.value.1)
  }

  /** What a text of SQL means. */
  function Sql(text: string): Option<Statements.Statement> {
    var tokens := Lexing.Lex(text);
    if tokens.None? then None else ParseStatement(tokens.value)
  }

  /** The text writes the statement: its tokens, with any parentheses around its conditions and with or without a final
      semicolon, each spelled in any way, keywords in any case, and any space between them. */
  ghost predicate WritesSql(s: Statements.Statement, f: Form, semicolon: bool, lead: string, ps: seq<Lexing.Piece>, text: string) {
    && Lexing.SpellsText(lead, ps, text) && IsStatement(s) && FormOf(f, s)
    && Lexing.TokensOf(ps) == Print(s, f) + if semicolon then [SEMICOLON] else []
  }

  lemma TokensEnd(ps: seq<Lexing.Piece>, body: Tokens, semicolon: bool)
    requires Lexing.Spelled(ps) && body + Ending(semicolon) <= Lexing.TokensOf(ps) + [END_OF_INPUT]
    ensures Lexing.TokensOf(ps) == body + if semicolon then [SEMICOLON] else []
  {
    var ts, all := Lexing.TokensOf(ps), body + Ending(semicolon);
    var n := |all| - 1;
    assert all[n] == END_OF_INPUT;
    forall k | 0 <= k < |ts|
      ensures ts[k] != END_OF_INPUT
    {
      assert Lexing.Spells(ps[k].token, ps[k].word);
    }
    assert (ts + [END_OF_INPUT])[n] == END_OF_INPUT;
    assert n == |ts|;
    assert ts == (ts + [END_OF_INPUT])[..n] == all[..n];
  }

  /** The texts that parse to a statement are exactly its writings. */
  lemma SqlIs(s: Statements.Statement, text: string)
    ensures Sql(text) == Some(s) <==> exists f, semicolon, lead, ps :: WritesSql(s, f, semicolon, lead, ps, text)
  {
    hide ParseStatement, Print, Lexing.Lex, Lexing.Spelled, Lexing.TextOf, Lexing.IsGap, IsStatement, FormOf;
    if Sql(text) == Some(s) {
      var ts := Lexing.Lex(text).value;
      Lexing.LexedIsSpelled(text, ts);
      var lead, ps :| Lexing.SpellsText(lead, ps, text) && ts == Lexing.TokensOf(ps) + [END_OF_INPUT];
      ParsedIsWritten(s, ts);
      var f, semicolon :| WritesStatement(s, f, semicolon, ts);
      TokensEnd(ps, Print(s, f), semicolon);
      assert WritesSql(s, f, semicolon, lead, ps, text);
    }
    if f, semicolon, lead, ps :| WritesSql(s, f, semicolon, lead, ps, text) {
      var ts := Lexing.TokensOf(ps) + [END_OF_INPUT];
      Lexing.LexedIsSpelled(text, ts);
      assert Print(s, f) + Ending(semicolon) == ts;
      assert WritesStatement(s, f, semicolon, ts);
      ParsedIsWritten(s, ts);
    }
  }

  method ParseSQL(sql: string) returns (r: Result<Statements.Statement>)
    ensures r == match Sql(sql) case None => Err case Some(s) => Ok(s)
  {
    hide ParseStatement;
    var tokens := Lexing.Tokenize(sql);
    if tokens.None? {
      return Err;
    }
    Lexing.LexEnds(sql);
    var parser := new Parser(tokens.value);
    r := parser.Statement();
  }
}
