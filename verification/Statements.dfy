/** Whole statements: what the parser computes, the printer, and the round trip. */
module Statements {
  import opened Pages
  import opened Query
  import opened Plans
  import opened Planner
  import opened Grammar

  datatype Statement =
    | CreateTable(name: string, columns: seq<ColumnDef>)
    | Insert(table: string, names: seq<string>, values: seq<Value>)
    | Select(select: SelectStmt)

  // ---------- lists ----------

  /** Further elements of a comma-separated list. */
  function ListTail<T>(item: Tokens -> Parsed<T>, done: seq<T>, ts: Tokens): (r: Parsed<seq<T>>)
    ensures r.Some? ==> |r.value.1| <= |ts|
    decreases |ts|
  {
    if !Starts(ts, COMMA) then Some((done, ts))
    else
      var x := item(ts[1..]);
      if x.None? || |x.value.1| >= |ts| then None else ListTail(item, done + [x.value.0], x.value.1)
  }

  function ParseList<T>(item: Tokens -> Parsed<T>, ts: Tokens): Parsed<seq<T>> {
    var x := item(ts);
    if x.None? then None else ListTail(item, [x.value.0], x.value.1)
  }

  /** Each element as written. */
  function Parts<T>(write: T -> Tokens, xs: seq<T>): (parts: seq<Tokens>)
    ensures |parts| == |xs| && forall k :: 0 <= k < |xs| ==> parts[k] == write(xs[k])
  {
    seq(|xs|, k requires 0 <= k < |xs| => write(xs[k]))
  }

  function PrintTail(parts: seq<Tokens>): Tokens {
    if parts == [] then [] else [COMMA] + parts[0] + PrintTail(parts[1..])
  }

  function PrintList(parts: seq<Tokens>): Tokens
    requires parts != []
  {
    parts[0] + PrintTail(parts[1..])
  }

  /** Each element parses back, before a comma and before what follows the list. */
  ghost predicate PartsParse<T>(item: Tokens -> Parsed<T>, write: T -> Tokens, xs: seq<T>, rest: Tokens) {
    forall x, r :: x in xs && (Starts(r, COMMA) || r == rest) ==> item(write(x) + r) == Some((x, r))
  }

  lemma {:induction false} TailBack<T>(item: Tokens -> Parsed<T>, write: T -> Tokens, done: seq<T>, xs: seq<T>, rest: Tokens)
    requires PartsParse(item, write, xs, rest) && !Starts(rest, COMMA)
    ensures ListTail(item, done, PrintTail(Parts(write, xs)) + rest) == Some((done + xs, rest))
    decreases |xs|
  {
    hide PartsParse, Parts;
    var ts := PrintTail(Parts(write, xs)) + rest;
    if xs == [] {
      assert ts == rest && done + xs == done;
    } else {
      var more := PrintTail(Parts(write, xs[1..])) + rest;
      TailSpelled(write, xs, rest);
      TailStarts(Parts(write, xs[1..]), rest);
      FirstParses(item, write, xs, rest, more);
      assert done + [xs[0]] + xs[1..] == done + xs;
      TailBack(item, write, done + [xs[0]], xs[1..], rest);
    }
  }

  lemma TailSpelled<T>(write: T -> Tokens, xs: seq<T>, rest: Tokens)
    requires xs != []
    ensures var ts := PrintTail(Parts(write, xs)) + rest; Starts(ts, COMMA) && ts[1..] == write(xs[0]) + (PrintTail(Parts(write, xs[1..])) + rest)
  {
    assert Parts(write, xs)[1..] == Parts(write, xs[1..]);
  }

  lemma FirstParses<T>(item: Tokens -> Parsed<T>, write: T -> Tokens, xs: seq<T>, rest: Tokens, more: Tokens)
    requires xs != [] && PartsParse(item, write, xs, rest) && (Starts(more, COMMA) || more == rest)
    ensures item(write(xs[0]) + more) == Some((xs[0], more)) && PartsParse(item, write, xs[1..], rest)
  {
    assert xs[0] in xs && forall x <- xs[1..] :: x in xs;
  }

  lemma TailStarts(parts: seq<Tokens>, rest: Tokens)
    ensures Starts(PrintTail(parts) + rest, COMMA) || PrintTail(parts) + rest == rest
  {
    if parts == [] {
      assert PrintTail(parts) + rest == rest;
    }
  }

  lemma ListBack<T>(item: Tokens -> Parsed<T>, write: T -> Tokens, xs: seq<T>, rest: Tokens)
    requires xs != [] && PartsParse(item, write, xs, rest) && !Starts(rest, COMMA)
    ensures ParseList(item, PrintList(Parts(write, xs)) + rest) == Some((xs, rest))
  {
    hide PartsParse;
    var parts := Parts(write, xs);
    var more := PrintTail(parts[1..]) + rest;
    assert parts[1..] == Parts(write, xs[1..]);
    assert PrintList(parts) + rest == parts[0] + more;
    TailStarts(parts[1..], rest);
    FirstParses(item, write, xs, rest, more);
    TailBack(item, write, [xs[0]], xs[1..], rest);
    assert [xs[0]] + xs[1..] == xs;
  }

  /** What parses as an element is an element as written. */
  ghost predicate ItemsWritten<T(!new)>(item: Tokens -> Parsed<T>, write: T -> Tokens) {
    forall ts :: item(ts).Some? ==> ts == write(item(ts).value.0) + item(ts).value.1
  }

  lemma {:induction false} TailWritten<T(!new)>(item: Tokens -> Parsed<T>, write: T -> Tokens, done: seq<T>, ts: Tokens) returns (xs: seq<T>)
    requires ItemsWritten(item, write) && ListTail(item, done, ts).Some?
    ensures var (all, rest) := ListTail(item, done, ts).value; all == done + xs && ts == PrintTail(Parts(write, xs)) + rest
    decreases |ts|
  {
    hide Parts, PrintTail;
    NoParts(write);
    if Starts(ts, COMMA) {
      var x := item(ts[1..]).value;
      var more := TailWritten(item, write, done + [x.0], x.1);
      xs := [x.0] + more;
      var rest := ListTail(item, done, ts).value.1;
      assert xs[1..] == more && done + [x.0] + more == done + xs;
      TailSpelled(write, xs, rest);
      SameFromSecond(ts, PrintTail(Parts(write, xs)) + rest);
    } else {
      xs := [];
    }
  }

  lemma NoParts<T>(write: T -> Tokens)
    ensures PrintTail(Parts(write, [])) == []
  {
  }

  lemma SameFromSecond(a: Tokens, b: Tokens)
    requires Starts(a, COMMA) && Starts(b, COMMA) && a[1..] == b[1..]
    ensures a == b
  {
    assert a == [COMMA] + a[1..] && b == [COMMA] + b[1..];
  }

  lemma ListWritten<T(!new)>(item: Tokens -> Parsed<T>, write: T -> Tokens, ts: Tokens)
    requires ItemsWritten(item, write) && ParseList(item, ts).Some?
    ensures var (xs, rest) := ParseList(item, ts).value; xs != [] && ts == PrintList(Parts(write, xs)) + rest
  {
    var x := item(ts).value;
    var more := TailWritten(item, write, [x.0], x.1);
    var (xs, rest) := ParseList(item, ts).value;
    assert xs == [x.0] + more;
    assert Parts(write, xs)[1..] == Parts(write, more);
    assert PrintList(Parts(write, xs)) + rest == write(x.0) + (PrintTail(Parts(write, more)) + rest);
  }

  // ---------- CREATE TABLE ----------

  function ParseType(ts: Tokens): (r: Parsed<ColumnType>)
    ensures r.Some? ==> |r.value.1| < |ts|
  {
    if Starts(ts, INTEGER_TYPE) then Some((IntegerType, ts[1..]))
    else if Starts(ts, TEXT_TYPE) then Some((TextType, ts[1..]))
    else None
  }

  function ParseColumnDef(ts: Tokens): (r: Parsed<ColumnDef>)
    ensures r.Some? ==> |r.value.1| < |ts|
  {
    var name := ParseIdent(ts);
    if name.None? then None
    else
      var t := ParseType(name.value.1);
      if t.None? then None
      else
        var rest := t.value.1;
        if !Starts(rest, PRIMARY) then Some((ColumnDef(name.value.0, t.value.0, false), rest))
        else if !Starts(rest[1..], KEY) then None
        else Some((ColumnDef(name.value.0, t.value.0, true), rest[1..][1..]))
  }

  /** A list in parentheses. */
  function ParseEnclosed<T>(item: Tokens -> Parsed<T>, ts: Tokens): Parsed<seq<T>> {
    if !Starts(ts, LPAREN) then None
    else
      var list := ParseList(item, ts[1..]);
      if list.None? || !Starts(list.value.1, RPAREN) then None else Some((list.value.0, list.value.1[1..]))
  }

  function ParseCreate(ts: Tokens): Parsed<Statement> {
    if !Starts(ts, CREATE) || !Starts(ts[1..], TABLE) then None
    else
      var name := ParseIdent(ts[1..][1..]);
      if name.None? then None
      else
        var columns := ParseEnclosed(ParseColumnDef, name.value.1);
        if columns.None? then None else Some((CreateTable(name.value.0, columns.value.0), columns.value.1))
  }

  // ---------- INSERT ----------

  /** An optional column list. */
  function ParseNames(ts: Tokens): Parsed<seq<string>> {
    if Starts(ts, LPAREN) then ParseEnclosed(ParseIdent, ts) else Some(([], ts))
  }

  function ParseInsert(ts: Tokens): Parsed<Statement> {
    if !Starts(ts, INSERT) || !Starts(ts[1..], INTO) then None
    else
      var table := ParseIdent(ts[1..][1..]);
      if table.None? then None
      else
        var names := ParseNames(table.value.1);
        if names.None? || !Starts(names.value.1, VALUES) then None
        else
          var values := ParseEnclosed(ParseLiteral, names.value.1[1..]);
          if values.None? then None else Some((Insert(table.value.0, names.value.0, values.value.0), values.value.1))
  }

  // ---------- SELECT ----------

  /** An optional AS. */
  function ParseAlias(ts: Tokens): (r: Parsed<Option<string>>)
    ensures r.Some? ==> |r.value.1| <= |ts|
  {
    if !Starts(ts, AS) then Some((None, ts))
    else
      var name := ParseIdent(ts[1..]);
      if name.None? then None else Some((Some(name.value.0), name.value.1))
  }

  function ParseSelectItem(ts: Tokens): (r: Parsed<SelectItem>)
    ensures r.Some? ==> |r.value.1| < |ts|
  {
    var q := ParseQualified(ts);
    if q.None? then None
    else
      var alias := ParseAlias(q.value.1);
      if alias.None? then None else Some((SelectItem(q.value.0.0, q.value.0.1, alias.value.0), alias.value.1))
  }

  function ParseTableRef(ts: Tokens): (r: Parsed<TableRef>)
    ensures r.Some? ==> |r.value.1| < |ts|
  {
    var table := ParseIdent(ts);
    if table.None? then None
    else
      var alias := ParseAlias(table.value.1);
      if alias.None? then None else Some((TableRef(table.value.0, alias.value.0), alias.value.1))
  }

  function ParseJoin(ts: Tokens): (r: Parsed<JoinClause>)
    ensures r.Some? ==> |r.value.1| < |ts|
  {
    if !Starts(ts, JOIN) then None
    else
      var table := ParseTableRef(ts[1..]);
      if table.None? || !Starts(table.value.1, ON) then None
      else
        var on := ParseExpr(table.value.1[1..]);
        if on.None? then None else Some((JoinClause(table.value.0, on.value.0), on.value.1))
  }

  function JoinsTail(done: seq<JoinClause>, ts: Tokens): (r: Parsed<seq<JoinClause>>)
    ensures r.Some? ==> |r.value.1| <= |ts|
    decreases |ts|
  {
    if !Starts(ts, JOIN) then Some((done, ts))
    else
      var j := ParseJoin(ts);
      if j.None? then None else JoinsTail(done + [j.value.0], j.value.1)
  }

  function ParseWhere(ts: Tokens): Parsed<Option<Expr>> {
    if !Starts(ts, WHERE) then Some((None, ts))
    else
      var e := ParseExpr(ts[1..]);
      if e.None? then None else Some((Some(e.value.0), e.value.1))
  }

  /** `*`, or a list. */
  function ParseItems(ts: Tokens): Parsed<(bool, seq<SelectItem>)> {
    if Starts(ts, STAR) then Some(((true, []), ts[1..]))
    else
      var list := ParseList(ParseSelectItem, ts);
      if list.None? then None else Some(((false, list.value.0), list.value.1))
  }

  function ParseFrom(isStar: bool, items: seq<SelectItem>, ts: Tokens): Parsed<Statement> {
    if !Starts(ts, FROM) then None
    else
      var from := ParseTableRef(ts[1..]);
      if from.None? then None
      else
        var joins := JoinsTail([], from.value.1);
        if joins.None? then None
        else
          var where := ParseWhere(joins.value.1);
          if where.None? then None
          else Some((Select(SelectStmt(isStar, items, from.value.0, joins.value.0, where.value.0)), where.value.1))
  }

  function ParseSelect(ts: Tokens): Parsed<Statement> {
    if !Starts(ts, SELECT) then None
    else
      var items := ParseItems(ts[1..]);
      if items.None? then None else ParseFrom(items.value.0.0, items.value.0.1, items.value.1)
  }

  // ---------- statements ----------

  function ParseBody(ts: Tokens): Parsed<Statement> {
    if Starts(ts, CREATE) then ParseCreate(ts)
    else if Starts(ts, INSERT) then ParseInsert(ts)
    else if Starts(ts, SELECT) then ParseSelect(ts)
    else None
  }

  /** One statement, an optional semicolon, and nothing else. */
  function ParseStatement(ts: Tokens): Option<Statement> {
    var body := ParseBody(ts);
    if body.None? then None
    else
      var rest := if Starts(body.value.1, SEMICOLON) then body.value.1[1..] else body.value.1;
      if Starts(rest, END_OF_INPUT) then Some(body.value.0) else None
  }

  // ---------- the ways to write a statement ----------

  predicate IsLiteral(v: Value) {
    v.IntV? ==> v.i >= 0
  }

  /** What the grammar can express. */
  predicate IsStatement(s: Statement) {
    match s
    case CreateTable(_, columns) => columns != []
    case Insert(_, _, values) => values != [] && forall v <- values :: IsLiteral(v)
    case Select(q) =>
      && (q.isStar <==> q.items == [])
      && (forall j <- q.joins :: IsCondition(j.on))
      && (q.where.Some? ==> IsCondition(q.where.value))
  }

  /** How the conditions of a statement are written: those of its joins, and that of WHERE. */
  datatype Form = Form(ons: seq<Writing>, where: Option<Writing>)

  predicate Writes(w: Writing, e: Expr) {
    Grammatical(w) && Reading(w) == e
  }

  predicate JoinsWritten(ons: seq<Writing>, joins: seq<JoinClause>) {
    |ons| == |joins| && forall k :: 0 <= k < |ons| ==> Writes(ons[k], joins[k].on)
  }

  predicate WhereWritten(w: Option<Writing>, where: Option<Expr>) {
    (w.Some? <==> where.Some?) && (w.Some? ==> Writes(w.value, where.value))
  }

  predicate FormOf(f: Form, s: Statement) {
    match s
    case Select(q) => JoinsWritten(f.ons, q.joins) && WhereWritten(f.where, q.where)
    case _ => f == Form([], None)
  }

  function PrintColumn(c: ColumnDef): Tokens {
    [IDENTIFIER(c.name), if c.ctype.IntegerType? then INTEGER_TYPE else TEXT_TYPE] + if c.isPrimaryKey then [PRIMARY, KEY] else []
  }

  function PrintName(name: string): Tokens {
    [IDENTIFIER(name)]
  }

  /** There is no way to write a negative literal. */
  function PrintLiteral(v: Value): Tokens {
    if IsLiteral(v) then [LiteralToken(v)] else []
  }

  function PrintAlias(alias: Option<string>): Tokens {
    if alias.Some? then [AS, IDENTIFIER(alias.value)] else []
  }

  function PrintItem(i: SelectItem): Tokens {
    PrintQualified(i.table, i.column) + PrintAlias(i.alias)
  }

  function PrintRef(t: TableRef): Tokens {
    [IDENTIFIER(t.table)] + PrintAlias(t.alias)
  }

  function PrintJoins(joins: seq<JoinClause>, ons: seq<Writing>): Tokens
    requires JoinsWritten(ons, joins)
  {
    if joins == [] then []
    else [JOIN] + PrintRef(joins[0].table) + [ON] + Spelling(ons[0]) + PrintJoins(joins[1..], ons[1..])
  }

  function Enclose(parts: seq<Tokens>): Tokens
    requires parts != []
  {
    [LPAREN] + PrintList(parts) + [RPAREN]
  }

  function PrintNames(names: seq<string>): Tokens {
    if names == [] then [] else Enclose(Parts(PrintName, names))
  }

  function PrintItems(isStar: bool, items: seq<SelectItem>): Tokens
    requires isStar || items != []
  {
    if isStar then [STAR] else PrintList(Parts(PrintItem, items))
  }

  function PrintWhere(w: Option<Writing>): Tokens
    requires w.Some? ==> Grammatical(w.value)
  {
    if w.Some? then [WHERE] + Spelling(w.value) else []
  }

  function Print(s: Statement, f: Form): Tokens
    requires IsStatement(s) && FormOf(f, s)
  {
    match s
    case CreateTable(name, columns) => [CREATE, TABLE, IDENTIFIER(name)] + Enclose(Parts(PrintColumn, columns))
    case Insert(table, names, values) =>
      [INSERT, INTO, IDENTIFIER(table)] + PrintNames(names) + [VALUES] + Enclose(Parts(PrintLiteral, values))
    case Select(q) =>
      [SELECT] + PrintItems(q.isStar, q.items)
      + [FROM] + PrintRef(q.from) + PrintJoins(q.joins, f.ons) + PrintWhere(f.where)
  }

  function Ending(semicolon: bool): Tokens {
    if semicolon then [SEMICOLON, END_OF_INPUT] else [END_OF_INPUT]
  }

  /** The tokens, up to the first END_OF_INPUT, write the statement: with any parentheses around its conditions, and with or
      without a final semicolon. */
  ghost predicate WritesStatement(s: Statement, f: Form, semicolon: bool, ts: Tokens) {
    IsStatement(s) && FormOf(f, s) && Print(s, f) + Ending(semicolon) <= ts
  }

  /** Every statement the grammar can express can be written: with the fewest parentheses, say. */
  function ShortestForm(s: Statement): (f: Form)
    requires IsStatement(s)
    ensures FormOf(f, s)
  {
    match s
    case Select(q) =>
      assert forall k :: 0 <= k < |q.joins| ==> q.joins[k] in q.joins;
      Form(seq(|q.joins|, k requires 0 <= k < |q.joins| => Shortest(q.joins[k].on)),
           if q.where.Some? then Some(Shortest(q.where.value)) else None)
    case _ => Form([], None)
  }

  // ---------- parsing undoes writing ----------

  /** What may follow a complete clause. */
  predicate Ends(rest: Tokens) {
    rest != [] && (rest[0].SEMICOLON? || rest[0].END_OF_INPUT? || rest[0].JOIN? || rest[0].WHERE? || rest[0].ON? || rest[0].FROM?)
  }

  lemma IdentBack(name: string, rest: Tokens)
    ensures ParseIdent([IDENTIFIER(name)] + rest) == Some((name, rest))
  {
    assert ([IDENTIFIER(name)] + rest)[1..] == rest;
  }

  lemma TypeBack(t: ColumnType, rest: Tokens)
    ensures ParseType([if t.IntegerType? then INTEGER_TYPE else TEXT_TYPE] + rest) == Some((t, rest))
  {
    assert ([if t.IntegerType? then INTEGER_TYPE else TEXT_TYPE] + rest)[1..] == rest;
  }

  lemma ColumnBack(c: ColumnDef, rest: Tokens)
    requires !Starts(rest, PRIMARY)
    ensures ParseColumnDef(PrintColumn(c) + rest) == Some((c, rest))
  {
    hide ParseType, ParseIdent;
    var key := if c.isPrimaryKey then [PRIMARY, KEY] else [];
    var t := [if c.ctype.IntegerType? then INTEGER_TYPE else TEXT_TYPE] + (key + rest);
    assert PrintColumn(c) + rest == [IDENTIFIER(c.name)] + t;
    IdentBack(c.name, t);
    TypeBack(c.ctype, key + rest);
    if c.isPrimaryKey {
      assert (key + rest)[1..] == [KEY] + rest && ([KEY] + rest)[1..] == rest;
    } else {
      assert key + rest == rest;
    }
  }

  lemma LiteralBack(v: Value, rest: Tokens)
    requires IsLiteral(v)
    ensures ParseLiteral([LiteralToken(v)] + rest) == Some((v, rest))
  {
    assert ([LiteralToken(v)] + rest)[1..] == rest;
  }

  lemma AliasBack(alias: Option<string>, rest: Tokens)
    requires !Starts(rest, AS)
    ensures ParseAlias(PrintAlias(alias) + rest) == Some((alias, rest))
  {
    if alias.Some? {
      assert (PrintAlias(alias) + rest)[1..] == [IDENTIFIER(alias.value)] + rest;
      IdentBack(alias.value, rest);
    } else {
      assert PrintAlias(alias) + rest == rest;
    }
  }

  lemma ItemBack(i: SelectItem, rest: Tokens)
    requires !Starts(rest, AS) && !Starts(rest, DOT)
    ensures ParseSelectItem(PrintItem(i) + rest) == Some((i, rest))
  {
    hide ParseQualified, ParseAlias, PrintQualified;
    var more := PrintAlias(i.alias) + rest;
    assert PrintItem(i) + rest == PrintQualified(i.table, i.column) + more;
    assert i.alias.None? ==> more == rest;
    QualifiedBack(i.table, i.column, more);
    AliasBack(i.alias, rest);
  }

  lemma RefBack(t: TableRef, rest: Tokens)
    requires !Starts(rest, AS)
    ensures ParseTableRef(PrintRef(t) + rest) == Some((t, rest))
  {
    hide ParseIdent, ParseAlias;
    var more := PrintAlias(t.alias) + rest;
    assert PrintRef(t) + rest == [IDENTIFIER(t.table)] + more;
    IdentBack(t.table, more);
    AliasBack(t.alias, rest);
  }

  lemma JoinBack(j: JoinClause, w: Writing, rest: Tokens)
    requires Writes(w, j.on) && Ends(rest)
    ensures ParseJoin([JOIN] + PrintRef(j.table) + [ON] + Spelling(w) + rest) == Some((j, rest))
  {
    hide ParseTableRef, ParseExpr, PrintRef, Spelling;
    var e := Spelling(w) + rest;
    var on := [ON] + e;
    var ts := [JOIN] + PrintRef(j.table) + [ON] + Spelling(w) + rest;
    assert ts == [JOIN] + (PrintRef(j.table) + on);
    assert ts[1..] == PrintRef(j.table) + on && on[1..] == e;
    RefBack(j.table, on);
    ExprBack(w, rest);
  }

  lemma {:induction false} JoinsBack(done: seq<JoinClause>, joins: seq<JoinClause>, ons: seq<Writing>, rest: Tokens)
    requires JoinsWritten(ons, joins) && Ends(rest) && !Starts(rest, JOIN)
    ensures JoinsTail(done, PrintJoins(joins, ons) + rest) == Some((done + joins, rest))
    ensures Ends(PrintJoins(joins, ons) + rest)
    decreases |joins|
  {
    hide ParseJoin, PrintRef, Spelling;
    if joins == [] {
      assert PrintJoins(joins, ons) + rest == rest && done + joins == done;
    } else {
      var j := joins[0];
      var more := PrintJoins(joins[1..], ons[1..]) + rest;
      JoinsBack(done + [j], joins[1..], ons[1..], rest);
      JoinBack(j, ons[0], more);
      assert PrintJoins(joins, ons) + rest == [JOIN] + PrintRef(j.table) + [ON] + Spelling(ons[0]) + more;
      assert done + [j] + joins[1..] == done + joins;
    }
  }

  lemma WhereBack(where: Option<Expr>, w: Option<Writing>, rest: Tokens)
    requires WhereWritten(w, where) && Ends(rest) && !Starts(rest, WHERE)
    ensures ParseWhere(PrintWhere(w) + rest) == Some((where, rest))
    ensures Ends(PrintWhere(w) + rest) && (!Starts(rest, JOIN) ==> !Starts(PrintWhere(w) + rest, JOIN))
  {
    hide ParseExpr, Spelling;
    if w.Some? {
      assert (PrintWhere(w) + rest)[1..] == Spelling(w.value) + rest;
      ExprBack(w.value, rest);
    } else {
      assert PrintWhere(w) + rest == rest;
    }
  }

  lemma EnclosedBack<T>(item: Tokens -> Parsed<T>, write: T -> Tokens, xs: seq<T>, rest: Tokens)
    requires xs != [] && PartsParse(item, write, xs, [RPAREN] + rest)
    ensures ParseEnclosed(item, Enclose(Parts(write, xs)) + rest) == Some((xs, rest))
  {
    hide ParseList, PrintList, PartsParse;
    var parts, close := Parts(write, xs), [RPAREN] + rest;
    ListBack(item, write, xs, close);
    assert Enclose(parts) + rest == [LPAREN] + (PrintList(parts) + close);
    assert ([LPAREN] + (PrintList(parts) + close))[1..] == PrintList(parts) + close;
    assert close[1..] == rest;
  }

  lemma ColumnsParse(columns: seq<ColumnDef>, rest: Tokens)
    requires !Starts(rest, PRIMARY)
    ensures PartsParse(ParseColumnDef, PrintColumn, columns, rest)
  {
    hide ParseColumnDef, PrintColumn;
    forall c, r | c in columns && (Starts(r, COMMA) || r == rest)
      ensures ParseColumnDef(PrintColumn(c) + r) == Some((c, r))
    {
      ColumnBack(c, r);
    }
  }

  lemma NamesParse(names: seq<string>, rest: Tokens)
    ensures PartsParse(ParseIdent, PrintName, names, rest)
  {
    hide ParseIdent;
    forall n, r | n in names && (Starts(r, COMMA) || r == rest)
      ensures ParseIdent(PrintName(n) + r) == Some((n, r))
    {
      IdentBack(n, r);
    }
  }

  lemma ValuesParse(values: seq<Value>, rest: Tokens)
    requires forall v <- values :: IsLiteral(v)
    ensures PartsParse(ParseLiteral, PrintLiteral, values, rest)
  {
    hide ParseLiteral, LiteralToken;
    forall v, r | v in values && (Starts(r, COMMA) || r == rest)
      ensures ParseLiteral(PrintLiteral(v) + r) == Some((v, r))
    {
      LiteralBack(v, r);
    }
  }

  lemma ItemsParse(items: seq<SelectItem>, rest: Tokens)
    requires !Starts(rest, AS) && !Starts(rest, DOT)
    ensures PartsParse(ParseSelectItem, PrintItem, items, rest)
  {
    hide ParseSelectItem, PrintItem;
    forall i, r | i in items && (Starts(r, COMMA) || r == rest)
      ensures ParseSelectItem(PrintItem(i) + r) == Some((i, r))
    {
      ItemBack(i, r);
    }
  }

  lemma CreateBack(s: Statement, f: Form, rest: Tokens)
    requires s.CreateTable? && IsStatement(s) && FormOf(f, s)
    ensures ParseCreate(Print(s, f) + rest) == Some((s, rest))
  {
    hide ParseEnclosed, ParseColumnDef, Enclose, Parts, PartsParse;
    ColumnsParse(s.columns, [RPAREN] + rest);
    EnclosedBack(ParseColumnDef, PrintColumn, s.columns, rest);
    var body := Enclose(Parts(PrintColumn, s.columns)) + rest;
    var ts := Print(s, f) + rest;
    assert ts == [CREATE, TABLE] + ([IDENTIFIER(s.name)] + body);
    assert ts[1..][1..] == [IDENTIFIER(s.name)] + body;
    IdentBack(s.name, body);
  }

  lemma NamesBack(names: seq<string>, more: Tokens)
    requires Starts(more, VALUES)
    ensures ParseNames(PrintNames(names) + more) == Some((names, more))
  {
    hide ParseEnclosed, ParseIdent, Enclose, PartsParse;
    if names != [] {
      NamesParse(names, [RPAREN] + more);
      EnclosedBack(ParseIdent, PrintName, names, more);
      EnclosedStarts(Parts(PrintName, names), more);
    } else {
      assert PrintNames(names) + more == more;
    }
  }

  lemma EnclosedStarts(parts: seq<Tokens>, rest: Tokens)
    requires parts != []
    ensures Starts(Enclose(parts) + rest, LPAREN)
  {
  }

  lemma InsertBack(s: Statement, f: Form, rest: Tokens)
    requires s.Insert? && IsStatement(s) && FormOf(f, s)
    ensures ParseInsert(Print(s, f) + rest) == Some((s, rest))
  {
    hide ParseEnclosed, ParseIdent, ParseLiteral, Enclose, Parts, PartsParse, PrintNames, ParseNames;
    ValuesParse(s.values, [RPAREN] + rest);
    EnclosedBack(ParseLiteral, PrintLiteral, s.values, rest);
    var body := Enclose(Parts(PrintLiteral, s.values)) + rest;
    var more := [VALUES] + body;
    assert more[1..] == body;
    NamesBack(s.names, more);
    var names := PrintNames(s.names) + more;
    IdentBack(s.table, names);
    var ts := Print(s, f) + rest;
    assert ts == [INSERT, INTO] + ([IDENTIFIER(s.table)] + names);
    assert ts[1..][1..] == [IDENTIFIER(s.table)] + names;
  }

  lemma FromBack(q: SelectStmt, f: Form, rest: Tokens)
    requires IsStatement(Select(q)) && FormOf(f, Select(q)) && Ends(rest) && !Starts(rest, JOIN) && !Starts(rest, WHERE)
    ensures ParseFrom(q.isStar, q.items, [FROM] + PrintRef(q.from) + PrintJoins(q.joins, f.ons) + PrintWhere(f.where) + rest)
         == Some((Select(q), rest))
  {
    hide ParseTableRef, JoinsTail, ParseWhere, PrintRef, PrintJoins, PrintWhere;
    var where := PrintWhere(f.where) + rest;
    var joins := PrintJoins(q.joins, f.ons) + where;
    WhereBack(q.where, f.where, rest);
    JoinsBack([], q.joins, f.ons, where);
    assert [] + q.joins == q.joins;
    RefBack(q.from, joins);
    var ts := [FROM] + PrintRef(q.from) + PrintJoins(q.joins, f.ons) + PrintWhere(f.where) + rest;
    assert ts == [FROM] + (PrintRef(q.from) + joins);
    assert ts[1..] == PrintRef(q.from) + joins;
  }

  lemma ItemsBack(isStar: bool, items: seq<SelectItem>, from: Tokens)
    requires isStar <==> items == []
    requires Starts(from, FROM)
    ensures ParseItems(PrintItems(isStar, items) + from) == Some(((isStar, items), from))
  {
    hide ParseList, PrintList, ParseSelectItem, PartsParse;
    var ts := PrintItems(isStar, items) + from;
    if isStar {
      assert ts[1..] == from;
    } else {
      ItemsParse(items, from);
      ListBack(ParseSelectItem, PrintItem, items, from);
      ListNotStar(items, from);
    }
  }

  lemma ListNotStar(items: seq<SelectItem>, rest: Tokens)
    requires items != []
    ensures !Starts(PrintList(Parts(PrintItem, items)) + rest, STAR)
  {
    assert Parts(PrintItem, items)[0] == PrintItem(items[0]);
  }

  lemma SelectBack(s: Statement, f: Form, rest: Tokens)
    requires s.Select? && IsStatement(s) && FormOf(f, s) && Ends(rest) && !Starts(rest, JOIN) && !Starts(rest, WHERE)
    ensures ParseSelect(Print(s, f) + rest) == Some((s, rest))
  {
    hide ParseFrom, ParseItems, PrintItems, PrintRef, PrintJoins, PrintWhere;
    var q := s.select;
    FromBack(q, f, rest);
    var from := [FROM] + PrintRef(q.from) + PrintJoins(q.joins, f.ons) + PrintWhere(f.where) + rest;
    ItemsBack(q.isStar, q.items, from);
    var ts := Print(s, f) + rest;
    assert ts == [SELECT] + (PrintItems(q.isStar, q.items) + from);
    assert ts[1..] == PrintItems(q.isStar, q.items) + from;
  }

  lemma Keyword(s: Statement, f: Form, rest: Tokens)
    requires IsStatement(s) && FormOf(f, s)
    ensures Starts(Print(s, f) + rest, if s.CreateTable? then CREATE else if s.Insert? then INSERT else SELECT)
  {
  }

  /** However a statement is written, parsing gives the statement. */
  lemma StatementBack(s: Statement, f: Form, semicolon: bool, ts: Tokens)
    requires WritesStatement(s, f, semicolon, ts)
    ensures ParseStatement(ts) == Some(s)
  {
    hide ParseCreate, ParseInsert, ParseSelect, Print;
    var n := |Print(s, f)|;
    var rest := ts[n..];
    assert ts == Print(s, f) + rest;
    assert Ending(semicolon) <= rest;
    Keyword(s, f, rest);
    match s
    case CreateTable(_, _) => CreateBack(s, f, rest);
    case Insert(_, _, _) => InsertBack(s, f, rest);
    case Select(_) => SelectBack(s, f, rest);
  }

  // ---------- and nothing else is parsed ----------

  lemma IdentWritten(ts: Tokens)
    ensures ParseIdent(ts).Some? ==> ts == PrintName(ParseIdent(ts).value.0) + ParseIdent(ts).value.1
  {
  }

  lemma LiteralWritten(ts: Tokens)
    ensures ParseLiteral(ts).Some? ==>
              var (v, rest) := ParseLiteral(ts).value; IsLiteral(v) && ts == PrintLiteral(v) + rest
  {
  }

  lemma TypeWritten(ts: Tokens)
    ensures ParseType(ts).Some? ==>
              var (t, rest) := ParseType(ts).value; ts == [if t.IntegerType? then INTEGER_TYPE else TEXT_TYPE] + rest
  {
  }

  lemma ColumnWritten(ts: Tokens)
    ensures ParseColumnDef(ts).Some? ==> ts == PrintColumn(ParseColumnDef(ts).value.0) + ParseColumnDef(ts).value.1
  {
    hide ParseIdent, ParseType;
    IdentWritten(ts);
    if ParseColumnDef(ts).Some? {
      var name := ParseIdent(ts).value;
      TypeWritten(name.1);
      var t := ParseType(name.1).value;
      if Starts(t.1, PRIMARY) {
        assert t.1 == [PRIMARY, KEY] + t.1[1..][1..];
      }
    }
  }

  lemma AliasWritten(ts: Tokens)
    ensures ParseAlias(ts).Some? ==> ts == PrintAlias(ParseAlias(ts).value.0) + ParseAlias(ts).value.1
  {
    if Starts(ts, AS) {
      IdentWritten(ts[1..]);
      assert ts == [AS] + ts[1..];
    }
  }

  lemma ItemWritten(ts: Tokens)
    ensures ParseSelectItem(ts).Some? ==> ts == PrintItem(ParseSelectItem(ts).value.0) + ParseSelectItem(ts).value.1
  {
    hide ParseQualified, ParseAlias, PrintQualified, PrintAlias;
    QualifiedWritten(ts);
    if ParseQualified(ts).Some? {
      AliasWritten(ParseQualified(ts).value.1);
    }
  }

  lemma RefWritten(ts: Tokens)
    ensures ParseTableRef(ts).Some? ==> ts == PrintRef(ParseTableRef(ts).value.0) + ParseTableRef(ts).value.1
  {
    hide ParseIdent, ParseAlias, PrintAlias;
    IdentWritten(ts);
    if ParseIdent(ts).Some? {
      AliasWritten(ParseIdent(ts).value.1);
    }
  }

  lemma EnclosedWritten<T(!new)>(item: Tokens -> Parsed<T>, write: T -> Tokens, ts: Tokens)
    requires ItemsWritten(item, write) && ParseEnclosed(item, ts).Some?
    ensures var (xs, rest) := ParseEnclosed(item, ts).value; xs != [] && ts == Enclose(Parts(write, xs)) + rest
  {
    hide ParseList, PrintList;
    ListWritten(item, write, ts[1..]);
    var list := ParseList(item, ts[1..]).value;
    assert ts == [LPAREN] + ts[1..] && list.1 == [RPAREN] + list.1[1..];
  }

  lemma JoinWritten(ts: Tokens) returns (w: Writing)
    requires ParseJoin(ts).Some?
    ensures var (j, rest) := ParseJoin(ts).value; Writes(w, j.on) && ts == [JOIN] + PrintRef(j.table) + [ON] + Spelling(w) + rest
  {
    hide ParseTableRef, ParseExpr, PrintRef, Spelling;
    RefWritten(ts[1..]);
    var table := ParseTableRef(ts[1..]).value;
    w := ExprWritten(table.1[1..]);
    assert ts == [JOIN] + ts[1..] && table.1 == [ON] + table.1[1..];
  }

  lemma {:induction false} JoinsTailWritten(done: seq<JoinClause>, ts: Tokens) returns (joins: seq<JoinClause>, ons: seq<Writing>)
    requires JoinsTail(done, ts).Some?
    ensures JoinsWritten(ons, joins)
    ensures var (all, rest) := JoinsTail(done, ts).value; all == done + joins && ts == PrintJoins(joins, ons) + rest
    decreases |ts|
  {
    hide ParseJoin, PrintRef, Spelling;
    if Starts(ts, JOIN) {
      var j := ParseJoin(ts).value;
      var w := JoinWritten(ts);
      var more, others := JoinsTailWritten(done + [j.0], j.1);
      joins, ons := [j.0] + more, [w] + others;
      assert joins[1..] == more && ons[1..] == others;
      assert done + [j.0] + more == done + joins;
    } else {
      joins, ons := [], [];
    }
  }

  lemma WhereClauseWritten(ts: Tokens) returns (w: Option<Writing>)
    requires ParseWhere(ts).Some?
    ensures WhereWritten(w, ParseWhere(ts).value.0) && ts == PrintWhere(w) + ParseWhere(ts).value.1
  {
    hide ParseExpr, Spelling;
    if Starts(ts, WHERE) {
      var e := ExprWritten(ts[1..]);
      w := Some(e);
      assert ts == [WHERE] + ts[1..];
    } else {
      w := None;
    }
  }

  lemma CreateWritten(ts: Tokens)
    requires ParseCreate(ts).Some?
    ensures var (s, rest) := ParseCreate(ts).value;
            s.CreateTable? && IsStatement(s) && FormOf(Form([], None), s) && ts == Print(s, Form([], None)) + rest
  {
    hide ParseEnclosed, ParseColumnDef, ParseIdent, Enclose, PrintColumn, Parts;
    forall us: Tokens
      ensures ParseColumnDef(us).Some? ==> us == PrintColumn(ParseColumnDef(us).value.0) + ParseColumnDef(us).value.1
    {
      ColumnWritten(us);
    }
    var name := ParseIdent(ts[1..][1..]).value;
    IdentWritten(ts[1..][1..]);
    EnclosedWritten(ParseColumnDef, PrintColumn, name.1);
    assert ts == [CREATE, TABLE] + ts[1..][1..];
  }

  lemma NamesWritten(ts: Tokens)
    requires ParseNames(ts).Some?
    ensures ts == PrintNames(ParseNames(ts).value.0) + ParseNames(ts).value.1
  {
    hide ParseEnclosed, ParseIdent, Enclose, PrintName;
    if Starts(ts, LPAREN) {
      forall us: Tokens
        ensures ParseIdent(us).Some? ==> us == PrintName(ParseIdent(us).value.0) + ParseIdent(us).value.1
      {
        IdentWritten(us);
      }
      EnclosedWritten(ParseIdent, PrintName, ts);
    }
  }

  lemma {:induction false} LiteralTailOk(done: seq<Value>, ts: Tokens)
    requires forall v <- done :: IsLiteral(v)
    ensures ListTail(ParseLiteral, done, ts).Some? ==> forall v <- ListTail(ParseLiteral, done, ts).value.0 :: IsLiteral(v)
    decreases |ts|
  {
    hide ParseLiteral;
    if Starts(ts, COMMA) {
      LiteralWritten(ts[1..]);
      var x := ParseLiteral(ts[1..]);
      if x.Some? && |x.value.1| < |ts| {
        LiteralTailOk(done + [x.value.0], x.value.1);
      }
    }
  }

  lemma LiteralsWritten(ts: Tokens)
    requires ParseEnclosed(ParseLiteral, ts).Some?
    ensures var (vs, rest) := ParseEnclosed(ParseLiteral, ts).value;
            vs != [] && (forall v <- vs :: IsLiteral(v)) && ts == Enclose(Parts(PrintLiteral, vs)) + rest
  {
    hide ParseLiteral, Enclose, PrintLiteral;
    forall us: Tokens
      ensures ParseLiteral(us).Some? ==> us == PrintLiteral(ParseLiteral(us).value.0) + ParseLiteral(us).value.1
    {
      LiteralWritten(us);
    }
    EnclosedWritten(ParseLiteral, PrintLiteral, ts);
    LiteralWritten(ts[1..]);
    LiteralTailOk([ParseLiteral(ts[1..]).value.0], ParseLiteral(ts[1..]).value.1);
  }

  lemma InsertWritten(ts: Tokens)
    requires ParseInsert(ts).Some?
    ensures var (s, rest) := ParseInsert(ts).value;
            s.Insert? && IsStatement(s) && FormOf(Form([], None), s) && ts == Print(s, Form([], None)) + rest
  {
    hide ParseEnclosed, ParseNames, ParseLiteral, ParseIdent, Enclose, PrintNames, PrintLiteral, Parts;
    var table := ParseIdent(ts[1..][1..]).value;
    IdentWritten(ts[1..][1..]);
    NamesWritten(table.1);
    var names := ParseNames(table.1).value;
    LiteralsWritten(names.1[1..]);
    assert ts == [INSERT, INTO] + ts[1..][1..] && names.1 == [VALUES] + names.1[1..];
  }

  lemma ItemListWritten(ts: Tokens)
    requires ParseItems(ts).Some?
    ensures var (q, rest) := ParseItems(ts).value; (q.0 <==> q.1 == []) && ts == PrintItems(q.0, q.1) + rest
  {
    hide ParseList, PrintList, ParseSelectItem, PrintItem;
    if Starts(ts, STAR) {
      assert ts == [STAR] + ts[1..];
    } else {
      forall us: Tokens
        ensures ParseSelectItem(us).Some? ==> us == PrintItem(ParseSelectItem(us).value.0) + ParseSelectItem(us).value.1
      {
        ItemWritten(us);
      }
      ListWritten(ParseSelectItem, PrintItem, ts);
    }
  }

  lemma FromWritten(isStar: bool, items: seq<SelectItem>, ts: Tokens) returns (f: Form)
    requires (isStar <==> items == []) && ParseFrom(isStar, items, ts).Some?
    ensures var (s, rest) := ParseFrom(isStar, items, ts).value;
            && s.Select? && IsStatement(s) && FormOf(f, s) && s.select.isStar == isStar && s.select.items == items
            && ts == [FROM] + PrintRef(s.select.from) + PrintJoins(s.select.joins, f.ons) + PrintWhere(f.where) + rest
  {
    hide ParseTableRef, JoinsTail, ParseWhere, PrintRef, PrintJoins, PrintWhere;
    RefWritten(ts[1..]);
    var from := ParseTableRef(ts[1..]).value;
    var joins, ons := JoinsTailWritten([], from.1);
    var all := JoinsTail([], from.1).value;
    assert [] + joins == joins;
    var where := WhereClauseWritten(all.1);
    f := Form(ons, where);
    assert ts == [FROM] + ts[1..];
    JoinsAre(joins, ons);
  }

  lemma JoinsAre(joins: seq<JoinClause>, ons: seq<Writing>)
    requires JoinsWritten(ons, joins)
    ensures forall j <- joins :: IsCondition(j.on)
  {
    forall j | j in joins
      ensures IsCondition(j.on)
    {
      var k :| 0 <= k < |joins| && joins[k] == j;
      assert Writes(ons[k], joins[k].on);
    }
  }

  lemma SelectWritten(ts: Tokens) returns (f: Form)
    requires ParseSelect(ts).Some?
    ensures var (s, rest) := ParseSelect(ts).value; s.Select? && IsStatement(s) && FormOf(f, s) && ts == Print(s, f) + rest
  {
    hide ParseItems, ParseFrom, PrintItems, PrintRef, PrintJoins, PrintWhere, IsStatement, FormOf;
    ItemListWritten(ts[1..]);
    var items := ParseItems(ts[1..]).value;
    f := FromWritten(items.0.0, items.0.1, items.1);
    SelectSpelled(ParseSelect(ts).value.0, f, ts, items.1, ParseSelect(ts).value.1);
  }

  lemma SelectSpelled(s: Statement, f: Form, ts: Tokens, from: Tokens, rest: Tokens)
    requires s.Select? && IsStatement(s) && FormOf(f, s)
    requires Starts(ts, SELECT) && ts[1..] == PrintItems(s.select.isStar, s.select.items) + from
    requires from == [FROM] + PrintRef(s.select.from) + PrintJoins(s.select.joins, f.ons) + PrintWhere(f.where) + rest
    ensures ts == Print(s, f) + rest
  {
    hide PrintItems, PrintRef, PrintJoins, PrintWhere;
    assert Print(s, f) + rest == [SELECT] + (PrintItems(s.select.isStar, s.select.items) + from);
    assert ts == [SELECT] + ts[1..];
  }

  lemma BodyWritten(ts: Tokens) returns (f: Form)
    requires ParseBody(ts).Some?
    ensures var (s, rest) := ParseBody(ts).value; IsStatement(s) && FormOf(f, s) && ts == Print(s, f) + rest
  {
    hide ParseCreate, ParseInsert, ParseSelect, Print, IsStatement, FormOf;
    f := Form([], None);
    if Starts(ts, CREATE) {
      CreateWritten(ts);
    } else if Starts(ts, INSERT) {
      InsertWritten(ts);
    } else {
      f := SelectWritten(ts);
    }
  }

  /** The tokens that parse to a statement are exactly its writings. */
  lemma ParsedIsWritten(s: Statement, ts: Tokens)
    ensures ParseStatement(ts) == Some(s) <==> exists f, semicolon :: WritesStatement(s, f, semicolon, ts)
  {
    hide ParseBody, Print, IsStatement, FormOf;
    if ParseStatement(ts) == Some(s) {
      var f := BodyWritten(ts);
      var rest := ParseBody(ts).value.1;
      var semicolon := Starts(rest, SEMICOLON);
      if semicolon {
        assert rest == [SEMICOLON] + rest[1..];
      }
      assert Ending(semicolon) <= rest;
      assert Print(s, f) + Ending(semicolon) <= Print(s, f) + rest;
      assert WritesStatement(s, f, semicolon, ts);
    }
    if f, semicolon :| WritesStatement(s, f, semicolon, ts) {
      StatementBack(s, f, semicolon, ts);
    }
  }
}
