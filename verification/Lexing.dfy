/** From characters to tokens: what the lexer computes, a spelling for tokens, and the round trip. */
module Lexing {
  import opened Pages
  import opened Query
  import opened Grammar
  import opened Statements

  predicate IsSpace(c: char) {
    c == ' ' || ('\t' <= c <= '\r')
  }

  predicate IsDigit(c: char) {
    '0' <= c <= '9'
  }

  predicate IsUpper(c: char) {
    'A' <= c <= 'Z'
  }

  predicate IsAlpha(c: char) {
    IsUpper(c) || 'a' <= c <= 'z'
  }

  predicate IsWordStart(c: char) {
    IsAlpha(c) || c == '_'
  }

  predicate IsWord(c: char) {
    IsAlpha(c) || IsDigit(c) || c == '_'
  }

  function Upper(s: string): (r: string)
    ensures |r| == |s|
  {
    seq(|s|, i requires 0 <= i < |s| => if 'a' <= s[i] <= 'z' then s[i] - 'a' + 'A' else s[i])
  }

  /** The length of the longest prefix of word characters (of digits). */
  function Span(s: string, digits: bool): (n: nat)
    ensures n <= |s|
  {
    if s != [] && (if digits then IsDigit(s[0]) else IsWord(s[0])) then 1 + Span(s[1..], digits) else 0
  }

  // ---------- words ----------

  function Keywords(): map<string, Token> {
    map["CREATE" := CREATE, "TABLE" := TABLE, "INSERT" := INSERT, "INTO" := INTO, "VALUES" := VALUES,
        "SELECT" := SELECT, "FROM" := FROM, "WHERE" := WHERE, "JOIN" := JOIN, "ON" := ON, "AS" := AS, "AND" := AND,
        "OR" := OR, "PRIMARY" := PRIMARY, "KEY" := KEY, "INTEGER" := INTEGER_TYPE, "TEXT" := TEXT_TYPE]
  }

  /** A keyword in any case, or an identifier as written. */
  function WordToken(text: string): Token {
    if Upper(text) in Keywords() then Keywords()[Upper(text)] else IDENTIFIER(text)
  }

  // ---------- numbers ----------

  const MAX_LITERAL: nat := 0x7FFF_FFFF_FFFF_FFFF

  function Number(digits: string): nat
    requires forall c <- digits :: IsDigit(c)
  {
    if digits == [] then 0
    else
      assert forall c <- digits[..|digits| - 1] :: c in digits;
      assert IsDigit(digits[|digits| - 1]);
      10 * Number(digits[..|digits| - 1]) + (digits[|digits| - 1] - '0') as nat
  }

  // ---------- strings ----------

  /** The contents of a string literal whose opening quote has been read, and what follows it. */
  function StringBody(s: string): (r: Option<(string, string)>)
    ensures r.Some? ==> |r.value.1| < |s|
  {
    if s == [] then None
    else if s[0] != '\'' then
      Attach([s[0]], StringBody(s[1..]))
    else if |s| > 1 && s[1] == '\'' then
      Attach(['\''], StringBody(s[2..]))
    else Some(([], s[1..]))
  }

  // ---------- one token ----------

  /** The operator at the front, and its length. */
  function Symbol(s: string): (r: Option<(Token, nat)>)
    requires s != []
    ensures r.Some? ==> 0 < r.value.1 <= |s|
  {
    var eq := |s| > 1 && s[1] == '=';
    match s[0]
    case '*' => Some((STAR, 1))
    case ',' => Some((COMMA, 1))
    case '.' => Some((DOT, 1))
    case ';' => Some((SEMICOLON, 1))
    case '(' => Some((LPAREN, 1))
    case ')' => Some((RPAREN, 1))
    case '=' => Some((EQ, 1))
    case '<' => if eq then Some((LTE, 2)) else Some((LT, 1))
    case '>' => if eq then Some((GTE, 2)) else Some((GT, 1))
    case '!' => if eq then Some((NEQ, 2)) else None
    case _ => None
  }

  lemma {:induction false} SpanDigits(s: string)
    ensures forall c <- s[..Span(s, true)] :: IsDigit(c)
  {
    if s != [] && IsDigit(s[0]) {
      SpanDigits(s[1..]);
      assert s[..Span(s, true)] == [s[0]] + s[1..][..Span(s[1..], true)];
    }
  }

  function NumberToken(s: string): Option<Token> {
    SpanDigits(s);
    var n := Number(s[..Span(s, true)]);
    if n <= MAX_LITERAL then Some(INTEGER_LITERAL(n)) else None
  }

  /** The first token of a text that does not start with a space, and the text after it. */
  function LexOne(s: string): (r: Option<(Token, string)>)
    requires s != []
    ensures r.Some? ==> |r.value.1| < |s|
  {
    if IsWordStart(s[0]) then Some((WordToken(s[..Span(s, false)]), s[Span(s, false)..]))
    else if IsDigit(s[0]) then
      var t := NumberToken(s);
      if t.None? then None else Some((t.value, s[Span(s, true)..]))
    else if s[0] == '\'' then
      var body := StringBody(s[1..]);
      if body.None? then None else Some((STRING_LITERAL(body.value.0), body.value.1))
    else
      var symbol := Symbol(s);
      if symbol.None? then None else Some((symbol.value.0, s[symbol.value.1..]))
  }

  /** All tokens, with the final END_OF_INPUT. */
  function Lex(s: string): Option<Tokens>
    decreases |s|
  {
    if s == [] then Some([END_OF_INPUT])
    else if IsSpace(s[0]) then Lex(s[1..])
    else
      var first := LexOne(s);
      if first.None? then None else Prepend([first.value.0], Lex(first.value.1))
  }

  function Prepend(done: Tokens, rest: Option<Tokens>): Option<Tokens> {
    if rest.None? then None else Some(done + rest.value)
  }

  /** The tokens of any text end with the only END_OF_INPUT, as the parser requires. */
  lemma {:induction false} LexEnds(s: string)
    ensures Lex(s).Some? ==>
              var ts := Lex(s).value; ts != [] && forall k :: 0 <= k < |ts| ==> (ts[k].END_OF_INPUT? <==> k == |ts| - 1)
    decreases |s|
  {
    if s != [] {
      if IsSpace(s[0]) {
        LexEnds(s[1..]);
      } else if LexOne(s).Some? {
        LexEnds(LexOne(s).value.1);
        NotEnd(s);
      }
    }
  }

  lemma KeywordsNotEnd()
    ensures forall w <- Keywords() :: !Keywords()[w].END_OF_INPUT?
  {
  }

  lemma NotEnd(s: string)
    requires s != []
    ensures LexOne(s).Some? ==> !LexOne(s).value.0.END_OF_INPUT?
  {
    hide Keywords;
    KeywordsNotEnd();
  }

  // ---------- how tokens are written ----------

  /** Space, tab, line feed, vertical tab, form feed, carriage return. */
  const SPACES: set<char> := {' ', '\t', '\n', '\U{0B}', '\U{0C}', '\r'}

  const DIGITS: set<char> := {'0', '1', '2', '3', '4', '5', '6', '7', '8', '9'}

  const CAPITALS: set<char> :=
    {'A', 'B', 'C', 'D', 'E', 'F', 'G', 'H', 'I', 'J', 'K', 'L', 'M', 'N', 'O', 'P', 'Q', 'R', 'S', 'T', 'U', 'V', 'W', 'X', 'Y', 'Z'}

  /** `c` is the letter `k`, a capital, or that letter in lower case. */
  predicate SameLetter(c: char, k: char) {
    c == k || c as int == k as int + 32
  }

  /** The capitals of `k`, each in either case. */
  predicate AnyCase(w: string, k: string) {
    |w| == |k| && forall i :: 0 <= i < |k| ==> k[i] in CAPITALS && SameLetter(w[i], k[i])
  }

  /** A letter of either case or an underscore, and for `digits` also a digit. */
  ghost predicate NameChar(c: char, digits: bool) {
    c == '_' || (exists k <- CAPITALS :: SameLetter(c, k)) || (digits && c in DIGITS)
  }

  function Decimal(n: nat): (r: string)
    ensures r != [] && forall c <- r :: IsDigit(c)
  {
    var digit := ['0' + (n % 10) as char];
    if n < 10 then digit else Decimal(n / 10) + digit
  }

  function Zeros(k: nat): (r: string)
    ensures |r| == k && forall c <- r :: IsDigit(c)
  {
    seq(k, _ => '0')
  }

  /** Quotes doubled. */
  function Escape(s: string): string {
    if s == [] then [] else (if s[0] == '\'' then ['\'', '\''] else [s[0]]) + Escape(s[1..])
  }

  function Word(t: Token): string {
    match t
    case CREATE => "CREATE"
    case TABLE => "TABLE"
    case INSERT => "INSERT"
    case INTO => "INTO"
    case VALUES => "VALUES"
    case SELECT => "SELECT"
    case FROM => "FROM"
    case WHERE => "WHERE"
    case JOIN => "JOIN"
    case ON => "ON"
    case AS => "AS"
    case AND => "AND"
    case OR => "OR"
    case PRIMARY => "PRIMARY"
    case KEY => "KEY"
    case INTEGER_TYPE => "INTEGER"
    case TEXT_TYPE => "TEXT"
    case _ => ""
  }

  function Sign(t: Token): string {
    match t
    case STAR => "*"
    case COMMA => ","
    case DOT => "."
    case SEMICOLON => ";"
    case LPAREN => "("
    case RPAREN => ")"
    case EQ => "="
    case NEQ => "!="
    case LT => "<"
    case LTE => "<="
    case GT => ">"
    case GTE => ">="
    case _ => ""
  }

  /** A letter or an underscore and then letters, digits and underscores, but not a keyword in any case. */
  ghost predicate IsName(text: string) {
    && text != [] && NameChar(text[0], false) && (forall c <- text :: NameChar(c, true))
    && forall t :: Word(t) != "" ==> !AnyCase(text, Word(t))
  }

  /** The word stands for the token: keywords in any case, numbers with any leading zeros, strings with quotes doubled. */
  ghost predicate Spells(t: Token, w: string) {
    match t
    case IDENTIFIER(text) => w == text && IsName(text)
    case INTEGER_LITERAL(n) => n <= MAX_LITERAL && exists k :: w == Zeros(k) + Decimal(n)
    case STRING_LITERAL(chars) => w == ['\''] + (Escape(chars) + ['\''])
    case END_OF_INPUT => false
    case _ => if Word(t) != "" then AnyCase(w, Word(t)) else w == Sign(t)
  }

  /** A token, the word it is written as, and the space after it. */
  datatype Piece = Piece(token: Token, word: string, gap: string)

  function TextOf(ps: seq<Piece>): string {
    if ps == [] then [] else ps[0].word + (ps[0].gap + TextOf(ps[1..]))
  }

  function TokensOf(ps: seq<Piece>): (ts: Tokens)
    ensures |ts| == |ps| && forall k :: 0 <= k < |ps| ==> ts[k] == ps[k].token
  {
    seq(|ps|, k requires 0 <= k < |ps| => ps[k].token)
  }

  predicate IsGap(s: string) {
    forall c <- s :: c in SPACES
  }

  predicate IsWordToken(t: Token) {
    t.IDENTIFIER? || Word(t) != ""
  }

  /** Written without space between them, these two would be read as something else. */
  predicate Merges(t: Token, u: Token) {
    || (IsWordToken(t) && (IsWordToken(u) || u.INTEGER_LITERAL?))
    || (t.INTEGER_LITERAL? && u.INTEGER_LITERAL?)
    || (t.STRING_LITERAL? && u.STRING_LITERAL?)
    || ((t.LT? || t.GT?) && u.EQ?)
  }

  ghost predicate Spelled(ps: seq<Piece>) {
    && (forall k :: 0 <= k < |ps| ==> Spells(ps[k].token, ps[k].word) && IsGap(ps[k].gap))
    && (forall k :: 0 < k < |ps| && Merges(ps[k - 1].token, ps[k].token) ==> ps[k - 1].gap != "")
  }

  /** The text is these tokens, each written in some way, with space wherever it is wanted and where it is needed. */
  ghost predicate SpellsText(lead: string, ps: seq<Piece>, text: string) {
    IsGap(lead) && Spelled(ps) && text == lead + TextOf(ps)
  }

  // ---------- character classes ----------

  lemma SpaceIs(c: char)
    ensures IsSpace(c) <==> c in SPACES
  {
  }

  lemma DigitIs(c: char)
    ensures IsDigit(c) <==> c in DIGITS
  {
  }

  lemma CapitalIs(c: char)
    ensures IsUpper(c) <==> c in CAPITALS
  {
  }

  lemma NameCharIs(c: char)
    ensures IsWordStart(c) <==> NameChar(c, false)
    ensures IsWord(c) <==> NameChar(c, true)
  {
    CapitalIs(c);
    DigitIs(c);
    hide CAPITALS, DIGITS;
    if 'a' <= c <= 'z' {
      var k := (c as int - 32) as char;
      CapitalIs(k);
      assert k in CAPITALS && SameLetter(c, k);
    }
    if k :| k in CAPITALS && SameLetter(c, k) {
      CapitalIs(k);
    }
  }

  lemma NamePrefix(text: string)
    ensures (text != [] && IsWordStart(text[0]) && forall c <- text :: IsWord(c))
       <==> (text != [] && NameChar(text[0], false) && forall c <- text :: NameChar(c, true))
  {
    hide NameChar, IsWord, IsWordStart;
    forall c: char
      ensures IsWordStart(c) <==> NameChar(c, false)
      ensures IsWord(c) <==> NameChar(c, true)
    {
      NameCharIs(c);
    }
  }

  // ---------- keywords ----------

  lemma WordIsKeyword(t: Token)
    requires Word(t) != ""
    ensures Word(t) in Keywords() && Keywords()[Word(t)] == t
  {
  }

  lemma KeywordIsWord(w: string)
    requires w in Keywords()
    ensures w != "" && Word(Keywords()[w]) == w
  {
  }

  lemma WordIsUpper(t: Token)
    ensures forall c <- Word(t) :: IsUpper(c)
  {
  }

  lemma UpperIs(w: string, k: string)
    requires forall c <- k :: IsUpper(c)
    ensures Upper(w) == k <==> AnyCase(w, k)
  {
    hide CAPITALS;
    if |w| == |k| {
      forall i | 0 <= i < |k|
        ensures Upper(w)[i] == k[i] <==> k[i] in CAPITALS && SameLetter(w[i], k[i])
      {
        assert k[i] in k;
        CapitalIs(k[i]);
      }
      assert AnyCase(w, k) ==> Upper(w) == k;
    }
  }

  /** A word in any case of a keyword's letters is that keyword. */
  lemma WordTokenIs(t: Token, w: string)
    requires Word(t) != ""
    ensures WordToken(w) == t <==> AnyCase(w, Word(t))
  {
    hide Keywords, AnyCase, Upper, Word;
    WordIsUpper(t);
    WordIsKeyword(t);
    UpperIs(w, Word(t));
    if Upper(w) in Keywords() {
      KeywordIsWord(Upper(w));
    } else {
      NotIdentifier(t);
    }
  }

  lemma NotIdentifier(t: Token)
    requires Word(t) != ""
    ensures !t.IDENTIFIER?
  {
  }

  /** Any other word is an identifier. */
  lemma WordTokenName(w: string)
    ensures WordToken(w).IDENTIFIER? <==> forall t :: Word(t) != "" ==> !AnyCase(w, Word(t))
    ensures WordToken(w).IDENTIFIER? ==> WordToken(w).text == w
    ensures !WordToken(w).IDENTIFIER? ==> Word(WordToken(w)) != "" && AnyCase(w, Word(WordToken(w)))
  {
    hide Keywords, AnyCase, Upper, Word;
    forall t | Word(t) != ""
      ensures WordToken(w) == t <==> AnyCase(w, Word(t))
      ensures !t.IDENTIFIER?
    {
      WordTokenIs(t, w);
      NotIdentifier(t);
    }
    if Upper(w) in Keywords() {
      KeywordIsWord(Upper(w));
    }
  }

  // ---------- numbers ----------

  lemma {:induction false} ZerosAre(k: nat)
    ensures Number(Zeros(k)) == 0
  {
    if k > 0 {
      assert Zeros(k)[..k - 1] == Zeros(k - 1);
      ZerosAre(k - 1);
    }
  }

  lemma PaddedDigits(k: nat, n: nat)
    ensures forall c <- Zeros(k) + Decimal(n) :: IsDigit(c)
  {
  }

  lemma {:induction false} NumberBack(k: nat, n: nat)
    ensures forall c <- Zeros(k) + Decimal(n) :: IsDigit(c)
    ensures Number(Zeros(k) + Decimal(n)) == n
  {
    PaddedDigits(k, n);
    var digits := Zeros(k) + Decimal(n);
    if n >= 10 {
      NumberBack(k, n / 10);
      assert digits[..|digits| - 1] == Zeros(k) + Decimal(n / 10);
    } else {
      ZerosAre(k);
      assert digits[..|digits| - 1] == Zeros(k);
    }
  }

  lemma DecimalMore(m: nat, digit: nat)
    requires m > 0 && digit < 10
    ensures Decimal(10 * m + digit) == Decimal(m) + ['0' + digit as char]
  {
    assert (10 * m + digit) / 10 == m && (10 * m + digit) % 10 == digit;
  }

  lemma DecimalDigit(digit: nat)
    requires digit < 10
    ensures Decimal(digit) == ['0' + digit as char] && Zeros(0) == []
  {
  }

  lemma ZerosMore(j: nat)
    ensures Zeros(j) + Decimal(0) == Zeros(j + 1)
  {
  }

  lemma {:induction false} NumberWritten(w: string) returns (k: nat)
    requires w != [] && forall c <- w :: IsDigit(c)
    ensures w == Zeros(k) + Decimal(Number(w))
  {
    hide Decimal, Zeros;
    var front, last := w[..|w| - 1], w[|w| - 1];
    assert w == front + [last] && last in w && (forall c <- front :: c in w);
    var digit := (last - '0') as nat;
    assert digit < 10 && last == '0' + digit as char;
    DecimalDigit(digit);
    if front == [] {
      k := 0;
    } else {
      var j := NumberWritten(front);
      var m := Number(front);
      assert Number(w) == 10 * m + digit;
      if m == 0 {
        k := j + 1;
        ZerosMore(j);
      } else {
        k := j;
        DecimalMore(m, digit);
        assert Zeros(k) + (Decimal(m) + [last]) == w;
      }
    }
  }

  // ---------- strings ----------

  lemma {:induction false} StringBack(chars: string, rest: string)
    requires rest == [] || rest[0] != '\''
    ensures StringBody(Escape(chars) + (['\''] + rest)) == Some((chars, rest))
  {
    hide StringBody;
    var end := ['\''] + rest;
    if chars == [] {
      assert Escape(chars) + end == end;
      BodyEnd(rest);
    } else {
      StringBack(chars[1..], rest);
      var tail := Escape(chars[1..]) + end;
      EscapeStep(chars, end);
      assert chars == [chars[0]] + chars[1..];
      if chars[0] == '\'' {
        BodyQuote(tail);
      } else {
        BodyChar(chars[0], tail);
      }
    }
  }

  lemma EscapeStep(chars: string, end: string)
    requires chars != []
    ensures Escape(chars) + end == (if chars[0] == '\'' then ['\'', '\''] else [chars[0]]) + (Escape(chars[1..]) + end)
  {
  }

  lemma BodyQuote(tail: string)
    requires StringBody(tail).Some?
    ensures StringBody(['\'', '\''] + tail) == Some((['\''] + StringBody(tail).value.0, StringBody(tail).value.1))
  {
    assert (['\'', '\''] + tail)[2..] == tail;
  }

  lemma BodyChar(c: char, tail: string)
    requires StringBody(tail).Some? && c != '\''
    ensures StringBody([c] + tail) == Some(([c] + StringBody(tail).value.0, StringBody(tail).value.1))
  {
    assert ([c] + tail)[1..] == tail;
  }

  lemma BodyEnd(rest: string)
    requires rest == [] || rest[0] != '\''
    ensures StringBody(['\''] + rest) == Some(([], rest))
  {
    assert (['\''] + rest)[1..] == rest;
  }

  /** What is read as the contents of a string is those contents with quotes doubled, and ends at a single quote. */
  lemma {:induction false} StringWritten(s: string)
    requires StringBody(s).Some?
    ensures var (chars, rest) := StringBody(s).value;
            s == Escape(chars) + (['\''] + rest) && (rest == [] || rest[0] != '\'')
    decreases |s|
  {
    var (chars, rest) := StringBody(s).value;
    var end := ['\''] + rest;
    if s[0] != '\'' {
      StringWritten(s[1..]);
      assert chars[1..] == StringBody(s[1..]).value.0;
      EscapeStep(chars, end);
      assert s == [s[0]] + s[1..];
    } else if |s| > 1 && s[1] == '\'' {
      StringWritten(s[2..]);
      assert chars[1..] == StringBody(s[2..]).value.0;
      EscapeStep(chars, end);
      assert s == ['\'', '\''] + s[2..];
    } else {
      assert Escape([]) + end == end;
      assert s == ['\''] + s[1..];
    }
  }

  // ---------- one token ----------

  /** What follows does not belong to the token. */
  predicate Stops(t: Token, rest: string) {
    rest == [] || match t
                  case INTEGER_LITERAL(_) => !IsDigit(rest[0])
                  case STRING_LITERAL(_) => rest[0] != '\''
                  case LT => rest[0] != '='
                  case GT => rest[0] != '='
                  case _ => IsWordToken(t) ==> !IsWord(rest[0])
  }

  lemma {:induction false} SpanStops(w: string, rest: string, digits: bool)
    requires forall c <- w :: if digits then IsDigit(c) else IsWord(c)
    requires rest == [] || !(if digits then IsDigit(rest[0]) else IsWord(rest[0]))
    ensures Span(w + rest, digits) == |w| && (w + rest)[..|w|] == w && (w + rest)[|w|..] == rest
  {
    if w == [] {
      assert w + rest == rest;
    } else {
      assert (w + rest)[1..] == w[1..] + rest;
      assert w[0] in w && forall c <- w[1..] :: c in w;
      SpanStops(w[1..], rest, digits);
    }
  }

  lemma {:induction false} SpanIs(s: string, digits: bool)
    ensures var n := Span(s, digits);
            && (forall c <- s[..n] :: if digits then IsDigit(c) else IsWord(c))
            && (n < |s| ==> !(if digits then IsDigit(s[n]) else IsWord(s[n])))
  {
    var n := Span(s, digits);
    if n > 0 {
      SpanIs(s[1..], digits);
      assert s[..n] == [s[0]] + s[1..][..n - 1];
    }
  }

  lemma WordBack(text: string, rest: string)
    requires text != [] && IsWordStart(text[0]) && (forall c <- text :: IsWord(c)) && (rest == [] || !IsWord(rest[0]))
    ensures LexOne(text + rest) == Some((WordToken(text), rest))
  {
    hide WordToken;
    SpanStops(text, rest, false);
  }

  /** A keyword in any case, whatever stops the word. */
  lemma KeywordLexed(t: Token, w: string, rest: string)
    requires Word(t) != "" && AnyCase(w, Word(t)) && (rest == [] || !IsWord(rest[0]))
    ensures w != [] && IsWordStart(w[0]) && LexOne(w + rest) == Some((t, rest))
  {
    WordIsUpper(t);
    AnyCaseIsWord(w, Word(t));
    WordTokenIs(t, w);
    hide LexOne, Word, WordToken, AnyCase;
    WordBack(w, rest);
  }

  lemma AnyCaseIsWord(w: string, k: string)
    requires k != [] && AnyCase(w, k)
    ensures w != [] && IsWordStart(w[0]) && forall c <- w :: IsWord(c)
  {
    hide CAPITALS;
    forall i | 0 <= i < |w|
      ensures IsAlpha(w[i])
    {
      CapitalIs(k[i]);
    }
  }

  lemma NameLexed(text: string, rest: string)
    requires IsName(text) && (rest == [] || !IsWord(rest[0]))
    ensures IsWordStart(text[0]) && LexOne(text + rest) == Some((IDENTIFIER(text), rest))
  {
    NamePrefix(text);
    WordTokenName(text);
    hide LexOne, Word, WordToken, AnyCase, NameChar;
    WordBack(text, rest);
  }

  lemma NumberLexed(k: nat, n: nat, rest: string)
    requires n <= MAX_LITERAL && (rest == [] || !IsDigit(rest[0]))
    ensures var w := Zeros(k) + Decimal(n); w != [] && IsDigit(w[0]) && LexOne(w + rest) == Some((INTEGER_LITERAL(n), rest))
  {
    var w := Zeros(k) + Decimal(n);
    NumberBack(k, n);
    hide Decimal, Number, Keywords, Zeros;
    assert w[0] in w;
    SpanStops(w, rest, true);
  }

  lemma StringLexed(chars: string, rest: string)
    requires rest == [] || rest[0] != '\''
    ensures LexOne(['\''] + (Escape(chars) + ['\'']) + rest) == Some((STRING_LITERAL(chars), rest))
  {
    hide StringBody, Escape;
    var s := ['\''] + (Escape(chars) + ['\'']) + rest;
    assert s == ['\''] + (Escape(chars) + (['\''] + rest));
    assert s[1..] == Escape(chars) + (['\''] + rest);
    StringBack(chars, rest);
  }

  lemma SignBack(t: Token, rest: string)
    requires Sign(t) != "" && Stops(t, rest)
    ensures LexOne(Sign(t) + rest) == Some((t, rest)) && !IsSpace(Sign(t)[0])
  {
    var w := Sign(t);
    assert (w + rest)[|w|..] == rest;
    assert |w| == 1 && rest != [] ==> (w + rest)[1] == rest[0];
  }

  lemma HasSign(t: Token, w: string)
    requires Spells(t, w) && !t.IDENTIFIER? && !t.INTEGER_LITERAL? && !t.STRING_LITERAL? && Word(t) == ""
    ensures Sign(t) != "" && w == Sign(t)
  {
  }

  /** However a token is written, it is read as that token, up to what stops it. */
  lemma OneBack(t: Token, w: string, rest: string)
    requires Spells(t, w) && Stops(t, rest)
    ensures w != [] && !IsSpace(w[0]) && LexOne(w + rest) == Some((t, rest))
  {
    hide LexOne, Keywords, Word, Sign, Upper, Decimal, Zeros, Escape, AnyCase, IsName, Stops;
    if rest != [] {
      StopsIs(t, rest);
    }
    if t.IDENTIFIER? {
      NameLexed(t.text, rest);
      NameThere(t.text);
    } else if t.INTEGER_LITERAL? {
      var k: nat :| w == Zeros(k) + Decimal(t.number);
      NumberLexed(k, t.number, rest);
    } else if t.STRING_LITERAL? {
      StringLexed(t.chars, rest);
    } else {
      PlainBack(t, w, rest);
    }
  }

  lemma StopsIs(t: Token, rest: string)
    requires Stops(t, rest) && rest != []
    ensures t.INTEGER_LITERAL? ==> !IsDigit(rest[0])
    ensures t.STRING_LITERAL? ==> rest[0] != '\''
    ensures t.IDENTIFIER? || Word(t) != "" ==> !IsWord(rest[0])
  {
  }

  /** A keyword or a sign. */
  lemma PlainBack(t: Token, w: string, rest: string)
    requires Spells(t, w) && Stops(t, rest) && !t.IDENTIFIER? && !t.INTEGER_LITERAL? && !t.STRING_LITERAL?
    ensures w != [] && !IsSpace(w[0]) && LexOne(w + rest) == Some((t, rest))
  {
    hide LexOne, Word, Sign, AnyCase, Stops;
    if Word(t) != "" {
      if rest != [] {
        StopsIs(t, rest);
      }
      KeywordThere(t, w);
      KeywordLexed(t, w, rest);
    } else {
      HasSign(t, w);
      SignBack(t, rest);
    }
  }

  lemma KeywordThere(t: Token, w: string)
    requires Spells(t, w) && Word(t) != ""
    ensures AnyCase(w, Word(t))
  {
  }

  lemma NameThere(text: string)
    requires IsName(text)
    ensures text != []
  {
  }

  /** Whatever is read as a token is written in one of those ways and ends where the token stops. */
  lemma OneWritten(s: string) returns (w: string)
    requires s != [] && LexOne(s).Some?
    ensures var (t, rest) := LexOne(s).value; s == w + rest && Spells(t, w) && Stops(t, rest)
  {
    hide LexOne, Spells, Stops, WordToken;
    var (t, rest) := LexOne(s).value;
    w := s[..|s| - |rest|];
    if IsWordStart(s[0]) {
      WordWritten(s);
    } else if IsDigit(s[0]) {
      DigitsWritten(s);
    } else if s[0] == '\'' {
      QuoteWritten(s);
    } else {
      SignWritten(s);
    }
  }

  lemma WordWritten(s: string)
    requires s != [] && IsWordStart(s[0])
    ensures var n := Span(s, false);
            LexOne(s) == Some((WordToken(s[..n]), s[n..])) && Spells(WordToken(s[..n]), s[..n]) && Stops(WordToken(s[..n]), s[n..])
  {
    var n := Span(s, false);
    var w := s[..n];
    SpanIs(s, false);
    WordTokenName(w);
    NamePrefix(w);
    hide WordToken, Keywords, AnyCase, NameChar;
  }

  lemma QuoteWritten(s: string)
    requires s != [] && s[0] == '\'' && LexOne(s).Some?
    ensures var (t, rest) := LexOne(s).value;
            t.STRING_LITERAL? && s == ['\''] + (Escape(t.chars) + ['\'']) + rest && Spells(t, ['\''] + (Escape(t.chars) + ['\''])) && Stops(t, rest)
  {
    hide StringBody, Escape;
    StringWritten(s[1..]);
    assert s == ['\''] + s[1..];
  }

  lemma DigitsWritten(s: string)
    requires s != [] && !IsWordStart(s[0]) && IsDigit(s[0]) && LexOne(s).Some?
    ensures var (t, rest) := LexOne(s).value;
            rest == s[Span(s, true)..] && Spells(t, s[..Span(s, true)]) && Stops(t, rest)
  {
    SpanIs(s, true);
    SpanDigits(s);
    var k := NumberWritten(s[..Span(s, true)]);
  }

  lemma SignWritten(s: string)
    requires s != [] && !IsWordStart(s[0]) && !IsDigit(s[0]) && s[0] != '\'' && LexOne(s).Some?
    ensures var (t, rest) := LexOne(s).value; s == Sign(t) + rest && Spells(t, Sign(t)) && Stops(t, rest)
  {
    hide Keywords, Upper, StringBody, Number, Escape, AnyCase, IsName;
  }

  // ---------- whole texts ----------

  lemma LexSpace(c: char, rest: string)
    requires IsSpace(c)
    ensures Lex([c] + rest) == Lex(rest)
  {
    assert ([c] + rest)[1..] == rest;
  }

  lemma {:induction false} LexGap(gap: string, rest: string)
    requires IsGap(gap)
    ensures Lex(gap + rest) == Lex(rest)
  {
    hide Lex, SPACES;
    if gap == [] {
      assert gap + rest == rest;
    } else {
      assert gap[0] in gap && forall c <- gap[1..] :: c in gap;
      SpaceIs(gap[0]);
      LexGap(gap[1..], rest);
      LexSpace(gap[0], gap[1..] + rest);
      assert gap + rest == [gap[0]] + (gap[1..] + rest);
    }
  }

  lemma LexToken(s: string, t: Token, rest: string)
    requires s != [] && !IsSpace(s[0]) && LexOne(s) == Some((t, rest))
    ensures Lex(s) == Prepend([t], Lex(rest))
  {
    hide LexOne;
  }

  lemma LexNothing()
    ensures Lex([]) == Some([END_OF_INPUT])
  {
  }

  /** The first character of a written token. */
  lemma FirstChar(t: Token, w: string)
    requires Spells(t, w)
    ensures w != []
    ensures IsWordToken(t) <==> IsWordStart(w[0])
    ensures t.INTEGER_LITERAL? <==> IsDigit(w[0])
    ensures t.STRING_LITERAL? <==> w[0] == '\''
    ensures t.EQ? <==> w[0] == '='
    ensures IsWord(w[0]) <==> IsWordToken(t) || t.INTEGER_LITERAL?
  {
    hide Keywords, Upper, LexOne, Escape, Decimal, Zeros, AnyCase, NameChar;
    OneBack(t, w, []);
    assert w + [] == w;
    if t.IDENTIFIER? {
      NamePrefix(t.text);
    } else if Word(t) != "" {
      AnyCaseIsWord(w, Word(t));
    } else if t.INTEGER_LITERAL? {
      var k: nat :| w == Zeros(k) + Decimal(t.number);
      assert w[0] in w;
    }
  }

  /** Two tokens next to each other: the first stops at the second exactly if they do not merge. */
  lemma StopsApart(t: Token, v: string, u: Token, w: string, rest: string)
    requires Spells(t, v) && Spells(u, w)
    ensures w != [] && (Stops(t, w + rest) <==> !Merges(t, u))
  {
    FirstChar(u, w);
    hide Spells, Word, IsWord, IsDigit, IsWordStart;
    WordOnly(t);
    assert (w + rest)[0] == w[0];
  }

  lemma WordOnly(t: Token)
    ensures IsWordToken(t) ==> !t.INTEGER_LITERAL? && !t.STRING_LITERAL? && !t.LT? && !t.GT?
  {
  }

  lemma StopsGap(t: Token, gap: string, rest: string)
    requires gap != "" && IsGap(gap)
    ensures Stops(t, gap + rest)
  {
    assert gap[0] in gap;
    SpaceIs(gap[0]);
    assert (gap + rest)[0] == gap[0];
  }

  lemma FirstStops(ps: seq<Piece>)
    requires ps != [] && Spelled(ps)
    ensures Spells(ps[0].token, ps[0].word) && IsGap(ps[0].gap) && Spelled(ps[1..]) && Stops(ps[0].token, ps[0].gap + TextOf(ps[1..]))
  {
    hide Spells, Stops, Merges, IsGap;
    assert forall k :: 0 <= k < |ps[1..]| ==> ps[1..][k] == ps[k + 1];
    var p, rest := ps[0], TextOf(ps[1..]);
    if p.gap != "" {
      StopsGap(p.token, p.gap, rest);
    } else if |ps| > 1 {
      var q := ps[1];
      assert rest == q.word + (q.gap + TextOf(ps[1..][1..]));
      StopsApart(p.token, p.word, q.token, q.word, q.gap + TextOf(ps[1..][1..]));
      assert p.gap + rest == rest;
    } else {
      StopsEnd(p.token);
      assert p.gap + rest == [];
    }
  }

  lemma StopsEnd(t: Token)
    ensures Stops(t, [])
  {
  }

  /** Reading a spelled text gives back its tokens. */
  lemma {:induction false} LexBack(ps: seq<Piece>)
    requires Spelled(ps)
    ensures Lex(TextOf(ps)) == Some(TokensOf(ps) + [END_OF_INPUT])
  {
    hide LexOne, Spells, Spelled, IsSpace, Lex, Stops, IsGap;
    if ps == [] {
      LexNothing();
      assert TokensOf(ps) + [END_OF_INPUT] == [END_OF_INPUT];
    } else {
      var p, rest := ps[0], TextOf(ps[1..]);
      FirstStops(ps);
      OneBack(p.token, p.word, p.gap + rest);
      LexBack(ps[1..]);
      LexGap(p.gap, rest);
      LexToken(p.word + (p.gap + rest), p.token, p.gap + rest);
      assert [p.token] + (TokensOf(ps[1..]) + [END_OF_INPUT]) == TokensOf(ps) + [END_OF_INPUT];
    }
  }

  lemma MorePieces(p: Piece, ps: seq<Piece>)
    requires Spells(p.token, p.word) && IsGap(p.gap) && Spelled(ps) && Stops(p.token, p.gap + TextOf(ps))
    ensures Spelled([p] + ps) && TextOf([p] + ps) == p.word + (p.gap + TextOf(ps)) && TokensOf([p] + ps) == [p.token] + TokensOf(ps)
  {
    hide Spells, Stops, Merges, IsGap;
    assert ([p] + ps)[1..] == ps;
    if p.gap == "" && ps != [] {
      var q := ps[0];
      assert p.gap + TextOf(ps) == q.word + (q.gap + TextOf(ps[1..]));
      StopsApart(p.token, p.word, q.token, q.word, q.gap + TextOf(ps[1..]));
    }
  }

  /** Whatever can be read is a spelled text. */
  lemma {:induction false} LexWritten(s: string) returns (lead: string, ps: seq<Piece>)
    requires Lex(s).Some?
    ensures SpellsText(lead, ps, s) && Lex(s).value == TokensOf(ps) + [END_OF_INPUT]
    decreases |s|
  {
    hide LexOne, Spells, Stops, IsSpace, Spelled, SPACES;
    if s == [] {
      lead, ps := [], [];
      NoPieces();
    } else if IsSpace(s[0]) {
      lead, ps := LexWritten(s[1..]);
      SpaceIs(s[0]);
      lead := [s[0]] + lead;
      assert s == [s[0]] + s[1..];
    } else {
      var (t, rest) := LexOne(s).value;
      var w := OneWritten(s);
      var gap, more := LexWritten(rest);
      var p := Piece(t, w, gap);
      MorePieces(p, more);
      lead, ps := [], [p] + more;
      assert [t] + (TokensOf(more) + [END_OF_INPUT]) == TokensOf(ps) + [END_OF_INPUT];
      assert [] + TextOf(ps) == TextOf(ps);
    }
  }

  lemma NoPieces()
    ensures SpellsText([], [], []) && TokensOf([]) == []
  {
  }

  /** The lexer reads exactly the spelled texts. */
  lemma LexedIsSpelled(s: string, ts: Tokens)
    ensures Lex(s) == Some(ts) <==> exists lead, ps :: SpellsText(lead, ps, s) && ts == TokensOf(ps) + [END_OF_INPUT]
  {
    hide Lex, Spelled, IsGap;
    if Lex(s) == Some(ts) {
      var lead, ps := LexWritten(s);
    }
    if lead, ps :| SpellsText(lead, ps, s) && ts == TokensOf(ps) + [END_OF_INPUT] {
      LexGap(lead, TextOf(ps));
      LexBack(ps);
    }
  }

  // ---------- the lexer ----------

  class Lexer {
    const source: string
    var pos: nat

    ghost predicate Valid()
      reads this
    {
      pos <= |source|
    }

    ghost function Rest(): string
      requires Valid()
      reads this
    {
      source[pos..]
    }

    constructor (s: string)
      ensures Valid() && source == s && pos == 0
    {
      source, pos := s, 0;
    }

    method SkipWhitespace()
      requires Valid()
      modifies this`pos
      ensures Valid() && pos >= old(pos) && Lex(Rest()) == Lex(old(Rest()))
      ensures Rest() != [] ==> !IsSpace(Rest()[0])
    {
      hide LexOne;
      while pos < |source| && IsSpace(source[pos])
        invariant Valid() && pos >= old(pos) && Lex(Rest()) == Lex(old(Rest()))
      {
        assert Rest()[1..] == source[pos + 1..];
        pos := pos + 1;
      }
    }

    /** The word characters (the digits) from the cursor on. */
    method Take(digits: bool) returns (text: string)
      requires Valid()
      modifies this`pos
      ensures Valid() && text == old(Rest())[..Span(old(Rest()), digits)] && Rest() == old(Rest())[Span(old(Rest()), digits)..]
      ensures pos == old(pos) + |text|
    {
      text := "";
      assert old(Rest())[..0] == "";
      while pos < |source| && (if digits then IsDigit(source[pos]) else IsWord(source[pos]))
        invariant Valid() && pos == old(pos) + |text| && text == old(Rest())[..|text|]
        invariant Span(old(Rest()), digits) == |text| + Span(Rest(), digits)
      {
        assert Rest()[1..] == source[pos + 1..];
        text := text + [source[pos]];
        pos := pos + 1;
      }
      assert Span(Rest(), digits) == 0;
    }

    method LexString() returns (value: Option<string>)
      requires Valid() && pos < |source|
      modifies this`pos
      ensures Valid() && pos > old(pos)
      ensures match StringBody(old(Rest())[1..]) case None => value.None? case Some(p) => value == Some(p.0) && Rest() == p.1
    {
      pos := pos + 1;
      assert Rest() == old(Rest())[1..];
      var text := "";
      ghost var body := StringBody(Rest());
      AttachNone(body);
      while true
        invariant Valid() && pos > old(pos)
        invariant body == Attach(text, StringBody(Rest()))
        decreases |source| - pos
      {
        if pos >= |source| {
          return None;
        }
        if source[pos] == '\'' {
          assert Rest()[1..] == source[pos + 1..];
          pos := pos + 1;
          if pos < |source| && source[pos] == '\'' {
            AttachOne(text, '\'', StringBody(source[pos + 1..]));
            text := text + ['\''];
            pos := pos + 1;
          } else {
            assert text + [] == text;
            return Some(text);
          }
        } else {
          assert Rest()[1..] == source[pos + 1..];
          AttachOne(text, source[pos], StringBody(source[pos + 1..]));
          text := text + [source[pos]];
          pos := pos + 1;
        }
      }
    }

    method LexSymbol() returns (t: Option<Token>)
      requires Valid() && pos < |source|
      modifies this`pos
      ensures Valid() && pos >= old(pos)
      ensures match Symbol(old(Rest()))
              case None => t.None?
              case Some(p) => t == Some(p.0) && pos > old(pos) && Rest() == old(Rest())[p.1..]
    {
      var c := source[pos];
      pos := pos + 1;
      assert Rest() == old(Rest())[1..];
      match c
      case '*' => return Some(STAR);
      case ',' => return Some(COMMA);
      case '.' => return Some(DOT);
      case ';' => return Some(SEMICOLON);
      case '(' => return Some(LPAREN);
      case ')' => return Some(RPAREN);
      case '=' => return Some(EQ);
      case '<' =>
        if pos < |source| && source[pos] == '=' {
          pos := pos + 1;
          return Some(LTE);
        }
        return Some(LT);
      case '>' =>
        if pos < |source| && source[pos] == '=' {
          pos := pos + 1;
          return Some(GTE);
        }
        return Some(GT);
      case '!' =>
        if pos < |source| && source[pos] == '=' {
          pos := pos + 1;
          return Some(NEQ);
        }
        return None;
      case _ => return None;
    }

    /** The next token. */
    method Next() returns (t: Option<Token>)
      requires Valid() && pos < |source|
      modifies this`pos
      ensures Valid() && pos >= old(pos)
      ensures match LexOne(old(Rest()))
              case None => t.None?
              case Some(p) => t == Some(p.0) && pos > old(pos) && Rest() == p.1
    {
      hide StringBody, Symbol, Keywords, Upper, Number;
      var c := source[pos];
      if IsWordStart(c) {
        var text := Take(false);
        return Some(WordToken(text));
      }
      if IsDigit(c) {
        var text := Take(true);
        SpanDigits(old(Rest()));
        var n := Number(text);
        return if n <= MAX_LITERAL then Some(INTEGER_LITERAL(n)) else None;
      }
      if c == '\'' {
        var value := LexString();
        return if value.None? then None else Some(STRING_LITERAL(value.value));
      }
      t := LexSymbol();
    }
  }

  method Tokenize(source: string) returns (r: Option<Tokens>)
    ensures r == Lex(source)
  {
    hide LexOne;
    var lexer := new Lexer(source);
    var tokens: Tokens := [];
    assert lexer.Rest() == source;
    PrependNone(Lex(source));
    while true
      invariant lexer.Valid() && lexer.source == source
      invariant Lex(source) == Prepend(tokens, Lex(lexer.Rest()))
      decreases |source| - lexer.pos
    {
      lexer.SkipWhitespace();
      if lexer.pos >= |source| {
        return Some(tokens + [END_OF_INPUT]);
      }
      ghost var before := lexer.Rest();
      var t := lexer.Next();
      if t.None? {
        return None;
      }
      assert Lex(before) == Prepend([t.value], Lex(lexer.Rest()));
      PrependTwo(tokens, t.value, Lex(lexer.Rest()));
      tokens := tokens + [t.value];
    }
  }

  /** Contents read so far, in front of the contents still to come. */
  function Attach(text: string, body: Option<(string, string)>): Option<(string, string)> {
    if body.None? then None else Some((text + body.value.0, body.value.1))
  }

  lemma AttachNone(body: Option<(string, string)>)
    ensures Attach([], body) == body
  {
    assert body.Some? ==> [] + body.value.0 == body.value.0;
  }

  lemma AttachOne(text: string, c: char, body: Option<(string, string)>)
    ensures Attach(text, Attach([c], body)) == Attach(text + [c], body)
  {
    assert body.Some? ==> text + ([c] + body.value.0) == text + [c] + body.value.0;
  }

  lemma PrependNone(rest: Option<Tokens>)
    ensures Prepend([], rest) == rest
  {
    assert rest.Some? ==> [] + rest.value == rest.value;
  }

  lemma PrependTwo(done: Tokens, t: Token, rest: Option<Tokens>)
    ensures Prepend(done, Prepend([t], rest)) == Prepend(done + [t], rest)
  {
    assert rest.Some? ==> done + ([t] + rest.value) == done + [t] + rest.value;
  }
}
