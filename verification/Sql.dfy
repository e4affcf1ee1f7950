/** The fragment of SQL a compiled listing query is written in: its lexical structure, its grammar
  * with the usual precedences (`NOT` over `AND` over `OR`), and its meaning on a component row. */
module Sql {
  import opened Wrappers
  import opened Text
  import Like

  // ---------------------------------------------------------------------------
  // Lexical structure
  // ---------------------------------------------------------------------------

  datatype Token =
    | LParen
    | RParen
    | Comma
    | Equals
    | Word(text: string)
    | Param(number: nat)
    | Literal(text: string)

  predicate IsWordChar(c: char) {
    'a' <= c <= 'z' || 'A' <= c <= 'Z' || c == '_'
  }

  predicate IsWord(s: string) {
    s != "" && forall i | 0 <= i < |s| :: IsWordChar(s[i])
  }

  /** Reads the body of a quoted literal up to its closing quote; a doubled quote stands for one. */
  function LexLiteral(s: string): (r: Option<(string, string)>)
    ensures r.Some? ==> |r.value.1| < |s|
  {
    if s == "" then None
    else if s[0] != '\'' then
      var (body, rest) :- LexLiteral(s[1..]);
      Some(([s[0]] + body, rest))
    else if |s| > 1 && s[1] == '\'' then
      var (body, rest) :- LexLiteral(s[2..]);
      Some(("'" + body, rest))
    else Some(("", s[1..]))
  }

  /** The first token of `s` and the text after it. */
  function NextToken(s: string): (r: Option<(Token, string)>)
    requires s != ""
    ensures r.Some? ==> |r.value.1| < |s|
  {
    if s[0] == '(' then Some((LParen, s[1..]))
    else if s[0] == ')' then Some((RParen, s[1..]))
    else if s[0] == ',' then Some((Comma, s[1..]))
    else if s[0] == '=' then Some((Equals, s[1..]))
    else if s[0] == '$' then
      var n := Span(s[1..], IsDigit);
      if n == 0 then None else Some((Param(DecimalValue(s[1..][..n])), s[1..][n..]))
    else if s[0] == '\'' then
      var (body, rest) :- LexLiteral(s[1..]);
      Some((Literal(body), rest))
    else
      var n := Span(s, IsWordChar);
      if n == 0 then None else Some((Word(s[..n]), s[n..]))
  }

  /** All tokens of `s`, or `None` when some character starts no token. */
  function Lex(s: string): Option<seq<Token>>
    decreases |s|
  {
    if s == "" then Some([])
    else if s[0] == ' ' then Lex(s[1..])
    else
      var (token, rest) :- NextToken(s);
      var tokens :- Lex(rest);
      Some([token] + tokens)
  }

  // ---------------------------------------------------------------------------
  // Spelling
  // ---------------------------------------------------------------------------

  /** A piece of query text: one space, or one token as it is written. */
  datatype Piece = Gap | Tok(token: Token)

  function Quoted(s: string): string {
    if s == "" then "" else (if s[0] == '\'' then "''" else [s[0]]) + Quoted(s[1..])
  }

  function Spell(piece: Piece): string {
    match piece
    case Gap => " "
    case Tok(LParen) => "("
    case Tok(RParen) => ")"
    case Tok(Comma) => ","
    case Tok(Equals) => "="
    case Tok(Word(text)) => text
    case Tok(Param(n)) => "$" + Decimal(n)
    case Tok(Literal(text)) => "'" + Quoted(text) + "'"
  }

  function Render(pieces: seq<Piece>): string {
    if pieces == [] then "" else Spell(pieces[0]) + Render(pieces[1..])
  }

  function TokensIn(pieces: seq<Piece>): seq<Token> {
    if pieces == [] then []
    else (if pieces[0].Tok? then [pieces[0].token] else []) + TokensIn(pieces[1..])
  }

  /** A piece that ends whatever token stands before it. */
  predicate IsBreak(piece: Piece) {
    piece.Gap? || piece.token in {LParen, RParen, Comma, Equals}
  }

  /** Words are words, and words, numbers and literals are followed by a break. */
  predicate WellSpaced(pieces: seq<Piece>) {
    && (forall i | 0 <= i < |pieces| && pieces[i].Tok? && pieces[i].token.Word? :: IsWord(pieces[i].token.text))
    && (forall i | 0 <= i < |pieces| - 1 :: IsBreak(pieces[i]) || IsBreak(pieces[i + 1]))
  }

  predicate BreaksText(rest: string) {
    rest == "" || (!IsWordChar(rest[0]) && !IsDigit(rest[0]) && rest[0] != '\'')
  }

  lemma LexDoubledQuote(tail: string, body: string, rest: string)
    requires LexLiteral(tail) == Some((body, rest))
    ensures LexLiteral("''" + tail) == Some(("'" + body, rest))
  {
    assert ("''" + tail)[2..] == tail;
  }

  lemma LexPlainChar(c: char, tail: string, body: string, rest: string)
    requires c != '\'' && LexLiteral(tail) == Some((body, rest))
    ensures LexLiteral([c] + tail) == Some(([c] + body, rest))
  {
    assert ([c] + tail)[1..] == tail;
  }

  lemma LexClosingQuote(rest: string)
    requires BreaksText(rest)
    ensures LexLiteral("'" + rest) == Some(("", rest))
  {
    assert ("'" + rest)[1..] == rest;
  }

  lemma {:induction false} LexQuoted(s: string, rest: string)
    requires BreaksText(rest)
    ensures LexLiteral(Quoted(s) + "'" + rest) == Some((s, rest))
  {
    if s == "" {
      LexClosingQuote(rest);
      assert Quoted(s) + "'" + rest == "'" + rest;
    } else {
      var tail := Quoted(s[1..]) + "'" + rest;
      LexQuoted(s[1..], rest);
      assert s == [s[0]] + s[1..];
      if s[0] == '\'' {
        assert Quoted(s) + "'" + rest == "''" + tail;
        LexDoubledQuote(tail, s[1..], rest);
      } else {
        assert Quoted(s) + "'" + rest == [s[0]] + tail;
        LexPlainChar(s[0], tail, s[1..], rest);
      }
    }
  }

  /** Lexing undoes spelling, one token at a time. */
  lemma LexSpelled(token: Token, rest: string)
    requires token.Word? ==> IsWord(token.text)
    requires IsBreak(Tok(token)) || BreaksText(rest)
    ensures var s := Spell(Tok(token)) + rest;
            s[0] != ' ' && NextToken(s) == Some((token, rest))
  {
    var s := Spell(Tok(token)) + rest;
    match token
    case Word(text) =>
      SpanOfRun(text, rest, IsWordChar);
      assert s[0] == text[0];
    case Param(n) =>
      LexNumber(Decimal(n), rest);
      DecimalRoundTrip(n);
    case Literal(text) =>
      LexQuoted(text, rest);
      assert s[1..] == Quoted(text) + "'" + rest;
    case _ => assert s[1..] == rest;
  }

  lemma LexNumber(digits: string, rest: string)
    requires digits != "" && AllDigits(digits) && BreaksText(rest)
    ensures NextToken("$" + digits + rest) == Some((Param(DecimalValue(digits)), rest))
  {
    var text := "$" + digits + rest;
    assert text[1..] == digits + rest;
    SpanOfRun(digits, rest, IsDigit);
  }

  /** Lexing undoes rendering. */
  lemma {:induction false} LexRendered(pieces: seq<Piece>)
    requires WellSpaced(pieces)
    ensures Lex(Render(pieces)) == Some(TokensIn(pieces))
  {
    if pieces != [] {
      var rest := Render(pieces[1..]);
      LexRendered(pieces[1..]);
      if pieces[0].Gap? {
        assert (" " + rest)[1..] == rest;
        assert TokensIn(pieces) == TokensIn(pieces[1..]);
      } else {
        if |pieces| > 1 {
          assert IsBreak(pieces[0]) || IsBreak(pieces[1]);
          assert IsBreak(pieces[1]) ==> rest[0] == Spell(pieces[1])[0];
        }
        LexSpelled(pieces[0].token, rest);
      }
    }
  }

  lemma {:induction false} RenderConcat(a: seq<Piece>, b: seq<Piece>)
    ensures Render(a + b) == Render(a) + Render(b)
    ensures TokensIn(a + b) == TokensIn(a) + TokensIn(b)
  {
    if a == [] {
      assert a + b == b;
    } else {
      assert (a + b)[1..] == a[1..] + b;
      RenderConcat(a[1..], b);
    }
  }

  lemma WellSpacedConcat(a: seq<Piece>, b: seq<Piece>)
    requires WellSpaced(a) && WellSpaced(b)
    requires a == [] || b == [] || IsBreak(a[|a| - 1]) || IsBreak(b[0])
    ensures WellSpaced(a + b)
  {
  }

  // ---------------------------------------------------------------------------
  // Grammar
  // ---------------------------------------------------------------------------

  datatype Expr =
    | True
    | False
    | ColumnEquals(column: string, param: nat)
    | ColumnLike(column: string, param: nat, escape: string)
    | Negation(operand: Expr)
    | Conjunction(left: Expr, right: Expr)
    | Disjunction(left: Expr, right: Expr)

  predicate StartsWith(ts: seq<Token>, token: Token) {
    ts != [] && ts[0] == token
  }

  /** disjunction ::= conjunction [ OR disjunction ] */
  function ParseOr(ts: seq<Token>): (r: Option<(Expr, seq<Token>)>)
    ensures r.Some? ==> |r.value.1| < |ts|
    decreases |ts|, 3
  {
    var (left, rest) :- ParseAnd(ts);
    if StartsWith(rest, Word("OR")) then
      var (right, rest') :- ParseOr(rest[1..]);
      Some((Disjunction(left, right), rest'))
    else Some((left, rest))
  }

  /** conjunction ::= negation [ AND conjunction ] */
  function ParseAnd(ts: seq<Token>): (r: Option<(Expr, seq<Token>)>)
    ensures r.Some? ==> |r.value.1| < |ts|
    decreases |ts|, 2
  {
    var (left, rest) :- ParseNot(ts);
    if StartsWith(rest, Word("AND")) then
      var (right, rest') :- ParseAnd(rest[1..]);
      Some((Conjunction(left, right), rest'))
    else Some((left, rest))
  }

  /** negation ::= NOT negation | primary */
  function ParseNot(ts: seq<Token>): (r: Option<(Expr, seq<Token>)>)
    ensures r.Some? ==> |r.value.1| < |ts|
    decreases |ts|, 1
  {
    if StartsWith(ts, Word("NOT")) then
      var (operand, rest) :- ParseNot(ts[1..]);
      Some((Negation(operand), rest))
    else ParsePrimary(ts)
  }

  /** primary ::= ( disjunction ) | TRUE | FALSE | column = $n | column LIKE $n ESCAPE 'c' */
  function ParsePrimary(ts: seq<Token>): (r: Option<(Expr, seq<Token>)>)
    ensures r.Some? ==> |r.value.1| < |ts|
    decreases |ts|, 0
  {
    if ts == [] then None
    else match ts[0]
      case LParen =>
        var (inner, rest) :- ParseOr(ts[1..]);
        if StartsWith(rest, RParen) then Some((inner, rest[1..])) else None
      case Word(word) =>
        if word == "TRUE" then Some((True, ts[1..]))
        else if word == "FALSE" then Some((False, ts[1..]))
        else if |ts| >= 3 && ts[1] == Equals && ts[2].Param? then
          Some((ColumnEquals(word, ts[2].number), ts[3..]))
        else if |ts| >= 5 && ts[1] == Word("LIKE") && ts[2].Param? && ts[3] == Word("ESCAPE") && ts[4].Literal? then
          Some((ColumnLike(word, ts[2].number, ts[4].text), ts[5..]))
        else None
      case _ => None
  }

  // ---------------------------------------------------------------------------
  // Meaning
  // ---------------------------------------------------------------------------

  /** A row of the `components` table (every column is declared NOT NULL). */
  datatype Row = Row(ecosystem: string, namespace: string, name: string, version: string, repository: string)

  function Column(row: Row, column: string): Option<string> {
    match column
    case "ecosystem" => Some(row.ecosystem)
    case "namespace" => Some(row.namespace)
    case "name" => Some(row.name)
    case "version" => Some(row.version)
    case "repository" => Some(row.repository)
    case _ => None
  }

  /** A bound parameter value. */
  datatype Value = TextValue(text: string) | IntValue(number: int)

  /** The value bound to `$n`, numbered from 1. */
  function Bound(params: seq<Value>, n: nat): Option<Value> {
    if 1 <= n <= |params| then Some(params[n - 1]) else None
  }

  /** Whether `row` satisfies the expression; `None` where the database would reject the query. */
  function Eval(e: Expr, params: seq<Value>, row: Row): Option<bool> {
    match e
    case True => Some(true)
    case False => Some(false)
    case ColumnEquals(column, n) =>
      var value :- Bound(params, n);
      var cell :- Column(row, column);
      if value.TextValue? then Some(cell == value.text) else None
    case ColumnLike(column, n, escape) =>
      var value :- Bound(params, n);
      var cell :- Column(row, column);
      if value.TextValue? && |escape| == 1 && Like.WellFormed(value.text, escape[0])
      then Some(Like.Matches(cell, value.text, escape[0]))
      else None
    case Negation(operand) =>
      var value :- Eval(operand, params, row);
      Some(!value)
    case Conjunction(left, right) =>
      var l :- Eval(left, params, row);
      var r :- Eval(right, params, row);
      Some(l && r)
    case Disjunction(left, right) =>
      var l :- Eval(left, params, row);
      var r :- Eval(right, params, row);
      Some(l || r)
  }

  /** The placeholder numbers of a token list, left to right. */
  function Placeholders(ts: seq<Token>): seq<nat> {
    if ts == [] then []
    else (if ts[0].Param? then [ts[0].number] else []) + Placeholders(ts[1..])
  }

  lemma {:induction false} PlaceholdersConcat(a: seq<Token>, b: seq<Token>)
    ensures Placeholders(a + b) == Placeholders(a) + Placeholders(b)
  {
    if a == [] {
      assert a + b == b;
    } else {
      PlaceholdersConcat(a[1..], b);
      assert a + b == [a[0]] + (a[1..] + b);
      assert (a + b)[1..] == a[1..] + b;
    }
  }

  /** `ns` is `base + 1, base + 2, ...` */
  predicate NumberedAfter(ns: seq<nat>, base: nat) {
    forall i | 0 <= i < |ns| :: ns[i] == base + 1 + i
  }
}
