/** The compiled text is spelled from well-spaced pieces, so it lexes to the intended tokens. */
module PredicateText {
  import opened Text
  import opened Packages
  import opened Authz
  import opened Sql
  import opened PredicateCompiler

  function TokensOf(p: QueryPredicate, base: nat): (ts: seq<Token>)
    ensures ts != [] && ts[0] != Word("NOT")
    decreases p, 1
  {
    match p
    case Always => [Word("TRUE")]
    case Never => [Word("FALSE")]
    case InEcosystem(_) => [Word("ecosystem"), Equals, Param(base + 1)]
    case CoordinateName(AnyName) => [Word("TRUE")]
    case CoordinateName(ExactName(_)) => [Word("name"), Equals, Param(base + 1)]
    case CoordinateName(PrefixName(_)) =>
      [Word("name"), Word("LIKE"), Param(base + 1), Word("ESCAPE"), Literal("\\")]
    case PathPrefix(_) => [Word("FALSE")]
    case PathEquals(_) => [Word("FALSE")]
    case All(children) =>
      if children == [] then [Word("TRUE")] else [LParen] + TokensOfList(children, base, "AND") + [RParen]
    case Any(children) =>
      if children == [] then [Word("FALSE")] else [LParen] + TokensOfList(children, base, "OR") + [RParen]
    case Not(child) => [LParen, Word("NOT"), LParen] + TokensOf(child, base) + [RParen, RParen]
  }

  function TokensOfList(ps: seq<QueryPredicate>, base: nat, operator: string): seq<Token>
    requires ps != []
    decreases ps, 0
  {
    if |ps| == 1 then TokensOf(ps[0], base)
    else TokensOf(ps[0], base) + ([Word(operator)] + TokensOfList(ps[1..], base + |ParamsOf(ps[0])|, operator))
  }

  /** The pieces the text of a condition is made of. */
  function PiecesOf(p: QueryPredicate, base: nat): (r: seq<Piece>)
    ensures r != []
    decreases p, 1
  {
    match p
    case Always => [Tok(Word("TRUE"))]
    case Never => [Tok(Word("FALSE"))]
    case InEcosystem(_) => Comparison("ecosystem", "=", base + 1)
    case CoordinateName(AnyName) => [Tok(Word("TRUE"))]
    case CoordinateName(ExactName(_)) => Comparison("name", "=", base + 1)
    case CoordinateName(PrefixName(_)) => Comparison("name", "LIKE", base + 1) + ESCAPE_CLAUSE
    case PathPrefix(_) => [Tok(Word("FALSE"))]
    case PathEquals(_) => [Tok(Word("FALSE"))]
    case All(children) =>
      if children == [] then [Tok(Word("TRUE"))]
      else [Tok(LParen)] + PiecesOfList(children, base, "AND") + [Tok(RParen)]
    case Any(children) =>
      if children == [] then [Tok(Word("FALSE"))]
      else [Tok(LParen)] + PiecesOfList(children, base, "OR") + [Tok(RParen)]
    case Not(child) => NOT_OPEN + PiecesOf(child, base) + NOT_CLOSE
  }

  const ESCAPE_CLAUSE := [Gap, Tok(Word("ESCAPE")), Gap, Tok(Literal("\\"))]
  const NOT_OPEN := [Tok(LParen), Tok(Word("NOT")), Gap, Tok(LParen)]
  const NOT_CLOSE := [Tok(RParen), Tok(RParen)]

  function Comparison(column: string, operator: string, n: nat): seq<Piece> {
    [Tok(Word(column)), Gap, Tok(if operator == "=" then Equals else Word(operator)), Gap, Tok(Param(n))]
  }

  function Separator(operator: string): seq<Piece> {
    [Gap, Tok(Word(operator)), Gap]
  }

  function PiecesOfList(ps: seq<QueryPredicate>, base: nat, operator: string): seq<Piece>
    requires ps != []
    decreases ps, 0
  {
    if |ps| == 1 then PiecesOf(ps[0], base)
    else PiecesOf(ps[0], base) + (Separator(operator) + PiecesOfList(ps[1..], base + |ParamsOf(ps[0])|, operator))
  }

  /** `column op $n`, for a one-token operator. */
  lemma ComparisonSpelled(column: Piece, operator: Piece, placeholder: Piece)
    ensures Render([column, Gap, operator, Gap, placeholder])
         == Spell(column) + " " + (Spell(operator) + " ") + Spell(placeholder)
    ensures TokensIn([column, Gap, operator, Gap, placeholder])
         == TokensIn([column]) + TokensIn([operator]) + TokensIn([placeholder])
  {
    RenderSingle(placeholder);
    RenderSingle(Gap);
    RenderFour(column, Gap, operator, Gap);
    RenderConcat([column, Gap, operator, Gap], [placeholder]);
    assert [column, Gap, operator, Gap, placeholder] == [column, Gap, operator, Gap] + [placeholder];
  }

  lemma EcosystemComparison(n: nat)
    ensures var pieces := Comparison("ecosystem", "=", n);
            && WellSpaced(pieces)
            && Render(pieces) == "ecosystem = " + ("$" + Decimal(n))
            && TokensIn(pieces) == [Word("ecosystem"), Equals, Param(n)]
  {
    ComparisonSpelled(Tok(Word("ecosystem")), Tok(Equals), Tok(Param(n)));
    assert "ecosystem" + " " + ("=" + " ") == "ecosystem = ";
    assert TokensIn([Tok(Word("ecosystem"))]) == [Word("ecosystem")];
  }

  lemma NameComparison(n: nat)
    ensures var pieces := Comparison("name", "=", n);
            && WellSpaced(pieces)
            && Render(pieces) == "name = " + ("$" + Decimal(n))
            && TokensIn(pieces) == [Word("name"), Equals, Param(n)]
  {
    ComparisonSpelled(Tok(Word("name")), Tok(Equals), Tok(Param(n)));
    assert "name" + " " + ("=" + " ") == "name = ";
  }

  lemma NameLikeComparison(n: nat)
    ensures var pieces := Comparison("name", "LIKE", n);
            && WellSpaced(pieces)
            && Render(pieces) == "name LIKE " + ("$" + Decimal(n))
            && TokensIn(pieces) == [Word("name"), Word("LIKE"), Param(n)]
  {
    ComparisonSpelled(Tok(Word("name")), Tok(Word("LIKE")), Tok(Param(n)));
    assert "name" + " " + ("LIKE" + " ") == "name LIKE ";
  }

  lemma RenderSingle(piece: Piece)
    ensures Render([piece]) == Spell(piece)
    ensures TokensIn([piece]) == if piece.Tok? then [piece.token] else []
  {
    assert [piece][1..] == [];
  }

  lemma RenderFour(a: Piece, b: Piece, c: Piece, d: Piece)
    ensures Render([a, b, c, d]) == Spell(a) + Spell(b) + (Spell(c) + Spell(d))
    ensures TokensIn([a, b, c, d]) == TokensIn([a]) + TokensIn([b]) + (TokensIn([c]) + TokensIn([d]))
  {
    RenderSingle(a);
    RenderSingle(b);
    RenderSingle(c);
    RenderSingle(d);
    RenderConcat([a], [b]);
    RenderConcat([c], [d]);
    RenderConcat([a] + [b], [c] + [d]);
    assert [a, b, c, d] == [a] + [b] + ([c] + [d]);
  }

  lemma SeparatorSpelled(operator: string)
    ensures Render(Separator(operator)) == " " + operator + " "
    ensures TokensIn(Separator(operator)) == [Word(operator)]
  {
    RenderSingle(Gap);
    RenderSingle(Tok(Word(operator)));
    RenderConcat([Gap], [Tok(Word(operator))]);
    RenderConcat([Gap] + [Tok(Word(operator))], [Gap]);
    assert Separator(operator) == [Gap] + [Tok(Word(operator))] + [Gap];
  }

  lemma EscapeClauseSpelled()
    ensures Render(ESCAPE_CLAUSE) == " ESCAPE '\\'"
    ensures TokensIn(ESCAPE_CLAUSE) == [Word("ESCAPE"), Literal("\\")]
  {
    assert "\\"[1..] == "";
    assert Quoted("\\") == "\\";
    RenderFour(Gap, Tok(Word("ESCAPE")), Gap, Tok(Literal("\\")));
  }

  lemma NotOpenSpelled()
    ensures Render(NOT_OPEN) == "(NOT (" && TokensIn(NOT_OPEN) == [LParen, Word("NOT"), LParen]
    ensures Render(NOT_CLOSE) == "))" && TokensIn(NOT_CLOSE) == [RParen, RParen]
  {
    RenderFour(Tok(LParen), Tok(Word("NOT")), Gap, Tok(LParen));
    RenderSingle(Tok(RParen));
    RenderConcat([Tok(RParen)], [Tok(RParen)]);
    assert NOT_CLOSE == [Tok(RParen)] + [Tok(RParen)];
  }

  lemma WrapSpelled(open: seq<Piece>, inner: seq<Piece>, close: seq<Piece>)
    requires WellSpaced(open) && WellSpaced(inner) && WellSpaced(close)
    requires open != [] && inner != [] && close != [] && IsBreak(open[|open| - 1]) && IsBreak(close[0])
    ensures var pieces := open + inner + close;
            && WellSpaced(pieces)
            && Render(pieces) == Render(open) + Render(inner) + Render(close)
            && TokensIn(pieces) == TokensIn(open) + TokensIn(inner) + TokensIn(close)
  {
    RenderConcat(open + inner, close);
    RenderConcat(open, inner);
    WellSpacedConcat(open, inner);
    WellSpacedConcat(open + inner, close);
  }

  lemma FollowedBySpelled(first: seq<Piece>, second: seq<Piece>)
    requires WellSpaced(first) && WellSpaced(second) && second != [] && IsBreak(second[0])
    ensures WellSpaced(first + second)
    ensures Render(first + second) == Render(first) + Render(second)
    ensures TokensIn(first + second) == TokensIn(first) + TokensIn(second)
  {
    RenderConcat(first, second);
    WellSpacedConcat(first, second);
  }

  lemma JoinSpelled(first: seq<Piece>, operator: string, others: seq<Piece>)
    requires WellSpaced(first) && WellSpaced(others) && IsWord(operator)
    ensures var pieces := first + (Separator(operator) + others);
            && WellSpaced(pieces)
            && Render(pieces) == Render(first) + (" " + operator + " ") + Render(others)
            && TokensIn(pieces) == TokensIn(first) + ([Word(operator)] + TokensIn(others))
  {
    SeparatorSpelled(operator);
    RenderConcat(first, Separator(operator) + others);
    RenderConcat(Separator(operator), others);
    WellSpacedConcat(Separator(operator), others);
    WellSpacedConcat(first, Separator(operator) + others);
  }

  /** The text is spelled from pieces that are well spaced and carry the intended tokens. */
  lemma {:induction false} SpelledBy(p: QueryPredicate, base: nat)
    ensures IsSpelled(p, base)
    decreases p, 2
  {
    match p
    case All(children) =>
      if children == [] { EmptySpelledBy(base); } else { GroupSpelledBy(children, base, "AND", " AND "); }
    case Any(children) =>
      if children == [] { EmptySpelledBy(base); } else { GroupSpelledBy(children, base, "OR", " OR "); }
    case Not(child) =>
      SpelledBy(child, base);
      NegationSpelledBy(child, base);
    case _ => LeafSpelledBy(p, base);
  }

  /** The text of `p` is what its pieces spell. */
  predicate IsSpelled(p: QueryPredicate, base: nat) {
    var pieces := PiecesOf(p, base);
    WellSpaced(pieces) && Render(pieces) == TextOf(p, base) && TokensIn(pieces) == TokensOf(p, base)
  }

  lemma EmptySpelledBy(base: nat)
    ensures IsSpelled(All([]), base) && IsSpelled(Any([]), base)
  {
    RenderSingle(Tok(Word("TRUE")));
    RenderSingle(Tok(Word("FALSE")));
  }

  lemma NegationSpelled(inner: seq<Piece>)
    requires WellSpaced(inner) && inner != []
    ensures var pieces := NOT_OPEN + inner + NOT_CLOSE;
            && WellSpaced(pieces)
            && Render(pieces) == "(NOT (" + Render(inner) + "))"
            && TokensIn(pieces) == [LParen, Word("NOT"), LParen] + TokensIn(inner) + [RParen, RParen]
  {
    NotOpenSpelled();
    WrapSpelled(NOT_OPEN, inner, NOT_CLOSE);
  }

  lemma NegationSpelledBy(child: QueryPredicate, base: nat)
    requires IsSpelled(child, base)
    ensures IsSpelled(Not(child), base)
  {
    NegationSpelled(PiecesOf(child, base));
  }

  lemma LeafSpelledBy(p: QueryPredicate, base: nat)
    requires !p.All? && !p.Any? && !p.Not?
    ensures IsSpelled(p, base)
  {
    match p
    case InEcosystem(ecosystem) => EcosystemSpelled(ecosystem, base);
    case CoordinateName(ExactName(name)) => NameSpelled(name, base);
    case CoordinateName(PrefixName(prefix)) => PrefixSpelled(prefix, base);
    case _ =>
      RenderSingle(Tok(Word("TRUE")));
      RenderSingle(Tok(Word("FALSE")));
  }

  lemma EcosystemSpelled(ecosystem: Ecosystem, base: nat)
    ensures IsSpelled(InEcosystem(ecosystem), base)
  {
    EcosystemComparison(base + 1);
  }

  lemma NameSpelled(name: string, base: nat)
    ensures IsSpelled(CoordinateName(ExactName(name)), base)
  {
    NameComparison(base + 1);
  }

  lemma PrefixSpelled(prefix: string, base: nat)
    ensures IsSpelled(CoordinateName(PrefixName(prefix)), base)
  {
    NameLikeComparison(base + 1);
    EscapedSpelled(Comparison("name", "LIKE", base + 1));
  }

  lemma EscapedSpelled(comparison: seq<Piece>)
    requires WellSpaced(comparison)
    ensures WellSpaced(comparison + ESCAPE_CLAUSE)
    ensures Render(comparison + ESCAPE_CLAUSE) == Render(comparison) + " ESCAPE '\\'"
    ensures TokensIn(comparison + ESCAPE_CLAUSE) == TokensIn(comparison) + [Word("ESCAPE"), Literal("\\")]
  {
    EscapeClauseSpelled();
    FollowedBySpelled(comparison, ESCAPE_CLAUSE);
  }

  lemma {:induction false} GroupSpelledBy(ps: seq<QueryPredicate>, base: nat, operator: string, separator: string)
    requires ps != [] && IsWord(operator) && separator == " " + operator + " "
    ensures var pieces := [Tok(LParen)] + PiecesOfList(ps, base, operator) + [Tok(RParen)];
            && WellSpaced(pieces)
            && Render(pieces) == "(" + Join(TextsOf(ps, base), separator) + ")"
            && TokensIn(pieces) == [LParen] + TokensOfList(ps, base, operator) + [RParen]
    decreases ps, 1
  {
    ListSpelledBy(ps, base, operator);
    RenderSingle(Tok(LParen));
    RenderSingle(Tok(RParen));
    WrapSpelled([Tok(LParen)], PiecesOfList(ps, base, operator), [Tok(RParen)]);
  }

  lemma {:induction false} ListSpelledBy(ps: seq<QueryPredicate>, base: nat, operator: string)
    requires ps != [] && IsWord(operator)
    ensures var pieces := PiecesOfList(ps, base, operator);
            && WellSpaced(pieces)
            && Render(pieces) == Join(TextsOf(ps, base), " " + operator + " ")
            && TokensIn(pieces) == TokensOfList(ps, base, operator)
    decreases ps, 0
  {
    SpelledBy(ps[0], base);
    if |ps| > 1 {
      var base' := base + |ParamsOf(ps[0])|;
      var first := PiecesOf(ps[0], base);
      var others := PiecesOfList(ps[1..], base', operator);
      ListSpelledBy(ps[1..], base', operator);
      JoinSpelled(first, operator, others);
      assert TextsOf(ps, base)[1..] == TextsOf(ps[1..], base');
    }
  }
}
