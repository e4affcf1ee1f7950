/** The whole listing query: the compiled condition between a fixed head and a paged tail. */
module Browse {
  import opened Wrappers
  import opened Text
  import opened Authz
  import opened Sql
  import opened PredicateCompiler
  import opened PredicateText
  import opened PredicateMeaning

  datatype BrowsePage = BrowsePage(limit: nat, offset: nat)

  /** A word of the statement, with the comma written right after it, if any. */
  datatype Item = Plain(word: string) | Listed(word: string)

  /** The fixed words around the condition and the two page bounds. */
  datatype Layout = Layout(head: seq<Item>, tail: seq<Item>, offset: seq<Item>)

  const COMPONENTS_LAYOUT := Layout(
    [ Plain("SELECT"), Listed("ecosystem"), Listed("namespace"), Listed("name"), Listed("version"),
      Listed("repository"), Plain("attributes"), Plain("FROM"), Plain("components"), Plain("WHERE") ],
    [ Plain("ORDER"), Plain("BY"), Listed("ecosystem"), Listed("namespace"), Listed("name"), Plain("version"),
      Plain("LIMIT") ],
    [Plain("OFFSET")])

  /** The items as written, each followed by a space. */
  function Phrase(items: seq<Item>): string {
    if items == [] then ""
    else items[0].word + (if items[0].Listed? then "," else "") + " " + Phrase(items[1..])
  }

  function StatementText(layout: Layout, condition: string, limit: nat, offset: nat): string {
    Phrase(layout.head) + condition + " " + Phrase(layout.tail) + ("$" + Decimal(limit))
    + (" " + Phrase(layout.offset)) + ("$" + Decimal(offset))
  }

  datatype Query = Query(sql: string, params: seq<Value>)

  function QueryOf(layout: Layout, compiled: CompiledPredicate, page: BrowsePage): Query {
    Query(StatementText(layout, compiled.sql, |compiled.params| + 1, |compiled.params| + 2),
          TextValues(compiled.params) + [IntValue(page.limit), IntValue(page.offset)])
  }

  /** Builds the query: placeholder numbers first, then the bound values pushed in order. */
  method BrowseComponents(layout: Layout, p: QueryPredicate, page: BrowsePage) returns (query: Query)
    ensures query == QueryOf(layout, Compiled(p), page)
  {
    var compiled := Compile(p);
    var limitPlaceholder := |compiled.params| + 1;
    var offsetPlaceholder := |compiled.params| + 2;
    var sql := StatementText(layout, compiled.sql, limitPlaceholder, offsetPlaceholder);
    var params := BindAll(compiled.params, page.limit, page.offset);
    query := Query(sql, params);
  }

  method BindAll(texts: seq<string>, limit: nat, offset: nat) returns (params: seq<Value>)
    ensures params == TextValues(texts) + [IntValue(limit), IntValue(offset)]
  {
    params := [];
    for i := 0 to |texts|
      invariant params == TextValues(texts)[..i]
    {
      params := params + [TextValue(texts[i])];
    }
    params := params + [IntValue(limit)];
    params := params + [IntValue(offset)];
  }

  // ---------------------------------------------------------------------------
  // Reading the statement back
  // ---------------------------------------------------------------------------

  function PhraseTokens(items: seq<Item>): seq<Token> {
    if items == [] then []
    else [Word(items[0].word)] + (if items[0].Listed? then [Comma] else []) + PhraseTokens(items[1..])
  }

  datatype Select = Select(condition: Expr, limit: nat, offset: nat)

  /** statement ::= head disjunction tail $n offset $m */
  function ParseSelect(layout: Layout, ts: seq<Token>): Option<Select> {
    var head, tail, middle := PhraseTokens(layout.head), PhraseTokens(layout.tail), PhraseTokens(layout.offset);
    if head <= ts then
      var (condition, rest) :- ParseOr(ts[|head|..]);
      var n := |tail| + 1 + |middle|;
      if |rest| == n + 1 && rest[|tail|].Param? && rest[n].Param?
         && rest == tail + [rest[|tail|]] + middle + [rest[n]]
      then Some(Select(condition, rest[|tail|].number, rest[n].number))
      else None
    else None
  }

  function PhrasePieces(items: seq<Item>): seq<Piece> {
    if items == [] then []
    else [Tok(Word(items[0].word))] + (if items[0].Listed? then [Tok(Comma)] else []) + [Gap] + PhrasePieces(items[1..])
  }

  /** `pieces` are well spaced, spell `text` and carry `tokens`. */
  predicate Spells(pieces: seq<Piece>, text: string, tokens: seq<Token>) {
    WellSpaced(pieces) && Render(pieces) == text && TokensIn(pieces) == tokens
  }

  lemma SpellsConcat(a: seq<Piece>, s: string, ts: seq<Token>, b: seq<Piece>, s': string, ts': seq<Token>)
    requires Spells(a, s, ts) && Spells(b, s', ts')
    requires a == [] || b == [] || IsBreak(a[|a| - 1]) || IsBreak(b[0])
    ensures Spells(a + b, s + s', ts + ts')
  {
    RenderConcat(a, b);
    WellSpacedConcat(a, b);
  }

  lemma SpellsSingle(piece: Piece)
    requires piece.Tok? && piece.token.Word? ==> IsWord(piece.token.text)
    ensures Spells([piece], Spell(piece), if piece.Tok? then [piece.token] else [])
  {
    RenderSingle(piece);
  }

  lemma ItemSpelled(item: Item)
    requires IsWord(item.word)
    ensures var pieces := [Tok(Word(item.word))] + (if item.Listed? then [Tok(Comma)] else []) + [Gap];
            Spells(pieces, item.word + (if item.Listed? then "," else "") + " ",
                   [Word(item.word)] + (if item.Listed? then [Comma] else []))
  {
    SpellsSingle(Tok(Word(item.word)));
    SpellsSingle(Tok(Comma));
    SpellsSingle(Gap);
    var comma := if item.Listed? then [Tok(Comma)] else [];
    SpellsConcat([Tok(Word(item.word))], item.word, [Word(item.word)],
                 comma, if item.Listed? then "," else "", if item.Listed? then [Comma] else []);
    SpellsConcat([Tok(Word(item.word))] + comma, item.word + (if item.Listed? then "," else ""),
                 [Word(item.word)] + (if item.Listed? then [Comma] else []), [Gap], " ", []);
  }

  lemma {:induction false} PhraseSpelled(items: seq<Item>)
    requires AreWords(items)
    ensures Spells(PhrasePieces(items), Phrase(items), PhraseTokens(items))
    ensures items != [] ==> PhrasePieces(items) != [] && IsBreak(PhrasePieces(items)[|PhrasePieces(items)| - 1])
  {
    if items != [] {
      var item := items[0];
      var pieces := [Tok(Word(item.word))] + (if item.Listed? then [Tok(Comma)] else []) + [Gap];
      ItemSpelled(item);
      PhraseSpelled(items[1..]);
      SpellsConcat(pieces, item.word + (if item.Listed? then "," else "") + " ",
                   [Word(item.word)] + (if item.Listed? then [Comma] else []),
                   PhrasePieces(items[1..]), Phrase(items[1..]), PhraseTokens(items[1..]));
    }
  }

  predicate AreWords(items: seq<Item>) {
    forall i | 0 <= i < |items| :: IsWord(items[i].word)
  }

  /** Every fixed word is a word, and the word after the condition is no connective. */
  predicate WellFormedLayout(layout: Layout) {
    && AreWords(layout.head) && AreWords(layout.tail) && AreWords(layout.offset)
    && layout.tail != [] && layout.tail[0].word != "AND" && layout.tail[0].word != "OR"
  }

  lemma WordsAreWords()
    ensures IsWord("SELECT") && IsWord("FROM") && IsWord("WHERE") && IsWord("ORDER") && IsWord("BY")
    ensures IsWord("LIMIT") && IsWord("OFFSET") && IsWord("components")
  {
  }

  lemma ColumnsAreWords()
    ensures IsWord("ecosystem") && IsWord("namespace") && IsWord("name") && IsWord("version")
    ensures IsWord("repository") && IsWord("attributes")
  {
  }

  lemma ComponentsLayoutIsWellFormed()
    ensures WellFormedLayout(COMPONENTS_LAYOUT)
  {
    WordsAreWords();
    ColumnsAreWords();
  }

  function TailText(layout: Layout, limit: nat, offset: nat): string {
    " " + Phrase(layout.tail) + ("$" + Decimal(limit)) + (" " + Phrase(layout.offset)) + ("$" + Decimal(offset))
  }

  function TailTokens(layout: Layout, limit: nat, offset: nat): seq<Token> {
    PhraseTokens(layout.tail) + [Param(limit)] + PhraseTokens(layout.offset) + [Param(offset)]
  }

  function TailPieces(layout: Layout, limit: nat, offset: nat): seq<Piece> {
    [Gap] + PhrasePieces(layout.tail) + [Tok(Param(limit))] + ([Gap] + PhrasePieces(layout.offset))
      + [Tok(Param(offset))]
  }

  /** The tail, from the space after the condition on. */
  lemma TailSpelled(layout: Layout, limit: nat, offset: nat)
    requires WellFormedLayout(layout)
    ensures Spells(TailPieces(layout, limit, offset), TailText(layout, limit, offset),
                   TailTokens(layout, limit, offset))
  {
    PhraseSpelled(layout.tail);
    PhraseSpelled(layout.offset);
    FiveParts(PhrasePieces(layout.tail), Phrase(layout.tail), PhraseTokens(layout.tail),
              Tok(Param(limit)), PhrasePieces(layout.offset), Phrase(layout.offset), PhraseTokens(layout.offset),
              Tok(Param(offset)));
  }

  lemma FiveParts(tail: seq<Piece>, s: string, ts: seq<Token>, limit: Piece,
                  middle: seq<Piece>, s': string, ts': seq<Token>, offset: Piece)
    requires Spells(tail, s, ts) && Spells(middle, s', ts')
    requires tail == [] || IsBreak(tail[|tail| - 1])
    requires middle == [] || IsBreak(middle[|middle| - 1])
    requires limit.Tok? && limit.token.Param? && offset.Tok? && offset.token.Param?
    ensures Spells([Gap] + tail + [limit] + ([Gap] + middle) + [offset],
                   " " + s + Spell(limit) + (" " + s') + Spell(offset),
                   ts + [limit.token] + ts' + [offset.token])
  {
    SpellsSingle(Gap);
    SpellsSingle(limit);
    SpellsSingle(offset);
    SpellsConcat([Gap], " ", [], tail, s, ts);
    SpellsConcat([Gap], " ", [], middle, s', ts');
    assert [] + ts == ts && [] + ts' == ts';
    var first := [Gap] + tail + [limit];
    SpellsConcat([Gap] + tail, " " + s, ts, [limit], Spell(limit), [limit.token]);
    SpellsConcat(first, " " + s + Spell(limit), ts + [limit.token], [Gap] + middle, " " + s', ts');
    SpellsConcat(first + ([Gap] + middle), " " + s + Spell(limit) + (" " + s'), ts + [limit.token] + ts',
                 [offset], Spell(offset), [offset.token]);
  }

  function StatementTokens(layout: Layout, condition: seq<Token>, limit: nat, offset: nat): seq<Token> {
    PhraseTokens(layout.head) + condition + TailTokens(layout, limit, offset)
  }

  lemma StatementLexes(layout: Layout, pieces: seq<Piece>, text: string, tokens: seq<Token>, limit: nat, offset: nat)
    requires WellFormedLayout(layout) && Spells(pieces, text, tokens)
    ensures Lex(StatementText(layout, text, limit, offset)) == Some(StatementTokens(layout, tokens, limit, offset))
  {
    PhraseSpelled(layout.head);
    TailSpelled(layout, limit, offset);
    ThreePartsLex(PhrasePieces(layout.head), Phrase(layout.head), PhraseTokens(layout.head), pieces, text, tokens,
                  TailPieces(layout, limit, offset), TailText(layout, limit, offset),
                  TailTokens(layout, limit, offset));
    Reassociated(Phrase(layout.head) + text, " ", Phrase(layout.tail), "$" + Decimal(limit),
                 " " + Phrase(layout.offset), "$" + Decimal(offset));
  }

  lemma ThreePartsLex(a: seq<Piece>, s: string, ts: seq<Token>, b: seq<Piece>, s': string, ts': seq<Token>,
                      c: seq<Piece>, s'': string, ts'': seq<Token>)
    requires Spells(a, s, ts) && Spells(b, s', ts') && Spells(c, s'', ts'')
    requires a == [] || IsBreak(a[|a| - 1])
    requires c != [] && IsBreak(c[0])
    ensures Lex(s + s' + s'') == Some(ts + ts' + ts'')
  {
    SpellsConcat(a, s, ts, b, s', ts');
    SpellsConcat(a + b, s + s', ts + ts', c, s'', ts'');
    LexRendered(a + b + c);
  }

  lemma Reassociated(a: string, b: string, c: string, d: string, e: string, f: string)
    ensures a + b + c + d + e + f == a + (b + c + d + e + f)
  {
  }

  lemma TailEndsCondition(layout: Layout, limit: nat, offset: nat)
    requires WellFormedLayout(layout)
    ensures EndsCondition(TailTokens(layout, limit, offset))
  {
    assert TailTokens(layout, limit, offset)[0] == PhraseTokens(layout.tail)[0];
  }

  lemma StatementParses(layout: Layout, tokens: seq<Token>, condition: Expr, limit: nat, offset: nat)
    requires ParseOr(tokens + TailTokens(layout, limit, offset)) == Some((condition, TailTokens(layout, limit, offset)))
    ensures ParseSelect(layout, StatementTokens(layout, tokens, limit, offset))
            == Some(Select(condition, limit, offset))
  {
    var head, rest := PhraseTokens(layout.head), tokens + TailTokens(layout, limit, offset);
    assert StatementTokens(layout, tokens, limit, offset) == head + rest;
    assert (head + rest)[|head|..] == rest;
  }

  lemma NoPlaceholdersInPhrase(items: seq<Item>)
    ensures Placeholders(PhraseTokens(items)) == []
  {
    NoParamsInPhrase(items);
    NoPlaceholders(PhraseTokens(items));
  }

  lemma NoParamsInPhrase(items: seq<Item>)
    ensures forall t | t in PhraseTokens(items) :: !t.Param?
  {
  }

  lemma ThreePartsPlaceholders(a: seq<Token>, b: seq<Token>, c: seq<Token>)
    ensures Placeholders(a + b + c) == Placeholders(a) + Placeholders(b) + Placeholders(c)
  {
    PlaceholdersConcat(a + b, c);
    PlaceholdersConcat(a, b);
  }

  lemma TailPlaceholders(layout: Layout, limit: nat, offset: nat)
    ensures Placeholders(TailTokens(layout, limit, offset)) == [limit, offset]
  {
    NoPlaceholdersInPhrase(layout.tail);
    NoPlaceholdersInPhrase(layout.offset);
    ThreePartsPlaceholders(PhraseTokens(layout.tail), [Param(limit)], PhraseTokens(layout.offset));
    PlaceholdersConcat(PhraseTokens(layout.tail) + [Param(limit)] + PhraseTokens(layout.offset), [Param(offset)]);
    assert [Param(limit)][1..] == [] && [Param(offset)][1..] == [];
  }

  lemma StatementPlaceholders(layout: Layout, tokens: seq<Token>, count: nat)
    requires NumberedAfter(Placeholders(tokens), 0) && |Placeholders(tokens)| == count
    ensures var ns := Placeholders(StatementTokens(layout, tokens, count + 1, count + 2));
            NumberedAfter(ns, 0) && |ns| == count + 2
  {
    NoPlaceholdersInPhrase(layout.head);
    TailPlaceholders(layout, count + 1, count + 2);
    ThreePartsPlaceholders(PhraseTokens(layout.head), tokens, TailTokens(layout, count + 1, count + 2));
  }

  // ---------------------------------------------------------------------------
  // Meaning
  // ---------------------------------------------------------------------------

  /** What the database does with a query: the row test and the two page bounds. */
  datatype Plan = Plan(condition: Expr, params: seq<Value>, limit: int, offset: int)

  function PlanOf(layout: Layout, query: Query): Option<Plan> {
    var tokens :- Lex(query.sql);
    var select :- ParseSelect(layout, tokens);
    var limit :- Bound(query.params, select.limit);
    var offset :- Bound(query.params, select.offset);
    if limit.IntValue? && offset.IntValue?
    then Some(Plan(select.condition, query.params, limit.number, offset.number))
    else None
  }

  lemma QueryLexes(layout: Layout, compiled: CompiledPredicate, pieces: seq<Piece>, tokens: seq<Token>,
                   page: BrowsePage)
    requires WellFormedLayout(layout) && Spells(pieces, compiled.sql, tokens)
    ensures Lex(QueryOf(layout, compiled, page).sql)
         == Some(StatementTokens(layout, tokens, |compiled.params| + 1, |compiled.params| + 2))
  {
    StatementLexes(layout, pieces, compiled.sql, tokens, |compiled.params| + 1, |compiled.params| + 2);
  }

  lemma QueryPlans(layout: Layout, compiled: CompiledPredicate, pieces: seq<Piece>, tokens: seq<Token>, condition: Expr,
                   page: BrowsePage)
    requires WellFormedLayout(layout) && Spells(pieces, compiled.sql, tokens)
    requires forall rest | EndsCondition(rest) :: ParseOr(tokens + rest) == Some((condition, rest))
    ensures var query := QueryOf(layout, compiled, page);
            PlanOf(layout, query) == Some(Plan(condition, query.params, page.limit, page.offset))
  {
    var limit, offset := |compiled.params| + 1, |compiled.params| + 2;
    QueryLexes(layout, compiled, pieces, tokens, page);
    TailEndsCondition(layout, limit, offset);
    StatementParses(layout, tokens, condition, limit, offset);
  }

  lemma QueryPlaceholders(layout: Layout, compiled: CompiledPredicate, pieces: seq<Piece>, tokens: seq<Token>,
                          page: BrowsePage)
    requires WellFormedLayout(layout) && Spells(pieces, compiled.sql, tokens)
    requires NumberedAfter(Placeholders(tokens), 0) && |Placeholders(tokens)| == |compiled.params|
    ensures NumbersEachParameterOnce(QueryOf(layout, compiled, page))
  {
    QueryLexes(layout, compiled, pieces, tokens, page);
    StatementPlaceholders(layout, tokens, |compiled.params|);
  }

  /** Every placeholder of the text occurs once, numbered left to right, one for each bound value. */
  predicate NumbersEachParameterOnce(query: Query) {
    && Lex(query.sql).Some?
    && NumberedAfter(Placeholders(Lex(query.sql).value), 0)
    && |Placeholders(Lex(query.sql).value)| == |query.params|
  }

  /** The paging placeholders never collide with the condition's. */
  lemma QueryPlaceholdersNeverCollide(layout: Layout, p: QueryPredicate, page: BrowsePage)
    requires WellFormedLayout(layout)
    ensures NumbersEachParameterOnce(QueryOf(layout, Compiled(p), page))
  {
    SpelledBy(p, 0);
    PlaceholdersAreConsecutive(p, 0);
    QueryPlaceholders(layout, Compiled(p), PiecesOf(p, 0), TokensOf(p, 0), page);
  }

  /** The statement is accepted and pages by exactly the requested limit and offset. */
  lemma BrowsePlans(layout: Layout, p: QueryPredicate, page: BrowsePage)
    requires WellFormedLayout(layout)
    ensures var query := QueryOf(layout, Compiled(p), page);
            PlanOf(layout, query) == Some(Plan(ExprOf(p, 0), query.params, page.limit, page.offset))
  {
    SpelledBy(p, 0);
    forall rest | EndsCondition(rest)
      ensures ParseOr(TokensOf(p, 0) + rest) == Some((ExprOf(p, 0), rest))
    {
      ConditionParsesTo(p, rest);
    }
    QueryPlans(layout, Compiled(p), PiecesOf(p, 0), TokensOf(p, 0), ExprOf(p, 0), page);
  }

  /** It selects exactly the component rows on which the predicate, with its path leaves made false, holds. */
  lemma BrowseSelectsMatchingRows(layout: Layout, p: QueryPredicate, page: BrowsePage, row: Row,
                                  context: ContentContext)
    requires WellFormedLayout(layout) && Describes(row, context)
    ensures var plan := PlanOf(layout, QueryOf(layout, Compiled(p), page));
            plan.Some? && Eval(plan.value.condition, plan.value.params, row) == Some(Evaluate(ErasePaths(p), context))
  {
    BrowsePlans(layout, p, page);
    EvaluatesTo(p, 0, QueryOf(layout, Compiled(p), page).params, row, context);
  }
}
