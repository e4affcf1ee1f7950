/** The compiled text parses to an expression that the database evaluates exactly as the predicate
  * is evaluated in memory. */
module PredicateMeaning {
  import opened Wrappers
  import opened Packages
  import opened Authz
  import opened Sql
  import opened PredicateCompiler
  import opened PredicateText
  import Like

  // ---------------------------------------------------------------------------
  // The tokens parse to the intended expression
  // ---------------------------------------------------------------------------

  function ExprOf(p: QueryPredicate, base: nat): Expr
    decreases p, 1
  {
    match p
    case Always => True
    case Never => False
    case InEcosystem(_) => ColumnEquals("ecosystem", base + 1)
    case CoordinateName(AnyName) => True
    case CoordinateName(ExactName(_)) => ColumnEquals("name", base + 1)
    case CoordinateName(PrefixName(_)) => ColumnLike("name", base + 1, "\\")
    case PathPrefix(_) => False
    case PathEquals(_) => False
    case All(children) => if children == [] then True else Chain(children, base, true)
    case Any(children) => if children == [] then False else Chain(children, base, false)
    case Not(child) => Negation(ExprOf(child, base))
  }

  /** The children joined by `AND` (`conjoin`) or by `OR`. */
  function Chain(ps: seq<QueryPredicate>, base: nat, conjoin: bool): Expr
    requires ps != []
    decreases ps, 0
  {
    var first := ExprOf(ps[0], base);
    if |ps| == 1 then first
    else
      var others := Chain(ps[1..], base + |ParamsOf(ps[0])|, conjoin);
      if conjoin then Conjunction(first, others) else Disjunction(first, others)
  }

  predicate EndsCondition(rest: seq<Token>) {
    !StartsWith(rest, Word("AND")) && !StartsWith(rest, Word("OR"))
  }

  lemma ParsesAlone(ts: seq<Token>, e: Expr, rest: seq<Token>)
    requires ParseNot(ts) == Some((e, rest))
    requires EndsCondition(rest)
    ensures ParseAnd(ts) == Some((e, rest))
    ensures ParseOr(ts) == Some((e, rest))
  {
  }

  /** A compiled condition is a primary: whatever follows it, it keeps its own shape. */
  lemma {:induction false} ParsesTo(p: QueryPredicate, base: nat, rest: seq<Token>)
    ensures ParsePrimary(TokensOf(p, base) + rest) == Some((ExprOf(p, base), rest))
    ensures ParseNot(TokensOf(p, base) + rest) == Some((ExprOf(p, base), rest))
    decreases p, 1
  {
    var ts := TokensOf(p, base) + rest;
    match p
    case All(children) =>
      if children != [] {
        ParsesChain(children, base, true, [RParen] + rest);
        ParsesGroup(TokensOfList(children, base, "AND"), ExprOf(p, base), rest);
      } else {
        assert ts[1..] == rest;
      }
    case Any(children) =>
      if children != [] {
        ParsesChain(children, base, false, [RParen] + rest);
        ParsesGroup(TokensOfList(children, base, "OR"), ExprOf(p, base), rest);
      } else {
        assert ts[1..] == rest;
      }
    case Not(child) =>
      ParsesTo(child, base, [RParen] + ([RParen] + rest));
      ParsesNegation(TokensOf(child, base), ExprOf(child, base), rest);
    case _ => LeafParsesTo(p, base, rest);
  }

  lemma LeafParsesTo(p: QueryPredicate, base: nat, rest: seq<Token>)
    requires !p.All? && !p.Any? && !p.Not?
    ensures ParsePrimary(TokensOf(p, base) + rest) == Some((ExprOf(p, base), rest))
  {
    var ts := TokensOf(p, base) + rest;
    assert ts[|TokensOf(p, base)|..] == rest;
  }

  lemma ParsesGroup(inner: seq<Token>, e: Expr, rest: seq<Token>)
    requires ParseOr(inner + ([RParen] + rest)) == Some((e, [RParen] + rest))
    ensures ParsePrimary([LParen] + inner + [RParen] + rest) == Some((e, rest))
  {
    var ts := [LParen] + inner + [RParen] + rest;
    assert ts[1..] == inner + ([RParen] + rest);
    assert ([RParen] + rest)[1..] == rest;
  }

  lemma ParsesNegation(inner: seq<Token>, e: Expr, rest: seq<Token>)
    requires ParseNot(inner + ([RParen] + ([RParen] + rest))) == Some((e, [RParen] + ([RParen] + rest)))
    ensures ParsePrimary([LParen, Word("NOT"), LParen] + inner + [RParen, RParen] + rest) == Some((Negation(e), rest))
  {
    var grouped := [LParen] + inner + [RParen] + ([RParen] + rest);
    ParsesAlone(inner + ([RParen] + ([RParen] + rest)), e, [RParen] + ([RParen] + rest));
    ParsesGroup(inner, e, [RParen] + rest);
    var negated := [Word("NOT")] + grouped;
    assert negated[1..] == grouped;
    assert ParseNot(grouped) == Some((e, [RParen] + rest));
    ParsesAlone(negated, Negation(e), [RParen] + rest);
    var body := [Word("NOT"), LParen] + inner + [RParen];
    assert negated == body + ([RParen] + rest);
    ParsesGroup(body, Negation(e), rest);
    assert [LParen, Word("NOT"), LParen] + inner + [RParen, RParen] + rest == [LParen] + body + [RParen] + rest;
  }

  lemma {:induction false} ParsesChain(ps: seq<QueryPredicate>, base: nat, conjoin: bool, rest: seq<Token>)
    requires ps != [] && EndsCondition(rest)
    ensures var ts := TokensOfList(ps, base, if conjoin then "AND" else "OR") + rest;
            && (conjoin ==> ParseAnd(ts) == Some((Chain(ps, base, conjoin), rest)))
            && ParseOr(ts) == Some((Chain(ps, base, conjoin), rest))
    decreases ps, 0
  {
    var operator := if conjoin then "AND" else "OR";
    if |ps| == 1 {
      ParsesTo(ps[0], base, rest);
    } else {
      var base' := base + |ParamsOf(ps[0])|;
      var others := TokensOfList(ps[1..], base', operator) + rest;
      var tail := [Word(operator)] + others;
      assert TokensOfList(ps, base, operator) + rest == TokensOf(ps[0], base) + tail;
      assert tail[1..] == others;
      ParsesTo(ps[0], base, tail);
      ParsesChain(ps[1..], base', conjoin, rest);
    }
  }

  // ---------------------------------------------------------------------------
  // The expression means what the predicate means
  // ---------------------------------------------------------------------------

  /** The predicate with every asset-path leaf replaced by `Never`: components have no path. */
  function ErasePaths(p: QueryPredicate): QueryPredicate
    decreases p, 1
  {
    match p
    case PathPrefix(_) => Never
    case PathEquals(_) => Never
    case All(children) => All(EraseEach(children))
    case Any(children) => Any(EraseEach(children))
    case Not(child) => Not(ErasePaths(child))
    case _ => p
  }

  function EraseEach(ps: seq<QueryPredicate>): (r: seq<QueryPredicate>)
    ensures |r| == |ps|
    ensures forall i | 0 <= i < |ps| :: r[i] == ErasePaths(ps[i])
    decreases ps, 0
  {
    if ps == [] then [] else [ErasePaths(ps[0])] + EraseEach(ps[1..])
  }

  /** Every path leaf of `p` stands under an even number of `Not`s (`positive`), or an odd one. */
  predicate PathsHavePolarity(p: QueryPredicate, positive: bool) {
    match p
    case PathPrefix(_) => positive
    case PathEquals(_) => positive
    case All(children) => forall i | 0 <= i < |children| :: PathsHavePolarity(children[i], positive)
    case Any(children) => forall i | 0 <= i < |children| :: PathsHavePolarity(children[i], positive)
    case Not(child) => PathsHavePolarity(child, !positive)
    case _ => true
  }

  predicate PathFree(p: QueryPredicate) {
    PathsHavePolarity(p, true) && PathsHavePolarity(p, false)
  }

  /** `context` is what a component row is evaluated against in memory, under some asset path. */
  predicate Describes(row: Row, context: ContentContext) {
    && row.ecosystem == EcosystemName(context.ecosystem)
    && context.coordinate.Some?
    && context.coordinate.value.name == row.name
  }

  function TextValues(params: seq<string>): (r: seq<Value>)
    ensures |r| == |params|
    ensures forall i | 0 <= i < |params| :: r[i] == TextValue(params[i])
  {
    seq(|params|, i requires 0 <= i < |params| => TextValue(params[i]))
  }

  /** `values` binds `texts` at the placeholders after `base`. */
  predicate BindsAt(values: seq<Value>, base: nat, texts: seq<string>) {
    && base + |texts| <= |values|
    && forall i | 0 <= i < |texts| :: values[base + i] == TextValue(texts[i])
  }

  lemma BindsAtSplit(values: seq<Value>, base: nat, first: seq<string>, others: seq<string>)
    requires BindsAt(values, base, first + others)
    ensures BindsAt(values, base, first)
    ensures BindsAt(values, base + |first|, others)
  {
    forall i | 0 <= i < |first|
      ensures values[base + i] == TextValue(first[i])
    {
      assert (first + others)[i] == first[i];
    }
    forall i | 0 <= i < |others|
      ensures values[base + |first| + i] == TextValue(others[i])
    {
      assert (first + others)[|first| + i] == others[i];
    }
  }

  lemma {:induction false} EvaluatesTo(p: QueryPredicate, base: nat, values: seq<Value>, row: Row,
                                       context: ContentContext)
    requires BindsAt(values, base, ParamsOf(p)) && Describes(row, context)
    ensures Eval(ExprOf(p, base), values, row) == Some(Evaluate(ErasePaths(p), context))
    decreases p, 1
  {
    match p
    case InEcosystem(ecosystem) =>
      assert values[base + 0] == TextValue(ParamsOf(p)[0]);
      if row.ecosystem == EcosystemName(ecosystem) {
        EcosystemNamesDistinct(ecosystem, context.ecosystem);
      }
    case CoordinateName(ExactName(name)) =>
      assert values[base + 0] == TextValue(ParamsOf(p)[0]);
    case CoordinateName(PrefixName(prefix)) =>
      assert values[base + 0] == TextValue(ParamsOf(p)[0]);
      Like.EscapedPrefixMatchesExactlyPrefixes(prefix, row.name);
      assert "%" == [Like.WILDCARD_MANY];
    case All(children) =>
      if children != [] {
        ChainEvaluatesTo(children, base, true, values, row, context);
        EvaluateEachIsEvaluate(children, context);
      }
    case Any(children) =>
      if children != [] {
        ChainEvaluatesTo(children, base, false, values, row, context);
        EvaluateEachIsEvaluate(children, context);
      }
    case Not(child) => EvaluatesTo(child, base, values, row, context);
    case _ =>
  }

  lemma {:induction false} ChainEvaluatesTo(
    ps: seq<QueryPredicate>, base: nat, conjoin: bool, values: seq<Value>, row: Row, context: ContentContext)
    requires ps != [] && BindsAt(values, base, ParamsOfAll(ps)) && Describes(row, context)
    ensures Eval(Chain(ps, base, conjoin), values, row) == Some(EvaluateEach(ps, conjoin, context))
    decreases ps, 0
  {
    BindsAtSplit(values, base, ParamsOf(ps[0]), ParamsOfAll(ps[1..]));
    EvaluatesTo(ps[0], base, values, row, context);
    if |ps| > 1 {
      ChainEvaluatesTo(ps[1..], base + |ParamsOf(ps[0])|, conjoin, values, row, context);
    }
  }

  predicate EvaluateEach(ps: seq<QueryPredicate>, conjoin: bool, context: ContentContext)
    requires ps != []
  {
    var first := Evaluate(ErasePaths(ps[0]), context);
    if |ps| == 1 then first
    else if conjoin then first && EvaluateEach(ps[1..], conjoin, context)
    else first || EvaluateEach(ps[1..], conjoin, context)
  }

  lemma {:induction false} EvaluateEachIsEvaluate(ps: seq<QueryPredicate>, context: ContentContext)
    requires ps != []
    ensures EvaluateEach(ps, true, context) == Evaluate(All(EraseEach(ps)), context)
    ensures EvaluateEach(ps, false, context) == Evaluate(Any(EraseEach(ps)), context)
  {
    if |ps| == 1 {
      assert EraseEach(ps) == [ErasePaths(ps[0])];
    } else {
      EvaluateEachIsEvaluate(ps[1..], context);
      EvaluateCons(ErasePaths(ps[0]), EraseEach(ps[1..]), context);
      assert EraseEach(ps) == [ErasePaths(ps[0])] + EraseEach(ps[1..]);
    }
  }

  lemma EvaluateCons(first: QueryPredicate, others: seq<QueryPredicate>, context: ContentContext)
    ensures Evaluate(All([first] + others), context) == (Evaluate(first, context) && Evaluate(All(others), context))
    ensures Evaluate(Any([first] + others), context) == (Evaluate(first, context) || Evaluate(Any(others), context))
  {
    var all := [first] + others;
    assert all[0] == first;
    assert forall i | 0 <= i < |others| :: all[i + 1] == others[i];
    assert forall i | 1 <= i < |all| :: all[i] == others[i - 1];
  }

  // ---------------------------------------------------------------------------
  // Main results
  // ---------------------------------------------------------------------------

  /** The database's answer for one row: read the whole text as a condition, then evaluate it. */
  function RunWhere(sql: string, values: seq<Value>, row: Row): Option<bool> {
    var tokens :- Lex(sql);
    var (e, rest) :- ParseOr(tokens);
    if rest == [] then Eval(e, values, row) else None
  }

  lemma ConditionLexes(p: QueryPredicate)
    ensures Lex(TextOf(p, 0)) == Some(TokensOf(p, 0))
  {
    SpelledBy(p, 0);
    LexRendered(PiecesOf(p, 0));
  }

  lemma ConditionParsesTo(p: QueryPredicate, rest: seq<Token>)
    requires EndsCondition(rest)
    ensures ParseOr(TokensOf(p, 0) + rest) == Some((ExprOf(p, 0), rest))
  {
    ParsesTo(p, 0, rest);
    ParsesAlone(TokensOf(p, 0) + rest, ExprOf(p, 0), rest);
  }

  /** The compiled text, lexed and parsed as a whole, is the predicate's own expression. */
  lemma TextReadsBack(p: QueryPredicate)
    ensures Lex(Compiled(p).sql).Some?
    ensures ParseOr(Lex(Compiled(p).sql).value) == Some((ExprOf(p, 0), []))
  {
    ConditionLexes(p);
    ConditionParsesTo(p, []);
    assert TokensOf(p, 0) + [] == TokensOf(p, 0);
  }

  /** The compiled text is always accepted, and on every component row it holds exactly when the
    * predicate with its path leaves made false holds of the row's context. */
  lemma CompiledTextMeansPredicate(p: QueryPredicate, row: Row, context: ContentContext)
    requires Describes(row, context)
    ensures RunWhere(Compiled(p).sql, TextValues(Compiled(p).params), row)
         == Some(Evaluate(ErasePaths(p), context))
  {
    TextReadsBack(p);
    EvaluatesTo(p, 0, TextValues(ParamsOf(p)), row, context);
  }

  /** Erasing paths only removes matches where paths stand positively, and only adds matches where
    * they stand negatively. */
  lemma {:induction false} ErasingPathsIsMonotone(p: QueryPredicate, positive: bool, context: ContentContext)
    requires PathsHavePolarity(p, positive)
    ensures positive && Evaluate(ErasePaths(p), context) ==> Evaluate(p, context)
    ensures !positive && Evaluate(p, context) ==> Evaluate(ErasePaths(p), context)
  {
    match p
    case All(children) =>
      forall i | 0 <= i < |children| {
        ErasingPathsIsMonotone(children[i], positive, context);
      }
    case Any(children) =>
      forall i | 0 <= i < |children| {
        ErasingPathsIsMonotone(children[i], positive, context);
      }
    case Not(child) => ErasingPathsIsMonotone(child, !positive, context);
    case _ =>
  }

  /** For path-free predicates the database and the in-memory gate agree. */
  lemma PathFreePredicateIsPushedDownExactly(p: QueryPredicate, row: Row, context: ContentContext)
    requires PathFree(p) && Describes(row, context)
    ensures RunWhere(Compiled(p).sql, TextValues(Compiled(p).params), row) == Some(Evaluate(p, context))
  {
    CompiledTextMeansPredicate(p, row, context);
    ErasingPathsIsMonotone(p, true, context);
    ErasingPathsIsMonotone(p, false, context);
  }

  /** Where no path leaf stands under an odd number of `Not`s, a listed row is allowed under every path. */
  lemma PositivePathsFailClosed(p: QueryPredicate, row: Row, context: ContentContext)
    requires PathsHavePolarity(p, true) && Describes(row, context)
    ensures RunWhere(Compiled(p).sql, TextValues(Compiled(p).params), row) == Some(true) ==> Evaluate(p, context)
  {
    CompiledTextMeansPredicate(p, row, context);
    ErasingPathsIsMonotone(p, true, context);
  }

  /** Under `Not` the same compilation opens up: every row is listed although every path is excluded. */
  lemma NegatedPathFailsOpen(row: Row, context: ContentContext)
    requires Describes(row, context)
    ensures var p := Not(PathPrefix(""));
            && RunWhere(Compiled(p).sql, TextValues(Compiled(p).params), row) == Some(true)
            && !Evaluate(p, context)
  {
    CompiledTextMeansPredicate(Not(PathPrefix("")), row, context);
  }

  /** A predicate under some number of negations. */
  function Negated(p: QueryPredicate, times: nat): QueryPredicate {
    if times == 0 then p else Not(Negated(p, times - 1))
  }

  /** For a single path leaf under negations the polarity condition is exact: it fails closed on every row and
    * path if and only if the number of negations is even. */
  lemma NegationsFailClosedExactly(prefix: string, times: nat, row: Row, context: ContentContext)
    requires Describes(row, context)
    ensures RunWhere(Compiled(Negated(PathPrefix(prefix), times)).sql,
                     TextValues(Compiled(Negated(PathPrefix(prefix), times)).params), row)
            == Some(times % 2 == 1)
    ensures PathsHavePolarity(Negated(PathPrefix(prefix), times), true) <==> times % 2 == 0
    ensures Evaluate(Negated(PathPrefix(prefix), times), context)
            <==> (Evaluate(PathPrefix(prefix), context) <==> times % 2 == 0)
  {
    CompiledTextMeansPredicate(Negated(PathPrefix(prefix), times), row, context);
    NegatedEvaluates(PathPrefix(prefix), times, context);
  }

  lemma {:induction false} NegatedEvaluates(p: QueryPredicate, times: nat, context: ContentContext)
    requires p.PathPrefix?
    ensures Evaluate(Negated(p, times), context) <==> (Evaluate(p, context) <==> times % 2 == 0)
    ensures Evaluate(ErasePaths(Negated(p, times)), context) <==> times % 2 == 1
    ensures PathsHavePolarity(Negated(p, times), true) <==> times % 2 == 0
    ensures PathsHavePolarity(Negated(p, times), false) <==> times % 2 == 1
  {
    if times > 0 {
      NegatedEvaluates(p, times - 1, context);
    }
  }

  /** The placeholders of a condition, read left to right, are numbered consecutively from the ones
    * bound before it: each bound value is used once, in order. */
  lemma {:induction false} PlaceholdersAreConsecutive(p: QueryPredicate, base: nat)
    ensures var ns := Placeholders(TokensOf(p, base));
            |ns| == |ParamsOf(p)| && NumberedAfter(ns, base)
    decreases p, 1
  {
    match p
    case All(children) =>
      if children != [] {
        ListPlaceholders(children, base, "AND");
        WrapPlaceholders([LParen], TokensOfList(children, base, "AND"), [RParen]);
      }
    case Any(children) =>
      if children != [] {
        ListPlaceholders(children, base, "OR");
        WrapPlaceholders([LParen], TokensOfList(children, base, "OR"), [RParen]);
      }
    case Not(child) =>
      PlaceholdersAreConsecutive(child, base);
      WrapPlaceholders([LParen, Word("NOT"), LParen], TokensOf(child, base), [RParen, RParen]);
    case _ => LeafPlaceholders(p, base);
  }

  lemma {:induction false} ListPlaceholders(ps: seq<QueryPredicate>, base: nat, operator: string)
    requires ps != []
    ensures var ns := Placeholders(TokensOfList(ps, base, operator));
            |ns| == |ParamsOfAll(ps)| && NumberedAfter(ns, base)
    decreases ps, 0
  {
    PlaceholdersAreConsecutive(ps[0], base);
    if |ps| > 1 {
      var base' := base + |ParamsOf(ps[0])|;
      ListPlaceholders(ps[1..], base', operator);
      JoinPlaceholders(TokensOf(ps[0], base), base, operator, TokensOfList(ps[1..], base', operator));
    } else {
      assert ParamsOfAll(ps) == ParamsOf(ps[0]);
    }
  }

  lemma NoPlaceholders(ts: seq<Token>)
    requires forall t | t in ts :: !t.Param?
    ensures Placeholders(ts) == []
  {
  }

  lemma LeafPlaceholders(p: QueryPredicate, base: nat)
    requires !p.All? && !p.Any? && !p.Not?
    ensures Placeholders(TokensOf(p, base)) == if ParamsOf(p) == [] then [] else [base + 1]
    ensures |ParamsOf(p)| <= 1
  {
    var ts := TokensOf(p, base);
    if |ts| == 1 {
      NoPlaceholders(ts);
    } else {
      PlaceholdersConcat(ts[..2], ts[2..]);
      NoPlaceholders(ts[..2]);
      NoPlaceholders(ts[2..][1..]);
      assert ts == ts[..2] + ts[2..];
    }
  }

  lemma WrapPlaceholders(open: seq<Token>, inner: seq<Token>, close: seq<Token>)
    requires forall t | t in open + close :: !t.Param?
    ensures Placeholders(open + inner + close) == Placeholders(inner)
  {
    PlaceholdersConcat(open + inner, close);
    PlaceholdersConcat(open, inner);
    NoPlaceholders(open);
    NoPlaceholders(close);
  }

  lemma JoinPlaceholders(first: seq<Token>, base: nat, operator: string, others: seq<Token>)
    requires NumberedAfter(Placeholders(first), base)
    requires NumberedAfter(Placeholders(others), base + |Placeholders(first)|)
    ensures var ns := Placeholders(first + ([Word(operator)] + others));
            |ns| == |Placeholders(first)| + |Placeholders(others)| && NumberedAfter(ns, base)
  {
    PlaceholdersConcat(first, [Word(operator)] + others);
    PlaceholdersConcat([Word(operator)], others);
    NoPlaceholders([Word(operator)]);
  }
}
