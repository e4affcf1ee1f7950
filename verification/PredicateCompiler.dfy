/** Compilation of a listing predicate into a parameterised SQL condition. */
module PredicateCompiler {
  import opened Wrappers
  import opened Text
  import opened Packages
  import opened Authz
  import Like

  datatype CompiledPredicate = CompiledPredicate(sql: string, params: seq<string>)

  function Join(parts: seq<string>, separator: string): string {
    if parts == [] then "" else if |parts| == 1 then parts[0] else parts[0] + separator + Join(parts[1..], separator)
  }

  function PrefixPattern(prefix: string): string {
    Like.Escaped(prefix) + "%"
  }

  // ---------------------------------------------------------------------------
  // What the compiler computes
  // ---------------------------------------------------------------------------

  /** The values a predicate binds, left to right. */
  function ParamsOf(p: QueryPredicate): seq<string>
    decreases p, 1
  {
    match p
    case InEcosystem(ecosystem) => [EcosystemName(ecosystem)]
    case CoordinateName(ExactName(name)) => [name]
    case CoordinateName(PrefixName(prefix)) => [PrefixPattern(prefix)]
    case All(children) => ParamsOfAll(children)
    case Any(children) => ParamsOfAll(children)
    case Not(child) => ParamsOf(child)
    case _ => []
  }

  function ParamsOfAll(ps: seq<QueryPredicate>): seq<string>
    decreases ps, 0
  {
    if ps == [] then [] else ParamsOf(ps[0]) + ParamsOfAll(ps[1..])
  }

  /** The condition's text when `base` values were bound before it. */
  function TextOf(p: QueryPredicate, base: nat): string
    decreases p, 1
  {
    var placeholder := "$" + Decimal(base + 1);
    match p
    case Always => "TRUE"
    case Never => "FALSE"
    case InEcosystem(_) => "ecosystem = " + placeholder
    case CoordinateName(AnyName) => "TRUE"
    case CoordinateName(ExactName(_)) => "name = " + placeholder
    case CoordinateName(PrefixName(_)) => "name LIKE " + placeholder + " ESCAPE '\\'"
    case PathPrefix(_) => "FALSE"
    case PathEquals(_) => "FALSE"
    case All(children) => if children == [] then "TRUE" else "(" + Join(TextsOf(children, base), " AND ") + ")"
    case Any(children) => if children == [] then "FALSE" else "(" + Join(TextsOf(children, base), " OR ") + ")"
    case Not(child) => "(NOT (" + TextOf(child, base) + "))"
  }

  function TextsOf(ps: seq<QueryPredicate>, base: nat): (r: seq<string>)
    ensures |r| == |ps|
    decreases ps, 0
  {
    if ps == [] then [] else [TextOf(ps[0], base)] + TextsOf(ps[1..], base + |ParamsOf(ps[0])|)
  }

  function Compiled(p: QueryPredicate): CompiledPredicate {
    CompiledPredicate(TextOf(p, 0), ParamsOf(p))
  }

  lemma ParamsOfAllSnoc(ps: seq<QueryPredicate>, p: QueryPredicate)
    ensures ParamsOfAll(ps + [p]) == ParamsOfAll(ps) + ParamsOf(p)
  {
    if ps == [] {
      assert ps + [p] == [p];
    } else {
      assert (ps + [p])[1..] == ps[1..] + [p];
      ParamsOfAllSnoc(ps[1..], p);
    }
  }

  lemma TextsOfSnoc(ps: seq<QueryPredicate>, p: QueryPredicate, base: nat)
    ensures TextsOf(ps + [p], base) == TextsOf(ps, base) + [TextOf(p, base + |ParamsOfAll(ps)|)]
  {
    if ps == [] {
      assert ps + [p] == [p];
    } else {
      assert (ps + [p])[1..] == ps[1..] + [p];
      TextsOfSnoc(ps[1..], p, base + |ParamsOf(ps[0])|);
    }
  }

  // ---------------------------------------------------------------------------
  // The compiler, pushing into one shared parameter buffer
  // ---------------------------------------------------------------------------

  class ParamBuffer {
    var values: seq<string>

    constructor ()
      ensures values == []
    {
      values := [];
    }
  }

  method Placeholder(params: ParamBuffer, value: string) returns (text: string)
    modifies params
    ensures params.values == old(params.values) + [value]
    ensures text == "$" + Decimal(|old(params.values)| + 1)
  {
    params.values := params.values + [value];
    text := "$" + Decimal(|params.values|);
  }

  method CompileInto(p: QueryPredicate, params: ParamBuffer) returns (sql: string)
    modifies params
    ensures params.values == old(params.values) + ParamsOf(p)
    ensures sql == TextOf(p, |old(params.values)|)
    decreases p, 1
  {
    match p
    case Always => sql := "TRUE";
    case Never => sql := "FALSE";
    case InEcosystem(ecosystem) =>
      var placeholder := Placeholder(params, EcosystemName(ecosystem));
      sql := "ecosystem = " + placeholder;
    case CoordinateName(AnyName) => sql := "TRUE";
    case CoordinateName(ExactName(name)) =>
      var placeholder := Placeholder(params, name);
      sql := "name = " + placeholder;
    case CoordinateName(PrefixName(prefix)) =>
      var escaped := Like.EscapePrefix(prefix);
      var placeholder := Placeholder(params, escaped + "%");
      sql := "name LIKE " + placeholder + " ESCAPE '\\'";
    case PathPrefix(_) => sql := "FALSE";
    case PathEquals(_) => sql := "FALSE";
    case All(children) =>
      assert " " + "AND" + " " == " AND ";
      sql := Combine(children, params, "AND", "TRUE");
    case Any(children) =>
      assert " " + "OR" + " " == " OR ";
      sql := Combine(children, params, "OR", "FALSE");
    case Not(child) =>
      var inner := CompileInto(child, params);
      sql := "(NOT (" + inner + "))";
  }

  method Combine(children: seq<QueryPredicate>, params: ParamBuffer, operator: string, empty: string)
    returns (sql: string)
    modifies params
    ensures params.values == old(params.values) + ParamsOfAll(children)
    ensures sql == if children == [] then empty
                   else "(" + Join(TextsOf(children, |old(params.values)|), " " + operator + " ") + ")"
    decreases children, 0
  {
    if children == [] {
      return empty;
    }
    var parts: seq<string> := [];
    for i := 0 to |children|
      invariant params.values == old(params.values) + ParamsOfAll(children[..i])
      invariant parts == TextsOf(children[..i], |old(params.values)|)
    {
      ParamsOfAllSnoc(children[..i], children[i]);
      TextsOfSnoc(children[..i], children[i], |old(params.values)|);
      assert children[..i + 1] == children[..i] + [children[i]];
      var part := CompileInto(children[i], params);
      parts := parts + [part];
    }
    assert children[..|children|] == children;
    sql := "(" + Join(parts, " " + operator + " ") + ")";
  }

  method Compile(p: QueryPredicate) returns (compiled: CompiledPredicate)
    ensures compiled == Compiled(p)
  {
    var params := new ParamBuffer();
    var sql := CompileInto(p, params);
    compiled := CompiledPredicate(sql, params.values);
  }
}
