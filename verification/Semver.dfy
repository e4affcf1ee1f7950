/** Semantic versions and version requirements: precedence by section 11 of Semantic Versioning 2.0.0
  * (build metadata breaking ties) and matching by Cargo's version requirement rules. */
module Semver {
  import opened Wrappers
  import opened Text
  import opened Ordering

  datatype Version = Version(major: nat, minor: nat, patch: nat, pre: string, build: string) {
    predicate IsStable() { pre == "" }
  }

  datatype Op = Exact | Greater | GreaterEq | Less | LessEq | Tilde | Caret | Wildcard

  datatype Comparator = Comparator(op: Op, major: nat, minor: Option<nat>, patch: Option<nat>, pre: string)

  type Requirement = seq<Comparator>

  // ---------------------------------------------------------------------------
  // Precedence
  // ---------------------------------------------------------------------------

  predicate IsNotDot(c: char) {
    c != '.'
  }

  /** The dot-separated identifiers of a pre-release or build string. */
  function Identifiers(s: string): (r: seq<string>)
    ensures r != []
  {
    var n := Span(s, IsNotDot);
    if n == |s| then [s] else [s[..n]] + Identifiers(s[n + 1..])
  }

  /** Numeric identifiers compare by value (then by length, which only build metadata can differ in)
    * and come before alphanumeric ones, which compare in ASCII order. */
  function CompareIdentifiers(a: string, b: string): Order {
    if AllDigits(a) && AllDigits(b) then CompareNat(DecimalValue(a), DecimalValue(b)).Then(CompareNat(|a|, |b|))
    else if AllDigits(a) then LT
    else if AllDigits(b) then GT
    else CompareStrings(a, b)
  }

  function CompareIdentifierLists(a: seq<string>, b: seq<string>): Order {
    if a == [] && b == [] then EQ
    else if a == [] then LT
    else if b == [] then GT
    else CompareIdentifiers(a[0], b[0]).Then(CompareIdentifierLists(a[1..], b[1..]))
  }

  /** A release comes after all of its pre-releases. */
  function ComparePre(a: string, b: string): Order {
    if a == "" && b == "" then EQ
    else if a == "" then GT
    else if b == "" then LT
    else CompareIdentifierLists(Identifiers(a), Identifiers(b))
  }

  function CompareBuild(a: string, b: string): Order {
    CompareIdentifierLists(Identifiers(a), Identifiers(b))
  }

  function CompareCore(a: Version, b: Version): Order {
    CompareNat(a.major, b.major).Then(CompareNat(a.minor, b.minor).Then(CompareNat(a.patch, b.patch)))
  }

  /** Precedence proper: build metadata does not take part. */
  function ComparePrecedence(a: Version, b: Version): Order {
    CompareCore(a, b).Then(ComparePre(a.pre, b.pre))
  }

  /** The total order versions are sorted by: precedence, then build metadata. */
  function Compare(a: Version, b: Version): Order {
    ComparePrecedence(a, b).Then(CompareBuild(a.build, b.build))
  }

  lemma IdentifiersChain(a: string, b: string, c: string)
    ensures Chains(CompareIdentifiers(a, b), CompareIdentifiers(b, c), CompareIdentifiers(a, c))
  {
    CompareStringsChains(a, b, c);
  }

  lemma IdentifiersFlip(a: string, b: string)
    ensures CompareIdentifiers(b, a) == CompareIdentifiers(a, b).Flip()
    ensures CompareIdentifiers(a, a) == EQ
  {
    CompareStringsFlips(a, b);
    CompareStringsFlips(a, a);
  }

  lemma {:induction false} ListsChain(a: seq<string>, b: seq<string>, c: seq<string>)
    ensures Chains(CompareIdentifierLists(a, b), CompareIdentifierLists(b, c), CompareIdentifierLists(a, c))
  {
    if a != [] && b != [] && c != [] {
      ListsChain(a[1..], b[1..], c[1..]);
      IdentifiersChain(a[0], b[0], c[0]);
      ThenChains(CompareIdentifiers(a[0], b[0]), CompareIdentifiers(b[0], c[0]), CompareIdentifiers(a[0], c[0]),
                 CompareIdentifierLists(a[1..], b[1..]), CompareIdentifierLists(b[1..], c[1..]),
                 CompareIdentifierLists(a[1..], c[1..]));
    }
  }

  lemma {:induction false} ListsFlip(a: seq<string>, b: seq<string>)
    ensures CompareIdentifierLists(b, a) == CompareIdentifierLists(a, b).Flip()
    ensures CompareIdentifierLists(a, a) == EQ
    decreases |a| + |b|
  {
    if a != [] {
      IdentifiersFlip(a[0], a[0]);
      ListsFlip(a[1..], if b == [] then [] else b[1..]);
      if b != [] {
        IdentifiersFlip(a[0], b[0]);
      }
    }
  }

  lemma PreChains(a: string, b: string, c: string)
    ensures Chains(ComparePre(a, b), ComparePre(b, c), ComparePre(a, c))
  {
    ListsChain(Identifiers(a), Identifiers(b), Identifiers(c));
  }

  lemma CoreChains(a: Version, b: Version, c: Version)
    ensures Chains(CompareCore(a, b), CompareCore(b, c), CompareCore(a, c))
  {
  }

  lemma PrecedenceChains(a: Version, b: Version, c: Version)
    ensures Chains(ComparePrecedence(a, b), ComparePrecedence(b, c), ComparePrecedence(a, c))
  {
    CoreChains(a, b, c);
    PreChains(a.pre, b.pre, c.pre);
    ThenChains(CompareCore(a, b), CompareCore(b, c), CompareCore(a, c),
               ComparePre(a.pre, b.pre), ComparePre(b.pre, c.pre), ComparePre(a.pre, c.pre));
  }

  lemma CompareChains(a: Version, b: Version, c: Version)
    ensures Chains(Compare(a, b), Compare(b, c), Compare(a, c))
  {
    PrecedenceChains(a, b, c);
    ListsChain(Identifiers(a.build), Identifiers(b.build), Identifiers(c.build));
    ThenChains(ComparePrecedence(a, b), ComparePrecedence(b, c), ComparePrecedence(a, c),
               CompareBuild(a.build, b.build), CompareBuild(b.build, c.build), CompareBuild(a.build, c.build));
  }

  lemma PrecedenceFlips(a: Version, b: Version)
    ensures ComparePrecedence(b, a) == ComparePrecedence(a, b).Flip()
    ensures ComparePrecedence(a, a) == EQ
  {
    ListsFlip(Identifiers(a.pre), Identifiers(b.pre));
  }

  lemma CompareFlips(a: Version, b: Version)
    ensures Compare(b, a) == Compare(a, b).Flip()
    ensures Compare(a, a) == EQ
  {
    PrecedenceFlips(a, b);
    ListsFlip(Identifiers(a.build), Identifiers(b.build));
  }

  // ---------------------------------------------------------------------------
  // Versions that compare equal are equal
  // ---------------------------------------------------------------------------

  function JoinDots(ids: seq<string>): string
    requires ids != []
  {
    if |ids| == 1 then ids[0] else ids[0] + "." + JoinDots(ids[1..])
  }

  lemma {:induction false} JoinIdentifiers(s: string)
    ensures JoinDots(Identifiers(s)) == s
  {
    var n := Span(s, IsNotDot);
    if n < |s| {
      JoinIdentifiers(s[n + 1..]);
      assert Identifiers(s)[1..] == Identifiers(s[n + 1..]);
      assert s == s[..n] + "." + s[n + 1..];
    }
  }

  lemma {:induction false} SameLengthSameValue(a: string, b: string)
    requires AllDigits(a) && AllDigits(b) && |a| == |b| && DecimalValue(a) == DecimalValue(b)
    ensures a == b
  {
    if a != "" {
      var n := |a| - 1;
      assert a == a[..n] + [a[n]] && b == b[..n] + [b[n]];
      assert DigitValue(a[n]) == DecimalValue(a) % 10 && DigitValue(b[n]) == DecimalValue(b) % 10;
      SameLengthSameValue(a[..n], b[..n]);
    }
  }

  lemma {:induction false} EqualListsAreSame(a: seq<string>, b: seq<string>)
    requires CompareIdentifierLists(a, b) == EQ
    ensures a == b
  {
    if a != [] && b != [] {
      if AllDigits(a[0]) && AllDigits(b[0]) {
        SameLengthSameValue(a[0], b[0]);
      }
      CompareStringsFlips(a[0], b[0]);
      EqualListsAreSame(a[1..], b[1..]);
      assert a == [a[0]] + a[1..] && b == [b[0]] + b[1..];
    }
  }

  lemma EqualTagsAreSame(a: string, b: string)
    requires CompareIdentifierLists(Identifiers(a), Identifiers(b)) == EQ
    ensures a == b
  {
    EqualListsAreSame(Identifiers(a), Identifiers(b));
    JoinIdentifiers(a);
    JoinIdentifiers(b);
  }

  lemma EqualPreIsSame(a: string, b: string)
    ensures ComparePre(a, b) == EQ <==> a == b
  {
    ListsFlip(Identifiers(a), Identifiers(b));
    if ComparePre(a, b) == EQ && a != "" && b != "" {
      EqualTagsAreSame(a, b);
    }
  }

  /** The order is antisymmetric: only a version itself compares equal to it. */
  lemma EqualMeansSame(a: Version, b: Version)
    ensures Compare(a, b) == EQ <==> a == b
  {
    EqualPreIsSame(a.pre, b.pre);
    CompareFlips(a, b);
    if Compare(a, b) == EQ {
      EqualTagsAreSame(a.build, b.build);
    }
  }

  /** Dropping build metadata never moves a version up. */
  lemma WithoutBuildIsNotGreater(v: Version)
    ensures Compare(v, v.(build := "")) == if v.build == "" then EQ else GT
  {
    PrecedenceFlips(v, v);
    CompareFlips(v, v);
    if v.build != "" {
      EmptyBuildIsLeast(v.build);
    }
  }

  lemma EmptyBuildIsLeast(build: string)
    requires build != ""
    ensures CompareBuild(build, "") == GT
  {
    var ids := Identifiers(build);
    assert Identifiers("") == [""];
    if ids[0] == "" {
      assert |ids| > 1;
      IdentifiersFlip("", "");
      assert CompareIdentifierLists(ids[1..], [""][1..]) == GT;
    } else {
      assert CompareIdentifiers(ids[0], "") == GT;
    }
  }

  // ---------------------------------------------------------------------------
  // Matching
  // ---------------------------------------------------------------------------

  predicate MatchesExact(c: Comparator, v: Version) {
    && v.major == c.major
    && (c.minor.Some? ==> v.minor == c.minor.value)
    && (c.patch.Some? ==> v.patch == c.patch.value)
    && v.pre == c.pre
  }

  predicate MatchesGreater(c: Comparator, v: Version) {
    if v.major != c.major then v.major > c.major
    else if c.minor.None? then false
    else if v.minor != c.minor.value then v.minor > c.minor.value
    else if c.patch.None? then false
    else if v.patch != c.patch.value then v.patch > c.patch.value
    else ComparePre(v.pre, c.pre) == GT
  }

  predicate MatchesLess(c: Comparator, v: Version) {
    if v.major != c.major then v.major < c.major
    else if c.minor.None? then false
    else if v.minor != c.minor.value then v.minor < c.minor.value
    else if c.patch.None? then false
    else if v.patch != c.patch.value then v.patch < c.patch.value
    else ComparePre(v.pre, c.pre) == LT
  }

  predicate MatchesTilde(c: Comparator, v: Version) {
    if v.major != c.major then false
    else if c.minor.Some? && v.minor != c.minor.value then false
    else if c.patch.Some? && v.patch != c.patch.value then v.patch > c.patch.value
    else ComparePre(v.pre, c.pre) != LT
  }

  predicate MatchesCaret(c: Comparator, v: Version) {
    if v.major != c.major then false
    else if c.minor.None? then true
    else if c.patch.None? then if c.major > 0 then v.minor >= c.minor.value else v.minor == c.minor.value
    else if c.major > 0 && v.minor != c.minor.value then v.minor > c.minor.value
    else if c.major > 0 && v.patch != c.patch.value then v.patch > c.patch.value
    else if c.major == 0 && v.minor != c.minor.value then false
    else if c.major == 0 && c.minor.value > 0 && v.patch != c.patch.value then v.patch > c.patch.value
    else if c.major == 0 && c.minor.value == 0 && v.patch != c.patch.value then false
    else ComparePre(v.pre, c.pre) != LT
  }

  predicate MatchesComparator(c: Comparator, v: Version) {
    match c.op
    case Exact => MatchesExact(c, v)
    case Wildcard => MatchesExact(c, v)
    case Greater => MatchesGreater(c, v)
    case GreaterEq => MatchesExact(c, v) || MatchesGreater(c, v)
    case Less => MatchesLess(c, v)
    case LessEq => MatchesExact(c, v) || MatchesLess(c, v)
    case Tilde => MatchesTilde(c, v)
    case Caret => MatchesCaret(c, v)
  }

  /** Whether the comparator opts in to pre-releases of the version's own major.minor.patch. */
  predicate OptsIn(c: Comparator, v: Version) {
    c.major == v.major && c.minor == Some(v.minor) && c.patch == Some(v.patch) && c.pre != ""
  }

  predicate Matches(requirement: Requirement, v: Version) {
    && (forall c | c in requirement :: MatchesComparator(c, v))
    && (v.pre != "" ==> exists c | c in requirement :: OptsIn(c, v))
  }

  // ---------------------------------------------------------------------------
  // Lower bounds
  // ---------------------------------------------------------------------------

  function LowerBound(c: Comparator): Version {
    Version(c.major, if c.minor.Some? then c.minor.value else 0, if c.patch.Some? then c.patch.value else 0, c.pre, "")
  }

  /** Whether the comparator sets an inclusive lower bound; a strict `>` does not. */
  predicate IsLowerBound(op: Op) {
    op in {Exact, GreaterEq, Tilde, Caret, Wildcard}
  }

  /** The greatest inclusive lower bound among the comparators, if any. */
  function GreatestLowerBound(requirement: Requirement): Option<Version> {
    if requirement == [] then None
    else
      var c := requirement[|requirement| - 1];
      var others := GreatestLowerBound(requirement[..|requirement| - 1]);
      if !IsLowerBound(c.op) then others
      else if others.None? || Compare(LowerBound(c), others.value) != LT then Some(LowerBound(c))
      else others
  }

  lemma {:induction false} GreatestLowerBoundIsMax(requirement: Requirement)
    ensures var lower := GreatestLowerBound(requirement);
            && (lower.None? <==> forall c | c in requirement :: !IsLowerBound(c.op))
            && (lower.Some? ==> exists c | c in requirement :: IsLowerBound(c.op) && LowerBound(c) == lower.value)
            && (lower.Some?
                ==> forall c | c in requirement && IsLowerBound(c.op) :: Compare(LowerBound(c), lower.value) != GT)
  {
    if requirement != [] {
      var front, c := requirement[..|requirement| - 1], requirement[|requirement| - 1];
      GreatestLowerBoundIsMax(front);
      assert requirement == front + [c];
      var lower := GreatestLowerBound(requirement);
      if lower.Some? {
        forall d | d in requirement && IsLowerBound(d.op)
          ensures Compare(LowerBound(d), lower.value) != GT
        {
          CompareFlips(LowerBound(d), LowerBound(d));
          CompareFlips(LowerBound(c), lower.value);
          if d in front {
            CompareChains(LowerBound(d), GreatestLowerBound(front).value, lower.value);
            CompareFlips(LowerBound(c), GreatestLowerBound(front).value);
          }
        }
      }
    }
  }

  /** What every parsed comparator satisfies: parts are given from the left. */
  predicate WellFormed(c: Comparator) {
    && (c.minor.None? ==> c.patch.None?)
    && (c.patch.None? ==> c.pre == "")
  }

  /** A comparator with an inclusive lower bound allows no stable version below it. */
  lemma StableMatchIsAboveLowerBound(c: Comparator, v: Version)
    requires WellFormed(c) && IsLowerBound(c.op) && v.IsStable() && MatchesComparator(c, v)
    ensures ComparePrecedence(v, LowerBound(c)) != LT
  {
  }

  /** Without a strict `>`, what a comparator allows among stable versions has no gaps above its bound. */
  lemma ComparatorsAreConvex(c: Comparator, target: Version, v: Version)
    requires WellFormed(c) && c.op != Greater && target.IsStable() && v.IsStable() && MatchesComparator(c, v)
    requires IsLowerBound(c.op) ==> ComparePrecedence(target, LowerBound(c)) != LT
    requires ComparePrecedence(target, v) != GT
    ensures MatchesComparator(c, target)
  {
  }
}
