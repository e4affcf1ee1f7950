/** The semver versioning scheme: ordering, lower bounds, bump classification and constraint rewriting. */
module Versioning {
  import opened Wrappers
  import opened Text
  import opened Ordering
  import opened Semver
  import opened SemverText
  import opened RequirementText
  import Updates

  type Strategy = Updates.RangeStrategy

  predicate IsValid(version: string) {
    ParseVersion(version).Some?
  }

  predicate IsStableText(version: string) {
    IsValid(version) && ParseVersion(version).value.IsStable()
  }

  function CompareTexts(left: string, right: string): Option<Order> {
    var l :- ParseVersion(left);
    var r :- ParseVersion(right);
    Some(Compare(l, r))
  }

  predicate MatchesText(version: string, constraint: string) {
    && IsValid(version)
    && ParseRequirement(constraint).Some?
    && Matches(ParseRequirement(constraint).value, ParseVersion(version).value)
  }

  /** The greatest inclusive lower bound of a constraint, printed. */
  function MinVersion(constraint: string): Option<string> {
    var requirement :- ParseRequirement(constraint);
    var lower :- GreatestLowerBound(requirement);
    Some(PrintVersion(lower))
  }

  /** Cargo's 0.x rule: the left-most non-zero component is the breaking one. */
  function ClassifyBump(current: Version, candidate: Version): Updates.UpdateType {
    if candidate.major != current.major then Updates.Major
    else if current.major == 0 then
      if candidate.minor != current.minor || current.minor == 0 then Updates.Major else Updates.Patch
    else if candidate.minor != current.minor then Updates.Minor
    else Updates.Patch
  }

  function DiffVersions(current: Version, candidate: Version): Option<Updates.UpdateType> {
    match Compare(candidate, current)
    case LT => Some(Updates.Rollback)
    case EQ => None
    case GT => Some(ClassifyBump(current, candidate))
  }

  function Diff(current: string, candidate: string): Option<Updates.UpdateType> {
    var currentVersion :- ParseVersion(current);
    var candidateVersion :- ParseVersion(candidate);
    DiffVersions(currentVersion, candidateVersion)
  }

  /** A leading `^`, `~` or `=` and the text after it; no operator otherwise. */
  function SplitOperator(value: string): (string, string) {
    var trimmed := Trim(value);
    if trimmed != "" && (trimmed[0] == '^' || trimmed[0] == '~' || trimmed[0] == '=')
    then ([trimmed[0]], Trim(trimmed[1..]))
    else ("", trimmed)
  }

  /** The exclusive upper bound admitting a major version; the source's 64-bit addition wraps. */
  function NextMajor(major: nat): nat {
    (major + 1) % (MAX_U64 + 1)
  }

  function WidenedText(lower: string, major: nat): string {
    ">=" + lower + (", <" + Decimal(NextMajor(major)) + ".0.0")
  }

  function Widen(currentValue: string, target: string): Option<string> {
    var lower :- MinVersion(currentValue);
    var version :- ParseVersion(target);
    Some(WidenedText(lower, version.major))
  }

  /** The operator of a constraint moved onto a target, unless it has a wildcard or is a bound. */
  function MoveOperator(currentValue: string, target: string): Option<string> {
    if '*' in currentValue then None
    else
      var (prefix, rest) := SplitOperator(currentValue);
      if rest == "" || rest[0] == '>' || rest[0] == '<' then None else Some(prefix + target)
  }

  /** A rewrite towards a valid target, given whether the constraint is satisfied by it already. */
  function Rewrite(currentValue: string, strategy: Strategy, target: string, satisfied: bool): Option<string> {
    if strategy == Updates.Pin then Some("=" + target)
    else if strategy == Updates.Replace && satisfied then None
    else if strategy == Updates.Widen || ',' in currentValue then
      if satisfied then None else Widen(currentValue, target)
    else MoveOperator(currentValue, target)
  }

  function GetNewValue(currentValue: string, strategy: Strategy, target: string): Option<string> {
    if !IsValid(target) then None
    else Rewrite(currentValue, strategy, target, MatchesText(target, currentValue))
  }

  // ---------------------------------------------------------------------------
  // Order of version texts
  // ---------------------------------------------------------------------------

  /** Valid version texts compare equal exactly when they are the same text. */
  lemma TextsCompareEqual(a: string, b: string)
    ensures CompareTexts(a, b) == Some(EQ) <==> a == b && IsValid(a)
  {
    if IsValid(a) && IsValid(b) {
      ParsedVersionIsPrinted(a, ParseVersion(a).value);
      ParsedVersionIsPrinted(b, ParseVersion(b).value);
      EqualMeansSame(ParseVersion(a).value, ParseVersion(b).value);
    }
  }

  // ---------------------------------------------------------------------------
  // Lower bounds
  // ---------------------------------------------------------------------------

  /** The bound is valid, so its printed form parses back to it. */
  lemma MinVersionParses(constraint: string)
    requires MinVersion(constraint).Some?
    ensures ParseVersion(MinVersion(constraint).value) == GreatestLowerBound(ParseRequirement(constraint).value)
    ensures ParseVersion(MinVersion(constraint).value).value.build == ""
  {
    var requirement := ParseRequirement(constraint).value;
    RequirementsAreValid(constraint);
    GreatestLowerBoundIsMax(requirement);
    PrintedVersionParses(GreatestLowerBound(requirement).value);
  }

  /** No stable version below the lower bound satisfies the constraint. */
  lemma StableMatchesAreAboveMinVersion(constraint: string, version: string)
    requires MinVersion(constraint).Some? && IsStableText(version) && MatchesText(version, constraint)
    ensures CompareTexts(version, MinVersion(constraint).value) != Some(LT)
  {
    var requirement := ParseRequirement(constraint).value;
    var v := ParseVersion(version).value;
    MinVersionParses(constraint);
    GreatestLowerBoundIsMax(requirement);
    var lower := GreatestLowerBound(requirement).value;
    var c :| c in requirement && IsLowerBound(c.op) && LowerBound(c) == lower;
    StableMatchIsAboveLowerBound(c, v);
    if v.build != "" {
      EmptyBuildIsLeast(v.build);
    } else {
      EqualMeansSame(v, v);
    }
  }

  lemma SingleBound(c: Comparator)
    ensures GreatestLowerBound([c]) == if IsLowerBound(c.op) then Some(LowerBound(c)) else None
  {
    assert [c][..0] == [];
    assert GreatestLowerBound([c][..0]) == None;
  }

  lemma BoundMatches(c: Comparator)
    requires WellFormed(c) && IsLowerBound(c.op)
    ensures Matches([c], LowerBound(c))
  {
    EqualPreIsSame(c.pre, c.pre);
    assert c.pre != "" ==> OptsIn(c, LowerBound(c));
  }

  /** A single comparator allows its own lower bound. */
  lemma SingleBoundIsAllowed(constraint: string, c: Comparator)
    requires ParseRequirement(constraint) == Some([c]) && IsLowerBound(c.op)
    ensures MinVersion(constraint).Some? && MatchesText(MinVersion(constraint).value, constraint)
  {
    SingleBound(c);
    MinVersionParses(constraint);
    assert c in ParseRequirement(constraint).value;
    BoundMatches(c);
  }

  // ---------------------------------------------------------------------------
  // Classification agrees with caret matching
  // ---------------------------------------------------------------------------

  /** A newer candidate is a major bump exactly when `^current` does not admit it, save that every
    * bump inside one 0.0.z core is called major although the caret admits it. */
  lemma MajorMeansCaretBreaks(current: Version, candidate: Version)
    requires Compare(candidate, current) == GT
    ensures ClassifyBump(current, candidate) == Updates.Major
            <==> !MatchesCaret(At(Caret, current), candidate)
                 || (current.major == 0 && current.minor == 0 && CompareCore(candidate, current) == EQ)
  {
  }

  lemma DiffVersionsFollowsOrder(current: Version, candidate: Version)
    ensures DiffVersions(current, candidate) == None <==> candidate == current
    ensures DiffVersions(current, candidate) == Some(Updates.Rollback) <==> Compare(candidate, current) == LT
  {
    EqualMeansSame(candidate, current);
  }

  /** A reported difference is a rollback exactly when the candidate is lower, and there is none exactly
    * when both texts are the same version. */
  lemma DiffFollowsOrder(current: string, candidate: string)
    requires IsValid(current) && IsValid(candidate)
    ensures Diff(current, candidate) == None <==> current == candidate
    ensures Diff(current, candidate) == Some(Updates.Rollback) <==> CompareTexts(candidate, current) == Some(LT)
  {
    ParsedVersionIsPrinted(current, ParseVersion(current).value);
    ParsedVersionIsPrinted(candidate, ParseVersion(candidate).value);
    DiffVersionsFollowsOrder(ParseVersion(current).value, ParseVersion(candidate).value);
  }

  // ---------------------------------------------------------------------------
  // Rewrites that move one operator onto the target
  // ---------------------------------------------------------------------------

  predicate IsOperator(prefix: string) {
    prefix == "" || prefix == "^" || prefix == "~" || prefix == "="
  }

  /** The operator a prefix stands for; no operator means caret. */
  function OperatorOf(prefix: string): Op
    requires IsOperator(prefix)
  {
    if prefix == "=" then Exact else if prefix == "~" then Tilde else Caret
  }

  lemma TargetText(target: string)
    requires IsValid(target)
    ensures var v := ParseVersion(target).value;
            target == PrintVersion(v) && ValidVersion(v) && target != "" && IsDigit(target[0])
  {
    var v := ParseVersion(target).value;
    ParsedVersionIsPrinted(target, v);
    assert target[0] == Decimal(v.major)[0];
  }

  lemma OperatorReads(prefix: string, target: string)
    requires IsOperator(prefix) && target != "" && IsDigit(target[0])
    ensures ReadOp(prefix + target) == (OperatorOf(prefix), |prefix|, prefix == "")
    ensures (prefix + target)[|prefix|..] == target
  {
    var t := prefix + target;
    assert prefix != "" ==> t[0] == prefix[0];
    assert prefix == "" ==> t[0] == target[0];
  }

  /** An operator and a valid version parse to one comparator of that operator on that version. */
  lemma MovedParses(prefix: string, target: string)
    requires IsOperator(prefix) && IsValid(target)
    ensures ParseRequirement(prefix + target) == Some([At(OperatorOf(prefix), ParseVersion(target).value)])
  {
    var v := ParseVersion(target).value;
    TargetText(target);
    OperatorReads(prefix, target);
    SingleRequirementReads(prefix + target, v);
  }

  lemma MatchesOwnVersion(op: Op, v: Version)
    requires op in {Exact, Tilde, Caret}
    ensures Matches([At(op, v)], v)
  {
    EqualPreIsSame(v.pre, v.pre);
    assert v.pre != "" ==> OptsIn(At(op, v), v);
  }

  /** Such a constraint has the target, less its build metadata, as its lower bound, and the target
    * satisfies it, 0.x and pre-release targets included. */
  lemma MovedConstraintAimsAtTarget(prefix: string, target: string)
    requires IsOperator(prefix) && IsValid(target)
    ensures MinVersion(prefix + target) == Some(PrintVersion(ParseVersion(target).value.(build := "")))
    ensures MatchesText(target, prefix + target)
  {
    var v := ParseVersion(target).value;
    var c := At(OperatorOf(prefix), v);
    MovedParses(prefix, target);
    MatchesOwnVersion(OperatorOf(prefix), v);
    SingleBound(c);
  }

  /** The form of every rewrite: pinned, widened, or the old operator moved onto the target. */
  lemma RewriteForms(currentValue: string, strategy: Strategy, target: string)
    ensures var r := GetNewValue(currentValue, strategy, target);
            r.Some? ==>
              && IsValid(target)
              && (strategy == Updates.Pin ==> r == Some("=" + target))
              && (strategy != Updates.Pin && (strategy == Updates.Widen || ',' in currentValue) ==>
                    r == Widen(currentValue, target))
              && (strategy != Updates.Pin && strategy != Updates.Widen && ',' !in currentValue ==>
                    r == Some(SplitOperator(currentValue).0 + target))
    ensures IsOperator(SplitOperator(currentValue).0)
  {
  }

  // ---------------------------------------------------------------------------
  // The operator is kept
  // ---------------------------------------------------------------------------

  lemma {:induction false} TrimAfterSpaces(t: string)
    ensures SkipSpaces(t) != "" && !IsWhitespace(SkipSpaces(t)[0]) ==> TrimStart(t) == SkipSpaces(t)
  {
    if t != "" && t[0] == ' ' {
      TrimAfterSpaces(t[1..]);
    }
  }

  /** The characters a comparator can start with. */
  predicate StartsComparator(c: char) {
    IsDigit(c) || c == '=' || c == '>' || c == '<' || c == '~' || c == '^'
  }

  lemma ComparatorStart(t: string)
    requires ReadComparator(t).Some? && !StartsWith(t, ' ')
    ensures t != "" && StartsComparator(t[0])
  {
  }

  predicate IsStrictOrUpper(op: Op) {
    op == Greater || op == GreaterEq || op == Less || op == LessEq
  }

  /** Which operator a one-comparator requirement text starts with. */
  lemma ComparatorOperator(t: string)
    requires ReadComparator(t).Some? && !StartsWith(t, ' ')
    ensures var op := ReadComparator(t).value.0.op;
            && (t[0] == '^' ==> op == Caret) && (t[0] == '~' ==> op == Tilde) && (t[0] == '=' ==> op == Exact)
            && ((t[0] == '>' || t[0] == '<') <==> IsStrictOrUpper(op))
            && (IsDigit(t[0]) ==> op == Caret || op == Wildcard)
  {
    ComparatorStart(t);
  }

  lemma ComparatorsOf(text: string, t: string)
    requires ParseRequirement(text).Some? && ParseRequirement(text).value != [] && t == SkipSpaces(text)
    ensures ReadComparators(t, 32) == ParseRequirement(text) && ReadComparator(t).Some?
  {
  }

  lemma SingleComparatorText(text: string)
    requires ParseRequirement(text).Some? && |ParseRequirement(text).value| == 1
    ensures var t := SkipSpaces(text);
            ReadComparator(t).Some? && ReadComparator(t).value.0 == ParseRequirement(text).value[0]
  {
    var t := SkipSpaces(text);
    ComparatorsOf(text, t);
    var (first, rest) := ReadComparator(t).value;
    ComparatorsUnfold(t, 32, first, rest);
  }

  /** How `SplitOperator` goes by the first character that is not a space. */
  lemma SplitByFirst(text: string)
    requires var t := SkipSpaces(text); t != "" && StartsComparator(t[0])
    ensures var first := SkipSpaces(text)[0];
            var (prefix, rest) := SplitOperator(text);
            if first == '^' || first == '~' || first == '=' then prefix == [first]
            else prefix == "" && rest != "" && rest[0] == first
  {
    TrimAfterSpaces(text);
    TrimEndKeeps(SkipSpaces(text), 0);
  }

  /** `SplitOperator` on a one-comparator constraint: the operator found is the comparator's own. */
  lemma SplitFindsOperator(text: string, op: Op, prefix: string, rest: string)
    requires ParseRequirement(text).Some? && |ParseRequirement(text).value| == 1
    requires op == ParseRequirement(text).value[0].op
    requires (prefix, rest) == SplitOperator(text)
    ensures IsStrictOrUpper(op) ==> prefix == "" && rest != "" && (rest[0] == '>' || rest[0] == '<')
    ensures !IsStrictOrUpper(op) ==> IsOperator(prefix) && OperatorOf(prefix) == if op == Wildcard then Caret else op
  {
    SingleComparatorText(text);
    ComparatorOperator(SkipSpaces(text));
    ComparatorStart(SkipSpaces(text));
    SplitByFirst(text);
  }

  /** Moving the operator keeps it. The one exception is a wildcard spelled with `x`, which turns into a
    * caret: the source means to leave wildcards alone but looks for `*` only. */
  lemma OperatorIsKept(currentValue: string, strategy: Strategy, target: string)
    requires strategy in {Updates.Auto, Updates.Bump, Updates.Replace} && ',' !in currentValue
    requires ParseRequirement(currentValue).Some? && |ParseRequirement(currentValue).value| == 1
    requires GetNewValue(currentValue, strategy, target).Some?
    ensures var before := ParseRequirement(currentValue).value[0];
            var after := ParseRequirement(GetNewValue(currentValue, strategy, target).value);
            && after == Some([At(if before.op == Wildcard then Caret else before.op, ParseVersion(target).value)])
            && before.op in {Exact, Tilde, Caret, Wildcard}
  {
    RewriteForms(currentValue, strategy, target);
    var (prefix, rest) := SplitOperator(currentValue);
    SplitFindsOperator(currentValue, ParseRequirement(currentValue).value[0].op, prefix, rest);
    MovedParses(SplitOperator(currentValue).0, target);
  }

  /** Whether a rewrite widens rather than moving an operator or pinning. */
  predicate Widens(currentValue: string, strategy: Strategy) {
    strategy == Updates.Widen || (strategy != Updates.Pin && ',' in currentValue)
  }

  /** The target satisfies every rewrite that is not a widening, whatever the constraint was, and is its lower
    * bound, less build metadata. */
  lemma RewriteAdmitsTarget(currentValue: string, strategy: Strategy, target: string, newValue: string)
    requires GetNewValue(currentValue, strategy, target) == Some(newValue) && !Widens(currentValue, strategy)
    ensures MatchesText(target, newValue)
    ensures MinVersion(newValue) == Some(PrintVersion(ParseVersion(target).value.(build := "")))
  {
    RewriteForms(currentValue, strategy, target);
    MovedConstraintAimsAtTarget(if strategy == Updates.Pin then "=" else SplitOperator(currentValue).0, target);
  }

  // ---------------------------------------------------------------------------
  // A wildcard that is not left alone
  // ---------------------------------------------------------------------------

  lemma WildcardParts(t: string)
    requires t == "1.x"
    ensures Number(t) == Some((1, t[1..]))
    ensures ReadPart(t[1..]) == Some((Star, "")) && ReadPart("") == Some((Absent, ""))
  {
    assert t == Decimal(1) + t[1..];
    NumberReads(1, t[1..]);
    assert t[1..] == ".x" && t[1..][1..] == "x" && t[1..][2..] == "";
  }

  lemma WildcardReads(t: string)
    requires t == "1.x"
    ensures ParseRequirement(t) == Some([Comparator(Wildcard, 1, None, None, "")])
  {
    WildcardParts(t);
    assert ReadOp(t) == (Caret, 0, true) && t[0..] == t && SkipSpaces(t) == t && SkipSpaces("") == "";
    assert ReadParts(t) == Some(((1, Star, Absent), ""));
    LastComparator(t, Comparator(Wildcard, 1, None, None, ""), 32);
    WholeRequirement(t);
  }

  lemma WildcardSplits(t: string)
    requires t == "1.x"
    ensures SplitOperator(t) == ("", t) && ',' !in t && '*' !in t
  {
    assert TrimStart(t) == t && TrimEnd(t) == t;
  }

  lemma WildcardTargetParses(target: string)
    requires target == "2.0.0"
    ensures ParseVersion(target) == Some(Version(2, 0, 0, "", ""))
  {
    var v := Version(2, 0, 0, "", "");
    assert Decimal(0) == "0" && Decimal(2) == "2";
    assert PrintVersion(v) == target;
    PrintedVersionParses(v);
  }

  lemma BumpMoves(currentValue: string, target: string, satisfied: bool)
    requires ',' !in currentValue
    ensures Rewrite(currentValue, Updates.Bump, target, satisfied) == MoveOperator(currentValue, target)
  {
  }

  lemma BareParses(target: string, v: Version)
    requires ParseVersion(target) == Some(v)
    ensures ParseRequirement(target) == Some([At(Caret, v)])
  {
    assert "" + target == target;
    MovedParses("", target);
  }

  /** The wildcard `1.x`, bumped to 2.0.0, is rewritten to the bare version, which is a caret constraint. */
  lemma WildcardIsRewritten(t: string, target: string)
    requires t == "1.x" && target == "2.0.0"
    ensures ParseRequirement(t) == Some([Comparator(Wildcard, 1, None, None, "")])
    ensures GetNewValue(t, Updates.Bump, target) == Some(target)
    ensures ParseRequirement(target) == Some([At(Caret, Version(2, 0, 0, "", ""))])
  {
    WildcardReads(t);
    WildcardSplits(t);
    WildcardTargetParses(target);
    BumpMoves(t, target, MatchesText(target, t));
    assert "" + target == target;
    BareParses(target, Version(2, 0, 0, "", ""));
  }
}
