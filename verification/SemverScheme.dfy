/** The semver scheme keeps the laws the update engine relies on; hence exactly when updates settle. */
module SemverScheme {
  import opened Wrappers
  import opened Text
  import opened Ordering
  import opened Semver
  import opened SemverText
  import opened RequirementText
  import opened Versioning
  import opened Widening
  import opened Updates
  import UpdateEngine
  import Convergence

  function TheScheme(): UpdateEngine.Scheme {
    UpdateEngine.Scheme(IsValid, IsStableText, CompareTexts, MinVersion, Diff, GetNewValue)
  }

  /** The identifier dependencies name the scheme by. */
  const SCHEME_ID := "semver"

  // ---------------------------------------------------------------------------
  // Order
  // ---------------------------------------------------------------------------

  lemma CompareFlipsTexts(a: string, b: string)
    requires IsValid(a) && IsValid(b)
    ensures CompareTexts(a, b).Some? && CompareTexts(b, a) == Some(CompareTexts(a, b).value.Flip())
  {
    CompareFlips(ParseVersion(a).value, ParseVersion(b).value);
  }

  lemma CompareChainsTexts(a: string, b: string, c: string)
    requires IsValid(a) && IsValid(b) && IsValid(c)
    ensures CompareTexts(a, b).Some? && CompareTexts(b, c).Some? && CompareTexts(a, c).Some?
    ensures Chains(CompareTexts(a, b).value, CompareTexts(b, c).value, CompareTexts(a, c).value)
  {
    CompareChains(ParseVersion(a).value, ParseVersion(b).value, ParseVersion(c).value);
  }

  // ---------------------------------------------------------------------------
  // Rewriting
  // ---------------------------------------------------------------------------

  /** Neither a separator nor a wildcard, as in every version text. */
  predicate IsPlain(t: string) {
    ',' !in t && '*' !in t
  }

  lemma VersionIsPlain(v: Version)
    requires ValidVersion(v)
    ensures IsPlain(PrintVersion(v))
  {
    assert IsPlain(Decimal(v.major)) && IsPlain(Decimal(v.minor)) && IsPlain(Decimal(v.patch));
    assert IsPlain(TagText('-', v.pre)) && IsPlain(TagText('+', v.build));
  }

  lemma MovedIsPlain(prefix: string, target: string)
    requires IsOperator(prefix) && IsValid(target)
    ensures IsPlain(prefix + target)
  {
    TargetText(target);
    VersionIsPlain(ParseVersion(target).value);
  }

  /** Splitting a moved constraint gives its operator back. */
  lemma MovedSplits(prefix: string, target: string)
    requires IsOperator(prefix) && target != "" && IsDigit(target[0])
    ensures SplitOperator(prefix + target).0 == prefix
  {
    var t := prefix + target;
    assert t[0] == if prefix == "" then target[0] else prefix[0];
    assert SkipSpaces(t) == t;
    SplitByFirst(t);
  }

  /** Once moved onto the target, a constraint is not moved again. */
  lemma MovedStays(prefix: string, strategy: RangeStrategy, target: string)
    requires IsOperator(prefix) && IsValid(target)
    requires strategy == Pin ==> prefix == "="
    requires strategy != Widen
    ensures GetNewValue(prefix + target, strategy, target) in {None, Some(prefix + target)}
  {
    RewriteForms(prefix + target, strategy, target);
    MovedIsPlain(prefix, target);
    TargetText(target);
    MovedSplits(prefix, target);
  }

  /** Once widened, a constraint is not widened further for the same target. */
  lemma WidenedStays(lower: Version, strategy: RangeStrategy, target: string, t: Version, widened: string)
    requires ValidVersion(lower) && lower.build == "" && strategy != Pin
    requires ParseVersion(target) == Some(t) && widened == WidenedText(PrintVersion(lower), t.major)
    ensures GetNewValue(widened, strategy, target) in {None, Some(widened)}
  {
    WidenedKeepsMinVersion(lower, t.major);
    RewriteForms(widened, strategy, target);
    WidenedHasComma(PrintVersion(lower), t.major);
  }

  lemma WidenedHasComma(lower: string, major: nat)
    ensures ',' in WidenedText(lower, major)
  {
    assert WidenedText(lower, major)[|">=" + lower|] == ',';
  }

  lemma TargetAtOrAboveItsBase(target: string, t: Version, base: string)
    requires ParseVersion(target) == Some(t) && base == PrintVersion(t.(build := ""))
    ensures CompareTexts(target, base) in {Some(EQ), Some(GT)}
  {
    ParsedVersionIsPrinted(target, t);
    PrintedVersionParses(t.(build := ""));
    WithoutBuildIsNotGreater(t);
  }

  /** Rewriting towards a target a second time changes nothing; the bound stays or moves to the target. */
  lemma RewriteIsStable(currentValue: string, strategy: RangeStrategy, target: string, newValue: string)
    requires GetNewValue(currentValue, strategy, target) == Some(newValue)
    ensures GetNewValue(newValue, strategy, target) in {None, Some(newValue)}
    ensures MinVersion(newValue).Some?
    ensures if strategy == Widen || (strategy != Pin && ',' in currentValue)
            then MinVersion(newValue) == MinVersion(currentValue)
            else CompareTexts(target, MinVersion(newValue).value) in {Some(EQ), Some(GT)}
  {
    RewriteForms(currentValue, strategy, target);
    var t := ParseVersion(target).value;
    if strategy == Widen || (strategy != Pin && ',' in currentValue) {
      var lower := BoundVersion(currentValue);
      WidenedKeepsMinVersion(lower, t.major);
      WidenedStays(lower, strategy, target, t, newValue);
    } else {
      var prefix := if strategy == Pin then "=" else SplitOperator(currentValue).0;
      MovedStays(prefix, strategy, target);
      MovedConstraintAimsAtTarget(prefix, target);
      TargetAtOrAboveItsBase(target, t, MinVersion(newValue).value);
    }
  }

  lemma BoundVersion(constraint: string) returns (lower: Version)
    requires MinVersion(constraint).Some?
    ensures MinVersion(constraint) == Some(PrintVersion(lower)) && ValidVersion(lower) && lower.build == ""
  {
    MinVersionParses(constraint);
    lower := ParseVersion(MinVersion(constraint).value).value;
    ParsedVersionIsPrinted(MinVersion(constraint).value, lower);
  }

  // ---------------------------------------------------------------------------
  // The laws
  // ---------------------------------------------------------------------------

  lemma OrderLaws()
    ensures forall a, b :: UpdateEngine.FlipLaw(TheScheme(), a, b)
    ensures forall a, b, c :: UpdateEngine.ChainLaw(TheScheme(), a, b, c)
    ensures forall a, b :: UpdateEngine.InvalidLaw(TheScheme(), a, b)
  {
    var s := TheScheme();
    forall a, b ensures UpdateEngine.FlipLaw(s, a, b) {
      if IsValid(a) && IsValid(b) {
        CompareFlipsTexts(a, b);
        TextsCompareEqual(a, b);
      }
    }
    forall a, b, c ensures UpdateEngine.ChainLaw(s, a, b, c) {
      if IsValid(a) && IsValid(b) && IsValid(c) {
        CompareChainsTexts(a, b, c);
      }
    }
  }

  lemma BoundAndDiffLaws()
    ensures forall constraint :: UpdateEngine.BoundLaw(TheScheme(), constraint)
    ensures forall current, candidate :: UpdateEngine.DiffLaw(TheScheme(), current, candidate)
  {
    var s := TheScheme();
    forall constraint ensures UpdateEngine.BoundLaw(s, constraint) {
      if MinVersion(constraint).Some? {
        MinVersionParses(constraint);
      }
    }
    forall current, candidate ensures UpdateEngine.DiffLaw(s, current, candidate) {
      if IsValid(current) && IsValid(candidate) {
        DiffFollowsOrder(current, candidate);
      }
    }
  }

  lemma RewriteLaws()
    ensures forall currentValue, strategy, target ::
              UpdateEngine.RewriteLaw(TheScheme(), currentValue, strategy, target)
  {
    var s := TheScheme();
    forall currentValue, strategy, target ensures UpdateEngine.RewriteLaw(s, currentValue, strategy, target) {
      var r := GetNewValue(currentValue, strategy, target);
      if r.Some? {
        RewriteIsStable(currentValue, strategy, target, r.value);
      }
    }
  }

  /** The semver scheme is lawful, over all texts. */
  lemma SemverIsLawful()
    ensures UpdateEngine.Lawful(TheScheme())
  {
    OrderLaws();
    BoundAndDiffLaws();
    RewriteLaws();
  }

  // ---------------------------------------------------------------------------
  // Exactly when updates settle
  // ---------------------------------------------------------------------------

  /** The bounds constraints can have are the valid versions without build metadata. */
  lemma BoundsHaveNoBuild(version: string)
    ensures Convergence.IsBound(TheScheme(), version) <==> IsValid(version) && ParseVersion(version).value.build == ""
  {
    var s := TheScheme();
    if Convergence.IsBound(s, version) {
      var constraint :| s.minVersion(constraint) == Some(version);
      MinVersionParses(constraint);
    }
    if IsValid(version) && ParseVersion(version).value.build == "" {
      PinnedBound(version);
      assert s.minVersion("=" + version) == Some(version);
    }
  }

  /** The greatest eligible release carries no build metadata, is also listed as yanked, and is not the only
    * eligible release. */
  predicate GreatestAlsoYanked(config: UpdateConfig, releases: seq<Release>) {
    var eligible := UpdateEngine.Eligible(TheScheme(), config, releases);
    var greatest := UpdateEngine.GreatestOf(TheScheme(), eligible);
    && greatest.Some?
    && IsValid(greatest.value) && ParseVersion(greatest.value).value.build == ""
    && Convergence.IsWithdrawn(releases, greatest.value)
    && exists other | other in eligible :: other != greatest.value
  }

  lemma AlsoYankedIsWithdrawn(config: UpdateConfig, releases: seq<Release>)
    ensures GreatestAlsoYanked(config, releases) <==> Convergence.GreatestIsWithdrawn(TheScheme(), config, releases)
  {
    var greatest := UpdateEngine.GreatestOf(TheScheme(), UpdateEngine.Eligible(TheScheme(), config, releases));
    if greatest.Some? {
      BoundsHaveNoBuild(greatest.value);
    }
  }

  function Schemes(): map<string, UpdateEngine.Scheme> {
    map[SCHEME_ID := TheScheme()]
  }

  lemma WidenKeepsBounds()
    ensures Convergence.KeepsBounds(TheScheme(), Widen)
  {
    var s := TheScheme();
    forall constraint, target ensures Convergence.KeepsBound(s, Widen, constraint, target) {
      var r := GetNewValue(constraint, Widen, target);
      if r.Some? {
        RewriteIsStable(constraint, Widen, target, r.value);
      }
    }
  }

  lemma UpdatesSettle(config: UpdateConfig, dependency: Dependency, releases: seq<Release>)
    requires config.strategy == Widen || !GreatestAlsoYanked(config, releases)
    ensures Convergence.Settles(Schemes(), config, dependency, releases)
  {
    SemverIsLawful();
    AlsoYankedIsWithdrawn(config, releases);
    WidenKeepsBounds();
    assert forall id | id in Schemes() :: Schemes()[id] == TheScheme();
    Convergence.EveryUpdateSettles(Schemes(), config, dependency, releases);
  }

  /** The lowest of all versions, 0.0.0-0. */
  function Lowest(): Version {
    Version(0, 0, 0, "0", "")
  }

  lemma LowestText()
    ensures PrintVersion(Lowest()) == "0.0.0-0" && ValidVersion(Lowest()) && IsValid("0.0.0-0")
    ensures Identifiers("0") == ["0"]
  {
    assert Identifiers("0") == ["0"];
    assert Decimal(0) == "0";
    assert PrintVersion(Lowest()) == "0.0.0-0";
    PrintedVersionParses(Lowest());
  }

  lemma IdentifierIsAboveZero(id: string, zero: string)
    requires id != "" && AllDigits(zero) && DecimalValue(zero) == 0 && |zero| == 1
    ensures CompareIdentifiers(id, zero) != LT
  {
  }

  lemma ListIsAboveZero(ids: seq<string>, zero: string)
    requires ids != [] && CompareIdentifiers(ids[0], zero) != LT
    ensures CompareIdentifierLists(ids, [zero]) != LT
  {
    assert [zero][1..] == [];
    assert CompareIdentifierLists(ids[1..], []) != LT;
  }

  lemma LowestPre(pre: string)
    requires pre != "" ==> ValidIdentifiers(pre, true)
    ensures ComparePre(pre, "0") != LT
  {
    LowestText();
    if pre != "" {
      var ids := Identifiers(pre);
      assert ids[0] in ids;
      IdentifierIsAboveZero(ids[0], "0");
      ListIsAboveZero(ids, "0");
    }
  }

  lemma LowestIsBelow(v: Version)
    requires ValidVersion(v)
    ensures Compare(v, Lowest()) != LT
  {
    LowestPre(v.pre);
    if v.build != "" {
      EmptyBuildIsLeast(v.build);
    } else {
      ListsFlip(Identifiers(""), Identifiers(""));
    }
  }

  /** An exact constraint follows the target, away from any version of another precedence. */
  lemma PinnedMoves(from: string, strategy: RangeStrategy, target: string)
    requires strategy != Widen && IsValid(from) && IsValid(target)
    requires ComparePrecedence(ParseVersion(from).value, ParseVersion(target).value) != EQ
    ensures GetNewValue("=" + from, strategy, target) == Some("=" + target)
  {
    var f, t := ParseVersion(from).value, ParseVersion(target).value;
    TargetText(from);
    MovedParses("=", from);
    MovedIsPlain("=", from);
    PinnedNotMatched(f, t);
    MatchesParsed(target, t, "=" + from, [At(Exact, f)]);
    PinnedSplits(from);
  }

  lemma PinnedNotMatched(f: Version, t: Version)
    requires ComparePrecedence(f, t) != EQ
    ensures !Matches([At(Exact, f)], t)
  {
    EqualPreIsSame(f.pre, t.pre);
    var c := At(Exact, f);
    assert c in [c];
  }

  lemma PinnedSplits(from: string)
    requires from != "" && IsDigit(from[0])
    ensures SplitOperator("=" + from).0 == "="
    ensures var rest := SplitOperator("=" + from).1; rest != "" && rest[0] == from[0]
  {
    var t := "=" + from;
    assert t[0] == '=' && t[1] == from[0];
    TrimEndKeeps(t, 0);
    TrimEndKeeps(t, 1);
    var trimmed := Trim(t);
    assert trimmed == TrimEnd(t);
    assert trimmed[1..][0] == from[0];
    TrimEndKeeps(trimmed[1..], 0);
  }

  /** An exact constraint on a version without build metadata goes to any other such version. */
  lemma PinnedMovesUp(from: string, strategy: RangeStrategy, target: string)
    requires strategy != Widen && IsValid(from) && IsValid(target)
    requires ParseVersion(from).value.build == "" && ParseVersion(target).value.build == ""
    requires CompareTexts(target, from) == Some(GT)
    ensures GetNewValue("=" + from, strategy, target) == Some("=" + target)
  {
    var f, t := ParseVersion(from).value, ParseVersion(target).value;
    BuildFreeDiffer(t, f);
    PrecedenceFlips(t, f);
    PinnedMoves(from, strategy, target);
  }

  lemma BuildFreeDiffer(a: Version, b: Version)
    requires Compare(a, b) != EQ && (a.build == b.build || (Compare(a, b) == LT && b.build == ""))
    ensures ComparePrecedence(a, b) != EQ
  {
    ListsFlip(Identifiers(a.build), Identifiers(b.build));
    if a.build != "" && b.build == "" {
      EmptyBuildIsLeast(a.build);
    }
  }

  /** An exact constraint on a version without build metadata goes down to any lower one. */
  lemma PinnedMovesDown(from: string, strategy: RangeStrategy, target: string)
    requires strategy != Widen && IsValid(from) && IsValid(target) && ParseVersion(from).value.build == ""
    requires CompareTexts(target, from) == Some(LT)
    ensures GetNewValue("=" + from, strategy, target) == Some("=" + target)
  {
    var f, t := ParseVersion(from).value, ParseVersion(target).value;
    BuildFreeDiffer(t, f);
    PrecedenceFlips(t, f);
    PinnedMoves(from, strategy, target);
  }

  lemma PinnedBound(version: string)
    requires IsValid(version) && ParseVersion(version).value.build == ""
    ensures MinVersion("=" + version) == Some(version)
  {
    var v := ParseVersion(version).value;
    ParsedVersionIsPrinted(version, v);
    assert v == v.(build := "");
    MovedConstraintAimsAtTarget("=", version);
  }

  lemma NoneBelowLowest(version: string, lowest: string)
    requires IsValid(version) && ParseVersion(lowest) == Some(Lowest())
    ensures CompareTexts(version, lowest) != Some(LT)
  {
    ParsedVersionIsPrinted(version, ParseVersion(version).value);
    LowestIsBelow(ParseVersion(version).value);
  }

  lemma TieUnsettles(config: UpdateConfig, dependency: Dependency, releases: seq<Release>, lowest: string)
    requires config.strategy != Widen && GreatestAlsoYanked(config, releases)
    requires !config.IsIgnored(dependency.name) && dependency.versioning == SCHEME_ID
    requires ParseVersion(lowest) == Some(Lowest()) && dependency.currentValue == "=" + lowest
    ensures !Convergence.Settles(Schemes(), config, dependency, releases)
  {
    var s := TheScheme();
    var greatest := UpdateEngine.GreatestOf(s, UpdateEngine.Eligible(s, config, releases)).value;
    SemverIsLawful();
    AlsoYankedIsWithdrawn(config, releases);
    forall v | s.isValid(v) ensures s.compare(v, lowest) != Some(LT) {
      NoneBelowLowest(v, lowest);
    }
    Convergence.WithdrawnIsAboveLowest(s, config, releases, greatest, lowest);
    PinnedBound(lowest);
    PinnedBound(greatest);
    PinnedMovesUp(lowest, config.strategy, greatest);
    UpdateEngine.Flips(s, greatest, lowest);
    assert ("=" + lowest)[1..] == lowest && ("=" + greatest)[1..] == greatest;
    forall lower | s.isValid(lower) && s.compare(lower, greatest) == Some(LT)
      ensures s.getNewValue("=" + greatest, config.strategy, lower) == Some("=" + lower) && lower != greatest
      ensures "=" + lower != "=" + greatest
    {
      PinnedMovesDown(greatest, config.strategy, lower);
      UpdateEngine.Flips(s, lower, greatest);
      assert ("=" + lower)[1..] == lower && ("=" + greatest)[1..] == greatest;
    }
    Convergence.WithdrawnNeverSettles(s, Schemes(), config, dependency, releases, greatest, lowest, "=" + greatest);
  }

  /** Convergence, exactly. Whatever the constraint, one update of a dependency leaves nothing more to
    * propose, for every strategy, upgrade and rollback, if and only if the strategy is Widen or the greatest
    * eligible release is not also listed as yanked above another eligible one. */
  lemma ConvergenceIsExact(config: UpdateConfig, dependency: Dependency, releases: seq<Release>)
    requires !config.IsIgnored(dependency.name) && dependency.versioning == SCHEME_ID
    ensures (forall constraint ::
              Convergence.Settles(Schemes(), config, dependency.(currentValue := constraint), releases))
            <==> config.strategy == Widen || !GreatestAlsoYanked(config, releases)
  {
    if config.strategy == Widen || !GreatestAlsoYanked(config, releases) {
      forall constraint
        ensures Convergence.Settles(Schemes(), config, dependency.(currentValue := constraint), releases)
      {
        UpdatesSettle(config, dependency.(currentValue := constraint), releases);
      }
    } else {
      LowestText();
      PrintedVersionParses(Lowest());
      TieUnsettles(config, dependency.(currentValue := "=" + "0.0.0-0"), releases, "0.0.0-0");
    }
  }

  // ---------------------------------------------------------------------------
  // Whether the rewritten constraint admits the version it was rewritten for
  // ---------------------------------------------------------------------------

  /** Against a bound without build metadata, being lower and being of lower precedence are the same. */
  lemma LowerMeansLowerPrecedence(t: Version, lower: Version)
    requires lower.build == ""
    ensures Compare(t, lower) == LT <==> ComparePrecedence(t, lower) == LT
  {
    if t.build != "" {
      EmptyBuildIsLeast(t.build);
    } else {
      ListsFlip(Identifiers(""), Identifiers(""));
    }
  }

  lemma RollbackIsBelowBound(config: UpdateConfig, dependency: Dependency, releases: seq<Release>,
                             update: DependencyUpdate, requirement: Requirement, lower: Version, t: Version)
    requires UpdateEngine.Propose(TheScheme(), config, dependency, Ok(releases)) == Ok(Some(update))
    requires Reads(dependency.currentValue, requirement, lower, update.newVersion, t)
    ensures update.updateType == Rollback <==> ComparePrecedence(t, lower) == LT
  {
    SemverIsLawful();
    MinVersionParses(dependency.currentValue);
    var current := MinVersion(dependency.currentValue).value;
    UpdateEngine.UpdatesAreSound(TheScheme(), config, dependency, releases, update, current);
    LowerMeansLowerPrecedence(t, lower);
    assert CompareTexts(update.newVersion, current) == Some(Compare(t, lower));
  }

  /** A proposed constraint admits the version it is proposed for, unless it is a widening that is a rollback,
    * or whose target has the largest major, or is a pre-release of another core than the bound's. */
  lemma UpdateAdmitsExactly(config: UpdateConfig, dependency: Dependency, releases: seq<Release>,
                            update: DependencyUpdate, requirement: Requirement, lower: Version, t: Version)
    requires UpdateEngine.Propose(TheScheme(), config, dependency, Ok(releases)) == Ok(Some(update))
    requires Reads(dependency.currentValue, requirement, lower, update.newVersion, t)
    ensures MatchesText(update.newVersion, update.newValue)
            <==> (Widens(dependency.currentValue, config.strategy) ==>
                    && update.updateType != Rollback && t.major < MAX_U64
                    && (t.IsStable() || (lower.pre != "" && SameCore(t, lower))))
  {
    UpdateEngine.ProposalIsRewrite(TheScheme(), config, dependency, releases, update);
    if Widens(dependency.currentValue, config.strategy) {
      RewriteForms(dependency.currentValue, config.strategy, update.newVersion);
      RollbackIsBelowBound(config, dependency, releases, update, requirement, lower, t);
      WideningAdmitsTarget(dependency.currentValue, requirement, lower, update.newVersion, t);
    } else {
      RewriteAdmitsTarget(dependency.currentValue, config.strategy, update.newVersion, update.newValue);
    }
  }

  lemma EligibleOfTwo(s: UpdateEngine.Scheme, config: UpdateConfig, yanked: Release, other: Release)
    requires !UpdateEngine.IsEligible(s, config, yanked) && UpdateEngine.IsEligible(s, config, other)
    ensures UpdateEngine.Eligible(s, config, [yanked, other]) == [other.version]
  {
    assert [yanked, other][1..] == [other] && [other][1..] == [];
    assert UpdateEngine.Eligible(s, config, []) == [];
    assert UpdateEngine.Eligible(s, config, [other]) == [other.version];
  }

  lemma OfOne(s: UpdateEngine.Scheme, version: string, current: string)
    requires s.compare(version, current) == Some(LT)
    ensures UpdateEngine.GreatestOf(s, [version]) == Some(version)
    ensures UpdateEngine.Below(s, [version], current) == [version]
  {
    assert [version][..0] == [] && [version][1..] == [];
    assert UpdateEngine.Below(s, [], current) == [];
  }

  /** With the current version yanked and one eligible release, a lower one, that is the target. */
  lemma OnlyLowerIsTarget(s: UpdateEngine.Scheme, config: UpdateConfig, current: string, lower: string)
    requires UpdateEngine.Lawful(s) && s.isValid(current) && s.isValid(lower) && s.isStable(lower)
    requires s.compare(lower, current) == Some(LT)
    ensures UpdateEngine.ChooseTarget(s, config, current, [Release(current, true), Release(lower, false)])
            == Some(lower)
  {
    var yanked, other := Release(current, true), Release(lower, false);
    EligibleOfTwo(s, config, yanked, other);
    OfOne(s, lower, current);
    UpdateEngine.Flips(s, current, current);
    assert [yanked, other][0] == yanked;
  }

  /** An exact constraint has its version as its bound and no lower version satisfies it. */
  lemma PinnedReads(current: string, c: Version, lower: string, l: Version)
    requires ParseVersion(current) == Some(c) && c.build == "" && ParseVersion(lower) == Some(l) && Compare(l, c) == LT
    ensures Reads("=" + current, [At(Exact, c)], c, lower, l) && !MatchesText(lower, "=" + current)
  {
    MovedParses("=", current);
    BuildFreeDiffer(l, c);
    PrecedenceFlips(l, c);
    PinnedNotMatched(c, l);
    MatchesParsed(lower, l, "=" + current, [At(Exact, c)]);
    SingleBound(At(Exact, c));
    assert LowerBound(At(Exact, c)) == c;
  }

  lemma WidenRewrites(currentValue: string, target: string)
    requires IsValid(target) && !MatchesText(target, currentValue)
    ensures GetNewValue(currentValue, Widen, target) == Versioning.Widen(currentValue, target)
  {
  }

  /** Widening an exact constraint towards a lower version writes a range that excludes it. */
  lemma WidenedDownwards(current: string, c: Version, lower: string, l: Version)
    requires ParseVersion(current) == Some(c) && c.build == "" && ParseVersion(lower) == Some(l) && Compare(l, c) == LT
    ensures var r := GetNewValue("=" + current, Widen, lower);
            r.Some? && r.value != "=" + current && !MatchesText(lower, r.value)
  {
    PinnedReads(current, c, lower, l);
    WidenRewrites("=" + current, lower);
    WideningAdmitsTarget("=" + current, [At(Exact, c)], c, lower, l);
    LowerMeansLowerPrecedence(l, c);
    WidenedFrom("=" + current, [At(Exact, c)], c, lower, l);
    WidenedHasComma(PrintVersion(c), l.major);
    MovedIsPlain("=", current);
  }

  /** A rollback under the Widen strategy never helps: off a yanked version it proposes a range that excludes
    * the very release it goes back to. */
  lemma WideningRollback(config: UpdateConfig, dependency: Dependency, current: string, lower: string)
    returns (update: DependencyUpdate)
    requires config.strategy == Widen && dependency.currentValue == "=" + current
    requires IsValid(current) && ParseVersion(current).value.build == "" && IsStableText(lower)
    requires CompareTexts(lower, current) == Some(LT)
    ensures UpdateEngine.Propose(TheScheme(), config, dependency, Ok([Release(current, true), Release(lower, false)]))
            == Ok(Some(update))
    ensures update.updateType == Rollback && update.newVersion == lower && !MatchesText(lower, update.newValue)
  {
    var s := TheScheme();
    SemverIsLawful();
    PinnedBound(current);
    OnlyLowerIsTarget(s, config, current, lower);
    WidenedDownwards(current, ParseVersion(current).value, lower, ParseVersion(lower).value);
    DiffFollowsOrder(current, lower);
    TextsCompareEqual(lower, current);
    update := DependencyUpdate(dependency, Rollback, GetNewValue("=" + current, Widen, lower).value, lower);
    assert s.minVersion(dependency.currentValue) == Some(current);
    assert UpdateEngine.BuildUpdate(s, config, dependency, current, lower) == Some(update);
  }
}
