/** What a widened constraint admits, against the constraint it came from. */
module Widening {
  import opened Wrappers
  import opened Text
  import opened Ordering
  import opened Semver
  import opened SemverText
  import opened RequirementText
  import opened Versioning
  import Updates

  /** The release `major.0.0`. */
  function Release(major: nat): Version {
    Version(major, 0, 0, "", "")
  }

  function WidenedRequirement(lower: Version, major: nat): Requirement {
    [At(GreaterEq, lower)] + [At(Less, Release(NextMajor(major)))]
  }

  lemma ReleasePrints(major: nat)
    ensures PrintVersion(Release(major)) == Decimal(major) + ".0.0"
  {
    assert Decimal(0) == "0";
  }

  /** The widened text parses to its two comparators. */
  lemma WidenedParses(lower: Version, major: nat)
    requires ValidVersion(lower)
    ensures ParseRequirement(WidenedText(PrintVersion(lower), major)) == Some(WidenedRequirement(lower, major))
  {
    var upper := Release(NextMajor(major));
    var second := "<" + PrintVersion(upper);
    ReleasePrints(NextMajor(major));
    assert "<" + (Decimal(NextMajor(major)) + ".0.0") == second;
    WidenedReads(lower, upper, second, ", " + second, ">=" + (PrintVersion(lower) + (", " + second)));
    WidenedSplits(PrintVersion(lower), Decimal(NextMajor(major)), second);
  }

  lemma WidenedSplits(lower: string, next: string, second: string)
    requires second == "<" + (next + ".0.0")
    ensures ">=" + lower + (", <" + next + ".0.0") == ">=" + (lower + (", " + second))
  {
  }

  lemma WidenedReads(lower: Version, upper: Version, second: string, tail: string, first: string)
    requires ValidVersion(lower) && ValidVersion(upper)
    requires second == "<" + PrintVersion(upper) && tail == ", " + second
             && first == ">=" + (PrintVersion(lower) + tail)
    ensures ParseRequirement(first) == Some([At(GreaterEq, lower)] + [At(Less, upper)])
  {
    SecondReads(second, upper);
    FirstReadsGreaterEq(first, PrintVersion(lower) + tail);
    TailReads(tail, second);
    PairReads(first, second, tail, lower, upper);
  }

  lemma SecondReads(second: string, upper: Version)
    requires second == "<" + PrintVersion(upper)
    ensures ReadOp(second) == (Less, 1, false) && second[1..] == PrintVersion(upper)
    ensures !StartsWith(second, ' ')
  {
    VersionStartsWithDigit(upper, "");
    assert PrintVersion(upper) + "" == PrintVersion(upper);
    assert second[1..][0] == PrintVersion(upper)[0];
  }

  lemma FirstReadsGreaterEq(first: string, rest: string)
    requires first == ">=" + rest
    ensures ReadOp(first) == (GreaterEq, 2, false) && first[2..] == rest
  {
    assert first[1..][0] == '=';
  }

  lemma TailReads(tail: string, second: string)
    requires tail == ", " + second && !StartsWith(second, ' ')
    ensures StartsWith(tail, ',') && SkipSpaces(tail[1..]) == second
  {
    assert tail[1..] == " " + second;
    assert (" " + second)[1..] == second;
    assert SkipSpaces(tail[1..]) == SkipSpaces(second) == second;
  }

  /** The bound a widened text is read back with is the one it was written with. */
  lemma WidenedKeepsMinVersion(lower: Version, major: nat)
    requires ValidVersion(lower) && lower.build == ""
    ensures MinVersion(WidenedText(PrintVersion(lower), major)) == Some(PrintVersion(lower))
  {
    var floor, ceiling := At(GreaterEq, lower), At(Less, Release(NextMajor(major)));
    WidenedParses(lower, major);
    PairBound(floor, ceiling);
    assert LowerBound(floor) == lower;
  }

  lemma PairBound(floor: Comparator, ceiling: Comparator)
    requires IsLowerBound(floor.op) && !IsLowerBound(ceiling.op)
    ensures GreatestLowerBound([floor] + [ceiling]) == Some(LowerBound(floor))
  {
    SingleBound(floor);
    assert ([floor] + [ceiling])[..1] == [floor];
  }

  /** Below the next major release: a smaller major, or a pre-release of that release. */
  predicate BelowNext(v: Version, major: nat) {
    var next := NextMajor(major);
    v.major < next || (v.major == next && v.minor == 0 && v.patch == 0 && v.pre != "")
  }

  predicate SameCore(a: Version, b: Version) {
    a.major == b.major && a.minor == b.minor && a.patch == b.patch
  }

  lemma GreaterEqIsPrecedence(lower: Version, v: Version)
    ensures MatchesComparator(At(GreaterEq, lower), v) <==> ComparePrecedence(v, lower) != LT
  {
    EqualPreIsSame(v.pre, lower.pre);
  }

  lemma LessIsBelowNext(v: Version, major: nat)
    ensures MatchesComparator(At(Less, Release(NextMajor(major))), v) <==> BelowNext(v, major)
  {
  }

  lemma PairMatches(floor: Comparator, ceiling: Comparator, v: Version)
    ensures Matches([floor] + [ceiling], v)
            <==> MatchesComparator(floor, v) && MatchesComparator(ceiling, v)
                 && (v.pre != "" ==> OptsIn(floor, v) || OptsIn(ceiling, v))
  {
    var pair := [floor] + [ceiling];
    assert pair[0] == floor && pair[1] == ceiling;
    assert forall c | c in pair :: c == floor || c == ceiling;
  }

  /** Exactly which versions a widened constraint admits. */
  lemma WidenedMatches(lower: Version, major: nat, v: Version)
    ensures Matches(WidenedRequirement(lower, major), v)
            <==> ComparePrecedence(v, lower) != LT && BelowNext(v, major)
                 && (v.pre != "" ==> lower.pre != "" && SameCore(v, lower))
  {
    PairMatches(At(GreaterEq, lower), At(Less, Release(NextMajor(major))), v);
    GreaterEqIsPrecedence(lower, v);
    LessIsBelowNext(v, major);
  }

  /** The parsed meaning of a constraint and of an update target. */
  predicate Reads(currentValue: string, requirement: Requirement, lower: Version, target: string, t: Version) {
    && ParseRequirement(currentValue) == Some(requirement)
    && GreatestLowerBound(requirement) == Some(lower)
    && ParseVersion(target) == Some(t)
  }

  lemma MatchesParsed(version: string, v: Version, constraint: string, requirement: Requirement)
    requires ParseVersion(version) == Some(v) && ParseRequirement(constraint) == Some(requirement)
    ensures MatchesText(version, constraint) <==> Matches(requirement, v)
  {
  }

  /** What widening writes, as versions. */
  lemma WidenedFrom(currentValue: string, requirement: Requirement, lower: Version, target: string, t: Version)
    requires Reads(currentValue, requirement, lower, target, t)
    ensures ValidVersion(lower) && lower.build == ""
    ensures Widen(currentValue, target) == Some(WidenedText(PrintVersion(lower), t.major))
    ensures ParseRequirement(WidenedText(PrintVersion(lower), t.major)) == Some(WidenedRequirement(lower, t.major))
  {
    MinVersionParses(currentValue);
    ParsedVersionIsPrinted(MinVersion(currentValue).value, lower);
    WidenedParses(lower, t.major);
  }

  /** The widened constraint admits the target exactly when the target is at or above the lower bound, its
    * major is not the largest one (the next major would wrap), and it is stable or a pre-release of the
    * lower bound's own core. */
  lemma WideningAdmitsTarget(currentValue: string, requirement: Requirement, lower: Version, target: string, t: Version)
    requires Reads(currentValue, requirement, lower, target, t)
    ensures Widen(currentValue, target).Some?
    ensures MatchesText(target, Widen(currentValue, target).value)
            <==> ComparePrecedence(t, lower) != LT && t.major < MAX_U64
                 && (t.IsStable() || (lower.pre != "" && SameCore(t, lower)))
  {
    WidenedFrom(currentValue, requirement, lower, target, t);
    ParsedVersionIsPrinted(target, t);
    MatchesParsed(target, t, WidenedText(PrintVersion(lower), t.major), WidenedRequirement(lower, t.major));
    WidenedMatches(lower, t.major, t);
    BelowOwnNext(t);
  }

  lemma BelowOwnNext(t: Version)
    requires t.major <= MAX_U64
    ensures BelowNext(t, t.major) <==> t.major < MAX_U64
  {
  }

  /** If a stable target at or above the lower bound fails a comparator other than a strict `>`, nothing
    * stable the requirement allows lies beyond the target's major. */
  lemma AllowedAboveTarget(requirement: Requirement, lower: Version, target: Version, v: Version, failed: Comparator)
    requires forall c | c in requirement :: WellFormed(c)
    requires GreatestLowerBound(requirement) == Some(lower)
    requires target.IsStable() && v.IsStable() && ComparePrecedence(target, lower) != LT
    requires failed in requirement && failed.op != Greater && !MatchesComparator(failed, target)
    requires Matches(requirement, v)
    ensures v.major <= target.major
    ensures ComparePrecedence(v, lower) != LT
  {
    GreatestLowerBoundIsMax(requirement);
    var attained :| attained in requirement && IsLowerBound(attained.op) && LowerBound(attained) == lower;
    StableMatchIsAboveLowerBound(attained, v);
    if v.major > target.major {
      if IsLowerBound(failed.op) {
        CompareChains(LowerBound(failed), lower, target);
        BoundsChain(failed, lower, target);
      }
      ComparatorsAreConvex(failed, target, v);
    }
  }

  lemma BoundsChain(c: Comparator, lower: Version, target: Version)
    requires Compare(LowerBound(c), lower) != GT && ComparePrecedence(target, lower) != LT
    ensures ComparePrecedence(target, LowerBound(c)) != LT
  {
    PrecedenceChains(LowerBound(c), lower, target);
    PrecedenceFlips(lower, target);
    PrecedenceFlips(LowerBound(c), target);
  }

  lemma KeptByWidening(requirement: Requirement, lower: Version, t: Version, v: Version, failed: Comparator)
    requires forall c | c in requirement :: WellFormed(c)
    requires GreatestLowerBound(requirement) == Some(lower)
    requires t.IsStable() && v.IsStable() && t.major < MAX_U64 && ComparePrecedence(t, lower) != LT
    requires failed in requirement && failed.op != Greater && !MatchesComparator(failed, t)
    requires Matches(requirement, v)
    ensures Matches(WidenedRequirement(lower, t.major), v)
  {
    AllowedAboveTarget(requirement, lower, t, v, failed);
    WidenedMatches(lower, t.major, v);
  }

  /** Widening towards a stable target at or above the lower bound keeps every stable version the old
    * constraint allowed, provided the target failed some comparator other than a strict `>`. */
  lemma WideningKeepsStableVersions(currentValue: string, requirement: Requirement, lower: Version,
                                    target: string, t: Version, failed: Comparator, version: string, v: Version)
    requires Reads(currentValue, requirement, lower, target, t)
    requires t.IsStable() && t.major < MAX_U64 && ComparePrecedence(t, lower) != LT
    requires failed in requirement && failed.op != Greater && !MatchesComparator(failed, t)
    requires ParseVersion(version) == Some(v) && v.IsStable() && MatchesText(version, currentValue)
    ensures Widen(currentValue, target).Some? && MatchesText(version, Widen(currentValue, target).value)
  {
    WidenedFrom(currentValue, requirement, lower, target, t);
    MatchesParsed(version, v, currentValue, requirement);
    KeptByWidening(requirement, lower, t, v, failed);
    MatchesParsed(version, v, WidenedText(PrintVersion(lower), t.major), WidenedRequirement(lower, t.major));
  }

  lemma FailsSomewhere(requirement: Requirement, t: Version) returns (failed: Comparator)
    requires t.IsStable() && !Matches(requirement, t)
    ensures failed in requirement && !MatchesComparator(failed, t)
  {
    failed :| failed in requirement && !MatchesComparator(failed, t);
  }

  /** In particular when the constraint has no strict `>` and the target does not satisfy it: then the
    * widened constraint allows the target and every stable version the old one did. */
  lemma WideningKeepsUnlessStrict(currentValue: string, requirement: Requirement, lower: Version,
                                  target: string, t: Version, version: string, v: Version)
    requires Reads(currentValue, requirement, lower, target, t)
    requires t.IsStable() && t.major < MAX_U64 && ComparePrecedence(t, lower) != LT
    requires (forall c | c in requirement :: c.op != Greater) && !MatchesText(target, currentValue)
    requires ParseVersion(version) == Some(v) && v.IsStable() && MatchesText(version, currentValue)
    ensures Widen(currentValue, target).Some?
    ensures MatchesText(target, Widen(currentValue, target).value)
    ensures MatchesText(version, Widen(currentValue, target).value)
  {
    MatchesParsed(target, t, currentValue, requirement);
    var failed := FailsSomewhere(requirement, t);
    WideningKeepsStableVersions(currentValue, requirement, lower, target, t, failed, version, v);
    WideningAdmitsTarget(currentValue, requirement, lower, target, t);
  }

  // ---------------------------------------------------------------------------
  // Exactly when widening keeps every stable version
  // ---------------------------------------------------------------------------

  /** The next stable version after a core, carrying at the largest 64-bit number, if there is one. */
  function NextStable(core: Version): Option<Version> {
    if core.patch < MAX_U64 then Some(Version(core.major, core.minor, core.patch + 1, "", ""))
    else NextMinor(core)
  }

  function NextMinor(core: Version): Option<Version> {
    if core.minor < MAX_U64 then Some(Version(core.major, core.minor + 1, 0, "", ""))
    else NextRelease(core)
  }

  function NextRelease(core: Version): Option<Version> {
    if core.major < MAX_U64 then Some(Release(core.major + 1)) else None
  }

  /** The least stable 64-bit version a comparator does not rule out from below, if there is one. */
  function Least(c: Comparator): Option<Version> {
    var core := LowerBound(c).(pre := "");
    match c.op
    case Less => Some(Release(0))
    case LessEq => Some(Release(0))
    case Greater =>
      if c.minor.None? then NextRelease(core)
      else if c.patch.None? then NextMinor(core)
      else if c.pre == "" then NextStable(core)
      else Some(core)
    case _ => Some(core)
  }

  function Later(a: Version, b: Version): Version {
    if CompareCore(a, b) == LT then b else a
  }

  /** The first stable version from a major on that no comparator of the requirement rules out from below, if
    * 64-bit numbers reach it. */
  function FirstFrom(requirement: Requirement, major: nat): Option<Version> {
    if requirement == [] then Some(Release(major))
    else
      var front :- FirstFrom(requirement[..|requirement| - 1], major);
      var last :- Least(requirement[|requirement| - 1]);
      Some(Later(front, last))
  }

  predicate IsStableValid(v: Version) {
    ValidVersion(v) && v.IsStable()
  }

  /** A plain core of 64-bit numbers. */
  predicate IsCore(v: Version) {
    v.major <= MAX_U64 && v.minor <= MAX_U64 && v.patch <= MAX_U64 && v.pre == "" && v.build == ""
  }

  lemma LeastIsCore(c: Comparator)
    requires IsCore(LowerBound(c).(pre := "")) && Least(c).Some?
    ensures IsCore(Least(c).value)
  {
  }

  lemma LeastIsValid(c: Comparator)
    requires ValidComparator(c) && Least(c).Some?
    ensures IsStableValid(Least(c).value)
  {
    assert ValidVersion(LowerBound(c));
    LeastIsCore(c);
  }

  lemma MatchesFromLeast(c: Comparator, v: Version)
    requires ValidComparator(c) && IsStableValid(v) && MatchesComparator(c, v)
    ensures Least(c).Some? && CompareCore(v, Least(c).value) != LT
  {
  }

  /** What a comparator allows among stable versions has no gaps above its least version. */
  lemma NoGaps(c: Comparator, u: Version, v: Version)
    requires ValidComparator(c) && IsStableValid(u) && IsStableValid(v) && MatchesComparator(c, v)
    requires Least(c).Some? && CompareCore(u, Least(c).value) != LT && CompareCore(u, v) != GT
    ensures MatchesComparator(c, u)
  {
  }

  /** Whether a version is at or above what every comparator starts at. */
  predicate PastAll(requirement: Requirement, v: Version) {
    forall c | c in requirement :: Least(c).Some? && CompareCore(v, Least(c).value) != LT
  }

  lemma {:induction false} FirstIsBound(requirement: Requirement, major: nat, v: Version)
    requires AllValid(requirement) && major <= MAX_U64
    ensures FirstFrom(requirement, major).Some? ==>
              var first := FirstFrom(requirement, major).value;
              IsStableValid(first) && CompareCore(first, Release(major)) != LT && PastAll(requirement, first)
    ensures CompareCore(v, Release(major)) != LT && PastAll(requirement, v) ==>
              FirstFrom(requirement, major).Some? && CompareCore(FirstFrom(requirement, major).value, v) != GT
  {
    if requirement != [] {
      var front, last := requirement[..|requirement| - 1], requirement[|requirement| - 1];
      assert requirement == front + [last];
      assert ValidComparator(last);
      FirstIsBound(front, major, v);
      if Least(last).Some? {
        LeastIsValid(last);
      }
    }
  }

  /** A requirement allows some stable version from a major on exactly if it allows that first one. */
  lemma ReachesMajor(requirement: Requirement, major: nat, v: Version)
    requires AllValid(requirement) && major <= MAX_U64
    requires IsStableValid(v) && v.major >= major && Matches(requirement, v)
    ensures FirstFrom(requirement, major).Some? && Matches(requirement, FirstFrom(requirement, major).value)
  {
    forall c | c in requirement ensures Least(c).Some? && CompareCore(v, Least(c).value) != LT {
      assert ValidComparator(c);
      MatchesFromLeast(c, v);
    }
    FirstIsBound(requirement, major, v);
    var first := FirstFrom(requirement, major).value;
    forall c | c in requirement ensures MatchesComparator(c, first) {
      assert ValidComparator(c);
      NoGaps(c, first, v);
    }
  }

  lemma AllowedIsAboveBound(requirement: Requirement, lower: Version, v: Version)
    requires forall c | c in requirement :: WellFormed(c)
    requires GreatestLowerBound(requirement) == Some(lower) && v.IsStable() && Matches(requirement, v)
    ensures ComparePrecedence(v, lower) != LT
  {
    GreatestLowerBoundIsMax(requirement);
    var attained :| attained in requirement && IsLowerBound(attained.op) && LowerBound(attained) == lower;
    StableMatchIsAboveLowerBound(attained, v);
  }

  /** Whether the requirement allows the first stable version from a major on. */
  predicate Reaches(requirement: Requirement, major: nat) {
    FirstFrom(requirement, major).Some? && Matches(requirement, FirstFrom(requirement, major).value)
  }

  lemma KeptUnlessReached(requirement: Requirement, lower: Version, major: nat, v: Version)
    requires AllValid(requirement)
    requires GreatestLowerBound(requirement) == Some(lower) && major < MAX_U64
    requires IsStableValid(v) && Matches(requirement, v) && !Reaches(requirement, major + 1)
    ensures Matches(WidenedRequirement(lower, major), v)
  {
    assert forall c | c in requirement :: ValidComparator(c);
    AllowedIsAboveBound(requirement, lower, v);
    if v.major > major {
      ReachesMajor(requirement, major + 1, v);
    }
    WidenedMatches(lower, major, v);
  }

  lemma FirstIsLost(requirement: Requirement, lower: Version, major: nat)
    requires AllValid(requirement) && major < MAX_U64 && FirstFrom(requirement, major + 1).Some?
    ensures IsStableValid(FirstFrom(requirement, major + 1).value)
    ensures !Matches(WidenedRequirement(lower, major), FirstFrom(requirement, major + 1).value)
  {
    var first := FirstFrom(requirement, major + 1).value;
    FirstIsBound(requirement, major + 1, first);
    WidenedMatches(lower, major, first);
  }

  /** Whether a widened requirement allows every stable version the original does, among those with 64-bit
    * numbers. */
  ghost predicate KeepsStable(requirement: Requirement, lower: Version, major: nat) {
    forall v: Version | IsStableValid(v) && Matches(requirement, v) :: Matches(WidenedRequirement(lower, major), v)
  }

  /** Widening towards a major keeps every stable version the requirement allows if and only if the requirement
    * does not allow the first stable version from the next major on. */
  lemma WideningIsExact(requirement: Requirement, lower: Version, major: nat)
    requires AllValid(requirement) && GreatestLowerBound(requirement) == Some(lower) && major < MAX_U64
    ensures KeepsStable(requirement, lower, major) <==> !Reaches(requirement, major + 1)
  {
    if Reaches(requirement, major + 1) {
      FirstIsLost(requirement, lower, major);
    } else {
      forall v: Version | IsStableValid(v) && Matches(requirement, v)
        ensures Matches(WidenedRequirement(lower, major), v) {
        KeptUnlessReached(requirement, lower, major, v);
      }
    }
  }

  predicate OpenAbove(requirement: Requirement) {
    forall c | c in requirement :: (c.op == Greater || c.op == GreaterEq) && c.major < MAX_U64
  }

  lemma TopIsAllowed(requirement: Requirement, top: Version)
    requires OpenAbove(requirement) && top.major == MAX_U64 && top.IsStable()
    ensures Matches(requirement, top)
  {
  }

  lemma TopIsNotWidenedTo(lower: Version, major: nat, top: Version)
    requires top.major == MAX_U64 && top.IsStable()
    ensures !Matches(WidenedRequirement(lower, major), top)
  {
    WidenedMatches(lower, major, top);
    assert NextMajor(major) <= MAX_U64;
  }

  /** Without that hypothesis versions are lost: a range open above always loses its highest releases,
    * and the update engine widens one whenever the target is held off by a strict `>`. */
  lemma WideningLosesOpenRanges(currentValue: string, requirement: Requirement, lower: Version, target: string,
                                t: Version, version: string, top: Version)
    requires Reads(currentValue, requirement, lower, target, t)
    requires OpenAbove(requirement)
    requires ParseVersion(version) == Some(top) && top.IsStable() && top.major == MAX_U64
    ensures MatchesText(version, currentValue)
    ensures Widen(currentValue, target).Some? && !MatchesText(version, Widen(currentValue, target).value)
  {
    WidenedFrom(currentValue, requirement, lower, target, t);
    MatchesParsed(version, top, currentValue, requirement);
    TopIsAllowed(requirement, top);
    MatchesParsed(version, top, WidenedText(PrintVersion(lower), t.major), WidenedRequirement(lower, t.major));
    TopIsNotWidenedTo(lower, t.major, top);
  }

  /** Such a constraint and target: `>1.2.3, >=1.0.0` towards 1.1.0. */
  lemma StrictBoundExample()
    ensures var currentValue := ">1.2.3, >=1.0.0";
            && ParseRequirement(currentValue)
               == Some([At(Greater, Version(1, 2, 3, "", ""))] + [At(GreaterEq, Version(1, 0, 0, "", ""))])
            && IsValid("1.1.0") && !MatchesText("1.1.0", currentValue)
  {
    var strict, loose := Version(1, 2, 3, "", ""), Version(1, 0, 0, "", "");
    var first, second, tail := ">1.2.3, >=1.0.0", ">=1.0.0", ", >=1.0.0";
    var t := Version(1, 1, 0, "", "");
    SmallDecimals();
    assert PrintVersion(strict) == "1.2.3" && PrintVersion(loose) == "1.0.0" && PrintVersion(t) == "1.1.0";
    assert first == ">" + ("1.2.3" + tail) && second == ">=" + "1.0.0";
    StrictPairReads(first, second, tail, strict, loose, "1.1.0", t);
  }

  lemma StrictPairReads(first: string, second: string, tail: string, strict: Version, loose: Version,
                        target: string, t: Version)
    requires ValidVersion(strict) && ValidVersion(loose) && ValidVersion(t) && target == PrintVersion(t)
    requires first == ">" + (PrintVersion(strict) + tail)
    requires second == ">=" + PrintVersion(loose) && tail == ", " + second
    requires CompareCore(t, strict) == LT
    ensures ParseRequirement(first) == Some([At(Greater, strict)] + [At(GreaterEq, loose)])
    ensures IsValid(target) && !MatchesText(target, first)
  {
    StrictReads(first, PrintVersion(strict) + tail);
    VersionStartsWithDigit(strict, tail);
    FirstReadsGreaterEq(second, PrintVersion(loose));
    TailReads(tail, second);
    PairReads(first, second, tail, strict, loose);
    PrintedVersionParses(t);
    StrictBoundFails(strict, loose, t);
    MatchesParsed(target, t, first, [At(Greater, strict)] + [At(GreaterEq, loose)]);
  }

  lemma StrictReads(first: string, rest: string)
    requires first == ">" + rest
    ensures first[1..] == rest
    ensures !StartsWith(rest, '=') ==> ReadOp(first) == (Greater, 1, false)
  {
  }

  lemma SmallDecimals()
    ensures Decimal(0) == "0" && Decimal(1) == "1" && Decimal(2) == "2" && Decimal(3) == "3"
  {
  }

  lemma StrictBoundFails(strict: Version, loose: Version, t: Version)
    requires CompareCore(t, strict) == LT
    ensures !Matches([At(Greater, strict)] + [At(GreaterEq, loose)], t)
  {
    PairMatches(At(Greater, strict), At(GreaterEq, loose), t);
  }
}
