/** What widening does to pre-releases, and with that exactly when it keeps every version. */
module WideningPrereleases {
  import opened Wrappers
  import opened Text
  import opened Ordering
  import opened Semver
  import opened SemverText
  import opened RequirementText
  import opened Versioning
  import opened Widening
  import opened SemverScheme
  import Updates

  // ---------------------------------------------------------------------------
  // Tags in order
  // ---------------------------------------------------------------------------

  const LEAST_TAG := "0"

  predicate IsTag(p: string) {
    ValidIdentifiers(p, true)
  }

  /** The tag right after another: nothing lies between. */
  function NextTag(p: string): string {
    p + ".0"
  }

  predicate HasNoDot(id: string) {
    forall i | 0 <= i < |id| :: IsNotDot(id[i])
  }

  lemma NoDots(a: string)
    requires HasNoDot(a)
    ensures Identifiers(a) == [a]
  {
    SpanOfRun(a, "", IsNotDot);
    assert a + "" == a;
  }

  lemma IdentifiersCut(a: string, b: string, s: string)
    requires HasNoDot(a) && s == a + ("." + b)
    ensures Identifiers(s) == [a] + Identifiers(b)
  {
    SpanOfRun(a, "." + b, IsNotDot);
    assert s[..|a|] == a && s[|a| + 1..] == b;
  }

  lemma {:induction false} IdentifiersHaveNoDots(s: string)
    ensures forall id | id in Identifiers(s) :: HasNoDot(id)
  {
    var n := Span(s, IsNotDot);
    if n < |s| {
      IdentifiersHaveNoDots(s[n + 1..]);
    }
  }

  /** Dotless identifiers come back from their joined text. */
  lemma {:induction false} JoinThenIdentify(ids: seq<string>)
    requires ids != [] && forall id | id in ids :: HasNoDot(id)
    ensures Identifiers(JoinDots(ids)) == ids
  {
    assert HasNoDot(ids[0]);
    if |ids| == 1 {
      NoDots(ids[0]);
    } else {
      var rest := JoinDots(ids[1..]);
      JoinThenIdentify(ids[1..]);
      IdentifiersCut(ids[0], rest, ids[0] + "." + rest);
    }
  }

  lemma {:induction false} JoinMore(ids: seq<string>, id: string)
    requires ids != []
    ensures JoinDots(ids + [id]) == JoinDots(ids) + ("." + id)
  {
    if |ids| > 1 {
      assert (ids + [id])[1..] == ids[1..] + [id];
      JoinMore(ids[1..], id);
    } else {
      assert (ids + [id])[1..] == [id];
    }
  }

  lemma IdentifiersOfNext(p: string)
    ensures Identifiers(NextTag(p)) == Identifiers(p) + ["0"]
  {
    var ids := Identifiers(p);
    JoinIdentifiers(p);
    IdentifiersHaveNoDots(p);
    JoinMore(ids, "0");
    assert "." + "0" == ".0";
    JoinThenIdentify(ids + ["0"]);
  }

  lemma NextTagChars(p: string)
    requires forall i | 0 <= i < |p| :: IsIdentifierChar(p[i])
    ensures forall i | 0 <= i < |NextTag(p)| :: IsIdentifierChar(NextTag(p)[i])
  {
  }

  /** An identifier a tag may hold. */
  predicate IsTagPart(id: string) {
    id != "" && !(AllDigits(id) && |id| > 1 && id[0] == '0')
  }

  lemma PartsOfMore(ids: seq<string>, id: string)
    requires IsTagPart(id) && forall part | part in ids :: IsTagPart(part)
    ensures forall part | part in ids + [id] :: IsTagPart(part)
  {
  }

  lemma NextTagIsTag(p: string)
    requires IsTag(p)
    ensures IsTag(NextTag(p))
  {
    IdentifiersOfNext(p);
    NextTagChars(p);
    assert forall part | part in Identifiers(p) :: IsTagPart(part);
    PartsOfMore(Identifiers(p), "0");
    assert forall part | part in Identifiers(NextTag(p)) :: IsTagPart(part);
  }

  lemma LeastTagIsTag()
    ensures IsTag(LEAST_TAG)
  {
    LowestText();
  }

  /** A list above another is at or above that one followed by "0". */
  lemma {:induction false} ListAboveNext(b: seq<string>, a: seq<string>)
    requires CompareIdentifierLists(b, a) == GT && forall id | id in b :: id != ""
    ensures CompareIdentifierLists(b, a + ["0"]) != LT
  {
    if a == [] {
      assert a + ["0"] == ["0"];
      assert b[0] in b;
      LowestText();
      IdentifierIsAboveZero(b[0], "0");
      ListIsAboveZero(b, "0");
    } else {
      assert (a + ["0"])[1..] == a[1..] + ["0"];
      if CompareIdentifiers(b[0], a[0]) == EQ {
        assert forall id | id in b[1..] :: id in b;
        ListAboveNext(b[1..], a[1..]);
      }
    }
  }

  lemma {:induction false} ListBelowNext(a: seq<string>)
    ensures CompareIdentifierLists(a + ["0"], a) == GT
  {
    if a != [] {
      IdentifiersFlip(a[0], a[0]);
      assert (a + ["0"])[1..] == a[1..] + ["0"];
      ListBelowNext(a[1..]);
    }
  }

  /** A tag above another is at or above its successor, which is above it. */
  lemma NothingBetween(p: string, q: string)
    requires IsTag(p)
    ensures ComparePre(NextTag(p), p) == GT
    ensures IsTag(q) && ComparePre(q, p) == GT ==> ComparePre(q, NextTag(p)) != LT
  {
    IdentifiersOfNext(p);
    ListBelowNext(Identifiers(p));
    if IsTag(q) && ComparePre(q, p) == GT {
      ListAboveNext(Identifiers(q), Identifiers(p));
    }
  }

  lemma PreFlips(a: string, b: string)
    ensures ComparePre(b, a) == ComparePre(a, b).Flip()
  {
    ListsFlip(Identifiers(a), Identifiers(b));
  }

  // ---------------------------------------------------------------------------
  // One comparator on the pre-releases of one core
  // ---------------------------------------------------------------------------

  /** The pre-release of a core with a tag. */
  function Tagged(core: Version, p: string): Version {
    Version(core.major, core.minor, core.patch, p, "")
  }

  /** A comparator on all three numbers of a core. */
  predicate IsOn(c: Comparator, core: Version) {
    c.major == core.major && c.minor == Some(core.minor) && c.patch == Some(core.patch)
  }

  /** The least tag of a core that a comparator does not rule out from below. */
  function LeastTag(c: Comparator, core: Version): string {
    if !IsOn(c, core) || c.pre == "" || c.op == Less || c.op == LessEq then LEAST_TAG
    else if c.op == Greater then NextTag(c.pre)
    else c.pre
  }

  /** Off the core it names, a comparator does not look at tags. */
  lemma OffCoreIgnoresTags(c: Comparator, core: Version, p: string, q: string)
    requires WellFormed(c) && !IsOn(c, core) && p != "" && q != ""
    ensures MatchesComparator(c, Tagged(core, p)) == MatchesComparator(c, Tagged(core, q))
  {
  }

  /** What a comparator says of a tag on its own core. */
  predicate TagMatches(c: Comparator, p: string) {
    match c.op
    case Exact => p == c.pre
    case Wildcard => p == c.pre
    case Greater => ComparePre(p, c.pre) == GT
    case GreaterEq => p == c.pre || ComparePre(p, c.pre) == GT
    case Less => ComparePre(p, c.pre) == LT
    case LessEq => p == c.pre || ComparePre(p, c.pre) == LT
    case Tilde => ComparePre(p, c.pre) != LT
    case Caret => ComparePre(p, c.pre) != LT
  }

  lemma OnCoreIsTagMatch(c: Comparator, core: Version, p: string)
    requires IsOn(c, core)
    ensures MatchesComparator(c, Tagged(core, p)) <==> TagMatches(c, p)
  {
  }

  lemma TagOfComparator(c: Comparator)
    requires ValidComparator(c) && c.pre != ""
    ensures IsTag(c.pre)
  {
    assert ValidVersion(LowerBound(c));
  }

  lemma LeastTagIsValid(c: Comparator, core: Version)
    requires ValidComparator(c)
    ensures IsTag(LeastTag(c, core))
  {
    LeastTagIsTag();
    if c.pre != "" {
      TagOfComparator(c);
      NextTagIsTag(c.pre);
    }
  }

  lemma MatchesFromLeastTag(c: Comparator, core: Version, p: string)
    requires ValidComparator(c) && IsTag(p) && MatchesComparator(c, Tagged(core, p))
    ensures ComparePre(p, LeastTag(c, core)) != LT
  {
    LowestPre(p);
    if IsOn(c, core) && c.pre != "" {
      OnCoreIsTagMatch(c, core, p);
      TagOfComparator(c);
      NothingBetween(c.pre, p);
      EqualPreIsSame(p, c.pre);
    }
  }

  /** Among the tags of its own core a comparator has no gaps above its least one. */
  lemma NoTagGapsOn(c: Comparator, core: Version, q: string, p: string)
    requires ValidComparator(c) && IsTag(p) && IsTag(q) && IsOn(c, core) && TagMatches(c, p)
    requires ComparePre(q, LeastTag(c, core)) != LT && ComparePre(q, p) != GT
    ensures TagMatches(c, q)
  {
    PreChains(q, p, c.pre);
    EqualPreIsSame(q, c.pre);
    EqualPreIsSame(p, q);
    PreFlips(q, c.pre);
    PreFlips(q, p);
    if c.pre != "" && c.op == Greater {
      TagOfComparator(c);
      NothingBetween(c.pre, q);
      PreChains(q, NextTag(c.pre), c.pre);
    }
  }

  lemma NoTagGaps(c: Comparator, core: Version, q: string, p: string)
    requires ValidComparator(c) && IsTag(p) && IsTag(q) && MatchesComparator(c, Tagged(core, p))
    requires ComparePre(q, LeastTag(c, core)) != LT && ComparePre(q, p) != GT
    ensures MatchesComparator(c, Tagged(core, q))
  {
    if IsOn(c, core) {
      OnCoreIsTagMatch(c, core, p);
      NoTagGapsOn(c, core, q, p);
      OnCoreIsTagMatch(c, core, q);
    } else {
      OffCoreIgnoresTags(c, core, p, q);
    }
  }

  // ---------------------------------------------------------------------------
  // All comparators
  // ---------------------------------------------------------------------------

  function LaterTag(a: string, b: string): string {
    if ComparePre(a, b) == LT then b else a
  }

  /** The first tag of a core that no comparator rules out from below. */
  function FirstTag(requirement: Requirement, core: Version): string {
    if requirement == [] then LEAST_TAG
    else LaterTag(FirstTag(requirement[..|requirement| - 1], core), LeastTag(requirement[|requirement| - 1], core))
  }

  predicate PastAllTags(requirement: Requirement, core: Version, p: string) {
    forall c | c in requirement :: ComparePre(p, LeastTag(c, core)) != LT
  }

  lemma LaterIsAbove(a: string, b: string, c: string)
    ensures ComparePre(LaterTag(a, b), a) != LT && ComparePre(LaterTag(a, b), b) != LT
    ensures ComparePre(a, c) != LT ==> ComparePre(LaterTag(a, b), c) != LT
    ensures ComparePre(a, c) != GT && ComparePre(b, c) != GT ==> ComparePre(LaterTag(a, b), c) != GT
  {
    PreFlips(a, b);
    PreFlips(a, a);
    PreFlips(b, b);
    PreChains(b, a, c);
    PreChains(a, b, c);
    ListsFlip(Identifiers(a), Identifiers(a));
    ListsFlip(Identifiers(b), Identifiers(b));
  }

  lemma {:induction false} FirstTagIsBound(requirement: Requirement, core: Version, p: string)
    requires AllValid(requirement)
    ensures IsTag(FirstTag(requirement, core)) && PastAllTags(requirement, core, FirstTag(requirement, core))
    ensures IsTag(p) && PastAllTags(requirement, core, p) ==> ComparePre(FirstTag(requirement, core), p) != GT
  {
    if requirement == [] {
      LeastTagIsTag();
      if IsTag(p) {
        LowestPre(p);
        PreFlips(p, LEAST_TAG);
      }
    } else {
      var front, last := requirement[..|requirement| - 1], requirement[|requirement| - 1];
      var before, least := FirstTag(front, core), LeastTag(last, core);
      assert requirement == front + [last] && ValidComparator(last);
      FirstTagIsBound(front, core, p);
      LeastTagIsValid(last, core);
      LaterIsAbove(before, least, p);
      PreFlips(p, least);
      forall c | c in requirement ensures ComparePre(FirstTag(requirement, core), LeastTag(c, core)) != LT {
        LaterIsAbove(before, least, LeastTag(c, core));
      }
    }
  }

  /** Whether a requirement allows the first pre-release of a core past all its comparators. */
  predicate AllowsFirstTag(requirement: Requirement, core: Version) {
    Matches(requirement, Tagged(core, FirstTag(requirement, core)))
  }

  lemma PastAllOfMatch(requirement: Requirement, core: Version, p: string)
    requires AllValid(requirement) && IsTag(p)
    requires forall c | c in requirement :: MatchesComparator(c, Tagged(core, p))
    ensures PastAllTags(requirement, core, p)
  {
    forall c | c in requirement ensures ComparePre(p, LeastTag(c, core)) != LT {
      assert ValidComparator(c);
      MatchesFromLeastTag(c, core, p);
    }
  }

  lemma FirstTagMatches(requirement: Requirement, core: Version, p: string, c: Comparator)
    requires AllValid(requirement) && IsTag(p) && PastAllTags(requirement, core, p) && c in requirement
    requires MatchesComparator(c, Tagged(core, p))
    ensures MatchesComparator(c, Tagged(core, FirstTag(requirement, core)))
  {
    assert ValidComparator(c);
    FirstTagIsBound(requirement, core, p);
    NoTagGaps(c, core, FirstTag(requirement, core), p);
  }

  lemma OptInIsByCore(requirement: Requirement, core: Version, p: string, q: string)
    requires exists c | c in requirement :: OptsIn(c, Tagged(core, p))
    ensures exists c | c in requirement :: OptsIn(c, Tagged(core, q))
  {
    var c :| c in requirement && OptsIn(c, Tagged(core, p));
    assert OptsIn(c, Tagged(core, q));
  }

  /** A requirement allows some pre-release of a core exactly if it allows that first one. */
  lemma ReachesTag(requirement: Requirement, core: Version, p: string)
    requires AllValid(requirement) && IsTag(p) && Matches(requirement, Tagged(core, p))
    ensures AllowsFirstTag(requirement, core)
  {
    PastAllOfMatch(requirement, core, p);
    forall c | c in requirement ensures MatchesComparator(c, Tagged(core, FirstTag(requirement, core))) {
      FirstTagMatches(requirement, core, p, c);
    }
    OptInIsByCore(requirement, core, p, FirstTag(requirement, core));
  }

  // ---------------------------------------------------------------------------
  // Widening
  // ---------------------------------------------------------------------------

  /** The core whose pre-releases a widened requirement admits, if it does. */
  predicate KeepsCore(lower: Version, major: nat, core: Version) {
    && lower.pre != "" && SameCore(core, lower)
    && (core.major <= major || (core.major == major + 1 && core.minor == 0 && core.patch == 0))
  }

  lemma OwnCoreIsAboveBound(c: Comparator, v: Version)
    requires WellFormed(c) && IsLowerBound(c.op) && c.pre != "" && SameCore(v, LowerBound(c)) && MatchesComparator(c, v)
    ensures ComparePrecedence(v, LowerBound(c)) != LT
  {
    EqualPreIsSame(v.pre, c.pre);
  }

  lemma AllowedTagIsAboveBound(requirement: Requirement, lower: Version, v: Version)
    requires AllValid(requirement) && GreatestLowerBound(requirement) == Some(lower)
    requires Matches(requirement, v) && lower.pre != "" && SameCore(v, lower)
    ensures ComparePrecedence(v, lower) != LT
  {
    GreatestLowerBoundIsMax(requirement);
    var attained :| attained in requirement && IsLowerBound(attained.op) && LowerBound(attained) == lower;
    assert ValidComparator(attained);
    OwnCoreIsAboveBound(attained, v);
  }

  lemma TagIsBelowNext(v: Version, major: nat)
    requires v.pre != "" && major < MAX_U64
    ensures BelowNext(v, major)
            <==> v.major <= major || (v.major == major + 1 && v.minor == 0 && v.patch == 0)
  {
  }

  /** An allowed pre-release survives widening if and only if it has the lower bound's own core, the lower bound
    * being a pre-release itself, and that core is not past the next major. */
  lemma PrereleaseSurvivesExactly(requirement: Requirement, lower: Version, major: nat, v: Version)
    requires AllValid(requirement) && GreatestLowerBound(requirement) == Some(lower) && major < MAX_U64
    requires v.pre != "" && Matches(requirement, v)
    ensures Matches(WidenedRequirement(lower, major), v) <==> KeepsCore(lower, major, v)
  {
    WidenedMatches(lower, major, v);
    TagIsBelowNext(v, major);
    if lower.pre != "" && SameCore(v, lower) {
      AllowedTagIsAboveBound(requirement, lower, v);
    }
  }

  /** Whether a widened requirement allows every version the original does, pre-releases included. */
  ghost predicate KeepsAll(requirement: Requirement, lower: Version, major: nat) {
    forall v: Version | ValidVersion(v) && Matches(requirement, v) :: Matches(WidenedRequirement(lower, major), v)
  }

  /** Whether a core that some comparator opts in to and widening does not keep has a pre-release to lose. */
  predicate LosesPrerelease(requirement: Requirement, lower: Version, major: nat, c: Comparator) {
    && c in requirement && c.pre != ""
    && !KeepsCore(lower, major, LowerBound(c))
    && AllowsFirstTag(requirement, LowerBound(c))
  }

  lemma LostPrerelease(requirement: Requirement, lower: Version, major: nat, c: Comparator)
    requires AllValid(requirement) && GreatestLowerBound(requirement) == Some(lower) && major < MAX_U64
    requires LosesPrerelease(requirement, lower, major, c)
    ensures !KeepsAll(requirement, lower, major)
  {
    var core := LowerBound(c);
    var v := Tagged(core, FirstTag(requirement, core));
    assert ValidComparator(c);
    FirstTagIsBound(requirement, core, LEAST_TAG);
    assert ValidVersion(v);
    PrereleaseSurvivesExactly(requirement, lower, major, v);
  }

  lemma BuildIsIgnored(requirement: Requirement, v: Version)
    ensures Matches(requirement, v) <==> Matches(requirement, v.(build := ""))
  {
    forall c | c in requirement
      ensures MatchesComparator(c, v) == MatchesComparator(c, v.(build := ""))
      ensures OptsIn(c, v) == OptsIn(c, v.(build := ""))
    {
    }
  }

  lemma KeptPrerelease(requirement: Requirement, lower: Version, major: nat, v: Version)
    requires AllValid(requirement) && GreatestLowerBound(requirement) == Some(lower) && major < MAX_U64
    requires ValidVersion(v) && v.pre != "" && Matches(requirement, v)
    requires forall c | c in requirement :: !LosesPrerelease(requirement, lower, major, c)
    ensures Matches(WidenedRequirement(lower, major), v)
  {
    PrereleaseSurvivesExactly(requirement, lower, major, v);
    if !KeepsCore(lower, major, v) {
      var c :| c in requirement && OptsIn(c, v);
      var core := LowerBound(c);
      BuildIsIgnored(requirement, v);
      assert v.(build := "") == Tagged(core, v.pre);
      ReachesTag(requirement, core, v.pre);
      assert LosesPrerelease(requirement, lower, major, c);
    }
  }

  /** Widening keeps every version a requirement allows, pre-releases included, if and only if the requirement does
    * not allow the first stable version from the next major on, and allows no first pre-release of a core that a
    * comparator opts in to and the lower bound does not keep. */
  lemma WideningKeepsAllExactly(requirement: Requirement, lower: Version, major: nat)
    requires AllValid(requirement) && GreatestLowerBound(requirement) == Some(lower) && major < MAX_U64
    ensures KeepsAll(requirement, lower, major)
            <==> && !Reaches(requirement, major + 1)
                 && forall c | c in requirement :: !LosesPrerelease(requirement, lower, major, c)
  {
    if Reaches(requirement, major + 1) {
      FirstIsLost(requirement, lower, major);
    } else if c :| c in requirement && LosesPrerelease(requirement, lower, major, c) {
      LostPrerelease(requirement, lower, major, c);
    } else {
      forall v: Version | ValidVersion(v) && Matches(requirement, v)
        ensures Matches(WidenedRequirement(lower, major), v)
      {
        if v.IsStable() {
          KeptUnlessReached(requirement, lower, major, v);
        } else {
          KeptPrerelease(requirement, lower, major, v);
        }
      }
    }
  }

  // ---------------------------------------------------------------------------
  // A pre-release that is lost
  // ---------------------------------------------------------------------------

  lemma ExampleTags(rc: string, beta: string)
    requires rc == "rc.1" && beta == "beta"
    ensures IsTag(rc) && IsTag(beta) && ComparePre(beta, rc) == LT
  {
    assert HasNoDot("rc") && HasNoDot("1") && HasNoDot(beta);
    NoDots("1");
    NoDots(beta);
    IdentifiersCut("rc", "1", rc);
    assert Identifiers(rc) == ["rc", "1"] && Identifiers(beta) == [beta];
    assert CompareStrings(beta, "rc") == LT;
  }

  /** The constraint `>=lower, <upper`, where `upper` is a pre-release and `lower` is not. */
  lemma LowerTagIsLost(lower: Version, upper: Version, lost: Version, target: Version)
    requires IsStableValid(lower) && lower.build == "" && ValidVersion(upper) && upper.pre != ""
             && IsStableValid(target)
    requires lower.major < upper.major < target.major
    requires lost == Tagged(upper, lost.pre) && lost.pre != "" && ComparePre(lost.pre, upper.pre) == LT
    ensures var requirement := [At(GreaterEq, lower)] + [At(Less, upper)];
            && GreatestLowerBound(requirement) == Some(lower)
            && Matches(requirement, lost) && !Matches(requirement, target)
            && !Matches(WidenedRequirement(lower, target.major), lost)
  {
    var floor, ceiling := At(GreaterEq, lower), At(Less, upper);
    PairBound(floor, ceiling);
    PairMatches(floor, ceiling, lost);
    PairMatches(floor, ceiling, target);
    assert OptsIn(ceiling, lost);
    WidenedMatches(lower, target.major, lost);
  }

  lemma ExampleTexts(lower: Version, upper: Version, lost: Version, target: Version)
    requires lower == Version(1, 0, 0, "", "") && upper == Version(2, 0, 0, "rc.1", "")
    requires lost == Version(2, 0, 0, "beta", "") && target == Version(3, 0, 0, "", "")
    ensures PrintVersion(lower) == "1.0.0" && PrintVersion(upper) == "2.0.0-rc.1"
    ensures PrintVersion(lost) == "2.0.0-beta" && PrintVersion(target) == "3.0.0"
  {
    SmallDecimals();
  }

  /** What a constraint of two printed bounds is, and what widening makes of it. */
  lemma BoundsRead(currentValue: string, lower: Version, upper: Version, lost: Version, target: Version)
    requires IsStableValid(lower) && lower.build == "" && ValidVersion(upper) && upper.pre != ""
             && IsStableValid(target)
    requires lower.major < upper.major < target.major
    requires ValidVersion(lost) && lost == Tagged(upper, lost.pre) && lost.pre != ""
    requires ComparePre(lost.pre, upper.pre) == LT
    requires currentValue == ">=" + (PrintVersion(lower) + (", " + ("<" + PrintVersion(upper))))
    ensures MatchesText(PrintVersion(lost), currentValue) && !MatchesText(PrintVersion(target), currentValue)
    ensures Widen(currentValue, PrintVersion(target)).Some?
    ensures !MatchesText(PrintVersion(lost), Widen(currentValue, PrintVersion(target)).value)
  {
    var requirement := [At(GreaterEq, lower)] + [At(Less, upper)];
    var second := "<" + PrintVersion(upper);
    WidenedReads(lower, upper, second, ", " + second, currentValue);
    LowerTagIsLost(lower, upper, lost, target);
    PrintedVersionParses(lost);
    PrintedVersionParses(target);
    MatchesParsed(PrintVersion(lost), lost, currentValue, requirement);
    MatchesParsed(PrintVersion(target), target, currentValue, requirement);
    WidenedFrom(currentValue, requirement, lower, PrintVersion(target), target);
    MatchesParsed(PrintVersion(lost), lost, WidenedText(PrintVersion(lower), target.major),
                  WidenedRequirement(lower, target.major));
  }

  lemma ExampleFits(lower: Version, upper: Version, lost: Version, target: Version)
    requires lower == Version(1, 0, 0, "", "") && upper == Version(2, 0, 0, "rc.1", "")
    requires lost == Version(2, 0, 0, "beta", "") && target == Version(3, 0, 0, "", "")
    ensures IsStableValid(lower) && ValidVersion(upper) && IsStableValid(target) && ValidVersion(lost)
    ensures ComparePre(lost.pre, upper.pre) == LT && lost == Tagged(upper, lost.pre)
  {
    ExampleTags(upper.pre, lost.pre);
  }

  lemma ExampleConstraint(currentValue: string, low: string, high: string)
    requires currentValue == ">=1.0.0, <2.0.0-rc.1" && low == "1.0.0" && high == "2.0.0-rc.1"
    ensures currentValue == ">=" + (low + (", " + ("<" + high)))
  {
  }

  /** Without any strict `>` a pre-release is lost: `>=1.0.0, <2.0.0-rc.1` allows 2.0.0-beta; widened towards
    * 3.0.0 it does not. */
  lemma PrereleaseIsLost(currentValue: string)
    requires currentValue == ">=1.0.0, <2.0.0-rc.1"
    ensures MatchesText("2.0.0-beta", currentValue) && !MatchesText("3.0.0", currentValue)
    ensures Widen(currentValue, "3.0.0").Some?
    ensures !MatchesText("2.0.0-beta", Widen(currentValue, "3.0.0").value)
  {
    var lower, upper := Version(1, 0, 0, "", ""), Version(2, 0, 0, "rc.1", "");
    var lost, target := Version(2, 0, 0, "beta", ""), Version(3, 0, 0, "", "");
    ExampleTexts(lower, upper, lost, target);
    ExampleConstraint(currentValue, PrintVersion(lower), PrintVersion(upper));
    ExampleFits(lower, upper, lost, target);
    BoundsRead(currentValue, lower, upper, lost, target);
  }
}
