/** The update engine's choice of a target, over any versioning scheme. */
module UpdateEngine {
  import opened Wrappers
  import opened Ordering
  import opened Updates

  /** The port through which the engine sees version texts. */
  datatype Scheme = Scheme(
    isValid: string -> bool,
    isStable: string -> bool,
    compare: (string, string) -> Option<Order>,
    minVersion: string -> Option<string>,
    diff: (string, string) -> Option<UpdateType>,
    getNewValue: (string, RangeStrategy, string) -> Option<string>)

  // ---------------------------------------------------------------------------
  // What the engine needs of a scheme
  // ---------------------------------------------------------------------------

  predicate FlipLaw(s: Scheme, a: string, b: string) {
    s.isValid(a) && s.isValid(b) ==>
      && s.compare(a, b).Some?
      && s.compare(b, a) == Some(s.compare(a, b).value.Flip())
      && (s.compare(a, b) == Some(EQ) <==> a == b)
  }

  predicate ChainLaw(s: Scheme, a: string, b: string, c: string) {
    s.isValid(a) && s.isValid(b) && s.isValid(c) ==>
      && s.compare(a, b).Some? && s.compare(b, c).Some? && s.compare(a, c).Some?
      && Chains(s.compare(a, b).value, s.compare(b, c).value, s.compare(a, c).value)
  }

  predicate InvalidLaw(s: Scheme, a: string, b: string) {
    s.compare(a, b).Some? ==> s.isValid(a) && s.isValid(b)
  }

  predicate BoundLaw(s: Scheme, constraint: string) {
    s.minVersion(constraint).Some? ==> s.isValid(s.minVersion(constraint).value)
  }

  predicate DiffLaw(s: Scheme, current: string, candidate: string) {
    s.isValid(current) && s.isValid(candidate) ==>
      && (s.diff(current, candidate) == None <==> current == candidate)
      && (s.diff(current, candidate) == Some(Rollback) <==> s.compare(candidate, current) == Some(LT))
  }

  /** A rewrite repeated towards the same target changes nothing, and leaves the constraint's bound where it
    * was or moves it to the target or just below. */
  predicate RewriteLaw(s: Scheme, currentValue: string, strategy: RangeStrategy, target: string) {
    var r := s.getNewValue(currentValue, strategy, target);
    r.Some? && s.minVersion(currentValue).Some? ==>
      && (s.getNewValue(r.value, strategy, target).Some? ==> s.getNewValue(r.value, strategy, target) == r)
      && s.minVersion(r.value).Some?
      && (s.minVersion(r.value) == s.minVersion(currentValue)
          || s.compare(target, s.minVersion(r.value).value) in {Some(EQ), Some(GT)})
  }

  /** A total order on valid versions, under which distinct texts never tie, and stable rewriting. */
  ghost predicate Lawful(s: Scheme) {
    && (forall a, b :: FlipLaw(s, a, b))
    && (forall a, b, c :: ChainLaw(s, a, b, c))
    && (forall a, b :: InvalidLaw(s, a, b))
    && (forall constraint :: BoundLaw(s, constraint))
    && (forall current, candidate :: DiffLaw(s, current, candidate))
    && (forall currentValue, strategy, target :: RewriteLaw(s, currentValue, strategy, target))
  }

  lemma Flips(s: Scheme, a: string, b: string)
    requires Lawful(s) && s.isValid(a) && s.isValid(b)
    ensures s.compare(a, b).Some? && s.compare(b, a) == Some(s.compare(a, b).value.Flip())
    ensures s.compare(a, b) == Some(EQ) <==> a == b
  {
    assert FlipLaw(s, a, b);
  }

  lemma TextsChain(s: Scheme, a: string, b: string, c: string)
    requires Lawful(s) && s.isValid(a) && s.isValid(b) && s.isValid(c)
    ensures s.compare(a, b).Some? && s.compare(b, c).Some? && s.compare(a, c).Some?
    ensures Chains(s.compare(a, b).value, s.compare(b, c).value, s.compare(a, c).value)
  {
    assert ChainLaw(s, a, b, c);
  }

  // ---------------------------------------------------------------------------
  // The greatest of some versions
  // ---------------------------------------------------------------------------

  function GreatestOf(s: Scheme, versions: seq<string>): Option<string> {
    if versions == [] then None
    else
      var best := GreatestOf(s, versions[..|versions| - 1]);
      var last := versions[|versions| - 1];
      if best.None? || s.compare(last, best.value) == Some(GT) then Some(last) else best
  }

  method Greatest(s: Scheme, versions: seq<string>) returns (best: Option<string>)
    ensures best == GreatestOf(s, versions)
  {
    best := None;
    for i := 0 to |versions|
      invariant best == GreatestOf(s, versions[..i])
    {
      assert versions[..i + 1][..i] == versions[..i];
      if best.None? || s.compare(versions[i], best.value) == Some(GT) {
        best := Some(versions[i]);
      }
    }
    assert versions[..|versions|] == versions;
  }

  predicate AllValid(s: Scheme, versions: seq<string>) {
    forall v | v in versions :: s.isValid(v)
  }

  /** No version of the list is above this one. */
  predicate Dominates(s: Scheme, version: string, versions: seq<string>) {
    forall v | v in versions :: s.compare(v, version) != Some(GT)
  }

  /** The greatest of valid versions is one of them and no other is above it. */
  lemma {:induction false} GreatestDominates(s: Scheme, versions: seq<string>)
    requires Lawful(s)
    requires AllValid(s, versions)
    ensures GreatestOf(s, versions).None? <==> versions == []
    ensures GreatestOf(s, versions).Some?
            ==> GreatestOf(s, versions).value in versions && Dominates(s, GreatestOf(s, versions).value, versions)
  {
    if versions != [] {
      var front, last := versions[..|versions| - 1], versions[|versions| - 1];
      assert versions == front + [last];
      GreatestDominates(s, front);
      var g := GreatestOf(s, versions).value;
      Flips(s, last, last);
      forall v | v in versions
        ensures s.compare(v, g) != Some(GT)
      {
        if v in front && g == last {
          var best := GreatestOf(s, front).value;
          TextsChain(s, v, best, last);
          Flips(s, last, best);
        }
      }
    }
  }

  // ---------------------------------------------------------------------------
  // Eligible releases and the target
  // ---------------------------------------------------------------------------

  predicate IsEligible(s: Scheme, config: UpdateConfig, release: Release) {
    !release.yanked && s.isValid(release.version) && (config.allowPrerelease || s.isStable(release.version))
  }

  function Eligible(s: Scheme, config: UpdateConfig, releases: seq<Release>): seq<string> {
    if releases == [] then []
    else (if IsEligible(s, config, releases[0]) then [releases[0].version] else []) + Eligible(s, config, releases[1..])
  }

  function Below(s: Scheme, versions: seq<string>, current: string): seq<string> {
    if versions == [] then []
    else (if s.compare(versions[0], current) == Some(LT) then [versions[0]] else []) + Below(s, versions[1..], current)
  }

  predicate IsYanked(s: Scheme, releases: seq<Release>, current: string) {
    exists r | r in releases :: r.yanked && s.compare(r.version, current) == Some(EQ)
  }

  /** The greatest eligible release if it is above the current version; else, off a yanked current version,
    * the greatest eligible release below it. */
  function ChooseTarget(s: Scheme, config: UpdateConfig, current: string, releases: seq<Release>): Option<string> {
    var eligible := Eligible(s, config, releases);
    var greatest := GreatestOf(s, eligible);
    if greatest.Some? && s.compare(greatest.value, current) == Some(GT) then greatest
    else if IsYanked(s, releases, current) then GreatestOf(s, Below(s, eligible, current))
    else None
  }

  function BuildUpdate(s: Scheme, config: UpdateConfig, dependency: Dependency, current: string,
                       target: string): Option<DependencyUpdate> {
    var newValue :- s.getNewValue(dependency.currentValue, config.strategy, target);
    if newValue == dependency.currentValue then None
    else
      var updateType :- s.diff(current, target);
      Some(DependencyUpdate(dependency, updateType, newValue, target))
  }

  /** The update a scheme proposes for a dependency it governs; `releases` is what the datasource answers,
    * asked only if the constraint has a lower bound. */
  function Propose(s: Scheme, config: UpdateConfig, dependency: Dependency, releases: Result<seq<Release>, string>)
    : Result<Option<DependencyUpdate>, string>
  {
    var current := s.minVersion(dependency.currentValue);
    if current.None? then Ok(None)
    else
      var known :- releases;
      var target := ChooseTarget(s, config, current.value, known);
      Ok(if target.None? then None else BuildUpdate(s, config, dependency, current.value, target.value))
  }

  function DetermineUpdate(schemes: map<string, Scheme>, config: UpdateConfig, dependency: Dependency,
                           releases: Result<seq<Release>, string>): Result<Option<DependencyUpdate>, string> {
    if config.IsIgnored(dependency.name) || dependency.versioning !in schemes then Ok(None)
    else Propose(schemes[dependency.versioning], config, dependency, releases)
  }

  lemma {:induction false} EligibleContents(s: Scheme, config: UpdateConfig, releases: seq<Release>, version: string)
    ensures version in Eligible(s, config, releases)
            <==> exists r | r in releases :: r.version == version && IsEligible(s, config, r)
    ensures version in Eligible(s, config, releases) ==> s.isValid(version)
  {
    if releases != [] {
      var first, rest := releases[0], releases[1..];
      EligibleContents(s, config, rest, version);
      assert releases == [first] + rest;
      if version in Eligible(s, config, releases) {
        if version in Eligible(s, config, rest) {
          var r :| r in rest && r.version == version && IsEligible(s, config, r);
          assert r in releases;
        } else {
          assert first in releases;
        }
      }
    }
  }

  lemma EligibleAreValid(s: Scheme, config: UpdateConfig, releases: seq<Release>)
    ensures AllValid(s, Eligible(s, config, releases))
  {
    forall v | v in Eligible(s, config, releases) ensures s.isValid(v) {
      EligibleContents(s, config, releases, v);
    }
  }

  lemma {:induction false} BelowContents(s: Scheme, versions: seq<string>, current: string, version: string)
    ensures version in Below(s, versions, current) <==> version in versions && s.compare(version, current) == Some(LT)
  {
    if versions != [] {
      BelowContents(s, versions[1..], current, version);
      assert versions == [versions[0]] + versions[1..];
    }
  }

  lemma BelowAreValid(s: Scheme, versions: seq<string>, current: string)
    requires AllValid(s, versions)
    ensures AllValid(s, Below(s, versions, current))
  {
    forall v | v in Below(s, versions, current) ensures s.isValid(v) {
      BelowContents(s, versions, current, v);
    }
  }

  lemma GreatestBelowDominates(s: Scheme, versions: seq<string>, greatest: string, current: string)
    requires Lawful(s) && AllValid(s, versions) && s.isValid(greatest) && s.isValid(current)
    requires Dominates(s, greatest, versions) && s.compare(greatest, current) != Some(GT)
    ensures Dominates(s, current, versions)
  {
    forall v | v in versions ensures s.compare(v, current) != Some(GT) {
      TextsChain(s, v, greatest, current);
    }
  }

  /** The engine looks below the current version only when nothing eligible is above it. */
  lemma NoUpgradeMeansDominated(s: Scheme, config: UpdateConfig, current: string, releases: seq<Release>)
    requires Lawful(s) && s.isValid(current)
    requires var g := GreatestOf(s, Eligible(s, config, releases)); g.None? || s.compare(g.value, current) != Some(GT)
    ensures Dominates(s, current, Eligible(s, config, releases))
  {
    var eligible := Eligible(s, config, releases);
    EligibleAreValid(s, config, releases);
    GreatestDominates(s, eligible);
    if GreatestOf(s, eligible).Some? {
      GreatestBelowDominates(s, eligible, GreatestOf(s, eligible).value, current);
    }
  }

  /** A chosen target is the greatest eligible release and above the current version, or the greatest of
    * those below a yanked current version that nothing eligible exceeds. */
  lemma TargetIsRight(s: Scheme, config: UpdateConfig, current: string, releases: seq<Release>, target: string)
    requires Lawful(s) && s.isValid(current) && ChooseTarget(s, config, current, releases) == Some(target)
    ensures target in Eligible(s, config, releases) && s.isValid(target)
    ensures s.compare(target, current) == Some(GT) ==> Dominates(s, target, Eligible(s, config, releases))
    ensures s.compare(target, current) != Some(GT) ==>
              && s.compare(target, current) == Some(LT)
              && IsYanked(s, releases, current)
              && Dominates(s, current, Eligible(s, config, releases))
              && Dominates(s, target, Below(s, Eligible(s, config, releases), current))
  {
    var eligible := Eligible(s, config, releases);
    EligibleAreValid(s, config, releases);
    GreatestDominates(s, eligible);
    if GreatestOf(s, eligible) != Some(target) || s.compare(target, current) != Some(GT) {
      NoUpgradeMeansDominated(s, config, current, releases);
      BelowAreValid(s, eligible, current);
      GreatestDominates(s, Below(s, eligible, current));
      BelowContents(s, eligible, current, target);
    }
    EligibleContents(s, config, releases, target);
  }

  lemma ProposalIsRewrite(s: Scheme, config: UpdateConfig, dependency: Dependency, releases: seq<Release>,
                          update: DependencyUpdate)
    requires Propose(s, config, dependency, Ok(releases)) == Ok(Some(update))
    ensures s.getNewValue(dependency.currentValue, config.strategy, update.newVersion) == Some(update.newValue)
  {
  }

  /** A proposed update moves to an eligible release: upwards to the greatest one, or, only when the current
    * version is yanked and nothing eligible exceeds it, down to the greatest one below; it is labelled a
    * rollback exactly in the second case. */
  lemma UpdatesAreSound(s: Scheme, config: UpdateConfig, dependency: Dependency, releases: seq<Release>,
                        update: DependencyUpdate, current: string)
    requires Lawful(s) && Propose(s, config, dependency, Ok(releases)) == Ok(Some(update))
    requires s.minVersion(dependency.currentValue) == Some(current)
    ensures update.newVersion in Eligible(s, config, releases)
    ensures update.dependency == dependency && update.newValue != dependency.currentValue
    ensures if update.updateType == Rollback
            then
              && s.compare(update.newVersion, current) == Some(LT)
              && IsYanked(s, releases, current)
              && Dominates(s, current, Eligible(s, config, releases))
              && Dominates(s, update.newVersion, Below(s, Eligible(s, config, releases), current))
            else
              && s.compare(update.newVersion, current) == Some(GT)
              && Dominates(s, update.newVersion, Eligible(s, config, releases))
  {
    assert BoundLaw(s, dependency.currentValue);
    TargetIsRight(s, config, current, releases, update.newVersion);
    assert DiffLaw(s, current, update.newVersion);
  }
}
