/** When running the update engine again proposes nothing further. */
module Convergence {
  import opened Wrappers
  import opened Ordering
  import opened Updates
  import opened UpdateEngine

  /** Whether a version can be the lower bound of a constraint. */
  ghost predicate IsBound(s: Scheme, version: string) {
    exists constraint :: s.minVersion(constraint) == Some(version)
  }

  predicate IsWithdrawn(releases: seq<Release>, version: string) {
    exists r | r in releases :: r.yanked && r.version == version
  }

  /** The datasource lists the greatest eligible release a second time, as yanked, and there is another one
    * to roll back to. */
  ghost predicate GreatestIsWithdrawn(s: Scheme, config: UpdateConfig, releases: seq<Release>) {
    var eligible := Eligible(s, config, releases);
    var greatest := GreatestOf(s, eligible);
    && greatest.Some?
    && IsBound(s, greatest.value)
    && IsWithdrawn(releases, greatest.value)
    && exists other | other in eligible :: other != greatest.value
  }

  lemma YankedMeansWithdrawn(s: Scheme, releases: seq<Release>, current: string)
    requires Lawful(s) && s.isValid(current)
    ensures IsYanked(s, releases, current) <==> IsWithdrawn(releases, current)
  {
    Flips(s, current, current);
    forall r | r in releases && s.compare(r.version, current) == Some(EQ) ensures r.version == current {
      assert InvalidLaw(s, r.version, current);
      Flips(s, r.version, current);
    }
  }

  /** A current version that is itself the greatest eligible release starts no rollback. */
  lemma NoRollbackFromGreatest(s: Scheme, config: UpdateConfig, current: string, releases: seq<Release>)
    requires Lawful(s) && s.isValid(current) && IsBound(s, current)
    requires !GreatestIsWithdrawn(s, config, releases)
    requires GreatestOf(s, Eligible(s, config, releases)) == Some(current)
    ensures ChooseTarget(s, config, current, releases) == None
  {
    var eligible := Eligible(s, config, releases);
    Flips(s, current, current);
    YankedMeansWithdrawn(s, releases, current);
    if ChooseTarget(s, config, current, releases).Some? {
      var target := ChooseTarget(s, config, current, releases).value;
      TargetIsRight(s, config, current, releases, target);
      assert target in eligible && target != current;
    }
  }

  lemma NeitherAbove(s: Scheme, a: string, b: string)
    requires Lawful(s) && s.isValid(a) && s.isValid(b)
    requires s.compare(a, b) != Some(GT) && s.compare(b, a) != Some(GT)
    ensures a == b
  {
    Flips(s, a, b);
  }

  lemma GreatestIsBelow(s: Scheme, eligible: seq<string>, current: string, greatest: string, target: string)
    requires Lawful(s) && s.isValid(current) && AllValid(s, eligible) && greatest in eligible && greatest != current
    requires Dominates(s, current, eligible) && Dominates(s, target, Below(s, eligible, current))
    ensures s.compare(greatest, target) != Some(GT)
  {
    Flips(s, greatest, current);
    BelowContents(s, eligible, current, greatest);
  }

  /** So every update, a rollback too, goes to the greatest eligible release. */
  lemma TargetIsGreatest(s: Scheme, config: UpdateConfig, current: string, releases: seq<Release>, target: string)
    requires Lawful(s) && s.isValid(current) && IsBound(s, current)
    requires !GreatestIsWithdrawn(s, config, releases)
    requires ChooseTarget(s, config, current, releases) == Some(target)
    ensures GreatestOf(s, Eligible(s, config, releases)) == Some(target)
  {
    var eligible := Eligible(s, config, releases);
    TargetIsRight(s, config, current, releases, target);
    EligibleAreValid(s, config, releases);
    GreatestDominates(s, eligible);
    var greatest := GreatestOf(s, eligible).value;
    if greatest == current {
      NoRollbackFromGreatest(s, config, current, releases);
    } else {
      if s.compare(target, current) != Some(GT) {
        GreatestIsBelow(s, eligible, current, greatest, target);
      }
      NeitherAbove(s, target, greatest);
    }
  }

  /** From a bound at or just below the greatest release there is no other target. */
  lemma NoOtherTarget(s: Scheme, config: UpdateConfig, current: string, releases: seq<Release>, target: string)
    requires Lawful(s) && s.isValid(current) && IsBound(s, current)
    requires !GreatestIsWithdrawn(s, config, releases)
    requires GreatestOf(s, Eligible(s, config, releases)) == Some(target)
    requires s.compare(target, current) in {Some(EQ), Some(GT)}
    ensures ChooseTarget(s, config, current, releases) in {None, Some(target)}
  {
    if s.compare(target, current) == Some(EQ) {
      assert InvalidLaw(s, target, current);
      Flips(s, target, current);
      NoRollbackFromGreatest(s, config, current, releases);
    }
  }

  lemma SameTargetProposesNothing(s: Scheme, config: UpdateConfig, dependency: Dependency, releases: seq<Release>,
                                  current: string, target: string)
    requires s.minVersion(dependency.currentValue) == Some(current)
    requires ChooseTarget(s, config, current, releases) in {None, Some(target)}
    requires s.getNewValue(dependency.currentValue, config.strategy, target) in {None, Some(dependency.currentValue)}
    ensures Propose(s, config, dependency, Ok(releases)) == Ok(None)
  {
  }

  /** The pipeline settles: after an update, upgrade or rollback, the rewritten dependency draws no further
    * proposal from the same releases, unless the greatest release is also listed as yanked; and even
    * then it settles if the rewrite kept the constraint's lower bound. */
  lemma UpdateSettles(s: Scheme, config: UpdateConfig, dependency: Dependency, releases: seq<Release>,
                      update: DependencyUpdate)
    requires Lawful(s) && Propose(s, config, dependency, Ok(releases)) == Ok(Some(update))
    requires !GreatestIsWithdrawn(s, config, releases)
             || s.minVersion(update.newValue) == s.minVersion(dependency.currentValue)
    ensures Propose(s, config, dependency.(currentValue := update.newValue), Ok(releases)) == Ok(None)
  {
    var again := dependency.(currentValue := update.newValue);
    var current := s.minVersion(dependency.currentValue).value;
    var target := update.newVersion;
    assert RewriteLaw(s, dependency.currentValue, config.strategy, target);
    assert BoundLaw(s, dependency.currentValue);
    assert BoundLaw(s, update.newValue);
    var next := s.minVersion(update.newValue).value;
    if next != current {
      TargetIsGreatest(s, config, current, releases, target);
      NoOtherTarget(s, config, next, releases, target);
    }
    SameTargetProposesNothing(s, config, again, releases, next, target);
  }

  /** From the withdrawn greatest release the engine turns back to a lower one. */
  lemma WithdrawnGreatestRollsBack(s: Scheme, config: UpdateConfig, releases: seq<Release>, greatest: string)
    requires Lawful(s) && s.isValid(greatest) && GreatestIsWithdrawn(s, config, releases)
    requires GreatestOf(s, Eligible(s, config, releases)) == Some(greatest)
    ensures var target := ChooseTarget(s, config, greatest, releases);
            target.Some? && s.isValid(target.value) && s.compare(target.value, greatest) == Some(LT)
  {
    var eligible := Eligible(s, config, releases);
    EligibleAreValid(s, config, releases);
    GreatestDominates(s, eligible);
    Flips(s, greatest, greatest);
    YankedMeansWithdrawn(s, releases, greatest);
    var other :| other in eligible && other != greatest;
    Flips(s, other, greatest);
    BelowContents(s, eligible, greatest, other);
    BelowAreValid(s, eligible, greatest);
    GreatestDominates(s, Below(s, eligible, greatest));
    TargetIsRight(s, config, greatest, releases, ChooseTarget(s, config, greatest, releases).value);
  }

  // ---------------------------------------------------------------------------
  // Settling, over all dependencies
  // ---------------------------------------------------------------------------

  /** Running the engine again on what it rewrote proposes nothing. */
  predicate Settles(schemes: map<string, Scheme>, config: UpdateConfig, dependency: Dependency,
                    releases: seq<Release>) {
    var first := DetermineUpdate(schemes, config, dependency, Ok(releases));
    first.Ok? && first.value.Some? ==>
      DetermineUpdate(schemes, config, dependency.(currentValue := first.value.value.newValue), Ok(releases))
        == Ok(None)
  }

  /** The configured strategy rewrites without touching lower bounds. */
  ghost predicate KeepsBounds(s: Scheme, strategy: RangeStrategy) {
    forall constraint, target :: KeepsBound(s, strategy, constraint, target)
  }

  predicate KeepsBound(s: Scheme, strategy: RangeStrategy, constraint: string, target: string) {
    var r := s.getNewValue(constraint, strategy, target);
    r.Some? ==> s.minVersion(r.value) == s.minVersion(constraint)
  }

  lemma EveryUpdateSettles(schemes: map<string, Scheme>, config: UpdateConfig, dependency: Dependency,
                           releases: seq<Release>)
    requires forall id | id in schemes :: Lawful(schemes[id])
    requires forall id | id in schemes ::
               KeepsBounds(schemes[id], config.strategy) || !GreatestIsWithdrawn(schemes[id], config, releases)
    ensures Settles(schemes, config, dependency, releases)
  {
    var first := DetermineUpdate(schemes, config, dependency, Ok(releases));
    if first.Ok? && first.value.Some? {
      var s := schemes[dependency.versioning];
      var update := first.value.value;
      assert KeepsBounds(s, config.strategy)
             ==> KeepsBound(s, config.strategy, dependency.currentValue, update.newVersion);
      UpdateSettles(s, config, dependency, releases, update);
    }
  }

  /** The other way round: from a constraint that moves up to the withdrawn release, a second run moves away. */
  lemma WithdrawnNeverSettles(s: Scheme, schemes: map<string, Scheme>, config: UpdateConfig, dependency: Dependency,
                              releases: seq<Release>, greatest: string, current: string, moved: string)
    requires Lawful(s) && GreatestIsWithdrawn(s, config, releases)
    requires dependency.versioning in schemes && schemes[dependency.versioning] == s
             && !config.IsIgnored(dependency.name)
    requires GreatestOf(s, Eligible(s, config, releases)) == Some(greatest) && s.isValid(greatest)
    requires s.minVersion(dependency.currentValue) == Some(current) && s.compare(greatest, current) == Some(GT)
    requires s.getNewValue(dependency.currentValue, config.strategy, greatest) == Some(moved)
    requires moved != dependency.currentValue && s.minVersion(moved) == Some(greatest)
    requires forall lower | s.isValid(lower) && s.compare(lower, greatest) == Some(LT) ::
               s.getNewValue(moved, config.strategy, lower).Some?
                 && s.getNewValue(moved, config.strategy, lower) != Some(moved)
    ensures !Settles(schemes, config, dependency, releases)
  {
    var again := dependency.(currentValue := moved);
    assert InvalidLaw(s, greatest, current);
    assert DiffLaw(s, current, greatest);
    Flips(s, greatest, current);
    WithdrawnGreatestRollsBack(s, config, releases, greatest);
    var lower := ChooseTarget(s, config, greatest, releases).value;
    Flips(s, lower, greatest);
    assert DiffLaw(s, greatest, lower);
    assert BuildUpdate(s, config, dependency, current, greatest).Some?;
    assert BuildUpdate(s, config, again, greatest, lower).Some?;
  }

  /** A withdrawn greatest release is above the lowest version of all, as another release is below it. */
  lemma WithdrawnIsAboveLowest(s: Scheme, config: UpdateConfig, releases: seq<Release>, greatest: string,
                               lowest: string)
    requires Lawful(s) && GreatestIsWithdrawn(s, config, releases) && s.isValid(lowest)
    requires forall v | s.isValid(v) :: s.compare(v, lowest) != Some(LT)
    requires GreatestOf(s, Eligible(s, config, releases)) == Some(greatest)
    ensures s.isValid(greatest) && s.compare(greatest, lowest) == Some(GT)
  {
    var eligible := Eligible(s, config, releases);
    EligibleAreValid(s, config, releases);
    GreatestDominates(s, eligible);
    var other :| other in eligible && other != greatest;
    Flips(s, other, greatest);
    TextsChain(s, greatest, other, lowest);
  }
}
