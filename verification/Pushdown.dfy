/** The listing endpoint end to end: from a token configuration, through the authorizer's listing
  * predicate and its compiled query, to the rows the database returns. */
module Pushdown {
  import opened Wrappers
  import opened Packages
  import opened Authz
  import opened LocalAuthorizer
  import opened Authorization
  import opened PredicateCompiler
  import opened PredicateMeaning
  import opened Browse
  import Sql

  datatype Refusal = Unauthorized | Forbidden

  /** The predicate a caller's listing is filtered by; an open server filters nothing. */
  function BrowsePredicate(config: Config, caller: Option<Principal>): Result<QueryPredicate, Refusal> {
    if !config.auth.enabled then Ok(Always)
    else if caller.None? then Err(Unauthorized)
    else
      var decision := Authorize(GrantsOf(config), caller.value, Action.Browse, NamespaceResource(DEFAULT_NAMESPACE));
      if !decision.allow then Err(Forbidden) else Ok(Filter(decision))
  }

  /** What an allowing decision filters rows by: its predicate, or nothing. */
  function Filter(decision: Decision): QueryPredicate {
    if decision.predicate_.Some? then decision.predicate_.value else Always
  }

  /** Narrowing to one ecosystem keeps the authorization predicate. */
  function Narrowed(p: QueryPredicate, ecosystem: Option<Ecosystem>): QueryPredicate {
    if ecosystem.Some? then All([p, InEcosystem(ecosystem.value)]) else p
  }

  lemma PatternPredicateIsPathFree(pattern: RepositoryPattern)
    ensures PathFree(PatternToPredicate(pattern))
  {
  }

  lemma {:induction false} ViewPredicatesArePathFree(views: seq<RepositoryView>, action: Action, namespace: Namespace)
    ensures forall p | p in ViewPredicates(views, action, namespace) :: PathFree(p)
  {
    if views != [] {
      ViewPredicatesArePathFree(views[..|views| - 1], action, namespace);
      PatternPredicateIsPathFree(views[|views| - 1].repository);
    }
  }

  lemma {:induction false} ScopePredicatesArePathFree(scopes: seq<ApiTokenScope>, action: Action)
    ensures forall p | p in ScopePredicates(scopes, action) :: PathFree(p)
  {
    if scopes != [] {
      ScopePredicatesArePathFree(scopes[..|scopes| - 1], action);
      PatternPredicateIsPathFree(scopes[|scopes| - 1].repository);
    }
  }

  lemma {:induction false} RestrictionsAreListed(ps: seq<QueryPredicate>)
    ensures forall p | p in Restrictions(ps) :: p in ps
  {
    if ps != [] {
      RestrictionsAreListed(ps[..|ps| - 1]);
      assert ps == ps[..|ps| - 1] + [ps[|ps| - 1]];
    }
  }

  lemma UnionIsPathFree(ps: seq<QueryPredicate>)
    requires forall p | p in ps :: PathFree(p)
    ensures PathFree(Any(ps))
  {
    assert forall i | 0 <= i < |ps| :: PathFree(ps[i]);
  }

  /** No listing decision of the authorizer ever carries a path term. */
  lemma ListingIsPathFree(grants: map<string, Grants>, principal: Principal, action: Action, namespace: Namespace)
    ensures var decision := Authorize(grants, principal, action, NamespaceResource(namespace));
            decision.predicate_.Some? ==> PathFree(decision.predicate_.value)
  {
    if principal.id in grants {
      var held := grants[principal.id];
      var listed := ListedPredicates(principal, held, action, namespace);
      ViewPredicatesArePathFree(held.views, action, namespace);
      ScopePredicatesArePathFree(held.tokenScopes, action);
      RestrictionsAreListed(listed);
      UnionIsPathFree(Restrictions(listed));
    }
  }

  lemma NarrowedMeans(p: QueryPredicate, filter: Option<Ecosystem>, ecosystem: Ecosystem, name: string)
    requires PathFree(p)
    ensures PathFree(Narrowed(p, filter))
    ensures Evaluate(Narrowed(p, filter), RepositoryContext(ecosystem, name))
         == (Evaluate(p, RepositoryContext(ecosystem, name)) && (filter.Some? ==> filter.value == ecosystem))
  {
    if filter.Some? {
      var children := [p, InEcosystem(filter.value)];
      assert children[0] == p && children[1] == InEcosystem(filter.value);
    }
  }

  /** The compiled query is accepted, pages as requested, and answers `expected` for the row. */
  predicate Selects(p: QueryPredicate, page: BrowsePage, row: Sql.Row, expected: bool) {
    var plan := PlanOf(COMPONENTS_LAYOUT, QueryOf(COMPONENTS_LAYOUT, Compiled(p), page));
    && plan.Some?
    && plan.value.limit == page.limit && plan.value.offset == page.offset
    && Sql.Eval(plan.value.condition, plan.value.params, row) == Some(expected)
  }

  /** The database selects a row exactly when a path-free predicate holds of its repository. */
  lemma QuerySelects(p: QueryPredicate, page: BrowsePage, row: Sql.Row, ecosystem: Ecosystem)
    requires PathFree(p) && row.ecosystem == EcosystemName(ecosystem)
    ensures Selects(p, page, row, Evaluate(p, RepositoryContext(ecosystem, row.name)))
  {
    var context := RepositoryContext(ecosystem, row.name);
    ComponentsLayoutIsWellFormed();
    BrowsePlans(COMPONENTS_LAYOUT, p, page);
    BrowseSelectsMatchingRows(COMPONENTS_LAYOUT, p, page, row, context);
    ErasingPathsIsMonotone(p, true, context);
    ErasingPathsIsMonotone(p, false, context);
  }

  /** Over every configuration, caller, action and namespace: the query for the decision's predicate selects a
    * component row exactly when the gate shows its repository, and a refused caller could see no row at all. */
  lemma ListingSelectsGatedRows(config: Config, caller: Principal, action: Action, namespace: Namespace,
                                page: BrowsePage, row: Sql.Row, ecosystem: Ecosystem)
    requires row.ecosystem == EcosystemName(ecosystem)
    ensures var decision := Authorize(GrantsOf(config), caller, action, NamespaceResource(namespace));
            var shown := GateShows(GrantsOf(config), caller, action, namespace, ecosystem, row.name);
            if decision.allow
            then
              && PathFree(Filter(decision)) && Selects(Filter(decision), page, row, shown)
              && Evaluate(Filter(decision), RepositoryContext(ecosystem, row.name)) == shown
            else !shown
  {
    MigratedListingShowsExactlyWhatGateAllows(config, caller, action, namespace, ecosystem, row.name);
    ListingIsPathFree(GrantsOf(config), caller, action, namespace);
    var decision := Authorize(GrantsOf(config), caller, action, NamespaceResource(namespace));
    if decision.allow {
      QuerySelects(Filter(decision), page, row, ecosystem);
    }
  }

  /** With authorization on, the listing query returns a component row exactly when it lies in the
    * requested ecosystem and the gate allows the caller some content action on its repository; and a
    * refused caller could see no row at all. */
  lemma ListingReturnsExactlyGatedRows(
    config: Config, caller: Principal, filter: Option<Ecosystem>, page: BrowsePage, row: Sql.Row, ecosystem: Ecosystem)
    requires config.auth.enabled && row.ecosystem == EcosystemName(ecosystem)
    ensures var answer := BrowsePredicate(config, Some(caller));
            var shown := GateShows(GrantsOf(config), caller, Action.Browse, DEFAULT_NAMESPACE, ecosystem, row.name);
            if answer.Ok?
            then Selects(Narrowed(answer.value, filter), page, row,
                         shown && (filter.Some? ==> filter.value == ecosystem))
            else answer.error == Forbidden && !shown
  {
    ListingSelectsGatedRows(config, caller, Action.Browse, DEFAULT_NAMESPACE, page, row, ecosystem);
    if BrowsePredicate(config, Some(caller)).Ok? {
      var p := BrowsePredicate(config, Some(caller)).value;
      NarrowedMeans(p, filter, ecosystem, row.name);
      QuerySelects(Narrowed(p, filter), page, row, ecosystem);
    }
  }
}
