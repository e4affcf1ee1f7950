/** Who a token authenticates as, what each migrated principal may do, and that a listing shows
  * exactly what the per-repository gate allows. */
module Authorization {
  import opened Wrappers
  import opened Text
  import opened Packages
  import opened Authz
  import opened Sequences
  import opened LocalAuthorizer

  // ---------------------------------------------------------------------------
  // Authentication
  // ---------------------------------------------------------------------------

  lemma {:induction false} FirstMatchIn(entries: seq<TokenEntry>, token: Secret)
    ensures match FirstMatch(entries, token)
            case None => forall i | 0 <= i < |entries| :: entries[i].token != token
            case Some(principal) =>
              exists i | 0 <= i < |entries| :: IsFirstHolder(entries, i, token) && entries[i].principal == principal
  {
    if entries != [] && entries[0].token == token {
      assert IsFirstHolder(entries, 0, token);
    } else if entries != [] {
      FirstMatchIn(entries[1..], token);
      if FirstMatch(entries[1..], token).Some? {
        var i :| 0 <= i < |entries[1..]| && IsFirstHolder(entries[1..], i, token)
          && entries[1..][i].principal == FirstMatch(entries[1..], token).value;
        forall k | 0 <= k < i + 1
          ensures entries[k].token != token
        {
          if k > 0 {
            assert entries[k] == entries[1..][k - 1];
          }
        }
        assert IsFirstHolder(entries, i + 1, token);
      } else {
        assert forall k | 1 <= k < |entries| :: entries[k] == entries[1..][k - 1];
      }
    }
  }

  /** `i` is the first entry holding `token`. */
  predicate IsFirstHolder(entries: seq<TokenEntry>, i: int, token: Secret) {
    0 <= i < |entries| && entries[i].token == token && forall k | 0 <= k < i :: entries[k].token != token
  }

  lemma {:induction false} FirstMatchConcat(a: seq<TokenEntry>, b: seq<TokenEntry>, token: Secret)
    ensures FirstMatch(a + b, token)
         == if FirstMatch(a, token).Some? then FirstMatch(a, token) else FirstMatch(b, token)
  {
    if a == [] {
      assert a + b == b;
    } else {
      assert (a + b)[1..] == a[1..] + b;
      FirstMatchConcat(a[1..], b, token);
    }
  }

  predicate Holds(section: TokenSection, token: Secret) {
    section.enabled && token in section.tokens
  }

  /** `i` is the least publish token equal to `token`. */
  predicate IsFirstPublisher(config: Config, i: int, token: Secret) {
    && config.publishing.enabled
    && 0 <= i < |config.publishing.tokens|
    && config.publishing.tokens[i].token == token
    && forall k | 0 <= k < i :: config.publishing.tokens[k].token != token
  }

  lemma FirstMatchInSection(tokens: seq<Secret>, principal: Principal, token: Secret)
    ensures FirstMatch(Entries(tokens, principal), token) == if token in tokens then Some(principal) else None
  {
    FirstMatchIn(Entries(tokens, principal), token);
    if token in tokens {
      var i :| 0 <= i < |tokens| && tokens[i] == token;
      assert Entries(tokens, principal)[i].token == token;
    }
  }

  /** A token authenticates as the highest-precedence enabled section that holds it: admin, then the
    * least publish index, then flat bearer; a token no enabled section holds authenticates as nobody. */
  lemma AuthenticationPrecedence(config: Config, token: Secret)
    ensures var result := FirstMatch(TokensOf(config), token);
            if Holds(config.admin, token) then result == Some(ADMIN)
            else if exists i :: IsFirstPublisher(config, i, token)
            then exists i :: IsFirstPublisher(config, i, token) && result == Some(Publisher(i))
            else if Holds(config.auth, token) then result == Some(BEARER)
            else result == None
  {
    FirstMatchConcat(AdminEntries(config) + PublisherEntries(config), BearerEntries(config), token);
    FirstMatchConcat(AdminEntries(config), PublisherEntries(config), token);
    FirstMatchInSection(config.admin.tokens, ADMIN, token);
    FirstMatchInSection(config.auth.tokens, BEARER, token);
    var entries := PublisherEntries(config);
    FirstMatchIn(entries, token);
    if config.publishing.enabled {
      forall i | 0 <= i < |entries|
        ensures entries[i] == TokenEntry(config.publishing.tokens[i].token, Publisher(i))
      {
        PublishEntryAt(config.publishing.tokens, |config.publishing.tokens|, i);
      }
    }
    assert forall i | IsFirstPublisher(config, i, token) :: entries[i].token == token;
    if FirstMatch(entries, token).Some? {
      var i :| 0 <= i < |entries| && IsFirstHolder(entries, i, token)
        && entries[i].principal == FirstMatch(entries, token).value;
      assert forall k | 0 <= k < i :: entries[k].token == config.publishing.tokens[k].token;
      assert IsFirstPublisher(config, i, token);
    }
  }

  // ---------------------------------------------------------------------------
  // Principals and their grants
  // ---------------------------------------------------------------------------

  lemma PublishIdsDistinct(i: nat, j: nat)
    requires PublishId(i) == PublishId(j)
    ensures i == j
  {
    var n := |PUBLISH_PREFIX|;
    assert PublishId(i)[n..] == Decimal(i) && PublishId(j)[n..] == Decimal(j);
    DecimalInjective(i, j);
  }

  lemma PublishIdsAreNotSections(i: nat)
    ensures PublishId(i) != ADMIN_ID && PublishId(i) != BEARER_ID
  {
    assert PublishId(i)[0] == 'p';
  }

  predicate IsPublisherId(id: string, count: nat) {
    exists i: nat | i < count :: id == PublishId(i)
  }

  lemma {:induction false} OtherIdsUntouched(own: seq<Grants>, count: nat, grants: map<string, Grants>, id: string)
    requires count <= |own| && !IsPublisherId(id, count)
    ensures var after := WithPublishers(own, count, grants);
            (id in after <==> id in grants) && (id in grants ==> after[id] == grants[id])
  {
    if count > 0 {
      assert !IsPublisherId(id, count - 1);
      OtherIdsUntouched(own, count - 1, grants, id);
    }
  }

  lemma {:induction false} PublisherHoldsItsOwn(own: seq<Grants>, count: nat, grants: map<string, Grants>, i: nat)
    requires i < count <= |own| && PublishId(i) !in grants
    ensures var after := WithPublishers(own, count, grants);
            PublishId(i) in after && after[PublishId(i)] == own[i]
  {
    if i < count - 1 {
      PublisherHoldsItsOwn(own, count - 1, grants, i);
      if PublishId(i) == PublishId(count - 1) {
        PublishIdsDistinct(i, count - 1);
      }
    } else {
      if j: nat :| j < i && PublishId(i) == PublishId(j) {
        PublishIdsDistinct(i, j);
      }
      OtherIdsUntouched(own, i, grants, PublishId(i));
      assert Merge(NO_GRANTS, own[i]) == own[i];
    }
  }

  /** The grants a configuration intends for one principal id. */
  predicate Intended(config: Config, id: string, held: Grants) {
    || (id == ADMIN_ID && config.admin.Active() && held == ADMIN_GRANTS)
    || (id == BEARER_ID && config.auth.Active() && held == BEARER_GRANTS)
    || (config.publishing.enabled
        && exists i: nat | i < |config.publishing.tokens| ::
             id == PublishId(i) && held == PublisherGrants(config.publishing.tokens[i]))
  }

  lemma PublisherGrantsInConfig(config: Config, i: nat)
    requires config.publishing.enabled && i < |config.publishing.tokens|
    ensures var id := PublishId(i);
            id in GrantsOf(config) && GrantsOf(config)[id] == PublisherGrants(config.publishing.tokens[i])
  {
    PublishIdsAreNotSections(i);
    PublisherHoldsItsOwn(PublishersGrants(config.publishing.tokens), |config.publishing.tokens|,
                         WithAdmin(config, map[]), i);
  }

  lemma SectionLookup(active: bool, section: string, own: Grants, grants: map<string, Grants>, id: string)
    requires section !in grants
    ensures var after := WithSection(active, section, own, grants);
            if id == section then (id in after <==> active) && (active ==> after[id] == own)
            else (id in after <==> id in grants) && (id in grants ==> after[id] == grants[id])
  {
    assert Merge(NO_GRANTS, own) == own;
  }

  lemma SectionGrantsInConfig(config: Config, id: string)
    requires !IsPublisherId(id, |config.publishing.tokens|)
    ensures var grants := GrantsOf(config);
            if id == BEARER_ID then (id in grants <==> config.auth.Active())
              && (id in grants ==> grants[id] == BEARER_GRANTS)
            else if id == ADMIN_ID then (id in grants <==> config.admin.Active())
              && (id in grants ==> grants[id] == ADMIN_GRANTS)
            else id !in grants
  {
    var own, count := PublishersGrants(config.publishing.tokens), |config.publishing.tokens|;
    var admins := WithAdmin(config, map[]);
    SectionLookup(config.admin.Active(), ADMIN_ID, ADMIN_GRANTS, map[], id);
    BearerIsNotRegistered(config);
    OtherIdsUntouched(own, count, admins, id);
    SectionLookup(config.auth.Active(), BEARER_ID, BEARER_GRANTS, WithPublishing(config, admins), id);
  }

  lemma BearerIsNotRegistered(config: Config)
    ensures BEARER_ID !in WithPublishing(config, WithAdmin(config, map[]))
  {
    var own, count := PublishersGrants(config.publishing.tokens), |config.publishing.tokens|;
    SectionLookup(config.admin.Active(), ADMIN_ID, ADMIN_GRANTS, map[], BEARER_ID);
    forall i: nat
      ensures PublishId(i) != BEARER_ID
    {
      PublishIdsAreNotSections(i);
    }
    OtherIdsUntouched(own, count, WithAdmin(config, map[]), BEARER_ID);
  }

  /** Migration gives every principal exactly the grants of its own section: principals never share. */
  lemma PrincipalsHoldExactlyTheirGrants(config: Config, id: string, held: Grants)
    ensures id in GrantsOf(config) && GrantsOf(config)[id] == held <==> Intended(config, id, held)
  {
    var tokens := config.publishing.tokens;
    if i: nat :| i < |tokens| && id == PublishId(i) {
      PublishIdsAreNotSections(i);
      forall j: nat | j < |tokens| && id == PublishId(j)
        ensures j == i
      {
        PublishIdsDistinct(i, j);
      }
      if config.publishing.enabled {
        PublisherGrantsInConfig(config, i);
      } else {
        assert id !in GrantsOf(config);
      }
    } else {
      SectionGrantsInConfig(config, id);
    }
  }

  // ---------------------------------------------------------------------------
  // What the migrated grants allow
  // ---------------------------------------------------------------------------

  predicate ScopesAllow(scopes: seq<ApiTokenScope>, action: Action, ecosystem: Ecosystem, name: string) {
    exists scope | scope in scopes :: scope.Allows(action, ecosystem, name)
  }

  lemma {:induction false} InFlattened<T>(blocks: seq<seq<T>>, x: T)
    ensures x in Flatten(blocks) <==> exists i | 0 <= i < |blocks| :: x in blocks[i]
  {
    if blocks != [] {
      InFlattened(blocks[..|blocks| - 1], x);
      assert forall i | 0 <= i < |blocks| - 1 :: blocks[..|blocks| - 1][i] == blocks[i];
    }
  }

  predicate InProduct(
    scopes: seq<TokenScope>, ecosystems: seq<EcosystemPattern>, names: seq<NamePattern>, scope: ApiTokenScope)
  {
    && scope.repository.ecosystem in ecosystems
    && scope.repository.name in names
    && exists s | s in scopes :: MapTokenScope(s) == scope.action
  }

  lemma InEcosystemBlocks(action: Action, ecosystems: seq<EcosystemPattern>, names: seq<NamePattern>,
                          scope: ApiTokenScope)
    ensures scope in Flatten(EcosystemBlocks(action, ecosystems, names))
       <==> scope.action == action && scope.repository.ecosystem in ecosystems && scope.repository.name in names
  {
    var blocks := EcosystemBlocks(action, ecosystems, names);
    InFlattened(blocks, scope);
    assert forall i | 0 <= i < |blocks| :: blocks[i] == NameScopes(action, ecosystems[i], names);
    if scope.action == action && scope.repository.ecosystem in ecosystems && scope.repository.name in names {
      var i :| 0 <= i < |ecosystems| && ecosystems[i] == scope.repository.ecosystem;
      var k :| 0 <= k < |names| && names[k] == scope.repository.name;
      assert blocks[i][k] == scope;
    }
  }

  /** The expansion holds exactly the cross product. */
  lemma ExpansionIsProduct(token: PublishToken, scope: ApiTokenScope)
    ensures scope in ScopesOf(token)
       <==> InProduct(token.scopes, EcosystemPatterns(token.ecosystems), NamePatterns(token.packages), scope)
  {
    var ecosystems, names := EcosystemPatterns(token.ecosystems), NamePatterns(token.packages);
    var blocks := ActionBlocks(token.scopes, ecosystems, names);
    InFlattened(blocks, scope);
    forall i | 0 <= i < |blocks|
      ensures scope in blocks[i]
         <==> && scope.action == MapTokenScope(token.scopes[i])
              && scope.repository.ecosystem in ecosystems && scope.repository.name in names
    {
      InEcosystemBlocks(MapTokenScope(token.scopes[i]), ecosystems, names, scope);
    }
  }

  predicate Implies(granted: Action, action: Action) {
    granted == Admin || granted == action
  }

  /** What the flat publish-token configuration allows; an empty list is a wildcard, `admin` implies all. */
  predicate FlatTokenAllows(token: PublishToken, action: Action, ecosystem: Ecosystem, name: string) {
    && (exists scope | scope in token.scopes :: Implies(MapTokenScope(scope), action))
    && (token.ecosystems == [] || ecosystem in token.ecosystems)
    && (token.packages == [] || name in token.packages)
  }

  lemma EcosystemPatternFor(ecosystems: seq<Ecosystem>, ecosystem: Ecosystem)
    ensures (exists p | p in EcosystemPatterns(ecosystems) :: p.Matches(ecosystem))
       <==> ecosystems == [] || ecosystem in ecosystems
  {
    var patterns := EcosystemPatterns(ecosystems);
    if ecosystems == [] {
      assert patterns[0].Matches(ecosystem);
    } else if ecosystem in ecosystems {
      var i :| 0 <= i < |ecosystems| && ecosystems[i] == ecosystem;
      assert patterns[i].Matches(ecosystem);
    }
  }

  lemma NamePatternFor(packages: seq<string>, name: string)
    ensures (exists p | p in NamePatterns(packages) :: p.Matches(name)) <==> packages == [] || name in packages
  {
    var patterns := NamePatterns(packages);
    if packages == [] {
      assert patterns[0].Matches(name);
    } else if name in packages {
      var i :| 0 <= i < |packages| && packages[i] == name;
      assert patterns[i].Matches(name);
    }
  }

  /** The expanded scopes of a publish token allow exactly what its flat configuration says. */
  lemma ExpandedScopesAllowExactlyFlatConfig(token: PublishToken, action: Action, ecosystem: Ecosystem, name: string)
    ensures ScopesAllow(ScopesOf(token), action, ecosystem, name) <==> FlatTokenAllows(token, action, ecosystem, name)
  {
    EcosystemPatternFor(token.ecosystems, ecosystem);
    NamePatternFor(token.packages, name);
    if ScopesAllow(ScopesOf(token), action, ecosystem, name) {
      var scope :| scope in ScopesOf(token) && scope.Allows(action, ecosystem, name);
      ExpansionIsProduct(token, scope);
    }
    if FlatTokenAllows(token, action, ecosystem, name) {
      var s :| s in token.scopes && Implies(MapTokenScope(s), action);
      var e :| e in EcosystemPatterns(token.ecosystems) && e.Matches(ecosystem);
      var n :| n in NamePatterns(token.packages) && n.Matches(name);
      ExpansionIsProduct(token, ApiTokenScope(MapTokenScope(s), RepositoryPattern(e, n)));
    }
  }

  /** A content request on one repository by the principal of publish token `i` is allowed exactly when
    * that token's flat configuration allows it, in every namespace. */
  lemma PublisherIsAllowedAsConfigured(
    config: Config, i: nat, namespace: Namespace, action: Action, ecosystem: Ecosystem, name: string)
    requires config.publishing.enabled && i < |config.publishing.tokens| && action.IsContent()
    ensures Authorize(GrantsOf(config), Publisher(i), action, RepositoryResource(namespace, ecosystem, name)).allow
       <==> FlatTokenAllows(config.publishing.tokens[i], action, ecosystem, name)
  {
    var scopes := ScopesOf(config.publishing.tokens[i]);
    PublisherGrantsInConfig(config, i);
    ExpandedScopesAllowExactlyFlatConfig(config.publishing.tokens[i], action, ecosystem, name);
    TokenScopesDecide(GrantsOf(config), Publisher(i), scopes, namespace, action, ecosystem, name);
  }

  lemma TokenScopesDecide(
    grants: map<string, Grants>, principal: Principal, scopes: seq<ApiTokenScope>,
    namespace: Namespace, action: Action, ecosystem: Ecosystem, name: string)
    requires principal.id in grants && grants[principal.id] == Grants([], [], scopes)
    requires principal.scope == System && action.IsContent()
    ensures Authorize(grants, principal, action, RepositoryResource(namespace, ecosystem, name)).allow
       <==> ScopesAllow(scopes, action, ecosystem, name)
  {
  }

  /** Over every configuration the config plane is open only to the admin section's principal, in the
    * default namespace; an `admin` publish scope never reaches it. */
  lemma AdminBelongsToAdminSection(config: Config, principal: Principal, resource: Resource)
    ensures Authorize(GrantsOf(config), principal, Admin, resource).allow
       <==> principal.id == ADMIN_ID && config.admin.Active() && resource.namespace == DEFAULT_NAMESPACE
  {
    if principal.id in GrantsOf(config) {
      var held := GrantsOf(config)[principal.id];
      PrincipalsHoldExactlyTheirGrants(config, principal.id, held);
      if held == ADMIN_GRANTS {
        assert ADMIN_GRANTS.admins[0] in ADMIN_GRANTS.admins;
      }
    }
    PrincipalsHoldExactlyTheirGrants(config, ADMIN_ID, ADMIN_GRANTS);
  }

  // ---------------------------------------------------------------------------
  // Listing and gate agree
  // ---------------------------------------------------------------------------

  /** Whether a listing decision shows a repository. */
  predicate Lists(decision: Decision, ecosystem: Ecosystem, name: string) {
    && decision.allow
    && (decision.predicate_.Some? ==> Evaluate(decision.predicate_.value, RepositoryContext(ecosystem, name)))
  }

  function RepositoryContext(ecosystem: Ecosystem, name: string): ContentContext {
    ContentContext(ecosystem, "", Some(Coordinate(ecosystem, name, None)))
  }

  lemma PatternPredicateMeansPattern(pattern: RepositoryPattern, ecosystem: Ecosystem, name: string)
    ensures Evaluate(PatternToPredicate(pattern), RepositoryContext(ecosystem, name))
            <==> pattern.Matches(ecosystem, name)
  {
    var p := PatternToPredicate(pattern);
    if p.All? {
      assert p.children[0] == InEcosystem(pattern.ecosystem.ecosystem);
      assert p.children[1] == CoordinateName(pattern.name);
    }
  }

  predicate AnyHolds(ps: seq<QueryPredicate>, context: ContentContext) {
    exists i | 0 <= i < |ps| :: Evaluate(ps[i], context)
  }

  lemma AnyHoldsSnoc(ps: seq<QueryPredicate>, p: QueryPredicate, context: ContentContext)
    ensures AnyHolds(ps + [p], context) <==> AnyHolds(ps, context) || Evaluate(p, context)
  {
    assert (ps + [p])[|ps|] == p;
    assert forall i | 0 <= i < |ps| :: (ps + [p])[i] == ps[i];
  }

  lemma {:induction false} RestrictionsHold(ps: seq<QueryPredicate>, context: ContentContext)
    requires Always !in ps
    ensures AnyHolds(Restrictions(ps), context) <==> AnyHolds(ps, context)
  {
    if ps != [] {
      var front, last := ps[..|ps| - 1], ps[|ps| - 1];
      RestrictionsHold(front, context);
      AnyHoldsSnoc(front, last, context);
      AnyHoldsSnoc(Restrictions(front), last, context);
      assert ps == front + [last];
    }
  }

  /** The decision shows exactly the union of the listed predicates. */
  lemma ListingShowsUnion(ps: seq<QueryPredicate>, ecosystem: Ecosystem, name: string)
    ensures Lists(ListingDecision(ps), ecosystem, name) <==> AnyHolds(ps, RepositoryContext(ecosystem, name))
  {
    var context := RepositoryContext(ecosystem, name);
    if Always in ps {
      var i :| 0 <= i < |ps| && ps[i] == Always;
      assert Evaluate(ps[i], context);
    } else {
      RestrictionsHold(ps, context);
      var clauses := Restrictions(ps);
      assert |clauses| == 1 ==> (AnyHolds(clauses, context) <==> Evaluate(clauses[0], context));
    }
  }

  lemma {:induction false} ViewsListed(
    views: seq<RepositoryView>, action: Action, namespace: Namespace, ecosystem: Ecosystem, name: string)
    ensures AnyHolds(ViewPredicates(views, action, namespace), RepositoryContext(ecosystem, name))
       <==> exists view | view in views ::
         ViewConfers(view, action, namespace) && view.repository.Matches(ecosystem, name)
  {
    if views != [] {
      var front, last := views[..|views| - 1], views[|views| - 1];
      ViewsListed(front, action, namespace, ecosystem, name);
      AnyHoldsSnoc(ViewPredicates(front, action, namespace), PatternToPredicate(last.repository),
                   RepositoryContext(ecosystem, name));
      PatternPredicateMeansPattern(last.repository, ecosystem, name);
      assert views == front + [last];
      if !ViewConfers(last, action, namespace) {
        assert ViewPredicates(views, action, namespace) == ViewPredicates(front, action, namespace);
      }
    }
  }

  lemma {:induction false} ScopesListed(scopes: seq<ApiTokenScope>, action: Action, ecosystem: Ecosystem, name: string)
    ensures AnyHolds(ScopePredicates(scopes, action), RepositoryContext(ecosystem, name))
       <==> exists scope | scope in scopes :: ScopeConfers(scope, action) && scope.repository.Matches(ecosystem, name)
  {
    if scopes != [] {
      var front, last := scopes[..|scopes| - 1], scopes[|scopes| - 1];
      ScopesListed(front, action, ecosystem, name);
      AnyHoldsSnoc(ScopePredicates(front, action), PatternToPredicate(last.repository),
                   RepositoryContext(ecosystem, name));
      PatternPredicateMeansPattern(last.repository, ecosystem, name);
      assert scopes == front + [last];
      if !ScopeConfers(last, action) {
        assert ScopePredicates(scopes, action) == ScopePredicates(front, action);
      }
    }
  }

  /** Whether the gate allows an action on one repository. */
  predicate GateAllows(
    grants: map<string, Grants>, principal: Principal, action: Action, namespace: Namespace, ecosystem: Ecosystem,
    name: string)
  {
    Authorize(grants, principal, action, RepositoryResource(namespace, ecosystem, name)).allow
  }

  /** The listing counterpart of the gate: `Browse` shows whatever some content action reaches. */
  predicate GateShows(
    grants: map<string, Grants>, principal: Principal, action: Action, namespace: Namespace, ecosystem: Ecosystem,
    name: string)
  {
    if action == Browse
    then exists a: Action :: a.IsContent() && GateAllows(grants, principal, a, namespace, ecosystem, name)
    else GateAllows(grants, principal, action, namespace, ecosystem, name)
  }

  /** Views grant content actions only, as configured ones do. */
  predicate HasContentViews(held: Grants) {
    forall view, a | view in held.views && a in view.actions :: a.IsContent()
  }

  /** Some conferring grant covers the repository. */
  predicate Conferred(principal: Principal, held: Grants, action: Action, namespace: Namespace, ecosystem: Ecosystem,
                      name: string) {
    || (exists view | view in held.views ::
        ViewConfers(view, action, namespace) && view.repository.Matches(ecosystem, name))
    || (principal.scope.Covers(namespace)
        && exists scope | scope in held.tokenScopes ::
          ScopeConfers(scope, action) && scope.repository.Matches(ecosystem, name))
  }

  lemma ListingShowsConferred(
    principal: Principal, held: Grants, action: Action, namespace: Namespace, ecosystem: Ecosystem, name: string)
    ensures Lists(ListingDecision(ListedPredicates(principal, held, action, namespace)), ecosystem, name)
       <==> Conferred(principal, held, action, namespace, ecosystem, name)
  {
    var context := RepositoryContext(ecosystem, name);
    var fromViews := ViewPredicates(held.views, action, namespace);
    var fromScopes := ScopePredicates(held.tokenScopes, action);
    ListingShowsUnion(ListedPredicates(principal, held, action, namespace), ecosystem, name);
    ViewsListed(held.views, action, namespace, ecosystem, name);
    ScopesListed(held.tokenScopes, action, ecosystem, name);
    AnyHoldsConcat(fromViews, if principal.scope.Covers(namespace) then fromScopes else [], context);
  }

  lemma AnyHoldsConcat(ps: seq<QueryPredicate>, qs: seq<QueryPredicate>, context: ContentContext)
    ensures AnyHolds(ps + qs, context) <==> AnyHolds(ps, context) || AnyHolds(qs, context)
  {
    assert forall i | 0 <= i < |ps| :: (ps + qs)[i] == ps[i];
    assert forall i | 0 <= i < |qs| :: (ps + qs)[|ps| + i] == qs[i];
    assert forall i | |ps| <= i < |ps + qs| :: (ps + qs)[i] == qs[i - |ps|];
  }

  /** The gate shows a repository exactly if an admin grant covers it or some grant confers it. */
  lemma GateIsConferred(
    grants: map<string, Grants>, principal: Principal, action: Action, namespace: Namespace, ecosystem: Ecosystem,
    name: string)
    requires principal.id in grants && HasContentViews(grants[principal.id]) && action.IsContent()
    requires !AdminCovers(grants[principal.id], RepositoryResource(namespace, ecosystem, name))
    ensures GateShows(grants, principal, action, namespace, ecosystem, name)
       <==> Conferred(principal, grants[principal.id], action, namespace, ecosystem, name)
  {
    var held := grants[principal.id];
    if action == Browse && Conferred(principal, held, Browse, namespace, ecosystem, name) {
      if view :|
        && view in held.views
        && ViewConfers(view, Browse, namespace)
        && view.repository.Matches(ecosystem, name)
      {
        assert view.actions[0] in view.actions && view.actions[0].IsContent();
        assert view.Allows(namespace, view.actions[0], ecosystem, name);
        assert GateAllows(grants, principal, view.actions[0], namespace, ecosystem, name);
      } else {
        var scope :| scope in held.tokenScopes && scope.repository.Matches(ecosystem, name);
        var a := if scope.action == Admin then Read else scope.action;
        assert scope.Allows(a, ecosystem, name);
        assert GateAllows(grants, principal, a, namespace, ecosystem, name);
      }
    }
  }

  /** An admin grant in the namespace counts for a repository only if one covers it or another grant confers it. */
  predicate AdminsReach(
    principal: Principal, held: Grants, action: Action, namespace: Namespace, ecosystem: Ecosystem, name: string)
  {
    AdminCovers(held, NamespaceResource(namespace)) ==>
      || AdminCovers(held, RepositoryResource(namespace, ecosystem, name))
      || Conferred(principal, held, action, namespace, ecosystem, name)
  }

  lemma AdminOfRepositoryIsOfNamespace(held: Grants, namespace: Namespace, ecosystem: Ecosystem, name: string)
    requires AdminCovers(held, RepositoryResource(namespace, ecosystem, name))
    ensures AdminCovers(held, NamespaceResource(namespace))
  {
    var admin :| admin in held.admins && admin.Allows(namespace, ecosystem, name);
    assert admin.namespace == namespace;
  }

  /** A namespace listing agrees with the gate on a repository (the same action, or, for `Browse`, some content
    * action) if and only if the caller's admin grants in the namespace, if any, reach the repository. */
  lemma ListingShowsExactlyWhatGateAllows(
    grants: map<string, Grants>, principal: Principal, action: Action, namespace: Namespace, ecosystem: Ecosystem,
    name: string)
    requires principal.id in grants ==> HasContentViews(grants[principal.id])
    requires action.IsContent()
    ensures (Lists(Authorize(grants, principal, action, NamespaceResource(namespace)), ecosystem, name)
             <==> GateShows(grants, principal, action, namespace, ecosystem, name))
       <==> (principal.id in grants
             ==> AdminsReach(principal, grants[principal.id], action, namespace, ecosystem, name))
  {
    if principal.id in grants {
      var held := grants[principal.id];
      ListingShowsConferred(principal, held, action, namespace, ecosystem, name);
      if AdminCovers(held, RepositoryResource(namespace, ecosystem, name)) {
        AdminOfRepositoryIsOfNamespace(held, namespace, ecosystem, name);
        assert GateAllows(grants, principal, Read, namespace, ecosystem, name);
      } else {
        GateIsConferred(grants, principal, action, namespace, ecosystem, name);
      }
    }
  }

  lemma MigratedAdminsReach(config: Config, id: string, namespace: Namespace, ecosystem: Ecosystem, name: string)
    requires id in GrantsOf(config)
    ensures HasContentViews(GrantsOf(config)[id])
    ensures AdminCovers(GrantsOf(config)[id], NamespaceResource(namespace))
       <==> AdminCovers(GrantsOf(config)[id], RepositoryResource(namespace, ecosystem, name))
  {
    var held := GrantsOf(config)[id];
    PrincipalsHoldExactlyTheirGrants(config, id, held);
    if AdminCovers(held, NamespaceResource(namespace)) {
      var admin :| admin in held.admins && admin.namespace == namespace;
      assert admin.Allows(namespace, ecosystem, name);
    }
    if AdminCovers(held, RepositoryResource(namespace, ecosystem, name)) {
      AdminOfRepositoryIsOfNamespace(held, namespace, ecosystem, name);
    }
  }

  /** Over every configuration, principal, namespace and action, listing and gate agree. */
  lemma MigratedListingShowsExactlyWhatGateAllows(
    config: Config, principal: Principal, action: Action, namespace: Namespace, ecosystem: Ecosystem, name: string)
    ensures Lists(Authorize(GrantsOf(config), principal, action, NamespaceResource(namespace)), ecosystem, name)
       <==> GateShows(GrantsOf(config), principal, action, namespace, ecosystem, name)
  {
    if principal.id in GrantsOf(config) {
      MigratedAdminsReach(config, principal.id, namespace, ecosystem, name);
    }
    if action.IsContent() {
      ListingShowsExactlyWhatGateAllows(GrantsOf(config), principal, action, namespace, ecosystem, name);
    }
  }

  /** An admin grant over part of a namespace, which migration never makes, would list what the gate denies. */
  lemma PartialAdminGrantListsTooMuch()
    ensures var npm := RepositoryPattern(ExactEcosystem(Npm), AnyName);
            var grants := map["robot" := Grants([], [RepositoryAdmin(DEFAULT_NAMESPACE, npm)], [])];
            var robot := Service("robot", System);
            && Lists(Authorize(grants, robot, Read, NamespaceResource(DEFAULT_NAMESPACE)), PyPI, "x")
            && !GateAllows(grants, robot, Read, DEFAULT_NAMESPACE, PyPI, "x")
  {
    var npm := RepositoryPattern(ExactEcosystem(Npm), AnyName);
    var held := Grants([], [RepositoryAdmin(DEFAULT_NAMESPACE, npm)], []);
    assert held.admins[0].namespace == DEFAULT_NAMESPACE;
  }
}
