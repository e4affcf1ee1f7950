/** The local authorizer: flat token configuration migrated into grants, bearer authentication, and
  * the gate and listing decisions taken from the grants. */
module LocalAuthorizer {
  import opened Wrappers
  import opened Text
  import opened Bytes
  import opened Bits
  import opened Sequences
  import opened Packages
  import opened Authz

  type Secret = seq<Byte>

  const DEFAULT_NAMESPACE: Namespace := "default"

  // ---------------------------------------------------------------------------
  // Configuration
  // ---------------------------------------------------------------------------

  datatype TokenScope = ReadScope | PublishScope | YankScope | AdminScope

  datatype PublishToken = PublishToken(
    token: Secret,
    scopes: seq<TokenScope>,
    ecosystems: seq<Ecosystem>,
    packages: seq<string>
  )

  datatype TokenSection = TokenSection(enabled: bool, tokens: seq<Secret>) {
    predicate Active() { enabled && tokens != [] }
  }

  datatype PublishingSection = PublishingSection(enabled: bool, tokens: seq<PublishToken>)

  datatype Config = Config(auth: TokenSection, admin: TokenSection, publishing: PublishingSection)

  // ---------------------------------------------------------------------------
  // Migrated state
  // ---------------------------------------------------------------------------

  datatype Grants = Grants(views: seq<RepositoryView>, admins: seq<RepositoryAdmin>, tokenScopes: seq<ApiTokenScope>)

  const NO_GRANTS := Grants([], [], [])

  datatype TokenEntry = TokenEntry(token: Secret, principal: Principal)

  const ADMIN_ID := "legacy-admin"
  const BEARER_ID := "legacy-bearer"
  const PUBLISH_PREFIX := "publish-token:"

  const ADMIN := User(ADMIN_ID, System)
  const BEARER := User(BEARER_ID, System)

  function PublishId(index: nat): string {
    PUBLISH_PREFIX + Decimal(index)
  }

  function Publisher(index: nat): Principal {
    Service(PublishId(index), System)
  }

  const ADMIN_GRANTS := Grants(
    [RepositoryView(DEFAULT_NAMESPACE, ANY_REPOSITORY, CONTENT_ACTIONS)],
    [RepositoryAdmin(DEFAULT_NAMESPACE, ANY_REPOSITORY)],
    [])

  const BEARER_GRANTS := Grants([RepositoryView(DEFAULT_NAMESPACE, ANY_REPOSITORY, [Browse, Read])], [], [])

  /** The grants already held under `id`, as a map entry defaulting to none. */
  function EntryOf(grants: map<string, Grants>, id: string): Grants {
    if id in grants then grants[id] else NO_GRANTS
  }

  function Merge(a: Grants, b: Grants): Grants {
    Grants(a.views + b.views, a.admins + b.admins, a.tokenScopes + b.tokenScopes)
  }

  function Entries(tokens: seq<Secret>, principal: Principal): (r: seq<TokenEntry>)
    ensures |r| == |tokens|
    ensures forall i | 0 <= i < |tokens| :: r[i] == TokenEntry(tokens[i], principal)
  {
    seq(|tokens|, i requires 0 <= i < |tokens| => TokenEntry(tokens[i], principal))
  }

  /** The entries of the first `count` publish tokens, each for its own principal. */
  function PublishEntries(tokens: seq<PublishToken>, count: nat): (r: seq<TokenEntry>)
    requires count <= |tokens|
    ensures |r| == count
  {
    if count == 0 then []
    else PublishEntries(tokens, count - 1) + [TokenEntry(tokens[count - 1].token, Publisher(count - 1))]
  }

  lemma {:induction false} PublishEntryAt(tokens: seq<PublishToken>, count: nat, i: nat)
    requires i < count <= |tokens|
    ensures PublishEntries(tokens, count)[i] == TokenEntry(tokens[i].token, Publisher(i))
  {
    if i < count - 1 {
      PublishEntryAt(tokens, count - 1, i);
    }
  }

  function AdminEntries(config: Config): seq<TokenEntry> {
    if config.admin.Active() then Entries(config.admin.tokens, ADMIN) else []
  }

  function PublisherEntries(config: Config): seq<TokenEntry> {
    if config.publishing.enabled then PublishEntries(config.publishing.tokens, |config.publishing.tokens|) else []
  }

  function BearerEntries(config: Config): seq<TokenEntry> {
    if config.auth.Active() then Entries(config.auth.tokens, BEARER) else []
  }

  /** All bearer tokens in authentication order: admin, then publishing, then flat. */
  function TokensOf(config: Config): seq<TokenEntry> {
    AdminEntries(config) + PublisherEntries(config) + BearerEntries(config)
  }

  /** An active section adds its grants to the ones already held under its id. */
  function WithSection(active: bool, id: string, own: Grants, grants: map<string, Grants>): map<string, Grants> {
    if active then grants[id := Merge(EntryOf(grants, id), own)] else grants
  }

  function WithAdmin(config: Config, grants: map<string, Grants>): map<string, Grants> {
    WithSection(config.admin.Active(), ADMIN_ID, ADMIN_GRANTS, grants)
  }

  function PublisherGrants(token: PublishToken): Grants {
    Grants([], [], ScopesOf(token))
  }

  function PublishersGrants(tokens: seq<PublishToken>): (r: seq<Grants>)
    ensures |r| == |tokens|
    ensures forall i | 0 <= i < |tokens| :: r[i] == PublisherGrants(tokens[i])
  {
    seq(|tokens|, i requires 0 <= i < |tokens| => PublisherGrants(tokens[i]))
  }

  function WithPublisher(grants: map<string, Grants>, own: Grants, index: nat): map<string, Grants> {
    grants[PublishId(index) := Merge(EntryOf(grants, PublishId(index)), own)]
  }

  /** The first `count` publishers registered, each holding its own grants. */
  function WithPublishers(own: seq<Grants>, count: nat, grants: map<string, Grants>): map<string, Grants>
    requires count <= |own|
  {
    if count == 0 then grants
    else WithPublisher(WithPublishers(own, count - 1, grants), own[count - 1], count - 1)
  }

  /** The two tables a registration step changes. */
  datatype State = State(tokens: seq<TokenEntry>, grants: map<string, Grants>)

  function RegisteredOne(token: PublishToken, index: nat, before: State): State {
    State(before.tokens + [TokenEntry(token.token, Publisher(index))],
          WithPublisher(before.grants, PublisherGrants(token), index))
  }

  function Registered(tokens: seq<PublishToken>, count: nat, before: State): State
    requires count <= |tokens|
  {
    if count == 0 then before else RegisteredOne(tokens[count - 1], count - 1, Registered(tokens, count - 1, before))
  }

  lemma {:induction false} RegisteredParts(tokens: seq<PublishToken>, own: seq<Grants>, count: nat, before: State)
    requires count <= |tokens| == |own|
    requires forall i | 0 <= i < |own| :: own[i] == PublisherGrants(tokens[i])
    ensures Registered(tokens, count, before).tokens == before.tokens + PublishEntries(tokens, count)
    ensures Registered(tokens, count, before).grants == WithPublishers(own, count, before.grants)
  {
    if count > 0 {
      RegisteredParts(tokens, own, count - 1, before);
    }
  }

  function WithBearer(config: Config, grants: map<string, Grants>): map<string, Grants> {
    WithSection(config.auth.Active(), BEARER_ID, BEARER_GRANTS, grants)
  }

  function WithPublishing(config: Config, grants: map<string, Grants>): map<string, Grants> {
    if config.publishing.enabled
    then WithPublishers(PublishersGrants(config.publishing.tokens), |config.publishing.tokens|, grants)
    else grants
  }

  function GrantsOf(config: Config): map<string, Grants> {
    WithBearer(config, WithPublishing(config, WithAdmin(config, map[])))
  }

  // ---------------------------------------------------------------------------
  // Publish token scopes
  // ---------------------------------------------------------------------------

  function MapTokenScope(scope: TokenScope): Action {
    match scope
    case ReadScope => Read
    case PublishScope => Add
    case YankScope => Edit
    case AdminScope => Admin
  }

  function EcosystemPatterns(ecosystems: seq<Ecosystem>): seq<EcosystemPattern> {
    if ecosystems == [] then [AnyEcosystem]
    else seq(|ecosystems|, i requires 0 <= i < |ecosystems| => ExactEcosystem(ecosystems[i]))
  }

  function NamePatterns(packages: seq<string>): seq<NamePattern> {
    if packages == [] then [AnyName]
    else seq(|packages|, i requires 0 <= i < |packages| => ExactName(packages[i]))
  }

  function NameScopes(action: Action, ecosystem: EcosystemPattern, names: seq<NamePattern>): (r: seq<ApiTokenScope>)
    ensures |r| == |names|
  {
    seq(|names|, i requires 0 <= i < |names| => ApiTokenScope(action, RepositoryPattern(ecosystem, names[i])))
  }

  function EcosystemBlocks(action: Action, ecosystems: seq<EcosystemPattern>, names: seq<NamePattern>)
    : (r: seq<seq<ApiTokenScope>>)
    ensures |r| == |ecosystems|
  {
    seq(|ecosystems|, i requires 0 <= i < |ecosystems| => NameScopes(action, ecosystems[i], names))
  }

  function ActionBlocks(scopes: seq<TokenScope>, ecosystems: seq<EcosystemPattern>, names: seq<NamePattern>)
    : (r: seq<seq<ApiTokenScope>>)
    ensures |r| == |scopes|
  {
    seq(|scopes|, i requires 0 <= i < |scopes| => Flatten(EcosystemBlocks(MapTokenScope(scopes[i]), ecosystems, names)))
  }

  function ScopesOf(token: PublishToken): seq<ApiTokenScope> {
    Flatten(ActionBlocks(token.scopes, EcosystemPatterns(token.ecosystems), NamePatterns(token.packages)))
  }

  /** The cross product of a token's scopes, ecosystems and packages. */
  method PublishTokenScopes(token: PublishToken) returns (scopes: seq<ApiTokenScope>)
    ensures scopes == ScopesOf(token)
  {
    var ecosystems := EcosystemPatterns(token.ecosystems);
    var names := NamePatterns(token.packages);
    ghost var actionBlocks := ActionBlocks(token.scopes, ecosystems, names);
    scopes := [];
    for s := 0 to |token.scopes|
      invariant scopes == Flatten(actionBlocks[..s])
    {
      scopes := PushEcosystems(scopes, MapTokenScope(token.scopes[s]), ecosystems, names);
      FlattenStep(actionBlocks, s);
    }
    assert actionBlocks[..|token.scopes|] == actionBlocks;
  }

  /** The two inner loops, for one action. */
  method PushEcosystems(before: seq<ApiTokenScope>, action: Action, ecosystems: seq<EcosystemPattern>,
                        names: seq<NamePattern>)
    returns (scopes: seq<ApiTokenScope>)
    ensures scopes == before + Flatten(EcosystemBlocks(action, ecosystems, names))
  {
    ghost var blocks := EcosystemBlocks(action, ecosystems, names);
    scopes := before;
    for e := 0 to |ecosystems|
      invariant scopes == before + Flatten(blocks[..e])
    {
      ghost var before', block := scopes, NameScopes(action, ecosystems[e], names);
      for n := 0 to |names|
        invariant scopes == before' + block[..n]
      {
        scopes := scopes + [ApiTokenScope(action, RepositoryPattern(ecosystems[e], names[n]))];
        assert block[..n + 1] == block[..n] + [block[n]];
      }
      assert block[..|names|] == block;
      FlattenStep(blocks, e);
    }
    assert blocks[..|ecosystems|] == blocks;
  }

  // ---------------------------------------------------------------------------
  // The authorizer
  // ---------------------------------------------------------------------------

  class LocalAuthorizer {
    var tokens: seq<TokenEntry>
    var grants: map<string, Grants>

    constructor FromConfig(config: Config)
      ensures tokens == TokensOf(config)
      ensures grants == GrantsOf(config)
    {
      tokens := [];
      grants := map[];
      new;
      RegisterAdminTokens(config);
      RegisterPublishTokens(config);
      RegisterFlatTokens(config);
      assert [] + AdminEntries(config) == AdminEntries(config);
    }

    method RegisterAdminTokens(config: Config)
      modifies this
      ensures tokens == old(tokens) + AdminEntries(config)
      ensures grants == WithAdmin(config, old(grants))
    {
      if !config.admin.enabled || config.admin.tokens == [] {
        return;
      }
      grants := grants[ADMIN_ID := Merge(EntryOf(grants, ADMIN_ID), ADMIN_GRANTS)];
      for i := 0 to |config.admin.tokens|
        invariant grants == WithAdmin(config, old(grants))
        invariant tokens == old(tokens) + Entries(config.admin.tokens, ADMIN)[..i]
      {
        tokens := tokens + [TokenEntry(config.admin.tokens[i], ADMIN)];
      }
    }

    method RegisterPublishTokens(config: Config)
      modifies this
      ensures tokens == old(tokens) + PublisherEntries(config)
      ensures grants == WithPublishing(config, old(grants))
    {
      if !config.publishing.enabled {
        return;
      }
      RegisterEach(config.publishing.tokens);
    }

    method RegisterEach(configured: seq<PublishToken>)
      modifies this
      ensures tokens == old(tokens) + PublishEntries(configured, |configured|)
      ensures grants == WithPublishers(PublishersGrants(configured), |configured|, old(grants))
    {
      for index := 0 to |configured|
        invariant State(tokens, grants) == Registered(configured, index, State(old(tokens), old(grants)))
      {
        RegisterPublishToken(configured[index], index);
      }
      RegisteredParts(configured, PublishersGrants(configured), |configured|, State(old(tokens), old(grants)));
    }

    method RegisterPublishToken(configured: PublishToken, index: nat)
      modifies this
      ensures State(tokens, grants) == RegisteredOne(configured, index, State(old(tokens), old(grants)))
    {
      var id := PublishId(index);
      var scopes := PublishTokenScopes(configured);
      grants := grants[id := Merge(EntryOf(grants, id), Grants([], [], scopes))];
      tokens := tokens + [TokenEntry(configured.token, Service(id, System))];
    }

    method RegisterFlatTokens(config: Config)
      modifies this
      ensures tokens == old(tokens) + BearerEntries(config)
      ensures grants == WithBearer(config, old(grants))
    {
      if !config.auth.enabled || config.auth.tokens == [] {
        return;
      }
      grants := grants[BEARER_ID := Merge(EntryOf(grants, BEARER_ID), BEARER_GRANTS)];
      for i := 0 to |config.auth.tokens|
        invariant grants == WithBearer(config, old(grants))
        invariant tokens == old(tokens) + Entries(config.auth.tokens, BEARER)[..i]
      {
        tokens := tokens + [TokenEntry(config.auth.tokens[i], BEARER)];
      }
    }

    /** The principal of the first entry whose token equals `token`. */
    method Authenticate(token: Secret) returns (principal: Option<Principal>)
      ensures principal == FirstMatch(tokens, token)
      ensures tokens == old(tokens) && grants == old(grants)
    {
      for i := 0 to |tokens|
        invariant FirstMatch(tokens, token) == FirstMatch(tokens[i..], token)
      {
        var equal := ConstantTimeEq(tokens[i].token, token);
        if equal {
          return Some(tokens[i].principal);
        }
      }
      principal := None;
    }

    method AuthorizeSync(principal: Principal, action: Action, resource: Resource) returns (decision: Decision)
      ensures decision == Authorize(grants, principal, action, resource)
      ensures tokens == old(tokens) && grants == old(grants)
    {
      if principal.id !in grants {
        return DENY;
      }
      var held := grants[principal.id];
      if action == Admin {
        decision := AuthorizeAdmin(held, resource);
      } else if AdminCovers(held, resource) {
        decision := ALLOW;
      } else if resource.IsConcrete() {
        decision := GateDecision(principal, held, action, resource);
      } else {
        decision := BuildListing(principal, held, action, resource.namespace);
      }
    }
  }

  function FirstMatch(tokens: seq<TokenEntry>, token: Secret): Option<Principal> {
    if tokens == [] then None
    else if tokens[0].token == token then Some(tokens[0].principal)
    else FirstMatch(tokens[1..], token)
  }

  // ---------------------------------------------------------------------------
  // Decisions
  // ---------------------------------------------------------------------------

  predicate AdminCovers(held: Grants, resource: Resource) {
    if resource.IsConcrete()
    then exists admin | admin in held.admins ::
           admin.Allows(resource.namespace, resource.ecosystem.value, resource.repository.value)
    else exists admin | admin in held.admins :: admin.namespace == resource.namespace
  }

  function AuthorizeAdmin(held: Grants, resource: Resource): Decision {
    if AdminCovers(held, resource) then ALLOW else DENY
  }

  predicate ViewAllows(held: Grants, action: Action, resource: Resource)
    requires resource.IsConcrete()
  {
    exists view | view in held.views ::
      view.Allows(resource.namespace, action, resource.ecosystem.value, resource.repository.value)
  }

  /** Token scopes carry no namespace: they count only where the principal's own scope reaches. */
  predicate TokenScopeAllows(principal: Principal, held: Grants, action: Action, resource: Resource)
    requires resource.IsConcrete()
  {
    && principal.scope.Covers(resource.namespace)
    && exists scope | scope in held.tokenScopes ::
         scope.Allows(action, resource.ecosystem.value, resource.repository.value)
  }

  function GateDecision(principal: Principal, held: Grants, action: Action, resource: Resource): Decision
    requires resource.IsConcrete()
  {
    if ViewAllows(held, action, resource) || TokenScopeAllows(principal, held, action, resource) then ALLOW else DENY
  }

  function PatternToPredicate(pattern: RepositoryPattern): QueryPredicate {
    var ecosystem := if pattern.ecosystem.ExactEcosystem? then [InEcosystem(pattern.ecosystem.ecosystem)] else [];
    var name := if pattern.name.AnyName? then [] else [CoordinateName(pattern.name)];
    var clauses := ecosystem + name;
    if clauses == [] then Always
    else if |clauses| == 1 then clauses[0]
    else All(clauses)
  }

  predicate ViewConfers(view: RepositoryView, action: Action, namespace: Namespace) {
    view.namespace == namespace && if action == Browse then view.actions != [] else action in view.actions
  }

  predicate ScopeConfers(scope: ApiTokenScope, action: Action) {
    action == Browse || scope.action == Admin || scope.action == action
  }

  /** The predicates of the conferring views, then of the conferring token scopes. */
  function ViewPredicates(views: seq<RepositoryView>, action: Action, namespace: Namespace): seq<QueryPredicate> {
    if views == [] then []
    else ViewPredicates(views[..|views| - 1], action, namespace)
         + (var view := views[|views| - 1];
            if ViewConfers(view, action, namespace) then [PatternToPredicate(view.repository)] else [])
  }

  function ScopePredicates(scopes: seq<ApiTokenScope>, action: Action): seq<QueryPredicate> {
    if scopes == [] then []
    else ScopePredicates(scopes[..|scopes| - 1], action)
         + (var scope := scopes[|scopes| - 1];
            if ScopeConfers(scope, action) then [PatternToPredicate(scope.repository)] else [])
  }

  function ListedPredicates(principal: Principal, held: Grants, action: Action,
                            namespace: Namespace): seq<QueryPredicate> {
    ViewPredicates(held.views, action, namespace)
    + if principal.scope.Covers(namespace) then ScopePredicates(held.tokenScopes, action) else []
  }

  function Restrictions(ps: seq<QueryPredicate>): seq<QueryPredicate> {
    if ps == [] then []
    else Restrictions(ps[..|ps| - 1]) + if ps[|ps| - 1] == Always then [] else [ps[|ps| - 1]]
  }

  /** The union of the listed predicates: one `Always` lifts every restriction, none at all denies. */
  function ListingDecision(ps: seq<QueryPredicate>): Decision {
    var clauses := Restrictions(ps);
    if Always in ps then AllowWhere(Always)
    else if clauses == [] then DENY
    else if |clauses| == 1 then AllowWhere(clauses[0])
    else AllowWhere(Any(clauses))
  }

  lemma ViewStep(views: seq<RepositoryView>, i: nat, action: Action, namespace: Namespace)
    requires i < |views|
    ensures ViewPredicates(views[..i + 1], action, namespace) == ViewPredicates(views[..i], action, namespace)
              + if ViewConfers(views[i], action, namespace) then [PatternToPredicate(views[i].repository)] else []
  {
    assert views[..i + 1][..i] == views[..i];
  }

  lemma ScopeStep(scopes: seq<ApiTokenScope>, i: nat, action: Action)
    requires i < |scopes|
    ensures ScopePredicates(scopes[..i + 1], action) == ScopePredicates(scopes[..i], action)
              + if ScopeConfers(scopes[i], action) then [PatternToPredicate(scopes[i].repository)] else []
  {
    assert scopes[..i + 1][..i] == scopes[..i];
  }

  /** One more listed pattern: an unrestricted one is noted, any other becomes a clause. */
  method PushPattern(clauses: seq<QueryPredicate>, unrestricted: bool, pattern: RepositoryPattern,
                     ghost listed: seq<QueryPredicate>)
    returns (clauses': seq<QueryPredicate>, unrestricted': bool)
    requires clauses == Restrictions(listed) && unrestricted == (Always in listed)
    ensures var listed' := listed + [PatternToPredicate(pattern)];
            clauses' == Restrictions(listed') && unrestricted' == (Always in listed')
  {
    clauses', unrestricted' := clauses, unrestricted;
    var p := PatternToPredicate(pattern);
    assert (listed + [p])[..|listed|] == listed;
    if p == Always {
      unrestricted' := true;
    } else {
      clauses' := clauses + [p];
    }
  }

  method ListViews(held: Grants, action: Action, namespace: Namespace)
    returns (clauses: seq<QueryPredicate>, unrestricted: bool)
    ensures var listed := ViewPredicates(held.views, action, namespace);
            clauses == Restrictions(listed) && unrestricted == (Always in listed)
  {
    clauses, unrestricted := [], false;
    ghost var listed: seq<QueryPredicate> := [];
    for i := 0 to |held.views|
      invariant listed == ViewPredicates(held.views[..i], action, namespace)
      invariant clauses == Restrictions(listed) && unrestricted == (Always in listed)
    {
      ViewStep(held.views, i, action, namespace);
      if ViewConfers(held.views[i], action, namespace) {
        clauses, unrestricted := PushPattern(clauses, unrestricted, held.views[i].repository, listed);
        listed := listed + [PatternToPredicate(held.views[i].repository)];
      }
    }
    assert held.views[..|held.views|] == held.views;
  }

  lemma Appended(front: seq<QueryPredicate>, back: seq<QueryPredicate>, p: QueryPredicate)
    ensures front + (back + [p]) == (front + back) + [p]
  {
  }

  method ListScopes(held: Grants, action: Action, clauses: seq<QueryPredicate>, unrestricted: bool,
                    ghost fromViews: seq<QueryPredicate>)
    returns (clauses': seq<QueryPredicate>, unrestricted': bool)
    requires clauses == Restrictions(fromViews) && unrestricted == (Always in fromViews)
    ensures var listed := fromViews + ScopePredicates(held.tokenScopes, action);
            clauses' == Restrictions(listed) && unrestricted' == (Always in listed)
  {
    clauses', unrestricted' := clauses, unrestricted;
    var scopes := held.tokenScopes;
    ghost var own: seq<QueryPredicate> := [];
    ghost var listed := fromViews;
    for i := 0 to |scopes|
      invariant own == ScopePredicates(scopes[..i], action) && listed == fromViews + own
      invariant clauses' == Restrictions(listed) && unrestricted' == (Always in listed)
    {
      ScopeStep(scopes, i, action);
      if ScopeConfers(scopes[i], action) {
        clauses', unrestricted' := PushPattern(clauses', unrestricted', scopes[i].repository, listed);
        Appended(fromViews, own, PatternToPredicate(scopes[i].repository));
        own := own + [PatternToPredicate(scopes[i].repository)];
        listed := fromViews + own;
      }
    }
    assert scopes[..|scopes|] == scopes;
  }

  method BuildListing(principal: Principal, held: Grants, action: Action, namespace: Namespace)
    returns (decision: Decision)
    ensures decision == ListingDecision(ListedPredicates(principal, held, action, namespace))
  {
    var clauses, unrestricted := ListViews(held, action, namespace);
    if principal.scope.Covers(namespace) {
      clauses, unrestricted := ListScopes(held, action, clauses, unrestricted,
                                          ViewPredicates(held.views, action, namespace));
    } else {
      assert ListedPredicates(principal, held, action, namespace) == ViewPredicates(held.views, action, namespace);
    }
    if unrestricted {
      return AllowWhere(Always);
    }
    if clauses == [] {
      decision := DENY;
    } else if |clauses| == 1 {
      decision := AllowWhere(clauses[0]);
    } else {
      decision := AllowWhere(Any(clauses));
    }
  }

  /** The decision for one request, denied unless some migrated grant allows it. */
  function Authorize(grants: map<string, Grants>, principal: Principal, action: Action, resource: Resource): Decision {
    if principal.id !in grants then DENY
    else
      var held := grants[principal.id];
      if action == Admin || AdminCovers(held, resource) then AuthorizeAdmin(held, resource)
      else if resource.IsConcrete() then GateDecision(principal, held, action, resource)
      else ListingDecision(ListedPredicates(principal, held, action, resource.namespace))
  }
}
