/** The access-control vocabulary: grants, patterns, and the predicate a listing is filtered by. */
module Authz {
  import opened Wrappers
  import opened Packages

  type Namespace = string

  datatype Action = Browse | Read | Edit | Add | Delete | Admin {
    predicate IsContent() { !Admin? }
  }

  const CONTENT_ACTIONS := [Browse, Read, Edit, Add, Delete]

  datatype PrincipalScope = System | Within(namespace: Namespace) {
    predicate Covers(other: Namespace) { System? || namespace == other }
  }

  datatype Principal =
    | User(id: string, scope: PrincipalScope)
    | Service(id: string, scope: PrincipalScope)

  datatype EcosystemPattern = AnyEcosystem | ExactEcosystem(ecosystem: Ecosystem) {
    predicate Matches(candidate: Ecosystem) { AnyEcosystem? || ecosystem == candidate }
  }

  datatype NamePattern = AnyName | ExactName(name: string) | PrefixName(prefix: string) {
    predicate Matches(candidate: string) {
      match this
      case AnyName => true
      case ExactName(name) => candidate == name
      case PrefixName(prefix) => prefix <= candidate
    }
  }

  datatype RepositoryPattern = RepositoryPattern(ecosystem: EcosystemPattern, name: NamePattern) {
    predicate Matches(candidate: Ecosystem, candidateName: string) {
      ecosystem.Matches(candidate) && name.Matches(candidateName)
    }
  }

  const ANY_REPOSITORY := RepositoryPattern(AnyEcosystem, AnyName)

  /** Content-plane grant. */
  datatype RepositoryView = RepositoryView(namespace: Namespace, repository: RepositoryPattern, actions: seq<Action>) {
    predicate Allows(ns: Namespace, action: Action, ecosystem: Ecosystem, name: string) {
      namespace == ns && repository.Matches(ecosystem, name) && action in actions
    }
  }

  /** Config-plane grant. */
  datatype RepositoryAdmin = RepositoryAdmin(namespace: Namespace, repository: RepositoryPattern) {
    predicate Allows(ns: Namespace, ecosystem: Ecosystem, name: string) {
      namespace == ns && repository.Matches(ecosystem, name)
    }
  }

  /** One action over one repository pattern; an `Admin` scope grants every action. */
  datatype ApiTokenScope = ApiTokenScope(action: Action, repository: RepositoryPattern) {
    predicate Allows(requested: Action, ecosystem: Ecosystem, name: string) {
      (action == Admin || action == requested) && repository.Matches(ecosystem, name)
    }
  }

  datatype Coordinate = Coordinate(ecosystem: Ecosystem, name: string, version: Option<string>)

  /** What a predicate is evaluated against. */
  datatype ContentContext = ContentContext(ecosystem: Ecosystem, path: string, coordinate: Option<Coordinate>)

  datatype QueryPredicate =
    | Always
    | Never
    | InEcosystem(ecosystem: Ecosystem)
    | PathPrefix(prefix: string)
    | PathEquals(path: string)
    | CoordinateName(pattern: NamePattern)
    | All(children: seq<QueryPredicate>)
    | Any(children: seq<QueryPredicate>)
    | Not(child: QueryPredicate)

  /** The reference semantics of a predicate, used in memory to gate one asset. */
  predicate Evaluate(p: QueryPredicate, context: ContentContext) {
    match p
    case Always => true
    case Never => false
    case InEcosystem(ecosystem) => context.ecosystem == ecosystem
    case PathPrefix(prefix) => prefix <= context.path
    case PathEquals(path) => context.path == path
    case CoordinateName(pattern) => context.coordinate.Some? && pattern.Matches(context.coordinate.value.name)
    case All(children) => forall i | 0 <= i < |children| :: Evaluate(children[i], context)
    case Any(children) => exists i | 0 <= i < |children| :: Evaluate(children[i], context)
    case Not(child) => !Evaluate(child, context)
  }

  /** What a request is about; it names a repository when both fields are present. */
  datatype Resource = Resource(
    namespace: Namespace,
    ecosystem: Option<Ecosystem>,
    repository: Option<string>,
    coordinate: Option<Coordinate>
  ) {
    predicate IsConcrete() { ecosystem.Some? && repository.Some? }
  }

  function NamespaceResource(namespace: Namespace): Resource {
    Resource(namespace, None, None, None)
  }

  function RepositoryResource(namespace: Namespace, ecosystem: Ecosystem, name: string): Resource {
    Resource(namespace, Some(ecosystem), Some(name), None)
  }

  datatype Decision = Decision(allow: bool, predicate_: Option<QueryPredicate>)

  const DENY := Decision(false, None)
  const ALLOW := Decision(true, None)

  function AllowWhere(p: QueryPredicate): Decision {
    Decision(true, Some(p))
  }
}
