# Starmetal: verified core

A Dafny model of the parts of Starmetal, a package-registry proxy with a dependency-update engine, whose
correctness rests on an argument rather than on a single function body. Seven groups of modules share one
vocabulary (`Wrappers`, `Text`, `Bytes`, `Sequences`, `Ordering`, `Packages`).

**Authorization, from token configuration to listed rows.** `Authz` holds the reference semantics of grants and
predicates. `LocalAuthorizer` migrates a flat configuration into tokens and grants and answers requests;
`Authorization` states who a token is, what a principal holds and that listing and gate agree. `PredicateCompiler`
compiles a predicate to SQL text with numbered placeholders; `Sql` is a lexer, a precedence parser and an
evaluator for that SQL; `PredicateText`, `PredicateMeaning` and `Like` show that the text, read back as text,
means the predicate; `Browse` wraps it into the listing statement, `Pushdown` composes everything for a row, and
`Paging` does for a client that goes through all pages.

**Dependency updates.** `Semver`, `SemverText` and `RequirementText` define versions, requirements, their order
(section 11 of Semantic Versioning 2.0.0, then build metadata) and their texts as the `semver` crate reads them.
`Versioning`, `Widening` and `WideningPrereleases` are the constraint rewriting. `UpdateEngine` and `Convergence` are the target choice
over any lawful scheme; `SemverScheme` shows the semver scheme lawful and gives the exact condition under which
a second run proposes nothing. `EditBatch` applies a run's updates to their manifests.

**Manifest editing.** `ManifestText` scans a line, `CargoManifest` tracks sections and replaces one value,
`CargoHeaders`, `CargoEdits`, `CargoDecoy` and `CargoRefusals` state what that does, and where it fails.

**Content lifecycle.** `ContentModel` is the row store, byte store and reference table as values, with calls cut
off after any number of awaits; `ContentStore` and `Gc` are the store object and the sweep; `GcRuns` is a state
machine interleaving publishes, reference changes and sweeps, call by call, and `ContentRaces` is one that
interleaves their awaits.

**Retention.** `Retention` and `RetentionLaws`.

**Identifiers.** `PercentCoding`, `StorageKeys`, `Purl`, `PackageNames`.

**Groups.** `KeyedMerge` and `GroupMerge`.

Where the source works by changing things (parameter buffers, the token vector and grant map, the store, the
component table, scanning loops) the model has methods with loops or classes, each proved against a
specification function; the properties are proved about that function.

## Findings

Properties the source's documentation or design suggests that hold only under a condition. Each condition is
part of a statement below.

- Path terms compile to `FALSE`, so a compiled condition fails closed only while none of them stands under an odd
  number of `Not`s (`PredicateMeaning.PositivePathsFailClosed`); for one path term under negations that is exact
  (`PredicateMeaning.NegationsFailClosedExactly`). The authorizer itself never emits one.
- Listing and gate agree on a repository if and only if the caller's admin grants in the namespace reach it
  (`Authorization.ListingShowsExactlyWhatGateAllows`). Migration makes only grants that do; one that does not is
  `Authorization.PartialAdminGrantListsTooMuch`.
- An update converges, unless the strategy moves the bound and the datasource lists its greatest eligible release a
  second time as yanked (`SemverScheme.ConvergenceIsExact`).
- `crates/starmetal-versioning/src/semver.rs:153` means to leave wildcards alone but looks for `*` only: `1.x` is
  rewritten to a caret constraint (`Versioning.WildcardIsRewritten`; `Versioning.OperatorIsKept` says exactly when).
- `widen` promises to keep every allowed version (`crates/starmetal-versioning/src/semver.rs:174-175`). It does if and
  only if the constraint does not reach past the next major and allows no pre-releases that the bound does not keep
  (`WideningPrereleases.WideningKeepsAllExactly`); a strict `>` can break the first
  (`Widening.StrictBoundExample`), a `<` on a pre-release the second (`WideningPrereleases.PrereleaseIsLost`).
- The same comment promises that the widened constraint admits its target. A rollback's never does, nor does one
  towards the largest major or most pre-releases (`SemverScheme.UpdateAdmitsExactly`, `SemverScheme.WideningRollback`).
  That an update under `Widen` converges, above, means then only that the second run proposes nothing.
- Editing a manifest twice is not always the same as editing it once: the last writer wins if and only if the
  first value is whole and its line rereads (`CargoEdits.LastWriterWins`). A valid manifest on which all edits
  succeed and the earlier writer stands is `CargoDecoy.EarlierWriterStands`.
- A legal header followed by a comment, `[dependencies] # note`, hides its table from updates: a header's line
  selects its table if and only if nothing but blanks follows the header (`CargoHeaders.HeaderLineSelectsExactly`,
  `CargoHeaders.CommentedHeader`).
- `crates/starmetal-managers/src/cargo.rs:406-407` says keys are found bare or quoted. No quoted key is: its characters
  stand inside a literal, so the update of `"serde" = "1"`, which extraction lists, fails
  (`CargoRefusals.QuotedDependencyIsNotFound`).
- The key search steps on by one byte, and panics if and only if it comes, before any key, to an occurrence that
  starts with a multi-byte character or is empty at such a one or at the end of the line
  (`ManifestText.SearchPanicsExactly`). That takes an empty name or one that starts with such a character; both
  panic on the valid line `"é" = "1"` (`CargoRefusals.AccentedUpdatePanics`).
- A client that pages through a listing by more than 1000 rows at a time misses some if it may see more than 1000: the
  page is cut to 1000 without a word. Otherwise it is shown every row once (`Paging.PagesShowExactlyGatedRows`).
- A publish stopped between its two writes leaves a row without bytes, and publishing again reports success
  without writing them (`ContentModel.PublishStoresBytes`, `GcRuns.StrandedStays`). A compaction that comes to a
  blob and is cut, or refused by a reference, between its two deletions leaves such rows as well, and nothing else
  does (`GcRuns.StrandingCalls`).
- A referenced blob can lose its bytes while its row and reference stay. It keeps them as long as it stays
  referenced if and only if its row is not soft-deleted and no sweep under way has it left among its candidates
  (`GcRuns.ReferencedIsSafeExactly`). So `crates/starmetal-core/src/content.rs:244-245`, by which a new reference rescues a
  marked blob, does not hold: a sweep goes by its list and soft-deletes the blob all the same
  (`GcRuns.StaleCandidateIsLost`). Nor does publishing again lift a soft delete (`GcRuns.RepublishedBlobIsLost`).
- Await by await it must also stand in no compaction's list (`ContentRaces.SafeUnderRacesExactly`): restoring a blob,
  which `crates/starmetal-core/src/content.rs:255-256` says cancels its reclaim, comes too late once a compaction has
  listed it (`ContentRaces.RescuedTooLate`).
- `crates/starmetal-metadata/src/store.rs:241-242` deletes bytes before rows so as not to orphan bytes. A publish that
  puts its bytes after a compaction deleted its row orphans them all the same (`ContentRaces.LatePutOrphans`), and no
  sweep ever finds them (`ContentRaces.OrphanStays`). Reads never see mismatched bytes
  (`ContentRaces.RacesNeverCorrupt`).
- With a zero grace window one sweep reclaims a blob only if the clock has moved on between soft delete and
  compaction, because the comparison is strict (`Gc.SweepReclaims`, `Gc.ZeroGraceNeedsTime`).
- `crates/starmetal-core/src/content.rs:374` says a regex rule retains matches; the code deletes them, and the model
  follows the code.
- The PyPI normal form differs from PEP 503 for names ending in a separator (`PackageNames.NormalFormAgainstPep503`).
- An empty inner group hides the errors of members that all fail (`GroupMerge.NestedGroupsAreFlat`).

## Assumptions

The SQL statements mean what their text says under the schema (`crates/starmetal-metadata/sql/queries/content.sql`,
`crates/starmetal-metadata/sql/schema.sql`); a query without an order may answer in any order. `LIKE ... ESCAPE` and
operator precedence are PostgreSQL's. The `semver` crate is not part of the repository: versions, requirements and
their matching are modelled from its grammar and from Cargo's version requirement rules. BLAKE3 is an arbitrary
function. In `GcRuns` one store call runs at a time, in `ContentRaces` one query or storage operation; a call may stop
after any of its awaits, and an error at an await counts as such a stop. Collations are arbitrary total orders.
Regular expressions, the TOML check after an edit and the datasource are parameters.

## Model

| member | source | states |
|---|---|---|
| Like.EscapePrefix | crates/starmetal-metadata/src/predicate_sql.rs:77-86 | The escaping loop computes `Escaped`: a backslash before each `\`, `%` and `_`, everything else kept. |
| Like.EscapedPrefixMatchesExactlyPrefixes | crates/starmetal-metadata/src/predicate_sql.rs:49-52 | For all strings, a name matches the escaped prefix followed by `%` under `ESCAPE '\'` exactly when the prefix is a prefix of it. |
| PredicateCompiler.Placeholder | crates/starmetal-metadata/src/predicate_sql.rs:31-34 | Appends one value and answers the placeholder numbered by the new length. |
| PredicateCompiler.CompileInto | crates/starmetal-metadata/src/predicate_sql.rs:36-65 | Answers the text of the predicate for the values bound so far and appends exactly the predicate's values, left to right. |
| PredicateCompiler.Combine | crates/starmetal-metadata/src/predicate_sql.rs:67-73 | The same for a list of children joined by an operator, each numbered after its elder siblings. |
| PredicateCompiler.Compile | crates/starmetal-metadata/src/predicate_sql.rs:25-29 | Text and values of the predicate compiled from an empty buffer. |
| Sql.LexRendered | crates/starmetal-metadata/src/predicate_sql.rs:36-73 | Lexing undoes spelling for every well-spaced token list, so tokens can be recovered from the text. |
| PredicateMeaning.ParsesTo | crates/starmetal-metadata/src/predicate_sql.rs:36-73 | A compiled condition parses as one primary expression whatever follows it: no operator outside can capture part of it. |
| PredicateMeaning.TextReadsBack | crates/starmetal-metadata/src/predicate_sql.rs:25-73 | The compiled text, lexed and parsed as a whole with NOT over AND over OR, is the predicate's own expression, with nothing left over. |
| PredicateMeaning.CompiledTextMeansPredicate | crates/starmetal-metadata/src/predicate_sql.rs:25-73 | For every predicate and row, running the compiled text with its values answers the reference evaluation of the predicate with path leaves made false. |
| PredicateMeaning.PathFreePredicateIsPushedDownExactly | crates/starmetal-core/src/authz.rs:505-519 | For path-free predicates the database and the in-memory gate agree on every row. |
| PredicateMeaning.ErasingPathsIsMonotone | crates/starmetal-metadata/src/predicate_sql.rs:53-57 | Erasing path leaves can only turn a predicate false where they stand positively, and true where negatively. |
| PredicateMeaning.PositivePathsFailClosed | crates/starmetal-metadata/src/predicate_sql.rs:53-57 | Without path leaves under an odd number of `Not`s, a selected row is allowed under every asset path. |
| PredicateMeaning.NegatedPathFailsOpen | crates/starmetal-metadata/src/predicate_sql.rs:57-63 | Under `Not` a path leaf opens up: rows are selected that no asset path allows. |
| PredicateMeaning.NegationsFailClosedExactly | crates/starmetal-metadata/src/predicate_sql.rs:53-63 | For one path leaf under negations the polarity condition is exact: rows are selected exactly under an odd number, and then just where the path does not match. |
| PredicateMeaning.PlaceholdersAreConsecutive | crates/starmetal-metadata/src/predicate_sql.rs:11-22 | The placeholders of a condition are the consecutive numbers after those bound before it, each once, in order. |
| Browse.BrowseComponents | crates/starmetal-metadata/src/browse.rs:20-38 | The method builds the statement text and pushes the condition's values, then limit and offset. |
| Browse.QueryPlaceholdersNeverCollide | crates/starmetal-metadata/src/browse.rs:24-38 | In the whole statement every placeholder occurs once, numbered from 1 without gaps, one for each bound value. |
| Browse.BrowsePlans | crates/starmetal-metadata/src/browse.rs:27-31 | The statement is accepted and pages by exactly the requested limit and offset. |
| Browse.BrowseSelectsMatchingRows | crates/starmetal-metadata/src/browse.rs:20-44 | It selects exactly the rows on which the predicate, paths made false, evaluates to true. |
| Bits.ConstantTimeEq | crates/starmetal-authz/src/lib.rs:84-93 | The XOR/OR loop over lengths and bytes answers byte equality. |
| LocalAuthorizer.LocalAuthorizer.FromConfig | crates/starmetal-authz/src/lib.rs:184-193 | The migrated tokens and grants are the specified ones for the configuration. |
| LocalAuthorizer.LocalAuthorizer.RegisterAdminTokens | crates/starmetal-authz/src/lib.rs:296-324 | An enabled, non-empty admin section adds its tokens and its two any-repository grants, otherwise nothing changes. |
| LocalAuthorizer.LocalAuthorizer.RegisterPublishTokens | crates/starmetal-authz/src/lib.rs:326-346 | Each publish token gets its own numbered principal with its own expanded scopes. |
| LocalAuthorizer.LocalAuthorizer.RegisterFlatTokens | crates/starmetal-authz/src/lib.rs:348-372 | An enabled, non-empty flat section adds its tokens and one browse-and-read grant. |
| LocalAuthorizer.LocalAuthorizer.Authenticate | crates/starmetal-authz/src/lib.rs:219-224 | The principal of the first token entry equal to the presented token. |
| LocalAuthorizer.LocalAuthorizer.AuthorizeSync | crates/starmetal-authz/src/lib.rs:280-290 | The decision of the grant evaluation, denied for a principal without grants. |
| LocalAuthorizer.PublishTokenScopes | crates/starmetal-authz/src/lib.rs:376-396 | The three nested loops compute the cross product in order. |
| LocalAuthorizer.BuildListing | crates/starmetal-authz/src/lib.rs:491-537 | The two loops and the final branch compute the listing decision of the union of conferring grants. |
| Authorization.AuthenticationPrecedence | crates/starmetal-authz/src/lib.rs:199-224 | Authentication answers the admin section if it holds the token, else the least publish index, else the flat section, else nobody. |
| Authorization.PrincipalsHoldExactlyTheirGrants | crates/starmetal-authz/src/lib.rs:296-372 | Every principal id holds exactly the grants of its own section: printed publish ids never collide, so none gains another's. |
| Authorization.ExpansionIsProduct | crates/starmetal-authz/src/lib.rs:376-396 | A scope is in the expansion exactly if its action, ecosystem pattern and name pattern each come from the token's lists. |
| Authorization.ExpandedScopesAllowExactlyFlatConfig | crates/starmetal-authz/src/lib.rs:376-424 | Expanded scopes allow an action on a repository exactly when the flat token configuration does, empty lists as wildcards. |
| Authorization.PublisherIsAllowedAsConfigured | crates/starmetal-authz/src/lib.rs:462-482 | End to end, a publisher is allowed a content action on a repository exactly as its flat token says. |
| Authorization.AdminBelongsToAdminSection | crates/starmetal-authz/src/lib.rs:454-460 | Over every configuration `Admin` is allowed only to the admin section's principal, in the default namespace. |
| Authorization.ListingShowsUnion | crates/starmetal-authz/src/lib.rs:527-536 | A listing decision shows exactly the union of the listed predicates, for none, one or many clauses. |
| Authorization.ListingShowsExactlyWhatGateAllows | crates/starmetal-authz/src/lib.rs:444-556 | For grants whose views hold content actions, listing and gate agree on a repository (for `Browse`, on some content action) if and only if an admin grant in the namespace implies one covering the repository or another conferring grant. |
| Authorization.MigratedListingShowsExactlyWhatGateAllows | crates/starmetal-authz/src/lib.rs:184-193 | Over every configuration, principal, namespace, action and repository, listing and gate agree. |
| Authorization.PartialAdminGrantListsTooMuch | crates/starmetal-authz/src/lib.rs:444-452 | With a partial admin grant the listing shows repositories the gate denies. |
| Pushdown.ListingIsPathFree | crates/starmetal-authz/src/lib.rs:491-556 | No listing decision carries a path term. |
| Pushdown.QuerySelects | crates/starmetal-metadata/src/browse.rs:20-44 | The statement for a path-free predicate selects a row exactly when the predicate holds of its repository. |
| Pushdown.ListingSelectsGatedRows | crates/starmetal-authz/src/lib.rs:280-290 | Over every configuration, caller, action and namespace, the statement for an allowing decision selects a row exactly when the gate shows its repository, and a refused caller could see none. |
| Pushdown.ListingReturnsExactlyGatedRows | crates/starmetal-server/src/browse.rs:43-127 | From configuration to rows: the listing returns exactly the rows some content action is allowed on, and a refused caller could see none. |
| Paging.PagesTile | crates/starmetal-metadata/src/browse.rs:27-31 | Over every table with unique sort keys, every order of them and every predicate, the answers to page after page list the selected rows, each once and in order, or, for pages of more than the maximum over more rows than that, miss one. |
| Paging.ConstraintGivesUniqueKeys | crates/starmetal-metadata/sql/schema.sql:46 | The columns the statement sorts by are those the uniqueness constraint covers, so no order is left open. |
| Paging.PagesShowExactlyGatedRows | crates/starmetal-core/src/content.rs:274-287 | From configuration to all pages: enough pages show exactly the rows the gate allows, each once and in order, if and only if the requested size is at most the maximum or all rows fit one page. |
| Semver.CompareChains | crates/starmetal-versioning/src/semver.rs:82-86 | Version order is transitive, ties included. |
| Semver.CompareFlips | crates/starmetal-versioning/src/semver.rs:82-86 | Swapping the versions flips the order. |
| Semver.EqualMeansSame | crates/starmetal-versioning/src/semver.rs:82-86 | Two versions compare equal only if they are the same, build metadata included. |
| Semver.GreatestLowerBoundIsMax | crates/starmetal-versioning/src/semver.rs:19-35 | The bound is that of some inclusive comparator, none is above it, and there is none exactly if no comparator is inclusive. |
| Semver.ComparatorsAreConvex | crates/starmetal-versioning/src/semver.rs:171-182 | Among stable versions a comparator other than `>` allows everything between its bound and an allowed version. |
| SemverText.VersionTextIsCanonical | crates/starmetal-versioning/src/semver.rs:74-76 | Exactly the printed forms of valid versions parse, each to its version. |
| RequirementText.PairReads | crates/starmetal-versioning/src/semver.rs:177-181 | Two operators on printed versions, comma-separated, parse to exactly those two comparators. |
| RequirementText.SingleRequirementReads | crates/starmetal-versioning/src/semver.rs:163-167 | An operator on a printed version parses to exactly that comparator. |
| Versioning.StableMatchesAreAboveMinVersion | crates/starmetal-versioning/src/semver.rs:97-105 | No stable version below `min_version` satisfies the constraint. |
| Versioning.SingleBoundIsAllowed | crates/starmetal-versioning/src/semver.rs:97-105 | A single inclusive comparator allows its own `min_version`. |
| Versioning.MajorMeansCaretBreaks | crates/starmetal-versioning/src/semver.rs:42-56 | A newer candidate is classified major exactly when the caret on the current version does not admit it, or both lie in one 0.0.z core. |
| Versioning.DiffFollowsOrder | crates/starmetal-versioning/src/semver.rs:107-115 | There is no difference exactly between equal texts and a rollback exactly towards a lower version. |
| Versioning.MovedConstraintAimsAtTarget | crates/starmetal-versioning/src/semver.rs:123-125 | An operator moved onto a target gives a constraint whose `min_version` is the target less build metadata and which the target satisfies, 0.x and pre-releases included. |
| Versioning.SplitByFirst | crates/starmetal-versioning/src/semver.rs:59-67 | The operator split off is the first character after the white space if it is `^`, `~` or `=`, and none otherwise. |
| Versioning.OperatorIsKept | crates/starmetal-versioning/src/semver.rs:152-168 | A rewritten single comparator keeps its operator, except that an `x` wildcard becomes a caret. |
| Versioning.WildcardIsRewritten | crates/starmetal-versioning/src/semver.rs:152-168 | `1.x` is a wildcard, and bumping it to 2.0.0 writes the bare version, a caret constraint. |
| Versioning.RewriteAdmitsTarget | crates/starmetal-versioning/src/semver.rs:117-168 | The target satisfies every rewrite that is not a widening, whatever the constraint was, and is its lower bound less build metadata. |
| Widening.WidenedParses | crates/starmetal-versioning/src/semver.rs:177-181 | The widened text parses to `>=` the bound and `<` the next major. |
| Widening.WidenedMatches | crates/starmetal-versioning/src/semver.rs:171-181 | Exactly which versions a widened constraint admits, pre-releases included. |
| Widening.WideningAdmitsTarget | crates/starmetal-versioning/src/semver.rs:171-181 | The target is admitted exactly when it is at or above the bound, its major is not the largest 64-bit one, and it is stable or a pre-release of the bound's own core. |
| Widening.WideningKeepsStableVersions | crates/starmetal-versioning/src/semver.rs:173-176 | If a stable target at or above the bound fails a comparator other than `>`, every stable version allowed before is still allowed. |
| Widening.WideningKeepsUnlessStrict | crates/starmetal-versioning/src/semver.rs:134-151 | Widening a constraint without `>` towards an unsatisfied stable target admits the target and keeps every stable version. |
| Widening.WideningIsExact | crates/starmetal-versioning/src/semver.rs:173-176 | The stable half: widening keeps every stable 64-bit version a constraint allows if and only if the constraint does not allow the first stable version from the next major on, which is computed from its comparators with carry. |
| WideningPrereleases.PrereleaseSurvivesExactly | crates/starmetal-versioning/src/semver.rs:173-176 | An allowed pre-release is still allowed exactly if it has the bound's own core, the bound being a pre-release, and that core is not past the next major. |
| WideningPrereleases.WideningKeepsAllExactly | crates/starmetal-versioning/src/semver.rs:173-176 | Widening keeps every version a constraint allows, pre-releases included, if and only if the constraint does not allow the first stable version from the next major on and, for no comparator that opts in to a core the bound does not keep, the first pre-release of that core past all comparators. |
| WideningPrereleases.PrereleaseIsLost | crates/starmetal-versioning/src/semver.rs:173-176 | `>=1.0.0, <2.0.0-rc.1` widened towards 3.0.0 loses 2.0.0-beta. |
| Widening.WideningLosesOpenRanges | crates/starmetal-versioning/src/semver.rs:173-176 | A constraint of `>` and `>=` only loses its highest releases whenever it is widened. |
| Widening.StrictBoundExample | crates/starmetal-versioning/src/semver.rs:173-176 | `>1.2.3, >=1.0.0` is such a constraint, unsatisfied by 1.1.0 above its bound. |
| UpdateEngine.Greatest | crates/starmetal-updater/src/engine.rs:341-353 | The loop answers the specified greatest version. |
| UpdateEngine.GreatestDominates | crates/starmetal-updater/src/engine.rs:341-353 | Among valid versions it is one of them and none is above it. |
| UpdateEngine.TargetIsRight | crates/starmetal-updater/src/engine.rs:107-137 | A chosen target is eligible and either the greatest eligible release and above the current version, or the greatest below a yanked current version that nothing eligible exceeds. |
| UpdateEngine.UpdatesAreSound | crates/starmetal-updater/src/engine.rs:83-161 | A proposed update goes to such a target, changes the constraint, and is labelled a rollback exactly when it goes down. |
| Convergence.TargetIsGreatest | crates/starmetal-updater/src/engine.rs:107-137 | Unless the greatest eligible release is withdrawn, every target, a rollback's too, is that release. |
| Convergence.UpdateSettles | crates/starmetal-updater/src/engine.rs:83-161 | For any lawful scheme a second run proposes nothing, unless the greatest release is withdrawn and the rewrite moved the bound. |
| Convergence.WithdrawnNeverSettles | crates/starmetal-updater/src/engine.rs:122-137 | A constraint that moves up to a withdrawn greatest release is moved away again by the next run. |
| SemverScheme.RewriteIsStable | crates/starmetal-versioning/src/semver.rs:117-182 | Rewriting towards the same target twice changes nothing more; widening keeps the bound, any other rewrite moves it to the target or just below. |
| SemverScheme.SemverIsLawful | crates/starmetal-versioning/src/semver.rs:69-182 | Over all texts the semver scheme is a total order on valid versions without ties between distinct texts, and rewrites stably. |
| SemverScheme.ConvergenceIsExact | crates/starmetal-updater/src/engine.rs:83-161 | For every constraint one update leaves nothing more to propose, under every strategy, upgrade and rollback, if and only if the strategy is Widen or the greatest eligible release is not also listed as yanked above another eligible one. |
| SemverScheme.UpdateAdmitsExactly | crates/starmetal-versioning/src/semver.rs:174-176 | The constraint of a proposed update admits the proposed version if and only if it is not a widening, or is no rollback, below the largest major, and towards a stable version or a pre-release of the bound's own core. |
| SemverScheme.WideningRollback | crates/starmetal-updater/src/engine.rs:122-137 | Pinned to a withdrawn version, the widening strategy proposes a rollback whose constraint excludes the version it goes back to. |
| EditBatch.BuildEdits | crates/starmetal-updater/src/engine.rs:314-338 | The loop applies the updates in order, each to the text the earlier ones left, stops at the first failure, and answers one edit for each manifest, sorted by path. |
| EditBatch.EditsAreUnique | crates/starmetal-updater/src/engine.rs:333-337 | The sorted edits are determined by the edited texts, not by the order of the map they come from. |
| EditBatch.FilesAreIndependent | crates/starmetal-updater/src/engine.rs:314-338 | A batch succeeds exactly when every update is placed and every manifest takes its own updates, and then each manifest is as its own updates alone leave it. |
| ManifestText.IsInsideStringLiteral | crates/starmetal-managers/src/cargo.rs:391-404 | The two-flag loop answers whether the text before an offset leaves a literal open. |
| ManifestText.FindKeyEquals | crates/starmetal-managers/src/cargo.rs:409-433 | The search loop panics exactly as specified, and otherwise answers the `=` of the first position at which the field stands as a key. |
| ManifestText.SearchPanicsExactly | crates/starmetal-managers/src/cargo.rs:411-430 | The search panics if and only if some occurrence of the field, at the line's end or at a multi-byte character, comes before any that is a key. |
| ManifestText.KeyEqualsFindsKey | crates/starmetal-managers/src/cargo.rs:415-428 | What it finds is the whole word as a key, outside literals, with white space only before its `=`. |
| ManifestText.KeyEqualsIsLocal | crates/starmetal-managers/src/cargo.rs:409-433 | The search depends on nothing after the `=` it finds. |
| ManifestText.FindClosingQuote | crates/starmetal-managers/src/cargo.rs:464-482 | The escape-flag loop answers the first quote preceded by an even run of backslashes, or the first quote of a literal string. |
| ManifestText.ValueSpanAfterSplice | crates/starmetal-managers/src/cargo.rs:437-455 | A value written in place is found again where it was written if and only if it holds no closing quote and ends in no open escape. |
| CargoManifest.ApplyUpdate | crates/starmetal-managers/src/cargo.rs:111-157 | The line loop with its section state rewrites exactly the first fitting line, or fails or panics as specified. |
| CargoHeaders.HeaderSelects | crates/starmetal-managers/src/cargo.rs:304-380 | A header with a bare section name, for a quoted or bare target, the workspace or neither, with or without a sub-table, its key bare or quoted, with or without blanks next to the brackets and before the sub-table's key, selects that kind of table and that name. |
| CargoHeaders.HeaderLineSelectsExactly | crates/starmetal-managers/src/cargo.rs:122-127 | A line with such a header and any text after it selects the header's table if and only if that text is blank. |
| CargoHeaders.CommentedHeader | crates/starmetal-managers/src/cargo.rs:309-311 | `[dependencies] # note` selects nothing. |
| CargoHeaders.WorkspaceDevIsIgnored | crates/starmetal-managers/src/cargo.rs:39-42 | A workspace dev table selects nothing. |
| CargoEdits.SplitThenJoin | crates/starmetal-managers/src/cargo.rs:115-154 | Splitting into lines and joining gives the content back, no line holding a line break. |
| CargoEdits.UpdateIsOneSplice | crates/starmetal-managers/src/cargo.rs:111-157 | A successful update is one splice between the same two texts, delimited by one quote character, of an old value without line breaks that its quote closes first. |
| CargoEdits.EditIsInSection | crates/starmetal-managers/src/cargo.rs:117-138 | The edited line stands in a table of the dependency's kind, or its own sub-table, by the nearest header, and no earlier such line carries the value. |
| CargoEdits.EditedValueIsKeyed | crates/starmetal-managers/src/cargo.rs:496-540 | The replaced value follows the `=` of the dependency's key or a version key, as a whole word outside literals. |
| CargoEdits.LineSpanAgain | crates/starmetal-managers/src/cargo.rs:506-540 | On a rewritten line the next update finds exactly the value just written if and only if that value is whole and no hidden `key.version` reading comes to light. |
| CargoEdits.SafeValueCloses | crates/starmetal-managers/src/cargo.rs:251-264 | A validated value is whole exactly if, in a basic string, it ends in an even run of backslashes. |
| CargoEdits.LastWriterWins | crates/starmetal-managers/src/cargo.rs:111-157 | After a successful update every later one, to any value and under any verifier, gives what it gives on the original content, success or failure, if and only if the value just written is whole and its line rereads. |
| CargoDecoy.EarlierWriterStands | crates/starmetal-managers/src/cargo.rs:506-540 | A valid manifest on which updating to 1 and then to 3 succeeds and differs from updating to 3. |
| CargoRefusals.QuotedDependencyIsNotFound | crates/starmetal-managers/src/cargo.rs:406-416 | On a valid manifest with one dependency, under a quoted key, every update of it fails as not found. |
| CargoRefusals.AccentedUpdatePanics | crates/starmetal-managers/src/cargo.rs:411-430 | On a valid manifest whose first dependency is named by one accented letter, the update of that dependency, or of one named by nothing, panics. |
| ContentModel.PublishKeepsConsistent | crates/starmetal-metadata/src/store.rs:79-107 | A publish, wherever it stops, keeps every byte object under a row and hashing to its key. |
| ContentModel.PublishStoresBytes | crates/starmetal-metadata/src/store.rs:99-106 | A publish that succeeds answers the first publish's record, and the blob reads back exactly if its bytes were there before or its row was not. |
| ContentModel.StoppedPublishStrands | crates/starmetal-metadata/src/store.rs:89-102 | Among publishes, a row without bytes arises exactly from one of a new blob stopped between its two writes. |
| ContentModel.CompactionProgress | crates/starmetal-metadata/src/store.rs:230-248 | Wherever compaction stops, a first part of the list is gone from both stores and at most the next blob's bytes, and no reclaimed blob was referenced. |
| ContentModel.StrippedOnlyAt | crates/starmetal-metadata/src/store.rs:240-244 | Bytes go without their row exactly at the place where a compaction stops: everything listed before is unreferenced, and there the awaits run out between the deletions, or a reference refuses the second. |
| ContentModel.CompactionSparesUnexpired | crates/starmetal-metadata/sql/queries/content.sql:115-127 | A blob that is not expired keeps its row and bytes through every compaction. |
| ContentModel.CompactionStripsReferenced | crates/starmetal-metadata/sql/schema.sql:65-69 | An expired blob that is referenced loses its bytes and keeps its row, and the compaction stops there. |
| ContentModel.ReferencedSurvivesExactly | crates/starmetal-metadata/src/store.rs:230-248 | The bytes of a referenced blob survive every listing order and every cut of a compaction if and only if the blob is not expired. |
| ContentModel.RepublishKeepsExpiry | crates/starmetal-metadata/sql/queries/content.sql:8-11 | Publishing and referencing a soft-deleted blob leaves its expiry in force. |
| ContentStore.PostgresContentStore.GetOrInsertBlob | crates/starmetal-metadata/src/store.rs:79-107 | The new state and the outcome, the stored record on success, for any number of finished awaits, are those of the specified publish. |
| ContentStore.PostgresContentStore.ReadBlob | crates/starmetal-metadata/src/store.rs:115-126 | Nothing without a row or without bytes, otherwise the bytes if they hash to the digest. |
| ContentStore.PostgresContentStore.AddReferenceTo | crates/starmetal-metadata/src/store.rs:171-178 | Adds the pair to the reference table if the digest has a row, and otherwise changes nothing and says so. |
| ContentStore.PostgresContentStore.RemoveReferenceFrom | crates/starmetal-metadata/src/store.rs:180-187 | Removes exactly that pair. |
| ContentStore.PostgresContentStore.UndeleteBlob | crates/starmetal-metadata/src/store.rs:222-228 | Clears the row's mark and expiry and nothing else. |
| ContentStore.PostgresContentStore.SoftDeleteBlob | crates/starmetal-metadata/src/store.rs:211-220 | Stamps the row with the caller's time plus the grace window. |
| ContentStore.PostgresContentStore.Compact | crates/starmetal-metadata/src/store.rs:230-248 | The loop deletes bytes before rows and reports what it reclaimed, as specified, for any number of finished awaits. |
| Gc.RunGcSweep | crates/starmetal-metadata/src/gc.rs:57-76 | The sweep over the store is a specified sweep of the old state for some order of its two listings. |
| Gc.SweepReclaims | crates/starmetal-metadata/src/gc.rs:3-18 | An uninterrupted sweep reclaims exactly the blobs expired before it and the candidates whose own stamp passed before compaction read the clock. |
| Gc.ZeroGraceNeedsTime | crates/starmetal-metadata/src/gc.rs:16-18 | With no grace and a clock that stands still, no sweep reclaims any of its candidates. |
| Gc.SweptAtOneInstant | crates/starmetal-metadata/src/gc.rs:16-18 | A store of one blob on which such a sweep leaves the bytes where they are. |
| GcRuns.RunsKeepConsistent | crates/starmetal-metadata/src/store.rs:115-126 | In every state of every run every byte object has a row and hashes to its key, so a read yields nothing or matching bytes. |
| GcRuns.ReclaimedInTurn | crates/starmetal-metadata/src/gc.rs:57-76 | Over every interleaved run a reclaimed blob was listed unreferenced by some sweep, last soft-deleted by that sweep more than the grace window earlier, soft-deleted ever since, and is unreferenced. |
| GcRuns.BytesLeaveInTurn | crates/starmetal-metadata/src/store.rs:240-244 | Over every interleaved run, bytes that leave the byte store, with their row or not, leave in a compaction more than the grace window after the last soft delete, by a sweep that had listed the blob unreferenced. |
| GcRuns.ReferencedIsSafeExactly | crates/starmetal-core/src/content.rs:241-256 | In every reachable state a referenced blob keeps its bytes in every future in which it stays referenced if and only if its row is not soft-deleted and no sweep under way has it left among its candidates. |
| GcRuns.StaleCandidateIsLost | crates/starmetal-metadata/src/gc.rs:58-67 | A run at whose end a blob published once and referenced before any soft delete has no bytes. |
| GcRuns.StrandingCalls | crates/starmetal-metadata/src/store.rs:240-244 | A row comes to be without bytes exactly through a publish stopped between its writes, or a compaction whose stopping place in its list is that blob. |
| GcRuns.StrandedStays | crates/starmetal-metadata/src/store.rs:99-106 | A row without bytes stays so under every call until a compaction removes the row. |
| GcRuns.RepublishedBlobIsLost | crates/starmetal-metadata/src/store.rs:99-106 | A run at whose end a blob, published again with success and referenced within its grace window, has no bytes. |
| ContentRaces.RacesNeverCorrupt | crates/starmetal-metadata/src/store.rs:115-126 | However the awaits of any number of publishes, sweeps and compactions interleave, a read yields nothing or matching bytes, and a referenced blob has a row. |
| ContentRaces.SafeUnderRacesExactly | crates/starmetal-core/src/content.rs:241-262 | In every reachable state a referenced blob keeps its bytes in every future in which it stays referenced if and only if its row is not soft-deleted and no sweep has it left among its candidates, nor any compaction in its list. |
| ContentRaces.RescuedTooLate | crates/starmetal-core/src/content.rs:255-256 | A run at whose end a blob restored and referenced after a compaction listed it has an active row and no bytes. |
| ContentRaces.OrphaningSteps | crates/starmetal-metadata/src/store.rs:240-244 | Bytes lose their row exactly through a put after the row is gone, or a row deletion after a put that followed the deletion of the bytes. |
| ContentRaces.OrphanEnds | crates/starmetal-metadata/src/store.rs:98-102 | Bytes without a row stay so until the blob is published again or a compaction that had listed it deletes them. |
| ContentRaces.OrphanStays | crates/starmetal-metadata/src/gc.rs:57-76 | Unless a call under way had listed the blob, no steps remove bytes without a row while the blob is not published. |
| ContentRaces.LatePutOrphans | crates/starmetal-metadata/src/store.rs:98-102 | A run that ends with bytes and no row: a publish puts its bytes after a sweep and a compaction took its row. |
| Retention.ComponentTable.ApplyRetention | crates/starmetal-metadata/src/retention.rs:67-107 | Evaluates all rules before deleting anything; a bad pattern changes nothing; otherwise exactly the selected rows go, or a first part of them if the deletions stop. |
| RetentionLaws.RankIsPlace | crates/starmetal-metadata/src/retention.rs:114-118 | In the stable newest-first sort a version stands where the count of more recent versions puts it. |
| RetentionLaws.SelectionMeans | crates/starmetal-metadata/src/retention.rs:112-153 | Each rule selects exactly the versions its own meaning says, and fails exactly on a pattern that does not compile. |
| RetentionLaws.SurvivorsAreUnselected | crates/starmetal-metadata/src/retention.rs:5-13 | The survivors are exactly the versions no rule selects by its own clock reading. |
| RetentionLaws.MoreRulesDeleteMore | crates/starmetal-metadata/src/retention.rs:10-13 | Adding rules never spares a version. |
| RetentionLaws.RuleOrderIsIrrelevant | crates/starmetal-metadata/src/retention.rs:91-96 | Policies with the same rules in any order leave the same versions. |
| RetentionLaws.KeepLatestKeeps | crates/starmetal-metadata/src/retention.rs:114-118 | `KeepLatest k` alone leaves min(k, n) versions. |
| RetentionLaws.KeepLatestKeepsNewest | crates/starmetal-metadata/src/retention.rs:114-118 | None of them is older than a deleted one. |
| RetentionLaws.RetentionIsIdempotent | crates/starmetal-metadata/src/retention.rs:67-107 | Applying any policy again by the same clock deletes nothing. |
| PercentCoding.EncodeSegment | crates/starmetal-core/src/package.rs:352-364 | The encoding loop computes the percent-encoding for a set of kept bytes. |
| PercentCoding.DecodeSegment | crates/starmetal-core/src/package.rs:232-249 | The decoding loop computes the decoding, malformed escapes left as they are. |
| PercentCoding.EncodeLeavesKept | crates/starmetal-core/src/sbom.rs:70-82 | Text is its own encoding exactly if all its bytes are kept. |
| PercentCoding.DecodeUndoesEncode | crates/starmetal-core/src/package.rs:232-258 | Decoding undoes encoding for all bytes and every set of kept bytes without `%`. |
| StorageKeys.StorageKeyFromSegments | crates/starmetal-core/src/package.rs:182-192 | The validating loop answers the joined key or the first segment's error. |
| StorageKeys.EncodedNameIsValid | crates/starmetal-core/src/package.rs:103-111 | A storable name comes back from its encoded segment, and the segment always passes segment validation. |
| StorageKeys.KeyExistsExactly | crates/starmetal-core/src/package.rs:325-329 | A key exists exactly when name, version and file name are each valid; encoding and ecosystem never fail it. |
| StorageKeys.StorageKeysAreUnique | crates/starmetal-core/src/package.rs:325-329 | Artifacts with the same validated key are the same artifact. |
| StorageKeys.UnvalidatedKeysCollide | crates/starmetal-core/src/package.rs:308-323 | The unvalidated key is shared by distinct artifacts whenever a slash moves between name and version. |
| Purl.BuildPurl | crates/starmetal-core/src/sbom.rs:48-68 | Pushing the parts one by one builds the specified URL. |
| Purl.PurlsAreUnique | crates/starmetal-core/src/sbom.rs:43-82 | No two coordinates share a package URL, scoped npm names, slashes, `@`, empty parts and missing versions included. |
| PercentCoding.EncodedAlphabet | crates/starmetal-core/src/sbom.rs:70-82 | Encoded text holds only kept bytes, `%` and upper-case hexadecimal digits. |
| PackageNames.NormalizePypi | crates/starmetal-core/src/package.rs:261-283 | The loops compute PEP 503's form of the lower-cased name with trailing dashes dropped. |
| PackageNames.NormalFormAgainstPep503 | crates/starmetal-core/src/package.rs:260-283 | It equals PEP 503's form exactly for names that do not end in a separator. |
| PackageNames.NormalPypiIsIdempotent | crates/starmetal-core/src/package.rs:115-125 | A normal form is its own normal form. |
| GroupMerge.MergeVersionLists | crates/starmetal-service/src/facets.rs:29-41 | The loop with its seen set, then the sort, computes the merge. |
| GroupMerge.MergeMeans | crates/starmetal-service/src/facets.rs:23-28 | The merge is strictly sorted and gives each version the entry of the first member that lists it. |
| GroupMerge.MergeIsFlat | crates/starmetal-service/src/facets.rs:29-41 | Merging members merged beforehand, wherever they stand, equals merging the flat list. |
| GroupMerge.ListVersions | crates/starmetal-service/src/group.rs:67-86 | The member loop answers the union of the successes, or the last error if all fail. |
| GroupMerge.NestedGroupsAreFlat | crates/starmetal-service/src/group.rs:67-86 | A nested group lists what the flat one does if and only if it has members, or the outer group has no others, or some other member succeeds. |
| GroupMerge.Resolve | crates/starmetal-service/src/group.rs:120-131 | Members are asked in order up to the first success and no further; otherwise the last error is the answer. |
| GroupMerge.NestedResolvesFlat | crates/starmetal-service/src/group.rs:88-108 | A nested group resolves like the flat one if and only if it has members, or others follow, or an earlier one succeeds or fails the same way. |
| GroupMerge.ListPackages | crates/starmetal-service/src/group.rs:133-146 | The loops answer the merged names, or the first error. |
| GroupMerge.GroupPackagesMeans | crates/starmetal-service/src/group.rs:133-146 | The listing is strictly sorted and holds exactly the names some member has. |
| GroupMerge.ListingOrderIsIrrelevant | crates/starmetal-service/src/facets.rs:26-28 | In what order a member lists its own distinct versions does not show in the merge. |
| GroupMerge.MemberOrderShows | crates/starmetal-service/src/facets.rs:25-27 | Swapping neighbouring members changes the merge exactly if they disagree on a version no earlier member lists. |

## Left out

- Routers, command line, MCP surface, Docker setup, npm installer and schema manager: plumbing without an invariant.
- The TOML parser behind extraction and the check after an edit: a parameter of the edit (`CargoManifest.Applied`).
- The crates behind regular expressions, BLAKE3, JSON, pools, OpenDAL and git: only their results enter.
- UpdateEngine.DetermineUpdate: logging and the datasource's own paging are left out; its answer, or its error, is a parameter.
- Retention.ComponentTable.ApplyRetention: the date overflow of windows of many thousand years is not modelled.
- Gc.RunGcSweep: counts only awaits that write; a stop at a listing equals a stop before the next write.
- ContentStore.PostgresContentStore.GetOrInsertBlob: a byte write either happens or does not.
- Components and assets as rows: references are keyed by asset, and deleting components is the removal of their assets' references.
- The service's publish flow, quota ledger and caching: service.rs is not part of this model.
- Config validation, reason codes, action parsing, SPDX and CycloneDX documents: single-branch facts.
- PredicateMeaning.PositivePathsFailClosed: a sufficient condition; an exact one for arbitrary predicates would decide propositional validity.
- OIDC, JWKS and signing, and the timing of the token comparison: only its result is proved.
- Lossy UTF-8 conversion after decoding: decoding yields bytes, which for encoded names are the name's own.
