/** Page after page of a listing: what a client that keeps asking for the next one is shown. */
module Paging {
  import opened Wrappers
  import opened Sequences
  import opened Packages
  import opened Authz
  import opened LocalAuthorizer
  import opened Authorization
  import opened PredicateCompiler
  import opened Browse
  import opened Pushdown
  import Sql

  /** The largest page a caller may request. */
  const MAX_LIMIT := 1000

  /** The page served for a requested limit and offset. */
  function Clamped(limit: nat, offset: nat): BrowsePage {
    BrowsePage(if limit < 1 then 1 else if limit > MAX_LIMIT then MAX_LIMIT else limit, offset)
  }

  // ---------------------------------------------------------------------------
  // Windows of a sequence
  // ---------------------------------------------------------------------------

  function Least(a: nat, b: nat): nat {
    if a < b then a else b
  }

  /** At most `limit` elements after the first `offset`. */
  function Window<T>(rows: seq<T>, limit: nat, offset: nat): seq<T> {
    rows[Least(offset, |rows|)..Least(offset + limit, |rows|)]
  }

  /** The first `n` windows of a client that moves on by `step`. */
  function Windows<T>(rows: seq<T>, limit: nat, step: nat, n: nat): seq<seq<T>> {
    if n == 0 then [] else Windows(rows, limit, step, n - 1) + [Window(rows, limit, (n - 1) * step)]
  }

  predicate IsOnce<T(==)>(rows: seq<T>) {
    forall i, j | 0 <= i < j < |rows| :: rows[i] != rows[j]
  }

  lemma NextWindow<T>(rows: seq<T>, limit: nat, step: nat, offset: nat)
    requires limit == step || (|rows| <= limit && |rows| <= step && (offset == 0 || |rows| <= offset))
    ensures rows[..Least(offset, |rows|)] + Window(rows, limit, offset) == rows[..Least(offset + step, |rows|)]
  {
  }

  lemma {:induction false} WindowsTile<T>(rows: seq<T>, limit: nat, step: nat, n: nat)
    requires limit == step || (|rows| <= limit && |rows| <= step)
    ensures Flatten(Windows(rows, limit, step, n)) == rows[..Least(n * step, |rows|)]
  {
    if n > 0 {
      WindowsTile(rows, limit, step, n - 1);
      OneMore(rows, limit, step, n);
      Multiples(step, n);
      NextWindow(rows, limit, step, (n - 1) * step);
    }
  }

  lemma OneMore<T>(rows: seq<T>, limit: nat, step: nat, n: nat)
    requires n > 0
    ensures Flatten(Windows(rows, limit, step, n))
         == Flatten(Windows(rows, limit, step, n - 1)) + Window(rows, limit, (n - 1) * step)
  {
    var before := Windows(rows, limit, step, n - 1);
    assert Windows(rows, limit, step, n)[..|before|] == before;
  }

  lemma Multiples(step: nat, n: nat)
    requires n > 0
    ensures (n - 1) * step + step == n * step
    ensures if n == 1 then (n - 1) * step == 0 else (n - 1) * step >= step
  {
  }

  /** Windows shorter than the step pass over what lies between them. */
  lemma {:induction false} WindowsSkip<T>(rows: seq<T>, limit: nat, step: nat, n: nat)
    requires limit < step && limit < |rows| && IsOnce(rows)
    ensures rows[limit] !in Flatten(Windows(rows, limit, step, n))
  {
    if n > 0 {
      WindowsSkip(rows, limit, step, n - 1);
      OneMore(rows, limit, step, n);
      Multiples(step, n);
      WindowMisses(rows, limit, (n - 1) * step);
    }
  }

  lemma WindowMisses<T>(rows: seq<T>, limit: nat, offset: nat)
    requires limit < |rows| && IsOnce(rows) && (offset == 0 || limit < offset)
    ensures rows[limit] !in Window(rows, limit, offset)
  {
    var window := Window(rows, limit, offset);
    forall k | 0 <= k < |window| ensures window[k] != rows[limit] {
      assert window[k] == rows[Least(offset, |rows|) + k];
    }
  }

  // ---------------------------------------------------------------------------
  // The order of a listing
  // ---------------------------------------------------------------------------

  type Key = seq<Option<string>>

  /** The columns the statement sorts by: what its tail names between ORDER BY and LIMIT. */
  function SortColumns(layout: Layout): seq<string>
    requires |layout.tail| >= 3
  {
    seq(|layout.tail| - 3, i requires 0 <= i < |layout.tail| - 3 => layout.tail[i + 2].word)
  }

  function KeyOf(layout: Layout, row: Sql.Row): Key
    requires |layout.tail| >= 3
  {
    seq(|SortColumns(layout)|, i requires 0 <= i < |SortColumns(layout)| => Sql.Column(row, SortColumns(layout)[i]))
  }

  /** A strict total order of keys, as any collation gives. */
  ghost predicate IsCollation(before: (Key, Key) -> bool) {
    && (forall a, b :: before(a, b) ==> !before(b, a))
    && (forall a, b :: a != b ==> before(a, b) || before(b, a))
    && (forall a, b, c :: before(a, b) && before(b, c) ==> before(a, c))
  }

  predicate IsOrdered(layout: Layout, rows: seq<Sql.Row>, before: (Key, Key) -> bool)
    requires |layout.tail| >= 3
  {
    forall i, j | 0 <= i < j < |rows| :: !before(KeyOf(layout, rows[j]), KeyOf(layout, rows[i]))
  }

  /** All the rows of a set, each once, none before one it sorts after. */
  predicate IsListingOf(layout: Layout, rows: seq<Sql.Row>, all: set<Sql.Row>, before: (Key, Key) -> bool)
    requires |layout.tail| >= 3
  {
    && (forall row | row in rows :: row in all)
    && (forall row | row in all :: row in rows)
    && IsOnce(rows) && IsOrdered(layout, rows, before)
  }

  /** No two rows share the columns sorted by. */
  predicate HasUniqueKeys(layout: Layout, table: set<Sql.Row>)
    requires |layout.tail| >= 3
  {
    forall a, b | a in table && b in table :: KeyOf(layout, a) == KeyOf(layout, b) ==> a == b
  }

  /** The uniqueness constraint of the `components` table. */
  predicate RespectsConstraint(table: set<Sql.Row>) {
    forall a, b | a in table && b in table ::
      a.ecosystem == b.ecosystem && a.namespace == b.namespace && a.name == b.name && a.version == b.version ==> a == b
  }

  lemma SortedColumns(row: Sql.Row)
    ensures KeyOf(COMPONENTS_LAYOUT, row)
         == [Some(row.ecosystem), Some(row.namespace), Some(row.name), Some(row.version)]
  {
    var columns := SortColumns(COMPONENTS_LAYOUT);
    assert columns == ["ecosystem", "namespace", "name", "version"];
    assert |KeyOf(COMPONENTS_LAYOUT, row)| == 4;
  }

  /** The statement sorts by the very columns the constraint makes unique. */
  lemma ConstraintGivesUniqueKeys(table: set<Sql.Row>)
    requires RespectsConstraint(table)
    ensures HasUniqueKeys(COMPONENTS_LAYOUT, table)
  {
    forall a, b | a in table && b in table && KeyOf(COMPONENTS_LAYOUT, a) == KeyOf(COMPONENTS_LAYOUT, b)
      ensures a == b
    {
      SortedColumns(a);
      SortedColumns(b);
    }
  }

  lemma ListingTail(layout: Layout, rows: seq<Sql.Row>, all: set<Sql.Row>, before: (Key, Key) -> bool)
    requires |layout.tail| >= 3 && rows != [] && IsListingOf(layout, rows, all, before)
    ensures IsListingOf(layout, rows[1..], all - {rows[0]}, before)
  {
    forall row | row in all - {rows[0]} ensures row in rows[1..] {
      assert rows == [rows[0]] + rows[1..];
    }
    assert forall i | 0 <= i < |rows[1..]| :: rows[1..][i] == rows[i + 1] && rows[i + 1] != rows[0];
  }

  lemma FirstComesFirst(
    layout: Layout, rows: seq<Sql.Row>, all: set<Sql.Row>, row: Sql.Row, before: (Key, Key) -> bool)
    requires |layout.tail| >= 3 && row in all && IsListingOf(layout, rows, all, before)
    ensures rows != [] && (rows[0] == row || !before(KeyOf(layout, row), KeyOf(layout, rows[0])))
  {
    assert row in rows;
  }

  lemma EmptyOrInhabited<T>(rows: seq<T>)
    ensures rows == [] || exists row :: row in rows
  {
    if rows != [] {
      assert rows[0] in rows;
    }
  }

  /** With unique keys a set of rows has one listing. */
  lemma {:induction false} ListingIsUnique(
    layout: Layout, a: seq<Sql.Row>, b: seq<Sql.Row>, all: set<Sql.Row>, before: (Key, Key) -> bool)
    requires |layout.tail| >= 3 && IsCollation(before) && HasUniqueKeys(layout, all)
    requires IsListingOf(layout, a, all, before) && IsListingOf(layout, b, all, before)
    ensures a == b
    decreases |a|
  {
    EmptyOrInhabited(a);
    EmptyOrInhabited(b);
    if a != [] && b != [] {
      assert a[0] in all && b[0] in all;
      FirstComesFirst(layout, a, all, b[0], before);
      FirstComesFirst(layout, b, all, a[0], before);
      assert a[0] == b[0];
      ListingTail(layout, a, all, before);
      ListingTail(layout, b, all, before);
      ListingIsUnique(layout, a[1..], b[1..], all - {a[0]}, before);
      assert a == [a[0]] + a[1..] && b == [b[0]] + b[1..];
    }
  }

  /** A row put in its place among ordered ones. */
  lemma {:induction false} InsertRow(
    layout: Layout, rows: seq<Sql.Row>, all: set<Sql.Row>, row: Sql.Row, before: (Key, Key) -> bool)
    returns (more: seq<Sql.Row>)
    requires |layout.tail| >= 3 && IsCollation(before) && row !in all && IsListingOf(layout, rows, all, before)
    ensures IsListingOf(layout, more, all + {row}, before)
    decreases |rows|
  {
    if rows == [] {
      more := [row];
    } else if !before(KeyOf(layout, rows[0]), KeyOf(layout, row)) {
      more := [row] + rows;
      assert rows[0] in rows;
      forall j | 0 <= j < |rows| ensures !before(KeyOf(layout, rows[j]), KeyOf(layout, row)) && rows[j] != row {
        assert rows[j] in rows;
        assert j > 0 ==> !before(KeyOf(layout, rows[j]), KeyOf(layout, rows[0]));
      }
      Prepended(layout, row, rows, all, before);
    } else {
      ListingTail(layout, rows, all, before);
      var rest := InsertRow(layout, rows[1..], all - {rows[0]}, row, before);
      more := [rows[0]] + rest;
      assert rows[0] in rows;
      forall j | 0 <= j < |rest| ensures !before(KeyOf(layout, rest[j]), KeyOf(layout, rows[0])) && rest[j] != rows[0] {
        assert rest[j] in rest;
        FirstBefore(layout, rows, all, row, rest[j], before);
      }
      Prepended(layout, rows[0], rest, all - {rows[0]} + {row}, before);
      assert all - {rows[0]} + {row} + {rows[0]} == all + {row};
    }
  }

  lemma FirstBefore(layout: Layout, rows: seq<Sql.Row>, all: set<Sql.Row>, row: Sql.Row, other: Sql.Row,
                    before: (Key, Key) -> bool)
    requires |layout.tail| >= 3 && IsCollation(before) && rows != [] && IsListingOf(layout, rows, all, before)
    requires before(KeyOf(layout, rows[0]), KeyOf(layout, row)) && other in all - {rows[0]} + {row}
    ensures !before(KeyOf(layout, other), KeyOf(layout, rows[0]))
  {
    if other != row {
      FirstComesFirst(layout, rows, all, other, before);
    }
  }

  lemma Prepended(layout: Layout, row: Sql.Row, rows: seq<Sql.Row>, all: set<Sql.Row>, before: (Key, Key) -> bool)
    requires |layout.tail| >= 3 && IsListingOf(layout, rows, all, before)
    requires forall j | 0 <= j < |rows| :: !before(KeyOf(layout, rows[j]), KeyOf(layout, row)) && rows[j] != row
    ensures IsListingOf(layout, [row] + rows, all + {row}, before)
  {
    var more := [row] + rows;
    forall i, j | 0 <= i < j < |more|
      ensures more[i] != more[j] && !before(KeyOf(layout, more[j]), KeyOf(layout, more[i]))
    {
      assert more[j] == rows[j - 1] && (i > 0 ==> more[i] == rows[i - 1]);
    }
  }

  lemma {:induction false} ListingExists(layout: Layout, all: set<Sql.Row>, before: (Key, Key) -> bool)
    returns (rows: seq<Sql.Row>)
    requires |layout.tail| >= 3 && IsCollation(before)
    ensures IsListingOf(layout, rows, all, before)
  {
    if all == {} {
      rows := [];
    } else {
      var row :| row in all;
      var rest := ListingExists(layout, all - {row}, before);
      rows := InsertRow(layout, rest, all - {row}, row, before);
      assert all - {row} + {row} == all;
    }
  }

  // ---------------------------------------------------------------------------
  // Answers of the database
  // ---------------------------------------------------------------------------

  /** The rows of a table that a plan's condition holds of. */
  function Selection(plan: Plan, table: set<Sql.Row>): set<Sql.Row> {
    set row | row in table && Sql.Eval(plan.condition, plan.params, row) == Some(true)
  }

  /** An answer to a statement: the selected rows in the statement's order, from the offset on, up to the limit. */
  ghost predicate IsAnswer(layout: Layout, query: Query, table: set<Sql.Row>, before: (Key, Key) -> bool,
                           answer: seq<Sql.Row>)
    requires |layout.tail| >= 3
  {
    var plan := PlanOf(layout, query);
    && plan.Some? && plan.value.limit >= 0 && plan.value.offset >= 0
    && exists rows :: IsListingOf(layout, rows, Selection(plan.value, table), before)
                      && answer == Window(rows, plan.value.limit, plan.value.offset)
  }

  lemma AnswerOfPlan(layout: Layout, query: Query, plan: Plan, table: set<Sql.Row>, before: (Key, Key) -> bool,
                     rows: seq<Sql.Row>, answer: seq<Sql.Row>)
    requires |layout.tail| >= 3 && IsCollation(before) && HasUniqueKeys(layout, table)
    requires PlanOf(layout, query) == Some(plan) && IsAnswer(layout, query, table, before, answer)
    requires IsListingOf(layout, rows, Selection(plan, table), before)
    ensures plan.limit >= 0 && plan.offset >= 0 && answer == Window(rows, plan.limit, plan.offset)
  {
    var listed :| IsListingOf(layout, listed, Selection(plan, table), before)
                  && answer == Window(listed, plan.limit, plan.offset);
    ListingIsUnique(layout, listed, rows, Selection(plan, table), before);
  }

  /** The predicate's statement for any page pages so and selects exactly the given rows of a table. */
  ghost predicate SelectsExactly(layout: Layout, p: QueryPredicate, table: set<Sql.Row>, visible: set<Sql.Row>) {
    forall page: BrowsePage :: PlansExactly(PlanOf(layout, QueryOf(layout, Compiled(p), page)), page, table, visible)
  }

  predicate PlansExactly(plan: Option<Plan>, page: BrowsePage, table: set<Sql.Row>, visible: set<Sql.Row>) {
    && plan.Some? && plan.value.limit == page.limit && plan.value.offset == page.offset
    && Selection(plan.value, table) == visible
  }

  /** The database's answer for a page is that window of the one listing. */
  lemma AnswerIsWindow(layout: Layout, p: QueryPredicate, page: BrowsePage, table: set<Sql.Row>, visible: set<Sql.Row>,
                       before: (Key, Key) -> bool, rows: seq<Sql.Row>, answer: seq<Sql.Row>)
    requires |layout.tail| >= 3 && IsCollation(before) && HasUniqueKeys(layout, table)
    requires SelectsExactly(layout, p, table, visible) && IsListingOf(layout, rows, visible, before)
    requires IsAnswer(layout, QueryOf(layout, Compiled(p), page), table, before, answer)
    ensures answer == Window(rows, page.limit, page.offset)
  {
    var query := QueryOf(layout, Compiled(p), page);
    assert PlansExactly(PlanOf(layout, query), page, table, visible);
    AnswerOfPlan(layout, query, PlanOf(layout, query).value, table, before, rows, answer);
  }

  // ---------------------------------------------------------------------------
  // Page after page
  // ---------------------------------------------------------------------------

  /** Answers to requests for `asked` rows each, every offset further by as much. */
  ghost predicate ArePages(layout: Layout, p: QueryPredicate, table: set<Sql.Row>, before: (Key, Key) -> bool,
                           asked: nat, answers: seq<seq<Sql.Row>>)
    requires |layout.tail| >= 3
  {
    forall i | 0 <= i < |answers| ::
      IsAnswer(layout, QueryOf(layout, Compiled(p), Clamped(asked, i * asked)), table, before, answers[i])
  }

  lemma PageIsWindow(
    layout: Layout, p: QueryPredicate, table: set<Sql.Row>, visible: set<Sql.Row>, before: (Key, Key) -> bool,
    rows: seq<Sql.Row>, asked: nat, answers: seq<seq<Sql.Row>>, i: nat)
    requires |layout.tail| >= 3 && IsCollation(before) && HasUniqueKeys(layout, table)
    requires SelectsExactly(layout, p, table, visible) && IsListingOf(layout, rows, visible, before)
    requires ArePages(layout, p, table, before, asked, answers) && i < |answers|
    ensures answers[i] == Window(rows, Clamped(asked, 0).limit, i * asked)
  {
    AnswerIsWindow(layout, p, Clamped(asked, i * asked), table, visible, before, rows, answers[i]);
  }

  predicate AreWindows<T(==)>(rows: seq<T>, limit: nat, step: nat, pages: seq<seq<T>>) {
    forall i | 0 <= i < |pages| :: pages[i] == Window(rows, limit, i * step)
  }

  lemma {:induction false} WindowsOneByOne<T>(rows: seq<T>, limit: nat, step: nat, pages: seq<seq<T>>)
    requires AreWindows(rows, limit, step, pages)
    ensures pages == Windows(rows, limit, step, |pages|)
    decreases |pages|
  {
    if pages != [] {
      var n := |pages| - 1;
      WindowsOneByOne(rows, limit, step, pages[..n]);
      assert pages == pages[..n] + [pages[n]];
    }
  }

  /** Windows for enough requests show everything, in order, or pass something over. */
  lemma EnoughWindows<T>(rows: seq<T>, asked: nat, n: nat)
    requires IsOnce(rows) && n * asked >= |rows|
    ensures var shown := Flatten(Windows(rows, Clamped(asked, 0).limit, asked, n));
            if asked <= MAX_LIMIT || |rows| <= MAX_LIMIT
            then shown == rows
            else rows[MAX_LIMIT] !in shown
  {
    var limit := Clamped(asked, 0).limit;
    if asked <= MAX_LIMIT || |rows| <= MAX_LIMIT {
      WindowsTile(rows, limit, asked, n);
      assert rows[..|rows|] == rows;
    } else {
      WindowsSkip(rows, limit, asked, n);
    }
  }

  lemma PagesAreWindows(
    layout: Layout, p: QueryPredicate, table: set<Sql.Row>, visible: set<Sql.Row>, before: (Key, Key) -> bool,
    rows: seq<Sql.Row>, asked: nat, answers: seq<seq<Sql.Row>>)
    requires |layout.tail| >= 3 && IsCollation(before) && HasUniqueKeys(layout, table)
    requires SelectsExactly(layout, p, table, visible) && IsListingOf(layout, rows, visible, before)
    requires ArePages(layout, p, table, before, asked, answers)
    ensures AreWindows(rows, Clamped(asked, 0).limit, asked, answers)
  {
    forall i | 0 <= i < |answers| ensures answers[i] == Window(rows, Clamped(asked, 0).limit, i * asked) {
      PageIsWindow(layout, p, table, visible, before, rows, asked, answers, i);
    }
  }

  /** The rows shown are the visible ones, each once and in order; or, for a client that asks for more than a page
    * holds of more than a page, one is missing. */
  ghost predicate Tiles(layout: Layout, shown: seq<Sql.Row>, visible: set<Sql.Row>, before: (Key, Key) -> bool,
                        asked: nat)
    requires |layout.tail| >= 3
  {
    if asked <= MAX_LIMIT || |visible| <= MAX_LIMIT
    then IsListingOf(layout, shown, visible, before)
    else exists row :: row in visible && row !in shown
  }

  lemma EnoughWindowsTile(layout: Layout, rows: seq<Sql.Row>, visible: set<Sql.Row>, before: (Key, Key) -> bool,
                          asked: nat, n: nat)
    requires |layout.tail| >= 3 && IsListingOf(layout, rows, visible, before) && n * asked >= |visible|
    ensures Tiles(layout, Flatten(Windows(rows, Clamped(asked, 0).limit, asked, n)), visible, before, asked)
  {
    CountOnce(rows, visible);
    EnoughWindows(rows, asked, n);
    if asked > MAX_LIMIT && |visible| > MAX_LIMIT {
      assert rows[MAX_LIMIT] in rows;
    }
  }

  /** A client that asks for enough pages, each further by the number of rows it asked for, is shown every row it
    * may see, once and in order, if and only if it asked for no more than a page can hold or its rows fit a page. */
  lemma PagesTile(
    layout: Layout, p: QueryPredicate, table: set<Sql.Row>, visible: set<Sql.Row>, before: (Key, Key) -> bool,
    asked: nat, answers: seq<seq<Sql.Row>>)
    requires |layout.tail| >= 3 && IsCollation(before) && HasUniqueKeys(layout, table)
    requires SelectsExactly(layout, p, table, visible)
    requires ArePages(layout, p, table, before, asked, answers) && |answers| * asked >= |visible|
    ensures Tiles(layout, Flatten(answers), visible, before, asked)
  {
    var rows := ListingExists(layout, visible, before);
    PagesAreWindows(layout, p, table, visible, before, rows, asked, answers);
    WindowsOneByOne(rows, Clamped(asked, 0).limit, asked, answers);
    EnoughWindowsTile(layout, rows, visible, before, asked, |answers|);
  }

  lemma {:induction false} CountOnce<T>(rows: seq<T>, all: set<T>)
    requires IsOnce(rows) && (forall row | row in rows :: row in all) && (forall row | row in all :: row in rows)
    ensures |rows| == |all|
    decreases |rows|
  {
    if rows == [] {
      assert all == {};
    } else {
      var n := |rows| - 1;
      assert rows == rows[..n] + [rows[n]];
      forall row | row in rows[..n] ensures row in all - {rows[n]} {
        assert row in rows;
      }
      CountOnce(rows[..n], all - {rows[n]});
    }
  }

  // ---------------------------------------------------------------------------
  // The listing endpoint
  // ---------------------------------------------------------------------------

  /** The rows of a table a caller may see: those of a requested ecosystem on whose repository the gate allows some
    * content action. */
  function Visible(config: Config, caller: Principal, filter: Option<Ecosystem>, table: set<Sql.Row>): set<Sql.Row> {
    set row | row in table && IsShown(config, caller, filter, row)
  }

  predicate IsShown(config: Config, caller: Principal, filter: Option<Ecosystem>, row: Sql.Row) {
    var ecosystem := EcosystemOf(row.ecosystem);
    && GateShows(GrantsOf(config), caller, Action.Browse, DEFAULT_NAMESPACE, ecosystem, row.name)
    && (filter.Some? ==> filter.value == ecosystem)
  }

  /** Every row names a known ecosystem; the column is written from one. */
  predicate HasKnownEcosystems(table: set<Sql.Row>) {
    forall row | row in table :: row.ecosystem == EcosystemName(EcosystemOf(row.ecosystem))
  }

  lemma SelectionFrom(plan: Plan, table: set<Sql.Row>, visible: set<Sql.Row>)
    requires visible <= table
    requires forall row | row in table :: Sql.Eval(plan.condition, plan.params, row) == Some(row in visible)
    ensures Selection(plan, table) == visible
  {
  }

  /** The statement for a page, and what it answers for a row. */
  lemma PlanForPage(p: QueryPredicate, page: BrowsePage) returns (plan: Plan)
    ensures PlanOf(COMPONENTS_LAYOUT, QueryOf(COMPONENTS_LAYOUT, Compiled(p), page)) == Some(plan)
    ensures plan.limit == page.limit && plan.offset == page.offset
    ensures forall row, expected | Selects(p, page, row, expected) ::
              Sql.Eval(plan.condition, plan.params, row) == Some(expected)
  {
    ComponentsLayoutIsWellFormed();
    BrowsePlans(COMPONENTS_LAYOUT, p, page);
    plan := PlanOf(COMPONENTS_LAYOUT, QueryOf(COMPONENTS_LAYOUT, Compiled(p), page)).value;
  }

  /** The plan for one page answers every row of the table as the gate does. */
  lemma PageSelectsVisible(config: Config, caller: Principal, filter: Option<Ecosystem>, p: QueryPredicate,
                           table: set<Sql.Row>, page: BrowsePage)
    requires config.auth.enabled && HasKnownEcosystems(table)
    requires BrowsePredicate(config, Some(caller)) == Ok(p)
    ensures PlansExactly(PlanOf(COMPONENTS_LAYOUT, QueryOf(COMPONENTS_LAYOUT, Compiled(Narrowed(p, filter)), page)),
                         page, table, Visible(config, caller, filter, table))
  {
    var plan := PlanForPage(Narrowed(p, filter), page);
    var visible := Visible(config, caller, filter, table);
    forall row | row in table ensures Sql.Eval(plan.condition, plan.params, row) == Some(row in visible) {
      RowIsGated(config, caller, filter, p, page, row);
    }
    SelectionFrom(plan, table, visible);
  }

  lemma RowIsGated(config: Config, caller: Principal, filter: Option<Ecosystem>, p: QueryPredicate, page: BrowsePage,
                   row: Sql.Row)
    requires config.auth.enabled && row.ecosystem == EcosystemName(EcosystemOf(row.ecosystem))
    requires BrowsePredicate(config, Some(caller)) == Ok(p)
    ensures Selects(Narrowed(p, filter), page, row, IsShown(config, caller, filter, row))
  {
    ListingReturnsExactlyGatedRows(config, caller, filter, page, row, EcosystemOf(row.ecosystem));
  }

  /** From configuration to all pages of the listing: over every table that respects its uniqueness constraint and
    * every collation, a caller who asks for enough pages is shown the rows the gate allows it, each once and in
    * order, if and only if it asks for no more rows than a page can hold or all of them fit a page. */
  lemma PagesShowExactlyGatedRows(
    config: Config, caller: Principal, filter: Option<Ecosystem>, p: QueryPredicate, table: set<Sql.Row>,
    before: (Key, Key) -> bool, asked: nat, answers: seq<seq<Sql.Row>>)
    requires config.auth.enabled && BrowsePredicate(config, Some(caller)) == Ok(p)
    requires IsCollation(before) && RespectsConstraint(table) && HasKnownEcosystems(table)
    requires ArePages(COMPONENTS_LAYOUT, Narrowed(p, filter), table, before, asked, answers)
    requires |answers| * asked >= |Visible(config, caller, filter, table)|
    ensures var shown, visible := Flatten(answers), Visible(config, caller, filter, table);
            && (IsListingOf(COMPONENTS_LAYOUT, shown, visible, before)
                <==> asked <= MAX_LIMIT || |visible| <= MAX_LIMIT)
            && Tiles(COMPONENTS_LAYOUT, shown, visible, before, asked)
  {
    var visible := Visible(config, caller, filter, table);
    forall page: BrowsePage
      ensures PlansExactly(PlanOf(COMPONENTS_LAYOUT, QueryOf(COMPONENTS_LAYOUT, Compiled(Narrowed(p, filter)), page)),
                           page, table, visible)
    {
      PageSelectsVisible(config, caller, filter, p, table, page);
    }
    ConstraintGivesUniqueKeys(table);
    PagesTile(COMPONENTS_LAYOUT, Narrowed(p, filter), table, visible, before, asked, answers);
  }
}
