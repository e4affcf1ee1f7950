/** What retention leaves: exactly the versions no rule selects, whatever the order of the rules. */
module RetentionLaws {
  import opened Wrappers
  import opened Retention

  /** Component ids are a primary key. */
  predicate DistinctIds(rows: seq<VersionRow>) {
    forall i, j | 0 <= i < j < |rows| :: rows[i].id != rows[j].id
  }

  // ---------------------------------------------------------------------------
  // Recency
  // ---------------------------------------------------------------------------

  function MoreThan(rows: seq<VersionRow>, t: Instant): nat {
    if rows == [] then 0 else (if rows[0].createdAt > t then 1 else 0) + MoreThan(rows[1..], t)
  }

  function AtLeast(rows: seq<VersionRow>, t: Instant): nat {
    if rows == [] then 0 else (if rows[0].createdAt >= t then 1 else 0) + AtLeast(rows[1..], t)
  }

  /** How many versions are more recent: created later, or at the same time and listed earlier. */
  function Rank(rows: seq<VersionRow>, i: nat): nat
    requires i < |rows|
  {
    AtLeast(rows[..i], rows[i].createdAt) + MoreThan(rows[i + 1..], rows[i].createdAt)
  }

  predicate NewestFirst(rows: seq<VersionRow>) {
    forall i, j | 0 <= i < j < |rows| :: rows[i].createdAt >= rows[j].createdAt
  }

  lemma {:induction false} InsertLands(x: VersionRow, s: seq<VersionRow>, p: nat)
    requires NewestFirst(s)
    ensures MoreThan(s, x.createdAt) <= |s|
    ensures InsertByRecency(x, s)[MoreThan(s, x.createdAt)] == x
    ensures p < |s| ==> InsertByRecency(x, s)[if p < MoreThan(s, x.createdAt) then p else p + 1] == s[p]
  {
    if s != [] {
      if x.createdAt >= s[0].createdAt {
        NoneMore(s, x.createdAt);
      } else {
        InsertLands(x, s[1..], if p > 0 then p - 1 else 0);
      }
    }
  }

  lemma {:induction false} NoneMore(s: seq<VersionRow>, t: Instant)
    requires forall row | row in s :: row.createdAt <= t
    ensures MoreThan(s, t) == 0
  {
    if s != [] {
      NoneMore(s[1..], t);
    }
  }

  lemma {:induction false} InsertKeepsOrder(x: VersionRow, s: seq<VersionRow>)
    requires NewestFirst(s)
    ensures NewestFirst(InsertByRecency(x, s))
    ensures forall row :: row in InsertByRecency(x, s) <==> row == x || row in s
  {
    if s != [] {
      assert s == [s[0]] + s[1..];
      if x.createdAt < s[0].createdAt {
        InsertKeepsOrder(x, s[1..]);
        var rest := InsertByRecency(x, s[1..]);
        forall k | 0 <= k < |rest| ensures rest[k].createdAt <= s[0].createdAt {
          assert rest[k] in rest;
        }
      }
    }
  }

  lemma {:induction false} InsertCounts(x: VersionRow, s: seq<VersionRow>, t: Instant)
    ensures MoreThan(InsertByRecency(x, s), t) == MoreThan([x] + s, t)
  {
    assert ([x] + s)[1..] == s;
    if s != [] && x.createdAt < s[0].createdAt {
      InsertCounts(x, s[1..], t);
      var rest := InsertByRecency(x, s[1..]);
      assert ([s[0]] + rest)[1..] == rest;
      assert ([x] + s[1..])[1..] == s[1..];
    }
  }

  lemma {:induction false} RecencySorts(rows: seq<VersionRow>)
    ensures NewestFirst(ByRecency(rows))
    ensures forall row :: row in ByRecency(rows) <==> row in rows
    ensures forall t :: MoreThan(ByRecency(rows), t) == MoreThan(rows, t)
  {
    if rows != [] {
      var rest := ByRecency(rows[1..]);
      RecencySorts(rows[1..]);
      InsertLands(rows[0], rest, 0);
      InsertKeepsOrder(rows[0], rest);
      assert rows == [rows[0]] + rows[1..];
      forall t ensures MoreThan(ByRecency(rows), t) == MoreThan(rows, t) {
        InsertCounts(rows[0], rest, t);
        assert ([rows[0]] + rest)[1..] == rest;
      }
    }
  }

  lemma {:induction false} CountsSplit(rows: seq<VersionRow>, i: nat, t: Instant, low: Instant)
    requires i <= |rows| && low <= t
    ensures MoreThan(rows, t) == MoreThan(rows[..i], t) + MoreThan(rows[i..], t)
    ensures MoreThan(rows[..i], t) <= AtLeast(rows[..i], t)
    ensures low < t ==> AtLeast(rows[..i], t) <= MoreThan(rows[..i], low)
    ensures MoreThan(rows[i..], t) <= MoreThan(rows[i..], low)
  {
    if i > 0 {
      CountsSplit(rows[1..], i - 1, t, low);
      assert rows[..i][1..] == rows[1..][..i - 1] && rows[i..] == rows[1..][i - 1..];
    } else {
      assert rows[0..] == rows;
      MoreIsMonotone(rows, t, low);
    }
  }

  lemma {:induction false} MoreIsMonotone(rows: seq<VersionRow>, t: Instant, low: Instant)
    requires low <= t
    ensures MoreThan(rows, t) <= MoreThan(rows, low)
  {
    if rows != [] {
      MoreIsMonotone(rows[1..], t, low);
    }
  }

  /** A version's place in the sorted list is the number of more recent ones. */
  lemma {:induction false} RankIsPlace(rows: seq<VersionRow>, i: nat)
    requires i < |rows|
    ensures Rank(rows, i) < |rows| && ByRecency(rows)[Rank(rows, i)] == rows[i]
  {
    var x, rest := rows[0], rows[1..];
    var t := rows[i].createdAt;
    RecencySorts(rest);
    if i == 0 {
      InsertLands(x, ByRecency(rest), 0);
      assert rows[..0] == [];
    } else {
      RankIsPlace(rest, i - 1);
      var r := Rank(rest, i - 1);
      InsertLands(x, ByRecency(rest), r);
      assert rest[..i - 1] == rows[..i][1..] && rest[i..] == rows[i + 1..];
      RankAgainstFirst(rest, i - 1, x.createdAt);
    }
  }

  lemma RankAgainstFirst(rest: seq<VersionRow>, i: nat, t: Instant)
    requires i < |rest|
    ensures t >= rest[i].createdAt ==> MoreThan(rest, t) <= Rank(rest, i)
    ensures t < rest[i].createdAt ==> MoreThan(rest, t) > Rank(rest, i)
  {
    var own := rest[i].createdAt;
    assert rest[i..][1..] == rest[i + 1..];
    if t >= own {
      CountsSplit(rest, i, t, own);
      CountsSplit(rest, i, own, own);
      MoreIsMonotone(rest, t, own);
    } else {
      CountsSplit(rest, i, own, t);
      CountsSplit(rest, i, t, t);
      MoreIsMonotone(rest[i + 1..], own, t);
    }
  }

  lemma {:induction false} InsertKeepsDistinct(x: VersionRow, s: seq<VersionRow>)
    requires NewestFirst(s) && DistinctIds(s) && forall row | row in s :: row.id != x.id
    ensures DistinctIds(InsertByRecency(x, s))
  {
    if s != [] && x.createdAt < s[0].createdAt {
      InsertKeepsDistinct(x, s[1..]);
      InsertKeepsOrder(x, s[1..]);
      var rest := InsertByRecency(x, s[1..]);
      forall k | 0 <= k < |rest| ensures rest[k].id != s[0].id {
        assert rest[k] in rest;
        if rest[k] != x {
          assert rest[k] in s[1..];
        }
      }
    }
  }

  lemma {:induction false} RecencyKeepsDistinct(rows: seq<VersionRow>)
    requires DistinctIds(rows)
    ensures DistinctIds(ByRecency(rows))
  {
    if rows != [] {
      RecencyKeepsDistinct(rows[1..]);
      RecencySorts(rows[1..]);
      InsertKeepsDistinct(rows[0], ByRecency(rows[1..]));
    }
  }

  // ---------------------------------------------------------------------------
  // What each rule selects
  // ---------------------------------------------------------------------------

  predicate Compiles(rule: Rule, regexes: Regexes) {
    rule.MatchesRegex? ==> regexes(rule.pattern).Some?
  }

  /** The rule's own meaning, version by version. */
  predicate Selects(rule: Rule, rows: seq<VersionRow>, i: nat, now: Instant, regexes: Regexes)
    requires i < |rows| && Compiles(rule, regexes)
  {
    match rule
    case KeepLatest(count) => Rank(rows, i) >= count
    case IsPrerelease(prerelease) => ('-' in rows[i].version) == prerelease
    case MatchesRegex(pattern) => regexes(pattern).value(rows[i].version)
    case LastUpdated(days) => rows[i].updatedAt < now - days * MILLIS_PER_DAY
    case LastDownloaded(days) =>
      rows[i].lastDownloadedAt.Some? ==> rows[i].lastDownloadedAt.value < now - days * MILLIS_PER_DAY
  }

  lemma IdsFrom(sorted: seq<VersionRow>, count: nat, r: nat)
    requires DistinctIds(sorted) && count <= |sorted| && r < |sorted|
    ensures sorted[r].id in Ids(sorted[count..]) <==> r >= count
  {
    var ids := Ids(sorted[count..]);
    if r >= count {
      assert ids[r - count] == sorted[r].id;
    }
    if sorted[r].id in ids {
      var p :| 0 <= p < |ids| && ids[p] == sorted[r].id;
      assert sorted[count + p].id == sorted[r].id;
    }
  }

  lemma LatestIsByRank(rows: seq<VersionRow>, i: nat, count: nat)
    requires i < |rows| && DistinctIds(rows)
    ensures (count <= |rows| && rows[i].id in Ids(ByRecency(rows)[count..])) <==> Rank(rows, i) >= count
  {
    RecencyKeepsDistinct(rows);
    RankIsPlace(rows, i);
    if count <= |rows| {
      IdsFrom(ByRecency(rows), count, Rank(rows, i));
    }
  }

  lemma FilteredIds(rows: seq<VersionRow>, keep: VersionRow -> bool, i: nat)
    requires i < |rows| && DistinctIds(rows)
    ensures rows[i].id in Ids(Filter(rows, keep)) <==> keep(rows[i])
  {
    var kept := Filter(rows, keep);
    FilterContents(rows, keep, rows[i]);
    if keep(rows[i]) {
      var p :| 0 <= p < |kept| && kept[p] == rows[i];
      assert Ids(kept)[p] == rows[i].id;
    }
    if rows[i].id in Ids(kept) {
      var p :| 0 <= p < |Ids(kept)| && Ids(kept)[p] == rows[i].id;
      FilterContents(rows, keep, kept[p]);
      assert kept[p] in kept;
    }
  }

  /** Selection by a rule is what the rule means, for every rule. */
  lemma SelectionMeans(rule: Rule, rows: seq<VersionRow>, i: nat, now: Instant, regexes: Regexes)
    requires i < |rows| && DistinctIds(rows)
    ensures var selected := SelectForDeletion(rule, rows, now, regexes);
            && (selected.Ok? <==> Compiles(rule, regexes))
            && (selected.Ok? ==> (rows[i].id in selected.value <==> Selects(rule, rows, i, now, regexes)))
  {
    match rule
    case KeepLatest(count) => LatestIsByRank(rows, i, count);
    case IsPrerelease(prerelease) =>
      FilteredIds(rows, (row: VersionRow) => LooksPrerelease(row.version) == prerelease, i);
    case MatchesRegex(pattern) =>
      if regexes(pattern).Some? {
        var regex := regexes(pattern);
        FilteredIds(rows, (row: VersionRow) => regex.value(row.version), i);
      }
    case LastUpdated(days) => FilteredIds(rows, (row: VersionRow) => IsOlderThan(Some(row.updatedAt), now, days), i);
    case LastDownloaded(days) =>
      FilteredIds(rows, (row: VersionRow) => IsOlderThan(row.lastDownloadedAt, now, days), i);
  }

  // ---------------------------------------------------------------------------
  // The union
  // ---------------------------------------------------------------------------

  predicate AllCompile(rules: seq<Rule>, regexes: Regexes) {
    forall rule | rule in rules :: Compiles(rule, regexes)
  }

  predicate Takes(rule: Rule, rows: seq<VersionRow>, now: Instant, regexes: Regexes, id: int) {
    var selected := SelectForDeletion(rule, rows, now, regexes); selected.Ok? && id in selected.value
  }

  predicate SomeRuleTakes(rules: seq<Rule>, rows: seq<VersionRow>, clock: Clock, regexes: Regexes, id: int) {
    exists k | 0 <= k < |rules| :: Takes(rules[k], rows, clock(k), regexes, id)
  }

  lemma {:induction false} SelectAllMeans(rules: seq<Rule>, rows: seq<VersionRow>, clock: Clock, regexes: Regexes,
                                          id: int)
    ensures var selected := SelectAll(rules, rows, clock, regexes);
            && (selected.Ok? <==> AllCompile(rules, regexes))
            && (selected.Ok? ==> (id in selected.value <==> SomeRuleTakes(rules, rows, clock, regexes, id)))
  {
    if rules != [] {
      var front, last := rules[..|rules| - 1], rules[|rules| - 1];
      assert rules == front + [last];
      SelectAllMeans(front, rows, clock, regexes, id);
      assert SelectForDeletion(last, rows, clock(|rules| - 1), regexes).Ok? <==> Compiles(last, regexes);
      assert forall k | 0 <= k < |front| :: front[k] == rules[k];
    }
  }

  /** What applying a policy to the end leaves. */
  function Survivors(rules: seq<Rule>, rows: seq<VersionRow>, clock: Clock, regexes: Regexes): seq<VersionRow>
    requires SelectAll(rules, rows, clock, regexes).Ok?
  {
    Without(rows, SelectAll(rules, rows, clock, regexes).value)
  }

  /** The survivors are exactly the versions no rule selects by its own clock reading. */
  lemma SurvivorsAreUnselected(rules: seq<Rule>, rows: seq<VersionRow>, clock: Clock, regexes: Regexes, i: nat)
    requires i < |rows| && DistinctIds(rows) && AllCompile(rules, regexes)
    ensures SelectAll(rules, rows, clock, regexes).Ok?
    ensures rows[i] in Survivors(rules, rows, clock, regexes)
            <==> forall k | 0 <= k < |rules| :: !Selects(rules[k], rows, i, clock(k), regexes)
  {
    SelectAllMeans(rules, rows, clock, regexes, rows[i].id);
    FilterContents(rows, NotIn(SelectAll(rules, rows, clock, regexes).value), rows[i]);
    forall k | 0 <= k < |rules|
      ensures var selected := SelectForDeletion(rules[k], rows, clock(k), regexes);
              selected.Ok? && (rows[i].id in selected.value <==> Selects(rules[k], rows, i, clock(k), regexes))
    {
      SelectionMeans(rules[k], rows, i, clock(k), regexes);
    }
  }

  /** A clock that stands still, by which policies can be compared. */
  function At(now: Instant): Clock {
    (k: nat) => now
  }

  lemma SomeOfMore(fewer: seq<Rule>, more: seq<Rule>, takes: Rule -> bool)
    requires forall rule | rule in fewer :: rule in more
    requires exists k | 0 <= k < |fewer| :: takes(fewer[k])
    ensures exists j | 0 <= j < |more| :: takes(more[j])
  {
    var k :| 0 <= k < |fewer| && takes(fewer[k]);
    assert fewer[k] in more;
  }

  lemma TakenMoreOften(fewer: seq<Rule>, more: seq<Rule>, rows: seq<VersionRow>, now: Instant, regexes: Regexes,
                       id: int)
    requires forall rule | rule in fewer :: rule in more
    requires SomeRuleTakes(fewer, rows, At(now), regexes, id)
    ensures SomeRuleTakes(more, rows, At(now), regexes, id)
  {
    var takes := (rule: Rule) => Takes(rule, rows, now, regexes, id);
    var k :| 0 <= k < |fewer| && Takes(fewer[k], rows, At(now)(k), regexes, id);
    assert takes(fewer[k]);
    SomeOfMore(fewer, more, takes);
    var j :| 0 <= j < |more| && takes(more[j]);
    assert Takes(more[j], rows, At(now)(j), regexes, id);
  }

  /** More rules never spare more: whatever survives the larger policy survives the smaller one. */
  lemma MoreRulesDeleteMore(fewer: seq<Rule>, more: seq<Rule>, rows: seq<VersionRow>, now: Instant, regexes: Regexes,
                            row: VersionRow)
    requires forall rule | rule in fewer :: rule in more
    requires SelectAll(more, rows, At(now), regexes).Ok?
    ensures SelectAll(fewer, rows, At(now), regexes).Ok?
    ensures SelectAll(fewer, rows, At(now), regexes).value <= SelectAll(more, rows, At(now), regexes).value
    ensures row in Survivors(more, rows, At(now), regexes) ==> row in Survivors(fewer, rows, At(now), regexes)
  {
    SelectAllMeans(fewer, rows, At(now), regexes, 0);
    SelectAllMeans(more, rows, At(now), regexes, 0);
    forall id
      ensures id in SelectAll(fewer, rows, At(now), regexes).value
              ==> id in SelectAll(more, rows, At(now), regexes).value
    {
      SelectAllMeans(fewer, rows, At(now), regexes, id);
      SelectAllMeans(more, rows, At(now), regexes, id);
      if id in SelectAll(fewer, rows, At(now), regexes).value {
        TakenMoreOften(fewer, more, rows, now, regexes, id);
      }
    }
    FilterContents(rows, NotIn(SelectAll(more, rows, At(now), regexes).value), row);
    FilterContents(rows, NotIn(SelectAll(fewer, rows, At(now), regexes).value), row);
  }

  /** The order of the rules, and repeating one, makes no difference. */
  lemma RuleOrderIsIrrelevant(one: seq<Rule>, other: seq<Rule>, rows: seq<VersionRow>, now: Instant, regexes: Regexes)
    requires forall rule :: rule in one <==> rule in other
    requires SelectAll(one, rows, At(now), regexes).Ok?
    ensures SelectAll(other, rows, At(now), regexes) == SelectAll(one, rows, At(now), regexes)
    ensures Survivors(other, rows, At(now), regexes) == Survivors(one, rows, At(now), regexes)
  {
    var any := VersionRow(0, "", 0, 0, None);
    MoreRulesDeleteMore(other, one, rows, now, regexes, any);
    MoreRulesDeleteMore(one, other, rows, now, regexes, any);
    assert SelectAll(other, rows, At(now), regexes).value == SelectAll(one, rows, At(now), regexes).value;
  }

  // ---------------------------------------------------------------------------
  // Counting
  // ---------------------------------------------------------------------------

  lemma {:induction false} WithoutCounts(rows: seq<VersionRow>, ids: set<int>)
    requires DistinctIds(rows) && ids <= IdSet(rows)
    ensures |Without(rows, ids)| + |ids| == |rows|
  {
    if rows != [] {
      var id := rows[0].id;
      assert rows == [rows[0]] + rows[1..];
      forall row | row in rows[1..] ensures row.id != id {
        var j :| 0 <= j < |rows[1..]| && rows[1..][j] == row;
        assert rows[0].id != rows[j + 1].id;
      }
      var rest := ids - {id};
      WithoutCounts(rows[1..], rest);
      SameWithout(rows[1..], ids, rest, id);
    }
  }

  lemma {:induction false} SameWithout(rows: seq<VersionRow>, ids: set<int>, rest: set<int>, id: int)
    requires rest == ids - {id} && forall row | row in rows :: row.id != id
    ensures Without(rows, ids) == Without(rows, rest)
  {
    if rows != [] {
      assert rows[0] in rows;
      SameWithout(rows[1..], ids, rest, id);
    }
  }

  function IntSet(ids: seq<int>): set<int> {
    set id | id in ids
  }

  lemma {:induction false} IdsCount(rows: seq<VersionRow>)
    requires DistinctIds(rows)
    ensures |IntSet(Ids(rows))| == |rows|
  {
    if rows != [] {
      IdsCount(rows[1..]);
      var id := rows[0].id;
      assert Ids(rows) == [id] + Ids(rows[1..]);
      assert IntSet(Ids(rows)) == {id} + IntSet(Ids(rows[1..]));
      forall j | 0 <= j < |rows[1..]| ensures Ids(rows[1..])[j] != id {
        assert rows[0].id != rows[j + 1].id;
      }
    }
  }

  lemma IdsAreOfRows(rows: seq<VersionRow>, sorted: seq<VersionRow>, count: nat)
    requires count <= |sorted| && forall row | row in sorted :: row in rows
    ensures IntSet(Ids(sorted[count..])) <= IdSet(rows)
  {
    forall id | id in Ids(sorted[count..]) ensures id in IdSet(rows) {
      var j :| 0 <= j < |sorted[count..]| && Ids(sorted[count..])[j] == id;
      assert sorted[count + j] in rows;
    }
  }

  lemma KeepLatestSelects(rows: seq<VersionRow>, count: nat, now: Instant, regexes: Regexes)
    ensures SelectAll([KeepLatest(count)], rows, At(now), regexes)
            == Ok(if count <= |rows| then IntSet(Ids(ByRecency(rows)[count..])) else {})
  {
    var rule := KeepLatest(count);
    var ids := SelectForDeletion(rule, rows, now, regexes).value;
    assert [rule][..0] == [] && SelectAll([], rows, At(now), regexes) == Ok({});
    assert SelectAll([rule], rows, At(now), regexes) == Ok({} + set id | id in ids);
    assert {} + (set id | id in ids) == IntSet(ids);
    assert count > |rows| ==> ids == [] && IntSet(ids) == {};
  }

  /** `KeepLatest k` alone leaves min(k, n) of n versions. */
  lemma KeepLatestKeeps(rows: seq<VersionRow>, count: nat, now: Instant, regexes: Regexes)
    requires DistinctIds(rows)
    ensures SelectAll([KeepLatest(count)], rows, At(now), regexes).Ok?
    ensures |Survivors([KeepLatest(count)], rows, At(now), regexes)| == if count <= |rows| then count else |rows|
  {
    var sorted := ByRecency(rows);
    KeepLatestSelects(rows, count, now, regexes);
    RecencyKeepsDistinct(rows);
    RecencySorts(rows);
    if count <= |rows| {
      IdsCount(sorted[count..]);
      IdsAreOfRows(rows, sorted, count);
      WithoutCounts(rows, IntSet(Ids(sorted[count..])));
    } else {
      WithoutCounts(rows, {});
    }
  }

  lemma KeepLatestSparesByRank(rows: seq<VersionRow>, count: nat, now: Instant, regexes: Regexes, i: nat)
    requires DistinctIds(rows) && i < |rows|
    ensures SelectAll([KeepLatest(count)], rows, At(now), regexes).Ok?
    ensures rows[i] in Survivors([KeepLatest(count)], rows, At(now), regexes) <==> Rank(rows, i) < count
  {
    var rules := [KeepLatest(count)];
    assert rules[0] == KeepLatest(count);
    SurvivorsAreUnselected(rules, rows, At(now), regexes, i);
    assert Selects(rules[0], rows, i, At(now)(0), regexes) <==> Rank(rows, i) >= count;
  }

  /** None of the versions it leaves is older than one it deletes. */
  lemma KeepLatestKeepsNewest(rows: seq<VersionRow>, count: nat, now: Instant, regexes: Regexes, i: nat, j: nat)
    requires DistinctIds(rows) && i < |rows| && j < |rows|
    requires SelectAll([KeepLatest(count)], rows, At(now), regexes).Ok?
    requires rows[i] in Survivors([KeepLatest(count)], rows, At(now), regexes)
    requires rows[j] !in Survivors([KeepLatest(count)], rows, At(now), regexes)
    ensures rows[i].createdAt >= rows[j].createdAt
  {
    KeepLatestSparesByRank(rows, count, now, regexes, i);
    KeepLatestSparesByRank(rows, count, now, regexes, j);
    RankIsPlace(rows, i);
    RankIsPlace(rows, j);
    RecencySorts(rows);
  }

  // ---------------------------------------------------------------------------
  // Once is enough
  // ---------------------------------------------------------------------------

  lemma {:induction false} FilterKeepsDistinct(rows: seq<VersionRow>, keep: VersionRow -> bool)
    requires DistinctIds(rows)
    ensures DistinctIds(Filter(rows, keep))
  {
    if rows != [] {
      FilterKeepsDistinct(rows[1..], keep);
      var rest := Filter(rows[1..], keep);
      forall k | 0 <= k < |rest| ensures rest[k].id != rows[0].id {
        assert rest[k] in rest;
        FilterContents(rows[1..], keep, rest[k]);
        var j :| 0 <= j < |rows[1..]| && rows[1..][j] == rest[k];
        assert rows[0].id != rows[j + 1].id;
      }
    }
  }

  lemma {:induction false} FewerSurvive(rows: seq<VersionRow>, fewer: set<int>, more: set<int>)
    requires fewer <= more
    ensures |Without(rows, more)| <= |Without(rows, fewer)|
  {
    if rows != [] {
      FewerSurvive(rows[1..], fewer, more);
    }
  }

  /** Whatever the policy, a `KeepLatest k` rule in it finds no more than k versions among the survivors. */
  lemma FewEnoughSurvive(rules: seq<Rule>, rows: seq<VersionRow>, now: Instant, regexes: Regexes, count: nat)
    requires DistinctIds(rows) && SelectAll(rules, rows, At(now), regexes).Ok? && KeepLatest(count) in rules
    ensures |Survivors(rules, rows, At(now), regexes)| <= count
  {
    var any := VersionRow(0, "", 0, 0, None);
    MoreRulesDeleteMore([KeepLatest(count)], rules, rows, now, regexes, any);
    KeepLatestKeeps(rows, count, now, regexes);
    FewerSurvive(rows, SelectAll([KeepLatest(count)], rows, At(now), regexes).value,
                 SelectAll(rules, rows, At(now), regexes).value);
  }

  /** Rules other than `KeepLatest` judge each version by itself. */
  lemma JudgedAlone(rule: Rule, rows: seq<VersionRow>, i: nat, others: seq<VersionRow>, j: nat, now: Instant,
                    regexes: Regexes)
    requires i < |rows| && j < |others| && rows[i] == others[j] && !rule.KeepLatest? && Compiles(rule, regexes)
    ensures Selects(rule, rows, i, now, regexes) <==> Selects(rule, others, j, now, regexes)
  {
  }

  lemma SurvivorNotTaken(rules: seq<Rule>, rows: seq<VersionRow>, now: Instant, regexes: Regexes, rule: Rule, j: nat)
    requires DistinctIds(rows) && SelectAll(rules, rows, At(now), regexes).Ok? && rule in rules
             && Compiles(rule, regexes)
    requires AllCompile(rules, regexes)
    requires j < |Survivors(rules, rows, At(now), regexes)|
    ensures !Selects(rule, Survivors(rules, rows, At(now), regexes), j, now, regexes)
  {
    var survivors := Survivors(rules, rows, At(now), regexes);
    if rule.KeepLatest? {
      FewEnoughSurvive(rules, rows, now, regexes, rule.count);
      RankIsPlace(survivors, j);
    } else {
      var keep := NotIn(SelectAll(rules, rows, At(now), regexes).value);
      assert survivors[j] in survivors;
      FilterContents(rows, keep, survivors[j]);
      var i :| 0 <= i < |rows| && rows[i] == survivors[j];
      SurvivorsAreUnselected(rules, rows, At(now), regexes, i);
      JudgedAlone(rule, rows, i, survivors, j, now, regexes);
    }
  }

  /** Applying a policy again, by the same clock, deletes nothing. */
  lemma RetentionIsIdempotent(rules: seq<Rule>, rows: seq<VersionRow>, now: Instant, regexes: Regexes)
    requires DistinctIds(rows) && SelectAll(rules, rows, At(now), regexes).Ok?
    ensures var survivors := Survivors(rules, rows, At(now), regexes);
            && SelectAll(rules, survivors, At(now), regexes).Ok?
            && Survivors(rules, survivors, At(now), regexes) == survivors
  {
    var survivors := Survivors(rules, rows, At(now), regexes);
    SelectAllMeans(rules, rows, At(now), regexes, 0);
    SelectAllMeans(rules, survivors, At(now), regexes, 0);
    FilterKeepsDistinct(rows, NotIn(SelectAll(rules, rows, At(now), regexes).value));
    var selected := SelectAll(rules, survivors, At(now), regexes).value;
    forall row | row in survivors ensures row.id !in selected {
      var j :| 0 <= j < |survivors| && survivors[j] == row;
      SurvivorsAreUnselected(rules, survivors, At(now), regexes, j);
      forall rule | rule in rules ensures !Selects(rule, survivors, j, now, regexes) {
        SurvivorNotTaken(rules, rows, now, regexes, rule, j);
      }
      FilterContents(survivors, NotIn(selected), row);
    }
    FilterAll(survivors, NotIn(selected));
  }
}
