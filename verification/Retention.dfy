/** Retention: every rule selects versions of a component family to delete, and the union is deleted. */
module Retention {
  import opened Wrappers

  type Instant = int

  const MILLIS_PER_DAY: nat := 86_400_000

  datatype VersionRow = VersionRow(id: int, version: string, createdAt: Instant, updatedAt: Instant,
                                   lastDownloadedAt: Option<Instant>)

  datatype Rule =
    | KeepLatest(count: nat)
    | IsPrerelease(prerelease: bool)
    | MatchesRegex(pattern: string)
    | LastUpdated(withinDays: nat)
    | LastDownloaded(withinDays: nat)

  /** The regular-expression engine: a matcher, unless the pattern does not compile. */
  type Regexes = string -> Option<string -> bool>

  datatype RetentionError = BadPattern(pattern: string)

  // ---------------------------------------------------------------------------
  // Selection
  // ---------------------------------------------------------------------------

  function InsertByRecency(row: VersionRow, sorted: seq<VersionRow>): (r: seq<VersionRow>)
    ensures |r| == |sorted| + 1
  {
    if sorted == [] || row.createdAt >= sorted[0].createdAt then [row] + sorted
    else [sorted[0]] + InsertByRecency(row, sorted[1..])
  }

  /** Newest first; rows created at the same time keep their order. */
  function ByRecency(rows: seq<VersionRow>): (r: seq<VersionRow>)
    ensures |r| == |rows|
  {
    if rows == [] then [] else InsertByRecency(rows[0], ByRecency(rows[1..]))
  }

  function Ids(rows: seq<VersionRow>): seq<int> {
    seq(|rows|, i requires 0 <= i < |rows| => rows[i].id)
  }

  function Filter(rows: seq<VersionRow>, keep: VersionRow -> bool): seq<VersionRow> {
    if rows == [] then []
    else (if keep(rows[0]) then [rows[0]] else []) + Filter(rows[1..], keep)
  }

  function InIds(ids: set<int>): VersionRow -> bool {
    (row: VersionRow) => row.id in ids
  }

  function NotIn(ids: set<int>): VersionRow -> bool {
    (row: VersionRow) => row.id !in ids
  }

  predicate LooksPrerelease(version: string) {
    '-' in version
  }

  predicate IsOlderThan(time: Option<Instant>, now: Instant, days: nat) {
    time.None? || time.value < now - days * MILLIS_PER_DAY
  }

  function SelectForDeletion(rule: Rule, rows: seq<VersionRow>, now: Instant,
                             regexes: Regexes): Result<seq<int>, RetentionError> {
    match rule
    case KeepLatest(count) =>
      var sorted := ByRecency(rows);
      Ok(if count <= |sorted| then Ids(sorted[count..]) else [])
    case IsPrerelease(prerelease) =>
      Ok(Ids(Filter(rows, (row: VersionRow) => LooksPrerelease(row.version) == prerelease)))
    case MatchesRegex(pattern) =>
      var regex := regexes(pattern);
      if regex.None? then Err(BadPattern(pattern))
      else Ok(Ids(Filter(rows, (row: VersionRow) => regex.value(row.version))))
    case LastUpdated(days) => Ok(Ids(Filter(rows, (row: VersionRow) => IsOlderThan(Some(row.updatedAt), now, days))))
    case LastDownloaded(days) =>
      Ok(Ids(Filter(rows, (row: VersionRow) => IsOlderThan(row.lastDownloadedAt, now, days))))
  }

  /** The time each rule reads off the clock when its turn comes. */
  type Clock = nat -> Instant

  /** The union of what the rules select, each by its own clock reading; the first pattern that does not compile
    * is the answer instead. */
  function SelectAll(rules: seq<Rule>, rows: seq<VersionRow>, clock: Clock,
                     regexes: Regexes): Result<set<int>, RetentionError> {
    if rules == [] then Ok({})
    else
      var front :- SelectAll(rules[..|rules| - 1], rows, clock, regexes);
      var last :- SelectForDeletion(rules[|rules| - 1], rows, clock(|rules| - 1), regexes);
      Ok(front + set id | id in last)
  }

  /** The rows left when some ids are deleted. */
  function Without(rows: seq<VersionRow>, ids: set<int>): seq<VersionRow> {
    Filter(rows, NotIn(ids))
  }

  function Versions(rows: seq<VersionRow>): seq<string> {
    seq(|rows|, i requires 0 <= i < |rows| => rows[i].version)
  }

  // ---------------------------------------------------------------------------
  // The component table
  // ---------------------------------------------------------------------------

  /** The component rows of one family. */
  class ComponentTable {
    var rows: seq<VersionRow>

    constructor (rows: seq<VersionRow>)
      ensures this.rows == rows
    {
      this.rows := rows;
    }

    /** Deletes what the rules select, after evaluating all of them; at most `awaits` deletions finish. */
    method ApplyRetention(rules: seq<Rule>, clock: Clock, regexes: Regexes, awaits: nat)
    returns (r: Result<seq<string>, RetentionError>, done: bool)
      modifies this
      ensures var selected := SelectAll(rules, old(rows), clock, regexes);
              && (selected.Err? ==> rows == old(rows) && r == Err(selected.error))
              && (selected.Ok? ==>
                    var doomed := Filter(old(rows), InIds(selected.value));
                    && (done <==> |doomed| <= awaits)
                    && r == Ok(Versions(doomed[..if done then |doomed| else awaits]))
                    && rows == Without(old(rows), IdSet(doomed[..if done then |doomed| else awaits])))
    {
      var versions := rows;
      var selectedIds: set<int> := {};
      for i := 0 to |rules|
        invariant rows == old(rows) == versions
        invariant SelectAll(rules[..i], versions, clock, regexes) == Ok(selectedIds)
      {
        assert rules[..i + 1][..i] == rules[..i];
        var ids := SelectForDeletion(rules[i], versions, clock(i), regexes);
        if ids.Err? {
          FirstFailureStands(rules, i + 1, versions, clock, regexes);
          return Err(ids.error), false;
        }
        selectedIds := selectedIds + set id | id in ids.value;
      }
      assert rules[..|rules|] == rules;
      r, done := DeleteSelected(versions, selectedIds, awaits);
    }

    /** Deletes the selected rows one by one. */
    method DeleteSelected(versions: seq<VersionRow>, selectedIds: set<int>, awaits: nat)
    returns (r: Result<seq<string>, RetentionError>, done: bool)
      requires rows == versions
      modifies this
      ensures var doomed := Filter(versions, InIds(selectedIds));
              && (done <==> |doomed| <= awaits)
              && r == Ok(Versions(doomed[..if done then |doomed| else awaits]))
              && rows == Without(versions, IdSet(doomed[..if done then |doomed| else awaits]))
    {
      ghost var isDoomed := InIds(selectedIds);
      ghost var doomed := Filter(versions, isDoomed);
      var deleted: seq<VersionRow> := [];
      FilterAll(versions, NotIn(IdSet([])));
      for i := 0 to |versions|
        invariant deleted == Filter(versions[..i], isDoomed) && |deleted| <= awaits
        invariant rows == Without(versions, IdSet(deleted))
      {
        FilterNext(versions, i, isDoomed);
        if versions[i].id in selectedIds {
          if |deleted| == awaits {
            assert doomed[..awaits] == deleted;
            return Ok(Versions(deleted)), false;
          }
          WithoutMore(versions, IdSet(deleted), versions[i].id);
          rows := Without(rows, {versions[i].id});
          deleted := deleted + [versions[i]];
          assert IdSet(deleted) == IdSet(deleted[..|deleted| - 1]) + {versions[i].id};
        }
      }
      assert versions[..|versions|] == versions;
      assert doomed[..|doomed|] == doomed;
      return Ok(Versions(deleted)), true;
    }
  }

  function IdSet(rows: seq<VersionRow>): set<int> {
    set row | row in rows :: row.id
  }

  lemma {:induction false} FirstFailureStands(rules: seq<Rule>, n: nat, rows: seq<VersionRow>, clock: Clock,
                                              regexes: Regexes)
    requires n <= |rules| && SelectAll(rules[..n], rows, clock, regexes).Err?
    ensures SelectAll(rules, rows, clock, regexes) == SelectAll(rules[..n], rows, clock, regexes)
  {
    if n < |rules| {
      var front := rules[..|rules| - 1];
      assert front[..n] == rules[..n];
      FirstFailureStands(front, n, rows, clock, regexes);
    } else {
      assert rules[..n] == rules;
    }
  }

  // ---------------------------------------------------------------------------
  // Filtering
  // ---------------------------------------------------------------------------

  lemma {:induction false} FilterContents(rows: seq<VersionRow>, keep: VersionRow -> bool, row: VersionRow)
    ensures row in Filter(rows, keep) <==> row in rows && keep(row)
    ensures |Filter(rows, keep)| <= |rows|
  {
    if rows != [] {
      FilterContents(rows[1..], keep, row);
      assert rows == [rows[0]] + rows[1..];
    }
  }

  lemma {:induction false} FilterSplit(rows: seq<VersionRow>, n: nat, keep: VersionRow -> bool)
    requires n <= |rows|
    ensures Filter(rows, keep) == Filter(rows[..n], keep) + Filter(rows[n..], keep)
  {
    if n > 0 {
      FilterSplit(rows[1..], n - 1, keep);
      assert rows[..n][1..] == rows[1..][..n - 1];
      assert rows[1..][n - 1..] == rows[n..];
      assert rows[..n] == [rows[0]] + rows[..n][1..];
    } else {
      assert rows[..0] == [] && rows[0..] == rows;
    }
  }

  lemma FilterNext(rows: seq<VersionRow>, i: nat, keep: VersionRow -> bool)
    requires i < |rows|
    ensures Filter(rows[..i + 1], keep) == Filter(rows[..i], keep) + if keep(rows[i]) then [rows[i]] else []
    ensures keep(rows[i]) ==>
              |Filter(rows, keep)| > |Filter(rows[..i], keep)|
              && Filter(rows, keep)[..|Filter(rows[..i], keep)|] == Filter(rows[..i], keep)
  {
    FilterSplit(rows, i, keep);
    FilterSplit(rows[..i + 1], i, keep);
    assert rows[..i + 1][..i] == rows[..i] && rows[..i + 1][i..] == [rows[i]];
    assert rows[i..][0] == rows[i];
  }

  lemma {:induction false} FilterAll(rows: seq<VersionRow>, keep: VersionRow -> bool)
    requires forall row | row in rows :: keep(row)
    ensures Filter(rows, keep) == rows
  {
    if rows != [] {
      FilterAll(rows[1..], keep);
      assert rows == [rows[0]] + rows[1..];
    }
  }

  lemma {:induction false} WithoutMore(rows: seq<VersionRow>, ids: set<int>, id: int)
    ensures Without(Without(rows, ids), {id}) == Without(rows, ids + {id})
  {
    if rows != [] {
      var rest := Without(rows[1..], ids);
      WithoutMore(rows[1..], ids, id);
      assert ([rows[0]] + rest)[1..] == rest;
      assert [] + rest == rest;
    }
  }
}
