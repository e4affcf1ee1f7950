/** One garbage-collection sweep: list, mark and soft-delete, compact. */
module Gc {
  import opened Wrappers
  import opened ContentModel
  import opened ContentStore

  /** What marking has done when it ends or is stopped. */
  datatype Marking = Marking(state: State, marked: nat, softDeleted: nat, left: nat, done: bool)

  /** Marks and soft-deletes the candidates from the `k`-th on; `clock(i)` is the time read for the `i`-th. */
  function MarkAll(s: State, candidates: seq<Digest>, k: nat, grace: nat, clock: nat -> Instant, awaits: nat): Marking
    requires k <= |candidates|
    decreases |candidates| - k
  {
    if k == |candidates| then Marking(s, k, k, awaits, true)
    else if awaits == 0 then Marking(s, k, k, 0, false)
    else
      var marked := MarkUnreferenced(s, candidates[k]);
      if awaits == 1 then Marking(marked, k + 1, k, 0, false)
      else MarkAll(SoftDelete(marked, candidates[k], clock(k) + grace), candidates, k + 1, grace, clock, awaits - 2)
  }

  datatype Report = Report(marked: nat, softDeleted: nat, reclaimed: seq<Digest>)

  datatype SweepRun = SweepRun(state: State, report: Report, done: bool)

  /** A sweep over given answers of its two queries. */
  function Sweep(s: State, candidates: seq<Digest>, listed: seq<Digest>, grace: nat, clock: nat -> Instant,
                 awaits: nat): SweepRun {
    var m := MarkAll(s, candidates, 0, grace, clock, awaits);
    if !m.done then SweepRun(m.state, Report(m.marked, m.softDeleted, []), false)
    else
      var c := Compacted(m.state, listed, m.left);
      SweepRun(c.state, Report(m.marked, m.softDeleted, c.reclaimed), c.done)
  }

  /** Whether a sweep of that state, its queries answered in some order, can end so. */
  ghost predicate IsSweep(before: State, grace: nat, clock: nat -> Instant, now: Instant, awaits: nat, run: SweepRun) {
    exists candidates, listed ::
      && IsListing(candidates, Unreferenced(before))
      && IsListing(listed, Expired(MarkAll(before, candidates, 0, grace, clock, awaits).state, now))
      && run == Sweep(before, candidates, listed, grace, clock, awaits)
  }

  /** A query's answer: the rows in no particular order. */
  method AnyOrder(all: set<Digest>) returns (listed: seq<Digest>)
    ensures IsListing(listed, all)
  {
    listed := [];
    var rest := all;
    while rest != {}
      invariant rest <= all
      invariant forall d | d in listed :: d in all && d !in rest
      invariant forall d | d in all :: d in listed || d in rest
      invariant forall i, j | 0 <= i < j < |listed| :: listed[i] != listed[j]
      decreases rest
    {
      var d :| d in rest;
      listed := listed + [d];
      rest := rest - {d};
    }
  }

  /** Runs a sweep; `now` is the time read when compaction starts, `awaits` the writes that finish. */
  method RunGcSweep(store: PostgresContentStore, grace: nat, clock: nat -> Instant, now: Instant, awaits: nat)
    returns (report: Report, done: bool)
    modifies store
    ensures IsSweep(old(store.Contents()), grace, clock, now, awaits, SweepRun(store.Contents(), report, done))
  {
    var candidates := AnyOrder(Unreferenced(store.Contents()));
    ghost var before := store.Contents();
    var marked, softDeleted, left := 0, 0, awaits;
    ghost var marking := MarkAll(before, candidates, 0, grace, clock, awaits);
    for i := 0 to |candidates|
      invariant marked == softDeleted == i
      invariant marking == MarkAll(store.Contents(), candidates, i, grace, clock, left)
    {
      if left == 0 {
        ghost var listed := SomeListing(Expired(marking.state, now));
        assert SweepRun(store.Contents(), Report(marked, softDeleted, []), false)
            == Sweep(before, candidates, listed, grace, clock, awaits);
        return Report(marked, softDeleted, []), false;
      }
      store.Mark(candidates[i]);
      marked := marked + 1;
      if left == 1 {
        ghost var listed := SomeListing(Expired(marking.state, now));
        assert SweepRun(store.Contents(), Report(marked, softDeleted, []), false)
            == Sweep(before, candidates, listed, grace, clock, awaits);
        return Report(marked, softDeleted, []), false;
      }
      store.SoftDeleteBlob(candidates[i], clock(i), grace);
      softDeleted := softDeleted + 1;
      left := left - 2;
    }
    var listed := AnyOrder(Expired(store.Contents(), now));
    var reclaimed;
    reclaimed, done := store.Compact(listed, left);
    report := Report(marked, softDeleted, reclaimed);
    assert SweepRun(store.Contents(), report, done) == Sweep(before, candidates, listed, grace, clock, awaits);
  }

  // ---------------------------------------------------------------------------
  // What an uninterrupted sweep achieves
  // ---------------------------------------------------------------------------

  lemma {:induction false} MarkAllCounts(s: State, candidates: seq<Digest>, k: nat, grace: nat, clock: nat -> Instant,
                                         awaits: nat)
    requires k <= |candidates| && awaits >= 2 * (|candidates| - k)
    ensures var m := MarkAll(s, candidates, k, grace, clock, awaits);
            && m.done && m.marked == m.softDeleted == |candidates| && m.left == awaits - 2 * (|candidates| - k)
            && m.state.bytes == s.bytes && m.state.refs == s.refs && m.state.rows.Keys == s.rows.Keys
    decreases |candidates| - k
  {
    if k < |candidates| {
      var d := candidates[k];
      MarkAllCounts(SoftDelete(MarkUnreferenced(s, d), d, clock(k) + grace), candidates, k + 1, grace, clock,
                    awaits - 2);
    }
  }

  /** A row as its soft delete at a given time leaves it. */
  function Stamp(row: Row, at: Instant, grace: nat): Row {
    row.(marked := true, expires := Some(at + grace))
  }

  lemma {:induction false} MarkAllSpares(s: State, candidates: seq<Digest>, k: nat, grace: nat, clock: nat -> Instant,
                                         awaits: nat, d: Digest)
    requires k <= |candidates| && d in s.rows && forall i | k <= i < |candidates| :: candidates[i] != d
    ensures var rows := MarkAll(s, candidates, k, grace, clock, awaits).state.rows; d in rows && rows[d] == s.rows[d]
    decreases |candidates| - k
  {
    if k < |candidates| && awaits > 1 {
      var next := SoftDelete(MarkUnreferenced(s, candidates[k]), candidates[k], clock(k) + grace);
      MarkAllSpares(next, candidates, k + 1, grace, clock, awaits - 2, d);
    }
  }

  /** Every candidate gets its own stamp. */
  lemma {:induction false} MarkAllStamps(s: State, candidates: seq<Digest>, k: nat, grace: nat, clock: nat -> Instant,
                                         awaits: nat, i: nat)
    requires k <= i < |candidates| && awaits >= 2 * (|candidates| - k) && candidates[i] in s.rows
    requires forall i, j | 0 <= i < j < |candidates| :: candidates[i] != candidates[j]
    ensures var rows := MarkAll(s, candidates, k, grace, clock, awaits).state.rows;
            candidates[i] in rows && rows[candidates[i]] == Stamp(s.rows[candidates[i]], clock(i), grace)
    decreases |candidates| - k
  {
    var next := SoftDelete(MarkUnreferenced(s, candidates[k]), candidates[k], clock(k) + grace);
    if k == i {
      MarkAllSpares(next, candidates, k + 1, grace, clock, awaits - 2, candidates[i]);
    } else {
      MarkAllStamps(next, candidates, k + 1, grace, clock, awaits - 2, i);
    }
  }

  /** Which blobs are past their grace window once marking is over: the candidates whose own stamp has
    * already passed, and those that were soft-deleted and expired before. */
  lemma ExpiredAfterMarking(s: State, candidates: seq<Digest>, grace: nat, clock: nat -> Instant, now: Instant,
                            awaits: nat, d: Digest)
    requires IsListing(candidates, Unreferenced(s)) && awaits >= 2 * |candidates|
    ensures d in Expired(MarkAll(s, candidates, 0, grace, clock, awaits).state, now)
            <==> || d in Expired(s, now)
                 || exists i | 0 <= i < |candidates| :: candidates[i] == d && clock(i) + grace < now
  {
    MarkAllCounts(s, candidates, 0, grace, clock, awaits);
    if d in candidates {
      var i :| 0 <= i < |candidates| && candidates[i] == d;
      MarkAllStamps(s, candidates, 0, grace, clock, awaits, i);
    } else if d in s.rows {
      MarkAllSpares(s, candidates, 0, grace, clock, awaits, d);
    }
  }

  /** An uninterrupted sweep in whose way no expired blob is referenced reclaims exactly the blobs expired
    * before it and the candidates whose grace had passed when compaction read the clock. With no grace, then,
    * one sweep reclaims a candidate exactly if the clock had moved on since its soft delete. */
  lemma SweepReclaims(s: State, candidates: seq<Digest>, listed: seq<Digest>, grace: nat, clock: nat -> Instant,
                      now: Instant, awaits: nat, d: Digest)
    requires IsListing(candidates, Unreferenced(s)) && awaits >= 2 * |candidates| + 2 * |listed|
    requires IsListing(listed, Expired(MarkAll(s, candidates, 0, grace, clock, awaits).state, now))
    requires forall e | e in Expired(s, now) :: !IsReferenced(s, e)
    ensures var run := Sweep(s, candidates, listed, grace, clock, awaits);
            && run.done && run.report.marked == run.report.softDeleted == |candidates|
            && (d in run.report.reclaimed
                <==> || d in Expired(s, now)
                     || exists i | 0 <= i < |candidates| :: candidates[i] == d && clock(i) + grace < now)
            && (d in run.report.reclaimed ==> d !in run.state.rows && d !in run.state.bytes)
  {
    MarkAllCounts(s, candidates, 0, grace, clock, awaits);
    var m := MarkAll(s, candidates, 0, grace, clock, awaits);
    forall e | e in listed ensures !IsReferenced(m.state, e) {
      ExpiredAfterMarking(s, candidates, grace, clock, now, awaits, e);
      assert IsReferenced(m.state, e) <==> IsReferenced(s, e);
      if e !in Expired(s, now) {
        var i :| 0 <= i < |candidates| && candidates[i] == e;
        assert e in candidates && e in Unreferenced(s);
      }
    }
    ExpiredAfterMarking(s, candidates, grace, clock, now, awaits, d);
    CompactionCompletes(m.state, listed, m.left);
    var n := CompactionProgress(m.state, listed, m.left);
    assert Compacted(m.state, listed, m.left).reclaimed == listed;
    assert listed[..n] == listed;
  }

  /** A clock that reads the same whenever it is asked. */
  function Stopped(now: Instant): nat -> Instant {
    (k: nat) => now
  }

  lemma HoldsSomething(listed: seq<Digest>)
    ensures listed == [] || exists d :: d in listed
  {
    if listed != [] {
      assert listed[0] in listed;
    }
  }

  /** Whatever is listed, a sweep with no grace reclaims no candidate if the clock does not move while it runs. */
  lemma ZeroGraceNeedsTime(s: State, candidates: seq<Digest>, listed: seq<Digest>, now: Instant, awaits: nat)
    requires IsListing(candidates, Unreferenced(s)) && awaits >= 2 * |candidates| + 2 * |listed|
    requires IsListing(listed, Expired(MarkAll(s, candidates, 0, 0, Stopped(now), awaits).state, now))
    requires Expired(s, now) == {}
    ensures Sweep(s, candidates, listed, 0, Stopped(now), awaits).done
    ensures Sweep(s, candidates, listed, 0, Stopped(now), awaits).report == Report(|candidates|, |candidates|, [])
  {
    var run := Sweep(s, candidates, listed, 0, Stopped(now), awaits);
    SweepReclaims(s, candidates, listed, 0, Stopped(now), now, awaits, "");
    forall d ensures d !in run.report.reclaimed {
      SweepReclaims(s, candidates, listed, 0, Stopped(now), now, awaits, d);
    }
    HoldsSomething(run.report.reclaimed);
  }

  /** One unreferenced blob swept so: marked and soft-deleted, and left where it is. */
  lemma SweptAtOneInstant(d: Digest, info: BlobInfo, data: Bytes, now: Instant)
    ensures var s := State(map[d := Row(info, false, None)], map[d := data], {});
            var run := Sweep(s, [d], [], 0, Stopped(now), 2);
            && IsListing([d], Unreferenced(s))
            && IsListing([], Expired(MarkAll(s, [d], 0, 0, Stopped(now), 2).state, now))
            && run.report == Report(1, 1, []) && run.done && run.state.bytes == s.bytes
  {
    var s := State(map[d := Row(info, false, None)], map[d := data], {});
    assert Unreferenced(s) == {d};
    var m := MarkAll(s, [d], 0, 0, Stopped(now), 2);
    MarkAllStamps(s, [d], 0, 0, Stopped(now), 2, 0);
    MarkAllCounts(s, [d], 0, 0, Stopped(now), 2);
    assert m.state.rows[d].expires == Some(now);
    assert Expired(m.state, now) == {};
  }
}
