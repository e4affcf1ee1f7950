/** Runs of the store: publishes, reference changes and sweeps, their store calls interleaved in any way. */
module GcRuns {
  import opened Wrappers
  import opened ContentModel

  type SweepId = nat

  /** A sweep between two of its store calls. */
  datatype SweepState = SweepState(candidates: seq<Digest>, next: nat, marked: bool, grace: nat)

  datatype System = System(store: State, sweeps: map<SweepId, SweepState>)

  /** One store call, or the end of a sweep. A sweep may die between any two calls, and a publish or a
    * compaction within one. */
  datatype Call =
    | PublishBlob(digest: Digest, info: BlobInfo, data: Bytes, awaits: nat)
    | Refer(asset: AssetId, digest: Digest)
    | Unrefer(asset: AssetId, digest: Digest)
    | DropAssetRows(assets: set<AssetId>)
    | UndeleteRow(digest: Digest)
    | StartSweep(id: SweepId, candidates: seq<Digest>, grace: nat)
    | MarkNext(id: SweepId)
    | SoftDeleteNext(id: SweepId, at: Instant)
    | CompactStore(id: SweepId, now: Instant, listed: seq<Digest>, awaits: nat)
    | EndSweep(id: SweepId)

  predicate Enabled(sys: System, call: Call) {
    match call
    case StartSweep(id, candidates, grace) => id !in sys.sweeps && IsListing(candidates, Unreferenced(sys.store))
    case MarkNext(id) => id in sys.sweeps && !sys.sweeps[id].marked && sys.sweeps[id].next < |sys.sweeps[id].candidates|
    case SoftDeleteNext(id, _) =>
      id in sys.sweeps && sys.sweeps[id].marked && sys.sweeps[id].next < |sys.sweeps[id].candidates|
    case CompactStore(id, now, listed, _) =>
      id in sys.sweeps && sys.sweeps[id].next == |sys.sweeps[id].candidates|
        && IsListing(listed, Expired(sys.store, now))
    case EndSweep(id) => id in sys.sweeps
    case _ => true
  }

  function Next(hash: Hash, sys: System, call: Call): System
    requires Enabled(sys, call)
  {
    var s := sys.store;
    match call
    case PublishBlob(d, info, data, awaits) => sys.(store := Publish(s, hash, d, info, data, awaits).0)
    case Refer(asset, d) => sys.(store := AddReference(s, asset, d))
    case Unrefer(asset, d) => sys.(store := RemoveReference(s, asset, d))
    case DropAssetRows(assets) => sys.(store := DropAssets(s, assets))
    case UndeleteRow(d) => sys.(store := Undelete(s, d))
    case StartSweep(id, candidates, grace) => sys.(sweeps := sys.sweeps[id := SweepState(candidates, 0, false, grace)])
    case MarkNext(id) =>
      var sweep := sys.sweeps[id];
      System(MarkUnreferenced(s, sweep.candidates[sweep.next]), sys.sweeps[id := sweep.(marked := true)])
    case SoftDeleteNext(id, at) =>
      var sweep := sys.sweeps[id];
      System(SoftDelete(s, sweep.candidates[sweep.next], at + sweep.grace),
             sys.sweeps[id := sweep.(next := sweep.next + 1, marked := false)])
    case CompactStore(_, _, listed, awaits) => sys.(store := Compacted(s, listed, awaits).state)
    case EndSweep(id) => sys.(sweeps := sys.sweeps - {id})
  }

  const START := System(EMPTY, map[])

  /** Calls made one after the other, each enabled, with the states between them. */
  predicate IsPath(hash: Hash, systems: seq<System>, calls: seq<Call>) {
    && |systems| == |calls| + 1
    && forall i | 0 <= i < |calls| ::
      Enabled(systems[i], calls[i]) && systems[i + 1] == Next(hash, systems[i], calls[i])
  }

  /** A path from empty stores. */
  predicate IsRun(hash: Hash, systems: seq<System>, calls: seq<Call>) {
    IsPath(hash, systems, calls) && systems[0] == START
  }

  // ---------------------------------------------------------------------------
  // Reads are safe
  // ---------------------------------------------------------------------------

  lemma StepKeepsConsistent(hash: Hash, sys: System, call: Call)
    requires Enabled(sys, call) && Consistent(sys.store, hash)
    ensures Consistent(Next(hash, sys, call).store, hash)
  {
    match call
    case PublishBlob(d, info, data, awaits) => PublishKeepsConsistent(sys.store, hash, d, info, data, awaits);
    case CompactStore(_, _, listed, awaits) => CompactKeepsConsistent(sys.store, hash, listed, awaits);
    case _ =>
  }

  /** In every state of every run each stored byte object has a row and hashes to its own key, so a read
    * yields nothing or bytes matching the digest. */
  lemma {:induction false} RunsKeepConsistent(hash: Hash, systems: seq<System>, calls: seq<Call>, i: nat, d: Digest)
    requires IsRun(hash, systems, calls) && i < |systems|
    ensures Consistent(systems[i].store, hash)
    ensures var reading := Read(systems[i].store, hash, d);
            reading == Absent || (reading.Found? && hash(reading.data) == d)
  {
    if i > 0 {
      RunsKeepConsistent(hash, systems, calls, i - 1, d);
      StepKeepsConsistent(hash, systems[i - 1], calls[i - 1]);
    }
    ConsistentReadsMatch(systems[i].store, hash, d);
  }

  // ---------------------------------------------------------------------------
  // Nothing is reclaimed out of turn
  // ---------------------------------------------------------------------------

  predicate SoftDeletes(sys: System, call: Call, d: Digest) {
    && call.SoftDeleteNext? && Enabled(sys, call)
    && sys.sweeps[call.id].candidates[sys.sweeps[call.id].next] == d
  }

  predicate ExpiresAt(s: State, d: Digest, expires: Instant) {
    d in s.rows && s.rows[d].expires == Some(expires)
  }

  /** A grace window's end is set by a soft delete and by nothing else. */
  lemma StampComesFrom(hash: Hash, sys: System, call: Call, d: Digest, expires: Instant)
    requires Enabled(sys, call) && ExpiresAt(Next(hash, sys, call).store, d, expires)
    ensures SoftDeletes(sys, call, d) ==> expires == call.at + sys.sweeps[call.id].grace
    ensures !SoftDeletes(sys, call, d) ==> ExpiresAt(sys.store, d, expires)
  {
    if call.CompactStore? {
      CompactionRows(sys.store, call.listed, call.awaits);
    }
  }

  /** The call that started a sweep, its candidates then all unreferenced. */
  predicate Starts(systems: seq<System>, calls: seq<Call>, l: nat, id: SweepId, candidates: seq<Digest>, grace: nat)
    requires |systems| == |calls| + 1
  {
    && l < |calls| && calls[l] == StartSweep(id, candidates, grace)
    && forall d | d in candidates :: d in Unreferenced(systems[l].store)
  }

  lemma {:induction false} SweepOrigin(hash: Hash, systems: seq<System>, calls: seq<Call>, i: nat, id: SweepId)
    returns (l: nat)
    requires IsRun(hash, systems, calls) && i < |systems| && id in systems[i].sweeps
    ensures l < i && Starts(systems, calls, l, id, systems[i].sweeps[id].candidates, systems[i].sweeps[id].grace)
  {
    if i > 0 && calls[i - 1].StartSweep? && calls[i - 1].id == id {
      l := i - 1;
    } else {
      l := SweepOrigin(hash, systems, calls, i - 1, id);
    }
  }

  /** Every standing soft delete goes back to the sweep call `j` that made it, the last one for that blob, and
    * further to the listing `l` of that sweep. */
  predicate Stamped(systems: seq<System>, calls: seq<Call>, i: nat, d: Digest, expires: Instant, j: nat, l: nat)
    requires |systems| == |calls| + 1 && i < |systems|
  {
    && l < j < i
    && SoftDeletes(systems[j], calls[j], d)
    && expires == calls[j].at + systems[j].sweeps[calls[j].id].grace
    && Starts(systems, calls, l, calls[j].id, systems[j].sweeps[calls[j].id].candidates,
              systems[j].sweeps[calls[j].id].grace)
    && (forall k | j < k <= i :: ExpiresAt(systems[k].store, d, expires))
    && (forall k | j < k < i :: !SoftDeletes(systems[k], calls[k], d))
  }

  lemma {:induction false} StampOrigin(hash: Hash, systems: seq<System>, calls: seq<Call>, i: nat, d: Digest,
                                       expires: Instant)
    returns (j: nat, l: nat)
    requires IsRun(hash, systems, calls) && i < |systems| && ExpiresAt(systems[i].store, d, expires)
    ensures Stamped(systems, calls, i, d, expires, j, l)
  {
    StampComesFrom(hash, systems[i - 1], calls[i - 1], d, expires);
    if SoftDeletes(systems[i - 1], calls[i - 1], d) {
      j := i - 1;
      l := SweepOrigin(hash, systems, calls, i - 1, calls[j].id);
    } else {
      j, l := StampOrigin(hash, systems, calls, i - 1, d, expires);
    }
  }

  /** Over every run, however calls interleave and wherever they are cut off: a reclaimed blob was listed
    * unreferenced by some sweep, was last soft-deleted by that sweep more than the grace window ago and has
    * stayed soft-deleted since, and is unreferenced when its row goes. */
  lemma ReclaimedInTurn(hash: Hash, systems: seq<System>, calls: seq<Call>, i: nat, d: Digest) returns (j: nat, l: nat)
    requires IsRun(hash, systems, calls) && i < |calls| && calls[i].CompactStore?
    requires d in Compacted(systems[i].store, calls[i].listed, calls[i].awaits).reclaimed
    ensures l < j < i && calls[j].SoftDeleteNext? && calls[l].StartSweep?
    ensures calls[l].id == calls[j].id && d in calls[l].candidates && d in Unreferenced(systems[l].store)
    ensures calls[j].at + calls[l].grace < calls[i].now
    ensures Stamped(systems, calls, i, d, calls[j].at + calls[l].grace, j, l)
    ensures !IsReferenced(systems[i].store, d)
  {
    var s := systems[i].store;
    CompactionPrefix(s, calls[i].listed, calls[i].awaits);
    assert d in calls[i].listed && d in Expired(s, calls[i].now);
    var expires := s.rows[d].expires.value;
    j, l := StampOrigin(hash, systems, calls, i, d, expires);
    var sweep := systems[j].sweeps[calls[j].id];
    assert sweep.candidates[sweep.next] in sweep.candidates;
  }

  lemma BytesLeaveOnlyExpired(hash: Hash, sys: System, call: Call, d: Digest)
    requires Enabled(sys, call) && d in sys.store.bytes && d !in Next(hash, sys, call).store.bytes
    ensures call.CompactStore? && d in Expired(sys.store, call.now)
  {
    if call.CompactStore? {
      if d !in Expired(sys.store, call.now) {
        CompactionSparesUnexpired(sys.store, call.now, call.listed, call.awaits, d);
      }
    }
  }

  /** Whatever bytes leave the byte store, reclaimed with their row or not, leave in a compaction, more than the
    * grace window after the last soft delete, by a sweep that had listed the blob unreferenced. */
  lemma BytesLeaveInTurn(hash: Hash, systems: seq<System>, calls: seq<Call>, i: nat, d: Digest) returns (j: nat, l: nat)
    requires IsRun(hash, systems, calls) && i < |calls|
    requires d in systems[i].store.bytes && d !in systems[i + 1].store.bytes
    ensures l < j < i && calls[i].CompactStore? && calls[j].SoftDeleteNext? && calls[l].StartSweep?
    ensures calls[l].id == calls[j].id && d in calls[l].candidates && d in Unreferenced(systems[l].store)
    ensures calls[j].at + calls[l].grace < calls[i].now
    ensures Stamped(systems, calls, i, d, calls[j].at + calls[l].grace, j, l)
  {
    BytesLeaveOnlyExpired(hash, systems[i], calls[i], d);
    var expires := systems[i].store.rows[d].expires.value;
    j, l := StampOrigin(hash, systems, calls, i, d, expires);
    var sweep := systems[j].sweeps[calls[j].id];
    assert sweep.candidates[sweep.next] in sweep.candidates;
  }

  // ---------------------------------------------------------------------------
  // Exactly when a referenced blob is safe
  // ---------------------------------------------------------------------------

  /** Whether a sweep has yet to soft-delete a blob it listed. */
  predicate StillHolds(sweep: SweepState, d: Digest) {
    exists i | sweep.next <= i < |sweep.candidates| :: sweep.candidates[i] == d
  }

  /** No soft delete stands against the blob and no sweep under way is about to make one. */
  predicate IsSafe(sys: System, d: Digest) {
    && d in sys.store.rows && sys.store.rows[d].expires.None?
    && forall id | id in sys.sweeps :: !StillHolds(sys.sweeps[id], d)
  }

  /** What every reachable state is. */
  predicate IsSound(hash: Hash, sys: System) {
    && Consistent(sys.store, hash)
    && forall id | id in sys.sweeps :: sys.sweeps[id].next <= |sys.sweeps[id].candidates|
  }

  lemma {:induction false} RunsStaySound(hash: Hash, systems: seq<System>, calls: seq<Call>, i: nat)
    requires IsRun(hash, systems, calls) && i < |systems|
    ensures IsSound(hash, systems[i])
  {
    if i > 0 {
      RunsStaySound(hash, systems, calls, i - 1);
      StepKeepsConsistent(hash, systems[i - 1], calls[i - 1]);
    }
  }

  /** A safe, referenced blob keeps its bytes and stays safe, whatever the call. */
  lemma StepKeepsSafe(hash: Hash, sys: System, call: Call, d: Digest)
    requires Enabled(sys, call) && IsSafe(sys, d) && IsReferenced(sys.store, d) && d in sys.store.bytes
    ensures IsSafe(Next(hash, sys, call), d) && d in Next(hash, sys, call).store.bytes
  {
    if call.CompactStore? {
      CompactionSparesUnexpired(sys.store, call.now, call.listed, call.awaits, d);
    }
    forall id | id in Next(hash, sys, call).sweeps ensures !StillHolds(Next(hash, sys, call).sweeps[id], d) {
      NoNewHold(hash, sys, call, d, id);
    }
  }

  /** No call adds a referenced blob to a sweep's remaining candidates. */
  lemma NoNewHold(hash: Hash, sys: System, call: Call, d: Digest, id: SweepId)
    requires Enabled(sys, call) && IsReferenced(sys.store, d) && id in Next(hash, sys, call).sweeps
    requires id in sys.sweeps ==> !StillHolds(sys.sweeps[id], d)
    ensures !StillHolds(Next(hash, sys, call).sweeps[id], d)
  {
    var sweep := Next(hash, sys, call).sweeps[id];
    forall i | sweep.next <= i < |sweep.candidates| ensures sweep.candidates[i] != d {
      assert sweep.candidates[i] in sweep.candidates;
    }
  }

  /** The blob is referenced in every state of the path. */
  predicate StaysReferenced(systems: seq<System>, d: Digest) {
    forall i | 0 <= i < |systems| :: IsReferenced(systems[i].store, d)
  }

  lemma {:induction false} SafeAlong(hash: Hash, systems: seq<System>, calls: seq<Call>, d: Digest, i: nat)
    requires IsPath(hash, systems, calls) && StaysReferenced(systems, d) && i < |systems|
    requires IsSafe(systems[0], d) && d in systems[0].store.bytes
    ensures IsSafe(systems[i], d) && d in systems[i].store.bytes
  {
    if i > 0 {
      SafeAlong(hash, systems, calls, d, i - 1);
      StepKeepsSafe(hash, systems[i - 1], calls[i - 1], d);
    }
  }

  /** A path that begins with one more call. */
  lemma Precede(hash: Hash, sys: System, call: Call, systems: seq<System>, calls: seq<Call>)
    requires IsPath(hash, systems, calls) && Enabled(sys, call) && systems[0] == Next(hash, sys, call)
    ensures IsPath(hash, [sys] + systems, [call] + calls)
  {
    var all, made := [sys] + systems, [call] + calls;
    forall i | 0 <= i < |made| ensures Enabled(all[i], made[i]) && all[i + 1] == Next(hash, all[i], made[i]) {
      if i > 0 {
        assert all[i] == systems[i - 1] && made[i] == calls[i - 1] && all[i + 1] == systems[i];
      }
    }
  }

  /** Whether a soft delete stands against the blob, or the given sweep is about to make one. */
  predicate IsDoomedBy(sys: System, id: SweepId, d: Digest) {
    && d in sys.store.rows
    && (sys.store.rows[d].expires.Some? || (id in sys.sweeps && StillHolds(sys.sweeps[id], d)))
  }

  /** The same references and bytes. */
  predicate SameHeld(a: State, b: State) {
    a.refs == b.refs && a.bytes == b.bytes
  }

  lemma MarkKeepsDoom(hash: Hash, sys: System, call: Call, id: SweepId, d: Digest)
    requires Enabled(sys, call) && (call == MarkNext(id) || (call.SoftDeleteNext? && call.id == id))
    requires IsDoomedBy(sys, id, d)
    ensures IsDoomedBy(Next(hash, sys, call), id, d)
  {
    if call.SoftDeleteNext? && sys.store.rows[d].expires.None? && sys.sweeps[id].candidates[sys.sweeps[id].next] != d {
      var i :| sys.sweeps[id].next <= i < |sys.sweeps[id].candidates| && sys.sweeps[id].candidates[i] == d;
      assert Next(hash, sys, call).sweeps[id].candidates[i] == d;
    }
  }

  /** Left alone, a sweep gets to the end of its candidates, touching neither references nor bytes. */
  lemma FinishSweep(hash: Hash, sys: System, id: SweepId, d: Digest) returns (systems: seq<System>, calls: seq<Call>)
    requires id in sys.sweeps && sys.sweeps[id].next <= |sys.sweeps[id].candidates| && IsDoomedBy(sys, id, d)
    ensures IsPath(hash, systems, calls) && systems[0] == sys
    ensures forall i | 0 <= i < |systems| :: SameHeld(systems[i].store, sys.store)
    ensures var last := systems[|calls|];
            && id in last.sweeps && last.sweeps[id].next == |last.sweeps[id].candidates|
            && d in last.store.rows && last.store.rows[d].expires.Some?
    decreases |sys.sweeps[id].candidates| - sys.sweeps[id].next, !sys.sweeps[id].marked
  {
    var sweep := sys.sweeps[id];
    if sweep.next == |sweep.candidates| {
      systems, calls := [sys], [];
    } else {
      var call := if sweep.marked then SoftDeleteNext(id, 0) else MarkNext(id);
      MarkKeepsDoom(hash, sys, call, id, d);
      systems, calls := FinishSweep(hash, Next(hash, sys, call), id, d);
      Precede(hash, sys, call, systems, calls);
      systems, calls := [sys] + systems, [call] + calls;
    }
  }

  lemma FreshSweep(sweeps: map<SweepId, SweepState>) returns (id: SweepId)
    ensures id !in sweeps
  {
    id := Above(sweeps.Keys);
  }

  /** From any state in which a soft delete stands or is under way, finishing that sweep and compacting, the
    * blob listed first, takes the bytes of a blob that is referenced all along. */
  lemma LossFrom(hash: Hash, sys: System, id: SweepId, d: Digest) returns (systems: seq<System>, calls: seq<Call>)
    requires IsReferenced(sys.store, d) && d in sys.store.bytes
    requires id in sys.sweeps && sys.sweeps[id].next <= |sys.sweeps[id].candidates| && IsDoomedBy(sys, id, d)
    ensures IsPath(hash, systems, calls) && systems[0] == sys && StaysReferenced(systems, d)
    ensures d !in systems[|calls|].store.bytes
  {
    systems, calls := FinishSweep(hash, sys, id, d);
    var last := systems[|calls|];
    var now := last.store.rows[d].expires.value + 1;
    var listed := ListingFrom(Expired(last.store, now), d);
    var call := CompactStore(id, now, listed, 1);
    var lost := Next(hash, last, call);
    forall i | 0 <= i < |systems| ensures IsReferenced(systems[i].store, d) {
      assert SameHeld(systems[i].store, sys.store);
    }
    assert lost.store.refs == sys.store.refs && IsReferenced(lost.store, d);
    Extend(hash, systems, calls, call, lost);
    systems, calls := systems + [lost], calls + [call];
  }

  lemma UnsafeCanLose(hash: Hash, sys: System, d: Digest) returns (systems: seq<System>, calls: seq<Call>)
    requires IsSound(hash, sys) && IsReferenced(sys.store, d) && d in sys.store.bytes && !IsSafe(sys, d)
    ensures IsPath(hash, systems, calls) && systems[0] == sys && StaysReferenced(systems, d)
    ensures d !in systems[|calls|].store.bytes
  {
    if sys.store.rows[d].expires.Some? {
      var id := FreshSweep(sys.sweeps);
      var candidates := SomeListing(Unreferenced(sys.store));
      var call := StartSweep(id, candidates, 0);
      systems, calls := LossFrom(hash, Next(hash, sys, call), id, d);
      Precede(hash, sys, call, systems, calls);
      systems, calls := [sys] + systems, [call] + calls;
    } else {
      var id :| id in sys.sweeps && StillHolds(sys.sweeps[id], d);
      systems, calls := LossFrom(hash, sys, id, d);
    }
  }

  /** Whether a blob keeps its bytes in every future in which it stays referenced. */
  ghost predicate KeepsBytes(hash: Hash, sys: System, d: Digest) {
    forall systems: seq<System>, calls: seq<Call> | IsPath(hash, systems, calls) && systems[0] == sys
      && StaysReferenced(systems, d) ::
      d in systems[|calls|].store.bytes
  }

  /** A referenced blob keeps its bytes as long as it stays referenced, whatever is called, if and only if its
    * row is not soft-deleted and no sweep under way has it left among its candidates. */
  lemma ReferencedIsSafeExactly(hash: Hash, systems: seq<System>, calls: seq<Call>, i: nat, d: Digest)
    requires IsRun(hash, systems, calls) && i < |systems|
    requires IsReferenced(systems[i].store, d) && d in systems[i].store.bytes
    ensures KeepsBytes(hash, systems[i], d) <==> IsSafe(systems[i], d)
  {
    var sys := systems[i];
    RunsStaySound(hash, systems, calls, i);
    if IsSafe(sys, d) {
      forall others: seq<System>, made: seq<Call> | IsPath(hash, others, made) && others[0] == sys
        && StaysReferenced(others, d)
        ensures d in others[|made|].store.bytes
      {
        SafeAlong(hash, others, made, d, |made|);
      }
    } else {
      var others, made := UnsafeCanLose(hash, sys, d);
    }
  }

  // ---------------------------------------------------------------------------
  // What is lost all the same
  // ---------------------------------------------------------------------------

  /** A row without its bytes. */
  predicate IsStranded(s: State, d: Digest) {
    d in s.rows && d !in s.bytes
  }

  /** The two ways a row comes to be without bytes: a publish of a new blob stopped between its writes, and a
    * compaction that comes to the blob, everything listed before it being unreferenced, and is stopped there,
    * by a cut or by a reference, between deleting the bytes and the row. */
  lemma StrandingCalls(hash: Hash, sys: System, call: Call, d: Digest)
    requires Enabled(sys, call) && Consistent(sys.store, hash)
    ensures !IsStranded(sys.store, d) && IsStranded(Next(hash, sys, call).store, d)
            <==> || (call.PublishBlob? && call.digest == d && hash(call.data) == d
                     && d !in sys.store.rows && call.awaits == 1)
                 || (call.CompactStore? && d in sys.store.bytes
                     && exists k: nat :: StopsAt(sys.store, call.listed, call.awaits, k) && call.listed[k] == d)
  {
    if call.CompactStore? {
      CompactionRows(sys.store, call.listed, call.awaits);
      CompactionBytes(sys.store, call.listed, call.awaits);
      StrippedOnlyAt(sys.store, call.listed, call.awaits, d);
    }
  }

  /** A row without bytes stays so until a compaction removes the row: publishing again does not help. */
  lemma StrandedStays(hash: Hash, sys: System, call: Call, d: Digest)
    requires Enabled(sys, call) && d in sys.store.rows && d !in sys.store.bytes
    ensures var after := Next(hash, sys, call).store;
            && d !in after.bytes
            && (d in after.rows
                || (call.CompactStore? && d in Compacted(sys.store, call.listed, call.awaits).reclaimed))
  {
    if call.CompactStore? {
      CompactionRows(sys.store, call.listed, call.awaits);
      CompactionBytes(sys.store, call.listed, call.awaits);
    }
  }

  /** A path, and so a run, goes on by any enabled call. */
  lemma Extend(hash: Hash, systems: seq<System>, calls: seq<Call>, call: Call, next: System)
    requires IsPath(hash, systems, calls) && Enabled(systems[|calls|], call)
             && Next(hash, systems[|calls|], call) == next
    ensures IsPath(hash, systems + [next], calls + [call])
    ensures IsRun(hash, systems, calls) ==> IsRun(hash, systems + [next], calls + [call])
  {
  }

  lemma PublishedRun(hash: Hash, d: Digest, data: Bytes, info: BlobInfo, store: State)
    returns (systems: seq<System>, calls: seq<Call>)
    requires hash(data) == d && store == State(map[d := Row(info, false, None)], map[d := data], {})
    ensures IsRun(hash, systems, calls) && calls == [PublishBlob(d, info, data, 3)]
            && systems[1] == System(store, map[])
  {
    systems, calls := [START], [];
    Extend(hash, systems, calls, PublishBlob(d, info, data, 3), System(store, map[]));
    systems, calls := systems + [System(store, map[])], calls + [PublishBlob(d, info, data, 3)];
  }

  /** Sweeping the one blob of a store, without compacting. */
  lemma SweptRun(hash: Hash, d: Digest, row: Row, before: seq<System>, done: seq<Call>, store: State)
    returns (systems: seq<System>, calls: seq<Call>)
    requires IsRun(hash, before, done) && before[|done|] == System(store, map[])
    requires store.rows == map[d := row] && row == Row(row.info, false, None) && store.refs == {}
    ensures IsRun(hash, systems, calls)
    ensures systems[|calls|] == System(store.(rows := map[d := Row(row.info, true, Some(0))]), map[])
  {
    var marked := store.(rows := map[d := Row(row.info, true, None)]);
    var deleted := store.(rows := map[d := Row(row.info, true, Some(0))]);
    var sweep := SweepState([d], 0, false, 0);
    systems, calls := before, done;
    assert Unreferenced(store) == {d};
    Extend(hash, systems, calls, StartSweep(0, [d], 0), System(store, map[0 := sweep]));
    systems, calls := systems + [System(store, map[0 := sweep])], calls + [StartSweep(0, [d], 0)];
    Extend(hash, systems, calls, MarkNext(0), System(marked, map[0 := sweep.(marked := true)]));
    systems, calls := systems + [System(marked, map[0 := sweep.(marked := true)])], calls + [MarkNext(0)];
    Extend(hash, systems, calls, SoftDeleteNext(0, 0), System(deleted, map[0 := sweep.(next := 1)]));
    systems, calls := systems + [System(deleted, map[0 := sweep.(next := 1)])], calls + [SoftDeleteNext(0, 0)];
    Extend(hash, systems, calls, EndSweep(0), System(deleted, map[]));
    systems, calls := systems + [System(deleted, map[])], calls + [EndSweep(0)];
  }

  /** One way to lose a referenced blob: it is published again, with success, and referenced within its grace
    * window. Nothing on that path lifts the soft delete, and the next sweep's compaction deletes the bytes before
    * the database refuses to delete the row. */
  lemma RepublishedBlobIsLost(hash: Hash, d: Digest, data: Bytes, info: BlobInfo, asset: AssetId)
    returns (systems: seq<System>, calls: seq<Call>, published: nat)
    requires hash(data) == d
    ensures IsRun(hash, systems, calls) && published + 4 == |calls|
    ensures calls[published..] == [PublishBlob(d, info, data, 2), Refer(asset, d), StartSweep(1, [], 0),
                                   CompactStore(1, 1, [d], 2)]
    ensures Publish(systems[published].store, hash, d, info, data, 2).1.Done?
    ensures var last := systems[|calls|].store;
            IsReferenced(last, d) && d in last.rows && Read(last, hash, d) == Absent
  {
    var row := Row(info, false, None);
    systems, calls := PublishedRun(hash, d, data, info, State(map[d := row], map[d := data], {}));
    systems, calls := SweptRun(hash, d, row, systems, calls, State(map[d := row], map[d := data], {}));
    published := |calls|;
    var deleted := systems[published].store;
    var referenced := deleted.(refs := {(asset, d)});
    var lost := referenced.(bytes := map[]);
    assert (asset, d) in referenced.refs && (asset, d) in lost.refs;
    var more := [PublishBlob(d, info, data, 2), Refer(asset, d), StartSweep(1, [], 0), CompactStore(1, 1, [d], 2)];
    var sweeping := map[1 := SweepState([], 0, false, 0)];
    Extend(hash, systems, calls, more[0], System(deleted, map[]));
    systems, calls := systems + [System(deleted, map[])], calls + [more[0]];
    Extend(hash, systems, calls, more[1], System(referenced, map[]));
    systems, calls := systems + [System(referenced, map[])], calls + [more[1]];
    assert Unreferenced(referenced) == {};
    Extend(hash, systems, calls, more[2], System(referenced, sweeping));
    systems, calls := systems + [System(referenced, sweeping)], calls + [more[2]];
    assert Expired(referenced, 1) == {d};
    assert DeleteBytes(referenced, d) == lost;
    Extend(hash, systems, calls, more[3], System(lost, sweeping));
    systems, calls := systems + [System(lost, sweeping)], calls + [more[3]];
  }

  /** A blob listed by a sweep and referenced before the sweep came to it. */
  lemma StaleRun(hash: Hash, d: Digest, data: Bytes, info: BlobInfo, asset: AssetId, referenced: State,
                 sweep: SweepState)
    returns (systems: seq<System>, calls: seq<Call>)
    requires hash(data) == d && sweep == SweepState([d], 0, false, 0)
    requires referenced == State(map[d := Row(info, false, None)], map[d := data], {(asset, d)})
    ensures IsRun(hash, systems, calls)
    ensures calls == [PublishBlob(d, info, data, 3), StartSweep(0, [d], 0), Refer(asset, d), MarkNext(0)]
    ensures systems[3] == System(referenced, map[0 := sweep])
    ensures systems[4] == System(referenced.(rows := map[d := Row(info, true, None)]), map[0 := sweep.(marked := true)])
  {
    var stored := referenced.(refs := {});
    systems, calls := PublishedRun(hash, d, data, info, stored);
    assert Unreferenced(stored) == {d};
    Extend(hash, systems, calls, StartSweep(0, [d], 0), System(stored, map[0 := sweep]));
    systems, calls := systems + [System(stored, map[0 := sweep])], calls + [StartSweep(0, [d], 0)];
    Extend(hash, systems, calls, Refer(asset, d), System(referenced, map[0 := sweep]));
    systems, calls := systems + [System(referenced, map[0 := sweep])], calls + [Refer(asset, d)];
    var marked := System(referenced.(rows := map[d := Row(info, true, None)]), map[0 := sweep.(marked := true)]);
    Extend(hash, systems, calls, MarkNext(0), marked);
    systems, calls := systems + [marked], calls + [MarkNext(0)];
  }

  /** The other way: published once, and referenced, with no soft delete on its row, after a sweep listed it
    * and before that sweep came to it. The sweep goes by its list and does not look at references again. */
  lemma StaleCandidateIsLost(hash: Hash, d: Digest, data: Bytes, info: BlobInfo, asset: AssetId)
    returns (systems: seq<System>, calls: seq<Call>)
    requires hash(data) == d
    ensures IsRun(hash, systems, calls)
    ensures calls == [PublishBlob(d, info, data, 3), StartSweep(0, [d], 0), Refer(asset, d), MarkNext(0)]
                     + [SoftDeleteNext(0, 0), CompactStore(0, 1, [d], 2)]
    ensures systems[3].store.rows == map[d := Row(info, false, None)] && IsReferenced(systems[3].store, d)
    ensures var last := systems[|calls|].store;
            IsReferenced(last, d) && d in last.rows && Read(last, hash, d) == Absent
  {
    var sweep := SweepState([d], 0, false, 0);
    var referenced := State(map[d := Row(info, false, None)], map[d := data], {(asset, d)});
    var deleted := referenced.(rows := map[d := Row(info, true, Some(0))]);
    var lost := deleted.(bytes := map[]);
    assert (asset, d) in referenced.refs && (asset, d) in deleted.refs && (asset, d) in lost.refs;
    systems, calls := StaleRun(hash, d, data, info, asset, referenced, sweep);
    Extend(hash, systems, calls, SoftDeleteNext(0, 0), System(deleted, map[0 := sweep.(next := 1)]));
    systems, calls := systems + [System(deleted, map[0 := sweep.(next := 1)])], calls + [SoftDeleteNext(0, 0)];
    assert Expired(deleted, 1) == {d};
    assert DeleteBytes(deleted, d) == lost;
    Extend(hash, systems, calls, CompactStore(0, 1, [d], 2), System(lost, map[0 := sweep.(next := 1)]));
    systems, calls := systems + [System(lost, map[0 := sweep.(next := 1)])], calls + [CompactStore(0, 1, [d], 2)];
  }
}
