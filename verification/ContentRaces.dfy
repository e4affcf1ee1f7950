/** The store with the awaits of concurrent calls interleaved: publishes, sweeps and compactions in any number,
  * each of which may be given up at any await. */
module ContentRaces {
  import opened Wrappers
  import opened ContentModel

  type JobId = nat

  /** What a call under way has still to do: put the bytes of a new row, mark and soft-delete its candidates, or
    * delete what it listed, of one blob perhaps only the row. */
  datatype Job =
    | Putting(digest: Digest, data: Bytes)
    | Sweeping(candidates: seq<Digest>, marked: bool)
    | Compacting(listed: seq<Digest>, stripped: Option<Digest>)

  datatype World = World(store: State, jobs: map<JobId, Job>)

  /** One query or one storage call. */
  datatype Step =
    | InsertBlob(id: JobId, digest: Digest, info: BlobInfo, data: Bytes)
    | PutBlob(id: JobId)
    | Refer(asset: AssetId, digest: Digest)
    | Unrefer(asset: AssetId, digest: Digest)
    | DropAssetRows(assets: set<AssetId>)
    | UndeleteRow(digest: Digest)
    | ListCandidates(id: JobId, candidates: seq<Digest>)
    | MarkCandidate(id: JobId)
    | SoftDeleteCandidate(id: JobId, expires: Instant)
    | ListExpired(id: JobId, now: Instant, listed: seq<Digest>)
    | DeleteListedBytes(id: JobId)
    | DeleteListedRow(id: JobId)
    | Abandon(id: JobId)

  predicate Enabled(hash: Hash, w: World, step: Step) {
    match step
    case InsertBlob(id, d, _, data) => id !in w.jobs && hash(data) == d
    case PutBlob(id) => id in w.jobs && w.jobs[id].Putting?
    case ListCandidates(id, candidates) => id !in w.jobs && IsListing(candidates, Unreferenced(w.store))
    case MarkCandidate(id) => id in w.jobs && IsAtCandidate(w.jobs[id], false)
    case SoftDeleteCandidate(id, _) => id in w.jobs && IsAtCandidate(w.jobs[id], true)
    case ListExpired(id, now, listed) => id !in w.jobs && IsListing(listed, Expired(w.store, now))
    case DeleteListedBytes(id) => id in w.jobs && IsAtListed(w.jobs[id])
    case DeleteListedRow(id) => id in w.jobs && w.jobs[id].Compacting? && w.jobs[id].stripped.Some?
    case Abandon(id) => id in w.jobs
    case _ => true
  }

  predicate IsAtCandidate(job: Job, marked: bool) {
    job.Sweeping? && job.candidates != [] && job.marked == marked
  }

  predicate IsAtListed(job: Job) {
    job.Compacting? && job.listed != [] && job.stripped.None?
  }

  function Next(hash: Hash, w: World, step: Step): World
    requires Enabled(hash, w, step)
  {
    var s := w.store;
    match step
    case InsertBlob(id, d, info, data) =>
      World(InsertRow(s, d, info), if d in s.rows then w.jobs else w.jobs[id := Putting(d, data)])
    case PutBlob(id) => World(PutBytes(s, w.jobs[id].digest, w.jobs[id].data), w.jobs - {id})
    case Refer(asset, d) => w.(store := AddReference(s, asset, d))
    case Unrefer(asset, d) => w.(store := RemoveReference(s, asset, d))
    case DropAssetRows(assets) => w.(store := DropAssets(s, assets))
    case UndeleteRow(d) => w.(store := Undelete(s, d))
    case ListCandidates(id, candidates) => w.(jobs := w.jobs[id := Sweeping(candidates, false)])
    case MarkCandidate(id) =>
      var candidates := w.jobs[id].candidates;
      World(MarkUnreferenced(s, candidates[0]), w.jobs[id := Sweeping(candidates, true)])
    case SoftDeleteCandidate(id, expires) =>
      var candidates := w.jobs[id].candidates;
      World(SoftDelete(s, candidates[0], expires), w.jobs[id := Sweeping(candidates[1..], false)])
    case ListExpired(id, _, listed) => w.(jobs := w.jobs[id := Compacting(listed, None)])
    case DeleteListedBytes(id) =>
      var listed := w.jobs[id].listed;
      World(DeleteBytes(s, listed[0]), w.jobs[id := Compacting(listed[1..], Some(listed[0]))])
    case DeleteListedRow(id) =>
      var d := w.jobs[id].stripped.value;
      if IsReferenced(s, d) then w.(jobs := w.jobs - {id})
      else World(DeleteRow(s, d), w.jobs[id := Compacting(w.jobs[id].listed, None)])
    case Abandon(id) => w.(jobs := w.jobs - {id})
  }

  const START := World(EMPTY, map[])

  /** Whether the steps can be taken one after the other. */
  predicate Legal(hash: Hash, w: World, steps: seq<Step>)
    decreases |steps|
  {
    steps == [] || (Enabled(hash, w, steps[0]) && Legal(hash, Next(hash, w, steps[0]), steps[1..]))
  }

  function After(hash: Hash, w: World, steps: seq<Step>): World
    requires Legal(hash, w, steps)
    decreases |steps|
  {
    if steps == [] then w else After(hash, Next(hash, w, steps[0]), steps[1..])
  }

  // ---------------------------------------------------------------------------
  // What every interleaving keeps
  // ---------------------------------------------------------------------------

  predicate IsSoundJob(hash: Hash, job: Job) {
    match job
    case Putting(d, data) => hash(data) == d
    case Sweeping(_, _) => true
    case Compacting(listed, stripped) => NoRepeats(listed) && (stripped.Some? ==> stripped.value !in listed)
  }

  /** Bytes hash to their key, stored or still to be put, and references have rows. Bytes need have no row. */
  predicate IsSound(hash: Hash, w: World) {
    && (forall d | d in w.store.bytes :: hash(w.store.bytes[d]) == d)
    && (forall r | r in w.store.refs :: r.1 in w.store.rows)
    && (forall id | id in w.jobs :: IsSoundJob(hash, w.jobs[id]))
  }

  lemma StepKeepsReferences(hash: Hash, w: World, step: Step)
    requires Enabled(hash, w, step) && IsSound(hash, w)
    ensures forall r | r in Next(hash, w, step).store.refs :: r.1 in Next(hash, w, step).store.rows
  {
  }

  lemma StepKeepsJobs(hash: Hash, w: World, step: Step)
    requires Enabled(hash, w, step) && IsSound(hash, w)
    ensures forall id | id in Next(hash, w, step).jobs :: IsSoundJob(hash, Next(hash, w, step).jobs[id])
  {
  }

  lemma StepKeepsSound(hash: Hash, w: World, step: Step)
    requires Enabled(hash, w, step) && IsSound(hash, w)
    ensures IsSound(hash, Next(hash, w, step))
  {
    StepKeepsReferences(hash, w, step);
    StepKeepsJobs(hash, w, step);
  }

  lemma {:induction false} RunsStaySound(hash: Hash, w: World, steps: seq<Step>)
    requires Legal(hash, w, steps) && IsSound(hash, w)
    ensures IsSound(hash, After(hash, w, steps))
    decreases |steps|
  {
    if steps != [] {
      StepKeepsSound(hash, w, steps[0]);
      RunsStaySound(hash, Next(hash, w, steps[0]), steps[1..]);
    }
  }

  /** However awaits interleave, a read yields nothing or bytes that match the digest, and every reference points
    * at a row. */
  lemma RacesNeverCorrupt(hash: Hash, steps: seq<Step>, d: Digest)
    requires Legal(hash, START, steps)
    ensures var s := After(hash, START, steps).store;
            && (Read(s, hash, d) == Absent || (Read(s, hash, d).Found? && hash(Read(s, hash, d).data) == d))
            && (IsReferenced(s, d) ==> d in s.rows)
  {
    RunsStaySound(hash, START, steps);
  }

  // ---------------------------------------------------------------------------
  // Exactly when a referenced blob is safe
  // ---------------------------------------------------------------------------

  /** Whether a call under way is still to soft-delete the blob or to delete its bytes. */
  predicate Threatens(job: Job, d: Digest) {
    match job
    case Putting(_, _) => false
    case Sweeping(candidates, _) => d in candidates
    case Compacting(listed, _) => d in listed
  }

  predicate IsSafe(w: World, d: Digest) {
    && d in w.store.rows && w.store.rows[d].expires.None?
    && forall id | id in w.jobs :: !Threatens(w.jobs[id], d)
  }

  /** The steps can be taken, leave the blob referenced throughout, and in the end its bytes are gone. */
  predicate Loses(hash: Hash, w: World, steps: seq<Step>, d: Digest)
    decreases |steps|
  {
    && IsReferenced(w.store, d)
    && if steps == [] then d !in w.store.bytes
       else Enabled(hash, w, steps[0]) && Loses(hash, Next(hash, w, steps[0]), steps[1..], d)
  }

  lemma StepKeepsSafe(hash: Hash, w: World, step: Step, d: Digest)
    requires Enabled(hash, w, step) && IsSafe(w, d) && IsReferenced(w.store, d) && d in w.store.bytes
    ensures IsSafe(Next(hash, w, step), d) && d in Next(hash, w, step).store.bytes
  {
  }

  lemma {:induction false} SafeNeverLoses(hash: Hash, w: World, steps: seq<Step>, d: Digest)
    requires IsSafe(w, d) && d in w.store.bytes
    ensures !Loses(hash, w, steps, d)
    decreases |steps|
  {
    if steps != [] && IsReferenced(w.store, d) && Enabled(hash, w, steps[0]) {
      StepKeepsSafe(hash, w, steps[0], d);
      SafeNeverLoses(hash, Next(hash, w, steps[0]), steps[1..], d);
    }
  }

  lemma LosesLater(hash: Hash, w: World, step: Step, steps: seq<Step>, d: Digest)
    requires IsReferenced(w.store, d) && Enabled(hash, w, step) && Loses(hash, Next(hash, w, step), steps, d)
    ensures Loses(hash, w, [step] + steps, d)
  {
    assert ([step] + steps)[1..] == steps;
  }

  /** The next step of a call under way brings it nearer to a blob it threatens, or is the loss. */
  lemma CompactionLoses(hash: Hash, w: World, id: JobId, d: Digest) returns (steps: seq<Step>)
    requires IsSound(hash, w) && IsReferenced(w.store, d)
    requires id in w.jobs && w.jobs[id].Compacting? && d in w.jobs[id].listed
    ensures Loses(hash, w, steps, d)
    decreases |w.jobs[id].listed|, w.jobs[id].stripped.Some?, |w.store.refs|
  {
    var job, step := w.jobs[id], DeleteListedBytes(id);
    if job.stripped.Some? && IsReferenced(w.store, job.stripped.value) {
      var r :| r in w.store.refs && r.1 == job.stripped.value;
      step := Unrefer(r.0, r.1);
      assert RemoveReference(w.store, r.0, r.1).refs < w.store.refs;
      StillReferenced(w.store, r.0, r.1, d);
    } else if job.stripped.Some? {
      step := DeleteListedRow(id);
    }
    StepKeepsSound(hash, w, step);
    var next := Next(hash, w, step);
    if step.DeleteListedBytes? && job.listed[0] == d {
      steps := [];
    } else {
      steps := CompactionLoses(hash, next, id, d);
    }
    LosesLater(hash, w, step, steps, d);
    steps := [step] + steps;
  }

  lemma StillReferenced(s: State, asset: AssetId, e: Digest, d: Digest)
    requires IsReferenced(s, d) && e != d
    ensures IsReferenced(RemoveReference(s, asset, e), d)
  {
    var r :| r in s.refs && r.1 == d;
    assert r in RemoveReference(s, asset, e).refs;
  }

  /** A soft delete that stands is enough: a compaction may come to list the blob. */
  lemma SoftDeletedLoses(hash: Hash, w: World, d: Digest) returns (steps: seq<Step>)
    requires IsSound(hash, w) && IsReferenced(w.store, d) && w.store.rows[d].expires.Some?
    ensures Loses(hash, w, steps, d)
  {
    var now := w.store.rows[d].expires.value + 1;
    var id := Above(w.jobs.Keys);
    var listed := SomeListing(Expired(w.store, now));
    var step := ListExpired(id, now, listed);
    StepKeepsSound(hash, w, step);
    steps := CompactionLoses(hash, Next(hash, w, step), id, d);
    LosesLater(hash, w, step, steps, d);
    steps := [step] + steps;
  }

  /** So is a sweep that has the blob left among its candidates. */
  lemma SweepLoses(hash: Hash, w: World, id: JobId, d: Digest) returns (steps: seq<Step>)
    requires IsSound(hash, w) && IsReferenced(w.store, d)
    requires id in w.jobs && w.jobs[id].Sweeping? && d in w.jobs[id].candidates
    ensures Loses(hash, w, steps, d)
    decreases |w.jobs[id].candidates|, !w.jobs[id].marked
  {
    var job := w.jobs[id];
    var step := if job.marked then SoftDeleteCandidate(id, 0) else MarkCandidate(id);
    StepKeepsSound(hash, w, step);
    var next := Next(hash, w, step);
    if job.marked && job.candidates[0] == d {
      steps := SoftDeletedLoses(hash, next, d);
    } else {
      steps := SweepLoses(hash, next, id, d);
    }
    LosesLater(hash, w, step, steps, d);
    steps := [step] + steps;
  }

  lemma UnsafeLoses(hash: Hash, w: World, d: Digest) returns (steps: seq<Step>)
    requires IsSound(hash, w) && IsReferenced(w.store, d) && !IsSafe(w, d)
    ensures Loses(hash, w, steps, d)
  {
    if w.store.rows[d].expires.Some? {
      steps := SoftDeletedLoses(hash, w, d);
    } else {
      var id :| id in w.jobs && Threatens(w.jobs[id], d);
      if w.jobs[id].Sweeping? {
        steps := SweepLoses(hash, w, id, d);
      } else {
        steps := CompactionLoses(hash, w, id, d);
      }
    }
  }

  /** Whether the blob keeps its bytes in every future in which it stays referenced. */
  ghost predicate KeepsBytes(hash: Hash, w: World, d: Digest) {
    forall steps: seq<Step> :: !Loses(hash, w, steps, d)
  }

  /** After any steps: a referenced blob keeps its bytes as long as it stays referenced, whatever is interleaved, if
    * and only if its row is not soft-deleted, no sweep has it left among its candidates, and no compaction has it
    * left among the blobs it listed. */
  lemma SafeUnderRacesExactly(hash: Hash, steps: seq<Step>, d: Digest)
    requires Legal(hash, START, steps)
    requires var s := After(hash, START, steps).store; IsReferenced(s, d) && d in s.bytes
    ensures var w := After(hash, START, steps); KeepsBytes(hash, w, d) <==> IsSafe(w, d)
  {
    var w := After(hash, START, steps);
    RunsStaySound(hash, START, steps);
    if IsSafe(w, d) {
      forall more: seq<Step> ensures !Loses(hash, w, more, d) {
        SafeNeverLoses(hash, w, more, d);
      }
    } else {
      var more := UnsafeLoses(hash, w, d);
      assert Loses(hash, w, more, d);
    }
  }

  // ---------------------------------------------------------------------------
  // Bytes without a row
  // ---------------------------------------------------------------------------

  predicate IsOrphan(s: State, d: Digest) {
    d in s.bytes && d !in s.rows
  }

  /** Bytes come to be without a row in two ways: a publish puts them after the row it inserted is gone, or a
    * compaction deletes the row of bytes put after it had deleted them. */
  lemma OrphaningSteps(hash: Hash, w: World, step: Step, d: Digest)
    requires Enabled(hash, w, step)
    ensures !IsOrphan(w.store, d) && IsOrphan(Next(hash, w, step).store, d)
            <==> || (step.PutBlob? && w.jobs[step.id].digest == d && d !in w.store.rows && d !in w.store.bytes)
                 || (step.DeleteListedRow? && w.jobs[step.id].stripped == Some(d)
                     && d in w.store.rows && d in w.store.bytes && !IsReferenced(w.store, d))
  {
  }

  /** Only two kinds of step end that: a publish of the blob, which adopts the bytes, and a compaction that had
    * listed the blob before. */
  lemma OrphanEnds(hash: Hash, w: World, step: Step, d: Digest)
    requires Enabled(hash, w, step) && IsOrphan(w.store, d)
    ensures !IsOrphan(Next(hash, w, step).store, d)
            <==> || (step.InsertBlob? && step.digest == d)
                 || (step.DeleteListedBytes? && w.jobs[step.id].listed[0] == d)
  {
  }

  /** Sweeps and compactions list rows, so no later one finds the bytes: unless a call under way threatens them
    * already, they stay for as long as the blob is not published again. */
  lemma {:induction false} OrphanStays(hash: Hash, w: World, steps: seq<Step>, d: Digest)
    requires Legal(hash, w, steps) && IsOrphan(w.store, d)
    requires forall id | id in w.jobs :: !Threatens(w.jobs[id], d)
    requires forall i | 0 <= i < |steps| :: !(steps[i].InsertBlob? && steps[i].digest == d)
    ensures IsOrphan(After(hash, w, steps).store, d)
    decreases |steps|
  {
    if steps != [] {
      OrphanEnds(hash, w, steps[0], d);
      var next := Next(hash, w, steps[0]);
      forall id | id in next.jobs ensures !Threatens(next.jobs[id], d) {
        NoNewThreat(hash, w, steps[0], d, id);
      }
      OrphanStays(hash, next, steps[1..], d);
    }
  }

  /** Only blobs with a row come to be threatened. */
  lemma NoNewThreat(hash: Hash, w: World, step: Step, d: Digest, id: JobId)
    requires Enabled(hash, w, step) && d !in w.store.rows && id in Next(hash, w, step).jobs
    requires id in w.jobs ==> !Threatens(w.jobs[id], d)
    ensures !Threatens(Next(hash, w, step).jobs[id], d)
  {
  }

  // ---------------------------------------------------------------------------
  // Runs
  // ---------------------------------------------------------------------------

  lemma {:induction false} LegalThen(hash: Hash, w: World, steps: seq<Step>, step: Step)
    requires Legal(hash, w, steps) && Enabled(hash, After(hash, w, steps), step)
    ensures Legal(hash, w, steps + [step])
    ensures After(hash, w, steps + [step]) == Next(hash, After(hash, w, steps), step)
    decreases |steps|
  {
    if steps == [] {
      assert steps + [step] == [step] && [step][1..] == [];
    } else {
      assert (steps + [step])[1..] == steps[1..] + [step];
      LegalThen(hash, Next(hash, w, steps[0]), steps[1..], step);
    }
  }

  /** The steps lead from empty stores to that state. */
  predicate Reaches(hash: Hash, steps: seq<Step>, w: World) {
    Legal(hash, START, steps) && After(hash, START, steps) == w
  }

  lemma Extend(hash: Hash, steps: seq<Step>, w: World, step: Step, next: World)
    requires Reaches(hash, steps, w) && Enabled(hash, w, step) && Next(hash, w, step) == next
    ensures Reaches(hash, steps + [step], next)
  {
    LegalThen(hash, START, steps, step);
  }

  function Sole(d: Digest, info: BlobInfo, marked: bool, expires: Option<Instant>): map<Digest, Row> {
    map[d := Row(info, marked, expires)]
  }

  /** A publish between its two writes, and a sweep that soft-deletes the row meanwhile. */
  lemma SweptBeforePut(hash: Hash, d: Digest, info: BlobInfo, data: Bytes) returns (steps: seq<Step>)
    requires hash(data) == d
    ensures steps == [InsertBlob(0, d, info, data), ListCandidates(1, [d]), MarkCandidate(1), SoftDeleteCandidate(1, 0)]
    ensures Reaches(hash, steps, World(State(Sole(d, info, true, Some(0)), map[], {}),
                                       map[0 := Putting(d, data), 1 := Sweeping([], false)]))
  {
    var put := Putting(d, data);
    var inserted := State(Sole(d, info, false, None), map[], {});
    var marked := State(Sole(d, info, true, None), map[], {});
    var deleted := State(Sole(d, info, true, Some(0)), map[], {});
    Extend(hash, [], START, InsertBlob(0, d, info, data), World(inserted, map[0 := put]));
    steps := [] + [InsertBlob(0, d, info, data)];
    assert Unreferenced(inserted) == {d};
    Extend(hash, steps, World(inserted, map[0 := put]), ListCandidates(1, [d]),
           World(inserted, map[0 := put, 1 := Sweeping([d], false)]));
    steps := steps + [ListCandidates(1, [d])];
    Extend(hash, steps, World(inserted, map[0 := put, 1 := Sweeping([d], false)]), MarkCandidate(1),
           World(marked, map[0 := put, 1 := Sweeping([d], true)]));
    steps := steps + [MarkCandidate(1)];
    assert [d][1..] == [];
    Extend(hash, steps, World(marked, map[0 := put, 1 := Sweeping([d], true)]), SoftDeleteCandidate(1, 0),
           World(deleted, map[0 := put, 1 := Sweeping([], false)]));
    steps := steps + [SoftDeleteCandidate(1, 0)];
  }

  /** A compaction of a store's one blob, step by step. */
  lemma CompactedAway(hash: Hash, before: seq<Step>, s: State, jobs: map<JobId, Job>, id: JobId, d: Digest)
    returns (steps: seq<Step>)
    requires Reaches(hash, before, World(s, jobs)) && id !in jobs
    requires s.rows.Keys == {d} && d in Expired(s, 1) && s.refs == {}
    ensures steps == before + [ListExpired(id, 1, [d]), DeleteListedBytes(id), DeleteListedRow(id)]
    ensures Reaches(hash, steps, World(State(map[], s.bytes - {d}, {}), jobs[id := Compacting([], None)]))
  {
    var stripped, gone := DeleteBytes(s, d), State(map[], s.bytes - {d}, {});
    assert [d][1..] == [];
    assert Expired(s, 1) == {d};
    assert DeleteRow(stripped, d) == gone;
    var all := [ListExpired(id, 1, [d]), DeleteListedBytes(id), DeleteListedRow(id)];
    Extend(hash, before, World(s, jobs), all[0], World(s, jobs[id := Compacting([d], None)]));
    steps := before + [all[0]];
    Extend(hash, steps, World(s, jobs[id := Compacting([d], None)]), all[1],
           World(stripped, jobs[id := Compacting([], Some(d))]));
    steps := steps + [all[1]];
    Extend(hash, steps, World(stripped, jobs[id := Compacting([], Some(d))]), all[2],
           World(gone, jobs[id := Compacting([], None)]));
    steps := steps + [all[2]];
  }

  /** A compaction that deletes bytes before rows leaves bytes without a row all the same, if a publish puts them
    * last. */
  lemma LatePutOrphans(hash: Hash, d: Digest, info: BlobInfo, data: Bytes) returns (steps: seq<Step>)
    requires hash(data) == d
    ensures Reaches(hash, steps, World(State(map[], map[d := data], {}),
                                       map[1 := Sweeping([], false), 2 := Compacting([], None)]))
    ensures steps == [InsertBlob(0, d, info, data), ListCandidates(1, [d]), MarkCandidate(1), SoftDeleteCandidate(1, 0)]
                     + [ListExpired(2, 1, [d]), DeleteListedBytes(2), DeleteListedRow(2)] + [PutBlob(0)]
  {
    var jobs := map[0 := Putting(d, data), 1 := Sweeping([], false)];
    steps := SweptBeforePut(hash, d, info, data);
    steps := CompactedAway(hash, steps, State(Sole(d, info, true, Some(0)), map[], {}), jobs, 2, d);
    PutLast(hash, steps, jobs[2 := Compacting([], None)], 0, d, data);
    assert jobs[2 := Compacting([], None)] - {0} == map[1 := Sweeping([], false), 2 := Compacting([], None)];
    steps := steps + [PutBlob(0)];
  }

  lemma PutLast(hash: Hash, steps: seq<Step>, jobs: map<JobId, Job>, id: JobId, d: Digest, data: Bytes)
    requires Reaches(hash, steps, World(State(map[], map[], {}), jobs)) && id in jobs && jobs[id] == Putting(d, data)
    ensures Reaches(hash, steps + [PutBlob(id)], World(State(map[], map[d := data], {}), jobs - {id}))
  {
    Extend(hash, steps, World(State(map[], map[], {}), jobs), PutBlob(id),
           World(State(map[], map[d := data], {}), jobs - {id}));
  }

  /** A blob stored, soft-deleted and listed by a compaction. */
  lemma ListedRun(hash: Hash, d: Digest, info: BlobInfo, data: Bytes) returns (steps: seq<Step>)
    requires hash(data) == d
    ensures Reaches(hash, steps, World(State(Sole(d, info, true, Some(0)), map[d := data], {}),
                                       map[1 := Sweeping([], false), 2 := Compacting([d], None)]))
  {
    var put, swept := Putting(d, data), Sweeping([], false);
    var deleted := State(Sole(d, info, true, Some(0)), map[], {});
    var stored := deleted.(bytes := map[d := data]);
    steps := SweptBeforePut(hash, d, info, data);
    Extend(hash, steps, World(deleted, map[0 := put, 1 := swept]), PutBlob(0), World(stored, map[1 := swept]));
    steps := steps + [PutBlob(0)];
    assert Expired(stored, 1) == {d};
    Extend(hash, steps, World(stored, map[1 := swept]), ListExpired(2, 1, [d]),
           World(stored, map[1 := swept, 2 := Compacting([d], None)]));
    steps := steps + [ListExpired(2, 1, [d])];
  }

  /** Restoring a soft-deleted blob does not cancel its reclaim once a compaction has listed it: the row is active
    * and referenced again, and the bytes go. */
  lemma RescuedTooLate(hash: Hash, d: Digest, info: BlobInfo, data: Bytes, asset: AssetId) returns (steps: seq<Step>)
    requires hash(data) == d
    ensures Legal(hash, START, steps) && |steps| > 3
    ensures steps[|steps| - 3..] == [UndeleteRow(d), Refer(asset, d), DeleteListedBytes(2)]
    ensures var last := After(hash, START, steps).store;
            && last.rows == Sole(d, info, false, None) && IsReferenced(last, d)
            && Read(last, hash, d) == Absent
  {
    var jobs := map[1 := Sweeping([], false), 2 := Compacting([d], None)];
    var listed := State(Sole(d, info, true, Some(0)), map[d := data], {});
    var restored := listed.(rows := Sole(d, info, false, None));
    var referenced := restored.(refs := {(asset, d)});
    var lost := referenced.(bytes := map[]);
    assert [d][1..] == [] && DeleteBytes(referenced, d) == lost;
    steps := ListedRun(hash, d, info, data);
    Extend(hash, steps, World(listed, jobs), UndeleteRow(d), World(restored, jobs));
    steps := steps + [UndeleteRow(d)];
    Extend(hash, steps, World(restored, jobs), Refer(asset, d), World(referenced, jobs));
    steps := steps + [Refer(asset, d)];
    Extend(hash, steps, World(referenced, jobs), DeleteListedBytes(2),
           World(lost, jobs[2 := Compacting([], Some(d))]));
    steps := steps + [DeleteListedBytes(2)];
    assert (asset, d) in lost.refs;
  }
}
