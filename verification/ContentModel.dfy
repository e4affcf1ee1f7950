/** The two stores behind blobs, as values: metadata rows and references in the database, bytes in the byte
  * store, and what each query or storage call does to them. */
module ContentModel {
  import opened Wrappers

  type Digest = string
  type Bytes = seq<bv8>
  type AssetId = nat
  /** Milliseconds on the caller's clock. */
  type Instant = int

  /** The digest function; any function will do. */
  type Hash = Bytes -> Digest

  /** What is recorded of a blob besides its digest. */
  datatype BlobInfo = BlobInfo(size: nat, contentType: Option<string>, upstreamHashes: map<string, string>)

  /** A blob row; it is soft-deleted exactly when it carries the end of a grace window. */
  datatype Row = Row(info: BlobInfo, marked: bool, expires: Option<Instant>)

  datatype State = State(rows: map<Digest, Row>, bytes: map<Digest, Bytes>, refs: set<(AssetId, Digest)>)

  const EMPTY := State(map[], map[], {})

  // ---------------------------------------------------------------------------
  // Single calls
  // ---------------------------------------------------------------------------

  predicate IsReferenced(s: State, d: Digest) {
    exists r | r in s.refs :: r.1 == d
  }

  function Unreferenced(s: State): set<Digest> {
    set d | d in s.rows && s.rows[d].expires.None? && !IsReferenced(s, d)
  }

  function Expired(s: State, now: Instant): set<Digest> {
    set d | d in s.rows && s.rows[d].expires.Some? && s.rows[d].expires.value < now
  }

  /** A query's answer: its rows in some order, each once. */
  predicate IsListing(listed: seq<Digest>, all: set<Digest>) {
    && (forall d | d in listed :: d in all)
    && (forall d | d in all :: d in listed)
    && (forall i, j | 0 <= i < j < |listed| :: listed[i] != listed[j])
  }

  function InsertRow(s: State, d: Digest, info: BlobInfo): State {
    if d in s.rows then s else s.(rows := s.rows[d := Row(info, false, None)])
  }

  function PutBytes(s: State, d: Digest, data: Bytes): State {
    s.(bytes := s.bytes[d := data])
  }

  function DeleteBytes(s: State, d: Digest): State {
    s.(bytes := s.bytes - {d})
  }

  function DeleteRow(s: State, d: Digest): State {
    s.(rows := s.rows - {d})
  }

  /** The reference table accepts only digests that have a row. */
  function AddReference(s: State, asset: AssetId, d: Digest): State {
    if d in s.rows then s.(refs := s.refs + {(asset, d)}) else s
  }

  function RemoveReference(s: State, asset: AssetId, d: Digest): State {
    s.(refs := s.refs - {(asset, d)})
  }

  /** Deleting components cascades to their assets' references. */
  function DropAssets(s: State, assets: set<AssetId>): State {
    s.(refs := set r | r in s.refs && r.0 !in assets)
  }

  function UpdateRow(s: State, d: Digest, row: Row): State {
    if d in s.rows then s.(rows := s.rows[d := row]) else s
  }

  function MarkUnreferenced(s: State, d: Digest): State {
    if d in s.rows then UpdateRow(s, d, s.rows[d].(marked := true)) else s
  }

  function SoftDelete(s: State, d: Digest, expires: Instant): State {
    if d in s.rows then UpdateRow(s, d, s.rows[d].(expires := Some(expires))) else s
  }

  function Undelete(s: State, d: Digest): State {
    if d in s.rows then UpdateRow(s, d, s.rows[d].(marked := false, expires := None)) else s
  }

  // ---------------------------------------------------------------------------
  // Calls with several awaits: `awaits` of them finish before a crash or an error stops the call
  // ---------------------------------------------------------------------------

  datatype Outcome = Done(stored: BlobInfo) | Rejected | Stopped

  /** Insert the row, then, for a new row, put the bytes, then read the row back. */
  function Publish(s: State, hash: Hash, d: Digest, info: BlobInfo, data: Bytes, awaits: nat): (State, Outcome) {
    if hash(data) != d then (s, Rejected)
    else if awaits == 0 then (s, Stopped)
    else
      var inserted := InsertRow(s, d, info);
      var done := Done(inserted.rows[d].info);
      if d in s.rows then (inserted, if awaits == 1 then Stopped else done)
      else if awaits == 1 then (inserted, Stopped)
      else (PutBytes(inserted, d, data), if awaits == 2 then Stopped else done)
  }

  datatype Compaction = Compaction(state: State, reclaimed: seq<Digest>, done: bool)

  /** For each listed blob delete the bytes, then the row; the row of a referenced blob cannot be deleted. */
  function Compacted(s: State, listed: seq<Digest>, awaits: nat): Compaction
    decreases |listed|
  {
    if listed == [] then Compaction(s, [], true)
    else if awaits == 0 then Compaction(s, [], false)
    else
      var d := listed[0];
      var stripped := DeleteBytes(s, d);
      if awaits == 1 || IsReferenced(s, d) then Compaction(stripped, [], false)
      else
        var rest := Compacted(DeleteRow(stripped, d), listed[1..], awaits - 2);
        Compaction(rest.state, [d] + rest.reclaimed, rest.done)
  }

  /** A blob's bytes, if both stores know it and the bytes are what the digest says. */
  datatype Reading = Absent | Found(data: Bytes) | Corrupt

  function Read(s: State, hash: Hash, d: Digest): Reading {
    if d !in s.rows || d !in s.bytes then Absent
    else if hash(s.bytes[d]) == d then Found(s.bytes[d])
    else Corrupt
  }

  // ---------------------------------------------------------------------------
  // The invariant
  // ---------------------------------------------------------------------------

  /** Every stored byte object has a row and hashes to its key; every reference points at a row. */
  predicate Consistent(s: State, hash: Hash) {
    && (forall d | d in s.bytes :: d in s.rows && hash(s.bytes[d]) == d)
    && (forall r | r in s.refs :: r.1 in s.rows)
  }

  lemma ConsistentReadsMatch(s: State, hash: Hash, d: Digest)
    requires Consistent(s, hash)
    ensures Read(s, hash, d) != Corrupt
    ensures Read(s, hash, d).Found? ==> hash(Read(s, hash, d).data) == d
  {
  }

  lemma PublishKeepsConsistent(s: State, hash: Hash, d: Digest, info: BlobInfo, data: Bytes, awaits: nat)
    requires Consistent(s, hash)
    ensures Consistent(Publish(s, hash, d, info, data, awaits).0, hash)
  {
  }

  lemma {:induction false} CompactKeepsConsistent(s: State, hash: Hash, listed: seq<Digest>, awaits: nat)
    requires Consistent(s, hash)
    ensures Consistent(Compacted(s, listed, awaits).state, hash)
    decreases |listed|
  {
    if listed != [] && awaits > 1 && !IsReferenced(s, listed[0]) {
      CompactKeepsConsistent(DeleteRow(DeleteBytes(s, listed[0]), listed[0]), hash, listed[1..], awaits - 2);
    }
  }

  // ---------------------------------------------------------------------------
  // What publishing and compacting achieve
  // ---------------------------------------------------------------------------

  /** A publish that reports success answers the record of the first one, and leaves bytes to read exactly if
    * they were there before or the row was not: a row left without bytes makes later ones succeed in vain. */
  lemma PublishStoresBytes(s: State, hash: Hash, d: Digest, info: BlobInfo, data: Bytes, awaits: nat)
    requires Consistent(s, hash) && Publish(s, hash, d, info, data, awaits).1.Done?
    ensures Publish(s, hash, d, info, data, awaits).1.stored == if d in s.rows then s.rows[d].info else info
    ensures var after := Publish(s, hash, d, info, data, awaits).0;
            && d in after.rows
            && (Read(after, hash, d).Found? <==> d in s.bytes || d !in s.rows)
  {
  }

  /** Among publishes such a row comes from one stopped between its two writes. */
  lemma StoppedPublishStrands(s: State, hash: Hash, d: Digest, info: BlobInfo, data: Bytes, awaits: nat)
    requires Consistent(s, hash)
    ensures var after := Publish(s, hash, d, info, data, awaits).0;
            (d in after.rows && d !in after.bytes && (d in s.bytes || d !in s.rows))
            <==> hash(data) == d && d !in s.rows && awaits == 1
  {
  }

  function AsSet(listed: seq<Digest>): set<Digest> {
    set d | d in listed
  }

  /** The blobs go in the listed order, unreferenced ones only. */
  lemma {:induction false} CompactionPrefix(s: State, listed: seq<Digest>, awaits: nat)
    ensures var c := Compacted(s, listed, awaits);
            && |c.reclaimed| <= |listed| && c.reclaimed == listed[..|c.reclaimed|]
            && (c.done <==> c.reclaimed == listed)
            && c.state.refs == s.refs
            && (forall d | d in c.reclaimed :: !IsReferenced(s, d))
    decreases |listed|
  {
    if listed != [] && awaits > 1 && !IsReferenced(s, listed[0]) {
      var next := DeleteRow(DeleteBytes(s, listed[0]), listed[0]);
      assert listed == [listed[0]] + listed[1..];
      assert forall d :: IsReferenced(next, d) == IsReferenced(s, d);
      CompactionPrefix(next, listed[1..], awaits - 2);
    }
  }

  lemma {:induction false} CompactionRows(s: State, listed: seq<Digest>, awaits: nat)
    ensures var c := Compacted(s, listed, awaits); c.state.rows == s.rows - AsSet(c.reclaimed)
    decreases |listed|
  {
    if listed != [] && awaits > 1 && !IsReferenced(s, listed[0]) {
      var next := DeleteRow(DeleteBytes(s, listed[0]), listed[0]);
      CompactionRows(next, listed[1..], awaits - 2);
      AsSetOfMore(listed[0], Compacted(next, listed[1..], awaits - 2).reclaimed);
    } else {
      assert AsSet([]) == {};
    }
  }

  /** The blobs whose bytes a compaction deletes: those reclaimed, and perhaps the one it stopped at. */
  function Stripped(s: State, listed: seq<Digest>, awaits: nat): seq<Digest>
    decreases |listed|
  {
    if listed == [] || awaits == 0 then []
    else if awaits == 1 || IsReferenced(s, listed[0]) then [listed[0]]
    else [listed[0]] + Stripped(DeleteRow(DeleteBytes(s, listed[0]), listed[0]), listed[1..], awaits - 2)
  }

  lemma {:induction false} CompactionBytes(s: State, listed: seq<Digest>, awaits: nat)
    ensures Compacted(s, listed, awaits).state.bytes == s.bytes - AsSet(Stripped(s, listed, awaits))
    decreases |listed|
  {
    if listed != [] && awaits > 1 && !IsReferenced(s, listed[0]) {
      var next := DeleteRow(DeleteBytes(s, listed[0]), listed[0]);
      CompactionBytes(next, listed[1..], awaits - 2);
      AsSetOfMore(listed[0], Stripped(next, listed[1..], awaits - 2));
    } else if listed != [] && awaits > 0 {
      assert AsSet([listed[0]]) == {listed[0]};
    } else {
      assert AsSet([]) == {};
    }
  }

  lemma {:induction false} StrippedPrefix(s: State, listed: seq<Digest>, awaits: nat)
    ensures var stripped, reclaimed := Stripped(s, listed, awaits), Compacted(s, listed, awaits).reclaimed;
            && |stripped| <= |listed| && stripped == listed[..|stripped|]
            && |reclaimed| <= |stripped| <= |reclaimed| + 1
            && (Compacted(s, listed, awaits).done ==> stripped == reclaimed)
    decreases |listed|
  {
    if listed != [] && awaits > 1 && !IsReferenced(s, listed[0]) {
      assert listed == [listed[0]] + listed[1..];
      StrippedPrefix(DeleteRow(DeleteBytes(s, listed[0]), listed[0]), listed[1..], awaits - 2);
    }
  }

  /** The place at which a compaction stops with a blob's bytes gone and its row standing: everything listed before
    * it is unreferenced, and there the awaits run out between the two deletions, or a reference stops them. */
  predicate StopsAt(s: State, listed: seq<Digest>, awaits: nat, k: nat) {
    && k < |listed| && awaits > 2 * k
    && (awaits == 2 * k + 1 || IsReferenced(s, listed[k]))
    && forall j | 0 <= j < k :: !IsReferenced(s, listed[j])
  }

  predicate NoRepeats(listed: seq<Digest>) {
    forall i, j | 0 <= i < j < |listed| :: listed[i] != listed[j]
  }

  /** That is exactly when bytes go without their row. */
  lemma {:induction false} StrippedOnlyAt(s: State, listed: seq<Digest>, awaits: nat, d: Digest)
    requires NoRepeats(listed)
    ensures d in Stripped(s, listed, awaits) && d !in Compacted(s, listed, awaits).reclaimed
            <==> exists k: nat :: StopsAt(s, listed, awaits, k) && listed[k] == d
    decreases |listed|
  {
    if listed != [] && awaits > 1 && !IsReferenced(s, listed[0]) {
      var next := DeleteRow(DeleteBytes(s, listed[0]), listed[0]);
      var rest := listed[1..];
      assert forall e :: IsReferenced(next, e) == IsReferenced(s, e);
      StrippedOnlyAt(next, rest, awaits - 2, d);
      if k: nat :| StopsAt(next, rest, awaits - 2, k) && rest[k] == d {
        assert listed[k + 1] == d;
        forall j | 0 <= j < k + 1 ensures !IsReferenced(s, listed[j]) {
          assert j > 0 ==> listed[j] == rest[j - 1];
        }
        assert StopsAt(s, listed, awaits, k + 1);
      }
      if k: nat :| StopsAt(s, listed, awaits, k) && listed[k] == d {
        assert k > 0 && rest[k - 1] == d;
        forall j | 0 <= j < k - 1 ensures !IsReferenced(next, rest[j]) {
          assert rest[j] == listed[j + 1];
        }
        assert StopsAt(next, rest, awaits - 2, k - 1);
      }
    } else if listed != [] && awaits > 0 {
      assert StopsAt(s, listed, awaits, 0);
      if k: nat :| StopsAt(s, listed, awaits, k) && listed[k] == d {
        assert k == 0;
      }
    }
  }

  /** A compaction, wherever it stops, has removed a first part of the list from both stores and at most
    * the bytes of the next blob; references are not touched, and no removed blob had any. */
  lemma CompactionProgress(s: State, listed: seq<Digest>, awaits: nat) returns (n: nat)
    ensures var c := Compacted(s, listed, awaits);
            && |c.reclaimed| <= n <= |c.reclaimed| + 1 && n <= |listed|
            && c.reclaimed == listed[..|c.reclaimed|]
            && (c.done <==> |c.reclaimed| == |listed|)
            && c.state == State(s.rows - AsSet(c.reclaimed), s.bytes - AsSet(listed[..n]), s.refs)
            && forall d | d in c.reclaimed :: !IsReferenced(s, d)
  {
    CompactionPrefix(s, listed, awaits);
    CompactionRows(s, listed, awaits);
    CompactionBytes(s, listed, awaits);
    StrippedPrefix(s, listed, awaits);
    n := |Stripped(s, listed, awaits)|;
  }

  lemma AsSetOfMore(d: Digest, rest: seq<Digest>)
    ensures AsSet([d] + rest) == {d} + AsSet(rest)
  {
  }

  /** With nothing referenced among the expired blobs and no interruption, compaction removes exactly the
    * expired blobs, whatever the order they are listed in. */
  lemma {:induction false} CompactionCompletes(s: State, listed: seq<Digest>, awaits: nat)
    requires awaits >= 2 * |listed| && forall d | d in listed :: !IsReferenced(s, d)
    ensures Compacted(s, listed, awaits).done
    decreases |listed|
  {
    if listed != [] {
      var next := DeleteRow(DeleteBytes(s, listed[0]), listed[0]);
      assert next.refs == s.refs;
      assert forall d :: IsReferenced(next, d) == IsReferenced(s, d);
      CompactionCompletes(next, listed[1..], awaits - 2);
    }
  }

  /** A referenced blob keeps its bytes through every compaction unless it is itself expired: a blob that was
    * soft-deleted and referenced again without being undeleted. */
  lemma CompactionSparesUnexpired(s: State, now: Instant, listed: seq<Digest>, awaits: nat, d: Digest)
    requires IsListing(listed, Expired(s, now)) && d !in Expired(s, now)
    ensures var after := Compacted(s, listed, awaits).state;
            && (d in s.bytes ==> d in after.bytes && after.bytes[d] == s.bytes[d])
            && (d in s.rows ==> d in after.rows && after.rows[d] == s.rows[d])
  {
    var n := CompactionProgress(s, listed, awaits);
    assert forall e | e in listed[..n] :: e in listed;
    assert forall e | e in Compacted(s, listed, awaits).reclaimed :: e in listed;
  }

  lemma SomeListing(all: set<Digest>) returns (listed: seq<Digest>)
    ensures IsListing(listed, all)
  {
    if all == {} {
      listed := [];
    } else {
      var d :| d in all;
      var rest := SomeListing(all - {d});
      listed := rest + [d];
    }
  }

  lemma ListingFrom(all: set<Digest>, d: Digest) returns (listed: seq<Digest>)
    requires d in all
    ensures IsListing(listed, all) && listed != [] && listed[0] == d
  {
    var rest := SomeListing(all - {d});
    listed := [d] + rest;
  }

  /** A number above all those of a finite set. */
  lemma Above(ids: set<nat>) returns (bound: nat)
    ensures forall id | id in ids :: id < bound
  {
    if ids == {} {
      bound := 0;
    } else {
      var id :| id in ids;
      var rest := Above(ids - {id});
      bound := if id < rest then rest else id + 1;
      assert forall i | i in ids :: i == id || i in ids - {id};
    }
  }

  /** Whether a blob's bytes survive a compaction at a given time, whatever the order of the expired blobs and
    * wherever it is cut off. */
  ghost predicate SurvivesCompaction(s: State, now: Instant, d: Digest) {
    forall listed, awaits: nat | IsListing(listed, Expired(s, now)) :: d in Compacted(s, listed, awaits).state.bytes
  }

  /** The bytes of a referenced blob survive compaction if and only if the blob is not expired. */
  lemma ReferencedSurvivesExactly(s: State, now: Instant, d: Digest)
    requires IsReferenced(s, d) && d in s.bytes
    ensures SurvivesCompaction(s, now, d) <==> d !in Expired(s, now)
  {
    if d in Expired(s, now) {
      var listed := ListingFrom(Expired(s, now), d);
      assert d !in Compacted(s, listed, 1).state.bytes;
    } else {
      forall listed, awaits: nat | IsListing(listed, Expired(s, now))
        ensures d in Compacted(s, listed, awaits).state.bytes
      {
        CompactionSparesUnexpired(s, now, listed, awaits, d);
      }
    }
  }

  /** And such a blob loses its bytes as soon as its turn comes, while its row and references stay. */
  lemma CompactionStripsReferenced(s: State, hash: Hash, listed: seq<Digest>, awaits: nat)
    requires listed != [] && awaits > 0 && IsReferenced(s, listed[0]) && listed[0] in s.rows
    ensures var after := Compacted(s, listed, awaits).state;
            && IsReferenced(after, listed[0]) && listed[0] in after.rows
            && Read(after, hash, listed[0]) == Absent
            && Compacted(s, listed, awaits).reclaimed == []
  {
    assert Compacted(s, listed, awaits).state.refs == s.refs;
  }

  /** Publishing a soft-deleted blob again and referencing it does not lift the soft delete. */
  lemma RepublishKeepsExpiry(s: State, hash: Hash, d: Digest, info: BlobInfo, data: Bytes, awaits: nat, asset: AssetId)
    requires d in s.rows && hash(data) == d
    ensures var after := AddReference(Publish(s, hash, d, info, data, awaits).0, asset, d);
            && d in after.rows && after.rows[d] == s.rows[d] && IsReferenced(after, d)
  {
    assert (asset, d) in AddReference(Publish(s, hash, d, info, data, awaits).0, asset, d).refs;
  }
}
