/** The content store as an object, each call a sequence of awaits of which only some may finish, and the
  * garbage-collection sweep over it. */
module ContentStore {
  import opened Wrappers
  import opened ContentModel

  class PostgresContentStore {
    var rows: map<Digest, Row>
    var bytes: map<Digest, Bytes>
    var refs: set<(AssetId, Digest)>

    function Contents(): State
      reads this
    {
      State(rows, bytes, refs)
    }

    constructor ()
      ensures Contents() == EMPTY
    {
      rows, bytes, refs := map[], map[], {};
    }

    /** Rejects bytes that are not what the digest says before touching either store. */
    method GetOrInsertBlob(hash: Hash, digest: Digest, info: BlobInfo, data: Bytes, awaits: nat)
      returns (outcome: Outcome)
      modifies this
      ensures (Contents(), outcome) == Publish(old(Contents()), hash, digest, info, data, awaits)
    {
      if hash(data) != digest {
        return Rejected;
      }
      var left := awaits;
      if left == 0 {
        return Stopped;
      }
      var inserted := digest !in rows;
      if inserted {
        rows := rows[digest := Row(info, false, None)];
      }
      left := left - 1;
      if inserted {
        if left == 0 {
          return Stopped;
        }
        bytes := bytes[digest := data];
        left := left - 1;
      }
      return if left == 0 then Stopped else Done(rows[digest].info);
    }

    method ReadBlob(hash: Hash, digest: Digest) returns (reading: Reading)
      ensures reading == Read(Contents(), hash, digest)
      ensures Contents() == old(Contents())
    {
      if digest !in rows {
        return Absent;
      }
      if digest !in bytes {
        return Absent;
      }
      var data := bytes[digest];
      return if hash(data) == digest then Found(data) else Corrupt;
    }

    method AddReferenceTo(asset: AssetId, digest: Digest) returns (ok: bool)
      modifies this
      ensures Contents() == AddReference(old(Contents()), asset, digest)
      ensures ok <==> digest in old(rows)
    {
      ok := digest in rows;
      if ok {
        refs := refs + {(asset, digest)};
      }
    }

    method RemoveReferenceFrom(asset: AssetId, digest: Digest)
      modifies this
      ensures Contents() == RemoveReference(old(Contents()), asset, digest)
    {
      refs := refs - {(asset, digest)};
    }

    method Mark(digest: Digest)
      modifies this
      ensures Contents() == MarkUnreferenced(old(Contents()), digest)
    {
      if digest in rows {
        rows := rows[digest := rows[digest].(marked := true)];
      }
    }

    method SoftDeleteBlob(digest: Digest, now: Instant, grace: nat)
      modifies this
      ensures Contents() == SoftDelete(old(Contents()), digest, now + grace)
    {
      if digest in rows {
        rows := rows[digest := rows[digest].(expires := Some(now + grace))];
      }
    }

    method UndeleteBlob(digest: Digest)
      modifies this
      ensures Contents() == Undelete(old(Contents()), digest)
    {
      if digest in rows {
        rows := rows[digest := rows[digest].(marked := false, expires := None)];
      }
    }

    /** Deletes the bytes before the row, one listed blob after the other; `listed` is the answer to the query
      * for expired blobs. */
    method Compact(listed: seq<Digest>, awaits: nat) returns (reclaimed: seq<Digest>, done: bool)
      modifies this
      ensures Compaction(Contents(), reclaimed, done) == Compacted(old(Contents()), listed, awaits)
    {
      reclaimed := [];
      var left := awaits;
      for i := 0 to |listed|
        invariant refs == old(refs)
        invariant Compacted(old(Contents()), listed, awaits)
                  == var rest := Compacted(Contents(), listed[i..], left); 
                     rest.(reclaimed := reclaimed + rest.reclaimed)
      {
        ghost var before := Contents();
        ghost var rest := listed[i..];
        assert rest[0] == listed[i] && rest[1..] == listed[i + 1..];
        if left == 0 {
          assert reclaimed + [] == reclaimed;
          return reclaimed, false;
        }
        bytes := bytes - {listed[i]};
        if left == 1 || exists r | r in refs :: r.1 == listed[i] {
          assert IsReferenced(before, listed[i]) <==> exists r | r in refs :: r.1 == listed[i];
          assert reclaimed + [] == reclaimed;
          return reclaimed, false;
        }
        assert !IsReferenced(before, listed[i]);
        rows := rows - {listed[i]};
        left := left - 2;
        assert Contents() == DeleteRow(DeleteBytes(before, listed[i]), listed[i]);
        assert reclaimed + ([listed[i]] + Compacted(Contents(), listed[i + 1..], left).reclaimed)
            == (reclaimed + [listed[i]]) + Compacted(Contents(), listed[i + 1..], left).reclaimed;
        reclaimed := reclaimed + [listed[i]];
      }
      assert listed[|listed|..] == [];
      assert reclaimed + [] == reclaimed;
      done := true;
    }
  }
}
