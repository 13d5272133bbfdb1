/** The stored bodies of records: two tables that refine a plain map from (record, kind) to bytes,
    and the migration of bodies from text columns into them. */
module BodyStorage {
  import opened BodyChunks

  /** The text columns that held the bodies of a record before they were cut into chunks. */
  datatype LegacyBodies = LegacyBodies(
    request: Option<Bytes>, originalRequest: Option<Bytes>, response: Option<Bytes>) {
    function Of(kind: BodyKind): Option<Bytes> {
      match kind
      case Request => request
      case OriginalRequest => originalRequest
      case Response => response
    }
  }

  const NoLegacyBodies := LegacyBodies(None, None, None)

  /** The rows of the records, of which only the text columns matter here. */
  type Legacy = map<RecordId, LegacyBodies>

  /** What replacing one body does to the bodies: null and empty text leave none. */
  function Replaced(bodies: Bodies, key: BodyKey, text: Option<Bytes>): Bodies {
    if text.Some? && text.value != [] then bodies[key := text.value] else bodies - {key}
  }

  /** What a body is after the legacy bodies of these records were copied over it. */
  function CopiedAt(before: Bodies, legacy: Legacy, copied: set<RecordId>, key: BodyKey): Bytes {
    if key.record in copied && key.record in legacy then
      var text := legacy[key.record].Of(key.kind);
      if text.Some? then text.value else []
    else BodyAt(before, key)
  }

  /** The three bodies of one record copied one after the other. */
  lemma RecordCopied(before: Bodies, legacy: Legacy, id: RecordId)
    requires id in legacy
    ensures var first := Replaced(before, BodyKey(id, Request), legacy[id].request);
            var second := Replaced(first, BodyKey(id, OriginalRequest), legacy[id].originalRequest);
            var third := Replaced(second, BodyKey(id, Response), legacy[id].response);
            forall key {:trigger BodyAt(third, key)} :: BodyAt(third, key) == CopiedAt(before, legacy, {id}, key)
  {
    var row := legacy[id];
    var first := Replaced(before, BodyKey(id, Request), row.request);
    var second := Replaced(first, BodyKey(id, OriginalRequest), row.originalRequest);
    var third := Replaced(second, BodyKey(id, Response), row.response);
    forall key ensures BodyAt(third, key) == CopiedAt(before, legacy, {id}, key) {
      if key.record == id {
        match key.kind
        case Request => assert key == BodyKey(id, Request);
        case OriginalRequest => assert key == BodyKey(id, OriginalRequest);
        case Response => assert key == BodyKey(id, Response);
      }
    }
  }

  /** Copying one record more. */
  lemma CopiedMore(before: Bodies, legacy: Legacy, copied: set<RecordId>, id: RecordId)
    requires id in legacy
    ensures forall key, between: Bodies {:trigger CopiedAt(between, legacy, {id}, key)} ::
      BodyAt(between, key) == CopiedAt(before, legacy, copied, key) ==>
      CopiedAt(between, legacy, {id}, key) == CopiedAt(before, legacy, copied + {id}, key)
  {
  }

  /** There are no more chunks of one body than reference rows. */
  lemma RowsCounted(references: References, key: BodyKey, n: nat)
    requires forall i: nat :: i < n ==> ReferenceKey(key, i) in references
    ensures n <= |references|
  {
    var rows := set i: nat | i < n :: ReferenceKey(key, i);
    RowsDistinct(key, n);
    assert rows <= references.Keys;
    assert |references.Keys| == |rows| + |references.Keys - rows|;
  }

  lemma {:induction false} RowsDistinct(key: BodyKey, n: nat)
    ensures |set i: nat | i < n :: ReferenceKey(key, i)| == n
  {
    if n > 0 {
      RowsDistinct(key, n - 1);
      assert (set i: nat | i < n :: ReferenceKey(key, i)) ==
             (set i: nat | i < n - 1 :: ReferenceKey(key, i)) + {ReferenceKey(key, n - 1)};
    }
  }

  class BodyStore {
    const primitives: Primitives
    var chunks: Chunks
    var references: References
    var legacy: Legacy
    ghost var bodies: Bodies

    constructor (primitives: Primitives, legacy: Legacy)
      requires primitives.Sound()
      ensures Valid() && bodies == map[] && this.primitives == primitives && this.legacy == legacy
    {
      this.primitives := primitives;
      this.legacy := legacy;
      chunks, references, bodies := map[], map[], map[];
    }

    /** The tables hold together, whatever bodies the references spell; every reference belongs to a
        record. */
    ghost predicate Sound()
      reads this
    {
      && primitives.Sound() && Counted(chunks, references) && Intact(primitives, chunks)
      && forall r :: r in references ==> r.body.record in legacy
    }

    ghost predicate Valid()
      reads this
    {
      Sound() && Refers(primitives, references, bodies)
    }

    /** Delete one reference row, with its trigger. */
    method DeleteReference(r: ReferenceKey)
      requires Sound() && r in references
      modifies `chunks, `references
      ensures Sound() && references == old(references) - {r}
      ensures chunks == Released(old(chunks), old(references)[r])
    {
      ReleasedCounted(chunks, references, r);
      var h := references[r];
      references := references - {r};
      chunks := Released(chunks, h);
    }

    /** Delete these reference rows, one by one. */
    method DeleteRows(rows: set<ReferenceKey>)
      requires Sound() && rows <= references.Keys
      modifies `chunks, `references
      ensures Sound() && references == WithoutRows(old(references), rows)
    {
      var left := rows;
      WithoutNone(references);
      while left != {}
        invariant Sound() && left <= rows && references == WithoutRows(old(references), rows - left)
        decreases left
      {
        var r :| r in left;
        WithoutMore(old(references), rows - left, r);
        assert rows - (left - {r}) == rows - left + {r};
        DeleteReference(r);
        left := left - {r};
      }
      assert rows - {} == rows;
    }

    /** Delete all reference rows of one body. */
    method DeleteReferences(key: BodyKey)
      requires Valid()
      modifies `chunks, `references, `bodies
      ensures Valid() && bodies == old(bodies) - {key}
    {
      RefersRemoved(primitives, references, bodies, key);
      DeleteRows(RowsOf(references, key));
      bodies := bodies - {key};
    }

    /** What is stored under the hash of these bytes cannot be the same chunk. */
    ghost predicate Clashes(raw: Bytes)
      reads this
    {
      var h := primitives.hash(raw);
      h in chunks && !(chunks[h].codec == "deflate-raw-1" && chunks[h].rawSize == |raw|)
    }

    /** Insert one chunk, or count one more reference to it; false when what is stored under the
        hash cannot be the same chunk, or when the foreign key finds no record. */
    method StoreChunk(r: ReferenceKey, raw: Bytes) returns (ok: bool)
      requires r !in references
      modifies `chunks, `references
      ensures ok <==> r.body.record in legacy && !old(Clashes(raw))
      ensures ok ==> references == old(references)[r := primitives.hash(raw)]
      ensures old(Clashes(raw)) ==> chunks == old(chunks) && references == old(references)
      ensures old(Sound()) ==> !old(Clashes(raw))
      ensures old(Sound()) && ok ==> Sound()
    {
      var h := primitives.hash(raw);
      var inserted := StoredChunk(BODY_CHUNK_CODEC, |raw|, primitives.deflate(raw), 1);
      if Sound() {
        RetainedCounted(chunks, references, r, h, inserted);
      }
      if h in chunks && (chunks[h].codec != BODY_CHUNK_CODEC || chunks[h].rawSize != |raw|) {
        return false;
      }
      chunks := Retained(chunks, h, inserted);
      if r.body.record !in legacy {
        return false;
      }
      references := references[r := h];
      ok := true;
    }

    /** Store the next chunk of a body behind those stored so far. */
    method StorePart(key: BodyKey, chunkIndex: nat, body: Bytes) returns (ok: bool)
      requires Valid() && chunkIndex * BODY_CHUNK_BYTES < |body|
      requires Spelled(primitives, references, key, body[..chunkIndex * BODY_CHUNK_BYTES])
      modifies `chunks, `references, `bodies
      ensures ok <==> key.record in legacy
      ensures ok ==>
        var end := ChunkEnd(|body|, chunkIndex * BODY_CHUNK_BYTES);
        && Valid() && Spelled(primitives, references, key, body[..end])
        && bodies == old(bodies)[key := body[..end]]
    {
      var offset := chunkIndex * BODY_CHUNK_BYTES;
      var end := ChunkEnd(|body|, offset);
      SpelledStep(primitives, references, key, body, chunkIndex);
      ghost var before := references;
      ok := StoreChunk(ReferenceKey(key, chunkIndex), body[offset..end]);
      if !ok {
        return;
      }
      RefersChanged(primitives, before, bodies, ReferenceKey(key, chunkIndex), primitives.hash(body[offset..end]),
        body[..end]);
      bodies := bodies[key := body[..end]];
    }

    /** Replace one body. It fails exactly for a body that is not empty of a record that does not
        exist, and the transaction around it then leaves everything as it was; null and empty text
        store nothing. */
    method ReplaceRecordBody(key: BodyKey, text: Option<Bytes>) returns (ok: bool)
      requires Valid()
      modifies `chunks, `references, `bodies
      ensures Valid() && (ok <==> key.record in legacy || text.None? || text.value == [])
      ensures bodies == if ok then Replaced(old(bodies), key, text) else old(bodies)
      ensures !ok ==> chunks == old(chunks) && references == old(references)
    {
      var began := (chunks, references);
      DeleteReferences(key);
      if text.None? {
        return true;
      }
      ok := StoreBody(key, text.value);
      if !ok {
        chunks, references := began.0, began.1;
        bodies := old(bodies);
      }
    }

    /** Store a body that has no chunks yet. */
    method StoreBody(key: BodyKey, body: Bytes) returns (ok: bool)
      requires Valid() && key !in bodies
      modifies `chunks, `references, `bodies
      ensures ok <==> key.record in legacy || body == []
      ensures ok ==> Valid() && bodies == if body == [] then old(bodies) else old(bodies)[key := body]
    {
      var chunkIndex, offset := 0, 0;
      ghost var others := bodies;
      assert Spelled(primitives, references, key, BodyAt(others, key));
      assert body[..0] == [];
      while offset < |body|
        invariant offset == Offset(|body|, chunkIndex) <= |body|
        invariant Valid() && Spelled(primitives, references, key, body[..offset])
        invariant offset == 0 || key.record in legacy
        invariant bodies == if offset == 0 then others else others[key := body[..offset]]
        decreases |body| - offset
      {
        OffsetStep(|body|, chunkIndex);
        var stored := StorePart(key, chunkIndex, body);
        if !stored {
          return false;
        }
        offset, chunkIndex := ChunkEnd(|body|, offset), chunkIndex + 1;
      }
      assert body[..|body|] == body;
      return true;
    }

    /** The body has at least this many chunks. */
    ghost predicate Reaches(key: BodyKey, n: nat)
      reads this
    {
      forall i: nat :: i < n ==> ReferenceKey(key, i) in references
    }

    /** The stored chunk of a body at this place. */
    function ChunkAt(key: BodyKey, i: nat): StoredChunk
      requires ReferenceKey(key, i) in references && references[ReferenceKey(key, i)] in chunks
      reads this
    {
      chunks[references[ReferenceKey(key, i)]]
    }

    /** What a body's chunks say, whatever is stored: all are whole, and joined they are the body. */
    ghost predicate Says(key: BodyKey, body: Option<Bytes>, parts: seq<Bytes>)
      requires forall r :: r in references ==> references[r] in chunks
      reads this
    {
      && Reaches(key, |parts|) && ReferenceKey(key, |parts|) !in references
      && (forall i: nat :: i < |parts| ==>
            Whole(primitives, ChunkAt(key, i)) && parts[i] == primitives.inflate(ChunkAt(key, i).data))
      && body == if parts == [] then None else Some(Joined(parts))
    }

    /** Load one body: its chunks in order, inflated and joined; null when there are none. It fails
        exactly when one of them cannot be read, which no sound store holds. */
    method LoadRecordBody(key: BodyKey) returns (ok: bool, body: Option<Bytes>)
      requires forall r :: r in references ==> references[r] in chunks
      ensures ok ==> exists parts :: Says(key, body, parts)
      ensures !ok ==> exists i: nat :: Reaches(key, i + 1) && !Whole(primitives, ChunkAt(key, i))
      ensures Valid() ==> ok && body == if key in bodies then Some(bodies[key]) else None
    {
      var parts: seq<Bytes> := [];
      ghost var cut := Cut(BodyAt(bodies, key));
      assert Valid() ==> Spelled(primitives, references, key, BodyAt(bodies, key));
      while ReferenceKey(key, |parts|) in references
        invariant Reaches(key, |parts|)
        invariant forall i: nat :: i < |parts| ==>
          Whole(primitives, ChunkAt(key, i)) && parts[i] == primitives.inflate(ChunkAt(key, i).data)
        invariant Valid() ==> |parts| <= |cut| && parts == cut[..|parts|]
        decreases |references| - |parts|
      {
        RowsCounted(references, key, |parts| + 1);
        var chunk := ChunkAt(key, |parts|);
        var raw := primitives.inflate(chunk.data);
        if chunk.codec != BODY_CHUNK_CODEC || |raw| != chunk.rawSize {
          return false, None;
        }
        parts := parts + [raw];
      }
      assert cut[..|cut|] == cut;
      JoinedCut(BodyAt(bodies, key));
      body := if parts == [] then None else Some(Joined(parts));
      assert Says(key, body, parts);
      return true, body;
    }

    /** Deleting a record deletes its row and its bodies. */
    method DeleteRecord(record: RecordId)
      requires Valid()
      modifies this
      ensures Valid() && legacy == old(legacy) - {record}
      ensures bodies == map k | k in old(bodies) && k.record != record :: old(bodies)[k]
    {
      DeleteBodies(record);
      NoRows(record);
      legacy := legacy - {record};
    }

    /** The cascade of the foreign key: the rows of all three bodies go. */
    method DeleteBodies(record: RecordId)
      requires Valid()
      modifies `chunks, `references, `bodies
      ensures Valid() && bodies == map k | k in old(bodies) && k.record != record :: old(bodies)[k]
    {
      DeleteReferences(BodyKey(record, Request));
      DeleteReferences(BodyKey(record, OriginalRequest));
      DeleteReferences(BodyKey(record, Response));
      forall k: BodyKey
        ensures k.record == record <==>
                k in {BodyKey(record, Request), BodyKey(record, OriginalRequest), BodyKey(record, Response)}
      {
        match k.kind
        case Request => assert k == BodyKey(k.record, Request);
        case OriginalRequest => assert k == BodyKey(k.record, OriginalRequest);
        case Response => assert k == BodyKey(k.record, Response);
      }
    }

    /** A record without bodies has no reference rows. */
    lemma NoRows(record: RecordId)
      requires Valid() && forall k :: k in bodies ==> k.record != record
      ensures forall r :: r in references ==> r.body.record != record
    {
      forall r | r in references ensures r.body.record != record {
        assert Spelled(primitives, references, r.body, BodyAt(bodies, r.body));
        assert r == ReferenceKey(r.body, r.index);
      }
    }

    /** Copy the text columns of every record into chunks, then empty the columns. */
    method MigrateLegacyRecordBodies(ids: seq<RecordId>) returns (ok: bool)
      requires Valid() && (forall id :: id in ids <==> id in legacy)
      modifies this
      ensures ok && Valid()
      ensures forall key {:trigger BodyAt(bodies, key)} ::
        BodyAt(bodies, key) == CopiedAt(old(bodies), old(legacy), old(legacy).Keys, key)
      ensures legacy == map id | id in old(legacy) :: NoLegacyBodies
    {
      ghost var copied: set<RecordId> := {};
      ghost var start := bodies;
      for n := 0 to |ids|
        invariant Valid() && legacy == old(legacy)
        invariant copied == set id | id in ids[..n]
        invariant forall key {:trigger BodyAt(bodies, key)} ::
          BodyAt(bodies, key) == CopiedAt(start, legacy, copied, key)
      {
        var stored := CopyRecord(ids[n]);
        if !stored {
          return false;
        }
        CopiedMore(start, legacy, copied, ids[n]);
        copied := copied + {ids[n]};
      }
      assert ids[..|ids|] == ids;
      assert copied == legacy.Keys;
      legacy := map id | id in legacy :: NoLegacyBodies;
      return true;
    }

    method CopyRecord(id: RecordId) returns (ok: bool)
      requires Valid() && id in legacy
      modifies `chunks, `references, `bodies
      ensures ok && Valid()
      ensures forall key {:trigger BodyAt(bodies, key)} ::
        BodyAt(bodies, key) == CopiedAt(old(bodies), legacy, {id}, key)
    {
      RecordCopied(bodies, legacy, id);
      var row := legacy[id];
      ok := ReplaceRecordBody(BodyKey(id, Request), row.request);
      if !ok {
        return;
      }
      ok := ReplaceRecordBody(BodyKey(id, OriginalRequest), row.originalRequest);
      if !ok {
        return;
      }
      ok := ReplaceRecordBody(BodyKey(id, Response), row.response);
    }
  }
}
