/** Content-addressed chunks with reference counts, as values: how a body is cut, how many
    references a chunk has, and what bodies a set of reference rows spells. */
module BodyChunks {

  newtype byte = x: int | 0 <= x < 256
  type Bytes = seq<byte>
  type RecordId = Bytes
  type Hash = Bytes

  datatype Option<+T> = None | Some(value: T)

  const BODY_CHUNK_BYTES: nat := 64 * 1024
  const BODY_CHUNK_CODEC: string := "deflate-raw-1"

  datatype BodyKind = Request | OriginalRequest | Response

  datatype BodyKey = BodyKey(record: RecordId, kind: BodyKind)

  /** Primary key of a row of `record_body_chunks`. */
  datatype ReferenceKey = ReferenceKey(body: BodyKey, index: nat)

  /** A row of `body_chunks`, found by its hash. */
  datatype StoredChunk = StoredChunk(codec: string, rawSize: nat, data: Bytes, referenceCount: int)

  type Chunks = map<Hash, StoredChunk>
  type References = map<ReferenceKey, Hash>
  type Bodies = map<BodyKey, Bytes>

  /** SHA-256 and raw deflate as functions. The hash is taken to be injective: `preimage` is its
      left inverse. */
  datatype Primitives = Primitives(
    hash: Bytes -> Hash, preimage: Hash -> Bytes, deflate: Bytes -> Bytes, inflate: Bytes -> Bytes) {
    ghost predicate Sound() {
      && (forall x {:trigger hash(x)} :: preimage(hash(x)) == x)
      && (forall x {:trigger deflate(x)} :: inflate(deflate(x)) == x)
    }
  }

  // ----- Cutting a body

  /** The end of the chunk that starts at `offset`. */
  function ChunkEnd(length: nat, offset: nat): nat {
    if offset + BODY_CHUNK_BYTES <= length then offset + BODY_CHUNK_BYTES else length
  }

  /** Where the chunk with this index starts, or the end of the body. */
  function Offset(length: nat, index: nat): nat {
    if index * BODY_CHUNK_BYTES <= length then index * BODY_CHUNK_BYTES else length
  }

  lemma OffsetStep(length: nat, index: nat)
    requires Offset(length, index) < length
    ensures Offset(length, index) == index * BODY_CHUNK_BYTES
    ensures Offset(length, index) < ChunkEnd(length, index * BODY_CHUNK_BYTES) == Offset(length, index + 1) <= length
  {
  }

  function Cut(body: Bytes): seq<Bytes> {
    if body == [] then []
    else
      var end := ChunkEnd(|body|, 0);
      [body[..end]] + Cut(body[end..])
  }

  function Joined(parts: seq<Bytes>): Bytes {
    if parts == [] then [] else parts[0] + Joined(parts[1..])
  }

  lemma {:induction false} JoinedCut(body: Bytes)
    ensures Joined(Cut(body)) == body
    ensures body != [] ==> Cut(body) != []
  {
    if body != [] {
      var end := ChunkEnd(|body|, 0);
      JoinedCut(body[end..]);
      assert body[..end] + body[end..] == body;
    }
  }

  lemma {:induction false} JoinedAppend(parts: seq<Bytes>, part: Bytes)
    ensures Joined(parts + [part]) == Joined(parts) + part
  {
    if parts == [] {
      assert parts + [part] == [part];
      assert Joined([part]) == part + [] == part;
    } else {
      assert (parts + [part])[1..] == parts[1..] + [part];
      JoinedAppend(parts[1..], part);
    }
  }

  /** Whole chunks are cut apart from what follows them. */
  lemma {:induction false} CutAppend(whole: Bytes, more: Bytes, chunks: nat)
    requires |whole| == chunks * BODY_CHUNK_BYTES
    ensures |Cut(whole)| == chunks && Cut(whole + more) == Cut(whole) + Cut(more)
    decreases chunks
  {
    if chunks == 0 {
      assert whole + more == more;
    } else {
      CutFirst(whole);
      CutFirst(whole + more);
      var n := BODY_CHUNK_BYTES;
      assert (whole + more)[..n] == whole[..n] && (whole + more)[n..] == whole[n..] + more;
      CutAppend(whole[n..], more, chunks - 1);
      assert [whole[..n]] + (Cut(whole[n..]) + Cut(more)) == ([whole[..n]] + Cut(whole[n..])) + Cut(more);
    }
  }

  /** Cutting `chunks` whole chunks and then one chunk more. */
  lemma CutStep(body: Bytes, chunks: nat)
    requires chunks * BODY_CHUNK_BYTES < |body|
    ensures var offset := chunks * BODY_CHUNK_BYTES;
            var end := ChunkEnd(|body|, offset);
            && |Cut(body[..offset])| == chunks
            && Cut(body[..end]) == Cut(body[..offset]) + [body[offset..end]]
  {
    var offset := chunks * BODY_CHUNK_BYTES;
    var end := ChunkEnd(|body|, offset);
    CutAppend(body[..offset], body[offset..end], chunks);
    CutOne(body[offset..end]);
    assert body[..offset] + body[offset..end] == body[..end];
  }

  lemma CutOne(body: Bytes)
    requires 0 < |body| <= BODY_CHUNK_BYTES
    ensures Cut(body) == [body]
  {
    assert body[..|body|] == body && Cut(body[|body|..]) == [];
  }

  lemma CutFirst(body: Bytes)
    requires |body| >= BODY_CHUNK_BYTES
    ensures Cut(body) == [body[..BODY_CHUNK_BYTES]] + Cut(body[BODY_CHUNK_BYTES..])
  {
  }

  // ----- Reference counts

  ghost function RefsTo(references: References, h: Hash): set<ReferenceKey> {
    set k | k in references && references[k] == h
  }

  /** Every chunk is referenced, and counts its references; every reference has its chunk. */
  ghost predicate Counted(chunks: Chunks, references: References) {
    && (forall k {:trigger references[k]} :: k in references ==> references[k] in chunks)
    && (forall h {:trigger chunks[h]} :: h in chunks ==> chunks[h].referenceCount == |RefsTo(references, h)| > 0)
  }

  /** Every chunk inflates to the bytes its hash and size stand for. */
  ghost predicate Intact(p: Primitives, chunks: Chunks) {
    forall h {:trigger chunks[h]} :: h in chunks ==>
      && chunks[h].codec == BODY_CHUNK_CODEC
      && p.inflate(chunks[h].data) == p.preimage(h)
      && chunks[h].rawSize == |p.preimage(h)|
  }

  /** The stored chunk can be read: its codec is known, and it inflates to the length it names. */
  predicate Whole(p: Primitives, chunk: StoredChunk) {
    chunk.codec == BODY_CHUNK_CODEC && |p.inflate(chunk.data)| == chunk.rawSize
  }

  /** The row trigger: the last reference takes the chunk with it, any other is counted down. */
  function Released(chunks: Chunks, h: Hash): Chunks {
    if h !in chunks then chunks
    else if chunks[h].referenceCount == 1 then chunks - {h}
    else chunks[h := chunks[h].(referenceCount := chunks[h].referenceCount - 1)]
  }

  /** One more reference to a chunk, inserted when it is not there yet. */
  function Retained(chunks: Chunks, h: Hash, inserted: StoredChunk): Chunks {
    if h in chunks then chunks[h := chunks[h].(referenceCount := chunks[h].referenceCount + 1)]
    else chunks[h := inserted]
  }

  lemma RemovedRefs(references: References, r: ReferenceKey, g: Hash)
    requires r in references
    ensures RefsTo(references - {r}, g) == RefsTo(references, g) - {r}
    ensures |RefsTo(references - {r}, g)| == |RefsTo(references, g)| - if references[r] == g then 1 else 0
  {
    assert RefsTo(references - {r}, g) == RefsTo(references, g) - {r};
    if references[r] == g {
      assert r in RefsTo(references, g);
    } else {
      assert RefsTo(references, g) - {r} == RefsTo(references, g);
    }
  }

  lemma ReleasedCounted(chunks: Chunks, references: References, r: ReferenceKey)
    requires Counted(chunks, references) && r in references
    ensures Counted(Released(chunks, references[r]), references - {r})
  {
    var h := references[r];
    var references', chunks' := references - {r}, Released(chunks, h);
    forall k | k in references' ensures references'[k] in chunks' {
      if references'[k] == h {
        assert {k, r} <= RefsTo(references, h);
        RemovedRefs(references, r, h);
        assert k in RefsTo(references', h);
      }
    }
    forall g | g in chunks' ensures chunks'[g].referenceCount == |RefsTo(references', g)| > 0 {
      RemovedRefs(references, r, g);
    }
  }

  lemma AddedRefs(references: References, r: ReferenceKey, h: Hash, g: Hash)
    requires r !in references
    ensures |RefsTo(references[r := h], g)| == |RefsTo(references, g)| + if g == h then 1 else 0
  {
    assert RefsTo(references[r := h], g) == if g == h then RefsTo(references, g) + {r} else RefsTo(references, g);
  }

  lemma RetainedCounted(chunks: Chunks, references: References, r: ReferenceKey, h: Hash, inserted: StoredChunk)
    requires Counted(chunks, references) && r !in references && inserted.referenceCount == 1
    ensures Counted(Retained(chunks, h, inserted), references[r := h])
  {
    var references', chunks' := references[r := h], Retained(chunks, h, inserted);
    if h !in chunks {
      assert RefsTo(references, h) == {};
    }
    forall g | g in chunks' ensures chunks'[g].referenceCount == |RefsTo(references', g)| > 0 {
      AddedRefs(references, r, h, g);
    }
  }

  // ----- What the reference rows spell

  function BodyAt(bodies: Bodies, key: BodyKey): Bytes {
    if key in bodies then bodies[key] else []
  }

  /** The reference rows of one body are its chunks, numbered from zero. */
  ghost predicate Spelled(p: Primitives, references: References, key: BodyKey, body: Bytes) {
    forall i: nat {:trigger ReferenceKey(key, i)} ::
      var r := ReferenceKey(key, i);
      && (r in references <==> i < |Cut(body)|)
      && (r in references ==> references[r] == p.hash(Cut(body)[i]))
  }

  /** The reference rows are those of the bodies, none of which is empty. */
  ghost predicate Refers(p: Primitives, references: References, bodies: Bodies) {
    && (forall key {:trigger bodies[key]} :: key in bodies ==> bodies[key] != [])
    && (forall key {:trigger BodyAt(bodies, key)} :: Spelled(p, references, key, BodyAt(bodies, key)))
  }

  /** Rows of one body never touch what the rows of another spell. */
  lemma SpelledElsewhere(p: Primitives, before: References, after: References, key: BodyKey, body: Bytes)
    requires Spelled(p, before, key, body)
    requires forall i: nat {:trigger ReferenceKey(key, i)} ::
      var r := ReferenceKey(key, i);
      (r in before <==> r in after) && (r in before ==> before[r] == after[r])
    ensures Spelled(p, after, key, body)
  {
  }

  /** The rows after one more chunk of a body spell the body one chunk further. */
  lemma SpelledStep(p: Primitives, references: References, key: BodyKey, body: Bytes, chunks: nat)
    requires chunks * BODY_CHUNK_BYTES < |body|
    requires Spelled(p, references, key, body[..chunks * BODY_CHUNK_BYTES])
    ensures var offset := chunks * BODY_CHUNK_BYTES;
            var end := ChunkEnd(|body|, offset);
            var r := ReferenceKey(key, chunks);
            && r !in references
            && Spelled(p, references[r := p.hash(body[offset..end])], key, body[..end])
  {
    CutStep(body, chunks);
  }

  /** The rows of one body. */
  function RowsOf(references: References, key: BodyKey): set<ReferenceKey> {
    set r | r in references && r.body == key
  }

  ghost function WithoutRows(references: References, rows: set<ReferenceKey>): References {
    map r | r in references && r !in rows :: references[r]
  }

  lemma WithoutNone(references: References)
    ensures WithoutRows(references, {}) == references
  {
  }

  lemma WithoutMore(references: References, rows: set<ReferenceKey>, r: ReferenceKey)
    ensures WithoutRows(references, rows) - {r} == WithoutRows(references, rows + {r})
    ensures r in references && r !in rows ==> r in WithoutRows(references, rows)
  {
  }

  /** After all rows of one body are gone, the others still spell what they did. */
  lemma RefersRemoved(p: Primitives, references: References, bodies: Bodies, key: BodyKey)
    requires Refers(p, references, bodies)
    ensures Refers(p, WithoutRows(references, RowsOf(references, key)), bodies - {key})
  {
    var after, bodies' := WithoutRows(references, RowsOf(references, key)), bodies - {key};
    forall k ensures Spelled(p, after, k, BodyAt(bodies', k)) {
      assert Spelled(p, references, k, BodyAt(bodies, k));
      if k != key {
        SpelledElsewhere(p, references, after, k, BodyAt(bodies, k));
      }
    }
  }

  /** One body's rows changed, the others' did not. */
  lemma RefersChanged(p: Primitives, references: References, bodies: Bodies, r: ReferenceKey, h: Hash, body: Bytes)
    requires Refers(p, references, bodies) && body != []
    requires Spelled(p, references[r := h], r.body, body)
    ensures Refers(p, references[r := h], bodies[r.body := body])
  {
    var references', bodies' := references[r := h], bodies[r.body := body];
    forall k ensures Spelled(p, references', k, BodyAt(bodies', k)) {
      if k != r.body {
        assert Spelled(p, references, k, BodyAt(bodies, k));
        SpelledElsewhere(p, references, references', k, BodyAt(bodies, k));
      }
    }
  }
}
