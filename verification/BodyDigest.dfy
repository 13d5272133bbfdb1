/** The digest that compares the bodies before and after they move to chunks, as the bytes that are
    fed to the hash. */
module BodyDigest {
  import opened BodyChunks
  import opened BodyStorage

  type View = BodyKey -> Option<Bytes>

  /** A 64-bit length, most significant byte first. */
  function BigEndian(n: nat, width: nat): (r: Bytes)
    ensures |r| == width
  {
    if width == 0 then [] else BigEndian(n / 256, width - 1) + [(n % 256) as byte]
  }

  const LENGTH_LIMIT: nat := 0x1_0000_0000_0000_0000

  /** One value as it is fed: a tag, and for a value that is there its length and its bytes. */
  function Frame(value: Option<Bytes>): Bytes {
    match value
    case None => [0]
    case Some(bytes) => [1] + BigEndian(|bytes|, 8) + bytes
  }

  /** Values fed one after the other. */
  function Feed(values: seq<Option<Bytes>>): Bytes {
    if values == [] then [] else Frame(values[0]) + Feed(values[1..])
  }

  function RecordValues(id: RecordId, view: View): seq<Option<Bytes>> {
    [Some(id), view(BodyKey(id, Request)), view(BodyKey(id, OriginalRequest)), view(BodyKey(id, Response))]
  }

  /** The values of a listing of records: each id followed by its three bodies. */
  function Values(ids: seq<RecordId>, view: View): seq<Option<Bytes>> {
    if ids == [] then [] else RecordValues(ids[0], view) + Values(ids[1..], view)
  }

  /** Everything fed for the records of a listing. */
  function Stream(ids: seq<RecordId>, view: View): Bytes {
    Feed(Values(ids, view))
  }

  function LegacyView(legacy: Legacy): View {
    (key: BodyKey) => if key.record in legacy then legacy[key.record].Of(key.kind) else None
  }

  function StoredView(bodies: Bodies): View {
    (key: BodyKey) => if key in bodies then Some(bodies[key]) else None
  }

  // ----- The framing is injective

  lemma {:induction false} BigEndianInjective(a: nat, b: nat, width: nat, limit: nat)
    requires a < limit && b < limit && limit == Power256(width)
    requires BigEndian(a, width) == BigEndian(b, width)
    ensures a == b
  {
    if width > 0 {
      var high, low := BigEndian(a, width), BigEndian(b, width);
      assert high[..width - 1] == BigEndian(a / 256, width - 1) && low[..width - 1] == BigEndian(b / 256, width - 1);
      assert high[width - 1] as int == a % 256 && low[width - 1] as int == b % 256;
      BigEndianInjective(a / 256, b / 256, width - 1, Power256(width - 1));
    }
  }

  function Power256(n: nat): nat {
    if n == 0 then 1 else 256 * Power256(n - 1)
  }

  predicate Short(value: Option<Bytes>) {
    value.Some? ==> |value.value| < LENGTH_LIMIT
  }

  /** What was fed first can be read back, whatever was fed after it. */
  lemma FramesApart(a: Option<Bytes>, b: Option<Bytes>, moreA: Bytes, moreB: Bytes)
    requires Short(a) && Short(b)
    requires Frame(a) + moreA == Frame(b) + moreB
    ensures a == b && moreA == moreB
  {
    var fedA, fedB := Frame(a) + moreA, Frame(b) + moreB;
    assert fedA[0] == Frame(a)[0] && fedB[0] == Frame(b)[0];
    if a.Some? {
      assert fedA[1..9] == BigEndian(|a.value|, 8) && fedB[1..9] == BigEndian(|b.value|, 8);
      assert Power256(8) == LENGTH_LIMIT;
      BigEndianInjective(|a.value|, |b.value|, 8, LENGTH_LIMIT);
      var end := 9 + |a.value|;
      assert fedA[9..end] == a.value && fedB[9..end] == b.value;
      assert fedA[end..] == moreA && fedB[end..] == moreB;
    } else {
      assert fedA[1..] == moreA && fedB[1..] == moreB;
    }
  }

  /** Everything a listing holds is short enough for its length to be written in eight bytes. */
  ghost predicate AllShort(ids: seq<RecordId>, view: View) {
    && (forall id :: id in ids ==> |id| < LENGTH_LIMIT)
    && (forall key: BodyKey :: key.record in ids ==> Short(view(key)))
  }

  ghost predicate Agree(ids: seq<RecordId>, a: View, b: View) {
    forall key: BodyKey :: key.record in ids ==> a(key) == b(key)
  }

  /** What was fed can be read back: the framing loses nothing. */
  lemma {:induction false} FeedInjective(a: seq<Option<Bytes>>, b: seq<Option<Bytes>>)
    requires forall i {:trigger a[i]} :: 0 <= i < |a| ==> Short(a[i])
    requires forall i {:trigger b[i]} :: 0 <= i < |b| ==> Short(b[i])
    requires Feed(a) == Feed(b)
    ensures a == b
  {
    if a != [] && b != [] {
      FramesApart(a[0], b[0], Feed(a[1..]), Feed(b[1..]));
      FeedInjective(a[1..], b[1..]);
      assert a == [a[0]] + a[1..] && b == [b[0]] + b[1..];
    }
  }

  lemma {:induction false} ValuesShort(ids: seq<RecordId>, view: View)
    requires AllShort(ids, view)
    ensures forall i {:trigger Values(ids, view)[i]} :: 0 <= i < |Values(ids, view)| ==> Short(Values(ids, view)[i])
  {
    if ids != [] {
      assert AllShort(ids[1..], view);
      ValuesShort(ids[1..], view);
      forall key: BodyKey | key.record == ids[0] ensures Short(view(key)) {
        assert key.record in ids;
      }
    }
  }

  lemma EveryKey(key: BodyKey)
    ensures key in {BodyKey(key.record, Request), BodyKey(key.record, OriginalRequest), BodyKey(key.record, Response)}
  {
    match key.kind
    case Request => assert key == BodyKey(key.record, Request);
    case OriginalRequest => assert key == BodyKey(key.record, OriginalRequest);
    case Response => assert key == BodyKey(key.record, Response);
  }

  /** The values of a listing say which records it has and what their bodies are. */
  lemma {:induction false} ValuesInjective(idsA: seq<RecordId>, a: View, idsB: seq<RecordId>, b: View)
    ensures Values(idsA, a) == Values(idsB, b) <==> idsA == idsB && Agree(idsA, a, b)
  {
    if idsA != [] && idsB != [] {
      var restA, restB := idsA[1..], idsB[1..];
      ValuesInjective(restA, a, restB, b);
      var headA, headB := RecordValues(idsA[0], a), RecordValues(idsB[0], b);
      assert Values(idsA, a) == headA + Values(restA, a) && Values(idsB, b) == headB + Values(restB, b);
      assert idsA == [idsA[0]] + restA && idsB == [idsB[0]] + restB;
      assert (headA + Values(restA, a))[..4] == headA && (headA + Values(restA, a))[4..] == Values(restA, a);
      assert (headB + Values(restB, b))[..4] == headB && (headB + Values(restB, b))[4..] == Values(restB, b);
      HeadInjective(idsA[0], a, idsB[0], b);
      assert (idsA == idsB) <==> (idsA[0] == idsB[0] && restA == restB);
      assert Agree(idsA, a, b) <==> Agree([idsA[0]], a, b) && Agree(restA, a, b);
    }
  }

  lemma HeadInjective(idA: RecordId, a: View, idB: RecordId, b: View)
    ensures RecordValues(idA, a) == RecordValues(idB, b) <==> idA == idB && Agree([idA], a, b)
  {
    if RecordValues(idA, a) == RecordValues(idB, b) {
      assert RecordValues(idA, a)[0] == RecordValues(idB, b)[0] && RecordValues(idA, a)[1] == RecordValues(idB, b)[1]
          && RecordValues(idA, a)[2] == RecordValues(idB, b)[2] && RecordValues(idA, a)[3] == RecordValues(idB, b)[3];
      forall key: BodyKey | key.record in [idA] ensures a(key) == b(key) {
        EveryKey(key);
      }
    }
  }

  /** Equal streams mean equal listings with equal bodies, and the other way round. */
  lemma StreamInjective(idsA: seq<RecordId>, a: View, idsB: seq<RecordId>, b: View)
    requires AllShort(idsA, a) && AllShort(idsB, b)
    ensures Stream(idsA, a) == Stream(idsB, b) <==> idsA == idsB && Agree(idsA, a, b)
  {
    ValuesInjective(idsA, a, idsB, b);
    ValuesShort(idsA, a);
    ValuesShort(idsB, b);
    if Stream(idsA, a) == Stream(idsB, b) {
      FeedInjective(Values(idsA, a), Values(idsB, b));
    }
  }

  /** Moving the bodies to chunks keeps what the digest is fed exactly when no body is the empty
      string, which no chunk can hold. */
  lemma MigrationKeepsDigest(ids: seq<RecordId>, legacy: Legacy, bodies: Bodies)
    requires forall id :: id in ids <==> id in legacy
    requires forall key :: key in bodies ==> bodies[key] != []
    requires forall key {:trigger BodyAt(bodies, key)} ::
      BodyAt(bodies, key) == CopiedAt(map[], legacy, legacy.Keys, key)
    requires AllShort(ids, LegacyView(legacy))
    ensures Stream(ids, StoredView(bodies)) == Stream(ids, LegacyView(legacy)) <==>
            (forall key: BodyKey :: key.record in legacy ==> legacy[key.record].Of(key.kind) != Some([]))
  {
    var before, after := LegacyView(legacy), StoredView(bodies);
    forall key: BodyKey | key.record in ids
      ensures Short(after(key)) && (after(key) == before(key) <==> legacy[key.record].Of(key.kind) != Some([]))
    {
      assert BodyAt(bodies, key) == CopiedAt(map[], legacy, legacy.Keys, key);
      assert Short(before(key));
    }
    StreamInjective(ids, after, ids, before);
  }

  lemma {:induction false} FeedAppend(values: seq<Option<Bytes>>, value: Option<Bytes>)
    ensures Feed(values + [value]) == Feed(values) + Frame(value)
  {
    if values == [] {
      assert values + [value] == [value];
      assert Feed([value]) == Frame(value) + Feed([]);
    } else {
      assert (values + [value])[1..] == values[1..] + [value];
      FeedAppend(values[1..], value);
    }
  }

  lemma {:induction false} ValuesAppend(ids: seq<RecordId>, id: RecordId, view: View)
    ensures Values(ids + [id], view) == Values(ids, view) + RecordValues(id, view)
  {
    if ids == [] {
      assert ids + [id] == [id];
    } else {
      assert (ids + [id])[1..] == ids[1..] + [id];
      ValuesAppend(ids[1..], id, view);
    }
  }

  /** Feeding one record more, value by value. */
  lemma StreamAppend(ids: seq<RecordId>, id: RecordId, view: View)
    ensures Stream(ids + [id], view) ==
            Stream(ids, view) + Frame(Some(id)) + Frame(view(BodyKey(id, Request)))
            + Frame(view(BodyKey(id, OriginalRequest))) + Frame(view(BodyKey(id, Response)))
  {
    ValuesAppend(ids, id, view);
    var values, more := Values(ids, view), RecordValues(id, view);
    FeedAppend(values, more[0]);
    FeedAppend(values + [more[0]], more[1]);
    FeedAppend(values + [more[0]] + [more[1]], more[2]);
    FeedAppend(values + [more[0]] + [more[1]] + [more[2]], more[3]);
    OneByOne(values, more[0], more[1], more[2], more[3]);
  }

  lemma OneByOne<T>(values: seq<T>, a: T, b: T, c: T, d: T)
    ensures values + [a, b, c, d] == values + [a] + [b] + [c] + [d]
  {
  }

  // ----- The two producers

  /** Feed one value held as text. */
  function DigestValue(fed: Bytes, value: Option<Bytes>): (r: Bytes)
    ensures r == fed + Frame(value)
  {
    match value
    case None => fed + [0]
    case Some(bytes) => fed + [1] + BigEndian(|bytes|, 8) + bytes
  }

  /** Feed one value held in parts, which feeds what the joined value would. */
  method DigestParts(fed: Bytes, parts: Option<seq<Bytes>>) returns (r: Bytes)
    ensures r == DigestValue(fed, if parts.None? then None else Some(Joined(parts.value)))
  {
    if parts.None? {
      return fed + [0];
    }
    var length := 0;
    for n := 0 to |parts.value|
      invariant length == |Joined(parts.value[..n])|
    {
      assert parts.value[..n + 1] == parts.value[..n] + [parts.value[n]];
      JoinedAppend(parts.value[..n], parts.value[n]);
      length := length + |parts.value[n]|;
    }
    assert parts.value[..|parts.value|] == parts.value;
    var head := fed + [1] + BigEndian(length, 8);
    r := head;
    for n := 0 to |parts.value|
      invariant r == head + Joined(parts.value[..n])
    {
      assert parts.value[..n + 1] == parts.value[..n] + [parts.value[n]];
      JoinedAppend(parts.value[..n], parts.value[n]);
      r := r + parts.value[n];
    }
  }

  /** What the digest of text columns is fed, for records listed by id. */
  method TextBodyDigestInput(ids: seq<RecordId>, legacy: Legacy) returns (fed: Bytes)
    requires forall id :: id in ids ==> id in legacy
    ensures fed == Stream(ids, LegacyView(legacy))
  {
    fed := [];
    for n := 0 to |ids|
      invariant fed == Stream(ids[..n], LegacyView(legacy))
    {
      assert ids[..n + 1] == ids[..n] + [ids[n]];
      StreamAppend(ids[..n], ids[n], LegacyView(legacy));
      var row := legacy[ids[n]];
      fed := DigestValue(fed, Some(ids[n]));
      fed := DigestValue(fed, row.request);
      fed := DigestValue(fed, row.originalRequest);
      fed := DigestValue(fed, row.response);
    }
    assert ids[..|ids|] == ids;
  }

  /** The listing of all reference rows, ordered by record, kind and index. */
  ghost predicate Listing(rows: seq<ReferenceKey>, references: References) {
    && (forall r :: r in rows <==> r in references)
    && (forall i, j :: 0 <= i < j < |rows| && rows[i].body == rows[j].body ==> rows[i].index < rows[j].index)
  }

  type Grouped = map<BodyKey, seq<Bytes>>

  function PartsAt(grouped: Grouped, key: BodyKey): seq<Bytes> {
    if key in grouped then grouped[key] else []
  }

  /** After `n` rows, each body has a prefix of its chunks, and exactly the rows of those were read. */
  ghost predicate Grouping(rows: seq<ReferenceKey>, n: nat, bodies: Bodies, grouped: Grouped)
    requires n <= |rows|
  {
    && (forall key {:trigger grouped[key]} :: key in grouped ==> grouped[key] != [])
    && Prefixes(bodies, grouped)
    && (forall r: ReferenceKey :: r in rows[..n] <==> r.index < |PartsAt(grouped, r.body)|)
  }

  ghost predicate Prefixes(bodies: Bodies, grouped: Grouped) {
    forall key {:trigger PartsAt(grouped, key)} :: PartsAt(grouped, key) <= Cut(BodyAt(bodies, key))
  }

  /** A body's next chunk is put behind those it has. */
  lemma PrefixesMore(bodies: Bodies, grouped: Grouped, key: BodyKey)
    requires Prefixes(bodies, grouped) && |PartsAt(grouped, key)| < |Cut(BodyAt(bodies, key))|
    ensures var parts := PartsAt(grouped, key);
            Prefixes(bodies, grouped[key := parts + [Cut(BodyAt(bodies, key))[|parts|]]])
  {
    var parts, cut := PartsAt(grouped, key), Cut(BodyAt(bodies, key));
    var grouped' := grouped[key := parts + [cut[|parts|]]];
    forall k ensures PartsAt(grouped', k) <= Cut(BodyAt(bodies, k)) {
      assert PartsAt(grouped, k) <= Cut(BodyAt(bodies, k));
    }
  }

  /** The next row of a listing is the next chunk of its body. */
  lemma NextRow(p: Primitives, references: References, rows: seq<ReferenceKey>, n: nat, bodies: Bodies,
                grouped: Grouped)
    requires Listing(rows, references) && Refers(p, references, bodies)
    requires n < |rows| && Grouping(rows, n, bodies, grouped)
    ensures var r := rows[n];
            var cut := Cut(BodyAt(bodies, r.body));
            && r.index == |PartsAt(grouped, r.body)| < |cut|
            && r in references && references[r] == p.hash(cut[r.index])
            && Grouping(rows, n + 1, bodies, grouped[r.body := PartsAt(grouped, r.body) + [cut[r.index]]])
  {
    NextIndex(p, references, rows, n, bodies, grouped);
    RowGrouped(rows, n, bodies, grouped);
  }

  lemma RowGrouped(rows: seq<ReferenceKey>, n: nat, bodies: Bodies, grouped: Grouped)
    requires n < |rows| && Grouping(rows, n, bodies, grouped)
    requires rows[n].index == |PartsAt(grouped, rows[n].body)| < |Cut(BodyAt(bodies, rows[n].body))|
    ensures var r := rows[n];
            Grouping(rows, n + 1, bodies,
              grouped[r.body := PartsAt(grouped, r.body) + [Cut(BodyAt(bodies, r.body))[r.index]]])
  {
    var r := rows[n];
    var parts, cut := PartsAt(grouped, r.body), Cut(BodyAt(bodies, r.body));
    var grouped' := grouped[r.body := parts + [cut[r.index]]];
    forall q: ReferenceKey ensures q in rows[..n + 1] <==> q.index < |PartsAt(grouped', q.body)| {
      RowCounted(rows, n, grouped, grouped', q);
    }
    PrefixesMore(bodies, grouped, r.body);
  }

  /** One row more counts for its own body only. */
  lemma RowCounted(rows: seq<ReferenceKey>, n: nat, grouped: Grouped, grouped': Grouped, q: ReferenceKey)
    requires n < |rows| && (q in rows[..n] <==> q.index < |PartsAt(grouped, q.body)|)
    requires rows[n].index == |PartsAt(grouped, rows[n].body)|
    requires |PartsAt(grouped', q.body)| == |PartsAt(grouped, q.body)| + if q.body == rows[n].body then 1 else 0
    ensures q in rows[..n + 1] <==> q.index < |PartsAt(grouped', q.body)|
  {
    assert rows[..n + 1] == rows[..n] + [rows[n]];
    assert q.body == rows[n].body && q.index == rows[n].index ==> q == rows[n];
  }

  lemma NextIndex(p: Primitives, references: References, rows: seq<ReferenceKey>, n: nat, bodies: Bodies,
                  grouped: Grouped)
    requires Listing(rows, references) && Refers(p, references, bodies)
    requires n < |rows| && Grouping(rows, n, bodies, grouped)
    ensures var r := rows[n];
            var cut := Cut(BodyAt(bodies, r.body));
            r.index == |PartsAt(grouped, r.body)| < |cut| && r in references && references[r] == p.hash(cut[r.index])
  {
    var r := rows[n];
    var parts := PartsAt(grouped, r.body);
    assert Spelled(p, references, r.body, BodyAt(bodies, r.body));
    assert r in references && r == ReferenceKey(r.body, r.index);
    assert r !in rows[..n];
    var next := ReferenceKey(r.body, |parts|);
    assert next !in rows[..n];
    assert next in rows ==> next.index >= r.index;
  }

  /** When all rows are read, every body has all its chunks. */
  lemma AllGrouped(p: Primitives, references: References, rows: seq<ReferenceKey>, bodies: Bodies, grouped: Grouped,
                   key: BodyKey)
    requires Listing(rows, references) && Refers(p, references, bodies)
    requires Grouping(rows, |rows|, bodies, grouped)
    ensures (if key in grouped then Some(Joined(grouped[key])) else None) == StoredView(bodies)(key)
  {
    var cut, parts := Cut(BodyAt(bodies, key)), PartsAt(grouped, key);
    assert Spelled(p, references, key, BodyAt(bodies, key));
    JoinedCut(BodyAt(bodies, key));
    assert parts <= cut;
    var next := ReferenceKey(key, |parts|);
    assert rows[..|rows|] == rows;
    assert next !in rows[..|rows|];
    assert next !in references;
    assert parts == cut;
  }

  /** Inflate every stored chunk once; false exactly when one has an unknown codec or a wrong length. */
  method RawChunks(store: BodyStore) returns (ok: bool, raw: map<Hash, Bytes>)
    ensures ok <==> forall h :: h in store.chunks ==> Whole(store.primitives, store.chunks[h])
    ensures ok ==> raw == map h | h in store.chunks :: store.primitives.inflate(store.chunks[h].data)
  {
    raw := map[];
    var left := store.chunks.Keys;
    while left != {}
      invariant left <= store.chunks.Keys
      invariant forall h :: h in store.chunks && h !in left ==> Whole(store.primitives, store.chunks[h])
      invariant raw == map h | h in store.chunks && h !in left :: store.primitives.inflate(store.chunks[h].data)
      decreases left
    {
      var h :| h in left;
      var chunk := store.chunks[h];
      var bytes := store.primitives.inflate(chunk.data);
      if chunk.codec != BODY_CHUNK_CODEC || |bytes| != chunk.rawSize {
        return false, raw;
      }
      raw := raw[h := bytes];
      left := left - {h};
    }
    ok := true;
  }

  /** The chunks that were read are those of a sound store. */
  ghost predicate ReadAll(store: BodyStore, raw: map<Hash, Bytes>)
    reads store
  {
    store.Valid() && raw == map h | h in store.chunks :: store.primitives.preimage(h)
  }

  /** Collect the chunks of every body; false exactly when a row names a missing chunk. */
  method GroupChunks(store: BodyStore, rows: seq<ReferenceKey>, raw: map<Hash, Bytes>)
    returns (ok: bool, grouped: Grouped)
    requires Listing(rows, store.references)
    ensures ok <==> forall r :: r in store.references ==> store.references[r] in raw
    ensures ok && ReadAll(store, raw) ==> Grouping(rows, |rows|, store.bodies, grouped)
  {
    grouped := map[];
    for n := 0 to |rows|
      invariant forall i :: 0 <= i < n ==> store.references[rows[i]] in raw
      invariant ReadAll(store, raw) ==> Grouping(rows, n, store.bodies, grouped)
    {
      if ReadAll(store, raw) {
        NextRow(store.primitives, store.references, rows, n, store.bodies, grouped);
      }
      var r := rows[n];
      var h := store.references[r];
      if h !in raw {
        return false, grouped;
      }
      grouped := grouped[r.body := PartsAt(grouped, r.body) + [raw[h]]];
    }
    ok := true;
  }

  /** What the digest of chunked bodies is fed, for records listed by id and rows in their order. It
      never meets a broken chunk, and is fed the bodies the rows stand for. */
  method ChunkedBodyDigestInput(store: BodyStore, ids: seq<RecordId>, rows: seq<ReferenceKey>)
    returns (ok: bool, fed: Bytes)
    requires store.Valid() && Listing(rows, store.references)
    ensures ok && fed == Stream(ids, StoredView(store.bodies))
  {
    fed := [];
    var raw, grouped;
    ok, raw := RawChunks(store);
    if !ok {
      return;
    }
    ok, grouped := GroupChunks(store, rows, raw);
    if !ok {
      return;
    }
    ghost var view := StoredView(store.bodies);
    for n := 0 to |ids|
      invariant fed == Stream(ids[..n], view)
    {
      assert ids[..n + 1] == ids[..n] + [ids[n]];
      StreamAppend(ids[..n], ids[n], view);
      fed := DigestValue(fed, Some(ids[n]));
      fed := DigestBody(store, rows, grouped, fed, BodyKey(ids[n], Request));
      fed := DigestBody(store, rows, grouped, fed, BodyKey(ids[n], OriginalRequest));
      fed := DigestBody(store, rows, grouped, fed, BodyKey(ids[n], Response));
    }
    assert ids[..|ids|] == ids;
  }

  method DigestBody(store: BodyStore, ghost rows: seq<ReferenceKey>, grouped: Grouped, fed: Bytes, key: BodyKey)
    returns (r: Bytes)
    requires store.Valid() && Listing(rows, store.references) && Grouping(rows, |rows|, store.bodies, grouped)
    ensures r == fed + Frame(StoredView(store.bodies)(key))
  {
    r := DigestParts(fed, if key in grouped then Some(grouped[key]) else None);
    AllGrouped(store.primitives, store.references, rows, store.bodies, grouped, key);
  }

  /** The text columns of a schema that has none for original requests. */
  function WithoutOriginals(legacy: Legacy): Legacy {
    map id | id in legacy :: legacy[id].(originalRequest := None)
  }

  /** The bodies that a database of this schema version stands for. */
  ghost function VersionView(version: nat, hasOriginals: bool, legacy: Legacy, bodies: Bodies): View {
    if version >= 3 then StoredView(bodies)
    else LegacyView(if hasOriginals then legacy else WithoutOriginals(legacy))
  }

  /** What the digest is fed: the chunked bodies from schema version 3 on, and before it the text
      columns, of which that of original requests may be missing. */
  method BodyDigestInput(store: BodyStore, version: nat, hasOriginals: bool, ids: seq<RecordId>,
                         rows: seq<ReferenceKey>)
    returns (ok: bool, fed: Bytes)
    requires store.Valid() && Listing(rows, store.references)
    requires forall id :: id in ids ==> id in store.legacy
    ensures ok && fed == Stream(ids, VersionView(version, hasOriginals, store.legacy, store.bodies))
  {
    if version >= 3 {
      ok, fed := ChunkedBodyDigestInput(store, ids, rows);
      return;
    }
    fed := TextBodyDigestInput(ids, if hasOriginals then store.legacy else WithoutOriginals(store.legacy));
    ok := true;
  }
}
