/** What the affinity table computes, on values: bindings are named by their id, and every
    operation is a function from a table to a table. */
module AffinityModel {

  datatype Option<+T> = None | Some(value: T)

  type Boundary = map<string, string>

  const INITIAL_ROUTING_REVISION: nat := 0

  /** The projections of a request that routing may look at. */
  datatype TaskIdentity = TaskIdentity(
    kind: string, endpoint: string, model: Option<string>, boundary: Boundary, boundaryWithoutUser: Boundary,
    userHashes: seq<string>, exactKeys: seq<string>, namedResponseKey: Option<string>)

  /** The projections of its first request that stay with a binding. */
  datatype Evidence = Evidence(
    kind: string, endpoint: string, model: Option<string>, boundaryWithoutUser: Boundary,
    userHashes: seq<string>, firstUserHash: Option<string>)

  /** The hashed bucket seed; the hash is taken to be injective. */
  datatype BucketKey = BucketKey(kind: string, model: Option<string>, boundary: Boundary)

  datatype Entry = Entry(
    incarnation: nat, targetId: string, routingRevision: nat, bucketKey: BucketKey, evidence: Evidence,
    lastSeenAt: int, lastBoundAt: int, requestCount: nat, exactKeys: set<string>, responseDependencies: set<string>)

  datatype Table = Table(
    bindings: map<nat, Entry>, exactIndex: map<string, nat>, buckets: map<BucketKey, seq<nat>>,
    nextId: nat, nextIncarnation: nat)

  datatype Limits = Limits(ttlMs: int, maxBindings: nat, maxBucketSize: nat, maxBucketScan: nat)

  datatype Hit = NoHit | ExactKey(exactKey: string, id: nat) | PrefixBucket(id: nat, scanned: nat)

  function BucketKeyFor(identity: TaskIdentity): BucketKey {
    BucketKey(identity.kind, identity.model, identity.boundaryWithoutUser)
  }

  function EvidenceFor(identity: TaskIdentity): Evidence {
    Evidence(identity.kind, identity.endpoint, identity.model, identity.boundaryWithoutUser, identity.userHashes,
             if "first_user" in identity.boundary then Some(identity.boundary["first_user"]) else None)
  }

  predicate UserHashPrefixMatches(previous: seq<string>, current: seq<string>) {
    previous != [] && current != [] && previous <= current
  }

  /** The evidence tests of a usable binding. */
  predicate Describes(evidence: Evidence, identity: TaskIdentity) {
    && evidence.kind == identity.kind && evidence.model == identity.model
    && evidence.boundaryWithoutUser == identity.boundaryWithoutUser
    && (evidence.endpoint == "" || identity.endpoint == "" || evidence.endpoint == identity.endpoint)
  }

  predicate Allowed(allowed: Option<set<string>>, targetId: string) {
    allowed.None? || targetId in allowed.value
  }

  predicate Expired(limits: Limits, now: int, e: Entry) {
    e.lastSeenAt < now - limits.ttlMs
  }

  // ----- The invariant

  ghost predicate Distinct<T>(s: seq<T>) {
    forall i, j :: 0 <= i < j < |s| ==> s[i] != s[j]
  }

  /** Each exact key points at a binding of the table that lists it. */
  ghost predicate IndexAgrees(t: Table) {
    && "" !in t.exactIndex
    && forall k :: k in t.exactIndex ==>
         t.exactIndex[k] in t.bindings && k in t.bindings[t.exactIndex[k]].exactKeys
  }

  /** No bucket is empty, repeats a binding, or holds one that is gone or belongs elsewhere. */
  ghost predicate BucketsHold(t: Table) {
    forall key :: key in t.buckets ==>
      t.buckets[key] != [] && Distinct(t.buckets[key]) &&
      forall id {:trigger id in t.buckets[key]} ::
        id in t.buckets[key] ==> id in t.bindings && t.bindings[id].bucketKey == key
  }

  /** Each binding stands in the bucket its key names. */
  ghost predicate BucketsCover(t: Table) {
    forall id {:trigger t.bindings[id].bucketKey} :: id in t.bindings ==>
      t.bindings[id].bucketKey in t.buckets && id in t.buckets[t.bindings[id].bucketKey]
  }

  /** Ids and incarnations were handed out before the next ones, and no two bindings share one. */
  ghost predicate Numbered(t: Table) {
    && (forall id :: id in t.bindings ==> id < t.nextId)
    && (forall id {:trigger t.bindings[id].incarnation} :: id in t.bindings ==>
        t.bindings[id].incarnation < t.nextIncarnation)
    && (forall a, b {:trigger t.bindings[a].incarnation, t.bindings[b].incarnation} ::
        a in t.bindings && b in t.bindings && a != b ==>
        t.bindings[a].incarnation != t.bindings[b].incarnation)
  }

  ghost predicate Inv(t: Table) {
    IndexAgrees(t) && BucketsHold(t) && BucketsCover(t) && Numbered(t)
  }

  // ----- The operations

  function Without(s: seq<nat>, id: nat): seq<nat> {
    if s == [] then [] else if s[0] == id then s[1..] else [s[0]] + Without(s[1..], id)
  }

  /** The index without the entries of one binding; keys that another binding took over stay. */
  function IndexWithout(index: map<string, nat>, keys: set<string>, id: nat): map<string, nat> {
    map k | k in index && !(k in keys && index[k] == id) :: index[k]
  }

  /** The buckets without one binding; an empty bucket goes. */
  function BucketsWithout(buckets: map<BucketKey, seq<nat>>, key: BucketKey, id: nat): map<BucketKey, seq<nat>> {
    if key !in buckets then buckets
    else
      var rest := Without(buckets[key], id);
      if rest == [] then buckets - {key} else buckets[key := rest]
  }

  function Remove(t: Table, id: nat): Table {
    if id !in t.bindings then t
    else
      var e := t.bindings[id];
      t.(bindings := t.bindings - {id},
         exactIndex := IndexWithout(t.exactIndex, e.exactKeys, id),
         buckets := BucketsWithout(t.buckets, e.bucketKey, id))
  }

  function RemoveAll(t: Table, ids: seq<nat>): Table {
    if ids == [] then t else Remove(RemoveAll(t, ids[..|ids| - 1]), ids[|ids| - 1])
  }

  function Update(t: Table, id: nat, e: Entry): Table {
    t.(bindings := t.bindings[id := e])
  }

  function Touch(t: Table, id: nat, now: int): Table
    requires id in t.bindings
  {
    var e := t.bindings[id];
    Update(t, id, e.(lastSeenAt := now, requestCount := e.requestCount + 1))
  }

  function DetachExactKey(t: Table, id: nat, key: string): Table {
    var u := t.(exactIndex := t.exactIndex - {key});
    if id in t.bindings then Update(u, id, t.bindings[id].(exactKeys := t.bindings[id].exactKeys - {key})) else u
  }

  function RegisterExactKeys(t: Table, id: nat, keys: seq<string>): Table
    requires id in t.bindings
    ensures id in RegisterExactKeys(t, id, keys).bindings
    decreases keys
  {
    if keys == [] then t
    else if keys[0] == "" then RegisterExactKeys(t, id, keys[1..])
    else
      var e := t.bindings[id];
      var u := Update(t, id, e.(exactKeys := e.exactKeys + {keys[0]}));
      RegisterExactKeys(u.(exactIndex := t.exactIndex[keys[0] := id]), id, keys[1..])
  }

  function NoteRequestDependencies(t: Table, id: nat, identity: TaskIdentity): Table
    requires id in t.bindings
  {
    if identity.namedResponseKey.None? then t
    else
      var e := t.bindings[id];
      Update(t, id, e.(responseDependencies := e.responseDependencies + {identity.namedResponseKey.value}))
  }

  function Rebind(t: Table, id: nat, targetId: string, now: int): Table
    requires id in t.bindings
  {
    var e := t.bindings[id];
    var moved := if e.targetId == targetId then e
                 else e.(routingRevision := e.routingRevision + 1, targetId := targetId);
    Update(t, id, moved.(lastSeenAt := now, lastBoundAt := now))
  }

  /** What the usability test finds; only an expired binding makes it change the table. */
  datatype Verdict = Usable | Lapsed | Unusable

  function Judge(t: Table, limits: Limits, now: int, id: nat, identity: TaskIdentity,
                 allowed: Option<set<string>>): Verdict {
    if id !in t.bindings then Unusable
    else if !Allowed(allowed, t.bindings[id].targetId) then Unusable
    else if Expired(limits, now, t.bindings[id]) then Lapsed
    else if Describes(t.bindings[id].evidence, identity) then Usable
    else Unusable
  }

  function LookupExact(t: Table, limits: Limits, now: int, keys: seq<string>, identity: TaskIdentity,
                       allowed: Option<set<string>>): (Hit, Table)
    decreases keys
  {
    if keys == [] then (NoHit, t)
    else if keys[0] !in t.exactIndex then LookupExact(t, limits, now, keys[1..], identity, allowed)
    else
      var id := t.exactIndex[keys[0]];
      match Judge(t, limits, now, id, identity, allowed)
      case Usable => (ExactKey(keys[0], id), Touch(t, id, now))
      case Lapsed =>
        LookupExact(DetachExactKey(Remove(t, id), id, keys[0]), limits, now, keys[1..], identity, allowed)
      case Unusable =>
        LookupExact(DetachExactKey(t, id, keys[0]), limits, now, keys[1..], identity, allowed)
  }

  function Recency(t: Table, id: nat): int {
    if id in t.bindings then t.bindings[id].lastSeenAt else 0
  }

  function InsertByRecency(t: Table, id: nat, ids: seq<nat>): seq<nat> {
    if ids == [] || Recency(t, id) >= Recency(t, ids[0]) then [id] + ids
    else [ids[0]] + InsertByRecency(t, id, ids[1..])
  }

  /** The stable sort of a bucket, most recently seen first. */
  function ByRecency(t: Table, ids: seq<nat>): seq<nat> {
    if ids == [] then [] else InsertByRecency(t, ids[0], ByRecency(t, ids[1..]))
  }

  function Scan(t: Table, limits: Limits, now: int, ids: seq<nat>, scanned: nat, identity: TaskIdentity,
                allowed: Option<set<string>>): (Hit, Table)
    decreases ids
  {
    if ids == [] then (NoHit, t)
    else
      match Judge(t, limits, now, ids[0], identity, allowed)
      case Lapsed => Scan(Remove(t, ids[0]), limits, now, ids[1..], scanned + 1, identity, allowed)
      case Unusable => Scan(t, limits, now, ids[1..], scanned + 1, identity, allowed)
      case Usable =>
        if UserHashPrefixMatches(t.bindings[ids[0]].evidence.userHashes, identity.userHashes)
        then (PrefixBucket(ids[0], scanned + 1), Touch(t, ids[0], now))
        else Scan(t, limits, now, ids[1..], scanned + 1, identity, allowed)
  }

  function Min(a: nat, b: nat): nat {
    if a <= b then a else b
  }

  function LookupBucket(t: Table, limits: Limits, now: int, identity: TaskIdentity,
                        allowed: Option<set<string>>): (Hit, Table) {
    var key := BucketKeyFor(identity);
    if key !in t.buckets then (NoHit, t)
    else
      var ordered := ByRecency(t, t.buckets[key]);
      Scan(t, limits, now, ordered[..Min(limits.maxBucketScan, |ordered|)], 0, identity, allowed)
  }

  function Lookup(t: Table, limits: Limits, now: int, identity: TaskIdentity,
                  allowed: Option<set<string>>): (Hit, Table) {
    var (hit, u) := LookupExact(t, limits, now, identity.exactKeys, identity, allowed);
    if hit.NoHit? then LookupBucket(u, limits, now, identity, allowed) else (hit, u)
  }

  // ----- What keeps the invariant

  lemma {:induction false} WithoutMembers(s: seq<nat>, id: nat)
    requires Distinct(s)
    ensures Distinct(Without(s, id))
    ensures forall x :: x in Without(s, id) <==> x in s && x != id
    ensures |Without(s, id)| == if id in s then |s| - 1 else |s|
  {
    if s != [] {
      assert s == [s[0]] + s[1..];
      WithoutMembers(s[1..], id);
      assert s[0] !in s[1..];
    }
  }

  lemma RemoveBuckets(t: Table, id: nat)
    requires Inv(t) && id in t.bindings
    ensures BucketsHold(Remove(t, id)) && BucketsCover(Remove(t, id))
  {
    var u := Remove(t, id);
    var home := t.bindings[id].bucketKey;
    WithoutMembers(t.buckets[home], id);
    forall x | x in u.bindings ensures u.bindings[x].bucketKey in u.buckets && x in u.buckets[u.bindings[x].bucketKey] {
      assert x in t.bindings && x in t.buckets[t.bindings[x].bucketKey];
    }
    forall key | key in u.buckets
      ensures u.buckets[key] != [] && Distinct(u.buckets[key])
      ensures forall x :: x in u.buckets[key] ==> x in u.bindings && u.bindings[x].bucketKey == key
    {
      assert key in t.buckets;
      forall x | x in u.buckets[key] ensures x in u.bindings && u.bindings[x].bucketKey == key {
        assert x in t.buckets[key];
      }
    }
  }

  lemma RemoveInv(t: Table, id: nat)
    requires Inv(t)
    ensures Inv(Remove(t, id))
  {
    if id in t.bindings {
      RemoveBuckets(t, id);
    }
  }

  lemma UpdateIndex(t: Table, id: nat, e: Entry)
    requires IndexAgrees(t) && id in t.bindings
    requires forall k :: k in t.exactIndex && t.exactIndex[k] == id ==> k in e.exactKeys
    ensures IndexAgrees(Update(t, id, e))
  {
  }

  lemma UpdateBuckets(t: Table, id: nat, e: Entry)
    requires BucketsHold(t) && BucketsCover(t) && id in t.bindings
    requires e.bucketKey == t.bindings[id].bucketKey
    ensures BucketsHold(Update(t, id, e)) && BucketsCover(Update(t, id, e))
  {
  }

  /** A binding keeps its place and its incarnation, and no indexed key leaves it. */
  lemma UpdateInv(t: Table, id: nat, e: Entry)
    requires Inv(t) && id in t.bindings
    requires e.bucketKey == t.bindings[id].bucketKey && e.incarnation == t.bindings[id].incarnation
    requires forall k :: k in t.exactIndex && t.exactIndex[k] == id ==> k in e.exactKeys
    ensures Inv(Update(t, id, e))
  {
    UpdateIndex(t, id, e);
    UpdateBuckets(t, id, e);
  }

  lemma KeysListed(t: Table, id: nat)
    requires IndexAgrees(t) && id in t.bindings
    ensures forall k :: k in t.exactIndex && t.exactIndex[k] == id ==> k in t.bindings[id].exactKeys
  {
  }

  lemma TouchInv(t: Table, id: nat, now: int)
    requires Inv(t) && id in t.bindings
    ensures Inv(Touch(t, id, now))
  {
    var e := t.bindings[id].(lastSeenAt := now, requestCount := t.bindings[id].requestCount + 1);
    KeysListed(t, id);
    UpdateInv(t, id, e);
    assert Touch(t, id, now) == Update(t, id, e);
  }

  lemma DetachInv(t: Table, id: nat, key: string)
    requires Inv(t)
    requires key in t.exactIndex ==> t.exactIndex[key] == id
    ensures Inv(DetachExactKey(t, id, key))
  {
    var u := t.(exactIndex := t.exactIndex - {key});
    assert Inv(u);
    if id in t.bindings {
      UpdateInv(u, id, t.bindings[id].(exactKeys := t.bindings[id].exactKeys - {key}));
    }
  }

  lemma {:induction false} RegisterInv(t: Table, id: nat, keys: seq<string>)
    requires Inv(t) && id in t.bindings
    ensures Inv(RegisterExactKeys(t, id, keys))
    decreases keys
  {
    if keys != [] {
      if keys[0] == "" {
        RegisterInv(t, id, keys[1..]);
      } else {
        var e := t.bindings[id];
        var u := Update(t, id, e.(exactKeys := e.exactKeys + {keys[0]}));
        UpdateInv(t, id, e.(exactKeys := e.exactKeys + {keys[0]}));
        RegisterInv(u.(exactIndex := t.exactIndex[keys[0] := id]), id, keys[1..]);
      }
    }
  }

  lemma {:induction false} LookupExactInv(t: Table, limits: Limits, now: int, keys: seq<string>, identity: TaskIdentity,
                                          allowed: Option<set<string>>)
    requires Inv(t)
    ensures Inv(LookupExact(t, limits, now, keys, identity, allowed).1)
    decreases keys
  {
    if keys != [] {
      if keys[0] !in t.exactIndex {
        LookupExactInv(t, limits, now, keys[1..], identity, allowed);
      } else {
        var id := t.exactIndex[keys[0]];
        match Judge(t, limits, now, id, identity, allowed)
        case Usable =>
          TouchInv(t, id, now);
        case Lapsed =>
          RemoveInv(t, id);
          DetachInv(Remove(t, id), id, keys[0]);
          LookupExactInv(DetachExactKey(Remove(t, id), id, keys[0]), limits, now, keys[1..], identity, allowed);
        case Unusable =>
          DetachInv(t, id, keys[0]);
          LookupExactInv(DetachExactKey(t, id, keys[0]), limits, now, keys[1..], identity, allowed);
      }
    }
  }

  lemma {:induction false} ScanInv(t: Table, limits: Limits, now: int, ids: seq<nat>, scanned: nat,
                                   identity: TaskIdentity, allowed: Option<set<string>>)
    requires Inv(t)
    ensures Inv(Scan(t, limits, now, ids, scanned, identity, allowed).1)
    decreases ids
  {
    if ids != [] {
      match Judge(t, limits, now, ids[0], identity, allowed)
      case Lapsed =>
        RemoveInv(t, ids[0]);
        ScanInv(Remove(t, ids[0]), limits, now, ids[1..], scanned + 1, identity, allowed);
      case Unusable =>
        ScanInv(t, limits, now, ids[1..], scanned + 1, identity, allowed);
      case Usable =>
        TouchInv(t, ids[0], now);
        ScanInv(t, limits, now, ids[1..], scanned + 1, identity, allowed);
    }
  }

  lemma LookupInv(t: Table, limits: Limits, now: int, identity: TaskIdentity, allowed: Option<set<string>>)
    requires Inv(t)
    ensures Inv(Lookup(t, limits, now, identity, allowed).1)
  {
    LookupExactInv(t, limits, now, identity.exactKeys, identity, allowed);
    var u := LookupExact(t, limits, now, identity.exactKeys, identity, allowed).1;
    if BucketKeyFor(identity) in u.buckets {
      var ordered := ByRecency(u, u.buckets[BucketKeyFor(identity)]);
      ScanInv(u, limits, now, ordered[..Min(limits.maxBucketScan, |ordered|)], 0, identity, allowed);
    }
  }

  lemma {:induction false} RemoveAllInv(t: Table, ids: seq<nat>)
    requires Inv(t)
    ensures Inv(RemoveAll(t, ids))
    decreases ids
  {
    if ids != [] {
      RemoveAllInv(t, ids[..|ids| - 1]);
      RemoveInv(RemoveAll(t, ids[..|ids| - 1]), ids[|ids| - 1]);
    }
  }

  // ----- Caps

  ghost predicate FirstOldestAt(t: Table, ids: seq<nat>, r: nat, i: nat) {
    && i < |ids| && ids[i] == r
    && (forall j :: 0 <= j < i ==> Recency(t, r) < Recency(t, ids[j]))
    && (forall j :: i <= j < |ids| ==> Recency(t, r) <= Recency(t, ids[j]))
  }

  /** `r` is the first id of the list with the smallest last-seen time. */
  ghost predicate FirstOldest(t: Table, ids: seq<nat>, r: nat) {
    exists i :: FirstOldestAt(t, ids, r, i)
  }

  function OldestOf(t: Table, ids: seq<nat>): (r: nat)
    requires ids != []
    ensures r in ids && FirstOldest(t, ids, r)
  {
    if |ids| == 1 then
      assert FirstOldestAt(t, ids, ids[0], 0);
      ids[0]
    else
      var n := |ids| - 1;
      var oldest := OldestOf(t, ids[..n]);
      OldestStep(t, ids, oldest);
      if Recency(t, ids[n]) < Recency(t, oldest) then ids[n] else oldest
  }

  lemma OldestStep(t: Table, ids: seq<nat>, oldest: nat)
    requires ids != [] && FirstOldest(t, ids[..|ids| - 1], oldest)
    ensures var last := ids[|ids| - 1];
            FirstOldest(t, ids, if Recency(t, last) < Recency(t, oldest) then last else oldest)
  {
    var init, n := ids[..|ids| - 1], |ids| - 1;
    var i :| FirstOldestAt(t, init, oldest, i);
    assert forall j :: 0 <= j < n ==> init[j] == ids[j];
    if Recency(t, ids[n]) < Recency(t, oldest) {
      assert FirstOldestAt(t, ids, ids[n], n);
    } else {
      assert FirstOldestAt(t, ids, oldest, i);
    }
  }

  function Bucket(t: Table, key: BucketKey): seq<nat> {
    if key in t.buckets then t.buckets[key] else []
  }

  /** Ids of the table in the order they were handed out, which is the order the map lists them. */
  function IdsBelow(t: Table, n: nat): (ids: seq<nat>)
    ensures forall id :: id in ids <==> id in t.bindings && id < n
  {
    if n == 0 then [] else IdsBelow(t, n - 1) + if n - 1 in t.bindings then [n - 1] else []
  }

  function Ids(t: Table): seq<nat> {
    IdsBelow(t, t.nextId)
  }

  lemma RemoveFromBucket(t: Table, id: nat, key: BucketKey)
    requires Inv(t) && id in Bucket(t, key)
    ensures Inv(Remove(t, id)) && Bucket(Remove(t, id), key) == Without(Bucket(t, key), id)
    ensures |Bucket(Remove(t, id), key)| == |Bucket(t, key)| - 1
    ensures |Remove(t, id).bindings| == |t.bindings| - 1
  {
    RemoveInv(t, id);
    WithoutMembers(t.buckets[key], id);
    assert t.bindings.Keys == Remove(t, id).bindings.Keys + {id};
  }

  /** Evict from one bucket until it fits; stop when the binding just made has to go. */
  function EnforceBucketCap(t: Table, limits: Limits, id: nat, key: BucketKey): Table
    requires Inv(t)
    decreases |Bucket(t, key)|
  {
    var bucket := Bucket(t, key);
    if |bucket| <= limits.maxBucketSize then t
    else
      var oldest := OldestOf(t, bucket);
      RemoveFromBucket(t, oldest, key);
      if oldest == id then Remove(t, oldest) else EnforceBucketCap(Remove(t, oldest), limits, id, key)
  }

  lemma RemoveShrinks(t: Table, id: nat)
    requires Inv(t) && id in t.bindings
    ensures Inv(Remove(t, id)) && |Remove(t, id).bindings| == |t.bindings| - 1
  {
    RemoveInv(t, id);
    assert t.bindings.Keys == Remove(t, id).bindings.Keys + {id};
  }

  lemma IdsNotEmpty(t: Table)
    requires Inv(t) && |t.bindings| > 0
    ensures Ids(t) != []
  {
    var id :| id in t.bindings;
    assert id in Ids(t);
  }

  /** Evict from the whole table until it fits. */
  function EnforceGroupCap(t: Table, limits: Limits): Table
    requires Inv(t)
    decreases |t.bindings|
  {
    if |t.bindings| <= limits.maxBindings then t
    else
      IdsNotEmpty(t);
      var oldest := OldestOf(t, Ids(t));
      RemoveShrinks(t, oldest);
      EnforceGroupCap(Remove(t, oldest), limits)
  }

  // ----- Binding

  function NewEntry(t: Table, identity: TaskIdentity, targetId: string, now: int): Entry {
    Entry(t.nextIncarnation, targetId, INITIAL_ROUTING_REVISION, BucketKeyFor(identity), EvidenceFor(identity),
          now, now, 1, {}, {})
  }

  /** A new binding, last in its bucket. */
  function Create(t: Table, identity: TaskIdentity, targetId: string, now: int): Table {
    var key := BucketKeyFor(identity);
    Table(t.bindings[t.nextId := NewEntry(t, identity, targetId, now)], t.exactIndex,
          t.buckets[key := Bucket(t, key) + [t.nextId]], t.nextId + 1, t.nextIncarnation + 1)
  }

  lemma CreateBuckets(t: Table, identity: TaskIdentity, targetId: string, now: int)
    requires BucketsHold(t) && BucketsCover(t) && t.nextId !in t.bindings
    ensures BucketsHold(Create(t, identity, targetId, now)) && BucketsCover(Create(t, identity, targetId, now))
  {
    var u := Create(t, identity, targetId, now);
    var key := BucketKeyFor(identity);
    assert t.nextId !in Bucket(t, key);
    forall x | x in u.bindings ensures u.bindings[x].bucketKey in u.buckets && x in u.buckets[u.bindings[x].bucketKey] {
      if x != t.nextId {
        assert x in t.bindings;
      }
    }
  }

  lemma CreateInv(t: Table, identity: TaskIdentity, targetId: string, now: int)
    requires Inv(t)
    ensures Inv(Create(t, identity, targetId, now))
  {
    assert t.nextId !in t.bindings;
    CreateBuckets(t, identity, targetId, now);
  }

  lemma NoteInv(t: Table, id: nat, identity: TaskIdentity)
    requires Inv(t) && id in t.bindings
    ensures Inv(NoteRequestDependencies(t, id, identity))
  {
    if identity.namedResponseKey.Some? {
      var e := t.bindings[id];
      UpdateInv(t, id, e.(responseDependencies := e.responseDependencies + {identity.namedResponseKey.value}));
    }
  }

  lemma RebindInv(t: Table, id: nat, targetId: string, now: int)
    requires Inv(t) && id in t.bindings
    ensures Inv(Rebind(t, id, targetId, now))
  {
    UpdateInv(t, id, Rebind(t, id, targetId, now).bindings[id]);
  }

  function HitId(hit: Hit): nat
    requires !hit.NoHit?
  {
    match hit case ExactKey(_, id) => id case PrefixBucket(id, _) => id
  }

  /** The hit path of a bind. */
  function Refresh(t: Table, now: int, id: nat, identity: TaskIdentity, targetId: string, allowRebind: bool): Table
    requires id in t.bindings
  {
    var u := if t.bindings[id].targetId != targetId && allowRebind then Rebind(t, id, targetId, now) else t;
    NoteRequestDependencies(RegisterExactKeys(u, id, identity.exactKeys), id, identity)
  }

  /** A new binding with its keys and dependency, before the caps. */
  function Admit(t: Table, identity: TaskIdentity, targetId: string, now: int): Table {
    var u := RegisterExactKeys(Create(t, identity, targetId, now), t.nextId, identity.exactKeys);
    NoteRequestDependencies(u, t.nextId, identity)
  }

  lemma AdmitInv(t: Table, identity: TaskIdentity, targetId: string, now: int)
    requires Inv(t)
    ensures Inv(Admit(t, identity, targetId, now))
  {
    CreateInv(t, identity, targetId, now);
    RegisterInv(Create(t, identity, targetId, now), t.nextId, identity.exactKeys);
    NoteInv(RegisterExactKeys(Create(t, identity, targetId, now), t.nextId, identity.exactKeys), t.nextId, identity);
  }

  lemma {:induction false} BucketCapInv(t: Table, limits: Limits, id: nat, key: BucketKey)
    requires Inv(t)
    ensures Inv(EnforceBucketCap(t, limits, id, key))
    decreases |Bucket(t, key)|
  {
    if |Bucket(t, key)| > limits.maxBucketSize {
      var oldest := OldestOf(t, Bucket(t, key));
      RemoveFromBucket(t, oldest, key);
      if oldest != id {
        BucketCapInv(Remove(t, oldest), limits, id, key);
      }
    }
  }

  lemma BucketCapStep(t: Table, limits: Limits, id: nat, key: BucketKey)
    requires Inv(t) && key in t.buckets && |t.buckets[key]| > limits.maxBucketSize
    ensures var oldest := OldestOf(t, t.buckets[key]);
            var u := Remove(t, oldest);
            && Inv(u)
            && EnforceBucketCap(t, limits, id, key) == if oldest == id then u else EnforceBucketCap(u, limits, id, key)
  {
    RemoveInv(t, OldestOf(t, t.buckets[key]));
  }

  lemma BucketCapDone(t: Table, limits: Limits, id: nat, key: BucketKey)
    requires Inv(t) && !(key in t.buckets && |t.buckets[key]| > limits.maxBucketSize)
    ensures EnforceBucketCap(t, limits, id, key) == t
  {
  }

  lemma {:induction false} GroupCapInv(t: Table, limits: Limits)
    requires Inv(t)
    ensures Inv(EnforceGroupCap(t, limits))
    decreases |t.bindings|
  {
    if |t.bindings| > limits.maxBindings {
      IdsNotEmpty(t);
      var oldest := OldestOf(t, Ids(t));
      RemoveShrinks(t, oldest);
      GroupCapInv(Remove(t, oldest), limits);
    }
  }

  lemma {:induction false} LookupHitPresent(t: Table, limits: Limits, now: int, identity: TaskIdentity,
                                            allowed: Option<set<string>>)
    ensures var (hit, u) := Lookup(t, limits, now, identity, allowed);
            !hit.NoHit? ==> HitId(hit) in u.bindings
  {
    ExactHitPresent(t, limits, now, identity.exactKeys, identity, allowed);
    var u := LookupExact(t, limits, now, identity.exactKeys, identity, allowed).1;
    if BucketKeyFor(identity) in u.buckets {
      var ordered := ByRecency(u, u.buckets[BucketKeyFor(identity)]);
      ScanHitPresent(u, limits, now, ordered[..Min(limits.maxBucketScan, |ordered|)], 0, identity, allowed);
    }
  }

  lemma {:induction false} ExactHitPresent(t: Table, limits: Limits, now: int, keys: seq<string>,
                                           identity: TaskIdentity, allowed: Option<set<string>>)
    ensures var (hit, u) := LookupExact(t, limits, now, keys, identity, allowed);
            !hit.NoHit? ==> HitId(hit) in u.bindings
    decreases keys
  {
    if keys != [] {
      if keys[0] !in t.exactIndex {
        ExactHitPresent(t, limits, now, keys[1..], identity, allowed);
      } else {
        var id := t.exactIndex[keys[0]];
        ExactHitPresent(DetachExactKey(Remove(t, id), id, keys[0]), limits, now, keys[1..], identity, allowed);
        ExactHitPresent(DetachExactKey(t, id, keys[0]), limits, now, keys[1..], identity, allowed);
      }
    }
  }

  lemma {:induction false} ScanHitPresent(t: Table, limits: Limits, now: int, ids: seq<nat>, scanned: nat,
                                          identity: TaskIdentity, allowed: Option<set<string>>)
    ensures var (hit, u) := Scan(t, limits, now, ids, scanned, identity, allowed);
            !hit.NoHit? ==> HitId(hit) in u.bindings
    decreases ids
  {
    if ids != [] {
      ScanHitPresent(Remove(t, ids[0]), limits, now, ids[1..], scanned + 1, identity, allowed);
      ScanHitPresent(t, limits, now, ids[1..], scanned + 1, identity, allowed);
    }
  }

  /** The table after a bind, and the binding it returns. */
  function Bind(t: Table, limits: Limits, now: int, identity: TaskIdentity, targetId: string,
                allowRebind: bool): (Table, nat)
    requires Inv(t)
  {
    var (hit, u) := Lookup(t, limits, now, identity, None);
    LookupInv(t, limits, now, identity, None);
    LookupHitPresent(t, limits, now, identity, None);
    if !hit.NoHit? then (Refresh(u, now, HitId(hit), identity, targetId, allowRebind), HitId(hit))
    else
      var v := Admit(u, identity, targetId, now);
      AdmitInv(u, identity, targetId, now);
      BucketCapInv(v, limits, u.nextId, BucketKeyFor(identity));
      (EnforceGroupCap(EnforceBucketCap(v, limits, u.nextId, BucketKeyFor(identity)), limits), u.nextId)
  }

  lemma BindInv(t: Table, limits: Limits, now: int, identity: TaskIdentity, targetId: string, allowRebind: bool)
    requires Inv(t)
    ensures Inv(Bind(t, limits, now, identity, targetId, allowRebind).0)
  {
    var (hit, u) := Lookup(t, limits, now, identity, None);
    LookupInv(t, limits, now, identity, None);
    LookupHitPresent(t, limits, now, identity, None);
    if !hit.NoHit? {
      var id := HitId(hit);
      RebindInv(u, id, targetId, now);
      var v := if u.bindings[id].targetId != targetId && allowRebind then Rebind(u, id, targetId, now) else u;
      RegisterInv(v, id, identity.exactKeys);
      NoteInv(RegisterExactKeys(v, id, identity.exactKeys), id, identity);
    } else {
      var v := Admit(u, identity, targetId, now);
      AdmitInv(u, identity, targetId, now);
      BucketCapInv(v, limits, u.nextId, BucketKeyFor(identity));
      GroupCapInv(EnforceBucketCap(v, limits, u.nextId, BucketKeyFor(identity)), limits);
    }
  }

  // ----- Sweeping and pruning

  function IdsWhere(t: Table, ids: seq<nat>, doomed: Entry -> bool): seq<nat> {
    if ids == [] then []
    else IdsWhere(t, ids[..|ids| - 1], doomed) +
         var id := ids[|ids| - 1]; if id in t.bindings && doomed(t.bindings[id]) then [id] else []
  }

  function SweepExpired(t: Table, limits: Limits, now: int): Table {
    RemoveAll(t, IdsWhere(t, Ids(t), (e: Entry) => Expired(limits, now, e)))
  }

  function PruneTargets(t: Table, allowed: set<string>): Table {
    RemoveAll(t, IdsWhere(t, Ids(t), (e: Entry) => e.targetId !in allowed))
  }

  function Clear(t: Table): Table {
    RemoveAll(t, Ids(t))
  }

  function EmptyTable(): Table {
    Table(map[], map[], map[], 1, 1)
  }
}
