/** What a bind promises its caller, and what any run of operations keeps about where a task is
    routed. */
module AffinityGuarantees {
  import opened AffinityModel

  // ----- The caps

  ghost predicate CapsHold(t: Table, limits: Limits) {
    |t.bindings| <= limits.maxBindings &&
    forall key :: key in t.buckets ==> |t.buckets[key]| <= limits.maxBucketSize
  }

  /** Nothing in the table was seen after `now`. */
  ghost predicate SeenBy(t: Table, now: int) {
    forall id :: id in t.bindings ==> t.bindings[id].lastSeenAt <= now
  }

  /** `u` is `t` without some bindings: what stays is unchanged, and so are the keys of what stays. */
  ghost predicate OnlyRemoved(t: Table, u: Table) {
    && (forall id :: id in u.bindings ==> id in t.bindings && u.bindings[id] == t.bindings[id])
    && (forall k :: k in u.exactIndex ==> k in t.exactIndex && u.exactIndex[k] == t.exactIndex[k])
    && (forall k :: k in t.exactIndex && t.exactIndex[k] in u.bindings ==> k in u.exactIndex)
    && (forall key :: key in u.buckets ==> key in t.buckets && |u.buckets[key]| <= |t.buckets[key]|)
    && u.nextId == t.nextId && u.nextIncarnation == t.nextIncarnation
  }

  lemma RemoveOnly(t: Table, id: nat)
    requires Inv(t) && id in t.bindings
    ensures OnlyRemoved(t, Remove(t, id))
    ensures Remove(t, id).bindings == t.bindings - {id}
  {
    var u := Remove(t, id);
    WithoutMembers(t.buckets[t.bindings[id].bucketKey], id);
    forall key | key in u.buckets ensures key in t.buckets && |u.buckets[key]| <= |t.buckets[key]| {
    }
  }

  lemma OnlyRemovedTransitive(t: Table, u: Table, v: Table)
    requires OnlyRemoved(t, u) && OnlyRemoved(u, v)
    ensures OnlyRemoved(t, v)
  {
  }

  lemma OldestIs(t: Table, ids: seq<nat>)
    requires ids != []
    ensures forall x :: x in ids ==> Recency(t, OldestOf(t, ids)) <= Recency(t, x)
  {
    var r := OldestOf(t, ids);
    var i :| FirstOldestAt(t, ids, r, i);
    forall x | x in ids ensures Recency(t, r) <= Recency(t, x) {
      var j :| 0 <= j < |ids| && ids[j] == x;
    }
  }

  /** A candidate seen last, and listed last, is not the first oldest of two or more. */
  lemma NewestStays(t: Table, ids: seq<nat>, id: nat)
    requires |ids| >= 2 && Distinct(ids) && ids[|ids| - 1] == id
    requires forall x :: x in ids ==> Recency(t, x) <= Recency(t, id)
    ensures OldestOf(t, ids) != id
  {
    var r := OldestOf(t, ids);
    var i :| FirstOldestAt(t, ids, r, i);
    assert ids[0] in ids;
  }

  ghost function InBucket(t: Table, key: BucketKey): set<nat> {
    set id | id in t.bindings && t.bindings[id].bucketKey == key
  }

  lemma {:induction false} WithoutLast(s: seq<nat>, id: nat)
    requires s != [] && Distinct(s) && s[|s| - 1] != id
    ensures Without(s, id) != [] && Without(s, id)[|Without(s, id)| - 1] == s[|s| - 1]
  {
    if s[0] != id && |s| > 1 {
      WithoutLast(s[1..], id);
    }
  }

  lemma BucketIs(t: Table, key: BucketKey)
    requires Inv(t)
    ensures Distinct(Bucket(t, key)) && forall x :: x in Bucket(t, key) <==> x in InBucket(t, key)
  {
  }

  /** The new binding `id` is last in its bucket and seen no earlier than any other. */
  ghost predicate NewestInBucket(t: Table, id: nat, key: BucketKey) {
    && key in t.buckets && t.buckets[key] != [] && t.buckets[key][|t.buckets[key]| - 1] == id
    && id in t.bindings && SeenBy(t, t.bindings[id].lastSeenAt)
  }

  /** One eviction from a bucket over its cap. */
  lemma EvictFromBucket(t: Table, id: nat, key: BucketKey) returns (oldest: nat)
    requires Inv(t) && NewestInBucket(t, id, key) && |t.buckets[key]| >= 2
    ensures oldest == OldestOf(t, t.buckets[key]) && oldest != id && oldest in t.bindings
    ensures var u := Remove(t, oldest);
            && Inv(u) && OnlyRemoved(t, u) && |Bucket(u, key)| == |t.buckets[key]| - 1 && NewestInBucket(u, id, key)
  {
    oldest := OldestOf(t, t.buckets[key]);
    BucketIs(t, key);
    NewestStays(t, t.buckets[key], id);
    RemoveFromBucket(t, oldest, key);
    RemoveOnly(t, oldest);
    EvictionKeepsNewest(t, id, key, oldest);
  }

  lemma EvictionKeepsNewest(t: Table, id: nat, key: BucketKey, oldest: nat)
    requires Inv(t) && NewestInBucket(t, id, key) && oldest in t.buckets[key] && oldest != id
    requires OnlyRemoved(t, Remove(t, oldest)) && id in Remove(t, oldest).bindings
    requires Bucket(Remove(t, oldest), key) == Without(t.buckets[key], oldest)
    ensures NewestInBucket(Remove(t, oldest), id, key)
  {
    BucketIs(t, key);
    WithoutLast(t.buckets[key], oldest);
  }

  /** Evicting from the new binding's bucket: the cap holds, and the new binding stays. */
  lemma {:induction false} BucketCapKeeps(t: Table, limits: Limits, id: nat, key: BucketKey)
    requires Inv(t) && limits.maxBucketSize >= 1 && NewestInBucket(t, id, key)
    ensures var u := EnforceBucketCap(t, limits, id, key);
            OnlyRemoved(t, u) && id in u.bindings && |Bucket(u, key)| <= limits.maxBucketSize
    decreases |Bucket(t, key)|
  {
    if |Bucket(t, key)| > limits.maxBucketSize {
      var oldest := EvictFromBucket(t, id, key);
      var u := Remove(t, oldest);
      BucketCapKeeps(u, limits, id, key);
      var v := EnforceBucketCap(u, limits, id, key);
      assert v == EnforceBucketCap(t, limits, id, key);
      OnlyRemovedTransitive(t, u, v);
    }
  }

  lemma {:induction false} IdsBelowSorted(t: Table, n: nat)
    ensures forall i, j :: 0 <= i < j < |IdsBelow(t, n)| ==> IdsBelow(t, n)[i] < IdsBelow(t, n)[j]
  {
    if n > 0 {
      IdsBelowSorted(t, n - 1);
      var below := IdsBelow(t, n - 1);
      forall i | 0 <= i < |below| ensures below[i] < n - 1 {
        assert below[i] in below;
      }
    }
  }

  lemma NewestIdLast(t: Table, id: nat)
    requires Inv(t) && id in t.bindings && id + 1 == t.nextId
    ensures Ids(t) != [] && Ids(t)[|Ids(t)| - 1] == id && Distinct(Ids(t))
    ensures forall x :: x in Ids(t) <==> x in t.bindings
    ensures |t.bindings| > 1 ==> |Ids(t)| > 1
  {
    IdsBelowSorted(t, t.nextId);
    assert id in Ids(t);
    assert t.bindings.Keys == set x | x in Ids(t);
    if |Ids(t)| == 1 {
      assert (set x | x in Ids(t)) == {Ids(t)[0]};
      assert |t.bindings.Keys| == 1;
    }
  }

  lemma {:induction false} GroupCapKeeps(t: Table, limits: Limits, id: nat)
    requires Inv(t) && limits.maxBindings >= 1 && id in t.bindings && id + 1 == t.nextId && SeenBy(t, Recency(t, id))
    ensures var u := EnforceGroupCap(t, limits);
            OnlyRemoved(t, u) && id in u.bindings && |u.bindings| <= limits.maxBindings
    decreases |t.bindings|
  {
    if |t.bindings| > limits.maxBindings {
      NewestIdLast(t, id);
      var oldest := OldestOf(t, Ids(t));
      NewestStays(t, Ids(t), id);
      RemoveShrinks(t, oldest);
      RemoveOnly(t, oldest);
      var u := Remove(t, oldest);
      GroupCapKeeps(u, limits, id);
      OnlyRemovedTransitive(t, u, EnforceGroupCap(u, limits));
    }
  }

  // ----- What never moves a task

  /** The parts of a binding that only a rebind, or a request that names a response, may change. */
  ghost predicate SameRoute(e: Entry, f: Entry) {
    && f.incarnation == e.incarnation && f.bucketKey == e.bucketKey && f.evidence == e.evidence
    && f.targetId == e.targetId && f.routingRevision == e.routingRevision
    && f.responseDependencies == e.responseDependencies
  }

  ghost predicate QuietEntry(e: Entry, f: Entry, now: int) {
    SameRoute(e, f) && (f.lastSeenAt == e.lastSeenAt || f.lastSeenAt == now)
  }

  /** Bindings may go, be seen again, and gain or lose keys; none appears, and none is re-routed. */
  ghost predicate Quiet(t: Table, u: Table, now: int) {
    && u.bindings.Keys <= t.bindings.Keys
    && (forall id {:trigger u.bindings[id]} :: id in u.bindings ==> QuietEntry(t.bindings[id], u.bindings[id], now))
    && u.buckets.Keys <= t.buckets.Keys
    && (forall key {:trigger u.buckets[key]} :: key in u.buckets ==> |u.buckets[key]| <= |t.buckets[key]|)
    && u.nextId == t.nextId && u.nextIncarnation == t.nextIncarnation
  }

  lemma QuietTransitive(t: Table, u: Table, v: Table, now: int)
    requires Quiet(t, u, now) && Quiet(u, v, now)
    ensures Quiet(t, v, now)
  {
  }

  lemma QuietCaps(t: Table, u: Table, limits: Limits, now: int)
    requires Quiet(t, u, now) && CapsHold(t, limits) && SeenBy(t, now)
    ensures CapsHold(u, limits) && SeenBy(u, now)
  {
    assert u.bindings.Keys <= t.bindings.Keys;
    SubsetSize(u.bindings.Keys, t.bindings.Keys);
  }

  lemma {:induction false} SubsetSize<T>(a: set<T>, b: set<T>)
    requires a <= b
    ensures |a| <= |b|
  {
    assert b == a + (b - a);
  }

  lemma RemoveQuiet(t: Table, id: nat, now: int)
    requires Inv(t)
    ensures Quiet(t, Remove(t, id), now)
  {
    if id in t.bindings {
      RemoveOnly(t, id);
    }
  }

  /** What a key whose binding is not used leaves behind. */
  lemma MissQuiet(t: Table, id: nat, key: string, gone: bool, now: int) returns (u: Table)
    requires Inv(t) && key in t.exactIndex && t.exactIndex[key] == id
    ensures u == DetachExactKey(if gone then Remove(t, id) else t, id, key)
    ensures Inv(u) && Quiet(t, u, now)
  {
    var v := if gone then Remove(t, id) else t;
    RemoveInv(t, id);
    RemoveQuiet(t, id, now);
    DetachInv(v, id, key);
    u := DetachExactKey(v, id, key);
    DetachQuiet(v, id, key, now);
    QuietTransitive(t, v, u, now);
  }

  lemma DetachQuiet(t: Table, id: nat, key: string, now: int)
    ensures Quiet(t, DetachExactKey(t, id, key), now)
  {
  }

  lemma {:induction false} ExactQuiet(t: Table, limits: Limits, now: int, keys: seq<string>, identity: TaskIdentity,
                                      allowed: Option<set<string>>)
    requires Inv(t)
    ensures Quiet(t, LookupExact(t, limits, now, keys, identity, allowed).1, now)
    decreases keys
  {
    if keys != [] {
      if keys[0] !in t.exactIndex {
        ExactQuiet(t, limits, now, keys[1..], identity, allowed);
      } else {
        var id := t.exactIndex[keys[0]];
        var verdict := Judge(t, limits, now, id, identity, allowed);
        if !verdict.Usable? {
          var v := MissQuiet(t, id, keys[0], verdict.Lapsed?, now);
          ExactQuiet(v, limits, now, keys[1..], identity, allowed);
          QuietTransitive(t, v, LookupExact(v, limits, now, keys[1..], identity, allowed).1, now);
        }
      }
    }
  }

  lemma {:induction false} ScanQuiet(t: Table, limits: Limits, now: int, ids: seq<nat>, scanned: nat,
                                     identity: TaskIdentity, allowed: Option<set<string>>)
    requires Inv(t)
    ensures Quiet(t, Scan(t, limits, now, ids, scanned, identity, allowed).1, now)
    decreases ids
  {
    if ids != [] {
      ScanQuiet(t, limits, now, ids[1..], scanned + 1, identity, allowed);
      if Judge(t, limits, now, ids[0], identity, allowed).Lapsed? {
        var u := Remove(t, ids[0]);
        RemoveInv(t, ids[0]);
        RemoveQuiet(t, ids[0], now);
        ScanQuiet(u, limits, now, ids[1..], scanned + 1, identity, allowed);
        QuietTransitive(t, u, Scan(u, limits, now, ids[1..], scanned + 1, identity, allowed).1, now);
      }
    }
  }

  /** A lookup re-routes nothing. */
  lemma LookupQuiet(t: Table, limits: Limits, now: int, identity: TaskIdentity, allowed: Option<set<string>>)
    requires Inv(t)
    ensures Quiet(t, Lookup(t, limits, now, identity, allowed).1, now)
  {
    ExactQuiet(t, limits, now, identity.exactKeys, identity, allowed);
    LookupExactInv(t, limits, now, identity.exactKeys, identity, allowed);
    var u := LookupExact(t, limits, now, identity.exactKeys, identity, allowed).1;
    if BucketKeyFor(identity) in u.buckets {
      var ordered := ByRecency(u, u.buckets[BucketKeyFor(identity)]);
      var ids := ordered[..Min(limits.maxBucketScan, |ordered|)];
      ScanQuiet(u, limits, now, ids, 0, identity, allowed);
      QuietTransitive(t, u, Scan(u, limits, now, ids, 0, identity, allowed).1, now);
    }
  }

  // ----- What a hit is

  /** The hit binding was just seen and its evidence describes the request. */
  ghost predicate GoodHit(hit: Hit, u: Table, now: int, identity: TaskIdentity) {
    !hit.NoHit? ==>
      && HitId(hit) in u.bindings && u.bindings[HitId(hit)].lastSeenAt == now
      && Describes(u.bindings[HitId(hit)].evidence, identity)
  }

  lemma {:induction false} ExactHitGood(t: Table, limits: Limits, now: int, keys: seq<string>, identity: TaskIdentity,
                                        allowed: Option<set<string>>)
    ensures var (hit, u) := LookupExact(t, limits, now, keys, identity, allowed); GoodHit(hit, u, now, identity)
    decreases keys
  {
    if keys != [] {
      if keys[0] !in t.exactIndex {
        ExactHitGood(t, limits, now, keys[1..], identity, allowed);
      } else {
        var id := t.exactIndex[keys[0]];
        ExactHitGood(DetachExactKey(Remove(t, id), id, keys[0]), limits, now, keys[1..], identity, allowed);
        ExactHitGood(DetachExactKey(t, id, keys[0]), limits, now, keys[1..], identity, allowed);
      }
    }
  }

  lemma {:induction false} ScanHitGood(t: Table, limits: Limits, now: int, ids: seq<nat>, scanned: nat,
                                       identity: TaskIdentity, allowed: Option<set<string>>)
    ensures var (hit, u) := Scan(t, limits, now, ids, scanned, identity, allowed); GoodHit(hit, u, now, identity)
    decreases ids
  {
    if ids != [] {
      ScanHitGood(Remove(t, ids[0]), limits, now, ids[1..], scanned + 1, identity, allowed);
      ScanHitGood(t, limits, now, ids[1..], scanned + 1, identity, allowed);
    }
  }

  lemma LookupHitGood(t: Table, limits: Limits, now: int, identity: TaskIdentity, allowed: Option<set<string>>)
    ensures var (hit, u) := Lookup(t, limits, now, identity, allowed); GoodHit(hit, u, now, identity)
  {
    ExactHitGood(t, limits, now, identity.exactKeys, identity, allowed);
    var u := LookupExact(t, limits, now, identity.exactKeys, identity, allowed).1;
    if BucketKeyFor(identity) in u.buckets {
      var ordered := ByRecency(u, u.buckets[BucketKeyFor(identity)]);
      ScanHitGood(u, limits, now, ordered[..Min(limits.maxBucketScan, |ordered|)], 0, identity, allowed);
    }
  }

  // ----- What a bind promises

  ghost predicate KeysPoint(t: Table, id: nat, keys: seq<string>) {
    forall k :: k in keys && k != "" ==> k in t.exactIndex && t.exactIndex[k] == id
  }

  lemma {:induction false} RegisterFacts(t: Table, id: nat, keys: seq<string>)
    requires id in t.bindings
    ensures var u := RegisterExactKeys(t, id, keys);
            && u.bindings.Keys == t.bindings.Keys && u.buckets == t.buckets
            && u.nextId == t.nextId && u.nextIncarnation == t.nextIncarnation
            && (forall x :: x in t.bindings && x != id ==> u.bindings[x] == t.bindings[x])
            && u.bindings[id] == t.bindings[id].(exactKeys := u.bindings[id].exactKeys)
            && KeysPoint(u, id, keys)
            && (forall k :: k in t.exactIndex && t.exactIndex[k] == id ==> k in u.exactIndex && u.exactIndex[k] == id)
    decreases keys
  {
    if keys != [] {
      assert keys == [keys[0]] + keys[1..];
      if keys[0] == "" {
        RegisterFacts(t, id, keys[1..]);
      } else {
        var e := t.bindings[id];
        var u := Update(t, id, e.(exactKeys := e.exactKeys + {keys[0]}));
        RegisterFacts(u.(exactIndex := t.exactIndex[keys[0] := id]), id, keys[1..]);
      }
    }
  }

  /** An identity whose keys all point at one usable binding finds it by its first real key. */
  lemma {:induction false} KeysFind(t: Table, limits: Limits, now: int, keys: seq<string>, identity: TaskIdentity,
                                    id: nat)
    requires "" !in t.exactIndex && KeysPoint(t, id, keys) && exists k :: k in keys && k != ""
    requires Judge(t, limits, now, id, identity, None).Usable?
    ensures var hit := LookupExact(t, limits, now, keys, identity, None).0;
            hit.ExactKey? && hit.id == id && hit.exactKey in keys
    decreases keys
  {
    assert keys == [keys[0]] + keys[1..];
    if keys[0] == "" {
      KeysFind(t, limits, now, keys[1..], identity, id);
    }
  }

  lemma DescribesSelf(identity: TaskIdentity)
    ensures Describes(EvidenceFor(identity), identity)
  {
  }

  /** The binding is there, just seen, describes the identity, and holds its keys. */
  ghost predicate Bound(u: Table, id: nat, now: int, identity: TaskIdentity) {
    && id in u.bindings && u.bindings[id].lastSeenAt == now
    && Describes(u.bindings[id].evidence, identity) && KeysPoint(u, id, identity.exactKeys)
  }

  lemma RefreshBound(t: Table, now: int, id: nat, identity: TaskIdentity, targetId: string, allowRebind: bool)
    requires id in t.bindings && t.bindings[id].lastSeenAt == now && Describes(t.bindings[id].evidence, identity)
    ensures var u := Refresh(t, now, id, identity, targetId, allowRebind);
            && Bound(u, id, now, identity) && u.bindings.Keys == t.bindings.Keys && u.buckets == t.buckets
            && forall x :: x in u.bindings ==> u.bindings[x].lastSeenAt == t.bindings[x].lastSeenAt
  {
    var v := if t.bindings[id].targetId != targetId && allowRebind then Rebind(t, id, targetId, now) else t;
    assert v.bindings[id].lastSeenAt == now && v.bindings[id].evidence == t.bindings[id].evidence;
    RegisterFacts(v, id, identity.exactKeys);
    NoteBound(RegisterExactKeys(v, id, identity.exactKeys), id, now, identity);
  }

  lemma NoteBound(t: Table, id: nat, now: int, identity: TaskIdentity)
    requires Bound(t, id, now, identity)
    ensures var u := NoteRequestDependencies(t, id, identity);
            && Bound(u, id, now, identity) && u.bindings.Keys == t.bindings.Keys && u.buckets == t.buckets
            && forall x :: x in u.bindings ==> u.bindings[x].lastSeenAt == t.bindings[x].lastSeenAt
  {
  }

  lemma AdmitBound(t: Table, identity: TaskIdentity, targetId: string, now: int)
    requires Inv(t)
    ensures var (u, key) := (Admit(t, identity, targetId, now), BucketKeyFor(identity));
            && Bound(u, t.nextId, now, identity)
            && u.bindings.Keys == t.bindings.Keys + {t.nextId} && u.nextId == t.nextId + 1
            && u.buckets == t.buckets[key := Bucket(t, key) + [t.nextId]]
            && (forall x :: x in t.bindings ==> u.bindings[x] == t.bindings[x])
            && u.bindings[t.nextId].bucketKey == key && u.bindings[t.nextId].routingRevision == INITIAL_ROUTING_REVISION
            && u.bindings[t.nextId].targetId == targetId && u.bindings[t.nextId].incarnation == t.nextIncarnation
            && u.nextIncarnation == t.nextIncarnation + 1
  {
    assert t.nextId !in t.bindings;
    DescribesSelf(identity);
    RegisterFacts(Create(t, identity, targetId, now), t.nextId, identity.exactKeys);
  }

  lemma RemovedBound(t: Table, u: Table, id: nat, now: int, identity: TaskIdentity)
    requires Bound(t, id, now, identity) && OnlyRemoved(t, u) && id in u.bindings
    ensures Bound(u, id, now, identity)
  {
  }

  /** The table just after a new binding was admitted, before the caps. */
  ghost predicate Admitted(t: Table, limits: Limits, id: nat, key: BucketKey, now: int) {
    && Inv(t) && SeenBy(t, now) && NewestInBucket(t, id, key) && id + 1 == t.nextId
    && forall k :: k in t.buckets && k != key ==> |t.buckets[k]| <= limits.maxBucketSize
  }

  lemma AdmitReady(t: Table, limits: Limits, identity: TaskIdentity, targetId: string, now: int)
    requires Inv(t) && CapsHold(t, limits) && SeenBy(t, now)
    ensures var v := Admit(t, identity, targetId, now);
            Admitted(v, limits, t.nextId, BucketKeyFor(identity), now) && Bound(v, t.nextId, now, identity)
  {
    AdmitInv(t, identity, targetId, now);
    AdmitBound(t, identity, targetId, now);
    AdmitNewest(t, Admit(t, identity, targetId, now), BucketKeyFor(identity), now);
  }

  /** One binding more, seen now and last in its bucket. */
  lemma AdmitNewest(t: Table, v: Table, key: BucketKey, now: int)
    requires SeenBy(t, now)
    requires v.bindings.Keys == t.bindings.Keys + {t.nextId} && v.bindings[t.nextId].lastSeenAt == now
    requires forall x :: x in t.bindings ==> v.bindings[x] == t.bindings[x]
    requires v.buckets == t.buckets[key := Bucket(t, key) + [t.nextId]]
    ensures SeenBy(v, now) && NewestInBucket(v, t.nextId, key)
  {
  }

  lemma BucketCapped(t: Table, limits: Limits, id: nat, key: BucketKey, now: int, identity: TaskIdentity)
    requires Admitted(t, limits, id, key, now) && Bound(t, id, now, identity) && limits.maxBucketSize >= 1
    ensures var u := EnforceBucketCap(t, limits, id, key);
            && Inv(u) && SeenBy(u, now) && Bound(u, id, now, identity) && id + 1 == u.nextId
            && (forall k :: k in u.buckets ==> |u.buckets[k]| <= limits.maxBucketSize)
            && OnlyRemoved(t, u)
  {
    BucketCapKeeps(t, limits, id, key);
    BucketCapInv(t, limits, id, key);
    var u := EnforceBucketCap(t, limits, id, key);
    RemovedBound(t, u, id, now, identity);
  }

  lemma GroupCapped(t: Table, limits: Limits, id: nat, now: int, identity: TaskIdentity)
    requires Inv(t) && SeenBy(t, now) && Bound(t, id, now, identity) && id + 1 == t.nextId && limits.maxBindings >= 1
    requires forall k :: k in t.buckets ==> |t.buckets[k]| <= limits.maxBucketSize
    ensures var u := EnforceGroupCap(t, limits);
            CapsHold(u, limits) && SeenBy(u, now) && Bound(u, id, now, identity) && OnlyRemoved(t, u)
  {
    GroupCapKeeps(t, limits, id);
    RemovedBound(t, EnforceGroupCap(t, limits), id, now, identity);
  }

  /** The miss path of a bind: both caps hold afterwards, and the new binding is among what stays. */
  lemma BindMiss(t: Table, limits: Limits, now: int, identity: TaskIdentity, targetId: string) returns (u: Table)
    requires Inv(t) && CapsHold(t, limits) && SeenBy(t, now)
    requires limits.maxBindings >= 1 && limits.maxBucketSize >= 1
    ensures var v := Admit(t, identity, targetId, now);
            && Inv(v) && Inv(EnforceBucketCap(v, limits, t.nextId, BucketKeyFor(identity)))
            && u == EnforceGroupCap(EnforceBucketCap(v, limits, t.nextId, BucketKeyFor(identity)), limits)
    ensures CapsHold(u, limits) && SeenBy(u, now) && Bound(u, t.nextId, now, identity)
  {
    var v := Admit(t, identity, targetId, now);
    AdmitReady(t, limits, identity, targetId, now);
    BucketCapped(v, limits, t.nextId, BucketKeyFor(identity), now, identity);
    var w := EnforceBucketCap(v, limits, t.nextId, BucketKeyFor(identity));
    GroupCapped(w, limits, t.nextId, now, identity);
    u := EnforceGroupCap(w, limits);
  }

  /** With caps of one or more and a clock that does not run backwards: after a bind both caps hold,
      the binding it returned is in the table, and looking the request up at once finds that same
      binding by an exact key whenever the request has one. */
  lemma BindSettles(t: Table, limits: Limits, now: int, identity: TaskIdentity, targetId: string, allowRebind: bool)
    requires Inv(t) && CapsHold(t, limits) && SeenBy(t, now)
    requires limits.maxBindings >= 1 && limits.maxBucketSize >= 1 && limits.ttlMs >= 0
    ensures var (u, id) := Bind(t, limits, now, identity, targetId, allowRebind);
            && Inv(u) && CapsHold(u, limits) && SeenBy(u, now) && id in u.bindings
            && ((exists k :: k in identity.exactKeys && k != "") ==>
                var hit := Lookup(u, limits, now, identity, None).0;
                hit.ExactKey? && hit.id == id && hit.exactKey in identity.exactKeys)
  {
    BindBound(t, limits, now, identity, targetId, allowRebind);
    BindInv(t, limits, now, identity, targetId, allowRebind);
    var (u, id) := Bind(t, limits, now, identity, targetId, allowRebind);
    if exists k :: k in identity.exactKeys && k != "" {
      BoundFound(u, limits, now, identity, id);
    }
  }

  lemma BoundFound(u: Table, limits: Limits, now: int, identity: TaskIdentity, id: nat)
    requires IndexAgrees(u) && Bound(u, id, now, identity) && limits.ttlMs >= 0
    requires exists k :: k in identity.exactKeys && k != ""
    ensures var hit := Lookup(u, limits, now, identity, None).0;
            hit.ExactKey? && hit.id == id && hit.exactKey in identity.exactKeys
  {
    KeysFind(u, limits, now, identity.exactKeys, identity, id);
  }

  lemma BindBound(t: Table, limits: Limits, now: int, identity: TaskIdentity, targetId: string, allowRebind: bool)
    requires Inv(t) && CapsHold(t, limits) && SeenBy(t, now)
    requires limits.maxBindings >= 1 && limits.maxBucketSize >= 1
    ensures var (u, id) := Bind(t, limits, now, identity, targetId, allowRebind);
            CapsHold(u, limits) && SeenBy(u, now) && Bound(u, id, now, identity)
  {
    var (hit, v) := Lookup(t, limits, now, identity, None);
    LookupInv(t, limits, now, identity, None);
    LookupQuiet(t, limits, now, identity, None);
    LookupHitGood(t, limits, now, identity, None);
    QuietCaps(t, v, limits, now);
    if hit.NoHit? {
      var u := BindMiss(v, limits, now, identity, targetId);
    } else {
      RefreshBound(v, now, HitId(hit), identity, targetId, allowRebind);
      RefreshCaps(v, Refresh(v, now, HitId(hit), identity, targetId, allowRebind), limits, now);
    }
  }

  lemma RefreshCaps(t: Table, u: Table, limits: Limits, now: int)
    requires CapsHold(t, limits) && SeenBy(t, now)
    requires u.bindings.Keys == t.bindings.Keys && u.buckets == t.buckets
    requires forall x :: x in u.bindings ==> u.bindings[x].lastSeenAt == t.bindings[x].lastSeenAt
    ensures CapsHold(u, limits) && SeenBy(u, now)
  {
    assert |u.bindings| == |u.bindings.Keys| && |t.bindings| == |t.bindings.Keys|;
  }
}
