/** Lazy expiry over whole runs: every call commutes with a sweep unless it revives an expired
    binding, so sweeps put anywhere into a run change no later hit. */
module AffinityLaziness {
  import opened AffinityModel
  import opened AffinityExpiry
  import opened AffinityGuarantees
  import opened AffinityRuns
  import opened AffinityCaps

  // ----- Sweeping twice

  /** What was swept earlier is swept again. */
  lemma SweptLater(t: Table, limits: Limits, now: int, later: int)
    requires now <= later
    ensures Swept(Swept(t, limits, now), limits, later) == Swept(t, limits, later)
  {
    var a, b := Live(t, limits, now), Live(t, limits, later);
    assert Live(Swept(t, limits, now), limits, later) == b;
    KeepKeep(t, a, b);
    assert a * b == b;
  }

  lemma SweptInv(t: Table, limits: Limits, now: int)
    requires Inv(t)
    ensures Inv(Swept(t, limits, now)) && Swept(t, limits, now).bindings.Keys == Live(t, limits, now)
  {
    SweepIsKeep(t, limits, now);
  }

  // ----- Held bindings

  lemma IndexSwept(t: Table, limits: Limits, now: int, id: nat, key: string)
    requires id in Live(t, limits, now)
    ensures Swept(t.(exactIndex := t.exactIndex[key := id]), limits, now) ==
            var s := Swept(t, limits, now); s.(exactIndex := s.exactIndex[key := id])
  {
    var u, live := t.(exactIndex := t.exactIndex[key := id]), Live(t, limits, now);
    assert Live(u, limits, now) == live;
    assert KeptIndex(u, live) == KeptIndex(t, live)[key := id];
  }

  lemma {:induction false} RegisterSwept(t: Table, limits: Limits, now: int, id: nat, keys: seq<string>)
    requires id in Live(t, limits, now)
    ensures id in Swept(t, limits, now).bindings && id in Live(RegisterExactKeys(t, id, keys), limits, now)
    ensures Swept(RegisterExactKeys(t, id, keys), limits, now) == RegisterExactKeys(Swept(t, limits, now), id, keys)
    decreases keys
  {
    if keys != [] {
      if keys[0] == "" {
        RegisterSwept(t, limits, now, id, keys[1..]);
      } else {
        var e := t.bindings[id].(exactKeys := t.bindings[id].exactKeys + {keys[0]});
        var u := Update(t, id, e);
        UpdateSwept(t, limits, now, id, e);
        IndexSwept(u, limits, now, id, keys[0]);
        RegisterSwept(u.(exactIndex := t.exactIndex[keys[0] := id]), limits, now, id, keys[1..]);
      }
    }
  }

  lemma UpdateExpired(t: Table, limits: Limits, now: int, id: nat, e: Entry)
    requires id in t.bindings && Expired(limits, now, t.bindings[id]) && Expired(limits, now, e)
    ensures Swept(Update(t, id, e), limits, now) == Swept(t, limits, now)
  {
    var u, live := Update(t, id, e), Live(t, limits, now);
    assert Live(u, limits, now) == live;
    assert KeptBindings(u, live) == KeptBindings(t, live);
  }

  /** None of the keys is that of a live binding. */
  ghost predicate TakesNone(t: Table, limits: Limits, now: int, keys: seq<string>) {
    forall k :: k in keys && k != "" && k in t.exactIndex ==> t.exactIndex[k] !in Live(t, limits, now)
  }

  lemma {:induction false} RegisterExpired(t: Table, limits: Limits, now: int, id: nat, keys: seq<string>)
    requires id in t.bindings && Expired(limits, now, t.bindings[id]) && TakesNone(t, limits, now, keys)
    ensures Swept(RegisterExactKeys(t, id, keys), limits, now) == Swept(t, limits, now)
    decreases keys
  {
    if keys != [] {
      assert keys == [keys[0]] + keys[1..];
      if keys[0] == "" {
        RegisterExpired(t, limits, now, id, keys[1..]);
      } else {
        var e := t.bindings[id].(exactKeys := t.bindings[id].exactKeys + {keys[0]});
        var u := Update(t, id, e);
        UpdateExpired(t, limits, now, id, e);
        var v := u.(exactIndex := t.exactIndex[keys[0] := id]);
        assert Live(u, limits, now) == Live(v, limits, now) == Live(t, limits, now);
        assert KeptIndex(v, Live(t, limits, now)) == KeptIndex(t, Live(t, limits, now));
        RegisterExpired(v, limits, now, id, keys[1..]);
      }
    }
  }

  lemma NoteSwept(t: Table, limits: Limits, now: int, id: nat, identity: TaskIdentity)
    requires id in t.bindings
    ensures Swept(NoteRequestDependencies(t, id, identity), limits, now) ==
            var s := Swept(t, limits, now); if id in s.bindings then NoteRequestDependencies(s, id, identity) else s
  {
    if identity.namedResponseKey.Some? {
      var e := t.bindings[id];
      var f := e.(responseDependencies := e.responseDependencies + {identity.namedResponseKey.value});
      if Expired(limits, now, e) {
        UpdateExpired(t, limits, now, id, f);
      } else {
        UpdateSwept(t, limits, now, id, f);
      }
    }
  }

  lemma RebindSwept(t: Table, limits: Limits, now: int, id: nat, targetId: string)
    requires id in Live(t, limits, now) && limits.ttlMs >= 0
    ensures id in Swept(t, limits, now).bindings && id in Live(Rebind(t, id, targetId, now), limits, now)
    ensures Swept(Rebind(t, id, targetId, now), limits, now) == Rebind(Swept(t, limits, now), id, targetId, now)
  {
    UpdateSwept(t, limits, now, id, Rebind(t, id, targetId, now).bindings[id]);
  }

  // ----- Removals

  lemma RemoveLive(t: Table, limits: Limits, now: int, id: nat)
    requires Inv(t) && id in Live(t, limits, now)
    ensures Swept(Remove(t, id), limits, now) == Remove(Swept(t, limits, now), id)
  {
    var all, live := t.bindings.Keys, Live(t, limits, now);
    SweptInv(t, limits, now);
    RemoveIsKeep(t, id);
    RemoveIsKeep(Swept(t, limits, now), id);
    assert Live(Remove(t, id), limits, now) == live - {id};
    KeepKeep(t, all - {id}, live - {id});
    KeepKeep(t, live, live - {id});
    assert (all - {id}) * (live - {id}) == live * (live - {id});
  }

  /** Keeping some bindings and sweeping may trade places. */
  lemma KeepSwept(t: Table, limits: Limits, now: int, some: set<nat>)
    ensures Swept(Keep(t, some), limits, now) == Keep(t, some * Live(t, limits, now))
    ensures Keep(Swept(t, limits, now), some) == Keep(t, some * Live(t, limits, now))
  {
    var live := Live(t, limits, now);
    assert Live(Keep(t, some), limits, now) == some * live;
    KeepKeep(t, some, some * live);
    KeepKeep(t, live, some);
    assert some * (some * live) == some * live && live * some == some * live;
  }

  lemma KeepSome(t: Table, a: set<nat>, b: set<nat>)
    requires Inv(t) && a * t.bindings.Keys == b * t.bindings.Keys
    ensures Keep(t, a) == Keep(t, b)
  {
    var all := t.bindings.Keys;
    KeepEverything(t);
    KeepKeep(t, all, a);
    KeepKeep(t, all, b);
    assert all * a == a * all && all * b == b * all;
  }

  lemma PruneSwept(t: Table, limits: Limits, now: int, targets: set<string>)
    requires Inv(t)
    ensures PruneTargets(Swept(t, limits, now), targets) == Swept(PruneTargets(t, targets), limits, now)
  {
    var s, kept := Swept(t, limits, now), OnTargets(t, targets);
    SweptInv(t, limits, now);
    PruneIsKeep(t, targets);
    PruneIsKeep(s, targets);
    KeepSwept(t, limits, now, kept);
    SweptTargets(t, limits, now, targets);
    KeepSome(s, kept, OnTargets(s, targets));
  }

  lemma SweptTargets(t: Table, limits: Limits, now: int, targets: set<string>)
    ensures var s := Swept(t, limits, now);
            OnTargets(t, targets) * s.bindings.Keys == OnTargets(s, targets) * s.bindings.Keys
  {
  }

  ghost function OnTargets(t: Table, targets: set<string>): set<nat> {
    set id | id in t.bindings && t.bindings[id].targetId in targets
  }

  lemma ClearIsKeep(t: Table)
    requires Inv(t)
    ensures Clear(t) == Keep(t, {})
  {
    IdsBelowDistinct(t, t.nextId);
    assert t.bindings.Keys - Members(Ids(t)) == {};
    RemoveAllIsKeep(t, Ids(t), {});
  }

  lemma ClearSwept(t: Table, limits: Limits, now: int)
    requires Inv(t)
    ensures Clear(Swept(t, limits, now)) == Swept(Clear(t), limits, now)
  {
    SweptInv(t, limits, now);
    ClearIsKeep(t);
    ClearIsKeep(Swept(t, limits, now));
    KeepSwept(t, limits, now, {});
  }

  // ----- The caps

  lemma {:induction false} KeptSize(ids: seq<nat>, s: set<nat>)
    ensures |Kept(ids, s)| <= |ids|
  {
    if ids != [] {
      KeptSize(ids[1..], s);
    }
  }

  lemma {:induction false} OldestSame(t: Table, u: Table, ids: seq<nat>)
    requires ids != [] && forall x :: x in ids ==> Recency(t, x) == Recency(u, x)
    ensures OldestOf(t, ids) == OldestOf(u, ids)
  {
    if |ids| > 1 {
      assert forall x :: x in ids[..|ids| - 1] ==> x in ids;
      OldestSame(t, u, ids[..|ids| - 1]);
    }
  }

  lemma SweptBucket(t: Table, limits: Limits, now: int, key: BucketKey)
    ensures Bucket(Swept(t, limits, now), key) == Kept(Bucket(t, key), Live(t, limits, now))
  {
  }

  /** When the oldest of some bindings is live, all of them are. */
  lemma AllLive(t: Table, limits: Limits, now: int, ids: seq<nat>)
    requires ids != [] && (forall x :: x in ids ==> x in t.bindings) && OldestOf(t, ids) in Live(t, limits, now)
    ensures forall x :: x in ids ==> x in Live(t, limits, now)
  {
    OldestIs(t, ids);
  }

  /** One eviction from a full bucket whose members are all live. */
  lemma EvictSwept(t: Table, limits: Limits, now: int, key: BucketKey)
    requires Inv(t) && Bucket(t, key) != [] && OldestOf(t, Bucket(t, key)) in Live(t, limits, now)
    ensures var s, oldest := Swept(t, limits, now), OldestOf(t, Bucket(t, key));
            && Bucket(s, key) == Bucket(t, key) && OldestOf(s, Bucket(s, key)) == oldest
            && Swept(Remove(t, oldest), limits, now) == Remove(s, oldest)
  {
    var s, bucket := Swept(t, limits, now), Bucket(t, key);
    BucketIs(t, key);
    AllLive(t, limits, now, bucket);
    SweptBucket(t, limits, now, key);
    KeptFacts(bucket, Live(t, limits, now));
    OldestSame(t, s, bucket);
    RemoveLive(t, limits, now, OldestOf(t, bucket));
  }

  /** Expired members go first, so the bucket cap evicts the same live ones with or without them. */
  lemma {:induction false} BucketCapSwept(t: Table, limits: Limits, now: int, id: nat, key: BucketKey)
    requires Inv(t) && id in Live(t, limits, now)
    ensures Inv(Swept(t, limits, now))
    ensures Swept(EnforceBucketCap(t, limits, id, key), limits, now) ==
            EnforceBucketCap(Swept(t, limits, now), limits, id, key)
    decreases |Bucket(t, key)|
  {
    SweptInv(t, limits, now);
    if key in t.buckets && |t.buckets[key]| > limits.maxBucketSize {
      var oldest := OldestOf(t, Bucket(t, key));
      BucketCapStep(t, limits, id, key);
      OldestGoes(t, limits, now, id, key);
      if oldest != id {
        OldestLeaves(t, limits, now, id, key);
        BucketCapSwept(Remove(t, oldest), limits, now, id, key);
      }
    } else {
      BucketCapDone(t, limits, id, key);
      SweptBucketFits(t, limits, now, id, key);
    }
  }

  lemma OldestLeaves(t: Table, limits: Limits, now: int, id: nat, key: BucketKey)
    requires Inv(t) && id in Live(t, limits, now) && Bucket(t, key) != [] && OldestOf(t, Bucket(t, key)) != id
    ensures var u := Remove(t, OldestOf(t, Bucket(t, key)));
            |Bucket(u, key)| < |Bucket(t, key)| && id in Live(u, limits, now)
  {
    RemoveFromBucket(t, OldestOf(t, Bucket(t, key)), key);
  }

  lemma SweptBucketFits(t: Table, limits: Limits, now: int, id: nat, key: BucketKey)
    requires Inv(t) && Inv(Swept(t, limits, now)) && !(key in t.buckets && |t.buckets[key]| > limits.maxBucketSize)
    ensures EnforceBucketCap(Swept(t, limits, now), limits, id, key) == Swept(t, limits, now)
  {
    SweptBucket(t, limits, now, key);
    KeptSize(Bucket(t, key), Live(t, limits, now));
  }

  /** One eviction, seen in the swept table: the same one when the binding is live, and none when it
      had expired. */
  lemma OldestGoes(t: Table, limits: Limits, now: int, id: nat, key: BucketKey)
    requires Inv(t) && Inv(Swept(t, limits, now)) && id in Live(t, limits, now)
    requires key in t.buckets && |t.buckets[key]| > limits.maxBucketSize
    ensures var s, oldest := Swept(t, limits, now), OldestOf(t, Bucket(t, key));
            var u := Remove(t, oldest);
            && Inv(u) && Inv(Swept(u, limits, now))
            && EnforceBucketCap(s, limits, id, key) ==
               if oldest == id then Swept(u, limits, now) else EnforceBucketCap(Swept(u, limits, now), limits, id, key)
  {
    var oldest := OldestOf(t, Bucket(t, key));
    BucketIs(t, key);
    RemoveInv(t, oldest);
    SweptInv(Remove(t, oldest), limits, now);
    if oldest in Live(t, limits, now) {
      LiveOldestGoes(t, limits, now, id, key);
    } else {
      RemoveSwept(t, limits, now, oldest);
    }
  }

  lemma LiveOldestGoes(t: Table, limits: Limits, now: int, id: nat, key: BucketKey)
    requires Inv(t) && Inv(Swept(t, limits, now)) && key in t.buckets && |t.buckets[key]| > limits.maxBucketSize
    requires OldestOf(t, Bucket(t, key)) in Live(t, limits, now)
    ensures var s, oldest := Swept(t, limits, now), OldestOf(t, Bucket(t, key));
            var v := Swept(Remove(t, oldest), limits, now);
            && Inv(v)
            && EnforceBucketCap(s, limits, id, key) == if oldest == id then v else EnforceBucketCap(v, limits, id, key)
  {
    EvictSwept(t, limits, now, key);
    BucketCapStep(Swept(t, limits, now), limits, id, key);
  }

  lemma NothingExpired(t: Table, limits: Limits, now: int)
    requires Inv(t) && Live(t, limits, now) == t.bindings.Keys
    ensures Swept(t, limits, now) == t
  {
    KeepEverything(t);
  }

  lemma GroupCapAllLive(t: Table, limits: Limits, now: int)
    requires Inv(t) && forall id :: id in t.bindings ==> id in Live(t, limits, now)
    ensures Swept(t, limits, now) == t
    ensures Swept(EnforceGroupCap(t, limits), limits, now) == EnforceGroupCap(t, limits)
  {
    GroupCapOnly(t, limits);
    GroupCapInv(t, limits);
    NothingExpired(t, limits, now);
    NothingExpired(EnforceGroupCap(t, limits), limits, now);
  }

  lemma {:induction false} GroupCapSwept(t: Table, limits: Limits, now: int)
    requires Inv(t)
    ensures Inv(Swept(t, limits, now))
    ensures Swept(EnforceGroupCap(t, limits), limits, now) == EnforceGroupCap(Swept(t, limits, now), limits)
    decreases |t.bindings|
  {
    SweptInv(t, limits, now);
    SubsetSize(Live(t, limits, now), t.bindings.Keys);
    if |t.bindings| > limits.maxBindings {
      IdsNotEmpty(t);
      var oldest := OldestOf(t, Ids(t));
      RemoveShrinks(t, oldest);
      if oldest in Live(t, limits, now) {
        AllLive(t, limits, now, Ids(t));
        GroupCapAllLive(t, limits, now);
      } else {
        RemoveSwept(t, limits, now, oldest);
        GroupCapSwept(Remove(t, oldest), limits, now);
      }
    }
  }

  // ----- Binding

  lemma CreateSwept(t: Table, limits: Limits, now: int, identity: TaskIdentity, targetId: string)
    requires Inv(t) && limits.ttlMs >= 0
    ensures var u := Create(t, identity, targetId, now);
            && t.nextId in Live(u, limits, now)
            && Swept(u, limits, now) == Create(Swept(t, limits, now), identity, targetId, now)
  {
    var u, live := Create(t, identity, targetId, now), Live(t, limits, now);
    assert t.nextId !in t.bindings;
    assert Live(u, limits, now) == live + {t.nextId};
    CreatedBuckets(t, live, BucketKeyFor(identity));
    CreatedEntries(t, live, NewEntry(t, identity, targetId, now));
  }

  lemma CreatedEntries(t: Table, live: set<nat>, e: Entry)
    requires Inv(t)
    ensures var u := t.(bindings := t.bindings[t.nextId := e]);
            && KeptBindings(u, live + {t.nextId}) == KeptBindings(t, live)[t.nextId := e]
            && KeptIndex(u, live + {t.nextId}) == KeptIndex(t, live)
  {
  }

  lemma {:induction false} KeptSnoc(ids: seq<nat>, last: nat, s: set<nat>)
    ensures Kept(ids + [last], s) == Kept(ids, s) + if last in s then [last] else []
  {
    if ids == [] {
      assert ids + [last] == [last];
    } else {
      var rest := ids[1..];
      KeptSnoc(rest, last, s);
      assert (ids + [last])[1..] == rest + [last] && (ids + [last])[0] == ids[0];
      var head, tail := if ids[0] in s then [ids[0]] else [], if last in s then [last] else [];
      assert head + (Kept(rest, s) + tail) == (head + Kept(rest, s)) + tail;
    }
  }

  lemma {:induction false} KeptMore(ids: seq<nat>, s: set<nat>, id: nat)
    requires id !in ids
    ensures Kept(ids, s + {id}) == Kept(ids, s)
  {
    if ids != [] {
      KeptMore(ids[1..], s, id);
    }
  }

  lemma CreatedBuckets(t: Table, live: set<nat>, key: BucketKey)
    requires Inv(t)
    ensures var u := t.(buckets := t.buckets[key := Bucket(t, key) + [t.nextId]]);
            KeptBuckets(u, live + {t.nextId}) ==
            KeptBuckets(t, live)[key := Bucket(Keep(t, live), key) + [t.nextId]]
  {
    var u := t.(buckets := t.buckets[key := Bucket(t, key) + [t.nextId]]);
    forall k | k in t.buckets ensures Kept(t.buckets[k], live + {t.nextId}) == Kept(t.buckets[k], live) {
      KeptMore(t.buckets[k], live, t.nextId);
    }
    KeptSnoc(Bucket(t, key), t.nextId, live + {t.nextId});
    assert Bucket(Keep(t, live), key) == Kept(Bucket(t, key), live);
  }

  lemma AdmitSwept(t: Table, limits: Limits, now: int, identity: TaskIdentity, targetId: string)
    requires Inv(t) && limits.ttlMs >= 0
    ensures var u := Admit(t, identity, targetId, now);
            && t.nextId in Live(u, limits, now)
            && Swept(u, limits, now) == Admit(Swept(t, limits, now), identity, targetId, now)
  {
    var u := Create(t, identity, targetId, now);
    CreateSwept(t, limits, now, identity, targetId);
    RegisterSwept(u, limits, now, t.nextId, identity.exactKeys);
    NoteSwept(RegisterExactKeys(u, t.nextId, identity.exactKeys), limits, now, t.nextId, identity);
  }

  lemma RefreshSwept(t: Table, limits: Limits, now: int, id: nat, identity: TaskIdentity, targetId: string,
                     allowRebind: bool)
    requires id in Live(t, limits, now) && limits.ttlMs >= 0
    ensures id in Swept(t, limits, now).bindings
    ensures Swept(Refresh(t, now, id, identity, targetId, allowRebind), limits, now) ==
            Refresh(Swept(t, limits, now), now, id, identity, targetId, allowRebind)
  {
    var u := if t.bindings[id].targetId != targetId && allowRebind then Rebind(t, id, targetId, now) else t;
    RebindSwept(t, limits, now, id, targetId);
    RegisterSwept(u, limits, now, id, identity.exactKeys);
    NoteSwept(RegisterExactKeys(u, id, identity.exactKeys), limits, now, id, identity);
  }

  lemma LookupSwept(t: Table, limits: Limits, now: int, identity: TaskIdentity, allowed: Option<set<string>>)
    requires Inv(t) && limits.ttlMs >= 0
    ensures var (hit, u) := Lookup(t, limits, now, identity, allowed);
            Inv(u) && Lookup(Swept(t, limits, now), limits, now, identity, allowed) == (hit, Swept(u, limits, now))
  {
    LookupInv(t, limits, now, identity, allowed);
    LazyLookup(t, limits, now, identity, allowed);
    SweepIsKeep(t, limits, now);
    SweepIsKeep(Lookup(t, limits, now, identity, allowed).1, limits, now);
  }

  lemma CapsSwept(t: Table, limits: Limits, now: int, id: nat, key: BucketKey)
    requires Inv(t) && id in Live(t, limits, now)
    ensures Inv(Swept(t, limits, now)) && Inv(EnforceBucketCap(t, limits, id, key))
    ensures Inv(EnforceBucketCap(Swept(t, limits, now), limits, id, key))
    ensures Swept(EnforceGroupCap(EnforceBucketCap(t, limits, id, key), limits), limits, now) ==
            EnforceGroupCap(EnforceBucketCap(Swept(t, limits, now), limits, id, key), limits)
  {
    BucketCapInv(t, limits, id, key);
    BucketCapSwept(t, limits, now, id, key);
    BucketCapInv(Swept(t, limits, now), limits, id, key);
    GroupCapSwept(EnforceBucketCap(t, limits, id, key), limits, now);
  }

  lemma BindSwept(t: Table, limits: Limits, now: int, identity: TaskIdentity, targetId: string, allowRebind: bool)
    requires Inv(t) && limits.ttlMs >= 0
    ensures Inv(Swept(t, limits, now))
    ensures var (u, id) := Bind(t, limits, now, identity, targetId, allowRebind);
            Bind(Swept(t, limits, now), limits, now, identity, targetId, allowRebind) == (Swept(u, limits, now), id)
  {
    SweptInv(t, limits, now);
    LookupSwept(t, limits, now, identity, None);
    LookupHitGood(t, limits, now, identity, None);
    var (hit, u) := Lookup(t, limits, now, identity, None);
    SweptInv(u, limits, now);
    if hit.NoHit? {
      AdmitInv(u, identity, targetId, now);
      AdmitSwept(u, limits, now, identity, targetId);
      CapsSwept(Admit(u, identity, targetId, now), limits, now, u.nextId, BucketKeyFor(identity));
    } else {
      RefreshSwept(u, limits, now, HitId(hit), identity, targetId, allowRebind);
    }
  }

  // ----- Any call

  /** The call does not bring an expired binding back, nor give it a key of a live one. */
  ghost predicate Calm(t: Table, limits: Limits, now: int, op: Operation) {
    && (op.RebindCall? && op.id in t.bindings ==> op.id in Live(t, limits, now))
    && (op.AttachCall? && op.id in t.bindings && op.id !in Live(t, limits, now) ==>
        TakesNone(t, limits, now, ResponseKeys(op.responseIds)))
  }

  lemma HeldSwept(t: Table, limits: Limits, now: int, op: Operation)
    requires Inv(t) && limits.ttlMs >= 0 && Calm(t, limits, now, op)
    requires op.RebindCall? || op.NoteCall? || op.AttachCall?
    ensures Inv(Swept(t, limits, now))
    ensures Swept(Step(t, limits, now, op), limits, now) == Step(Swept(t, limits, now), limits, now, op)
  {
    SweptInv(t, limits, now);
    if op.id in t.bindings {
      match op
      case RebindCall(id, targetId) => RebindSwept(t, limits, now, id, targetId);
      case NoteCall(id, identity) => NoteSwept(t, limits, now, id, identity);
      case AttachCall(id, responseIds) =>
        if id in Live(t, limits, now) {
          RegisterSwept(t, limits, now, id, ResponseKeys(responseIds));
        } else {
          RegisterExpired(t, limits, now, id, ResponseKeys(responseIds));
        }
    }
  }

  lemma RemoveCallSwept(t: Table, limits: Limits, now: int, id: nat)
    requires Inv(t)
    ensures Swept(Remove(t, id), limits, now) == Remove(Swept(t, limits, now), id)
  {
    if id in Live(t, limits, now) {
      RemoveLive(t, limits, now, id);
    } else if id in t.bindings {
      RemoveSwept(t, limits, now, id);
    }
  }

  lemma CalmCommutes(t: Table, limits: Limits, now: int, op: Operation)
    requires Inv(t) && limits.ttlMs >= 0 && Calm(t, limits, now, op)
    ensures Inv(Swept(t, limits, now))
    ensures Swept(Step(t, limits, now, op), limits, now) == Step(Swept(t, limits, now), limits, now, op)
  {
    SweptInv(t, limits, now);
    match op
    case LookupCall(identity, allowed) => LookupSwept(t, limits, now, identity, allowed);
    case BindCall(identity, targetId, allowRebind) => BindSwept(t, limits, now, identity, targetId, allowRebind);
    case RebindCall(_, _) => HeldSwept(t, limits, now, op);
    case NoteCall(_, _) => HeldSwept(t, limits, now, op);
    case AttachCall(_, _) => HeldSwept(t, limits, now, op);
    case _ => RemovalSwept(t, limits, now, op);
  }

  lemma RemovalSwept(t: Table, limits: Limits, now: int, op: Operation)
    requires Inv(t) && Inv(Swept(t, limits, now)) && Removal(op)
    ensures Swept(Step(t, limits, now, op), limits, now) == Step(Swept(t, limits, now), limits, now, op)
  {
    match op
    case RemoveCall(id) => RemoveCallSwept(t, limits, now, id);
    case SweepCall => SweepIsKeep(t, limits, now); SweepIsKeep(Swept(t, limits, now), limits, now);
    case PruneCall(targets) => PruneSwept(t, limits, now, targets);
    case ClearCall => ClearSwept(t, limits, now);
  }

  /** A call that is not calm shows whether the table was swept before it. */
  lemma RevivalShows(t: Table, limits: Limits, now: int, op: Operation)
    requires Inv(t) && limits.ttlMs >= 0 && !Calm(t, limits, now, op)
    ensures Inv(Swept(t, limits, now))
    ensures Swept(Step(t, limits, now, op), limits, now) != Step(Swept(t, limits, now), limits, now, op)
  {
    SweptInv(t, limits, now);
    if op.RebindCall? {
      assert op.id in Swept(Step(t, limits, now, op), limits, now).bindings;
    } else {
      StealingShows(t, limits, now, op.id, ResponseKeys(op.responseIds));
    }
  }

  lemma StealingShows(t: Table, limits: Limits, now: int, id: nat, keys: seq<string>)
    requires id in t.bindings && id !in Live(t, limits, now) && !TakesNone(t, limits, now, keys)
    ensures Swept(RegisterExactKeys(t, id, keys), limits, now) != Swept(t, limits, now)
  {
    var k :| k in keys && k != "" && k in t.exactIndex && t.exactIndex[k] in Live(t, limits, now);
    KeyLost(t, limits, now, id, keys, k);
  }

  /** An expired binding that takes a key over takes it with it. */
  lemma KeyLost(t: Table, limits: Limits, now: int, id: nat, keys: seq<string>, k: string)
    requires id in t.bindings && id !in Live(t, limits, now) && k in keys && k != ""
    requires k in t.exactIndex && t.exactIndex[k] in Live(t, limits, now)
    ensures k in Swept(t, limits, now).exactIndex
    ensures k !in Swept(RegisterExactKeys(t, id, keys), limits, now).exactIndex
  {
    RegisterFacts(t, id, keys);
    var u := RegisterExactKeys(t, id, keys);
    assert u.exactIndex[k] == id && u.bindings[id].lastSeenAt == t.bindings[id].lastSeenAt;
    assert id !in Live(u, limits, now);
  }

  /** For any table, a call and a sweep may trade places exactly when the call neither rebinds an
      expired binding nor gives it a response key of a live one. */
  lemma CommutesExactly(t: Table, limits: Limits, now: int, op: Operation)
    requires Inv(t) && limits.ttlMs >= 0
    ensures Inv(SweepExpired(t, limits, now))
    ensures SweepExpired(Step(t, limits, now, op), limits, now) == Step(SweepExpired(t, limits, now), limits, now, op)
            <==> Calm(t, limits, now, op)
  {
    SweepIsKeep(t, limits, now);
    StepInv(t, limits, now, op);
    SweepIsKeep(Step(t, limits, now, op), limits, now);
    if Calm(t, limits, now, op) {
      CalmCommutes(t, limits, now, op);
    } else {
      RevivalShows(t, limits, now, op);
    }
  }

  // ----- Runs

  /** The run without its sweeps. */
  function WithoutSweeps(run: seq<Timed>): seq<Timed> {
    if run == [] then []
    else
      var init, last := WithoutSweeps(run[..|run| - 1]), run[|run| - 1];
      if last.op.SweepCall? then init else init + [last]
  }

  ghost predicate CalmRun(limits: Limits, run: seq<Timed>) {
    forall i {:trigger run[i]} :: 0 <= i < |run| ==> Calm(Reached(limits, run[..i]), limits, run[i].now, run[i].op)
  }

  ghost predicate CalmNext(limits: Limits, run: seq<Timed>, call: Timed) {
    Calm(Reached(limits, run), limits, call.now, call.op)
  }

  lemma CalmInit(limits: Limits, run: seq<Timed>)
    requires CalmRun(limits, run) && run != []
    ensures CalmRun(limits, run[..|run| - 1])
    ensures CalmNext(limits, run[..|run| - 1], run[|run| - 1])
  {
    var init := run[..|run| - 1];
    forall i | 0 <= i < |init| ensures Calm(Reached(limits, init[..i]), limits, init[i].now, init[i].op) {
      assert init[..i] == run[..i] && init[i] == run[i];
    }
  }

  /** Two tables that a sweep makes equal still are after the same calm call, or a sweep of one. */
  lemma SameStep(t: Table, u: Table, limits: Limits, now: int, op: Operation)
    requires Inv(t) && Inv(u) && limits.ttlMs >= 0 && Swept(t, limits, now) == Swept(u, limits, now)
    requires Calm(t, limits, now, op) && Calm(u, limits, now, op)
    ensures Swept(Step(t, limits, now, op), limits, now) == Swept(Step(u, limits, now, op), limits, now)
    ensures op.SweepCall? ==> Swept(Step(t, limits, now, op), limits, now) == Swept(u, limits, now)
  {
    CalmCommutes(t, limits, now, op);
    CalmCommutes(u, limits, now, op);
    SweepIsKeep(t, limits, now);
    SweptLater(t, limits, now, now);
  }

  lemma SweptOnward(t: Table, u: Table, limits: Limits, now: int, later: int)
    requires Swept(t, limits, now) == Swept(u, limits, now) && now <= later
    ensures Swept(t, limits, later) == Swept(u, limits, later)
  {
    SweptLater(t, limits, now, later);
    SweptLater(u, limits, now, later);
  }

  /** A sweep makes the two runs' tables equal. */
  ghost predicate Meet(limits: Limits, run: seq<Timed>, other: seq<Timed>, now: int) {
    Swept(Reached(limits, run), limits, now) == Swept(Reached(limits, other), limits, now)
  }

  lemma ReachedNext(limits: Limits, run: seq<Timed>, call: Timed)
    ensures Reached(limits, run + [call]) == Step(Reached(limits, run), limits, call.now, call.op)
  {
    assert (run + [call])[..|run|] == run;
  }

  /** One more call in both runs, or a sweep in the first. */
  lemma MeetStep(limits: Limits, run: seq<Timed>, bare: seq<Timed>, call: Timed, now: int)
    requires limits.ttlMs >= 0 && call.now <= now && Meet(limits, run, bare, call.now)
    requires CalmNext(limits, run, call) && CalmNext(limits, bare, call)
    ensures Meet(limits, run + [call], if call.op.SweepCall? then bare else bare + [call], now)
  {
    var t, u := Reached(limits, run), Reached(limits, bare);
    SameStep(t, u, limits, call.now, call.op);
    ReachedNext(limits, run, call);
    ReachedNext(limits, bare, call);
    var v := if call.op.SweepCall? then u else Step(u, limits, call.now, call.op);
    SweptOnward(Step(t, limits, call.now, call.op), v, limits, call.now, now);
  }

  lemma Snoc(run: seq<Timed>, now: int)
    requires Forward(run, now) && run != []
    ensures var init, last := run[..|run| - 1], run[|run| - 1];
            run == init + [last] && Forward(init, last.now) && last.now <= now
  {
  }

  lemma {:induction false} SweepsMeet(limits: Limits, run: seq<Timed>, now: int)
    requires Forward(run, now) && limits.ttlMs >= 0 && CalmRun(limits, run) && CalmRun(limits, WithoutSweeps(run))
    ensures Meet(limits, run, WithoutSweeps(run), now)
    decreases run
  {
    if run != [] {
      var init, last := run[..|run| - 1], run[|run| - 1];
      Snoc(run, now);
      CalmInit(limits, run);
      CalmBare(limits, run);
      SweepsMeet(limits, init, last.now);
      MeetStep(limits, init, WithoutSweeps(init), last, now);
    }
  }

  /** The run without its sweeps stays calm without its last call. */
  lemma CalmBare(limits: Limits, run: seq<Timed>)
    requires CalmRun(limits, WithoutSweeps(run)) && run != []
    ensures var bare := WithoutSweeps(run[..|run| - 1]); CalmRun(limits, bare) && CalmNext(limits, bare, run[|run| - 1])
  {
    var bare, last := WithoutSweeps(run[..|run| - 1]), run[|run| - 1];
    if !last.op.SweepCall? {
      assert WithoutSweeps(run)[..|bare|] == bare;
      CalmInit(limits, WithoutSweeps(run));
    }
  }

  /** Sweeps put anywhere into a run whose times never go back are not seen: a lookup afterwards has
      the same hit and a bind returns the same binding, when no call of either run brought an expired
      binding back. */
  lemma SweepsUnseen(limits: Limits, run: seq<Timed>, now: int, identity: TaskIdentity, allowed: Option<set<string>>,
                     targetId: string, allowRebind: bool)
    requires Forward(run, now) && limits.ttlMs >= 0 && CalmRun(limits, run) && CalmRun(limits, WithoutSweeps(run))
    ensures Lookup(Reached(limits, run), limits, now, identity, allowed).0 ==
            Lookup(Reached(limits, WithoutSweeps(run)), limits, now, identity, allowed).0
    ensures Bind(Reached(limits, run), limits, now, identity, targetId, allowRebind).1 ==
            Bind(Reached(limits, WithoutSweeps(run)), limits, now, identity, targetId, allowRebind).1
  {
    var t, u := Reached(limits, run), Reached(limits, WithoutSweeps(run));
    SweepsMeet(limits, run, now);
    LookupSwept(t, limits, now, identity, allowed);
    LookupSwept(u, limits, now, identity, allowed);
    BindSwept(t, limits, now, identity, targetId, allowRebind);
    BindSwept(u, limits, now, identity, targetId, allowRebind);
  }

  // ----- What a revival shows

  /** After a bind, a rebind later than its time to live finds the binding by its key when no sweep
      came between, and a lookup finds nothing when one did. */
  lemma RevivalSeen(limits: Limits, identity: TaskIdentity, targetId: string, other: string)
    requires limits.maxBindings >= 1 && limits.maxBucketSize >= 1 && limits.ttlMs >= 0
    requires exists k :: k in identity.exactKeys && k != ""
    ensures var bind := Timed(BindCall(identity, targetId, false), 0);
            var rebind := Timed(RebindCall(1, other), limits.ttlMs + 1);
            var sweep := Timed(SweepCall, limits.ttlMs + 1);
            && Lookup(Reached(limits, [bind, rebind]), limits, rebind.now, identity, None).0.ExactKey?
            && Lookup(Reached(limits, [bind, sweep, rebind]), limits, rebind.now, identity, None).0.NoHit?
  {
    var bind, later := Timed(BindCall(identity, targetId, false), 0), limits.ttlMs + 1;
    var rebind, sweep := Timed(RebindCall(1, other), later), Timed(SweepCall, later);
    BoundFirst(limits, identity, targetId);
    ReachedAfter(limits, bind, sweep, rebind);
    RevivedFound(Reached(limits, [bind]), limits, later, identity, other);
    SweptAway(Reached(limits, [bind]), limits, later, identity, other);
  }

  lemma ReachedAfter(limits: Limits, bind: Timed, sweep: Timed, rebind: Timed)
    ensures Reached(limits, [bind, rebind]) == Step(Reached(limits, [bind]), limits, rebind.now, rebind.op)
    ensures Reached(limits, [bind, sweep]) == Step(Reached(limits, [bind]), limits, sweep.now, sweep.op)
    ensures Reached(limits, [bind, sweep, rebind]) ==
      Step(Reached(limits, [bind, sweep]), limits, rebind.now, rebind.op)
  {
    assert [bind, rebind] == [bind] + [rebind];
    assert [bind, sweep] == [bind] + [sweep];
    assert [bind, sweep, rebind] == [bind, sweep] + [rebind];
    ReachedNext(limits, [bind], rebind);
    ReachedNext(limits, [bind], sweep);
    ReachedNext(limits, [bind, sweep], rebind);
  }

  lemma RevivedFound(t: Table, limits: Limits, now: int, identity: TaskIdentity, other: string)
    requires Inv(t) && Bound(t, 1, 0, identity) && limits.ttlMs >= 0 && exists k :: k in identity.exactKeys && k != ""
    ensures Lookup(Step(t, limits, now, RebindCall(1, other)), limits, now, identity, None).0.ExactKey?
  {
    KeysFind(Rebind(t, 1, other, now), limits, now, identity.exactKeys, identity, 1);
  }

  lemma SweptAway(t: Table, limits: Limits, now: int, identity: TaskIdentity, other: string)
    requires Inv(t) && SeenBy(t, 0) && limits.ttlMs < now
    ensures var s := Step(t, limits, now, SweepCall);
            Inv(s) && Lookup(Step(s, limits, now, RebindCall(1, other)), limits, now, identity, None).0.NoHit?
  {
    SweepIsKeep(t, limits, now);
    var s := Swept(t, limits, now);
    assert Live(t, limits, now) == {};
    assert s.bindings == map[];
    NothingFound(s, limits, now, identity);
  }

  lemma NothingFound(t: Table, limits: Limits, now: int, identity: TaskIdentity)
    requires Inv(t) && t.bindings == map[]
    ensures Lookup(t, limits, now, identity, None).0.NoHit?
  {
    LookupHitPresent(t, limits, now, identity, None);
    LookupQuiet(t, limits, now, identity, None);
  }

  /** The first bind of a run makes binding 1, with the request's keys. */
  lemma BoundFirst(limits: Limits, identity: TaskIdentity, targetId: string)
    requires limits.maxBindings >= 1 && limits.maxBucketSize >= 1
    ensures var t := Reached(limits, [Timed(BindCall(identity, targetId, false), 0)]);
            && Bound(t, 1, 0, identity) && SeenBy(t, 0)
  {
    var bind := Timed(BindCall(identity, targetId, false), 0);
    ReachedNext(limits, [], bind);
    assert [] + [bind] == [bind];
    NothingFound(EmptyTable(), limits, 0, identity);
    LookupQuiet(EmptyTable(), limits, 0, identity, None);
    BindBound(EmptyTable(), limits, 0, identity, targetId, false);
  }
}
