/** What each call writes, field by field: where a rebind and a bind point a binding, what a hit, a
    noted request and attached responses leave, and when a binding may serve a request. */
module AffinityRouting {
  import opened AffinityModel
  import opened AffinityGuarantees
  import opened AffinityRuns
  import opened AffinityHits

  // ----- Rebinding

  /** The binding points at the target; a real move counts one revision. */
  ghost predicate PointedAt(e: Entry, f: Entry, targetId: string) {
    && f.targetId == targetId
    && f.routingRevision == e.routingRevision + if e.targetId == targetId then 0 else 1
  }

  /** Everything that no rebind, request or attached response ever changes. */
  ghost predicate SameIdentity(e: Entry, f: Entry) {
    f.incarnation == e.incarnation && f.bucketKey == e.bucketKey && f.evidence == e.evidence
  }

  /** Only this binding is another one, and neither index is. */
  ghost predicate OnlyAt(t: Table, u: Table, id: nat) {
    && u.bindings.Keys == t.bindings.Keys && (forall x :: x in t.bindings && x != id ==> u.bindings[x] == t.bindings[x])
    && u.buckets == t.buckets && u.nextId == t.nextId && u.nextIncarnation == t.nextIncarnation
  }

  /** After a rebind the held binding points at the target it was given, seen and bound now. */
  lemma RebindPoints(t: Table, limits: Limits, now: int, id: nat, targetId: string)
    requires Inv(t) && id in t.bindings
    ensures var u := Step(t, limits, now, RebindCall(id, targetId));
            && OnlyAt(t, u, id) && u.exactIndex == t.exactIndex
            && var e, f := t.bindings[id], u.bindings[id];
               && PointedAt(e, f, targetId) && SameIdentity(e, f)
               && f.lastSeenAt == now && f.lastBoundAt == now && f.requestCount == e.requestCount
               && f.exactKeys == e.exactKeys && f.responseDependencies == e.responseDependencies
  {
  }

  // ----- Binding

  /** The keys of a request that are not empty. */
  ghost function RealKeys(keys: seq<string>): set<string> {
    set k | k in keys && k != ""
  }

  /** The dependencies with the one that the request names. */
  ghost predicate Depends(before: set<string>, after: set<string>, identity: TaskIdentity) {
    forall k :: k in after <==> k in before || identity.namedResponseKey == Some(k)
  }

  lemma {:induction false} RegisterKeys(t: Table, id: nat, keys: seq<string>)
    requires id in t.bindings
    ensures var u := RegisterExactKeys(t, id, keys);
            && OnlyAt(t, u, id)
            && u.bindings[id] == t.bindings[id].(exactKeys := t.bindings[id].exactKeys + RealKeys(keys))
            && (forall k :: k in u.exactIndex <==> k in t.exactIndex || k in RealKeys(keys))
            && (forall k :: k in u.exactIndex ==>
                  u.exactIndex[k] == if k in RealKeys(keys) then id else t.exactIndex[k])
    decreases keys
  {
    if keys != [] {
      assert forall k :: k in keys <==> k == keys[0] || k in keys[1..];
      if keys[0] == "" {
        RegisterKeys(t, id, keys[1..]);
        assert RealKeys(keys) == RealKeys(keys[1..]);
      } else {
        var e := t.bindings[id];
        var u := Update(t, id, e.(exactKeys := e.exactKeys + {keys[0]}));
        RegisterKeys(u.(exactIndex := t.exactIndex[keys[0] := id]), id, keys[1..]);
        assert RealKeys(keys) == {keys[0]} + RealKeys(keys[1..]);
      }
    }
  }

  /** What a bind leaves of the binding it hit. */
  ghost predicate Refreshed(e: Entry, f: Entry, now: int, identity: TaskIdentity, targetId: string, allowRebind: bool) {
    && PointedAt(e, f, if allowRebind then targetId else e.targetId) && SameIdentity(e, f)
    && f.lastSeenAt == now && f.requestCount == e.requestCount + 1
    && f.lastBoundAt == (if allowRebind && e.targetId != targetId then now else e.lastBoundAt)
    && RealKeys(identity.exactKeys) <= f.exactKeys <= e.exactKeys + RealKeys(identity.exactKeys)
    && Depends(e.responseDependencies, f.responseDependencies, identity)
  }

  /** What a bind leaves of the binding it made. */
  ghost predicate Made(t: Table, f: Entry, now: int, identity: TaskIdentity, targetId: string) {
    && f.targetId == targetId && f.routingRevision == 0 && f.incarnation == t.nextIncarnation
    && f.lastSeenAt == now && f.lastBoundAt == now && f.requestCount == 1
    && f.exactKeys == RealKeys(identity.exactKeys) && Depends({}, f.responseDependencies, identity)
    && f.bucketKey == BucketKey(identity.kind, identity.model, identity.boundaryWithoutUser)
    && f.evidence.kind == identity.kind && f.evidence.endpoint == identity.endpoint
    && f.evidence.model == identity.model
    && f.evidence.boundaryWithoutUser == identity.boundaryWithoutUser && f.evidence.userHashes == identity.userHashes
    && (if "first_user" in identity.boundary then f.evidence.firstUserHash == Some(identity.boundary["first_user"])
        else f.evidence.firstUserHash == None)
  }

  lemma RefreshWrites(t: Table, now: int, id: nat, identity: TaskIdentity, targetId: string, allowRebind: bool)
    requires id in t.bindings
    ensures var u := Refresh(t, now, id, identity, targetId, allowRebind);
            && u.bindings.Keys == t.bindings.Keys
            && var e, f := t.bindings[id], u.bindings[id];
               && PointedAt(e, f, if allowRebind then targetId else e.targetId) && SameIdentity(e, f)
               && f.lastSeenAt == (if allowRebind && e.targetId != targetId then now else e.lastSeenAt)
               && f.lastBoundAt == (if allowRebind && e.targetId != targetId then now else e.lastBoundAt)
               && f.requestCount == e.requestCount && f.exactKeys == e.exactKeys + RealKeys(identity.exactKeys)
               && Depends(e.responseDependencies, f.responseDependencies, identity)
  {
    var v := if t.bindings[id].targetId != targetId && allowRebind then Rebind(t, id, targetId, now) else t;
    RegisterKeys(v, id, identity.exactKeys);
  }

  lemma AdmitWrites(t: Table, identity: TaskIdentity, targetId: string, now: int)
    requires Inv(t)
    ensures var u := Admit(t, identity, targetId, now);
            t.nextId in u.bindings && Made(t, u.bindings[t.nextId], now, identity, targetId)
  {
    RegisterKeys(Create(t, identity, targetId, now), t.nextId, identity.exactKeys);
  }

  // ----- A hit

  /** A hit binding was seen once more, and lost at most keys. */
  ghost predicate SeenOnceMore(e: Entry, f: Entry, now: int) {
    && SameIdentity(e, f) && f.targetId == e.targetId && f.routingRevision == e.routingRevision
    && f.responseDependencies == e.responseDependencies && f.lastBoundAt == e.lastBoundAt
    && f.lastSeenAt == now && f.requestCount == e.requestCount + 1 && f.exactKeys <= e.exactKeys
  }

  ghost predicate HitSeen(t: Table, u: Table, hit: Hit, now: int) {
    !hit.NoHit? ==>
      HitId(hit) in t.bindings && HitId(hit) in u.bindings
      && SeenOnceMore(t.bindings[HitId(hit)], u.bindings[HitId(hit)], now)
  }

  /** Bindings may go and lose keys; what stays is otherwise as it was. */
  ghost predicate Thinned(t: Table, u: Table) {
    forall id :: id in u.bindings ==>
      id in t.bindings && u.bindings[id].exactKeys <= t.bindings[id].exactKeys
      && u.bindings[id] == t.bindings[id].(exactKeys := u.bindings[id].exactKeys)
  }

  lemma ThinnedHit(t: Table, v: Table, u: Table, hit: Hit, now: int)
    requires Thinned(t, v) && HitSeen(v, u, hit, now)
    ensures HitSeen(t, u, hit, now)
  {
  }

  lemma ThinnedTwice(t: Table, v: Table, u: Table)
    requires Thinned(t, v) && Thinned(v, u)
    ensures Thinned(t, u)
  {
  }

  lemma {:induction false} ExactSeen(t: Table, limits: Limits, now: int, keys: seq<string>, identity: TaskIdentity,
                                     allowed: Option<set<string>>)
    ensures var (hit, u) := LookupExact(t, limits, now, keys, identity, allowed);
            HitSeen(t, u, hit, now) && (hit.NoHit? ==> Thinned(t, u))
    decreases keys
  {
    if keys != [] {
      if keys[0] !in t.exactIndex {
        ExactSeen(t, limits, now, keys[1..], identity, allowed);
      } else {
        var id := t.exactIndex[keys[0]];
        var verdict := Judge(t, limits, now, id, identity, allowed);
        if !verdict.Usable? {
          var v := DetachExactKey(if verdict.Lapsed? then Remove(t, id) else t, id, keys[0]);
          ExactSeen(v, limits, now, keys[1..], identity, allowed);
          var (hit, u) := LookupExact(v, limits, now, keys[1..], identity, allowed);
          ThinnedHit(t, v, u, hit, now);
          if hit.NoHit? {
            ThinnedTwice(t, v, u);
          }
        }
      }
    }
  }

  lemma {:induction false} ScanSeen(t: Table, limits: Limits, now: int, ids: seq<nat>, scanned: nat,
                                    identity: TaskIdentity, allowed: Option<set<string>>)
    ensures var (hit, u) := Scan(t, limits, now, ids, scanned, identity, allowed); HitSeen(t, u, hit, now)
    decreases ids
  {
    if ids != [] {
      var lapsed := Judge(t, limits, now, ids[0], identity, allowed).Lapsed?;
      var v := if lapsed then Remove(t, ids[0]) else t;
      ScanSeen(v, limits, now, ids[1..], scanned + 1, identity, allowed);
      var (hit, u) := Scan(v, limits, now, ids[1..], scanned + 1, identity, allowed);
      ThinnedHit(t, v, u, hit, now);
    }
  }

  /** A lookup sees the binding it hits once more, at this time, and changes nothing else of it but
      keys that no longer describe it. */
  lemma LookupSees(t: Table, limits: Limits, now: int, identity: TaskIdentity, allowed: Option<set<string>>)
    ensures var (hit, u) := Lookup(t, limits, now, identity, allowed); HitSeen(t, u, hit, now)
  {
    ExactSeen(t, limits, now, identity.exactKeys, identity, allowed);
    var v := LookupExact(t, limits, now, identity.exactKeys, identity, allowed).1;
    if BucketKeyFor(identity) in v.buckets {
      var ordered := ByRecency(v, v.buckets[BucketKeyFor(identity)]);
      var ids := ordered[..Min(limits.maxBucketScan, |ordered|)];
      ScanSeen(v, limits, now, ids, 0, identity, allowed);
      if LookupExact(t, limits, now, identity.exactKeys, identity, allowed).0.NoHit? {
        var (hit, u) := Scan(v, limits, now, ids, 0, identity, allowed);
        ThinnedHit(t, v, u, hit, now);
      }
    }
  }

  /** The binding that a bind returns: on a hit the one hit, pointed at the target if the caller allows a
      rebind and where it was otherwise; on a miss a new one, made for the request. */
  lemma BindPoints(t: Table, limits: Limits, now: int, identity: TaskIdentity, targetId: string, allowRebind: bool)
    requires Inv(t)
    ensures var hit := Lookup(t, limits, now, identity, None).0;
            var (u, id) := Bind(t, limits, now, identity, targetId, allowRebind);
            && (hit.NoHit? ==> id == t.nextId)
            && (hit.NoHit? && id in u.bindings ==> Made(t, u.bindings[id], now, identity, targetId))
            && (!hit.NoHit? ==>
                  && id == HitId(hit) && id in t.bindings && id in u.bindings
                  && Refreshed(t.bindings[id], u.bindings[id], now, identity, targetId, allowRebind))
  {
    var (hit, v) := Lookup(t, limits, now, identity, None);
    LookupInv(t, limits, now, identity, None);
    LookupQuiet(t, limits, now, identity, None);
    LookupSees(t, limits, now, identity, None);
    if hit.NoHit? {
      var w := Admit(v, identity, targetId, now);
      AdmitWrites(v, identity, targetId, now);
      AdmitInv(v, identity, targetId, now);
      BucketCapInv(w, limits, v.nextId, BucketKeyFor(identity));
      BucketCapOnly(w, limits, v.nextId, BucketKeyFor(identity));
      GroupCapOnly(EnforceBucketCap(w, limits, v.nextId, BucketKeyFor(identity)), limits);
    } else {
      RefreshWrites(v, now, HitId(hit), identity, targetId, allowRebind);
    }
  }

  // ----- Notes and responses

  /** A noted request adds the response it names to the dependencies, and changes nothing else. */
  lemma NoteAdds(t: Table, limits: Limits, now: int, id: nat, identity: TaskIdentity)
    requires Inv(t) && id in t.bindings
    ensures var u := Step(t, limits, now, NoteCall(id, identity));
            && OnlyAt(t, u, id) && u.exactIndex == t.exactIndex
            && Depends(t.bindings[id].responseDependencies, u.bindings[id].responseDependencies, identity)
            && u.bindings[id] == t.bindings[id].(responseDependencies := u.bindings[id].responseDependencies)
  {
  }

  /** The keys under which a request would name these responses. */
  ghost function NamesOf(responseIds: seq<string>): set<string> {
    set r | r in responseIds && r != "" :: "response:" + r
  }

  lemma {:induction false} ResponseKeysAre(responseIds: seq<string>)
    ensures RealKeys(ResponseKeys(responseIds)) == NamesOf(responseIds)
  {
    if responseIds != [] {
      var rest := responseIds[1..];
      ResponseKeysAre(rest);
      assert forall r :: r in responseIds <==> r == responseIds[0] || r in rest;
      var head := if responseIds[0] == "" then [] else ["response:" + responseIds[0]];
      assert ResponseKeys(responseIds) == head + ResponseKeys(rest);
      assert RealKeys(head + ResponseKeys(rest)) == RealKeys(head) + RealKeys(ResponseKeys(rest));
      assert responseIds[0] != "" ==> "response:" + responseIds[0] in head;
    }
  }

  /** Attached responses are indexed under the names a later request would use; dependencies, route and
      times stay. */
  lemma AttachIndexes(t: Table, limits: Limits, now: int, id: nat, responseIds: seq<string>)
    requires Inv(t) && id in t.bindings
    ensures var u, names := Step(t, limits, now, AttachCall(id, responseIds)), NamesOf(responseIds);
            && OnlyAt(t, u, id)
            && u.bindings[id] == t.bindings[id].(exactKeys := t.bindings[id].exactKeys + names)
            && (forall k :: k in u.exactIndex <==> k in t.exactIndex || k in names)
            && (forall k :: k in u.exactIndex ==> u.exactIndex[k] == if k in names then id else t.exactIndex[k])
  {
    ResponseKeysAre(responseIds);
    RegisterKeys(t, id, ResponseKeys(responseIds));
  }

  // ----- When a binding may serve a request

  /** The target is allowed, it was seen within the time to live, and kind, model, boundary and, where
      both have one, endpoint are the same. */
  ghost predicate Serves(t: Table, limits: Limits, now: int, id: nat, identity: TaskIdentity,
                         allowed: Option<set<string>>) {
    && id in t.bindings
    && var e := t.bindings[id];
       && (match allowed case None => true case Some(targets) => e.targetId in targets)
       && now - e.lastSeenAt <= limits.ttlMs
       && e.evidence.kind == identity.kind && e.evidence.model == identity.model
       && e.evidence.boundaryWithoutUser == identity.boundaryWithoutUser
       && (e.evidence.endpoint != "" && identity.endpoint != "" ==> e.evidence.endpoint == identity.endpoint)
  }

  lemma UsableServes(t: Table, limits: Limits, now: int, id: nat, identity: TaskIdentity, allowed: Option<set<string>>)
    ensures Judge(t, limits, now, id, identity, allowed).Usable? <==> Serves(t, limits, now, id, identity, allowed)
  {
  }

  /** The users of the request are those of the binding and perhaps more. */
  ghost predicate GoesOn(e: Entry, identity: TaskIdentity) {
    && 1 <= |e.evidence.userHashes| <= |identity.userHashes|
    && forall i :: 0 <= i < |e.evidence.userHashes| ==> identity.userHashes[i] == e.evidence.userHashes[i]
  }

  lemma MatchesGoesOn(t: Table, limits: Limits, now: int, id: nat, identity: TaskIdentity, allowed: Option<set<string>>)
    ensures Matches(t, limits, now, id, identity, allowed) <==>
            Serves(t, limits, now, id, identity, allowed) && GoesOn(t.bindings[id], identity)
  {
    UsableServes(t, limits, now, id, identity, allowed);
    if id in t.bindings {
      var a, b := t.bindings[id].evidence.userHashes, identity.userHashes;
      assert |a| <= |b| ==> (a <= b <==> forall i :: 0 <= i < |a| ==> b[i] == a[i]);
    }
  }

  /** A hit serves the request; one from the bucket also goes on with its users, and shares its kind,
      model and boundary, which is what puts bindings into one bucket. */
  lemma {:induction false} ExactServes(t: Table, limits: Limits, now: int, keys: seq<string>, identity: TaskIdentity,
                                       allowed: Option<set<string>>)
    ensures var hit := LookupExact(t, limits, now, keys, identity, allowed).0;
            && (!hit.NoHit? ==>
                  && hit.ExactKey? && hit.exactKey in keys && hit.exactKey in t.exactIndex
                  && hit.id == t.exactIndex[hit.exactKey] && Serves(t, limits, now, hit.id, identity, allowed))
            && (hit.NoHit? ==>
                  forall k :: k in keys && k in t.exactIndex ==>
                    !Serves(t, limits, now, t.exactIndex[k], identity, allowed))
  {
    ExactHitsFirst(t, limits, now, keys, identity, allowed);
    forall k | k in keys && k in t.exactIndex
      ensures UsableKey(t, limits, now, k, identity, allowed) <==>
        Serves(t, limits, now, t.exactIndex[k], identity, allowed)
    {
      UsableServes(t, limits, now, t.exactIndex[k], identity, allowed);
    }
    var hit := LookupExact(t, limits, now, keys, identity, allowed).0;
    if !hit.NoHit? {
      var i: nat :| ExactHitAt(t, limits, now, keys, identity, allowed, hit, i);
    } else {
      forall k | k in keys && k in t.exactIndex ensures !Serves(t, limits, now, t.exactIndex[k], identity, allowed) {
        var i :| 0 <= i < |keys| && keys[i] == k;
      }
    }
  }

  /** Round trip: a request that first names a response attached to a binding hits that binding, when
      it serves the request. */
  lemma AttachedFound(t: Table, limits: Limits, now: int, id: nat, responseIds: seq<string>, later: int,
                      identity: TaskIdentity, allowed: Option<set<string>>, response: string)
    requires Inv(t) && id in t.bindings && response in responseIds && response != ""
    requires identity.exactKeys != [] && identity.exactKeys[0] == "response:" + response
    ensures var u := Step(t, limits, now, AttachCall(id, responseIds));
            Serves(u, limits, later, id, identity, allowed) ==>
              Lookup(u, limits, later, identity, allowed).0 == ExactKey("response:" + response, id)
  {
    AttachIndexes(t, limits, now, id, responseIds);
    var u := Step(t, limits, now, AttachCall(id, responseIds));
    UsableServes(u, limits, later, id, identity, allowed);
    assert "response:" + response in NamesOf(responseIds);
  }

  /** Requests share a bucket exactly when kind, model and boundary are the same. */
  lemma SharedBucket(a: TaskIdentity, b: TaskIdentity)
    ensures BucketKeyFor(a) == BucketKeyFor(b) <==>
            a.kind == b.kind && a.model == b.model && a.boundaryWithoutUser == b.boundaryWithoutUser
  {
  }
}
