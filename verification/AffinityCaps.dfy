/** The caps and the clock over any run: both caps hold in every table reached, and what a bind
    promises holds in every one of them. */
module AffinityCaps {
  import opened AffinityModel
  import opened AffinityGuarantees
  import opened AffinityRuns

  // ----- The caps hold in every table reached

  lemma QuietCapsHold(t: Table, u: Table, limits: Limits, now: int)
    requires Quiet(t, u, now) && CapsHold(t, limits)
    ensures CapsHold(u, limits)
  {
    assert u.bindings.Keys <= t.bindings.Keys;
    SubsetSize(u.bindings.Keys, t.bindings.Keys);
  }

  lemma OnlyRemovedCaps(t: Table, u: Table, limits: Limits)
    requires OnlyRemoved(t, u) && CapsHold(t, limits)
    ensures CapsHold(u, limits)
  {
    assert u.bindings.Keys <= t.bindings.Keys;
    SubsetSize(u.bindings.Keys, t.bindings.Keys);
  }

  lemma SameShapeCaps(t: Table, u: Table, limits: Limits)
    requires CapsHold(t, limits) && u.bindings.Keys == t.bindings.Keys && u.buckets == t.buckets
    ensures CapsHold(u, limits)
  {
    assert |u.bindings| == |u.bindings.Keys| && |t.bindings| == |t.bindings.Keys|;
  }

  /** Every bucket but this one fits, and this one is at most one over. */
  ghost predicate OneOver(t: Table, limits: Limits, key: BucketKey) {
    && (forall k :: k in t.buckets && k != key ==> |t.buckets[k]| <= limits.maxBucketSize)
    && |Bucket(t, key)| <= limits.maxBucketSize + 1
  }

  /** One eviction is enough, whichever binding it takes. */
  lemma BucketCapFits(t: Table, limits: Limits, id: nat, key: BucketKey)
    requires Inv(t) && OneOver(t, limits, key)
    ensures var u := EnforceBucketCap(t, limits, id, key);
            forall k :: k in u.buckets ==> |u.buckets[k]| <= limits.maxBucketSize
  {
    if |Bucket(t, key)| > limits.maxBucketSize {
      var oldest := OldestOf(t, Bucket(t, key));
      RemoveFromBucket(t, oldest, key);
      RemoveOnly(t, oldest);
      var u := Remove(t, oldest);
      assert EnforceBucketCap(t, limits, id, key) == u;
      forall k | k in u.buckets ensures |u.buckets[k]| <= limits.maxBucketSize {
        assert k == key ==> u.buckets[k] == Bucket(u, key);
      }
    }
  }

  lemma {:induction false} GroupCapFits(t: Table, limits: Limits)
    requires Inv(t)
    ensures |EnforceGroupCap(t, limits).bindings| <= limits.maxBindings
    decreases |t.bindings|
  {
    if |t.bindings| > limits.maxBindings {
      IdsNotEmpty(t);
      var oldest := OldestOf(t, Ids(t));
      RemoveShrinks(t, oldest);
      GroupCapFits(Remove(t, oldest), limits);
    }
  }

  lemma CapsEnforced(t: Table, limits: Limits, id: nat, key: BucketKey)
    requires Inv(t) && OneOver(t, limits, key)
    ensures Inv(EnforceBucketCap(t, limits, id, key))
    ensures CapsHold(EnforceGroupCap(EnforceBucketCap(t, limits, id, key), limits), limits)
  {
    BucketCapInv(t, limits, id, key);
    BucketCapFits(t, limits, id, key);
    var w := EnforceBucketCap(t, limits, id, key);
    GroupCapFits(w, limits);
    GroupCapOnly(w, limits);
  }

  lemma BindCaps(t: Table, limits: Limits, now: int, identity: TaskIdentity, targetId: string, allowRebind: bool)
    requires Inv(t) && CapsHold(t, limits)
    ensures CapsHold(Bind(t, limits, now, identity, targetId, allowRebind).0, limits)
  {
    var (hit, u) := Lookup(t, limits, now, identity, None);
    LookupInv(t, limits, now, identity, None);
    LookupQuiet(t, limits, now, identity, None);
    QuietCapsHold(t, u, limits, now);
    if hit.NoHit? {
      AdmitInv(u, identity, targetId, now);
      AdmitBound(u, identity, targetId, now);
      CapsEnforced(Admit(u, identity, targetId, now), limits, u.nextId, BucketKeyFor(identity));
    } else {
      LookupHitGood(t, limits, now, identity, None);
      RefreshBound(u, now, HitId(hit), identity, targetId, allowRebind);
      SameShapeCaps(u, Refresh(u, now, HitId(hit), identity, targetId, allowRebind), limits);
    }
  }

  lemma StepCaps(t: Table, limits: Limits, now: int, op: Operation)
    requires Inv(t) && CapsHold(t, limits)
    ensures CapsHold(Step(t, limits, now, op), limits)
  {
    var u := Step(t, limits, now, op);
    if Removal(op) {
      RemovalOnly(t, limits, now, op);
      OnlyRemovedCaps(t, u, limits);
    } else if op.LookupCall? {
      LookupQuiet(t, limits, now, op.identity, op.allowed);
      QuietCapsHold(t, u, limits, now);
    } else if op.BindCall? {
      BindCaps(t, limits, now, op.identity, op.targetId, op.allowRebind);
    } else {
      HeldShape(t, limits, now, op);
      SameShapeCaps(t, u, limits);
    }
  }

  /** A call on a binding that its caller holds keeps the bindings and their buckets, and sees no
      binding but its own, at most now. */
  lemma HeldShape(t: Table, limits: Limits, now: int, op: Operation)
    requires Inv(t) && (op.RebindCall? || op.NoteCall? || op.AttachCall?)
    ensures var u := Step(t, limits, now, op);
            && u.bindings.Keys == t.bindings.Keys && u.buckets == t.buckets
            && forall id :: id in u.bindings ==>
                 u.bindings[id].lastSeenAt == t.bindings[id].lastSeenAt || u.bindings[id].lastSeenAt == now
  {
    if op.AttachCall? && op.id in t.bindings {
      RegisterFacts(t, op.id, ResponseKeys(op.responseIds));
    }
  }

  /** Both caps hold after every call of every run, whatever the clock does. */
  lemma {:induction false} CapsAlwaysHold(limits: Limits, run: seq<Timed>)
    ensures CapsHold(Reached(limits, run), limits)
    decreases run
  {
    if run != [] {
      CapsAlwaysHold(limits, run[..|run| - 1]);
      StepCaps(Reached(limits, run[..|run| - 1]), limits, run[|run| - 1].now, run[|run| - 1].op);
    }
  }

  // ----- The clock

  /** The times of a run never go back, and end at `now` or before. */
  ghost predicate Forward(run: seq<Timed>, now: int) {
    && (forall i, j :: 0 <= i < j < |run| ==> run[i].now <= run[j].now)
    && (forall i :: 0 <= i < |run| ==> run[i].now <= now)
  }

  lemma BindSeen(t: Table, limits: Limits, now: int, identity: TaskIdentity, targetId: string, allowRebind: bool)
    requires Inv(t) && SeenBy(t, now)
    ensures SeenBy(Bind(t, limits, now, identity, targetId, allowRebind).0, now)
  {
    var (hit, u) := Lookup(t, limits, now, identity, None);
    LookupInv(t, limits, now, identity, None);
    LookupQuiet(t, limits, now, identity, None);
    assert SeenBy(u, now);
    if hit.NoHit? {
      AdmitSeen(u, limits, now, identity, targetId);
    } else {
      LookupHitGood(t, limits, now, identity, None);
      RefreshBound(u, now, HitId(hit), identity, targetId, allowRebind);
    }
  }

  lemma AdmitSeen(t: Table, limits: Limits, now: int, identity: TaskIdentity, targetId: string)
    requires Inv(t) && SeenBy(t, now)
    ensures var v := Admit(t, identity, targetId, now);
            && Inv(v) && Inv(EnforceBucketCap(v, limits, t.nextId, BucketKeyFor(identity)))
            && SeenBy(EnforceGroupCap(EnforceBucketCap(v, limits, t.nextId, BucketKeyFor(identity)), limits), now)
  {
    var v := Admit(t, identity, targetId, now);
    AdmitInv(t, identity, targetId, now);
    AdmitBound(t, identity, targetId, now);
    AdmitNewest(t, v, BucketKeyFor(identity), now);
    BucketCapInv(v, limits, t.nextId, BucketKeyFor(identity));
    BucketCapOnly(v, limits, t.nextId, BucketKeyFor(identity));
    var w := EnforceBucketCap(v, limits, t.nextId, BucketKeyFor(identity));
    OnlyRemovedSeen(v, w, now);
    GroupCapOnly(w, limits);
    OnlyRemovedSeen(w, EnforceGroupCap(w, limits), now);
  }

  lemma OnlyRemovedSeen(t: Table, u: Table, now: int)
    requires OnlyRemoved(t, u) && SeenBy(t, now)
    ensures SeenBy(u, now)
  {
  }

  lemma StepSeen(t: Table, limits: Limits, now: int, op: Operation)
    requires Inv(t) && SeenBy(t, now)
    ensures SeenBy(Step(t, limits, now, op), now)
  {
    if Removal(op) {
      RemovalOnly(t, limits, now, op);
    } else if op.LookupCall? {
      LookupQuiet(t, limits, now, op.identity, op.allowed);
    } else if op.BindCall? {
      BindSeen(t, limits, now, op.identity, op.targetId, op.allowRebind);
    } else {
      HeldShape(t, limits, now, op);
    }
  }

  lemma {:induction false} SeenAlready(limits: Limits, run: seq<Timed>, now: int)
    requires Forward(run, now)
    ensures SeenBy(Reached(limits, run), now)
    decreases run
  {
    if run != [] {
      var init, last := run[..|run| - 1], run[|run| - 1];
      SeenAlready(limits, init, last.now);
      StepSeen(Reached(limits, init), limits, last.now, last.op);
    }
  }

  // ----- What a bind promises in every table reached

  /** With caps of one or more and a clock that never went back, in whatever table a run reached:
      the binding that a bind returns is in the table, and looking the request up at once finds that
      same binding by an exact key whenever the request has one. */
  lemma BindKeeps(limits: Limits, run: seq<Timed>, now: int, identity: TaskIdentity, targetId: string,
                  allowRebind: bool)
    requires Forward(run, now)
    requires limits.maxBindings >= 1 && limits.maxBucketSize >= 1 && limits.ttlMs >= 0
    ensures var (u, id) := Bind(Reached(limits, run), limits, now, identity, targetId, allowRebind);
            && Inv(u) && CapsHold(u, limits) && SeenBy(u, now) && id in u.bindings
            && ((exists k :: k in identity.exactKeys && k != "") ==>
                var hit := Lookup(u, limits, now, identity, None).0;
                hit.ExactKey? && hit.id == id && hit.exactKey in identity.exactKeys)
  {
    CapsAlwaysHold(limits, run);
    SeenAlready(limits, run, now);
    BindSettles(Reached(limits, run), limits, now, identity, targetId, allowRebind);
  }

  // ----- What a bind evicts

  /** Whatever was evicted was seen no later than any candidate that stayed. */
  ghost predicate EvictedOldest(t: Table, u: Table, candidates: set<nat>) {
    forall gone, kept :: gone in t.bindings && gone !in u.bindings && kept in candidates && kept in u.bindings ==>
      gone in candidates && Recency(t, gone) <= Recency(t, kept)
  }

  ghost predicate Candidates(t: Table, key: BucketKey, candidates: set<nat>) {
    InBucket(t, key) <= candidates && forall x :: x in candidates && x in t.bindings ==> t.bindings[x].bucketKey == key
  }

  lemma EvictedStep(t: Table, u: Table, v: Table, oldest: nat, candidates: set<nat>)
    requires oldest in t.bindings && u.bindings == t.bindings - {oldest} && OnlyRemoved(u, v)
    requires oldest in candidates && forall x :: x in candidates && x in t.bindings ==>
      Recency(t, oldest) <= Recency(t, x)
    requires EvictedOldest(u, v, candidates)
    ensures EvictedOldest(t, v, candidates)
  {
    forall gone, kept | gone in t.bindings && gone !in v.bindings && kept in candidates && kept in v.bindings
      ensures gone in candidates && Recency(t, gone) <= Recency(t, kept)
    {
      assert kept in u.bindings;
      if gone != oldest {
        assert gone in u.bindings;
      }
    }
  }

  /** Evicting from a bucket takes its least recently seen members, whatever the cap. */
  lemma {:induction false} BucketCapOldest(t: Table, limits: Limits, id: nat, key: BucketKey, candidates: set<nat>)
    requires Inv(t) && Candidates(t, key, candidates)
    ensures var u := EnforceBucketCap(t, limits, id, key);
            && OnlyRemoved(t, u) && EvictedOldest(t, u, candidates)
            && forall gone :: gone in t.bindings && gone !in u.bindings ==> gone in candidates
    decreases |Bucket(t, key)|
  {
    if |Bucket(t, key)| > limits.maxBucketSize {
      var oldest := OldestOf(t, Bucket(t, key));
      BucketIs(t, key);
      OldestIs(t, Bucket(t, key));
      assert oldest in InBucket(t, key);
      RemoveFromBucket(t, oldest, key);
      RemoveOnly(t, oldest);
      var u := Remove(t, oldest);
      if oldest != id {
        BucketCapOldest(u, limits, id, key, candidates);
        OnlyRemovedTransitive(t, u, EnforceBucketCap(u, limits, id, key));
        EvictedStep(t, u, EnforceBucketCap(u, limits, id, key), oldest, candidates);
      }
    }
  }

  /** Evicting from the table takes its least recently seen bindings, whatever the cap. */
  lemma {:induction false} GroupCapOldest(t: Table, limits: Limits, candidates: set<nat>)
    requires Inv(t) && t.bindings.Keys <= candidates
    ensures OnlyRemoved(t, EnforceGroupCap(t, limits)) && EvictedOldest(t, EnforceGroupCap(t, limits), candidates)
    decreases |t.bindings|
  {
    if |t.bindings| > limits.maxBindings {
      IdsNotEmpty(t);
      var oldest := OldestOf(t, Ids(t));
      OldestIs(t, Ids(t));
      RemoveShrinks(t, oldest);
      RemoveOnly(t, oldest);
      var u := Remove(t, oldest);
      GroupCapOldest(u, limits, candidates);
      OnlyRemovedTransitive(t, u, EnforceGroupCap(u, limits));
      EvictedStep(t, u, EnforceGroupCap(u, limits), oldest, candidates);
    }
  }

  /** Nothing but the new binding came, and what went was seen no later than anything that stayed,
      or no later than anything that stayed in the new binding's bucket and was itself of that one. */
  ghost predicate EvictsOldest(u: Table, after: Table, key: BucketKey) {
    && after.bindings.Keys <= u.bindings.Keys + {u.nextId}
    && forall gone {:trigger u.bindings[gone]} :: gone in u.bindings && gone !in after.bindings ==>
         || NoneOlder(u.bindings[gone], after)
         || (u.bindings[gone].bucketKey == key && NoneOlderIn(u.bindings[gone], after, key))
  }

  ghost predicate NoneOlder(e: Entry, after: Table) {
    forall kept :: kept in after.bindings ==> e.lastSeenAt <= after.bindings[kept].lastSeenAt
  }

  ghost predicate NoneOlderIn(e: Entry, after: Table, key: BucketKey) {
    forall kept :: kept in after.bindings && after.bindings[kept].bucketKey == key ==>
      e.lastSeenAt <= after.bindings[kept].lastSeenAt
  }

  lemma EvictionsMeet(u: Table, v: Table, w: Table, after: Table, key: BucketKey)
    requires v.bindings.Keys == u.bindings.Keys + {u.nextId} && forall x :: x in u.bindings ==>
      v.bindings[x] == u.bindings[x]
    requires OnlyRemoved(v, w) && EvictedOldest(v, w, InBucket(v, key))
    requires forall gone :: gone in v.bindings && gone !in w.bindings ==> gone in InBucket(v, key)
    requires OnlyRemoved(w, after) && EvictedOldest(w, after, w.bindings.Keys)
    ensures EvictsOldest(u, after, key)
  {
    forall gone | gone in u.bindings && gone !in after.bindings
      ensures || NoneOlder(u.bindings[gone], after)
              || (u.bindings[gone].bucketKey == key && NoneOlderIn(u.bindings[gone], after, key))
    {
      if gone in w.bindings {
        forall kept | kept in after.bindings ensures u.bindings[gone].lastSeenAt <= after.bindings[kept].lastSeenAt {
          assert Recency(w, gone) <= Recency(w, kept);
        }
      } else {
        assert gone in InBucket(v, key);
        forall kept | kept in after.bindings && after.bindings[kept].bucketKey == key
          ensures u.bindings[gone].lastSeenAt <= after.bindings[kept].lastSeenAt
        {
          assert kept in InBucket(v, key) && kept in w.bindings;
          assert Recency(v, gone) <= Recency(v, kept);
        }
      }
    }
  }

  /** Every eviction of a bind took a least recently seen candidate, a member of the new binding's
      bucket or of the whole table: for all caps and whatever the clock does. */
  lemma BindEvictsOldest(t: Table, limits: Limits, now: int, identity: TaskIdentity, targetId: string,
                         allowRebind: bool)
    requires Inv(t) && Lookup(t, limits, now, identity, None).0.NoHit?
    ensures EvictsOldest(Lookup(t, limits, now, identity, None).1,
                         Bind(t, limits, now, identity, targetId, allowRebind).0, BucketKeyFor(identity))
  {
    LookupInv(t, limits, now, identity, None);
    var u, key := Lookup(t, limits, now, identity, None).1, BucketKeyFor(identity);
    var v := Admit(u, identity, targetId, now);
    AdmitInv(u, identity, targetId, now);
    AdmitBound(u, identity, targetId, now);
    BucketCapInv(v, limits, u.nextId, key);
    BucketCapOldest(v, limits, u.nextId, key, InBucket(v, key));
    var w := EnforceBucketCap(v, limits, u.nextId, key);
    GroupCapOldest(w, limits, w.bindings.Keys);
    EvictionsMeet(u, v, w, EnforceGroupCap(w, limits), key);
  }
}
