/** The affinity table as objects: bindings are updated in place; the exact-key index and the
    buckets name them by id. Every method computes the operation of `AffinityModel` on the table's
    value. */
module LoadAffinity {
  import opened AffinityModel
  import opened AffinityExpiry
  import opened AffinityHits
  import Guarantees = AffinityGuarantees
  import Runs = AffinityRuns
  import Routing = AffinityRouting

  /** A binding object: its id never changes, everything else it records is updated in place. */
  class AffinityBinding {
    const id: nat
    var entry: Entry

    constructor (id: nat, entry: Entry)
      ensures this.id == id && this.entry == entry
    {
      this.id, this.entry := id, entry;
    }
  }

  type Held = map<nat, AffinityBinding>

  /** The object stands in the id map under its own id. */
  ghost predicate Holds(bindings: Held, b: AffinityBinding) {
    b.id in bindings && bindings[b.id] == b
  }

  /** Some of the bindings. */
  ghost predicate Shrunk(some: Held, all: Held) {
    forall id :: id in some ==> id in all && some[id] == all[id]
  }

  /** The values of the bindings, by id. */
  ghost predicate Mirrors(bindings: Held, entries: map<nat, Entry>)
    reads bindings.Values
  {
    bindings.Keys == entries.Keys &&
    forall id :: id in bindings ==> bindings[id].id == id && bindings[id].entry == entries[id]
  }

  /** Where an id first stands in the list, or the list's length. */
  function IndexOf(s: seq<nat>, id: nat): (i: nat)
    ensures i <= |s| && id !in s[..i] && (i < |s| ==> s[i] == id)
  {
    if s == [] || s[0] == id then 0 else 1 + IndexOf(s[1..], id)
  }

  lemma {:induction false} SplicedWithout(s: seq<nat>, id: nat)
    ensures var i := IndexOf(s, id); Without(s, id) == if i < |s| then s[..i] + s[i + 1..] else s
  {
    if s != [] && s[0] != id {
      var rest := s[1..];
      var i := IndexOf(rest, id);
      SplicedWithout(rest, id);
      assert s == [s[0]] + rest;
      if i < |rest| {
        assert s[..i + 1] == [s[0]] + rest[..i] && s[i + 2..] == rest[i + 1..];
      }
    }
  }

  /** Removing bindings of the table makes it smaller by as many. */
  lemma {:induction false} RemovedCount(t: Table, ids: seq<nat>)
    requires Distinct(ids) && forall id :: id in ids ==> id in t.bindings
    ensures |RemoveAll(t, ids).bindings| == |t.bindings| - |ids|
    ensures forall id :: id in t.bindings && id !in ids ==> id in RemoveAll(t, ids).bindings
  {
    if ids != [] {
      var init, last := ids[..|ids| - 1], ids[|ids| - 1];
      assert ids == init + [last];
      RemovedCount(t, init);
      OneFewer(RemoveAll(t, init).bindings, last);
    }
  }

  lemma OneFewer(bindings: map<nat, Entry>, id: nat)
    requires id in bindings
    ensures |bindings - {id}| == |bindings| - 1
  {
    assert (bindings - {id}).Keys == bindings.Keys - {id};
    assert |bindings.Keys - {id}| == |bindings.Keys| - 1;
  }

  /** There are as many objects as values. */
  lemma SameSize(bindings: Held, entries: map<nat, Entry>)
    requires bindings.Keys == entries.Keys
    ensures |bindings| == |entries|
  {
    assert |bindings| == |bindings.Keys| && |entries| == |entries.Keys|;
  }

  lemma {:induction false} RemovedGone(t: Table, ids: seq<nat>)
    ensures forall id :: id in RemoveAll(t, ids).bindings ==> id in t.bindings && id !in ids
  {
    if ids != [] {
      RemovedGone(t, ids[..|ids| - 1]);
      assert forall id :: id in ids <==> id in ids[..|ids| - 1] || id == ids[|ids| - 1];
    }
  }

  /** The table after trying one exact key that the index holds. */
  ghost function KeyTried(t: Table, limits: Limits, now: int, key: string, identity: TaskIdentity,
                          allowed: Option<set<string>>): Table
    requires key in t.exactIndex
  {
    var id := t.exactIndex[key];
    match Judge(t, limits, now, id, identity, allowed)
    case Usable => Touch(t, id, now)
    case Lapsed => DetachExactKey(Remove(t, id), id, key)
    case Unusable => DetachExactKey(t, id, key)
  }

  lemma KeyTriedIndex(t: Table, limits: Limits, now: int, key: string, identity: TaskIdentity,
                      allowed: Option<set<string>>)
    requires IndexAgrees(t) && key in t.exactIndex
    ensures IndexAgrees(KeyTried(t, limits, now, key, identity, allowed))
  {
  }

  /** A slice of a sorted bucket: distinct bindings of the table. */
  lemma SliceHeld(t: Table, key: BucketKey, n: nat)
    requires Inv(t) && key in t.buckets && n <= |ByRecency(t, t.buckets[key])|
    ensures Distinct(ByRecency(t, t.buckets[key])[..n])
    ensures forall id :: id in ByRecency(t, t.buckets[key])[..n] ==> id in t.bindings
  {
    var ordered := ByRecency(t, t.buckets[key]);
    SortedMembers(t, t.buckets[key]);
    SortedDistinct(t, t.buckets[key]);
    forall id | id in ordered[..n] ensures id in t.bindings {
      assert id in ordered && id in t.buckets[key];
    }
  }

  lemma BucketHeld(t: Table, key: BucketKey)
    requires Inv(t) && key in t.buckets
    ensures t.buckets[key] != [] && forall id :: id in t.buckets[key] ==> id in t.bindings
  {
  }

  /** Dropping what names a binding that is not in the table drops nothing. */
  lemma NamedNowhere(t: Table, id: nat, e: Entry)
    requires IndexAgrees(t) && BucketsHold(t) && id !in t.bindings
    ensures IndexWithout(t.exactIndex, e.exactKeys, id) == t.exactIndex
    ensures BucketsWithout(t.buckets, e.bucketKey, id) == t.buckets
  {
    if e.bucketKey in t.buckets {
      WithoutMembers(t.buckets[e.bucketKey], id);
      WithoutAbsent(t.buckets[e.bucketKey], id);
    }
  }

  lemma {:induction false} WithoutAbsent(s: seq<nat>, id: nat)
    requires id !in s
    ensures Without(s, id) == s
  {
    if s != [] {
      WithoutAbsent(s[1..], id);
    }
  }

  class LoadAffinityTable {
    const limits: Limits
    var bindings: Held
    var exactIndex: map<string, nat>
    var buckets: map<BucketKey, seq<nat>>
    var nextId: nat
    var nextIncarnation: nat
    ghost var entries: map<nat, Entry>

    constructor (limits: Limits)
      ensures this.limits == limits && Valid() && State() == EmptyTable() && Inv(State()) && bindings == map[]
    {
      this.limits := limits;
      bindings, exactIndex, buckets, nextId, nextIncarnation := map[], map[], map[], 1, 1;
      entries := map[];
    }

    /** The value of the table. */
    ghost function State(): Table
      reads this
    {
      Table(entries, exactIndex, buckets, nextId, nextIncarnation)
    }

    /** The value is that of the objects. */
    ghost predicate Valid()
      reads this, bindings.Values
    {
      Mirrors(bindings, entries)
    }

    /** The index without the entries of one binding; keys that another binding took over stay. */
    method DropKeys(b: AffinityBinding) returns (index: map<string, nat>)
      ensures index == IndexWithout(exactIndex, b.entry.exactKeys, b.id)
    {
      index := exactIndex;
      var keys := b.entry.exactKeys;
      while keys != {}
        invariant keys <= b.entry.exactKeys
        invariant index == IndexWithout(exactIndex, b.entry.exactKeys - keys, b.id)
        decreases keys
      {
        var k :| k in keys;
        if k in index && index[k] == b.id {
          index := index - {k};
        }
        keys := keys - {k};
      }
    }

    /** The buckets without one binding; an empty bucket goes. */
    method LeaveBucket(b: AffinityBinding) returns (left: map<BucketKey, seq<nat>>)
      ensures left == BucketsWithout(buckets, b.entry.bucketKey, b.id)
    {
      left := buckets;
      if b.entry.bucketKey in buckets {
        var bucket := buckets[b.entry.bucketKey];
        SplicedWithout(bucket, b.id);
        var index := IndexOf(bucket, b.id);
        if index < |bucket| {
          bucket := bucket[..index] + bucket[index + 1..];
        }
        left := if bucket == [] then buckets - {b.entry.bucketKey} else buckets[b.entry.bucketKey := bucket];
      }
    }

    /** Forget a binding: its own keys, its place in its bucket, and the binding itself. A binding the
        table gave up on before is named nowhere, so nothing changes. */
    method Remove(b: AffinityBinding)
      requires Valid() && (b.id in bindings ==> Holds(bindings, b))
      requires b.id !in bindings ==> IndexAgrees(State()) && BucketsHold(State())
      modifies this
      ensures Valid() && State() == AffinityModel.Remove(old(State()), b.id)
      ensures bindings == old(bindings) - {b.id}
    {
      var index := DropKeys(b);
      var left := LeaveBucket(b);
      if b.id !in bindings {
        NamedNowhere(State(), b.id, b.entry);
      }
      exactIndex, buckets := index, left;
      bindings, entries := bindings - {b.id}, entries - {b.id};
    }

    /** Refresh a binding that was found. */
    method Touch(b: AffinityBinding, now: int)
      requires Valid() && Holds(bindings, b)
      modifies this`entries, b
      ensures Valid() && State() == AffinityModel.Touch(old(State()), b.id, now)
    {
      b.entry := b.entry.(lastSeenAt := now, requestCount := b.entry.requestCount + 1);
      entries := entries[b.id := b.entry];
    }

    /** The key no longer describes this binding. */
    method DetachExactKey(b: AffinityBinding, key: string)
      requires Valid() && (b.id in bindings ==> Holds(bindings, b))
      modifies this`entries, this`exactIndex, b
      ensures Valid() && State() == AffinityModel.DetachExactKey(old(State()), b.id, key)
    {
      exactIndex := exactIndex - {key};
      b.entry := b.entry.(exactKeys := b.entry.exactKeys - {key});
      if b.id in bindings {
        entries := entries[b.id := b.entry];
      }
    }

    /** Whether the binding may serve the request; an expired one is removed on the way. */
    method Usable(b: AffinityBinding, identity: TaskIdentity, allowed: Option<set<string>>, now: int)
      returns (verdict: Verdict)
      requires Valid() && Holds(bindings, b)
      modifies this
      ensures verdict == Judge(old(State()), limits, now, b.id, identity, allowed)
      ensures Valid() && State() == if verdict.Lapsed? then AffinityModel.Remove(old(State()), b.id) else old(State())
      ensures bindings == if verdict.Lapsed? then old(bindings) - {b.id} else old(bindings)
    {
      assert entries[b.id] == b.entry;
      if !Allowed(allowed, b.entry.targetId) {
        return Unusable;
      }
      if b.entry.lastSeenAt < now - limits.ttlMs {
        Remove(b);
        return Lapsed;
      }
      return if Describes(b.entry.evidence, identity) then Verdict.Usable else Unusable;
    }

    /** Try one exact key: a binding that does not serve the request loses the key. */
    method TryKey(key: string, identity: TaskIdentity, allowed: Option<set<string>>, now: int)
      returns (found: AffinityBinding?)
      requires Valid() && key in exactIndex && exactIndex[key] in bindings
      modifies this, bindings[exactIndex[key]]
      ensures Valid() && State() == KeyTried(old(State()), limits, now, key, identity, allowed)
      ensures bindings.Values <= old(bindings.Values)
      ensures found != null <==> Judge(old(State()), limits, now, old(exactIndex[key]), identity, allowed).Usable?
      ensures found != null ==> found.id == old(exactIndex[key]) && Holds(bindings, found)
    {
      var b := bindings[exactIndex[key]];
      var verdict := Usable(b, identity, allowed, now);
      if verdict.Usable? {
        Touch(b, now);
        return b;
      }
      DetachExactKey(b, key);
      return null;
    }

    /** Find the binding by the first exact key that still describes the request. */
    method LookupExact(identity: TaskIdentity, allowed: Option<set<string>>, now: int)
      returns (hit: Hit, found: AffinityBinding?)
      requires Valid() && IndexAgrees(State())
      modifies this, bindings.Values
      ensures (hit, State()) == AffinityModel.LookupExact(old(State()), limits, now, identity.exactKeys, identity,
        allowed)
      ensures Valid() && bindings.Values <= old(bindings.Values)
      ensures if hit.NoHit? then found == null else found != null && found.id == hit.id && Holds(bindings, found)
    {
      var keys := identity.exactKeys;
      for i := 0 to |keys|
        invariant Valid() && IndexAgrees(State()) && bindings.Values <= old(bindings.Values)
        invariant AffinityModel.LookupExact(old(State()), limits, now, keys, identity, allowed) ==
                  AffinityModel.LookupExact(State(), limits, now, keys[i..], identity, allowed)
      {
        assert keys[i..][0] == keys[i] && keys[i..][1..] == keys[i + 1..];
        if keys[i] in exactIndex {
          KeyTriedIndex(State(), limits, now, keys[i], identity, allowed);
          var b := TryKey(keys[i], identity, allowed, now);
          if b != null {
            return ExactKey(keys[i], b.id), b;
          }
        }
      }
      return NoHit, null;
    }

    /** The table's value, read off the objects: what a listing of the map or a sort of a bucket sees. */
    function Snapshot(): (t: Table)
      requires Valid()
      reads this, bindings.Values
      ensures t == State()
    {
      var t := Table(map id | id in bindings :: bindings[id].entry, exactIndex, buckets, nextId, nextIncarnation);
      assert t.bindings == entries;
      t
    }

    /** Scan a bounded, most-recent-first slice of the request's bucket. */
    method LookupBucket(identity: TaskIdentity, allowed: Option<set<string>>, now: int)
      returns (hit: Hit, found: AffinityBinding?)
      requires Valid() && Inv(State())
      modifies this, bindings.Values
      ensures (hit, State()) == AffinityModel.LookupBucket(old(State()), limits, now, identity, allowed)
      ensures Valid() && bindings.Values <= old(bindings.Values)
      ensures if hit.NoHit? then found == null else found != null && found.id == hit.id && Holds(bindings, found)
    {
      var key := BucketKeyFor(identity);
      if key !in buckets {
        return NoHit, null;
      }
      var ordered := ByRecency(Snapshot(), buckets[key]);
      var slice := ordered[..Min(limits.maxBucketScan, |ordered|)];
      SliceHeld(State(), key, |slice|);
      hit, found := ScanSlice(slice, identity, allowed, now);
    }

    method ScanSlice(slice: seq<nat>, identity: TaskIdentity, allowed: Option<set<string>>, now: int)
      returns (hit: Hit, found: AffinityBinding?)
      requires Valid() && Distinct(slice) && forall id :: id in slice ==> id in bindings
      modifies this, bindings.Values
      ensures (hit, State()) == Scan(old(State()), limits, now, slice, 0, identity, allowed)
      ensures Valid() && bindings.Values <= old(bindings.Values)
      ensures if hit.NoHit? then found == null else found != null && found.id == hit.id && Holds(bindings, found)
    {
      for i := 0 to |slice|
        invariant Valid() && bindings.Values <= old(bindings.Values)
        invariant forall j :: i <= j < |slice| ==> slice[j] in bindings
        invariant Scan(old(State()), limits, now, slice, 0, identity, allowed) ==
                  Scan(State(), limits, now, slice[i..], i, identity, allowed)
      {
        assert slice[i..][0] == slice[i] && slice[i..][1..] == slice[i + 1..];
        var b := bindings[slice[i]];
        var verdict := Usable(b, identity, allowed, now);
        if verdict.Usable? && UserHashPrefixMatches(b.entry.evidence.userHashes, identity.userHashes) {
          Touch(b, now);
          return PrefixBucket(b.id, i + 1), b;
        }
      }
      return NoHit, null;
    }

    /** The hit of a request, by exact key and then by bucket; the binding hit is touched. */
    method Lookup(identity: TaskIdentity, allowed: Option<set<string>>, now: int)
      returns (hit: Hit, found: AffinityBinding?)
      requires Valid() && Inv(State())
      modifies this, bindings.Values
      ensures (hit, State()) == AffinityModel.Lookup(old(State()), limits, now, identity, allowed)
      ensures Valid() && Inv(State()) && bindings.Values <= old(bindings.Values)
      ensures if hit.NoHit? then found == null else found != null && found.id == HitId(hit) && Holds(bindings, found)
    {
      ghost var t := State();
      LookupInv(t, limits, now, identity, allowed);
      LookupExactInv(t, limits, now, identity.exactKeys, identity, allowed);
      hit, found := LookupExact(identity, allowed, now);
      if hit.NoHit? {
        hit, found := LookupBucket(identity, allowed, now);
      }
    }

    /** Point exact keys at a binding, taking them over from whatever held them. */
    method RegisterExactKeys(b: AffinityBinding, keys: seq<string>)
      requires Valid() && Holds(bindings, b)
      modifies this`exactIndex, this`entries, b
      ensures Valid() && State() == AffinityModel.RegisterExactKeys(old(State()), b.id, keys)
    {
      for i := 0 to |keys|
        invariant Valid() && b.id in entries
        invariant AffinityModel.RegisterExactKeys(old(State()), b.id, keys) ==
                  AffinityModel.RegisterExactKeys(State(), b.id, keys[i..])
      {
        assert keys[i..][0] == keys[i] && keys[i..][1..] == keys[i + 1..];
        if keys[i] == "" {
          continue;
        }
        RegisterOne(b, keys[i]);
      }
    }

    method RegisterOne(b: AffinityBinding, key: string)
      requires Valid() && Holds(bindings, b)
      modifies this`exactIndex, this`entries, b
      ensures Valid() && exactIndex == old(exactIndex)[key := b.id]
      ensures entries == old(entries)[b.id := old(b.entry).(exactKeys := old(b.entry.exactKeys) + {key})]
    {
      exactIndex := exactIndex[key := b.id];
      b.entry := b.entry.(exactKeys := b.entry.exactKeys + {key});
      entries := entries[b.id := b.entry];
    }

    /** Add the key of the response that a request refers back to, for a binding the table holds. */
    method NoteRequestDependencies(b: AffinityBinding, identity: TaskIdentity)
      requires Valid()
      modifies this`entries, b
      ensures Valid()
      ensures old(Holds(bindings, b)) ==> State() == AffinityModel.NoteRequestDependencies(old(State()), b.id, identity)
      ensures !old(Holds(bindings, b)) ==> State() == old(State()) && b.entry == old(b.entry)
    {
      if b.id !in bindings || bindings[b.id] != b {
        return;
      }
      if identity.namedResponseKey.Some? {
        b.entry := b.entry.(responseDependencies := b.entry.responseDependencies + {identity.namedResponseKey.value});
        entries := entries[b.id := b.entry];
      }
    }

    /** Make a held binding found by the ids of the responses it produced. */
    method AttachResponseIds(b: AffinityBinding, responseIds: seq<string>)
      requires Valid()
      modifies this`exactIndex, this`entries, b
      ensures Valid()
      ensures old(Holds(bindings, b)) ==> State() == Runs.AttachResponseIds(old(State()), b.id, responseIds)
      ensures !old(Holds(bindings, b)) ==> State() == old(State()) && b.entry == old(b.entry)
    {
      if b.id !in bindings || bindings[b.id] != b {
        return;
      }
      RegisterExactKeys(b, Runs.ResponseKeys(responseIds));
    }

    /** Move a held binding to a target, counting the move if it is one; false for any other object. */
    method Rebind(b: AffinityBinding, targetId: string, now: int) returns (done: bool)
      requires Valid()
      modifies this`entries, b
      ensures Valid() && done == old(Holds(bindings, b))
      ensures done ==> State() == AffinityModel.Rebind(old(State()), b.id, targetId, now)
      ensures done ==> b.entry.targetId == targetId && b.entry.lastSeenAt == now && b.entry.lastBoundAt == now
      ensures done ==> b.entry.routingRevision == old(b.entry.routingRevision)
                                                  + if old(b.entry.targetId) == targetId then 0 else 1
      ensures !done ==> State() == old(State()) && b.entry == old(b.entry)
    {
      if b.id !in bindings || bindings[b.id] != b {
        return false;
      }
      var entry := b.entry;
      if entry.targetId != targetId {
        entry := entry.(routingRevision := entry.routingRevision + 1, targetId := targetId);
      }
      b.entry := entry.(lastSeenAt := now, lastBoundAt := now);
      entries := entries[b.id := b.entry];
      return true;
    }

    /** The first of the candidates seen longest ago. */
    method Oldest(candidates: seq<nat>) returns (oldest: AffinityBinding)
      requires Valid() && candidates != [] && forall id :: id in candidates ==> id in bindings
      ensures Holds(bindings, oldest) && oldest.id == OldestOf(State(), candidates)
    {
      oldest := bindings[candidates[0]];
      assert candidates[..1] == [candidates[0]];
      for i := 1 to |candidates|
        invariant Holds(bindings, oldest) && oldest.id == OldestOf(State(), candidates[..i])
      {
        var candidate := bindings[candidates[i]];
        assert candidates[..i + 1][..i] == candidates[..i];
        if candidate.entry.lastSeenAt < oldest.entry.lastSeenAt {
          oldest := candidate;
        }
      }
      assert candidates[..|candidates|] == candidates;
    }

    method EvictFrom(key: BucketKey) returns (id: nat)
      requires Valid() && Inv(State()) && key in buckets
      modifies this
      ensures id == OldestOf(old(State()), old(buckets[key]))
      ensures Valid() && State() == AffinityModel.Remove(old(State()), id)
      ensures Inv(State()) && bindings == old(bindings) - {id} && |entries| < old(|entries|)
    {
      BucketHeld(State(), key);
      var oldest := Oldest(buckets[key]);
      RemoveFromBucket(State(), oldest.id, key);
      Remove(oldest);
      id := oldest.id;
    }

    /** Shrink one bucket to its cap, the members unseen for longest first. */
    method EnforceBucketCap(b: AffinityBinding)
      requires Valid() && Inv(State()) && Holds(bindings, b)
      modifies this
      ensures Valid() && State() == AffinityModel.EnforceBucketCap(old(State()), limits, b.id, b.entry.bucketKey)
      ensures Inv(State()) && Shrunk(bindings, old(bindings))
    {
      var key := b.entry.bucketKey;
      while key in buckets && |buckets[key]| > limits.maxBucketSize
        invariant Valid() && Inv(State()) && Shrunk(bindings, old(bindings))
        invariant AffinityModel.EnforceBucketCap(old(State()), limits, b.id, key) ==
                  AffinityModel.EnforceBucketCap(State(), limits, b.id, key)
        decreases |entries|
      {
        BucketCapStep(State(), limits, b.id, key);
        var oldest := EvictFrom(key);
        if oldest == b.id {
          return;
        }
      }
      BucketCapDone(State(), limits, b.id, key);
    }

    /** Shrink the table to its cap, the bindings unseen for longest first. */
    method EnforceGroupCap()
      requires Valid() && Inv(State())
      modifies this
      ensures Valid() && State() == AffinityModel.EnforceGroupCap(old(State()), limits)
      ensures Inv(State()) && Shrunk(bindings, old(bindings))
    {
      GroupCapInv(State(), limits);
      while |bindings| > limits.maxBindings
        invariant Valid() && Inv(State()) && Shrunk(bindings, old(bindings))
        invariant AffinityModel.EnforceGroupCap(old(State()), limits) == AffinityModel.EnforceGroupCap(State(), limits)
        decreases |bindings|
      {
        assert |bindings| == |bindings.Keys| && |entries| == |entries.Keys|;
        IdsNotEmpty(State());
        var oldest := Oldest(Ids(Snapshot()));
        RemoveShrinks(State(), oldest.id);
        Remove(oldest);
      }
      assert |bindings| == |bindings.Keys| && |entries| == |entries.Keys|;
    }

    /** The binding of a request, which is made when none is hit. */
    method Bind(identity: TaskIdentity, targetId: string, allowRebind: bool, now: int) returns (b: AffinityBinding)
      requires Valid() && Inv(State())
      modifies this, bindings.Values
      ensures Valid() && Inv(State())
      ensures (State(), b.id) == AffinityModel.Bind(old(State()), limits, now, identity, targetId, allowRebind)
      ensures b.id in bindings ==> Holds(bindings, b)
      ensures b.id in bindings ==>
        b.entry.targetId ==
        if allowRebind || b.id !in old(bindings) then targetId else old(State()).bindings[b.id].targetId
    {
      ghost var t := State();
      Routing.BindPoints(t, limits, now, identity, targetId, allowRebind);
      BindInv(State(), limits, now, identity, targetId, allowRebind);
      b := FindOrCreate(identity, targetId, allowRebind, now);
    }

    method FindOrCreate(identity: TaskIdentity, targetId: string, allowRebind: bool, now: int)
      returns (b: AffinityBinding)
      requires Valid() && Inv(State())
      modifies this, bindings.Values
      ensures Valid()
      ensures (State(), b.id) == AffinityModel.Bind(old(State()), limits, now, identity, targetId, allowRebind)
      ensures b.id in bindings ==> Holds(bindings, b)
    {
      var hit, found := Lookup(identity, None, now);
      if found != null {
        b := found;
        RefreshBinding(b, identity, targetId, allowRebind, now);
      } else {
        b := CreateCapped(identity, targetId, now);
      }
    }

    method CreateCapped(identity: TaskIdentity, targetId: string, now: int) returns (b: AffinityBinding)
      requires Valid() && Inv(State())
      modifies this
      ensures var v := Admit(old(State()), identity, targetId, now);
              Inv(v) &&
              var w := AffinityModel.EnforceBucketCap(v, limits, b.id, BucketKeyFor(identity));
              Inv(w) && State() == AffinityModel.EnforceGroupCap(w, limits)
      ensures Valid() && b.id == old(nextId)
      ensures fresh(b) && Shrunk(bindings, old(bindings)[b.id := b])
    {
      b := CreateBinding(identity, targetId, now);
      EnforceCaps(b);
    }

    method EnforceCaps(b: AffinityBinding)
      requires Valid() && Inv(State()) && Holds(bindings, b)
      modifies this
      ensures var w := AffinityModel.EnforceBucketCap(old(State()), limits, b.id, b.entry.bucketKey);
              Inv(w) && State() == AffinityModel.EnforceGroupCap(w, limits)
      ensures Valid() && Shrunk(bindings, old(bindings))
    {
      EnforceBucketCap(b);
      EnforceGroupCap();
    }

    method RefreshBinding(b: AffinityBinding, identity: TaskIdentity, targetId: string, allowRebind: bool, now: int)
      requires Valid() && Holds(bindings, b)
      modifies this`exactIndex, this`entries, b
      ensures Valid() && State() == Refresh(old(State()), now, b.id, identity, targetId, allowRebind)
    {
      if b.entry.targetId != targetId && allowRebind {
        var _ := Rebind(b, targetId, now);
      }
      KeyAndNote(b, identity);
    }

    method CreateBinding(identity: TaskIdentity, targetId: string, now: int) returns (b: AffinityBinding)
      requires Valid() && Inv(State())
      modifies this
      ensures Valid() && Inv(State()) && fresh(b) && bindings == old(bindings)[b.id := b]
      ensures b.id == old(nextId) && State() == Admit(old(State()), identity, targetId, now)
      ensures b.entry.bucketKey == BucketKeyFor(identity)
    {
      ghost var t := State();
      AdmitInv(t, identity, targetId, now);
      b := AddBinding(identity, targetId, now);
      KeyAndNote(b, identity);
      Guarantees.AdmitBound(t, identity, targetId, now);
    }

    method KeyAndNote(b: AffinityBinding, identity: TaskIdentity)
      requires Valid() && Holds(bindings, b)
      modifies this`exactIndex, this`entries, b
      ensures Valid() && b.id in old(entries)
      ensures State() == AffinityModel.NoteRequestDependencies(
        AffinityModel.RegisterExactKeys(old(State()), b.id, identity.exactKeys), b.id, identity)
    {
      RegisterExactKeys(b, identity.exactKeys);
      NoteRequestDependencies(b, identity);
    }

    method AddBinding(identity: TaskIdentity, targetId: string, now: int) returns (b: AffinityBinding)
      requires Valid()
      modifies this
      ensures Valid() && fresh(b) && bindings == old(bindings)[b.id := b] && b.id == old(nextId)
      ensures State() == Create(old(State()), identity, targetId, now)
    {
      var key := BucketKeyFor(identity);
      b := new AffinityBinding(nextId, NewEntry(Snapshot(), identity, targetId, now));
      bindings := bindings[nextId := b];
      entries := entries[nextId := b.entry];
      buckets := buckets[key := (if key in buckets then buckets[key] else []) + [nextId]];
      nextId, nextIncarnation := nextId + 1, nextIncarnation + 1;
    }

    method RemoveEach(doomed: seq<nat>)
      requires Valid() && Distinct(doomed) && forall id :: id in doomed ==> id in bindings
      modifies this
      ensures Valid() && State() == RemoveAll(old(State()), doomed) && bindings.Values <= old(bindings.Values)
      ensures |bindings| == |old(bindings)| - |doomed|
    {
      for i := 0 to |doomed|
        invariant Valid() && State() == RemoveAll(old(State()), doomed[..i]) && bindings.Values <= old(bindings.Values)
        invariant forall j :: i <= j < |doomed| ==> doomed[j] in bindings
      {
        assert doomed[..i + 1][..i] == doomed[..i];
        Remove(bindings[doomed[i]]);
      }
      assert doomed[..|doomed|] == doomed;
      RemovedCount(old(State()), doomed);
      SameSize(bindings, entries);
      SameSize(old(bindings), old(entries));
    }

    /** Remove the bindings not seen within the time to live. */
    method SweepExpired(now: int) returns (count: nat)
      requires Valid()
      modifies this
      ensures Valid() && State() == AffinityModel.SweepExpired(old(State()), limits, now)
      ensures count == |old(bindings)| - |bindings|
    {
      var t := Snapshot();
      IdsBelowDistinct(t, t.nextId);
      IdsWhereFacts(t, Ids(t), (e: Entry) => Expired(limits, now, e));
      var expired := IdsWhere(t, Ids(t), (e: Entry) => Expired(limits, now, e));
      RemoveEach(expired);
      count := |expired|;
    }

    /** Remove what is bound to a target that is not allowed. */
    method PruneTargets(allowed: set<string>) returns (count: nat)
      requires Valid()
      modifies this
      ensures Valid() && State() == AffinityModel.PruneTargets(old(State()), allowed)
      ensures count == |old(bindings)| - |bindings|
    {
      var t := Snapshot();
      IdsBelowDistinct(t, t.nextId);
      IdsWhereFacts(t, Ids(t), (e: Entry) => e.targetId !in allowed);
      var doomed := IdsWhere(t, Ids(t), (e: Entry) => e.targetId !in allowed);
      RemoveEach(doomed);
      count := |doomed|;
    }

    method Clear() returns (count: nat)
      requires Valid()
      modifies this
      ensures Valid() && State() == AffinityModel.Clear(old(State()))
      ensures Inv(old(State())) ==> bindings == map[]
      ensures count == |old(bindings)|
    {
      count := |bindings|;
      IdsBelowDistinct(Snapshot(), nextId);
      RemovedGone(Snapshot(), Ids(Snapshot()));
      RemoveEach(Ids(Snapshot()));
    }
  }
}
