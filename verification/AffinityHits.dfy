/** Which binding a lookup hits, said about the table before the lookup: the first of the request's
    keys whose binding is usable, and else the most recently seen match of its bucket. */
module AffinityHits {
  import opened AffinityModel
  import opened AffinityExpiry

  // ----- The exact hit

  /** The key points at a usable binding. */
  predicate UsableKey(t: Table, limits: Limits, now: int, key: string, identity: TaskIdentity,
                      allowed: Option<set<string>>) {
    key in t.exactIndex && Judge(t, limits, now, t.exactIndex[key], identity, allowed).Usable?
  }

  ghost predicate NoneUsable(t: Table, limits: Limits, now: int, keys: seq<string>, identity: TaskIdentity,
                             allowed: Option<set<string>>) {
    forall i {:trigger keys[i]} :: 0 <= i < |keys| ==> !UsableKey(t, limits, now, keys[i], identity, allowed)
  }

  ghost predicate ExactHitAt(t: Table, limits: Limits, now: int, keys: seq<string>, identity: TaskIdentity,
                             allowed: Option<set<string>>, hit: Hit, i: nat) {
    && i < |keys| && UsableKey(t, limits, now, keys[i], identity, allowed)
    && NoneUsable(t, limits, now, keys[..i], identity, allowed)
    && hit == ExactKey(keys[i], t.exactIndex[keys[i]])
  }

  ghost predicate FirstUsable(t: Table, limits: Limits, now: int, keys: seq<string>, identity: TaskIdentity,
                              allowed: Option<set<string>>, hit: Hit) {
    exists i: nat :: ExactHitAt(t, limits, now, keys, identity, allowed, hit, i)
  }

  /** What the lookup drops with a key that is not usable leaves every other key as it was. */
  lemma DroppedKey(t: Table, limits: Limits, now: int, key: string, other: string, identity: TaskIdentity,
                   allowed: Option<set<string>>)
    requires key in t.exactIndex && !UsableKey(t, limits, now, key, identity, allowed)
    ensures var id := t.exactIndex[key];
            var lapsed := Judge(t, limits, now, id, identity, allowed).Lapsed?;
            var u := DetachExactKey(if lapsed then Remove(t, id) else t, id, key);
            && (UsableKey(u, limits, now, other, identity, allowed) <==>
                UsableKey(t, limits, now, other, identity, allowed))
            && (other in u.exactIndex ==> other in t.exactIndex && u.exactIndex[other] == t.exactIndex[other])
  {
  }

  /** A lookup by exact keys hits the first key that points at a usable binding, and misses exactly
      when none does. */
  lemma {:induction false} ExactHitsFirst(t: Table, limits: Limits, now: int, keys: seq<string>, identity: TaskIdentity,
                                          allowed: Option<set<string>>)
    ensures var hit := LookupExact(t, limits, now, keys, identity, allowed).0;
            && (hit.NoHit? <==> NoneUsable(t, limits, now, keys, identity, allowed))
            && (!hit.NoHit? ==> FirstUsable(t, limits, now, keys, identity, allowed, hit))
    decreases keys
  {
    if keys != [] {
      var hit := LookupExact(t, limits, now, keys, identity, allowed).0;
      if UsableKey(t, limits, now, keys[0], identity, allowed) {
        assert ExactHitAt(t, limits, now, keys, identity, allowed, hit, 0);
      } else {
        var u := t;
        if keys[0] in t.exactIndex {
          var id := t.exactIndex[keys[0]];
          var lapsed := Judge(t, limits, now, id, identity, allowed).Lapsed?;
          u := DetachExactKey(if lapsed then Remove(t, id) else t, id, keys[0]);
          forall other ensures SameKey(t, u, limits, now, other, identity, allowed) {
            DroppedKey(t, limits, now, keys[0], other, identity, allowed);
          }
        }
        ExactHitsFirst(u, limits, now, keys[1..], identity, allowed);
        KeysLater(t, u, limits, now, keys, identity, allowed, hit);
      }
    }
  }

  ghost predicate SameKey(t: Table, u: Table, limits: Limits, now: int, key: string, identity: TaskIdentity,
                          allowed: Option<set<string>>) {
    && (UsableKey(u, limits, now, key, identity, allowed) <==> UsableKey(t, limits, now, key, identity, allowed))
    && (key in u.exactIndex ==> key in t.exactIndex && u.exactIndex[key] == t.exactIndex[key])
  }

  /** What holds behind a key that is not usable holds of all keys. */
  lemma KeysLater(t: Table, u: Table, limits: Limits, now: int, keys: seq<string>, identity: TaskIdentity,
                  allowed: Option<set<string>>, hit: Hit)
    requires keys != [] && !UsableKey(t, limits, now, keys[0], identity, allowed)
    requires forall key :: SameKey(t, u, limits, now, key, identity, allowed)
    ensures NoneUsable(t, limits, now, keys, identity, allowed) <==>
      NoneUsable(u, limits, now, keys[1..], identity, allowed)
    ensures FirstUsable(u, limits, now, keys[1..], identity, allowed, hit) ==>
              FirstUsable(t, limits, now, keys, identity, allowed, hit)
  {
    var rest := keys[1..];
    forall j | 0 <= j < |rest|
      ensures UsableKey(u, limits, now, rest[j], identity, allowed) ==
        UsableKey(t, limits, now, keys[j + 1], identity, allowed)
    {
      assert SameKey(t, u, limits, now, rest[j], identity, allowed);
    }
    if FirstUsable(u, limits, now, rest, identity, allowed, hit) {
      var i: nat :| ExactHitAt(u, limits, now, rest, identity, allowed, hit, i);
      assert SameKey(t, u, limits, now, rest[i], identity, allowed);
      var before := keys[..i + 1];
      forall j | 0 <= j < |before| ensures !UsableKey(t, limits, now, before[j], identity, allowed) {
        if j > 0 {
          assert rest[..i][j - 1] == rest[j - 1];
        }
      }
      assert ExactHitAt(t, limits, now, keys, identity, allowed, hit, i + 1);
    }
  }

  // ----- The order of the scan

  lemma {:induction false} InsertDescends(t: Table, id: nat, ids: seq<nat>)
    requires forall i, j :: 0 <= i < j < |ids| ==> Recency(t, ids[i]) >= Recency(t, ids[j])
    ensures var r := InsertByRecency(t, id, ids);
            && |r| == |ids| + 1
            && forall i, j :: 0 <= i < j < |r| ==> Recency(t, r[i]) >= Recency(t, r[j])
  {
    if ids != [] && Recency(t, id) < Recency(t, ids[0]) {
      InsertDescends(t, id, ids[1..]);
      InsertMembers(t, id, ids[1..]);
      var rest := InsertByRecency(t, id, ids[1..]);
      forall j | 0 <= j < |rest| ensures Recency(t, ids[0]) >= Recency(t, rest[j]) {
        assert rest[j] in rest;
      }
    }
  }

  /** A bucket is scanned from the binding seen last to the one seen longest ago, and all of it is
      in the order. */
  lemma {:induction false} ByRecencyDescends(t: Table, ids: seq<nat>)
    ensures var r := ByRecency(t, ids);
            && |r| == |ids| && (forall id :: id in r <==> id in ids)
            && forall i, j :: 0 <= i < j < |r| ==> Recency(t, r[i]) >= Recency(t, r[j])
  {
    SortedMembers(t, ids);
    if ids != [] {
      ByRecencyDescends(t, ids[1..]);
      InsertDescends(t, ids[0], ByRecency(t, ids[1..]));
    }
  }

  // ----- The bucket's hit

  /** The binding may carry the request: it is usable and the request's users continue its own. */
  predicate Matches(t: Table, limits: Limits, now: int, id: nat, identity: TaskIdentity, allowed: Option<set<string>>) {
    && Judge(t, limits, now, id, identity, allowed).Usable?
    && UserHashPrefixMatches(t.bindings[id].evidence.userHashes, identity.userHashes)
  }

  /** Removing one binding does not change what another is worth. */
  lemma MatchesElsewhere(t: Table, limits: Limits, now: int, gone: nat, id: nat, identity: TaskIdentity,
                         allowed: Option<set<string>>)
    requires gone != id
    ensures Matches(Remove(t, gone), limits, now, id, identity, allowed) ==
      Matches(t, limits, now, id, identity, allowed)
  {
  }

  ghost predicate NoneMatches(t: Table, limits: Limits, now: int, ids: seq<nat>, identity: TaskIdentity,
                              allowed: Option<set<string>>) {
    forall i {:trigger ids[i]} :: 0 <= i < |ids| ==> !Matches(t, limits, now, ids[i], identity, allowed)
  }

  /** The hit is the first binding of the slice that matches, and says how many were looked at. */
  ghost predicate HitsFirst(t: Table, limits: Limits, now: int, ids: seq<nat>, scanned: nat, identity: TaskIdentity,
                            allowed: Option<set<string>>, hit: Hit) {
    exists i: nat :: HitsAt(t, limits, now, ids, scanned, identity, allowed, hit, i)
  }

  ghost predicate HitsAt(t: Table, limits: Limits, now: int, ids: seq<nat>, scanned: nat, identity: TaskIdentity,
                         allowed: Option<set<string>>, hit: Hit, i: nat) {
    && i < |ids| && Matches(t, limits, now, ids[i], identity, allowed)
    && NoneMatches(t, limits, now, ids[..i], identity, allowed)
    && hit == PrefixBucket(ids[i], scanned + i + 1)
  }

  /** A scan hits the first binding of the slice that matches, and misses exactly when none does. */
  lemma {:induction false} ScanHitsFirst(t: Table, limits: Limits, now: int, ids: seq<nat>, scanned: nat,
                                         identity: TaskIdentity, allowed: Option<set<string>>)
    requires Distinct(ids)
    ensures var hit := Scan(t, limits, now, ids, scanned, identity, allowed).0;
            && (hit.NoHit? <==> NoneMatches(t, limits, now, ids, identity, allowed))
            && (!hit.NoHit? ==> HitsFirst(t, limits, now, ids, scanned, identity, allowed, hit))
    decreases ids
  {
    if ids != [] {
      var hit := Scan(t, limits, now, ids, scanned, identity, allowed).0;
      if Matches(t, limits, now, ids[0], identity, allowed) {
        assert HitsAt(t, limits, now, ids, scanned, identity, allowed, hit, 0);
      } else {
        var u := if Judge(t, limits, now, ids[0], identity, allowed).Lapsed? then Remove(t, ids[0]) else t;
        ScanHitsFirst(u, limits, now, ids[1..], scanned + 1, identity, allowed);
        assert hit == Scan(u, limits, now, ids[1..], scanned + 1, identity, allowed).0;
        HitsLater(t, u, limits, now, ids, scanned, identity, allowed, hit);
      }
    }
  }

  /** What holds behind a head that does not match holds of the whole slice. */
  lemma HitsLater(t: Table, u: Table, limits: Limits, now: int, ids: seq<nat>, scanned: nat, identity: TaskIdentity,
                  allowed: Option<set<string>>, hit: Hit)
    requires Distinct(ids) && ids != [] && !Matches(t, limits, now, ids[0], identity, allowed)
    requires u == t || u == Remove(t, ids[0])
    ensures NoneMatches(t, limits, now, ids, identity, allowed) <==>
      NoneMatches(u, limits, now, ids[1..], identity, allowed)
    ensures HitsFirst(u, limits, now, ids[1..], scanned + 1, identity, allowed, hit) ==>
              HitsFirst(t, limits, now, ids, scanned, identity, allowed, hit)
  {
    var rest := ids[1..];
    forall j | 0 <= j < |rest|
      ensures Matches(u, limits, now, rest[j], identity, allowed) ==
        Matches(t, limits, now, ids[j + 1], identity, allowed)
    {
      MatchesElsewhere(t, limits, now, ids[0], rest[j], identity, allowed);
    }
    if HitsFirst(u, limits, now, rest, scanned + 1, identity, allowed, hit) {
      var i: nat :| HitsAt(u, limits, now, rest, scanned + 1, identity, allowed, hit, i);
      var before := ids[..i + 1];
      forall j | 0 <= j < |before| ensures !Matches(t, limits, now, before[j], identity, allowed) {
        if j > 0 {
          assert rest[..i][j - 1] == rest[j - 1];
        }
      }
      assert HitsAt(t, limits, now, ids, scanned, identity, allowed, hit, i + 1);
    }
  }

  /** A bucket lookup hits the most recently seen usable binding of its slice whose users the request
      continues. */
  lemma BucketHitsFirst(t: Table, limits: Limits, now: int, identity: TaskIdentity, allowed: Option<set<string>>)
    requires Inv(t) && BucketKeyFor(identity) in t.buckets
    ensures var ordered := ByRecency(t, t.buckets[BucketKeyFor(identity)]);
            var slice := ordered[..Min(limits.maxBucketScan, |ordered|)];
            var hit := LookupBucket(t, limits, now, identity, allowed).0;
            && (hit.NoHit? <==> NoneMatches(t, limits, now, slice, identity, allowed))
            && (!hit.NoHit? ==> HitsFirst(t, limits, now, slice, 0, identity, allowed, hit))
  {
    var bucket := t.buckets[BucketKeyFor(identity)];
    SortedDistinct(t, bucket);
    var ordered := ByRecency(t, bucket);
    ScanHitsFirst(t, limits, now, ordered[..Min(limits.maxBucketScan, |ordered|)], 0, identity, allowed);
  }

  lemma {:induction false} SortedDistinct(t: Table, ids: seq<nat>)
    requires Distinct(ids)
    ensures Distinct(ByRecency(t, ids))
  {
    if ids != [] {
      SortedDistinct(t, ids[1..]);
      SortedMembers(t, ids[1..]);
      InsertDistinct(t, ids[0], ByRecency(t, ids[1..]));
    }
  }

  lemma {:induction false} InsertDistinct(t: Table, id: nat, ids: seq<nat>)
    requires Distinct(ids) && id !in ids
    ensures Distinct(InsertByRecency(t, id, ids))
  {
    if ids != [] && Recency(t, id) < Recency(t, ids[0]) {
      assert ids == [ids[0]] + ids[1..] && ids[0] !in ids[1..];
      InsertDistinct(t, id, ids[1..]);
      InsertMembers(t, id, ids[1..]);
    }
  }
}
