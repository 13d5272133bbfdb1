/** Lazy expiry refines eager expiry: looking up with expired bindings still in the table gives
    the same hit as sweeping first, and a final sweep makes the two tables equal. */
module AffinityExpiry {
  import opened AffinityModel

  ghost function Live(t: Table, limits: Limits, now: int): set<nat> {
    set id | id in t.bindings && !Expired(limits, now, t.bindings[id])
  }

  ghost function Kept(ids: seq<nat>, s: set<nat>): seq<nat> {
    if ids == [] then [] else (if ids[0] in s then [ids[0]] else []) + Kept(ids[1..], s)
  }

  ghost function KeptBindings(t: Table, s: set<nat>): map<nat, Entry> {
    map id | id in t.bindings && id in s :: t.bindings[id]
  }

  ghost function KeptIndex(t: Table, s: set<nat>): map<string, nat> {
    map k | k in t.exactIndex && t.exactIndex[k] in s :: t.exactIndex[k]
  }

  ghost function KeptBuckets(t: Table, s: set<nat>): map<BucketKey, seq<nat>> {
    map key | key in t.buckets && Kept(t.buckets[key], s) != [] :: Kept(t.buckets[key], s)
  }

  /** The table with only the bindings of `s`, and what points at them. */
  ghost function Keep(t: Table, s: set<nat>): Table {
    Table(KeptBindings(t, s), KeptIndex(t, s), KeptBuckets(t, s), t.nextId, t.nextIncarnation)
  }

  /** The swept table, said at once instead of removal by removal. */
  ghost function Swept(t: Table, limits: Limits, now: int): Table {
    Keep(t, Live(t, limits, now))
  }

  lemma {:induction false} KeptFacts(ids: seq<nat>, s: set<nat>)
    ensures forall x :: x in Kept(ids, s) <==> x in ids && x in s
    ensures (forall x :: x in ids ==> x in s) ==> Kept(ids, s) == ids
    ensures Distinct(ids) ==> Distinct(Kept(ids, s))
  {
    if ids != [] {
      KeptFacts(ids[1..], s);
      assert ids == [ids[0]] + ids[1..];
    }
  }

  lemma {:induction false} KeptWithout(ids: seq<nat>, s: set<nat>, id: nat)
    requires Distinct(ids) && id !in s && forall x :: x in ids && x != id ==> x in s
    ensures Without(ids, id) == Kept(ids, s)
  {
    if ids != [] {
      if ids[0] == id {
        KeptFacts(ids[1..], s);
      } else {
        KeptWithout(ids[1..], s, id);
      }
    }
  }

  lemma {:induction false} KeptKept(ids: seq<nat>, a: set<nat>, b: set<nat>)
    ensures Kept(Kept(ids, a), b) == Kept(ids, a * b)
  {
    if ids != [] {
      KeptKept(ids[1..], a, b);
      var rest := Kept(ids[1..], a);
      if ids[0] in a {
        assert ([ids[0]] + rest)[1..] == rest;
      } else {
        assert [] + rest == rest;
      }
    }
  }

  lemma KeepKeep(t: Table, a: set<nat>, b: set<nat>)
    ensures Keep(Keep(t, a), b) == Keep(t, a * b)
  {
    var u := Keep(t, a);
    forall key | key in t.buckets ensures Kept(Kept(t.buckets[key], a), b) == Kept(t.buckets[key], a * b) {
      KeptKept(t.buckets[key], a, b);
    }
    assert Kept([], b) == [];
    assert KeptBuckets(u, b) == KeptBuckets(t, a * b);
    assert KeptBindings(u, b) == KeptBindings(t, a * b);
    assert KeptIndex(u, b) == KeptIndex(t, a * b);
  }

  lemma RemovedBucket(t: Table, id: nat, key: BucketKey)
    requires BucketsHold(t) && id in t.bindings && key in t.buckets
    ensures Kept(t.buckets[key], t.bindings.Keys - {id}) ==
            if key == t.bindings[id].bucketKey then Without(t.buckets[key], id) else t.buckets[key]
  {
    var s := t.bindings.Keys - {id};
    if key == t.bindings[id].bucketKey {
      KeptWithout(t.buckets[key], s, id);
    } else {
      KeptFacts(t.buckets[key], s);
    }
  }

  lemma RemovedBucketAt(t: Table, id: nat, key: BucketKey)
    requires BucketsHold(t) && id in t.bindings && t.bindings[id].bucketKey in t.buckets
    ensures var u, v := Remove(t, id).buckets, KeptBuckets(t, t.bindings.Keys - {id});
            (key in u <==> key in v) && (key in u ==> u[key] == v[key])
  {
    if key in t.buckets {
      RemovedBucket(t, id, key);
      assert t.buckets[key] != [];
    }
  }

  lemma RemovedBuckets(t: Table, id: nat)
    requires BucketsHold(t) && id in t.bindings && t.bindings[id].bucketKey in t.buckets
    ensures Remove(t, id).buckets == KeptBuckets(t, t.bindings.Keys - {id})
  {
    var u, v := Remove(t, id).buckets, KeptBuckets(t, t.bindings.Keys - {id});
    forall key ensures (key in u <==> key in v) && (key in u ==> u[key] == v[key]) {
      RemovedBucketAt(t, id, key);
    }
  }

  lemma RemovedIndex(t: Table, id: nat)
    requires IndexAgrees(t) && id in t.bindings
    ensures Remove(t, id).exactIndex == KeptIndex(t, t.bindings.Keys - {id})
  {
  }

  lemma RemoveIsKeep(t: Table, id: nat)
    requires Inv(t) && id in t.bindings
    ensures Remove(t, id) == Keep(t, t.bindings.Keys - {id})
  {
    RemovedBuckets(t, id);
    RemovedIndex(t, id);
    assert Remove(t, id).bindings == KeptBindings(t, t.bindings.Keys - {id});
  }

  lemma KeepEverything(t: Table)
    requires Inv(t)
    ensures Keep(t, t.bindings.Keys) == t
  {
    forall key | key in t.buckets ensures Kept(t.buckets[key], t.bindings.Keys) == t.buckets[key] {
      KeptFacts(t.buckets[key], t.bindings.Keys);
    }
    assert KeptBuckets(t, t.bindings.Keys) == t.buckets;
    assert KeptBindings(t, t.bindings.Keys) == t.bindings;
    assert KeptIndex(t, t.bindings.Keys) == t.exactIndex;
  }

  ghost function Members(ids: seq<nat>): set<nat> {
    set id | id in ids
  }

  lemma {:induction false} RemoveAllIsKeep(t: Table, ids: seq<nat>, s: set<nat>)
    requires Inv(t) && Distinct(ids) && forall id :: id in ids ==> id in t.bindings
    requires s == t.bindings.Keys - Members(ids)
    ensures Inv(RemoveAll(t, ids)) && RemoveAll(t, ids) == Keep(t, s)
    decreases ids
  {
    if ids == [] {
      KeepEverything(t);
      assert Members(ids) == {};
      assert s == t.bindings.Keys;
    } else {
      var last, init := ids[|ids| - 1], ids[..|ids| - 1];
      MembersLast(t.bindings.Keys, ids);
      RemoveAllIsKeep(t, init, t.bindings.Keys - Members(init));
      RemoveLast(t, RemoveAll(t, init), t.bindings.Keys - Members(init), last);
    }
  }

  lemma MembersLast(all: set<nat>, ids: seq<nat>)
    requires ids != [] && Distinct(ids) && forall id :: id in ids ==> id in all
    ensures var last, init := ids[|ids| - 1], ids[..|ids| - 1];
            && Distinct(init) && (forall id :: id in init ==> id in all)
            && last in all - Members(init) && all - Members(ids) == all - Members(init) - {last}
  {
    var last, init := ids[|ids| - 1], ids[..|ids| - 1];
    assert ids == init + [last];
  }

  lemma RemoveLast(t: Table, u: Table, kept: set<nat>, last: nat)
    requires Inv(u) && u == Keep(t, kept) && kept <= t.bindings.Keys && last in kept
    ensures Inv(Remove(u, last)) && Remove(u, last) == Keep(t, kept - {last})
  {
    assert u.bindings.Keys == kept;
    RemoveIsKeep(u, last);
    RemoveInv(u, last);
    KeepKeep(t, kept, kept - {last});
    assert kept * (kept - {last}) == kept - {last};
  }

  lemma {:induction false} IdsBelowDistinct(t: Table, n: nat)
    ensures Distinct(IdsBelow(t, n))
  {
    if n > 0 {
      IdsBelowDistinct(t, n - 1);
    }
  }

  lemma {:induction false} IdsWhereFacts(t: Table, ids: seq<nat>, doomed: Entry -> bool)
    requires Distinct(ids)
    ensures Distinct(IdsWhere(t, ids, doomed))
    ensures forall id :: id in IdsWhere(t, ids, doomed) <==> id in ids && id in t.bindings && doomed(t.bindings[id])
    decreases ids
  {
    if ids != [] {
      assert ids == ids[..|ids| - 1] + [ids[|ids| - 1]];
      IdsWhereFacts(t, ids[..|ids| - 1], doomed);
    }
  }

  /** The sweep removes the expired bindings, and nothing else. */
  lemma SweepIsKeep(t: Table, limits: Limits, now: int)
    requires Inv(t)
    ensures SweepExpired(t, limits, now) == Swept(t, limits, now) && Inv(Swept(t, limits, now))
  {
    var doomed := (e: Entry) => Expired(limits, now, e);
    IdsBelowDistinct(t, t.nextId);
    IdsWhereFacts(t, Ids(t), doomed);
    var ids := IdsWhere(t, Ids(t), doomed);
    assert t.bindings.Keys - Members(ids) == Live(t, limits, now);
    RemoveAllIsKeep(t, ids, Live(t, limits, now));
  }

  /** Pruning leaves exactly the bindings on allowed targets, with what points at them. */
  lemma PruneIsKeep(t: Table, allowed: set<string>)
    requires Inv(t)
    ensures PruneTargets(t, allowed) == Keep(t, set id | id in t.bindings && t.bindings[id].targetId in allowed)
  {
    var doomed := (e: Entry) => e.targetId !in allowed;
    var kept := set id | id in t.bindings && t.bindings[id].targetId in allowed;
    IdsBelowDistinct(t, t.nextId);
    IdsWhereFacts(t, Ids(t), doomed);
    var ids := IdsWhere(t, Ids(t), doomed);
    assert t.bindings.Keys - Members(ids) == kept;
    RemoveAllIsKeep(t, ids, kept);
  }

  // ----- Operations on a live binding commute with the sweep

  lemma UpdateSwept(t: Table, limits: Limits, now: int, id: nat, e: Entry)
    requires id in Live(t, limits, now) && !Expired(limits, now, e)
    ensures Swept(Update(t, id, e), limits, now) == Update(Swept(t, limits, now), id, e)
  {
    var live := Live(t, limits, now);
    assert Live(Update(t, id, e), limits, now) == live;
    assert KeptBindings(Update(t, id, e), live) == KeptBindings(t, live)[id := e];
    assert KeptIndex(Update(t, id, e), live) == KeptIndex(t, live);
    assert KeptBuckets(Update(t, id, e), live) == KeptBuckets(t, live);
  }

  lemma DetachSwept(t: Table, limits: Limits, now: int, id: nat, key: string)
    requires key in t.exactIndex && t.exactIndex[key] == id && id in t.bindings
    ensures Swept(DetachExactKey(t, id, key), limits, now) ==
            if id in Live(t, limits, now) then DetachExactKey(Swept(t, limits, now), id, key) else Swept(t, limits, now)
  {
    var u, live := DetachExactKey(t, id, key), Live(t, limits, now);
    var e := t.bindings[id].(exactKeys := t.bindings[id].exactKeys - {key});
    assert u.bindings == t.bindings[id := e];
    assert Live(u, limits, now) == live;
    assert KeptBuckets(u, live) == KeptBuckets(t, live);
    if id in live {
      assert KeptBindings(u, live) == KeptBindings(t, live)[id := e];
      assert KeptIndex(u, live) == KeptIndex(t, live) - {key};
    } else {
      assert KeptBindings(u, live) == KeptBindings(t, live);
      assert KeptIndex(u, live) == KeptIndex(t, live);
    }
  }

  lemma RemoveSwept(t: Table, limits: Limits, now: int, id: nat)
    requires Inv(t) && id in t.bindings && id !in Live(t, limits, now)
    ensures Swept(Remove(t, id), limits, now) == Swept(t, limits, now)
  {
    RemoveIsKeep(t, id);
    var s, live := t.bindings.Keys - {id}, Live(t, limits, now);
    assert Live(Remove(t, id), limits, now) == live;
    KeepKeep(t, s, live);
    assert s * live == live;
  }

  /** Detaching a key nothing points at, from a binding that is gone, changes nothing. */
  lemma DetachGone(t: Table, id: nat, key: string)
    requires id !in t.bindings && key !in t.exactIndex
    ensures DetachExactKey(t, id, key) == t
  {
    assert t.exactIndex - {key} == t.exactIndex;
  }

  // ----- Exact keys

  /** One key whose binding is not used: swept, the table it leaves is the one eager expiry has. */
  lemma MissLazy(t: Table, limits: Limits, now: int, id: nat, key: string, gone: bool) returns (u: Table)
    requires Inv(t) && key in t.exactIndex && t.exactIndex[key] == id && id in t.bindings
    requires gone ==> id !in Live(t, limits, now)
    ensures u == DetachExactKey(if gone then Remove(t, id) else t, id, key) && Inv(u)
    ensures Swept(u, limits, now) ==
            if id in Live(t, limits, now) then DetachExactKey(Swept(t, limits, now), id, key) else Swept(t, limits, now)
  {
    if gone {
      RemoveInv(t, id);
      RemoveSwept(t, limits, now, id);
      DetachGone(Remove(t, id), id, key);
      u := Remove(t, id);
    } else {
      DetachInv(t, id, key);
      DetachSwept(t, limits, now, id, key);
      u := DetachExactKey(t, id, key);
    }
  }

  lemma KeyPoints(t: Table, key: string)
    requires Inv(t) && key in t.exactIndex
    ensures t.exactIndex[key] in t.bindings
  {
  }

  lemma TouchSwept(t: Table, limits: Limits, now: int, id: nat)
    requires id in Live(t, limits, now) && limits.ttlMs >= 0
    ensures id in Swept(t, limits, now).bindings
    ensures Swept(Touch(t, id, now), limits, now) == Touch(Swept(t, limits, now), id, now)
  {
    var e := t.bindings[id];
    UpdateSwept(t, limits, now, id, e.(lastSeenAt := now, requestCount := e.requestCount + 1));
  }

  lemma ExactLazyHit(t: Table, limits: Limits, now: int, keys: seq<string>, identity: TaskIdentity,
                     allowed: Option<set<string>>)
    requires Inv(t) && limits.ttlMs >= 0 && keys != [] && keys[0] in t.exactIndex
    requires Judge(t, limits, now, t.exactIndex[keys[0]], identity, allowed).Usable?
    ensures var (hit, u) := LookupExact(t, limits, now, keys, identity, allowed);
            LookupExact(Swept(t, limits, now), limits, now, keys, identity, allowed) == (hit, Swept(u, limits, now))
  {
    var id := t.exactIndex[keys[0]];
    TouchSwept(t, limits, now, id);
    var s := Swept(t, limits, now);
    assert s.bindings[id] == t.bindings[id] && Judge(s, limits, now, id, identity, allowed).Usable?;
  }

  /** What the swept table says of one key, and of one live binding. */
  lemma SweptView(t: Table, limits: Limits, now: int, key: string, id: nat, identity: TaskIdentity,
                  allowed: Option<set<string>>)
    ensures var s, live := Swept(t, limits, now), Live(t, limits, now);
            && (key in s.exactIndex <==> key in t.exactIndex && t.exactIndex[key] in live)
            && (key in s.exactIndex ==> s.exactIndex[key] == t.exactIndex[key])
            && (id in live ==>
                Judge(s, limits, now, id, identity, allowed) == Judge(t, limits, now, id, identity, allowed))
  {
  }

  lemma EagerMiss(s: Table, limits: Limits, now: int, keys: seq<string>, identity: TaskIdentity,
                  allowed: Option<set<string>>, id: nat, live: bool)
    requires keys != []
    requires live ==> keys[0] in s.exactIndex && s.exactIndex[keys[0]] == id
    requires live ==> Judge(s, limits, now, id, identity, allowed).Unusable?
    requires !live ==> keys[0] !in s.exactIndex
    ensures LookupExact(s, limits, now, keys, identity, allowed) ==
            LookupExact(if live then DetachExactKey(s, id, keys[0]) else s, limits, now, keys[1..], identity, allowed)
  {
  }

  lemma ExactMiss(t: Table, limits: Limits, now: int, keys: seq<string>, identity: TaskIdentity,
                  allowed: Option<set<string>>) returns (u: Table)
    requires Inv(t) && keys != [] && keys[0] in t.exactIndex
    requires !Judge(t, limits, now, t.exactIndex[keys[0]], identity, allowed).Usable?
    ensures Inv(u)
    ensures LookupExact(t, limits, now, keys, identity, allowed) ==
      LookupExact(u, limits, now, keys[1..], identity, allowed)
    ensures LookupExact(Swept(t, limits, now), limits, now, keys, identity, allowed) ==
            LookupExact(Swept(u, limits, now), limits, now, keys[1..], identity, allowed)
  {
    KeyPoints(t, keys[0]);
    var id := t.exactIndex[keys[0]];
    u := MissLazy(t, limits, now, id, keys[0], Judge(t, limits, now, id, identity, allowed).Lapsed?);
    SweptView(t, limits, now, keys[0], id, identity, allowed);
    EagerMiss(Swept(t, limits, now), limits, now, keys, identity, allowed, id, id in Live(t, limits, now));
  }

  lemma {:induction false} ExactLazy(t: Table, limits: Limits, now: int, keys: seq<string>, identity: TaskIdentity,
                                     allowed: Option<set<string>>)
    requires Inv(t) && limits.ttlMs >= 0
    ensures var (hit, u) := LookupExact(t, limits, now, keys, identity, allowed);
            LookupExact(Swept(t, limits, now), limits, now, keys, identity, allowed) == (hit, Swept(u, limits, now))
    decreases keys
  {
    if keys != [] {
      if keys[0] !in t.exactIndex {
        ExactLazy(t, limits, now, keys[1..], identity, allowed);
      } else if Judge(t, limits, now, t.exactIndex[keys[0]], identity, allowed).Usable? {
        ExactLazyHit(t, limits, now, keys, identity, allowed);
      } else {
        var u := ExactMiss(t, limits, now, keys, identity, allowed);
        ExactLazy(u, limits, now, keys[1..], identity, allowed);
      }
    }
  }

  // ----- The bucket scan

  lemma {:induction false} ScanAppend(t: Table, limits: Limits, now: int, a: seq<nat>, b: seq<nat>, scanned: nat,
                                      identity: TaskIdentity, allowed: Option<set<string>>)
    ensures var (hit, u) := Scan(t, limits, now, a, scanned, identity, allowed);
            Scan(t, limits, now, a + b, scanned, identity, allowed) ==
            if hit.NoHit? then Scan(u, limits, now, b, scanned + |a|, identity, allowed) else (hit, u)
    decreases a
  {
    if a == [] {
      assert a + b == b;
    } else {
      assert (a + b)[1..] == a[1..] + b;
      ScanAppend(Remove(t, a[0]), limits, now, a[1..], b, scanned + 1, identity, allowed);
      ScanAppend(t, limits, now, a[1..], b, scanned + 1, identity, allowed);
    }
  }

  /** Over live bindings the scan does the same in the swept table, and a miss changes nothing. */
  lemma {:induction false} ScanLive(t: Table, limits: Limits, now: int, ids: seq<nat>, scanned: nat,
                                    identity: TaskIdentity, allowed: Option<set<string>>)
    requires limits.ttlMs >= 0 && forall id :: id in ids ==> id in Live(t, limits, now)
    ensures var (hit, u) := Scan(t, limits, now, ids, scanned, identity, allowed);
            && Scan(Swept(t, limits, now), limits, now, ids, scanned, identity, allowed) == (hit, Swept(u, limits, now))
            && (hit.NoHit? ==> u == t)
    decreases ids
  {
    if ids != [] {
      var id := ids[0];
      assert id in Live(t, limits, now);
      SweptView(t, limits, now, "", id, identity, allowed);
      TouchSwept(t, limits, now, id);
      assert Swept(t, limits, now).bindings[id] == t.bindings[id];
      ScanLive(t, limits, now, ids[1..], scanned + 1, identity, allowed);
    }
  }

  /** Over expired bindings the scan finds nothing, and only removes what a sweep removes. */
  lemma {:induction false} ScanExpired(t: Table, limits: Limits, now: int, ids: seq<nat>, scanned: nat,
                                       identity: TaskIdentity, allowed: Option<set<string>>)
    requires Inv(t) && forall id :: id in ids ==> id !in Live(t, limits, now)
    ensures var (hit, u) := Scan(t, limits, now, ids, scanned, identity, allowed);
            hit.NoHit? && Swept(u, limits, now) == Swept(t, limits, now)
    decreases ids
  {
    if ids != [] {
      var id := ids[0];
      assert id !in Live(t, limits, now);
      if Judge(t, limits, now, id, identity, allowed).Lapsed? {
        RemoveInv(t, id);
        RemoveSwept(t, limits, now, id);
        assert Live(Remove(t, id), limits, now) <= Live(t, limits, now);
        ScanExpired(Remove(t, id), limits, now, ids[1..], scanned + 1, identity, allowed);
      } else {
        ScanExpired(t, limits, now, ids[1..], scanned + 1, identity, allowed);
      }
    }
  }

  lemma {:induction false} InsertLive(t: Table, id: nat, a: seq<nat>, b: seq<nat>)
    requires forall x :: x in b ==> Recency(t, x) < Recency(t, id)
    ensures InsertByRecency(t, id, a + b) == InsertByRecency(t, id, a) + b
  {
    if a == [] {
      assert a + b == b;
    } else {
      assert (a + b)[1..] == a[1..] + b;
      InsertLive(t, id, a[1..], b);
      if Recency(t, id) >= Recency(t, a[0]) {
        assert [id] + (a + b) == ([id] + a) + b;
      } else {
        assert [a[0]] + (InsertByRecency(t, id, a[1..]) + b) == ([a[0]] + InsertByRecency(t, id, a[1..])) + b;
      }
    }
  }

  lemma {:induction false} InsertExpired(t: Table, id: nat, a: seq<nat>, b: seq<nat>)
    requires forall x :: x in a ==> Recency(t, id) < Recency(t, x)
    ensures InsertByRecency(t, id, a + b) == a + InsertByRecency(t, id, b)
  {
    if a == [] {
      assert a + b == b;
      assert a + InsertByRecency(t, id, b) == InsertByRecency(t, id, b);
    } else {
      var rest, inserted := a[1..], InsertByRecency(t, id, b);
      InsertExpired(t, id, rest, b);
      assert a[0] in a;
      InsertBelow(t, id, a[0], rest + b);
      assert [a[0]] + (rest + b) == a + b;
      assert [a[0]] + (rest + inserted) == a + inserted;
    }
  }

  lemma InsertBelow(t: Table, id: nat, newer: nat, ids: seq<nat>)
    requires Recency(t, id) < Recency(t, newer)
    ensures InsertByRecency(t, id, [newer] + ids) == [newer] + InsertByRecency(t, id, ids)
  {
    assert ([newer] + ids)[1..] == ids;
  }

  lemma {:induction false} InsertMembers(t: Table, id: nat, ids: seq<nat>)
    ensures forall x :: x in InsertByRecency(t, id, ids) <==> x == id || x in ids
  {
    if ids != [] && Recency(t, id) < Recency(t, ids[0]) {
      InsertMembers(t, id, ids[1..]);
      assert ids == [ids[0]] + ids[1..];
    }
  }

  lemma {:induction false} SortedMembers(t: Table, ids: seq<nat>)
    ensures forall x :: x in ByRecency(t, ids) <==> x in ids
  {
    if ids != [] {
      SortedMembers(t, ids[1..]);
      InsertMembers(t, ids[0], ByRecency(t, ids[1..]));
      assert ids == [ids[0]] + ids[1..];
    }
  }

  /** Sorted by recency, the live bindings come first, in the order they have without the others. */
  lemma {:induction false} SortSplit(t: Table, limits: Limits, now: int, ids: seq<nat>)
    requires forall id :: id in ids ==> id in t.bindings
    ensures var live := Live(t, limits, now);
            ByRecency(t, ids) == ByRecency(t, Kept(ids, live)) + ByRecency(t, Kept(ids, t.bindings.Keys - live))
  {
    var live := Live(t, limits, now);
    var dead := t.bindings.Keys - live;
    if ids != [] {
      var id, rest := ids[0], ids[1..];
      SortSplit(t, limits, now, rest);
      KeptFacts(rest, live);
      KeptFacts(rest, dead);
      SplitInsert(t, limits, now, id, Kept(rest, live), Kept(rest, dead));
      SortHead(t, ids, live);
      SortHead(t, ids, dead);
    }
  }

  lemma SortHead(t: Table, ids: seq<nat>, s: set<nat>)
    requires ids != []
    ensures ByRecency(t, Kept(ids, s)) ==
            if ids[0] in s then InsertByRecency(t, ids[0], ByRecency(t, Kept(ids[1..], s)))
            else ByRecency(t, Kept(ids[1..], s))
  {
    KeptHead(ids, s);
  }

  /** One binding more, live or not, goes into its own half. */
  lemma SplitInsert(t: Table, limits: Limits, now: int, id: nat, live: seq<nat>, dead: seq<nat>)
    requires id in t.bindings
    requires forall x :: x in live ==> x in Live(t, limits, now)
    requires forall x :: x in dead ==> x in t.bindings && x !in Live(t, limits, now)
    ensures var a, b := ByRecency(t, live), ByRecency(t, dead);
            InsertByRecency(t, id, a + b) ==
              if id in Live(t, limits, now) then InsertByRecency(t, id, a) + b else a + InsertByRecency(t, id, b)
  {
    SortedMembers(t, live);
    SortedMembers(t, dead);
    if id in Live(t, limits, now) {
      InsertLive(t, id, ByRecency(t, live), ByRecency(t, dead));
    } else {
      InsertExpired(t, id, ByRecency(t, live), ByRecency(t, dead));
    }
  }

  lemma KeptHead(ids: seq<nat>, s: set<nat>)
    requires ids != []
    ensures Kept(ids, s) == if ids[0] in s then [ids[0]] + Kept(ids[1..], s) else Kept(ids[1..], s)
    ensures ids[0] in s ==> Kept(ids, s)[1..] == Kept(ids[1..], s)
  {
  }

  lemma {:induction false} InsertSame(t: Table, u: Table, id: nat, ids: seq<nat>)
    requires Recency(t, id) == Recency(u, id) && forall x :: x in ids ==> Recency(t, x) == Recency(u, x)
    ensures InsertByRecency(t, id, ids) == InsertByRecency(u, id, ids)
  {
    if ids != [] {
      InsertSame(t, u, id, ids[1..]);
    }
  }

  lemma {:induction false} SortSame(t: Table, u: Table, ids: seq<nat>)
    requires forall x :: x in ids ==> Recency(t, x) == Recency(u, x)
    ensures ByRecency(t, ids) == ByRecency(u, ids)
  {
    if ids != [] {
      SortSame(t, u, ids[1..]);
      SortedMembers(t, ids[1..]);
      InsertSame(t, u, ids[0], ByRecency(t, ids[1..]));
    }
  }

  /** The bounded scan of live bindings followed by expired ones. */
  lemma ScanLazy(t: Table, limits: Limits, now: int, a: seq<nat>, b: seq<nat>, identity: TaskIdentity,
                 allowed: Option<set<string>>)
    requires Inv(t) && limits.ttlMs >= 0
    requires forall id :: id in a ==> id in Live(t, limits, now)
    requires forall id :: id in b ==> id !in Live(t, limits, now)
    ensures var ordered := a + b;
            var (hit, u) := Scan(t, limits, now, ordered[..Min(limits.maxBucketScan, |ordered|)], 0, identity, allowed);
            Scan(Swept(t, limits, now), limits, now, a[..Min(limits.maxBucketScan, |a|)], 0, identity, allowed) ==
            (hit, Swept(u, limits, now))
  {
    var n := Min(limits.maxBucketScan, |a + b|);
    var first := a[..Min(limits.maxBucketScan, |a|)];
    var rest := if n <= |a| then [] else b[..n - |a|];
    assert (a + b)[..n] == first + rest;
    ScanLive(t, limits, now, first, 0, identity, allowed);
    ScanAppend(t, limits, now, first, rest, 0, identity, allowed);
    ScanExpired(t, limits, now, rest, |first|, identity, allowed);
  }

  lemma BucketLazy(t: Table, limits: Limits, now: int, identity: TaskIdentity, allowed: Option<set<string>>)
    requires Inv(t) && limits.ttlMs >= 0
    ensures var (hit, u) := LookupBucket(t, limits, now, identity, allowed);
            LookupBucket(Swept(t, limits, now), limits, now, identity, allowed) == (hit, Swept(u, limits, now))
  {
    var key := BucketKeyFor(identity);
    if key in t.buckets {
      var live, ids := Live(t, limits, now), t.buckets[key];
      var dead := t.bindings.Keys - live;
      var a, b := Kept(ids, live), Kept(ids, dead);
      BucketMembers(t, key);
      KeptFacts(ids, live);
      KeptFacts(ids, dead);
      SortSplit(t, limits, now, ids);
      SortedMembers(t, a);
      SortedMembers(t, b);
      ScanLazy(t, limits, now, ByRecency(t, a), ByRecency(t, b), identity, allowed);
      SortSame(t, Swept(t, limits, now), a);
    }
  }

  lemma BucketMembers(t: Table, key: BucketKey)
    requires Inv(t) && key in t.buckets
    ensures forall id :: id in t.buckets[key] ==> id in t.bindings
  {
  }

  /** Lazy expiry refines eager expiry: at one time and for a non-negative time to live, a lookup
      gives the same hit whether or not a sweep ran first, and a sweep afterwards gives one table. */
  lemma LazyLookup(t: Table, limits: Limits, now: int, identity: TaskIdentity, allowed: Option<set<string>>)
    requires Inv(t) && limits.ttlMs >= 0
    ensures var (hit, u) := Lookup(t, limits, now, identity, allowed);
            Lookup(SweepExpired(t, limits, now), limits, now, identity, allowed) == (hit, SweepExpired(u, limits, now))
  {
    SweepIsKeep(t, limits, now);
    LookupInv(t, limits, now, identity, allowed);
    SweepIsKeep(Lookup(t, limits, now, identity, allowed).1, limits, now);
    ExactLazy(t, limits, now, identity.exactKeys, identity, allowed);
    LookupExactInv(t, limits, now, identity.exactKeys, identity, allowed);
    BucketLazy(LookupExact(t, limits, now, identity.exactKeys, identity, allowed).1, limits, now, identity, allowed);
  }
}
