/** Any run of table operations: the indexes agree in every table reached, and every binding's
    routing revision counts its moves. */
module AffinityRuns {
  import opened AffinityModel
  import opened AffinityGuarantees

  /** One call on the table. A call that holds a binding names it by its id; when that binding is
      no longer there the reference is stale. */
  datatype Operation =
    | LookupCall(identity: TaskIdentity, allowed: Option<set<string>>)
    | BindCall(identity: TaskIdentity, targetId: string, allowRebind: bool)
    | RebindCall(id: nat, targetId: string)
    | NoteCall(id: nat, identity: TaskIdentity)
    | AttachCall(id: nat, responseIds: seq<string>)
    | RemoveCall(id: nat)
    | SweepCall
    | PruneCall(targets: set<string>)
    | ClearCall

  function ResponseKeys(responseIds: seq<string>): seq<string> {
    if responseIds == [] then []
    else (if responseIds[0] == "" then [] else ["response:" + responseIds[0]]) + ResponseKeys(responseIds[1..])
  }

  function AttachResponseIds(t: Table, id: nat, responseIds: seq<string>): Table
    requires id in t.bindings
  {
    RegisterExactKeys(t, id, ResponseKeys(responseIds))
  }

  function Step(t: Table, limits: Limits, now: int, op: Operation): Table
    requires Inv(t)
  {
    match op
    case LookupCall(identity, allowed) => Lookup(t, limits, now, identity, allowed).1
    case BindCall(identity, targetId, allowRebind) => Bind(t, limits, now, identity, targetId, allowRebind).0
    case RebindCall(id, targetId) => if id in t.bindings then Rebind(t, id, targetId, now) else t
    case NoteCall(id, identity) => if id in t.bindings then NoteRequestDependencies(t, id, identity) else t
    case AttachCall(id, responseIds) => if id in t.bindings then AttachResponseIds(t, id, responseIds) else t
    case RemoveCall(id) => Remove(t, id)
    case SweepCall => SweepExpired(t, limits, now)
    case PruneCall(targets) => PruneTargets(t, targets)
    case ClearCall => Clear(t)
  }

  lemma StepInv(t: Table, limits: Limits, now: int, op: Operation)
    requires Inv(t)
    ensures Inv(Step(t, limits, now, op))
  {
    match op
    case LookupCall(identity, allowed) => LookupInv(t, limits, now, identity, allowed);
    case BindCall(identity, targetId, allowRebind) => BindInv(t, limits, now, identity, targetId, allowRebind);
    case RebindCall(id, targetId) => if id in t.bindings { RebindInv(t, id, targetId, now); }
    case NoteCall(id, identity) => if id in t.bindings { NoteInv(t, id, identity); }
    case AttachCall(id, responseIds) => if id in t.bindings { RegisterInv(t, id, ResponseKeys(responseIds)); }
    case RemoveCall(id) => RemoveInv(t, id);
    case SweepCall => RemoveAllInv(t, IdsWhere(t, Ids(t), (e: Entry) => Expired(limits, now, e)));
    case PruneCall(targets) => RemoveAllInv(t, IdsWhere(t, Ids(t), (e: Entry) => e.targetId !in targets));
    case ClearCall => RemoveAllInv(t, Ids(t));
  }

  /** A key taken over by another binding survives the removal of the one it was taken from. */
  lemma StolenKeySurvives(t: Table, former: nat, owner: nat, key: string)
    requires Inv(t) && key in t.exactIndex && t.exactIndex[key] == owner && former != owner
    ensures var u := Remove(t, former);
            key in u.exactIndex && u.exactIndex[key] == owner && u.bindings[owner] == t.bindings[owner]
  {
    RemoveInv(t, former);
  }

  // ----- What one step does to a route

  /** The keys of earlier responses that an operation's request refers back to. */
  function Named(op: Operation): set<string> {
    match op
    case BindCall(identity, _, _) => NamedKey(identity)
    case NoteCall(_, identity) => NamedKey(identity)
    case _ => {}
  }

  function NamedKey(identity: TaskIdentity): set<string> {
    if identity.namedResponseKey.Some? then {identity.namedResponseKey.value} else {}
  }

  /** The revision moves by one exactly when the target does; the rest of the identity is fixed, and
      dependencies only grow, by named keys. */
  ghost predicate Routed(e: Entry, f: Entry, named: set<string>) {
    && f.incarnation == e.incarnation && f.bucketKey == e.bucketKey && f.evidence == e.evidence
    && f.routingRevision == e.routingRevision + (if f.targetId != e.targetId then 1 else 0)
    && e.responseDependencies <= f.responseDependencies <= e.responseDependencies + named
  }

  /** A binding that appears takes a number never handed out before. */
  ghost predicate Appeared(t: Table, id: nat, f: Entry, named: set<string>) {
    && t.nextId <= id && t.nextIncarnation <= f.incarnation
    && f.routingRevision == INITIAL_ROUTING_REVISION && f.responseDependencies <= named
  }

  /** What a step may do to one binding: only those it is about may be routed anew or appear. */
  ghost predicate RoutedAt(t: Table, id: nat, f: Entry, who: set<nat>, named: set<string>) {
    if id !in t.bindings then id in who && Appeared(t, id, f, named)
    else if id in who then Routed(t.bindings[id], f, named)
    else SameRoute(t.bindings[id], f)
  }

  ghost predicate RoutedStep(t: Table, u: Table, who: set<nat>, named: set<string>) {
    && t.nextId <= u.nextId && t.nextIncarnation <= u.nextIncarnation
    && forall id {:trigger u.bindings[id]} :: id in u.bindings ==> RoutedAt(t, id, u.bindings[id], who, named)
  }

  lemma QuietRouted(t: Table, u: Table, now: int)
    requires Quiet(t, u, now)
    ensures RoutedStep(t, u, {}, {})
  {
  }

  lemma QuietThenRouted(t: Table, u: Table, v: Table, now: int, who: set<nat>, named: set<string>)
    requires Quiet(t, u, now) && RoutedStep(u, v, who, named)
    requires forall id :: id in v.bindings ==> id in u.bindings || id == t.nextId
    requires forall id :: id in t.bindings ==> id < t.nextId
    ensures RoutedStep(t, v, who, named)
  {
    forall id | id in v.bindings ensures RoutedAt(t, id, v.bindings[id], who, named) {
      if id in u.bindings {
        assert QuietEntry(t.bindings[id], u.bindings[id], now);
      }
    }
  }

  lemma RoutedThenRemoved(t: Table, u: Table, v: Table, who: set<nat>, named: set<string>)
    requires RoutedStep(t, u, who, named) && OnlyRemoved(u, v)
    ensures RoutedStep(t, v, who, named)
  {
    forall id | id in v.bindings ensures RoutedAt(t, id, v.bindings[id], who, named) {
      assert u.bindings[id] == v.bindings[id];
    }
  }

  lemma {:induction false} RemoveAllOnly(t: Table, ids: seq<nat>)
    requires Inv(t)
    ensures OnlyRemoved(t, RemoveAll(t, ids))
    decreases ids
  {
    if ids != [] {
      var init, last := ids[..|ids| - 1], ids[|ids| - 1];
      var u := RemoveAll(t, init);
      RemoveAllOnly(t, init);
      RemoveAllInv(t, init);
      if last in u.bindings {
        RemoveOnly(u, last);
        OnlyRemovedTransitive(t, u, Remove(u, last));
      }
    }
  }

  lemma {:induction false} BucketCapOnly(t: Table, limits: Limits, id: nat, key: BucketKey)
    requires Inv(t)
    ensures OnlyRemoved(t, EnforceBucketCap(t, limits, id, key))
    decreases |Bucket(t, key)|
  {
    if |Bucket(t, key)| > limits.maxBucketSize {
      var oldest := OldestOf(t, Bucket(t, key));
      RemoveFromBucket(t, oldest, key);
      RemoveOnly(t, oldest);
      if oldest != id {
        BucketCapOnly(Remove(t, oldest), limits, id, key);
        OnlyRemovedTransitive(t, Remove(t, oldest), EnforceBucketCap(Remove(t, oldest), limits, id, key));
      }
    }
  }

  lemma {:induction false} GroupCapOnly(t: Table, limits: Limits)
    requires Inv(t)
    ensures OnlyRemoved(t, EnforceGroupCap(t, limits))
    decreases |t.bindings|
  {
    if |t.bindings| > limits.maxBindings {
      IdsNotEmpty(t);
      var oldest := OldestOf(t, Ids(t));
      RemoveShrinks(t, oldest);
      RemoveOnly(t, oldest);
      GroupCapOnly(Remove(t, oldest), limits);
      OnlyRemovedTransitive(t, Remove(t, oldest), EnforceGroupCap(Remove(t, oldest), limits));
    }
  }

  lemma RefreshRouted(t: Table, now: int, id: nat, identity: TaskIdentity, targetId: string, allowRebind: bool)
    requires id in t.bindings
    ensures var u := Refresh(t, now, id, identity, targetId, allowRebind);
            RoutedStep(t, u, {id}, NamedKey(identity)) && u.bindings.Keys == t.bindings.Keys
  {
    var v := if t.bindings[id].targetId != targetId && allowRebind then Rebind(t, id, targetId, now) else t;
    RegisterFacts(v, id, identity.exactKeys);
    var w := RegisterExactKeys(v, id, identity.exactKeys);
    assert SameRoute(v.bindings[id], w.bindings[id]);
    NoteRouted(t, w, id, identity);
  }

  /** Noting a request behind steps that routed one binding without a new dependency. */
  lemma NoteRouted(t: Table, w: Table, id: nat, identity: TaskIdentity)
    requires id in w.bindings && RoutedStep(t, w, {id}, {})
    ensures var u := NoteRequestDependencies(w, id, identity);
            RoutedStep(t, u, {id}, NamedKey(identity)) && u.bindings.Keys == w.bindings.Keys
  {
  }

  lemma AdmitRouted(t: Table, identity: TaskIdentity, targetId: string, now: int)
    requires Inv(t)
    ensures var u := Admit(t, identity, targetId, now);
            RoutedStep(t, u, {t.nextId}, NamedKey(identity)) && u.bindings.Keys == t.bindings.Keys + {t.nextId}
  {
    var v := Create(t, identity, targetId, now);
    RegisterFacts(v, t.nextId, identity.exactKeys);
    var w := RegisterExactKeys(v, t.nextId, identity.exactKeys);
    assert t.nextId !in t.bindings;
    forall id | id in w.bindings ensures RoutedAt(t, id, w.bindings[id], {t.nextId}, {}) {
      assert id != t.nextId ==> w.bindings[id] == t.bindings[id];
    }
    NoteRouted(t, w, t.nextId, identity);
  }

  lemma NumberedBelow(t: Table)
    requires Inv(t)
    ensures forall id :: id in t.bindings ==> id < t.nextId
  {
  }

  lemma BindRouted(t: Table, limits: Limits, now: int, identity: TaskIdentity, targetId: string, allowRebind: bool)
    requires Inv(t)
    ensures var (u, id) := Bind(t, limits, now, identity, targetId, allowRebind);
            RoutedStep(t, u, {id}, NamedKey(identity))
  {
    var (hit, u) := Lookup(t, limits, now, identity, None);
    LookupInv(t, limits, now, identity, None);
    LookupQuiet(t, limits, now, identity, None);
    LookupHitPresent(t, limits, now, identity, None);
    NumberedBelow(t);
    if !hit.NoHit? {
      RefreshRouted(u, now, HitId(hit), identity, targetId, allowRebind);
      QuietThenRouted(t, u, Refresh(u, now, HitId(hit), identity, targetId, allowRebind), now, {HitId(hit)},
        NamedKey(identity));
    } else {
      var v := Admit(u, identity, targetId, now);
      AdmitRouted(u, identity, targetId, now);
      AdmitInv(u, identity, targetId, now);
      QuietThenRouted(t, u, v, now, {u.nextId}, NamedKey(identity));
      CapsRouted(t, v, limits, u.nextId, BucketKeyFor(identity), NamedKey(identity));
    }
  }

  lemma CapsRouted(t: Table, v: Table, limits: Limits, id: nat, key: BucketKey, named: set<string>)
    requires Inv(v) && RoutedStep(t, v, {id}, named)
    ensures var w := EnforceBucketCap(v, limits, id, key);
            Inv(w) && RoutedStep(t, EnforceGroupCap(w, limits), {id}, named)
  {
    var w := EnforceBucketCap(v, limits, id, key);
    BucketCapInv(v, limits, id, key);
    BucketCapOnly(v, limits, id, key);
    GroupCapOnly(w, limits);
    RoutedThenRemoved(t, v, w, {id}, named);
    RoutedThenRemoved(t, w, EnforceGroupCap(w, limits), {id}, named);
  }

  lemma OnlyRemovedRouted(t: Table, u: Table)
    requires OnlyRemoved(t, u)
    ensures RoutedStep(t, u, {}, {})
  {
  }

  lemma AttachRouted(t: Table, id: nat, responseIds: seq<string>)
    requires Inv(t) && id in t.bindings
    ensures RoutedStep(t, AttachResponseIds(t, id, responseIds), {}, {})
  {
    RegisterFacts(t, id, ResponseKeys(responseIds));
  }

  lemma HeldRouted(t: Table, limits: Limits, now: int, op: Operation)
    requires Inv(t) && (op.RebindCall? || op.NoteCall?)
    ensures RoutedStep(t, Step(t, limits, now, op), {op.id}, Named(op))
  {
  }

  /** The binding an operation is about: the one its caller holds, or the one a bind returns. */
  function About(t: Table, limits: Limits, now: int, op: Operation): set<nat>
    requires Inv(t)
  {
    match op
    case BindCall(identity, targetId, allowRebind) => {Bind(t, limits, now, identity, targetId, allowRebind).1}
    case RebindCall(id, _) => {id}
    case NoteCall(id, _) => {id}
    case _ => {}
  }

  /** What every step keeps about where tasks are routed: it routes at most the binding it is about. */
  lemma StepRouted(t: Table, limits: Limits, now: int, op: Operation)
    requires Inv(t)
    ensures RoutedStep(t, Step(t, limits, now, op), About(t, limits, now, op), Named(op))
  {
    match op
    case LookupCall(identity, allowed) =>
      LookupQuiet(t, limits, now, identity, allowed);
      QuietRouted(t, Step(t, limits, now, op), now);
    case BindCall(identity, targetId, allowRebind) => BindRouted(t, limits, now, identity, targetId, allowRebind);
    case RebindCall(id, targetId) => HeldRouted(t, limits, now, op);
    case NoteCall(id, identity) => HeldRouted(t, limits, now, op);
    case AttachCall(id, responseIds) => if id in t.bindings { AttachRouted(t, id, responseIds); }
    case RemoveCall(id) => RemoveQuiet(t, id, now); QuietRouted(t, Remove(t, id), now);
    case SweepCall => RemovalOnly(t, limits, now, op); OnlyRemovedRouted(t, Step(t, limits, now, op));
    case PruneCall(targets) => RemovalOnly(t, limits, now, op); OnlyRemovedRouted(t, Step(t, limits, now, op));
    case ClearCall => RemovalOnly(t, limits, now, op); OnlyRemovedRouted(t, Step(t, limits, now, op));
  }

  predicate Removal(op: Operation) {
    op.RemoveCall? || op.SweepCall? || op.PruneCall? || op.ClearCall?
  }

  /** Sweeping, pruning and clearing only remove. */
  lemma RemovalOnly(t: Table, limits: Limits, now: int, op: Operation)
    requires Inv(t) && Removal(op)
    ensures OnlyRemoved(t, Step(t, limits, now, op))
  {
    match op
    case RemoveCall(id) => if id in t.bindings { RemoveOnly(t, id); }
    case SweepCall => RemoveAllOnly(t, IdsWhere(t, Ids(t), (e: Entry) => Expired(limits, now, e)));
    case PruneCall(targets) => RemoveAllOnly(t, IdsWhere(t, Ids(t), (e: Entry) => e.targetId !in targets));
    case ClearCall => RemoveAllOnly(t, Ids(t));
  }

  /** A call that holds a binding the table gave up on changes nothing. */
  lemma StaleCall(t: Table, limits: Limits, now: int, op: Operation)
    requires Inv(t) && (op.RebindCall? || op.NoteCall? || op.AttachCall?) && op.id !in t.bindings
    ensures Step(t, limits, now, op) == t
  {
  }

  // ----- Runs

  datatype Timed = Timed(op: Operation, now: int)

  /** The table a run reaches from an empty one; its indexes agree. */
  function Reached(limits: Limits, run: seq<Timed>): (t: Table)
    ensures Inv(t)
    decreases run
  {
    if run == [] then EmptyTable()
    else
      var t := Reached(limits, run[..|run| - 1]);
      StepInv(t, limits, run[|run| - 1].now, run[|run| - 1].op);
      Step(t, limits, run[|run| - 1].now, run[|run| - 1].op)
  }

  /** How often the target of `id` really changed in a run. */
  ghost function Moves(limits: Limits, run: seq<Timed>, id: nat): nat
    decreases run
  {
    if run == [] then 0
    else
      var t, u := Reached(limits, run[..|run| - 1]), Reached(limits, run);
      Moves(limits, run[..|run| - 1], id) +
      if id in t.bindings && id in u.bindings && t.bindings[id].targetId != u.bindings[id].targetId then 1 else 0
  }

  /** The keys named by the requests of a run that were about this binding. */
  ghost function NamedFor(limits: Limits, run: seq<Timed>, id: nat): set<string>
    decreases run
  {
    if run == [] then {}
    else
      var t, last := Reached(limits, run[..|run| - 1]), run[|run| - 1];
      NamedFor(limits, run[..|run| - 1], id) + if id in About(t, limits, last.now, last.op) then Named(last.op) else {}
  }

  lemma {:induction false} NoMovesBefore(limits: Limits, run: seq<Timed>, id: nat)
    requires Reached(limits, run).nextId <= id
    ensures Moves(limits, run, id) == 0
    decreases run
  {
    if run != [] {
      var t, last := Reached(limits, run[..|run| - 1]), run[|run| - 1];
      StepRouted(t, limits, last.now, last.op);
      NoMovesBefore(limits, run[..|run| - 1], id);
      assert id !in t.bindings;
    }
  }

  /** In every table a run reaches, a binding's revision is the number of times its target changed
      since it was made, and it depends only on responses named by requests about it. */
  lemma {:induction false} RevisionCountsMoves(limits: Limits, run: seq<Timed>, id: nat)
    requires id in Reached(limits, run).bindings
    ensures var e := Reached(limits, run).bindings[id];
            e.routingRevision == Moves(limits, run, id) && e.responseDependencies <= NamedFor(limits, run, id)
    decreases run
  {
    if run != [] {
      var init, last := run[..|run| - 1], run[|run| - 1];
      var t, u := Reached(limits, init), Reached(limits, run);
      StepRouted(t, limits, last.now, last.op);
      assert RoutedAt(t, id, u.bindings[id], About(t, limits, last.now, last.op), Named(last.op));
      if id in t.bindings {
        RevisionCountsMoves(limits, init, id);
      } else {
        NoMovesBefore(limits, init, id);
      }
    }
  }

  /** An id that was given up is never seen again. */
  lemma {:induction false} NeverReused(limits: Limits, run: seq<Timed>, more: seq<Timed>, id: nat)
    requires id < Reached(limits, run).nextId && id !in Reached(limits, run).bindings
    ensures id < Reached(limits, run + more).nextId && id !in Reached(limits, run + more).bindings
    decreases more
  {
    if more == [] {
      assert run + more == run;
    } else {
      var init, last := more[..|more| - 1], more[|more| - 1];
      NeverReused(limits, run, init, id);
      assert (run + more)[..|run + more| - 1] == run + init;
      var t := Reached(limits, run + init);
      StepRouted(t, limits, last.now, last.op);
      assert Reached(limits, run + more) == Step(t, limits, last.now, last.op);
    }
  }

  /** A binding with this incarnation is in the table. */
  ghost predicate Carried(t: Table, incarnation: nat) {
    exists id :: id in t.bindings && t.bindings[id].incarnation == incarnation
  }

  lemma StepNoIncarnation(t: Table, limits: Limits, now: int, op: Operation, incarnation: nat)
    requires Inv(t) && incarnation < t.nextIncarnation && !Carried(t, incarnation)
    ensures var u := Step(t, limits, now, op); incarnation < u.nextIncarnation && !Carried(u, incarnation)
  {
    var u := Step(t, limits, now, op);
    StepRouted(t, limits, now, op);
    forall id | id in u.bindings ensures u.bindings[id].incarnation != incarnation {
      assert RoutedAt(t, id, u.bindings[id], About(t, limits, now, op), Named(op));
    }
  }

  /** An incarnation that is no longer in the table is never seen again. */
  lemma {:induction false} IncarnationNeverReused(limits: Limits, run: seq<Timed>, more: seq<Timed>, incarnation: nat)
    requires incarnation < Reached(limits, run).nextIncarnation && !Carried(Reached(limits, run), incarnation)
    ensures incarnation < Reached(limits, run + more).nextIncarnation
      && !Carried(Reached(limits, run + more), incarnation)
    decreases more
  {
    if more == [] {
      assert run + more == run;
    } else {
      var init, last := more[..|more| - 1], more[|more| - 1];
      IncarnationNeverReused(limits, run, init, incarnation);
      assert (run + more)[..|run + more| - 1] == run + init;
      StepNoIncarnation(Reached(limits, run + init), limits, last.now, last.op, incarnation);
    }
  }

  /** Once a binding was given up, no call that still holds it ever changes the table again, however
      long the run goes on. */
  lemma StaleForever(limits: Limits, run: seq<Timed>, more: seq<Timed>, call: Timed)
    requires call.op.RebindCall? || call.op.NoteCall? || call.op.AttachCall?
    requires call.op.id < Reached(limits, run).nextId && call.op.id !in Reached(limits, run).bindings
    ensures Reached(limits, run + more + [call]) == Reached(limits, run + more)
  {
    NeverReused(limits, run, more, call.op.id);
    StaleCall(Reached(limits, run + more), limits, call.now, call.op);
    assert (run + more + [call])[..|run + more|] == run + more;
  }

  /** A binding alive at both ends of a stretch of a run kept its incarnation, bucket and evidence. */
  lemma {:induction false} IdentityFixed(limits: Limits, run: seq<Timed>, more: seq<Timed>, id: nat)
    requires id in Reached(limits, run).bindings && id in Reached(limits, run + more).bindings
    ensures var e, f := Reached(limits, run).bindings[id], Reached(limits, run + more).bindings[id];
            && f.incarnation == e.incarnation && f.bucketKey == e.bucketKey && f.evidence == e.evidence
            && e.routingRevision <= f.routingRevision && e.responseDependencies <= f.responseDependencies
    decreases more
  {
    if more == [] {
      assert run + more == run;
    } else {
      var init, last := more[..|more| - 1], more[|more| - 1];
      assert (run + more)[..|run + more| - 1] == run + init;
      var t := Reached(limits, run + init);
      StepRouted(t, limits, last.now, last.op);
      assert Reached(limits, run + more) == Step(t, limits, last.now, last.op);
      assert RoutedAt(t, id, Reached(limits, run + more).bindings[id], About(t, limits, last.now, last.op),
        Named(last.op));
      if id in t.bindings {
        IdentityFixed(limits, run, init, id);
      } else {
        NumberedBelow(Reached(limits, run));
        IdsGrow(limits, run, init);
      }
    }
  }

  lemma {:induction false} IdsGrow(limits: Limits, run: seq<Timed>, more: seq<Timed>)
    ensures Reached(limits, run).nextId <= Reached(limits, run + more).nextId
    decreases more
  {
    if more == [] {
      assert run + more == run;
    } else {
      var init, last := more[..|more| - 1], more[|more| - 1];
      IdsGrow(limits, run, init);
      assert (run + more)[..|run + more| - 1] == run + init;
      var t := Reached(limits, run + init);
      StepRouted(t, limits, last.now, last.op);
      assert Reached(limits, run + more) == Step(t, limits, last.now, last.op);
    }
  }
}
