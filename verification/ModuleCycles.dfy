/** Runtime import cycles: the elementary cycles of a small component, each written once from
    its smallest module, and one shortest cycle of a large component. */
module ModuleCycles {
  import opened ModuleGraph
  import opened ModuleSearch
  import opened ModuleComponents

  const MAX_REPORTED_CYCLES := 64
  const MAX_ENUMERATED_COMPONENT := 12

  // ----- Cycles

  ghost predicate ClosedWalk(nb: Adjacency, c: seq<ModulePath>) {
    |c| >= 2 && IsWalk(nb, c) && c[0] == c[|c| - 1]
  }

  ghost predicate Elementary(nb: Adjacency, c: seq<ModulePath>) {
    ClosedWalk(nb, c) && Distinct(c[..|c| - 1])
  }

  ghost predicate Acyclic(nb: Adjacency) {
    forall c :: !ClosedWalk(nb, c)
  }

  /** The cycle rotated to begin at position `k`. */
  ghost function Rotated(c: seq<ModulePath>, k: nat): seq<ModulePath>
    requires k < |c| - 1
  {
    c[k..|c| - 1] + c[..k] + [c[k]]
  }

  ghost predicate SameCycle(c: seq<ModulePath>, d: seq<ModulePath>) {
    exists k :: 0 <= k < |c| - 1 && d == Rotated(c, k)
  }

  /** A path from `start` through members that sort after it, no module twice. */
  ghost predicate Partial(nb: Adjacency, members: set<ModulePath>, start: ModulePath, p: seq<ModulePath>) {
    && p != [] && p[0] == start && IsWalk(nb, p) && Distinct(p)
    && (forall i :: 0 <= i < |p| ==> p[i] in members)
    && (forall i :: 0 < i < |p| ==> Before(start, p[i]))
  }

  /** An elementary cycle of the members, written from `start`, its smallest module. */
  ghost predicate CycleFrom(nb: Adjacency, members: set<ModulePath>, start: ModulePath, c: seq<ModulePath>) {
    && |c| >= 2 && c[|c| - 1] == start
    && Partial(nb, members, start, c[..|c| - 1]) && Edge(nb, c[|c| - 2], start)
  }

  ghost predicate Through(p: seq<ModulePath>, c: seq<ModulePath>) {
    |p| < |c| && c[..|p|] == p
  }

  /** `found` lists cycles through `p` whose next module is among `next`, none twice; all of
      them, when `all` is set. */
  ghost predicate Collected(nb: Adjacency, members: set<ModulePath>, start: ModulePath, p: seq<ModulePath>,
                            next: seq<ModulePath>, found: seq<seq<ModulePath>>, all: bool)
  {
    && Distinct(found)
    && (forall c :: c in found ==> CycleFrom(nb, members, start, c) && Through(p, c) && c[|p|] in next)
    && (all ==> forall c :: CycleFrom(nb, members, start, c) && Through(p, c) && c[|p|] in next ==> c in found)
  }

  // ----- One start

  lemma CollectedStep(nb: Adjacency, members: set<ModulePath>, start: ModulePath, p: seq<ModulePath>,
                      next: seq<ModulePath>, t: ModulePath, found: seq<seq<ModulePath>>, more: seq<seq<ModulePath>>,
                      all: bool, allMore: bool)
    requires t !in next && (allMore ==> all)
    requires Collected(nb, members, start, p, next, found, all)
    requires Collected(nb, members, start, p, [t], more, allMore)
    ensures Collected(nb, members, start, p, next + [t], found + more, allMore)
  {
    var both := found + more;
    forall i, j | 0 <= i < j < |both| ensures both[i] != both[j] {
      if i < |found| <= j {
        assert both[i] in found && both[j] in more;
      }
    }
  }

  /** The same, for cycles that are appended to those found before. */
  lemma CollectedMore(nb: Adjacency, members: set<ModulePath>, start: ModulePath, p: seq<ModulePath>,
                      next: seq<ModulePath>, t: ModulePath, before: seq<seq<ModulePath>>,
                      sofar: seq<seq<ModulePath>>, cycles: seq<seq<ModulePath>>)
    requires t !in next && before <= sofar <= cycles
    requires Collected(nb, members, start, p, next, sofar[|before|..], |sofar| < MAX_REPORTED_CYCLES)
    requires Collected(nb, members, start, p, [t], cycles[|sofar|..], |cycles| < MAX_REPORTED_CYCLES)
    ensures Collected(nb, members, start, p, next + [t], cycles[|before|..], |cycles| < MAX_REPORTED_CYCLES)
  {
    CollectedStep(nb, members, start, p, next, t, sofar[|before|..], cycles[|sofar|..],
                  |sofar| < MAX_REPORTED_CYCLES, |cycles| < MAX_REPORTED_CYCLES);
    assert cycles[|before|..] == sofar[|before|..] + cycles[|sofar|..];
  }

  /** A target outside the members, before the start, or on the path closes no cycle. */
  lemma NoCycleVia(nb: Adjacency, members: set<ModulePath>, start: ModulePath, p: seq<ModulePath>, t: ModulePath)
    requires Partial(nb, members, start, p) && t != start
    requires t !in members || !Before(start, t) || t in p
    ensures Collected(nb, members, start, p, [t], [], true)
  {
    forall c | CycleFrom(nb, members, start, c) && Through(p, c) ensures c[|p|] != t {
      var body := c[..|c| - 1];
      if |p| < |body| {
        assert body[|p|] == c[|p|];
        forall i | 0 <= i < |p| ensures p[i] != c[|p|] {
          assert body[i] == c[..|p|][i];
        }
      }
    }
  }

  lemma ClosingCycle(nb: Adjacency, members: set<ModulePath>, start: ModulePath, p: seq<ModulePath>)
    requires Partial(nb, members, start, p) && Edge(nb, p[|p| - 1], start)
    ensures Collected(nb, members, start, p, [start], [p + [start]], true)
  {
    var cycle := p + [start];
    assert cycle[..|cycle| - 1] == p && cycle[..|p|] == p;
    TextLessTotal(start.text, start.text);
    forall c | CycleFrom(nb, members, start, c) && Through(p, c) && c[|p|] == start ensures c == cycle {
      var body := c[..|c| - 1];
      assert forall i :: 0 < i < |body| ==> body[i] != start;
      assert c == c[..|p|] + [start];
    }
  }

  lemma PartialExtend(nb: Adjacency, members: set<ModulePath>, start: ModulePath, p: seq<ModulePath>, t: ModulePath)
    requires Partial(nb, members, start, p) && Edge(nb, p[|p| - 1], t)
    requires t in members && Before(start, t) && t !in p
    ensures Partial(nb, members, start, p + [t])
  {
  }

  /** The cycles through `p + [t]` are those through `p` that go on with `t`. */
  lemma CollectedDeeper(nb: Adjacency, members: set<ModulePath>, start: ModulePath, p: seq<ModulePath>, t: ModulePath,
                        found: seq<seq<ModulePath>>, all: bool)
    requires Partial(nb, members, start, p) && t != start
    requires Collected(nb, members, start, p + [t], Targets(nb, t), found, all)
    ensures Collected(nb, members, start, p, [t], found, all)
  {
    var q := p + [t];
    forall c | CycleFrom(nb, members, start, c) && Through(q, c) ensures Through(p, c) && c[|p|] == t {
      assert c[..|q|][..|p|] == c[..|p|] && c[..|q|][|p|] == c[|p|];
      assert q[..|p|] == p;
    }
    forall c | CycleFrom(nb, members, start, c) && Through(p, c) && c[|p|] == t
      ensures Through(q, c) && c[|q|] in Targets(nb, t)
    {
      assert |q| < |c|;
      assert c[..|q|] == c[..|p|] + [c[|p|]];
      var body := c[..|c| - 1];
      assert body[|p|] == t;
      if |q| < |body| {
        assert Edge(nb, body[|p|], body[|q|]);
      }
    }
  }

  lemma PathFresh(nb: Adjacency, members: set<ModulePath>, start: ModulePath, path: seq<ModulePath>, m: ModulePath)
    requires Partial(nb, members, start, path + [m])
    ensures m in members && m !in path
  {
    var whole := path + [m];
    assert whole[|path|] == m;
    forall i | 0 <= i < |path| ensures path[i] != m {
      assert whole[i] == path[i];
    }
  }

  ghost predicate AllAscending(nb: Adjacency) {
    forall m :: m in nb ==> Ascending(nb[m])
  }

  lemma FirstAndRest(targets: seq<ModulePath>, n: nat)
    requires n < |targets|
    ensures forall m :: m in targets[n..] <==> m == targets[n] || m in targets[n + 1..]
  {
    assert targets[n..] == [targets[n]] + targets[n + 1..];
  }

  /** In ascending targets, one that stands in front of the start sorts no later. */
  lemma BeforeStart(nb: Adjacency, m: ModulePath, start: ModulePath, n: nat)
    requires n < |Targets(nb, m)| && AllAscending(nb) && start in Targets(nb, m)[n..]
    requires forall x :: x in nb ==> Distinct(nb[x])
    ensures !Before(start, Targets(nb, m)[n])
    ensures start in Targets(nb, m)[n + 1..] ==> Targets(nb, m)[n] != start
    ensures start !in Targets(nb, m)[n + 1..] ==> Targets(nb, m)[n] == start
  {
    var targets := Targets(nb, m);
    var k :| n <= k < |targets| && targets[k] == start;
    if k == n {
      TextLessTotal(start.text, start.text);
    }
    if start in targets[n + 1..] {
      var j :| 0 <= j < |targets[n + 1..]| && targets[n + 1..][j] == start;
      assert targets[n + 1 + j] == start;
    }
    assert targets[n..] == [targets[n]] + targets[n + 1..];
  }

  /** The enumeration of one component: the cycles found, and the path being extended. */
  class CycleSearch {
    const neighbours: Adjacency
    const members: set<ModulePath>
    var path: seq<ModulePath>
    var onPath: set<ModulePath>
    var cycles: seq<seq<ModulePath>>

    constructor (neighbours: Adjacency, members: set<ModulePath>)
      ensures this.neighbours == neighbours && this.members == members
      ensures path == [] && onPath == {} && cycles == []
    {
      this.neighbours, this.members := neighbours, members;
      path, onPath, cycles := [], {}, [];
    }

    ghost predicate Full()
      reads this
    {
      |cycles| >= MAX_REPORTED_CYCLES
    }

    /** Collect the cycles that go on from the path through `m`; the path itself is put back. */
    method Extend(start: ModulePath, m: ModulePath)
      requires onPath == (set x | x in path)
      requires Partial(neighbours, members, start, path + [m])
      requires forall x :: x in neighbours ==> Distinct(neighbours[x])
      modifies this
      ensures path == old(path) && onPath == old(onPath) && old(cycles) <= cycles
      ensures Collected(neighbours, members, start, path + [m], Targets(neighbours, m), cycles[|old(cycles)|..],
        !Full())
      ensures AllAscending(neighbours) && |old(cycles)| < MAX_REPORTED_CYCLES ==> |cycles| <= MAX_REPORTED_CYCLES
      decreases members - onPath, 0
    {
      ghost var before := cycles;
      ghost var whole := path + [m];
      PathFresh(neighbours, members, start, path, m);
      path := path + [m];
      onPath := onPath + {m};
      var targets := Targets(neighbours, m);
      for n := 0 to |targets|
        invariant path == whole && onPath == old(onPath) + {m}
        invariant before <= cycles
        invariant Collected(neighbours, members, start, whole, targets[..n], cycles[|before|..], !Full())
        invariant AllAscending(neighbours) && start in targets[n..] ==> cycles == before
        invariant AllAscending(neighbours) && |before| < MAX_REPORTED_CYCLES ==> |cycles| <= MAX_REPORTED_CYCLES
      {
        ghost var sofar := cycles;
        FirstAndRest(targets, n);
        if AllAscending(neighbours) && start in targets[n..] {
          BeforeStart(neighbours, m, start, n);
        }
        assert targets[..n + 1] == targets[..n] + [targets[n]];
        assert Edge(neighbours, m, targets[n]);
        Visit(start, targets[n]);
        CollectedMore(neighbours, members, start, whole, targets[..n], targets[n], before, sofar, cycles);
      }
      assert targets[..|targets|] == targets;
      path := path[..|path| - 1];
      onPath := onPath - {m};
    }

    /** Collect the cycles that go on from the path to this target. */
    method Visit(start: ModulePath, target: ModulePath)
      requires path != [] && onPath == (set x | x in path)
      requires Partial(neighbours, members, start, path) && Edge(neighbours, path[|path| - 1], target)
      requires forall x :: x in neighbours ==> Distinct(neighbours[x])
      modifies this
      ensures path == old(path) && onPath == old(onPath) && old(cycles) <= cycles
      ensures Collected(neighbours, members, start, path, [target], cycles[|old(cycles)|..], !Full())
      ensures target != start && !Before(start, target) ==> cycles == old(cycles)
      ensures AllAscending(neighbours) && |old(cycles)| <= MAX_REPORTED_CYCLES
              && (target == start ==> |old(cycles)| < MAX_REPORTED_CYCLES) ==>
                |cycles| <= MAX_REPORTED_CYCLES
      decreases members - onPath, 1
    {
      if target !in members {
        NoCycleVia(neighbours, members, start, path, target);
      } else if target == start {
        ClosingCycle(neighbours, members, start, path);
        cycles := cycles + [path + [start]];
      } else if !Before(start, target) || target in onPath || |cycles| >= MAX_REPORTED_CYCLES {
        if |cycles| < MAX_REPORTED_CYCLES {
          NoCycleVia(neighbours, members, start, path, target);
        }
      } else {
        PartialExtend(neighbours, members, start, path, target);
        ghost var before := cycles;
        Extend(start, target);
        CollectedDeeper(neighbours, members, start, path, target, cycles[|before|..], !Full());
      }
    }
  }

  // ----- One component

  /** The canonical cycles of the members, each once; all of them below the report limit. */
  ghost predicate Enumerated(nb: Adjacency, component: seq<ModulePath>, cycles: seq<seq<ModulePath>>) {
    var members := set m | m in component;
    && Distinct(cycles)
    && (forall c :: c in cycles ==> |c| > 0 && c[0] in members && CycleFrom(nb, members, c[0], c))
    && (|cycles| < MAX_REPORTED_CYCLES ==>
        forall c :: |c| > 0 && c[0] in members && CycleFrom(nb, members, c[0], c) ==> c in cycles)
  }

  /** Some of the starts done. */
  ghost predicate EnumeratedFrom(nb: Adjacency, members: set<ModulePath>, starts: seq<ModulePath>,
                                 cycles: seq<seq<ModulePath>>)
  {
    && Distinct(cycles)
    && (forall c :: c in cycles ==> |c| > 0 && c[0] in starts && CycleFrom(nb, members, c[0], c))
    && (|cycles| < MAX_REPORTED_CYCLES ==>
        forall c :: |c| > 0 && c[0] in starts && CycleFrom(nb, members, c[0], c) ==> c in cycles)
  }

  lemma StartDone(nb: Adjacency, members: set<ModulePath>, starts: seq<ModulePath>, start: ModulePath,
                  cycles: seq<seq<ModulePath>>, more: seq<seq<ModulePath>>)
    requires start !in starts && EnumeratedFrom(nb, members, starts, cycles)
    requires Collected(nb, members, start, [start], Targets(nb, start), more, |cycles + more| < MAX_REPORTED_CYCLES)
    ensures EnumeratedFrom(nb, members, starts + [start], cycles + more)
  {
    var both := cycles + more;
    forall c | CycleFrom(nb, members, start, c)
      ensures c[0] == start && Through([start], c) && c[1] in Targets(nb, start)
    {
      var body := c[..|c| - 1];
      assert c[0] == body[0];
      assert c[..1] == [start];
      if |body| > 1 {
        assert Edge(nb, body[0], body[1]);
      }
    }
    forall c | c in more ensures CycleFrom(nb, members, start, c) {
    }
    forall i, j | 0 <= i < j < |both| ensures both[i] != both[j] {
      if i < |cycles| <= j {
        assert both[i] in cycles && both[j] in more;
      }
    }
  }

  method CyclesWithinComponent(component: seq<ModulePath>, nb: Adjacency) returns (cycles: seq<seq<ModulePath>>)
    requires Distinct(component) && forall m :: m in nb ==> Distinct(nb[m])
    ensures Enumerated(nb, component, cycles)
    ensures AllAscending(nb) ==> |cycles| <= MAX_REPORTED_CYCLES
  {
    var members := set m | m in component;
    cycles := [];
    var search := new CycleSearch(nb, members);
    for i := 0 to |component|
      invariant search.neighbours == nb && search.members == members && fresh(search)
      invariant search.path == [] && search.onPath == {}
      invariant EnumeratedFrom(nb, members, component[..i], search.cycles)
      invariant |search.cycles| < MAX_REPORTED_CYCLES
    {
      var start := component[i];
      ghost var before := search.cycles;
      assert [] + [start] == [start];
      search.Extend(start, start);
      assert component[..i + 1] == component[..i] + [start];
      assert search.cycles == before + search.cycles[|before|..];
      StartDone(nb, members, component[..i], start, before, search.cycles[|before|..]);
      if |search.cycles| >= MAX_REPORTED_CYCLES {
        return search.cycles;
      }
    }
    assert component[..|component|] == component;
    cycles := search.cycles;
  }

  // ----- Every elementary cycle, exactly once

  lemma {:induction false} SmallestIndex(v: seq<ModulePath>) returns (k: nat)
    requires v != [] && Distinct(v)
    ensures k < |v| && forall i :: 0 <= i < |v| && i != k ==> Before(v[k], v[i])
  {
    k := 0;
    for n := 1 to |v|
      invariant k < n && forall i :: 0 <= i < n && i != k ==> Before(v[k], v[i])
    {
      TextLessTotal(v[n].text, v[k].text);
      if Before(v[n], v[k]) {
        forall i | 0 <= i < n ensures Before(v[n], v[i]) {
          if i != k {
            TextLessTransitive(v[n].text, v[k].text, v[i].text);
          }
        }
        k := n;
      }
    }
  }

  /** Where the modules of a cycle stand once it is rewritten from `k`. */
  lemma RotatedAt(c: seq<ModulePath>, k: nat, i: nat)
    requires k < |c| - 1 && i < |c| - 1
    ensures |Rotated(c, k)| == |c| && Rotated(c, k)[|c| - 1] == c[k]
    ensures Rotated(c, k)[i] == if i < |c| - 1 - k then c[k + i] else c[i - (|c| - 1 - k)]
  {
  }

  lemma RotatedWalk(nb: Adjacency, c: seq<ModulePath>, k: nat)
    requires ClosedWalk(nb, c) && k < |c| - 1
    ensures ClosedWalk(nb, Rotated(c, k))
  {
    var n := |c| - 1;
    var d := Rotated(c, k);
    forall i | 0 <= i < n ensures Edge(nb, d[i], d[i + 1]) {
      RotatedAt(c, k, i);
      if i + 1 < n { RotatedAt(c, k, i + 1); }
      if i < n - k {
        assert Edge(nb, c[k + i], c[k + i + 1]);
      } else {
        assert Edge(nb, c[i - (n - k)], c[i - (n - k) + 1]);
      }
    }
    RotatedAt(c, k, 0);
  }

  lemma RotatedDistinct(c: seq<ModulePath>, k: nat)
    requires k < |c| - 1 && Distinct(c[..|c| - 1])
    ensures Distinct(Rotated(c, k)[..|c| - 1])
  {
    var n := |c| - 1;
    var v := c[..n];
    var d := Rotated(c, k);
    forall i, j | 0 <= i < j < n ensures d[i] != d[j] {
      RotatedAt(c, k, i);
      RotatedAt(c, k, j);
      var p := if i < n - k then k + i else i - (n - k);
      var q := if j < n - k then k + j else j - (n - k);
      assert p != q && v[p] == c[p] && v[q] == c[q];
    }
  }

  /** Written from its smallest module, an elementary cycle is one the enumeration looks for. */
  lemma Canonical(nb: Adjacency, members: set<ModulePath>, c: seq<ModulePath>) returns (d: seq<ModulePath>)
    requires Elementary(nb, c) && forall i :: 0 <= i < |c| ==> c[i] in members
    ensures SameCycle(c, d) && CycleFrom(nb, members, d[0], d)
  {
    var n := |c| - 1;
    var v := c[..n];
    var k := SmallestIndex(v);
    d := Rotated(c, k);
    RotatedWalk(nb, c, k);
    RotatedDistinct(c, k);
    RotatedFrom(members, c, k);
    var body := d[..n];
    forall i | 0 <= i < n - 1 ensures Edge(nb, body[i], body[i + 1]) {
      assert Edge(nb, d[i], d[i + 1]);
    }
    assert Edge(nb, d[n - 1], d[n]);
  }

  /** A cycle rotated to its smallest module has that one first and only larger ones behind it. */
  lemma RotatedFrom(members: set<ModulePath>, c: seq<ModulePath>, k: nat)
    requires |c| >= 2 && k < |c| - 1 && forall i :: 0 <= i < |c| ==> c[i] in members
    requires forall i :: 0 <= i < |c| - 1 && i != k ==> Before(c[k], c[i])
    ensures var n := |c| - 1;
            var d := Rotated(c, k);
            && |d| == n + 1 && d[0] == c[k] && d[n] == c[k]
            && forall i :: 0 <= i < n ==> d[..n][i] in members && (i > 0 ==> Before(c[k], d[..n][i]))
  {
    var n := |c| - 1;
    var d := Rotated(c, k);
    RotatedAt(c, k, 0);
    forall i | 0 <= i < n ensures d[..n][i] in members && (i > 0 ==> Before(c[k], d[..n][i])) {
      RotatedAt(c, k, i);
      var p := if i < n - k then k + i else i - (n - k);
      assert d[..n][i] == c[p];
    }
  }

  lemma CanonicalUnique(nb: Adjacency, members: set<ModulePath>, c: seq<ModulePath>, k: nat, l: nat)
    requires k < |c| - 1 && l < |c| - 1
    requires CycleFrom(nb, members, c[k], Rotated(c, k)) && CycleFrom(nb, members, c[l], Rotated(c, l))
    ensures Rotated(c, k) == Rotated(c, l)
  {
    if k != l {
      SmallestOfCycle(nb, members, c, k, l);
      SmallestOfCycle(nb, members, c, l, k);
      TextLessTotal(c[k].text, c[l].text);
    }
  }

  lemma SmallestOfCycle(nb: Adjacency, members: set<ModulePath>, c: seq<ModulePath>, k: nat, l: nat)
    requires k < |c| - 1 && l < |c| - 1 && k != l
    requires CycleFrom(nb, members, c[k], Rotated(c, k))
    ensures Before(c[k], c[l])
  {
    var n := |c| - 1;
    var i := if l >= k then l - k else l + (n - k);
    RotatedAt(c, k, i);
    assert Rotated(c, k)[..n][i] == c[l];
  }

  /** Below the report limit, each elementary cycle of the members is listed, and once only,
      however it is written. */
  lemma ExactlyOnce(nb: Adjacency, component: seq<ModulePath>, cycles: seq<seq<ModulePath>>, c: seq<ModulePath>)
    requires Enumerated(nb, component, cycles) && |cycles| < MAX_REPORTED_CYCLES
    requires Elementary(nb, c) && forall i :: 0 <= i < |c| ==> c[i] in component
    ensures exists i :: 0 <= i < |cycles| && SameCycle(c, cycles[i])
    ensures forall i, j ::
      0 <= i < |cycles| && 0 <= j < |cycles| && SameCycle(c, cycles[i]) && SameCycle(c, cycles[j]) ==> i == j
  {
    var members := set m | m in component;
    var d := Canonical(nb, members, c);
    assert d in cycles by {
      assert d[0] in members;
    }
    forall i, j | 0 <= i < |cycles| && 0 <= j < |cycles| && SameCycle(c, cycles[i]) && SameCycle(c, cycles[j])
      ensures i == j
    {
      var k :| 0 <= k < |c| - 1 && cycles[i] == Rotated(c, k);
      var l :| 0 <= l < |c| - 1 && cycles[j] == Rotated(c, l);
      assert cycles[i] in cycles && cycles[j] in cycles;
      CanonicalUnique(nb, members, c, k, l);
    }
  }

  // ----- A large component

  /** No module that has left the queue leads back to the goal. */
  ghost predicate Unmet(nb: Adjacency, goal: ModulePath, found: Found, queue: seq<seq<ModulePath>>) {
    forall m :: m in found && !Waiting(found, queue, m) ==> !Edge(nb, m, goal)
  }

  ghost predicate UnmetSoFar(nb: Adjacency, goal: ModulePath, found: Found, queue: seq<seq<ModulePath>>,
                             current: seq<ModulePath>, k: nat)
    requires current != [] && k <= |Targets(nb, Last(current))|
  {
    && (forall m :: m in found && found[m] != current && !Waiting(found, queue, m) ==> !Edge(nb, m, goal))
    && (forall j :: 0 <= j < k ==> Targets(nb, Last(current))[j] != goal)
  }

  lemma UnmetStart(nb: Adjacency, goal: ModulePath, found: Found, queue: seq<seq<ModulePath>>)
    requires queue != [] && queue[0] != [] && Unmet(nb, goal, found, queue)
    ensures UnmetSoFar(nb, goal, found, queue[1..], queue[0], 0)
  {
    assert queue == [queue[0]] + queue[1..];
  }

  lemma UnmetStep(nb: Adjacency, goal: ModulePath, found: Found, queue: seq<seq<ModulePath>>,
                  current: seq<ModulePath>, k: nat)
    requires current != [] && k < |Targets(nb, Last(current))| && Targets(nb, Last(current))[k] != goal
    requires UnmetSoFar(nb, goal, found, queue, current, k)
    ensures UnmetSoFar(nb, goal, found, queue, current, k + 1)
    ensures var t := Targets(nb, Last(current))[k];
            t !in found ==> UnmetSoFar(nb, goal, found[t := current + [t]], queue + [current + [t]], current, k + 1)
  {
    var next := current + [Targets(nb, Last(current))[k]];
    assert (queue + [next])[|queue|] == next;
    assert forall c :: c in queue ==> c in queue + [next];
  }

  lemma UnmetEnd(nb: Adjacency, goal: ModulePath, found: Found, queue: seq<seq<ModulePath>>, current: seq<ModulePath>)
    requires current != [] && UnmetSoFar(nb, goal, found, queue, current, |Targets(nb, Last(current))|)
    requires forall m :: m in found && found[m] == current ==> m == Last(current)
    ensures Unmet(nb, goal, found, queue)
  {
  }

  ghost predicate OnCycle(nb: Adjacency, m: ModulePath) {
    exists c :: ClosedWalk(nb, c) && c[0] == m
  }

  lemma OnShortest(nb: Adjacency, m: ModulePath, cycle: seq<ModulePath>)
    requires ShortestWalk(nb, cycle, m, m)
    ensures OnCycle(nb, m)
  {
    assert ClosedWalk(nb, cycle);
  }

  lemma OnNone(nb: Adjacency, m: ModulePath)
    requires forall q :: |q| >= 2 ==> !WalkBetween(nb, q, m, m)
    ensures !OnCycle(nb, m)
  {
    assert forall c :: ClosedWalk(nb, c) && c[0] == m ==> WalkBetween(nb, c, m, m);
  }

  /** One shortest cycle through the first module, if any cycle passes through it. */
  method RepresentativeCycle(component: seq<ModulePath>, nb: Adjacency) returns (cycle: seq<ModulePath>)
    requires component != []
    ensures OnCycle(nb, component[0]) ==> ShortestWalk(nb, cycle, component[0], component[0])
    ensures !OnCycle(nb, component[0]) ==> cycle == [component[0], component[0]]
  {
    var start := component[0];
    // The start may be filed from the outset: a target equal to it is met before any lookup.
    var visited: Found := map[start := [start]];
    var queue := [[start]];
    ghost var all := Vertices(nb) + {start};
    SearchStart(nb, start);
    while queue != []
      invariant visited.Keys <= all
      invariant Searching(nb, start, visited, queue) && Unmet(nb, start, visited, queue)
      decreases all - visited.Keys, |queue|
    {
      ScanStart(nb, start, visited, queue);
      UnmetStart(nb, start, visited, queue);
      var chain := queue[0];
      var targets := Targets(nb, Last(chain));
      TargetVertices(nb, Last(chain));
      queue := queue[1..];
      ghost var unknown, rest := all - visited.Keys, queue;
      for k := 0 to |targets|
        invariant visited.Keys <= all
        invariant all - visited.Keys < unknown || (all - visited.Keys == unknown && queue == rest)
        invariant Scanning(nb, start, visited, queue, chain, k) && UnmetSoFar(nb, start, visited, queue, chain, k)
      {
        var target := targets[k];
        if target == start {
          GoalMet(nb, start, start, visited, queue, chain, k);
          OnShortest(nb, start, chain + [start]);
          return chain + [start];
        }
        ScanStep(nb, start, visited, queue, chain, k);
        UnmetStep(nb, start, visited, queue, chain, k);
        if target in visited {
          continue;
        }
        var nextChain := chain + [target];
        NewlyFound(all, visited, target, nextChain);
        visited, queue := visited[target := nextChain], queue + [nextChain];
      }
      ScanEnd(nb, start, visited, queue, chain);
      UnmetEnd(nb, start, visited, queue, chain);
    }
    NothingOpen(nb, start, start, visited);
    OnNone(nb, start);
    cycle := [start, start];
  }

  // ----- The whole graph

  /** What the report says about one component. */
  ghost predicate Reported(nb: Adjacency, component: seq<ModulePath>, cycles: seq<seq<ModulePath>>) {
    if component == [] || (|component| == 1 && !Edge(nb, component[0], component[0])) then cycles == []
    else if |component| > MAX_ENUMERATED_COMPONENT then
      |cycles| == 1 && ShortestWalk(nb, cycles[0], component[0], component[0])
    else Enumerated(nb, component, cycles)
  }

  ghost function Flattened(parts: seq<seq<seq<ModulePath>>>): seq<seq<ModulePath>> {
    if parts == [] then [] else Flattened(parts[..|parts| - 1]) + parts[|parts| - 1]
  }

  /** A component of two modules or more has a cycle through each of its modules. */
  lemma ComponentCycle(nb: Adjacency, component: seq<ModulePath>)
    requires IsComponent(nb, component) && |component| >= 2
    ensures OnCycle(nb, component[0])
  {
    var a, b := component[0], component[1];
    assert Mutual(nb, a, b);
    var p :| WalkBetween(nb, p, a, b);
    var q :| WalkBetween(nb, q, b, a);
    WalkJoin(nb, p, q, a, b, a);
    assert ClosedWalk(nb, p + q[1..]);
  }

  /** What is reported of one component. */
  method ReportComponent(component: seq<ModulePath>, nb: Adjacency) returns (more: seq<seq<ModulePath>>)
    requires IsComponent(nb, component) && forall x :: x in nb ==> Distinct(nb[x])
    ensures Reported(nb, component, more)
    ensures AllAscending(nb) ==> |more| <= MAX_REPORTED_CYCLES
  {
    var selfLoop := component[0] in Targets(nb, component[0]);
    if |component| == 1 && !selfLoop {
      more := [];
    } else if |component| > MAX_ENUMERATED_COMPONENT {
      ComponentCycle(nb, component);
      var cycle := RepresentativeCycle(component, nb);
      more := [cycle];
    } else {
      more := CyclesWithinComponent(component, nb);
    }
  }

  /** Of no component more cycles are reported than the limit. */
  ghost predicate Bounded(parts: seq<seq<seq<ModulePath>>>) {
    forall part :: part in parts ==> |part| <= MAX_REPORTED_CYCLES
  }

  ghost predicate ReportedSoFar(nb: Adjacency, components: seq<seq<ModulePath>>, parts: seq<seq<seq<ModulePath>>>) {
    |parts| <= |components| && forall j :: 0 <= j < |parts| ==> Reported(nb, components[j], parts[j])
  }

  lemma ReportedMore(nb: Adjacency, components: seq<seq<ModulePath>>, parts: seq<seq<seq<ModulePath>>>,
                     more: seq<seq<ModulePath>>)
    requires ReportedSoFar(nb, components, parts) && |parts| < |components|
    requires Reported(nb, components[|parts|], more)
    ensures ReportedSoFar(nb, components, parts + [more])
  {
    var both := parts + [more];
    forall j | 0 <= j < |both| ensures Reported(nb, components[j], both[j]) {
      assert both[j] == if j < |parts| then parts[j] else more;
    }
  }

  lemma FlattenedMore(parts: seq<seq<seq<ModulePath>>>, more: seq<seq<ModulePath>>)
    ensures Flattened(parts + [more]) == Flattened(parts) + more
    ensures Bounded(parts) && |more| <= MAX_REPORTED_CYCLES ==> Bounded(parts + [more])
  {
    assert (parts + [more])[..|parts|] == parts;
  }

  /** The cycle report, component by component. */
  method FindRuntimeCycles(graph: ProjectGraph)
    returns (cycles: seq<seq<ModulePath>>, ghost components: seq<seq<ModulePath>>,
             ghost parts: seq<seq<seq<ModulePath>>>)
    ensures Finished(RuntimeNeighbours(graph), components)
    ensures forall m :: m in Vertices(RuntimeNeighbours(graph)) <==> InSome(components, m)
    ensures |parts| == |components| && cycles == Flattened(parts)
    ensures forall i :: 0 <= i < |parts| ==> Reported(RuntimeNeighbours(graph), components[i], parts[i])
    ensures Bounded(parts)
    ensures cycles == [] <==> Acyclic(RuntimeNeighbours(graph))
    ensures forall c :: c in cycles ==> ClosedWalk(RuntimeNeighbours(graph), c)
  {
    var nb := BuildAdjacency(graph, true);
    AdjacencyFacts(graph.modules, graph.runtimeEdges);
    var found := StronglyConnectedComponents(graph);
    assert AllAscending(nb);
    components := found;
    cycles, parts := [], [];
    for i := 0 to |found|
      invariant |parts| == i && cycles == Flattened(parts)
      invariant ReportedSoFar(nb, found, parts) && Bounded(parts)
    {
      assert IsComponent(nb, found[i]);
      var more := ReportComponent(found[i], nb);
      ReportedMore(nb, found, parts, more);
      FlattenedMore(parts, more);
      parts := parts + [more];
      cycles := cycles + more;
    }
    assert forall i :: 0 <= i < |parts| ==> Reported(nb, components[i], parts[i]);
    EmptyReport(nb, components, parts);
    AllClosed(nb, components, parts);
  }

  lemma AllClosed(nb: Adjacency, components: seq<seq<ModulePath>>, parts: seq<seq<seq<ModulePath>>>)
    requires |parts| == |components|
    requires forall i :: 0 <= i < |parts| ==> Reported(nb, components[i], parts[i])
    ensures forall c :: c in Flattened(parts) ==> ClosedWalk(nb, c)
  {
    forall c | c in Flattened(parts) ensures ClosedWalk(nb, c) {
      InFlattened(parts, c);
      var i :| 0 <= i < |parts| && c in parts[i];
      ReportedClosed(nb, components[i], parts[i], c);
    }
  }

  lemma {:induction false} InFlattened(parts: seq<seq<seq<ModulePath>>>, c: seq<ModulePath>)
    ensures c in Flattened(parts) <==> exists i :: 0 <= i < |parts| && c in parts[i]
  {
    if parts != [] {
      var n := |parts| - 1;
      InFlattened(parts[..n], c);
      if c in Flattened(parts[..n]) {
        var i :| 0 <= i < n && c in parts[..n][i];
        assert c in parts[i];
      } else if i :| 0 <= i < |parts| && c in parts[i] {
        if i < n {
          assert c in parts[..n][i];
        }
      }
    }
  }

  /** Every reported chain is a closed walk of real edges. */
  lemma ReportedClosed(nb: Adjacency, component: seq<ModulePath>, cycles: seq<seq<ModulePath>>, c: seq<ModulePath>)
    requires Reported(nb, component, cycles) && c in cycles
    ensures ClosedWalk(nb, c) && c[0] in component
  {
    if component != [] && |component| <= MAX_ENUMERATED_COMPONENT {
      var body := c[..|c| - 1];
      forall i | 0 <= i < |c| - 1 ensures Edge(nb, c[i], c[i + 1]) {
        assert body[i] == c[i];
        if i + 1 < |body| {
          assert Edge(nb, body[i], body[i + 1]);
        }
      }
      assert c[0] == body[0];
    }
  }

  /** A closed walk contains an elementary cycle. */
  lemma {:induction false} ElementaryInside(nb: Adjacency, c: seq<ModulePath>) returns (e: seq<ModulePath>)
    requires ClosedWalk(nb, c)
    ensures Elementary(nb, e) && forall m :: m in e ==> m in c
    decreases |c|
  {
    var v := c[..|c| - 1];
    if Distinct(v) {
      return c;
    }
    var i, j :| 0 <= i < j < |v| && v[i] == v[j];
    WalkSlice(nb, c, i, j);
    var inner := c[i..j + 1];
    e := ElementaryInside(nb, inner);
  }

  /** All modules of a closed walk are in the component of its first. */
  lemma ClosedInComponent(nb: Adjacency, component: seq<ModulePath>, c: seq<ModulePath>)
    requires IsComponent(nb, component) && ClosedWalk(nb, c) && c[0] in component
    ensures forall m :: m in c ==> m in component
  {
    forall m | m in c ensures m in component {
      var i :| 0 <= i < |c| && c[i] == m;
      WalkSlice(nb, c, 0, i);
      WalkSlice(nb, c, i, |c| - 1);
      assert Mutual(nb, c[0], m);
    }
  }

  /** A component that holds a closed walk has something reported. */
  lemma ComponentReported(nb: Adjacency, component: seq<ModulePath>, cycles: seq<seq<ModulePath>>, c: seq<ModulePath>)
    requires IsComponent(nb, component) && Reported(nb, component, cycles)
    requires ClosedWalk(nb, c) && c[0] in component
    ensures cycles != []
  {
    ClosedInComponent(nb, component, c);
    assert Edge(nb, c[0], c[1]) && c[1] in c;
    if |component| <= MAX_ENUMERATED_COMPONENT && |cycles| < MAX_REPORTED_CYCLES {
      var e := ElementaryInside(nb, c);
      forall i | 0 <= i < |e| ensures e[i] in component {
        assert e[i] in e;
      }
      if Enumerated(nb, component, cycles) {
        ExactlyOnce(nb, component, cycles, e);
      }
    }
  }

  /** The report is empty exactly when the runtime graph is acyclic. */
  lemma EmptyReport(nb: Adjacency, components: seq<seq<ModulePath>>, parts: seq<seq<seq<ModulePath>>>)
    requires Finished(nb, components) && forall m :: m in Vertices(nb) <==> InSome(components, m)
    requires |parts| == |components|
    requires forall i :: 0 <= i < |parts| ==> Reported(nb, components[i], parts[i])
    ensures Flattened(parts) == [] <==> Acyclic(nb)
  {
    if Flattened(parts) == [] {
      forall c ensures !ClosedWalk(nb, c) {
        if ClosedWalk(nb, c) {
          assert Edge(nb, c[0], c[1]);
          EdgeVertices(nb, c[0], c[1]);
          var component :| component in components && c[0] in component;
          var i :| 0 <= i < |components| && components[i] == component;
          ComponentReported(nb, component, parts[i], c);
          InFlattened(parts, parts[i][0]);
        }
      }
    } else {
      var c := Flattened(parts)[0];
      InFlattened(parts, c);
      var i :| 0 <= i < |parts| && c in parts[i];
      ReportedClosed(nb, components[i], parts[i], c);
    }
  }

  /** Every chain in the report is a closed walk; and each elementary cycle of a component small
      enough to enumerate, with its list below the limit, stands in the report exactly once. */
  lemma ReportComplete(nb: Adjacency, components: seq<seq<ModulePath>>, parts: seq<seq<seq<ModulePath>>>,
                       i: nat, c: seq<ModulePath>)
    requires Finished(nb, components) && |parts| == |components| && i < |parts|
    requires forall j :: 0 <= j < |parts| ==> Reported(nb, components[j], parts[j])
    requires Elementary(nb, c) && c[0] in components[i]
    requires |components[i]| <= MAX_ENUMERATED_COMPONENT && |parts[i]| < MAX_REPORTED_CYCLES
    ensures exists n :: 0 <= n < |parts[i]| && SameCycle(c, parts[i][n])
    ensures forall n, n' :: 0 <= n < n' < |parts[i]| ==> !(SameCycle(c, parts[i][n]) && SameCycle(c, parts[i][n']))
    ensures forall j, d :: 0 <= j < |parts| && j != i && d in parts[j] ==> !SameCycle(c, d)
  {
    assert components[i] in components;
    ClosedInComponent(nb, components[i], c);
    assert Edge(nb, c[0], c[1]) && c[1] in c;
    forall k | 0 <= k < |c| ensures c[k] in components[i] {
      assert c[k] in c;
    }
    ExactlyOnce(nb, components[i], parts[i], c);
    forall j, d | 0 <= j < |parts| && j != i && d in parts[j] ensures !SameCycle(c, d) {
      ReportedClosed(nb, components[j], parts[j], d);
      forall k | 0 <= k < |c| - 1 ensures Rotated(c, k)[0] in components[i] {
        RotatedAt(c, k, 0);
      }
    }
  }
}
