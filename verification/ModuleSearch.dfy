/** Breadth-first questions about the runtime graph: what a module reaches, and the
    shortest import chain between two modules. */
module ModuleSearch {
  import opened ModuleGraph

  method SortedMembers(s: set<ModulePath>) returns (r: seq<ModulePath>)
    ensures Distinct(r) && Ascending(r) && forall m :: m in r <==> m in s
  {
    var rest, list := s, [];
    while rest != {}
      invariant rest <= s && Distinct(list)
      invariant forall m :: m in list <==> m in s - rest
      decreases rest
    {
      var m :| m in rest;
      assert m !in list;
      rest, list := rest - {m}, list + [m];
    }
    SortedFacts(list);
    r := Sorted(list);
  }

  /** Everything reached or queued is reachable, and every target of a reached module is one of them. */
  ghost predicate Closing(nb: Adjacency, start: ModulePath, reached: set<ModulePath>, queue: seq<ModulePath>) {
    && (start in reached || start in queue)
    && (forall m :: m in reached || m in queue ==> Reaches(nb, start, m))
    && (forall m, t :: m in reached && Edge(nb, m, t) ==> t in reached || t in queue)
  }

  ghost predicate Bounded(all: set<ModulePath>, reached: set<ModulePath>, queue: seq<ModulePath>) {
    reached <= all && forall m :: m in queue ==> m in all
  }

  lemma ClosureSkip(nb: Adjacency, start: ModulePath, reached: set<ModulePath>, queue: seq<ModulePath>)
    requires queue != [] && Closing(nb, start, reached, queue) && queue[0] in reached
    ensures Closing(nb, start, reached, queue[1..])
  {
    assert queue == [queue[0]] + queue[1..];
  }

  lemma TargetsReached(nb: Adjacency, start: ModulePath, m: ModulePath)
    requires Reaches(nb, start, m)
    ensures forall t :: t in Targets(nb, m) ==> Reaches(nb, start, t)
  {
    forall t | t in Targets(nb, m) ensures Reaches(nb, start, t) {
      assert Edge(nb, m, t);
      ReachesEdge(nb, m, t);
      ReachesTransitive(nb, start, m, t);
    }
  }

  lemma ClosureVisit(nb: Adjacency, start: ModulePath, reached: set<ModulePath>, queue: seq<ModulePath>)
    requires queue != [] && Closing(nb, start, reached, queue)
    ensures Closing(nb, start, reached + {queue[0]}, queue[1..] + Targets(nb, queue[0]))
  {
    assert queue == [queue[0]] + queue[1..];
    TargetsReached(nb, start, queue[0]);
  }

  lemma ClosureBounded(nb: Adjacency, all: set<ModulePath>, reached: set<ModulePath>, queue: seq<ModulePath>)
    requires queue != [] && Bounded(all, reached, queue) && Vertices(nb) <= all
    ensures Bounded(all, reached, queue[1..])
    ensures queue[0] in all && Bounded(all, reached + {queue[0]}, queue[1..] + Targets(nb, queue[0]))
  {
    var current := queue[0];
    forall t | t in Targets(nb, current) ensures t in all {
      assert Edge(nb, current, t);
      EdgeVertices(nb, current, t);
    }
  }

  lemma ClosureDone(nb: Adjacency, start: ModulePath, reached: set<ModulePath>)
    requires Closing(nb, start, reached, [])
    ensures forall m :: m in reached <==> Reaches(nb, start, m)
  {
    forall m | Reaches(nb, start, m) ensures m in reached {
      ClosedUnderReach(nb, reached, start, m);
    }
  }

  /** The modules reachable from the start over runtime edges, without the start. */
  method RuntimeClosure(graph: ProjectGraph, start: ModulePath) returns (r: seq<ModulePath>)
    ensures Distinct(r) && Ascending(r)
    ensures forall m :: m in r <==> m != start && Reaches(RuntimeNeighbours(graph), start, m)
  {
    var nb := BuildAdjacency(graph, true);
    var reached: set<ModulePath>, queue := {}, [start];
    ghost var all := Vertices(nb) + {start};
    ReachesSelf(nb, start);
    while queue != []
      invariant Bounded(all, reached, queue) && Closing(nb, start, reached, queue)
      decreases all - reached, |queue|
    {
      var current := queue[0];
      ClosureBounded(nb, all, reached, queue);
      if current in reached {
        ClosureSkip(nb, start, reached, queue);
        queue := queue[1..];
      } else {
        ClosureVisit(nb, start, reached, queue);
        assert all - (reached + {current}) < all - reached;
        reached, queue := reached + {current}, queue[1..] + Targets(nb, current);
      }
    }
    ClosureDone(nb, start, reached);
    r := SortedMembers(reached - {start});
  }

  // ----- Breadth-first chains

  type Found = map<ModulePath, seq<ModulePath>>

  /** `p` is a walk of one edge or more, and none with the same ends is shorter. */
  ghost predicate ShortestWalk(nb: Adjacency, p: seq<ModulePath>, a: ModulePath, b: ModulePath) {
    && |p| >= 2 && WalkBetween(nb, p, a, b)
    && forall q :: |q| >= 2 && WalkBetween(nb, q, a, b) ==> |p| <= |q|
  }

  /** The chains found so far: each starts at `from` and ends at the module it is filed under. */
  ghost predicate Chains(nb: Adjacency, from: ModulePath, found: Found) {
    && from in found && found[from] == [from]
    && forall m :: m in found ==> WalkBetween(nb, found[m], from, m)
  }

  /** The chains still to extend: shortest first, and one edge apart at most. */
  ghost predicate Frontier(found: Found, queue: seq<seq<ModulePath>>) {
    && (forall i :: 0 <= i < |queue| ==> |queue[i]| > 0 && Last(queue[i]) in found && found[Last(queue[i])] == queue[i])
    && (forall i, j :: 0 <= i < j < |queue| ==> |queue[i]| <= |queue[j]|)
    && (forall i, m :: 0 <= i < |queue| && m in found ==> |found[m]| <= |queue[i]| + 1)
  }

  function Last(chain: seq<ModulePath>): ModulePath
    requires chain != []
  {
    chain[|chain| - 1]
  }

  ghost predicate Waiting(found: Found, queue: seq<seq<ModulePath>>, m: ModulePath) {
    m in found && found[m] in queue
  }

  /** All targets found, one edge further at most. */
  ghost predicate Settled(nb: Adjacency, found: Found, m: ModulePath) {
    m in found && forall t :: Edge(nb, m, t) ==> t in found && |found[t]| <= |found[m]| + 1
  }

  ghost predicate Searching(nb: Adjacency, from: ModulePath, found: Found, queue: seq<seq<ModulePath>>) {
    && Chains(nb, from, found) && Frontier(found, queue)
    && forall m :: m in found && !Waiting(found, queue, m) ==> Settled(nb, found, m)
  }

  /** The search while it scans the targets of `current`, `k` of them done. */
  ghost predicate Scanning(nb: Adjacency, from: ModulePath, found: Found,
                           queue: seq<seq<ModulePath>>, current: seq<ModulePath>, k: nat)
    requires current != []
  {
    var targets := Targets(nb, Last(current));
    && Chains(nb, from, found) && Frontier(found, [current] + queue)
    && (forall m :: m in found && found[m] != current && !Waiting(found, queue, m) ==> Settled(nb, found, m))
    && k <= |targets|
    && (forall j :: 0 <= j < k ==> targets[j] in found && |found[targets[j]]| <= |current| + 1)
  }

  lemma ScanStart(nb: Adjacency, from: ModulePath, found: Found, queue: seq<seq<ModulePath>>)
    requires queue != [] && Searching(nb, from, found, queue)
    ensures queue[0] != [] && Scanning(nb, from, found, queue[1..], queue[0], 0)
  {
    assert queue == [queue[0]] + queue[1..];
  }

  /** The next target is filed under its extended chain, or was found before. */
  lemma ScanStep(nb: Adjacency, from: ModulePath, found: Found, queue: seq<seq<ModulePath>>,
                 current: seq<ModulePath>, k: nat)
    requires current != [] && Scanning(nb, from, found, queue, current, k)
    requires k < |Targets(nb, Last(current))|
    ensures var t := Targets(nb, Last(current))[k];
            if t in found then Scanning(nb, from, found, queue, current, k + 1)
            else Scanning(nb, from, found[t := current + [t]], queue + [current + [t]], current, k + 1)
  {
    var t := Targets(nb, Last(current))[k];
    var all := [current] + queue;
    assert all[0] == current && Edge(nb, Last(current), t);
    if t !in found {
      var next := current + [t];
      var found', queue' := found[t := next], queue + [next];
      assert WalkBetween(nb, current, from, Last(current));
      WalkExtend(nb, current, from, Last(current), t);
      var all' := [current] + queue';
      assert all' == all + [next];
      forall i | 0 <= i < |all| ensures |current| <= |all[i]| <= |current| + 1 {
        assert found[Last(all[i])] == all[i];
      }
      SettledStill(nb, found, queue, current, t);
    }
  }

  /** Finding one module more leaves settled what neither waits nor is scanned. */
  lemma SettledStill(nb: Adjacency, found: Found, queue: seq<seq<ModulePath>>, current: seq<ModulePath>, t: ModulePath)
    requires t !in found
    requires forall m :: m in found && found[m] != current && !Waiting(found, queue, m) ==> Settled(nb, found, m)
    ensures var next := current + [t];
            var found', queue' := found[t := next], queue + [next];
            forall m :: m in found' && found'[m] != current && !Waiting(found', queue', m) ==> Settled(nb, found', m)
  {
    var next := current + [t];
    var found', queue' := found[t := next], queue + [next];
    assert queue'[|queue|] == next;
    forall m | m in found' && found'[m] != current && !Waiting(found', queue', m) ensures Settled(nb, found', m) {
      assert forall c :: c in queue ==> c in queue';
      assert Settled(nb, found, m);
    }
  }

  lemma ScanEnd(nb: Adjacency, from: ModulePath, found: Found, queue: seq<seq<ModulePath>>, current: seq<ModulePath>)
    requires current != [] && Scanning(nb, from, found, queue, current, |Targets(nb, Last(current))|)
    ensures Searching(nb, from, found, queue)
    ensures forall m :: m in found && found[m] == current ==> m == Last(current)
  {
    var all := [current] + queue;
    assert all[0] == current && all[1..] == queue;
    forall m | m in found && found[m] == current ensures m == Last(current) {
      assert WalkBetween(nb, found[m], from, m);
    }
    assert Settled(nb, found, Last(current));
  }

  /** Any walk to the goal leaves the settled modules at one still open, whose chain is no
      longer than the walk up to it. */
  lemma FirstOpen(nb: Adjacency, from: ModulePath, goal: ModulePath, found: Found, open: set<ModulePath>,
                  q: seq<ModulePath>) returns (i: nat)
    requires Chains(nb, from, found) && |q| >= 2 && WalkBetween(nb, q, from, goal)
    requires forall m :: m in found && m !in open ==> Settled(nb, found, m) && !Edge(nb, m, goal)
    ensures i < |q| - 1 && q[i] in found && q[i] in open && |found[q[i]]| <= i + 1
  {
    i := 0;
    while q[i] !in open
      invariant 0 <= i < |q| - 1 && q[i] in found && |found[q[i]]| <= i + 1
      decreases |q| - i
    {
      assert Edge(nb, q[i], q[i + 1]);
      i := i + 1;
    }
  }

  /** The first chain that meets the goal is a shortest one. */
  lemma GoalMet(nb: Adjacency, from: ModulePath, goal: ModulePath, found: Found, queue: seq<seq<ModulePath>>,
                current: seq<ModulePath>, k: nat)
    requires current != [] && Scanning(nb, from, found, queue, current, k)
    requires k < |Targets(nb, Last(current))| && Targets(nb, Last(current))[k] == goal
    requires forall m :: m in found && found[m] != current && !Waiting(found, queue, m) ==> !Edge(nb, m, goal)
    ensures ShortestWalk(nb, current + [goal], from, goal)
  {
    var all := [current] + queue;
    assert all[0] == current && Edge(nb, Last(current), goal);
    assert WalkBetween(nb, current, from, Last(current));
    WalkExtend(nb, current, from, Last(current), goal);
    var open := set m | m in found && (found[m] == current || Waiting(found, queue, m));
    forall q | |q| >= 2 && WalkBetween(nb, q, from, goal) ensures |current| + 1 <= |q| {
      var i := FirstOpen(nb, from, goal, found, open, q);
      assert found[q[i]] in all;
      var n :| 0 <= n < |all| && all[n] == found[q[i]];
    }
  }

  lemma NothingOpen(nb: Adjacency, from: ModulePath, goal: ModulePath, found: Found)
    requires Searching(nb, from, found, [])
    requires forall m :: m in found ==> !Edge(nb, m, goal)
    ensures forall q :: |q| >= 2 ==> !WalkBetween(nb, q, from, goal)
  {
    forall q | |q| >= 2 && WalkBetween(nb, q, from, goal) ensures false {
      var i := FirstOpen(nb, from, goal, found, {}, q);
    }
  }

  lemma TargetVertices(nb: Adjacency, m: ModulePath)
    ensures forall t :: t in Targets(nb, m) ==> t in Vertices(nb)
  {
    forall t | t in Targets(nb, m) ensures t in Vertices(nb) {
      EdgeVertices(nb, m, t);
    }
  }

  lemma SearchStart(nb: Adjacency, from: ModulePath)
    ensures Searching(nb, from, map[from := [from]], [[from]])
  {
    var found: Found, queue := map[from := [from]], [[from]];
    assert queue[0] == [from];
    assert WalkBetween(nb, [from], from, from);
  }

  /** The first chain to a module not found before is a shortest one. */
  lemma ChainMet(nb: Adjacency, from: ModulePath, to: ModulePath, found: Found, queue: seq<seq<ModulePath>>,
                 current: seq<ModulePath>, k: nat)
    requires current != [] && Scanning(nb, from, found, queue, current, k)
    requires k < |Targets(nb, Last(current))| && Targets(nb, Last(current))[k] == to && to !in found
    ensures from != to && ShortestWalk(nb, current + [to], from, to) && Reaches(nb, from, to)
  {
    GoalMet(nb, from, to, found, queue, current, k);
  }

  lemma NoChain(nb: Adjacency, from: ModulePath, to: ModulePath, found: Found)
    requires Searching(nb, from, found, []) && to !in found
    ensures !Reaches(nb, from, to)
  {
    forall q | WalkBetween(nb, q, from, to) ensures |q| >= 2 {
    }
    NothingOpen(nb, from, to, found);
  }

  lemma NewlyFound(all: set<ModulePath>, found: Found, m: ModulePath, chain: seq<ModulePath>)
    requires found.Keys <= all && m in all && m !in found
    ensures found[m := chain].Keys <= all && all - found[m := chain].Keys < all - found.Keys
  {
    assert m in all - found.Keys && m !in all - found[m := chain].Keys;
  }

  /** The shortest runtime chain, both ends included; empty exactly when there is none,
      and also when both ends are the same module. */
  method FindRuntimeChain(graph: ProjectGraph, from: ModulePath, to: ModulePath)
    returns (chain: seq<ModulePath>)
    ensures chain == [] <==> from == to || !Reaches(RuntimeNeighbours(graph), from, to)
    ensures chain != [] ==> ShortestWalk(RuntimeNeighbours(graph), chain, from, to)
  {
    var nb := BuildAdjacency(graph, true);
    var found: Found := map[from := [from]];
    var queue := [[from]];
    ghost var all := Vertices(nb) + {from};
    SearchStart(nb, from);
    while queue != []
      invariant found.Keys <= all && Searching(nb, from, found, queue)
      invariant from != to ==> to !in found
      decreases all - found.Keys, |queue|
    {
      ScanStart(nb, from, found, queue);
      var current := queue[0];
      var targets := Targets(nb, Last(current));
      TargetVertices(nb, Last(current));
      queue := queue[1..];
      ghost var unknown, rest := all - found.Keys, queue;
      for k := 0 to |targets|
        invariant found.Keys <= all
        invariant all - found.Keys < unknown || (all - found.Keys == unknown && queue == rest)
        invariant Scanning(nb, from, found, queue, current, k)
        invariant from != to ==> to !in found
      {
        var target := targets[k];
        ScanStep(nb, from, found, queue, current, k);
        if target in found {
          continue;
        }
        var nextChain := current + [target];
        if target == to {
          ChainMet(nb, from, to, found, queue, current, k);
          return nextChain;
        }
        NewlyFound(all, found, target, nextChain);
        found, queue := found[target := nextChain], queue + [nextChain];
      }
      ScanEnd(nb, from, found, queue, current);
    }
    chain := [];
    if from != to {
      NoChain(nb, from, to, found);
    }
  }
}
