/** The module graph the boundary gate works on: paths in their sort order, the
    adjacency map, and walks over it. */
module ModuleGraph {

  /** A project-relative module path, compared the way the gate compares text. */
  datatype ModulePath = ModulePath(text: string)

  datatype ReferenceKind = Import | ReExport | DynamicImport

  datatype ModuleEdge = ModuleEdge(source: ModulePath, target: ModulePath, kind: ReferenceKind)

  datatype ProjectGraph = ProjectGraph(
    modules: seq<ModulePath>, runtimeEdges: seq<ModuleEdge>, typeOnlyEdges: seq<ModuleEdge>)

  type Adjacency = map<ModulePath, seq<ModulePath>>

  // ----- Path order

  predicate TextLess(a: string, b: string) {
    b != [] && (a == [] || a[0] < b[0] || (a[0] == b[0] && TextLess(a[1..], b[1..])))
  }

  predicate Before(a: ModulePath, b: ModulePath) {
    TextLess(a.text, b.text)
  }

  lemma {:induction false} TextLessTotal(a: string, b: string)
    ensures TextLess(a, b) || TextLess(b, a) || a == b
    ensures !(TextLess(a, b) && TextLess(b, a))
    ensures a == b ==> !TextLess(a, b)
  {
    if a != [] && b != [] && a[0] == b[0] {
      TextLessTotal(a[1..], b[1..]);
      assert a == [a[0]] + a[1..] && b == [b[0]] + b[1..];
    }
  }

  lemma {:induction false} TextLessTransitive(a: string, b: string, c: string)
    requires TextLess(a, b) && TextLess(b, c)
    ensures TextLess(a, c)
  {
    if a != [] && a[0] == b[0] == c[0] {
      TextLessTransitive(a[1..], b[1..], c[1..]);
    }
  }

  ghost predicate Distinct<T>(s: seq<T>) {
    forall i, j :: 0 <= i < j < |s| ==> s[i] != s[j]
  }

  /** Ascending: no later path sorts before an earlier one. */
  ghost predicate Ascending(s: seq<ModulePath>) {
    forall i, j :: 0 <= i < j < |s| ==> !Before(s[j], s[i])
  }

  function Insert(m: ModulePath, s: seq<ModulePath>): (r: seq<ModulePath>)
    ensures multiset(r) == multiset{m} + multiset(s)
  {
    if s == [] then [m]
    else if Before(s[0], m) then
      assert s == [s[0]] + s[1..];
      [s[0]] + Insert(m, s[1..])
    else [m] + s
  }

  /** The array sort of the gate: the same paths, ascending. */
  function Sorted(s: seq<ModulePath>): (r: seq<ModulePath>)
    ensures multiset(r) == multiset(s)
  {
    if s == [] then []
    else
      assert s == [s[0]] + s[1..];
      Insert(s[0], Sorted(s[1..]))
  }

  lemma {:induction false} InsertAscending(m: ModulePath, s: seq<ModulePath>)
    requires Ascending(s)
    ensures Ascending(Insert(m, s))
  {
    if s != [] {
      var r := Insert(m, s);
      if Before(s[0], m) {
        InsertAscending(m, s[1..]);
        var t := Insert(m, s[1..]);
        forall j | 0 <= j < |t| ensures !Before(t[j], s[0]) {
          assert t[j] in multiset(t);
          if t[j] == m {
            TextLessTotal(s[0].text, m.text);
          } else {
            assert t[j] in s[1..];
          }
        }
      } else {
        TextLessTotal(s[0].text, m.text);
        forall j | 0 <= j < |s| && Before(s[j], m) ensures false {
          TextLessTotal(s[j].text, m.text);
          if s[0] != m {
            TextLessTransitive(s[j].text, m.text, s[0].text);
          }
        }
      }
    }
  }

  lemma {:induction false} SortedAscending(s: seq<ModulePath>)
    ensures Ascending(Sorted(s))
  {
    if s != [] {
      SortedAscending(s[1..]);
      InsertAscending(s[0], Sorted(s[1..]));
    }
  }

  lemma SameMultiset<T>(s: seq<T>, t: seq<T>)
    requires multiset(s) == multiset(t)
    ensures |s| == |t|
    ensures forall x :: x in s <==> x in t
  {
    assert |s| == |multiset(s)| && |t| == |multiset(t)|;
    forall x ensures x in s <==> x in t {
      assert x in s <==> x in multiset(s);
    }
  }

  lemma {:induction false} DistinctMultiset<T>(s: seq<T>)
    ensures Distinct(s) <==> forall x :: multiset(s)[x] <= 1
  {
    if s != [] {
      var rest := s[1..];
      assert s == [s[0]] + rest;
      assert multiset(s) == multiset{s[0]} + multiset(rest);
      DistinctMultiset(rest);
      if Distinct(s) {
        assert s[0] !in rest;
      }
      if forall x :: multiset(s)[x] <= 1 {
        assert multiset(s)[s[0]] <= 1;
        assert s[0] !in multiset(rest);
        assert s[0] !in rest;
        forall x ensures multiset(rest)[x] <= 1 {
          assert multiset(s)[x] <= 1;
        }
        forall i, j | 0 <= i < j < |s| ensures s[i] != s[j] {
          assert s[j] == rest[j - 1];
          if i > 0 { assert s[i] == rest[i - 1]; }
        }
      }
    }
  }

  /** Everything the callers need of one sort. */
  lemma SortedFacts(s: seq<ModulePath>)
    ensures Ascending(Sorted(s)) && |Sorted(s)| == |s|
    ensures forall m :: m in Sorted(s) <==> m in s
    ensures Distinct(s) ==> Distinct(Sorted(s))
  {
    SortedAscending(s);
    SameMultiset(s, Sorted(s));
    DistinctMultiset(s);
    DistinctMultiset(Sorted(s));
  }

  // ----- Adjacency

  function Targets(nb: Adjacency, m: ModulePath): seq<ModulePath> {
    if m in nb then nb[m] else []
  }

  ghost predicate Edge(nb: Adjacency, a: ModulePath, b: ModulePath) {
    b in Targets(nb, a)
  }

  ghost predicate Listed(edges: seq<ModuleEdge>, a: ModulePath, b: ModulePath) {
    exists e :: e in edges && e.source == a && e.target == b
  }

  /** The distinct targets of `m`, in the order its edges name them. */
  function TargetsOf(edges: seq<ModuleEdge>, m: ModulePath): seq<ModulePath> {
    if edges == [] then []
    else
      var init := TargetsOf(edges[..|edges| - 1], m);
      var last := edges[|edges| - 1];
      if last.source == m && last.target !in init then init + [last.target] else init
  }

  lemma {:induction false} TargetsOfMembers(edges: seq<ModuleEdge>, m: ModulePath)
    ensures Distinct(TargetsOf(edges, m))
    ensures forall t :: t in TargetsOf(edges, m) <==> Listed(edges, m, t)
  {
    if edges != [] {
      var init, last := edges[..|edges| - 1], edges[|edges| - 1];
      TargetsOfMembers(init, m);
      assert edges == init + [last];
      forall t ensures t in TargetsOf(edges, m) <==> Listed(edges, m, t) {
        if last.source == m && last.target == t {
          assert last in edges;
        } else if Listed(init, m, t) {
          var e :| e in init && e.source == m && e.target == t;
          assert e in edges;
        }
      }
    }
  }

  /** One entry a module; `Edge` over it is exactly the listed edges that leave a module. */
  function AdjacencyMap(modules: seq<ModulePath>, edges: seq<ModuleEdge>): Adjacency {
    map m | m in modules :: Sorted(TargetsOf(edges, m))
  }

  lemma AdjacencyFacts(modules: seq<ModulePath>, edges: seq<ModuleEdge>)
    ensures var nb := AdjacencyMap(modules, edges);
            && (forall m :: m in nb <==> m in modules)
            && (forall m :: m in nb ==> Distinct(nb[m]) && Ascending(nb[m]))
            && (forall a, b :: Edge(nb, a, b) <==> a in modules && Listed(edges, a, b))
  {
    var nb := AdjacencyMap(modules, edges);
    forall m | m in nb
      ensures Distinct(nb[m]) && Ascending(nb[m])
      ensures forall t :: t in nb[m] <==> Listed(edges, m, t)
    {
      TargetsOfMembers(edges, m);
      SortedFacts(TargetsOf(edges, m));
    }
  }

  method CollectTargets(modules: seq<ModulePath>, edges: seq<ModuleEdge>) returns (nb: Adjacency)
    ensures nb == map m | m in modules :: TargetsOf(edges, m)
  {
    nb := map[];
    for i := 0 to |modules|
      invariant forall m :: m in nb <==> m in modules[..i]
      invariant forall m :: m in nb ==> nb[m] == []
    {
      nb := nb[modules[i] := []];
    }
    assert modules[..|modules|] == modules;
    for i := 0 to |edges|
      invariant forall m :: m in nb <==> m in modules
      invariant forall m :: m in nb ==> nb[m] == TargetsOf(edges[..i], m)
    {
      var edge := edges[i];
      var done := edges[..i + 1];
      assert done[..i] == edges[..i] && done[i] == edge;
      if edge.source in nb && edge.target !in nb[edge.source] {
        nb := nb[edge.source := nb[edge.source] + [edge.target]];
      }
    }
    assert edges[..|edges|] == edges;
  }

  method BuildAdjacency(graph: ProjectGraph, runtime: bool) returns (nb: Adjacency)
    ensures nb == AdjacencyMap(graph.modules, if runtime then graph.runtimeEdges else graph.typeOnlyEdges)
  {
    var edges := if runtime then graph.runtimeEdges else graph.typeOnlyEdges;
    var unsorted := CollectTargets(graph.modules, edges);
    nb := SortTargets(unsorted);
    assert nb == AdjacencyMap(graph.modules, edges);
  }

  method SortTargets(unsorted: Adjacency) returns (nb: Adjacency)
    ensures nb.Keys == unsorted.Keys && forall m :: m in nb ==> nb[m] == Sorted(unsorted[m])
  {
    nb := unsorted;
    var keys := nb.Keys;
    while keys != {}
      invariant keys <= nb.Keys == unsorted.Keys
      invariant forall m :: m in nb ==> nb[m] == if m in keys then unsorted[m] else Sorted(unsorted[m])
      decreases keys
    {
      var m :| m in keys;
      nb := nb[m := Sorted(nb[m])];
      keys := keys - {m};
    }
  }

  function RuntimeNeighbours(graph: ProjectGraph): Adjacency {
    AdjacencyMap(graph.modules, graph.runtimeEdges)
  }

  // ----- Walks

  ghost predicate IsWalk(nb: Adjacency, p: seq<ModulePath>) {
    |p| > 0 && forall i :: 0 <= i < |p| - 1 ==> Edge(nb, p[i], p[i + 1])
  }

  ghost predicate WalkBetween(nb: Adjacency, p: seq<ModulePath>, a: ModulePath, b: ModulePath) {
    IsWalk(nb, p) && p[0] == a && p[|p| - 1] == b
  }

  ghost predicate Reaches(nb: Adjacency, a: ModulePath, b: ModulePath) {
    exists p :: WalkBetween(nb, p, a, b)
  }

  lemma ReachesSelf(nb: Adjacency, a: ModulePath)
    ensures Reaches(nb, a, a)
  {
    assert WalkBetween(nb, [a], a, a);
  }

  lemma WalkExtend(nb: Adjacency, p: seq<ModulePath>, a: ModulePath, b: ModulePath, c: ModulePath)
    requires WalkBetween(nb, p, a, b) && Edge(nb, b, c)
    ensures WalkBetween(nb, p + [c], a, c)
  {
  }

  lemma WalkJoin(nb: Adjacency, p: seq<ModulePath>, q: seq<ModulePath>, a: ModulePath, b: ModulePath, c: ModulePath)
    requires WalkBetween(nb, p, a, b) && WalkBetween(nb, q, b, c)
    ensures WalkBetween(nb, p + q[1..], a, c)
  {
    var r := p + q[1..];
    forall i | 0 <= i < |r| - 1 ensures Edge(nb, r[i], r[i + 1]) {
      if i < |p| - 1 {
        assert Edge(nb, p[i], p[i + 1]);
      } else {
        assert Edge(nb, q[i - |p| + 1], q[i - |p| + 2]);
      }
    }
  }

  lemma WalkSlice(nb: Adjacency, p: seq<ModulePath>, i: nat, j: nat)
    requires IsWalk(nb, p) && i <= j < |p|
    ensures WalkBetween(nb, p[i..j + 1], p[i], p[j])
    ensures Reaches(nb, p[i], p[j])
  {
    var q := p[i..j + 1];
    forall k | 0 <= k < |q| - 1 ensures Edge(nb, q[k], q[k + 1]) {
      assert Edge(nb, p[i + k], p[i + k + 1]);
    }
    assert WalkBetween(nb, q, p[i], p[j]);
  }

  lemma ReachesEdge(nb: Adjacency, a: ModulePath, b: ModulePath)
    requires Edge(nb, a, b)
    ensures Reaches(nb, a, b)
  {
    assert WalkBetween(nb, [a, b], a, b);
  }

  lemma ReachesTransitive(nb: Adjacency, a: ModulePath, b: ModulePath, c: ModulePath)
    requires Reaches(nb, a, b) && Reaches(nb, b, c)
    ensures Reaches(nb, a, c)
  {
    var p :| WalkBetween(nb, p, a, b);
    var q :| WalkBetween(nb, q, b, c);
    WalkJoin(nb, p, q, a, b, c);
  }

  /** A set holding `a` and closed under edges holds everything `a` reaches. */
  lemma {:induction false} ClosedUnderReach(nb: Adjacency, s: set<ModulePath>, a: ModulePath, b: ModulePath)
    requires a in s && Reaches(nb, a, b)
    requires forall v, w :: v in s && Edge(nb, v, w) ==> w in s
    ensures b in s
  {
    var p :| WalkBetween(nb, p, a, b);
    var i := 0;
    while i < |p| - 1
      invariant 0 <= i < |p| && p[i] in s
    {
      assert Edge(nb, p[i], p[i + 1]);
      i := i + 1;
    }
  }

  /** Every path the gate can meet: the modules and whatever they import. */
  ghost function Vertices(nb: Adjacency): set<ModulePath> {
    nb.Keys + set m, t | m in nb && t in nb[m] :: t
  }

  lemma EdgeVertices(nb: Adjacency, a: ModulePath, b: ModulePath)
    requires Edge(nb, a, b)
    ensures a in Vertices(nb) && b in Vertices(nb)
  {
  }
}
