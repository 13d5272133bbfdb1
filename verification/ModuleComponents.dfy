/** Strongly connected components of the runtime graph, found in one depth-first pass. */
module ModuleComponents {
  import opened ModuleGraph

  type Index = map<ModulePath, nat>

  ghost predicate Mutual(nb: Adjacency, a: ModulePath, b: ModulePath) {
    Reaches(nb, a, b) && Reaches(nb, b, a)
  }

  /** All of one class of mutually reachable modules, listed once each. */
  ghost predicate IsComponent(nb: Adjacency, c: seq<ModulePath>) {
    c != [] && Distinct(c) && forall a, b {:trigger Mutual(nb, a, b)} :: a in c ==> (b in c <==> Mutual(nb, a, b))
  }

  ghost predicate InSome(components: seq<seq<ModulePath>>, m: ModulePath) {
    exists c :: c in components && m in c
  }

  // ----- What the pass keeps

  /** The stack holds its modules in the order they were indexed. */
  ghost predicate StackOrdered(idx: Index, stack: seq<ModulePath>) {
    && (forall m :: m in stack ==> m in idx)
    && (forall i, j :: 0 <= i < j < |stack| ==> idx[stack[i]] < idx[stack[j]])
  }

  /** An indexed module is on the stack or in a finished component, never both. */
  ghost predicate Placed(idx: Index, stack: seq<ModulePath>, components: seq<seq<ModulePath>>) {
    && (forall m {:trigger InSome(components, m)} {:trigger m in idx} ::
        m in idx <==> m in stack || InSome(components, m))
    && (forall m {:trigger InSome(components, m)} :: !(m in stack && InSome(components, m)))
  }

  /** A module whose call has returned has every target indexed. */
  ghost predicate Explored(nb: Adjacency, idx: Index, open: set<ModulePath>) {
    forall m, t :: m in idx && m !in open && Edge(nb, m, t) ==> t in idx
  }

  /** Lower stack entries reach higher ones. */
  ghost predicate Climbs(nb: Adjacency, stack: seq<ModulePath>) {
    forall i, j {:trigger Reaches(nb, stack[i], stack[j])} :: 0 <= i <= j < |stack| ==> Reaches(nb, stack[i], stack[j])
  }

  /** `g` is a module whose call is still open, at or below `m`, that `m` reaches. */
  ghost predicate SinksTo(nb: Adjacency, idx: Index, open: set<ModulePath>, m: ModulePath, g: ModulePath) {
    g in open && g in idx && m in idx && idx[g] <= idx[m] && Reaches(nb, m, g)
  }

  ghost predicate HasSink(nb: Adjacency, idx: Index, open: set<ModulePath>, m: ModulePath) {
    exists g :: SinksTo(nb, idx, open, m, g)
  }

  ghost predicate Sinks(nb: Adjacency, idx: Index, stack: seq<ModulePath>, open: set<ModulePath>) {
    forall m {:trigger HasSink(nb, idx, open, m)} :: m in stack ==> HasSink(nb, idx, open, m)
  }

  ghost predicate Finished(nb: Adjacency, components: seq<seq<ModulePath>>) {
    && (forall c :: c in components ==> IsComponent(nb, c) && Ascending(c))
    && (forall i, j, m :: 0 <= i < j < |components| && m in components[i] ==> m !in components[j])
  }

  /** The whole invariant, for the set of modules whose calls are still open. */
  ghost predicate Consistent(nb: Adjacency, idx: Index, stack: seq<ModulePath>,
                             components: seq<seq<ModulePath>>, open: set<ModulePath>)
  {
    && StackOrdered(idx, stack) && Placed(idx, stack, components)
    && (forall m :: m in open ==> m in stack)
    && Explored(nb, idx, open) && Climbs(nb, stack) && Sinks(nb, idx, stack, open)
    && Finished(nb, components)
    && forall m {:trigger m in idx} :: m in idx ==> m in Vertices(nb)
  }

  /** An edge from a stack entry at or above `k` to one below is known to the low link. */
  ghost predicate LowBounds(nb: Adjacency, idx: Index, stack: seq<ModulePath>, k: nat, low: nat) {
    forall i, j :: 0 <= j < k <= i < |stack| && stack[i] in idx && stack[j] in idx && Edge(nb, stack[i], stack[j])
      ==> low <= idx[stack[j]]
  }

  /** The low link is the index of a stack entry that `m` reaches. */
  ghost predicate LowReached(nb: Adjacency, idx: Index, stack: seq<ModulePath>, m: ModulePath, low: nat) {
    exists y :: y in stack && y in idx && idx[y] == low && Reaches(nb, m, y)
  }

  // ----- The steps

  lemma StackDistinct(idx: Index, stack: seq<ModulePath>)
    requires StackOrdered(idx, stack)
    ensures Distinct(stack)
  {
  }

  /** `stack[k]` is the last call still open, so everything above it reaches it and is reached by it. */
  lemma TopMutual(nb: Adjacency, idx: Index, stack: seq<ModulePath>, components: seq<seq<ModulePath>>,
                  open: set<ModulePath>, k: nat, i: nat)
    requires Consistent(nb, idx, stack, components, open)
    requires k <= i < |stack|
    requires forall g :: g in open ==> g in idx && idx[g] <= idx[stack[k]]
    ensures Mutual(nb, stack[k], stack[i])
  {
    assert stack[i] in stack;
    assert HasSink(nb, idx, open, stack[i]);
    var g :| SinksTo(nb, idx, open, stack[i], g);
    var n :| 0 <= n < |stack| && stack[n] == g;
    assert n <= k;
    assert Reaches(nb, stack[n], stack[k]);
    ReachesTransitive(nb, stack[i], g, stack[k]);
  }

  /** A finished component holds every module mutual with one of its own, so none is on the stack. */
  lemma FinishedApart(nb: Adjacency, idx: Index, stack: seq<ModulePath>, components: seq<seq<ModulePath>>,
                      m: ModulePath, w: ModulePath)
    requires Placed(idx, stack, components) && Finished(nb, components)
    requires m in stack && Mutual(nb, w, m)
    ensures !InSome(components, w)
  {
    assert InSome(components, m) <==> exists c :: c in components && m in c;
  }

  /** One edge of a walk that stays mutual with the root stays on the stack, root or above. */
  lemma RootStep(nb: Adjacency, idx: Index, stack: seq<ModulePath>, components: seq<seq<ModulePath>>,
                 k: nat, at: nat, w: ModulePath) returns (next: nat)
    requires StackOrdered(idx, stack) && Placed(idx, stack, components) && Finished(nb, components)
    requires k <= at < |stack| && Edge(nb, stack[at], w) && w in idx
    requires LowBounds(nb, idx, stack, k, idx[stack[k]])
    requires Mutual(nb, w, stack[k])
    ensures k <= next < |stack| && stack[next] == w
  {
    FinishedApart(nb, idx, stack, components, stack[k], w);
    next :| 0 <= next < |stack| && stack[next] == w;
  }

  /** `stack[k]` has no open call above it, and every edge above it leads to an indexed module. */
  ghost predicate Root(nb: Adjacency, idx: Index, stack: seq<ModulePath>, open: set<ModulePath>, k: nat) {
    && k < |stack| && stack[k] in idx
    && (forall g :: g in open ==> g in idx && idx[g] <= idx[stack[k]])
    && (forall i, t :: k <= i < |stack| && Edge(nb, stack[i], t) ==> t in idx)
    && LowBounds(nb, idx, stack, k, idx[stack[k]])
  }

  /** A module mutual with the root is on the stack from the root up: a walk to it never drops
      below the root, and never enters a finished component. */
  lemma RootClosed(nb: Adjacency, idx: Index, stack: seq<ModulePath>, components: seq<seq<ModulePath>>,
                   open: set<ModulePath>, k: nat, b: ModulePath)
    requires StackOrdered(idx, stack) && Placed(idx, stack, components) && Finished(nb, components)
    requires Root(nb, idx, stack, open, k)
    requires Mutual(nb, stack[k], b)
    ensures b in stack[k..]
  {
    var root := stack[k];
    var p :| WalkBetween(nb, p, root, b);
    var n := 0;
    var at := k;
    while n < |p| - 1
      invariant 0 <= n < |p| && k <= at < |stack| && p[n] == stack[at]
    {
      var w := p[n + 1];
      assert Edge(nb, p[n], w);
      WalkSlice(nb, p, n + 1, |p| - 1);
      ReachesTransitive(nb, w, b, root);
      WalkSlice(nb, p, 0, n + 1);
      at := RootStep(nb, idx, stack, components, k, at, w);
      n := n + 1;
    }
    assert stack[k..][at - k] == b;
  }

  lemma MutualTransitive(nb: Adjacency, a: ModulePath, b: ModulePath, c: ModulePath)
    requires Mutual(nb, a, b) && Mutual(nb, b, c)
    ensures Mutual(nb, a, c) && Mutual(nb, b, a)
  {
    ReachesTransitive(nb, a, b, c);
    ReachesTransitive(nb, c, b, a);
  }

  /** A class listed once each around one of its members is a component. */
  lemma ClassComponent(nb: Adjacency, c: seq<ModulePath>, root: ModulePath)
    requires root in c && Distinct(c)
    requires forall b :: b in c <==> Mutual(nb, root, b)
    ensures IsComponent(nb, c)
  {
    forall a, b | a in c ensures b in c <==> Mutual(nb, a, b) {
      if b in c {
        MutualTransitive(nb, root, a, root);
        MutualTransitive(nb, a, root, b);
      }
      if Mutual(nb, a, b) {
        MutualTransitive(nb, root, a, b);
      }
    }
  }

  lemma RootClass(nb: Adjacency, idx: Index, stack: seq<ModulePath>, components: seq<seq<ModulePath>>,
                  open: set<ModulePath>, k: nat, b: ModulePath)
    requires Consistent(nb, idx, stack, components, open) && Root(nb, idx, stack, open, k)
    ensures b in stack[k..] <==> Mutual(nb, stack[k], b)
  {
    if b in stack[k..] {
      var i :| 0 <= i < |stack[k..]| && stack[k..][i] == b;
      TopMutual(nb, idx, stack, components, open, k, k + i);
    } else if Mutual(nb, stack[k], b) {
      RootClosed(nb, idx, stack, components, open, k, b);
    }
  }

  /** When the low link of `stack[k]` is its own index, the stack from `k` up is one component. */
  lemma RootComponent(nb: Adjacency, idx: Index, stack: seq<ModulePath>, components: seq<seq<ModulePath>>,
                      open: set<ModulePath>, k: nat)
    requires Consistent(nb, idx, stack, components, open) && Root(nb, idx, stack, open, k)
    ensures IsComponent(nb, stack[k..])
  {
    var c := stack[k..];
    assert c[0] == stack[k];
    assert Distinct(c) by { StackDistinct(idx, stack); }
    forall b ensures b in c <==> Mutual(nb, stack[k], b) {
      RootClass(nb, idx, stack, components, open, k, b);
    }
    ClassComponent(nb, c, stack[k]);
  }

  lemma ReachesFromStack(nb: Adjacency, idx: Index, stack: seq<ModulePath>, open: set<ModulePath>, m: ModulePath,
                         i: nat)
    requires Sinks(nb, idx, stack, open) && i < |stack|
    requires forall g :: g in open ==> Reaches(nb, g, m)
    ensures Reaches(nb, stack[i], m)
  {
    assert stack[i] in stack;
    assert HasSink(nb, idx, open, stack[i]);
    var g :| SinksTo(nb, idx, open, stack[i], g);
    ReachesTransitive(nb, stack[i], g, m);
  }

  /** Opening a call: the module joins the stack above everything, which all reaches it. */
  lemma PushConsistent(nb: Adjacency, idx: Index, stack: seq<ModulePath>, components: seq<seq<ModulePath>>,
                       open: set<ModulePath>, m: ModulePath, number: nat)
    requires Consistent(nb, idx, stack, components, open)
    requires m !in idx && m in Vertices(nb) && forall x :: x in idx ==> idx[x] < number
    requires forall g :: g in open ==> Reaches(nb, g, m)
    ensures Consistent(nb, idx[m := number], stack + [m], components, open + {m})
  {
    var idx', stack', open' := idx[m := number], stack + [m], open + {m};
    ReachesSelf(nb, m);
    forall i, j | 0 <= i <= j < |stack'| ensures Reaches(nb, stack'[i], stack'[j]) {
      if i < j == |stack| {
        ReachesFromStack(nb, idx, stack, open, m, i);
      }
    }
    forall x | x in stack' ensures HasSink(nb, idx', open', x) {
      if x == m {
        assert SinksTo(nb, idx', open', m, m);
      } else {
        assert HasSink(nb, idx, open, x);
        var g :| SinksTo(nb, idx, open, x, g);
        assert SinksTo(nb, idx', open', x, g);
      }
    }
    assert Placed(idx', stack', components);
  }

  /** What sank to a closing module sinks to whatever its low link's entry sinks to. */
  lemma CloseSinks(nb: Adjacency, idx: Index, stack: seq<ModulePath>, open: set<ModulePath>,
                   m: ModulePath, low: nat)
    requires Sinks(nb, idx, stack, open + {m}) && m in idx
    requires LowReached(nb, idx, stack, m, low) && low < idx[m]
    ensures Sinks(nb, idx, stack, open)
  {
    var y :| y in stack && y in idx && idx[y] == low && Reaches(nb, m, y);
    assert HasSink(nb, idx, open + {m}, y);
    var h :| SinksTo(nb, idx, open + {m}, y, h);
    ReachesTransitive(nb, m, y, h);
    forall x | x in stack ensures HasSink(nb, idx, open, x) {
      assert HasSink(nb, idx, open + {m}, x);
      var g :| SinksTo(nb, idx, open + {m}, x, g);
      if g == m {
        ReachesTransitive(nb, x, m, h);
        assert SinksTo(nb, idx, open, x, h);
      } else {
        assert SinksTo(nb, idx, open, x, g);
      }
    }
  }

  lemma CloseExplored(nb: Adjacency, idx: Index, open: set<ModulePath>, m: ModulePath)
    requires Explored(nb, idx, open + {m})
    requires forall t :: Edge(nb, m, t) ==> t in idx
    ensures Explored(nb, idx, open)
  {
  }

  /** Closing a call whose low link names an older stack entry. */
  lemma CloseConsistent(nb: Adjacency, idx: Index, stack: seq<ModulePath>, components: seq<seq<ModulePath>>,
                        open: set<ModulePath>, m: ModulePath, low: nat)
    requires Consistent(nb, idx, stack, components, open + {m}) && m in idx
    requires LowReached(nb, idx, stack, m, low) && low < idx[m]
    requires forall t :: Edge(nb, m, t) ==> t in idx
    ensures Consistent(nb, idx, stack, components, open)
  {
    CloseSinks(nb, idx, stack, open, m, low);
    CloseExplored(nb, idx, open, m);
  }

  lemma SameComponent(nb: Adjacency, c: seq<ModulePath>, d: seq<ModulePath>)
    requires IsComponent(nb, c) && multiset(d) == multiset(c)
    ensures IsComponent(nb, d)
  {
    SameMultiset(c, d);
    DistinctMultiset(c);
    DistinctMultiset(d);
  }

  lemma PopPlaced(idx: Index, stack: seq<ModulePath>, components: seq<seq<ModulePath>>, k: nat, c: seq<ModulePath>)
    requires k < |stack| && Distinct(stack) && Placed(idx, stack, components)
    requires forall x :: x in c <==> x in stack[k..]
    ensures Placed(idx, stack[..k], components + [c])
  {
    assert stack == stack[..k] + stack[k..];
    forall x ensures InSome(components + [c], x) <==> InSome(components, x) || x in c {
      InSomeAppend(components, c, x);
    }
    forall x | x in stack[..k] ensures x !in stack[k..] {
    }
  }

  lemma PopSinks(nb: Adjacency, idx: Index, stack: seq<ModulePath>, open: set<ModulePath>, k: nat)
    requires k < |stack| && StackOrdered(idx, stack) && Sinks(nb, idx, stack, open + {stack[k]})
    ensures Sinks(nb, idx, stack[..k], open)
  {
    forall x | x in stack[..k] ensures HasSink(nb, idx, open, x) {
      var i :| 0 <= i < k && stack[i] == x;
      assert stack[i] in stack;
      assert HasSink(nb, idx, open + {stack[k]}, x);
      var g :| SinksTo(nb, idx, open + {stack[k]}, x, g);
      assert SinksTo(nb, idx, open, x, g);
    }
  }

  lemma PopFinished(nb: Adjacency, idx: Index, stack: seq<ModulePath>, components: seq<seq<ModulePath>>,
                    c: seq<ModulePath>)
    requires Finished(nb, components) && Placed(idx, stack, components)
    requires IsComponent(nb, c) && Ascending(c) && forall x :: x in c ==> x in stack
    ensures Finished(nb, components + [c])
  {
    forall i, x | 0 <= i < |components| && x in components[i] ensures x !in c {
      assert InSome(components, x);
    }
  }

  /** Closing a call whose low link is its own index: the stack from it up leaves as a component. */
  lemma PopConsistent(nb: Adjacency, idx: Index, stack: seq<ModulePath>, components: seq<seq<ModulePath>>,
                      open: set<ModulePath>, k: nat, c: seq<ModulePath>)
    requires k < |stack| && forall g :: g in open ==> g in stack[..k]
    requires Consistent(nb, idx, stack, components, open + {stack[k]})
    requires Root(nb, idx, stack, open + {stack[k]}, k)
    requires multiset(c) == multiset(stack[k..]) && Ascending(c)
    ensures Consistent(nb, idx, stack[..k], components + [c], open)
  {
    RootComponent(nb, idx, stack, components, open + {stack[k]}, k);
    SameComponent(nb, stack[k..], c);
    SameMultiset(stack[k..], c);
    StackDistinct(idx, stack);
    PopPlaced(idx, stack, components, k, c);
    PopSinks(nb, idx, stack, open, k);
    PopFinished(nb, idx, stack, components, c);
    CloseExplored(nb, idx, open, stack[k]);
  }

  lemma InSomeAppend(components: seq<seq<ModulePath>>, c: seq<ModulePath>, x: ModulePath)
    ensures InSome(components + [c], x) <==> InSome(components, x) || x in c
  {
    if InSome(components, x) {
      var d :| d in components && x in d;
      assert d in components + [c];
    }
    assert (components + [c])[|components|] == c;
  }

  // ----- The scan of one module's targets

  /** The call for `m == stack[k]` with its first `n` targets scanned and low link `low`. */
  ghost predicate Scanned(nb: Adjacency, idx: Index, stack: seq<ModulePath>, k: nat, m: ModulePath, low: nat, n: nat) {
    && k < |stack| && stack[k] == m && m in idx && low <= idx[m]
    && LowReached(nb, idx, stack, m, low)
    && LowBounds(nb, idx, stack[..k] + stack[k + 1..], k, low)
    && n <= |Targets(nb, m)|
    && (forall j :: 0 <= j < n ==> Targets(nb, m)[j] in idx)
    && (forall j :: 0 <= j < n && Targets(nb, m)[j] in stack[..k] && Targets(nb, m)[j] in idx ==>
        low <= idx[Targets(nb, m)[j]])
  }

  lemma ScanKnown(nb: Adjacency, idx: Index, stack: seq<ModulePath>, k: nat, m: ModulePath, low: nat, n: nat)
    requires Scanned(nb, idx, stack, k, m, low, n) && n < |Targets(nb, m)| && Targets(nb, m)[n] in idx
    ensures var t := Targets(nb, m)[n];
            Scanned(nb, idx, stack, k, m, if t in stack then Min(low, idx[t]) else low, n + 1)
  {
    var t := Targets(nb, m)[n];
    assert Edge(nb, m, t);
    ReachesEdge(nb, m, t);
    if t !in stack {
      assert forall x :: x in stack[..k] ==> x in stack;
    }
  }

  lemma ScanReturned(nb: Adjacency, idx: Index, stack: seq<ModulePath>, k: nat, m: ModulePath, low: nat, n: nat,
                     idx': Index, stack': seq<ModulePath>, lowT: nat)
    requires Scanned(nb, idx, stack, k, m, low, n) && n < |Targets(nb, m)| && Targets(nb, m)[n] !in idx
    requires StackOrdered(idx, stack) && stack <= stack'
    requires forall x :: x in idx ==> x in idx' && idx'[x] == idx[x]
    requires Targets(nb, m)[n] in idx' && idx[m] < idx'[Targets(nb, m)[n]]
    requires LowBounds(nb, idx', stack', |stack|, lowT)
    requires Targets(nb, m)[n] in stack' ==> LowReached(nb, idx', stack', Targets(nb, m)[n], lowT)
    requires Targets(nb, m)[n] !in stack' ==> lowT == idx'[Targets(nb, m)[n]]
    ensures Scanned(nb, idx', stack', k, m, Min(low, lowT), n + 1)
  {
    var t := Targets(nb, m)[n];
    var low' := Min(low, lowT);
    assert Edge(nb, m, t);
    ReachesEdge(nb, m, t);
    if t in stack' && low' == lowT {
      var y :| y in stack' && y in idx' && idx'[y] == lowT && Reaches(nb, t, y);
      ReachesTransitive(nb, m, t, y);
    } else {
      var y :| y in stack && y in idx && idx[y] == low && Reaches(nb, m, y);
      assert y in stack';
    }
    assert LowReached(nb, idx', stack', m, low');
    ScanBounds(nb, idx, stack, k, low, idx', stack', lowT);
    assert stack[..k] == stack'[..k];
    assert t !in stack[..k];
  }

  lemma ScanBounds(nb: Adjacency, idx: Index, stack: seq<ModulePath>, k: nat, low: nat,
                   idx': Index, stack': seq<ModulePath>, lowT: nat)
    requires k < |stack| && StackOrdered(idx, stack) && stack <= stack'
    requires forall x :: x in idx ==> x in idx' && idx'[x] == idx[x]
    requires LowBounds(nb, idx, stack[..k] + stack[k + 1..], k, low)
    requires LowBounds(nb, idx', stack', |stack|, lowT)
    ensures LowBounds(nb, idx', stack'[..k] + stack'[k + 1..], k, Min(low, lowT))
  {
    var s, s' := stack[..k] + stack[k + 1..], stack'[..k] + stack'[k + 1..];
    forall i, j | 0 <= j < k <= i < |s'| && s'[i] in idx' && s'[j] in idx' && Edge(nb, s'[i], s'[j])
      ensures Min(low, lowT) <= idx'[s'[j]]
    {
      assert s'[j] == stack'[j] == s[j] && s'[i] == stack'[i + 1];
      if i + 1 < |stack| {
        assert s[i] == s'[i];
        assert stack[i + 1] in stack && stack[j] in stack;
      } else {
        assert Edge(nb, stack'[i + 1], stack'[j]);
      }
    }
  }

  lemma ScanStarted(nb: Adjacency, idx: Index, stack: seq<ModulePath>, m: ModulePath)
    requires m in idx
    ensures Scanned(nb, idx, stack + [m], |stack|, m, idx[m], 0)
  {
    ReachesSelf(nb, m);
    assert m in stack + [m];
  }

  /** What a call for target `n` asks: every open call reaches it, through `m`. */
  lemma CallReady(nb: Adjacency, open: set<ModulePath>, m: ModulePath, n: nat)
    requires n < |Targets(nb, m)| && forall g :: g in open ==> Reaches(nb, g, m)
    ensures Targets(nb, m)[n] in Vertices(nb)
    ensures forall g :: g in open + {m} ==> Reaches(nb, g, Targets(nb, m)[n])
  {
    var t := Targets(nb, m)[n];
    assert Edge(nb, m, t);
    EdgeVertices(nb, m, t);
    ReachesEdge(nb, m, t);
    forall g | g in open ensures Reaches(nb, g, t) {
      ReachesTransitive(nb, g, m, t);
    }
  }

  /** A finished scan: all targets indexed, and every edge from `m` up to an older entry bounded. */
  lemma ScanDone(nb: Adjacency, idx: Index, stack: seq<ModulePath>, k: nat, m: ModulePath, low: nat)
    requires Scanned(nb, idx, stack, k, m, low, |Targets(nb, m)|)
    ensures LowBounds(nb, idx, stack, k, low)
    ensures forall t :: Edge(nb, m, t) ==> t in idx
  {
    var s := stack[..k] + stack[k + 1..];
    forall i, j | 0 <= j < k <= i < |stack| && stack[i] in idx && stack[j] in idx && Edge(nb, stack[i], stack[j])
      ensures low <= idx[stack[j]]
    {
      assert s[j] == stack[j];
      if i > k {
        assert s[i - 1] == stack[i];
      } else {
        assert stack[j] in stack[..k];
        var n :| 0 <= n < |Targets(nb, m)| && Targets(nb, m)[n] == stack[j];
      }
    }
  }

  function Min(a: nat, b: nat): nat {
    if a <= b then a else b
  }

  lemma RootFacts(nb: Adjacency, idx: Index, stack: seq<ModulePath>, open: set<ModulePath>, k: nat)
    requires k < |stack| && StackOrdered(idx, stack) && Explored(nb, idx, open + {stack[k]})
    requires forall g :: g in open ==> g in stack[..k]
    requires forall t :: Edge(nb, stack[k], t) ==> t in idx
    requires LowBounds(nb, idx, stack, k, idx[stack[k]])
    ensures Root(nb, idx, stack, open + {stack[k]}, k)
  {
    forall g | g in open ensures g in idx && idx[g] < idx[stack[k]] {
      var i :| 0 <= i < k && stack[i] == g;
    }
    forall i, t | k <= i < |stack| && Edge(nb, stack[i], t) ensures t in idx {
      assert stack[i] in stack;
    }
  }

  // ----- The invariant, folded

  /** The parts of the invariant, one for each of its conjuncts. */
  datatype Part = Order | Place | OpenStacked | Exploration | Climb | Sinking | Finish | Range

  ghost predicate PartHolds(part: Part, nb: Adjacency, idx: Index, stack: seq<ModulePath>,
                            components: seq<seq<ModulePath>>, open: set<ModulePath>)
  {
    match part
    case Order => StackOrdered(idx, stack)
    case Place => Placed(idx, stack, components)
    case OpenStacked => forall m :: m in open ==> m in stack
    case Exploration => Explored(nb, idx, open)
    case Climb => Climbs(nb, stack)
    case Sinking => Sinks(nb, idx, stack, open)
    case Finish => Finished(nb, components)
    case Range => idx.Keys <= Vertices(nb)
  }

  /** Every part of the invariant holds. The pass hands this on as a whole; the lemmas take it apart. */
  ghost predicate Kept(nb: Adjacency, idx: Index, stack: seq<ModulePath>, components: seq<seq<ModulePath>>,
                       open: set<ModulePath>) {
    forall part {:trigger PartHolds(part, nb, idx, stack, components, open)} ::
      PartHolds(part, nb, idx, stack, components, open)
  }

  lemma KeptIsConsistent(nb: Adjacency, idx: Index, stack: seq<ModulePath>, components: seq<seq<ModulePath>>,
                         open: set<ModulePath>)
    ensures Kept(nb, idx, stack, components, open) <==> Consistent(nb, idx, stack, components, open)
  {
    if Kept(nb, idx, stack, components, open) {
      assert PartHolds(Order, nb, idx, stack, components, open) && PartHolds(Place, nb, idx, stack, components, open);
      assert PartHolds(OpenStacked, nb, idx, stack, components, open)
        && PartHolds(Exploration, nb, idx, stack, components, open);
      assert PartHolds(Climb, nb, idx, stack, components, open) && PartHolds(Sinking, nb, idx, stack, components, open);
      assert PartHolds(Finish, nb, idx, stack, components, open) && PartHolds(Range, nb, idx, stack, components, open);
    }
  }

  lemma PushKept(nb: Adjacency, idx: Index, stack: seq<ModulePath>, components: seq<seq<ModulePath>>,
                 open: set<ModulePath>, m: ModulePath, number: nat)
    requires Kept(nb, idx, stack, components, open)
    requires m !in idx && m in Vertices(nb) && forall x :: x in idx ==> idx[x] < number
    requires forall g :: g in open ==> Reaches(nb, g, m)
    ensures Kept(nb, idx[m := number], stack + [m], components, open + {m})
  {
    KeptIsConsistent(nb, idx, stack, components, open);
    PushConsistent(nb, idx, stack, components, open, m, number);
    KeptIsConsistent(nb, idx[m := number], stack + [m], components, open + {m});
  }

  lemma CloseKept(nb: Adjacency, idx: Index, stack: seq<ModulePath>, components: seq<seq<ModulePath>>,
                  open: set<ModulePath>, m: ModulePath, low: nat)
    requires Kept(nb, idx, stack, components, open + {m}) && m in idx
    requires LowReached(nb, idx, stack, m, low) && low < idx[m]
    requires forall t :: Edge(nb, m, t) ==> t in idx
    ensures Kept(nb, idx, stack, components, open)
  {
    KeptIsConsistent(nb, idx, stack, components, open + {m});
    CloseConsistent(nb, idx, stack, components, open, m, low);
    KeptIsConsistent(nb, idx, stack, components, open);
  }

  lemma PopKept(nb: Adjacency, idx: Index, stack: seq<ModulePath>, components: seq<seq<ModulePath>>,
                open: set<ModulePath>, k: nat, c: seq<ModulePath>)
    requires k < |stack| && stack[k] in idx && Kept(nb, idx, stack, components, open + {stack[k]})
    requires forall g :: g in open ==> g in stack[..k]
    requires forall t :: Edge(nb, stack[k], t) ==> t in idx
    requires LowBounds(nb, idx, stack, k, idx[stack[k]])
    requires multiset(c) == multiset(stack[k..]) && Ascending(c)
    ensures Kept(nb, idx, stack[..k], components + [c], open)
  {
    KeptIsConsistent(nb, idx, stack, components, open + {stack[k]});
    RootFacts(nb, idx, stack, open, k);
    PopConsistent(nb, idx, stack, components, open, k, c);
    KeptIsConsistent(nb, idx, stack[..k], components + [c], open);
  }

  lemma KeptOrder(nb: Adjacency, idx: Index, stack: seq<ModulePath>, components: seq<seq<ModulePath>>,
                  open: set<ModulePath>)
    requires Kept(nb, idx, stack, components, open)
    ensures StackOrdered(idx, stack) && Distinct(stack)
  {
    assert PartHolds(Order, nb, idx, stack, components, open);
    StackDistinct(idx, stack);
  }

  lemma KeptOpen(nb: Adjacency, idx: Index, stack: seq<ModulePath>, components: seq<seq<ModulePath>>,
                 open: set<ModulePath>)
    requires Kept(nb, idx, stack, components, open)
    ensures forall g :: g in open ==> g in stack
  {
    assert PartHolds(OpenStacked, nb, idx, stack, components, open);
  }

  // ----- The pass

  ghost function Members(stack: seq<ModulePath>): set<ModulePath> {
    set m | m in stack
  }

  lemma MembersPushed(stack: seq<ModulePath>, m: ModulePath)
    ensures Members(stack + [m]) == Members(stack) + {m}
  {
  }

  /** One entry popped from what is left of a stack. */
  lemma PopStep(whole: seq<ModulePath>, n: nat)
    requires n < |whole| && Distinct(whole)
    ensures Members(whole[..n]) == Members(whole[..n + 1]) - {whole[n]}
    ensures whole[n..] == [whole[n]] + whole[n + 1..] && whole[..n + 1][..n] == whole[..n]
  {
    assert whole[..n + 1] == whole[..n] + [whole[n]];
    MembersPushed(whole[..n], whole[n]);
  }

  class Tarjan {
    const neighbours: Adjacency
    var indexOf: Index
    var lowLink: Index
    var onStack: set<ModulePath>
    var stack: seq<ModulePath>
    var components: seq<seq<ModulePath>>
    var counter: nat

    constructor (neighbours: Adjacency)
      ensures this.neighbours == neighbours && indexOf == map[] && stack == [] && components == []
      ensures Valid({})
    {
      this.neighbours := neighbours;
      indexOf, lowLink, onStack, stack, components, counter := map[], map[], {}, [], [], 0;
    }

    ghost predicate Valid(open: set<ModulePath>)
      reads this
    {
      && Kept(neighbours, indexOf, stack, components, open)
      && onStack == Members(stack)
      && (forall m {:trigger m in lowLink} {:trigger m in indexOf} :: m in lowLink <==> m in indexOf)
      && (forall m {:trigger indexOf[m]} :: m in indexOf ==> indexOf[m] <= counter)
    }

    /** The stack only grows, and what was indexed keeps its index and, but for `except`, its low link. */
    twostate predicate Grown(except: set<ModulePath>)
      reads this
    {
      && old(stack) <= stack
      && (forall m :: m in old(indexOf) ==> m in indexOf && indexOf[m] == old(indexOf)[m])
      && (forall m :: m in old(lowLink) && m !in except ==> m in lowLink && lowLink[m] == old(lowLink)[m])
    }

    /** Number `m` and put it on the stack. */
    method Open(m: ModulePath, ghost open: set<ModulePath>)
      requires Valid(open) && m !in indexOf && m in Vertices(neighbours)
      requires forall g :: g in open ==> Reaches(neighbours, g, m)
      modifies this
      ensures Valid(open + {m}) && Grown({})
      ensures counter == old(counter) + 1 && stack == old(stack) + [m] && components == old(components)
      ensures indexOf == old(indexOf)[m := counter] && lowLink == old(lowLink)[m := counter]
    {
      PushKept(neighbours, indexOf, stack, components, open, m, counter + 1);
      MembersPushed(stack, m);
      counter := counter + 1;
      indexOf, lowLink := indexOf[m := counter], lowLink[m := counter];
      stack, onStack := stack + [m], onStack + {m};
    }

    /** Pop the stack down to `m`, in pop order. */
    method PopTo(m: ModulePath, ghost k: nat) returns (component: seq<ModulePath>)
      requires k < |stack| && stack[k] == m && Distinct(stack)
      requires onStack == Members(stack)
      modifies `stack, `onStack
      ensures stack == old(stack)[..k] && multiset(component) == multiset(old(stack)[k..])
      ensures onStack == Members(stack)
    {
      component := [];
      ghost var whole := stack;
      while true
        invariant k < |stack| && stack == whole[..|stack|]
        invariant multiset(component) == multiset(whole[|stack|..])
        invariant onStack == Members(stack)
        decreases |stack|
      {
        var n := |stack| - 1;
        var member := stack[n];
        PopStep(whole, n);
        stack := stack[..n];
        onStack := onStack - {member};
        component := component + [member];
        if member == m {
          break;
        }
      }
    }

    /** Take the component rooted at `m` off the stack. */
    method Close(m: ModulePath, ghost open: set<ModulePath>, ghost k: nat)
      requires k < |stack| && stack[k] == m && m in indexOf
      requires Valid(open + {m}) && forall g :: g in open ==> g in stack[..k]
      requires forall t :: Edge(neighbours, m, t) ==> t in indexOf
      requires LowBounds(neighbours, indexOf, stack, k, indexOf[m])
      modifies `stack, `onStack, `components
      ensures Valid(open) && stack == old(stack)[..k]
    {
      ghost var whole := stack;
      KeptOrder(neighbours, indexOf, stack, components, open + {m});
      var component := PopTo(m, k);
      SortedFacts(component);
      PopKept(neighbours, indexOf, whole, components, open, k, Sorted(component));
      components := components + [Sorted(component)];
    }

    /** Lower the low link of `m`; nothing else changes. */
    method Lower(m: ModulePath, value: nat, ghost open: set<ModulePath>)
      requires Valid(open) && m in lowLink
      modifies `lowLink
      ensures Valid(open) && lowLink == old(lowLink)[m := Min(old(lowLink)[m], value)]
    {
      lowLink := lowLink[m := Min(lowLink[m], value)];
    }

    /** A target met before: if it is on the stack, `m` may reach down to it. */
    method VisitKnown(m: ModulePath, ghost open: set<ModulePath>, ghost k: nat, n: nat)
      requires Valid(open + {m}) && m in indexOf && n < |Targets(neighbours, m)|
      requires Scanned(neighbours, indexOf, stack, k, m, lowLink[m], n)
      requires Targets(neighbours, m)[n] in indexOf
      modifies `lowLink
      ensures Valid(open + {m}) && Grown({m})
      ensures Scanned(neighbours, indexOf, stack, k, m, lowLink[m], n + 1)
    {
      var target := Targets(neighbours, m)[n];
      ScanKnown(neighbours, indexOf, stack, k, m, lowLink[m], n);
      if target in onStack {
        Lower(m, indexOf[target], open + {m});
      }
    }

    /** A target not met before: index it and what it reaches, then take over its low link. */
    method VisitNew(m: ModulePath, ghost open: set<ModulePath>, ghost k: nat, n: nat)
      requires Valid(open + {m}) && m in indexOf && n < |Targets(neighbours, m)|
      requires Scanned(neighbours, indexOf, stack, k, m, lowLink[m], n)
      requires Targets(neighbours, m)[n] !in indexOf
      requires forall g :: g in open ==> Reaches(neighbours, g, m)
      modifies this
      ensures Valid(open + {m}) && Grown({m})
      ensures Scanned(neighbours, indexOf, stack, k, m, lowLink[m], n + 1)
      decreases Vertices(neighbours) - indexOf.Keys, 1
    {
      var target := Targets(neighbours, m)[n];
      CallReady(neighbours, open, m, n);
      KeptOrder(neighbours, indexOf, stack, components, open + {m});
      StrongConnect(target, open + {m});
      TakeOver(m, target, open);
      ScanReturned(neighbours, old(indexOf), old(stack), k, m, old(lowLink[m]), n, indexOf, stack, lowLink[target]);
    }

    /** Take over the low link of a target that was just left. */
    method TakeOver(m: ModulePath, target: ModulePath, ghost open: set<ModulePath>)
      requires Valid(open + {m}) && m in lowLink && target in lowLink && target != m
      modifies `lowLink
      ensures Valid(open + {m}) && Grown({m})
      ensures lowLink[m] == Min(old(lowLink[m]), lowLink[target]) && lowLink[target] == old(lowLink[target])
    {
      Lower(m, lowLink[target], open + {m});
    }

    /** All targets of `m`, in order. */
    method ScanTargets(m: ModulePath, ghost open: set<ModulePath>, ghost k: nat)
      requires Valid(open + {m}) && m in indexOf
      requires Scanned(neighbours, indexOf, stack, k, m, lowLink[m], 0)
      requires forall g :: g in open ==> Reaches(neighbours, g, m)
      modifies this
      ensures Valid(open + {m}) && Grown({m})
      ensures Scanned(neighbours, indexOf, stack, k, m, lowLink[m], |Targets(neighbours, m)|)
      decreases Vertices(neighbours) - indexOf.Keys, 2
    {
      var targets := Targets(neighbours, m);
      for n := 0 to |targets|
        invariant Valid(open + {m}) && Grown({m}) && m in indexOf
        invariant Scanned(neighbours, indexOf, stack, k, m, lowLink[m], n)
      {
        if targets[n] in indexOf {
          VisitKnown(m, open, k, n);
        } else {
          VisitNew(m, open, k, n);
        }
      }
    }

    /** The call for `m` ends: as the root of a component, or leaving its entries to an older call. */
    method Leave(m: ModulePath, ghost open: set<ModulePath>, ghost k: nat)
      requires Valid(open + {m}) && m in indexOf
      requires Scanned(neighbours, indexOf, stack, k, m, lowLink[m], |Targets(neighbours, m)|)
      requires forall g :: g in open ==> g in stack[..k]
      modifies `stack, `onStack, `components
      ensures Valid(open)
      ensures stack == if lowLink[m] == indexOf[m] then old(stack)[..k] else old(stack)
      ensures LowBounds(neighbours, indexOf, stack, k, lowLink[m])
      ensures lowLink[m] != indexOf[m] ==> LowReached(neighbours, indexOf, stack, m, lowLink[m])
    {
      ScanDone(neighbours, indexOf, stack, k, m, lowLink[m]);
      if lowLink[m] == indexOf[m] {
        Close(m, open, k);
      } else {
        CloseKept(neighbours, indexOf, stack, components, open, m, lowLink[m]);
      }
    }

    /** Index `m` and everything first met from it, closing the components whose root is met. */
    method StrongConnect(m: ModulePath, ghost open: set<ModulePath>)
      requires Valid(open) && m !in indexOf && m in Vertices(neighbours)
      requires forall g :: g in open ==> Reaches(neighbours, g, m)
      modifies this
      ensures Valid(open) && Grown({}) && m in indexOf && old(counter) < indexOf[m]
      ensures LowBounds(neighbours, indexOf, stack, |old(stack)|, lowLink[m])
      ensures m in stack ==> LowReached(neighbours, indexOf, stack, m, lowLink[m])
      ensures m !in stack ==> lowLink[m] == indexOf[m]
      decreases Vertices(neighbours) - indexOf.Keys, 0
    {
      ghost var k := |stack|;
      KeptOpen(neighbours, indexOf, stack, components, open);
      Open(m, open);
      ScanStarted(neighbours, indexOf, old(stack), m);
      ScanTargets(m, open, k);
      assert stack[..k] == old(stack);
      Leave(m, open, k);
    }

    /** Index all of these modules, each from the outside. */
    method ConnectAll(modules: seq<ModulePath>)
      requires Valid({}) && forall m :: m in modules ==> m in neighbours
      modifies this
      ensures Valid({}) && forall m :: m in modules ==> m in indexOf
    {
      for i := 0 to |modules|
        invariant Valid({})
        invariant forall j :: 0 <= j < i ==> modules[j] in indexOf
      {
        ConnectOne(modules[i]);
      }
    }

    method ConnectOne(m: ModulePath)
      requires Valid({}) && m in neighbours
      modifies this
      ensures Valid({}) && m in indexOf && old(indexOf).Keys <= indexOf.Keys
    {
      if m !in indexOf {
        StrongConnect(m, {});
      }
    }
  }

  /** Every component of the runtime graph: each a whole class of mutually reachable modules,
      and every module and every imported path in exactly one of them. */
  method StronglyConnectedComponents(graph: ProjectGraph) returns (components: seq<seq<ModulePath>>)
    ensures Finished(RuntimeNeighbours(graph), components)
    ensures forall m :: m in Vertices(RuntimeNeighbours(graph)) <==> InSome(components, m)
  {
    var nb := BuildAdjacency(graph, true);
    var pass := new Tarjan(nb);
    pass.ConnectAll(graph.modules);
    components := pass.components;
    AllPlaced(nb, pass.indexOf, pass.stack, components);
  }

  /** With no call open the stack is empty, and an index closed under edges covers the graph. */
  lemma AllPlaced(nb: Adjacency, idx: Index, stack: seq<ModulePath>, components: seq<seq<ModulePath>>)
    requires Kept(nb, idx, stack, components, {})
    requires forall m :: m in nb ==> m in idx
    ensures Finished(nb, components)
    ensures forall m :: m in Vertices(nb) <==> InSome(components, m)
  {
    KeptIsConsistent(nb, idx, stack, components, {});
    assert forall m :: m in stack ==> HasSink(nb, idx, {}, m);
    forall m | m in Vertices(nb) ensures m in idx {
      if m !in nb {
        var v :| v in nb && m in nb[v];
        assert Edge(nb, v, m);
      }
    }
  }

  /** Two modules share a component exactly when each reaches the other. */
  lemma SharedComponent(nb: Adjacency, components: seq<seq<ModulePath>>, a: ModulePath, b: ModulePath)
    requires Finished(nb, components) && InSome(components, a)
    ensures (exists c :: c in components && a in c && b in c) <==> Mutual(nb, a, b)
  {
    var c :| c in components && a in c;
    if Mutual(nb, a, b) {
      assert b in c;
    }
  }
}
