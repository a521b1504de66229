/** Topological sorting of a dependency graph given as an ordered dictionary of
    adjacency lists. */
module TopologicalSort {
  import opened Basics

  /** The keys in insertion order, and each key's list of neighbours. */
  datatype Digraph<T(==)> = Digraph(nodes: seq<T>, adj: map<T, seq<T>>)

  datatype Result<T> = Sorted(order: seq<T>) | MissingEntry(neighbor: T) | CycleFound

  ghost predicate IsDict<T(!new)>(g: Digraph<T>) {
    Distinct(g.nodes) && forall n :: n in g.nodes <==> n in g.adj
  }

  predicate Edge<T(==)>(g: Digraph<T>, a: T, b: T) {
    a in g.adj && b in g.adj[a]
  }

  /** Every neighbour has an entry of its own. */
  ghost predicate Closed<T(!new)>(g: Digraph<T>) {
    forall a, b | Edge(g, a, b) :: b in g.adj
  }

  ghost predicate IsPath<T>(g: Digraph<T>, p: seq<T>) {
    forall i {:trigger EdgeAt(g, p, i)} | 0 <= i < |p| - 1 :: EdgeAt(g, p, i)
  }

  ghost predicate EdgeAt<T>(g: Digraph<T>, p: seq<T>, i: nat)
    requires i + 1 < |p|
  {
    Edge(g, p[i], p[i + 1])
  }

  ghost predicate IsCycle<T>(g: Digraph<T>, p: seq<T>) {
    |p| >= 2 && p[0] == p[|p| - 1] && IsPath(g, p)
  }

  ghost predicate HasCycle<T(!new)>(g: Digraph<T>) {
    exists p :: IsCycle(g, p)
  }

  /** A permutation of the nodes with the source of every edge before its target. */
  ghost predicate IsTopological<T>(g: Digraph<T>, order: seq<T>) {
    && multiset(order) == multiset(g.nodes)
    && forall i, j | 0 <= i < |order| && 0 <= j < |order| && Edge(g, order[i], order[j]) :: i < j
  }

  // ---- in-degrees ----

  /** How many edges lead to m from the given nodes, not counting those already done. */
  ghost function InDegree<T>(g: Digraph<T>, ns: seq<T>, done: set<T>, m: T): nat {
    if ns == [] then 0
    else
      var a := ns[|ns| - 1];
      InDegree(g, ns[..|ns| - 1], done, m) + if a in done || a !in g.adj then 0 else multiset(g.adj[a])[m]
  }

  lemma {:induction false} InDegreeAfter<T>(g: Digraph<T>, ns: seq<T>, done: set<T>, x: T, m: T)
    requires Distinct(ns) && x !in done && x in g.adj
    ensures InDegree(g, ns, done, m) == InDegree(g, ns, done + {x}, m) + if x in ns then multiset(g.adj[x])[m] else 0
  {
    if ns != [] {
      var n := |ns| - 1;
      InDegreeAfter(g, ns[..n], done, x, m);
      assert ns == ns[..n] + [ns[n]];
    }
  }

  /** The in-degree is positive exactly when an edge is left to count. */
  lemma {:induction false} InDegreePositive<T(!new)>(g: Digraph<T>, ns: seq<T>, done: set<T>, m: T)
    ensures InDegree(g, ns, done, m) > 0 <==> exists a :: a in ns && a !in done && Edge(g, a, m)
  {
    if ns != [] {
      var n := |ns| - 1;
      InDegreePositive(g, ns[..n], done, m);
      assert ns == ns[..n] + [ns[n]];
    }
  }

  // ---- cycles ----

  lemma {:induction false} Pigeonhole<T(!new)>(p: seq<T>, s: set<T>) returns (i: nat, j: nat)
    requires |p| > |s| && forall x | x in p :: x in s
    ensures i < j < |p| && p[i] == p[j]
    decreases |p|
  {
    var n := |p| - 1;
    assert p[n] in p;
    if k :| 0 <= k < n && p[k] == p[n] {
      return k, n;
    }
    assert forall x | x in p[..n] :: x in p && x != p[n];
    assert |s - {p[n]}| == |s| - 1;
    i, j := Pigeonhole(p[..n], s - {p[n]});
  }

  ghost predicate PredecessorIn<T(!new)>(g: Digraph<T>, s: set<T>, b: T) {
    exists a :: a in s && Edge(g, a, b)
  }

  lemma ExtendPath<T(!new)>(g: Digraph<T>, a: T, p: seq<T>)
    requires p != [] && IsPath(g, p) && Edge(g, a, p[0])
    ensures IsPath(g, [a] + p)
  {
    forall i | 0 <= i < |[a] + p| - 1 ensures EdgeAt(g, [a] + p, i) {
      if i > 0 {
        assert EdgeAt(g, p, i - 1);
      }
    }
  }

  // A path of any length, walked backwards inside a set whose members all have a predecessor in it.
  lemma {:induction false} WalkBack<T(!new)>(g: Digraph<T>, s: set<T>, m: T, n: nat) returns (p: seq<T>)
    requires m in s && forall b | b in s :: PredecessorIn(g, s, b)
    ensures |p| == n + 1 && IsPath(g, p) && forall x | x in p :: x in s
  {
    if n == 0 {
      return [m];
    }
    var q := WalkBack(g, s, m, n - 1);
    assert q[0] in q && PredecessorIn(g, s, q[0]);
    var a :| a in s && Edge(g, a, q[0]);
    ExtendPath(g, a, q);
    p := [a] + q;
  }

  /** Nodes that all have a predecessor among themselves contain a cycle. */
  lemma LeftoverHasCycle<T(!new)>(g: Digraph<T>, s: set<T>, m: T)
    requires m in s && forall b | b in s :: PredecessorIn(g, s, b)
    ensures HasCycle(g)
  {
    var p := WalkBack(g, s, m, |s|);
    var i, j := Pigeonhole(p, s);
    var c := p[i..j + 1];
    forall k | 0 <= k < |c| - 1 ensures EdgeAt(g, c, k) {
      assert EdgeAt(g, p, i + k);
    }
    assert IsCycle(g, c);
  }

  lemma {:induction false} PathAscends<T(!new)>(g: Digraph<T>, order: seq<T>, p: seq<T>, i: nat, j: nat)
    requires Closed(g) && IsTopological(g, order) && (forall n | n in g.adj :: n in order)
    requires |p| >= 2 && IsPath(g, p) && i < |order| && j < |order| && order[i] == p[0] && order[j] == p[|p| - 1]
    ensures i < j
    decreases |p|
  {
    assert EdgeAt(g, p, 0);
    if |p| > 2 {
      assert p[1] in order;
      var k :| 0 <= k < |order| && order[k] == p[1];
      forall l | 0 <= l < |p[1..]| - 1 ensures EdgeAt(g, p[1..], l) {
        assert EdgeAt(g, p, l + 1);
      }
      PathAscends(g, order, p[1..], k, j);
    }
  }

  /** A graph that has a topological order has no cycle. */
  lemma SortedHasNoCycle<T(!new)>(g: Digraph<T>, order: seq<T>)
    requires IsDict(g) && Closed(g) && IsTopological(g, order)
    ensures !HasCycle(g)
  {
    if p :| IsCycle(g, p) {
      forall n | n in g.adj ensures n in order {
        assert n in multiset(g.nodes);
      }
      assert EdgeAt(g, p, 0);
      var i :| 0 <= i < |order| && order[i] == p[0];
      PathAscends(g, order, p, i, i);
    }
  }

  // ---- the algorithm ----

  /** The edges of the first i nodes are counted. */
  ghost predicate EdgesCounted<T(!new)>(g: Digraph<T>, i: nat, indegrees: map<T, nat>)
    requires i <= |g.nodes|
  {
    && (forall m :: m in indegrees <==> m in g.adj)
    && forall m | m in indegrees :: indegrees[m] == InDegree(g, g.nodes[..i], {}, m)
  }

  ghost predicate Added<T(!new)>(before: map<T, nat>, after: map<T, nat>, seen: seq<T>) {
    && (forall m :: m in after <==> m in before)
    && forall m | m in before :: after[m] == before[m] + multiset(seen)[m]
  }

  lemma EdgesCountedNext<T(!new)>(g: Digraph<T>, i: nat, before: map<T, nat>, after: map<T, nat>)
    requires i < |g.nodes| && EdgesCounted(g, i, before)
    requires g.nodes[i] in g.adj && Added(before, after, g.adj[g.nodes[i]])
    ensures EdgesCounted(g, i + 1, after)
  {
    assert g.nodes[..i + 1][..i] == g.nodes[..i];
  }

  /** Counts one node's edges; stops at a neighbour without an entry. */
  method CountNeighbors<T(==,!new)>(before: map<T, nat>, neighbors: seq<T>) returns (after: map<T, nat>, missing: seq<T>)
    ensures missing == [] ==> Added(before, after, neighbors) && forall b | b in neighbors :: b in before
    ensures missing != [] ==> missing[0] in neighbors && missing[0] !in before
  {
    after := before;
    missing := [];
    for k := 0 to |neighbors|
      invariant Added(before, after, neighbors[..k]) && forall b | b in neighbors[..k] :: b in before
    {
      var neighbor := neighbors[k];
      if neighbor !in after {
        missing := [neighbor];
        return;
      }
      assert neighbors[..k + 1] == neighbors[..k] + [neighbor];
      after := after[neighbor := after[neighbor] + 1];
    }
    assert neighbors[..|neighbors|] == neighbors;
  }

  ghost predicate NodeClosed<T(!new)>(g: Digraph<T>, a: T) {
    a in g.adj && forall b | b in g.adj[a] :: b in g.adj
  }

  lemma ClosedByNode<T(!new)>(g: Digraph<T>)
    requires IsDict(g) && forall i | 0 <= i < |g.nodes| :: NodeClosed(g, g.nodes[i])
    ensures Closed(g)
  {
  }

  /** Counts the edges into each node; fails on the first neighbour without an entry. */
  method CountEdges<T(==,!new)>(g: Digraph<T>) returns (indegrees: map<T, nat>, missing: seq<T>)
    requires IsDict(g)
    ensures missing != [] <==> !Closed(g)
    ensures missing != [] ==> missing[0] !in g.adj && exists a :: Edge(g, a, missing[0])
    ensures missing == [] ==> EdgesCounted(g, |g.nodes|, indegrees)
  {
    indegrees := map n | n in g.adj :: 0;
    missing := [];
    for i := 0 to |g.nodes|
      invariant missing == [] && EdgesCounted(g, i, indegrees)
      invariant forall j | 0 <= j < i :: NodeClosed(g, g.nodes[j])
    {
      var node := g.nodes[i];
      assert node in g.nodes;
      ghost var before := indegrees;
      indegrees, missing := CountNeighbors(indegrees, g.adj[node]);
      if missing != [] {
        assert Edge(g, node, missing[0]) && missing[0] !in g.adj;
        return;
      }
      EdgesCountedNext(g, i, before, indegrees);
    }
    ClosedByNode(g);
  }

  /** The worklist state: the order so far, the nodes ready to be placed, and the
      edges left into each node. A node has none left exactly when it is placed
      or ready, and everything before a placed or ready node is placed. */
  ghost predicate Progress<T(!new)>(g: Digraph<T>, order: seq<T>, ready: seq<T>, indegrees: map<T, nat>) {
    && (forall m :: m in indegrees <==> m in g.adj)
    && Distinct(order + ready) && (forall n | n in order + ready :: n in g.adj)
    && (forall m | m in indegrees :: indegrees[m] == 0 <==> m in order + ready)
    && (forall i, a | 0 <= i < |order| && Edge(g, a, order[i]) :: a in order[..i])
  }

  function Elements<T>(s: seq<T>): set<T> {
    set n | n in s
  }

  /** The recorded in-degrees count the edges from nodes not done, and those of
      the node being placed that are still to be taken off. */
  ghost predicate Counted<T(!new)>(g: Digraph<T>, done: set<T>, pending: seq<T>, indegrees: map<T, nat>) {
    forall m | m in indegrees :: indegrees[m] == InDegree(g, g.nodes, done, m) + multiset(pending)[m]
  }

  lemma {:induction false} DistinctSize<T(!new)>(s: seq<T>)
    requires Distinct(s)
    ensures |Elements(s)| == |s|
    ensures forall x :: multiset(s)[x] == if x in s then 1 else 0
  {
    if s != [] {
      var n := |s| - 1;
      DistinctSize(s[..n]);
      assert s == s[..n] + [s[n]];
      assert Elements(s) == Elements(s[..n]) + {s[n]};
    }
  }

  lemma SubsetSize<T(!new)>(a: set<T>, b: set<T>)
    requires a <= b
    ensures |a| <= |b| && (|a| == |b| ==> a == b)
  {
    assert b == a + (b - a);
    assert |b| == |a| + |b - a|;
  }

  lemma PlacedAtMost<T(!new)>(g: Digraph<T>, order: seq<T>, ready: seq<T>, indegrees: map<T, nat>)
    requires IsDict(g) && Progress(g, order, ready, indegrees)
    ensures |order| + |ready| <= |g.nodes|
  {
    DistinctSize(order + ready);
    DistinctSize(g.nodes);
    SubsetSize(Elements(order + ready), Elements(g.nodes));
  }

  // Moving the last ready node to the end of the order is a permutation of the two together.
  lemma MoveReady<T(!new)>(order: seq<T>, ready: seq<T>)
    requires ready != [] && Distinct(order + ready)
    ensures var n := |ready| - 1;
            && Distinct((order + [ready[n]]) + ready[..n])
            && ready[n] !in order
            && forall x :: x in (order + [ready[n]]) + ready[..n] <==> x in order + ready
  {
    var n := |ready| - 1;
    var all, all' := order + ready, (order + [ready[n]]) + ready[..n];
    forall k | 0 <= k < |all'|
      ensures all'[k] == all[if k < |order| then k else if k == |order| then |order| + n else k - 1]
    {
    }
    assert all[|order| + n] == ready[n];
    assert forall k | 0 <= k < |order| :: order[k] == all[k];
    assert ready == ready[..n] + [ready[n]];
  }

  /** Placing the last ready node: all its predecessors are placed already. */
  lemma PlaceReady<T(!new)>(g: Digraph<T>, order: seq<T>, ready: seq<T>, indegrees: map<T, nat>)
    requires IsDict(g) && Progress(g, order, ready, indegrees) && Counted(g, Elements(order), [], indegrees) && ready != []
    ensures ready[|ready| - 1] in g.adj && ready[|ready| - 1] !in order
    ensures Progress(g, order + [ready[|ready| - 1]], ready[..|ready| - 1], indegrees)
  {
    var n := |ready| - 1;
    var node := ready[n];
    var order' := order + [node];
    MoveReady(order, ready);
    assert node in order + ready;
    InDegreePositive(g, g.nodes, Elements(order), node);
    assert forall a | Edge(g, a, node) :: a in order;
    forall i, a | 0 <= i < |order'| && Edge(g, a, order'[i]) ensures a in order'[..i] {
      if i < |order| {
        assert order'[..i] == order[..i];
      } else {
        assert order'[..i] == order;
      }
    }
  }

  lemma CountPlaced<T(!new)>(g: Digraph<T>, order: seq<T>, node: T, indegrees: map<T, nat>)
    requires IsDict(g) && Counted(g, Elements(order), [], indegrees) && node in g.adj && node !in order
    ensures Counted(g, Elements(order + [node]), g.adj[node], indegrees)
  {
    assert Elements(order + [node]) == Elements(order) + {node};
    forall m | m in indegrees
      ensures indegrees[m] == InDegree(g, g.nodes, Elements(order + [node]), m) + multiset(g.adj[node])[m]
    {
      InDegreeAfter(g, g.nodes, Elements(order), node, m);
    }
  }

  /** Taking off one edge of the node just placed. */
  lemma TakeOffEdge<T(!new)>(g: Digraph<T>, order: seq<T>, ready: seq<T>, indegrees: map<T, nat>, pending: seq<T>)
    requires Progress(g, order, ready, indegrees) && Counted(g, Elements(order), pending, indegrees)
    requires pending != [] && pending[0] in g.adj
    ensures var x := pending[0];
            && x in indegrees && indegrees[x] > 0
            && var left := indegrees[x := indegrees[x] - 1];
               && Counted(g, Elements(order), pending[1..], left)
               && Progress(g, order, if left[x] == 0 then ready + [x] else ready, left)
  {
    var x := pending[0];
    assert pending == [x] + pending[1..];
    assert x !in order + ready;
    assert order + (ready + [x]) == (order + ready) + [x];
  }

  lemma AllPlacedIsTopological<T(!new)>(g: Digraph<T>, order: seq<T>, indegrees: map<T, nat>)
    requires IsDict(g) && Progress(g, order, [], indegrees) && |order| == |g.nodes|
    ensures IsTopological(g, order)
  {
    assert order + [] == order;
    DistinctSize(order);
    DistinctSize(g.nodes);
    SubsetSize(Elements(order), Elements(g.nodes));
    assert forall x :: x in order <==> x in Elements(order);
    assert forall x :: x in g.nodes <==> x in Elements(g.nodes);
    assert forall x :: multiset(order)[x] == multiset(g.nodes)[x];
    forall i, j | 0 <= i < |order| && 0 <= j < |order| && Edge(g, order[i], order[j]) ensures i < j {
      assert order[i] in order[..j];
      var k :| 0 <= k < j && order[k] == order[i];
    }
  }

  lemma SomeLeft<T(!new)>(some: seq<T>, all: seq<T>) returns (m: T)
    requires Distinct(some) && Distinct(all) && Elements(some) <= Elements(all) && |some| != |all|
    ensures m in Elements(all) - Elements(some)
  {
    DistinctSize(some);
    DistinctSize(all);
    assert Elements(all) == Elements(some) ==> |all| == |some|;
    m :| m in Elements(all) && m !in Elements(some);
  }

  lemma LeftHasPredecessor<T(!new)>(g: Digraph<T>, order: seq<T>, indegrees: map<T, nat>, b: T)
    requires IsDict(g) && Progress(g, order, [], indegrees) && Counted(g, Elements(order), [], indegrees)
    requires b in g.nodes && b !in order
    ensures PredecessorIn(g, Elements(g.nodes) - Elements(order), b)
  {
    assert order + [] == order;
    InDegreePositive(g, g.nodes, Elements(order), b);
    var a :| a in g.nodes && a !in Elements(order) && Edge(g, a, b);
    assert a in Elements(g.nodes) - Elements(order);
  }

  lemma NotAllPlacedHasCycle<T(!new)>(g: Digraph<T>, order: seq<T>, indegrees: map<T, nat>)
    requires IsDict(g) && Progress(g, order, [], indegrees) && Counted(g, Elements(order), [], indegrees)
    requires |order| != |g.nodes|
    ensures HasCycle(g)
  {
    assert order + [] == order;
    var left := Elements(g.nodes) - Elements(order);
    var m := SomeLeft(order, g.nodes);
    forall b | b in left ensures PredecessorIn(g, left, b) {
      LeftHasPredecessor(g, order, indegrees, b);
    }
    LeftoverHasCycle(g, left, m);
  }

  /** Kahn's algorithm: a topological order when the graph is closed and acyclic,
      and otherwise the error that says which of the two it is not. */
  method Sort<T(==,!new)>(g: Digraph<T>) returns (r: Result<T>)
    requires IsDict(g)
    ensures r.MissingEntry? <==> !Closed(g)
    ensures r.CycleFound? <==> Closed(g) && HasCycle(g)
    ensures r.Sorted? ==> IsTopological(g, r.order)
  {
    var indegrees, missing := CountEdges(g);
    if missing != [] {
      return MissingEntry(missing[0]);
    }
    assert g.nodes[..|g.nodes|] == g.nodes;
    var ready: seq<T> := [];
    for i := 0 to |g.nodes|
      invariant Distinct(ready) && forall n :: n in ready <==> n in g.nodes[..i] && n in indegrees && indegrees[n] == 0
    {
      assert g.nodes[..i + 1] == g.nodes[..i] + [g.nodes[i]];
      assert g.nodes[i] in g.nodes;
      if indegrees[g.nodes[i]] == 0 {
        ready := ready + [g.nodes[i]];
      }
    }
    var order: seq<T> := [];
    assert order + ready == ready && Elements(order) == {};
    while |ready| > 0
      invariant Progress(g, order, ready, indegrees) && Counted(g, Elements(order), [], indegrees)
      decreases |g.nodes| - |order|
    {
      PlaceReady(g, order, ready, indegrees);
      var node := ready[|ready| - 1];
      CountPlaced(g, order, node, indegrees);
      ready := ready[..|ready| - 1];
      order := order + [node];
      PlacedAtMost(g, order, ready, indegrees);
      var neighbors := g.adj[node];
      for k := 0 to |neighbors|
        invariant Progress(g, order, ready, indegrees) && Counted(g, Elements(order), neighbors[k..], indegrees)
      {
        var neighbor := neighbors[k];
        assert Edge(g, node, neighbor);
        TakeOffEdge(g, order, ready, indegrees, neighbors[k..]);
        assert neighbors[k..][1..] == neighbors[k + 1..];
        indegrees := indegrees[neighbor := indegrees[neighbor] - 1];
        if indegrees[neighbor] == 0 {
          ready := ready + [neighbor];
        }
      }
    }
    if |order| == |g.nodes| {
      AllPlacedIsTopological(g, order, indegrees);
      SortedHasNoCycle(g, order);
      return Sorted(order);
    } else {
      NotAllPlacedHasCycle(g, order, indegrees);
      return CycleFound;
    }
  }
}
