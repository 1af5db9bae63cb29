/** The cycles of a dependency graph, one for each group of entities that depend on each
    other, as `cycles.rs` reports them. */
module Cycles {
  import opened Basics
  import opened Ordering
  import opened GraphSpec
  import opened Reachability
  import opened HopOrder
  import opened ShortestCycle
  import opened CycleGraph
  import Tarjan

  /** The entities of a cycle, the first repeated at the end, and the edges between them. */
  datatype Cycle = Cycle(entities: seq<EntityRef>, edges: seq<Edge>)

  // ----- What is promised -----

  /** Following some edges leads from the entity back to it. */
  ghost predicate OnCycle(g: seq<Edge>, e: EntityRef) {
    exists edges :: edges != [] && Leads(g, Forward, e, edges, e)
  }

  ghost predicate MutualEntities(g: seq<Edge>, a: EntityRef, b: EntityRef) {
    Reachable(g, Forward, a, b) && Reachable(g, Forward, b, a)
  }

  /** A cycle of the graph, and no cycle through its first entity is shorter. */
  ghost predicate ShortestThrough(g: seq<Edge>, x: Cycle) {
    && x.edges != [] && |x.entities| == |x.edges| + 1
    && Leads(g, Forward, x.entities[0], x.edges, x.entities[0])
    && (forall i :: 0 <= i < |x.edges| ==> x.entities[i + 1] == x.edges[i].target)
    && forall edges :: edges != [] && Leads(g, Forward, x.entities[0], edges, x.entities[0]) ==> |x.edges| <= |edges|
  }

  function TargetsOf(edges: seq<Edge>): seq<EntityRef> {
    seq(|edges|, i requires 0 <= i < |edges| => edges[i].target)
  }

  /** The lists are the same for a while, and then the first has an entity that comes before
      the other's. */
  ghost predicate EntitiesBefore(a: seq<EntityRef>, b: seq<EntityRef>) {
    exists n: nat :: n < |a| && n < |b| && a[..n] == b[..n] && EntityBefore(a[n], b[n])
  }

  /** The edge is the first the graph lists between its ends. */
  ghost predicate FirstOfParallel(graph: Graph, e: Edge) {
    exists k :: 0 <= k < |graph.edges| && graph.edges[k] == e
                && forall j :: 0 <= j < k ==> graph.edges[j].source != e.source || graph.edges[j].target != e.target
  }

  /** Of the cycles of its length through its first entity, the one whose entities come
      first, over the first of any parallel edges. */
  ghost predicate LeastThrough(graph: Graph, x: Cycle) {
    && x.entities != []
    && (forall edges :: |edges| == |x.edges|
                        && Leads(Resolved(graph), Forward, x.entities[0], edges, x.entities[0])
                        ==> TargetsOf(edges) == TargetsOf(x.edges)
                            || EntitiesBefore(TargetsOf(x.edges), TargetsOf(edges)))
    && forall e :: e in x.edges ==> FirstOfParallel(graph, e)
  }

  /** The cycle begins at the first node of its group. */
  ghost predicate BeginsFirst(graph: Graph, x: Cycle) {
    && x.entities != [] && x.entities[0] in graph.nodes
    && forall e :: e in graph.nodes && MutualEntities(Resolved(graph), x.entities[0], e) ==>
                     Position(graph.nodes, x.entities[0]).value <= Position(graph.nodes, e).value
  }

  ghost predicate Represents(g: seq<Edge>, x: Cycle, e: EntityRef) {
    x.entities != [] && MutualEntities(g, x.entities[0], e)
  }

  /** Some reported cycle is of the entity's group. */
  ghost predicate Represented(g: seq<Edge>, cycles: seq<Cycle>, e: EntityRef) {
    exists x :: x in cycles && Represents(g, x, e)
  }

  function CycleRow(x: Cycle): Row {
    if x.entities == [] then [] else [TextField(x.entities[0].id)]
  }

  /** Of every group of entities that depend on each other exactly one cycle, the least of the
      shortest ones through the group's first node, and nothing else. */
  ghost predicate OneOfEach(graph: Graph, cycles: seq<Cycle>) {
    && (forall x :: x in cycles ==>
          ShortestThrough(Resolved(graph), x) && LeastThrough(graph, x) && BeginsFirst(graph, x))
    && (forall e :: OnCycle(Resolved(graph), e) <==> Represented(Resolved(graph), cycles, e))
    && (forall x, y :: x in cycles && y in cycles && x != y && y.entities != [] ==>
          !Represents(Resolved(graph), x, y.entities[0]))
    && Differ(cycles)
  }

  // ----- Nodes and entities -----

  lemma ListedFirst(graph: Graph, c: seq<nat>, u: nat)
    requires IsComponent(AdjacencyOf(graph), c) && Cyclic(AdjacencyOf(graph), c) && u in c
    ensures u < |graph.nodes| && Position(graph.nodes, graph.nodes[u]) == Some(u)
  {
    hide Position, Cyclic, IsComponent, AdjacencyOf;
    var adj := AdjacencyOf(graph);
    InGraph(adj, c);
    CyclicIff(adj, c, u);
    var hops: seq<Hop> :| ClosedWalk(adj, u, hops);
    WalkPrefix(adj, u, hops, u, 0);
    HopIff(graph, u, hops[0]);
  }

  lemma ReachIff(graph: Graph, u: nat, v: nat)
    requires u < |graph.nodes| && Position(graph.nodes, graph.nodes[u]) == Some(u)
    requires v < |graph.nodes| && Position(graph.nodes, graph.nodes[v]) == Some(v)
    ensures Reach(AdjacencyOf(graph), u, v) <==> Reachable(Resolved(graph), Forward, graph.nodes[u], graph.nodes[v])
  {
    hide Position, AdjacencyOf, Resolved, HopWalk, Steps;
    var adj := AdjacencyOf(graph);
    if Reach(adj, u, v) {
      var path :| Steps(adj, u, path, v);
      NoHops(adj, u);
      var hops := ReachedByWalk(adj, u, [], u, path, v);
      WalkLifted(graph, u, hops, v);
    }
    if Reachable(Resolved(graph), Forward, graph.nodes[u], graph.nodes[v]) {
      var edges :| Leads(Resolved(graph), Forward, graph.nodes[u], edges, graph.nodes[v]);
      var hops, w := WalkLowered(graph, u, edges, graph.nodes[v]);
      WalkReaches(adj, u, hops, w);
    }
  }

  lemma MutualIff(graph: Graph, u: nat, v: nat)
    requires u < |graph.nodes| && Position(graph.nodes, graph.nodes[u]) == Some(u)
    requires v < |graph.nodes| && Position(graph.nodes, graph.nodes[v]) == Some(v)
    ensures Mutual(AdjacencyOf(graph), u, v) <==> MutualEntities(Resolved(graph), graph.nodes[u], graph.nodes[v])
  {
    hide Position, AdjacencyOf, Resolved, Reach, Reachable;
    ReachIff(graph, u, v);
    ReachIff(graph, v, u);
  }

  /** An entity that another one reaches is a node. */
  lemma ReachedIsNode(graph: Graph, u: nat, e: EntityRef)
    requires u < |graph.nodes| && Position(graph.nodes, graph.nodes[u]) == Some(u)
    requires Reachable(Resolved(graph), Forward, graph.nodes[u], e)
    ensures var p := Position(graph.nodes, e);
            p.Some? && p.value < |graph.nodes| && graph.nodes[p.value] == e
              && Position(graph.nodes, graph.nodes[p.value]) == p
  {
    var edges :| Leads(Resolved(graph), Forward, graph.nodes[u], edges, e);
    var hops, v := WalkLowered(graph, u, edges, e);
  }

  lemma CycledIsNode(graph: Graph, e: EntityRef)
    requires OnCycle(Resolved(graph), e)
    ensures e in graph.nodes
  {
    hide ResolvedUpTo;
    var edges :| edges != [] && Leads(Resolved(graph), Forward, e, edges, e);
    ResolvedMembers(graph, |graph.edges|, edges[|edges| - 1]);
  }

  lemma OnCycleIff(graph: Graph, u: nat)
    requires u < |graph.nodes| && Position(graph.nodes, graph.nodes[u]) == Some(u)
    ensures OnCycle(Resolved(graph), graph.nodes[u])
            <==> exists hops: seq<Hop> :: ClosedWalk(AdjacencyOf(graph), u, hops)
  {
    hide Position, AdjacencyOf, Resolved, HopWalk;
    var e := graph.nodes[u];
    if OnCycle(Resolved(graph), e) {
      var edges :| edges != [] && Leads(Resolved(graph), Forward, e, edges, e);
      var hops, w := WalkLowered(graph, u, edges, e);
      assert ClosedWalk(AdjacencyOf(graph), u, hops);
    }
    if hops: seq<Hop> :| ClosedWalk(AdjacencyOf(graph), u, hops) {
      WalkLifted(graph, u, hops, u);
      assert EdgesTaken(graph, hops) != [];
    }
  }

  // ----- One cycle -----

  ghost predicate CycleOf(graph: Graph, c: seq<nat>, x: Cycle) {
    && c != [] && c[0] < |graph.nodes| && ShortestThrough(Resolved(graph), x) && LeastThrough(graph, x)
    && x.entities[0] == graph.nodes[c[0]]
  }

  lemma WalkEntities(graph: Graph, u: nat, hops: seq<Hop>, v: nat)
    requires HopWalk(AdjacencyOf(graph), u, hops, v)
    ensures forall i :: 0 <= i < |hops| ==>
              && hops[i].target < |graph.nodes| && hops[i].edge < |graph.edges|
              && graph.nodes[hops[i].target] == graph.edges[hops[i].edge].target
  {
    hide Position, AdjacencyOf, HopWalk;
    forall i | 0 <= i < |hops|
      ensures hops[i].target < |graph.nodes| && hops[i].edge < |graph.edges|
      ensures graph.nodes[hops[i].target] == graph.edges[hops[i].edge].target
    {
      WalkPrefix(AdjacencyOf(graph), u, hops, v, i);
      HopIff(graph, Through(u, hops, i), hops[i]);
    }
  }

  lemma NoneShorter(graph: Graph, u: nat, hops: seq<Hop>, edges: seq<Edge>)
    requires u < |graph.nodes| && Position(graph.nodes, graph.nodes[u]) == Some(u)
    requires LeastCycle(AdjacencyOf(graph), u, hops)
    requires edges != [] && Leads(Resolved(graph), Forward, graph.nodes[u], edges, graph.nodes[u])
    ensures |hops| <= |edges|
  {
    hide Position, AdjacencyOf, HopWalk, Resolved, Leads;
    var lowered, w := WalkLowered(graph, u, edges, graph.nodes[u]);
    assert ClosedWalk(AdjacencyOf(graph), u, lowered);
  }

  lemma EntitiesOfCycle(graph: Graph, c: seq<nat>, nodes: seq<nat>, edges: seq<nat>)
    requires IsComponent(AdjacencyOf(graph), c) && Cyclic(AdjacencyOf(graph), c)
    requires c != [] && LeastBy(AdjacencyOf(graph), c[0], nodes, edges)
    ensures c[0] < |graph.nodes| && (forall i :: 0 <= i < |nodes| ==> nodes[i] < |graph.nodes|)
    ensures forall i :: 0 <= i < |edges| ==> edges[i] < |graph.edges|
    ensures CycleOf(graph, c,
                    Cycle([graph.nodes[c[0]]] + Entities(graph, nodes) + [graph.nodes[c[0]]], Taken(graph, edges)))
  {
    hide Position, AdjacencyOf, Resolved, HopWalk, IsComponent, Cyclic, Leads, CycleOf;
    ListedFirst(graph, c, c[0]);
    var hops: seq<Hop> :| LeastCycle(AdjacencyOf(graph), c[0], hops) && nodes == Targets(hops[..|hops| - 1])
                          && edges == EdgesOf(hops);
    WalkEntities(graph, c[0], hops, c[0]);
    HopsAreCycle(graph, c, hops, nodes, edges);
  }

  /** Two walks of which the first is ahead and that agree for `n` hops and no further part
      there. */
  lemma PartsThere(adj: Adjacency, u: nat, a: seq<Hop>, b: seq<Hop>, n: nat)
    requires Ahead(adj, u, a, b) && |a| == |b| && n < |a| && a[..n] == b[..n] && a[n] != b[n]
    ensures PartAt(adj, u, a, b, n)
  {
    forall m | 0 <= m < n ensures a[m] == b[m] {
      assert a[..n][m] == b[..n][m];
    }
    forall m | n < m <= |a| ensures a[..m] != b[..m] {
      assert a[..m][n] != b[..m][n];
    }
    var m: nat :| PartAt(adj, u, a, b, m);
  }

  /** Another walk of the length parts from the least one where it takes a later hop. */
  lemma PartsLater(graph: Graph, u: nat, hops: seq<Hop>, other: seq<Hop>, n: nat)
    requires u < |graph.nodes| && LeastCycle(AdjacencyOf(graph), u, hops) && ClosedWalk(AdjacencyOf(graph), u, other)
    requires |other| == |hops| && n < |hops| && Through(u, hops, n) == Through(u, other, n) && hops[n] != other[n]
    ensures hops[n].target < |graph.nodes| && other[n].target < |graph.nodes|
    ensures || EntityBefore(graph.nodes[hops[n].target], graph.nodes[other[n].target])
            || (hops[n].target == other[n].target && hops[n].edge < other[n].edge)
  {
    hide AdjacencyOf, HopWalk, EntityBefore, Ahead;
    var adj := AdjacencyOf(graph);
    var mixed := hops[..n] + other[n..];
    WalkContinued(adj, u, hops, u, other, u, n);
    assert mixed[..n] == hops[..n] && mixed[n] == other[n];
    assert ClosedWalk(adj, u, mixed);
    PartsThere(adj, u, hops, mixed, n);
    WalkPrefix(adj, u, hops, u, n);
    WalkPrefix(adj, u, other, u, n);
    HopOrderIs(graph, Through(u, hops, n), hops[n], other[n]);
  }

  /** One of two lists of a length differs from the other first at some place. */
  lemma FirstDiffering(a: seq<EntityRef>, b: seq<EntityRef>) returns (n: nat)
    requires |a| == |b| && a != b
    ensures n < |a| && a[..n] == b[..n] && a[n] != b[n]
  {
    n := 0;
    while n < |a| && a[n] == b[n]
      invariant n <= |a| && a[..n] == b[..n]
    {
      n := n + 1;
    }
    assert a[..|a|] == a && b[..|b|] == b;
  }

  lemma EntitiesLeast(graph: Graph, u: nat, hops: seq<Hop>, edges: seq<Edge>, other: seq<Edge>)
    requires u < |graph.nodes| && Position(graph.nodes, graph.nodes[u]) == Some(u)
    requires LeastCycle(AdjacencyOf(graph), u, hops)
    requires forall i :: 0 <= i < |hops| ==> hops[i].edge < |graph.edges|
    requires edges == EdgesTaken(graph, hops) && |other| == |hops|
    requires Leads(Resolved(graph), Forward, graph.nodes[u], other, graph.nodes[u])
    ensures TargetsOf(other) == TargetsOf(edges) || EntitiesBefore(TargetsOf(edges), TargetsOf(other))
  {
    hide AdjacencyOf, HopWalk, EntityBefore, EntitiesBefore, LeastCycle, Position, Resolved, Leads;
    var adj := AdjacencyOf(graph);
    var a, b := TargetsOf(edges), TargetsOf(other);
    if a != b {
      var lowered, w := WalkLowered(graph, u, other, graph.nodes[u]);
      var n := FirstDiffering(a, b);
      LeastIsClosed(adj, u, hops);
      HopTargets(graph, u, hops, u);
      HopTargets(graph, u, lowered, u);
      assert Through(u, hops, n) == Through(u, lowered, n) by {
        assert n > 0 ==> a[n - 1] == a[..n][n - 1] == b[..n][n - 1] == b[n - 1];
      }
      PartsLater(graph, u, hops, lowered, n);
      PartedBefore(a, b, n);
    }
  }

  lemma PartedBefore(a: seq<EntityRef>, b: seq<EntityRef>, n: nat)
    requires n < |a| && n < |b| && a[..n] == b[..n] && EntityBefore(a[n], b[n])
    ensures EntitiesBefore(a, b)
  {
  }

  /** The places a walk goes through are where the targets of its edges are first listed. */
  lemma HopTargets(graph: Graph, u: nat, hops: seq<Hop>, v: nat)
    requires HopWalk(AdjacencyOf(graph), u, hops, v)
    ensures forall i :: 0 <= i < |hops| ==>
              && hops[i].edge < |graph.edges| && hops[i].target < |graph.nodes|
              && Position(graph.nodes, graph.edges[hops[i].edge].target) == Some(hops[i].target)
              && graph.nodes[hops[i].target] == graph.edges[hops[i].edge].target
  {
    hide Position, AdjacencyOf, HopWalk;
    forall i | 0 <= i < |hops|
      ensures hops[i].edge < |graph.edges| && hops[i].target < |graph.nodes|
      ensures Position(graph.nodes, graph.edges[hops[i].edge].target) == Some(hops[i].target)
      ensures graph.nodes[hops[i].target] == graph.edges[hops[i].edge].target
    {
      WalkPrefix(AdjacencyOf(graph), u, hops, v, i);
      HopIff(graph, Through(u, hops, i), hops[i]);
    }
  }

  lemma EdgeFirst(graph: Graph, u: nat, hops: seq<Hop>, i: nat)
    requires u < |graph.nodes| && LeastCycle(AdjacencyOf(graph), u, hops)
    requires i < |hops| && hops[i].edge < |graph.edges|
    ensures FirstOfParallel(graph, graph.edges[hops[i].edge])
  {
    hide AdjacencyOf, HopWalk, EntityBefore, Ahead, Position;
    var adj := AdjacencyOf(graph);
    var w, h := Through(u, hops, i), hops[i];
    var e := graph.edges[h.edge];
    WalkPrefix(adj, u, hops, u, i);
    HopIff(graph, w, h);
    forall j | 0 <= j < h.edge ensures graph.edges[j].source != e.source || graph.edges[j].target != e.target {
      var k := Hop(j, h.target);
      HopIff(graph, w, k);
      if graph.edges[j].source == e.source && graph.edges[j].target == e.target {
        HopFurther(adj, u, hops[..i], w, k);
        var turned := hops[..i] + [k];
        WalkContinued(adj, u, turned, h.target, hops, u, i + 1);
        var other := turned[..i + 1] + hops[i + 1..];
        assert other[..i] == hops[..i] && other[i] == k;
        assert Through(u, other, i) == w by {
          assert i > 0 ==> other[i - 1] == other[..i][i - 1] == hops[..i][i - 1] == hops[i - 1];
        }
        PartsLater(graph, u, hops, other, i);
        EntityLaws(graph.nodes[h.target], graph.nodes[h.target], graph.nodes[h.target]);
      }
    }
  }

  lemma LeastLifted(graph: Graph, u: nat, hops: seq<Hop>, x: Cycle)
    requires u < |graph.nodes| && Position(graph.nodes, graph.nodes[u]) == Some(u)
    requires LeastCycle(AdjacencyOf(graph), u, hops)
    requires forall i :: 0 <= i < |hops| ==> hops[i].edge < |graph.edges|
    requires x.edges == EdgesTaken(graph, hops) && x.entities != [] && x.entities[0] == graph.nodes[u]
    ensures LeastThrough(graph, x)
  {
    hide AdjacencyOf, Position, Resolved, Leads, LeastCycle, EntitiesBefore, FirstOfParallel, TargetsOf;
    forall edges |
      |edges| == |x.edges| && Leads(Resolved(graph), Forward, x.entities[0], edges, x.entities[0])
      ensures TargetsOf(edges) == TargetsOf(x.edges) || EntitiesBefore(TargetsOf(x.edges), TargetsOf(edges))
    {
      EntitiesLeast(graph, u, hops, x.edges, edges);
    }
    forall e | e in x.edges ensures FirstOfParallel(graph, e) {
      var i :| 0 <= i < |x.edges| && x.edges[i] == e;
      EdgeFirst(graph, u, hops, i);
    }
  }

  lemma HopsAreCycle(graph: Graph, c: seq<nat>, hops: seq<Hop>, nodes: seq<nat>, edges: seq<nat>)
    requires c != [] && c[0] < |graph.nodes| && Position(graph.nodes, graph.nodes[c[0]]) == Some(c[0])
    requires LeastCycle(AdjacencyOf(graph), c[0], hops) && nodes == Targets(hops[..|hops| - 1])
    requires edges == EdgesOf(hops)
    requires forall i :: 0 <= i < |hops| ==>
               && hops[i].target < |graph.nodes| && hops[i].edge < |graph.edges|
               && graph.nodes[hops[i].target] == graph.edges[hops[i].edge].target
    ensures CycleOf(graph, c,
                    Cycle([graph.nodes[c[0]]] + Entities(graph, nodes) + [graph.nodes[c[0]]], Taken(graph, edges)))
  {
    hide Position, AdjacencyOf, Resolved, HopWalk, Leads, LeastCycle;
    var u := c[0];
    LeastIsClosed(AdjacencyOf(graph), u, hops);
    assert forall i :: 0 <= i < |nodes| ==> nodes[i] == hops[i].target;
    var x := Cycle([graph.nodes[u]] + Entities(graph, nodes) + [graph.nodes[u]], Taken(graph, edges));
    WalkLifted(graph, u, hops, u);
    assert x.edges == EdgesTaken(graph, hops);
    forall i | 0 <= i < |x.edges| ensures x.entities[i + 1] == x.edges[i].target {
      assert i < |nodes| ==> nodes[i] == hops[i].target;
    }
    forall other | other != [] && Leads(Resolved(graph), Forward, graph.nodes[u], other, graph.nodes[u])
      ensures |hops| <= |other|
    {
      NoneShorter(graph, u, hops, other);
    }
    LeastLifted(graph, u, hops, x);
  }

  lemma LeastIsClosed(adj: Adjacency, u: nat, hops: seq<Hop>)
    requires LeastCycle(adj, u, hops)
    ensures hops != [] && HopWalk(adj, u, hops, u) && hops[|hops| - 1].target == u
  {
    hide HopWalk;
    WalkPrefix(adj, u, hops, u, |hops|);
  }

  function Entities(graph: Graph, nodes: seq<nat>): seq<EntityRef>
    requires forall i :: 0 <= i < |nodes| ==> nodes[i] < |graph.nodes|
  {
    seq(|nodes|, i requires 0 <= i < |nodes| => graph.nodes[nodes[i]])
  }

  function Taken(graph: Graph, edges: seq<nat>): seq<Edge>
    requires forall i :: 0 <= i < |edges| ==> edges[i] < |graph.edges|
  {
    seq(|edges|, i requires 0 <= i < |edges| => graph.edges[edges[i]])
  }

  // ----- All cycles -----

  /** The cycles of the cyclic ones among the first `n` components, in order. */
  ghost predicate Gathered(graph: Graph, cs: seq<seq<nat>>, n: nat, cycles: seq<Cycle>, chosen: seq<nat>) {
    && |chosen| == |cycles| && n <= |cs|
    && (forall i, j :: 0 <= i < j < |chosen| ==> chosen[i] < chosen[j])
    && (forall i :: 0 <= i < |chosen| ==> chosen[i] < n && Cyclic(AdjacencyOf(graph), cs[chosen[i]])
                                          && CycleOf(graph, cs[chosen[i]], cycles[i]))
    && (forall j: nat :: j < n && Cyclic(AdjacencyOf(graph), cs[j]) ==> j in chosen)
  }

  lemma CycleGathered(graph: Graph, cs: seq<seq<nat>>, n: nat, cycles: seq<Cycle>, chosen: seq<nat>, x: Cycle)
    requires Gathered(graph, cs, n, cycles, chosen) && n < |cs|
    requires Cyclic(AdjacencyOf(graph), cs[n]) && CycleOf(graph, cs[n], x)
    ensures Gathered(graph, cs, n + 1, cycles + [x], chosen + [n])
  {
    hide Cyclic, CycleOf;
    forall j: nat | j < n + 1 && Cyclic(AdjacencyOf(graph), cs[j]) ensures j in chosen + [n] {
      if j < n {
        assert j in chosen;
      }
    }
  }

  /** What every gathered cycle begins with, and what it is mutual with. */
  lemma GroupOfCycle(graph: Graph, c: seq<nat>, x: Cycle, e: EntityRef)
    requires IsComponent(AdjacencyOf(graph), c) && Cyclic(AdjacencyOf(graph), c) && CycleOf(graph, c, x)
    ensures Represents(Resolved(graph), x, e)
            <==> var p := Position(graph.nodes, e); p.Some? && p.value in c && OnCycle(Resolved(graph), e)
  {
    hide Position, AdjacencyOf, Resolved, Cyclic, IsComponent, ShortestThrough, Reachable, HopWalk;
    ListedFirst(graph, c, c[0]);
    InGraph(AdjacencyOf(graph), c);
    CycleBegins(graph, c, x);
    var p := Position(graph.nodes, e);
    if Represents(Resolved(graph), x, e) {
      ReachedIsNode(graph, c[0], e);
      MutualIff(graph, c[0], p.value);
      MembersMutual(AdjacencyOf(graph), c, c[0], p.value);
      CyclicIff(AdjacencyOf(graph), c, p.value);
      OnCycleIff(graph, p.value);
    }
    if p.Some? && p.value in c {
      ListedFirst(graph, c, p.value);
      MutualIff(graph, c[0], p.value);
      MembersMutual(AdjacencyOf(graph), c, c[0], p.value);
      PositionIs(graph.nodes, e);
    }
  }

  lemma CycleBegins(graph: Graph, c: seq<nat>, x: Cycle)
    requires CycleOf(graph, c, x)
    ensures x.entities != []
  {
  }

  lemma PositionIs(nodes: seq<EntityRef>, e: EntityRef)
    ensures var p := Position(nodes, e);
            (p.Some? ==> p.value < |nodes| && nodes[p.value] == e) && (p.Some? <==> e in nodes)
  {
  }

  lemma MembersMutual(adj: Adjacency, c: seq<nat>, u: nat, v: nat)
    requires IsComponent(adj, c) && u in c
    ensures v in c <==> Mutual(adj, u, v)
  {
  }

  lemma FirstOfGroup(graph: Graph, c: seq<nat>, x: Cycle)
    requires IsComponent(AdjacencyOf(graph), c) && Cyclic(AdjacencyOf(graph), c) && CycleOf(graph, c, x)
    ensures BeginsFirst(graph, x) && Position(graph.nodes, x.entities[0]) == Some(c[0])
  {
    hide Position, AdjacencyOf, Resolved, Cyclic, IsComponent, ShortestThrough, MutualEntities;
    ListedFirst(graph, c, c[0]);
    InGraph(AdjacencyOf(graph), c);
    CycleBegins(graph, c, x);
    forall e | e in graph.nodes && MutualEntities(Resolved(graph), x.entities[0], e)
      ensures c[0] <= Position(graph.nodes, e).value
    {
      PositionIs(graph.nodes, e);
      GroupOfCycle(graph, c, x, e);
      LeastFirst(AdjacencyOf(graph), c, Position(graph.nodes, e).value);
    }
    PositionIs(graph.nodes, x.entities[0]);
  }

  lemma LeastFirst(adj: Adjacency, c: seq<nat>, u: nat)
    requires IsComponent(adj, c) && u in c
    ensures c[0] <= u
  {
    hide Mutual;
    var i :| 0 <= i < |c| && c[i] == u;
  }

  lemma EveryCycleRepresented(graph: Graph, cs: seq<seq<nat>>, cycles: seq<Cycle>, chosen: seq<nat>, e: EntityRef)
    requires Partition(AdjacencyOf(graph), cs) && Gathered(graph, cs, |cs|, cycles, chosen)
    ensures OnCycle(Resolved(graph), e) <==> Represented(Resolved(graph), cycles, e)
  {
    hide Position, AdjacencyOf, Resolved, Cyclic, IsComponent, CycleOf, Represents;
    if OnCycle(Resolved(graph), e) {
      CycledIsNode(graph, e);
      PositionIs(graph.nodes, e);
      var u := Position(graph.nodes, e).value;
      assert InSome(cs, u);
      var j :| 0 <= j < |cs| && u in cs[j];
      OnCycleIff(graph, u);
      CyclicIff(AdjacencyOf(graph), cs[j], u);
      assert j in chosen;
      var i :| 0 <= i < |chosen| && chosen[i] == j;
      GroupOfCycle(graph, cs[j], cycles[i], e);
      assert cycles[i] in cycles;
    }
    if Represented(Resolved(graph), cycles, e) {
      var x :| x in cycles && Represents(Resolved(graph), x, e);
      var i :| 0 <= i < |cycles| && cycles[i] == x;
      GroupOfCycle(graph, cs[chosen[i]], x, e);
    }
  }

  lemma GroupsApart(graph: Graph, cs: seq<seq<nat>>, cycles: seq<Cycle>, chosen: seq<nat>, i: nat, k: nat)
    requires Partition(AdjacencyOf(graph), cs) && Gathered(graph, cs, |cs|, cycles, chosen)
    requires i < |cycles| && k < |cycles| && i != k
    ensures cycles[i] != cycles[k] && cycles[k].entities != []
    ensures !Represents(Resolved(graph), cycles[i], cycles[k].entities[0])
  {
    hide Position, AdjacencyOf, Resolved, Cyclic, IsComponent, CycleOf, Represents;
    var c, d := cs[chosen[i]], cs[chosen[k]];
    FirstOfGroup(graph, c, cycles[i]);
    FirstOfGroup(graph, d, cycles[k]);
    InGraph(AdjacencyOf(graph), d);
    GroupOfCycle(graph, c, cycles[i], cycles[k].entities[0]);
    InGraph(AdjacencyOf(graph), c);
    assert c[0] in c && d[0] in d;
    if i < k {
      assert chosen[i] < chosen[k];
    } else {
      assert chosen[k] < chosen[i];
    }
  }

  lemma AllGathered(graph: Graph, cs: seq<seq<nat>>, cycles: seq<Cycle>, chosen: seq<nat>)
    requires Partition(AdjacencyOf(graph), cs) && Gathered(graph, cs, |cs|, cycles, chosen)
    ensures OneOfEach(graph, cycles)
  {
    hide Position, AdjacencyOf, Resolved, Cyclic, IsComponent, ShortestThrough, LeastThrough, BeginsFirst, Represents;
    hide OnCycle, Represented;
    forall x | x in cycles
      ensures ShortestThrough(Resolved(graph), x) && LeastThrough(graph, x) && BeginsFirst(graph, x)
    {
      var i :| 0 <= i < |cycles| && cycles[i] == x;
      FirstOfGroup(graph, cs[chosen[i]], x);
    }
    forall e ensures OnCycle(Resolved(graph), e) <==> Represented(Resolved(graph), cycles, e) {
      EveryCycleRepresented(graph, cs, cycles, chosen, e);
    }
    forall x, y | x in cycles && y in cycles && x != y && y.entities != []
      ensures !Represents(Resolved(graph), x, y.entities[0])
    {
      var i :| 0 <= i < |cycles| && cycles[i] == x;
      var k :| 0 <= k < |cycles| && cycles[k] == y;
      GroupsApart(graph, cs, cycles, chosen, i, k);
    }
    forall i, k | 0 <= i < k < |cycles| ensures cycles[i] != cycles[k] {
      GroupsApart(graph, cs, cycles, chosen, i, k);
    }
  }

  lemma SortedOneOfEach(graph: Graph, cycles: seq<Cycle>)
    requires OneOfEach(graph, cycles)
    ensures OneOfEach(graph, Sort(CycleRow, cycles)) && Sorted(CycleRow, Sort(CycleRow, cycles))
  {
    hide Resolved, ShortestThrough, LeastThrough, BeginsFirst, Represents, OnCycle, CycleRow, Sort;
    SortFacts(CycleRow, cycles);
    SortedDiffer(CycleRow, cycles);
    forall e
      ensures Represented(Resolved(graph), Sort(CycleRow, cycles), e) <==> Represented(Resolved(graph), cycles, e)
    {
    }
  }

  /** Of neighbours that are equal the first stays. */
  function DropRepeats<T(==)>(xs: seq<T>): seq<T>
    decreases |xs|
  {
    if |xs| <= 1 then xs
    else if xs[0] == xs[1] then DropRepeats([xs[0]] + xs[2..])
    else [xs[0]] + DropRepeats(xs[1..])
  }

  lemma {:induction false} NothingDropped<T>(xs: seq<T>)
    requires Differ(xs)
    ensures DropRepeats(xs) == xs
    decreases |xs|
  {
    if |xs| > 1 {
      NothingDropped(xs[1..]);
      assert xs == [xs[0]] + xs[1..];
    }
  }

  lemma NoneGathered(graph: Graph, cs: seq<seq<nat>>)
    ensures Gathered(graph, cs, 0, [], [])
  {
  }

  lemma NotGathered(graph: Graph, cs: seq<seq<nat>>, n: nat, cycles: seq<Cycle>, chosen: seq<nat>)
    requires Gathered(graph, cs, n, cycles, chosen) && n < |cs| && !Cyclic(AdjacencyOf(graph), cs[n])
    ensures Gathered(graph, cs, n + 1, cycles, chosen)
  {
    hide Cyclic, CycleOf;
  }

  lemma PartIsComponent(adj: Adjacency, cs: seq<seq<nat>>, n: nat)
    requires Partition(adj, cs) && n < |cs|
    ensures IsComponent(adj, cs[n])
  {
    hide IsComponent;
  }

  /** Every group's cycle, in the order of the identifiers they begin with. */
  method Find(graph: Graph) returns (cycles: seq<Cycle>)
    ensures OneOfEach(graph, cycles) && Sorted(CycleRow, cycles)
  {
    hide Gathered, Partition, AdjacencyOf, IsComponent, Cyclic, CycleOf, LeastBy, OneOfEach;
    var adj := BuildAdjacency(graph);
    AdjacencyIsValid(graph);
    var components := Tarjan.FindComponents(adj);
    cycles := [];
    ghost var chosen: seq<nat> := [];
    NoneGathered(graph, components);
    for n := 0 to |components|
      invariant Gathered(graph, components, n, cycles, chosen)
    {
      var component := components[n];
      PartIsComponent(adj, components, n);
      if !Cyclic(adj, component) {
        NotGathered(graph, components, n, cycles, chosen);
        continue;
      }
      var r := RepresentativeCycle(adj, component);
      if r.Some? {
        var (nodes, edges) := r.value;
        EntitiesOfCycle(graph, component, nodes, edges);
        var start := graph.nodes[component[0]];
        var x := Cycle([start] + Entities(graph, nodes) + [start], Taken(graph, edges));
        CycleGathered(graph, components, n, cycles, chosen, x);
        cycles, chosen := cycles + [x], chosen + [n];
      }
    }
    AllGathered(graph, components, cycles, chosen);
    SortedOneOfEach(graph, cycles);
    cycles := Sort(CycleRow, cycles);
    assert Differ(cycles) by {
      CyclesDiffer(graph, cycles);
    }
    NothingDropped(cycles);
    cycles := DropRepeats(cycles);
  }

  lemma CyclesDiffer(graph: Graph, cycles: seq<Cycle>)
    requires OneOfEach(graph, cycles)
    ensures Differ(cycles)
  {
  }

  /** Whether any component is cyclic, which is whether the graph has a cycle. */
  method HasCycle(graph: Graph) returns (found: bool)
    ensures found <==> exists e :: OnCycle(Resolved(graph), e)
  {
    hide Partition, AdjacencyOf, IsComponent, Cyclic, OnCycle;
    var adj := BuildAdjacency(graph);
    AdjacencyIsValid(graph);
    var components := Tarjan.FindComponents(adj);
    for n := 0 to |components|
      invariant forall i :: 0 <= i < n ==> !Cyclic(adj, components[i])
    {
      if Cyclic(adj, components[n]) {
        PartIsComponent(adj, components, n);
        CyclicMeansCycle(graph, components[n]);
        return true;
      }
    }
    NoneMeansNone(graph, components);
    return false;
  }

  lemma CyclicMeansCycle(graph: Graph, c: seq<nat>)
    requires IsComponent(AdjacencyOf(graph), c) && Cyclic(AdjacencyOf(graph), c)
    ensures exists e :: OnCycle(Resolved(graph), e)
  {
    hide AdjacencyOf, IsComponent, Cyclic, OnCycle, Position;
    InGraph(AdjacencyOf(graph), c);
    ListedFirst(graph, c, c[0]);
    CyclicIff(AdjacencyOf(graph), c, c[0]);
    OnCycleIff(graph, c[0]);
  }

  lemma NoneMeansNone(graph: Graph, cs: seq<seq<nat>>)
    requires Partition(AdjacencyOf(graph), cs) && forall i :: 0 <= i < |cs| ==> !Cyclic(AdjacencyOf(graph), cs[i])
    ensures forall e :: !OnCycle(Resolved(graph), e)
  {
    hide AdjacencyOf, IsComponent, Cyclic, OnCycle, Position;
    forall e ensures !OnCycle(Resolved(graph), e) {
      if OnCycle(Resolved(graph), e) {
        CycledIsNode(graph, e);
        PositionIs(graph.nodes, e);
        var u := Position(graph.nodes, e).value;
        assert InSome(cs, u);
        var j :| 0 <= j < |cs| && u in cs[j];
        OnCycleIff(graph, u);
        CyclicIff(AdjacencyOf(graph), cs[j], u);
        assert false;
      }
    }
  }
}
