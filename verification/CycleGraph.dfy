/** A graph as the nodes and hops that `cycles.rs` searches, and what walks along those
    hops are in the graph itself. */
module CycleGraph {
  import opened Basics
  import opened Ordering
  import opened GraphSpec
  import opened Reachability
  import opened HopOrder

  datatype Graph = Graph(nodes: seq<EntityRef>, edges: seq<Edge>)

  /** Where an entity is first listed. */
  function Position(nodes: seq<EntityRef>, e: EntityRef): (p: Option<nat>)
    ensures p.Some? ==> p.value < |nodes| && nodes[p.value] == e && forall i :: 0 <= i < p.value ==> nodes[i] != e
    ensures p.None? <==> e !in nodes
  {
    if nodes == [] then None
    else if nodes[0] == e then Some(0)
    else
      match Position(nodes[1..], e)
      case None => None
      case Some(p) => Some(p + 1)
  }

  /** The edge with both ends among the nodes. */
  predicate Resolves(nodes: seq<EntityRef>, e: Edge) {
    e.source in nodes && e.target in nodes
  }

  /** The edges with both ends among the nodes. Others are not followed. */
  function Resolved(graph: Graph): seq<Edge> {
    ResolvedUpTo(graph, |graph.edges|)
  }

  function ResolvedUpTo(graph: Graph, n: nat): seq<Edge>
    requires n <= |graph.edges|
  {
    if n == 0 then []
    else ResolvedUpTo(graph, n - 1) + if Resolves(graph.nodes, graph.edges[n - 1]) then [graph.edges[n - 1]] else []
  }

  lemma {:induction false} ResolvedMembers(graph: Graph, n: nat, e: Edge)
    requires n <= |graph.edges|
    ensures e in ResolvedUpTo(graph, n) <==> Resolves(graph.nodes, e) && e in graph.edges[..n]
  {
    if n > 0 {
      ResolvedMembers(graph, n - 1, e);
      assert graph.edges[..n] == graph.edges[..n - 1] + [graph.edges[n - 1]];
    }
  }

  /** The hops out of a node that the first `n` edges give, in the order of the edges. */
  function HopsUpTo(graph: Graph, n: nat, u: nat): seq<Hop>
    requires n <= |graph.edges|
  {
    if n == 0 then []
    else
      var e := graph.edges[n - 1];
      HopsUpTo(graph, n - 1, u)
      + match Position(graph.nodes, e.target)
        case None => []
        case Some(v) => if Position(graph.nodes, e.source) == Some(u) then [Hop(n - 1, v)] else []
  }

  function HopRow(nodes: seq<EntityRef>): Hop -> Row {
    (h: Hop) => if h.target < |nodes| then EntityRow(nodes[h.target]) else []
  }

  function AdjacencyOf(graph: Graph): (adj: Adjacency)
    ensures |adj| == |graph.nodes|
  {
    seq(|graph.nodes|,
        u requires 0 <= u < |graph.nodes| => Sort(HopRow(graph.nodes), HopsUpTo(graph, |graph.edges|, u)))
  }

  /** The two loops: a hop for every edge, then every node's hops in canonical order. */
  method BuildAdjacency(graph: Graph) returns (adj: Adjacency)
    ensures adj == AdjacencyOf(graph)
  {
    hide Position, Sort;
    adj := seq(|graph.nodes|, _ => []);
    for n := 0 to |graph.edges|
      invariant |adj| == |graph.nodes| && forall u :: 0 <= u < |adj| ==> adj[u] == HopsUpTo(graph, n, u)
    {
      var source := Position(graph.nodes, graph.edges[n].source);
      if source.None? {
        continue;
      }
      var target := Position(graph.nodes, graph.edges[n].target);
      if target.None? {
        continue;
      }
      adj := adj[source.value := adj[source.value] + [Hop(n, target.value)]];
    }
    for u := 0 to |adj|
      invariant |adj| == |graph.nodes|
      invariant forall v :: 0 <= v < u ==> adj[v] == Sort(HopRow(graph.nodes), HopsUpTo(graph, |graph.edges|, v))
      invariant forall v :: u <= v < |adj| ==> adj[v] == HopsUpTo(graph, |graph.edges|, v)
    {
      adj := adj[u := Sort(HopRow(graph.nodes), adj[u])];
    }
  }

  lemma {:induction false} HopsMembers(graph: Graph, n: nat, u: nat, h: Hop)
    requires n <= |graph.edges|
    ensures h in HopsUpTo(graph, n, u)
            <==> && h.edge < n && Position(graph.nodes, graph.edges[h.edge].source) == Some(u)
                 && Position(graph.nodes, graph.edges[h.edge].target) == Some(h.target)
  {
    hide Position;
    if n > 0 {
      HopsMembers(graph, n - 1, u, h);
    }
  }

  /** A node's hops are the edges from it, each to the place its target is first listed. */
  lemma HopIff(graph: Graph, u: nat, h: Hop)
    requires u < |graph.nodes|
    ensures h in AdjacencyOf(graph)[u]
            <==> && h.edge < |graph.edges| && Position(graph.nodes, graph.edges[h.edge].source) == Some(u)
                 && Position(graph.nodes, graph.edges[h.edge].target) == Some(h.target)
  {
    hide Position, Sort;
    HopsMembers(graph, |graph.edges|, u, h);
    SortedDiffer(HopRow(graph.nodes), HopsUpTo(graph, |graph.edges|, u));
  }

  lemma AdjacencyIsValid(graph: Graph)
    ensures ValidAdjacency(AdjacencyOf(graph))
  {
    var adj := AdjacencyOf(graph);
    hide AdjacencyOf, Position;
    forall u: nat, k: nat | IsHop(adj, u, k) ensures To(adj, u, k) < |adj| {
      HopIff(graph, u, adj[u][k]);
    }
  }

  // ----- The order of the hops -----

  ghost predicate Ascends(hops: seq<Hop>) {
    forall i, j :: 0 <= i < j < |hops| ==> hops[i].edge < hops[j].edge
  }

  lemma AscendsOneMore(hops: seq<Hop>, h: Hop)
    requires Ascends(hops) && forall k :: k in hops ==> k.edge < h.edge
    ensures Ascends(hops + [h])
  {
    forall i | 0 <= i < |hops| ensures hops[i].edge < h.edge {
      assert hops[i] in hops;
    }
  }

  lemma {:induction false} HopsAscend(graph: Graph, n: nat, u: nat)
    requires n <= |graph.edges|
    ensures Ascends(HopsUpTo(graph, n, u))
  {
    hide Position;
    if n > 0 {
      var before := HopsUpTo(graph, n - 1, u);
      HopsAscend(graph, n - 1, u);
      forall h | h in before ensures h.edge < n - 1 {
        HopsMembers(graph, n - 1, u, h);
      }
      hide Ascends;
      var all := HopsUpTo(graph, n, u);
      if all != before {
        AscendsOneMore(before, all[|all| - 1]);
        assert all == before + [all[|all| - 1]];
      }
    }
  }

  lemma {:induction false} HavingAscends(row: Hop -> Row, k: Row, hops: seq<Hop>)
    requires Ascends(hops)
    ensures Ascends(Having(row, k, hops))
  {
    if hops != [] {
      var rest := hops[1..];
      HavingAscends(row, k, rest);
      forall h | h in Having(row, k, rest) ensures hops[0].edge < h.edge {
        HavingMembers(row, k, rest, h);
      }
    }
  }

  /** In a list whose elements of one key ascend, of two with that key the earlier one is
      less. */
  lemma {:induction false} AscendWithin(row: Hop -> Row, hops: seq<Hop>, i: nat, j: nat)
    requires i < j < |hops| && row(hops[i]) == row(hops[j])
    requires Ascends(Having(row, row(hops[i]), hops))
    ensures hops[i].edge < hops[j].edge
    decreases i
  {
    var k, rest := row(hops[i]), hops[1..];
    if i == 0 {
      HavingMembers(row, k, rest, hops[j]);
      assert rest[j - 1] == hops[j];
      var m :| 0 <= m < |Having(row, k, rest)| && Having(row, k, rest)[m] == hops[j];
      assert Having(row, k, hops)[0] == hops[0] && Having(row, k, hops)[m + 1] == hops[j];
    } else {
      assert rest[i - 1] == hops[i] && rest[j - 1] == hops[j];
      LaterAscend(row, k, hops);
      AscendWithin(row, rest, i - 1, j - 1);
    }
  }

  lemma LaterAscend(row: Hop -> Row, k: Row, hops: seq<Hop>)
    requires hops != [] && Ascends(Having(row, k, hops))
    ensures Ascends(Having(row, k, hops[1..]))
  {
    var all, rest := Having(row, k, hops), Having(row, k, hops[1..]);
    assert rest == if row(hops[0]) == k then all[1..] else all;
  }

  /** A node's hops come in the order of the entities they lead to, and those to one entity
      in the order of the graph's edges. */
  lemma HopsInOrder(graph: Graph, u: nat, i: nat, j: nat)
    requires u < |graph.nodes| && i < j < |AdjacencyOf(graph)[u]|
    ensures var h, k := AdjacencyOf(graph)[u][i], AdjacencyOf(graph)[u][j];
            && h.target < |graph.nodes| && k.target < |graph.nodes|
            && (EntityBefore(graph.nodes[h.target], graph.nodes[k.target]) || (h.target == k.target && h.edge < k.edge))
  {
    hide Position, Sort, Less, EntityBefore, EntityRow, HopsUpTo;
    var own, row := HopsUpTo(graph, |graph.edges|, u), HopRow(graph.nodes);
    var sorted := AdjacencyOf(graph)[u];
    var h, k := sorted[i], sorted[j];
    SortFacts(row, own);
    HopIff(graph, u, h);
    HopIff(graph, u, k);
    HopsAscend(graph, |graph.edges|, u);
    HavingAscends(row, row(h), own);
    assert AtMost(row(h), row(k));
    EntityOrder(graph.nodes[h.target], graph.nodes[k.target]);
    if row(h) == row(k) {
      AscendWithin(row, sorted, i, j);
    }
  }

  /** The order of two hops of one node is that of the entities they lead to, and then of
      their edges. */
  lemma HopOrderIs(graph: Graph, u: nat, h: Hop, k: Hop)
    requires u < |graph.nodes| && h in AdjacencyOf(graph)[u] && k in AdjacencyOf(graph)[u]
    ensures h.target < |graph.nodes| && k.target < |graph.nodes|
    ensures At(AdjacencyOf(graph)[u], h) < At(AdjacencyOf(graph)[u], k)
            ==> EntityBefore(graph.nodes[h.target], graph.nodes[k.target]) || (h.target == k.target && h.edge < k.edge)
  {
    hide Position, AdjacencyOf, EntityBefore;
    var hops := AdjacencyOf(graph)[u];
    HopIff(graph, u, h);
    HopIff(graph, u, k);
    if At(hops, h) < At(hops, k) {
      HopsInOrder(graph, u, At(hops, h), At(hops, k));
    }
  }

  // ----- Walks in the graph -----

  /** The graph's edges that hops take. */
  function EdgesTaken(graph: Graph, hops: seq<Hop>): seq<Edge>
    requires forall i :: 0 <= i < |hops| ==> hops[i].edge < |graph.edges|
  {
    seq(|hops|, i requires 0 <= i < |hops| => graph.edges[hops[i].edge])
  }

  lemma {:induction false} WalkLifted(graph: Graph, u: nat, hops: seq<Hop>, v: nat)
    requires u < |graph.nodes| && HopWalk(AdjacencyOf(graph), u, hops, v)
    ensures v < |graph.nodes| && forall i :: 0 <= i < |hops| ==> hops[i].edge < |graph.edges|
    ensures Leads(Resolved(graph), Forward, graph.nodes[u], EdgesTaken(graph, hops), graph.nodes[v])
    decreases |hops|
  {
    hide Position, AdjacencyOf, ResolvedUpTo;
    if hops != [] {
      var n := |hops| - 1;
      var w: nat :| HopWalk(AdjacencyOf(graph), u, hops[..n], w) && w < |graph.nodes|
                    && hops[n] in AdjacencyOf(graph)[w]
                    && hops[n].target == v;
      WalkLifted(graph, u, hops[..n], w);
      HopIff(graph, w, hops[n]);
      var e := graph.edges[hops[n].edge];
      ResolvedMembers(graph, |graph.edges|, e);
      assert graph.edges[..|graph.edges|] == graph.edges;
      assert forall i :: 0 <= i < n ==> hops[..n][i] == hops[i];
      assert EdgesTaken(graph, hops)[..n] == EdgesTaken(graph, hops[..n]);
    }
  }

  lemma {:induction false} WalkLowered(graph: Graph, u: nat, edges: seq<Edge>, end: EntityRef)
    returns (hops: seq<Hop>, v: nat)
    requires u < |graph.nodes| && Position(graph.nodes, graph.nodes[u]) == Some(u)
    requires Leads(Resolved(graph), Forward, graph.nodes[u], edges, end)
    ensures HopWalk(AdjacencyOf(graph), u, hops, v) && |hops| == |edges| && Position(graph.nodes, end) == Some(v)
    ensures forall i :: 0 <= i < |hops| ==> hops[i].edge < |graph.edges| && graph.edges[hops[i].edge] == edges[i]
    decreases |edges|
  {
    hide Position, AdjacencyOf, ResolvedUpTo, HopWalk;
    if edges == [] {
      hops, v := [], u;
      NoHops(AdjacencyOf(graph), u);
    } else {
      var n := |edges| - 1;
      var e := edges[n];
      var w: nat;
      hops, w := WalkLowered(graph, u, edges[..n], e.source);
      ResolvedMembers(graph, |graph.edges|, e);
      assert graph.edges[..|graph.edges|] == graph.edges;
      var k: nat :| k < |graph.edges| && graph.edges[k] == e;
      v := Position(graph.nodes, e.target).value;
      HopIff(graph, w, Hop(k, v));
      HopFurther(AdjacencyOf(graph), u, hops, w, Hop(k, v));
      hops := hops + [Hop(k, v)];
    }
  }
}
