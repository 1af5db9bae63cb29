/** The cycles a traversal reports beside what it finds: those of the graph whose entities
    it has all visited. */
module TraversalCycles {
  import opened Ordering
  import opened GraphSpec
  import opened CycleGraph
  import opened Cycles
  import opened Traversal
  import opened TraversalResults

  /** Every entity of the cycle was visited. */
  predicate AllVisited(visited: seq<EntityRef>, x: Cycle) {
    forall i :: 0 <= i < |x.entities| ==> x.entities[i] in visited
  }

  function VisitedOnly(visited: seq<EntityRef>, cycles: seq<Cycle>): seq<Cycle> {
    if cycles == [] then []
    else (if AllVisited(visited, cycles[0]) then [cycles[0]] else []) + VisitedOnly(visited, cycles[1..])
  }

  lemma {:induction false} VisitedOnlyMembers(visited: seq<EntityRef>, cycles: seq<Cycle>, x: Cycle)
    ensures x in VisitedOnly(visited, cycles) <==> x in cycles && AllVisited(visited, x)
  {
    hide AllVisited;
    if cycles != [] {
      VisitedOnlyMembers(visited, cycles[1..], x);
      assert cycles == [cycles[0]] + cycles[1..];
    }
  }

  function EntitiesFound(start: EntityRef, w: Walk): (visited: seq<EntityRef>)
    ensures forall v :: v in visited <==> Found(w, start, v)
  {
    var visited := [start] + seq(|w.entries|, i requires 0 <= i < |w.entries| => w.entries[i].entity);
    assert forall v :: v in visited <==> Found(w, start, v) by {
      forall v ensures v in visited <==> Found(w, start, v) {
        if r :| r in w.entries && r.entity == v {
          var i :| 0 <= i < |w.entries| && w.entries[i] == r;
          assert visited[i + 1] == v;
        }
      }
    }
    visited
  }

  /** Of the graph's cycles, one for each group and in order, those whose entities were all
      found. */
  ghost predicate ReportsFound(graph: Graph, start: EntityRef, w: Walk, cycles: seq<Cycle>) {
    exists all :: OneOfEach(graph, all) && Sorted(CycleRow, all) && cycles == VisitedOnly(EntitiesFound(start, w), all)
  }

  method TraverseGraph(graph: Graph, start: EntityRef, limits: Limits, d: Direction)
    returns (w: Walk, cycles: seq<Cycle>)
    ensures Promised(graph.edges, d, start, limits, w)
    ensures ReportsFound(graph, start, w, cycles)
  {
    hide Promised, OneOfEach, Found, AllVisited, EntitiesFound, Sorted;
    w := Traverse(graph.edges, start, limits, d);
    var visited := EntitiesFound(start, w);
    var all := Find(graph);
    cycles := [];
    for n := 0 to |all|
      invariant cycles + VisitedOnly(visited, all[n..]) == VisitedOnly(visited, all)
    {
      assert all[n..][1..] == all[n + 1..];
      if AllVisited(visited, all[n]) {
        cycles := cycles + [all[n]];
      }
    }
    assert all[|all|..] == [];
    assert ReportsFound(graph, start, w, cycles);
  }

  lemma ReportedIff(start: EntityRef, w: Walk, all: seq<Cycle>, x: Cycle)
    ensures x in VisitedOnly(EntitiesFound(start, w), all)
            <==> x in all && forall i :: 0 <= i < |x.entities| ==> Found(w, start, x.entities[i])
  {
    hide Found, VisitedOnly;
    VisitedOnlyMembers(EntitiesFound(start, w), all, x);
  }

  // ----- What is reported -----

  lemma {:induction false} LeadsOn(
    g: seq<Edge>, d: Direction, a: EntityRef, first: seq<Edge>, b: EntityRef, rest: seq<Edge>, c: EntityRef)
    requires Leads(g, d, a, first, b) && Leads(g, d, b, rest, c)
    ensures Leads(g, d, a, first + rest, c)
    decreases |rest|
  {
    if rest == [] {
      assert first + rest == first;
    } else {
      var n := |rest| - 1;
      LeadsOn(g, d, a, first, b, rest[..n], Near(rest[n], d));
      assert (first + rest)[..|first| + n] == first + rest[..n];
    }
  }

  lemma ReachableOn(g: seq<Edge>, d: Direction, a: EntityRef, b: EntityRef, c: EntityRef)
    requires Reachable(g, d, a, b) && Reachable(g, d, b, c)
    ensures Reachable(g, d, a, c)
  {
    var first :| Leads(g, d, a, first, b);
    var rest :| Leads(g, d, b, rest, c);
    LeadsOn(g, d, a, first, b, rest, c);
  }

  function Opposite(d: Direction): Direction {
    if d.Forward? then Reverse else Forward
  }

  /** A walk against the edges is one along them the other way. */
  lemma {:induction false} Turned(g: seq<Edge>, d: Direction, a: EntityRef, edges: seq<Edge>, b: EntityRef)
    requires Leads(g, d, a, edges, b)
    ensures Reachable(g, Opposite(d), b, a)
    decreases |edges|
  {
    if edges == [] {
      assert Leads(g, Opposite(d), b, [], a);
    } else {
      var n := |edges| - 1;
      Turned(g, d, a, edges[..n], Near(edges[n], d));
      assert [edges[n]][..0] == [];
      assert Leads(g, Opposite(d), b, [edges[n]], Near(edges[n], d));
      ReachableOn(g, Opposite(d), b, Near(edges[n], d), a);
    }
  }

  lemma {:induction false} LeadsInAll(graph: Graph, a: EntityRef, edges: seq<Edge>, b: EntityRef)
    requires Leads(Resolved(graph), Forward, a, edges, b)
    ensures Leads(graph.edges, Forward, a, edges, b)
    decreases |edges|
  {
    hide ResolvedUpTo;
    if edges != [] {
      var n := |edges| - 1;
      ResolvedMembers(graph, |graph.edges|, edges[n]);
      assert graph.edges[..|graph.edges|] == graph.edges;
      LeadsInAll(graph, a, edges[..n], edges[n].source);
    }
  }

  /** What depends on an entity and is depended on by it is reached in either direction. */
  lemma MutualIsReached(graph: Graph, d: Direction, a: EntityRef, b: EntityRef)
    requires MutualEntities(Resolved(graph), a, b)
    ensures Reachable(graph.edges, d, a, b)
  {
    hide Resolved, Leads;
    var out :| Leads(Resolved(graph), Forward, a, out, b);
    var back :| Leads(Resolved(graph), Forward, b, back, a);
    LeadsInAll(graph, a, out, b);
    LeadsInAll(graph, b, back, a);
    if d.Reverse? {
      Turned(graph.edges, Forward, b, back, a);
    }
  }

  lemma {:induction false} PartOfWalk(g: seq<Edge>, a: EntityRef, edges: seq<Edge>, b: EntityRef, i: nat)
    requires Leads(g, Forward, a, edges, b) && i < |edges|
    ensures Reachable(g, Forward, a, edges[i].target) && Reachable(g, Forward, edges[i].target, b)
    decreases |edges|
  {
    var n := |edges| - 1;
    if i == n {
      assert Leads(g, Forward, b, [], b);
    } else {
      PartOfWalk(g, a, edges[..n], edges[n].source, i);
      assert edges[..n][i] == edges[i];
      assert [edges[n]][..0] == [];
      assert Leads(g, Forward, edges[n].source, [edges[n]], b);
      ReachableOn(g, Forward, edges[i].target, edges[n].source, b);
    }
  }

  lemma CycleEntitiesMutual(g: seq<Edge>, x: Cycle, i: nat)
    requires ShortestThrough(g, x) && i < |x.entities|
    ensures MutualEntities(g, x.entities[0], x.entities[i])
  {
    hide Leads;
    if i == 0 {
      NoEdges(g, x.entities[0]);
    } else {
      PartOfWalk(g, x.entities[0], x.edges, x.entities[0], i - 1);
    }
  }

  lemma NoEdges(g: seq<Edge>, a: EntityRef)
    ensures Reachable(g, Forward, a, a)
  {
    assert Leads(g, Forward, a, [], a);
  }

  /** A result that misses nothing, above all one without a mark, reports a cycle of every
      group it has reached, in either direction. */
  lemma ReachedGroupsReported(
    graph: Graph, d: Direction, start: EntityRef, w: Walk, cycles: seq<Cycle>, e: EntityRef)
    requires ReportsFound(graph, start, w, cycles) && !Missed(graph.edges, d, start, w)
    requires OnCycle(Resolved(graph), e) && Reachable(graph.edges, d, start, e)
    ensures Represented(Resolved(graph), cycles, e)
  {
    hide Resolved, Reachable, ShortestThrough, OnCycle, BeginsFirst, Found, VisitedOnly, EntitiesFound, Sorted;
    var all :| OneOfEach(graph, all) && Sorted(CycleRow, all) && cycles == VisitedOnly(EntitiesFound(start, w), all);
    assert Represented(Resolved(graph), all, e);
    var x :| x in all && Represents(Resolved(graph), x, e);
    forall i | 0 <= i < |x.entities| ensures Found(w, start, x.entities[i]) {
      CycleEntitiesMutual(Resolved(graph), x, i);
      MutualIsReached(graph, d, x.entities[0], x.entities[i]);
      MutualIsReached(graph, d, e, x.entities[0]);
      ReachableOn(graph.edges, d, start, e, x.entities[0]);
      ReachableOn(graph.edges, d, start, x.entities[0], x.entities[i]);
    }
    ReportedIff(start, w, all, x);
  }

  /** Whatever is reported is a shortest cycle of the graph, one for its group, and wholly
      among what was found. */
  lemma ReportedIsFound(graph: Graph, start: EntityRef, w: Walk, cycles: seq<Cycle>, x: Cycle)
    requires ReportsFound(graph, start, w, cycles) && x in cycles
    ensures ShortestThrough(Resolved(graph), x) && BeginsFirst(graph, x)
    ensures forall i :: 0 <= i < |x.entities| ==> Found(w, start, x.entities[i])
    ensures forall y :: y in cycles && y != x && y.entities != [] ==> !Represents(Resolved(graph), x, y.entities[0])
  {
    hide Resolved, ShortestThrough, OnCycle, BeginsFirst, Found, Represents, VisitedOnly, EntitiesFound, Sorted;
    var all :| OneOfEach(graph, all) && Sorted(CycleRow, all) && cycles == VisitedOnly(EntitiesFound(start, w), all);
    ReportedIff(start, w, all, x);
    forall y | y in cycles ensures y in all {
      ReportedIff(start, w, all, y);
    }
  }
}
