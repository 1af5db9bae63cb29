/** What the listing of a graph's edges decides about the cycles reported, and their order. */
module CycleOrder {
  import opened Basics
  import opened Ordering
  import opened TextOrder
  import opened GraphSpec
  import opened CycleGraph
  import opened Cycles

  /** The first entity's identifier is no later than the other's, as texts. */
  predicate BeginsNoLater(x: Cycle, y: Cycle) {
    x.entities != [] && y.entities != [] && TextAtMost(x.entities[0].id, y.entities[0].id)
  }

  /** The cycles come in the order of the identifiers they begin with. */
  lemma CyclesInOrder(graph: Graph, cycles: seq<Cycle>)
    requires OneOfEach(graph, cycles) && Sorted(CycleRow, cycles)
    ensures forall i, j :: 0 <= i < j < |cycles| ==> BeginsNoLater(cycles[i], cycles[j])
  {
    hide Represented, OnCycle, BeginsFirst, LeastThrough, AtMost;
    forall i, j | 0 <= i < j < |cycles| ensures BeginsNoLater(cycles[i], cycles[j]) {
      assert cycles[i] in cycles && cycles[j] in cycles;
      TextRowOrder(cycles[i].entities[0].id, cycles[j].entities[0].id);
    }
  }

  /** The same nodes, and the same edges in any listing. */
  ghost predicate SameGraph(g: Graph, h: Graph) {
    g.nodes == h.nodes && forall e :: e in g.edges <==> e in h.edges
  }

  // ----- Walks do not depend on the listing -----

  lemma SameResolved(g: Graph, h: Graph, e: Edge)
    requires SameGraph(g, h)
    ensures e in Resolved(g) <==> e in Resolved(h)
  {
    ResolvedMembers(g, |g.edges|, e);
    ResolvedMembers(h, |h.edges|, e);
    assert g.edges[..|g.edges|] == g.edges && h.edges[..|h.edges|] == h.edges;
  }

  lemma {:induction false} SameLeads(g: Graph, h: Graph, a: EntityRef, edges: seq<Edge>, b: EntityRef)
    requires SameGraph(g, h)
    ensures Leads(Resolved(g), Forward, a, edges, b) <==> Leads(Resolved(h), Forward, a, edges, b)
    decreases |edges|
  {
    hide Resolved;
    if edges != [] {
      var n := |edges| - 1;
      SameResolved(g, h, edges[n]);
      SameLeads(g, h, a, edges[..n], edges[n].source);
    }
  }

  lemma SameReachable(g: Graph, h: Graph, a: EntityRef, b: EntityRef)
    requires SameGraph(g, h)
    ensures MutualEntities(Resolved(g), a, b) ==> MutualEntities(Resolved(h), a, b)
    ensures OnCycle(Resolved(g), a) ==> OnCycle(Resolved(h), a)
  {
    hide Resolved, Leads;
    forall c, edges, d ensures Leads(Resolved(g), Forward, c, edges, d) <==> Leads(Resolved(h), Forward, c, edges, d) {
      SameLeads(g, h, c, edges, d);
    }
  }

  // ----- One cycle of each group -----

  lemma PrefixesAgree(a: seq<EntityRef>, b: seq<EntityRef>, n: nat)
    requires n <= |a| && n <= |b| && a[..n] == b[..n]
    ensures forall m :: 0 <= m < n ==> a[m] == b[m]
  {
    forall m | 0 <= m < n ensures a[m] == b[m] {
      assert a[..n][m] == b[..n][m];
    }
  }

  lemma EntitiesBeforeOnce(a: seq<EntityRef>, b: seq<EntityRef>)
    requires |a| == |b|
    ensures !(EntitiesBefore(a, b) && EntitiesBefore(b, a))
  {
    hide EntityBefore;
    if EntitiesBefore(a, b) && EntitiesBefore(b, a) {
      var m: nat :| m < |a| && a[..m] == b[..m] && EntityBefore(a[m], b[m]);
      var n: nat :| n < |a| && b[..n] == a[..n] && EntityBefore(b[n], a[n]);
      EntityLaws(a[m], b[m], a[m]);
      EntityLaws(b[n], a[n], b[n]);
      PrefixesAgree(a, b, m);
      PrefixesAgree(a, b, n);
    }
  }

  /** Two cycles through one entity, each the least in its listing, go through the same
      entities. */
  lemma SameEntities(g: Graph, h: Graph, x: Cycle, y: Cycle)
    requires SameGraph(g, h)
    requires ShortestThrough(Resolved(g), x) && LeastThrough(g, x)
    requires ShortestThrough(Resolved(h), y) && LeastThrough(h, y)
    requires x.entities[0] == y.entities[0]
    ensures x.entities == y.entities
  {
    hide Resolved, Leads, EntitiesBefore, FirstOfParallel;
    var u := x.entities[0];
    SameLeads(g, h, u, x.edges, u);
    SameLeads(g, h, u, y.edges, u);
    assert |x.edges| == |y.edges|;
    EntitiesBeforeOnce(TargetsOf(x.edges), TargetsOf(y.edges));
    assert TargetsOf(x.edges) == TargetsOf(y.edges);
    forall i | 0 <= i < |x.entities| ensures x.entities[i] == y.entities[i] {
      if i > 0 {
        assert TargetsOf(x.edges)[i - 1] == TargetsOf(y.edges)[i - 1];
      }
    }
  }

  lemma {:induction false} SourcesAre(g: seq<Edge>, a: EntityRef, edges: seq<Edge>, b: EntityRef, i: nat)
    requires Leads(g, Forward, a, edges, b) && i < |edges|
    ensures edges[i].source == (if i == 0 then a else edges[i - 1].target)
    decreases |edges|
  {
    var n := |edges| - 1;
    if i < n {
      SourcesAre(g, a, edges[..n], edges[n].source, i);
    } else if n > 0 {
      assert edges[..n][n - 1] == edges[n - 1];
    }
  }

  lemma FirstIsOne(graph: Graph, e: Edge, f: Edge)
    requires FirstOfParallel(graph, e) && FirstOfParallel(graph, f) && e.source == f.source && e.target == f.target
    ensures e == f
  {
  }

  /** Two cycles of one listing through the same entities are one. */
  lemma SameEdges(graph: Graph, x: Cycle, y: Cycle)
    requires ShortestThrough(Resolved(graph), x) && ShortestThrough(Resolved(graph), y) && x.entities == y.entities
    requires forall e :: e in x.edges || e in y.edges ==> FirstOfParallel(graph, e)
    ensures x == y
  {
    hide Resolved, Leads, FirstOfParallel;
    forall i | 0 <= i < |x.edges| ensures x.edges[i] == y.edges[i] {
      SourcesAre(Resolved(graph), x.entities[0], x.edges, x.entities[0], i);
      SourcesAre(Resolved(graph), y.entities[0], y.edges, y.entities[0], i);
      assert x.edges[i].target == x.entities[i + 1] == y.edges[i].target;
      assert i > 0 ==> x.edges[i - 1].target == x.entities[i] == y.edges[i - 1].target;
      assert x.edges[i] in x.edges && y.edges[i] in y.edges;
      FirstIsOne(graph, x.edges[i], y.edges[i]);
    }
  }

  lemma CycleClosed(g: seq<Edge>, x: Cycle)
    requires ShortestThrough(g, x)
    ensures x.entities != [] && OnCycle(g, x.entities[0])
  {
  }

  /** The group of a reported cycle has one in the other listing too, beginning at the same
      entity. */
  lemma ReportedThere(g: Graph, h: Graph, cycles: seq<Cycle>, others: seq<Cycle>, x: Cycle) returns (y: Cycle)
    requires SameGraph(g, h) && OneOfEach(g, cycles) && OneOfEach(h, others) && x in cycles
    ensures y in others && x.entities != [] && y.entities != [] && y.entities[0] == x.entities[0]
  {
    hide Resolved, ShortestThrough, LeastThrough, OnCycle, Reachable, Position;
    CycleClosed(Resolved(g), x);
    var e := x.entities[0];
    SameReachable(g, h, e, e);
    assert Represented(Resolved(h), others, e);
    y :| y in others && Represents(Resolved(h), y, e);
    var f := y.entities[0];
    SameReachable(h, g, f, e);
    assert MutualEntities(Resolved(g), e, f) && MutualEntities(Resolved(h), f, e);
    PositionIs(g.nodes, e);
    PositionIs(g.nodes, f);
  }

  /** Listing a graph's edges in another order, or one of them twice, changes no entities of
      the cycles reported. A reported cycle is reported for another listing as well exactly
      when its edges come first there among those with the same ends. */
  lemma ListingIff(g: Graph, h: Graph, cycles: seq<Cycle>, others: seq<Cycle>, x: Cycle)
    requires SameGraph(g, h) && OneOfEach(g, cycles) && OneOfEach(h, others) && x in cycles
    ensures exists y :: y in others && y.entities == x.entities
    ensures x in others <==> forall e :: e in x.edges ==> FirstOfParallel(h, e)
  {
    hide Resolved, ShortestThrough, OnCycle, BeginsFirst, Represents, Represented, EntitiesBefore, FirstOfParallel;
    var y := ReportedThere(g, h, cycles, others, x);
    SameEntities(g, h, x, y);
    if forall e :: e in x.edges ==> FirstOfParallel(h, e) {
      SameShortest(g, h, x);
      SameEdges(h, x, y);
    }
  }

  lemma SameShortest(g: Graph, h: Graph, x: Cycle)
    requires SameGraph(g, h) && ShortestThrough(Resolved(g), x)
    ensures ShortestThrough(Resolved(h), x)
  {
    hide Resolved, Leads;
    forall edges ensures Leads(Resolved(g), Forward, x.entities[0], edges, x.entities[0])
                         <==> Leads(Resolved(h), Forward, x.entities[0], edges, x.entities[0]) {
      SameLeads(g, h, x.entities[0], edges, x.entities[0]);
    }
  }

  /** No two different edges have the same ends. */
  ghost predicate NoParallel(graph: Graph) {
    forall e, f :: e in graph.edges && f in graph.edges && e.source == f.source && e.target == f.target ==> e == f
  }

  lemma FirstListed(graph: Graph, e: Edge)
    requires NoParallel(graph) && e in graph.edges
    ensures FirstOfParallel(graph, e)
  {
    FirstOccurrence(graph.edges, e);
    var k :| 0 <= k < |graph.edges| && graph.edges[k] == e && e !in graph.edges[..k];
    forall j | 0 <= j < k ensures graph.edges[j].source != e.source || graph.edges[j].target != e.target {
      assert graph.edges[j] in graph.edges && graph.edges[j] in graph.edges[..k];
    }
  }

  /** Without parallel edges, the listing makes no difference to the cycles, and none to their
      order when they begin with different identifiers. */
  lemma ListingIrrelevant(g: Graph, h: Graph, cycles: seq<Cycle>, others: seq<Cycle>)
    requires SameGraph(g, h) && NoParallel(g) && OneOfEach(g, cycles) && OneOfEach(h, others)
    requires Sorted(CycleRow, cycles) && Sorted(CycleRow, others)
    ensures forall x :: x in cycles <==> x in others
    ensures (forall x, y :: x in cycles && y in cycles && CycleRow(x) == CycleRow(y) ==> x == y) ==> cycles == others
  {
    hide OneOfEach, CycleRow, FirstOfParallel, Sort;
    forall x ensures x in cycles <==> x in others {
      if x in cycles {
        EdgesListed(g, cycles, x);
        forall e | e in x.edges ensures FirstOfParallel(h, e) {
          FirstListed(h, e);
        }
        ListingIff(g, h, cycles, others, x);
      }
      if x in others {
        EdgesListed(h, others, x);
        forall e | e in x.edges ensures FirstOfParallel(g, e) {
          FirstListed(g, e);
        }
        ListingIff(h, g, others, cycles, x);
      }
    }
    if forall x, y :: x in cycles && y in cycles && CycleRow(x) == CycleRow(y) ==> x == y {
      CyclesDiffer(g, cycles);
      CyclesDiffer(h, others);
      StrictIfDiffer(cycles);
      StrictIfDiffer(others);
      StrictUnique(CycleRow, cycles, others);
    }
  }

  lemma EdgesListed(graph: Graph, cycles: seq<Cycle>, x: Cycle)
    requires OneOfEach(graph, cycles) && x in cycles
    ensures forall e :: e in x.edges ==> e in graph.edges
  {
    hide ShortestThrough, OnCycle, BeginsFirst, Represents, Represented, EntitiesBefore, Leads;
    forall e | e in x.edges ensures e in graph.edges {
      assert FirstOfParallel(graph, e);
    }
  }

  lemma StrictIfDiffer(cycles: seq<Cycle>)
    requires Differ(cycles) && Sorted(CycleRow, cycles)
    requires forall x, y :: x in cycles && y in cycles && CycleRow(x) == CycleRow(y) ==> x == y
    ensures Strict(CycleRow, cycles)
  {
    hide CycleRow, Less;
    forall i, j | 0 <= i < j < |cycles| ensures Less(CycleRow(cycles[i]), CycleRow(cycles[j])) {
      assert cycles[i] in cycles && cycles[j] in cycles;
    }
  }
}
