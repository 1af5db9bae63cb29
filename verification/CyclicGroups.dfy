/** The groups of entities that depend on each other, as `components` of `cycles.rs` lists
    them. */
module CyclicGroups {
  import opened Basics
  import opened Ordering
  import opened TextOrder
  import opened GraphSpec
  import opened Reachability
  import opened ShortestCycle
  import opened CycleGraph
  import opened Cycles
  import Tarjan

  function Rendered(e: EntityRef): string {
    e.kind + ":" + e.id
  }

  function ComponentRow(graph: Graph): seq<nat> -> Row {
    (c: seq<nat>) => if c != [] && c[0] < |graph.nodes| then [[|c|], TextField(Rendered(graph.nodes[c[0]]))] else []
  }

  /** The smaller group first, and then by the text of its first entity. */
  function GroupRow(group: seq<EntityRef>): Row {
    if group == [] then [] else [[|group|], TextField(Rendered(group[0]))]
  }

  /** A group holds an entity and exactly those that depend on it and that it depends on, in
      the order of the graph's nodes. */
  ghost predicate IsGroup(graph: Graph, group: seq<EntityRef>) {
    && group != []
    && (forall a :: a in group ==> a in graph.nodes)
    && (forall i, j :: 0 <= i < j < |group| && group[i] in graph.nodes && group[j] in graph.nodes ==>
          Position(graph.nodes, group[i]).value < Position(graph.nodes, group[j]).value)
    && (forall a, b :: a in group ==> (b in group <==> MutualEntities(Resolved(graph), a, b)))
  }

  ghost predicate InGroup(groups: seq<seq<EntityRef>>, e: EntityRef) {
    exists i :: 0 <= i < |groups| && e in groups[i]
  }

  /** Exactly the entities on cycles, each in one group. */
  ghost predicate AllGroups(graph: Graph, groups: seq<seq<EntityRef>>) {
    && (forall i :: 0 <= i < |groups| ==> IsGroup(graph, groups[i]))
    && (forall e :: InGroup(groups, e) <==> OnCycle(Resolved(graph), e))
    && (forall i, j, e :: 0 <= i < j < |groups| && e in groups[i] ==> e !in groups[j])
  }

  // ----- The components kept -----

  ghost predicate KeptOf(adj: Adjacency, cs: seq<seq<nat>>, n: nat, kept: seq<seq<nat>>) {
    && n <= |cs|
    && (forall c :: c in kept <==> c in cs[..n] && Cyclic(adj, c))
    && Differ(kept)
  }

  lemma ComponentsDiffer(adj: Adjacency, cs: seq<seq<nat>>)
    requires Partition(adj, cs)
    ensures Differ(cs)
  {
    hide Mutual;
    forall i, j | 0 <= i < j < |cs| ensures cs[i] != cs[j] {
      assert cs[i][0] in cs[i];
    }
  }

  lemma OneMoreKept(adj: Adjacency, cs: seq<seq<nat>>, n: nat, kept: seq<seq<nat>>)
    requires Partition(adj, cs) && KeptOf(adj, cs, n, kept) && n < |cs|
    ensures KeptOf(adj, cs, n + 1, if Cyclic(adj, cs[n]) then kept + [cs[n]] else kept)
  {
    hide Cyclic, Partition;
    ComponentsDiffer(adj, cs);
    assert cs[..n + 1] == cs[..n] + [cs[n]];
    assert cs[n] !in kept;
  }

  /** What the kept components are, in whatever order. */
  ghost predicate AllKept(graph: Graph, kept: seq<seq<nat>>) {
    && (forall c :: c in kept ==> IsComponent(AdjacencyOf(graph), c) && Cyclic(AdjacencyOf(graph), c))
    && (forall u: nat, hops: seq<Hop> :: u < |graph.nodes| && ClosedWalk(AdjacencyOf(graph), u, hops) ==>
          InSome(kept, u))
    && Differ(kept)
  }

  lemma EverythingKept(graph: Graph, cs: seq<seq<nat>>, kept: seq<seq<nat>>)
    requires Partition(AdjacencyOf(graph), cs) && KeptOf(AdjacencyOf(graph), cs, |cs|, kept)
    ensures AllKept(graph, kept)
  {
    hide Cyclic, IsComponent, ClosedWalk, AdjacencyOf;
    assert cs[..|cs|] == cs;
    forall u: nat, hops: seq<Hop> | u < |graph.nodes| && ClosedWalk(AdjacencyOf(graph), u, hops)
      ensures InSome(kept, u)
    {
      assert InSome(cs, u);
      var i :| 0 <= i < |cs| && u in cs[i];
      CyclicIff(AdjacencyOf(graph), cs[i], u);
      assert cs[i] in cs && cs[i] in kept;
    }
  }

  lemma SortedKept(graph: Graph, kept: seq<seq<nat>>)
    requires AllKept(graph, kept)
    ensures AllKept(graph, Sort(ComponentRow(graph), kept))
  {
    hide Cyclic, IsComponent, ClosedWalk, AdjacencyOf, Sort;
    var sorted := Sort(ComponentRow(graph), kept);
    SortedDiffer(ComponentRow(graph), kept);
    forall u: nat, hops: seq<Hop> | u < |graph.nodes| && ClosedWalk(AdjacencyOf(graph), u, hops)
      ensures InSome(sorted, u)
    {
      assert InSome(kept, u);
      var i :| 0 <= i < |kept| && u in kept[i];
      assert kept[i] in kept && kept[i] in sorted;
    }
  }

  // ----- The groups -----

  lemma KeptFirst(graph: Graph, c: seq<nat>)
    requires IsComponent(AdjacencyOf(graph), c) && Cyclic(AdjacencyOf(graph), c)
    ensures forall i :: 0 <= i < |c| ==> c[i] < |graph.nodes| && Position(graph.nodes, graph.nodes[c[i]]) == Some(c[i])
  {
    hide Position, AdjacencyOf, Cyclic, IsComponent;
    forall i | 0 <= i < |c| ensures c[i] < |graph.nodes| && Position(graph.nodes, graph.nodes[c[i]]) == Some(c[i]) {
      ListedFirst(graph, c, c[i]);
    }
  }

  lemma EntityIff(graph: Graph, c: seq<nat>, e: EntityRef)
    requires forall i :: 0 <= i < |c| ==> c[i] < |graph.nodes| && Position(graph.nodes, graph.nodes[c[i]]) == Some(c[i])
    ensures e in Entities(graph, c) <==> e in graph.nodes && Position(graph.nodes, e).value in c
  {
    hide Position;
    var group := Entities(graph, c);
    PositionIs(graph.nodes, e);
    if e in group {
      var i :| 0 <= i < |c| && group[i] == e;
      assert c[i] in c;
    }
    if e in graph.nodes && Position(graph.nodes, e).value in c {
      var i :| 0 <= i < |c| && c[i] == Position(graph.nodes, e).value;
      assert group[i] == e;
    }
  }

  lemma KeptIsGroup(graph: Graph, c: seq<nat>)
    requires IsComponent(AdjacencyOf(graph), c) && Cyclic(AdjacencyOf(graph), c)
    ensures forall i :: 0 <= i < |c| ==> c[i] < |graph.nodes|
    ensures IsGroup(graph, Entities(graph, c))
    ensures forall e :: e in Entities(graph, c) <==> e in graph.nodes && Position(graph.nodes, e).value in c
  {
    hide Position, AdjacencyOf, Resolved, Cyclic, MutualEntities, IsComponent;
    KeptFirst(graph, c);
    var group := Entities(graph, c);
    forall e ensures e in group <==> e in graph.nodes && Position(graph.nodes, e).value in c {
      EntityIff(graph, c, e);
    }
    InOrder(graph, c);
    forall a, b | a in group ensures b in group <==> MutualEntities(Resolved(graph), a, b) {
      GroupedIff(graph, c, a, b);
    }
    assert |group| == |c| && forall i :: 0 <= i < |c| ==> group[i] == graph.nodes[c[i]];
  }

  lemma GroupedIff(graph: Graph, c: seq<nat>, a: EntityRef, b: EntityRef)
    requires IsComponent(AdjacencyOf(graph), c) && Cyclic(AdjacencyOf(graph), c)
    requires a in graph.nodes && Position(graph.nodes, a).value in c
    ensures b in graph.nodes && Position(graph.nodes, b).value in c <==> MutualEntities(Resolved(graph), a, b)
  {
    hide Position, AdjacencyOf, Resolved, Cyclic, Reachable, IsComponent;
    PositionIs(graph.nodes, a);
    PositionIs(graph.nodes, b);
    var u := Position(graph.nodes, a).value;
    ListedFirst(graph, c, u);
    if b in graph.nodes && Position(graph.nodes, b).value in c {
      var v := Position(graph.nodes, b).value;
      ListedFirst(graph, c, v);
      MembersMutual(AdjacencyOf(graph), c, u, v);
      MutualIff(graph, u, v);
    }
    if MutualEntities(Resolved(graph), a, b) {
      ReachedIsNode(graph, u, b);
      var v := Position(graph.nodes, b).value;
      MutualIff(graph, u, v);
      MembersMutual(AdjacencyOf(graph), c, u, v);
    }
  }

  lemma InOrder(graph: Graph, c: seq<nat>)
    requires IsComponent(AdjacencyOf(graph), c)
    requires forall i :: 0 <= i < |c| ==> c[i] < |graph.nodes| && Position(graph.nodes, graph.nodes[c[i]]) == Some(c[i])
    ensures c != [] && forall i, j :: 0 <= i < j < |c| ==>
              Position(graph.nodes, graph.nodes[c[i]]).value < Position(graph.nodes, graph.nodes[c[j]]).value
  {
    hide Position, AdjacencyOf, Mutual;
    forall i, j | 0 <= i < j < |c|
      ensures Position(graph.nodes, graph.nodes[c[i]]).value < Position(graph.nodes, graph.nodes[c[j]]).value
    {
      assert c[i] < c[j];
    }
  }

  function GroupsOf(graph: Graph, kept: seq<seq<nat>>): (groups: seq<seq<EntityRef>>)
    requires forall i, j :: 0 <= i < |kept| && 0 <= j < |kept[i]| ==> kept[i][j] < |graph.nodes|
  {
    seq(|kept|, i requires 0 <= i < |kept| => Entities(graph, kept[i]))
  }

  lemma KeptFits(graph: Graph, kept: seq<seq<nat>>)
    requires AllKept(graph, kept)
    ensures forall i, j :: 0 <= i < |kept| && 0 <= j < |kept[i]| ==> kept[i][j] < |graph.nodes|
  {
    forall i, j | 0 <= i < |kept| && 0 <= j < |kept[i]| ensures kept[i][j] < |graph.nodes| {
      assert kept[i] in kept && kept[i][j] in kept[i];
    }
  }

  lemma GroupsComplete(graph: Graph, kept: seq<seq<nat>>, e: EntityRef)
    requires AllKept(graph, kept) && forall i, j :: 0 <= i < |kept| && 0 <= j < |kept[i]| ==> kept[i][j] < |graph.nodes|
    ensures InGroup(GroupsOf(graph, kept), e) <==> OnCycle(Resolved(graph), e)
  {
    hide Position, AdjacencyOf, Resolved, Cyclic, IsComponent, IsGroup, ClosedWalk, OnCycle;
    var groups := GroupsOf(graph, kept);
    PositionIs(graph.nodes, e);
    if OnCycle(Resolved(graph), e) {
      CycledIsNode(graph, e);
      var u := Position(graph.nodes, e).value;
      OnCycleIff(graph, u);
      assert InSome(kept, u);
      var i :| 0 <= i < |kept| && u in kept[i];
      assert kept[i] in kept;
      KeptIsGroup(graph, kept[i]);
      assert e in groups[i];
    }
    if InGroup(groups, e) {
      var i :| 0 <= i < |groups| && e in groups[i];
      assert kept[i] in kept;
      KeptIsGroup(graph, kept[i]);
      var u := Position(graph.nodes, e).value;
      ListedFirst(graph, kept[i], u);
      CyclicIff(AdjacencyOf(graph), kept[i], u);
      OnCycleIff(graph, u);
    }
  }

  lemma GroupsFound(graph: Graph, kept: seq<seq<nat>>)
    requires AllKept(graph, kept) && forall i, j :: 0 <= i < |kept| && 0 <= j < |kept[i]| ==> kept[i][j] < |graph.nodes|
    ensures AllGroups(graph, GroupsOf(graph, kept))
  {
    hide Position, AdjacencyOf, Resolved, Cyclic, IsComponent, IsGroup, ClosedWalk, OnCycle, InGroup;
    var groups := GroupsOf(graph, kept);
    forall i | 0 <= i < |groups|
      ensures IsGroup(graph, groups[i])
      ensures forall e :: e in groups[i] <==> e in graph.nodes && Position(graph.nodes, e).value in kept[i]
    {
      assert kept[i] in kept;
      KeptIsGroup(graph, kept[i]);
    }
    forall e ensures InGroup(groups, e) <==> OnCycle(Resolved(graph), e) {
      GroupsComplete(graph, kept, e);
    }
    forall i, j, e | 0 <= i < j < |groups| && e in groups[i] ensures e !in groups[j] {
      assert kept[i] in kept && kept[j] in kept;
      KeptDisjoint(AdjacencyOf(graph), kept[i], kept[j], Position(graph.nodes, e).value);
    }
  }

  lemma KeptDisjoint(adj: Adjacency, c: seq<nat>, d: seq<nat>, u: nat)
    requires IsComponent(adj, c) && IsComponent(adj, d) && c != d
    ensures !(u in c && u in d)
  {
    hide Mutual;
    if u in c && u in d {
      assert forall v :: v in c <==> v in d;
      SameAscending(c, d);
      assert false;
    }
  }

  lemma {:induction false} SameAscending(c: seq<nat>, d: seq<nat>)
    requires (forall i, j :: 0 <= i < j < |c| ==> c[i] < c[j]) && (forall i, j :: 0 <= i < j < |d| ==> d[i] < d[j])
    requires forall v :: v in c <==> v in d
    ensures c == d
    decreases |c|
  {
    if c == [] || d == [] {
      NoMembers(c);
      NoMembers(d);
    } else {
      assert c[0] in d && d[0] in c;
      assert c[0] == d[0];
      forall v ensures v in c[1..] <==> v in d[1..] {
        assert c == [c[0]] + c[1..] && d == [d[0]] + d[1..];
        if v in c[1..] {
          assert v in c && v != c[0];
        }
        if v in d[1..] {
          assert v in d && v != d[0];
        }
      }
      SameAscending(c[1..], d[1..]);
      assert c == [c[0]] + c[1..] && d == [d[0]] + d[1..];
    }
  }

  lemma RowsAgree(graph: Graph, kept: seq<seq<nat>>)
    requires forall i, j :: 0 <= i < |kept| && 0 <= j < |kept[i]| ==> kept[i][j] < |graph.nodes|
    requires Sorted(ComponentRow(graph), kept)
    ensures Sorted(GroupRow, GroupsOf(graph, kept))
  {
    hide Less, Rendered;
    var groups := GroupsOf(graph, kept);
    forall i | 0 <= i < |groups| ensures GroupRow(groups[i]) == ComponentRow(graph)(kept[i]) {
    }
  }

  /** Drops the components without a cycle, puts the others in order and names their
      entities. */
  method Components(graph: Graph) returns (groups: seq<seq<EntityRef>>)
    ensures AllGroups(graph, groups) && Sorted(GroupRow, groups)
  {
    hide Partition, AdjacencyOf, IsComponent, Cyclic, AllKept, AllGroups, KeptOf, Sort, Sorted;
    var adj := BuildAdjacency(graph);
    AdjacencyIsValid(graph);
    var components := Tarjan.FindComponents(adj);
    var kept: seq<seq<nat>> := [];
    NoneKept(adj, components);
    for n := 0 to |components|
      invariant KeptOf(adj, components, n, kept)
    {
      OneMoreKept(adj, components, n, kept);
      if Cyclic(adj, components[n]) {
        kept := kept + [components[n]];
      }
    }
    EverythingKept(graph, components, kept);
    SortedKept(graph, kept);
    SortFacts(ComponentRow(graph), kept);
    kept := Sort(ComponentRow(graph), kept);
    KeptFits(graph, kept);
    GroupsFound(graph, kept);
    RowsAgree(graph, kept);
    groups := GroupsOf(graph, kept);
  }

  lemma NoneKept(adj: Adjacency, cs: seq<seq<nat>>)
    ensures KeptOf(adj, cs, 0, [])
  {
  }

  /** The order of groups: by size, and then by the text of the first entity, its kind and its
      identifier with a colon between. */
  predicate GroupNoLater(g: seq<EntityRef>, h: seq<EntityRef>) {
    && g != [] && h != []
    && (|g| < |h| || (|g| == |h| && TextAtMost(g[0].kind + ":" + g[0].id, h[0].kind + ":" + h[0].id)))
  }

  lemma GroupOrder(g: seq<EntityRef>, h: seq<EntityRef>)
    requires g != [] && h != []
    ensures AtMost(GroupRow(g), GroupRow(h)) <==> GroupNoLater(g, h)
  {
    hide FieldLess, TextBefore, Less, TextField;
    var a, b := Rendered(g[0]), Rendered(h[0]);
    NumberOrder(|g|, |h|);
    TextFieldOrder(a, b);
    OneFieldOrder(TextField(a), TextField(b));
    RowOrder([|g|], [TextField(a)], [|h|], [TextField(b)]);
    assert GroupRow(g) == [[|g|]] + [TextField(a)] && GroupRow(h) == [[|h|]] + [TextField(b)];
    assert GroupRow(g)[0] == [|g|] && GroupRow(g)[1] == TextField(a);
    assert GroupRow(h)[0] == [|h|] && GroupRow(h)[1] == TextField(b);
  }

  lemma GroupsInOrder(graph: Graph, groups: seq<seq<EntityRef>>)
    requires AllGroups(graph, groups) && Sorted(GroupRow, groups)
    ensures forall i, j :: 0 <= i < j < |groups| ==> GroupNoLater(groups[i], groups[j])
  {
    hide OnCycle, MutualEntities, Position, InGroup, GroupRow, AtMost;
    forall i, j | 0 <= i < j < |groups| ensures GroupNoLater(groups[i], groups[j]) {
      assert IsGroup(graph, groups[i]) && IsGroup(graph, groups[j]);
      GroupOrder(groups[i], groups[j]);
    }
  }

  /** The order documented: by the first entity's text and only then by size. */
  predicate DocumentedNoLater(g: seq<EntityRef>, h: seq<EntityRef>) {
    && g != [] && h != []
    && var a, b := g[0].kind + ":" + g[0].id, h[0].kind + ":" + h[0].id;
    TextBefore(a, b) || (a == b && |g| <= |h|)
  }

  /** Two groups come in the order documented exactly when they are of one size or the
      smaller one's first entity comes first: the size is compared first. */
  lemma DocumentedOrderIff(g: seq<EntityRef>, h: seq<EntityRef>)
    requires g != [] && h != [] && Rendered(g[0]) != Rendered(h[0]) && |g| <= |h|
    ensures (AtMost(GroupRow(g), GroupRow(h)) <==> DocumentedNoLater(g, h))
            <==> |g| == |h| || TextBefore(Rendered(g[0]), Rendered(h[0]))
  {
    hide GroupRow, AtMost, TextBefore;
    GroupOrder(g, h);
  }
}
