/** The bounded breadth-first traversal of `traversal.rs`. */
module Traversal {
  import opened Basics
  import opened Ordering
  import opened GraphSpec
  import opened BreadthFirst

  datatype Limits = Limits(maxDepth: nat, maxNodes: nat)

  datatype Reach = Reach(entity: EntityRef, depth: nat, path: seq<EntityRef>, edges: seq<Edge>)

  datatype Walk = Walk(
    entries: seq<Reach>,
    truncated: bool,
    truncationReason: Option<TruncationReason>,
    nodesVisited: nat,
    deepest: nat)

  function ReachRow(r: Reach): Row {
    [[r.depth]] + EntityRow(r.entity)
  }

  function ReachOf(it: Item): Reach {
    Reach(it.entity, |it.edges|, if it.path == [] then [] else it.path[..|it.path| - 1], it.edges)
  }

  function Reaches(order: seq<Item>): (entries: seq<Reach>)
    requires |order| > 0
    ensures |entries| == |order| - 1
  {
    seq(|order| - 1, i requires 0 <= i < |order| - 1 => ReachOf(order[i + 1]))
  }

  // ----- What a traversal promises -----

  function AtLeastOne(n: nat): nat {
    if n == 0 then 1 else n
  }

  predicate HasEdges(g: seq<Edge>, d: Direction, v: EntityRef) {
    EdgesFrom(g, v, d) != []
  }

  /** The node bound stops the search at the `i`th entity: it lies above the depth bound and
      has edges, and the bound has been reached or one of its neighbours would exceed it. */
  ghost predicate StopsAt(g: seq<Edge>, d: Direction, start: EntityRef, limits: Limits, i: nat) {
    var before := OrderAt(g, d, start, i);
    && i < |before| && |before[i].edges| < limits.maxDepth && HasEdges(g, d, before[i].entity)
    && (|before| >= limits.maxNodes || |OrderAt(g, d, start, i + 1)| > limits.maxNodes)
  }

  ghost predicate NodeBoundMet(g: seq<Edge>, d: Direction, start: EntityRef, limits: Limits) {
    exists i :: 0 <= i < |SearchOrder(g, d, start)| && StopsAt(g, d, start, limits, i)
  }

  /** Some entity at the depth bound has edges. */
  ghost predicate DepthBoundMet(g: seq<Edge>, d: Direction, start: EntityRef, limits: Limits) {
    exists it :: it in SearchOrder(g, d, start) && |it.edges| == limits.maxDepth && HasEdges(g, d, it.entity)
  }

  /** `n` entities are the first of the whole order that keep both bounds. */
  ghost predicate KeepsBounds(o: seq<Item>, limits: Limits, n: nat) {
    && 1 <= n <= |o| && n <= AtLeastOne(limits.maxNodes)
    && (forall i :: 0 <= i < n ==> |o[i].edges| <= limits.maxDepth)
    && (n < |o| ==> n == AtLeastOne(limits.maxNodes) || |o[n].edges| > limits.maxDepth)
  }

  /** The result is determined by the graph and the limits: the first entities found that
      keep both bounds, in canonical order, and the bound that was met first. */
  ghost predicate Promised(g: seq<Edge>, d: Direction, start: EntityRef, limits: Limits, w: Walk) {
    var o, n := SearchOrder(g, d, start), w.nodesVisited;
    && KeepsBounds(o, limits, n)
    && w.entries == Sort(ReachRow, Reaches(o[..n]))
    && w.deepest == |o[n - 1].edges|
    && (w.truncationReason == Some(MaxNodesReached) <==> NodeBoundMet(g, d, start, limits))
    && (w.truncationReason == Some(MaxDepthReached)
        <==> !NodeBoundMet(g, d, start, limits) && DepthBoundMet(g, d, start, limits))
    && (w.truncationReason.Some? ==> w.truncationReason.value in {MaxNodesReached, MaxDepthReached})
    && (w.truncated <==> w.truncationReason.Some?)
  }

  // ----- The loop -----

  /** The three lists the search keeps, as views of everything queued so far, of which the
      first `head` has been taken out. */
  ghost predicate Mirrors(order: seq<Item>, head: nat, queue: seq<Item>, visited: seq<EntityRef>, entries: seq<Reach>) {
    && 0 < |order| && head <= |order|
    && queue == order[head..]
    && visited == Entities(order)
    && entries == Reaches(order)
  }

  lemma MirrorsAppended(
    order: seq<Item>, head: nat, queue: seq<Item>, visited: seq<EntityRef>, entries: seq<Reach>, next: Item)
    requires Mirrors(order, head, queue, visited, entries)
    ensures Mirrors(order + [next], head, queue + [next], visited + [next.entity], entries + [ReachOf(next)])
  {
  }

  lemma MirrorFacts(order: seq<Item>, head: nat, queue: seq<Item>, visited: seq<EntityRef>, entries: seq<Reach>)
    requires Mirrors(order, head, queue, visited, entries)
    ensures |order| > 0 && head + |queue| == |order| && queue == order[head..]
    ensures visited == Entities(order) && |visited| == |order| && entries == Reaches(order)
    ensures queue != [] ==> queue[0] == order[head] && Mirrors(order, head + 1, queue[1..], visited, entries)
  {
  }

  lemma VisitedIsListed(order: seq<Item>, v: EntityRef)
    ensures v in Entities(order) <==> Visited(order, v)
  {
    if Visited(order, v) {
      var i :| 0 <= i < |order| && order[i].entity == v;
      assert Entities(order)[i] == v;
    }
  }

  /** The lists hold everything, or as much as the node bound allows. */
  ghost predicate ListsNeighbours(
    all: seq<Item>, head: nat, maxNodes: nat, entries: seq<Reach>, visited: seq<EntityRef>, queue: seq<Item>, cut: bool)
  {
    && (cut <==> |all| > maxNodes)
    && var listed := if cut then all[..maxNodes] else all;
    0 < |listed| && head <= |listed|
    && visited == Entities(listed) && entries == Reaches(listed) && queue == listed[head..]
  }

  /** The inner loop: follows the edges of one item, already taken out of the queue, and
      stops where a new entity would exceed the node bound. */
  method Expand(
    d: Direction, start: EntityRef, maxNodes: nat, it: Item, hops: seq<Edge>,
    entries0: seq<Reach>, visited0: seq<EntityRef>, queue0: seq<Item>, ghost order: seq<Item>, ghost head: nat)
    returns (entries: seq<Reach>, visited: seq<EntityRef>, queue: seq<Item>, cut: bool, ghost grown: seq<Item>)
    requires head < |order| < maxNodes && it == order[head] && Mirrors(order, head + 1, queue0, visited0, entries0)
    requires order[0].entity == start && PathsListed(order)
    ensures order <= grown <= Discover(order, it, d, hops) && Mirrors(grown, head + 1, queue, visited, entries)
    ensures if cut then |grown| == maxNodes < |Discover(order, it, d, hops)| else grown == Discover(order, it, d, hops)
    ensures |grown| <= maxNodes
    ensures ListsNeighbours(Discover(order, it, d, hops), head + 1, maxNodes, entries, visited, queue, cut)
  {
    hide Mirrors, Visited, PathsListed, Discover;
    entries, visited, queue, cut, grown := entries0, visited0, queue0, false, order;
    assert hops[0..] == hops;
    for n := 0 to |hops|
      invariant order <= grown && |grown| <= maxNodes && Mirrors(grown, head + 1, queue, visited, entries)
      invariant Discover(grown, it, d, hops[n..]) == Discover(order, it, d, hops)
    {
      var neighbour := Far(hops[n], d);
      MirrorFacts(grown, head + 1, queue, visited, entries);
      VisitedIsListed(grown, neighbour);
      OnPathIsListed(order, head, start, grown, neighbour);
      DiscoverOne(grown, it, d, hops, n);
      DiscoverExtends(grown, it, d, hops[n..]);
      if neighbour == start || neighbour in it.path {
        continue;
      }
      if neighbour in visited {
        continue;
      }
      if |visited| >= maxNodes {
        cut := true;
        break;
      }
      var next := Item(neighbour, it.path + [neighbour], it.edges + [hops[n]]);
      MirrorsAppended(grown, head + 1, queue, visited, entries, next);
      assert next.path[..|next.path| - 1] == it.path;
      visited := visited + [neighbour];
      entries := entries + [Reach(neighbour, |next.edges|, it.path, next.edges)];
      queue := queue + [next];
      grown := grown + [next];
    }
    if !cut {
      NoneDiscovered(grown, it, d, hops);
    }
    MirrorFacts(grown, head + 1, queue, visited, entries);
    assert cut ==> Discover(order, it, d, hops)[..maxNodes] == grown;
    assert ListsNeighbours(Discover(order, it, d, hops), head + 1, maxNodes, entries, visited, queue, cut);
  }

  lemma DiscoverOne(order: seq<Item>, it: Item, d: Direction, hops: seq<Edge>, n: nat)
    requires n < |hops|
    ensures var v := Far(hops[n], d);
            var next := Item(v, it.path + [v], it.edges + [hops[n]]);
            && (Visited(order, v) ==> Discover(order, it, d, hops[n..]) == Discover(order, it, d, hops[n + 1..]))
            && (!Visited(order, v) ==>
                  && Discover(order, it, d, hops[n..]) == Discover(order + [next], it, d, hops[n + 1..])
                  && |Discover(order, it, d, hops[n..])| > |order|)
  {
    var v := Far(hops[n], d);
    var next := Item(v, it.path + [v], it.edges + [hops[n]]);
    assert hops[n..][1..] == hops[n + 1..] && hops[n..][0] == hops[n];
    DiscoverExtends(order + [next], it, d, hops[n + 1..]);
  }

  lemma NoneDiscovered(order: seq<Item>, it: Item, d: Direction, hops: seq<Edge>)
    ensures Discover(order, it, d, hops[|hops|..]) == order
  {
  }

  /** The start and the entities of a listed walk are listed themselves. */
  lemma OnPathIsListed(order: seq<Item>, head: nat, start: EntityRef, grown: seq<Item>, v: EntityRef)
    requires head < |order| && order[0].entity == start && PathsListed(order) && order <= grown
    ensures v == start || v in order[head].path ==> Visited(grown, v)
  {
    assert grown[0] == order[0];
    if v in order[head].path {
      var k :| 0 <= k < |order[head].path| && order[head].path[k] == v;
      var i :| 0 <= i < |order| && order[i].entity == v;
      assert grown[i] == order[i];
    }
  }

  // ----- The whole search -----

  ghost predicate AtBound(g: seq<Edge>, d: Direction, it: Item, maxDepth: nat) {
    |it.edges| >= maxDepth && HasEdges(g, d, it.entity)
  }

  /** What holds between two rounds. The list is that of `rounds` rounds of a search without
      bounds, and these are all of them until an entity at the depth bound is taken out;
      `cut` says whether the node bound has stopped the search. */
  ghost predicate Running(
    g: seq<Edge>, d: Direction, start: EntityRef, limits: Limits, order: seq<Item>, head: nat, rounds: nat,
    reason: Option<TruncationReason>, cut: bool)
  {
    && 0 < |order| && rounds <= head <= |order|
    && order <= OrderAt(g, d, start, head)
    && (!cut ==> order == OrderAt(g, d, start, rounds))
    && (!cut && rounds < head ==> |order[rounds].edges| >= limits.maxDepth)
    && Level(order, limits.maxDepth)
    && |order| <= AtLeastOne(limits.maxNodes)
    && (cut ==> |order| == AtLeastOne(limits.maxNodes) && exists i :: 0 <= i < head && StopsAt(g, d, start, limits, i))
    && (!cut ==> forall i :: 0 <= i < head ==> !StopsAt(g, d, start, limits, i))
    && (reason == Some(MaxNodesReached) <==> cut)
    && (reason == Some(MaxDepthReached)
        <==> !cut && exists i :: 0 <= i < head && AtBound(g, d, order[i], limits.maxDepth))
    && (reason.Some? ==> reason.value in {MaxNodesReached, MaxDepthReached})
  }

  lemma StartRuns(g: seq<Edge>, d: Direction, start: EntityRef, limits: Limits)
    ensures Running(g, d, start, limits, [Item(start, [], [])], 0, 0, None, false)
    ensures Mirrors([Item(start, [], [])], 0, [Item(start, [], [])], [start], [])
  {
    FirstRound(g, d, start);
    hide StopsAt, OrderAt;
  }

  /** What a round may rely on: every walk has as many entities as edges, every entity of a
      walk is listed, and walks lengthen along the list. */
  lemma RunningFacts(
    g: seq<Edge>, d: Direction, start: EntityRef, limits: Limits, order: seq<Item>, head: nat, rounds: nat,
    reason: Option<TruncationReason>, cut: bool)
    requires Running(g, d, start, limits, order, head, rounds, reason, cut)
    ensures order[0] == Item(start, [], [])
    ensures forall i, j :: 0 <= i < j < |order| ==> |order[i].edges| <= |order[j].edges|
    ensures forall i :: 0 <= i < |order| ==> |order[i].path| == |order[i].edges|
    ensures !cut ==> PathsListed(order)
  {
    hide StopsAt, OrderAt, Level, AtBound, PathsListed;
    var k := if cut then head else rounds;
    OrderAtFacts(g, d, start, k);
    var whole := OrderAt(g, d, start, k);
    assert order <= whole;
    forall i | 0 <= i < |order| ensures |order[i].path| == |order[i].edges| {
      assert GoodItem(g, d, start, whole[i]);
    }
  }

  /** A round that takes an item out and queues nothing: it has no edges, or lies at the
      depth bound, or the node bound has been reached. */
  lemma SkippedRound(
    g: seq<Edge>, d: Direction, start: EntityRef, limits: Limits, order: seq<Item>, head: nat, rounds: nat,
    reason: Option<TruncationReason>, cut: bool)
    requires Running(g, d, start, limits, order, head, rounds, reason, cut) && head < |order|
    requires !HasEdges(g, d, order[head].entity) || |order[head].edges| >= limits.maxDepth || |order| >= limits.maxNodes
    ensures var it := order[head];
            var met := HasEdges(g, d, it.entity) && |it.edges| < limits.maxDepth;
            var reason' := if reason.Some? || !HasEdges(g, d, it.entity) then reason
                           else if met then Some(MaxNodesReached) else Some(MaxDepthReached);
            var rounds' := if !cut && !met && rounds == head && |it.edges| < limits.maxDepth then rounds + 1
                           else rounds;
            Running(g, d, start, limits, order, head + 1, rounds', reason', cut || met)
  {
    hide OrderAt, HasEdges, Level, Discover;
    var it := order[head];
    RunningFacts(g, d, start, limits, order, head, rounds, reason, cut);
    OrderAtGrows(g, d, start, head, head + 1);
    SameItem(g, d, start, order, head);
    if !cut && rounds == head && |it.edges| < limits.maxDepth {
      NextRound(g, d, start, head);
      if !HasEdges(g, d, it.entity) {
        NothingDiscovered(g, d, order, head);
      } else {
        assert StopsAt(g, d, start, limits, head);
      }
    } else if !cut {
      assert |it.edges| >= limits.maxDepth;
      assert !StopsAt(g, d, start, limits, head);
    }
    if !cut && (!HasEdges(g, d, it.entity) || |it.edges| >= limits.maxDepth) {
      assert !StopsAt(g, d, start, limits, head);
    }
    assert AtBound(g, d, it, limits.maxDepth) <==> HasEdges(g, d, it.entity) && |it.edges| >= limits.maxDepth;
    hide StopsAt, AtBound;
    if !cut && rounds == head && |it.edges| < limits.maxDepth {
      NoneAtBound(g, d, order, head, limits.maxDepth);
    }
  }

  lemma SameItem(g: seq<Edge>, d: Direction, start: EntityRef, order: seq<Item>, head: nat)
    requires order <= OrderAt(g, d, start, head) && head < |order|
    ensures head < |OrderAt(g, d, start, head)| && OrderAt(g, d, start, head)[head] == order[head]
  {
    hide OrderAt;
  }

  lemma NothingDiscovered(g: seq<Edge>, d: Direction, order: seq<Item>, head: nat)
    requires head < |order| && !HasEdges(g, d, order[head].entity)
    ensures DiscoveredFrom(g, d, order, head) == order
  {
  }

  /** Above the depth bound nothing before was at it. */
  lemma NoneAtBound(g: seq<Edge>, d: Direction, order: seq<Item>, head: nat, maxDepth: nat)
    requires head < |order| && |order[head].edges| < maxDepth
    requires forall i, j :: 0 <= i < j < |order| ==> |order[i].edges| <= |order[j].edges|
    ensures forall i :: 0 <= i <= head ==> !AtBound(g, d, order[i], maxDepth)
  {
  }

  /** A round that expands an item, to the end or until the node bound is met. */
  lemma ExpandedRound(
    g: seq<Edge>, d: Direction, start: EntityRef, limits: Limits, order: seq<Item>, head: nat, rounds: nat,
    reason: Option<TruncationReason>, cut: bool, grown: seq<Item>, met: bool)
    requires Running(g, d, start, limits, order, head, rounds, reason, cut) && head < |order| < limits.maxNodes
    requires |order[head].edges| < limits.maxDepth && HasEdges(g, d, order[head].entity)
    requires order <= grown <= DiscoveredFrom(g, d, order, head) && |grown| <= limits.maxNodes
    requires if met then |grown| == limits.maxNodes < |DiscoveredFrom(g, d, order, head)|
             else grown == DiscoveredFrom(g, d, order, head)
    ensures !cut && reason.None?
    ensures Running(
              g, d, start, limits, grown, head + 1, if met then rounds else rounds + 1,
              if met then Some(MaxNodesReached) else None, met)
    ensures |grown[|grown| - 1].edges|
            == if |grown| > |order| then |order[head].edges| + 1 else |order[|order| - 1].edges|
  {
    hide OrderAt, HasEdges, Discover, EdgesFrom;
    RunningFacts(g, d, start, limits, order, head, rounds, reason, cut);
    assert rounds == head;
    NextRound(g, d, start, head);
    NoneAtBound(g, d, order, head, limits.maxDepth);
    NewDeeper(g, d, order, head);
    forall i | 0 <= i < |grown| ensures |grown[i].edges| <= limits.maxDepth {
      if i >= |order| {
        assert grown[i] == DiscoveredFrom(g, d, order, head)[i];
      } else {
        assert grown[i] == order[i];
      }
    }
    assert met <==> StopsAt(g, d, start, limits, head);
    hide StopsAt;
    assert forall i :: 0 <= i <= head ==> grown[i] == order[i];
  }

  lemma NewDeeper(g: seq<Edge>, d: Direction, order: seq<Item>, head: nat)
    requires head < |order|
    ensures forall i :: |order| <= i < |DiscoveredFrom(g, d, order, head)| ==>
              |DiscoveredFrom(g, d, order, head)[i].edges| == |order[head].edges| + 1
  {
    hide Discover, EdgesFrom;
    DiscoverExtends(order, order[head], d, EdgesFrom(g, order[head].entity, d));
  }

  /** When the queue is empty the list is the first entities that keep the bounds, and the
      node bound was met exactly when it stopped the search. */
  lemma ListEnds(
    g: seq<Edge>, d: Direction, start: EntityRef, limits: Limits, order: seq<Item>, rounds: nat,
    reason: Option<TruncationReason>, cut: bool)
    requires Running(g, d, start, limits, order, |order|, rounds, reason, cut)
    ensures var o, n := SearchOrder(g, d, start), |order|;
            && order <= o && KeepsBounds(o, limits, n)
            && (NodeBoundMet(g, d, start, limits) <==> cut)
            && (!cut ==> forall i :: n <= i < |o| ==> |o[i].edges| > limits.maxDepth)
  {
    hide OrderAt, HasEdges, StopsAt, AtBound, SearchOrder;
    var o, n := SearchOrder(g, d, start), |order|;
    RoundIsPrefix(g, d, start, n);
    assert forall i :: 0 <= i < n ==> o[i] == order[i];
    if !cut && n < |o| {
      RoundIsPrefix(g, d, start, rounds);
      RestIsDeeper(g, d, start, rounds);
      forall i | n <= i < |o| ensures |o[i].edges| > limits.maxDepth && !StopsAt(g, d, start, limits, i) {
        DeepNeverStops(g, d, start, limits, i);
      }
    }
  }

  lemma RunEnds(
    g: seq<Edge>, d: Direction, start: EntityRef, limits: Limits, order: seq<Item>, rounds: nat,
    reason: Option<TruncationReason>, cut: bool)
    requires Running(g, d, start, limits, order, |order|, rounds, reason, cut)
    ensures Promised(g, d, start, limits,
              Walk(Sort(ReachRow, Reaches(order)), reason.Some?, reason, |order|, |order[|order| - 1].edges|))
  {
    hide OrderAt, HasEdges, StopsAt, AtBound, Sort, Reaches, SearchOrder, NodeBoundMet, DepthBoundMet;
    var o, n := SearchOrder(g, d, start), |order|;
    ListEnds(g, d, start, limits, order, rounds, reason, cut);
    assert o[..n] == order;
    if !cut {
      AtBoundIsListed(g, d, start, limits, order);
    }
  }

  lemma RestIsDeeper(g: seq<Edge>, d: Direction, start: EntityRef, j: nat)
    requires j < |OrderAt(g, d, start, j)|
    ensures var early, o := OrderAt(g, d, start, j), SearchOrder(g, d, start);
            early <= o && forall i :: |early| <= i < |o| ==> |o[i].edges| > |early[j].edges|
  {
    hide OrderAt;
    RoundIsPrefix(g, d, start, j);
    if j <= |g| + 1 {
      FoundLaterIsDeeper(g, d, start, j, |g| + 1);
    } else {
      RoundIsPrefix(g, d, start, |g| + 1);
      OrderAtFacts(g, d, start, j);
      OrderCounted(g, d, start, OrderAt(g, d, start, j));
    }
  }

  lemma DeepNeverStops(g: seq<Edge>, d: Direction, start: EntityRef, limits: Limits, i: nat)
    requires i < |SearchOrder(g, d, start)|
    ensures |SearchOrder(g, d, start)[i].edges| >= limits.maxDepth ==> !StopsAt(g, d, start, limits, i)
  {
    hide OrderAt, HasEdges, SearchOrder;
    ListedWhenTaken(g, d, start, i);
  }

  lemma AtBoundIsListed(g: seq<Edge>, d: Direction, start: EntityRef, limits: Limits, order: seq<Item>)
    requires order <= SearchOrder(g, d, start) && Level(order, limits.maxDepth)
    requires forall i :: |order| <= i < |SearchOrder(g, d, start)| ==>
               |SearchOrder(g, d, start)[i].edges| > limits.maxDepth
    ensures DepthBoundMet(g, d, start, limits)
            <==> exists i :: 0 <= i < |order| && AtBound(g, d, order[i], limits.maxDepth)
  {
    hide OrderAt, HasEdges, SearchOrder;
    var o := SearchOrder(g, d, start);
    if i :| 0 <= i < |order| && AtBound(g, d, order[i], limits.maxDepth) {
      assert o[i] == order[i] && o[i] in o;
    }
    if it :| it in o && |it.edges| == limits.maxDepth && HasEdges(g, d, it.entity) {
      var i :| 0 <= i < |o| && o[i] == it;
      assert order[i] == it;
    }
  }

  method Traverse(g: seq<Edge>, start: EntityRef, limits: Limits, d: Direction) returns (w: Walk)
    ensures Promised(g, d, start, limits, w)
  {
    hide Running, Mirrors, EdgesFrom, Sort, Promised, Discover, DiscoveredFrom, PathsListed, ListsNeighbours;
    hide HasEdges, Entities, Reaches, OrderAt, ReachRow, Far, Near, Leads;
    var entries: seq<Reach> := [];
    var visited: seq<EntityRef> := [start];
    var queue: seq<Item> := [Item(start, [], [])];
    var truncated := false;
    var reason: Option<TruncationReason> := None;
    var deepest: nat := 0;
    ghost var order := queue;
    ghost var head: nat := 0;
    ghost var rounds: nat := 0;
    ghost var cut := false;
    StartRuns(g, d, start, limits);
    while queue != []
      invariant Running(g, d, start, limits, order, head, rounds, reason, cut)
      invariant Mirrors(order, head, queue, visited, entries)
      invariant truncated <==> reason.Some?
      invariant |order| > 0 && deepest == |order[|order| - 1].edges|
      decreases (if limits.maxNodes == 0 then 1 else limits.maxNodes) - |visited|, |queue|
    {
      MirrorFacts(order, head, queue, visited, entries);
      RunningFacts(g, d, start, limits, order, head, rounds, reason, cut);
      var it := queue[0];
      queue := queue[1..];
      var hops := EdgesFrom(g, it.entity, d);
      SomeEdges(g, d, it.entity);
      if |it.path| >= limits.maxDepth && hops != [] {
        SkippedRound(g, d, start, limits, order, head, rounds, reason, cut);
        truncated := true;
        reason := if reason.None? then Some(MaxDepthReached) else reason;
        head := head + 1;
        continue;
      }
      if |visited| >= limits.maxNodes && hops != [] {
        SkippedRound(g, d, start, limits, order, head, rounds, reason, cut);
        truncated := true;
        reason := if reason.None? then Some(MaxNodesReached) else reason;
        head, cut := head + 1, true;
        continue;
      }
      if hops == [] {
        SkippedRound(g, d, start, limits, order, head, rounds, reason, cut);
        rounds := if !cut && rounds == head && |it.edges| < limits.maxDepth then rounds + 1 else rounds;
        head := head + 1;
        continue;
      }
      NotStopped(g, d, start, limits, order, head, rounds, reason, cut);
      var met: bool;
      ghost var grown: seq<Item>;
      var before := |visited|;
      entries, visited, queue, met, grown := Expand(d, start, limits.maxNodes, it, hops, entries, visited, queue, order,
                                                    head);
      MirrorFacts(grown, head + 1, queue, visited, entries);
      DiscoveredHere(g, d, order, head);
      ExpandedRound(g, d, start, limits, order, head, rounds, reason, cut, grown, met);
      if |visited| > before && deepest < |it.edges| + 1 {
        deepest := |it.edges| + 1;
      }
      DeepestKept(g, d, start, limits, order, grown, head, rounds, reason, met);
      if met {
        truncated := true;
        reason := if reason.None? then Some(MaxNodesReached) else reason;
      }
      rounds := if met then rounds else rounds + 1;
      order, head, cut := grown, head + 1, met;
    }
    MirrorFacts(order, head, queue, visited, entries);
    w := Walk(Sort(ReachRow, entries), truncated, reason, |visited|, deepest);
    RunEnds(g, d, start, limits, order, rounds, reason, cut);
  }

  lemma SomeEdges(g: seq<Edge>, d: Direction, v: EntityRef)
    ensures HasEdges(g, d, v) <==> EdgesFrom(g, v, d) != []
  {
    hide EdgesFrom;
  }

  lemma DiscoveredHere(g: seq<Edge>, d: Direction, order: seq<Item>, head: nat)
    requires head < |order|
    ensures DiscoveredFrom(g, d, order, head) == Discover(order, order[head], d, EdgesFrom(g, order[head].entity, d))
  {
  }

  lemma NotStopped(
    g: seq<Edge>, d: Direction, start: EntityRef, limits: Limits, order: seq<Item>, head: nat, rounds: nat,
    reason: Option<TruncationReason>, cut: bool)
    requires Running(g, d, start, limits, order, head, rounds, reason, cut) && |order| < limits.maxNodes
    ensures !cut && PathsListed(order)
  {
    hide StopsAt, OrderAt, Level, AtBound, PathsListed;
    RunningFacts(g, d, start, limits, order, head, rounds, reason, cut);
  }

  lemma DeepestKept(
    g: seq<Edge>, d: Direction, start: EntityRef, limits: Limits, order: seq<Item>, grown: seq<Item>, head: nat,
      rounds: nat,
    reason: Option<TruncationReason>, met: bool)
    requires Running(g, d, start, limits, order, head, rounds, reason, false) && head < |order|
    requires order <= grown
    requires |grown[|grown| - 1].edges|
             == if |grown| > |order| then |order[head].edges| + 1 else |order[|order| - 1].edges|
    requires |grown| > |order| ==> Running(g, d, start, limits, grown, head + 1, if met then rounds else rounds + 1,
                                           if met then Some(MaxNodesReached) else None, met)
    ensures var deepest := |order[|order| - 1].edges|;
            |grown[|grown| - 1].edges|
              == if |grown| > |order| && deepest < |order[head].edges| + 1 then |order[head].edges| + 1 else deepest
  {
    hide StopsAt, OrderAt, Level, AtBound, PathsListed;
    RunningFacts(g, d, start, limits, order, head, rounds, reason, false);
    if |grown| > |order| {
      RunningFacts(g, d, start, limits, grown, head + 1, if met then rounds else rounds + 1,
                   if met then Some(MaxNodesReached) else None, met);
      assert grown[|order| - 1] == order[|order| - 1];
    }
  }
}
