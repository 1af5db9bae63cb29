/** What a traversal's result says of the graph: which entities it finds, when something
    reachable is missed, and when it is marked although nothing is. */
module TraversalResults {
  import opened Basics
  import opened Ordering
  import opened GraphSpec
  import opened BreadthFirst
  import opened Traversal

  /** The entry's walk is there, names its intermediates, and none is shorter. */
  ghost predicate Shortest(g: seq<Edge>, d: Direction, start: EntityRef, r: Reach) {
    && Leads(g, d, start, r.edges, r.entity)
    && |r.edges| == r.depth == |r.path| + 1
    && r.path == Between(r.edges, d)
    && forall edges :: Leads(g, d, start, edges, r.entity) ==> r.depth <= |edges|
  }

  ghost predicate Found(w: Walk, start: EntityRef, v: EntityRef) {
    v == start || exists r :: r in w.entries && r.entity == v
  }

  /** Something can be reached that the result does not have. */
  ghost predicate Missed(g: seq<Edge>, d: Direction, start: EntityRef, w: Walk) {
    exists v :: Reachable(g, d, start, v) && !Found(w, start, v)
  }

  // ----- The entries -----

  lemma EntryMembers(g: seq<Edge>, d: Direction, start: EntityRef, limits: Limits, w: Walk, r: Reach)
    requires Promised(g, d, start, limits, w)
    ensures r in w.entries <==> exists i :: 1 <= i < w.nodesVisited && r == ReachOf(SearchOrder(g, d, start)[i])
  {
    hide SearchOrder, NodeBoundMet, DepthBoundMet, ReachOf, ReachRow, Sort;
    var o, n := SearchOrder(g, d, start), w.nodesVisited;
    var entries := Reaches(o[..n]);
    SortFacts(ReachRow, entries);
    assert r in w.entries <==> r in multiset(w.entries);
    assert r in entries <==> r in multiset(entries);
    if r in entries {
      var k :| 0 <= k < |entries| && entries[k] == r;
      assert r == ReachOf(o[k + 1]);
    }
    if i :| 1 <= i < n && r == ReachOf(o[i]) {
      assert entries[i - 1] == r;
    }
  }

  /** An entity is in the result exactly when it is among the first found that keep both
      bounds. */
  lemma FoundIff(g: seq<Edge>, d: Direction, start: EntityRef, limits: Limits, w: Walk, v: EntityRef)
    requires Promised(g, d, start, limits, w)
    ensures Found(w, start, v) <==> Visited(SearchOrder(g, d, start)[..w.nodesVisited], v)
  {
    hide SearchOrder, NodeBoundMet, DepthBoundMet, Order, ReachRow, Sort;
    var o, n := SearchOrder(g, d, start), w.nodesVisited;
    WholeOrder(g, d, start);
    StartsOrder(g, d, start);
    if Found(w, start, v) && v != start {
      var r :| r in w.entries && r.entity == v;
      EntryMembers(g, d, start, limits, w, r);
      var i :| 1 <= i < n && r == ReachOf(o[i]);
      assert o[..n][i].entity == v;
    }
    if Visited(o[..n], v) && v != start {
      var i :| 0 <= i < n && o[..n][i].entity == v;
      EntryMembers(g, d, start, limits, w, ReachOf(o[i]));
    } else if v == start {
      assert o[..n][0].entity == start;
    }
  }

  lemma StartsOrder(g: seq<Edge>, d: Direction, start: EntityRef)
    ensures SearchOrder(g, d, start)[0] == Item(start, [], [])
  {
    hide SearchOrder;
    WholeOrder(g, d, start);
  }

  /** The entity of an entry, and the place it was found at. */
  lemma EntryPlace(g: seq<Edge>, d: Direction, start: EntityRef, limits: Limits, w: Walk, r: Reach) returns (i: nat)
    requires Promised(g, d, start, limits, w) && r in w.entries
    ensures 1 <= i < w.nodesVisited <= |SearchOrder(g, d, start)|
    ensures r == ReachOf(SearchOrder(g, d, start)[i]) && r.entity == SearchOrder(g, d, start)[i].entity
    ensures |SearchOrder(g, d, start)[i].edges| <= limits.maxDepth
  {
    hide SearchOrder, NodeBoundMet, DepthBoundMet, ReachRow, Sort, Reaches;
    EntryMembers(g, d, start, limits, w, r);
    i :| 1 <= i < w.nodesVisited && r == ReachOf(SearchOrder(g, d, start)[i]);
  }

  /** Every entry's walk is there and shortest, within the depth bound; the start is no
      entry, no entity is one twice, and the entries are in canonical order. */
  lemma EntriesShortest(g: seq<Edge>, d: Direction, start: EntityRef, limits: Limits, w: Walk)
    requires Promised(g, d, start, limits, w)
    ensures forall r :: r in w.entries ==> Shortest(g, d, start, r) && r.depth <= limits.maxDepth && r.entity != start
    ensures forall r, s :: r in w.entries && s in w.entries && r.entity == s.entity ==> r == s
    ensures Sorted(ReachRow, w.entries) && |w.entries| == w.nodesVisited - 1
  {
    hide Promised, SearchOrder, ReachRow, Sort, Sorted, Shortest, GoodItem, PathsListed;
    WholeOrder(g, d, start);
    EntriesSorted(g, d, start, limits, w);
    var o := SearchOrder(g, d, start);
    forall r | r in w.entries ensures Shortest(g, d, start, r) && r.depth <= limits.maxDepth && r.entity != start {
      var i := EntryPlace(g, d, start, limits, w, r);
      assert o[0].entity != o[i].entity;
      ItemIsShortest(g, d, start, o[i]);
    }
    forall r, s | r in w.entries && s in w.entries && r.entity == s.entity ensures r == s {
      var i := EntryPlace(g, d, start, limits, w, r);
      var j := EntryPlace(g, d, start, limits, w, s);
      assert i == j;
    }
  }

  lemma EntriesSorted(g: seq<Edge>, d: Direction, start: EntityRef, limits: Limits, w: Walk)
    requires Promised(g, d, start, limits, w)
    ensures Sorted(ReachRow, w.entries) && |w.entries| == w.nodesVisited - 1
  {
    hide SearchOrder, NodeBoundMet, DepthBoundMet, ReachRow, Sort;
    var entries := Reaches(SearchOrder(g, d, start)[..w.nodesVisited]);
    SortFacts(ReachRow, entries);
    assert |w.entries| == |multiset(w.entries)| == |entries|;
  }

  lemma ItemIsShortest(g: seq<Edge>, d: Direction, start: EntityRef, it: Item)
    requires GoodItem(g, d, start, it) && it.entity != start
    ensures Shortest(g, d, start, ReachOf(it))
  {
    assert it.edges != [];
  }

  // ----- What is missed -----

  /** Something is missed exactly when an entity lies beyond the depth bound or there are
      more than the node bound allows. */
  lemma MissedIff(g: seq<Edge>, d: Direction, start: EntityRef, limits: Limits, w: Walk)
    requires Promised(g, d, start, limits, w)
    ensures var o := SearchOrder(g, d, start);
            Missed(g, d, start, w) <==> !Level(o, limits.maxDepth) || |o| > AtLeastOne(limits.maxNodes)
  {
    hide SearchOrder, NodeBoundMet, DepthBoundMet, GoodItem, PathsListed, Sort, ReachRow, Found, Reachable;
    var o, n := SearchOrder(g, d, start), w.nodesVisited;
    WholeOrder(g, d, start);
    assert o[..|o|] == o;
    if n < |o| {
      FoundIff(g, d, start, limits, w, o[n].entity);
      assert Visited(o, o[n].entity);
      NotAmongFirst(o, n);
    }
    if Missed(g, d, start, w) {
      var v :| Reachable(g, d, start, v) && !Found(w, start, v);
      FoundIff(g, d, start, limits, w, v);
    }
  }

  lemma NotAmongFirst(o: seq<Item>, n: nat)
    requires n < |o| && forall i, j :: 0 <= i < j < |o| ==> o[i].entity != o[j].entity
    ensures !Visited(o[..n], o[n].entity)
  {
  }

  /** An entity lies beyond the depth bound exactly when an edge leads out of what is within
      it. */
  lemma BeyondIff(g: seq<Edge>, d: Direction, start: EntityRef, maxDepth: nat)
    ensures !Level(SearchOrder(g, d, start), maxDepth)
            <==> exists e :: e in g && Within(g, d, start, Near(e, d), maxDepth)
                   && !Within(g, d, start, Far(e, d), maxDepth)
  {
    hide SearchOrder, PathsListed, VisitedWithin;
    var o := SearchOrder(g, d, start);
    WholeOrder(g, d, start);
    if !Level(o, maxDepth) {
      var i :| 0 <= i < |o| && |o[i].edges| > maxDepth;
      assert GoodItem(g, d, start, o[i]);
      assert Leads(g, d, start, [], start);
      var _ := CrossingEdge(g, d, start, maxDepth, o[i].edges, o[i].entity);
    }
    if e :| e in g && Within(g, d, start, Near(e, d), maxDepth) && !Within(g, d, start, Far(e, d), maxDepth) {
      var edges :| Leads(g, d, start, edges, Near(e, d));
      LeadsFurther(g, d, start, edges, e);
      assert Reachable(g, d, start, Far(e, d));
      var i :| 0 <= i < |o| && o[i].entity == Far(e, d);
      assert GoodItem(g, d, start, o[i]);
    }
  }

  lemma {:induction false} CrossingEdge(
    g: seq<Edge>, d: Direction, start: EntityRef, maxDepth: nat, edges: seq<Edge>, v: EntityRef) returns (e: Edge)
    requires Leads(g, d, start, edges, v) && !Within(g, d, start, v, maxDepth)
    ensures e in g && Within(g, d, start, Near(e, d), maxDepth) && !Within(g, d, start, Far(e, d), maxDepth)
    decreases |edges|
  {
    assert edges != [];
    e := edges[|edges| - 1];
    if !Within(g, d, start, Near(e, d), maxDepth) {
      e := CrossingEdge(g, d, start, maxDepth, edges[..|edges| - 1], Near(e, d));
    }
  }

  // ----- What the mark means -----

  /** Some entity that has edges lies at the depth bound, or is taken out when the node bound
      has been reached. */
  ghost predicate EdgesAtABound(g: seq<Edge>, d: Direction, start: EntityRef, limits: Limits) {
    exists i :: 0 <= i < |SearchOrder(g, d, start)| && TakenAtABound(g, d, start, limits, i)
  }

  ghost predicate TakenAtABound(g: seq<Edge>, d: Direction, start: EntityRef, limits: Limits, i: nat)
    requires i < |SearchOrder(g, d, start)|
  {
    var it := SearchOrder(g, d, start)[i];
    HasEdges(g, d, it.entity) && (|it.edges| == limits.maxDepth || |OrderAt(g, d, start, i)| >= limits.maxNodes)
  }

  /** The result is marked though nothing is missed exactly when everything reachable keeps
      both bounds and an entity with edges is met at one of them. */
  lemma MarkedForNothingIff(g: seq<Edge>, d: Direction, start: EntityRef, limits: Limits, w: Walk)
    requires Promised(g, d, start, limits, w)
    ensures var o := SearchOrder(g, d, start);
            w.truncated && !Missed(g, d, start, w)
            <==> Level(o, limits.maxDepth) && |o| <= AtLeastOne(limits.maxNodes) && EdgesAtABound(g, d, start, limits)
  {
    hide SearchOrder, Sort, ReachRow, Missed, EdgesAtABound, NodeBoundMet, DepthBoundMet;
    MissedIff(g, d, start, limits, w);
    if Level(SearchOrder(g, d, start), limits.maxDepth) && |SearchOrder(g, d, start)| <= AtLeastOne(limits.maxNodes) {
      MetIff(g, d, start, limits);
    }
  }

  /** When everything keeps the bounds, one is met exactly where an entity has edges. */
  lemma MetIff(g: seq<Edge>, d: Direction, start: EntityRef, limits: Limits)
    requires Level(SearchOrder(g, d, start), limits.maxDepth)
    requires |SearchOrder(g, d, start)| <= AtLeastOne(limits.maxNodes)
    ensures NodeBoundMet(g, d, start, limits) || DepthBoundMet(g, d, start, limits)
            <==> EdgesAtABound(g, d, start, limits)
  {
    hide SearchOrder, OrderAt, HasEdges;
    var o := SearchOrder(g, d, start);
    forall i | 0 <= i < |o|
      ensures StopsAt(g, d, start, limits, i) ==> TakenAtABound(g, d, start, limits, i)
      ensures TakenAtABound(g, d, start, limits, i) && |o[i].edges| < limits.maxDepth
              ==> StopsAt(g, d, start, limits, i)
    {
      ListedWhenTaken(g, d, start, i);
      RoundIsPrefix(g, d, start, i + 1);
    }
    if DepthBoundMet(g, d, start, limits) {
      var it :| it in o && |it.edges| == limits.maxDepth && HasEdges(g, d, it.entity);
      var i :| 0 <= i < |o| && o[i] == it;
      assert TakenAtABound(g, d, start, limits, i);
    }
    if EdgesAtABound(g, d, start, limits) {
      var i :| 0 <= i < |o| && TakenAtABound(g, d, start, limits, i);
      assert o[i] in o;
    }
  }

  /** A result without a mark misses nothing, whichever bounds were given. */
  lemma UnmarkedIsComplete(g: seq<Edge>, d: Direction, start: EntityRef, limits: Limits, w: Walk)
    requires Promised(g, d, start, limits, w) && Missed(g, d, start, w)
    ensures w.truncated
  {
    hide Sort, ReachRow, Missed, Level, SearchOrder;
    MissedIff(g, d, start, limits, w);
    if !NodeBoundMet(g, d, start, limits) {
      NothingStopped(g, d, start, limits, w);
    }
  }

  /** Where the node bound stopped nothing, what is beyond the depth bound hangs from an
      entity at it. */
  lemma NothingStopped(g: seq<Edge>, d: Direction, start: EntityRef, limits: Limits, w: Walk)
    requires Promised(g, d, start, limits, w) && !NodeBoundMet(g, d, start, limits)
    requires var o := SearchOrder(g, d, start); !Level(o, limits.maxDepth) || |o| > AtLeastOne(limits.maxNodes)
    ensures DepthBoundMet(g, d, start, limits)
  {
    hide Sort, ReachRow, SearchOrder, OrderAt, HasEdges, DepthBoundMet, StopsAt, Level;
    var n := FirstBeyond(g, d, start, limits);
    var i := FoundFrom(g, d, start, n);
    ExpandedUpTo(g, d, start, limits, i, n);
  }

  /** The first entity that one of the bounds keeps out. */
  lemma FirstBeyond(g: seq<Edge>, d: Direction, start: EntityRef, limits: Limits) returns (n: nat)
    requires var o := SearchOrder(g, d, start); !Level(o, limits.maxDepth) || |o| > AtLeastOne(limits.maxNodes)
    ensures var o := SearchOrder(g, d, start);
            && 1 <= n < |o| && (|o[n].edges| > limits.maxDepth || n >= AtLeastOne(limits.maxNodes))
            && n <= AtLeastOne(limits.maxNodes) && forall i :: 0 <= i < n ==> |o[i].edges| <= limits.maxDepth
  {
    hide SearchOrder;
    var o := SearchOrder(g, d, start);
    StartsOrder(g, d, start);
    n := 1;
    assert forall i :: 0 <= i < 1 ==> |o[i].edges| == 0;
    while n + 1 < |o| && |o[n].edges| <= limits.maxDepth && n < AtLeastOne(limits.maxNodes)
      invariant 1 <= n < |o| && n <= AtLeastOne(limits.maxNodes)
      invariant forall i :: 0 <= i < n ==> |o[i].edges| <= limits.maxDepth
      decreases |o| - n
    {
      n := n + 1;
    }
  }

  /** The entity whose edges led to the `n`th found. */
  lemma FoundFrom(g: seq<Edge>, d: Direction, start: EntityRef, n: nat) returns (i: nat)
    requires 1 <= n < |SearchOrder(g, d, start)|
    ensures i < n && |OrderAt(g, d, start, i)| <= n < |OrderAt(g, d, start, i + 1)|
  {
    hide SearchOrder, OrderAt;
    FirstRound(g, d, start);
    i := 0;
    while |OrderAt(g, d, start, i + 1)| <= n
      invariant i < n && |OrderAt(g, d, start, i)| <= n
      decreases n - i
    {
      i := i + 1;
      ListedWhenTaken(g, d, start, i);
    }
  }

  lemma ExpandedUpTo(g: seq<Edge>, d: Direction, start: EntityRef, limits: Limits, i: nat, n: nat)
    requires i < n < |SearchOrder(g, d, start)| && !StopsAt(g, d, start, limits, i)
    requires |OrderAt(g, d, start, i)| <= n < |OrderAt(g, d, start, i + 1)|
    requires |SearchOrder(g, d, start)[i].edges| <= limits.maxDepth
    requires |SearchOrder(g, d, start)[n].edges| > limits.maxDepth || n >= AtLeastOne(limits.maxNodes)
    ensures DepthBoundMet(g, d, start, limits)
  {
    hide SearchOrder, OrderAt;
    var o, before := SearchOrder(g, d, start), OrderAt(g, d, start, i);
    ListedWhenTaken(g, d, start, i);
    RoundIsPrefix(g, d, start, i + 1);
    NextRound(g, d, start, i);
    NewDeeper(g, d, before, i);
    HasEdgesIfFound(g, d, before, i);
    assert o[n] == OrderAt(g, d, start, i + 1)[n];
    assert o[i] in o;
  }

  /** The mark says exactly that something is missed, but where everything keeps both bounds
      and an entity with edges is met at one of them. */
  lemma MarkRightIff(g: seq<Edge>, d: Direction, start: EntityRef, limits: Limits, w: Walk)
    requires Promised(g, d, start, limits, w)
    ensures var o := SearchOrder(g, d, start);
            (w.truncated <==> Missed(g, d, start, w))
            <==> !(Level(o, limits.maxDepth) && |o| <= AtLeastOne(limits.maxNodes)
                   && EdgesAtABound(g, d, start, limits))
  {
    hide Promised, Missed, SearchOrder, EdgesAtABound, Level;
    MarkedForNothingIff(g, d, start, limits, w);
    if Missed(g, d, start, w) {
      UnmarkedIsComplete(g, d, start, limits, w);
    }
  }

  // ----- How complete a marked result is -----

  /** Unless the node bound was met, exactly the entities within the depth bound are found. */
  lemma CompleteToDepth(g: seq<Edge>, d: Direction, start: EntityRef, limits: Limits, w: Walk, v: EntityRef)
    requires Promised(g, d, start, limits, w) && w.truncationReason != Some(MaxNodesReached)
    ensures Found(w, start, v) <==> Within(g, d, start, v, limits.maxDepth)
  {
    hide SearchOrder, Sort, ReachRow, GoodItem, PathsListed, Found, Within, StopsAt, DepthBoundMet;
    var o, n := SearchOrder(g, d, start), w.nodesVisited;
    WholeOrder(g, d, start);
    WithinIff(g, d, start, v, limits.maxDepth);
    FoundIff(g, d, start, limits, w, v);
    if Visited(o[..n], v) {
      var i :| 0 <= i < n && o[..n][i].entity == v;
      assert o[i].entity == v;
    }
    if n < |o| {
      KeptOutByDepth(g, d, start, limits, n);
    }
    if VisitedWithin(o, v, limits.maxDepth) {
      var i :| 0 <= i < |o| && o[i].entity == v && |o[i].edges| <= limits.maxDepth;
      assert o[..n][i].entity == v;
    }
  }

  lemma KeptOutByDepth(g: seq<Edge>, d: Direction, start: EntityRef, limits: Limits, n: nat)
    requires var o := SearchOrder(g, d, start); KeepsBounds(o, limits, n) && n < |o|
    requires !NodeBoundMet(g, d, start, limits)
    ensures |SearchOrder(g, d, start)[n].edges| > limits.maxDepth
  {
    hide SearchOrder, OrderAt, HasEdges, PathsListed;
    var o := SearchOrder(g, d, start);
    var i := FoundFrom(g, d, start, n);
    var before := OrderAt(g, d, start, i);
    ListedWhenTaken(g, d, start, i);
    RoundIsPrefix(g, d, start, i + 1);
    NextRound(g, d, start, i);
    NewDeeper(g, d, before, i);
    HasEdgesIfFound(g, d, before, i);
    assert o[n] == OrderAt(g, d, start, i + 1)[n];
    assert !StopsAt(g, d, start, limits, i);
  }

  lemma HasEdgesIfFound(g: seq<Edge>, d: Direction, before: seq<Item>, i: nat)
    requires i < |before|
    ensures |DiscoveredFrom(g, d, before, i)| > |before| ==> HasEdges(g, d, before[i].entity)
  {
    hide HasEdges, DiscoveredFrom;
    if !HasEdges(g, d, before[i].entity) {
      NothingDiscovered(g, d, before, i);
    }
  }

  /** Whatever bound was met, everything nearer than the furthest entity found is found. */
  lemma CompleteBelowDeepest(g: seq<Edge>, d: Direction, start: EntityRef, limits: Limits, w: Walk, v: EntityRef)
    requires Promised(g, d, start, limits, w) && w.deepest > 0 && Within(g, d, start, v, w.deepest - 1)
    ensures Found(w, start, v)
  {
    hide SearchOrder, Sort, ReachRow, GoodItem, PathsListed, Found, Within, NodeBoundMet, DepthBoundMet;
    var o, n := SearchOrder(g, d, start), w.nodesVisited;
    WholeOrder(g, d, start);
    WithinIff(g, d, start, v, w.deepest - 1);
    FoundIff(g, d, start, limits, w, v);
    var i :| 0 <= i < |o| && o[i].entity == v && |o[i].edges| <= w.deepest - 1;
    assert i < n;
    assert o[..n][i].entity == v;
  }

  /** The furthest depth reported is that of the furthest entry. */
  lemma DeepestIsReached(g: seq<Edge>, d: Direction, start: EntityRef, limits: Limits, w: Walk)
    requires Promised(g, d, start, limits, w)
    ensures forall r :: r in w.entries ==> r.depth <= w.deepest
    ensures w.entries != [] ==> exists r :: r in w.entries && r.depth == w.deepest
  {
    hide SearchOrder, Sort, ReachRow, Sorted, GoodItem, PathsListed, NodeBoundMet, DepthBoundMet;
    var o, n := SearchOrder(g, d, start), w.nodesVisited;
    WholeOrder(g, d, start);
    forall r | r in w.entries ensures r.depth <= w.deepest && n > 1 {
      var i := EntryPlace(g, d, start, limits, w, r);
      assert |o[i].edges| <= |o[n - 1].edges|;
    }
    if w.entries != [] {
      assert w.entries[0] in w.entries;
      EntryMembers(g, d, start, limits, w, ReachOf(o[n - 1]));
    }
  }

  // ----- Two entities that depend on each other -----

  lemma CycleOrder(a: EntityRef, b: EntityRef)
    requires a != b
    ensures var g := [Edge(a, b, "INVOCATES"), Edge(b, a, "INVOCATES")];
            && OrderAt(g, Forward, a, 1) == SearchOrder(g, Forward, a) == [Item(a, [], []), Item(b, [b], [g[0]])]
            && HasEdges(g, Forward, b)
  {
    hide OrderAt, SearchOrder, DiscoveredFrom;
    var g := [Edge(a, b, "INVOCATES"), Edge(b, a, "INVOCATES")];
    CycleEdges(a, b);
    FirstRound(g, Forward, a);
    NextRound(g, Forward, a, 0);
    NextRound(g, Forward, a, 1);
    CycleRounds(a, b);
    RoundIsPrefix(g, Forward, a, 2);
  }

  lemma CycleRounds(a: EntityRef, b: EntityRef)
    requires a != b
    ensures var g := [Edge(a, b, "INVOCATES"), Edge(b, a, "INVOCATES")];
            var first, second := [Item(a, [], [])], [Item(a, [], []), Item(b, [b], [g[0]])];
            DiscoveredFrom(g, Forward, first, 0) == second && DiscoveredFrom(g, Forward, second, 1) == second
  {
    hide EdgesFrom, DiscoveredFrom, Discover;
    var g := [Edge(a, b, "INVOCATES"), Edge(b, a, "INVOCATES")];
    var first, second := [Item(a, [], [])], [Item(a, [], []), Item(b, [b], [g[0]])];
    CycleEdges(a, b);
    DiscoveredHere(g, Forward, first, 0);
    DiscoveredHere(g, Forward, second, 1);
    assert !Visited(first, b) && second[0].entity == a;
    assert first[0].path + [b] == [b] && first[0].edges + [g[0]] == [g[0]] && first + [second[1]] == second;
    assert [g[0]][0..] == [g[0]] && [g[1]][0..] == [g[1]];
    DiscoverOne(first, first[0], Forward, [g[0]], 0);
    NoneDiscovered(second, first[0], Forward, [g[0]]);
    DiscoverOne(second, second[1], Forward, [g[1]], 0);
    NoneDiscovered(second, second[1], Forward, [g[1]]);
  }

  lemma CycleEdges(a: EntityRef, b: EntityRef)
    requires a != b
    ensures var g := [Edge(a, b, "INVOCATES"), Edge(b, a, "INVOCATES")];
            EdgesFrom(g, a, Forward) == [g[0]] && EdgesFrom(g, b, Forward) == [g[1]]
  {
    var g := [Edge(a, b, "INVOCATES"), Edge(b, a, "INVOCATES")];
    assert g[1..] == [g[1]] && g[1..][1..] == [];
    assert Leaving([], a, Forward) == [] && Leaving([], b, Forward) == [];
    assert Leaving([g[1]], a, Forward) == [] && Leaving([g[1]], b, Forward) == [g[1]];
    assert Leaving(g, a, Forward) == [g[0]] && Leaving(g, b, Forward) == [g[1]];
    hide EdgeRow;
    assert [g[0]][1..] == [] && [g[1]][1..] == [];
    assert Sort(EdgeRow(Forward), []) == [];
    assert Sort(EdgeRow(Forward), [g[0]]) == [g[0]] && Sort(EdgeRow(Forward), [g[1]]) == [g[1]];
  }

  /** Walked to depth one, everything is found and the result is still marked. */
  lemma MarkedAtDepth(a: EntityRef, b: EntityRef, w: Walk)
    requires a != b
    requires Promised([Edge(a, b, "INVOCATES"), Edge(b, a, "INVOCATES")], Forward, a, Limits(1, 10), w)
    ensures w.truncated && !Missed([Edge(a, b, "INVOCATES"), Edge(b, a, "INVOCATES")], Forward, a, w)
  {
    hide Promised, Missed, OrderAt, HasEdges, SearchOrder;
    var g := [Edge(a, b, "INVOCATES"), Edge(b, a, "INVOCATES")];
    CycleOrder(a, b);
    assert TakenAtABound(g, Forward, a, Limits(1, 10), 1);
    MarkedForNothingIff(g, Forward, a, Limits(1, 10), w);
  }

  /** Walked with room for exactly the two entities, everything is found and the result is
      still marked, though no entity lies at the depth bound. */
  lemma MarkedWhenFull(a: EntityRef, b: EntityRef, w: Walk)
    requires a != b
    requires Promised([Edge(a, b, "INVOCATES"), Edge(b, a, "INVOCATES")], Forward, a, Limits(5, 2), w)
    ensures w.truncated && w.truncationReason == Some(MaxNodesReached)
    ensures !Missed([Edge(a, b, "INVOCATES"), Edge(b, a, "INVOCATES")], Forward, a, w)
  {
    hide Missed, OrderAt, HasEdges, SearchOrder, Sort, ReachRow;
    var g := [Edge(a, b, "INVOCATES"), Edge(b, a, "INVOCATES")];
    CycleOrder(a, b);
    assert TakenAtABound(g, Forward, a, Limits(5, 2), 1);
    MarkedForNothingIff(g, Forward, a, Limits(5, 2), w);
  }
}
