/** The order in which a breadth-first search of a whole graph finds its entities, and what
    that order promises. */
module BreadthFirst {
  import opened GraphSpec

  /** An entity with the walk that reached it: the entities after the start, ending with
      this one, and the edges between them. */
  datatype Item = Item(entity: EntityRef, path: seq<EntityRef>, edges: seq<Edge>)

  predicate Visited(order: seq<Item>, v: EntityRef) {
    exists i :: 0 <= i < |order| && order[i].entity == v
  }

  /** Adds the entities that edges from an item lead to, unless they are listed already. */
  function Discover(order: seq<Item>, it: Item, d: Direction, hops: seq<Edge>): seq<Item>
    decreases |hops|
  {
    if hops == [] then order
    else
      var v := Far(hops[0], d);
      var next := Item(v, it.path + [v], it.edges + [hops[0]]);
      Discover(if Visited(order, v) then order else order + [next], it, d, hops[1..])
  }

  /** Everything found when the first `k` entities found have been expanded. */
  function OrderAt(g: seq<Edge>, d: Direction, start: EntityRef, k: nat): (order: seq<Item>)
    ensures |order| > 0
  {
    if k == 0 then [Item(start, [], [])]
    else
      var before := OrderAt(g, d, start, k - 1);
      if k - 1 < |before| then DiscoveredFrom(g, d, before, k - 1) else before
  }

  function DiscoveredFrom(g: seq<Edge>, d: Direction, order: seq<Item>, head: nat): (grown: seq<Item>)
    requires head < |order|
    ensures order <= grown
  {
    DiscoverExtends(order, order[head], d, EdgesFrom(g, order[head].entity, d));
    Discover(order, order[head], d, EdgesFrom(g, order[head].entity, d))
  }

  /** Everything reachable, in the order found. There are no more entities than edges, but
      for the start. */
  function SearchOrder(g: seq<Edge>, d: Direction, start: EntityRef): seq<Item> {
    OrderAt(g, d, start, |g| + 1)
  }

  // ----- What an order is -----

  ghost predicate Order(g: seq<Edge>, d: Direction, start: EntityRef, order: seq<Item>) {
    && |order| > 0
    && order[0] == Item(start, [], [])
    && (forall i, j :: 0 <= i < j < |order| ==> order[i].entity != order[j].entity)
    && (forall i, j :: 0 <= i < j < |order| ==> |order[i].edges| <= |order[j].edges|)
    && (forall i :: 0 <= i < |order| ==> GoodItem(g, d, start, order[i]))
    && PathsListed(order)
  }

  /** Every entity of a listed walk is listed itself. */
  ghost predicate PathsListed(order: seq<Item>) {
    forall i, k :: 0 <= i < |order| && 0 <= k < |order[i].path| ==> Visited(order, order[i].path[k])
  }

  /** The walk is there and none is shorter. */
  ghost predicate GoodItem(g: seq<Edge>, d: Direction, start: EntityRef, it: Item) {
    && Leads(g, d, start, it.edges, it.entity)
    && |it.path| == |it.edges|
    && (forall i :: 0 <= i < |it.edges| ==> it.path[i] == Far(it.edges[i], d))
    && forall edges :: Leads(g, d, start, edges, it.entity) ==> |it.edges| <= |edges|
  }

  /** `v` is listed with a walk of at most `depth` edges. */
  ghost predicate VisitedWithin(order: seq<Item>, v: EntityRef, depth: nat) {
    exists i :: 0 <= i < |order| && order[i].entity == v && |order[i].edges| <= depth
  }

  /** Every edge leaving the item leads to an entity listed at most one deeper. */
  ghost predicate Expanded(g: seq<Edge>, d: Direction, order: seq<Item>, it: Item) {
    forall e :: e in g && Near(e, d) == it.entity ==> VisitedWithin(order, Far(e, d), |it.edges| + 1)
  }

  ghost predicate ExpandedBefore(g: seq<Edge>, d: Direction, order: seq<Item>, head: nat) {
    forall i :: 0 <= i < head && i < |order| ==> Expanded(g, d, order, order[i])
  }

  ghost predicate Level(order: seq<Item>, depth: nat) {
    forall i :: 0 <= i < |order| ==> |order[i].edges| <= depth
  }

  lemma VisitedStays(order: seq<Item>, grown: seq<Item>, v: EntityRef, depth: nat)
    ensures order <= grown && VisitedWithin(order, v, depth) ==> VisitedWithin(grown, v, depth) && Visited(grown, v)
  {
    if order <= grown && VisitedWithin(order, v, depth) {
      var i :| 0 <= i < |order| && order[i].entity == v && |order[i].edges| <= depth;
      assert grown[i] == order[i];
    }
  }

  lemma ExpandedStays(g: seq<Edge>, d: Direction, order: seq<Item>, grown: seq<Item>, it: Item)
    requires Expanded(g, d, order, it) && order <= grown
    ensures Expanded(g, d, grown, it)
  {
    forall e | e in g && Near(e, d) == it.entity ensures VisitedWithin(grown, Far(e, d), |it.edges| + 1) {
      VisitedStays(order, grown, Far(e, d), |it.edges| + 1);
    }
  }

  /** Every entity within as many edges as the next item to expand is listed within them. */
  lemma {:induction false} LevelsComplete(
    g: seq<Edge>, d: Direction, start: EntityRef, order: seq<Item>, head: nat, edges: seq<Edge>, v: EntityRef)
    requires Order(g, d, start, order) && ExpandedBefore(g, d, order, head)
    requires Leads(g, d, start, edges, v) && (head < |order| ==> |edges| <= |order[head].edges|)
    ensures VisitedWithin(order, v, |edges|)
    decreases |edges|
  {
    hide GoodItem, PathsListed;
    if edges == [] {
      assert order[0].entity == v;
    } else {
      var last := edges[|edges| - 1];
      LevelsComplete(g, d, start, order, head, edges[..|edges| - 1], Near(last, d));
      var i :| 0 <= i < |order| && order[i].entity == Near(last, d) && |order[i].edges| <= |edges| - 1;
      assert i < head;
      assert Expanded(g, d, order, order[i]);
      var j :| 0 <= j < |order| && order[j].entity == Far(last, d) && |order[j].edges| <= |order[i].edges| + 1;
    }
  }

  // ----- One expansion -----

  lemma {:induction false} DiscoverExtends(order: seq<Item>, it: Item, d: Direction, hops: seq<Edge>)
    ensures order <= Discover(order, it, d, hops)
    ensures forall i :: |order| <= i < |Discover(order, it, d, hops)| ==>
              |Discover(order, it, d, hops)[i].edges| == |it.edges| + 1
    decreases |hops|
  {
    if hops != [] {
      var v := Far(hops[0], d);
      DiscoverExtends(
        if Visited(order, v) then order else order + [Item(v, it.path + [v], it.edges + [hops[0]])], it, d, hops[1..]);
    }
  }

  /** A neighbour not listed yet is one edge further than the item being expanded, and no
      walk to it is shorter. */
  lemma NewItemIsGood(
    g: seq<Edge>, d: Direction, start: EntityRef, order: seq<Item>, head: nat, grown: seq<Item>, e: Edge)
    requires Order(g, d, start, order) && ExpandedBefore(g, d, order, head)
    requires head < |order| && order <= grown
    requires e in g && Near(e, d) == order[head].entity && !Visited(grown, Far(e, d))
    ensures GoodItem(g, d, start, Item(Far(e, d), order[head].path + [Far(e, d)], order[head].edges + [e]))
  {
    hide ExpandedBefore, PathsListed;
    var it := order[head];
    assert GoodItem(g, d, start, it);
    LeadsFurther(g, d, start, it.edges, e);
    forall edges | Leads(g, d, start, edges, Far(e, d)) ensures |it.edges| + 1 <= |edges| {
      VisitedStays(order, grown, Far(e, d), |edges|);
      if |edges| <= |it.edges| {
        LevelsComplete(g, d, start, order, head, edges, Far(e, d));
      }
    }
  }

  lemma Appended(g: seq<Edge>, d: Direction, start: EntityRef, order: seq<Item>, next: Item)
    requires Order(g, d, start, order) && Level(order, |next.edges|)
    requires GoodItem(g, d, start, next) && !Visited(order, next.entity)
    requires forall k :: 0 <= k < |next.path| ==> next.path[k] == next.entity || Visited(order, next.path[k])
    ensures Order(g, d, start, order + [next])
  {
    hide GoodItem;
    var grown := order + [next];
    assert grown[|order|] == next;
    assert forall i :: 0 <= i < |order| ==> grown[i] == order[i];
    assert forall i :: 0 <= i < |order| ==> order[i].entity != next.entity;
    forall v | Visited(order, v) ensures Visited(grown, v) {
      var i :| 0 <= i < |order| && order[i].entity == v;
      assert grown[i].entity == v;
    }
    assert PathsListed(grown);
  }

  /** The first `n` edges lead to entities listed within a depth. */
  ghost predicate Followed(order: seq<Item>, d: Direction, hops: seq<Edge>, n: nat, depth: nat)
    requires n <= |hops|
  {
    forall k :: 0 <= k < n ==> VisitedWithin(order, Far(hops[k], d), depth)
  }

  lemma NoneFollowed(order: seq<Item>, d: Direction, hops: seq<Edge>, depth: nat)
    ensures Followed(order, d, hops, 0, depth)
  {
  }

  lemma SeenWithin(order: seq<Item>, d: Direction, hops: seq<Edge>, n: nat, depth: nat)
    requires n < |hops| && Followed(order, d, hops, n, depth) && Visited(order, Far(hops[n], d)) && Level(order, depth)
    ensures Followed(order, d, hops, n + 1, depth)
  {
  }

  lemma NewFollowed(grown: seq<Item>, next: Item, d: Direction, hops: seq<Edge>, n: nat, depth: nat)
    requires n < |hops| && next.entity == Far(hops[n], d) && |next.edges| <= depth
    requires Followed(grown, d, hops, n, depth) && Level(grown, depth)
    ensures Followed(grown + [next], d, hops, n + 1, depth) && Level(grown + [next], depth)
  {
    forall k | 0 <= k < n ensures VisitedWithin(grown + [next], Far(hops[k], d), depth) {
      VisitedStays(grown, grown + [next], Far(hops[k], d), depth);
    }
    assert (grown + [next])[|grown|] == next;
  }

  lemma AllFollowed(g: seq<Edge>, d: Direction, order: seq<Item>, it: Item, hops: seq<Edge>)
    requires hops == EdgesFrom(g, it.entity, d) && Followed(order, d, hops, |hops|, |it.edges| + 1)
    ensures Expanded(g, d, order, it)
  {
    hide EdgesFrom;
    EdgesFromMembers(g, it.entity, d);
    forall e | e in g && Near(e, d) == it.entity ensures VisitedWithin(order, Far(e, d), |it.edges| + 1) {
      assert e in hops;
    }
  }

  lemma NewPathListed(
    g: seq<Edge>, d: Direction, start: EntityRef, order: seq<Item>, head: nat, grown: seq<Item>, v: EntityRef)
    requires Order(g, d, start, order) && head < |order| && order <= grown
    ensures var path := order[head].path + [v];
            forall k :: 0 <= k < |path| ==> path[k] == v || Visited(grown, path[k])
  {
    hide GoodItem;
    var path := order[head].path + [v];
    forall k | 0 <= k < |path| - 1 ensures Visited(grown, path[k]) {
      assert path[k] == order[head].path[k];
      var i :| 0 <= i < |order| && order[i].entity == path[k];
      assert grown[i] == order[i];
    }
  }

  /** The state in the middle of an expansion. */
  ghost predicate Expanding(
    g: seq<Edge>, d: Direction, start: EntityRef, order: seq<Item>, head: nat, grown: seq<Item>, hops: seq<Edge>,
    n: nat)
    requires head < |order| && n <= |hops|
  {
    && order <= grown && Order(g, d, start, grown) && Level(grown, |order[head].edges| + 1)
    && Followed(grown, d, hops, n, |order[head].edges| + 1)
  }

  /** Following one more edge of the item being expanded. */
  function WithHop(grown: seq<Item>, it: Item, d: Direction, hop: Edge): seq<Item> {
    var v := Far(hop, d);
    if Visited(grown, v) then grown else grown + [Item(v, it.path + [v], it.edges + [hop])]
  }

  lemma HopFollowed(
    g: seq<Edge>, d: Direction, start: EntityRef, order: seq<Item>, head: nat, grown: seq<Item>, hops: seq<Edge>,
    n: nat)
    requires Order(g, d, start, order) && ExpandedBefore(g, d, order, head) && head < |order|
    requires hops == EdgesFrom(g, order[head].entity, d) && n < |hops|
    requires Expanding(g, d, start, order, head, grown, hops, n)
    ensures Expanding(g, d, start, order, head, WithHop(grown, order[head], d, hops[n]), hops, n + 1)
  {
    hide EdgesFrom, Order, Followed, Level, ExpandedBefore, GoodItem, Visited;
    var it, v := order[head], Far(hops[n], d);
    if Visited(grown, v) {
      SeenWithin(grown, d, hops, n, |it.edges| + 1);
    } else {
      var next := Item(v, it.path + [v], it.edges + [hops[n]]);
      EdgesFromMembers(g, it.entity, d);
      assert hops[n] in hops;
      NewItemIsGood(g, d, start, order, head, grown, hops[n]);
      NewPathListed(g, d, start, order, head, grown, v);
      Appended(g, d, start, grown, next);
      NewFollowed(grown, next, d, hops, n, |it.edges| + 1);
    }
  }

  lemma DiscoverHop(grown: seq<Item>, it: Item, d: Direction, hops: seq<Edge>, n: nat)
    requires n < |hops|
    ensures Discover(grown, it, d, hops[n..]) == Discover(WithHop(grown, it, d, hops[n]), it, d, hops[n + 1..])
  {
    assert hops[n..][1..] == hops[n + 1..] && hops[n..][0] == hops[n];
  }

  lemma {:induction false} ExpandsOrder(
    g: seq<Edge>, d: Direction, start: EntityRef, order: seq<Item>, head: nat, grown: seq<Item>, hops: seq<Edge>,
    n: nat)
    requires Order(g, d, start, order) && ExpandedBefore(g, d, order, head) && head < |order|
    requires hops == EdgesFrom(g, order[head].entity, d) && n <= |hops|
    requires Expanding(g, d, start, order, head, grown, hops, n)
    ensures Expanding(g, d, start, order, head, Discover(grown, order[head], d, hops[n..]), hops, |hops|)
    decreases |hops| - n
  {
    hide EdgesFrom, Order, ExpandedBefore, Expanding, WithHop;
    if n < |hops| {
      var grown' := WithHop(grown, order[head], d, hops[n]);
      HopFollowed(g, d, start, order, head, grown, hops, n);
      DiscoverHop(grown, order[head], d, hops, n);
      ExpandsOrder(g, d, start, order, head, grown', hops, n + 1);
    }
  }

  // ----- Every round -----

  lemma FirstRound(g: seq<Edge>, d: Direction, start: EntityRef)
    ensures OrderAt(g, d, start, 0) == [Item(start, [], [])]
  {
  }

  lemma NextRound(g: seq<Edge>, d: Direction, start: EntityRef, k: nat)
    ensures var before := OrderAt(g, d, start, k);
            OrderAt(g, d, start, k + 1) == if k < |before| then DiscoveredFrom(g, d, before, k) else before
  {
    hide DiscoveredFrom;
  }

  /** After every round the list is an order of shortest walks, what was taken out has been
      expanded, and nothing is more than one deeper than what is next. */
  lemma {:induction false} OrderAtFacts(g: seq<Edge>, d: Direction, start: EntityRef, k: nat)
    ensures InRound(g, d, start, OrderAt(g, d, start, k), k)
  {
    hide OrderAt, InRound;
    if k == 0 {
      FirstRound(g, d, start);
      StartInRound(g, d, start);
    } else {
      NextRound(g, d, start, k - 1);
      OrderAtFacts(g, d, start, k - 1);
      RoundKept(g, d, start, OrderAt(g, d, start, k - 1), k - 1);
    }
  }

  ghost predicate InRound(g: seq<Edge>, d: Direction, start: EntityRef, order: seq<Item>, k: nat) {
    && Order(g, d, start, order) && ExpandedBefore(g, d, order, k)
    && (k < |order| ==> Level(order, |order[k].edges| + 1))
  }

  lemma RoundKept(g: seq<Edge>, d: Direction, start: EntityRef, order: seq<Item>, k: nat)
    requires InRound(g, d, start, order, k)
    ensures InRound(g, d, start, if k < |order| then DiscoveredFrom(g, d, order, k) else order, k + 1)
  {
    hide EdgesFrom, Followed, Discover, Order, Level, Expanded;
    if k < |order| {
      var hops := EdgesFrom(g, order[k].entity, d);
      NoneFollowed(order, d, hops, |order[k].edges| + 1);
      assert hops[0..] == hops;
      ExpandsOrder(g, d, start, order, k, order, hops, 0);
      var grown := Discover(order, order[k], d, hops);
      AllFollowed(g, d, grown, order[k], hops);
      AllExpanded(g, d, order, grown, k);
      NextIsNoShallower(g, d, start, grown, k);
    }
  }

  lemma NextIsNoShallower(g: seq<Edge>, d: Direction, start: EntityRef, order: seq<Item>, head: nat)
    requires Order(g, d, start, order) && head < |order| && Level(order, |order[head].edges| + 1)
    ensures head + 1 < |order| ==> Level(order, |order[head + 1].edges| + 1)
  {
    hide GoodItem, PathsListed;
  }

  lemma AllExpanded(g: seq<Edge>, d: Direction, before: seq<Item>, order: seq<Item>, head: nat)
    requires ExpandedBefore(g, d, before, head) && head < |before| && before <= order
    requires Expanded(g, d, order, before[head])
    ensures ExpandedBefore(g, d, order, head + 1)
  {
    hide Expanded;
    forall i | 0 <= i < head + 1 ensures Expanded(g, d, order, order[i]) {
      assert order[i] == before[i];
      if i < head {
        ExpandedStays(g, d, before, order, before[i]);
      }
    }
  }

  lemma StartInRound(g: seq<Edge>, d: Direction, start: EntityRef)
    ensures InRound(g, d, start, [Item(start, [], [])], 0)
  {
  }

  lemma {:induction false} OrderAtGrows(g: seq<Edge>, d: Direction, start: EntityRef, j: nat, k: nat)
    requires j <= k
    ensures OrderAt(g, d, start, j) <= OrderAt(g, d, start, k)
    decreases k
  {
    hide OrderAt;
    if j < k {
      NextRound(g, d, start, k - 1);
      OrderAtGrows(g, d, start, j, k - 1);
    }
  }

  /** Once everything listed has been taken out, nothing more is found. */
  lemma {:induction false} OrderAtStays(g: seq<Edge>, d: Direction, start: EntityRef, j: nat, k: nat)
    requires |OrderAt(g, d, start, j)| <= j <= k
    ensures OrderAt(g, d, start, k) == OrderAt(g, d, start, j)
    decreases k
  {
    hide OrderAt;
    if j < k {
      NextRound(g, d, start, k - 1);
      OrderAtStays(g, d, start, j, k - 1);
    }
  }

  // ----- The whole search -----

  lemma {:induction false} DistinctAtMost<T>(xs: seq<T>, s: set<T>)
    requires forall i, j :: 0 <= i < j < |xs| ==> xs[i] != xs[j]
    requires forall i :: 0 <= i < |xs| ==> xs[i] in s
    ensures |xs| <= |s|
  {
    if xs != [] {
      var n := |xs| - 1;
      DistinctAtMost(xs[..n], s - {xs[n]});
    }
  }

  function Ends(g: seq<Edge>, d: Direction): set<EntityRef> {
    if g == [] then {} else {Far(g[0], d)} + Ends(g[1..], d)
  }

  lemma {:induction false} EndsCounted(g: seq<Edge>, d: Direction)
    ensures |Ends(g, d)| <= |g|
    ensures forall e :: e in g ==> Far(e, d) in Ends(g, d)
  {
    if g != [] {
      EndsCounted(g[1..], d);
      assert g == [g[0]] + g[1..];
    }
  }

  ghost function Entities(order: seq<Item>): seq<EntityRef> {
    seq(|order|, i requires 0 <= i < |order| => order[i].entity)
  }

  lemma OrderCounted(g: seq<Edge>, d: Direction, start: EntityRef, order: seq<Item>)
    requires Order(g, d, start, order)
    ensures |order| <= |g| + 1
  {
    EndsCounted(g, d);
    var s := {start} + Ends(g, d);
    forall i | 0 <= i < |order| ensures Entities(order)[i] in s {
      assert GoodItem(g, d, start, order[i]);
    }
    DistinctAtMost(Entities(order), s);
  }

  /** What every round has found is the beginning of the whole order. */
  lemma RoundIsPrefix(g: seq<Edge>, d: Direction, start: EntityRef, k: nat)
    ensures OrderAt(g, d, start, k) <= SearchOrder(g, d, start)
    ensures |OrderAt(g, d, start, k)| <= k ==> OrderAt(g, d, start, k) == SearchOrder(g, d, start)
  {
    hide OrderAt, Order, ExpandedBefore;
    var n := |g| + 1;
    OrderAtFacts(g, d, start, n);
    OrderCounted(g, d, start, SearchOrder(g, d, start));
    if k <= n {
      OrderAtGrows(g, d, start, k, n);
      if |OrderAt(g, d, start, k)| <= k {
        OrderAtStays(g, d, start, k, n);
      }
    } else {
      OrderAtStays(g, d, start, n, k);
    }
  }

  /** An entity is listed before it is taken out. */
  lemma ListedWhenTaken(g: seq<Edge>, d: Direction, start: EntityRef, i: nat)
    requires i < |SearchOrder(g, d, start)|
    ensures i < |OrderAt(g, d, start, i)| && OrderAt(g, d, start, i)[i] == SearchOrder(g, d, start)[i]
  {
    hide OrderAt;
    RoundIsPrefix(g, d, start, i);
  }

  /** What is found when or after an entity is taken out is further from the start. */
  lemma {:induction false} FoundLaterIsDeeper(g: seq<Edge>, d: Direction, start: EntityRef, j: nat, k: nat)
    requires j <= k && j < |OrderAt(g, d, start, j)|
    ensures var early, order := OrderAt(g, d, start, j), OrderAt(g, d, start, k);
            && early <= order
            && forall i :: |early| <= i < |order| ==> |order[i].edges| > |early[j].edges|
    decreases k
  {
    hide OrderAt, Discover, EdgesFrom, GoodItem, PathsListed, Level, ExpandedBefore;
    if j < k {
      FoundLaterIsDeeper(g, d, start, j, k - 1);
      NextRound(g, d, start, k - 1);
      var before := OrderAt(g, d, start, k - 1);
      OrderAtFacts(g, d, start, k - 1);
      if k - 1 < |before| {
        DiscoverExtends(before, before[k - 1], d, EdgesFrom(g, before[k - 1].entity, d));
        assert |before[j].edges| <= |before[k - 1].edges|;
      }
    }
  }

  /** Everything reachable is listed, each with a shortest walk, nearest first. */
  lemma WholeOrder(g: seq<Edge>, d: Direction, start: EntityRef)
    ensures var o := SearchOrder(g, d, start);
            Order(g, d, start, o) && forall v :: Reachable(g, d, start, v) <==> Visited(o, v)
  {
    hide OrderAt;
    var o, n := SearchOrder(g, d, start), |g| + 1;
    OrderAtFacts(g, d, start, n);
    OrderCounted(g, d, start, o);
    forall v ensures Reachable(g, d, start, v) <==> Visited(o, v) {
      if Reachable(g, d, start, v) {
        var edges :| Leads(g, d, start, edges, v);
        LevelsComplete(g, d, start, o, n, edges, v);
      }
      if Visited(o, v) {
        var i :| 0 <= i < |o| && o[i].entity == v;
        assert GoodItem(g, d, start, o[i]);
      }
    }
  }

  /** An entity can be reached within a number of edges exactly when it is listed within it. */
  lemma WithinIff(g: seq<Edge>, d: Direction, start: EntityRef, v: EntityRef, depth: nat)
    ensures Within(g, d, start, v, depth) <==> VisitedWithin(SearchOrder(g, d, start), v, depth)
  {
    hide OrderAt;
    var o := SearchOrder(g, d, start);
    WholeOrder(g, d, start);
    if Within(g, d, start, v, depth) {
      var edges :| |edges| <= depth && Leads(g, d, start, edges, v);
      assert Reachable(g, d, start, v);
      var i :| 0 <= i < |o| && o[i].entity == v;
      assert GoodItem(g, d, start, o[i]);
    }
    if VisitedWithin(o, v, depth) {
      var i :| 0 <= i < |o| && o[i].entity == v && |o[i].edges| <= depth;
      assert GoodItem(g, d, start, o[i]);
    }
  }
}
