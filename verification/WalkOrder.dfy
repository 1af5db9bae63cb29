/** The canonical order of walks, and that the search finds its entities in that order,
    each by the least of the walks that reach it. Neither depends on how the edges of the
    graph are listed. */
module WalkOrder {
  import opened Ordering
  import opened TextOrder
  import opened GraphSpec
  import opened BreadthFirst

  /** Of two edges followed from an entity, the one to the neighbour of lesser kind comes
      first, then of lesser identifier, then the edge of lesser relationship. */
  predicate EdgeBefore(e: Edge, f: Edge, d: Direction) {
    || EntityBefore(Far(e, d), Far(f, d))
    || (Far(e, d) == Far(f, d) && TextBefore(e.relationship, f.relationship))
  }

  /** Walks of one length come in the order of the first edges in which they differ. */
  predicate WalkBefore(a: seq<Edge>, b: seq<Edge>, d: Direction)
    requires |a| == |b|
    decreases |a|
  {
    && a != []
    && var n := |a| - 1;
    WalkBefore(a[..n], b[..n], d) || (a[..n] == b[..n] && EdgeBefore(a[n], b[n], d))
  }

  /** Shorter walks come first. */
  predicate Ahead(a: seq<Edge>, b: seq<Edge>, d: Direction) {
    |a| < |b| || (|a| == |b| && WalkBefore(a, b, d))
  }

  // ----- The order -----

  lemma EdgeOrder(e: Edge, f: Edge, d: Direction)
    ensures Less(EdgeRow(d)(e), EdgeRow(d)(f)) <==> EdgeBefore(e, f, d)
    ensures EdgeRow(d)(e) == EdgeRow(d)(f) <==> Far(e, d) == Far(f, d) && e.relationship == f.relationship
  {
    hide Less, EntityBefore, TextBefore, EntityRow, TextField;
    var a, b := EntityRow(Far(e, d)), EntityRow(Far(f, d));
    var r, s := TextField(e.relationship), TextField(f.relationship);
    EntityOrder(Far(e, d), Far(f, d));
    TextFieldOrder(e.relationship, f.relationship);
    OneFieldOrder(r, s);
    RowLength(Far(e, d), Far(f, d));
    LessJoined(a, [r], b, [s]);
    assert EdgeRow(d)(e)[..2] == a && EdgeRow(d)(e)[2] == r;
    assert EdgeRow(d)(f)[..2] == b && EdgeRow(d)(f)[2] == s;
  }

  lemma RowLength(a: EntityRef, b: EntityRef)
    ensures |EntityRow(a)| == |EntityRow(b)| == 2
  {
  }

  lemma EdgeLaws(e: Edge, f: Edge, h: Edge, d: Direction)
    ensures EdgeBefore(e, f, d) && EdgeBefore(f, h, d) ==> EdgeBefore(e, h, d)
    ensures !EdgeBefore(e, e, d)
  {
    hide Less, EdgeBefore;
    EdgeOrder(e, f, d);
    EdgeOrder(f, h, d);
    EdgeOrder(e, h, d);
    EdgeOrder(e, e, d);
    RowLaws(EdgeRow(d)(e), EdgeRow(d)(f), EdgeRow(d)(h));
  }

  lemma {:induction false} WalkLaws(a: seq<Edge>, b: seq<Edge>, c: seq<Edge>, d: Direction)
    requires |a| == |b| == |c|
    ensures WalkBefore(a, b, d) && WalkBefore(b, c, d) ==> WalkBefore(a, c, d)
    ensures !WalkBefore(a, a, d)
    decreases |a|
  {
    hide EdgeBefore;
    if a != [] {
      var n := |a| - 1;
      WalkLaws(a[..n], b[..n], c[..n], d);
      EdgeLaws(a[n], b[n], c[n], d);
    }
  }

  lemma AheadLaws(a: seq<Edge>, b: seq<Edge>, c: seq<Edge>, d: Direction)
    ensures Ahead(a, b, d) && Ahead(b, c, d) ==> Ahead(a, c, d)
    ensures !Ahead(a, a, d)
  {
    if |a| == |b| == |c| {
      WalkLaws(a, b, c, d);
    }
    WalkLaws(a, a, a, d);
  }

  /** Walks that go one edge further. */
  lemma FurtherOrder(a: seq<Edge>, e: Edge, b: seq<Edge>, f: Edge, d: Direction)
    ensures Ahead(a + [e], b + [f], d) <==> Ahead(a, b, d) || (a == b && EdgeBefore(e, f, d))
  {
    hide EdgeBefore;
    assert (a + [e])[..|a|] == a && (b + [f])[..|b|] == b;
    if a == b {
      WalkLaws(a, a, a, d);
    }
  }

  /** The edges to follow from an entity come in order, repeats of one edge together. */
  lemma HopsInOrder(g: seq<Edge>, v: EntityRef, d: Direction)
    ensures var hops := EdgesFrom(g, v, d);
            forall m, n :: 0 <= m < n < |hops| ==> hops[m] == hops[n] || EdgeBefore(hops[m], hops[n], d)
  {
    hide Less, EdgeBefore, EdgeRow, Sort;
    SortFacts(EdgeRow(d), Leaving(g, v, d));
    var hops := EdgesFrom(g, v, d);
    EdgesFromMembers(g, v, d);
    forall m, n | 0 <= m < n < |hops| ensures hops[m] == hops[n] || EdgeBefore(hops[m], hops[n], d) {
      assert hops[m] in hops && hops[n] in hops;
      assert AtMost(EdgeRow(d)(hops[m]), EdgeRow(d)(hops[n]));
      EdgeOrder(hops[m], hops[n], d);
    }
  }

  // ----- The search -----

  /** No other walk to the entity comes as early. */
  ghost predicate LeastWalk(g: seq<Edge>, d: Direction, start: EntityRef, it: Item) {
    forall edges :: Leads(g, d, start, edges, it.entity) ==> edges == it.edges || Ahead(it.edges, edges, d)
  }

  ghost predicate AllLeast(g: seq<Edge>, d: Direction, start: EntityRef, order: seq<Item>) {
    forall i :: 0 <= i < |order| ==> LeastWalk(g, d, start, order[i])
  }

  ghost predicate InOrder(order: seq<Item>, d: Direction) {
    forall i, j :: 0 <= i < j < |order| ==> Ahead(order[i].edges, order[j].edges, d)
  }

  /** The walk goes one edge further than that of one of the first `n` items. */
  ghost predicate Extends(order: seq<Item>, n: nat, it: Item) {
    exists i :: 0 <= i < n && i < |order| && ExtendsBy(order[i], it)
  }

  ghost predicate ExtendsBy(parent: Item, it: Item) {
    it.edges != [] && it.edges[..|it.edges| - 1] == parent.edges
  }

  ghost predicate AllExtend(order: seq<Item>, n: nat) {
    forall j :: 1 <= j < |order| ==> Extends(order, n, order[j])
  }

  /** The state between two rounds, and in the middle of one. */
  ghost predicate Canonical(g: seq<Edge>, d: Direction, start: EntityRef, order: seq<Item>, n: nat) {
    AllLeast(g, d, start, order) && InOrder(order, d) && AllExtend(order, n)
  }

  /** The entities found in this round were found over the first `n` of the edges. */
  ghost predicate NewOver(order: seq<Item>, grown: seq<Item>, it: Item, hops: seq<Edge>, n: nat)
    requires n <= |hops|
  {
    && order <= grown
    && forall j :: |order| <= j < |grown| ==>
         exists m :: 0 <= m < n && grown[j].edges == it.edges + [hops[m]]
  }

  ghost predicate Midway(
    g: seq<Edge>, d: Direction, start: EntityRef, order: seq<Item>, head: nat, grown: seq<Item>, hops: seq<Edge>,
    n: nat)
    requires head < |order| && n <= |hops|
  {
    && Order(g, d, start, order) && ExpandedBefore(g, d, order, head) && Canonical(g, d, start, order, head)
    && hops == EdgesFrom(g, order[head].entity, d)
    && Expanding(g, d, start, order, head, grown, hops, n)
  }

  /** A walk to a neighbour not listed yet comes no earlier than the one by the edge at hand.
      Its last edge leaves an entity that is listed and not expanded: the one being expanded
      or a later one. */
  lemma NoEarlierWalk(
    g: seq<Edge>, d: Direction, start: EntityRef, order: seq<Item>, head: nat, grown: seq<Item>, hops: seq<Edge>,
    n: nat, walk: seq<Edge>)
    requires head < |order| && n < |hops| && Midway(g, d, start, order, head, grown, hops, n)
    requires !Visited(grown, Far(hops[n], d)) && Leads(g, d, start, walk, Far(hops[n], d))
    ensures var next := order[head].edges + [hops[n]];
            walk == next || Ahead(next, walk, d)
  {
    hide Order, ExpandedBefore, Expanding, EdgesFrom, EdgeBefore, WalkBefore, AllLeast, InOrder, AllExtend, Visited;
    var it := order[head];
    NewIsShortest(g, d, start, order, head, grown, hops, n);
    if |walk| == |it.edges| + 1 {
      var k := |it.edges|;
      var first, last := walk[..k], walk[k];
      assert walk == first + [last];
      var i := ListedBefore(g, d, start, order, head, grown, hops, n, first, last);
      FurtherOrder(it.edges, hops[n], first, last, d);
      assert order[i].edges == first || Ahead(order[i].edges, first, d) by {
        assert AllLeast(g, d, start, order);
        Least(g, d, start, order, i, first);
      }
      if i == head {
        LaterHop(g, d, start, order, head, grown, hops, n, last);
      } else {
        Later(order, d, head, i);
        AheadLaws(it.edges, order[i].edges, first, d);
      }
    }
  }

  lemma Least(g: seq<Edge>, d: Direction, start: EntityRef, order: seq<Item>, i: nat, walk: seq<Edge>)
    requires AllLeast(g, d, start, order) && i < |order| && Leads(g, d, start, walk, order[i].entity)
    ensures walk == order[i].edges || Ahead(order[i].edges, walk, d)
  {
    assert LeastWalk(g, d, start, order[i]);
  }

  lemma Later(order: seq<Item>, d: Direction, i: nat, j: nat)
    requires InOrder(order, d) && i < j < |order|
    ensures Ahead(order[i].edges, order[j].edges, d)
  {
  }

  lemma NewIsShortest(
    g: seq<Edge>, d: Direction, start: EntityRef, order: seq<Item>, head: nat, grown: seq<Item>, hops: seq<Edge>,
    n: nat)
    requires head < |order| && n < |hops| && Midway(g, d, start, order, head, grown, hops, n)
    requires !Visited(grown, Far(hops[n], d))
    ensures forall walk :: Leads(g, d, start, walk, Far(hops[n], d)) ==> |order[head].edges| + 1 <= |walk|
  {
    hide Order, ExpandedBefore, EdgesFrom, Visited, Canonical, Followed, Level;
    EdgesFromMembers(g, order[head].entity, d);
    assert hops[n] in hops;
    NewItemIsGood(g, d, start, order, head, grown, hops[n]);
  }

  /** Where the last edge of such a walk leaves from. */
  lemma ListedBefore(
    g: seq<Edge>, d: Direction, start: EntityRef, order: seq<Item>, head: nat, grown: seq<Item>, hops: seq<Edge>,
    n: nat, first: seq<Edge>, last: Edge) returns (i: nat)
    requires head < |order| && n < |hops| && Midway(g, d, start, order, head, grown, hops, n)
    requires !Visited(grown, Far(hops[n], d)) && |first| == |order[head].edges|
    requires Leads(g, d, start, first + [last], Far(hops[n], d))
    ensures head <= i < |order| && order[i].entity == Near(last, d) && Leads(g, d, start, first, order[i].entity)
    ensures last in g && Far(last, d) == Far(hops[n], d)
  {
    hide Order, EdgesFrom, Canonical, Followed, Level;
    assert (first + [last])[..|first|] == first;
    LevelsComplete(g, d, start, order, head, first, Near(last, d));
    i :| 0 <= i < |order| && order[i].entity == Near(last, d) && |order[i].edges| <= |first|;
    if i < head {
      assert Expanded(g, d, order, order[i]);
      VisitedStays(order, grown, Far(last, d), |order[i].edges| + 1);
      assert false;
    }
  }

  /** Of the edges of the entity being expanded, one to a neighbour not listed yet is not
      among those followed. */
  lemma LaterHop(
    g: seq<Edge>, d: Direction, start: EntityRef, order: seq<Item>, head: nat, grown: seq<Item>, hops: seq<Edge>,
    n: nat, last: Edge)
    requires head < |order| && n < |hops| && Midway(g, d, start, order, head, grown, hops, n)
    requires last in g && Near(last, d) == order[head].entity && Far(last, d) == Far(hops[n], d)
    requires !Visited(grown, Far(hops[n], d))
    ensures last == hops[n] || EdgeBefore(hops[n], last, d)
  {
    hide Order, ExpandedBefore, EdgesFrom, EdgeBefore, Canonical, Level;
    EdgesFromMembers(g, order[head].entity, d);
    HopsInOrder(g, order[head].entity, d);
    forall m | 0 <= m < n ensures Visited(grown, Far(hops[m], d)) {
      VisitedStays(grown, grown, Far(hops[m], d), |order[head].edges| + 1);
    }
    var m :| 0 <= m < |hops| && hops[m] == last;
  }

  /** The walk by the edge at hand comes after every walk listed. */
  lemma NewIsLast(
    g: seq<Edge>, d: Direction, start: EntityRef, order: seq<Item>, head: nat, grown: seq<Item>, hops: seq<Edge>,
    n: nat, j: nat)
    requires head < |order| && n < |hops| && Midway(g, d, start, order, head, grown, hops, n)
    requires NewOver(order, grown, order[head], hops, n) && !Visited(grown, Far(hops[n], d)) && j < |grown|
    ensures Ahead(grown[j].edges, order[head].edges + [hops[n]], d)
  {
    hide ExpandedBefore, EdgesFrom, EdgeBefore, WalkBefore, AllLeast, InOrder, AllExtend, Followed, Level, PathsListed;
    var it := order[head];
    if j >= |order| {
      var m :| 0 <= m < n && grown[j].edges == it.edges + [hops[m]];
      assert GoodItem(g, d, start, grown[j]);
      assert (it.edges + [hops[m]])[|it.edges|] == hops[m];
      assert Far(hops[m], d) == grown[j].entity;
      HopsInOrder(g, it.entity, d);
      FurtherOrder(it.edges, hops[m], it.edges, hops[n], d);
    } else if j > 0 {
      assert grown[j] == order[j];
      FromEarlier(order, d, head, j, hops[n]);
    } else {
      assert grown[0].edges == [];
    }
  }

  lemma FromEarlier(order: seq<Item>, d: Direction, head: nat, j: nat, hop: Edge)
    requires head < |order| && 1 <= j < |order| && InOrder(order, d) && AllExtend(order, head)
    ensures Ahead(order[j].edges, order[head].edges + [hop], d)
  {
    hide EdgeBefore, WalkBefore, InOrder;
    assert Extends(order, head, order[j]);
    var i :| 0 <= i < head && ExtendsBy(order[i], order[j]);
    var k := |order[j].edges| - 1;
    assert order[j].edges == order[i].edges + [order[j].edges[k]];
    Later(order, d, i, head);
    FurtherOrder(order[i].edges, order[j].edges[k], order[head].edges, hop, d);
  }

  /** One more edge followed. */
  lemma HopKeepsOrder(
    g: seq<Edge>, d: Direction, start: EntityRef, order: seq<Item>, head: nat, grown: seq<Item>, hops: seq<Edge>,
    n: nat)
    requires head < |order| && n < |hops| && Midway(g, d, start, order, head, grown, hops, n)
    requires NewOver(order, grown, order[head], hops, n) && AllLeast(g, d, start, grown) && InOrder(grown, d)
    ensures var grown' := WithHop(grown, order[head], d, hops[n]);
            && Midway(g, d, start, order, head, grown', hops, n + 1)
            && NewOver(order, grown', order[head], hops, n + 1)
            && AllLeast(g, d, start, grown') && InOrder(grown', d)
  {
    hide Order, ExpandedBefore, Expanding, EdgesFrom, Canonical, Visited, LeastWalk, Ahead;
    HopFollowed(g, d, start, order, head, grown, hops, n);
    var it, v := order[head], Far(hops[n], d);
    if !Visited(grown, v) {
      var next := Item(v, it.path + [v], it.edges + [hops[n]]);
      forall walk | Leads(g, d, start, walk, v) ensures walk == next.edges || Ahead(next.edges, walk, d) {
        NoEarlierWalk(g, d, start, order, head, grown, hops, n, walk);
      }
      assert LeastWalk(g, d, start, next) by {
        NextIsLeast(g, d, start, next);
      }
      forall j | 0 <= j < |grown| ensures Ahead(grown[j].edges, next.edges, d) {
        NewIsLast(g, d, start, order, head, grown, hops, n, j);
      }
    }
  }

  lemma NextIsLeast(g: seq<Edge>, d: Direction, start: EntityRef, it: Item)
    requires forall walk :: Leads(g, d, start, walk, it.entity) ==> walk == it.edges || Ahead(it.edges, walk, d)
    ensures LeastWalk(g, d, start, it)
  {
  }

  lemma {:induction false} ExpansionKeepsOrder(
    g: seq<Edge>, d: Direction, start: EntityRef, order: seq<Item>, head: nat, grown: seq<Item>, hops: seq<Edge>,
    n: nat)
    requires head < |order| && n <= |hops| && Midway(g, d, start, order, head, grown, hops, n)
    requires NewOver(order, grown, order[head], hops, n) && AllLeast(g, d, start, grown) && InOrder(grown, d)
    ensures var all := Discover(grown, order[head], d, hops[n..]);
            && NewOver(order, all, order[head], hops, |hops|)
            && AllLeast(g, d, start, all) && InOrder(all, d)
    decreases |hops| - n
  {
    hide Midway, NewOver, AllLeast, InOrder, WithHop;
    if n < |hops| {
      HopKeepsOrder(g, d, start, order, head, grown, hops, n);
      DiscoverHop(grown, order[head], d, hops, n);
      ExpansionKeepsOrder(g, d, start, order, head, WithHop(grown, order[head], d, hops[n]), hops, n + 1);
    }
  }

  lemma RoundKeepsOrder(g: seq<Edge>, d: Direction, start: EntityRef, order: seq<Item>, head: nat)
    requires head < |order| && InRound(g, d, start, order, head) && Canonical(g, d, start, order, head)
    ensures Canonical(g, d, start, DiscoveredFrom(g, d, order, head), head + 1)
  {
    hide Order, ExpandedBefore, EdgesFrom, AllLeast, InOrder, Discover, Level, Extends;
    var it := order[head];
    var hops := EdgesFrom(g, it.entity, d);
    NoneFollowed(order, d, hops, |it.edges| + 1);
    assert hops[0..] == hops;
    ExpansionKeepsOrder(g, d, start, order, head, order, hops, 0);
    var all := DiscoveredFrom(g, d, order, head);
    forall j | 1 <= j < |all| ensures Extends(all, head + 1, all[j]) {
      ExtendsStill(order, head, all, hops, j);
    }
  }

  lemma ExtendsStill(order: seq<Item>, head: nat, all: seq<Item>, hops: seq<Edge>, j: nat)
    requires head < |order| && AllExtend(order, head) && NewOver(order, all, order[head], hops, |hops|)
    requires 1 <= j < |all|
    ensures Extends(all, head + 1, all[j])
  {
    if j < |order| {
      assert Extends(order, head, order[j]);
      var i :| 0 <= i < head && i < |order| && ExtendsBy(order[i], order[j]);
      assert ExtendsBy(all[i], all[j]);
    } else {
      var m :| 0 <= m < |hops| && all[j].edges == order[head].edges + [hops[m]];
      assert (order[head].edges + [hops[m]])[..|order[head].edges|] == order[head].edges;
      assert ExtendsBy(all[head], all[j]);
    }
  }

  lemma {:induction false} RoundsInOrder(g: seq<Edge>, d: Direction, start: EntityRef, k: nat)
    ensures Canonical(g, d, start, OrderAt(g, d, start, k), k)
  {
    hide OrderAt, DiscoveredFrom, InRound, Canonical;
    if k == 0 {
      FirstRound(g, d, start);
      StartCanonical(g, d, start);
    } else {
      var before := OrderAt(g, d, start, k - 1);
      RoundsInOrder(g, d, start, k - 1);
      OrderAtFacts(g, d, start, k - 1);
      NextRound(g, d, start, k - 1);
      if k - 1 < |before| {
        RoundKeepsOrder(g, d, start, before, k - 1);
      } else {
        MoreRounds(g, d, start, before, k - 1);
      }
    }
  }

  lemma MoreRounds(g: seq<Edge>, d: Direction, start: EntityRef, order: seq<Item>, n: nat)
    requires Canonical(g, d, start, order, n)
    ensures Canonical(g, d, start, order, n + 1)
  {
    forall j | 1 <= j < |order| ensures Extends(order, n + 1, order[j]) {
      assert Extends(order, n, order[j]);
    }
  }

  lemma StartCanonical(g: seq<Edge>, d: Direction, start: EntityRef)
    ensures Canonical(g, d, start, [Item(start, [], [])], 0)
  {
  }

  /** The whole search finds every entity by the least of all walks that reach it, and the
      entities in the order of those walks. */
  lemma SearchInOrder(g: seq<Edge>, d: Direction, start: EntityRef)
    ensures var o := SearchOrder(g, d, start); AllLeast(g, d, start, o) && InOrder(o, d)
  {
    hide OrderAt;
    RoundsInOrder(g, d, start, |g| + 1);
  }

  // ----- The order of the graph's edges -----

  lemma LeavingHaving(g: seq<Edge>, v: EntityRef, d: Direction, e: Edge)
    ensures multiset(Leaving(g, v, d))[e] == if Near(e, d) == v then multiset(g)[e] else 0
  {
    if g != [] {
      assert g == [g[0]] + g[1..];
      LeavingHaving(g[1..], v, d, e);
    }
  }

  /** Listing the edges of a graph in another order changes no round of the search. */
  lemma EdgesFromForgetsOrder(g: seq<Edge>, h: seq<Edge>, v: EntityRef, d: Direction)
    requires multiset(g) == multiset(h)
    ensures EdgesFrom(g, v, d) == EdgesFrom(h, v, d)
  {
    hide EdgeRow, Sort, Leaving;
    var a, b := Leaving(g, v, d), Leaving(h, v, d);
    forall e ensures multiset(a)[e] == multiset(b)[e] {
      LeavingHaving(g, v, d, e);
      LeavingHaving(h, v, d, e);
    }
    assert multiset(a) == multiset(b);
    forall e, f | e in a && f in a && EdgeRow(d)(e) == EdgeRow(d)(f) ensures e == f {
      LeavingMembers(g, v, d, e);
      LeavingMembers(g, v, d, f);
      EdgeOrder(e, f, d);
    }
    SortForgetsOrder(EdgeRow(d), a, b);
  }

  lemma {:induction false} RoundsForgetOrder(g: seq<Edge>, h: seq<Edge>, d: Direction, start: EntityRef, k: nat)
    requires multiset(g) == multiset(h)
    ensures OrderAt(g, d, start, k) == OrderAt(h, d, start, k)
  {
    hide Discover, EdgesFrom;
    if k > 0 {
      RoundsForgetOrder(g, h, d, start, k - 1);
      var before := OrderAt(g, d, start, k - 1);
      if k - 1 < |before| {
        EdgesFromForgetsOrder(g, h, before[k - 1].entity, d);
      }
    }
  }
}
