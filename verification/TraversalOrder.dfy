/** A traversal's result in terms of walks and characters: which entities the node bound
    keeps, by which walk each is reported, and that the order in which the graph lists its
    edges makes no difference. */
module TraversalOrder {
  import opened Ordering
  import opened TextOrder
  import opened GraphSpec
  import opened BreadthFirst
  import opened WalkOrder
  import opened Traversal
  import opened TraversalResults

  // ----- One result -----

  /** A graph, a start, a direction and limits determine the result. */
  lemma OneResult(g: seq<Edge>, d: Direction, start: EntityRef, limits: Limits, w: Walk, x: Walk)
    requires Promised(g, d, start, limits, w) && Promised(g, d, start, limits, x)
    ensures w == x
  {
    hide SearchOrder, NodeBoundMet, DepthBoundMet, Sort, ReachRow, Reaches, KeepsBounds;
    BoundsKept(g, d, start, limits, w);
    BoundsKept(g, d, start, limits, x);
    OneLength(SearchOrder(g, d, start), limits, w.nodesVisited, x.nodesVisited);
    OneReason(g, d, start, limits, w, x);
  }

  lemma BoundsKept(g: seq<Edge>, d: Direction, start: EntityRef, limits: Limits, w: Walk)
    requires Promised(g, d, start, limits, w)
    ensures KeepsBounds(SearchOrder(g, d, start), limits, w.nodesVisited)
  {
    hide SearchOrder, NodeBoundMet, DepthBoundMet, Sort, ReachRow, Reaches, KeepsBounds;
  }

  lemma OneReason(g: seq<Edge>, d: Direction, start: EntityRef, limits: Limits, w: Walk, x: Walk)
    requires Promised(g, d, start, limits, w) && Promised(g, d, start, limits, x)
    ensures w.truncationReason == x.truncationReason && w.truncated == x.truncated
  {
    hide SearchOrder, NodeBoundMet, DepthBoundMet, Sort, ReachRow, Reaches, KeepsBounds;
  }

  lemma OneLength(o: seq<Item>, limits: Limits, m: nat, n: nat)
    requires KeepsBounds(o, limits, m) && KeepsBounds(o, limits, n)
    ensures m == n
  {
  }

  /** The order in which the edges are listed makes no difference to anything reported. */
  lemma GraphOrderIrrelevant(
    g: seq<Edge>, h: seq<Edge>, d: Direction, start: EntityRef, limits: Limits, w: Walk, x: Walk)
    requires multiset(g) == multiset(h)
    requires Promised(g, d, start, limits, w) && Promised(h, d, start, limits, x)
    ensures w == x
  {
    hide OrderAt, EdgesFrom, Sort, ReachRow, Reaches;
    assert |g| == |multiset(g)| == |multiset(h)| == |h|;
    forall k ensures OrderAt(g, d, start, k) == OrderAt(h, d, start, k) {
      RoundsForgetOrder(g, h, d, start, k);
    }
    forall v ensures HasEdges(g, d, v) == HasEdges(h, d, v) {
      EdgesFromForgetsOrder(g, h, v, d);
    }
    hide HasEdges;
    forall i ensures StopsAt(g, d, start, limits, i) == StopsAt(h, d, start, limits, i) {
    }
    hide StopsAt;
    assert SearchOrder(g, d, start) == SearchOrder(h, d, start);
    assert Promised(h, d, start, limits, w);
    OneResult(h, d, start, limits, w, x);
  }

  // ----- Which entities, and by which walk -----

  /** The order of the entries: by depth, then kind, then identifier. */
  predicate ReachBefore(r: Reach, s: Reach) {
    r.depth < s.depth || (r.depth == s.depth && EntityBefore(r.entity, s.entity))
  }

  lemma ReachOrder(r: Reach, s: Reach)
    ensures Less(ReachRow(r), ReachRow(s)) <==> ReachBefore(r, s)
    ensures ReachRow(r) == ReachRow(s) <==> r.depth == s.depth && r.entity == s.entity
  {
    hide FieldLess, Less, EntityBefore, EntityRow;
    EntityOrder(r.entity, s.entity);
    NumberOrder(r.depth, s.depth);
    RowOrder([r.depth], EntityRow(r.entity), [s.depth], EntityRow(s.entity));
    assert ReachRow(r)[0] == [r.depth] && ReachRow(r)[1..] == EntityRow(r.entity);
    assert ReachRow(s)[0] == [s.depth] && ReachRow(s)[1..] == EntityRow(s.entity);
  }

  /** Entries come strictly in the order of depth, kind and identifier. */
  lemma EntriesInOrder(g: seq<Edge>, d: Direction, start: EntityRef, limits: Limits, w: Walk)
    requires Promised(g, d, start, limits, w)
    ensures forall i, j :: 0 <= i < j < |w.entries| ==> ReachBefore(w.entries[i], w.entries[j])
  {
    hide SearchOrder, NodeBoundMet, DepthBoundMet, ReachRow, Sort, GoodItem, PathsListed;
    var o := SearchOrder(g, d, start);
    var taken := o[..w.nodesVisited];
    WholeOrder(g, d, start);
    assert forall i :: 0 <= i < |taken| ==> taken[i] == o[i];
    SortedReaches(taken);
    assert w.entries == Sort(ReachRow, Reaches(taken));
    forall i, j | 0 <= i < j < |w.entries| ensures ReachBefore(w.entries[i], w.entries[j]) {
    }
  }

  lemma SortedReaches(o: seq<Item>)
    requires |o| > 0 && forall i, j :: 0 <= i < j < |o| ==> o[i].entity != o[j].entity
    ensures var es := Sort(ReachRow, Reaches(o));
            forall i, j :: 0 <= i < j < |es| ==> ReachBefore(es[i], es[j])
  {
    hide ReachRow, ReachBefore, Sort, ReachOf;
    var es, sorted := Reaches(o), Sort(ReachRow, Reaches(o));
    forall i, j | 0 <= i < j < |es| ensures es[i] != es[j] {
      EntityOfReach(o[i + 1]);
      EntityOfReach(o[j + 1]);
    }
    SortFacts(ReachRow, es);
    SortedDiffer(ReachRow, es);
    forall i | 0 <= i < |o| ensures ReachOf(o[i]).entity == o[i].entity {
      EntityOfReach(o[i]);
    }
    forall i, j | 0 <= i < j < |sorted| ensures ReachBefore(sorted[i], sorted[j]) {
      ReachOrder(sorted[i], sorted[j]);
      assert sorted[i] in sorted && sorted[j] in sorted && sorted[i] != sorted[j];
      SameEntity(es, o, sorted[i], sorted[j]);
    }
  }

  lemma EntityOfReach(it: Item)
    ensures ReachOf(it).entity == it.entity
  {
  }

  lemma SameEntity(es: seq<Reach>, o: seq<Item>, r: Reach, s: Reach)
    requires |es| < |o| && forall i :: 0 <= i < |es| ==> es[i] == ReachOf(o[i + 1])
    requires forall i, j :: 0 <= i < j < |o| ==> o[i].entity != o[j].entity
    requires r in es && s in es && r != s
    ensures r.entity != s.entity
  {
    var i :| 0 <= i < |es| && es[i] == r;
    var j :| 0 <= j < |es| && es[j] == s;
  }

  /** Every entity is reported by the least of the walks that lead to it: a shortest one,
      and of the shortest the one whose edges lead to the neighbours of least kind and
      identifier, over the edges of least relationship. */
  lemma EntriesLeast(g: seq<Edge>, d: Direction, start: EntityRef, limits: Limits, w: Walk)
    requires Promised(g, d, start, limits, w)
    ensures forall r, walk :: r in w.entries && Leads(g, d, start, walk, r.entity)
              ==> walk == r.edges || Ahead(r.edges, walk, d)
  {
    hide SearchOrder, Promised, Ahead, Leads;
    SearchInOrder(g, d, start);
    forall r, walk | r in w.entries && Leads(g, d, start, walk, r.entity)
      ensures walk == r.edges || Ahead(r.edges, walk, d)
    {
      var i := EntryPlace(g, d, start, limits, w, r);
      Least(g, d, start, SearchOrder(g, d, start), i, walk);
    }
  }

  /** What the node bound leaves out comes later: every walk within the depth bound to an
      entity that is not found is behind the walk of every entry. */
  lemma BoundKeepsFirst(g: seq<Edge>, d: Direction, start: EntityRef, limits: Limits, w: Walk)
    requires Promised(g, d, start, limits, w)
    ensures forall r, walk, v ::
              r in w.entries && Leads(g, d, start, walk, v) && |walk| <= limits.maxDepth && !Found(w, start, v)
              ==> Ahead(r.edges, walk, d)
  {
    hide SearchOrder, Promised, Ahead, Found, GoodItem, PathsListed;
    var o := SearchOrder(g, d, start);
    SearchInOrder(g, d, start);
    WholeOrder(g, d, start);
    forall r, walk, v |
      r in w.entries && Leads(g, d, start, walk, v) && |walk| <= limits.maxDepth && !Found(w, start, v)
      ensures Ahead(r.edges, walk, d)
    {
      var i := EntryPlace(g, d, start, limits, w, r);
      assert Reachable(g, d, start, v);
      var j :| 0 <= j < |o| && o[j].entity == v;
      FoundIff(g, d, start, limits, w, v);
      assert forall m :: 0 <= m < w.nodesVisited ==> o[..w.nodesVisited][m].entity == o[m].entity;
      Later(o, d, i, j);
      Least(g, d, start, o, j, walk);
      AheadLaws(r.edges, o[j].edges, walk, d);
    }
  }

  /** Of two neighbours of one entity, both first met there, the one of lesser kind, and of
      one kind the one of lesser identifier, is found if the other is; and between two
      parallel edges the one of lesser relationship is reported. */
  lemma LesserNeighbourFirst(
    g: seq<Edge>, d: Direction, start: EntityRef, limits: Limits, w: Walk, r: Reach, before: seq<Edge>, f: Edge)
    requires Promised(g, d, start, limits, w) && r in w.entries && r.edges != []
    requires before == r.edges[..|r.edges| - 1] && f in g && Near(f, d) == Near(r.edges[|r.edges| - 1], d)
    ensures var e := r.edges[|r.edges| - 1];
            && Far(e, d) == r.entity
            && (Far(f, d) == r.entity ==> !TextBefore(f.relationship, e.relationship))
            && (EntityBefore(Far(f, d), r.entity)
                ==> Found(w, start, Far(f, d)))
  {
    hide SearchOrder, Promised, Ahead, Found, TextBefore, EntityBefore;
    var e, v := r.edges[|r.edges| - 1], Far(f, d);
    EntriesShortest(g, d, start, limits, w);
    assert Leads(g, d, start, r.edges, r.entity);
    LeadsFurther(g, d, start, before, f);
    assert r.edges == before + [e];
    FurtherOrder(before, e, before, f, d);
    AheadLaws(before, before, before, d);
    TextBeforeLaws(e.relationship, f.relationship, e.relationship);
    EntityLaws(v, r.entity, v);
    if v == r.entity {
      EntriesLeast(g, d, start, limits, w);
    }
    if !Found(w, start, v) {
      BoundKeepsFirst(g, d, start, limits, w);
      assert Ahead(before + [e], before + [f], d);
    }
  }

  // ----- The rounds -----

  lemma {:induction false} LeadsToOne(
    g: seq<Edge>, d: Direction, start: EntityRef, walk: seq<Edge>, u: EntityRef, v: EntityRef)
    requires Leads(g, d, start, walk, u) && Leads(g, d, start, walk, v)
    ensures u == v
  {
  }

  /** What has been listed when the `i`th entity is taken out: what was found over the edges
      of those taken out before. */
  lemma ListedByThen(g: seq<Edge>, d: Direction, start: EntityRef, i: nat, k: nat)
    requires 1 <= k < |SearchOrder(g, d, start)|
    ensures var o := SearchOrder(g, d, start);
            && o[k].edges != []
            && (k < |OrderAt(g, d, start, i)|
                <==> exists j :: 0 <= j < i && j < |o| && o[j].entity == Near(o[k].edges[|o[k].edges| - 1], d))
  {
    hide OrderAt, SearchOrder, Order;
    var o := SearchOrder(g, d, start);
    WholeOrder(g, d, start);
    StartsWalk(g, d, start, o, k);
    if k < |OrderAt(g, d, start, i)| {
      var _ := FoundOverEarlier(g, d, start, i, k);
    }
    if j: nat :| j < i && j < |o| && o[j].entity == Near(o[k].edges[|o[k].edges| - 1], d) {
      ListedOnceTaken(g, d, start, i, k, j);
    }
  }

  lemma FoundOverEarlier(g: seq<Edge>, d: Direction, start: EntityRef, i: nat, k: nat) returns (j: nat)
    requires 1 <= k < |OrderAt(g, d, start, i)| && k < |SearchOrder(g, d, start)|
    requires SearchOrder(g, d, start)[k].edges != []
    ensures var o := SearchOrder(g, d, start);
            j < i && j < |o| && o[j].entity == Near(o[k].edges[|o[k].edges| - 1], d)
  {
    hide OrderAt, SearchOrder, PathsListed, AllLeast, InOrder, ExpandedBefore, Level;
    var o, early := SearchOrder(g, d, start), OrderAt(g, d, start, i);
    RoundIsPrefix(g, d, start, i);
    OrderAtFacts(g, d, start, i);
    RoundsInOrder(g, d, start, i);
    assert early[k] == o[k] && Extends(early, i, early[k]);
    j :| 0 <= j < i && j < |early| && ExtendsBy(early[j], early[k]);
    assert GoodItem(g, d, start, early[j]) && GoodItem(g, d, start, early[k]);
    LeadsToOne(g, d, start, early[j].edges, early[j].entity, Near(o[k].edges[|o[k].edges| - 1], d));
    assert o[j] == early[j];
  }

  lemma ListedOnceTaken(g: seq<Edge>, d: Direction, start: EntityRef, i: nat, k: nat, j: nat)
    requires k < |SearchOrder(g, d, start)| && j < i && j < |SearchOrder(g, d, start)|
    requires var o := SearchOrder(g, d, start);
             o[k].edges != [] && o[j].entity == Near(o[k].edges[|o[k].edges| - 1], d)
    ensures k < |OrderAt(g, d, start, i)|
  {
    hide OrderAt, SearchOrder, PathsListed, Level;
    var o, early := SearchOrder(g, d, start), OrderAt(g, d, start, i);
    var last := o[k].edges[|o[k].edges| - 1];
    RoundIsPrefix(g, d, start, i);
    OrderAtFacts(g, d, start, i);
    WholeOrder(g, d, start);
    ListedWhenTaken(g, d, start, j);
    OrderAtGrows(g, d, start, j, i);
    assert early[j] == o[j] && Expanded(g, d, early, early[j]);
    assert GoodItem(g, d, start, o[k]);
    assert last in g && Far(last, d) == o[k].entity;
    var m :| 0 <= m < |early| && early[m].entity == o[k].entity && |early[m].edges| <= |early[j].edges| + 1;
    assert o[m] == early[m];
  }

  lemma StartsWalk(g: seq<Edge>, d: Direction, start: EntityRef, o: seq<Item>, k: nat)
    requires Order(g, d, start, o) && 1 <= k < |o|
    ensures o[k].edges != []
  {
    assert GoodItem(g, d, start, o[k]) && o[0].entity != o[k].entity;
  }
}
