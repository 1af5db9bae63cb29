/** Exactly which nodes and edges a decomposition lists, and in which order. */
module DocumentOrder {
  import opened Basics
  import opened GraphSpec
  import opened Documents

  // ----- The first of each -----

  /** `y` stands at `i` and nothing before it is the same. */
  ghost predicate IsFirst<T(!new)>(xs: seq<T>, same: (T, T) -> bool, i: nat, y: T) {
    i < |xs| && xs[i] == y && forall j :: 0 <= j < i ==> !same(xs[j], y)
  }

  /** `ys` holds the first of each of the elements of `xs` and nothing else, in order. */
  ghost predicate FirstsOf<T(!new)>(xs: seq<T>, same: (T, T) -> bool, ys: seq<T>) {
    && (forall y :: y in ys <==> exists i: nat :: IsFirst(xs, same, i, y))
    && (forall k, l, i: nat, j: nat ::
          0 <= k < l < |ys| && IsFirst(xs, same, i, ys[k]) && IsFirst(xs, same, j, ys[l]) ==> i < j)
  }

  ghost predicate Equivalence<T(!new)>(same: (T, T) -> bool) {
    && (forall x :: same(x, x))
    && (forall x, y :: same(x, y) ==> same(y, x))
    && (forall x, y, z :: same(x, y) && same(y, z) ==> same(x, z))
  }

  ghost predicate Has<T(!new)>(xs: seq<T>, same: (T, T) -> bool, x: T) {
    exists i :: 0 <= i < |xs| && same(xs[i], x)
  }

  lemma {:induction false} FirstSame<T(!new)>(xs: seq<T>, same: (T, T) -> bool, x: T, n: nat) returns (i: nat)
    requires n < |xs| && same(xs[n], x)
    ensures i <= n && same(xs[i], x) && forall j :: 0 <= j < i ==> !same(xs[j], x)
    decreases n
  {
    if j: nat :| j < n && same(xs[j], x) {
      i := FirstSame(xs, same, x, j);
    } else {
      i := n;
    }
  }

  lemma StillDiffers<T(!new)>(same: (T, T) -> bool, a: T, b: T, c: T)
    requires Equivalence(same) && same(b, c) && !same(a, c)
    ensures !same(a, b)
  {
  }

  lemma KeptHas<T(!new)>(xs: seq<T>, same: (T, T) -> bool, ys: seq<T>, x: T)
    requires Equivalence(same) && FirstsOf(xs, same, ys)
    ensures Has(ys, same, x) <==> Has(xs, same, x)
  {
    if Has(ys, same, x) {
      var k :| 0 <= k < |ys| && same(ys[k], x);
      assert ys[k] in ys;
      var i: nat :| IsFirst(xs, same, i, ys[k]);
    }
    if Has(xs, same, x) {
      var n :| 0 <= n < |xs| && same(xs[n], x);
      var i := FirstSame(xs, same, x, n);
      forall j | 0 <= j < i ensures !same(xs[j], xs[i]) {
        StillDiffers(same, xs[j], xs[i], x);
      }
      assert IsFirst(xs, same, i, xs[i]);
      assert xs[i] in ys;
      var k :| 0 <= k < |ys| && ys[k] == xs[i];
    }
  }

  lemma LongerFirst<T(!new)>(xs: seq<T>, same: (T, T) -> bool, x: T, i: nat, y: T)
    ensures IsFirst(xs + [x], same, i, y) <==> IsFirst(xs, same, i, y) || (i == |xs| && y == x && !Has(xs, same, x))
  {
    var longer := xs + [x];
    assert forall j :: 0 <= j < |xs| ==> longer[j] == xs[j];
  }

  /** Listing one more element unless the same is listed. */
  lemma OneMoreFirst<T(!new)>(xs: seq<T>, same: (T, T) -> bool, ys: seq<T>, x: T)
    requires Equivalence(same) && FirstsOf(xs, same, ys)
    ensures FirstsOf(xs + [x], same, if Has(ys, same, x) then ys else ys + [x])
  {
    hide Has;
    var grown := if Has(ys, same, x) then ys else ys + [x];
    KeptHas(xs, same, ys, x);
    forall i: nat, y
      ensures IsFirst(xs + [x], same, i, y) <==> IsFirst(xs, same, i, y) || (i == |xs| && y == x && !Has(xs, same, x))
    {
      LongerFirst(xs, same, x, i, y);
    }
    hide IsFirst;
    forall y ensures y in grown <==> exists i: nat :: IsFirst(xs + [x], same, i, y) {
      if y in ys {
        var i: nat :| IsFirst(xs, same, i, y);
        assert IsFirst(xs + [x], same, i, y);
      } else if y in grown {
        assert IsFirst(xs + [x], same, |xs|, x);
      }
    }
    forall k, l, i: nat, j: nat |
      0 <= k < l < |grown| && IsFirst(xs + [x], same, i, grown[k]) && IsFirst(xs + [x], same, j, grown[l])
      ensures i < j
    {
      assert grown[k] in ys;
      var i': nat :| IsFirst(xs, same, i', grown[k]);
      FirstOnce(xs + [x], same, i, i', grown[k]);
      FirstWithin(xs, same, i', grown[k]);
      if l < |ys| {
        assert ys[l] in ys;
        var j': nat :| IsFirst(xs, same, j', ys[l]);
        FirstOnce(xs + [x], same, j, j', ys[l]);
      } else {
        FirstOnce(xs + [x], same, j, |xs|, x);
      }
    }
  }

  lemma FirstWithin<T(!new)>(xs: seq<T>, same: (T, T) -> bool, i: nat, y: T)
    requires IsFirst(xs, same, i, y)
    ensures i < |xs|
  {
  }

  lemma FirstOnce<T(!new)>(xs: seq<T>, same: (T, T) -> bool, i: nat, j: nat, y: T)
    requires Equivalence(same) && IsFirst(xs, same, i, y) && IsFirst(xs, same, j, y)
    ensures i == j
  {
    assert same(y, y);
  }

  lemma NoFirsts<T(!new)>(same: (T, T) -> bool)
    ensures FirstsOf([], same, [])
  {
  }

  // ----- Edges and nodes -----

  lemma {:induction false} PushedFirsts(done: seq<Dependency>, edges: seq<Dependency>, more: seq<Dependency>)
    requires FirstsOf(done, SameTriple, edges)
    ensures FirstsOf(done + more, SameTriple, PushAll(edges, more))
    decreases |more|
  {
    hide FirstsOf, PushAll;
    PushStep(edges, more);
    if more == [] {
      assert done + more == done;
    } else {
      OneMoreFirst(done, SameTriple, edges, more[0]);
      assert Holds(edges, more[0]) <==> Has(edges, SameTriple, more[0]);
      PushedFirsts(done + [more[0]], PushEdge(edges, more[0]), more[1..]);
      assert done + [more[0]] + more[1..] == done + more;
    }
  }

  lemma PushStep(edges: seq<Dependency>, more: seq<Dependency>)
    ensures PushAll(edges, more) == if more == [] then edges else PushAll(PushEdge(edges, more[0]), more[1..])
  {
  }

  function SameEntity(): (EntityRef, EntityRef) -> bool {
    (a, b) => a == b
  }

  lemma HasIsIn(xs: seq<EntityRef>, v: EntityRef)
    ensures Has(xs, SameEntity(), v) <==> v in xs
  {
    if v in xs {
      var i :| 0 <= i < |xs| && xs[i] == v;
      assert SameEntity()(xs[i], v);
    }
  }

  lemma {:induction false} AddedFirsts(done: seq<EntityRef>, nodes: seq<EntityRef>, more: seq<EntityRef>)
    requires FirstsOf(done, SameEntity(), nodes)
    ensures FirstsOf(done + more, SameEntity(), AddNew(nodes, more))
    decreases |more|
  {
    hide FirstsOf;
    if more == [] {
      assert done + more == done;
    } else {
      OneMoreFirst(done, SameEntity(), nodes, more[0]);
      HasIsIn(nodes, more[0]);
      AddedFirsts(done + [more[0]], if more[0] in nodes then nodes else nodes + [more[0]], more[1..]);
      assert done + [more[0]] + more[1..] == done + more;
    }
  }

  /** The entities named, dependency by dependency: subject, object, then the route. */
  function AllNamed(deps: seq<Dependency>): seq<EntityRef> {
    if deps == [] then [] else [deps[0].subject, deps[0].object_] + deps[0].path + AllNamed(deps[1..])
  }

  lemma {:induction false} NodesFirsts(done: seq<EntityRef>, nodes: seq<EntityRef>, deps: seq<Dependency>)
    requires FirstsOf(done, SameEntity(), nodes)
    ensures FirstsOf(done + AllNamed(deps), SameEntity(), NodesOf(deps, nodes))
    decreases |deps|
  {
    hide FirstsOf;
    if deps == [] {
      assert done + AllNamed(deps) == done;
    } else {
      AddedFirsts(done, nodes, Named(deps[0]));
      NodesFirsts(done + Named(deps[0]), AddNew(nodes, Named(deps[0])), deps[1..]);
      assert done + Named(deps[0]) + AllNamed(deps[1..]) == done + AllNamed(deps);
    }
  }

  // ----- What is offered -----

  predicate Connects(e: Dependency, from: EntityRef, until: EntityRef) {
    e.subject == from && e.object_ == until && e.depth == 0
  }

  /** The first direct edge observed between two entities. */
  ghost predicate FirstObserved(source: seq<Dependency>, from: EntityRef, until: EntityRef, e: Dependency) {
    exists i :: 0 <= i < |source| && source[i] == e && Connects(e, from, until)
                && forall j :: 0 <= j < i ==> !Connects(source[j], from, until)
  }

  /** The edge found for a hop is the first one observed; earlier ones do not connect the
      two entities. */
  lemma {:induction false} FindHopIff(source: seq<Dependency>, from: EntityRef, until: EntityRef, e: Dependency)
    ensures FindHop(source, from, until) == Some(e) <==> FirstObserved(source, from, until, e)
  {
    hide Connects, FirstObserved;
    FindHopStep(source, from, until);
    hide FindHop;
    if source == [] {
      NothingObserved(from, until, e);
    } else {
      FindHopIff(source[1..], from, until, e);
      ObservedStep(source, from, until, e);
    }
  }

  lemma FindHopStep(source: seq<Dependency>, from: EntityRef, until: EntityRef)
    ensures FindHop(source, from, until)
         == if source == [] then None
            else if Connects(source[0], from, until) then Some(source[0])
            else FindHop(source[1..], from, until)
  {
  }

  lemma NothingObserved(from: EntityRef, until: EntityRef, e: Dependency)
    ensures !FirstObserved([], from, until, e)
  {
  }

  lemma ObservedStep(source: seq<Dependency>, from: EntityRef, until: EntityRef, e: Dependency)
    requires source != []
    ensures FirstObserved(source, from, until, e)
            <==> if Connects(source[0], from, until) then source[0] == e
                 else FirstObserved(source[1..], from, until, e)
  {
    hide Connects;
    var rest := source[1..];
    if FirstObserved(rest, from, until, e) && !Connects(source[0], from, until) {
      var i :| 0 <= i < |rest| && rest[i] == e && Connects(e, from, until)
               && forall j :: 0 <= j < i ==> !Connects(rest[j], from, until);
      assert source[i + 1] == e;
      assert forall j :: 1 <= j < i + 1 ==> source[j] == rest[j - 1];
    }
    if FirstObserved(source, from, until, e) {
      var i :| 0 <= i < |source| && source[i] == e && Connects(e, from, until)
               && forall j :: 0 <= j < i ==> !Connects(source[j], from, until);
      if i > 0 {
        assert rest[i - 1] == e;
        assert forall j :: 0 <= j < i - 1 ==> rest[j] == source[j + 1];
      }
    }
  }

  /** An edge for every hop of a chain, each the first observed. */
  ghost predicate FollowsFirst(source: seq<Dependency>, chain: seq<EntityRef>, hops: seq<Dependency>) {
    && |hops| == |chain| - 1
    && forall n :: 0 <= n < |hops| ==> FirstObserved(source, chain[n], chain[n + 1], hops[n])
  }

  lemma {:induction false} HopsIff(source: seq<Dependency>, chain: seq<EntityRef>, hops: seq<Dependency>)
    requires chain != []
    ensures Hops(source, chain) == Ok(hops) <==> FollowsFirst(source, chain, hops)
    decreases |chain|
  {
    hide FirstObserved;
    if |chain| >= 2 {
      var rest := chain[1..];
      forall e
        ensures FindHop(source, chain[0], chain[1]) == Some(e) <==> FirstObserved(source, chain[0], chain[1], e)
      {
        FindHopIff(source, chain[0], chain[1], e);
      }
      if hops != [] {
        HopsIff(source, rest, hops[1..]);
        assert hops == [hops[0]] + hops[1..];
        if FollowsFirst(source, chain, hops) {
          forall n | 0 <= n < |hops[1..]| ensures FirstObserved(source, rest[n], rest[n + 1], hops[1..][n]) {
            assert FirstObserved(source, chain[n + 1], chain[n + 2], hops[n + 1]);
          }
        }
        if FollowsFirst(source, rest, hops[1..]) && FirstObserved(source, chain[0], chain[1], hops[0]) {
          forall n | 0 <= n < |hops| ensures FirstObserved(source, chain[n], chain[n + 1], hops[n]) {
            if n > 0 {
              assert FirstObserved(source, rest[n - 1], rest[n], hops[1..][n - 1]);
            }
          }
        }
      }
    }
  }

  /** One list of edges for every dependency: none for a direct one, and for another those of
      the hops of its route. */
  ghost predicate RoutesOf(source: seq<Dependency>, deps: seq<Dependency>, routes: seq<seq<Dependency>>) {
    && |routes| == |deps|
    && forall i :: 0 <= i < |deps| ==>
         if deps[i].depth == 0 then routes[i] == []
         else FollowsFirst(source, [deps[i].subject] + deps[i].path + [deps[i].object_], routes[i])
  }

  function Joined(routes: seq<seq<Dependency>>): seq<Dependency> {
    if routes == [] then [] else routes[0] + Joined(routes[1..])
  }

  lemma {:induction false} AllHopsAre(source: seq<Dependency>, deps: seq<Dependency>)
    returns (routes: seq<seq<Dependency>>)
    requires AllHops(source, deps).Ok?
    ensures RoutesOf(source, deps, routes) && AllHops(source, deps).value == Joined(routes)
  {
    hide FollowsFirst, Hops;
    if deps == [] {
      routes := [];
    } else {
      var rest := AllHopsAre(source, deps[1..]);
      var own := if deps[0].depth == 0 then [] else Hops(source, Chain(deps[0])).value;
      HopsIff(source, Chain(deps[0]), own);
      routes := [own] + rest;
      assert routes[1..] == rest;
    }
  }

  /** The places of the direct dependencies among the others, in order. */
  ghost predicate DirectsAt(deps: seq<Dependency>, places: seq<nat>) {
    && (forall k, l :: 0 <= k < l < |places| ==> places[k] < places[l])
    && (forall k :: 0 <= k < |places| ==> places[k] < |deps|)
    && (forall i :: 0 <= i < |deps| ==> (i in places <==> deps[i].depth == 0))
  }

  ghost predicate Picked(deps: seq<Dependency>, places: seq<nat>, direct: seq<Dependency>) {
    |direct| == |places| && forall k :: 0 <= k < |places| ==> places[k] < |deps| && direct[k] == deps[places[k]]
  }

  lemma {:induction false} DirectsPicked(deps: seq<Dependency>) returns (places: seq<nat>)
    ensures DirectsAt(deps, places) && Picked(deps, places, Directs(deps))
    decreases |deps|
  {
    hide Directs, DirectsAt, Picked;
    places := [];
    if deps == [] {
      NoDirects();
    } else {
      var n := |deps| - 1;
      places := DirectsPicked(deps[..n]);
      assert deps == deps[..n] + [deps[n]];
      DirectsJoined(deps[..n], deps[n]);
      PlacesOneMore(deps, places);
      PickedOneMore(deps, places, Directs(deps[..n]));
      assert Directs(deps[..n]) + [] == Directs(deps[..n]);
      places := if deps[n].depth == 0 then places + [n] else places;
    }
  }

  lemma {:induction false} DirectsJoined(deps: seq<Dependency>, dep: Dependency)
    ensures Directs(deps + [dep]) == Directs(deps) + if dep.depth == 0 then [dep] else []
  {
    if deps == [] {
      assert deps + [dep] == [dep] && [dep][1..] == [];
    } else {
      var own := if deps[0].depth == 0 then [deps[0]] else [];
      var last := if dep.depth == 0 then [dep] else [];
      DirectsSplit(deps + [dep]);
      DirectsSplit(deps);
      hide Directs;
      assert (deps + [dep])[1..] == deps[1..] + [dep];
      DirectsJoined(deps[1..], dep);
      assert own + (Directs(deps[1..]) + last) == own + Directs(deps[1..]) + last;
    }
  }

  lemma NoDirects()
    ensures Directs([]) == [] && DirectsAt([], []) && Picked([], [], [])
  {
  }

  lemma DirectsSplit(deps: seq<Dependency>)
    requires deps != []
    ensures Directs(deps) == (if deps[0].depth == 0 then [deps[0]] else []) + Directs(deps[1..])
  {
  }

  lemma PlacesOneMore(deps: seq<Dependency>, places: seq<nat>)
    requires deps != [] && DirectsAt(deps[..|deps| - 1], places)
    ensures var n := |deps| - 1; DirectsAt(deps, if deps[n].depth == 0 then places + [n] else places)
  {
    var n := |deps| - 1;
    var before, grown := deps[..n], if deps[n].depth == 0 then places + [n] else places;
    forall i | 0 <= i < |deps| ensures i in grown <==> deps[i].depth == 0 {
      assert i < n ==> before[i] == deps[i];
      assert i in grown <==> i in places || (i == n && deps[n].depth == 0);
    }
  }

  lemma PickedOneMore(deps: seq<Dependency>, places: seq<nat>, direct: seq<Dependency>)
    requires deps != [] && Picked(deps[..|deps| - 1], places, direct)
    ensures Picked(deps, places, direct) && Picked(deps, places + [|deps| - 1], direct + [deps[|deps| - 1]])
  {
  }

  /** What a decomposition lists: of the entities named, dependency by dependency, the first
      of each; and of the direct dependencies, followed by the edges of every other one's
      route, the first with its ends and relationship. Each edge of a route is the first
      observed for its hop. */
  lemma ListedExactly(deps: seq<Dependency>, source: seq<Dependency>)
    returns (places: seq<nat>, direct: seq<Dependency>, routes: seq<seq<Dependency>>)
    requires EdgesOf(deps, source).Ok?
    ensures DirectsAt(deps, places) && Picked(deps, places, direct) && RoutesOf(source, deps, routes)
    ensures FirstsOf(AllNamed(deps), SameEntity(), EdgesOf(deps, source).value.0)
    ensures FirstsOf(direct + Joined(routes),
                     (a: Dependency, b: Dependency) =>
                       a.subject == b.subject && a.object_ == b.object_ && a.relationship == b.relationship,
                     EdgesOf(deps, source).value.1)
  {
    hide FirstsOf, DirectsAt, RoutesOf;
    places := DirectsPicked(deps);
    direct := Directs(deps);
    routes := AllHopsAre(source, deps);
    NoFirsts(SameEntity());
    NodesFirsts([], [], deps);
    assert [] + AllNamed(deps) == AllNamed(deps);
    NoFirsts(SameTriple);
    PushedFirsts([], [], direct);
    assert [] + direct == direct;
    PushedFirsts(direct, PushAll([], direct), AllHops(source, deps).value);
    Relabelled(direct + Joined(routes), SameTriple,
               (a: Dependency, b: Dependency) =>
                 a.subject == b.subject && a.object_ == b.object_ && a.relationship == b.relationship,
               EdgesOf(deps, source).value.1);
  }

  lemma Relabelled<T(!new)>(xs: seq<T>, same: (T, T) -> bool, alike: (T, T) -> bool, ys: seq<T>)
    requires FirstsOf(xs, same, ys) && forall a, b :: same(a, b) == alike(a, b)
    ensures FirstsOf(xs, alike, ys)
  {
    forall i: nat, y ensures IsFirst(xs, same, i, y) == IsFirst(xs, alike, i, y) {
    }
  }
}
