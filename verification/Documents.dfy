/** Decomposing dependencies into a graph of direct hops, as `documents.rs` does. */
module Documents {
  import opened Basics
  import opened GraphSpec

  /** A dependency: direct at depth zero, otherwise reached through the entities of `path`. */
  datatype Dependency = Dependency(
    subject: EntityRef, object_: EntityRef, relationship: string, path: seq<EntityRef>, depth: nat)

  // ----- Specification -----

  function Named(dep: Dependency): seq<EntityRef> {
    [dep.subject, dep.object_] + dep.path
  }

  /** Adds the entities not listed yet, in order. */
  function AddNew(nodes: seq<EntityRef>, more: seq<EntityRef>): seq<EntityRef>
    decreases |more|
  {
    if more == [] then nodes
    else AddNew(if more[0] in nodes then nodes else nodes + [more[0]], more[1..])
  }

  /** Every entity the dependencies name, in first-seen order, after `extra`. */
  function NodesOf(deps: seq<Dependency>, extra: seq<EntityRef>): seq<EntityRef>
    decreases |deps|
  {
    if deps == [] then extra else NodesOf(deps[1..], AddNew(extra, Named(deps[0])))
  }

  predicate SameTriple(a: Dependency, b: Dependency) {
    a.subject == b.subject && a.object_ == b.object_ && a.relationship == b.relationship
  }

  predicate Holds(edges: seq<Dependency>, edge: Dependency) {
    exists i :: 0 <= i < |edges| && SameTriple(edges[i], edge)
  }

  /** Adds an edge unless one with the same ends and relationship is held. */
  function PushEdge(edges: seq<Dependency>, edge: Dependency): seq<Dependency> {
    if Holds(edges, edge) then edges else edges + [edge]
  }

  function PushAll(edges: seq<Dependency>, more: seq<Dependency>): seq<Dependency>
    decreases |more|
  {
    if more == [] then edges else PushAll(PushEdge(edges, more[0]), more[1..])
  }

  function Directs(deps: seq<Dependency>): seq<Dependency> {
    if deps == [] then []
    else (if deps[0].depth == 0 then [deps[0]] else []) + Directs(deps[1..])
  }

  /** The entities a dependency's route visits, from its subject to its object. */
  function Chain(dep: Dependency): seq<EntityRef> {
    [dep.subject] + dep.path + [dep.object_]
  }

  /** The first observed direct edge between two entities. */
  function FindHop(source: seq<Dependency>, from: EntityRef, until: EntityRef): Option<Dependency> {
    if source == [] then None
    else if source[0].subject == from && source[0].object_ == until && source[0].depth == 0 then Some(source[0])
    else FindHop(source[1..], from, until)
  }

  /** The observed edges along a chain, or a failure at a hop that was never observed. */
  function Hops(source: seq<Dependency>, chain: seq<EntityRef>): Result<seq<Dependency>>
    decreases |chain|
  {
    if |chain| < 2 then Ok([])
    else match FindHop(source, chain[0], chain[1])
      case None => Err
      case Some(edge) =>
        var rest :- Hops(source, chain[1..]);
        Ok([edge] + rest)
  }

  function AllHops(source: seq<Dependency>, deps: seq<Dependency>): Result<seq<Dependency>>
    decreases |deps|
  {
    if deps == [] then Ok([])
    else
      var first :- if deps[0].depth == 0 then Ok([]) else Hops(source, Chain(deps[0]));
      var rest :- AllHops(source, deps[1..]);
      Ok(first + rest)
  }

  /** The graph of a set of dependencies. The source panics where this fails. */
  function EdgesOf(deps: seq<Dependency>, source: seq<Dependency>): Result<(seq<EntityRef>, seq<Dependency>)> {
    var hops :- AllHops(source, deps);
    Ok((NodesOf(deps, []), PushAll(PushAll([], Directs(deps)), hops)))
  }

  // ----- The loops -----

  method AddEntities(nodes0: seq<EntityRef>, more: seq<EntityRef>) returns (nodes: seq<EntityRef>)
    ensures nodes == AddNew(nodes0, more)
  {
    nodes := nodes0;
    for i := 0 to |more|
      invariant AddNew(nodes, more[i..]) == AddNew(nodes0, more)
    {
      assert more[i..][1..] == more[i + 1..];
      if more[i] !in nodes {
        nodes := nodes + [more[i]];
      }
    }
  }

  method CollectNodes(deps: seq<Dependency>, extra: seq<EntityRef>) returns (nodes: seq<EntityRef>)
    ensures nodes == NodesOf(deps, extra)
  {
    nodes := extra;
    for i := 0 to |deps|
      invariant NodesOf(deps[i..], nodes) == NodesOf(deps, extra)
    {
      assert deps[i..][1..] == deps[i + 1..];
      nodes := AddEntities(nodes, Named(deps[i]));
    }
  }

  method Push(edges: seq<Dependency>, edge: Dependency) returns (grown: seq<Dependency>)
    ensures grown == PushEdge(edges, edge)
  {
    for i := 0 to |edges|
      invariant forall j :: 0 <= j < i ==> !SameTriple(edges[j], edge)
    {
      if SameTriple(edges[i], edge) {
        return edges;
      }
    }
    grown := edges + [edge];
  }

  method FindObserved(source: seq<Dependency>, from: EntityRef, until: EntityRef) returns (found: Option<Dependency>)
    ensures found == FindHop(source, from, until)
  {
    for i := 0 to |source|
      invariant FindHop(source[i..], from, until) == FindHop(source, from, until)
    {
      assert source[i..][1..] == source[i + 1..];
      if source[i].subject == from && source[i].object_ == until && source[i].depth == 0 {
        return Some(source[i]);
      }
    }
    found := None;
  }

  /** Pushes the observed edge of every hop of one chain. */
  method PushChain(edges0: seq<Dependency>, chain: seq<EntityRef>, source: seq<Dependency>)
    returns (r: Result<seq<Dependency>>)
    ensures r == match Hops(source, chain) case Err => Err case Ok(hops) => Ok(PushAll(edges0, hops))
  {
    var edges := edges0;
    var n := 0;
    while n + 1 < |chain|
      invariant n <= |chain|
      invariant Hops(source, chain).Ok? <==> Hops(source, chain[n..]).Ok?
      invariant Hops(source, chain).Ok? ==>
                  PushAll(edges0, Hops(source, chain).value) == PushAll(edges, Hops(source, chain[n..]).value)
    {
      assert chain[n..][1..] == chain[n + 1..] && chain[n..][0] == chain[n] && chain[n..][1] == chain[n + 1];
      var edge := FindObserved(source, chain[n], chain[n + 1]);
      if edge.None? {
        return Err;
      }
      ghost var rest := Hops(source, chain[n + 1..]);
      if rest.Ok? {
        assert ([edge.value] + rest.value)[1..] == rest.value;
      }
      edges := Push(edges, edge.value);
      n := n + 1;
    }
    r := Ok(edges);
  }

  method BuildEdges(deps: seq<Dependency>, source: seq<Dependency>)
    returns (r: Result<(seq<EntityRef>, seq<Dependency>)>)
    ensures r == EdgesOf(deps, source)
  {
    hide NodesOf, AddNew, PushAll, PushEdge, Directs, Chains, HopsAlong, Hops, AllHops;
    var nodes: seq<EntityRef> := [];
    var chains: seq<seq<EntityRef>> := [];
    var edges: seq<Dependency> := [];
    assert deps[0..] == deps;
    for i := 0 to |deps|
      invariant NodesOf(deps[i..], nodes) == NodesOf(deps, [])
      invariant PushAll(edges, Directs(deps[i..])) == PushAll([], Directs(deps))
      invariant chains + Chains(deps[i..]) == Chains(deps)
    {
      var dep := deps[i];
      OneMoreDependency(deps, i, nodes, edges, chains);
      nodes := AddEntities(nodes, Named(dep));
      if dep.depth == 0 {
        edges := Push(edges, dep);
      } else {
        chains := chains + [Chain(dep)];
      }
    }
    NothingLeft(nodes, edges, chains, deps);
    ghost var direct := edges;
    ChainsHops(source, deps);
    assert chains[0..] == chains;
    for i := 0 to |chains|
      invariant HopsAlong(source, chains).Ok? <==> HopsAlong(source, chains[i..]).Ok?
      invariant HopsAlong(source, chains).Ok? ==>
                  PushAll(direct, HopsAlong(source, chains).value)
                    == PushAll(edges, HopsAlong(source, chains[i..]).value)
    {
      OneMoreChain(source, chains, i, edges);
      edges :- PushChain(edges, chains[i], source);
    }
    NothingLeftAlong(source, chains, edges);
    r := Ok((nodes, edges));
  }

  lemma OneMoreDependency(
      deps: seq<Dependency>, i: nat, nodes: seq<EntityRef>, edges: seq<Dependency>, chains: seq<seq<EntityRef>>)
    requires i < |deps|
    ensures NodesOf(deps[i..], nodes) == NodesOf(deps[i + 1..], AddNew(nodes, Named(deps[i])))
    ensures deps[i].depth == 0 ==>
              && PushAll(edges, Directs(deps[i..])) == PushAll(PushEdge(edges, deps[i]), Directs(deps[i + 1..]))
              && Chains(deps[i..]) == Chains(deps[i + 1..])
    ensures deps[i].depth != 0 ==>
              && Directs(deps[i..]) == Directs(deps[i + 1..])
              && chains + Chains(deps[i..]) == chains + [Chain(deps[i])] + Chains(deps[i + 1..])
  {
    hide AddNew, PushEdge, Chain;
    var rest := deps[i + 1..];
    assert deps[i..][1..] == rest && deps[i..][0] == deps[i];
    assert [] + Chains(rest) == Chains(rest) && [] + Directs(rest) == Directs(rest);
    assert ([deps[i]] + Directs(rest))[1..] == Directs(rest);
  }

  lemma NothingLeft(nodes: seq<EntityRef>, edges: seq<Dependency>, chains: seq<seq<EntityRef>>, deps: seq<Dependency>)
    ensures var none := deps[|deps|..];
            NodesOf(none, nodes) == nodes && PushAll(edges, Directs(none)) == edges && chains + Chains(none) == chains
  {
  }

  lemma OneMoreChain(source: seq<Dependency>, chains: seq<seq<EntityRef>>, i: nat, edges: seq<Dependency>)
    requires i < |chains|
    ensures HopsAlong(source, chains[i..]).Ok?
            <==> Hops(source, chains[i]).Ok? && HopsAlong(source, chains[i + 1..]).Ok?
    ensures HopsAlong(source, chains[i..]).Ok? ==>
              PushAll(edges, HopsAlong(source, chains[i..]).value)
              == PushAll(PushAll(edges, Hops(source, chains[i]).value), HopsAlong(source, chains[i + 1..]).value)
  {
    hide PushAll, Hops;
    assert chains[i..][1..] == chains[i + 1..] && chains[i..][0] == chains[i];
    if HopsAlong(source, chains[i..]).Ok? {
      PushedInTurn(edges, Hops(source, chains[i]).value, HopsAlong(source, chains[i + 1..]).value);
    }
  }

  lemma NothingLeftAlong(source: seq<Dependency>, chains: seq<seq<EntityRef>>, edges: seq<Dependency>)
    ensures var none := HopsAlong(source, chains[|chains|..]);
            none.Ok? && PushAll(edges, none.value) == edges
  {
  }

  function Chains(deps: seq<Dependency>): seq<seq<EntityRef>> {
    if deps == [] then []
    else (if deps[0].depth == 0 then [] else [Chain(deps[0])]) + Chains(deps[1..])
  }

  function HopsAlong(source: seq<Dependency>, chains: seq<seq<EntityRef>>): Result<seq<Dependency>>
    decreases |chains|
  {
    if chains == [] then Ok([])
    else
      var first :- Hops(source, chains[0]);
      var rest :- HopsAlong(source, chains[1..]);
      Ok(first + rest)
  }

  lemma {:induction false} ChainsHops(source: seq<Dependency>, deps: seq<Dependency>)
    ensures HopsAlong(source, Chains(deps)) == AllHops(source, deps)
  {
    if deps != [] {
      ChainsHops(source, deps[1..]);
      if deps[0].depth == 0 {
        assert Chains(deps) == Chains(deps[1..]);
        if AllHops(source, deps[1..]).Ok? {
          assert [] + AllHops(source, deps[1..]).value == AllHops(source, deps[1..]).value;
        }
      } else {
        assert Chains(deps)[1..] == Chains(deps[1..]);
      }
    }
  }

  lemma {:induction false} PushedInTurn(edges: seq<Dependency>, first: seq<Dependency>, second: seq<Dependency>)
    ensures PushAll(edges, first + second) == PushAll(PushAll(edges, first), second)
    decreases |first|
  {
    if first == [] {
      assert first + second == second;
    } else {
      assert (first + second)[1..] == first[1..] + second;
      PushedInTurn(PushEdge(edges, first[0]), first[1..], second);
    }
  }

  // ----- The list of nodes -----

  ghost predicate NoRepeats<T(!new)>(xs: seq<T>) {
    forall i, j :: 0 <= i < j < |xs| ==> xs[i] != xs[j]
  }

  lemma OneMoreNode(nodes: seq<EntityRef>, v: EntityRef)
    requires NoRepeats(nodes) && v !in nodes
    ensures NoRepeats(nodes + [v])
  {
  }

  lemma {:induction false} AddNewFacts(nodes: seq<EntityRef>, more: seq<EntityRef>)
    requires NoRepeats(nodes)
    ensures nodes <= AddNew(nodes, more) && NoRepeats(AddNew(nodes, more))
    ensures forall v :: v in AddNew(nodes, more) <==> v in nodes || v in more
    decreases |more|
  {
    hide NoRepeats;
    if more != [] {
      if more[0] !in nodes {
        OneMoreNode(nodes, more[0]);
      }
      AddNewFacts(if more[0] in nodes then nodes else nodes + [more[0]], more[1..]);
      assert more == [more[0]] + more[1..];
    }
  }

  /** Some dependency names the entity. */
  ghost predicate NamedBy(deps: seq<Dependency>, v: EntityRef) {
    exists dep :: dep in deps && v in Named(dep)
  }

  /** The node list repeats nothing and holds exactly the entities named. */
  lemma {:induction false} NodesFacts(deps: seq<Dependency>, extra: seq<EntityRef>)
    requires NoRepeats(extra)
    ensures NoRepeats(NodesOf(deps, extra))
    ensures forall v :: v in NodesOf(deps, extra) <==> v in extra || NamedBy(deps, v)
    decreases |deps|
  {
    hide AddNew, Named;
    if deps != [] {
      AddNewFacts(extra, Named(deps[0]));
      NodesFacts(deps[1..], AddNew(extra, Named(deps[0])));
      assert deps == [deps[0]] + deps[1..];
      forall v ensures NamedBy(deps, v) <==> v in Named(deps[0]) || NamedBy(deps[1..], v) {
      }
    }
  }

  // ----- The list of edges -----

  ghost predicate TriplesDiffer(edges: seq<Dependency>) {
    forall i, j :: 0 <= i < j < |edges| ==> !SameTriple(edges[i], edges[j])
  }

  lemma {:induction false} PushAllFacts(edges: seq<Dependency>, more: seq<Dependency>)
    requires TriplesDiffer(edges)
    ensures TriplesDiffer(PushAll(edges, more))
    ensures forall e :: Holds(PushAll(edges, more), e) <==> Holds(edges, e) || Holds(more, e)
    ensures forall e :: e in PushAll(edges, more) ==> e in edges || e in more
    decreases |more|
  {
    if more != [] {
      var grown := PushEdge(edges, more[0]);
      PushAllFacts(grown, more[1..]);
      assert more == [more[0]] + more[1..];
      forall e ensures Holds(grown, e) <==> Holds(edges, e) || SameTriple(more[0], e) {
        OneMoreHeld(edges, more[0], e);
      }
      forall e ensures Holds(more, e) <==> SameTriple(more[0], e) || Holds(more[1..], e) {
        if Holds(more[1..], e) {
          var i :| 0 <= i < |more[1..]| && SameTriple(more[1..][i], e);
          assert more[i + 1] == more[1..][i];
        }
        if Holds(more, e) && !SameTriple(more[0], e) {
          var i :| 0 <= i < |more| && SameTriple(more[i], e);
          assert more[1..][i - 1] == more[i];
        }
      }
    }
  }

  lemma OneMoreHeld(edges: seq<Dependency>, edge: Dependency, e: Dependency)
    ensures Holds(PushEdge(edges, edge), e) <==> Holds(edges, e) || SameTriple(edge, e)
  {
    var grown := PushEdge(edges, edge);
    if Holds(edges, edge) && SameTriple(edge, e) {
      var i :| 0 <= i < |edges| && SameTriple(edges[i], edge);
      assert SameTriple(grown[i], e);
    }
    if Holds(edges, e) {
      var i :| 0 <= i < |edges| && SameTriple(edges[i], e);
      assert grown[i] == edges[i];
    }
    if !Holds(edges, edge) && SameTriple(edge, e) {
      assert grown[|edges|] == edge;
    }
  }

  lemma {:induction false} DirectsFacts(deps: seq<Dependency>)
    ensures forall e :: e in Directs(deps) <==> e in deps && e.depth == 0
  {
    if deps != [] {
      DirectsFacts(deps[1..]);
      assert deps == [deps[0]] + deps[1..];
    }
  }

  lemma {:induction false} FindHopFacts(source: seq<Dependency>, from: EntityRef, until: EntityRef)
    ensures FindHop(source, from, until).None? <==> !Observed(source, from, until)
    ensures FindHop(source, from, until).Some? ==>
              var e := FindHop(source, from, until).value;
              e in source && e.subject == from && e.object_ == until && e.depth == 0
  {
    if source != [] {
      FindHopFacts(source[1..], from, until);
      assert source == [source[0]] + source[1..];
    }
  }

  /** A direct edge from one entity to another was observed. */
  ghost predicate Observed(source: seq<Dependency>, from: EntityRef, until: EntityRef) {
    exists e :: e in source && e.subject == from && e.object_ == until && e.depth == 0
  }

  ghost predicate HopsObserved(source: seq<Dependency>, chain: seq<EntityRef>) {
    forall n :: 0 <= n < |chain| - 1 ==> Observed(source, chain[n], chain[n + 1])
  }

  /** What the edges found along a chain are. */
  ghost predicate Follows(source: seq<Dependency>, chain: seq<EntityRef>, hops: seq<Dependency>) {
    && |hops| == |chain| - 1
    && forall n :: 0 <= n < |hops| ==>
         hops[n] in source && hops[n].depth == 0 && hops[n].subject == chain[n] && hops[n].object_ == chain[n + 1]
  }

  lemma {:induction false} HopsFacts(source: seq<Dependency>, chain: seq<EntityRef>)
    requires |chain| > 0
    ensures Hops(source, chain).Ok? <==> HopsObserved(source, chain)
    ensures Hops(source, chain).Ok? ==> Follows(source, chain, Hops(source, chain).value)
    decreases |chain|
  {
    if |chain| >= 2 {
      FindHopFacts(source, chain[0], chain[1]);
      var rest := chain[1..];
      HopsFacts(source, rest);
      if HopsObserved(source, chain) {
        forall n | 0 <= n < |rest| - 1 ensures Observed(source, rest[n], rest[n + 1]) {
          assert Observed(source, chain[n + 1], chain[n + 2]);
        }
        assert Observed(source, chain[0], chain[1]);
      }
      if Hops(source, chain).Ok? {
        forall n | 0 <= n < |chain| - 1 ensures Observed(source, chain[n], chain[n + 1]) {
          if n > 0 {
            assert Observed(source, rest[n - 1], rest[n]);
          }
        }
      }
    }
  }

  lemma {:induction false} AllHopsFacts(source: seq<Dependency>, deps: seq<Dependency>)
    ensures AllHops(source, deps).Ok?
            <==> forall dep :: dep in deps && dep.depth != 0 ==> HopsObserved(source, Chain(dep))
    ensures AllHops(source, deps).Ok? ==>
              forall dep :: dep in deps && dep.depth != 0 ==>
                Hops(source, Chain(dep)).Ok?
                  && forall e :: e in Hops(source, Chain(dep)).value ==> e in AllHops(source, deps).value
    ensures AllHops(source, deps).Ok? ==>
              forall e :: e in AllHops(source, deps).value ==>
                e.depth == 0 && e in source
                  && exists dep :: dep in deps && dep.depth != 0 && e.subject in Chain(dep) && e.object_ in Chain(dep)
    decreases |deps|
  {
    if deps != [] {
      var dep := deps[0];
      AllHopsFacts(source, deps[1..]);
      HopsFacts(source, Chain(dep));
      assert deps == [dep] + deps[1..];
      if AllHops(source, deps).Ok? && dep.depth != 0 {
        var chain, hops := Chain(dep), Hops(source, Chain(dep)).value;
        forall e | e in hops ensures e.depth == 0 && e in source && e.subject in chain && e.object_ in chain {
          var n :| 0 <= n < |hops| && hops[n] == e;
          assert e.subject == chain[n] && e.object_ == chain[n + 1];
        }
      }
    }
  }

  /** The edges as edges of a graph. */
  function GraphOf(edges: seq<Dependency>): seq<Edge> {
    seq(|edges|, i requires 0 <= i < |edges| => Edge(edges[i].subject, edges[i].object_, edges[i].relationship))
  }

  /** The graph contains the route of a transitive dependency: a walk from its subject
      through its intermediates in order to its object. */
  ghost predicate Walkable(edges: seq<Dependency>, dep: Dependency) {
    exists route :: Leads(GraphOf(edges), Forward, dep.subject, route, dep.object_)
      && Between(route, Forward) == dep.path
                    && |route| == |dep.path| + 1
  }

  lemma {:induction false} RouteLeads(
    edges: seq<Dependency>, source: seq<Dependency>, chain: seq<EntityRef>, hops: seq<Dependency>, n: nat)
    requires Follows(source, chain, hops) && n <= |hops| && |chain| > 0
    requires forall e :: e in hops ==> Holds(edges, e)
    ensures Leads(GraphOf(edges), Forward, chain[0], GraphOf(hops)[..n], chain[n])
    decreases n
  {
    if n > 0 {
      RouteLeads(edges, source, chain, hops, n - 1);
      var route := GraphOf(hops)[..n];
      assert route[..n - 1] == GraphOf(hops)[..n - 1];
      assert hops[n - 1] in hops;
      var i :| 0 <= i < |edges| && SameTriple(edges[i], hops[n - 1]);
      assert GraphOf(edges)[i] == route[n - 1];
    }
  }

  /** The decomposition fails exactly when a transitive dependency goes over a hop that was
      never observed. Otherwise its edges are direct, come from the given
      dependencies or the observed ones, and no two share their ends and
      relationship; each direct dependency is among them and each transitive one can be
      walked; and the node list, without repeats, holds every end of every edge. */
  lemma GraphOfRoutes(deps: seq<Dependency>, source: seq<Dependency>)
    ensures EdgesOf(deps, source).Ok?
            <==> forall dep :: dep in deps && dep.depth != 0 ==> HopsObserved(source, Chain(dep))
    ensures EdgesOf(deps, source).Ok? ==>
              var (nodes, edges) := EdgesOf(deps, source).value;
              && NoRepeats(nodes) && NoRepeats(GraphOf(edges))
              && (forall v :: v in nodes <==> NamedBy(deps, v))
              && (forall e :: e in edges ==> e.depth == 0 && e.subject in nodes && e.object_ in nodes)
              && (forall e :: e in edges ==> e in deps || e in source)
              && (forall dep :: dep in deps && dep.depth == 0 ==>
                    Edge(dep.subject, dep.object_, dep.relationship) in GraphOf(edges))
              && (forall dep :: dep in deps && dep.depth != 0 ==> Walkable(edges, dep))
  {
    hide NodesOf, PushAll, Directs, AllHops, Hops, HopsObserved, Walkable, Holds;
    AllHopsFacts(source, deps);
    if AllHops(source, deps).Ok? {
      var hops := AllHops(source, deps).value;
      NodesFacts(deps, []);
      DirectsFacts(deps);
      PushAllFacts([], Directs(deps));
      PushAllFacts(PushAll([], Directs(deps)), hops);
      var nodes, edges := NodesOf(deps, []), PushAll(PushAll([], Directs(deps)), hops);
      forall e | e in edges ensures e.depth == 0 && e.subject in nodes && e.object_ in nodes {
        EndsAreNamed(deps, e);
      }
      assert NoRepeats(GraphOf(edges));
      forall dep | dep in deps && dep.depth == 0
        ensures Edge(dep.subject, dep.object_, dep.relationship) in GraphOf(edges)
      {
        MembersHeld(Directs(deps), dep);
        HeldInGraph(edges, dep);
      }
      forall dep | dep in deps && dep.depth != 0 ensures Walkable(edges, dep) {
        forall e | e in Hops(source, Chain(dep)).value ensures Holds(edges, e) {
          MembersHeld(hops, e);
        }
        RouteIsWalkable(edges, source, dep);
      }
    }
  }

  lemma HeldInGraph(edges: seq<Dependency>, dep: Dependency)
    requires Holds(edges, dep)
    ensures Edge(dep.subject, dep.object_, dep.relationship) in GraphOf(edges)
  {
    var i :| 0 <= i < |edges| && SameTriple(edges[i], dep);
    assert GraphOf(edges)[i] == Edge(dep.subject, dep.object_, dep.relationship);
  }

  lemma MembersHeld(edges: seq<Dependency>, e: Dependency)
    requires e in edges
    ensures Holds(edges, e)
  {
    var i :| 0 <= i < |edges| && edges[i] == e;
    assert SameTriple(edges[i], e);
  }

  lemma EndsAreNamed(deps: seq<Dependency>, e: Dependency)
    requires (e in deps)
             || exists dep :: dep in deps && dep.depth != 0 && e.subject in Chain(dep) && e.object_ in Chain(dep)
    ensures NamedBy(deps, e.subject) && NamedBy(deps, e.object_)
  {
    if e in deps {
      assert e.subject in Named(e) && e.object_ in Named(e);
    } else {
      var dep :| dep in deps && dep.depth != 0 && e.subject in Chain(dep) && e.object_ in Chain(dep);
      assert forall v :: v in Chain(dep) ==> v in Named(dep);
    }
  }

  lemma RouteIsWalkable(edges: seq<Dependency>, source: seq<Dependency>, dep: Dependency)
    requires Hops(source, Chain(dep)).Ok?
    requires forall e :: e in Hops(source, Chain(dep)).value ==> Holds(edges, e)
    ensures Walkable(edges, dep)
  {
    var chain, hops := Chain(dep), Hops(source, Chain(dep)).value;
    HopsFacts(source, chain);
    RouteLeads(edges, source, chain, hops, |hops|);
    var route := GraphOf(hops);
    assert route[..|hops|] == route;
    assert |route| == |dep.path| + 1;
    forall i | 0 <= i < |dep.path| ensures Between(route, Forward)[i] == dep.path[i] {
      assert route[i].target == hops[i].object_ == chain[i + 1] == dep.path[i];
    }
    assert Between(route, Forward) == dep.path;
  }
}
