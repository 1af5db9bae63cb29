/** Which nodes of an adjacency reach which, and the groups of nodes that reach each other. */
module Reachability {

  /** A way out of a node: the edge taken and the node it leads to. */
  datatype Hop = Hop(edge: nat, target: nat)

  /** The hops out of every node. */
  type Adjacency = seq<seq<Hop>>

  ghost predicate ValidAdjacency(adj: Adjacency) {
    forall u: nat, k: nat :: IsHop(adj, u, k) ==> To(adj, u, k) < |adj|
  }

  predicate IsHop(adj: Adjacency, u: nat, k: nat) {
    u < |adj| && k < |adj[u]|
  }

  function To(adj: Adjacency, u: nat, k: nat): nat
    requires IsHop(adj, u, k)
  {
    adj[u][k].target
  }

  ghost predicate Arrow(adj: Adjacency, u: nat, v: nat) {
    exists k: nat :: IsHop(adj, u, k) && To(adj, u, k) == v
  }

  /** `path`, the nodes after `u`, leads from `u` to `v`. */
  ghost predicate Steps(adj: Adjacency, u: nat, path: seq<nat>, v: nat)
    decreases |path|
  {
    if path == [] then u == v else Arrow(adj, u, path[0]) && Steps(adj, path[0], path[1..], v)
  }

  ghost predicate Reach(adj: Adjacency, u: nat, v: nat) {
    exists path :: Steps(adj, u, path, v)
  }

  lemma ReachSelf(adj: Adjacency, u: nat)
    ensures Reach(adj, u, u)
  {
    assert Steps(adj, u, [], u);
  }

  lemma ReachHop(adj: Adjacency, u: nat, k: nat)
    requires IsHop(adj, u, k)
    ensures Reach(adj, u, To(adj, u, k))
  {
    var v := To(adj, u, k);
    assert [v][1..] == [];
    assert Steps(adj, u, [v], v);
  }

  lemma {:induction false} StepsJoined(adj: Adjacency, u: nat, p: seq<nat>, v: nat, q: seq<nat>, w: nat)
    requires Steps(adj, u, p, v) && Steps(adj, v, q, w)
    ensures Steps(adj, u, p + q, w)
    decreases |p|
  {
    if p == [] {
      assert p + q == q;
    } else {
      StepsJoined(adj, p[0], p[1..], v, q, w);
      assert (p + q)[1..] == p[1..] + q;
    }
  }

  lemma ReachFurther(adj: Adjacency, u: nat, v: nat, w: nat)
    requires Reach(adj, u, v) && Reach(adj, v, w)
    ensures Reach(adj, u, w)
  {
    var p :| Steps(adj, u, p, v);
    var q :| Steps(adj, v, q, w);
    StepsJoined(adj, u, p, v, q, w);
  }

  ghost predicate Closed(adj: Adjacency, s: set<nat>) {
    forall u: nat, k: nat :: u in s && IsHop(adj, u, k) ==> To(adj, u, k) in s
  }

  /** What a closed set reaches is in it. */
  lemma {:induction false} ClosedUnderSteps(adj: Adjacency, s: set<nat>, u: nat, path: seq<nat>, v: nat)
    requires Closed(adj, s) && u in s && Steps(adj, u, path, v)
    ensures v in s
    decreases |path|
  {
    if path != [] {
      ClosedUnderSteps(adj, s, path[0], path[1..], v);
    }
  }

  lemma ClosedUnderReach(adj: Adjacency, s: set<nat>, u: nat, v: nat)
    requires Closed(adj, s) && u in s && Reach(adj, u, v)
    ensures v in s
  {
    var path :| Steps(adj, u, path, v);
    ClosedUnderSteps(adj, s, u, path, v);
  }

  /** The two nodes reach each other. */
  ghost predicate Mutual(adj: Adjacency, u: nat, v: nat) {
    Reach(adj, u, v) && Reach(adj, v, u)
  }

  /** A node and exactly the nodes that it reaches and that reach it. */
  ghost predicate IsComponent(adj: Adjacency, c: seq<nat>) {
    && c != []
    && (forall i, j :: 0 <= i < j < |c| ==> c[i] < c[j])
    && (forall u :: u in c ==> u < |adj|)
    && (forall u, v :: u in c ==> (v in c <==> Mutual(adj, u, v)))
  }

  ghost predicate InSome(cs: seq<seq<nat>>, u: nat) {
    exists i :: 0 <= i < |cs| && u in cs[i]
  }

  /** Every node in exactly one of a list of components. */
  ghost predicate Partition(adj: Adjacency, cs: seq<seq<nat>>) {
    && (forall i :: 0 <= i < |cs| ==> IsComponent(adj, cs[i]))
    && (forall u: nat :: u < |adj| ==> InSome(cs, u))
    && (forall i, j :: 0 <= i < j < |cs| ==> forall u :: u in cs[i] ==> u !in cs[j])
  }

  // ----- Walks by the hops taken -----

  /** `hops`, taken one after the other, lead from `u` to `v`. */
  ghost predicate HopWalk(adj: Adjacency, u: nat, hops: seq<Hop>, v: nat)
    decreases |hops|
  {
    if hops == [] then u == v
    else
      var n := |hops| - 1;
      exists w: nat :: HopWalk(adj, u, hops[..n], w) && w < |adj| && hops[n] in adj[w] && hops[n].target == v
  }

  lemma NoHops(adj: Adjacency, u: nat)
    ensures HopWalk(adj, u, [], u)
  {
  }

  lemma HopFurther(adj: Adjacency, u: nat, hops: seq<Hop>, w: nat, hop: Hop)
    requires HopWalk(adj, u, hops, w) && w < |adj| && hop in adj[w]
    ensures HopWalk(adj, u, hops + [hop], hop.target)
  {
    assert (hops + [hop])[..|hops|] == hops;
  }

  /** The node a walk is at after its first hops. */
  function Through(u: nat, hops: seq<Hop>, n: nat): nat
    requires n <= |hops|
  {
    if n == 0 then u else hops[n - 1].target
  }

  lemma {:induction false} WalkPrefix(adj: Adjacency, u: nat, hops: seq<Hop>, v: nat, n: nat)
    requires HopWalk(adj, u, hops, v) && n <= |hops|
    ensures HopWalk(adj, u, hops[..n], Through(u, hops, n))
    ensures n < |hops| ==> Through(u, hops, n) < |adj| && hops[n] in adj[Through(u, hops, n)]
    ensures v == Through(u, hops, |hops|)
    decreases |hops|
  {
    if hops == [] {
    } else {
      var last := |hops| - 1;
      var w: nat :| HopWalk(adj, u, hops[..last], w) && w < |adj| && hops[last] in adj[w] && hops[last].target == v;
      if n <= last {
        WalkPrefix(adj, u, hops[..last], w, n);
        assert hops[..last][..n] == hops[..n];
        if n == last {
          assert Through(u, hops[..last], last) == Through(u, hops, last);
        }
      } else {
        assert hops[..n] == hops;
      }
    }
  }

  lemma {:induction false} WalkReaches(adj: Adjacency, u: nat, hops: seq<Hop>, v: nat)
    requires HopWalk(adj, u, hops, v)
    ensures Reach(adj, u, v)
    decreases |hops|
  {
    if hops == [] {
      ReachSelf(adj, u);
    } else {
      var n := |hops| - 1;
      var w: nat :| HopWalk(adj, u, hops[..n], w) && w < |adj| && hops[n] in adj[w] && hops[n].target == v;
      WalkReaches(adj, u, hops[..n], w);
      var k: nat :| k < |adj[w]| && adj[w][k] == hops[n];
      ReachHop(adj, w, k);
      ReachFurther(adj, u, w, v);
    }
  }

  lemma {:induction false} ReachedByWalk(adj: Adjacency, s: nat, before: seq<Hop>, u: nat, path: seq<nat>, v: nat)
    returns (hops: seq<Hop>)
    requires HopWalk(adj, s, before, u) && Steps(adj, u, path, v)
    ensures HopWalk(adj, s, hops, v) && |hops| == |before| + |path| && before <= hops
    decreases |path|
  {
    if path == [] {
      hops := before;
    } else {
      var k: nat :| IsHop(adj, u, k) && To(adj, u, k) == path[0];
      HopFurther(adj, s, before, u, adj[u][k]);
      hops := ReachedByWalk(adj, s, before + [adj[u][k]], path[0], path[1..], v);
    }
  }

  /** The rest of a walk leads on from where its first hops led. */
  lemma {:induction false} WalkSuffix(adj: Adjacency, u: nat, hops: seq<Hop>, v: nat, n: nat)
    requires HopWalk(adj, u, hops, v) && n <= |hops|
    ensures Reach(adj, Through(u, hops, n), v)
    decreases |hops| - n
  {
    WalkPrefix(adj, u, hops, v, n);
    if n == |hops| {
      ReachSelf(adj, v);
    } else {
      var w := Through(u, hops, n);
      var k: nat :| k < |adj[w]| && adj[w][k] == hops[n];
      ReachHop(adj, w, k);
      WalkSuffix(adj, u, hops, v, n + 1);
      ReachFurther(adj, w, hops[n].target, v);
    }
  }

  /** Where two walks meet after as many hops, one can go on as the other. */
  lemma {:induction false} WalkContinued(adj: Adjacency, u: nat, a: seq<Hop>, v: nat, b: seq<Hop>, w: nat, n: nat)
    requires HopWalk(adj, u, a, v) && HopWalk(adj, u, b, w) && n <= |a| && n <= |b|
    requires Through(u, a, n) == Through(u, b, n)
    ensures HopWalk(adj, u, a[..n] + b[n..], w)
    decreases |b|
  {
    WalkPrefix(adj, u, a, v, n);
    WalkPrefix(adj, u, b, w, |b|);
    if |b| == n {
      assert a[..n] + b[n..] == a[..n];
    } else {
      var m := |b| - 1;
      WalkPrefix(adj, u, b, w, m);
      assert Through(u, b[..m], n) == Through(u, b, n);
      WalkContinued(adj, u, a, v, b[..m], Through(u, b, m), n);
      HopFurther(adj, u, a[..n] + b[..m][n..], Through(u, b, m), b[m]);
      assert a[..n] + b[n..] == a[..n] + b[..m][n..] + [b[m]];
    }
  }

  /** A closed walk stays inside the component of where it begins. */
  lemma ClosedWalkInside(adj: Adjacency, c: seq<nat>, u: nat, hops: seq<Hop>, n: nat)
    requires IsComponent(adj, c) && u in c && HopWalk(adj, u, hops, u) && n <= |hops|
    ensures Through(u, hops, n) in c
  {
    WalkPrefix(adj, u, hops, u, n);
    WalkReaches(adj, u, hops[..n], Through(u, hops, n));
    WalkSuffix(adj, u, hops, u, n);
    assert Mutual(adj, u, Through(u, hops, n));
  }
}
