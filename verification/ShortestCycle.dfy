/** The breadth-first search for a shortest cycle through the first node of a component, as
    `cycles.rs` does it. */
module ShortestCycle {
  import opened Basics
  import opened Reachability
  import opened HopOrder

  /** The component holds a cycle: more than one node, or a node with a hop to itself. */
  predicate Cyclic(adj: Adjacency, c: seq<nat>) {
    |c| > 1 || (|c| == 1 && c[0] < |adj| && exists k :: 0 <= k < |adj[c[0]]| && adj[c[0]][k].target == c[0])
  }

  ghost predicate ClosedWalk(adj: Adjacency, u: nat, hops: seq<Hop>) {
    hops != [] && HopWalk(adj, u, hops, u)
  }

  /** A cycle through `u`, and every other cycle through it is longer or takes a later hop
      where the two part. */
  ghost predicate LeastCycle(adj: Adjacency, u: nat, hops: seq<Hop>) {
    ClosedWalk(adj, u, hops)
      && forall other :: ClosedWalk(adj, u, other) ==> other == hops || Ahead(adj, u, hops, other)
  }

  /** Through a node of a component there is a cycle exactly when the component is cyclic. */
  lemma CyclicIff(adj: Adjacency, c: seq<nat>, u: nat)
    requires IsComponent(adj, c) && u in c
    ensures Cyclic(adj, c) <==> exists hops: seq<Hop> :: ClosedWalk(adj, u, hops)
  {
    if hops: seq<Hop> :| ClosedWalk(adj, u, hops) {
      ClosedWalkInside(adj, c, u, hops, 1);
      WalkPrefix(adj, u, hops, u, 0);
      if |c| == 1 {
        assert u == c[0] && hops[0].target == c[0];
        var k: nat :| k < |adj[u]| && adj[u][k] == hops[0];
        assert adj[c[0]][k].target == c[0];
      }
    }
    if Cyclic(adj, c) {
      NoHops(adj, u);
      if |c| > 1 {
        var v := if c[0] == u then c[1] else c[0];
        assert v in c && Mutual(adj, u, v);
        var out :| Steps(adj, u, out, v);
        var back :| Steps(adj, v, back, u);
        var hops := ReachedByWalk(adj, u, [], u, out, v);
        hops := ReachedByWalk(adj, u, hops, v, back, u);
        assert ClosedWalk(adj, u, hops);
      } else {
        var k :| 0 <= k < |adj[c[0]]| && adj[c[0]][k].target == c[0];
        HopFurther(adj, u, [], u, adj[u][k]);
        assert ClosedWalk(adj, u, [] + [adj[u][k]]);
      }
    }
  }

  // ----- The search -----

  /** The nodes found, in order, each with the hops that led to it. */
  ghost predicate Listed(adj: Adjacency, c: seq<nat>, order: seq<nat>, walks: seq<seq<Hop>>) {
    && |order| == |walks| > 0 && c != [] && order[0] == c[0] && walks[0] == []
    && (forall i :: 0 <= i < |order| ==> order[i] in c && HopWalk(adj, c[0], walks[i], order[i]))
    && (forall i, j :: 0 <= i < j < |order| ==> |walks[i]| <= |walks[j]|)
  }

  ghost predicate ListedWithin(order: seq<nat>, walks: seq<seq<Hop>>, v: nat, depth: nat) {
    exists i :: 0 <= i < |order| && i < |walks| && order[i] == v && |walks[i]| <= depth
  }

  /** The first `n` hops of `u` do not lead to the start, and inside the component only to
      nodes found within a depth. */
  ghost predicate Tried(
    adj: Adjacency, c: seq<nat>, order: seq<nat>, walks: seq<seq<Hop>>, u: nat, n: nat, depth: nat) {
    forall k: nat :: k < n && IsHop(adj, u, k) ==>
      && c != [] && To(adj, u, k) != c[0]
      && (To(adj, u, k) in c ==> ListedWithin(order, walks, To(adj, u, k), depth))
  }

  ghost predicate TriedBefore(adj: Adjacency, c: seq<nat>, order: seq<nat>, walks: seq<seq<Hop>>, head: nat) {
    forall i :: 0 <= i < head && i < |order| && i < |walks| && order[i] < |adj| ==>
      Tried(adj, c, order, walks, order[i], |adj[order[i]]|, |walks[i]| + 1)
  }

  /** `parent` holds for every node but the start the hop that led to it. */
  ghost predicate ParentOf(order: seq<nat>, walks: seq<seq<Hop>>, parent: seq<Option<(nat, nat)>>, i: nat) {
    && i < |order| && i < |walks| && order[i] < |parent|
    && if i == 0 then parent[order[i]].None?
       else
         exists j: nat, e: nat :: j < i && parent[order[i]] == Some((order[j], e))
           && walks[i] == walks[j] + [Hop(e, order[i])]
  }

  ghost predicate Parents(order: seq<nat>, walks: seq<seq<Hop>>, parent: seq<Option<(nat, nat)>>) {
    forall i: nat :: i < |order| ==> ParentOf(order, walks, parent, i)
  }

  /** No cycle through the start is shorter than what has been tried. */
  lemma {:induction false} LevelListed(
    adj: Adjacency, c: seq<nat>, order: seq<nat>, walks: seq<seq<Hop>>, head: nat, hops: seq<Hop>, n: nat)
    requires IsComponent(adj, c) && Listed(adj, c, order, walks) && TriedBefore(adj, c, order, walks, head)
    requires HopWalk(adj, c[0], hops, c[0]) && n <= |hops| && (head < |order| ==> n <= |walks[head]|)
    ensures ListedWithin(order, walks, Through(c[0], hops, n), n)
    decreases n
  {
    hide HopWalk, IsComponent;
    if n == 0 {
      assert order[0] == c[0] && |walks[0]| == 0;
    } else {
      LevelListed(adj, c, order, walks, head, hops, n - 1);
      var i :| 0 <= i < |order| && order[i] == Through(c[0], hops, n - 1) && |walks[i]| <= n - 1;
      assert i < head;
      WalkPrefix(adj, c[0], hops, c[0], n - 1);
      ClosedWalkInside(adj, c, c[0], hops, n);
      HopTried(adj, c, order, walks, i, hops[n - 1]);
      var j :| 0 <= j < |order| && order[j] == hops[n - 1].target && |walks[j]| <= |walks[i]| + 1;
    }
  }

  lemma HopTried(adj: Adjacency, c: seq<nat>, order: seq<nat>, walks: seq<seq<Hop>>, i: nat, hop: Hop)
    requires i < |order| == |walks| && order[i] < |adj| && hop in adj[order[i]]
    requires Tried(adj, c, order, walks, order[i], |adj[order[i]]|, |walks[i]| + 1)
    ensures c != [] && hop.target != c[0]
    ensures (hop.target in c ==> ListedWithin(order, walks, hop.target, |walks[i]| + 1))
  {
    var k: nat :| k < |adj[order[i]]| && adj[order[i]][k] == hop;
    assert IsHop(adj, order[i], k) && To(adj, order[i], k) == hop.target;
  }

  /** While the search goes on, every cycle through the start is longer than the walk to the
      node being tried; when it has ended there is none. */
  lemma NoShorter(adj: Adjacency, c: seq<nat>, order: seq<nat>, walks: seq<seq<Hop>>, head: nat, hops: seq<Hop>)
    requires IsComponent(adj, c) && Listed(adj, c, order, walks) && TriedBefore(adj, c, order, walks, head)
    requires ClosedWalk(adj, c[0], hops)
    ensures head < |order| && |walks[head]| < |hops|
  {
    hide HopWalk, IsComponent;
    if head >= |order| || |hops| <= |walks[head]| {
      var n := |hops| - 1;
      LevelListed(adj, c, order, walks, head, hops, n);
      var i :| 0 <= i < |order| && order[i] == Through(c[0], hops, n) && |walks[i]| <= n;
      WalkPrefix(adj, c[0], hops, c[0], n);
      WalkPrefix(adj, c[0], hops, c[0], |hops|);
      assert i < head;
      HopTried(adj, c, order, walks, i, hops[n]);
      assert false;
    }
  }

  // ----- Keeping the search's promises -----

  function Targets(hops: seq<Hop>): seq<nat> {
    seq(|hops|, i requires 0 <= i < |hops| => hops[i].target)
  }

  function EdgesOf(hops: seq<Hop>): seq<nat> {
    seq(|hops|, i requires 0 <= i < |hops| => hops[i].edge)
  }

  function Reversed<T>(xs: seq<T>): (r: seq<T>)
    ensures |r| == |xs|
  {
    seq(|xs|, i requires 0 <= i < |xs| => xs[|xs| - 1 - i])
  }

  lemma ReversedMore<T>(xs: seq<T>, x: T)
    ensures Reversed(xs + [x]) == [x] + Reversed(xs)
  {
  }

  /** The search in the middle of trying a node: what was found, the hop that led to each,
      and how far the node's hops have been tried. */
  ghost predicate Searching(
    adj: Adjacency, c: seq<nat>, order: seq<nat>, walks: seq<seq<Hop>>, parent: seq<Option<(nat, nat)>>,
    seen: seq<bool>, head: nat)
  {
    && |parent| == |seen| == |adj|
    && Listed(adj, c, order, walks) && Parents(order, walks, parent) && TriedBefore(adj, c, order, walks, head)
    && (forall v :: 0 <= v < |seen| ==> (seen[v] <==> v in order))
    && (forall i, j :: 0 <= i < j < |order| ==> order[i] != order[j])
    && (head < |order| ==> |walks[|walks| - 1]| <= |walks[head]| + 1)
  }

  lemma StartSearching(adj: Adjacency, c: seq<nat>, parent: seq<Option<(nat, nat)>>, seen: seq<bool>)
    requires c != [] && c[0] < |adj| == |parent| == |seen| && forall v :: 0 <= v < |adj| ==> parent[v].None?
    requires forall v :: 0 <= v < |seen| ==> (seen[v] <==> v == c[0])
    ensures Searching(adj, c, [c[0]], [[]], parent, seen, 0)
  {
    NoHops(adj, c[0]);
  }

  lemma ListedStays(order: seq<nat>, walks: seq<seq<Hop>>, v: nat, walk: seq<Hop>, u: nat, depth: nat)
    requires |order| == |walks| && ListedWithin(order, walks, u, depth)
    ensures ListedWithin(order + [v], walks + [walk], u, depth)
  {
    var i :| 0 <= i < |order| && order[i] == u && |walks[i]| <= depth;
    assert (order + [v])[i] == u && (walks + [walk])[i] == walks[i];
  }

  lemma TriedStays(
    adj: Adjacency, c: seq<nat>, order: seq<nat>, walks: seq<seq<Hop>>, v: nat, walk: seq<Hop>, u: nat, n: nat,
    depth: nat)
    requires |order| == |walks| && Tried(adj, c, order, walks, u, n, depth)
    ensures Tried(adj, c, order + [v], walks + [walk], u, n, depth)
  {
    forall k: nat | k < n && IsHop(adj, u, k) && To(adj, u, k) in c
      ensures ListedWithin(order + [v], walks + [walk], To(adj, u, k), depth)
    {
      ListedStays(order, walks, v, walk, To(adj, u, k), depth);
    }
  }

  lemma TriedBeforeStays(
    adj: Adjacency, c: seq<nat>, order: seq<nat>, walks: seq<seq<Hop>>, v: nat, walk: seq<Hop>, head: nat)
    requires |order| == |walks| && head <= |order| && TriedBefore(adj, c, order, walks, head)
    ensures TriedBefore(adj, c, order + [v], walks + [walk], head)
  {
    var order', walks' := order + [v], walks + [walk];
    forall i | 0 <= i < head && order'[i] < |adj|
      ensures Tried(adj, c, order', walks', order'[i], |adj[order'[i]]|, |walks'[i]| + 1)
    {
      TriedStays(adj, c, order, walks, v, walk, order[i], |adj[order[i]]|, |walks[i]| + 1);
    }
  }

  lemma ParentsStay(
    order: seq<nat>, walks: seq<seq<Hop>>, parent: seq<Option<(nat, nat)>>, head: nat, v: nat, e: nat)
    requires |order| == |walks| && Parents(order, walks, parent) && head < |order| && v < |parent| && v !in order
    ensures Parents(order + [v], walks + [walks[head] + [Hop(e, v)]], parent[v := Some((order[head], e))])
  {
    var order', walks', parent' := order + [v], walks + [walks[head] + [Hop(e, v)]],
                                   parent[v := Some((order[head], e))];
    forall i: nat | i < |order'| ensures ParentOf(order', walks', parent', i) {
      if i < |order| {
        assert ParentOf(order, walks, parent, i);
        assert order'[i] == order[i] && order[i] in order && parent'[order[i]] == parent[order[i]];
        if i > 0 {
          var j: nat, e': nat :| j < i && parent[order[i]] == Some((order[j], e'))
                                 && walks[i] == walks[j] + [Hop(e', order[i])];
          assert order'[j] == order[j] && walks'[j] == walks[j];
        }
      } else {
        assert order'[head] == order[head] && walks'[head] == walks[head];
        assert parent'[order'[i]] == Some((order'[head], e)) && walks'[i] == walks'[head] + [Hop(e, order'[i])];
      }
    }
  }

  /** A neighbour found for the first time is one hop further. */
  lemma FoundKeeps(
    adj: Adjacency, c: seq<nat>, order: seq<nat>, walks: seq<seq<Hop>>, parent: seq<Option<(nat, nat)>>,
      seen: seq<bool>, head: nat,
    hop: Hop)
    requires Searching(adj, c, order, walks, parent, seen, head) && head < |order| && order[head] < |adj|
    requires hop in adj[order[head]]
    requires hop.target in c && hop.target < |adj| && hop.target !in order
    ensures var v := hop.target;
            Searching(adj, c, order + [v], walks + [walks[head] + [hop]], parent[v := Some((order[head], hop.edge))],
                      seen[v := true], head)
  {
    hide HopWalk, ParentOf;
    var v := hop.target;
    var walk := walks[head] + [hop];
    HopFurther(adj, c[0], walks[head], order[head], hop);
    TriedBeforeStays(adj, c, order, walks, v, walk, head);
    ParentsStay(order, walks, parent, head, v, hop.edge);
    hide TriedBefore, Parents;
    assert hop == Hop(hop.edge, v);
    var order', walks' := order + [v], walks + [walk];
    forall i, j | 0 <= i < j < |order'| ensures |walks'[i]| <= |walks'[j]| {
      if j == |order| {
        assert |walks[i]| <= |walks[|walks| - 1]|;
      }
    }
    assert Listed(adj, c, order', walks');
  }

  /** A node whose hops have all been tried is done with. */
  lemma TriedKeeps(
    adj: Adjacency, c: seq<nat>, order: seq<nat>, walks: seq<seq<Hop>>, parent: seq<Option<(nat, nat)>>,
    seen: seq<bool>, head: nat)
    requires Searching(adj, c, order, walks, parent, seen, head) && head < |order| && order[head] < |adj|
    requires Tried(adj, c, order, walks, order[head], |adj[order[head]]|, |walks[head]| + 1)
    ensures Searching(adj, c, order, walks, parent, seen, head + 1)
  {
    hide Tried, HopWalk, ParentOf;
    if head + 1 < |order| {
      assert |walks[head]| <= |walks[head + 1]|;
    }
  }

  // ----- The order of the search -----

  /** No other walk to the node is as early. */
  ghost predicate LeastHops(adj: Adjacency, u: nat, walk: seq<Hop>, v: nat) {
    forall other :: HopWalk(adj, u, other, v) ==> other == walk || Ahead(adj, u, walk, other)
  }

  /** The node was found by a hop of one tried before, or one of the first `k` hops of the
      one being tried. */
  ghost predicate ByTriedHop(
    adj: Adjacency, order: seq<nat>, walks: seq<seq<Hop>>, head: nat, k: nat, walk: seq<Hop>) {
    exists i: nat, m: nat :: TriedHop(adj, order, walks, head, k, i, m) && walk == walks[i] + [adj[order[i]][m]]
  }

  ghost predicate TriedHop(
    adj: Adjacency, order: seq<nat>, walks: seq<seq<Hop>>, head: nat, k: nat, i: nat, m: nat) {
    && i < |order| && i < |walks| && IsHop(adj, order[i], m) && (i < head || (i == head && m < k))
  }

  /** Every node found has its least walk, and the nodes come in the order of their walks. */
  ghost predicate InOrder(
    adj: Adjacency, c: seq<nat>, order: seq<nat>, walks: seq<seq<Hop>>, head: nat, k: nat) {
    && |order| == |walks| && c != []
    && (forall i :: 0 <= i < |order| ==> LeastHops(adj, c[0], walks[i], order[i]))
    && (forall i, j :: 0 <= i < j < |order| ==> Ahead(adj, c[0], walks[i], walks[j]))
    && (forall j :: 1 <= j < |order| ==> ByTriedHop(adj, order, walks, head, k, walks[j]))
  }

  lemma StartInOrder(adj: Adjacency, c: seq<nat>)
    requires c != []
    ensures InOrder(adj, c, [c[0]], [[]], 0, 0)
  {
  }

  /** Trying more hops forgets nothing. */
  lemma StillInOrder(
    adj: Adjacency, c: seq<nat>, order: seq<nat>, walks: seq<seq<Hop>>, head: nat, k: nat, head': nat, k': nat)
    requires InOrder(adj, c, order, walks, head, k) && (head < head' || (head == head' && k <= k'))
    ensures InOrder(adj, c, order, walks, head', k')
  {
    hide Ahead, LeastHops;
    forall j | 1 <= j < |order| ensures ByTriedHop(adj, order, walks, head', k', walks[j]) {
      assert ByTriedHop(adj, order, walks, head, k, walks[j]);
      var i: nat, m: nat :| TriedHop(adj, order, walks, head, k, i, m) && walks[j] == walks[i] + [adj[order[i]][m]];
      assert TriedHop(adj, order, walks, head', k', i, m);
    }
  }

  /** Where the last hop of a walk leaves from, when the walk ends inside the component and is
      no longer than what is being tried. */
  lemma LeavesFrom(
    adj: Adjacency, c: seq<nat>, order: seq<nat>, walks: seq<seq<Hop>>, head: nat, walk: seq<Hop>, v: nat)
    returns (i: nat)
    requires IsComponent(adj, c) && Listed(adj, c, order, walks) && TriedBefore(adj, c, order, walks, head)
    requires walk != [] && HopWalk(adj, c[0], walk, v) && v in c
    requires head < |order| && |walk| <= |walks[head]| + 1
    ensures i < |order| && order[i] < |adj| && |walks[i]| < |walk|
    ensures var n := |walk| - 1;
            && HopWalk(adj, c[0], walk[..n], order[i]) && order[i] == Through(c[0], walk, n)
            && walk[n] in adj[order[i]] && walk[n].target == v
  {
    hide HopWalk, IsComponent, Tried;
    var n := |walk| - 1;
    WalkPrefix(adj, c[0], walk, v, n);
    var path := WayBack(adj, c, v);
    var hops := ReachedByWalk(adj, c[0], walk, v, path, c[0]);
    LevelListed(adj, c, order, walks, head, hops, n);
    assert Through(c[0], hops, n) == Through(c[0], walk, n) by {
      assert n > 0 ==> hops[n - 1] == walk[n - 1];
    }
    i :| 0 <= i < |order| && order[i] == Through(c[0], walk, n) && |walks[i]| <= n;
  }

  lemma WayBack(adj: Adjacency, c: seq<nat>, v: nat) returns (path: seq<nat>)
    requires IsComponent(adj, c) && v in c
    ensures Steps(adj, v, path, c[0])
  {
    assert c[0] in c && Mutual(adj, v, c[0]);
    path :| Steps(adj, v, path, c[0]);
  }

  /** The node has not been found, or is the start. */
  ghost predicate Fresh(c: seq<nat>, order: seq<nat>, v: nat) {
    c != [] && v in c && (v == c[0] || v !in order)
  }

  /** A hop to such a node is none of those tried. */
  lemma NotTried(
    adj: Adjacency, c: seq<nat>, order: seq<nat>, walks: seq<seq<Hop>>, u: nat, n: nat, depth: nat, hop: Hop)
    requires u < |adj| && n <= |adj[u]| && Tried(adj, c, order, walks, u, n, depth) && Fresh(c, order, hop.target)
    ensures At(adj[u], hop) >= n
  {
    forall m | 0 <= m < n ensures adj[u][m].target != hop.target {
      assert IsHop(adj, u, m) && To(adj, u, m) == adj[u][m].target;
    }
  }

  /** A walk to such a node comes no earlier than the one by the hop at hand. */
  lemma NoEarlierHops(
    adj: Adjacency, c: seq<nat>, order: seq<nat>, walks: seq<seq<Hop>>, head: nat, k: nat, walk: seq<Hop>)
    requires IsComponent(adj, c) && Listed(adj, c, order, walks) && TriedBefore(adj, c, order, walks, head)
    requires InOrder(adj, c, order, walks, head, k) && head < |order| && IsHop(adj, order[head], k)
    requires Tried(adj, c, order, walks, order[head], k, |walks[head]| + 1)
    requires Fresh(c, order, To(adj, order[head], k)) && walk != []
    requires HopWalk(adj, c[0], walk, To(adj, order[head], k))
    ensures var next := walks[head] + [adj[order[head]][k]];
            walk == next || Ahead(adj, c[0], next, walk)
  {
    hide IsComponent, HopWalk, Tried, ByTriedHop, LeastHops;
    var u, hop := order[head], adj[order[head]][k];
    if |walk| <= |walks[head]| + 1 {
      var i := LeavesFrom(adj, c, order, walks, head, walk, hop.target);
      var first, last := walk[..|walk| - 1], walk[|walk| - 1];
      assert walk == first + [last];
      NoneTriedBefore(adj, c, order, walks, head, i, last);
      assert LeastHops(adj, c[0], walks[i], order[i]);
      LeastIs(adj, c[0], walks[i], order[i], first);
      assert |walks[i]| == |walks[head]| == |first|;
      if i == head {
        NotTried(adj, c, order, walks, u, k, |walks[head]| + 1, last);
        if first != walks[head] {
          FurtherAhead(adj, c[0], walks[head], hop, first, last);
        } else if last != hop {
          assert At(adj[u], hop) <= k;
          LastHopAhead(adj, c[0], first, hop, last);
        }
      } else {
        if first != walks[i] {
          AheadFurther(adj, c[0], walks[head], walks[i], first);
        }
        FurtherAhead(adj, c[0], walks[head], hop, first, last);
      }
    }
  }

  lemma LeastIs(adj: Adjacency, u: nat, walk: seq<Hop>, v: nat, other: seq<Hop>)
    requires LeastHops(adj, u, walk, v) && HopWalk(adj, u, other, v)
    ensures other == walk || Ahead(adj, u, walk, other)
  {
  }

  /** It leaves a node that has not been done with, so one as far as the one being tried. */
  lemma NoneTriedBefore(
    adj: Adjacency, c: seq<nat>, order: seq<nat>, walks: seq<seq<Hop>>, head: nat, i: nat, hop: Hop)
    requires Listed(adj, c, order, walks) && TriedBefore(adj, c, order, walks, head)
    requires i < |order| && head < |order| && order[i] < |adj| && hop in adj[order[i]] && Fresh(c, order, hop.target)
    ensures head <= i && |walks[head]| <= |walks[i]|
  {
    hide HopWalk, Tried, Fresh;
    if i < head {
      NotTried(adj, c, order, walks, order[i], |adj[order[i]]|, |walks[i]| + 1, hop);
      assert false;
    }
  }

  /** The walk by the hop at hand comes after every walk listed. */
  lemma NewIsLast(
    adj: Adjacency, c: seq<nat>, order: seq<nat>, walks: seq<seq<Hop>>, head: nat, k: nat, j: nat)
    requires Listed(adj, c, order, walks) && InOrder(adj, c, order, walks, head, k)
    requires head < |order| && j < |order| && IsHop(adj, order[head], k)
    requires Tried(adj, c, order, walks, order[head], k, |walks[head]| + 1)
    requires Fresh(c, order, To(adj, order[head], k))
    ensures Ahead(adj, c[0], walks[j], walks[head] + [adj[order[head]][k]])
  {
    hide HopWalk, Tried, Fresh, LeastHops, ByTriedHop, Ahead;
    var u, hop := order[head], adj[order[head]][k];
    if j == 0 {
      AheadOfNothing(adj, c[0], walks[head] + [hop]);
    } else {
      var i, m := FoundBy(adj, order, walks, head, k, walks[j]);
      if i < head {
        FurtherAhead(adj, c[0], walks[i], adj[order[i]][m], walks[head], hop);
      } else {
        NotTried(adj, c, order, walks, u, k, |walks[head]| + 1, hop);
        EndsAt(adj, c, order, walks, head);
        LastHopAhead(adj, c[0], walks[head], adj[u][m], hop);
      }
    }
  }

  lemma AheadOfNothing(adj: Adjacency, u: nat, walk: seq<Hop>)
    requires walk != []
    ensures Ahead(adj, u, [], walk)
  {
  }

  lemma FoundBy(adj: Adjacency, order: seq<nat>, walks: seq<seq<Hop>>, head: nat, k: nat, walk: seq<Hop>)
    returns (i: nat, m: nat)
    requires ByTriedHop(adj, order, walks, head, k, walk)
    ensures TriedHop(adj, order, walks, head, k, i, m) && walk == walks[i] + [adj[order[i]][m]]
  {
    i, m :| TriedHop(adj, order, walks, head, k, i, m) && walk == walks[i] + [adj[order[i]][m]];
  }

  lemma EndsAt(adj: Adjacency, c: seq<nat>, order: seq<nat>, walks: seq<seq<Hop>>, i: nat)
    requires Listed(adj, c, order, walks) && i < |order|
    ensures order[i] == Through(c[0], walks[i], |walks[i]|)
  {
    hide HopWalk;
    WalkPrefix(adj, c[0], walks[i], order[i], |walks[i]|);
  }

  /** The node a new hop leads to is found by its least walk, after all others. */
  lemma FoundInOrder(
    adj: Adjacency, c: seq<nat>, order: seq<nat>, walks: seq<seq<Hop>>, head: nat, k: nat)
    requires IsComponent(adj, c) && Listed(adj, c, order, walks) && TriedBefore(adj, c, order, walks, head)
    requires InOrder(adj, c, order, walks, head, k) && head < |order| && IsHop(adj, order[head], k)
    requires Tried(adj, c, order, walks, order[head], k, |walks[head]| + 1)
    requires To(adj, order[head], k) in c && To(adj, order[head], k) !in order
    ensures var v, walk := To(adj, order[head], k), walks[head] + [adj[order[head]][k]];
            InOrder(adj, c, order + [v], walks + [walk], head, k + 1)
  {
    hide IsComponent, HopWalk, Tried, TriedBefore, Ahead, ByTriedHop;
    var v, walk := To(adj, order[head], k), walks[head] + [adj[order[head]][k]];
    assert Fresh(c, order, v);
    assert v != c[0] by {
      assert order[0] == c[0] && order[0] in order;
    }
    forall other | HopWalk(adj, c[0], other, v) ensures other == walk || Ahead(adj, c[0], walk, other) {
      NotNowhere(adj, c[0], other, v);
      NoEarlierHops(adj, c, order, walks, head, k, other);
    }
    forall j | 0 <= j < |order| ensures Ahead(adj, c[0], walks[j], walk) {
      NewIsLast(adj, c, order, walks, head, k, j);
    }
    GrownByTried(adj, c, order, walks, head, k);
  }

  lemma NotNowhere(adj: Adjacency, u: nat, hops: seq<Hop>, v: nat)
    requires HopWalk(adj, u, hops, v) && u != v
    ensures hops != []
  {
  }

  lemma GrownByTried(
    adj: Adjacency, c: seq<nat>, order: seq<nat>, walks: seq<seq<Hop>>, head: nat, k: nat)
    requires InOrder(adj, c, order, walks, head, k) && head < |order| && IsHop(adj, order[head], k)
    ensures var order', walks' := order + [To(adj, order[head], k)], walks + [walks[head] + [adj[order[head]][k]]];
            forall j :: 1 <= j < |order'| ==> ByTriedHop(adj, order', walks', head, k + 1, walks'[j])
  {
    hide Ahead, LeastHops;
    var order', walks' := order + [To(adj, order[head], k)], walks + [walks[head] + [adj[order[head]][k]]];
    forall j | 1 <= j < |order'| ensures ByTriedHop(adj, order', walks', head, k + 1, walks'[j]) {
      if j < |order| {
        assert ByTriedHop(adj, order, walks, head, k, walks[j]);
        var i: nat, m: nat :| TriedHop(adj, order, walks, head, k, i, m) && walks[j] == walks[i] + [adj[order[i]][m]];
        assert order'[i] == order[i] && walks'[i] == walks[i];
        assert TriedHop(adj, order', walks', head, k + 1, i, m);
      } else {
        assert order'[head] == order[head] && walks'[head] == walks[head];
        assert TriedHop(adj, order', walks', head, k + 1, head, k);
      }
    }
  }

  // ----- The loops -----

  /** Walks the parents back to the start: the nodes after it and the edges taken, in the
      order of travel, `closing` last. */
  method WalkBack(
    parent: seq<Option<(nat, nat)>>, node: nat, closing: nat, ghost order: seq<nat>, ghost walks: seq<seq<Hop>>,
    ghost i: nat)
    returns (nodes: seq<nat>, edges: seq<nat>)
    requires |order| == |walks| && i < |order| && order[i] == node && Parents(order, walks, parent) && walks[0] == []
    requires node < |parent|
    ensures nodes == Targets(walks[i]) && edges == EdgesOf(walks[i]) + [closing]
  {
    nodes, edges := [], [closing];
    var current := node;
    ghost var j := i;
    ghost var rest: seq<Hop> := [];
    assert walks[i] == walks[j] + rest;
    while parent[current].Some?
      invariant j < |order| && order[j] == current < |parent| && walks[i] == walks[j] + rest
      invariant Reversed(nodes) == Targets(rest) && Reversed(edges) == EdgesOf(rest) + [closing]
      decreases j
    {
      var (previous, edge) := parent[current].value;
      assert ParentOf(order, walks, parent, j);
      ghost var p: nat, e: nat :| p < j && parent[order[j]] == Some((order[p], e))
                                  && walks[j] == walks[p] + [Hop(e, order[j])];
      ReversedMore(nodes, current);
      ReversedMore(edges, edge);
      nodes := nodes + [current];
      edges := edges + [edge];
      assert Targets([Hop(edge, current)] + rest) == [current] + Targets(rest);
      assert EdgesOf([Hop(edge, current)] + rest) == [edge] + EdgesOf(rest);
      assert walks[p] + [Hop(e, order[j])] + rest == walks[p] + ([Hop(e, order[j])] + rest);
      assert ParentOf(order, walks, parent, p);
      rest := [Hop(edge, current)] + rest;
      current, j := previous, p;
    }
    assert ParentOf(order, walks, parent, j);
    assert j == 0 && walks[i] == rest;
    nodes := Reversed(nodes);
    edges := Reversed(edges);
  }

  /** The nodes between the ends of the least cycle through `u`, and its edges. */
  ghost predicate LeastBy(adj: Adjacency, u: nat, nodes: seq<nat>, edges: seq<nat>) {
    exists hops :: LeastCycle(adj, u, hops) && nodes == Targets(hops[..|hops| - 1]) && edges == EdgesOf(hops)
  }

  ghost function Unseen(seen: seq<bool>): set<nat> {
    set v: nat | v < |seen| && !seen[v]
  }

  /** The intermediate nodes and the edges of the least cycle through the first node of a
      component, if there is one. */
  method RepresentativeCycle(adj: Adjacency, component: seq<nat>) returns (r: Option<(seq<nat>, seq<nat>)>)
    requires ValidAdjacency(adj) && IsComponent(adj, component)
    ensures component != [] && (r.Some? <==> Cyclic(adj, component))
    ensures r.Some? ==> LeastBy(adj, component[0], r.value.0, r.value.1)
  {
    hide IsComponent, Searching, Cyclic, HopWalk, Tried, LeastCycle, InOrder;
    InGraph(adj, component);
    var start := component[0];
    assert start in component;
    var parent: seq<Option<(nat, nat)>> := seq(|adj|, _ => None);
    var seen: seq<bool> := seq(|adj|, _ => false);
    var queue: seq<nat> := [start];
    seen := seen[start := true];
    ghost var order: seq<nat> := [start];
    ghost var walks: seq<seq<Hop>> := [[]];
    ghost var head: nat := 0;
    StartSearching(adj, component, parent, seen);
    StartInOrder(adj, component);
    while queue != []
      invariant Searching(adj, component, order, walks, parent, seen, head)
      invariant InOrder(adj, component, order, walks, head, 0)
      invariant head <= |order| && queue == order[head..]
      decreases Unseen(seen), |queue|
    {
      var node := queue[0];
      queue := queue[1..];
      SearchFits(adj, component, order, walks, parent, seen, head);
      assert order[head] == node && node in order;
      NothingTried(adj, component, order, walks, node, |walks[head]| + 1);
      ghost var unseen, waiting := Unseen(seen), queue;
      for k := 0 to |adj[node]|
        invariant Searching(adj, component, order, walks, parent, seen, head)
        invariant head < |order| == |walks| && order[head] == node && queue == order[head + 1..]
        invariant Tried(adj, component, order, walks, node, k, |walks[head]| + 1)
        invariant InOrder(adj, component, order, walks, head, k)
        invariant Unseen(seen) <= unseen && (Unseen(seen) == unseen ==> queue == waiting)
      {
        SearchFits(adj, component, order, walks, parent, seen, head);
        var hop := adj[node][k];
        assert IsHop(adj, node, k) && To(adj, node, k) == hop.target && hop in adj[node];
        if hop.target == start {
          var nodes, edges := WalkBack(parent, node, hop.edge, order, walks, head);
          FirstIsLeast(adj, component, order, walks, parent, seen, head, k);
          ghost var hops := walks[head] + [hop];
          assert hops[..|hops| - 1] == walks[head] && EdgesOf(hops) == EdgesOf(walks[head]) + [hop.edge];
          assert LeastBy(adj, start, nodes, edges);
          return Some((nodes, edges));
        }
        if hop.target !in component || seen[hop.target] {
          NotNew(adj, component, order, walks, parent, seen, head, k);
          StillInOrder(adj, component, order, walks, head, k, head, k + 1);
          continue;
        }
        SearchKeepsOrder(adj, component, order, walks, parent, seen, head, k);
        FoundKeeps(adj, component, order, walks, parent, seen, head, hop);
        NewTried(adj, component, order, walks, node, k, head, hop);
        assert hop.target in Unseen(seen);
        seen := seen[hop.target := true];
        parent := parent[hop.target := Some((node, hop.edge))];
        queue := queue + [hop.target];
        order, walks := order + [hop.target], walks + [walks[head] + [hop]];
      }
      TriedKeeps(adj, component, order, walks, parent, seen, head);
      StillInOrder(adj, component, order, walks, head, |adj[node]|, head + 1, 0);
      head := head + 1;
    }
    NoneFound(adj, component, order, walks, parent, seen, head);
    r := None;
  }

  lemma InGraph(adj: Adjacency, c: seq<nat>)
    requires IsComponent(adj, c)
    ensures c != [] && forall v :: v in c ==> v < |adj|
  {
  }

  lemma SearchFits(
    adj: Adjacency, c: seq<nat>, order: seq<nat>, walks: seq<seq<Hop>>, parent: seq<Option<(nat, nat)>>,
    seen: seq<bool>, head: nat)
    requires Searching(adj, c, order, walks, parent, seen, head) && forall v :: v in c ==> v < |adj|
    ensures |order| == |walks| > 0 && |parent| == |seen| == |adj| && walks[0] == [] && Parents(order, walks, parent)
    ensures (forall v :: v in order ==> v in c && v < |adj|)
            && forall v :: 0 <= v < |seen| ==> (seen[v] <==> v in order)
  {
    hide HopWalk, ParentOf, TriedBefore;
  }

  lemma NothingTried(adj: Adjacency, c: seq<nat>, order: seq<nat>, walks: seq<seq<Hop>>, u: nat, depth: nat)
    ensures Tried(adj, c, order, walks, u, 0, depth)
  {
  }

  lemma NotNew(
    adj: Adjacency, c: seq<nat>, order: seq<nat>, walks: seq<seq<Hop>>, parent: seq<Option<(nat, nat)>>,
      seen: seq<bool>, head: nat,
    k: nat)
    requires Searching(adj, c, order, walks, parent, seen, head) && head < |order| == |walks|
    requires IsHop(adj, order[head], k)
    requires Tried(adj, c, order, walks, order[head], k, |walks[head]| + 1) && c != []
    requires To(adj, order[head], k) != c[0] && (To(adj, order[head], k) in c ==> To(adj, order[head], k) in order)
    ensures Tried(adj, c, order, walks, order[head], k + 1, |walks[head]| + 1)
  {
    hide HopWalk, ParentOf, TriedBefore;
    var v := To(adj, order[head], k);
    if v in c {
      var i :| 0 <= i < |order| && order[i] == v;
      assert |walks[i]| <= |walks[|walks| - 1]|;
      assert ListedWithin(order, walks, v, |walks[head]| + 1);
    }
  }

  lemma NewTried(
    adj: Adjacency, c: seq<nat>, order: seq<nat>, walks: seq<seq<Hop>>, u: nat, k: nat, head: nat, hop: Hop)
    requires head < |order| == |walks| && IsHop(adj, u, k) && adj[u][k] == hop && c != [] && hop.target != c[0]
    requires Tried(adj, c, order, walks, u, k, |walks[head]| + 1)
    ensures Tried(adj, c, order + [hop.target], walks + [walks[head] + [hop]], u, k + 1, |walks[head]| + 1)
  {
    var order', walks' := order + [hop.target], walks + [walks[head] + [hop]];
    TriedStays(adj, c, order, walks, hop.target, walks[head] + [hop], u, k, |walks[head]| + 1);
    assert order'[|order|] == hop.target && |walks'[|order|]| == |walks[head]| + 1;
  }

  lemma SearchKeepsOrder(
    adj: Adjacency, c: seq<nat>, order: seq<nat>, walks: seq<seq<Hop>>, parent: seq<Option<(nat, nat)>>,
    seen: seq<bool>, head: nat, k: nat)
    requires IsComponent(adj, c) && Searching(adj, c, order, walks, parent, seen, head) && head < |order| == |walks|
    requires InOrder(adj, c, order, walks, head, k) && IsHop(adj, order[head], k)
    requires Tried(adj, c, order, walks, order[head], k, |walks[head]| + 1)
    requires To(adj, order[head], k) in c && To(adj, order[head], k) !in order
    ensures var v, walk := To(adj, order[head], k), walks[head] + [adj[order[head]][k]];
            InOrder(adj, c, order + [v], walks + [walk], head, k + 1)
  {
    hide IsComponent, HopWalk, InOrder, Tried, Listed;
    FoundInOrder(adj, c, order, walks, head, k);
  }

  /** The first hop met that leads back to the start closes the least cycle. */
  lemma FirstIsLeast(
    adj: Adjacency, c: seq<nat>, order: seq<nat>, walks: seq<seq<Hop>>, parent: seq<Option<(nat, nat)>>,
    seen: seq<bool>, head: nat, k: nat)
    requires IsComponent(adj, c) && Searching(adj, c, order, walks, parent, seen, head) && head < |order| == |walks|
    requires InOrder(adj, c, order, walks, head, k) && IsHop(adj, order[head], k)
    requires Tried(adj, c, order, walks, order[head], k, |walks[head]| + 1)
    requires c != [] && To(adj, order[head], k) == c[0]
    ensures LeastCycle(adj, c[0], walks[head] + [adj[order[head]][k]]) && Cyclic(adj, c)
  {
    hide HopWalk, IsComponent, Cyclic, InOrder, Tried, Ahead;
    var hop := adj[order[head]][k];
    HopFurther(adj, c[0], walks[head], order[head], hop);
    assert ClosedWalk(adj, c[0], walks[head] + [hop]);
    InGraph(adj, c);
    CyclicIff(adj, c, c[0]);
    assert Fresh(c, order, c[0]);
    forall other | ClosedWalk(adj, c[0], other)
      ensures other == walks[head] + [hop] || Ahead(adj, c[0], walks[head] + [hop], other)
    {
      NoEarlierHops(adj, c, order, walks, head, k, other);
    }
  }

  lemma NoneFound(
    adj: Adjacency, c: seq<nat>, order: seq<nat>, walks: seq<seq<Hop>>, parent: seq<Option<(nat, nat)>>,
    seen: seq<bool>, head: nat)
    requires IsComponent(adj, c) && Searching(adj, c, order, walks, parent, seen, head) && head >= |order|
    ensures !Cyclic(adj, c)
  {
    hide HopWalk, IsComponent, Cyclic;
    InGraph(adj, c);
    CyclicIff(adj, c, c[0]);
    if hops: seq<Hop> :| ClosedWalk(adj, c[0], hops) {
      NoShorter(adj, c, order, walks, head, hops);
      assert false;
    }
  }
}
