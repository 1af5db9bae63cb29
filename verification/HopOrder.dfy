/** The order of walks by the places of their hops among the hops of each node. */
module HopOrder {
  import opened Reachability

  /** The first place of a hop among others, or their number when it is not there. */
  function At(hops: seq<Hop>, h: Hop): (n: nat)
    ensures n <= |hops| && (n < |hops| <==> h in hops) && (n < |hops| ==> hops[n] == h)
    ensures forall i :: 0 <= i < n ==> hops[i] != h
  {
    if hops == [] then 0
    else if hops[0] == h then 0
    else
      var n := At(hops[1..], h);
      assert hops == [hops[0]] + hops[1..];
      n + 1
  }

  /** The walks are the same for `n` hops, and then the first takes an earlier hop. */
  ghost predicate PartAt(adj: Adjacency, u: nat, a: seq<Hop>, b: seq<Hop>, n: nat) {
    && n < |a| && n < |b| && a[..n] == b[..n] && Through(u, a, n) < |adj|
    && At(adj[Through(u, a, n)], a[n]) < At(adj[Through(u, a, n)], b[n])
  }

  /** A walk is shorter than another, or of its length and takes an earlier hop where the
      two part. */
  ghost predicate Ahead(adj: Adjacency, u: nat, a: seq<Hop>, b: seq<Hop>) {
    |a| < |b| || (|a| == |b| && exists n: nat :: PartAt(adj, u, a, b, n))
  }

  lemma SamePrefix(a: seq<Hop>, b: seq<Hop>, n: nat, m: nat)
    requires m <= n <= |a| && n <= |b| && a[..n] == b[..n]
    ensures a[..m] == b[..m] && (m < n ==> a[m] == b[m])
  {
    assert a[..m] == a[..n][..m] && b[..m] == b[..n][..m];
    assert m < n ==> a[m] == a[..n][m] && b[m] == b[..n][m];
  }

  lemma SameThrough(u: nat, a: seq<Hop>, b: seq<Hop>, n: nat)
    requires n <= |a| && n <= |b| && a[..n] == b[..n]
    ensures Through(u, a, n) == Through(u, b, n)
  {
    if n > 0 {
      SamePrefix(a, b, n, n - 1);
    }
  }

  lemma AheadFurther(adj: Adjacency, u: nat, a: seq<Hop>, b: seq<Hop>, c: seq<Hop>)
    requires Ahead(adj, u, a, b) && Ahead(adj, u, b, c)
    ensures Ahead(adj, u, a, c)
  {
    hide At;
    if |a| == |b| == |c| {
      var m: nat :| PartAt(adj, u, a, b, m);
      var n: nat :| PartAt(adj, u, b, c, n);
      var k := if m <= n then m else n;
      SamePrefix(a, b, m, k);
      SamePrefix(b, c, n, k);
      SameThrough(u, a, b, k);
      assert PartAt(adj, u, a, c, k);
    }
  }

  /** Walks that go one hop further stay in order. */
  lemma FurtherAhead(adj: Adjacency, u: nat, a: seq<Hop>, h: Hop, b: seq<Hop>, k: Hop)
    requires Ahead(adj, u, a, b)
    ensures Ahead(adj, u, a + [h], b + [k])
  {
    if |a| == |b| {
      var n: nat :| PartAt(adj, u, a, b, n);
      assert (a + [h])[..n] == a[..n] && (b + [k])[..n] == b[..n];
      assert Through(u, a + [h], n) == Through(u, a, n);
      assert PartAt(adj, u, a + [h], b + [k], n);
    }
  }

  /** Of two walks that differ in their last hop alone, that of the earlier hop is first. */
  lemma LastHopAhead(adj: Adjacency, u: nat, a: seq<Hop>, h: Hop, k: Hop)
    requires Through(u, a, |a|) < |adj| && At(adj[Through(u, a, |a|)], h) < At(adj[Through(u, a, |a|)], k)
    ensures Ahead(adj, u, a + [h], a + [k])
  {
    assert (a + [h])[..|a|] == a == (a + [k])[..|a|];
    assert Through(u, a + [h], |a|) == Through(u, a, |a|);
    assert PartAt(adj, u, a + [h], a + [k], |a|);
  }
}
