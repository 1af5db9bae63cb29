/** Tarjan's strongly connected components with an explicit stack of frames, as `cycles.rs`
    computes them. */
module Tarjan {
  import opened Basics
  import opened Ordering
  import opened Reachability

  /** A node whose hops are being followed, and how many of them have been. */
  datatype Frame = Frame(node: nat, next: nat)

  datatype State = State(
    discovery: seq<Option<nat>>,
    low: seq<nat>,
    onStack: seq<bool>,
    stack: seq<nat>,
    frames: seq<Frame>,
    components: seq<seq<nat>>,
    counter: nat)
  {
    predicate Sized(n: nat) {
      |discovery| == |low| == |onStack| == n
    }

    predicate Seen(v: nat) {
      v < |discovery| && discovery[v].Some?
    }

    function At(v: nat): nat {
      if Seen(v) then discovery[v].value else 0
    }

    /** In a component already. */
    predicate Finished(v: nat) {
      Seen(v) && v !in stack
    }

    function Last(): Frame
      requires frames != []
    {
      frames[|frames| - 1]
    }

    /** Hop `k` of `v` has been followed. */
    ghost predicate Followed(v: nat, k: nat) {
      Seen(v) && forall i :: 0 <= i < |frames| && frames[i].node == v ==> k < frames[i].next
    }
  }

  // ----- What every step keeps -----

  ghost predicate StackInOrder(s: State) {
    && (forall v :: v in s.stack ==> s.Seen(v))
    && (forall i, j :: 0 <= i < j < |s.stack| ==> s.At(s.stack[i]) < s.At(s.stack[j]))
    && (forall v :: 0 <= v < |s.onStack| ==> (s.onStack[v] <==> v in s.stack))
  }

  ghost predicate Discovered(s: State) {
    && (forall v :: s.Seen(v) ==> s.At(v) < s.counter)
    && (forall u, v :: s.Seen(u) && s.Seen(v) && s.At(u) == s.At(v) ==> u == v)
  }

  ghost predicate FramesInOrder(adj: Adjacency, s: State) {
    && (forall i :: 0 <= i < |s.frames| ==> s.frames[i].node in s.stack && s.frames[i].node < |adj|
                                            && s.frames[i].next <= |adj[s.frames[i].node]|)
    && (forall i, j :: 0 <= i < j < |s.frames| ==> s.At(s.frames[i].node) < s.At(s.frames[j].node))
  }

  ghost predicate ComponentsFound(adj: Adjacency, s: State) {
    && (forall i :: 0 <= i < |s.components| ==> IsComponent(adj, s.components[i]))
    && (forall i, v :: 0 <= i < |s.components| && v in s.components[i] ==> s.Finished(v))
    && (forall v: nat :: s.Finished(v) ==> InSome(s.components, v))
    && (forall i, j :: 0 <= i < j < |s.components| ==> forall v :: v in s.components[i] ==> v !in s.components[j])
  }

  /** Followed hops lead to nodes seen, and from finished nodes to finished ones. */
  ghost predicate HopsFollowed(adj: Adjacency, s: State) {
    && (forall v: nat, k: nat :: IsHop(adj, v, k) && s.Followed(v, k) ==> s.Seen(To(adj, v, k)))
    && (forall v: nat, k: nat :: IsHop(adj, v, k) && s.Finished(v) ==> s.Finished(To(adj, v, k)))
  }

  /** A node being followed reaches all that was put on the stack after it. */
  ghost predicate FramesReach(adj: Adjacency, s: State) {
    forall i, v :: 0 <= i < |s.frames| && v in s.stack && s.At(s.frames[i].node) <= s.At(v) ==>
      Reach(adj, s.frames[i].node, v)
  }

  /** `v` reaches a node being followed that is no later than it. */
  ghost predicate LeadsBack(adj: Adjacency, s: State, v: nat) {
    exists i :: 0 <= i < |s.frames| && s.At(s.frames[i].node) <= s.At(v) && Reach(adj, v, s.frames[i].node)
  }

  ghost predicate StackLeadsBack(adj: Adjacency, s: State) {
    forall v :: v in s.stack ==> LeadsBack(adj, s, v)
  }

  /** `u` reaches a node on the stack found at `at`. */
  ghost predicate ReachesAt(adj: Adjacency, s: State, u: nat, at: nat) {
    exists t :: t in s.stack && s.At(t) == at && Reach(adj, u, t)
  }

  ghost predicate LowReached(adj: Adjacency, s: State) {
    forall i :: 0 <= i < |s.frames| && s.frames[i].node < |s.low| ==>
      && s.low[s.frames[i].node] <= s.At(s.frames[i].node)
      && ReachesAt(adj, s, s.frames[i].node, s.low[s.frames[i].node])
  }

  /** `v` was put on the stack while frame `i` was the last. */
  predicate Owns(s: State, i: nat, v: nat) {
    i < |s.frames| && v in s.stack && s.At(s.frames[i].node) <= s.At(v)
    && (i + 1 < |s.frames| ==> s.At(v) < s.At(s.frames[i + 1].node))
  }

  /** No followed hop of what a frame owns leads to a node on the stack found before the
      frame's low link. */
  ghost predicate LowBounds(adj: Adjacency, s: State) {
    forall i: nat, v: nat, k: nat ::
      Owns(s, i, v) && IsHop(adj, v, k) && s.Followed(v, k) && To(adj, v, k) in s.stack && s.frames[i].node < |s.low|
      ==> s.low[s.frames[i].node] <= s.At(To(adj, v, k))
  }

  ghost predicate Kept(adj: Adjacency, s: State) {
    && s.Sized(|adj|)
    && StackInOrder(s) && Discovered(s) && FramesInOrder(adj, s) && ComponentsFound(adj, s) && HopsFollowed(adj, s)
    && FramesReach(adj, s) && StackLeadsBack(adj, s) && LowReached(adj, s) && LowBounds(adj, s)
  }

  // ----- Finding a node -----

  function Entered(s: State, v: nat): State
    requires v < |s.discovery| == |s.low| == |s.onStack|
  {
    s.(discovery := s.discovery[v := Some(s.counter)],
       low := s.low[v := s.counter],
       onStack := s.onStack[v := true],
       stack := s.stack + [v],
       frames := s.frames + [Frame(v, 0)],
       counter := s.counter + 1)
  }

  /** The last frame's next hop counts as followed. */
  function Advanced(s: State): State
    requires s.frames != []
  {
    s.(frames := s.frames[|s.frames| - 1 := Frame(s.Last().node, s.Last().next + 1)])
  }

  /** The node is the first of a search, or the last frame's next hop leads to it. */
  ghost predicate FoundNext(adj: Adjacency, s: State, v: nat) {
    s.frames != [] ==>
      IsHop(adj, s.Last().node, s.Last().next) && To(adj, s.Last().node, s.Last().next) == v
  }

  ghost function Entering(s: State, v: nat): State
    requires v < |s.discovery| == |s.low| == |s.onStack|
  {
    Entered(if s.frames == [] then s else Advanced(s), v)
  }

  lemma EnteredAt(s: State, v: nat)
    requires v < |s.discovery| == |s.low| == |s.onStack| && !s.Seen(v)
    ensures var t := Entering(s, v);
            && (forall u :: t.Seen(u) <==> s.Seen(u) || u == v)
            && (forall u :: s.Seen(u) ==> t.At(u) == s.At(u))
            && t.At(v) == s.counter
            && (forall u :: u in t.stack <==> u in s.stack || u == v)
            && |t.frames| == |s.frames| + 1 && t.frames[|s.frames|] == Frame(v, 0)
            && (forall i :: 0 <= i < |s.frames| ==> t.frames[i].node == s.frames[i].node)
            && (forall i :: 0 <= i < |s.frames| - 1 ==> t.frames[i] == s.frames[i])
            && (s.frames != [] ==> t.frames[|s.frames| - 1].next == s.Last().next + 1)
            && t.components == s.components && t.counter == s.counter + 1
  {
    var t := Entering(s, v);
    assert forall u :: t.Seen(u) <==> s.Seen(u) || u == v;
  }

  lemma EnteredFollows(s: State, v: nat, u: nat, k: nat)
    requires v < |s.discovery| == |s.low| == |s.onStack| && !s.Seen(v)
    ensures Entering(s, v).Followed(u, k)
            ==> u != v && (s.Followed(u, k) || (s.frames != [] && Frame(u, k) == s.Last()))
  {
    EnteredAt(s, v);
    var t := Entering(s, v);
    hide Entering;
    if t.Followed(u, k) {
      assert t.frames[|s.frames|].node == v;
      if s.frames == [] || Frame(u, k) != s.Last() {
        forall i | 0 <= i < |s.frames| && s.frames[i].node == u ensures k < s.frames[i].next {
          assert t.frames[i].node == u;
        }
      }
    }
  }

  ghost predicate CanEnter(adj: Adjacency, s: State, v: nat) {
    Kept(adj, s) && v < |adj| && !s.Seen(v) && FoundNext(adj, s, v)
  }

  lemma EnterOrder(adj: Adjacency, s: State, v: nat)
    requires CanEnter(adj, s, v)
    ensures StackInOrder(Entering(s, v)) && Discovered(Entering(s, v))
  {
    hide ComponentsFound, HopsFollowed, FramesReach, StackLeadsBack, LowReached, LowBounds;
    EnteredAt(s, v);
    var t := Entering(s, v);
    assert t.stack == s.stack + [v] && t.onStack == s.onStack[v := true];
    hide Entering;
    forall i, j | 0 <= i < j < |t.stack| ensures t.At(t.stack[i]) < t.At(t.stack[j]) {
      assert s.stack[i] in s.stack;
      if j < |s.stack| {
        assert s.stack[j] in s.stack;
      }
    }
  }

  lemma EnterFrames(adj: Adjacency, s: State, v: nat)
    requires CanEnter(adj, s, v)
    ensures FramesInOrder(adj, Entering(s, v))
  {
    hide ComponentsFound, HopsFollowed, FramesReach, StackLeadsBack, LowReached, LowBounds;
    EnteredAt(s, v);
    hide Entering;
  }

  lemma EnterComponents(adj: Adjacency, s: State, v: nat)
    requires CanEnter(adj, s, v)
    ensures forall u :: Entering(s, v).Finished(u) <==> s.Finished(u)
    ensures ComponentsFound(adj, Entering(s, v)) && HopsFollowed(adj, Entering(s, v))
  {
    hide FramesReach, StackLeadsBack, LowReached, LowBounds, IsComponent;
    EnteredAt(s, v);
    var t := Entering(s, v);
    hide Entering;
    forall u ensures t.Finished(u) <==> s.Finished(u) {
    }
    forall u: nat, k: nat | IsHop(adj, u, k) && t.Followed(u, k) ensures t.Seen(To(adj, u, k)) {
      EnteredFollows(s, v, u, k);
    }
  }

  lemma EnterReach(adj: Adjacency, s: State, v: nat)
    requires CanEnter(adj, s, v)
    ensures FramesReach(adj, Entering(s, v))
  {
    hide ComponentsFound, HopsFollowed, StackLeadsBack, LowReached, LowBounds, Reach;
    EnteredAt(s, v);
    var t := Entering(s, v);
    hide Entering;
    ReachSelf(adj, v);
    if s.frames != [] {
      ReachHop(adj, s.Last().node, s.Last().next);
    }
    forall i, u | 0 <= i < |t.frames| && u in t.stack && t.At(t.frames[i].node) <= t.At(u)
      ensures Reach(adj, t.frames[i].node, u)
    {
      if i < |s.frames| && u == v {
        FramesUpToLast(adj, s, i);
        assert s.Last().node in s.stack && s.At(s.frames[i].node) <= s.At(s.Last().node);
        ReachFurther(adj, s.frames[i].node, s.Last().node, v);
      }
    }
  }

  lemma FramesUpToLast(adj: Adjacency, s: State, i: nat)
    requires FramesInOrder(adj, s) && i < |s.frames|
    ensures s.At(s.frames[i].node) <= s.At(s.Last().node)
  {
  }

  lemma EnterBack(adj: Adjacency, s: State, v: nat)
    requires CanEnter(adj, s, v)
    ensures StackLeadsBack(adj, Entering(s, v))
  {
    hide ComponentsFound, HopsFollowed, FramesReach, LowReached, LowBounds, Reach;
    EnteredAt(s, v);
    var t := Entering(s, v);
    hide Entering;
    ReachSelf(adj, v);
    forall u | u in t.stack ensures LeadsBack(adj, t, u) {
      if u == v {
        assert t.frames[|s.frames|].node == v;
      } else {
        assert LeadsBack(adj, s, u);
        var i :| 0 <= i < |s.frames| && s.At(s.frames[i].node) <= s.At(u) && Reach(adj, u, s.frames[i].node);
        assert t.frames[i].node == s.frames[i].node;
      }
    }
  }

  lemma EnterLow(adj: Adjacency, s: State, v: nat)
    requires CanEnter(adj, s, v)
    ensures LowReached(adj, Entering(s, v))
  {
    hide ComponentsFound, HopsFollowed, FramesReach, StackLeadsBack, LowBounds, Reach;
    EnteredAt(s, v);
    var t := Entering(s, v);
    assert t.low == s.low[v := s.counter];
    hide Entering;
    ReachSelf(adj, v);
    forall i | 0 <= i < |t.frames|
      ensures t.low[t.frames[i].node] <= t.At(t.frames[i].node)
      ensures ReachesAt(adj, t, t.frames[i].node, t.low[t.frames[i].node])
    {
      if i < |s.frames| {
        var u := s.frames[i].node;
        assert ReachesAt(adj, s, u, s.low[u]);
        var x :| x in s.stack && s.At(x) == s.low[u] && Reach(adj, u, x);
        assert x in t.stack && t.At(x) == t.low[u];
      } else {
        assert v in t.stack && t.At(v) == t.low[v];
      }
    }
  }

  lemma EnterLowBounds(adj: Adjacency, s: State, v: nat)
    requires CanEnter(adj, s, v)
    ensures LowBounds(adj, Entering(s, v))
  {
    hide ComponentsFound, HopsFollowed, FramesReach, StackLeadsBack, State.Followed, LowReached, LowBounds, Entering;
    var t := Entering(s, v);
    forall i: nat, u: nat, k: nat |
      Owns(t, i, u) && IsHop(adj, u, k) && t.Followed(u, k) && To(adj, u, k) in t.stack && t.frames[i].node < |t.low|
      ensures t.low[t.frames[i].node] <= t.At(To(adj, u, k))
    {
      EnteredFollows(s, v, u, k);
      EnterBounds(adj, s, v, i, u, k);
    }
    LowBoundsIf(adj, t);
  }

  lemma LowBoundsIf(adj: Adjacency, t: State)
    requires forall i: nat, u: nat, k: nat ::
               Owns(t, i, u) && IsHop(adj, u, k) && t.Followed(u, k) && To(adj, u, k) in t.stack
                 && t.frames[i].node < |t.low|
               ==> t.low[t.frames[i].node] <= t.At(To(adj, u, k))
    ensures LowBounds(adj, t)
  {
  }

  lemma EnterBounds(adj: Adjacency, s: State, v: nat, i: nat, u: nat, k: nat)
    requires s.Sized(|adj|) && v < |adj| && !s.Seen(v) && FoundNext(adj, s, v)
    requires Discovered(s) && FramesInOrder(adj, s) && StackInOrder(s) && LowReached(adj, s) && LowBounds(adj, s)
    requires var t := Entering(s, v); Owns(t, i, u) && IsHop(adj, u, k) && To(adj, u, k) in t.stack
    requires u != v && (s.Followed(u, k) || (s.frames != [] && Frame(u, k) == s.Last()))
    ensures var t := Entering(s, v); t.low[t.frames[i].node] <= t.At(To(adj, u, k))
  {
    hide ReachesAt;
    EnteredAt(s, v);
    var t := Entering(s, v);
    assert t.low == s.low[v := s.counter];
    hide Entering, State.Followed;
    assert i < |s.frames|;
    assert Owns(s, i, u);
    assert s.frames[i].node in s.stack;
    if To(adj, u, k) == v {
      assert s.low[s.frames[i].node] <= s.At(s.frames[i].node) < s.counter;
    } else {
      assert s.Followed(u, k) && To(adj, u, k) in s.stack;
    }
  }

  lemma EnterKeeps(adj: Adjacency, s: State, v: nat)
    requires CanEnter(adj, s, v)
    ensures Kept(adj, Entering(s, v))
  {
    hide StackInOrder, Discovered, FramesInOrder, ComponentsFound, HopsFollowed, FramesReach, StackLeadsBack,
         LowReached, LowBounds;
    EnterOrder(adj, s, v);
    EnterFrames(adj, s, v);
    EnterComponents(adj, s, v);
    EnterReach(adj, s, v);
    EnterBack(adj, s, v);
    EnterLow(adj, s, v);
    EnterLowBounds(adj, s, v);
  }

  // ----- Following a hop to a node seen before -----

  function Min(a: nat, b: nat): nat {
    if a <= b then a else b
  }

  function Looked(s: State, v: nat): State
    requires s.frames != [] && s.Last().node < |s.low| && v < |s.onStack|
  {
    var node := s.Last().node;
    Advanced(if s.onStack[v] then s.(low := s.low[node := Min(s.low[node], s.At(v))]) else s)
  }

  ghost predicate CanLook(adj: Adjacency, s: State, v: nat) {
    Kept(adj, s) && v < |adj| && s.frames != [] && s.Seen(v) && FoundNext(adj, s, v)
  }

  lemma LookedParts(s: State, v: nat)
    requires s.frames != [] && s.Last().node < |s.low| && v < |s.onStack|
    ensures var t := Looked(s, v);
            && t == s.(frames := t.frames, low := t.low)
            && |t.frames| == |s.frames| && (forall i :: 0 <= i < |s.frames| ==> t.frames[i].node == s.frames[i].node)
            && (forall i :: 0 <= i < |s.frames| - 1 ==> t.frames[i] == s.frames[i])
            && t.Last() == Frame(s.Last().node, s.Last().next + 1)
            && |t.low| == |s.low|
            && (forall u :: 0 <= u < |s.low| && u != s.Last().node ==> t.low[u] == s.low[u])
            && t.low[s.Last().node]
               == if s.onStack[v] then Min(s.low[s.Last().node], s.At(v)) else s.low[s.Last().node]
  {
  }

  lemma LookedFollows(s: State, v: nat, u: nat, k: nat)
    requires s.frames != [] && s.Last().node < |s.low| && v < |s.onStack|
    ensures Looked(s, v).Followed(u, k) ==> s.Followed(u, k) || Frame(u, k) == s.Last()
  {
    LookedParts(s, v);
    var t := Looked(s, v);
    hide Looked;
    if t.Followed(u, k) && Frame(u, k) != s.Last() {
      forall i | 0 <= i < |s.frames| && s.frames[i].node == u ensures k < s.frames[i].next {
        assert t.frames[i].node == u;
      }
    }
  }

  lemma SameReach(adj: Adjacency, s: State, t: State)
    requires FramesReach(adj, s) && t.discovery == s.discovery && t.stack == s.stack
    requires |t.frames| <= |s.frames| && forall i :: 0 <= i < |t.frames| ==> t.frames[i].node == s.frames[i].node
    ensures FramesReach(adj, t)
  {
    hide Reach;
    forall i, v | 0 <= i < |t.frames| && v in t.stack && t.At(t.frames[i].node) <= t.At(v)
      ensures Reach(adj, t.frames[i].node, v)
    {
      assert s.At(s.frames[i].node) <= s.At(v);
    }
  }

  lemma OrderStill(adj: Adjacency, s: State, t: State)
    requires StackInOrder(s) && Discovered(s) && FramesInOrder(adj, s)
    requires t.discovery == s.discovery && t.stack == s.stack && t.onStack == s.onStack && t.counter == s.counter
    requires |t.frames| <= |s.frames| && forall i :: 0 <= i < |t.frames| ==> t.frames[i].node == s.frames[i].node
    requires forall i :: 0 <= i < |t.frames| && t.frames[i].node < |adj| ==> t.frames[i].next <= |adj[t.frames[i].node]|
    ensures StackInOrder(t) && Discovered(t) && FramesInOrder(adj, t)
  {
    assert forall u :: t.At(u) == s.At(u) && t.Seen(u) == s.Seen(u);
    assert forall i :: 0 <= i < |t.frames| ==> s.frames[i].node in s.stack;
  }

  lemma FoundStill(adj: Adjacency, s: State, t: State)
    requires ComponentsFound(adj, s) && t.discovery == s.discovery && t.stack == s.stack && t.components == s.components
    ensures ComponentsFound(adj, t)
  {
    assert forall u :: t.Finished(u) == s.Finished(u);
  }

  lemma LookOrder(adj: Adjacency, s: State, v: nat)
    requires CanLook(adj, s, v)
    ensures var t := Looked(s, v);
            StackInOrder(t) && Discovered(t) && FramesInOrder(adj, t) && ComponentsFound(adj, t)
  {
    hide HopsFollowed, LowReached, LowBounds, StackLeadsBack, FramesReach, StackInOrder, Discovered, ComponentsFound;
    LookedParts(s, v);
    var t := Looked(s, v);
    hide Looked;
    forall i | 0 <= i < |t.frames| && t.frames[i].node < |adj| ensures t.frames[i].next <= |adj[t.frames[i].node]| {
      if i < |s.frames| - 1 {
        assert t.frames[i] == s.frames[i];
      }
    }
    hide FramesInOrder;
    OrderStill(adj, s, t);
    FoundStill(adj, s, t);
  }

  lemma LookBack(adj: Adjacency, s: State, v: nat)
    requires CanLook(adj, s, v)
    ensures StackLeadsBack(adj, Looked(s, v))
  {
    LookedParts(s, v);
    BackStill(adj, s, Looked(s, v));
  }

  lemma BackStill(adj: Adjacency, s: State, t: State)
    requires StackLeadsBack(adj, s) && t.discovery == s.discovery && t.stack == s.stack
    requires |t.frames| == |s.frames| && forall i :: 0 <= i < |s.frames| ==> t.frames[i].node == s.frames[i].node
    ensures StackLeadsBack(adj, t)
  {
    forall u | u in t.stack ensures LeadsBack(adj, t, u) {
      assert LeadsBack(adj, s, u);
      var i :| 0 <= i < |s.frames| && s.At(s.frames[i].node) <= s.At(u) && Reach(adj, u, s.frames[i].node);
      assert t.frames[i].node == s.frames[i].node;
    }
  }

  lemma LookHops(adj: Adjacency, s: State, v: nat)
    requires CanLook(adj, s, v)
    ensures HopsFollowed(adj, Looked(s, v))
  {
    hide FramesReach, StackLeadsBack, LowReached, LowBounds, ComponentsFound;
    LookedParts(s, v);
    var t := Looked(s, v);
    hide Looked;
    forall u: nat, k: nat | IsHop(adj, u, k) && t.Followed(u, k) ensures t.Seen(To(adj, u, k)) {
      LookedFollows(s, v, u, k);
    }
    assert forall u :: t.Finished(u) <==> s.Finished(u);
  }

  lemma OnlyFrameOf(adj: Adjacency, s: State, i: nat)
    requires FramesInOrder(adj, s) && i < |s.frames| - 1
    ensures s.frames[i].node != s.Last().node && s.At(s.frames[i].node) < s.At(s.Last().node)
  {
  }

  lemma LookLow(adj: Adjacency, s: State, v: nat)
    requires CanLook(adj, s, v)
    ensures LowReached(adj, Looked(s, v))
  {
    hide FramesReach, StackLeadsBack, LowBounds, ComponentsFound, HopsFollowed, Reach;
    LookedParts(s, v);
    var t := Looked(s, v);
    hide Looked;
    ReachHop(adj, s.Last().node, s.Last().next);
    forall i | 0 <= i < |t.frames|
      ensures t.low[t.frames[i].node] <= t.At(t.frames[i].node)
      ensures ReachesAt(adj, t, t.frames[i].node, t.low[t.frames[i].node])
    {
      var u := s.frames[i].node;
      assert ReachesAt(adj, s, u, s.low[u]);
      if i < |s.frames| - 1 {
        OnlyFrameOf(adj, s, i);
      }
      if t.low[u] == s.low[u] {
        var x :| x in s.stack && s.At(x) == s.low[u] && Reach(adj, u, x);
        assert x in t.stack && t.At(x) == t.low[u];
      } else {
        assert v in t.stack && t.At(v) == t.low[u];
      }
    }
  }

  lemma LookBounds(adj: Adjacency, s: State, v: nat)
    requires CanLook(adj, s, v)
    ensures LowBounds(adj, Looked(s, v))
  {
    hide FramesReach, StackLeadsBack, ComponentsFound, HopsFollowed, LowReached;
    LookedParts(s, v);
    var t := Looked(s, v);
    hide Looked, State.Followed;
    forall i: nat, u: nat, k: nat | Owns(t, i, u) && IsHop(adj, u, k) && t.Followed(u, k) && To(adj, u, k) in t.stack
      ensures t.low[t.frames[i].node] <= t.At(To(adj, u, k))
    {
      LookedFollows(s, v, u, k);
      assert Owns(s, i, u);
      if i < |s.frames| - 1 {
        OnlyFrameOf(adj, s, i);
        FramesUpToLast(adj, s, i + 1);
        assert s.Followed(u, k);
      }
    }
  }

  lemma LookKeeps(adj: Adjacency, s: State, v: nat)
    requires CanLook(adj, s, v)
    ensures Kept(adj, Looked(s, v))
  {
    hide StackInOrder, Discovered, FramesInOrder, ComponentsFound, HopsFollowed, FramesReach, StackLeadsBack,
         LowReached, LowBounds;
    LookedParts(s, v);
    LookOrder(adj, s, v);
    SameReach(adj, s, Looked(s, v));
    LookBack(adj, s, v);
    LookHops(adj, s, v);
    LookLow(adj, s, v);
    LookBounds(adj, s, v);
  }

  // ----- Leaving a node that is no root of a component -----

  function Left(s: State): State
    requires s.frames != [] && forall i :: 0 <= i < |s.frames| ==> s.frames[i].node < |s.low|
  {
    var outer, node := s.frames[..|s.frames| - 1], s.Last().node;
    s.(frames := outer,
       low := if outer == [] then s.low
              else
                var parent := outer[|outer| - 1].node;
                s.low[parent := Min(s.low[parent], s.low[node])])
  }

  ghost predicate CanLeave(adj: Adjacency, s: State) {
    && s.frames != [] && (forall i :: 0 <= i < |s.frames| ==> s.frames[i].node < |s.low|)
    && !IsHop(adj, s.Last().node, s.Last().next) && Kept(adj, s)
  }

  lemma LeftParts(s: State)
    requires s.frames != [] && forall i :: 0 <= i < |s.frames| ==> s.frames[i].node < |s.low|
    ensures var t, n := Left(s), |s.frames| - 1;
            && t == s.(frames := t.frames, low := t.low)
            && |t.frames| == n && (forall i :: 0 <= i < n ==> t.frames[i] == s.frames[i])
            && |t.low| == |s.low|
            && (forall u :: 0 <= u < |s.low| && (n == 0 || u != s.frames[n - 1].node) ==> t.low[u] == s.low[u])
            && (n > 0 ==> t.low[s.frames[n - 1].node] == Min(s.low[s.frames[n - 1].node], s.low[s.Last().node]))
  {
  }

  lemma LeftFollows(adj: Adjacency, s: State, u: nat, k: nat)
    requires FramesInOrder(adj, s) && s.frames != [] && !IsHop(adj, s.Last().node, s.Last().next)
    requires forall i :: 0 <= i < |s.frames| ==> s.frames[i].node < |s.low|
    ensures IsHop(adj, u, k) && Left(s).Followed(u, k) ==> s.Followed(u, k)
  {
    LeftParts(s);
    var t := Left(s);
    hide Left;
    if IsHop(adj, u, k) && t.Followed(u, k) {
      forall i | 0 <= i < |s.frames| && s.frames[i].node == u ensures k < s.frames[i].next {
        if i < |s.frames| - 1 {
          assert t.frames[i].node == u;
        }
      }
    }
  }

  lemma LeaveOrder(adj: Adjacency, s: State)
    requires CanLeave(adj, s)
    ensures var t := Left(s);
            StackInOrder(t) && Discovered(t) && FramesInOrder(adj, t) && ComponentsFound(adj, t)
  {
    hide HopsFollowed, LowReached, LowBounds, StackLeadsBack, FramesReach, StackInOrder, Discovered, ComponentsFound;
    LeftParts(s);
    var t := Left(s);
    hide Left;
    OrderStill(adj, s, t);
    FoundStill(adj, s, t);
  }

  lemma LeaveHops(adj: Adjacency, s: State)
    requires CanLeave(adj, s)
    ensures HopsFollowed(adj, Left(s))
  {
    hide FramesReach, StackLeadsBack, LowReached, LowBounds, ComponentsFound;
    LeftParts(s);
    var t := Left(s);
    hide Left, State.Followed;
    forall u: nat, k: nat | IsHop(adj, u, k) && t.Followed(u, k) ensures t.Seen(To(adj, u, k)) {
      LeftFollows(adj, s, u, k);
    }
    assert forall u :: t.Finished(u) <==> s.Finished(u);
  }

  /** A node whose low link is not its own reaches a frame before its own. */
  lemma ReachesEarlierFrame(adj: Adjacency, s: State) returns (j: nat)
    requires s.frames != [] && s.Last().node < |s.low| && s.low[s.Last().node] != s.At(s.Last().node)
    requires LowReached(adj, s) && StackLeadsBack(adj, s)
    ensures j < |s.frames| - 1 && Reach(adj, s.Last().node, s.frames[j].node)
  {
    hide Reach, LowReached, StackLeadsBack;
    var node := s.Last().node;
    var x := LowOfLast(adj, s);
    BackFrom(adj, s, x);
    j :| 0 <= j < |s.frames| && s.At(s.frames[j].node) <= s.At(x) && Reach(adj, x, s.frames[j].node);
    ReachFurther(adj, node, x, s.frames[j].node);
  }

  lemma LowOfLast(adj: Adjacency, s: State) returns (x: nat)
    requires s.frames != [] && s.Last().node < |s.low| && LowReached(adj, s)
    ensures s.low[s.Last().node] <= s.At(s.Last().node)
    ensures x in s.stack && s.At(x) == s.low[s.Last().node] && Reach(adj, s.Last().node, x)
  {
    hide Reach;
    assert ReachesAt(adj, s, s.Last().node, s.low[s.Last().node]);
    x :| x in s.stack && s.At(x) == s.low[s.Last().node] && Reach(adj, s.Last().node, x);
  }

  lemma BackFrom(adj: Adjacency, s: State, x: nat)
    requires StackLeadsBack(adj, s) && x in s.stack
    ensures LeadsBack(adj, s, x)
  {
    hide LeadsBack;
  }

  lemma LeaveBack(adj: Adjacency, s: State)
    requires CanLeave(adj, s) && s.low[s.Last().node] != s.At(s.Last().node)
    ensures StackLeadsBack(adj, Left(s))
  {
    hide Left, StackInOrder, Discovered, FramesInOrder, ComponentsFound, HopsFollowed, FramesReach, StackLeadsBack,
         LowReached, LowBounds, Reach;
    var j := ReachesEarlierFrame(adj, s);
    LeftParts(s);
    OnlyFrameOf(adj, s, j);
    BackWithoutLast(adj, s, Left(s), j);
  }

  lemma BackWithoutLast(adj: Adjacency, s: State, t: State, j: nat)
    requires StackLeadsBack(adj, s) && t.discovery == s.discovery && t.stack == s.stack
    requires |t.frames| == |s.frames| - 1 && forall i :: 0 <= i < |t.frames| ==> t.frames[i] == s.frames[i]
    requires j < |t.frames| && Reach(adj, s.Last().node, s.frames[j].node)
    requires s.At(s.frames[j].node) < s.At(s.Last().node)
    ensures StackLeadsBack(adj, t)
  {
    hide Reach;
    forall u | u in t.stack ensures LeadsBack(adj, t, u) {
      assert LeadsBack(adj, s, u);
      var i :| 0 <= i < |s.frames| && s.At(s.frames[i].node) <= s.At(u) && Reach(adj, u, s.frames[i].node);
      if i < |t.frames| {
        assert t.frames[i] == s.frames[i];
      } else {
        ReachFurther(adj, u, s.Last().node, s.frames[j].node);
        assert t.frames[j] == s.frames[j];
      }
    }
  }

  lemma LeaveLow(adj: Adjacency, s: State)
    requires CanLeave(adj, s)
    ensures LowReached(adj, Left(s))
  {
    hide HopsFollowed, LowBounds, ComponentsFound, StackLeadsBack, Reach;
    LeftParts(s);
    var t, n := Left(s), |s.frames| - 1;
    hide Left;
    forall i | 0 <= i < |t.frames|
      ensures t.low[t.frames[i].node] <= t.At(t.frames[i].node)
      ensures ReachesAt(adj, t, t.frames[i].node, t.low[t.frames[i].node])
    {
      var u := s.frames[i].node;
      assert ReachesAt(adj, s, u, s.low[u]);
      if t.low[u] == s.low[u] {
        var x :| x in s.stack && s.At(x) == s.low[u] && Reach(adj, u, x);
        assert x in t.stack && t.At(x) == t.low[u];
      } else {
        var node := s.Last().node;
        assert ReachesAt(adj, s, node, s.low[node]);
        var x :| x in s.stack && s.At(x) == s.low[node] && Reach(adj, node, x);
        OnlyFrameOf(adj, s, i);
        assert node in s.stack;
        ReachFurther(adj, u, node, x);
        assert x in t.stack && t.At(x) == t.low[u];
      }
    }
  }

  lemma LeaveBounds(adj: Adjacency, s: State)
    requires CanLeave(adj, s)
    ensures LowBounds(adj, Left(s))
  {
    hide FramesReach, StackLeadsBack, ComponentsFound, HopsFollowed, LowReached, LowBounds, StackInOrder, Discovered;
    var t := Left(s);
    hide Left, State.Followed;
    forall i: nat, u: nat, k: nat |
      Owns(t, i, u) && IsHop(adj, u, k) && t.Followed(u, k) && To(adj, u, k) in t.stack && t.frames[i].node < |t.low|
      ensures t.low[t.frames[i].node] <= t.At(To(adj, u, k))
    {
      LeftFollows(adj, s, u, k);
      LeftOwns(adj, s, i, u, k);
    }
    LowBoundsIf(adj, t);
  }

  /** What a frame owns after the last one has been left, it or the last one owned before. */
  lemma LeftOwns(adj: Adjacency, s: State, i: nat, u: nat, k: nat)
    requires s.frames != [] && (forall j :: 0 <= j < |s.frames| ==> s.frames[j].node < |s.low|)
    requires FramesInOrder(adj, s) && LowBounds(adj, s) && Owns(Left(s), i, u) && IsHop(adj, u, k) && s.Followed(u, k)
    requires To(adj, u, k) in s.stack
    ensures Left(s).low[s.frames[i].node] <= s.At(To(adj, u, k))
  {
    LeftParts(s);
    var n := |s.frames| - 1;
    hide Left, State.Followed;
    if i < n - 1 {
      OnlyFrameBetween(adj, s, i, n - 1);
      assert Owns(s, i, u);
    } else if s.At(u) < s.At(s.Last().node) {
      assert Owns(s, n - 1, u);
    } else {
      assert Owns(s, n, u);
    }
  }

  lemma OnlyFrameBetween(adj: Adjacency, s: State, i: nat, j: nat)
    requires FramesInOrder(adj, s) && i < j < |s.frames|
    ensures s.frames[i].node != s.frames[j].node
  {
  }

  lemma LeaveKeeps(adj: Adjacency, s: State)
    requires CanLeave(adj, s) && s.low[s.Last().node] != s.At(s.Last().node)
    ensures Kept(adj, Left(s))
  {
    hide StackInOrder, Discovered, FramesInOrder, ComponentsFound, HopsFollowed, FramesReach, StackLeadsBack,
         LowReached, LowBounds;
    LeftParts(s);
    LeaveOrder(adj, s);
    SameReach(adj, s, Left(s));
    LeaveHops(adj, s);
    LeaveBack(adj, s);
    LeaveLow(adj, s);
    LeaveBounds(adj, s);
  }

  // ----- Leaving the root of a component -----

  ghost function Taken(s: State, k: nat, c: seq<nat>, onStack: seq<bool>): State
    requires s.frames != [] && k <= |s.stack| && forall i :: 0 <= i < |s.frames| ==> s.frames[i].node < |s.low|
  {
    Left(s).(stack := s.stack[..k], onStack := onStack, components := s.components + [c])
  }

  /** The stack from the last frame's node on, in order of the nodes. */
  ghost predicate CanTake(adj: Adjacency, s: State, k: nat, c: seq<nat>, onStack: seq<bool>) {
    && CanLeave(adj, s) && s.low[s.Last().node] == s.At(s.Last().node)
    && k < |s.stack| && s.stack[k] == s.Last().node
    && |onStack| == |s.onStack| && (forall v :: 0 <= v < |onStack| ==> (onStack[v] <==> v in s.stack[..k]))
    && (forall i, j :: 0 <= i < j < |c| ==> c[i] < c[j])
    && (forall v :: v in c <==> v in s.stack[k..])
  }

  lemma StackSplit(s: State, k: nat)
    requires StackInOrder(s) && k < |s.stack|
    ensures forall v :: v in s.stack[..k] <==> v in s.stack && s.At(v) < s.At(s.stack[k])
    ensures forall v :: v in s.stack[k..] <==> v in s.stack && s.At(s.stack[k]) <= s.At(v)
  {
    forall v ensures v in s.stack[..k] <==> v in s.stack && s.At(v) < s.At(s.stack[k]) {
      if v in s.stack {
        var i :| 0 <= i < |s.stack| && s.stack[i] == v;
        if i < k {
          assert s.stack[..k][i] == v;
        }
      }
    }
    forall v ensures v in s.stack[k..] <==> v in s.stack && s.At(s.stack[k]) <= s.At(v) {
      if v in s.stack {
        var i :| 0 <= i < |s.stack| && s.stack[i] == v;
        if i >= k {
          assert s.stack[k..][i - k] == v;
        }
      }
    }
  }

  /** Everything the last frame's node and the stack after it lead to is there or
      finished. */
  lemma TopFollowed(adj: Adjacency, s: State, u: nat, k: nat)
    requires CanLeave(adj, s) && s.low[s.Last().node] == s.At(s.Last().node)
    requires u in s.stack && s.At(s.Last().node) <= s.At(u) && IsHop(adj, u, k)
    ensures s.Finished(To(adj, u, k)) || (To(adj, u, k) in s.stack && s.At(s.Last().node) <= s.At(To(adj, u, k)))
  {
    hide ComponentsFound, FramesReach, StackLeadsBack, LowReached;
    var n := |s.frames| - 1;
    forall i | 0 <= i < n ensures s.At(s.frames[i].node) < s.At(s.Last().node) {
      OnlyFrameOf(adj, s, i);
    }
    assert forall i :: 0 <= i < |s.frames| && s.frames[i].node == u ==> i == n;
    assert s.Followed(u, k);
    assert Owns(s, n, u);
  }

  ghost function FinishedSet(s: State): set<nat> {
    set v: nat | v < |s.discovery| && s.Finished(v)
  }

  ghost function TopSet(s: State): set<nat>
    requires s.frames != []
  {
    set v: nat | v < |s.discovery| && v in s.stack && s.At(s.Last().node) <= s.At(v)
  }

  lemma SetsClosed(adj: Adjacency, s: State)
    requires CanLeave(adj, s) && s.low[s.Last().node] == s.At(s.Last().node)
    ensures Closed(adj, FinishedSet(s)) && Closed(adj, FinishedSet(s) + TopSet(s))
  {
    hide ComponentsFound, FramesReach, StackLeadsBack, LowReached, LowBounds;
    forall u: nat, k: nat | u in FinishedSet(s) && IsHop(adj, u, k) ensures To(adj, u, k) in FinishedSet(s) {
      assert s.Finished(To(adj, u, k));
    }
    forall u: nat, k: nat | u in TopSet(s) && IsHop(adj, u, k) ensures To(adj, u, k) in FinishedSet(s) + TopSet(s) {
      TopFollowed(adj, s, u, k);
    }
  }

  /** From the last frame's node on, the stack is one component. */
  lemma TopIsMutual(adj: Adjacency, s: State, u: nat)
    requires CanLeave(adj, s) && s.low[s.Last().node] == s.At(s.Last().node) && u in TopSet(s)
    ensures Mutual(adj, s.Last().node, u)
  {
    hide ComponentsFound, HopsFollowed, LowReached, LowBounds, Reach, Closed;
    assert Reach(adj, s.Last().node, u);
    assert LeadsBack(adj, s, u);
    var i :| 0 <= i < |s.frames| && s.At(s.frames[i].node) <= s.At(u) && Reach(adj, u, s.frames[i].node);
    hide FramesReach, StackLeadsBack;
    LeadsToLast(adj, s, u, i);
  }

  lemma LeadsToLast(adj: Adjacency, s: State, u: nat, i: nat)
    requires CanLeave(adj, s) && s.low[s.Last().node] == s.At(s.Last().node) && u in TopSet(s)
    requires i < |s.frames| && Reach(adj, u, s.frames[i].node)
    ensures s.frames[i].node == s.Last().node
  {
    hide ComponentsFound, HopsFollowed, LowReached, LowBounds, FramesReach, StackLeadsBack, Reach, Closed;
    SetsClosed(adj, s);
    ClosedUnderReach(adj, FinishedSet(s) + TopSet(s), u, s.frames[i].node);
    assert s.frames[i].node in s.stack;
    FramesUpToLast(adj, s, i);
    assert s.frames[i].node in TopSet(s);
  }

  lemma TopIsAll(adj: Adjacency, s: State, u: nat, v: nat)
    requires CanLeave(adj, s) && s.low[s.Last().node] == s.At(s.Last().node) && u in TopSet(s) && Mutual(adj, u, v)
    ensures v in TopSet(s)
  {
    hide Reach, Closed, Kept;
    SetsClosed(adj, s);
    ClosedUnderReach(adj, FinishedSet(s) + TopSet(s), u, v);
    if v in FinishedSet(s) {
      ClosedUnderReach(adj, FinishedSet(s), v, u);
    }
  }

  lemma TakenIsComponent(adj: Adjacency, s: State, k: nat, c: seq<nat>, onStack: seq<bool>)
    requires CanTake(adj, s, k, c, onStack)
    ensures IsComponent(adj, c)
  {
    hide ComponentsFound, HopsFollowed, LowReached, LowBounds, Mutual, FramesReach, StackLeadsBack;
    StackSplit(s, k);
    assert forall v :: v in c <==> v in TopSet(s);
    assert s.stack[k] in s.stack[k..];
    forall u, v | u in c ensures v in c <==> Mutual(adj, u, v) {
      if v in c {
        TopIsMutual(adj, s, u);
        TopIsMutual(adj, s, v);
        MutualThrough(adj, s.Last().node, u, v);
      } else if Mutual(adj, u, v) {
        TopIsAll(adj, s, u, v);
      }
    }
  }

  lemma MutualThrough(adj: Adjacency, w: nat, u: nat, v: nat)
    requires Mutual(adj, w, u) && Mutual(adj, w, v)
    ensures Mutual(adj, u, v)
  {
    ReachFurther(adj, u, w, v);
    ReachFurther(adj, v, w, u);
  }

  /** `t` is `s` without its last frame and the component `c`, which was the rest of its
      stack from that frame's node on. */
  ghost predicate Without(adj: Adjacency, s: State, t: State, c: seq<nat>) {
    && s.frames != []
    && t.discovery == s.discovery && t.counter == s.counter && t.low == s.low && t.components == s.components + [c]
    && |t.frames| == |s.frames| - 1 && (forall i :: 0 <= i < |t.frames| ==> t.frames[i] == s.frames[i])
    && (forall v :: v in t.stack <==> v in s.stack && s.At(v) < s.At(s.Last().node))
    && (forall v :: v in c <==> v in s.stack && s.At(s.Last().node) <= s.At(v))
    && (forall i :: 0 <= i < |t.frames| ==> s.At(s.frames[i].node) < s.At(s.Last().node))
    && (forall v: nat, k: nat :: IsHop(adj, v, k) && t.Followed(v, k) ==> s.Followed(v, k))
  }

  lemma LowKept(adj: Adjacency, s: State)
    requires CanLeave(adj, s) && s.low[s.Last().node] == s.At(s.Last().node)
    ensures Left(s).low == s.low
  {
    hide ComponentsFound, HopsFollowed, LowBounds, FramesReach, StackLeadsBack, ReachesAt;
    if |s.frames| > 1 {
      OnlyFrameOf(adj, s, |s.frames| - 2);
    }
  }

  lemma TakenIsWithout(adj: Adjacency, s: State, k: nat, c: seq<nat>, onStack: seq<bool>)
    requires CanTake(adj, s, k, c, onStack)
    ensures Without(adj, s, Taken(s, k, c, onStack), c)
  {
    hide ComponentsFound, HopsFollowed, LowBounds, FramesReach, StackLeadsBack, LowReached;
    StackSplit(s, k);
    LeftParts(s);
    LowKept(adj, s);
    var t := Taken(s, k, c, onStack);
    forall u: nat, j: nat | IsHop(adj, u, j) && t.Followed(u, j) ensures s.Followed(u, j) {
      assert Left(s).Followed(u, j);
      LeftFollows(adj, s, u, j);
    }
    forall i | 0 <= i < |t.frames| ensures s.At(s.frames[i].node) < s.At(s.Last().node) {
      OnlyFrameOf(adj, s, i);
    }
  }

  lemma StackTaken(s: State, t: State, k: nat)
    requires StackInOrder(s) && k <= |s.stack| && t.discovery == s.discovery && t.stack == s.stack[..k]
    requires forall v :: 0 <= v < |t.onStack| ==> (t.onStack[v] <==> v in t.stack)
    ensures StackInOrder(t)
  {
    assert forall u :: t.At(u) == s.At(u) && t.Seen(u) == s.Seen(u);
  }

  lemma FramesTaken(adj: Adjacency, s: State, t: State, c: seq<nat>)
    requires Without(adj, s, t, c) && FramesInOrder(adj, s) && Discovered(s)
    ensures FramesInOrder(adj, t) && Discovered(t)
  {
    hide State.Followed;
    assert forall u :: t.At(u) == s.At(u) && t.Seen(u) == s.Seen(u);
  }

  lemma FinishedWithout(adj: Adjacency, s: State, t: State, c: seq<nat>)
    requires Without(adj, s, t, c) && StackInOrder(s)
    ensures forall v :: t.Finished(v) <==> s.Finished(v) || v in c
  {
  }

  lemma TakeComponents(adj: Adjacency, s: State, t: State, c: seq<nat>)
    requires Without(adj, s, t, c) && StackInOrder(s) && ComponentsFound(adj, s) && IsComponent(adj, c)
    ensures ComponentsFound(adj, t)
  {
    FinishedWithout(adj, s, t, c);
    forall v: nat | t.Finished(v) ensures InSome(t.components, v) {
      if v in c {
        assert t.components[|s.components|] == c;
      } else {
        assert InSome(s.components, v);
        var i :| 0 <= i < |s.components| && v in s.components[i];
        assert t.components[i] == s.components[i];
      }
    }
    hide IsComponent;
    forall i, v | 0 <= i < |t.components| && v in t.components[i] ensures t.Finished(v) {
      assert i < |s.components| ==> t.components[i] == s.components[i];
    }
    forall i, j | 0 <= i < j < |t.components| ensures forall v :: v in t.components[i] ==> v !in t.components[j] {
      assert t.components[i] == s.components[i];
      assert forall v :: v in t.components[i] ==> s.Finished(v);
    }
  }

  lemma TakeHops(adj: Adjacency, s: State, t: State, c: seq<nat>)
    requires CanLeave(adj, s) && s.low[s.Last().node] == s.At(s.Last().node) && Without(adj, s, t, c)
    ensures HopsFollowed(adj, t)
  {
    hide LowBounds, FramesReach, StackLeadsBack, LowReached, ComponentsFound;
    FinishedWithout(adj, s, t, c);
    forall u: nat, j: nat | IsHop(adj, u, j) && t.Finished(u) ensures t.Finished(To(adj, u, j)) {
      if u in c {
        TopFollowed(adj, s, u, j);
      }
    }
  }

  lemma TakeReach(adj: Adjacency, s: State, t: State, c: seq<nat>)
    requires Without(adj, s, t, c) && FramesReach(adj, s) && StackLeadsBack(adj, s)
    ensures FramesReach(adj, t) && StackLeadsBack(adj, t)
  {
    assert forall v :: t.At(v) == s.At(v);
    forall u | u in t.stack ensures LeadsBack(adj, t, u) {
      assert LeadsBack(adj, s, u);
      var i :| 0 <= i < |s.frames| && s.At(s.frames[i].node) <= s.At(u) && Reach(adj, u, s.frames[i].node);
      assert t.frames[i].node == s.frames[i].node;
    }
  }

  lemma TakeLow(adj: Adjacency, s: State, t: State, c: seq<nat>)
    requires Without(adj, s, t, c) && LowReached(adj, s)
    ensures LowReached(adj, t)
  {
    assert forall v :: t.At(v) == s.At(v);
    forall i | 0 <= i < |t.frames| && t.frames[i].node < |t.low|
      ensures t.low[t.frames[i].node] <= t.At(t.frames[i].node)
      ensures ReachesAt(adj, t, t.frames[i].node, t.low[t.frames[i].node])
    {
      var u := s.frames[i].node;
      assert ReachesAt(adj, s, u, s.low[u]);
      var x :| x in s.stack && s.At(x) == s.low[u] && Reach(adj, u, x);
      assert x in t.stack && t.At(x) == t.low[u];
    }
  }

  lemma TakeBounds(adj: Adjacency, s: State, t: State, c: seq<nat>)
    requires Without(adj, s, t, c) && LowBounds(adj, s)
    ensures LowBounds(adj, t)
  {
    hide State.Followed;
    assert forall v :: t.At(v) == s.At(v);
    forall i: nat, u: nat, j: nat |
      Owns(t, i, u) && IsHop(adj, u, j) && t.Followed(u, j) && To(adj, u, j) in t.stack && t.frames[i].node < |t.low|
      ensures t.low[t.frames[i].node] <= t.At(To(adj, u, j))
    {
      assert Owns(s, i, u) && s.Followed(u, j);
    }
  }

  lemma TakeKeeps(adj: Adjacency, s: State, k: nat, c: seq<nat>, onStack: seq<bool>)
    requires CanTake(adj, s, k, c, onStack)
    ensures Kept(adj, Taken(s, k, c, onStack))
  {
    hide StackInOrder, Discovered, FramesInOrder, ComponentsFound, HopsFollowed, FramesReach, StackLeadsBack,
         LowReached, LowBounds,
         IsComponent;
    var t := Taken(s, k, c, onStack);
    TakenIsWithout(adj, s, k, c, onStack);
    TakenIsComponent(adj, s, k, c, onStack);
    StackTaken(s, t, k);
    FramesTaken(adj, s, t, c);
    TakeComponents(adj, s, t, c);
    TakeHops(adj, s, t, c);
    TakeReach(adj, s, t, c);
    TakeLow(adj, s, t, c);
    TakeBounds(adj, s, t, c);
  }

  // ----- The search -----

  function NodeRow(v: nat): Row {
    [[v]]
  }

  predicate Ascending(c: seq<nat>) {
    forall i, j :: 0 <= i < j < |c| ==> c[i] < c[j]
  }

  /** Different nodes in order. */
  lemma NodesSorted(c: seq<nat>)
    requires Differ(c)
    ensures Ascending(Sort(NodeRow, c)) && forall v :: v in Sort(NodeRow, c) <==> v in c
  {
    hide Sort, Less, NodeRow;
    var sorted := Sort(NodeRow, c);
    SortFacts(NodeRow, c);
    SortedDiffer(NodeRow, c);
    forall i, j | 0 <= i < j < |sorted| ensures sorted[i] < sorted[j] {
      RowsOfNodes(sorted[i], sorted[j]);
    }
  }

  lemma RowsOfNodes(u: nat, v: nat)
    ensures AtMost(NodeRow(u), NodeRow(v)) ==> u <= v
  {
  }

  /** Takes the stack down to `node`: its members, in order of the nodes, are the
      component. */
  method TakeComponent(stack: seq<nat>, onStack: seq<bool>, node: nat, ghost k: nat)
    returns (rest: seq<nat>, flags: seq<bool>, component: seq<nat>)
    requires k < |stack| && stack[k] == node && Differ(stack)
    requires forall v :: v in stack ==> v < |onStack|
    requires forall v :: 0 <= v < |onStack| ==> (onStack[v] <==> v in stack)
    ensures rest == stack[..k]
    ensures |flags| == |onStack| && forall v :: 0 <= v < |flags| ==> (flags[v] <==> v in rest)
    ensures Ascending(component) && forall v :: v in component <==> v in stack[k..]
  {
    rest, flags, component := stack, onStack, [];
    while rest != []
      invariant k < |rest| <= |stack| && rest == stack[..|rest|]
      invariant |flags| == |onStack| && forall v :: 0 <= v < |flags| ==> (flags[v] <==> v in rest)
      invariant Differ(component) && forall v :: v in component <==> v in stack[|rest|..]
    {
      var n := |rest| - 1;
      var member := rest[n];
      assert rest == rest[..n] + [member] && stack[n..] == [member] + stack[n + 1..];
      assert member !in stack[n + 1..] && member !in rest[..n];
      assert member in stack;
      rest := rest[..n];
      flags := flags[member := false];
      component := component + [member];
      if member == node {
        assert n == k;
        break;
      }
    }
    NodesSorted(component);
    component := Sort(NodeRow, component);
  }

  ghost function Undiscovered(discovery: seq<Option<nat>>): set<nat> {
    set v: nat | v < |discovery| && discovery[v].None?
  }

  lemma FewerUndiscovered(discovery: seq<Option<nat>>, v: nat, at: nat)
    requires v < |discovery| && discovery[v].None?
    ensures Undiscovered(discovery[v := Some(at)]) < Undiscovered(discovery)
  {
    assert v in Undiscovered(discovery);
  }

  /** The hops still to follow, and the frames still to leave. */
  ghost function Work(adj: Adjacency, frames: seq<Frame>): nat {
    if frames == [] then 0
    else
      var last := frames[|frames| - 1];
      Work(adj, frames[..|frames| - 1]) + 1
      + if last.node < |adj| && last.next < |adj[last.node]| then |adj[last.node]| - last.next else 0
  }

  lemma NothingKept(adj: Adjacency, s: State)
    requires s.Sized(|adj|) && s.stack == [] && s.frames == [] && s.components == []
    requires forall v :: 0 <= v < |adj| ==> s.discovery[v].None? && !s.onStack[v]
    ensures Kept(adj, s)
  {
  }

  /** When every node is found and no frame is left, the components partition the nodes. */
  lemma AllFound(adj: Adjacency, s: State)
    requires Kept(adj, s) && s.frames == [] && forall v :: 0 <= v < |adj| ==> s.Seen(v)
    ensures Partition(adj, s.components)
  {
    hide IsComponent, Mutual;
    var first := if s.stack == [] then 0 else s.stack[0];
    assert first in s.stack ==> LeadsBack(adj, s, first);
    assert s.stack == [];
    forall u: nat | u < |adj| ensures InSome(s.components, u) {
      assert s.Finished(u);
    }
  }

  method FindComponents(adj: Adjacency) returns (components: seq<seq<nat>>)
    requires ValidAdjacency(adj)
    ensures Partition(adj, components)
  {
    hide Kept, Partition, Work, Undiscovered;
    var discovery: seq<Option<nat>> := seq(|adj|, _ => None);
    var low: seq<nat> := seq(|adj|, _ => 0);
    var onStack: seq<bool> := seq(|adj|, _ => false);
    var stack: seq<nat> := [];
    var frames: seq<Frame> := [];
    components := [];
    var counter := 0;
    NothingKept(adj, State(discovery, low, onStack, stack, frames, components, counter));
    for root := 0 to |adj|
      invariant |discovery| == |low| == |onStack| == |adj|
      invariant Kept(adj, State(discovery, low, onStack, stack, frames, components, counter)) && frames == []
      invariant forall v :: 0 <= v < root ==> discovery[v].Some?
    {
      if discovery[root].Some? {
        continue;
      }
      ghost var s := State(discovery, low, onStack, stack, frames, components, counter);
      EnterKeeps(adj, s, root);
      frames := frames + [Frame(root, 0)];
      discovery := discovery[root := Some(counter)];
      low := low[root := counter];
      counter := counter + 1;
      stack := stack + [root];
      onStack := onStack[root := true];
      while frames != []
        invariant |discovery| == |low| == |onStack| == |adj|
        invariant Kept(adj, State(discovery, low, onStack, stack, frames, components, counter))
        invariant forall v :: 0 <= v <= root ==> discovery[v].Some?
        decreases Undiscovered(discovery), Work(adj, frames)
      {
        s := State(discovery, low, onStack, stack, frames, components, counter);
        FramesFit(adj, s);
        var last := frames[|frames| - 1];
        var node := last.node;
        if last.next < |adj[node]| {
          var target := adj[node][last.next].target;
          assert IsHop(adj, node, last.next) && To(adj, node, last.next) == target;
          frames := frames[|frames| - 1 := Frame(node, last.next + 1)];
          if discovery[target].None? {
            EnterKeeps(adj, s, target);
            FewerUndiscovered(discovery, target, counter);
            discovery := discovery[target := Some(counter)];
            low := low[target := counter];
            counter := counter + 1;
            stack := stack + [target];
            onStack := onStack[target := true];
            frames := frames + [Frame(target, 0)];
          } else {
            LookKeeps(adj, s, target);
            LessWork(adj, s.frames, frames);
            if onStack[target] {
              low := low[node := Min(low[node], discovery[target].value)];
            }
          }
          continue;
        }
        frames := frames[..|frames| - 1];
        if frames != [] {
          var parent := frames[|frames| - 1].node;
          low := low[parent := Min(low[parent], low[node])];
        }
        LessWorkLeft(adj, s.frames);
        LastFrameDiffers(adj, s);
        LastLow(s);
        if low[node] == discovery[node].value {
          ghost var k :| 0 <= k < |stack| && stack[k] == node;
          StackFits(adj, s);
          var component;
          stack, onStack, component := TakeComponent(stack, onStack, node, k);
          components := components + [component];
          TakeKeeps(adj, s, k, component, onStack);
        } else {
          LeaveKeeps(adj, s);
        }
      }
    }
    AllFound(adj, State(discovery, low, onStack, stack, frames, components, counter));
  }

  lemma FramesFit(adj: Adjacency, s: State)
    requires Kept(adj, s)
    ensures s.Sized(|adj|)
    ensures forall i :: 0 <= i < |s.frames| ==>
              s.frames[i].node < |adj| && s.frames[i].node in s.stack && s.Seen(s.frames[i].node)
  {
  }

  lemma StackFits(adj: Adjacency, s: State)
    requires Kept(adj, s)
    ensures Differ(s.stack) && (forall v :: v in s.stack ==> v < |s.onStack|)
    ensures forall v :: 0 <= v < |s.onStack| ==> (s.onStack[v] <==> v in s.stack)
  {
    hide ComponentsFound, HopsFollowed, FramesReach, StackLeadsBack, LowReached, LowBounds;
    forall v | v in s.stack ensures v < |s.onStack| {
      assert s.Seen(v);
    }
  }

  /** Leaving a node does not change its own low link. */
  lemma LastLow(s: State)
    requires s.frames != [] && forall i :: 0 <= i < |s.frames| ==> s.frames[i].node < |s.low|
    requires |s.frames| > 1 ==> s.frames[|s.frames| - 2].node != s.Last().node
    ensures Left(s).low[s.Last().node] == s.low[s.Last().node]
  {
  }

  lemma LastFrameDiffers(adj: Adjacency, s: State)
    requires Kept(adj, s) && s.frames != []
    ensures |s.frames| > 1 ==> s.frames[|s.frames| - 2].node != s.Last().node
  {
    if |s.frames| > 1 {
      OnlyFrameOf(adj, s, |s.frames| - 2);
    }
  }

  lemma LessWork(adj: Adjacency, before: seq<Frame>, after: seq<Frame>)
    requires before != [] && |after| == |before|
    requires var n, last := |before| - 1, before[|before| - 1];
             after == before[n := Frame(last.node, last.next + 1)] && last.node < |adj| && last.next < |adj[last.node]|
    ensures Work(adj, after) < Work(adj, before)
  {
    assert after[..|after| - 1] == before[..|before| - 1];
  }

  lemma LessWorkLeft(adj: Adjacency, frames: seq<Frame>)
    requires frames != []
    ensures Work(adj, frames[..|frames| - 1]) < Work(adj, frames)
  {
  }
}
