/** When exactly the replay attributes every call to the contract that made it, for any
    call forest: decodable or not. */
module Attribution {
  import opened Basics
  import opened InvocationSpec
  import opened CallForest

  /** Some call of the forest names its callee. */
  predicate AnyEntered(f: Forest) {
    match f
    case Done => false
    case Aside(rest) => AnyEntered(rest)
    case Call(enter, body, rest) => enter.Enter? || AnyEntered(body) || AnyEntered(rest)
  }

  /** Nothing decodable is called by an undecodable call; and once an undecodable call has
      returned inside a decodable one, nothing decodable follows in that one. `inside` says
      whether the forest is called by a decodable call rather than at the root. */
  predicate Faithful(f: Forest, inside: bool) {
    match f
    case Done => true
    case Aside(rest) => Faithful(rest, inside)
    case Call(enter, body, rest) =>
      if enter.Enter? then
        Faithful(body, true) && if inside && body.Undecodable() > 0 then !AnyEntered(rest) else Faithful(rest, inside)
      else
        !AnyEntered(body) && if inside then !AnyEntered(rest) else Faithful(rest, false)
  }

  /** The replay's caller of the call marked at `i` is the one that made it. */
  ghost predicate RightAt(ms: seq<Marker>, calls: seq<(nat, Option<nat>)>, i: nat)
    requires i < |ms|
  {
    ms[i].Enter? ==> (i, Innermost(Open(ms, 0, i))) in calls
  }

  ghost predicate AllRight(ms: seq<Marker>, at: nat, until: nat, calls: seq<(nat, Option<nat>)>)
    requires until <= |ms|
  {
    forall i :: at <= i < until ==> RightAt(ms, calls, i)
  }

  // ----- A forest's calls lie where it stands -----

  lemma {:induction false} PreorderPlaces(f: Forest, at: nat, parent: Option<nat>)
    requires f.Valid()
    ensures forall c :: c in f.Preorder(at, parent) ==> at <= c.0 < at + |f.Trace()|
    decreases f
  {
    hide Forest.Trace, Forest.Preorder;
    ForestParts(f, at, parent);
    TraceLength(f);
    match f
    case Done =>
    case Aside(rest) =>
      PreorderPlaces(rest, at + 1, parent);
    case Call(_, body, rest) =>
      PreorderPlaces(body, at + 1, Some(at));
      PreorderPlaces(rest, at + 2 + |body.Trace()|, parent);
  }

  /** Which calls of a call and what follows it are the call, its body's and the rest's. */
  lemma CallPlaces(f: Forest, at: nat, parent: Option<nat>, c: (nat, Option<nat>))
    requires f.Valid() && f.Call?
    ensures var close := at + 1 + |f.body.Trace()|;
            && (c.0 == at ==> (c in f.Preorder(at, parent) <==> c.1 == parent))
            && (at < c.0 < close ==> (c in f.Preorder(at, parent) <==> c in f.body.Preorder(at + 1, Some(at))))
            && (close < c.0 ==> (c in f.Preorder(at, parent) <==> c in f.rest.Preorder(close + 1, parent)))
  {
    hide Forest.Trace, Forest.Preorder;
    ForestParts(f, at, parent);
    PreorderPlaces(f.body, at + 1, Some(at));
    PreorderPlaces(f.rest, at + 2 + |f.body.Trace()|, parent);
  }

  lemma CallRight(ms: seq<Marker>, at: nat, f: Forest, parent: Option<nat>)
    requires f.Valid() && f.Call? && Stands(ms, at, f.Trace())
    ensures var close := at + 1 + |f.body.Trace()|;
            && close + 1 + |f.rest.Trace()| == at + |f.Trace()| <= |ms|
            && (AllRight(ms, at, at + |f.Trace()|, f.Preorder(at, parent))
                <==> && (f.enter.Enter? ==> Innermost(Open(ms, 0, at)) == parent)
                     && AllRight(ms, at + 1, close, f.body.Preorder(at + 1, Some(at)))
                     && AllRight(ms, close + 1, at + |f.Trace()|, f.rest.Preorder(close + 1, parent)))
  {
    hide Open, Nested, Stands, Innermost, Forest.Trace, Forest.Preorder, Forest.Valid;
    StandsFits(ms, at, f.Trace());
    TraceLength(f);
    CallParts(ms, at, f);
    var until, close := at + |f.Trace()|, at + 1 + |f.body.Trace()|;
    var all, own, later := f.Preorder(at, parent), f.body.Preorder(at + 1, Some(at)),
                           f.rest.Preorder(close + 1, parent);
    forall i | at <= i < until
      ensures i == at ==> (RightAt(ms, all, i) <==> (f.enter.Enter? ==> Innermost(Open(ms, 0, at)) == parent))
      ensures at < i < close ==> (RightAt(ms, all, i) <==> RightAt(ms, own, i))
      ensures close < i ==> (RightAt(ms, all, i) <==> RightAt(ms, later, i))
      ensures i == close ==> RightAt(ms, all, i)
    {
      CallPlaces(f, at, parent, (i, Innermost(Open(ms, 0, i))));
    }
    assert AllRight(ms, at, until, all) ==> RightAt(ms, all, at);
  }

  lemma AsideRight(ms: seq<Marker>, at: nat, f: Forest, parent: Option<nat>)
    requires f.Valid() && f.Aside? && Stands(ms, at, f.Trace())
    ensures at + 1 + |f.rest.Trace()| == at + |f.Trace()| <= |ms|
    ensures AllRight(ms, at, at + |f.Trace()|, f.Preorder(at, parent))
            <==> AllRight(ms, at + 1, at + |f.Trace()|, f.rest.Preorder(at + 1, parent))
  {
    hide Open, Nested, Stands, Innermost, Forest.Trace, Forest.Preorder, Forest.Valid;
    StandsFits(ms, at, f.Trace());
    TraceLength(f);
    AsideParts(ms, at, f);
    ForestParts(f, at, parent);
    var until, all := at + |f.Trace()|, f.Preorder(at, parent);
    assert RightAt(ms, all, at);
  }

  // ----- A wrong stack is found out by the first call entered -----

  /** When the call that made a forest is not on the stack, the first call entered in it is
      attributed to another. */
  lemma {:induction false} FirstEnteredWrong(ms: seq<Marker>, at: nat, f: Forest, parent: nat)
    requires f.Valid() && Stands(ms, at, f.Trace()) && at + |f.Trace()| <= |ms|
    requires parent !in Open(ms, 0, at)
    ensures AllRight(ms, at, at + |f.Trace()|, f.Preorder(at, Some(parent))) <==> !AnyEntered(f)
    decreases f
  {
    hide Open, Nested, Linked, Calls, Stands, AllRight, Forest.Trace, Forest.Preorder, Forest.Valid, Forest.Undecodable;
    TraceLength(f);
    ForestParts(f, at, Some(parent));
    match f
    case Done =>
      NothingEntered(ms, at, f.Preorder(at, Some(parent)));
    case Aside(rest) =>
      AsideParts(ms, at, f);
      AsideRight(ms, at, f, Some(parent));
      OneStep(ms, 0, at);
      FirstEnteredWrong(ms, at + 1, rest, parent);
    case Call(enter, body, rest) =>
      CallParts(ms, at, f);
      CallRight(ms, at, f, Some(parent));
      if !enter.Enter? {
        var close := at + 1 + |body.Trace()|;
        SkippedNotOpen(ms, at);
        FirstEnteredWrong(ms, at + 1, body, at);
        StackAfterCall(ms, 0, at, enter, body);
        DroppedStaysOut(Open(ms, 0, at), 1 + body.Undecodable(), parent);
        FirstEnteredWrong(ms, close + 1, rest, parent);
      }
  }

  lemma NothingEntered(ms: seq<Marker>, at: nat, calls: seq<(nat, Option<nat>)>)
    requires at <= |ms|
    ensures AllRight(ms, at, at, calls)
  {
  }

  lemma SkippedNotOpen(ms: seq<Marker>, at: nat)
    requires at < |ms| && !ms[at].Enter?
    ensures at !in Open(ms, 0, at + 1)
  {
    hide Open;
    OpenBefore(ms, 0, at + 1);
  }

  lemma DroppedStaysOut(open: seq<nat>, n: nat, i: nat)
    requires i !in open
    ensures i !in DropInnermost(open, n)
  {
  }

  /** Losing calls from the inside loses the innermost one. */
  lemma InnermostDropped(ms: seq<Marker>, at: nat, n: nat)
    requires at <= |ms| && n > 0 && Open(ms, 0, at) != []
    ensures Innermost(Open(ms, 0, at)).value !in DropInnermost(Open(ms, 0, at), n)
  {
    hide Open, Nested;
    OpenIncreases(ms, 0, at);
  }

  lemma NothingToDrop(n: nat)
    ensures DropInnermost([], n) == []
  {
  }

  // ----- The exact condition -----

  /** Where the innermost open call is the one that made a forest, every call of the forest
      is attributed to the call that made it exactly when the forest is faithful. */
  lemma {:induction false} ForestRightIff(ms: seq<Marker>, at: nat, f: Forest, parent: Option<nat>)
    requires f.Valid() && Stands(ms, at, f.Trace()) && at + |f.Trace()| <= |ms|
    requires Innermost(Open(ms, 0, at)) == parent
    ensures AllRight(ms, at, at + |f.Trace()|, f.Preorder(at, parent)) <==> Faithful(f, parent.Some?)
    decreases f
  {
    hide Open, Nested, Linked, Calls, Stands, AllRight, DropInnermost, Forest.Trace, Forest.Preorder, Forest.Valid,
         Forest.Undecodable;
    TraceLength(f);
    ForestParts(f, at, parent);
    var open := Open(ms, 0, at);
    match f
    case Done =>
      NothingEntered(ms, at, f.Preorder(at, parent));
    case Aside(rest) =>
      AsideParts(ms, at, f);
      AsideRight(ms, at, f, parent);
      OneStep(ms, 0, at);
      ForestRightIff(ms, at + 1, rest, parent);
    case Call(enter, body, rest) =>
      var close := at + 1 + |body.Trace()|;
      CallParts(ms, at, f);
      CallRight(ms, at, f, parent);
      OneStep(ms, 0, at);
      if enter.Enter? {
        ForestRightIff(ms, at + 1, body, Some(at));
      } else {
        SkippedNotOpen(ms, at);
        FirstEnteredWrong(ms, at + 1, body, at);
      }
      StackAfterCall(ms, 0, at, enter, body);
      var lost := (if enter.Skipped? then 1 else 0) + body.Undecodable();
      if parent.Some? && lost > 0 {
        InnermostDropped(ms, at, lost);
        FirstEnteredWrong(ms, close + 1, rest, parent.value);
      } else {
        NothingToDrop(lost);
        DropNone(open);
        ForestRightIff(ms, close + 1, rest, parent);
      }
  }

  lemma {:induction false} CallsMembers(ms: seq<Marker>, until: nat, c: (nat, Option<nat>))
    requires until <= |ms|
    ensures c in Calls(ms, 0, until) <==> c.0 < until && ms[c.0].Enter? && c.1 == Innermost(Open(ms, 0, c.0))
    decreases until
  {
    hide Open, Calls, Innermost, Nested, Linked;
    if until == 0 {
      NothingYet(ms, 0);
    } else {
      CallsMembers(ms, until - 1, c);
      OneStep(ms, 0, until - 1);
    }
  }

  /** The replay of a whole trace attributes every call to the call that made it exactly
      when the forest is faithful; otherwise it links some call to one that did not make it,
      or to none. What the records name is in `CallerNames`. */
  lemma EveryCallerRightIff(f: Forest)
    requires f.Valid()
    ensures (forall c :: c in Calls(f.Trace(), 0, |f.Trace()|) ==> c in f.Preorder(0, None)) <==> Faithful(f, false)
  {
    hide Open, Calls, Nested, Linked, Forest.Trace, Forest.Preorder, Forest.Valid;
    var ms := f.Trace();
    var all := f.Preorder(0, None);
    assert ms[0..|ms|] == ms;
    NothingYet(ms, 0);
    ForestRightIff(ms, 0, f, None);
    forall c ensures c in Calls(ms, 0, |ms|) <==> c.0 < |ms| && ms[c.0].Enter? && c.1 == Innermost(Open(ms, 0, c.0)) {
      CallsMembers(ms, |ms|, c);
    }
    if forall c :: c in Calls(ms, 0, |ms|) ==> c in all {
      forall i | 0 <= i < |ms| ensures RightAt(ms, all, i) {
        var c := (i, Innermost(Open(ms, 0, i)));
        assert ms[i].Enter? ==> c in Calls(ms, 0, |ms|);
      }
    }
    if AllRight(ms, 0, |ms|, all) {
      forall c | c in Calls(ms, 0, |ms|) ensures c in all {
        assert RightAt(ms, all, c.0);
      }
    }
  }

  /** A call made by an undecodable one is recorded as made by the contract that called
      that. `UndecodableCallInventsAnEdge` shows the other way the condition fails. */
  lemma UndecodableCallerHidden(root: string, b: string)
    ensures var f := Call(Enter(root, None, true), Call(Skipped, Call(Enter(b, None, true), Done, Done), Done), Done);
            && f.Valid() && !Faithful(f, false)
            && (2, Some(1)) in f.Preorder(0, None)
            && (2, Some(0)) in Calls(f.Trace(), 0, |f.Trace()|)
            && (2, Some(0)) !in f.Preorder(0, None)
  {
    var inner := Call(Enter(b, None, true), Done, Done);
    var hidden := Call(Skipped, inner, Done);
    var f := Call(Enter(root, None, true), hidden, Done);
    assert inner.Valid() && AnyEntered(inner);
    assert hidden.Valid() && !Faithful(hidden, true);
    assert inner.Trace() == [Enter(b, None, true), Exit];
    assert hidden.Trace() == [Skipped, Enter(b, None, true), Exit, Exit];
    var ms := f.Trace();
    assert ms == [Enter(root, None, true), Skipped, Enter(b, None, true), Exit, Exit, Exit];
    assert inner.Preorder(2, Some(1)) == [(2, Some(1))];
    assert hidden.Preorder(1, Some(0)) == [(1, Some(0)), (2, Some(1))];
    assert f.Preorder(0, None) == [(0, None), (1, Some(0)), (2, Some(1))];
    assert f.Preorder(0, None)[2] == (2, Some(1));
    assert Open(ms, 0, 1) == [0];
    assert Open(ms, 0, 2) == [0];
    CallsMembers(ms, |ms|, (2, Some(0)));
  }
}
