/** The replay against the call tree it is meant to recover: whole traces, windows of
    traces, and what an undecodable call does to it. */
module CallForest {
  import opened Basics
  import opened InvocationSpec

  /** A forest of calls as the host runs it, with unrelated events anywhere between.
      A call is entered by a `fn_call` marker, decodable or not, and left by a
      `fn_return` or `fn_error` marker. */
  datatype Forest = Done | Aside(rest: Forest) | Call(enter: Marker, body: Forest, rest: Forest) {
    ghost predicate Valid() {
      match this
      case Done => true
      case Aside(rest) => rest.Valid()
      case Call(enter, body, rest) => (enter.Enter? || enter.Skipped?) && body.Valid() && rest.Valid()
    }

    /** The markers the host emits. */
    function Trace(): seq<Marker> {
      match this
      case Done => []
      case Aside(rest) => [Unrelated] + rest.Trace()
      case Call(enter, body, rest) => [enter] + (body.Trace() + ([Exit] + rest.Trace()))
    }

    /** How many calls have no decodable callee. */
    function Undecodable(): nat {
      match this
      case Done => 0
      case Aside(rest) => rest.Undecodable()
      case Call(enter, body, rest) =>
        (if enter.Skipped? then 1 else 0) + body.Undecodable() + rest.Undecodable()
    }

    /** Every call of the forest in the order the calls were entered, with the call that
        made it, when the forest's trace starts at position `at` inside `parent`. */
    function Preorder(at: nat, parent: Option<nat>): seq<(nat, Option<nat>)> {
      match this
      case Done => []
      case Aside(rest) => rest.Preorder(at + 1, parent)
      case Call(_, body, rest) =>
        [(at, parent)] + body.Preorder(at + 1, Some(at)) + rest.Preorder(at + 2 + |body.Trace()|, parent)
    }
  }

  /** `trace` stands in `ms` at `at`. */
  ghost predicate Stands(ms: seq<Marker>, at: nat, trace: seq<Marker>) {
    at + |trace| <= |ms| && ms[at..at + |trace|] == trace
  }

  lemma StandsFits(ms: seq<Marker>, at: nat, trace: seq<Marker>)
    requires Stands(ms, at, trace)
    ensures at + |trace| <= |ms|
  {
  }

  lemma StandsSplit(ms: seq<Marker>, at: nat, first: seq<Marker>, second: seq<Marker>)
    requires Stands(ms, at, first + second)
    ensures Stands(ms, at, first) && Stands(ms, at + |first|, second)
  {
    var whole := ms[at..at + |first + second|];
    assert ms[at..at + |first|] == whole[..|first|] == first;
    assert ms[at + |first|..at + |first| + |second|] == whole[|first|..] == second;
  }

  lemma StandsOne(ms: seq<Marker>, at: nat, m: Marker)
    requires Stands(ms, at, [m])
    ensures at < |ms| && ms[at] == m
  {
    assert ms[at] == ms[at..at + 1][0];
  }

  /** The innermost calls are left first; a stack shorter than `n` empties. */
  function DropInnermost(open: seq<nat>, n: nat): seq<nat> {
    if n >= |open| then [] else open[..|open| - n]
  }

  lemma CallTrace(f: Forest)
    requires f.Call?
    ensures f.Trace() == [f.enter] + (f.body.Trace() + ([Exit] + f.rest.Trace()))
  {
  }

  lemma AsideTrace(f: Forest)
    requires f.Aside?
    ensures f.Trace() == [Unrelated] + f.rest.Trace()
  {
  }

  lemma CallParts(ms: seq<Marker>, at: nat, f: Forest)
    requires f.Call? && Stands(ms, at, f.Trace())
    ensures at + 1 + |f.body.Trace()| < |ms|
    ensures ms[at] == f.enter && Stands(ms, at + 1, f.body.Trace())
    ensures var close := at + 1 + |f.body.Trace()|;
            ms[close] == Exit && Stands(ms, close + 1, f.rest.Trace())
  {
    hide Stands, Forest.Trace;
    CallTrace(f);
    StandsSplit(ms, at, [f.enter], f.body.Trace() + ([Exit] + f.rest.Trace()));
    StandsOne(ms, at, f.enter);
    StandsSplit(ms, at + 1, f.body.Trace(), [Exit] + f.rest.Trace());
    var close := at + 1 + |f.body.Trace()|;
    StandsSplit(ms, close, [Exit], f.rest.Trace());
    StandsOne(ms, close, Exit);
  }

  lemma AsideParts(ms: seq<Marker>, at: nat, f: Forest)
    requires f.Aside? && Stands(ms, at, f.Trace())
    ensures ms[at] == Unrelated && Stands(ms, at + 1, f.rest.Trace())
  {
    StandsSplit(ms, at, [Unrelated], f.rest.Trace());
    assert ms[at] == ms[at..at + 1][0];
  }

  lemma DropNone(open: seq<nat>)
    ensures DropInnermost(open, 0) == open
  {
  }

  lemma DropTwice(open: seq<nat>, m: nat, n: nat)
    ensures DropInnermost(DropInnermost(open, m), n) == DropInnermost(open, m + n)
  {
  }

  /** Entering, running a body that loses `n` calls, and leaving. */
  lemma CallEffect(open: seq<nat>, enter: Marker, at: nat, n: nat, close: nat)
    requires enter.Enter? || enter.Skipped?
    ensures Step(DropInnermost(Step(open, enter, at), n), Exit, close)
         == DropInnermost(open, (if enter.Skipped? then 1 else 0) + n)
  {
  }

  lemma TraceLength(f: Forest)
    ensures |f.Trace()| == match f
                           case Done => 0
                           case Aside(rest) => 1 + |rest.Trace()|
                           case Call(_, body, rest) => 2 + |body.Trace()| + |rest.Trace()|
  {
  }

  lemma ForestParts(f: Forest, at: nat, parent: Option<nat>)
    requires f.Valid()
    ensures match f
            case Done => f.Undecodable() == 0 && f.Preorder(at, parent) == []
            case Aside(rest) =>
              rest.Valid() && f.Undecodable() == rest.Undecodable()
                && f.Preorder(at, parent) == rest.Preorder(at + 1, parent)
            case Call(enter, body, rest) =>
              && (enter.Enter? || enter.Skipped?) && body.Valid() && rest.Valid()
              && f.Undecodable() == (if enter.Skipped? then 1 else 0) + body.Undecodable() + rest.Undecodable()
              && f.Preorder(at, parent)
                 == [(at, parent)] + body.Preorder(at + 1, Some(at)) + rest.Preorder(at + 2 + |body.Trace()|, parent)
  {
    hide Forest.Trace;
  }

  /** Running over a forest leaves the stack short by exactly the number of calls whose
      callee could not be decoded: each was left without having been entered. */
  lemma {:induction false} StackAfterForest(ms: seq<Marker>, from: nat, at: nat, f: Forest)
    requires f.Valid() && from <= at && Stands(ms, at, f.Trace())
    ensures Open(ms, from, at + |f.Trace()|) == DropInnermost(Open(ms, from, at), f.Undecodable())
    decreases f, 0
  {
    hide Nested, Linked, Open, DropInnermost, Stands, Forest.Trace;
    StandsFits(ms, at, f.Trace());
    TraceLength(f);
    var open := Open(ms, from, at);
    match f
    case Done =>
      DropNone(open);
    case Aside(rest) =>
      AsideParts(ms, at, f);
      OneStep(ms, from, at);
      StackAfterForest(ms, from, at + 1, rest);
    case Call(enter, body, rest) =>
      CallParts(ms, at, f);
      StackAfterCall(ms, from, at, enter, body);
      StackAfterForest(ms, from, at + 2 + |body.Trace()|, rest);
      DropTwice(open, (if enter.Skipped? then 1 else 0) + body.Undecodable(), rest.Undecodable());
  }

  lemma {:induction false} StackAfterCall(ms: seq<Marker>, from: nat, at: nat, enter: Marker, body: Forest)
    requires (enter.Enter? || enter.Skipped?) && body.Valid() && from <= at < |ms| && ms[at] == enter
    requires Stands(ms, at + 1, body.Trace())
    requires at + 1 + |body.Trace()| < |ms| && ms[at + 1 + |body.Trace()|] == Exit
    ensures Open(ms, from, at + 2 + |body.Trace()|)
         == DropInnermost(Open(ms, from, at), (if enter.Skipped? then 1 else 0) + body.Undecodable())
    decreases body, 1
  {
    hide Nested, Linked, Open, DropInnermost, Stands, Step, Forest.Trace, Forest.Undecodable, Forest.Valid;
    var close := at + 1 + |body.Trace()|;
    StackAfterForest(ms, from, at + 1, body);
    OneStep(ms, from, at);
    OneStep(ms, from, close);
    CallEffect(Open(ms, from, at), enter, at, body.Undecodable(), close);
  }

  /** The stack is as it was before the forest exactly when it was empty or every call of
      the forest names its callee. */
  lemma StackRestoredIff(ms: seq<Marker>, from: nat, at: nat, f: Forest)
    requires f.Valid() && from <= at && Stands(ms, at, f.Trace())
    ensures Open(ms, from, at + |f.Trace()|) == Open(ms, from, at)
            <==> Open(ms, from, at) == [] || f.Undecodable() == 0
  {
    StackAfterForest(ms, from, at, f);
  }

  /** The innermost open call after a forest is the one before it exactly under the same
      condition: undecodable calls that return leave an outer call innermost. */
  lemma InnermostKeptIff(ms: seq<Marker>, from: nat, at: nat, f: Forest)
    requires f.Valid() && from <= at && Stands(ms, at, f.Trace())
    ensures Innermost(Open(ms, from, at + |f.Trace()|)) == Innermost(Open(ms, from, at))
            <==> Open(ms, from, at) == [] || f.Undecodable() == 0
  {
    hide Nested, Linked, Open, Stands, Forest.Trace, Forest.Undecodable, Forest.Valid;
    StandsFits(ms, at, f.Trace());
    StackAfterForest(ms, from, at, f);
    var open, n := Open(ms, from, at), f.Undecodable();
    OpenIncreases(ms, from, at);
    if open != [] && 0 < n < |open| {
      assert open[|open| - n - 1] < open[|open| - 1];
    }
  }

  /** Replaying a forest whose calls all name their callees yields its calls in preorder,
      each made from its parent. */
  lemma {:induction false} ForestReplayed(ms: seq<Marker>, from: nat, at: nat, f: Forest)
    requires f.Valid() && f.Undecodable() == 0 && from <= at && Stands(ms, at, f.Trace())
    ensures Calls(ms, from, at + |f.Trace()|)
         == Calls(ms, from, at) + f.Preorder(at, Innermost(Open(ms, from, at)))
    decreases f, 0
  {
    hide Nested, Linked, Open, Calls, DropInnermost, Stands, Innermost, Forest.Trace, Forest.Undecodable,
         Forest.Preorder, Forest.Valid;
    StandsFits(ms, at, f.Trace());
    ForestParts(f, at, Innermost(Open(ms, from, at)));
    TraceLength(f);
    var before, open := Calls(ms, from, at), Open(ms, from, at);
    DropNone(open);
    match f
    case Done =>
      assert before + [] == before;
    case Aside(rest) =>
      AsideParts(ms, at, f);
      OneStep(ms, from, at);
      ForestReplayed(ms, from, at + 1, rest);
    case Call(enter, body, rest) =>
      CallParts(ms, at, f);
      CallReplayed(ms, from, at, enter, body);
      StackAfterCall(ms, from, at, enter, body);
      ForestReplayed(ms, from, at + 2 + |body.Trace()|, rest);
      var own, inner := [(at, Innermost(open))], body.Preorder(at + 1, Some(at));
      var later := rest.Preorder(at + 2 + |body.Trace()|, Innermost(open));
      assert before + own + inner + later == before + (own + inner + later);
  }

  lemma {:induction false} CallReplayed(ms: seq<Marker>, from: nat, at: nat, enter: Marker, body: Forest)
    requires enter.Enter? && body.Valid() && body.Undecodable() == 0 && from <= at < |ms| && ms[at] == enter
    requires Stands(ms, at + 1, body.Trace())
    requires at + 1 + |body.Trace()| < |ms| && ms[at + 1 + |body.Trace()|] == Exit
    ensures Calls(ms, from, at + 2 + |body.Trace()|)
         == Calls(ms, from, at) + [(at, Innermost(Open(ms, from, at)))] + body.Preorder(at + 1, Some(at))
    decreases body, 1
  {
    hide Nested, Linked, Open, Calls, Stands, Forest.Trace, Forest.Undecodable, Forest.Valid, Forest.Preorder;
    var close := at + 1 + |body.Trace()|;
    OneStep(ms, from, at);
    ForestReplayed(ms, from, at + 1, body);
    OneStep(ms, from, close);
  }

  /** A whole trace: the calls of the forest and their parents, and nothing left open. */
  lemma WholeTraceReplayed(f: Forest)
    requires f.Valid() && f.Undecodable() == 0
    ensures Calls(f.Trace(), 0, |f.Trace()|) == f.Preorder(0, None)
    ensures Open(f.Trace(), 0, |f.Trace()|) == []
  {
    hide Nested, Linked, Open, Calls, Forest.Trace, Forest.Valid, Forest.Undecodable, Forest.Preorder;
    var ms := f.Trace();
    assert ms[0..|ms|] == ms;
    NothingYet(ms, 0);
    ForestReplayed(ms, 0, 0, f);
    StackAfterForest(ms, 0, 0, f);
    assert [] + f.Preorder(0, None) == f.Preorder(0, None);
  }

  /** From events to records: when the markers of a transaction's events are those of a
      forest whose calls name their callees, the records are the forest's calls. */
  lemma RecordsOfForest(strkey: seq<byte> -> string, o: Observation, tx: string, f: Forest)
    requires f.Valid() && f.Undecodable() == 0 && Markers(strkey, o.diagnosticEvents) == f.Trace()
    ensures |Replayed(strkey, o, tx)| == |f.Preorder(0, None)|
    ensures forall k :: 0 <= k < |f.Preorder(0, None)| ==>
              var (at, parent) := f.Preorder(0, None)[k];
              && at < |f.Trace()| && f.Trace()[at].Enter?
              && (parent.Some? ==> parent.value < |f.Trace()| && f.Trace()[parent.value].Enter?)
              && Replayed(strkey, o, tx)[k].callee == f.Trace()[at].callee
              && Replayed(strkey, o, tx)[k].caller
                 == (if parent.Some? then Some(f.Trace()[parent.value].callee) else None)
              && Replayed(strkey, o, tx)[k].function_ == f.Trace()[at].function_
              && Replayed(strkey, o, tx)[k].successful == Some(o.successful && f.Trace()[at].ok)
              && Replayed(strkey, o, tx)[k].transaction == tx && Replayed(strkey, o, tx)[k].basis == ObservedEvent
  {
    WholeTraceReplayed(f);
  }

  // ----- Windows -----

  /** The open calls entered at or after `start`. */
  function EnteredSince(open: seq<nat>, start: nat): seq<nat> {
    if open == [] then []
    else
      var n := |open| - 1;
      if open[n] < start then [] else EnteredSince(open[..n], start) + [open[n]]
  }

  lemma StepKeepsWindow(open: seq<nat>, m: Marker, i: nat, start: nat)
    requires start <= i && forall j, k :: 0 <= j < k < |open| ==> open[j] < open[k]
    ensures EnteredSince(Step(open, m, i), start) == Step(EnteredSince(open, start), m, i)
  {
    hide EnteredSince;
    match m
    case Enter(_, _, _) =>
      SinceEntered(open, i, start);
    case Exit =>
      if open != [] {
        SinceLeft(open, start);
      } else {
        SinceNothing(start);
      }
    case _ =>
  }

  lemma SinceNothing(start: nat)
    ensures EnteredSince([], start) == []
  {
  }

  lemma SinceEntered(open: seq<nat>, i: nat, start: nat)
    requires start <= i
    ensures EnteredSince(open + [i], start) == EnteredSince(open, start) + [i]
  {
    assert (open + [i])[..|open|] == open;
  }

  lemma SinceLeft(open: seq<nat>, start: nat)
    requires open != [] && forall j, k :: 0 <= j < k < |open| ==> open[j] < open[k]
    ensures var outer, since := open[..|open| - 1], EnteredSince(open, start);
            EnteredSince(outer, start) == if since == [] then [] else since[..|since| - 1]
  {
    var n := |open| - 1;
    if open[n] < start && n > 0 {
      assert open[n - 1] < open[n];
    }
  }

  lemma SinceNone(open: seq<nat>, start: nat)
    requires forall k :: 0 <= k < |open| ==> open[k] < start
    ensures EnteredSince(open, start) == []
  {
  }

  /** The replay of a window is sound whatever the trace: its stack is exactly the part
      of the whole trace's stack entered since the window began. */
  lemma {:induction false} WindowStack(ms: seq<Marker>, start: nat, until: nat)
    requires start <= until <= |ms|
    ensures Open(ms, start, until) == EnteredSince(Open(ms, 0, until), start)
    decreases until
  {
    hide Nested, Linked, Open, Calls, Innermost, EnteredSince, Step;
    if start == until {
      NothingYet(ms, start);
      OpenBefore(ms, 0, until);
      SinceNone(Open(ms, 0, until), start);
    } else {
      WindowStack(ms, start, until - 1);
      OneStep(ms, 0, until - 1);
      OneStep(ms, start, until - 1);
      OpenIncreases(ms, 0, until - 1);
      StepKeepsWindow(Open(ms, 0, until - 1), ms[until - 1], until - 1, start);
    }
  }

  /** The caller a window's replay gives a call is the one the whole trace gives it, or
      none, and it is none exactly when the whole trace gives none or one entered before
      the window. */
  lemma WindowCaller(ms: seq<Marker>, start: nat, at: nat)
    requires start <= at < |ms|
    ensures var whole, seen := Innermost(Open(ms, 0, at)), Innermost(Open(ms, start, at));
            seen == if whole.Some? && whole.value >= start then whole else None
  {
    hide Nested, Open, EnteredSince;
    WindowStack(ms, start, at);
    SinceInnermost(Open(ms, 0, at), start);
  }

  lemma SinceInnermost(open: seq<nat>, start: nat)
    ensures var whole := Innermost(open);
            Innermost(EnteredSince(open, start)) == if whole.Some? && whole.value >= start then whole else None
  {
  }

  /** Which of a forest's calls a window marks, with the callers visible inside it. */
  function Visible(calls: seq<(nat, Option<nat>)>, start: nat): seq<(nat, Option<nat>)> {
    if calls == [] then []
    else
      var n := |calls| - 1;
      var (at, parent) := calls[n];
      Visible(calls[..n], start)
      + if at < start then [] else [(at, if parent.Some? && parent.value >= start then parent else None)]
  }

  lemma {:induction false} WindowCalls(ms: seq<Marker>, start: nat, until: nat)
    requires start <= until <= |ms|
    ensures Calls(ms, start, until) == Visible(Calls(ms, 0, until), start)
    decreases until
  {
    hide Nested, Linked, Open, Calls, Innermost, Visible;
    if start == until {
      CallsBefore(ms, until);
      NothingVisible(Calls(ms, 0, until), start);
      NothingYet(ms, start);
    } else {
      WindowCalls(ms, start, until - 1);
      WindowCaller(ms, start, until - 1);
      OneStep(ms, 0, until - 1);
      OneStep(ms, start, until - 1);
      VisibleLast(Calls(ms, 0, until - 1), (until - 1, Innermost(Open(ms, 0, until - 1))), start);
    }
  }

  lemma VisibleLast(calls: seq<(nat, Option<nat>)>, last: (nat, Option<nat>), start: nat)
    requires last.0 >= start
    ensures var parent := last.1;
            Visible(calls + [last], start)
            == Visible(calls, start) + [(last.0, if parent.Some? && parent.value >= start then parent else None)]
  {
    assert (calls + [last])[..|calls|] == calls;
  }

  lemma {:induction false} NothingVisible(calls: seq<(nat, Option<nat>)>, start: nat)
    requires forall k :: 0 <= k < |calls| ==> calls[k].0 < start
    ensures Visible(calls, start) == []
  {
    if calls != [] {
      NothingVisible(calls[..|calls| - 1], start);
    }
  }

  /** Any contiguous window of a well-nested trace: the calls recovered are the forest's
      calls marked in the window, each with its true parent, or with none exactly when it
      is a root or its parent was entered before the window. */
  lemma WindowOfForest(f: Forest, start: nat, until: nat)
    requires f.Valid() && f.Undecodable() == 0 && start <= until <= |f.Trace()|
    ensures Calls(f.Trace(), start, until) == Visible(Marked(f.Preorder(0, None), until), start)
  {
    WindowCalls(f.Trace(), start, until);
    WholeTraceReplayed(f);
    CallsSoFar(f.Trace(), until, |f.Trace()|);
  }

  /** The calls marked before `until`. */
  function Marked(calls: seq<(nat, Option<nat>)>, until: nat): seq<(nat, Option<nat>)> {
    if calls == [] then []
    else
      var n := |calls| - 1;
      Marked(calls[..n], until) + if calls[n].0 < until then [calls[n]] else []
  }

  lemma {:induction false} CallsSoFar(ms: seq<Marker>, until: nat, end: nat)
    requires until <= end <= |ms|
    ensures Calls(ms, 0, until) == Marked(Calls(ms, 0, end), until)
    decreases end
  {
    var now := Calls(ms, 0, end);
    if until == end {
      AllMarked(now, until);
    } else {
      CallsSoFar(ms, until, end - 1);
      var before := Calls(ms, 0, end - 1);
      if ms[end - 1].Enter? {
        var call := (end - 1, Innermost(Open(ms, 0, end - 1)));
        assert now == before + [call];
        assert (before + [call])[..|before|] == before;
      } else {
        assert now == before;
      }
    }
  }

  lemma {:induction false} AllMarked(calls: seq<(nat, Option<nat>)>, until: nat)
    requires forall k :: 0 <= k < |calls| ==> calls[k].0 < until
    ensures Marked(calls, until) == calls
  {
    if calls != [] {
      AllMarked(calls[..|calls| - 1], until);
      assert calls == calls[..|calls| - 1] + [calls[|calls| - 1]];
    }
  }

  /** Without that condition the replay invents an edge: `root` calls `a`, whose call to an
      undecodable contract returns before `a` calls `b`, and `b` is recorded as called by
      `root`. */
  lemma UndecodableCallInventsAnEdge(root: string, a: string, b: string)
    ensures var f := Call(Enter(root, None, true),
                          Call(Enter(a, None, true),
                               Call(Skipped, Done, Call(Enter(b, None, true), Done, Done)), Done), Done);
            && f.Valid()
            && (4, Some(1)) in f.Preorder(0, None)
            && (4, Some(0)) in Calls(f.Trace(), 0, |f.Trace()|)
            && (4, Some(1)) !in Calls(f.Trace(), 0, |f.Trace()|)
  {
    var inner := Call(Skipped, Done, Call(Enter(b, None, true), Done, Done));
    var f := Call(Enter(root, None, true), Call(Enter(a, None, true), inner, Done), Done);
    var ms := [Enter(root, None, true), Enter(a, None, true), Skipped, Exit, Enter(b, None, true), Exit, Exit, Exit];
    assert inner.Valid() && inner.Undecodable() == 1;
    assert inner.Trace() == [Skipped, Exit, Enter(b, None, true), Exit];
    assert f.Trace() == ms;
    var last := Call(Enter(b, None, true), Done, Done);
    assert last.Preorder(4, Some(1)) == [(4, Some(1))];
    assert inner.Preorder(2, Some(1)) == [(2, Some(1)), (4, Some(1))];
    assert Call(Enter(a, None, true), inner, Done).Preorder(1, Some(0)) == [(1, Some(0)), (2, Some(1)), (4, Some(1))];
    assert f.Preorder(0, None) == [(0, None), (1, Some(0)), (2, Some(1)), (4, Some(1))];
    assert f.Preorder(0, None)[3] == (4, Some(1));
    RecordedUnderRoot(ms);
  }

  lemma RecordedUnderRoot(ms: seq<Marker>)
    requires |ms| == 8 && ms[0].Enter? && ms[1].Enter? && ms[2].Skipped? && ms[3].Exit? && ms[4].Enter?
    requires ms[5].Exit? && ms[6].Exit? && ms[7].Exit?
    ensures Calls(ms, 0, 8) == [(0, None), (1, Some(0)), (4, Some(0))]
  {
    assert Open(ms, 0, 1) == [0];
    assert Open(ms, 0, 2) == [0, 1];
    assert Open(ms, 0, 3) == [0, 1];
    assert Open(ms, 0, 4) == [0];
    assert Calls(ms, 0, 1) == [(0, None)];
    assert Calls(ms, 0, 2) == [(0, None), (1, Some(0))];
    assert Calls(ms, 0, 3) == Calls(ms, 0, 2);
    assert Calls(ms, 0, 4) == Calls(ms, 0, 3);
    assert Calls(ms, 0, 5) == Calls(ms, 0, 4) + [(4, Some(0))];
    assert Calls(ms, 0, 6) == Calls(ms, 0, 5);
    assert Calls(ms, 0, 7) == Calls(ms, 0, 6);
  }
}
