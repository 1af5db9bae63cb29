/** When exactly the records of a replay name the right callers. A record holds the name of
    the calling contract, not which of its calls made this one, so a record can be right
    where the replay's stack is not. */
module CallerNames {
  import opened Basics
  import opened InvocationSpec
  import opened CallForest
  import opened Attribution

  /** The calls whose callee could be decoded, in order. */
  function Entered(ms: seq<Marker>, calls: seq<(nat, Option<nat>)>): seq<(nat, Option<nat>)> {
    if calls == [] then []
    else
      var n := |calls| - 1;
      Entered(ms, calls[..n]) + if calls[n].0 < |ms| && ms[calls[n].0].Enter? then [calls[n]] else []
  }

  /** The record names the contract whose call made this one: nothing for a call made by no
      other, and never right when that contract could not be decoded. */
  ghost predicate NamesCaller(ms: seq<Marker>, parent: Option<nat>, x: ContractInvocation) {
    if parent.None? then x.caller.None?
    else parent.value < |ms| && ms[parent.value].Enter? && x.caller == Some(ms[parent.value].callee)
  }

  // ----- What is really open -----

  /** The same markers, as if every callee could be decoded. */
  function Decoded(ms: seq<Marker>): (ds: seq<Marker>)
    ensures |ds| == |ms|
  {
    seq(|ms|, i requires 0 <= i < |ms| => if ms[i].Skipped? then Enter("", None, true) else ms[i])
  }

  function DecodedForest(f: Forest): Forest {
    match f
    case Done => Done
    case Aside(rest) => Aside(DecodedForest(rest))
    case Call(enter, body, rest) =>
      Call(if enter.Skipped? then Enter("", None, true) else enter, DecodedForest(body), DecodedForest(rest))
  }

  lemma {:induction false} DecodedTrace(f: Forest)
    requires f.Valid()
    ensures DecodedForest(f).Valid() && DecodedForest(f).Undecodable() == 0
    ensures DecodedForest(f).Trace() == Decoded(f.Trace())
  {
    hide Forest.Trace;
    match f
    case Done =>
      NothingTraced();
    case Aside(rest) =>
      DecodedTrace(rest);
      DecodedParts([Unrelated], rest.Trace());
      AsideTrace(f);
      AsideTrace(DecodedForest(f));
    case Call(enter, body, rest) =>
      DecodedTrace(body);
      DecodedTrace(rest);
      DecodedParts([enter], body.Trace() + ([Exit] + rest.Trace()));
      DecodedParts(body.Trace(), [Exit] + rest.Trace());
      DecodedParts([Exit], rest.Trace());
      CallTrace(f);
      CallTrace(DecodedForest(f));
  }

  lemma NothingTraced()
    ensures Done.Trace() == []
  {
  }

  lemma DecodedParts(first: seq<Marker>, second: seq<Marker>)
    ensures Decoded(first + second) == Decoded(first) + Decoded(second)
  {
  }

  lemma {:induction false} DecodedPreorder(f: Forest, at: nat, parent: Option<nat>)
    requires f.Valid()
    ensures DecodedForest(f).Preorder(at, parent) == f.Preorder(at, parent)
  {
    match f
    case Done =>
    case Aside(rest) =>
      DecodedPreorder(rest, at + 1, parent);
    case Call(_, body, rest) =>
      DecodedTrace(body);
      DecodedPreorder(body, at + 1, Some(at));
      DecodedPreorder(rest, at + 2 + |body.Trace()|, parent);
  }

  /** The call that made a call of a forest is the innermost one really open. */
  lemma ParentIsOpen(f: Forest, c: (nat, Option<nat>))
    requires f.Valid()
    ensures c in f.Preorder(0, None)
            <==> && c.0 < |f.Trace()| && (f.Trace()[c.0].Enter? || f.Trace()[c.0].Skipped?)
                 && c.1 == Innermost(Open(Decoded(f.Trace()), 0, c.0))
  {
    hide Open, Calls, Nested, Linked, Forest.Trace, Forest.Preorder, Innermost;
    var ds := Decoded(f.Trace());
    DecodedTrace(f);
    DecodedPreorder(f, 0, None);
    WholeTraceReplayed(DecodedForest(f));
    CallsMembers(ds, |ds|, c);
  }

  /** Every call on the replay's stack is really open. */
  lemma {:induction false} OpenIsOpen(ms: seq<Marker>, until: nat)
    requires until <= |ms|
    ensures forall i :: i in Open(ms, 0, until) ==> i in Open(Decoded(ms), 0, until)
    decreases until
  {
    hide Open, Nested, Step;
    if until == 0 {
      NothingYet(ms, 0);
    } else {
      OpenIsOpen(ms, until - 1);
      OneStep(ms, 0, until - 1);
      OneStep(Decoded(ms), 0, until - 1);
      OpenIncreases(Decoded(ms), 0, until - 1);
      OpenIncreases(ms, 0, until - 1);
      StepStaysOpen(Open(ms, 0, until - 1), Open(Decoded(ms), 0, until - 1), ms, until - 1);
    }
  }

  ghost predicate Increasing(open: seq<nat>) {
    forall j, k :: 0 <= j < k < |open| ==> open[j] < open[k]
  }

  lemma StepStaysOpen(open: seq<nat>, really: seq<nat>, ms: seq<Marker>, at: nat)
    requires at < |ms| && Increasing(open) && Increasing(really) && forall i :: i in open ==> i in really
    ensures forall i :: i in Step(open, ms[at], at) ==> i in Step(really, Decoded(ms)[at], at)
  {
    match ms[at]
    case Enter(_, _, _) =>
    case Skipped =>
    case Unrelated =>
    case Exit =>
      InnermostLeft(open, really, at);
      assert ms[at] == Exit && Decoded(ms)[at] == Exit;
  }

  lemma InnermostLeft(open: seq<nat>, really: seq<nat>, at: nat)
    requires Increasing(open) && Increasing(really) && forall i :: i in open ==> i in really
    ensures forall i :: i in Step(open, Exit, at) ==> i in Step(really, Exit, at)
  {
    var outer, rest := Step(open, Exit, at), Step(really, Exit, at);
    forall i | i in outer ensures i in rest {
      var last := open[|open| - 1];
      assert last in open && last in really;
      var j :| 0 <= j < |outer| && outer[j] == i;
      assert open[j] == i && i < last && i in open;
      var k :| 0 <= k < |really| && really[k] == i;
      assert rest[k] == i;
    }
  }

  /** `below` is what lies below `p` on the stack. */
  ghost predicate LiesOn(open: seq<nat>, below: seq<nat>, p: nat) {
    |below| < |open| && open[..|below|] == below && open[|below|] == p
  }

  /** Below a call on the stack is the stack as it was when that call was entered. */
  lemma {:induction false} OpenBelow(ms: seq<Marker>, until: nat, p: nat)
    requires until <= |ms| && p in Open(ms, 0, until)
    ensures p < until && LiesOn(Open(ms, 0, until), Open(ms, 0, p), p)
    decreases until
  {
    hide Open, Nested, Step, LiesOn;
    NothingYet(ms, 0);
    OneStep(ms, 0, until - 1);
    OpenIncreases(ms, 0, until - 1);
    var before := Open(ms, 0, until - 1);
    StepMembers(before, ms[until - 1], until - 1, p);
    if p in before {
      OpenBelow(ms, until - 1, p);
      BelowKept(before, ms[until - 1], until - 1, Open(ms, 0, p), p);
    }
  }

  lemma StepMembers(before: seq<nat>, m: Marker, at: nat, p: nat)
    requires p in Step(before, m, at)
    ensures p in before || (p == at && LiesOn(Step(before, m, at), before, at))
  {
  }

  lemma BelowKept(before: seq<nat>, m: Marker, at: nat, below: seq<nat>, p: nat)
    requires Increasing(before) && LiesOn(before, below, p) && p in Step(before, m, at) && p < at
    ensures LiesOn(Step(before, m, at), below, p)
  {
    var after, n := Step(before, m, at), |below|;
    var i :| 0 <= i < |after| && after[i] == p;
    assert before[i] == p;
    assert i == n;
    assert after[..n] == before[..n];
  }

  /** No contract is entered while a call of it is open. */
  ghost predicate NoReentry(ms: seq<Marker>) {
    forall i, j :: 0 <= i < |ms| && ms[i].Enter? && j in Open(Decoded(ms), 0, i) && j < |ms| && ms[j].Enter? ==>
                     ms[j].callee != ms[i].callee
  }

  /** Without reentry the open calls have different names. */
  lemma OpenDiffer(ms: seq<Marker>, at: nat, p: nat, q: nat)
    requires at <= |ms| && NoReentry(ms) && p in Open(Decoded(ms), 0, at) && q in Open(Decoded(ms), 0, at)
    ensures p < |ms| && q < |ms|
    ensures ms[p].Enter? && ms[q].Enter? && ms[p].callee == ms[q].callee ==> p == q
  {
    hide Open, Nested, LiesOn;
    OpenBefore(Decoded(ms), 0, at);
    OpenBelow(Decoded(ms), at, p);
    OpenBelow(Decoded(ms), at, q);
    LaterHasEarlier(Open(Decoded(ms), 0, at), Open(Decoded(ms), 0, p), p, Open(Decoded(ms), 0, q), q);
  }

  /** Of two different calls on a stack one lies below the other. */
  lemma LaterHasEarlier(open: seq<nat>, belowP: seq<nat>, p: nat, belowQ: seq<nat>, q: nat)
    requires LiesOn(open, belowP, p) && LiesOn(open, belowQ, q)
    ensures p == q || p in belowQ || q in belowP
  {
    var m, n := |belowP|, |belowQ|;
    if m < n {
      assert belowQ[m] == open[m];
    } else if n < m {
      assert belowP[n] == open[n];
    }
  }

  // ----- One record -----

  lemma RecordOfCall(ms: seq<Marker>, i: nat, tx: string, ledger: Option<nat>, succeeded: bool, parent: Option<nat>)
    requires i < |ms| && ms[i].Enter? && parent == Innermost(Open(Decoded(ms), 0, i))
    ensures var q := Innermost(Open(ms, 0, i));
            && (q.Some? ==> q.value < |ms| && ms[q.value].Enter?)
            && var x := FromDiagnostic(ms, (i, q), tx, ledger, succeeded);
            && (q == parent ==> NamesCaller(ms, parent, x))
            && (NoReentry(ms) && NamesCaller(ms, parent, x) ==> q == parent)
  {
    hide Open, Nested, NoReentry;
    OpenBefore(ms, 0, i);
    OpenBefore(Decoded(ms), 0, i);
    var open, really := Open(ms, 0, i), Open(Decoded(ms), 0, i);
    if open != [] {
      var q := open[|open| - 1];
      OpenIsOpen(ms, i);
      if NoReentry(ms) && really != [] {
        OpenDiffer(ms, i, q, really[|really| - 1]);
      }
    }
  }

  // ----- The records are the calls that could be decoded -----

  lemma {:induction false} RecordsInOrder(ms: seq<Marker>, until: nat)
    requires until <= |ms|
    ensures var calls, entered := Calls(ms, 0, until), Entered(ms, Calls(Decoded(ms), 0, until));
            && |calls| == |entered|
            && forall k :: 0 <= k < |calls| ==> calls[k].0 == entered[k].0
    decreases until
  {
    hide Open, Calls, Nested, Linked, Innermost, Entered;
    var ds := Decoded(ms);
    if until == 0 {
      NothingYet(ms, 0);
      NothingYet(ds, 0);
      NoneEntered(ms);
    } else {
      RecordsInOrder(ms, until - 1);
      OneStep(ms, 0, until - 1);
      OneStep(ds, 0, until - 1);
      EnteredLast(ms, Calls(ds, 0, until - 1), (until - 1, Innermost(Open(ds, 0, until - 1))));
    }
  }

  lemma NoneEntered(ms: seq<Marker>)
    ensures Entered(ms, []) == []
  {
  }

  lemma EnteredLast(ms: seq<Marker>, calls: seq<(nat, Option<nat>)>, last: (nat, Option<nat>))
    ensures Entered(ms, calls + [last])
         == Entered(ms, calls) + if last.0 < |ms| && ms[last.0].Enter? then [last] else []
  {
    assert (calls + [last])[..|calls|] == calls;
  }

  lemma {:induction false} EnteredMembers(ms: seq<Marker>, calls: seq<(nat, Option<nat>)>, c: (nat, Option<nat>))
    ensures c in Entered(ms, calls) <==> c in calls && c.0 < |ms| && ms[c.0].Enter?
  {
    if calls != [] {
      var n := |calls| - 1;
      EnteredMembers(ms, calls[..n], c);
      assert calls == calls[..n] + [calls[n]];
    }
  }

  /** The calls of a forest that could be decoded, each with the call that made it. */
  function DecodedCalls(f: Forest): seq<(nat, Option<nat>)> {
    Entered(f.Trace(), f.Preorder(0, None))
  }

  lemma DecodedCallsInOrder(f: Forest)
    requires f.Valid()
    ensures var ms, calls := f.Trace(), DecodedCalls(f);
            && |calls| == |Calls(ms, 0, |ms|)|
            && forall k :: 0 <= k < |calls| ==> calls[k].0 == Calls(ms, 0, |ms|)[k].0
  {
    hide Calls, Linked, Entered, Forest.Trace, Forest.Preorder;
    DecodedTrace(f);
    DecodedPreorder(f, 0, None);
    WholeTraceReplayed(DecodedForest(f));
    RecordsInOrder(f.Trace(), |f.Trace()|);
  }

  /** The record of a decoded call names its caller if the replay links it to the call that
      made it, and only then unless a contract is entered again. */
  lemma RecordAt(f: Forest, k: nat, tx: string, ledger: Option<nat>, succeeded: bool)
    requires f.Valid() && k < |DecodedCalls(f)|
    ensures var ms, c := f.Trace(), DecodedCalls(f)[k];
            && k < |Calls(ms, 0, |ms|)| && c.0 < |ms| && ms[c.0].Enter?
            && var linked := Calls(ms, 0, |ms|)[k];
            && linked.0 == c.0 && (linked.1.Some? ==> linked.1.value < |ms| && ms[linked.1.value].Enter?)
            && var x := FromDiagnostic(ms, linked, tx, ledger, succeeded);
            && (linked in f.Preorder(0, None) ==> NamesCaller(ms, c.1, x))
            && (NoReentry(ms) && NamesCaller(ms, c.1, x) ==> linked in f.Preorder(0, None))
  {
    hide Open, Calls, Nested, Linked, Entered, Innermost, NoReentry, NamesCaller, FromDiagnostic, Forest.Trace,
         Forest.Preorder, Forest.Valid;
    DecodedCallsInOrder(f);
    var ms, c := f.Trace(), DecodedCalls(f)[k];
    var linked := Calls(ms, 0, |ms|)[k];
    EnteredMembers(ms, f.Preorder(0, None), c);
    ParentIsOpen(f, c);
    ParentIsOpen(f, linked);
    CallsMembers(ms, |ms|, linked);
    RecordOfCall(ms, c.0, tx, ledger, succeeded, c.1);
  }

  /** Every record names the contract that made its call. */
  ghost predicate CallersNamed(f: Forest, records: seq<ContractInvocation>) {
    && |records| == |DecodedCalls(f)|
    && forall k :: 0 <= k < |records| ==> NamesCaller(f.Trace(), DecodedCalls(f)[k].1, records[k])
  }

  /** The records of any forest are its decoded calls in order, whoever they say made them.
      They all name the right caller if the forest is faithful, and only then unless a
      contract is entered while a call of it is open. */
  lemma RecordsRightIff(strkey: seq<byte> -> string, o: Observation, tx: string, f: Forest)
    requires f.Valid() && Markers(strkey, o.diagnosticEvents) == f.Trace()
    ensures var ms, calls, records := f.Trace(), DecodedCalls(f), Replayed(strkey, o, tx);
            && |records| == |calls|
            && forall k :: 0 <= k < |calls| ==>
                 && calls[k].0 < |ms| && ms[calls[k].0].Enter?
                 && records[k].callee == ms[calls[k].0].callee && records[k].function_ == ms[calls[k].0].function_
    ensures Faithful(f, false) ==> CallersNamed(f, Replayed(strkey, o, tx))
    ensures NoReentry(f.Trace()) && CallersNamed(f, Replayed(strkey, o, tx)) ==> Faithful(f, false)
  {
    hide Open, Calls, Nested, DecodedCalls, NoReentry, NamesCaller, Faithful, Forest.Trace, Forest.Preorder,
         Forest.Valid, Markers;
    var ms, calls, records := f.Trace(), DecodedCalls(f), Replayed(strkey, o, tx);
    var linked := Calls(ms, 0, |ms|);
    DecodedCallsInOrder(f);
    EveryCallerRightIff(f);
    forall k | 0 <= k < |calls|
      ensures records[k] == FromDiagnostic(ms, linked[k], tx, o.ledger, o.successful)
      ensures calls[k].0 == linked[k].0
      ensures linked[k] in f.Preorder(0, None) ==> NamesCaller(ms, calls[k].1, records[k])
      ensures NoReentry(ms) && NamesCaller(ms, calls[k].1, records[k]) ==> linked[k] in f.Preorder(0, None)
    {
      RecordAt(f, k, tx, o.ledger, o.successful);
    }
    assert forall k :: 0 <= k < |linked| ==> linked[k] in linked;
  }

  /** A contract that calls itself, whose inner call makes an undecodable call and then
      another. */
  function SelfCall(root: string, b: string): Forest {
    Call(Enter(root, None, true),
         Call(Enter(root, None, true), Call(Skipped, Done, Call(Enter(b, None, true), Done, Done)), Done), Done)
  }

  lemma SelfCallUnfaithful(root: string, b: string)
    ensures SelfCall(root, b).Valid() && !Faithful(SelfCall(root, b), false)
  {
    var inner := Call(Enter(b, None, true), Done, Done);
    var last := Call(Skipped, Done, inner);
    var middle := Call(Enter(root, None, true), last, Done);
    assert last.Valid() && AnyEntered(inner);
    assert !Faithful(last, true);
    assert !Faithful(middle, true);
  }

  lemma SelfCallTrace(root: string, b: string)
    ensures SelfCall(root, b).Trace()
         == [Enter(root, None, true), Enter(root, None, true), Skipped, Exit, Enter(b, None, true), Exit, Exit, Exit]
  {
    var inner := Call(Enter(b, None, true), Done, Done);
    var last := Call(Skipped, Done, inner);
    var middle := Call(Enter(root, None, true), last, Done);
    hide Forest.Trace;
    NothingTraced();
    CallTrace(inner);
    assert inner.Trace() == [Enter(b, None, true), Exit];
    CallTrace(last);
    assert last.Trace() == [Skipped, Exit, Enter(b, None, true), Exit];
    CallTrace(middle);
    assert middle.Trace() == [Enter(root, None, true), Skipped, Exit, Enter(b, None, true), Exit, Exit];
    CallTrace(SelfCall(root, b));
  }

  lemma SelfCallOrder(root: string, b: string)
    ensures SelfCall(root, b).Preorder(0, None) == [(0, None), (1, Some(0)), (2, Some(1)), (4, Some(1))]
  {
    var inner := Call(Enter(b, None, true), Done, Done);
    var last := Call(Skipped, Done, inner);
    var middle := Call(Enter(root, None, true), last, Done);
    SelfCallUnfaithful(root, b);
    assert inner.Valid() && last.Valid() && middle.Valid();
    hide Forest.Preorder, Forest.Valid;
    ForestParts(Done, 0, None);
    forall at: nat, parent: Option<nat> ensures Done.Preorder(at, parent) == [] {
      ForestParts(Done, at, parent);
    }
    ForestParts(inner, 4, Some(1));
    assert inner.Preorder(4, Some(1)) == [(4, Some(1))];
    ForestParts(last, 2, Some(1));
    assert Done.Trace() == [];
    assert last.Preorder(2, Some(1)) == [(2, Some(1)), (4, Some(1))];
    ForestParts(middle, 1, Some(0));
    assert middle.Preorder(1, Some(0)) == [(1, Some(0)), (2, Some(1)), (4, Some(1))];
    ForestParts(SelfCall(root, b), 0, None);
  }

  lemma ThreeEntered(ms: seq<Marker>)
    requires |ms| == 8 && ms[0].Enter? && ms[1].Enter? && ms[2].Skipped? && ms[4].Enter?
    ensures Entered(ms, [(0, None), (1, Some(0)), (2, Some(1)), (4, Some(1))])
            == [(0, None), (1, Some(0)), (4, Some(1))]
  {
    hide Entered;
    var first: (nat, Option<nat>) := (0, None);
    var second: (nat, Option<nat>) := (1, Some(0));
    var third: (nat, Option<nat>) := (2, Some(1));
    NoneEntered(ms);
    EnteredLast(ms, [], first);
    assert [] + [first] == [first];
    EnteredLast(ms, [first], second);
    assert [first] + [second] == [first, second];
    EnteredLast(ms, [first, second], third);
    assert [first, second] + [third] == [first, second, third];
    EnteredLast(ms, [first, second, third], (4, Some(1)));
    assert [first, second, third] + [(4, Some(1))] == [first, second, third, (4, Some(1))];
  }

  /** With reentry a record can be right by accident: the replay links the last call to the
      outer call of the contract rather than to the inner one. */
  lemma ReentryHidesTheError(root: string, b: string, tx: string)
    ensures var f := SelfCall(root, b);
            && f.Valid() && !Faithful(f, false)
            && (4, Some(1)) in f.Preorder(0, None) && (4, Some(0)) in Calls(f.Trace(), 0, |f.Trace()|)
            && CallersNamed(f, FromCalls(f.Trace(), Calls(f.Trace(), 0, |f.Trace()|), tx, None, true))
  {
    hide Faithful, Entered, Calls, Linked, SelfCall, Forest.Valid, Forest.Trace, Forest.Preorder;
    SelfCallUnfaithful(root, b);
    SelfCallTrace(root, b);
    SelfCallOrder(root, b);
    var f := SelfCall(root, b);
    RecordedUnderRoot(f.Trace());
    ThreeEntered(f.Trace());
    assert f.Preorder(0, None)[3] == (4, Some(1));
    assert Calls(f.Trace(), 0, 8)[2] == (4, Some(0));
  }
}
