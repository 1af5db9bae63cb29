/** The records of a transaction, field by field, in terms of its operations and its trace. */
module TransactionRecords {
  import opened Basics
  import opened Ordering
  import opened TextOrder
  import opened InvocationSpec
  import opened InvocationReading
  import opened InvocationCanonical

  /** The records are of one call. */
  predicate SameCall(x: ContractInvocation, y: ContractInvocation) {
    x.callee == y.callee && x.caller == y.caller && x.function_ == y.function_ && x.transaction == y.transaction
  }

  /** The order of calls: by callee, then caller, then function, then transaction. */
  predicate CallBefore(x: ContractInvocation, y: ContractInvocation) {
    || TextBefore(x.callee, y.callee)
    || (x.callee == y.callee && OptionalBefore(x.caller, y.caller))
    || (x.callee == y.callee && x.caller == y.caller && OptionalBefore(x.function_, y.function_))
    || (x.callee == y.callee && x.caller == y.caller && x.function_ == y.function_
        && TextBefore(x.transaction, y.transaction))
  }

  lemma CallOrder(x: ContractInvocation, y: ContractInvocation)
    ensures Less(Key(x), Key(y)) <==> CallBefore(x, y)
    ensures Key(x) == Key(y) <==> SameCall(x, y)
  {
    hide FieldLess, TextBefore, OptionalBefore, TextField, OptionalTextField, Less;
    var c, d := TextField(x.callee), TextField(y.callee);
    var e, f := OptionalTextField(x.caller), OptionalTextField(y.caller);
    var h, i := OptionalTextField(x.function_), OptionalTextField(y.function_);
    var t, u := TextField(x.transaction), TextField(y.transaction);
    TextFieldOrder(x.callee, y.callee);
    OptionalFieldOrder(x.caller, y.caller);
    OptionalFieldOrder(x.function_, y.function_);
    TextFieldOrder(x.transaction, y.transaction);
    OneFieldOrder(t, u);
    RowOrder(h, [t], i, [u]);
    RowOrder(e, [h, t], f, [i, u]);
    RowOrder(c, [e, h, t], d, [f, i, u]);
    assert [h] + [t] == [h, t] && [i] + [u] == [i, u];
    assert [e] + [h, t] == [e, h, t] && [f] + [i, u] == [f, i, u];
    assert Key(x) == [c] + [e, h, t] && Key(y) == [d] + [f, i, u];
    SameCallIff(x, y);
  }

  function Operations(o: Observation): seq<Operation> {
    if o.envelope.Some? then o.envelope.value else []
  }

  function TraceCalls(strkey: seq<byte> -> string, o: Observation): seq<(nat, Option<nat>)> {
    Calls(Markers(strkey, o.diagnosticEvents), 0, |o.diagnosticEvents|)
  }

  /** The record of a call of the trace: the event at its position entered it, and the
      event at its caller's position, when it has one, entered the caller. */
  ghost predicate RecordsCall(
    strkey: seq<byte> -> string, o: Observation, tx: string, call: (nat, Option<nat>), x: ContractInvocation)
  {
    && EntersAt(strkey, o.diagnosticEvents, call.0, x.callee)
    && (if call.1.None? then x.caller == None
        else x.caller.Some? && EntersAt(strkey, o.diagnosticEvents, call.1.value, x.caller.value))
    && x.function_ == FnCallFunction(o.diagnosticEvents[call.0].topics)
    && x.transaction == tx && x.ledger == o.ledger && x.operationIndex == None
    && x.basis == ObservedEvent && x.eventId == None
    && x.successful == Some(o.successful && o.diagnosticEvents[call.0].inSuccessfulCall)
  }

  /** The event at a position enters a call of a contract. */
  ghost predicate EntersAt(strkey: seq<byte> -> string, events: seq<DiagnosticEvent>, i: nat, callee: string) {
    i < |events| && MarkerOf(strkey, events[i]).Enter? && MarkerOf(strkey, events[i]).callee == callee
  }

  /** The record of the first operation that makes a call. */
  ghost predicate OfFirstOperation(ops: seq<Operation>, o: Observation, tx: string, y: ContractInvocation) {
    exists i :: RecordsOperation(y, ops, i, tx, o.ledger, o.successful)
                && forall j :: 0 <= j < i ==> !CallsSame(ops[j], y)
  }

  /** An operation makes the call, from the outside, that a record is of. */
  ghost predicate CallsSame(op: Operation, y: ContractInvocation) {
    op.InvokeContract? && op.contract == Some(y.callee) && y.caller == None && y.function_ == Some(op.function_)
  }

  /** Some operation makes the call that a record is of. */
  ghost predicate AnyOperationCalls(ops: seq<Operation>, y: ContractInvocation) {
    exists i :: 0 <= i < |ops| && CallsSame(ops[i], y)
  }

  /** The record of the first call of the trace that enters the callee from the caller by
      the function. */
  ghost predicate OfFirstCall(strkey: seq<byte> -> string, o: Observation, tx: string, y: ContractInvocation) {
    var calls := TraceCalls(strkey, o);
    exists k :: 0 <= k < |calls| && RecordsCall(strkey, o, tx, calls[k], y)
                && forall j, x :: 0 <= j < k && RecordsCall(strkey, o, tx, calls[j], x) ==> !SameCall(x, y)
  }

  // ----- First elements of joined lists -----

  lemma FirstOfJoined<T(!new)>(key: T -> Row, a: seq<T>, b: seq<T>, y: T)
    ensures FirstOfKey(key, a + b, y)
            <==> FirstOfKey(key, a, y) || (FirstOfKey(key, b, y) && forall x :: x in a ==> key(x) != key(y))
  {
    var c := a + b;
    if FirstOfKey(key, c, y) {
      var i :| 0 <= i < |c| && c[i] == y && forall j :: 0 <= j < i ==> key(c[j]) != key(y);
      if i < |a| {
        assert a[i] == y && forall j :: 0 <= j < i ==> a[j] == c[j];
      } else {
        assert b[i - |a|] == y;
        forall j | 0 <= j < i - |a| ensures key(b[j]) != key(y) {
          assert b[j] == c[|a| + j];
        }
        forall x | x in a ensures key(x) != key(y) {
          var j :| 0 <= j < |a| && a[j] == x;
          assert c[j] == x;
        }
      }
    }
    if FirstOfKey(key, a, y) {
      var i :| 0 <= i < |a| && a[i] == y && forall j :: 0 <= j < i ==> key(a[j]) != key(y);
      assert c[i] == y && forall j :: 0 <= j < i ==> c[j] == a[j];
    }
    if FirstOfKey(key, b, y) && forall x :: x in a ==> key(x) != key(y) {
      var i :| 0 <= i < |b| && b[i] == y && forall j :: 0 <= j < i ==> key(b[j]) != key(y);
      assert c[|a| + i] == y;
      forall j | 0 <= j < |a| + i ensures key(c[j]) != key(y) {
        assert c[j] == if j < |a| then a[j] else b[j - |a|];
      }
    }
  }

  /** The chosen record of a call: the first operation's, or else the first marker's. */
  lemma ChosenSplits(ops: seq<ContractInvocation>, replayed: seq<ContractInvocation>, y: ContractInvocation)
    requires forall x :: x in ops ==> x.basis == ObservedInvocation
    requires forall x :: x in replayed ==> x.basis == ObservedEvent
    ensures Chosen(ops + replayed, y)
            <==> FirstOfKey(Key, ops, y)
                 || (FirstOfKey(Key, replayed, y) && forall x :: x in ops ==> Key(x) != Key(y))
  {
    hide Key, KeyAndBasis;
    FirstOfJoined(KeyAndBasis, ops, replayed, y);
    OneBasis(ops, ObservedInvocation, y);
    OneBasis(replayed, ObservedEvent, y);
    forall x | x in ops || x in replayed
      ensures KeyAndBasis(x) == KeyAndBasis(y) <==> Key(x) == Key(y) && x.basis == y.basis
    {
      KeyThenBasis(x, y);
    }
    if Chosen(ops + replayed, y) && FirstOfKey(KeyAndBasis, replayed, y) {
      forall x | x in ops ensures Key(x) != Key(y) {
        assert x in ops + replayed;
      }
    }
    assert forall x :: x in ops + replayed <==> x in ops || x in replayed;
  }

  lemma OneBasis(xs: seq<ContractInvocation>, basis: Basis, y: ContractInvocation)
    requires forall x :: x in xs ==> x.basis == basis
    ensures FirstOfKey(KeyAndBasis, xs, y) <==> FirstOfKey(Key, xs, y)
    ensures FirstOfKey(Key, xs, y) ==> y in xs && y.basis == basis
  {
    hide Key, KeyAndBasis;
    if y in xs {
      forall x | x in xs ensures KeyAndBasis(x) == KeyAndBasis(y) <==> Key(x) == Key(y) {
        KeyThenBasis(x, y);
      }
    }
    if FirstOfKey(KeyAndBasis, xs, y) {
      var i :| 0 <= i < |xs| && xs[i] == y && forall j :: 0 <= j < i ==> KeyAndBasis(xs[j]) != KeyAndBasis(y);
      assert forall j :: 0 <= j < i ==> Key(xs[j]) != Key(y);
    }
    if FirstOfKey(Key, xs, y) {
      var i :| 0 <= i < |xs| && xs[i] == y && forall j :: 0 <= j < i ==> Key(xs[j]) != Key(y);
      assert forall j :: 0 <= j < i ==> KeyAndBasis(xs[j]) != KeyAndBasis(y);
    }
  }

  // ----- Operations -----

  /** What one operation records, next to the record of a call. */
  lemma OwnRecord(ops: seq<Operation>, n: nat, o: Observation, tx: string, y: ContractInvocation)
    requires n < |ops|
    ensures var own := OperationInvocations(ops[n], tx, o.ledger, n, o.successful);
            && (FirstOfKey(Key, own, y) <==> RecordsOperation(y, ops, n, tx, o.ledger, o.successful))
            && ((exists x :: x in own && Key(x) == Key(y)) <==> CallsSame(ops[n], y) && y.transaction == tx)
  {
    hide Key;
    var own := OperationInvocations(ops[n], tx, o.ledger, n, o.successful);
    if own != [] {
      assert own == [own[0]];
      SameCallIff(own[0], y);
      assert FirstOfKey(Key, own, y) <==> own[0] == y;
      assert own[0] in own;
    }
  }

  /** Dropping the last operation leaves the records of the others what they were. */
  lemma RecordBeforeLast(ops: seq<Operation>, o: Observation, tx: string, y: ContractInvocation, i: nat)
    requires i < |ops| - 1
    ensures ops[..|ops| - 1][i] == ops[i]
    ensures RecordsOperation(y, ops, i, tx, o.ledger, o.successful)
            <==> RecordsOperation(y, ops[..|ops| - 1], i, tx, o.ledger, o.successful)
  {
  }

  lemma LastOperationCalls(ops: seq<Operation>, y: ContractInvocation)
    requires ops != []
    ensures var n := |ops| - 1; AnyOperationCalls(ops, y) <==> AnyOperationCalls(ops[..n], y) || CallsSame(ops[n], y)
  {
    hide CallsSame;
    var n := |ops| - 1;
    var before := ops[..n];
    if AnyOperationCalls(before, y) {
      var i :| 0 <= i < n && CallsSame(before[i], y);
      assert CallsSame(ops[i], y);
    }
    if AnyOperationCalls(ops, y) {
      var i :| 0 <= i <= n && CallsSame(ops[i], y);
      if i < n {
        assert CallsSame(before[i], y);
      }
    }
  }

  /** The first operation making a call is the first of those before the last, or the last. */
  lemma LastOperation(ops: seq<Operation>, o: Observation, tx: string, y: ContractInvocation)
    requires ops != []
    ensures var n := |ops| - 1;
            OfFirstOperation(ops, o, tx, y)
            <==> OfFirstOperation(ops[..n], o, tx, y)
                 || (RecordsOperation(y, ops, n, tx, o.ledger, o.successful) && !AnyOperationCalls(ops[..n], y))
  {
    hide CallsSame, RecordsOperation;
    var n := |ops| - 1;
    var before := ops[..n];
    forall i: nat | i < n
      ensures before[i] == ops[i]
      ensures RecordsOperation(y, ops, i, tx, o.ledger, o.successful)
              <==> RecordsOperation(y, before, i, tx, o.ledger, o.successful)
    {
      RecordBeforeLast(ops, o, tx, y, i);
    }
    WithinOperations(ops, o, tx, y);
    WithinOperations(before, o, tx, y);
    if OfFirstOperation(before, o, tx, y) {
      var i: nat :| RecordsOperation(y, before, i, tx, o.ledger, o.successful)
                    && forall j :: 0 <= j < i ==> !CallsSame(before[j], y);
      assert RecordsOperation(y, ops, i, tx, o.ledger, o.successful);
    }
    if OfFirstOperation(ops, o, tx, y) {
      var i: nat :| RecordsOperation(y, ops, i, tx, o.ledger, o.successful)
                    && forall j :: 0 <= j < i ==> !CallsSame(ops[j], y);
      if i < n {
        assert RecordsOperation(y, before, i, tx, o.ledger, o.successful);
      }
    }
  }

  lemma WithinOperations(ops: seq<Operation>, o: Observation, tx: string, y: ContractInvocation)
    ensures forall i: nat :: RecordsOperation(y, ops, i, tx, o.ledger, o.successful) ==> i < |ops|
  {
  }

  /** The first record of a call among the operations' is that of the first operation that
      makes it. */
  lemma {:induction false} FirstOperationIff(ops: seq<Operation>, o: Observation, tx: string, y: ContractInvocation)
    ensures var own := AllOperationInvocations(ops, tx, o.ledger, o.successful);
            && (FirstOfKey(Key, own, y) <==> OfFirstOperation(ops, o, tx, y))
            && ((exists x :: x in own && Key(x) == Key(y)) <==> AnyOperationCalls(ops, y) && y.transaction == tx)
    decreases |ops|
  {
    hide Key, FirstOfKey, OfFirstOperation, AnyOperationCalls, CallsSame, RecordsOperation, OperationInvocations;
    if ops == [] {
      NoOperations(o, tx, y);
    } else {
      var n := |ops| - 1;
      var before := AllOperationInvocations(ops[..n], tx, o.ledger, o.successful);
      var own := OperationInvocations(ops[n], tx, o.ledger, n, o.successful);
      FirstOperationIff(ops[..n], o, tx, y);
      FirstOfJoined(Key, before, own, y);
      OwnRecord(ops, n, o, tx, y);
      LastOperation(ops, o, tx, y);
      LastOperationCalls(ops, y);
      if RecordsOperation(y, ops, n, tx, o.ledger, o.successful) {
        OfTransaction(y, ops, n, tx, o);
      }
    }
  }

  lemma OfTransaction(y: ContractInvocation, ops: seq<Operation>, n: nat, tx: string, o: Observation)
    requires RecordsOperation(y, ops, n, tx, o.ledger, o.successful)
    ensures y.transaction == tx
  {
  }

  lemma NoOperations(o: Observation, tx: string, y: ContractInvocation)
    ensures !FirstOfKey(Key, [], y) && !OfFirstOperation([], o, tx, y) && !AnyOperationCalls([], y)
  {
  }

  // ----- The trace -----

  lemma RecordOfCall(strkey: seq<byte> -> string, o: Observation, tx: string, k: nat, x: ContractInvocation)
    requires k < |TraceCalls(strkey, o)|
    ensures var rs := Replayed(strkey, o, tx);
            |rs| == |TraceCalls(strkey, o)| && (rs[k] == x <==> RecordsCall(strkey, o, tx, TraceCalls(strkey, o)[k], x))
  {
    hide Calls, MarkerOf;
    var ms := Markers(strkey, o.diagnosticEvents);
    var call := TraceCalls(strkey, o)[k];
    assert Linked(ms, 0, |ms|, Calls(ms, 0, |ms|));
    assert ms[call.0] == MarkerOf(strkey, o.diagnosticEvents[call.0]);
    EnteredIff(strkey, o.diagnosticEvents[call.0], ms[call.0].callee);
    if call.1.Some? {
      assert ms[call.1.value] == MarkerOf(strkey, o.diagnosticEvents[call.1.value]);
    }
  }

  lemma FirstCallIff(strkey: seq<byte> -> string, o: Observation, tx: string, y: ContractInvocation)
    ensures FirstOfKey(Key, Replayed(strkey, o, tx), y) <==> OfFirstCall(strkey, o, tx, y)
  {
    hide Replayed, RecordsCall, TraceCalls, Key, SameCall;
    var rs, calls := Replayed(strkey, o, tx), TraceCalls(strkey, o);
    SameLength(strkey, o, tx);
    forall k, x | 0 <= k < |calls|
      ensures rs[k] == x <==> RecordsCall(strkey, o, tx, calls[k], x)
      ensures Key(rs[k]) == Key(y) <==> SameCall(rs[k], y)
    {
      RecordOfCall(strkey, o, tx, k, x);
      CallOrder(rs[k], y);
    }
    if FirstOfKey(Key, rs, y) {
      var k :| 0 <= k < |rs| && rs[k] == y && forall j :: 0 <= j < k ==> Key(rs[j]) != Key(y);
      assert RecordsCall(strkey, o, tx, calls[k], y);
    }
    if OfFirstCall(strkey, o, tx, y) {
      var k :| 0 <= k < |calls| && RecordsCall(strkey, o, tx, calls[k], y)
               && forall j, x :: 0 <= j < k && RecordsCall(strkey, o, tx, calls[j], x) ==> !SameCall(x, y);
      forall j | 0 <= j < k ensures Key(rs[j]) != Key(y) {
        assert RecordsCall(strkey, o, tx, calls[j], rs[j]);
      }
    }
  }

  lemma SameLength(strkey: seq<byte> -> string, o: Observation, tx: string)
    ensures |Replayed(strkey, o, tx)| == |TraceCalls(strkey, o)|
  {
  }

  // ----- The whole transaction -----

  /** A record is returned exactly when it is that of the first operation making its call,
      or no operation makes the call and it is that of the first call of the trace. */
  lemma RecordReturnedIff(strkey: seq<byte> -> string, o: Observation, tx: string, y: ContractInvocation)
    requires TransactionHash(o.hash) == Ok(tx)
    ensures y in InvocationsFromTransaction(strkey, o).value.invocations
            <==> || OfFirstOperation(Operations(o), o, tx, y)
                 || (OfFirstCall(strkey, o, tx, y) && !AnyOperationCalls(Operations(o), y))
  {
    hide OfFirstOperation, OfFirstCall, AnyOperationCalls, Key, FirstOfKey;
    var ops, replayed := OperationRecords(o, tx), Replayed(strkey, o, tx);
    assert ops == AllOperationInvocations(Operations(o), tx, o.ledger, o.successful);
    assert Recorded(strkey, o, tx) == ops + replayed;
    forall x | x in ops ensures x.basis == ObservedInvocation {
      OperationRecordFacts(Operations(o), tx, o.ledger, o.successful, x);
    }
    hide AllOperationInvocations, Replayed, Recorded, Canonicalise;
    CanonicalForm(ops + replayed);
    ReplayedAreEvents(strkey, o, tx);
    ChosenSplits(ops, replayed, y);
    FirstOperationIff(Operations(o), o, tx, y);
    FirstCallIff(strkey, o, tx, y);
    if FirstOfKey(Key, replayed, y) {
      OneBasis(replayed, ObservedEvent, y);
    }
  }

  lemma ReplayedAreEvents(strkey: seq<byte> -> string, o: Observation, tx: string)
    ensures forall x :: x in Replayed(strkey, o, tx) ==> x.basis == ObservedEvent && x.transaction == tx
  {
  }

  /** Exactly the record of the first evidence of each call, operations first, in the order of
      the calls; whether there were diagnostics at all; and whether any caller was
      recovered. */
  ghost predicate ReturnsRecords(
    strkey: seq<byte> -> string, o: Observation, tx: string, found: InvocationObservations)
  {
    && (forall y :: y in found.invocations
                    <==> || OfFirstOperation(Operations(o), o, tx, y)
                         || (OfFirstCall(strkey, o, tx, y) && !AnyOperationCalls(Operations(o), y)))
    && (forall i, j :: 0 <= i < j < |found.invocations| ==> CallBefore(found.invocations[i], found.invocations[j]))
    && (found.diagnosticsAvailable <==> |o.diagnosticEvents| > 0)
    && (found.nestingRecovered <==> exists y :: y in found.invocations && y.caller.Some?)
  }

  /** What a transaction returns. */
  lemma TransactionRead(strkey: seq<byte> -> string, o: Observation, tx: string)
    requires TransactionHash(o.hash) == Ok(tx)
    ensures ReturnsRecords(strkey, o, tx, InvocationsFromTransaction(strkey, o).value)
  {
    hide Canonicalise, OfFirstOperation, OfFirstCall, AnyOperationCalls, Key, Recorded, Replayed;
    var found := InvocationsFromTransaction(strkey, o).value;
    forall y ensures y in found.invocations
                     <==> || OfFirstOperation(Operations(o), o, tx, y)
                          || (OfFirstCall(strkey, o, tx, y) && !AnyOperationCalls(Operations(o), y))
    {
      RecordReturnedIff(strkey, o, tx, y);
    }
    CanonicalForm(Recorded(strkey, o, tx));
    forall i, j | 0 <= i < j < |found.invocations| ensures CallBefore(found.invocations[i], found.invocations[j]) {
      CallOrder(found.invocations[i], found.invocations[j]);
    }
    TransactionMerge(strkey, o);
  }

  /** Every record has the transaction's ledger and no event of its own; one that rests on
      the trace is that of some call of it, with the event's own success. */
  lemma EveryRecord(strkey: seq<byte> -> string, o: Observation, tx: string, y: ContractInvocation)
    requires TransactionHash(o.hash) == Ok(tx) && y in InvocationsFromTransaction(strkey, o).value.invocations
    ensures y.ledger == o.ledger && y.transaction == tx && y.eventId == None
    ensures y.basis == ObservedEvent ==>
              exists call :: call in TraceCalls(strkey, o) && RecordsCall(strkey, o, tx, call, y)
    ensures y.basis == ObservedInvocation ==>
              exists i :: RecordsOperation(y, Operations(o), i, tx, o.ledger, o.successful)
  {
    hide TraceCalls, InvocationsFromTransaction, EntersAt;
    RecordReturnedIff(strkey, o, tx, y);
    if OfFirstOperation(Operations(o), o, tx, y) {
      var i :| RecordsOperation(y, Operations(o), i, tx, o.ledger, o.successful);
    } else {
      var calls := TraceCalls(strkey, o);
      var k :| 0 <= k < |calls| && RecordsCall(strkey, o, tx, calls[k], y);
      assert calls[k] in calls;
    }
  }
}
