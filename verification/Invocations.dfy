/** The loops of `invocations.rs`: the stack replay and the collection of a
    transaction's records, proved against `InvocationSpec`. */
module Invocations {
  import opened Basics
  import opened InvocationSpec
  import opened TransactionRecords

  ghost function Names(ms: seq<Marker>, open: seq<nat>): seq<string>
    requires forall k :: 0 <= k < |open| ==> open[k] < |ms| && ms[open[k]].Enter?
  {
    seq(|open|, k requires 0 <= k < |open| => ms[open[k]].callee)
  }

  /** What one marker does to the stack of names and to the records. */
  lemma ReplayStep(ms: seq<Marker>, i: nat, tx: string, ledger: Option<nat>, succeeded: bool)
    requires i < |ms|
    ensures var open, open' := Open(ms, 0, i), Open(ms, 0, i + 1);
            var out, out' := FromCalls(ms, Calls(ms, 0, i), tx, ledger, succeeded),
                             FromCalls(ms, Calls(ms, 0, i + 1), tx, ledger, succeeded);
            match ms[i]
            case Enter(callee, function_, ok) =>
              && Names(ms, open') == Names(ms, open) + [callee]
              && out' == out + [ContractInvocation(
                                  callee,
                                  if open == [] then None else Some(Names(ms, open)[|open| - 1]),
                                  function_, tx, ledger, None, ObservedEvent, None, Some(succeeded && ok))]
            case Exit =>
              && Names(ms, open') == (if open == [] then [] else Names(ms, open)[..|open| - 1])
              && out' == out
            case _ => Names(ms, open') == Names(ms, open) && out' == out
  {
    hide Open, Calls, Names, FromCalls, FromDiagnostic;
    OneStep(ms, 0, i);
    var open, calls := Open(ms, 0, i), Calls(ms, 0, i);
    OpenBefore(ms, 0, i);
    match ms[i]
    case Enter(_, _, _) =>
      NamesAppended(ms, open, i);
      CallRecorded(ms, i, tx, ledger, succeeded);
    case Exit =>
      NamesShortened(ms, open);
    case _ =>
  }

  lemma NamesAppended(ms: seq<Marker>, open: seq<nat>, i: nat)
    requires i < |ms| && ms[i].Enter?
    requires forall k :: 0 <= k < |open| ==> open[k] < |ms| && ms[open[k]].Enter?
    ensures Names(ms, open + [i]) == Names(ms, open) + [ms[i].callee]
  {
  }

  lemma NamesShortened(ms: seq<Marker>, open: seq<nat>)
    requires forall k :: 0 <= k < |open| ==> open[k] < |ms| && ms[open[k]].Enter?
    ensures |Names(ms, open)| == |open|
    ensures open != [] ==> Names(ms, open[..|open| - 1]) == Names(ms, open)[..|open| - 1]
    ensures open == [] ==> Names(ms, open) == []
  {
  }

  /** The record of a call marked after others, called from the innermost name. */
  lemma CallRecorded(ms: seq<Marker>, i: nat, tx: string, ledger: Option<nat>, succeeded: bool)
    requires i < |ms| && ms[i].Enter?
    ensures var open := Open(ms, 0, i);
            && (forall k :: 0 <= k < |open| ==> open[k] < |ms| && ms[open[k]].Enter?)
            && |Names(ms, open)| == |open|
            && FromCalls(ms, Calls(ms, 0, i + 1), tx, ledger, succeeded)
               == FromCalls(ms, Calls(ms, 0, i), tx, ledger, succeeded)
                  + [ContractInvocation(
                       ms[i].callee,
                       if open == [] then None else Some(Names(ms, open)[|open| - 1]),
                       ms[i].function_, tx, ledger, None, ObservedEvent, None, Some(succeeded && ms[i].ok))]
  {
    hide Open, Calls;
    OneStep(ms, 0, i);
    OpenBefore(ms, 0, i);
  }

  /** Replays the markers with a stack of contract names. */
  method InvocationsFromDiagnostics(
    strkey: seq<byte> -> string,
    diagnostics: seq<DiagnosticEvent>,
    transaction: string,
    ledger: Option<nat>,
    succeeded: bool)
    returns (out: seq<ContractInvocation>)
    ensures var ms := Markers(strkey, diagnostics);
            out == FromCalls(ms, Calls(ms, 0, |ms|), transaction, ledger, succeeded)
  {
    ghost var ms := Markers(strkey, diagnostics);
    out := [];
    var stack: seq<string> := [];
    for i := 0 to |diagnostics|
      invariant stack == Names(ms, Open(ms, 0, i))
      invariant out == FromCalls(ms, Calls(ms, 0, i), transaction, ledger, succeeded)
    {
      var event := diagnostics[i];
      assert ms[i] == MarkerOf(strkey, event);
      ReplayStep(ms, i, transaction, ledger, succeeded);
      var topic := FirstSymbol(event);
      if topic.None? {
        continue;
      }
      if topic.value == "fn_call" {
        var callee := FnCallCallee(strkey, event);
        if callee.None? {
          continue;
        }
        var function_ := FnCallFunction(event.topics);
        var caller := if stack == [] then None else Some(stack[|stack| - 1]);
        out := out + [ContractInvocation(
                        callee.value, caller, function_, transaction, ledger, None, ObservedEvent, None,
                        Some(succeeded && event.inSuccessfulCall))];
        stack := stack + [callee.value];
      } else if topic.value == "fn_return" || topic.value == "fn_error" {
        if stack != [] {
          stack := stack[..|stack| - 1];
        }
      }
    }
  }

  method PushOperationInvocations(
    operation: Operation,
    transaction: string,
    ledger: Option<nat>,
    index: nat,
    succeeded: bool,
    out: seq<ContractInvocation>)
    returns (grown: seq<ContractInvocation>)
    ensures grown == out + OperationInvocations(operation, transaction, ledger, index, succeeded)
  {
    if operation.OtherOperation? || operation.contract.None? {
      return out;
    }
    var at := if index < 0x1_0000_0000 then Some(index) else None;
    grown := out + [ContractInvocation(
                      operation.contract.value, None, Some(operation.function_), transaction, ledger, at,
                      ObservedInvocation, None, Some(succeeded))];
  }

  method FromTransaction(strkey: seq<byte> -> string, observation: Observation)
    returns (r: Result<InvocationObservations>)
    ensures r == InvocationsFromTransaction(strkey, observation)
    ensures r.Ok? <==> TransactionHash(observation.hash).Ok?
    ensures r.Ok? ==> ReturnsRecords(strkey, observation, TransactionHash(observation.hash).value, r.value)
  {
    hide TransactionHash, ReturnsRecords, Canonicalise;
    var transaction :- TransactionHash(observation.hash);
    var invocations: seq<ContractInvocation> := [];
    if observation.envelope.Some? {
      var ops := observation.envelope.value;
      for index := 0 to |ops|
        invariant invocations
                  == AllOperationInvocations(ops[..index], transaction, observation.ledger, observation.successful)
      {
        invocations := PushOperationInvocations(
          ops[index], transaction, observation.ledger, index, observation.successful, invocations);
        assert ops[..index + 1][..index] == ops[..index];
      }
      assert ops[..|ops|] == ops;
    }
    var diagnosticsAvailable := observation.diagnosticEvents != [];
    var nestingRecovered := false;
    if diagnosticsAvailable {
      var entered := InvocationsFromDiagnostics(
        strkey, observation.diagnosticEvents, transaction, observation.ledger, observation.successful);
      nestingRecovered := HasCaller(entered);
      invocations := invocations + entered;
    } else {
      assert Replayed(strkey, observation, transaction) == [];
      assert invocations + [] == invocations;
    }
    r := Ok(InvocationObservations(Canonicalise(invocations), diagnosticsAvailable, nestingRecovered));
    TransactionRead(strkey, observation, transaction);
  }

  method HasCaller(xs: seq<ContractInvocation>) returns (found: bool)
    ensures found == AnyCaller(xs)
  {
    for i := 0 to |xs|
      invariant forall j :: 0 <= j < i ==> xs[j].caller.None?
    {
      if xs[i].caller.Some? {
        return true;
      }
    }
    found := false;
  }
}
