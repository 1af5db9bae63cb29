/** The evidence `invocations.rs` reads and the records it makes of it. */
module InvocationSpec {
  import opened Basics
  import opened Ordering

  /** A topic of a diagnostic event. An address carries the text of the contract it
      names, and nothing when it names an account. */
  datatype ScVal = Symbol(text: string) | Address(contract: Option<string>) | Bytes(raw: seq<byte>) | OtherVal

  datatype DiagnosticEvent = DiagnosticEvent(topics: seq<ScVal>, contractId: Option<string>, inSuccessfulCall: bool)

  /** The two kinds of evidence an invocation rests on, and their places among the
      source's eight bases, which are declared strongest first. */
  datatype Basis = ObservedInvocation | ObservedEvent {
    function Rank(): nat {
      if ObservedInvocation? then 2 else 3
    }
  }

  datatype ContractInvocation = ContractInvocation(
    callee: string,
    caller: Option<string>,
    function_: Option<string>,
    transaction: string,
    ledger: Option<nat>,
    operationIndex: Option<nat>,
    basis: Basis,
    eventId: Option<string>,
    successful: Option<bool>)
  {
    predicate IsCrossContract() {
      caller.Some? && caller.value != callee
    }
  }

  // ----- Reading one event -----

  /** What an event is to the replay. `Skipped` is a `fn_call` whose callee cannot be
      decoded; `fn_return` and `fn_error` are both exits. */
  datatype Marker = Enter(callee: string, function_: Option<string>, ok: bool) | Skipped | Exit | Unrelated

  function FirstSymbol(e: DiagnosticEvent): Option<string> {
    if e.topics != [] && e.topics[0].Symbol? then Some(e.topics[0].text) else None
  }

  /** The contract a topic names. `strkey` renders a contract's 32 bytes as text. */
  function AddressContract(strkey: seq<byte> -> string, value: ScVal): Option<string> {
    match value
    case Address(contract) => contract
    case Bytes(raw) => if |raw| == 32 then Some(strkey(raw)) else None
    case _ => None
  }

  function FnCallCallee(strkey: seq<byte> -> string, e: DiagnosticEvent): Option<string> {
    var fromTopic := if |e.topics| > 1 then AddressContract(strkey, e.topics[1]) else None;
    if fromTopic.Some? then fromTopic else e.contractId
  }

  /** The first symbol after the marker. */
  function FnCallFunction(topics: seq<ScVal>): Option<string>
    decreases |topics|
  {
    if |topics| <= 1 then None
    else if topics[1].Symbol? then Some(topics[1].text)
    else FnCallFunction(topics[1..])
  }

  function MarkerOf(strkey: seq<byte> -> string, e: DiagnosticEvent): Marker {
    match FirstSymbol(e)
    case None => Unrelated
    case Some(topic) =>
      if topic == "fn_call" then
        match FnCallCallee(strkey, e)
        case None => Skipped
        case Some(callee) => Enter(callee, FnCallFunction(e.topics), e.inSuccessfulCall)
      else if topic == "fn_return" || topic == "fn_error" then Exit
      else Unrelated
  }

  function Markers(strkey: seq<byte> -> string, events: seq<DiagnosticEvent>): (ms: seq<Marker>)
    ensures |ms| == |events|
  {
    seq(|events|, i requires 0 <= i < |events| => MarkerOf(strkey, events[i]))
  }

  // ----- The call stack -----

  function Step(open: seq<nat>, m: Marker, i: nat): seq<nat> {
    match m
    case Enter(_, _, _) => open + [i]
    case Exit => if open == [] then [] else open[..|open| - 1]
    case _ => open
  }

  /** The calls entered at or after `from` and still open before marker `until`, by the
      positions of their markers, outermost first. */
  function Open(ms: seq<Marker>, from: nat, until: nat): (open: seq<nat>)
    requires from <= until <= |ms|
    ensures Nested(ms, from, until, open)
    decreases until
  {
    if from == until then [] else Step(Open(ms, from, until - 1), ms[until - 1], until - 1)
  }

  /** Positions of entered calls of the window, outermost first. */
  ghost predicate Nested(ms: seq<Marker>, from: nat, until: nat, open: seq<nat>)
    requires until <= |ms|
  {
    && (forall k :: 0 <= k < |open| ==> from <= open[k] < until && ms[open[k]].Enter?)
    && (forall j, k :: 0 <= j < k < |open| ==> open[j] < open[k])
  }

  /** Positions of entered calls of the window, each with one entered before it. */
  ghost predicate Linked(ms: seq<Marker>, from: nat, until: nat, calls: seq<(nat, Option<nat>)>)
    requires until <= |ms|
  {
    forall k :: 0 <= k < |calls| ==>
      && from <= calls[k].0 < until && ms[calls[k].0].Enter?
      && (calls[k].1.Some? ==> from <= calls[k].1.value < calls[k].0 && ms[calls[k].1.value].Enter?)
  }

  function Innermost(open: seq<nat>): Option<nat> {
    if open == [] then None else Some(open[|open| - 1])
  }

  /** Every call marked in the window, with the call it was made from, as the positions
      of their markers. */
  function Calls(ms: seq<Marker>, from: nat, until: nat): (calls: seq<(nat, Option<nat>)>)
    requires from <= until <= |ms|
    ensures Linked(ms, from, until, calls)
    decreases until
  {
    if from == until then []
    else
      Calls(ms, from, until - 1)
      + if ms[until - 1].Enter? then [(until - 1, Innermost(Open(ms, from, until - 1)))] else []
  }

  lemma NothingYet(ms: seq<Marker>, at: nat)
    requires at <= |ms|
    ensures Open(ms, at, at) == [] && Calls(ms, at, at) == []
  {
  }

  lemma OneStep(ms: seq<Marker>, from: nat, at: nat)
    requires from <= at < |ms|
    ensures Open(ms, from, at + 1) == Step(Open(ms, from, at), ms[at], at)
    ensures Calls(ms, from, at + 1) == if ms[at].Enter? then Calls(ms, from, at) + [(at, Innermost(Open(ms, from, at)))]
                                       else Calls(ms, from, at)
  {
  }

  lemma CallsBefore(ms: seq<Marker>, until: nat)
    requires until <= |ms|
    ensures forall k :: 0 <= k < |Calls(ms, 0, until)| ==> Calls(ms, 0, until)[k].0 < until
  {
    hide Calls;
  }

  lemma OpenBefore(ms: seq<Marker>, from: nat, until: nat)
    requires from <= until <= |ms|
    ensures forall k :: 0 <= k < |Open(ms, from, until)| ==>
              Open(ms, from, until)[k] < until && ms[Open(ms, from, until)[k]].Enter?
  {
    hide Open;
  }

  lemma OpenIncreases(ms: seq<Marker>, from: nat, until: nat)
    requires from <= until <= |ms|
    ensures forall j, k :: 0 <= j < k < |Open(ms, from, until)| ==> Open(ms, from, until)[j] < Open(ms, from, until)[k]
  {
    hide Open;
  }

  // ----- Records -----

  function FromDiagnostic(
    ms: seq<Marker>, call: (nat, Option<nat>), tx: string, ledger: Option<nat>, succeeded: bool): ContractInvocation
    requires call.0 < |ms| && ms[call.0].Enter?
    requires call.1.Some? ==> call.1.value < |ms| && ms[call.1.value].Enter?
  {
    var m := ms[call.0];
    var caller := if call.1.Some? then Some(ms[call.1.value].callee) else None;
    ContractInvocation(m.callee, caller, m.function_, tx, ledger, None, ObservedEvent, None, Some(succeeded && m.ok))
  }

  /** The records of a list of calls, in order. */
  function FromCalls(
    ms: seq<Marker>, calls: seq<(nat, Option<nat>)>, tx: string, ledger: Option<nat>,
    succeeded: bool): seq<ContractInvocation>
    requires Linked(ms, 0, |ms|, calls)
  {
    seq(|calls|, k requires 0 <= k < |calls| => FromDiagnostic(ms, calls[k], tx, ledger, succeeded))
  }

  datatype Operation = InvokeContract(contract: Option<string>, function_: string) | OtherOperation

  /** A transaction as the network layer reports it. */
  datatype Observation = Observation(
    hash: string,
    ledger: Option<nat>,
    successful: bool,
    envelope: Option<seq<Operation>>,
    diagnosticEvents: seq<DiagnosticEvent>)

  datatype InvocationObservations = InvocationObservations(
    invocations: seq<ContractInvocation>,
    diagnosticsAvailable: bool,
    nestingRecovered: bool)

  predicate IsHexDigit(c: char) {
    '0' <= c <= '9' || 'a' <= c <= 'f' || 'A' <= c <= 'F'
  }

  function ToAsciiLowercase(s: string): string {
    seq(|s|, i requires 0 <= i < |s| => if 'A' <= s[i] <= 'Z' then s[i] - 'A' + 'a' else s[i])
  }

  /** A transaction hash is 64 hexadecimal digits, held in lower case. */
  function TransactionHash(value: string): Result<string> {
    if |value| != 64 || exists i :: 0 <= i < |value| && !IsHexDigit(value[i]) then Err
    else Ok(ToAsciiLowercase(value))
  }

  /** The record of the operation at `index`, when it names a contract. */
  function OperationInvocations(
    op: Operation, tx: string, ledger: Option<nat>, index: nat, succeeded: bool): seq<ContractInvocation> {
    if op.OtherOperation? || op.contract.None? then []
    else
      var at := if index < 0x1_0000_0000 then Some(index) else None;
      [ContractInvocation(op.contract.value, None, Some(op.function_), tx, ledger, at, ObservedInvocation, None,
                          Some(succeeded))]
  }

  function AllOperationInvocations(
    ops: seq<Operation>, tx: string, ledger: Option<nat>, succeeded: bool): seq<ContractInvocation>
    decreases |ops|
  {
    if ops == [] then []
    else
      var n := |ops| - 1;
      AllOperationInvocations(ops[..n], tx, ledger, succeeded) + OperationInvocations(ops[n], tx, ledger, n, succeeded)
  }

  // ----- Canonical order -----

  /** What makes two records the same call. */
  function Key(x: ContractInvocation): Row {
    [TextField(x.callee), OptionalTextField(x.caller), OptionalTextField(x.function_), TextField(x.transaction)]
  }

  function KeyAndBasis(x: ContractInvocation): Row {
    Key(x) + [[x.basis.Rank()]]
  }

  function Canonicalise(xs: seq<ContractInvocation>): seq<ContractInvocation> {
    Dedup(Key, Sort(KeyAndBasis, xs))
  }

  function Recorded(strkey: seq<byte> -> string, o: Observation, tx: string): seq<ContractInvocation> {
    AllOperationInvocations(if o.envelope.Some? then o.envelope.value else [], tx, o.ledger, o.successful)
    + Replayed(strkey, o, tx)
  }

  function Replayed(strkey: seq<byte> -> string, o: Observation, tx: string): seq<ContractInvocation> {
    var ms := Markers(strkey, o.diagnosticEvents);
    FromCalls(ms, Calls(ms, 0, |ms|), tx, o.ledger, o.successful)
  }

  predicate AnyCaller(xs: seq<ContractInvocation>) {
    exists i :: 0 <= i < |xs| && xs[i].caller.Some?
  }

  /** What a transaction evidences. */
  function InvocationsFromTransaction(strkey: seq<byte> -> string, o: Observation): Result<InvocationObservations> {
    var tx :- TransactionHash(o.hash);
    Ok(InvocationObservations(
         Canonicalise(Recorded(strkey, o, tx)),
         o.diagnosticEvents != [],
         AnyCaller(Replayed(strkey, o, tx))))
  }

  // ----- Views -----

  predicate Touches(x: ContractInvocation, contract: string) {
    x.callee == contract || (x.IsCrossContract() && x.caller == Some(contract))
  }

  /** The calls made to a contract and the cross-contract calls made by it. */
  function Touching(xs: seq<ContractInvocation>, contract: string): seq<ContractInvocation> {
    if xs == [] then []
    else (if Touches(xs[0], contract) then [xs[0]] else []) + Touching(xs[1..], contract)
  }

  function CrossContractEdges(xs: seq<ContractInvocation>): seq<ContractInvocation> {
    if xs == [] then []
    else (if xs[0].IsCrossContract() then [xs[0]] else []) + CrossContractEdges(xs[1..])
  }
}
