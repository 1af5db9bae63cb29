/** What is read of an event, an operation and a transaction's hash, and which records a
    view keeps. */
module InvocationReading {
  import opened Basics
  import opened Ordering
  import opened InvocationSpec

  /** The function called is named by the first symbol after the marker. */
  lemma {:induction false} FunctionNamedIff(topics: seq<ScVal>, name: string)
    ensures FnCallFunction(topics) == Some(name)
            <==> exists i :: 1 <= i < |topics| && topics[i] == Symbol(name) && forall j :: 1 <= j < i ==>
                                                                                 !topics[j].Symbol?
    decreases |topics|
  {
    if |topics| > 1 && !topics[1].Symbol? {
      var rest := topics[1..];
      FunctionNamedIff(rest, name);
      if i :| 1 <= i < |topics| && topics[i] == Symbol(name) && forall j :: 1 <= j < i ==> !topics[j].Symbol? {
        assert rest[i - 1] == Symbol(name) && forall j :: 1 <= j < i - 1 ==> rest[j] == topics[j + 1];
      }
      if i :| 1 <= i < |rest| && rest[i] == Symbol(name) && forall j :: 1 <= j < i ==> !rest[j].Symbol? {
        assert topics[i + 1] == Symbol(name) && forall j :: 2 <= j < i + 1 ==> topics[j] == rest[j - 1];
      }
    }
  }

  /** The contract a topic names: an address of a contract, or the 32 bytes of one. */
  ghost predicate NamesContract(strkey: seq<byte> -> string, topics: seq<ScVal>, i: nat, contract: string) {
    && i < |topics|
    && (topics[i] == Address(Some(contract))
        || (topics[i].Bytes? && |topics[i].raw| == 32 && strkey(topics[i].raw) == contract))
  }

  /** A call is entered exactly when the event's first topic is the call marker and either
      its second topic names the callee, or that names no contract and the event was
      emitted by the callee. */
  lemma EnteredIff(strkey: seq<byte> -> string, e: DiagnosticEvent, callee: string)
    ensures MarkerOf(strkey, e).Enter? && MarkerOf(strkey, e).callee == callee
            <==> && |e.topics| > 0 && e.topics[0] == Symbol("fn_call")
                 && (|| NamesContract(strkey, e.topics, 1, callee)
                     || ((forall other :: !NamesContract(strkey, e.topics, 1, other)) && e.contractId == Some(callee)))
    ensures MarkerOf(strkey, e).Enter? ==>
              MarkerOf(strkey, e).ok == e.inSuccessfulCall && MarkerOf(strkey, e).function_ == FnCallFunction(e.topics)
  {
    if |e.topics| > 1 {
      var named := AddressContract(strkey, e.topics[1]);
      forall other ensures NamesContract(strkey, e.topics, 1, other) <==> named == Some(other) {
      }
      if named.Some? {
        assert NamesContract(strkey, e.topics, 1, named.value);
      }
    }
  }

  /** A call is left exactly at a return or an error marker. */
  lemma LeftIff(strkey: seq<byte> -> string, e: DiagnosticEvent)
    ensures MarkerOf(strkey, e).Exit?
            <==> |e.topics| > 0 && (e.topics[0] == Symbol("fn_return") || e.topics[0] == Symbol("fn_error"))
  {
    assert "fn_call"[3] != "fn_return"[3] && "fn_call"[3] != "fn_error"[3];
  }

  /** The record of an operation that calls a contract. */
  ghost predicate RecordsOperation(
    x: ContractInvocation, ops: seq<Operation>, i: nat, tx: string, ledger: Option<nat>, succeeded: bool)
  {
    && i < |ops| && ops[i].InvokeContract? && ops[i].contract.Some?
    && x.callee == ops[i].contract.value && x.function_ == Some(ops[i].function_) && x.caller == None
    && x.transaction == tx && x.ledger == ledger && x.operationIndex == (if i < 0x1_0000_0000 then Some(i) else None)
    && x.basis == ObservedInvocation && x.eventId == None && x.successful == Some(succeeded)
  }

  /** The records of a transaction's operations are exactly those of the operations that
      call a contract, each with its place in the transaction. */
  lemma {:induction false} OperationsRecordedIff(
    ops: seq<Operation>, tx: string, ledger: Option<nat>, succeeded: bool, x: ContractInvocation)
    ensures x in AllOperationInvocations(ops, tx, ledger, succeeded)
            <==> exists i :: RecordsOperation(x, ops, i, tx, ledger, succeeded)
    decreases |ops|
  {
    if ops != [] {
      var n := |ops| - 1;
      var before := ops[..n];
      OperationsRecordedIff(before, tx, ledger, succeeded, x);
      forall i | 0 <= i < n
        ensures RecordsOperation(x, ops, i, tx, ledger, succeeded)
                <==> RecordsOperation(x, before, i, tx, ledger, succeeded)
      {
        assert before[i] == ops[i];
      }
      assert x in OperationInvocations(ops[n], tx, ledger, n, succeeded)
             <==> RecordsOperation(x, ops, n, tx, ledger, succeeded);
      if x in AllOperationInvocations(before, tx, ledger, succeeded) {
        var i :| RecordsOperation(x, before, i, tx, ledger, succeeded);
        assert RecordsOperation(x, ops, i, tx, ledger, succeeded);
      }
      if i: nat :| RecordsOperation(x, ops, i, tx, ledger, succeeded) && i < n {
        assert RecordsOperation(x, before, i, tx, ledger, succeeded);
      }
    }
  }

  /** Two records are of the same call exactly when callee, caller, function and
      transaction agree. */
  lemma SameCallIff(x: ContractInvocation, y: ContractInvocation)
    ensures Key(x) == Key(y)
            <==> x.callee == y.callee && x.caller == y.caller && x.function_ == y.function_
                 && x.transaction == y.transaction
  {
    if Key(x) == Key(y) {
      var a, b := Key(x), Key(y);
      assert a[0] == b[0] && a[1] == b[1] && a[2] == b[2] && a[3] == b[3];
      TextFieldInjective(x.callee, y.callee);
      OptionalTextFieldInjective(x.caller, y.caller);
      OptionalTextFieldInjective(x.function_, y.function_);
      TextFieldInjective(x.transaction, y.transaction);
    }
  }

  predicate IsLowerHex(s: string) {
    |s| == 64 && forall i :: 0 <= i < |s| ==> '0' <= s[i] <= '9' || 'a' <= s[i] <= 'f'
  }

  const HEX := "0123456789abcdef"
  const HEX_CAPITALS := "0123456789ABCDEF"

  /** A digit's value is its place in one of the two alphabets. */
  ghost predicate SameDigit(held: char, given: char) {
    exists n :: 0 <= n < 16 && held == HEX[n] && (given == HEX[n] || given == HEX_CAPITALS[n])
  }

  lemma LowerDigit(given: char)
    ensures IsHexDigit(given) ==> SameDigit(ToAsciiLowercase([given])[0], given)
    ensures (exists held :: SameDigit(held, given)) ==> IsHexDigit(given)
    ensures forall held :: SameDigit(held, given) ==> held == ToAsciiLowercase([given])[0]
  {
    if IsHexDigit(given) {
      var n := if given <= '9' then given as int - '0' as int
               else if given <= 'F' then given as int - 'A' as int + 10
               else given as int - 'a' as int + 10;
      assert given == HEX[n] || given == HEX_CAPITALS[n];
    }
  }

  /** A text is a transaction hash exactly when it is 64 digits in either case, and each is
      held as the digit of the same value in lower case. */
  lemma HashReadIff(value: string, held: string)
    ensures TransactionHash(value) == Ok(held)
            <==> |value| == |held| == 64 && forall i :: 0 <= i < 64 ==> SameDigit(held[i], value[i])
  {
    hide SameDigit;
    forall i | 0 <= i < |value|
      ensures IsHexDigit(value[i]) ==> SameDigit(ToAsciiLowercase(value)[i], value[i])
      ensures |held| == |value| && SameDigit(held[i], value[i])
              ==> IsHexDigit(value[i]) && held[i] == ToAsciiLowercase(value)[i]
    {
      LowerDigit(value[i]);
    }
    if |value| == |held| == 64 && forall i :: 0 <= i < 64 ==> SameDigit(held[i], value[i]) {
      assert held == ToAsciiLowercase(value);
    }
  }

  /** A hash is held in lower case, reads back as itself, and is what any spelling of it in
      other case reads as. */
  lemma HashHeldInLowerCase(value: string)
    ensures TransactionHash(value).Ok? ==> IsLowerHex(TransactionHash(value).value)
    ensures IsLowerHex(value) ==> TransactionHash(value) == Ok(value)
    ensures TransactionHash(value).Ok? ==> TransactionHash(TransactionHash(value).value) == TransactionHash(value)
  {
    if TransactionHash(value).Ok? {
      var held := TransactionHash(value).value;
      forall i | 0 <= i < |held| ensures '0' <= held[i] <= '9' || 'a' <= held[i] <= 'f' {
        assert IsHexDigit(value[i]);
      }
      LowerStays(held);
    }
    if IsLowerHex(value) {
      LowerStays(value);
    }
  }

  lemma LowerStays(s: string)
    requires IsLowerHex(s)
    ensures TransactionHash(s) == Ok(s)
  {
    assert ToAsciiLowercase(s) == s;
  }

  lemma {:induction false} EdgeMembers(xs: seq<ContractInvocation>, x: ContractInvocation)
    ensures x in CrossContractEdges(xs) <==> x in xs && x.caller.Some? && x.caller.value != x.callee
  {
    if xs != [] {
      EdgeMembers(xs[1..], x);
      assert xs == [xs[0]] + xs[1..];
    }
  }

  /** The calls that concern a contract are the calls made to it and the edges that leave
      it; a call it makes to itself is among the first only. */
  lemma {:induction false} TouchingSplits(xs: seq<ContractInvocation>, contract: string, x: ContractInvocation)
    ensures x in Touching(xs, contract)
            <==> (x in xs && x.callee == contract) || (x in CrossContractEdges(xs) && x.caller == Some(contract))
  {
    EdgeMembers(xs, x);
    if xs != [] {
      TouchingSplits(xs[1..], contract, x);
      EdgeMembers(xs[1..], x);
      assert xs == [xs[0]] + xs[1..];
    }
  }
}
