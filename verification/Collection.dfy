/** What the bounded reading of transactions conserves, and when its result is unique and
    complete. */
module Collection {
  import opened Basics
  import opened Ordering
  import opened TextOrder
  import opened InvocationSpec
  import opened InvocationCanonical
  import opened InspectorSpec

  // ----- The transactions to read -----

  lemma {:induction false} ReportedMembers(emitted: seq<Option<string>>, h: string)
    ensures h in Reported(emitted) <==> Some(h) in emitted
  {
    if emitted != [] {
      ReportedMembers(emitted[1..], h);
      assert emitted == [emitted[0]] + emitted[1..];
    }
  }

  lemma DistinctFacts(emitted: seq<Option<string>>)
    ensures Strict(HashRow, Distinct(emitted))
    ensures forall h :: h in Distinct(emitted) <==> Some(h) in emitted
  {
    forall x, y ensures HashRow(x) == HashRow(y) ==> x == y {
      if HashRow(x) == HashRow(y) {
        assert HashRow(x)[0] == HashRow(y)[0];
        TextFieldInjective(x, y);
      }
    }
    SortedSet(HashRow, Reported(emitted));
    forall h ensures h in Reported(emitted) <==> Some(h) in emitted {
      ReportedMembers(emitted, h);
    }
  }

  /** Some event of the scan names the transaction. */
  ghost predicate Names(events: seq<Event>, h: string) {
    exists e :: e in events && e.transaction == Some(h)
  }

  /** The transactions to read are exactly those the scan's events name, each text once, in
      the order of their characters. */
  lemma TransactionsNamed(events: seq<Event>)
    ensures var hashes := Distinct(TransactionsOf(events));
            && (forall h :: h in hashes <==> Names(events, h))
            && (forall i, j :: 0 <= i < j < |hashes| ==> TextBefore(hashes[i], hashes[j]))
  {
    hide Distinct, Less, TextBefore;
    var named := TransactionsOf(events);
    DistinctFacts(named);
    forall h ensures Some(h) in named <==> Names(events, h) {
      if Some(h) in named {
        var i :| 0 <= i < |named| && named[i] == Some(h);
        assert events[i] in events;
      }
      if Names(events, h) {
        var e :| e in events && e.transaction == Some(h);
        var i :| 0 <= i < |events| && events[i] == e;
        assert named[i] == Some(h);
      }
    }
    var hashes := Distinct(named);
    forall i, j | 0 <= i < j < |hashes| ensures TextBefore(hashes[i], hashes[j]) {
      TextRowOrder(hashes[i], hashes[j]);
    }
  }

  // ----- Nothing is unaccounted for -----

  lemma {:induction false} MetEverything(fates: seq<Fate>)
    ensures Met(fates) == fates <==> forall i :: 0 <= i < |fates| ==> !Stops(fates[i])
  {
    if fates != [] {
      MetEverything(fates[1..]);
      assert fates == [fates[0]] + fates[1..];
      assert forall i :: 0 < i < |fates| ==> fates[i] == fates[1..][i - 1];
      if !Stops(fates[0]) {
        assert Met(fates)[1..] == Met(fates[1..]);
      }
    }
  }

  /** The reading finishes exactly when it is not cancelled before any transaction, the
      network answers every request and every transaction it finds can be used; and then it
      has met what it would have met uncancelled. */
  lemma FinishedIff(cancelled: nat -> bool, fates: seq<Fate>)
    ensures var fs := Interrupts(cancelled, fates);
            && (Met(fs) == fs <==> forall i :: 0 <= i < |fates| ==>
                                     !cancelled(i) && !fates[i].Unanswered? && !fates[i].Unusable?
                                       && !fates[i].Interrupted?)
            && (Met(fs) == fs ==> fs == fates)
  {
    hide Met;
    var fs := Interrupts(cancelled, fates);
    MetEverything(fs);
    forall i | 0 <= i < |fates|
      ensures Stops(fs[i]) <==> cancelled(i) || fates[i].Unanswered? || fates[i].Unusable? || fates[i].Interrupted?
    {
    }
    if Met(fs) == fs {
      assert forall i :: 0 <= i < |fs| ==> fs[i] == fates[i];
    }
  }

  lemma {:induction false} FatesCounted(fates: seq<Fate>)
    requires Met(fates) == fates
    ensures |fates| == ReadCount(fates) + |Absences(fates)| + MalformedCount(fates)
    ensures forall i :: 0 <= i < |Absences(fates)| ==> Absences(fates)[i] == EvidenceUnavailable
  {
    if fates != [] {
      assert Met(fates)[1..] == Met(fates[1..]);
      FatesCounted(fates[1..]);
    }
  }

  lemma {:induction false} AbsencesOnly(fates: seq<Fate>)
    ensures MaxNodesReached !in Absences(fates)
  {
    if fates != [] {
      AbsencesOnly(fates[1..]);
    }
  }

  /** The reasons the reading itself adds, after the scan's own. */
  function Pushed(hashes: seq<string>, bound: nat, fates: seq<Fate>): seq<TruncationReason> {
    (if |hashes| > bound then [MaxNodesReached] else []) + Absences(Met(fates))
  }

  /** The first transactions in order are read; every one within the bound is found, reported as unavailable, or
      malformed; and the bound is reported exactly when it cut something off, even when
      the reading then fails. */
  lemma ReadingConserves(
    strkey: seq<byte> -> string, fetch: string -> Fetched, cancelled: nat -> bool, contract: string,
    emitted: seq<Option<string>>, bound: nat)
    ensures var hashes := Distinct(emitted);
            var fates := Interrupts(cancelled, Fates(strkey, fetch, contract, Cut(hashes, bound)));
            var pushed := Pushed(hashes, bound, fates);
            && Cut(hashes, bound) <= hashes
            && (MaxNodesReached in pushed <==> |hashes| > bound)
            && (Met(fates) == fates ==>
                  (if |hashes| < bound then |hashes| else bound)
                  == ReadCount(fates) + multiset(pushed)[EvidenceUnavailable] + MalformedCount(fates))
  {
    var hashes := Distinct(emitted);
    var fates := Interrupts(cancelled, Fates(strkey, fetch, contract, Cut(hashes, bound)));
    AbsencesOnly(Met(fates));
    if Met(fates) == fates {
      FatesCounted(fates);
      AllTheSame(Absences(fates), EvidenceUnavailable);
    }
  }

  lemma {:induction false} AllTheSame<T>(xs: seq<T>, v: T)
    requires forall i :: 0 <= i < |xs| ==> xs[i] == v
    ensures multiset(xs)[v] == |xs|
  {
    if xs != [] {
      assert xs == [xs[0]] + xs[1..];
      AllTheSame(xs[1..], v);
    }
  }

  // ----- The result is the union of what was read -----

  lemma {:induction false} GatheredMembers(fates: seq<Fate>, x: ContractInvocation)
    ensures x in Gathered(fates) <==> exists f :: f in fates && f.Read? && x in f.records
  {
    if fates != [] {
      GatheredMembers(fates[1..], x);
      assert fates == [fates[0]] + fates[1..];
    }
  }

  lemma {:induction false} TouchingMembers(xs: seq<ContractInvocation>, contract: string, x: ContractInvocation)
    ensures x in Touching(xs, contract) <==> x in xs && Touches(x, contract)
  {
    if xs != [] {
      TouchingMembers(xs[1..], contract, x);
      assert xs == [xs[0]] + xs[1..];
    }
  }

  lemma FullRowInjective(x: ContractInvocation, y: ContractInvocation)
    requires FullRow(x) == FullRow(y)
    ensures x == y
  {
    var a, b := FullRow(x), FullRow(y);
    assert a[0] == b[0] && a[1] == b[1] && a[2] == b[2] && a[3] == b[3] && a[4] == b[4];
    assert a[5] == b[5] && a[6] == b[6] && a[7] == b[7] && a[8] == b[8];
    assert a[6][0] == b[6][0];
    TextFieldInjective(x.callee, y.callee);
    TextFieldInjective(x.transaction, y.transaction);
    OptionalTextFieldInjective(x.caller, y.caller);
    OptionalTextFieldInjective(x.function_, y.function_);
    OptionalTextFieldInjective(x.eventId, y.eventId);
    OptionalNatFieldInjective(x.ledger, y.ledger);
    OptionalNatFieldInjective(x.operationIndex, y.operationIndex);
    if x.successful.Some? && y.successful.Some? {
      assert a[8][1] == b[8][1];
    }
  }

  lemma OptionalNatFieldInjective(a: Option<nat>, b: Option<nat>)
    requires OptionalNatField(a) == OptionalNatField(b)
    ensures a == b
  {
    if a.Some? && b.Some? {
      assert OptionalNatField(a)[1] == OptionalNatField(b)[1];
    }
  }

  lemma CanonicalRecordsFacts(xs: seq<ContractInvocation>)
    ensures Strict(FullRow, CanonicalRecords(xs))
    ensures forall x :: x in CanonicalRecords(xs) <==> x in xs
  {
    hide FullRow;
    forall x, y ensures FullRow(x) == FullRow(y) ==> x == y {
      if FullRow(x) == FullRow(y) {
        FullRowInjective(x, y);
      }
    }
    SortedSet(FullRow, xs);
  }

  /** The transaction a hash names was found, evidences the call, and the call touches the
      contract. */
  ghost predicate Evidences(
    strkey: seq<byte> -> string, fetch: string -> Fetched, contract: string, h: string, x: ContractInvocation)
  {
    var fate := FateOf(strkey, fetch, contract, h);
    fate.Read? && x in fate.records
  }

  /** A record is in the result exactly when some transaction within the bound evidences
      it: nothing read is dropped and nothing else appears. */
  lemma ResultIsTheUnion(strkey: seq<byte> -> string, fetch: string -> Fetched, contract: string, hashes: seq<string>)
    ensures var result := CanonicalRecords(Gathered(Fates(strkey, fetch, contract, hashes)));
            forall x :: x in result <==> exists h :: h in hashes && Evidences(strkey, fetch, contract, h, x)
  {
    hide FateOf, CanonicalRecords, Gathered;
    var fates := Fates(strkey, fetch, contract, hashes);
    CanonicalRecordsFacts(Gathered(fates));
    forall x ensures x in Gathered(fates) <==> exists h :: h in hashes && Evidences(strkey, fetch, contract, h, x) {
      GatheredMembers(fates, x);
      if x in Gathered(fates) {
        var f :| f in fates && f.Read? && x in f.records;
        var i :| 0 <= i < |fates| && fates[i] == f;
        assert hashes[i] in hashes && Evidences(strkey, fetch, contract, hashes[i], x);
      }
      if exists h :: h in hashes && Evidences(strkey, fetch, contract, h, x) {
        var h :| h in hashes && Evidences(strkey, fetch, contract, h, x);
        var i :| 0 <= i < |hashes| && hashes[i] == h;
        assert fates[i] in fates;
      }
    }
  }

  /** When the reading finished and reported neither the bound, an absence nor a malformed
      hash, its result is the union of the touching calls of every transaction that the
      scan's events name. */
  lemma NothingMissed(
    strkey: seq<byte> -> string, fetch: string -> Fetched, contract: string, events: seq<Event>, bound: nat)
    ensures var hashes := Distinct(TransactionsOf(events));
            var fates := Fates(strkey, fetch, contract, Cut(hashes, bound));
            Met(fates) == fates && Pushed(hashes, bound, fates) == [] && MalformedCount(fates) == 0 ==>
              && (forall h :: Names(events, h) ==> FateOf(strkey, fetch, contract, h).Read?)
              && forall x :: x in CanonicalRecords(Gathered(fates))
                             <==> exists h :: Names(events, h) && Evidences(strkey, fetch, contract, h, x)
  {
    hide FateOf, CanonicalRecords, Gathered, Distinct, Evidences, Names;
    var hashes := Distinct(TransactionsOf(events));
    var fates := Fates(strkey, fetch, contract, Cut(hashes, bound));
    if Met(fates) == fates && Pushed(hashes, bound, fates) == [] && MalformedCount(fates) == 0 {
      assert Cut(hashes, bound) == hashes;
      TransactionsNamed(events);
      ResultIsTheUnion(strkey, fetch, contract, hashes);
      FatesCounted(fates);
      EveryFateRead(fates);
      forall h | Names(events, h) ensures FateOf(strkey, fetch, contract, h).Read? {
        var i :| 0 <= i < |hashes| && hashes[i] == h;
        assert fates[i].Read?;
      }
    }
  }

  lemma {:induction false} EveryFateRead(fates: seq<Fate>)
    requires ReadCount(fates) == |fates|
    ensures forall i :: 0 <= i < |fates| ==> fates[i].Read?
  {
    if fates != [] {
      ReadCountBound(fates[1..]);
      EveryFateRead(fates[1..]);
      assert fates == [fates[0]] + fates[1..];
    }
  }

  lemma {:induction false} ReadCountBound(fates: seq<Fate>)
    ensures ReadCount(fates) <= |fates|
  {
    if fates != [] {
      ReadCountBound(fates[1..]);
    }
  }

  // ----- One record per call -----

  /** The hash under which the network reports the transaction that `h` names. */
  function AnsweredAs(fetch: string -> Fetched, h: string): Result<string> {
    var hash :- TransactionHash(h);
    match fetch(hash)
    case Found(observation) => TransactionHash(observation.hash)
    case _ => Err
  }

  /** Different transactions are answered under different hashes. */
  ghost predicate AnswersApart(fetch: string -> Fetched, hashes: seq<string>) {
    forall g, h ::
      g in hashes && h in hashes && AnsweredAs(fetch, g).Ok? && AnsweredAs(fetch, g) == AnsweredAs(fetch, h)
      ==> TransactionHash(g) == TransactionHash(h)
  }

  ghost predicate OnePerCall(records: seq<ContractInvocation>) {
    forall i, j :: 0 <= i < j < |records| ==> Key(records[i]) != Key(records[j])
  }

  /** The result has at most one record of each call, whatever order, repetition or case
      the hashes were reported in. */
  lemma OneRecordPerCall(strkey: seq<byte> -> string, fetch: string -> Fetched, contract: string, hashes: seq<string>)
    requires AnswersApart(fetch, hashes)
    ensures OnePerCall(CanonicalRecords(Gathered(Fates(strkey, fetch, contract, hashes))))
  {
    hide CanonicalRecords, Gathered, Evidences, FullRow, Key;
    var result := CanonicalRecords(Gathered(Fates(strkey, fetch, contract, hashes)));
    ResultIsTheUnion(strkey, fetch, contract, hashes);
    CanonicalRecordsFacts(Gathered(Fates(strkey, fetch, contract, hashes)));
    forall i, j | 0 <= i < j < |result| ensures Key(result[i]) != Key(result[j]) {
      var x, y := result[i], result[j];
      RowLaws(FullRow(x), FullRow(x), FullRow(x));
      assert x in result && y in result;
      var g :| g in hashes && Evidences(strkey, fetch, contract, g, x);
      var h :| h in hashes && Evidences(strkey, fetch, contract, h, y);
      if Key(x) == Key(y) {
        SameCallSameRecord(strkey, fetch, contract, g, h, x, y);
      }
    }
  }

  lemma SameCallSameRecord(
      strkey: seq<byte> -> string, fetch: string -> Fetched, contract: string, g: string, h: string,
      x: ContractInvocation, y: ContractInvocation)
    requires Evidences(strkey, fetch, contract, g, x) && Evidences(strkey, fetch, contract, h, y) && Key(x) == Key(y)
    requires AnsweredAs(fetch, g).Ok? && AnsweredAs(fetch, g) == AnsweredAs(fetch, h)
             ==> TransactionHash(g) == TransactionHash(h)
    ensures x == y
  {
    hide Touching, Canonicalise, Key, TransactionHash, Recorded, Replayed;
    EvidenceOf(strkey, fetch, contract, g, x);
    EvidenceOf(strkey, fetch, contract, h, y);
    SameTransaction(x, y);
    var found := InvocationsFromTransaction(strkey, fetch(TransactionHash(g).value).observation).value.invocations;
    var i :| 0 <= i < |found| && found[i] == x;
    var j :| 0 <= j < |found| && found[j] == y;
    RowLaws(Key(x), Key(x), Key(x));
  }

  lemma EvidenceOf(
    strkey: seq<byte> -> string, fetch: string -> Fetched, contract: string, h: string, x: ContractInvocation)
    requires Evidences(strkey, fetch, contract, h, x)
    ensures TransactionHash(h).Ok? && fetch(TransactionHash(h).value).Found?
    ensures var found := InvocationsFromTransaction(strkey, fetch(TransactionHash(h).value).observation);
            found.Ok? && x in found.value.invocations && Strict(Key, found.value.invocations)
    ensures AnsweredAs(fetch, h) == Ok(x.transaction)
  {
    hide Touching, Canonicalise, Key, TransactionHash, Recorded, Replayed;
    var observation := fetch(TransactionHash(h).value).observation;
    TouchingMembers(InvocationsFromTransaction(strkey, observation).value.invocations, contract, x);
    TransactionMerge(strkey, observation);
  }

  lemma SameTransaction(x: ContractInvocation, y: ContractInvocation)
    requires Key(x) == Key(y)
    ensures x.transaction == y.transaction
  {
    assert Key(x)[3] == Key(y)[3];
    TextFieldInjective(x.transaction, y.transaction);
  }

  /** The network reports the transactions it finds under the hashes `reported` gives. */
  ghost predicate AnswersUnder(fetch: string -> Fetched, reported: string -> string) {
    forall hash :: fetch(hash).Found? ==> fetch(hash).observation.hash == reported(hash)
  }

  /** No two transactions to read are reported under one hash. */
  ghost predicate ReportedApart(reported: string -> string, hashes: seq<string>) {
    forall g, h ::
      g in hashes && h in hashes && ReportedAs(reported, g).Ok? && ReportedAs(reported, g) == ReportedAs(reported, h)
      ==> TransactionHash(g) == TransactionHash(h)
  }

  function ReportedAs(reported: string -> string, h: string): Result<string> {
    var hash :- TransactionHash(h);
    TransactionHash(reported(hash))
  }

  /** For any hashes: whatever the transactions hold, each call has one record, exactly when
      no two of them are reported under one hash. */
  lemma OneRecordPerCallIff(
    strkey: seq<byte> -> string, contract: string, hashes: seq<string>, reported: string -> string)
    ensures (forall fetch :: AnswersUnder(fetch, reported)
                             ==> OnePerCall(CanonicalRecords(Gathered(Fates(strkey, fetch, contract, hashes)))))
            <==> ReportedApart(reported, hashes)
  {
    hide CanonicalRecords, Gathered, Fates, TransactionHash, Key;
    if ReportedApart(reported, hashes) {
      forall fetch | AnswersUnder(fetch, reported)
        ensures OnePerCall(CanonicalRecords(Gathered(Fates(strkey, fetch, contract, hashes))))
      {
        OneRecordPerCall(strkey, fetch, contract, hashes);
      }
    } else {
      var g, h :| && g in hashes && h in hashes && ReportedAs(reported, g).Ok?
                  && ReportedAs(reported, g) == ReportedAs(reported, h) && TransactionHash(g) != TransactionHash(h);
      var fetch := CollidingAnswersSplitACall(strkey, contract, hashes, reported, g, h);
      assert AnswersUnder(fetch, reported)
             && !OnePerCall(CanonicalRecords(Gathered(Fates(strkey, fetch, contract, hashes))));
    }
  }

  /** Whenever two different transactions are reported under one hash, some contents of
      theirs put two records of one call in the result. */
  lemma CollidingAnswersSplitACall(
    strkey: seq<byte> -> string, contract: string, hashes: seq<string>, reported: string -> string, g: string,
    h: string)
    returns (fetch: string -> Fetched)
    requires g in hashes && h in hashes && TransactionHash(g) != TransactionHash(h)
    requires ReportedAs(reported, g).Ok? && ReportedAs(reported, g) == ReportedAs(reported, h)
    ensures AnswersUnder(fetch, reported)
    ensures !OnePerCall(CanonicalRecords(Gathered(Fates(strkey, fetch, contract, hashes))))
  {
    hide CanonicalRecords, Gathered, Fates, TransactionHash, OneCall, TheCall, Evidences, Key, OnePerCall;
    var first, second := TransactionHash(g).value, TransactionHash(h).value;
    fetch := (hash: string) => Found(OneCall(reported(hash), contract, hash == first));
    OneCallEvidenced(strkey, fetch, contract, g, reported(first), true);
    OneCallEvidenced(strkey, fetch, contract, h, reported(second), false);
    SameCallTwoRecords(reported(first), reported(second), contract);
    EvidencedTwice(strkey, fetch, contract, hashes, g, h, TheCall(reported(first), contract, true),
                   TheCall(reported(second), contract, false));
    forall hash ensures fetch(hash).observation.hash == reported(hash) {
      HashOfOneCall(reported(hash), contract, hash == first);
    }
  }

  lemma EvidencedTwice(
    strkey: seq<byte> -> string, fetch: string -> Fetched, contract: string, hashes: seq<string>, g: string, h: string,
    x: ContractInvocation, y: ContractInvocation)
    requires g in hashes && h in hashes && Evidences(strkey, fetch, contract, g, x)
    requires Evidences(strkey, fetch, contract, h, y)
    requires x != y && Key(x) == Key(y)
    ensures !OnePerCall(CanonicalRecords(Gathered(Fates(strkey, fetch, contract, hashes))))
  {
    hide CanonicalRecords, Gathered, Fates, Evidences, Key, OnePerCall;
    Returned(strkey, fetch, contract, hashes, g, x);
    Returned(strkey, fetch, contract, hashes, h, y);
    TwoOfOneCall(CanonicalRecords(Gathered(Fates(strkey, fetch, contract, hashes))), x, y);
  }

  lemma Returned(
    strkey: seq<byte> -> string, fetch: string -> Fetched, contract: string, hashes: seq<string>, h: string,
    x: ContractInvocation)
    requires h in hashes && Evidences(strkey, fetch, contract, h, x)
    ensures x in CanonicalRecords(Gathered(Fates(strkey, fetch, contract, hashes)))
  {
    hide CanonicalRecords, Gathered, FateOf;
    ResultIsTheUnion(strkey, fetch, contract, hashes);
  }

  lemma HashOfOneCall(hash: string, contract: string, successful: bool)
    ensures OneCall(hash, contract, successful).hash == hash
  {
  }

  lemma OneCallEvidenced(
    strkey: seq<byte> -> string, fetch: string -> Fetched, contract: string, h: string, answered: string,
    successful: bool)
    requires TransactionHash(h).Ok? && TransactionHash(answered).Ok?
    requires fetch(TransactionHash(h).value) == Found(OneCall(answered, contract, successful))
    ensures Evidences(strkey, fetch, contract, h, TheCall(answered, contract, successful))
  {
    hide TransactionHash, Touching, InvocationsFromTransaction;
    OneCallRead(strkey, answered, contract, successful);
  }

  lemma SameCallTwoRecords(a: string, b: string, contract: string)
    requires TransactionHash(a).Ok? && TransactionHash(a) == TransactionHash(b)
    ensures Key(TheCall(a, contract, true)) == Key(TheCall(b, contract, false))
    ensures TheCall(a, contract, true) != TheCall(b, contract, false)
  {
    hide TransactionHash;
  }

  lemma TwoOfOneCall(records: seq<ContractInvocation>, x: ContractInvocation, y: ContractInvocation)
    requires x in records && y in records && x != y && Key(x) == Key(y)
    ensures !OnePerCall(records)
  {
    hide Key;
    var i :| 0 <= i < |records| && records[i] == x;
    var j :| 0 <= j < |records| && records[j] == y;
    if j < i {
      assert Key(records[j]) == Key(records[i]);
    } else {
      assert Key(records[i]) == Key(records[j]);
    }
  }

  /** A transaction with one operation, which calls the contract. */
  function OneCall(hash: string, contract: string, successful: bool): Observation {
    Observation(hash, None, successful, Some([InvokeContract(Some(contract), "call")]), [])
  }

  function TheCall(hash: string, contract: string, successful: bool): ContractInvocation
    requires TransactionHash(hash).Ok?
  {
    ContractInvocation(contract, None, Some("call"), TransactionHash(hash).value, None, Some(0), ObservedInvocation,
                       None, Some(successful))
  }

  lemma OneCallRead(strkey: seq<byte> -> string, hash: string, contract: string, successful: bool)
    requires TransactionHash(hash).Ok?
    ensures var found := InvocationsFromTransaction(strkey, OneCall(hash, contract, successful));
            found.Ok? && Touching(found.value.invocations, contract) == [TheCall(hash, contract, successful)]
  {
    hide TransactionHash, Key, KeyAndBasis;
    var o, x, tx := OneCall(hash, contract, successful), TheCall(hash, contract, successful),
                    TransactionHash(hash).value;
    var ops := o.envelope.value;
    assert ops[..0] == [];
    assert AllOperationInvocations(ops, tx, None, successful) == [] + [x];
    assert Replayed(strkey, o, tx) == [];
    assert Recorded(strkey, o, tx) == [x];
    assert Sort(KeyAndBasis, [x]) == [x];
  }

  // ----- Each transaction once -----

  /** No two of the hashes met name one transaction that was read for both. */
  ghost predicate NeverTwice(met: seq<Fate>, taken: seq<string>)
    requires |met| <= |taken|
  {
    forall i, j :: 0 <= i < j < |met| && met[i].Read? && met[j].Read? ==>
                     TransactionHash(taken[i]) != TransactionHash(taken[j])
  }

  /** Each of the texts to read names another transaction, if it names one. */
  ghost predicate NamedOnce(taken: seq<string>) {
    forall g, h ::
      g in taken && h in taken && TransactionHash(g).Ok? && TransactionHash(g) == TransactionHash(h) ==> g == h
  }

  /** Whatever the network answers and whenever the run is cancelled, no transaction is read
      twice: that holds exactly when no two of the hashes within the bound differ only in
      case. De-duplication compares the texts as reported, before they are put in lower
      case. */
  lemma ReadOnceIff(strkey: seq<byte> -> string, contract: string, emitted: seq<Option<string>>, bound: nat)
    ensures var taken := Cut(Distinct(emitted), bound);
            (forall fetch, cancelled ::
               NeverTwice(Met(Interrupts(cancelled, Fates(strkey, fetch, contract, taken))), taken))
            <==> NamedOnce(taken)
  {
    hide FateOf, TransactionHash, Met, Distinct, Touching, NeverTwice;
    var taken := Cut(Distinct(emitted), bound);
    TakenDiffer(emitted, bound);
    if NamedOnce(taken) {
      forall fetch, cancelled
        ensures NeverTwice(Met(Interrupts(cancelled, Fates(strkey, fetch, contract, taken))), taken)
      {
        OneNameOneReading(strkey, fetch, contract, taken, cancelled);
      }
    } else {
      var g, h :| g in taken && h in taken && TransactionHash(g).Ok? && TransactionHash(g) == TransactionHash(h)
                  && g != h;
      var never: nat -> bool := _ => false;
      var fates := Interrupts(never, Fates(strkey, Answering, contract, taken));
      EverythingRead(strkey, contract, taken, never);
      TwoNamesTwoReadings(fates, taken, g, h);
      assert !NeverTwice(Met(Interrupts(never, Fates(strkey, Answering, contract, taken))), taken);
    }
  }

  lemma TakenDiffer(emitted: seq<Option<string>>, bound: nat)
    ensures var taken := Cut(Distinct(emitted), bound);
            forall i, j :: 0 <= i < j < |taken| ==> taken[i] != taken[j]
  {
    hide Distinct, HashRow;
    DistinctFacts(emitted);
    forall h {
      RowLaws(HashRow(h), HashRow(h), HashRow(h));
    }
  }

  lemma OneNameOneReading(
    strkey: seq<byte> -> string, fetch: string -> Fetched, contract: string, taken: seq<string>, cancelled: nat -> bool)
    requires NamedOnce(taken) && forall i, j :: 0 <= i < j < |taken| ==> taken[i] != taken[j]
    ensures NeverTwice(Met(Interrupts(cancelled, Fates(strkey, fetch, contract, taken))), taken)
  {
    hide TransactionHash, Met, Touching;
    var fates := Interrupts(cancelled, Fates(strkey, fetch, contract, taken));
    forall i, j | 0 <= i < j < |Met(fates)| && Met(fates)[i].Read? && Met(fates)[j].Read?
      ensures TransactionHash(taken[i]) != TransactionHash(taken[j])
    {
      assert fates[i].Read? && fates[j].Read?;
      assert taken[i] in taken && taken[j] in taken;
    }
  }

  /** A network that knows every transaction, each without operations or events. */
  function Answering(hash: string): Fetched {
    Found(Observation(hash, None, true, None, []))
  }

  lemma EverythingRead(strkey: seq<byte> -> string, contract: string, taken: seq<string>, never: nat -> bool)
    requires forall i :: !never(i)
    ensures var fates := Interrupts(never, Fates(strkey, Answering, contract, taken));
            && Met(fates) == fates
            && forall i :: 0 <= i < |taken| && TransactionHash(taken[i]).Ok? ==> fates[i].Read?
  {
    hide Met, Touching, Canonicalise, Replayed, Recorded;
    var fates := Interrupts(never, Fates(strkey, Answering, contract, taken));
    forall i | 0 <= i < |taken|
      ensures !Stops(fates[i]) && (TransactionHash(taken[i]).Ok? ==> fates[i].Read?)
    {
      HashReadsAgain(taken[i]);
    }
    MetEverything(fates);
  }

  lemma HashReadsAgain(h: string)
    ensures TransactionHash(h).Ok? ==> TransactionHash(TransactionHash(h).value).Ok?
  {
  }

  lemma TwoNamesTwoReadings(fates: seq<Fate>, taken: seq<string>, g: string, h: string)
    requires |fates| == |taken| && forall i :: 0 <= i < |taken| && TransactionHash(taken[i]).Ok? ==> fates[i].Read?
    requires g in taken && h in taken && g != h && TransactionHash(g).Ok? && TransactionHash(g) == TransactionHash(h)
    ensures !NeverTwice(fates, taken)
  {
    hide TransactionHash;
    var i :| 0 <= i < |taken| && taken[i] == g;
    var j :| 0 <= j < |taken| && taken[j] == h;
    if i < j {
      assert fates[i].Read? && fates[j].Read?;
    } else {
      assert fates[j].Read? && fates[i].Read?;
    }
  }

  /** One transaction reported under two spellings is read twice and counted twice. */
  lemma TwoSpellingsReadTwice(
    strkey: seq<byte> -> string, fetch: string -> Fetched, contract: string, g: string, h: string)
    requires g != h && TransactionHash(g).Ok? && TransactionHash(g) == TransactionHash(h)
    requires FateOf(strkey, fetch, contract, g).Read?
    ensures ReadCount(Fates(strkey, fetch, contract, Distinct([Some(g), Some(h)]))) == 2
  {
    hide TransactionHash, Distinct, InvocationsFromTransaction, Touching;
    var emitted := [Some(g), Some(h)];
    var taken := Distinct(emitted);
    TakenDiffer(emitted, |taken|);
    DistinctFacts(emitted);
    assert Cut(taken, |taken|) == taken;
    forall x ensures x in taken <==> x == g || x == h {
      assert x in taken <==> Some(x) in emitted;
    }
    TwoOf(taken, g, h);
    var fates := Fates(strkey, fetch, contract, taken);
    assert fates == [fates[0], fates[1]];
    assert ReadCount(fates[1..]) == 1;
  }

  lemma TwoOf(xs: seq<string>, g: string, h: string)
    requires g != h && forall i, j :: 0 <= i < j < |xs| ==> xs[i] != xs[j]
    requires forall x :: x in xs <==> x == g || x == h
    ensures |xs| == 2 && (xs[0] == g || xs[0] == h) && (xs[1] == g || xs[1] == h)
  {
    assert g in xs && h in xs;
    assert forall k :: 0 <= k < |xs| ==> xs[k] in xs;
    var first, second, third := xs[0], if |xs| > 1 then xs[1] else g, if |xs| > 2 then xs[2] else g;
    assert |xs| > 2 ==> first != second && second != third && first != third;
  }

  /** The two spellings: sixty-four digits in either case. */
  lemma CaseMakesTwoSpellings()
    ensures var lower, upper := seq(64, _ => 'a'), seq(64, _ => 'A');
            lower != upper && TransactionHash(lower) == TransactionHash(upper) == Ok(lower)
  {
    var lower, upper := seq(64, _ => 'a'), seq(64, _ => 'A');
    assert lower[0] != upper[0];
    assert ToAsciiLowercase(lower) == lower && ToAsciiLowercase(upper) == lower;
  }
}
