/** What the collection of a scan's calls returns, in terms of the scan's events and the
    network's answers alone. */
module CollectedCalls {
  import opened Basics
  import opened Ordering
  import opened TextOrder
  import opened InvocationSpec
  import opened TransactionRecords
  import opened InspectorSpec
  import opened Collection

  /** The transactions named before another in canonical order. */
  ghost function NamedBefore(events: seq<Event>, h: string): set<string> {
    set e | e in events && e.transaction.Some? && TextBefore(e.transaction.value, h) :: e.transaction.value
  }

  ghost function AllNamed(events: seq<Event>): set<string> {
    set e | e in events && e.transaction.Some? :: e.transaction.value
  }

  /** A transaction is read: some event names it, and fewer are named before it than the
      bound allows. */
  ghost predicate WithinBound(events: seq<Event>, bound: nat, h: string) {
    Names(events, h) && |NamedBefore(events, h)| < bound
  }

  // ----- The bound -----

  ghost function Members(xs: seq<string>): set<string> {
    set x | x in xs
  }

  lemma {:induction false} CountDiffering(xs: seq<string>)
    requires Differ(xs)
    ensures |Members(xs)| == |xs|
  {
    if xs != [] {
      var n := |xs| - 1;
      CountDiffering(xs[..n]);
      assert xs == xs[..n] + [xs[n]];
      assert xs[n] !in xs[..n];
      assert Members(xs) == Members(xs[..n]) + {xs[n]};
    }
  }

  /** As many transactions are named before one in the list as its place says. */
  lemma PlaceIsCount(events: seq<Event>, i: nat)
    ensures var hashes := Distinct(TransactionsOf(events));
            && Differ(hashes)
            && |AllNamed(events)| == |hashes|
            && (i < |hashes| ==> |NamedBefore(events, hashes[i])| == i)
  {
    hide Distinct, TextBefore;
    var hashes := Distinct(TransactionsOf(events));
    TransactionsNamed(events);
    forall i, j | 0 <= i < j < |hashes| ensures hashes[i] != hashes[j] {
      TextBeforeLaws(hashes[i], hashes[j], hashes[j]);
    }
    CountDiffering(hashes);
    assert AllNamed(events) == Members(hashes) by {
      forall h ensures h in AllNamed(events) <==> Names(events, h) {
      }
    }
    if i < |hashes| {
      CountDiffering(hashes[..i]);
      forall h ensures h in NamedBefore(events, hashes[i]) <==> h in hashes[..i] {
        BeforeInList(events, i, h);
      }
      assert NamedBefore(events, hashes[i]) == Members(hashes[..i]);
    }
  }

  lemma BeforeInList(events: seq<Event>, i: nat, h: string)
    requires i < |Distinct(TransactionsOf(events))|
    ensures var hashes := Distinct(TransactionsOf(events));
            h in NamedBefore(events, hashes[i]) <==> h in hashes[..i]
  {
    hide Distinct, TextBefore;
    var hashes := Distinct(TransactionsOf(events));
    TransactionsNamed(events);
    assert h in NamedBefore(events, hashes[i]) <==> Names(events, h) && TextBefore(h, hashes[i]);
    if h in hashes[..i] {
      var j :| 0 <= j < i && hashes[j] == h;
      assert h in hashes;
    }
    if h in hashes && TextBefore(h, hashes[i]) {
      var j :| 0 <= j < |hashes| && hashes[j] == h;
      TextBeforeLaws(hashes[i], hashes[j], hashes[i]);
      assert hashes[..i][j] == h;
    }
  }

  /** The hashes read are those named with fewer than the bound before them, and the bound
      cuts exactly when more are named than it allows. */
  lemma TakenIff(events: seq<Event>, bound: nat, h: string)
    ensures var hashes := Distinct(TransactionsOf(events));
            && (h in Cut(hashes, bound) <==> WithinBound(events, bound, h))
            && (|hashes| > bound <==> |AllNamed(events)| > bound)
            && Differ(Cut(hashes, bound))
  {
    hide Distinct, NamedBefore, AllNamed;
    var hashes := Distinct(TransactionsOf(events));
    TransactionsNamed(events);
    PlaceIsCount(events, 0);
    var taken := Cut(hashes, bound);
    if h in taken {
      var i :| 0 <= i < |taken| && taken[i] == h;
      assert hashes[i] == h && h in hashes;
      PlaceIsCount(events, i);
    }
    if WithinBound(events, bound, h) {
      var i :| 0 <= i < |hashes| && hashes[i] == h;
      PlaceIsCount(events, i);
      assert taken[i] == h;
    }
  }

  // ----- The result -----

  /** The network has the transaction that a hash names. */
  ghost predicate HasTransaction(fetch: string -> Fetched, h: string) {
    TransactionHash(h).Ok? && fetch(TransactionHash(h).value).Found?
  }

  /** The transaction that a hash names evidences a call to or from the contract. */
  ghost predicate EvidencesCall(
    strkey: seq<byte> -> string, fetch: string -> Fetched, contract: string, h: string, x: ContractInvocation)
  {
    && HasTransaction(fetch, h)
    && var found := InvocationsFromTransaction(strkey, fetch(TransactionHash(h).value).observation);
    found.Ok? && x in found.value.invocations && (x.callee == contract || x.caller == Some(contract))
  }

  lemma EvidencesIff(
    strkey: seq<byte> -> string, fetch: string -> Fetched, contract: string, h: string, x: ContractInvocation)
    ensures Evidences(strkey, fetch, contract, h, x) <==> EvidencesCall(strkey, fetch, contract, h, x)
  {
    hide InvocationsFromTransaction, TransactionHash, Touching;
    if HasTransaction(fetch, h) {
      var found := InvocationsFromTransaction(strkey, fetch(TransactionHash(h).value).observation);
      if found.Ok? {
        TouchingMembers(found.value.invocations, contract, x);
      }
    }
  }

  /** A hash within the bound does not end the reading: it is malformed, or the network
      answers, and what it finds names itself by a hash. */
  ghost predicate Usable(fetch: string -> Fetched, h: string) {
    TransactionHash(h).Ok? ==>
      match fetch(TransactionHash(h).value)
      case Failed => false
      case Missing => true
      case Found(observation) => TransactionHash(observation.hash).Ok?
  }

  lemma UsableIff(strkey: seq<byte> -> string, fetch: string -> Fetched, contract: string, h: string)
    ensures Usable(fetch, h) <==> !Stops(FateOf(strkey, fetch, contract, h))
    ensures !FateOf(strkey, fetch, contract, h).Interrupted?
    ensures Usable(fetch, h) ==> (FateOf(strkey, fetch, contract, h).Read? <==> HasTransaction(fetch, h))
  {
    hide Touching, Canonicalise, TransactionHash, Recorded, Replayed, AnyCaller;
  }

  lemma {:induction false} ReadAre(fates: seq<Fate>, hashes: seq<string>, read: set<string>)
    requires |fates| == |hashes| && Differ(hashes)
    requires forall h :: h in read <==> exists i :: 0 <= i < |hashes| && hashes[i] == h && fates[i].Read?
    ensures ReadCount(fates) == |read|
    decreases |fates|
  {
    if fates == [] {
      assert read == {};
    } else {
      assert forall i :: 0 < i < |fates| ==> fates[1..][i - 1] == fates[i] && hashes[1..][i - 1] == hashes[i];
      ReadAre(fates[1..], hashes[1..], read - {hashes[0]});
    }
  }

  /** The hashes of the transactions read. */
  ghost function ReadOf(fetch: string -> Fetched, events: seq<Event>, bound: nat): set<string> {
    set h | h in AllNamed(events) && WithinBound(events, bound, h) && HasTransaction(fetch, h)
  }

  lemma ReadCounted(
    strkey: seq<byte> -> string, fetch: string -> Fetched, contract: string, events: seq<Event>, bound: nat)
    requires forall h :: WithinBound(events, bound, h) ==> Usable(fetch, h)
    ensures ReadCount(Fates(strkey, fetch, contract, Cut(Distinct(TransactionsOf(events)), bound)))
         == |ReadOf(fetch, events, bound)|
  {
    hide FateOf, Distinct, NamedBefore, HasTransaction, Usable;
    var taken := Cut(Distinct(TransactionsOf(events)), bound);
    var fates := Fates(strkey, fetch, contract, taken);
    TakenIff(events, bound, "");
    forall h ensures h in ReadOf(fetch, events, bound)
                     <==> exists i :: 0 <= i < |taken| && taken[i] == h && fates[i].Read?
    {
      TakenIff(events, bound, h);
      assert WithinBound(events, bound, h) ==> h in AllNamed(events);
      UsableIff(strkey, fetch, contract, h);
    }
    ReadAre(fates, taken, ReadOf(fetch, events, bound));
  }

  /** The network reports that it does not have the transaction that a hash names. */
  ghost predicate LacksTransaction(fetch: string -> Fetched, h: string) {
    TransactionHash(h).Ok? && fetch(TransactionHash(h).value).Missing?
  }

  ghost function LackedOf(fetch: string -> Fetched, events: seq<Event>, bound: nat): set<string> {
    set h | h in AllNamed(events) && WithinBound(events, bound, h) && LacksTransaction(fetch, h)
  }

  lemma {:induction false} AbsencesAre(fates: seq<Fate>, hashes: seq<string>, lacked: set<string>)
    requires |fates| == |hashes| && Differ(hashes)
    requires forall h :: h in lacked <==> exists i :: 0 <= i < |hashes| && hashes[i] == h && fates[i].Unavailable?
    ensures Absences(fates) == seq(|lacked|, _ => EvidenceUnavailable)
    decreases |fates|
  {
    if fates == [] {
      assert lacked == {};
    } else {
      assert forall i :: 0 < i < |fates| ==> fates[1..][i - 1] == fates[i] && hashes[1..][i - 1] == hashes[i];
      AbsencesAre(fates[1..], hashes[1..], lacked - {hashes[0]});
    }
  }

  lemma LackedCounted(
    strkey: seq<byte> -> string, fetch: string -> Fetched, contract: string, events: seq<Event>, bound: nat)
    ensures Absences(Fates(strkey, fetch, contract, Cut(Distinct(TransactionsOf(events)), bound)))
         == seq(|LackedOf(fetch, events, bound)|, _ => EvidenceUnavailable)
  {
    hide FateOf, Distinct, NamedBefore, LacksTransaction;
    var taken := Cut(Distinct(TransactionsOf(events)), bound);
    var fates := Fates(strkey, fetch, contract, taken);
    TakenIff(events, bound, "");
    forall h ensures h in LackedOf(fetch, events, bound)
                     <==> exists i :: 0 <= i < |taken| && taken[i] == h && fates[i].Unavailable?
    {
      TakenIff(events, bound, h);
      assert WithinBound(events, bound, h) ==> h in AllNamed(events);
      LackedIff(strkey, fetch, contract, h);
    }
    AbsencesAre(fates, taken, LackedOf(fetch, events, bound));
  }

  lemma LackedIff(strkey: seq<byte> -> string, fetch: string -> Fetched, contract: string, h: string)
    ensures FateOf(strkey, fetch, contract, h).Unavailable? <==> LacksTransaction(fetch, h)
  {
    hide InvocationsFromTransaction, TransactionHash;
  }

  /** The fates met end before the first that stops the reading. */
  lemma {:induction false} MetFirst(fates: seq<Fate>)
    ensures var n := |Met(fates)|;
            && (forall i :: 0 <= i < n ==> !Stops(fates[i]))
            && (n < |fates| ==> Stops(fates[n]))
  {
    if fates != [] && !Stops(fates[0]) {
      MetFirst(fates[1..]);
      assert forall i :: 0 < i < |fates| ==> fates[i] == fates[1..][i - 1];
    }
  }

  /** How many transactions the bound lets be read. */
  ghost function Allowed(events: seq<Event>, bound: nat): nat {
    if |AllNamed(events)| < bound then |AllNamed(events)| else bound
  }

  /** The reading ends before the `n`th transaction: it is not cancelled before an earlier
      one, and every earlier hash can be used; and if more are allowed, it is cancelled
      before that one or its hash cannot be used. */
  ghost predicate EndsBefore(
    fetch: string -> Fetched, cancelled: nat -> bool, events: seq<Event>, bound: nat, n: nat)
  {
    && n <= Allowed(events, bound)
    && (forall i :: 0 <= i < n ==> !cancelled(i))
    && (forall h :: WithinBound(events, n, h) ==> Usable(fetch, h))
    && (n < Allowed(events, bound) ==>
          cancelled(n) || exists h :: Names(events, h) && |NamedBefore(events, h)| == n && !Usable(fetch, h))
  }

  /** Where the reading ends, finished or not. One reason is pushed for every transaction
      before that point which the network does not have. */
  lemma EndsAt(
    strkey: seq<byte> -> string, fetch: string -> Fetched, cancelled: nat -> bool, contract: string,
    events: seq<Event>, bound: nat)
    ensures var taken := Cut(Distinct(TransactionsOf(events)), bound);
            var met := Met(Interrupts(cancelled, Fates(strkey, fetch, contract, taken)));
            && |taken| == Allowed(events, bound)
            && EndsBefore(fetch, cancelled, events, bound, |met|)
            && Absences(met) == seq(|LackedOf(fetch, events, |met|)|, _ => EvidenceUnavailable)
  {
    hide FateOf, Distinct, Met, TransactionHash, AllNamed, Usable, NamedBefore, Names, LackedOf;
    var hashes := Distinct(TransactionsOf(events));
    var taken := Cut(hashes, bound);
    var own := Fates(strkey, fetch, contract, taken);
    var fates := Interrupts(cancelled, own);
    var n := |Met(fates)|;
    MetFirst(fates);
    PlaceIsCount(events, n);
    TransactionsNamed(events);
    forall i | 0 <= i < |own|
      ensures own[i] == FateOf(strkey, fetch, contract, taken[i])
      ensures Usable(fetch, taken[i]) <==> !Stops(own[i])
      ensures !own[i].Interrupted?
    {
      UsableIff(strkey, fetch, contract, taken[i]);
    }
    forall i | 0 <= i < n ensures !cancelled(i) && fates[i] == own[i] {
      assert !Stops(fates[i]);
    }
    assert Cut(hashes, n) == taken[..n];
    assert Met(fates) == Fates(strkey, fetch, contract, Cut(hashes, n));
    LackedCounted(strkey, fetch, contract, events, n);
    forall h | WithinBound(events, n, h) ensures Usable(fetch, h) {
      TakenIff(events, n, h);
      var i :| 0 <= i < n && taken[i] == h;
    }
    if n < |taken| {
      assert taken[n] == hashes[n] && hashes[n] in hashes;
    }
  }

  // ----- The order of the result -----

  predicate NumberBefore(m: Option<nat>, n: Option<nat>) {
    n.Some? && (m.None? || m.value < n.value)
  }

  /** The order of records: by call, then by ledger, place in the transaction, strength of
      evidence, event and success. */
  predicate RecordBefore(x: ContractInvocation, y: ContractInvocation) {
    CallBefore(x, y) || (SameCall(x, y) && DetailsBefore(x, y))
  }

  predicate DetailsBefore(x: ContractInvocation, y: ContractInvocation) {
    || NumberBefore(x.ledger, y.ledger)
    || (x.ledger == y.ledger
        && (|| NumberBefore(x.operationIndex, y.operationIndex)
            || (x.operationIndex == y.operationIndex
                && (|| (x.basis.ObservedInvocation? && y.basis.ObservedEvent?)
                    || (x.basis == y.basis
                        && (|| OptionalBefore(x.eventId, y.eventId)
                            || (x.eventId == y.eventId && SuccessBefore(x.successful, y.successful))))))))
  }

  /** Unknown before failed before successful. */
  predicate SuccessBefore(s: Option<bool>, t: Option<bool>) {
    t.Some? && (s.None? || (!s.value && t.value))
  }

  lemma NumberFieldOrder(m: Option<nat>, n: Option<nat>)
    ensures FieldLess(OptionalNatField(m), OptionalNatField(n)) <==> NumberBefore(m, n)
    ensures OptionalNatField(m) == OptionalNatField(n) <==> m == n
  {
    if m.Some? && n.Some? {
      assert [1, m.value][1..] == [m.value] && [1, n.value][1..] == [n.value];
      NumberOrder(m.value, n.value);
      assert OptionalNatField(m)[1] == m.value && OptionalNatField(n)[1] == n.value;
    }
  }

  lemma SuccessFieldOrder(s: Option<bool>, t: Option<bool>)
    ensures FieldLess(OptionalBoolField(s), OptionalBoolField(t)) <==> SuccessBefore(s, t)
    ensures OptionalBoolField(s) == OptionalBoolField(t) <==> s == t
  {
    if s.Some? && t.Some? {
      var m, n := if s.value then 1 else 0, if t.value then 1 else 0;
      assert [1, m][1..] == [m] && [1, n][1..] == [n];
      NumberOrder(m, n);
      assert OptionalBoolField(s)[1] == m && OptionalBoolField(t)[1] == n;
    }
  }

  lemma DetailsOrder(x: ContractInvocation, y: ContractInvocation)
    ensures Less(FullRow(x)[4..], FullRow(y)[4..]) <==> DetailsBefore(x, y)
  {
    hide FieldLess, Less, OptionalBefore, OptionalTextField, OptionalNatField, OptionalBoolField, NumberBefore,
         SuccessBefore;
    var l, m := OptionalNatField(x.ledger), OptionalNatField(y.ledger);
    var i, j := OptionalNatField(x.operationIndex), OptionalNatField(y.operationIndex);
    var b, c := [x.basis.Rank()], [y.basis.Rank()];
    var e, f := OptionalTextField(x.eventId), OptionalTextField(y.eventId);
    var s, t := OptionalBoolField(x.successful), OptionalBoolField(y.successful);
    NumberFieldOrder(x.ledger, y.ledger);
    NumberFieldOrder(x.operationIndex, y.operationIndex);
    NumberOrder(x.basis.Rank(), y.basis.Rank());
    OptionalFieldOrder(x.eventId, y.eventId);
    SuccessFieldOrder(x.successful, y.successful);
    OneFieldOrder(s, t);
    RowOrder(e, [s], f, [t]);
    RowOrder(b, [e] + [s], c, [f] + [t]);
    RowOrder(i, [b] + ([e] + [s]), j, [c] + ([f] + [t]));
    RowOrder(l, [i] + ([b] + ([e] + [s])), m, [j] + ([c] + ([f] + [t])));
    assert FullRow(x)[4..] == [l] + ([i] + ([b] + ([e] + [s])));
    assert FullRow(y)[4..] == [m] + ([j] + ([c] + ([f] + [t])));
  }

  lemma RecordOrder(x: ContractInvocation, y: ContractInvocation)
    ensures Less(FullRow(x), FullRow(y)) <==> RecordBefore(x, y)
  {
    hide Less, DetailsBefore, CallBefore, SameCall;
    CallOrder(x, y);
    DetailsOrder(x, y);
    assert FullRow(x)[..4] == Key(x) && FullRow(y)[..4] == Key(y);
    assert FullRow(x) == Key(x) + FullRow(x)[4..] && FullRow(y) == Key(y) + FullRow(y)[4..];
    LessJoined(Key(x), FullRow(x)[4..], Key(y), FullRow(y)[4..]);
  }

  lemma InOrder(xs: seq<ContractInvocation>)
    ensures var result := CanonicalRecords(xs);
            forall i, j :: 0 <= i < j < |result| ==> RecordBefore(result[i], result[j])
  {
    hide CanonicalRecords, RecordBefore, FullRow;
    CanonicalRecordsFacts(xs);
    var result := CanonicalRecords(xs);
    forall i, j | 0 <= i < j < |result| ensures RecordBefore(result[i], result[j]) {
      RecordOrder(result[i], result[j]);
    }
  }

  // ----- The whole operation -----

  /** What a finished collection returns: once each and in the order of all their fields,
      exactly the calls to or from the contract that the transactions within the bound
      evidence; the scan's events; and how many of those transactions the network has. */
  ghost predicate Collects(
    strkey: seq<byte> -> string, fetch: string -> Fetched, contract: string, events: seq<Event>, bound: nat,
    c: Collected)
  {
    && c.emitted == events
    && (forall x :: x in c.invocations <==> exists h :: WithinBound(events, bound, h)
                                                        && EvidencesCall(strkey, fetch, contract, h, x))
    && (forall i, j :: 0 <= i < j < |c.invocations| ==> RecordBefore(c.invocations[i], c.invocations[j]))
    && c.read == |ReadOf(fetch, events, bound)|
  }

  lemma FinishedReads(
    strkey: seq<byte> -> string, fetch: string -> Fetched, contract: string, events: seq<Event>, bound: nat)
    requires forall h :: WithinBound(events, bound, h) ==> Usable(fetch, h)
    ensures var fates := Fates(strkey, fetch, contract, Cut(Distinct(TransactionsOf(events)), bound));
            Collects(strkey, fetch, contract, events, bound,
                     Collected(CanonicalRecords(Gathered(fates)), events, ReadCount(fates)))
  {
    hide Distinct, CanonicalRecords, Gathered, Fates, Cut, WithinBound, EvidencesCall, Usable, ReadOf;
    ReadCounted(strkey, fetch, contract, events, bound);
    InOrder(Gathered(Fates(strkey, fetch, contract, Cut(Distinct(TransactionsOf(events)), bound))));
    UnionOver(strkey, fetch, contract, events, bound);
  }

  lemma AllWithin(events: seq<Event>, bound: nat, h: string)
    ensures WithinBound(events, bound, h) <==> WithinBound(events, Allowed(events, bound), h)
  {
    if Names(events, h) {
      var e :| e in events && e.transaction == Some(h);
      assert h in AllNamed(events) && h !in NamedBefore(events, h) by {
        TextBeforeLaws(h, h, h);
      }
      Fewer(NamedBefore(events, h), AllNamed(events), h);
    }
  }

  lemma {:induction false} Fewer(a: set<string>, b: set<string>, h: string)
    requires a <= b && h in b && h !in a
    ensures |a| < |b|
  {
    assert b == a + (b - a) && h in b - a;
    assert |b| == |a| + |b - a|;
  }

  /** The whole operation over a scan's events, in terms of what becomes of each hash: where
      it ends, what it reports and what it returns. */
  lemma CollectionEnds(
    strkey: seq<byte> -> string, fetch: string -> Fetched, cancelled: nat -> bool, contract: string,
    events: seq<Event>, bound: nat)
    ensures var hashes := Distinct(TransactionsOf(events));
            var fates := Interrupts(cancelled, Fates(strkey, fetch, contract, Cut(hashes, bound)));
            var n := |Met(fates)|;
            && (|hashes| > bound <==> |AllNamed(events)| > bound)
            && EndsBefore(fetch, cancelled, events, bound, n)
            && Absences(Met(fates)) == seq(|LackedOf(fetch, events, n)|, _ => EvidenceUnavailable)
            && (Met(fates) == fates <==> n == Allowed(events, bound))
            && (Met(fates) == fates ==>
                  Collects(strkey, fetch, contract, events, bound,
                           Collected(CanonicalRecords(Gathered(fates)), events, ReadCount(fates))))
  {
    hide FateOf, Distinct, CanonicalRecords, Gathered, TransactionHash, AllNamed, Fates, Cut, Allowed, Collects;
    hide Usable, WithinBound, NamedBefore, Names, LackedOf, Absences;
    var hashes := Distinct(TransactionsOf(events));
    var taken := Cut(hashes, bound);
    var own := Fates(strkey, fetch, contract, taken);
    var fates := Interrupts(cancelled, own);
    EndsAt(strkey, fetch, cancelled, contract, events, bound);
    TakenIff(events, bound, "");
    SameMany(strkey, fetch, contract, taken);
    WholePrefix(Met(fates), fates);
    if Met(fates) == fates {
      FinishedIff(cancelled, own);
      forall h | WithinBound(events, bound, h) ensures Usable(fetch, h) {
        AllWithin(events, bound, h);
      }
      FinishedReads(strkey, fetch, contract, events, bound);
    }
  }

  lemma WholePrefix<T>(xs: seq<T>, ys: seq<T>)
    requires xs <= ys
    ensures xs == ys <==> |xs| == |ys|
  {
  }

  lemma SameMany(strkey: seq<byte> -> string, fetch: string -> Fetched, contract: string, hashes: seq<string>)
    ensures |Fates(strkey, fetch, contract, hashes)| == |hashes|
  {
  }

  lemma UnionOver(
    strkey: seq<byte> -> string, fetch: string -> Fetched, contract: string, events: seq<Event>, bound: nat)
    ensures var own := Fates(strkey, fetch, contract, Cut(Distinct(TransactionsOf(events)), bound));
            forall x :: x in CanonicalRecords(Gathered(own))
                        <==> exists h :: WithinBound(events, bound, h) && EvidencesCall(strkey, fetch, contract, h, x)
  {
    hide Distinct, CanonicalRecords, Gathered, Fates, Cut, WithinBound, EvidencesCall, Evidences;
    var taken := Cut(Distinct(TransactionsOf(events)), bound);
    ResultIsTheUnion(strkey, fetch, contract, taken);
    forall h, x
      ensures h in taken <==> WithinBound(events, bound, h)
      ensures Evidences(strkey, fetch, contract, h, x) <==> EvidencesCall(strkey, fetch, contract, h, x)
    {
      TakenIff(events, bound, h);
      EvidencesIff(strkey, fetch, contract, h, x);
    }
  }
}
