/** The bounded reading of the transactions a scan's events name, as `inspector.rs` does. */
module Inspector {
  import opened Basics
  import opened Ordering
  import opened InvocationSpec
  import opened InspectorSpec
  import opened CollectedCalls
  import Invocations

  /** The reasons an inspection's result may be incomplete, shared by all its stages. */
  class Truncation {
    var reasons: seq<TruncationReason>

    constructor ()
      ensures reasons == []
    {
      reasons := [];
    }

    method Push(reason: TruncationReason)
      modifies this
      ensures reasons == old(reasons) + [reason]
    {
      reasons := reasons + [reason];
    }
  }

  method KeepTouching(xs: seq<ContractInvocation>, contract: string) returns (kept: seq<ContractInvocation>)
    ensures kept == Touching(xs, contract)
  {
    kept := [];
    for i := 0 to |xs|
      invariant kept + Touching(xs[i..], contract) == Touching(xs, contract)
    {
      assert xs[i..][1..] == xs[i + 1..];
      if Touches(xs[i], contract) {
        kept := kept + [xs[i]];
      }
    }
  }

  method HashesOf(emitted: seq<Option<string>>) returns (hashes: seq<string>)
    ensures hashes == Reported(emitted)
  {
    hashes := [];
    for i := 0 to |emitted|
      invariant hashes + Reported(emitted[i..]) == Reported(emitted)
    {
      assert emitted[i..][1..] == emitted[i + 1..];
      if emitted[i].Some? {
        hashes := hashes + [emitted[i].value];
      }
    }
  }

  /** Ledgers are numbered from one; an event of none is not passed on. */
  method ConvertEvents(events: seq<Event>) returns (r: Result<seq<Event>>)
    ensures r == if exists e :: e in events && e.ledger == 0 then Err else Ok(events)
  {
    var emitted: seq<Event> := [];
    for i := 0 to |events|
      invariant emitted == events[..i] && forall j :: 0 <= j < i ==> events[j].ledger != 0
    {
      if events[i].ledger == 0 {
        assert events[i] in events;
        return Err;
      }
      emitted := emitted + [events[i]];
    }
    assert events[..|events|] == events;
    r := Ok(emitted);
  }

  /** Collects the calls that concern a contract from the transactions that a scan's events
      name, up to a bound. `fetch` stands for the network; `cancelled` says before which
      reading the run is found cancelled. The reasons pushed are kept on failure too. */
  method CollectInvocations(
    strkey: seq<byte> -> string,
    fetch: string -> Fetched,
    cancelled: nat -> bool,
    contract: string,
    scan: Scan,
    maxReads: nat,
    truncation: Truncation)
    returns (r: Result<Collected>)
    modifies truncation
    ensures !scan.Scanned? ==> truncation.reasons == old(truncation.reasons)
    ensures scan.NotAsked? ==> r == Ok(Collected([], [], 0))
    ensures scan.ScanFailed? ==> r.Err?
    ensures scan.Scanned? ==>
              var stopped := old(truncation.reasons) + (if scan.stopped.Some? then [scan.stopped.value] else []);
              if exists e :: e in scan.events && e.ledger == 0 then r.Err? && truncation.reasons == stopped
              else
                exists n ::
                  && EndsBefore(fetch, cancelled, scan.events, maxReads, n)
                  && truncation.reasons
                     == stopped + (if |AllNamed(scan.events)| > maxReads then [MaxNodesReached] else [])
                        + seq(|LackedOf(fetch, scan.events, n)|, _ => EvidenceUnavailable)
                  && (r.Ok? <==> n == Allowed(scan.events, maxReads))
                  && (r.Ok? ==> Collects(strkey, fetch, contract, scan.events, maxReads, r.value))
  {
    hide Absences, ReadCount, Gathered, Met, Distinct, Fates, Interrupts, Cut, CanonicalRecords, TransactionsOf;
    if scan.NotAsked? {
      return Ok(Collected([], [], 0));
    }
    if scan.ScanFailed? {
      return Err;
    }
    if scan.stopped.Some? {
      truncation.Push(scan.stopped.value);
    }
    var emitted :- ConvertEvents(scan.events);
    var found, read := ReadTransactions(strkey, fetch, cancelled, contract, TransactionsOf(emitted), maxReads,
                                        truncation);
    CollectionEnds(strkey, fetch, cancelled, contract, emitted, maxReads);
    if found.Err? {
      return Err;
    }
    r := Ok(Collected(found.value, emitted, read));
  }

  /** The reading itself, without the scan. */
  method ReadTransactions(
    strkey: seq<byte> -> string,
    fetch: string -> Fetched,
    cancelled: nat -> bool,
    contract: string,
    emitted: seq<Option<string>>,
    maxReads: nat,
    truncation: Truncation)
    returns (r: Result<seq<ContractInvocation>>, read: nat)
    modifies truncation
    ensures var hashes := Distinct(emitted);
            var fates := Interrupts(cancelled, Fates(strkey, fetch, contract, Cut(hashes, maxReads)));
            && truncation.reasons == old(truncation.reasons)
                                     + (if |hashes| > maxReads then [MaxNodesReached] else [])
                                     + Absences(Met(fates))
            && (if Met(fates) == fates then r == Ok(CanonicalRecords(Gathered(fates))) && read == ReadCount(fates)
                else r.Err?)
  {
    hide Touching, Absences, ReadCount, Gathered, Met, Sort, Dedup, InvocationsFromTransaction, TransactionHash,
         Reported, HashRow,
         FullRow, Stops, Fates, Interrupts, Cut, FateOf;
    read := 0;
    var hashes := HashesOf(emitted);
    hashes := Dedup(HashRow, Sort(HashRow, hashes));
    if |hashes| > maxReads {
      truncation.Push(MaxNodesReached);
    }
    ghost var before := truncation.reasons;
    var invocations: seq<ContractInvocation> := [];
    var taken := Cut(hashes, maxReads);
    ghost var fates := Interrupts(cancelled, Fates(strkey, fetch, contract, taken));
    assert fates[0..] == fates;
    for i := 0 to |taken|
      invariant Met(fates) == fates <==> Met(fates[i..]) == fates[i..]
      invariant before + Absences(Met(fates)) == truncation.reasons + Absences(Met(fates[i..]))
      invariant ReadCount(fates) == read + ReadCount(fates[i..])
      invariant Gathered(fates) == invocations + Gathered(fates[i..])
    {
      OneMoreFate(fates, i);
      FateIs(strkey, fetch, contract, taken, i);
      InterruptedIf(cancelled, Fates(strkey, fetch, contract, taken), i);
      StopsWhen(fates[i]);
      if Stops(fates[i]) {
        assert truncation.reasons + [] == truncation.reasons;
      }
      if cancelled(i) {
        return Err, read;
      }
      var hash := TransactionHash(taken[i]);
      if hash.Err? {
        continue;
      }
      var fetched := fetch(hash.value);
      if fetched.Failed? {
        return Err, read;
      }
      if fetched.Missing? {
        truncation.Push(EvidenceUnavailable);
        continue;
      }
      read := read + 1;
      var found := Invocations.FromTransaction(strkey, fetched.observation);
      if found.Err? {
        return Err, read;
      }
      var touching := KeepTouching(found.value.invocations, contract);
      invocations := invocations + touching;
    }
    NoMoreFates(fates);
    assert invocations + [] == invocations && truncation.reasons + [] == truncation.reasons;
    r := Ok(Dedup(FullRow, Sort(FullRow, invocations)));
  }

  lemma FateIs(strkey: seq<byte> -> string, fetch: string -> Fetched, contract: string, hashes: seq<string>, i: nat)
    requires i < |hashes|
    ensures var fate := Fates(strkey, fetch, contract, hashes)[i];
            match TransactionHash(hashes[i])
            case Err => fate == Malformed
            case Ok(hash) =>
              match fetch(hash)
              case Failed => fate == Unanswered
              case Missing => fate == Unavailable
              case Found(observation) =>
                match InvocationsFromTransaction(strkey, observation)
                case Err => fate == Unusable
                case Ok(found) => fate == Fate.Read(Touching(found.invocations, contract))
  {
    hide TransactionHash, InvocationsFromTransaction, Touching;
  }

  lemma InterruptedIf(cancelled: nat -> bool, fates: seq<Fate>, i: nat)
    requires i < |fates|
    ensures Interrupts(cancelled, fates)[i] == if cancelled(i) then Interrupted else fates[i]
  {
  }

  lemma StopsWhen(f: Fate)
    ensures Stops(f) <==> f.Unanswered? || f.Unusable? || f.Interrupted?
  {
  }

  lemma OneMoreFate(fates: seq<Fate>, i: nat)
    requires i < |fates|
    ensures var here, rest := fates[i], fates[i + 1..];
            && ReadCount(fates[i..]) == (if here.Read? then 1 else 0) + ReadCount(rest)
            && Gathered(fates[i..]) == (if here.Read? then here.records else []) + Gathered(rest)
            && (Stops(here)
                ==> Met(fates[i..]) == [] && Met(fates[i..]) != fates[i..] && Absences(Met(fates[i..])) == [])
            && (!Stops(here) ==>
                  && Absences(Met(fates[i..]))
                     == (if here.Unavailable? then [EvidenceUnavailable] else []) + Absences(Met(rest))
                  && (Met(fates[i..]) == fates[i..] <==> Met(rest) == rest))
  {
    var here, rest := fates[i], fates[i + 1..];
    assert fates[i..][1..] == rest && fates[i..][0] == here;
    if !Stops(here) {
      assert Met(fates[i..]) == [here] + Met(rest);
      assert Met(fates[i..])[1..] == Met(rest);
      assert fates[i..] == [here] + rest;
    }
  }

  lemma NoMoreFates(fates: seq<Fate>)
    ensures var none := fates[|fates|..];
            Met(none) == none && Absences(none) == [] && ReadCount(none) == 0 && Gathered(none) == []
  {
  }
}
