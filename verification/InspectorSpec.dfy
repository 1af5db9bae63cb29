/** A scan's events, the network's answers about the transactions they name, and what a
    bounded reading of those comes to. */
module InspectorSpec {
  import opened Basics
  import opened Ordering
  import opened InvocationSpec

  /** The network's answer about one transaction: no answer, a definite absence, or the
      transaction. */
  datatype Fetched = Failed | Missing | Found(observation: Observation)

  /** An event as the endpoint reports it, and as it is passed on. */
  datatype Event = Event(
    id: string,
    contractId: string,
    ledger: nat,
    closedAt: string,
    transaction: Option<string>,
    operationIndex: Option<nat>)

  /** The scan's outcome, when one was asked for. */
  datatype Scan = NotAsked | ScanFailed | Scanned(events: seq<Event>, stopped: Option<TruncationReason>)

  datatype Collected = Collected(invocations: seq<ContractInvocation>, emitted: seq<Event>, read: nat)

  // ----- Specification -----

  function TransactionsOf(events: seq<Event>): seq<Option<string>> {
    seq(|events|, i requires 0 <= i < |events| => events[i].transaction)
  }

  function Reported(emitted: seq<Option<string>>): seq<string> {
    if emitted == [] then []
    else (if emitted[0].Some? then [emitted[0].value] else []) + Reported(emitted[1..])
  }

  function HashRow(h: string): Row {
    [TextField(h)]
  }

  /** The transactions to read, each text once, in canonical order. */
  function Distinct(emitted: seq<Option<string>>): seq<string> {
    Dedup(HashRow, Sort(HashRow, Reported(emitted)))
  }

  /** The hashes read under a bound. */
  function Cut(hashes: seq<string>, bound: nat): seq<string> {
    if |hashes| <= bound then hashes else hashes[..bound]
  }

  function OptionalBoolField(o: Option<bool>): seq<int> {
    if o.None? then [] else [1, if o.value then 1 else 0]
  }

  /** Every field of a record, in the order it is declared. */
  function FullRow(x: ContractInvocation): Row {
    [TextField(x.callee), OptionalTextField(x.caller), OptionalTextField(x.function_), TextField(x.transaction),
     OptionalNatField(x.ledger), OptionalNatField(x.operationIndex), [x.basis.Rank()], OptionalTextField(x.eventId),
     OptionalBoolField(x.successful)]
  }

  /** What becomes of one hash. */
  datatype Fate = Malformed | Unanswered | Unavailable | Unusable | Interrupted | Read(records: seq<ContractInvocation>)

  function FateOf(strkey: seq<byte> -> string, fetch: string -> Fetched, contract: string, h: string): Fate {
    match TransactionHash(h)
    case Err => Malformed
    case Ok(hash) =>
      match fetch(hash)
      case Failed => Unanswered
      case Missing => Unavailable
      case Found(observation) =>
        match InvocationsFromTransaction(strkey, observation)
        case Err => Unusable
        case Ok(found) => Fate.Read(Touching(found.invocations, contract))
  }

  function Fates(
    strkey: seq<byte> -> string, fetch: string -> Fetched, contract: string, hashes: seq<string>): (fs: seq<Fate>)
    ensures |fs| == |hashes|
  {
    seq(|hashes|, i requires 0 <= i < |hashes| => FateOf(strkey, fetch, contract, hashes[i]))
  }

  /** The fates when the run is cancelled before some of them. */
  function Interrupts(cancelled: nat -> bool, fates: seq<Fate>): (fs: seq<Fate>)
    ensures |fs| == |fates|
  {
    seq(|fates|, i requires 0 <= i < |fates| => if cancelled(i) then Interrupted else fates[i])
  }

  predicate Stops(f: Fate) {
    f.Unanswered? || f.Unusable? || f.Interrupted?
  }

  /** The fates met before the first that stops the reading. */
  function Met(fates: seq<Fate>): (met: seq<Fate>)
    ensures met <= fates
  {
    if fates == [] || Stops(fates[0]) then [] else [fates[0]] + Met(fates[1..])
  }

  function ReadCount(fates: seq<Fate>): nat {
    if fates == [] then 0 else (if fates[0].Read? then 1 else 0) + ReadCount(fates[1..])
  }

  function MalformedCount(fates: seq<Fate>): nat {
    if fates == [] then 0 else (if fates[0].Malformed? then 1 else 0) + MalformedCount(fates[1..])
  }

  /** One reason for every transaction the network did not have. */
  function Absences(fates: seq<Fate>): seq<TruncationReason> {
    if fates == [] then []
    else (if fates[0].Unavailable? then [EvidenceUnavailable] else []) + Absences(fates[1..])
  }

  function Gathered(fates: seq<Fate>): seq<ContractInvocation> {
    if fates == [] then []
    else (if fates[0].Read? then fates[0].records else []) + Gathered(fates[1..])
  }

  function CanonicalRecords(xs: seq<ContractInvocation>): seq<ContractInvocation> {
    Dedup(FullRow, Sort(FullRow, xs))
  }
}
