# A verified model of the Amasario contract core

Amasario reads deployed Soroban contracts, recovers what they declare and whom they
call, and builds dependency graphs from that evidence. This project models the parts of
it where a wrong answer would look like a right one, and proves what they promise:

- the WebAssembly framing parser (`Wasm*.dfy`): a bounds-checked cursor, a 32-bit LEB128
  reader, the section walk and the import and export decoders of the WebAssembly Core
  Specification (sections 5.2.2, 5.2.4, 5.5.2, 5.5.5 and 5.5.10);
- the replay of call markers into a call graph and the canonical form of the result
  (`Invocation*.dfy`, `TransactionRecords.dfy`, `CallForest.dfy`, `Attribution.dfy`,
  `CallerNames.dfy`), with the orders it is stated in (`Ordering.dfy`, `TextOrder.dfy`);
- the specification-section decoder, its type printer and the canonical interface
  (`Interface*.dfy`, `DeclaredInterface.dfy`, `SpecSection.dfy`, `TypeNames.dfy`,
  `TypeSpelling.dfy`), with XDR (RFC 4506, sections 4.2, 4.3, 4.11, 4.13, 4.14 and 4.15) as
  the codec it is sound over (`Xdr.dfy`, `EntryXdr.dfy`, `EntryBytes.dfy`), names read
  from bytes as UTF-8 (section 4 of RFC 3629, `Utf8.dfy`), and the two decoders together
  on one deployed module (`Inspection.dfy`);
- the bounded reading of the transactions a scan names (`Inspector*.dfy`,
  `Collection.dfy`, `CollectedCalls.dfy`);
- the decomposition of transitive routes into a graph (`Documents.dfy`,
  `DocumentOrder.dfy`) and the bounded breadth-first traversal of such a graph
  (`GraphSpec.dfy`, `BreadthFirst.dfy`, `WalkOrder.dfy`, `Traversal*.dfy`);
- the cycles of such a graph: Tarjan's components with an explicit stack of frames, the
  least shortest cycle for each, and those a traversal reports (`Reachability.dfy`,
  `Tarjan.dfy`, `HopOrder.dfy`, `ShortestCycle.dfy`, `CycleGraph.dfy`, `Cycles.dfy`,
  `CycleOrder.dfy`, `CyclicGroups.dfy`, `TraversalCycles.dfy`);
- identity apart from observation (`Identity.dfy`), version text and compatibility
  (`Versions.dfy`, `Decimals.dfy`), and retry delays with the loop that waits them out
  (`Backoff.dfy`).

Code that changes things step by step is a method or a class whose contract ties the new
state to a function of the old one; the lemmas are about those functions. The network,
cancellation, SHA-256, the rendering of an address as text and the codec of an entry are
parameters; `EntryXdr` supplies a codec that meets what is asked of one.

## Where the code and its words differ

The model follows the code, and these are proved of it.

- A call whose callee cannot be decoded is skipped without being entered, yet its return
  still leaves a call (`invocations.rs:446-448` and `472-477`). Every call is linked to the
  call that made it, by position in the trace, exactly when no undecodable call makes a
  decodable one and, once an undecodable call has returned inside a decodable one, nothing
  decodable follows in that one (`EveryCallerRightIff`). Both ways it fails are shown
  (`UndecodableCallInventsAnEdge`, `UndecodableCallerHidden`). A record holds only the
  caller's name: under that condition every record names the right caller, and only under
  it as long as no contract is entered again while it is open (`RecordsRightIff`). A
  contract that calls itself can make a record right by accident
  (`ReentryHidesTheError`).
- A zero-padded integer is read, so what is decoded need not re-encode to the same bytes
  (`ReencodesIffUnpadded`, `PaddedZeroIsRead`). Encoding and then decoding is the
  identity.
- Function inputs are sorted by name (`interface.rs:275-277`) although their field is
  documented as keeping the declaration order (`interface.rs:72`). The declared order is
  kept exactly when it is the order of the names (`DeclaredOrderKeptIff`); inputs `to` and
  `from` come out the other way round (`DeclaredOrderLost`). In exchange, the sort makes
  the digest independent of that order exactly when a name identifies its declaration
  (`SortForgetsOrderIff`).
- "Each is read once" (`inspector.rs:531-533`) holds of the texts reported, not of the
  transactions: hashes are compared before they are put in lower case. Whatever the network
  answers, no transaction is read twice exactly when no two of the hashes within the bound
  differ only in case (`ReadOnceIff`). One reported in both cases is read twice and counted
  twice (`TwoSpellingsReadTwice`, `CaseMakesTwoSpellings`).
- The network may answer a request under another transaction's hash. For any hashes, each
  call has one record whatever the transactions hold exactly when no two of them are
  reported under one hash (`OneRecordPerCallIff`).
- Names are bytes that are read as UTF-8 with a replacement character for what is not
  (`wasm.rs:581`, `interface.rs:380-520`). A name is the only one of its text exactly when it
  is well-formed and its text does not hold that character (`OnlyBytesIff`); two functions
  named by different stray bytes are one in the interface (`StrayNamesAlike`).
- A declared return of the empty type and no declared return are the same in the
  interface (`interface.rs:420-424`, `VoidAndNothingAlike`). With the documentation of
  most declarations and part of an event's name, that is exactly what an entry's interface
  does not tell (`EntryReadIff`).
- The traversal can mark a result as truncated with nothing missed. The mark is right
  exactly unless everything reachable keeps both bounds and an entity that has edges lies
  at the depth bound or is taken out when the node bound has been reached
  (`MarkRightIff`). Two entities that depend on each other show both (`MarkedAtDepth`,
  `MarkedWhenFull`).
- Components are documented to be ordered by their first node and only then by size
  (`cycles.rs:57-58`), but the size is compared first. Of two that begin differently the
  order is the one documented exactly when they are of one size or the smaller one's first
  entity comes first (`DocumentedOrderIff`).
- Two runs over the same edges are documented to report the same cycles (`cycles.rs:76-78`).
  Of parallel edges the one listed first is reported, so over another listing of them the
  entities are always the same, and a cycle is the same exactly when its edges come first
  there too (`ListingIff`).
- A fingerprint is unique exactly when the network's name and passphrase hold no newline
  (`FingerprintUniqueIff`).
- A leading plus sign is read as part of a version (`SignsAndZerosAreRead`), contrary to
  the comment at `engine.rs:65-66`.
- Past 31 doublings the multiplier is 2^32 - 1 rather than a power of two, so delays
  double only under a condition on the policy and the attempt (`DoublesIff`); and the retry
  loop asks for the delay of the attempt that failed, so the first retry comes at once
  (`WaitsBounded`).

## Model

| member | source | states |
|---|---|---|
| Wasm.Cursor.constructor | crates/amasario-contract/src/wasm.rs:497-499 | a new cursor stands at the first byte |
| Wasm.Cursor.HasRemaining | crates/amasario-contract/src/wasm.rs:505-507 | true exactly while bytes are left |
| Wasm.Cursor.Rest | crates/amasario-contract/src/wasm.rs:509-511 | everything from the position on |
| Wasm.Cursor.U8 | crates/amasario-contract/src/wasm.rs:514-523 | one byte and one step, or a failure at the end of the input |
| Wasm.Cursor.Take | crates/amasario-contract/src/wasm.rs:526-542 | exactly `len` bytes and as many steps, or a failure when fewer remain |
| Wasm.Cursor.U32Leb | crates/amasario-contract/src/wasm.rs:549-568 | the shift-and-or loop computes the recursive u32 grammar of section 5.2.2: same value, same bytes consumed, same refusals, no bit lost |
| Wasm.OrDigit | crates/amasario-contract/src/wasm.rs:562 | or-ing the shifted digit, truncated to 32 bits, adds it without loss |
| Wasm.DigitStep | crates/amasario-contract/src/wasm.rs:553-566 | one more byte moves seven bits from the unread integer to the read part; the guard refuses exactly what does not fit |
| Wasm.Cursor.Name | crates/amasario-contract/src/wasm.rs:578-582 | the text of a length-prefixed byte string |
| Wasm.SkipLimits | crates/amasario-contract/src/wasm.rs:683-696 | consumes a one- or two-bound limit and refuses other flags |
| Wasm.SkipTableType | crates/amasario-contract/src/wasm.rs:669-680 | consumes one of the two reference types and a limit |
| Wasm.DecodeImportKind | crates/amasario-contract/src/wasm.rs:599-625 | the five descriptor kinds, each consuming its own form; any other is refused |
| Wasm.DecodeImports | crates/amasario-contract/src/wasm.rs:586-634 | exactly the declared number of imports in order, or a failure; the count is bounded before anything is read |
| Wasm.DecodeExports | crates/amasario-contract/src/wasm.rs:637-666 | exactly the declared number of exports in order, or a failure |
| Wasm.HasKind | crates/amasario-contract/src/wasm.rs:413 | whether a section of the kind was read before |
| Wasm.AdmitSection | crates/amasario-contract/src/wasm.rs:410-447 | what one framed section adds: repeated kinds refused, the first two known custom sections kept without their names |
| Wasm.Parse | crates/amasario-contract/src/wasm.rs:373-459 | the loop over the cursor computes the walk from byte 8 that the theorems below are about |
| Utf8.EncodedIsRead | crates/amasario-contract/src/wasm.rs:581 | every text is read back from its UTF-8, whatever follows |
| Utf8.ReencodesIff | crates/amasario-contract/src/wasm.rs:581 | reading bytes as text loses nothing exactly when they are well-formed UTF-8 |
| Utf8.OnlyBytesIff | crates/amasario-contract/src/interface.rs:427 | a name shares its text with no other exactly when it is well-formed and holds no replacement character |
| Utf8.AsciiRead | crates/amasario-contract/src/wasm.rs:422-424 | comparing a section's name as text is comparing its bytes |
| Utf8.ReplacedIsMaximal | crates/amasario-contract/src/interface.rs:427 | one replacement character stands for a maximal ill-formed part: no encoding at the front, the beginning of one or a single byte, and no more bytes that begin one |
| WasmIntegers.U32ReadExactly | crates/amasario-contract/src/wasm.rs:549-568 | an integer is read exactly where one to five bytes spell it, fifth below 16, and its value is their base-128 sum |
| WasmIntegers.U32Below | crates/amasario-contract/src/wasm.rs:549-568 | every integer read fits 32 bits |
| WasmIntegers.Leb | crates/amasario-contract/src/wasm.rs:743-756 | the encoder's loop writes the base-128 digits, least first |
| WasmIntegers.U32Encoded | crates/amasario-contract/src/wasm.rs:743-756 | reading inverts the encoder for every u32, wherever the encoding stands |
| WasmIntegers.ReencodesIffUnpadded | crates/amasario-contract/src/wasm.rs:549-568 | re-encoding a spelling gives it back exactly when it is not zero-padded |
| WasmIntegers.PaddedZeroIsRead | crates/amasario-contract/src/wasm.rs:549-568 | a padded zero is accepted and is not what the encoder writes |
| WasmPayloads.NamedIff | crates/amasario-contract/src/wasm.rs:419-421 | a custom section's name can be read exactly when its payload begins with the spelling of one |
| WasmPayloads.ImportPayloadIff | crates/amasario-contract/src/wasm.rs:586-634 | the import reader accepts exactly a spelled count, as many spelled entries and then anything, and returns what they spell |
| WasmPayloads.ExportPayloadIff | crates/amasario-contract/src/wasm.rs:637-666 | the same for exports |
| WasmGrammar.IdOf | crates/amasario-contract/src/wasm.rs:120-161 | the fourteen identifiers from custom 0 to tag 13, each kind and its identifier one to one |
| WasmGrammar.FrameReadExactly | crates/amasario-contract/src/wasm.rs:398-408 | a section is read exactly where its identifier, a spelling of its length and its payload stand |
| WasmGrammar.AdmitIff | crates/amasario-contract/src/wasm.rs:410-440 | a framed section is refused exactly for a repeated kind or a payload outside its grammar |
| WasmGrammar.AcceptedIffInGrammar | crates/amasario-contract/src/wasm.rs:373-459 | the parser accepts exactly the byte strings of a module grammar that names no reader, down to names, limits and descriptors |
| WasmContents.ParsedReads | crates/amasario-contract/src/wasm.rs:397-459 | whatever sections spell an accepted module, padded lengths included: each is listed in order with its kind, name and length, imports and exports are those its one section spells, and the known payloads those of the first section of the name |
| WasmFraming.FrameLocal | crates/amasario-contract/src/wasm.rs:398-408 | reading a section depends only on the bytes it consumes, and fails on an input that ends before them |
| WasmFraming.SectionsTile | crates/amasario-contract/src/wasm.rs:397-448 | the sections of an accepted module tile bytes 8 to its size with no gap or overlap |
| WasmFraming.TruncationIsDetected | crates/amasario-contract/src/wasm.rs:397-448 | a prefix of an accepted module is accepted exactly when it ends between sections, and then has the sections before the cut |
| WasmFraming.DeclaredCountIsDecoded | crates/amasario-contract/src/wasm.rs:586-666 | as many entries are decoded as declared, at most 65536, and the payload has room for them |
| WasmFraming.AdmitKeepsBounded | crates/amasario-contract/src/wasm.rs:410-447 | every step of the walk keeps kinds unique and the decoded entries bounded by the bytes read |
| WasmFraming.DecodedSizeIsLinear | crates/amasario-contract/src/wasm.rs:586-666 | 8 + 2 per section + 4 per import + 3 per export is at most the module's size |
| WasmRoundTrip.NameEncoded | crates/amasario-contract/src/wasm.rs:759-763 | reading a name inverts its encoder for every text |
| WasmRoundTrip.DescEncoded | crates/amasario-contract/src/wasm.rs:599-625 | each of the five import descriptors is read back as its kind, consuming all of it |
| WasmRoundTrip.ImportsEncoded | crates/amasario-contract/src/wasm.rs:595-632 | encoded imports are read back in order |
| WasmRoundTrip.ExportsEncoded | crates/amasario-contract/src/wasm.rs:645-664 | encoded exports are read back in order |
| WasmRoundTrip.SectionEncoded | crates/amasario-contract/src/wasm.rs:735-741 | reading a section inverts its encoder |
| WasmRoundTrip.SectionAdmitted | crates/amasario-contract/src/wasm.rs:410-447 | what admitting an encoded section adds, in terms of what was encoded |
| WasmRoundTrip.ModuleRoundTrip | crates/amasario-contract/src/wasm.rs:766-773 | parsing an encoded module recovers every kind, name, offset, length, import and export, and the first two known payloads without their names |
| Invocations.InvocationsFromDiagnostics | crates/amasario-contract/src/invocations.rs:431-483 | the stack of names yields one record per decodable call marker, called from the innermost open call |
| Invocations.CallRecorded | crates/amasario-contract/src/invocations.rs:449-469 | the record pushed for a decodable call names the innermost open call as its caller |
| Invocations.ReplayStep | crates/amasario-contract/src/invocations.rs:440-480 | what each marker does to the stack and to the records |
| Invocations.PushOperationInvocations | crates/amasario-contract/src/invocations.rs:384-414 | one top-level record for an operation that names a contract, none otherwise |
| Invocations.FromTransaction | crates/amasario-contract/src/invocations.rs:278-335 | for any trace: exactly the record of the first evidence of each call, operations first, field by field and in the order of the calls; whether diagnostics were there; whether a caller was recovered |
| Invocations.HasCaller | crates/amasario-contract/src/invocations.rs:323 | whether any recovered call has a caller |
| TransactionRecords.FirstOperationIff | crates/amasario-contract/src/invocations.rs:295-306 | a call's first record among the operations' is that of the first operation that makes it |
| TransactionRecords.FirstCallIff | crates/amasario-contract/src/invocations.rs:431-483 | a call's first record among the trace's is that of the first call that enters the callee from the caller by the function, with the event's own success |
| TransactionRecords.TransactionRead | crates/amasario-contract/src/invocations.rs:278-335 | a record is returned exactly when it is that of the first operation making its call, or no operation makes it and it is that of the first call of the trace; the flags and the order |
| TransactionRecords.EveryRecord | crates/amasario-contract/src/invocations.rs:310-315 | every record has the observation's ledger; one that rests on the trace is that of some call of it, successful exactly if the transaction and the event were |
| TransactionRecords.CallOrder | crates/amasario-contract/src/invocations.rs:357-373 | calls are ordered by the characters of callee, caller, function and transaction |
| InvocationReading.EnteredIff | crates/amasario-contract/src/invocations.rs:486-532 | a call is entered exactly at the call marker, its callee named by the second topic or else by the emitting contract |
| InvocationReading.LeftIff | crates/amasario-contract/src/invocations.rs:472-477 | a call is left exactly at a return or error marker |
| InvocationReading.FunctionNamedIff | crates/amasario-contract/src/invocations.rs:534-551 | the function is the first symbol after the marker |
| InvocationReading.OperationsRecordedIff | crates/amasario-contract/src/invocations.rs:295-306 | exactly one kind of record per contract-calling operation, with its index when it fits 32 bits |
| InvocationReading.SameCallIff | crates/amasario-contract/src/invocations.rs:374-379 | two records are one call exactly when callee, caller, function and transaction agree |
| InvocationReading.TouchingSplits | crates/amasario-contract/src/invocations.rs:233-267 | a contract's calls are those made to it and the cross-contract edges that leave it |
| InvocationReading.HashHeldInLowerCase | crates/amasario-core/src/identity.rs:501-516 | a hash is held as 64 lower-case digits and reads back as itself |
| InvocationReading.HashReadIff | crates/amasario-core/src/identity.rs:501-516 | a text is a hash exactly when it is 64 digits of either case, each held as the lower-case digit of its value |
| CallForest.StackAfterForest | crates/amasario-contract/src/invocations.rs:440-480 | a well-nested forest leaves the stack short by exactly its undecodable calls |
| CallForest.StackRestoredIff | crates/amasario-contract/src/invocations.rs:446-477 | the stack is restored exactly when it was empty or every call names its callee |
| CallForest.InnermostKeptIff | crates/amasario-contract/src/invocations.rs:446-477 | the innermost open call after a forest is the one before it exactly under the same condition |
| CallForest.ForestReplayed | crates/amasario-contract/src/invocations.rs:440-480 | replaying a forest yields its calls in preorder, each with its parent, whatever unrelated events stand between |
| CallForest.WholeTraceReplayed | crates/amasario-contract/src/invocations.rs:431-483 | a whole trace yields the forest's calls and leaves nothing open |
| CallForest.RecordsOfForest | crates/amasario-contract/src/invocations.rs:431-483 | the records name exactly the callee and the calling contract of each call of the forest |
| CallForest.WindowStack | crates/amasario-contract/src/invocations.rs:472-477 | for any trace, a window's stack is the part of the whole stack entered since the window began |
| CallForest.WindowCaller | crates/amasario-contract/src/invocations.rs:450 | a window's caller is the true one, or none exactly when there is none or it was entered before the window |
| CallForest.WindowCalls | crates/amasario-contract/src/invocations.rs:440-480 | a window recovers the calls marked in it, with the callers visible in it |
| CallForest.WindowOfForest | crates/amasario-contract/src/invocations.rs:440-480 | any window of a well-nested trace: each call's true parent, or none exactly for a root or a parent before the window |
| CallForest.UndecodableCallInventsAnEdge | crates/amasario-contract/src/invocations.rs:446-448 | a trace on which a skipped call makes the replay record a caller that did not make the call |
| Attribution.FirstEnteredWrong | crates/amasario-contract/src/invocations.rs:446-477 | when the call that made a forest is not on the stack, the first decodable call in it is attributed to another |
| Attribution.ForestRightIff | crates/amasario-contract/src/invocations.rs:440-480 | where the stack is right, a forest's calls are all attributed rightly exactly when the forest is faithful |
| Attribution.EveryCallerRightIff | crates/amasario-contract/src/invocations.rs:431-483 | for every forest, the replay links every call to the call that made it, by position, exactly when the forest is faithful |
| Attribution.UndecodableCallerHidden | crates/amasario-contract/src/invocations.rs:446-448 | a call made by an undecodable one is recorded as made by the contract outside it |
| CallerNames.OpenIsOpen | crates/amasario-contract/src/invocations.rs:440-480 | for any trace, every call on the replay's stack is really open |
| CallerNames.ParentIsOpen | crates/amasario-contract/src/invocations.rs:440-480 | the call that made a call of a forest is the innermost one really open |
| CallerNames.RecordsRightIff | crates/amasario-contract/src/invocations.rs:431-483 | for every forest the records are its decodable calls in order; all name the right caller if it is faithful, and only then unless a contract is entered again while open |
| CallerNames.ReentryHidesTheError | crates/amasario-contract/src/invocations.rs:446-477 | a contract that calls itself: an unfaithful forest whose records all name the right caller |
| InvocationCanonical.KeyThenBasis | crates/amasario-contract/src/invocations.rs:357-373 | the sort orders by call first and by strength of evidence within a call |
| InvocationCanonical.CanonicalForm | crates/amasario-contract/src/invocations.rs:356-381 | strictly increasing calls, each with the earliest record of its strongest basis, and nothing else |
| InvocationCanonical.CanonicalUnique | crates/amasario-contract/src/invocations.rs:356-381 | only the computed list has that property |
| InvocationCanonical.EveryCallIsKept | crates/amasario-contract/src/invocations.rs:356-381 | no call is lost and none appears |
| InvocationCanonical.CanonicaliseIdempotent | crates/amasario-contract/src/invocations.rs:356-381 | canonicalising twice is canonicalising once |
| InvocationCanonical.OrderOfEvidenceIrrelevant | crates/amasario-contract/src/invocations.rs:337-355 | reordering the evidence changes neither the calls nor their bases |
| InvocationCanonical.Merge | crates/amasario-contract/src/invocations.rs:345-355 | of two lists of records, each call keeps the stronger list's record |
| InvocationCanonical.TransactionMerge | crates/amasario-contract/src/invocations.rs:278-335 | exactly the calls of operations and markers, one record each on the operation's basis where there is one; nesting recovered iff a record has a caller; no success in a failed transaction |
| Ordering.SortFacts | crates/amasario-contract/src/invocations.rs:357-373 | the stable sort orders, keeps every element as often as it occurred and keeps the order within a key |
| Ordering.SortIsTheStableSort | crates/amasario-contract/src/invocations.rs:357-373 | whatever sorts stably computes this sort |
| Ordering.DedupFacts | crates/amasario-contract/src/invocations.rs:374-379 | removing neighbours with equal keys from a sorted list leaves the first element of each key, keys strictly increasing |
| TextOrder.FirstDifference | crates/amasario-contract/src/invocations.rs:52-91 | texts are ordered at the first character in which they differ, a beginning before what it begins |
| TextOrder.SortsByText | crates/amasario-contract/src/interface.rs:268-278 | a sort by a text is exactly the list in the order of the texts, those of one text in the order they came in |
| TypeNames.PrintedOnce | crates/amasario-contract/src/interface.rs:526-574 | equal texts that begin with a printed type begin with the same type and continue alike, at any nesting |
| TypeNames.TypeNameInjectiveIff | crates/amasario-contract/src/interface.rs:526-574 | no two types print alike exactly when no user-defined type is called by a built-in word |
| TypeNames.CommaInNameCollides | crates/amasario-contract/src/interface.rs:526-574 | a name holding a comma prints like two types |
| TypeSpelling.SpellingPrinted | crates/amasario-contract/src/interface.rs:526-566 | every type's printed words, brackets and commas, its names read as text |
| TypeSpelling.NumeralIff | crates/amasario-contract/src/interface.rs:563 | a size is printed as its one decimal numeral without superfluous zeros |
| Interface.DecodeSpecSection | crates/amasario-contract/src/interface.rs:289-357 | the loop that steps by re-encoded length terminates and computes the specified reading; over a canonical codec its result lists, kind by kind, exactly the entries whose encodings make up the section, every field saying what the entry says |
| DeclaredInterface.FunctionIff | crates/amasario-contract/src/interface.rs:417-441 | a function says its name, its inputs with their types in the order of names, its output or "void" and its documentation |
| DeclaredInterface.StructIff | crates/amasario-contract/src/interface.rs:383-394 | a structure says its name, its library and each field's name and type |
| DeclaredInterface.UnionIff | crates/amasario-contract/src/interface.rs:443-465 | a union says its name, its library and each case, "VOID" or "TUPLE" with its types |
| DeclaredInterface.ValuesIff | crates/amasario-contract/src/interface.rs:396-410 | an enumeration, of errors or not, says its name, its library and each case's name and value |
| DeclaredInterface.EventIff | crates/amasario-contract/src/interface.rs:483-520 | an event says its name after the marker, its topics, each parameter with its type and "topic" or "data", and its data format by word |
| DeclaredInterface.CanonicalDeclares | crates/amasario-contract/src/interface.rs:264-278 | each of the six lists holds one declaration for every entry of its kind and no other, in the order of names, those of one name in the order of the entries |
| DeclaredInterface.SectionDeclares | crates/amasario-contract/src/interface.rs:289-410 | the interface of any section that decodes lists exactly the entries whose encodings make up its bytes before the stop |
| SpecSection.ReadingAccounts | crates/amasario-contract/src/interface.rs:301-338 | the entries re-encode to exactly the bytes before the end of the reading, which stops exactly at bytes no entry decodes from |
| SpecSection.EntriesReadBack | crates/amasario-contract/src/interface.rs:301-338 | concatenated entries are all recovered, with exactly the undecodable tail left |
| SpecSection.EncodingDeterminesEntries | crates/amasario-contract/src/interface.rs:608-616 | two lists of entries with one encoding are the same list |
| SpecSection.SectionAccounting | crates/amasario-contract/src/interface.rs:289-357 | an error exactly when the first entry of a non-empty section fails; otherwise widths plus trailing bytes make up the section and trailing bytes are recorded iff present |
| SpecSection.DamagedTailKeepsEntries | crates/amasario-contract/src/interface.rs:283-357 | a damaged end costs no entry before it, and its size and place are recorded |
| SpecSection.XdrIsCanonical | crates/amasario-contract/src/interface.rs:365-376 | XDR meets the laws the loop relies on, for every schema |
| SpecSection.RepresentedIsCanonical | crates/amasario-contract/src/interface.rs:365-376 | a loss-free representation of decoded values keeps the laws |
| EntryXdr.EntryBack | crates/amasario-contract/src/interface.rs:365-376 | an entry read from an XDR value is written as that value |
| EntryXdr.EntryForth | crates/amasario-contract/src/interface.rs:365-376 | an entry whose texts are byte strings is read back from its XDR value |
| EntryXdr.EntryCodecIsCanonical | crates/amasario-contract/src/interface.rs:365-376 | entries written in XDR meet the laws the decoding loop relies on |
| EntryXdr.EntryWritten | crates/amasario-contract/src/interface.rs:608-616 | the codec writes every entry of byte strings that keeps the format's limits |
| EntryBytes.EntryLaidOut | crates/amasario-contract/src/interface.rs:608-616 | an entry is written byte for byte in the layout of its kind, and read back from those bytes whatever follows |
| Xdr.DecodesEncoded | crates/amasario-contract/src/interface.rs:365-376 | every typed value is decoded back from its encoding, wherever that stands |
| Xdr.DecodedReencodes | crates/amasario-contract/src/interface.rs:365-376 | what is decoded is well typed and re-encodes to exactly the bytes it came from |
| InterfaceOrder.SortForgetsOrderIff | crates/amasario-contract/src/interface.rs:264-278 | a sort by name is independent of declaration order exactly when names identify declarations |
| InterfaceOrder.SortKeepsOrderIff | crates/amasario-contract/src/interface.rs:268-278 | a list keeps its order exactly when it is already in the order of its keys |
| InterfaceOrder.DeclaredOrderKeptIff | crates/amasario-contract/src/interface.rs:275-277 | inputs keep their declared order exactly when it is the order of their names |
| InterfaceOrder.DeclaredOrderLost | crates/amasario-contract/src/interface.rs:275-277 | two inputs that come out the other way round |
| InterfaceOrder.CanonicaliseKeepsDeclarations | crates/amasario-contract/src/interface.rs:268-278 | every declaration is kept; only the order of inputs changes inside one |
| InterfaceOrder.CanonicalForgetsOrder | crates/amasario-contract/src/interface.rs:264-278 | the same declarations in any order have one canonical form |
| InterfaceOrder.ReorderedFunction | crates/amasario-contract/src/interface.rs:275-277 | reordering inputs whose names differ as text changes nothing canonical |
| InterfaceOrder.DeclarationOrderIrrelevant | crates/amasario-contract/src/interface.rs:248-278 | permuting a section's entries and each function's inputs keeps the value the digest is computed over |
| InterfaceReading.EntryReadIff | crates/amasario-contract/src/interface.rs:380-520 | two entries have the same part of the interface exactly when, read as text, they differ only in what is dropped |
| InterfaceReading.VoidAndNothingAlike | crates/amasario-contract/src/interface.rs:420-424 | declaring no output and declaring the empty type give one interface |
| InterfaceReading.StrayNamesAlike | crates/amasario-contract/src/interface.rs:427 | two functions whose names are different stray bytes are one in the interface |
| InterfaceReading.DigestFormIff | crates/amasario-contract/src/interface.rs:240-278 | the value the digest is computed over is the same exactly when the declarations are, in whatever order |
| InterfaceReading.NameAfterFirstMarker | crates/amasario-contract/src/interface.rs:487-489 | an event keeps what follows the first marker in its name |
| InterfaceReading.NameWithoutMarker | crates/amasario-contract/src/interface.rs:487-489 | a name without the marker is kept whole |
| Inspection.ReadModule | crates/amasario-contract/src/inspector.rs:431-497 | the digest verdict, the module as its sections hold it, the interface as its entries declare it and the exact anomalies for every recorded digest and ledger entry; no anomaly costs what was readable |
| Inspection.ReadCode | crates/amasario-contract/src/inspector.rs:474-497 | code is parsed exactly when it is a module of the grammar, its interface read exactly when the section is empty or begins with an entry |
| Inspection.InterfaceReadFromModule | crates/amasario-contract/src/inspector.rs:474-497 | an interface packaged among any sections is read back from the encoded module |
| Inspection.RebuiltInterfaceIsTheSame | crates/amasario-contract/src/interface.rs:240-262 | two modules declaring one interface in different orders give one value to digest |
| Inspector.Truncation.constructor | crates/amasario-contract/src/inspector.rs:504 | no reason is recorded at first |
| Inspector.Truncation.Push | crates/amasario-contract/src/inspector.rs:512 | a reason is added after those recorded |
| Inspector.HashesOf | crates/amasario-contract/src/inspector.rs:534-537 | the reported hashes in order |
| Inspector.KeepTouching | crates/amasario-contract/src/invocations.rs:250-259 | the calls made to the contract and the cross-contract calls made by it, in order |
| Inspector.ConvertEvents | crates/amasario-contract/src/inspector.rs:515-528 | every event is passed on unless one is of no ledger |
| Inspector.ReadTransactions | crates/amasario-contract/src/inspector.rs:530-579 | the bounded loop: which reasons are pushed, what is counted as read and which records are returned, on failure and cancellation too |
| Inspector.CollectInvocations | crates/amasario-contract/src/inspector.rs:500-580 | over the scan's events: where the reading ends and why, one reason for each transaction the network lacks before that point, and when it finishes exactly the calls to or from the contract that the transactions within the bound evidence, in the order of all fields, with the count of those the network has |
| Collection.FinishedIff | crates/amasario-contract/src/inspector.rs:550-575 | the reading finishes exactly when uncancelled, always answered and everything found usable, and then met what it would have met |
| Collection.DistinctFacts | crates/amasario-contract/src/inspector.rs:534-539 | every reported hash once, in increasing order |
| Collection.TransactionsNamed | crates/amasario-contract/src/inspector.rs:524-539 | the transactions to read are exactly those some event names, each text once, in the order of characters |
| Collection.ReadingConserves | crates/amasario-contract/src/inspector.rs:541-564 | min(distinct, bound) = read + unavailable + malformed; the bound is reported exactly when it cut something off |
| Collection.FullRowInjective | crates/amasario-contract/src/invocations.rs:52-91 | the derived order tells any two different records apart |
| Collection.ResultIsTheUnion | crates/amasario-contract/src/inspector.rs:550-579 | a record is returned exactly when a transaction within the bound evidences it |
| Collection.NothingMissed | crates/amasario-contract/src/inspector.rs:541-579 | with nothing cut, absent or malformed, the result is the union over every transaction that some event of the scan names |
| CollectedCalls.TakenIff | crates/amasario-contract/src/inspector.rs:541-549 | a transaction is within the bound exactly when some event names it and fewer than the bound are named before it |
| CollectedCalls.EvidencesIff | crates/amasario-contract/src/inspector.rs:550-575 | a hash evidences a call exactly when the network has its transaction, which evidences a call whose callee or caller is the contract |
| CollectedCalls.EndsAt | crates/amasario-contract/src/inspector.rs:550-564 | the reading ends before the first transaction within the bound at which it is cancelled or whose hash cannot be used, and has pushed one reason for each before it that the network lacks |
| CollectedCalls.CollectionEnds | crates/amasario-contract/src/inspector.rs:530-580 | where the operation ends, what it reports and what it returns, in terms of events and answers alone |
| CollectedCalls.RecordOrder | crates/amasario-contract/src/invocations.rs:52-91 | records are ordered by call, then ledger, place, strength of evidence, event and success |
| Collection.OneRecordPerCall | crates/amasario-contract/src/inspector.rs:577-578 | at most one record of each call when transactions are answered under different hashes |
| Collection.OneRecordPerCallIff | crates/amasario-contract/src/inspector.rs:570-578 | for any hashes: one record of each call whatever the transactions hold, exactly when no two of them are reported under one hash |
| Collection.CollidingAnswersSplitACall | crates/amasario-contract/src/inspector.rs:570-578 | any two of the transactions reported under one hash can put two records of one call in the result |
| Collection.ReadOnceIff | crates/amasario-contract/src/inspector.rs:530-564 | for any events and bound: no transaction is read twice, whatever the network answers, exactly when no two hashes within the bound differ only in case |
| Collection.TwoSpellingsReadTwice | crates/amasario-contract/src/inspector.rs:530-564 | one transaction reported under two spellings is read and counted twice |
| Collection.CaseMakesTwoSpellings | crates/amasario-core/src/identity.rs:501-516 | sixty-four digits in either case are two texts of one transaction |
| Documents.AddEntities | integration-tests/src/documents.rs:672-679 | entities not listed yet are added in order |
| Documents.CollectNodes | integration-tests/src/documents.rs:717-730 | every entity the dependencies name, in first-seen order |
| Documents.Push | integration-tests/src/documents.rs:736-748 | the edge is added exactly when no edge with its ends and relationship is held |
| Documents.FindObserved | integration-tests/src/documents.rs:695-699 | the specified search for a direct edge between two entities |
| Documents.PushChain | integration-tests/src/documents.rs:692-713 | the observed edge of every hop is pushed in order, or the chain fails |
| Documents.BuildEdges | integration-tests/src/documents.rs:664-714 | the two loops compute the specified nodes and edges |
| Documents.NodesFacts | integration-tests/src/documents.rs:717-730 | the list repeats nothing and holds exactly the entities named |
| Documents.PushAllFacts | integration-tests/src/documents.rs:736-748 | no two edges share ends and relationship, and every pushed triple is held |
| Documents.GraphOfRoutes | integration-tests/src/documents.rs:650-714 | fails exactly on an unobserved hop; otherwise every transitive route can be walked in order, edges are direct, observed and distinct, and every end is in the duplicate-free node list |
| DocumentOrder.FindHopIff | integration-tests/src/documents.rs:695-699 | the edge found for a hop is the first observed one; no earlier one connects the two entities |
| DocumentOrder.HopsIff | integration-tests/src/documents.rs:692-713 | a chain's edges are, hop by hop, the first observed |
| DocumentOrder.ListedExactly | integration-tests/src/documents.rs:664-748 | the nodes are the first of each entity named, in order; the edges the first with their ends and relationship among the direct dependencies and then the routes' edges, in order |
| GraphSpec.EdgesFromMembers | crates/amasario-graph/src/traversal.rs:321-346 | exactly the edges at an entity in the given direction are followed |
| WalkOrder.EdgeOrder | crates/amasario-graph/src/traversal.rs:335-345 | edges are followed in the order of the neighbour's kind, its identifier and the relationship, as texts |
| WalkOrder.HopsInOrder | crates/amasario-graph/src/traversal.rs:321-346 | the edges followed from an entity come in that order |
| WalkOrder.SearchInOrder | crates/amasario-graph/src/traversal.rs:216-221 | the search finds every entity by the least of all walks that reach it, and the entities in the order of those walks |
| BreadthFirst.OrderAtFacts | crates/amasario-graph/src/traversal.rs:216-221 | after every round of a search without bounds the list is of shortest walks, nearest first, with everything taken out expanded |
| BreadthFirst.WholeOrder | crates/amasario-graph/src/traversal.rs:216-221 | the whole order lists exactly what is reachable, each once with a shortest walk |
| BreadthFirst.FoundLaterIsDeeper | crates/amasario-graph/src/traversal.rs:216-221 | what is found once an entity is taken out is further away than it |
| Traversal.Expand | crates/amasario-graph/src/traversal.rs:249-285 | the inner loop's three lists hold everything listed and the neighbours not listed yet, or the first of them up to the node bound, which cuts exactly when there are more |
| Traversal.Traverse | crates/amasario-graph/src/traversal.rs:222-316 | the result is determined by graph and limits: the first entities, in the order of their least walks (`SearchInOrder`), that keep both bounds, listed by depth, kind and identifier, with the mark, its reason and the depth |
| TraversalResults.EntriesShortest | crates/amasario-graph/src/traversal.rs:216-221 | every entry's walk exists, is shortest and keeps the depth bound; no entity is one twice |
| TraversalOrder.OneResult | crates/amasario-graph/src/traversal.rs:222-316 | graph, start, direction and limits determine the result |
| TraversalOrder.GraphOrderIrrelevant | crates/amasario-graph/src/traversal.rs:318-320 | listing the edges in another order changes nothing that is reported |
| TraversalOrder.EntriesLeast | crates/amasario-graph/src/traversal.rs:318-346 | each entity is reported by the least walk that leads to it: shortest, then by the neighbours' kinds and identifiers and the relationships along it |
| TraversalOrder.BoundKeepsFirst | crates/amasario-graph/src/traversal.rs:242-246 | what the node bound leaves out comes later: its every walk within the depth bound is behind that of every entry |
| TraversalOrder.LesserNeighbourFirst | crates/amasario-graph/src/traversal.rs:335-345 | a neighbour of lesser kind or identifier is found if a greater one met at the same entity is; of parallel edges the least relationship is taken |
| TraversalOrder.EntriesInOrder | crates/amasario-graph/src/traversal.rs:304-316 | entries come strictly in the order of depth, kind and identifier |
| TraversalOrder.ListedByThen | crates/amasario-graph/src/traversal.rs:222-246 | when an entity is taken out, listed is exactly what was found over the edges of those taken out before |
| TraversalResults.FoundIff | crates/amasario-graph/src/traversal.rs:222-316 | an entity is found exactly when it is among the first of the whole order that keep the bounds |
| TraversalResults.MissedIff | crates/amasario-graph/src/traversal.rs:234-246 | for every graph and limits: something is missed exactly when an entity lies beyond the depth bound or there are more than the node bound |
| TraversalResults.BeyondIff | crates/amasario-graph/src/traversal.rs:234-241 | an entity lies beyond the depth bound exactly when an edge leads out of what is within it |
| TraversalResults.UnmarkedIsComplete | crates/amasario-graph/src/traversal.rs:234-246 | a result without a mark misses nothing |
| TraversalResults.MarkedForNothingIff | crates/amasario-graph/src/traversal.rs:234-246 | marked with nothing missed, exactly when everything keeps the bounds and an entity with edges is met at one |
| TraversalResults.MarkRightIff | crates/amasario-graph/src/traversal.rs:234-246 | the mark means that something is missed exactly outside that case |
| TraversalResults.CompleteToDepth | crates/amasario-graph/src/traversal.rs:234-246 | unless the node bound was met, exactly the entities within the depth bound are found |
| TraversalResults.CompleteBelowDeepest | crates/amasario-graph/src/traversal.rs:216-221 | whatever bound was met, everything nearer than the furthest entity found is found |
| TraversalResults.DeepestIsReached | crates/amasario-graph/src/traversal.rs:279 | the depth reported is that of the furthest entry |
| TraversalResults.MarkedAtDepth | crates/amasario-graph/src/traversal.rs:234-241 | a two-entity cycle walked to depth one: everything found, still marked |
| TraversalResults.MarkedWhenFull | crates/amasario-graph/src/traversal.rs:242-246 | the same cycle with room for two entities: everything found, still marked |
| Reachability.ClosedWalkInside | crates/amasario-graph/src/cycles.rs:13-20 | a closed walk stays inside the component it begins in |
| Tarjan.EnterKeeps | crates/amasario-graph/src/cycles.rs:184-210 | finding a node keeps the search's invariant: what frames reach, what leads back to them, and what low links bound |
| Tarjan.LookKeeps | crates/amasario-graph/src/cycles.rs:211-214 | following a hop to a node seen before keeps it |
| Tarjan.LeaveKeeps | crates/amasario-graph/src/cycles.rs:217-223 | leaving a node that is no root of a component keeps it |
| Tarjan.TakenIsComponent | crates/amasario-graph/src/cycles.rs:223-236 | when a node's low link is its own, the stack from it on is exactly the nodes that reach each other with it |
| Tarjan.TakeKeeps | crates/amasario-graph/src/cycles.rs:223-236 | taking that component off the stack keeps the invariant |
| Tarjan.TakeComponent | crates/amasario-graph/src/cycles.rs:224-235 | the inner loop takes exactly the stack from the node on, in the order of the nodes |
| Tarjan.FindComponents | crates/amasario-graph/src/cycles.rs:167-240 | the iterative search ends, with every node in exactly one component and each component the nodes that reach each other |
| ShortestCycle.CyclicIff | crates/amasario-graph/src/cycles.rs:50-55 | through a node of a component there is a cycle exactly when the component has more than one node or a self-loop |
| ShortestCycle.NoShorter | crates/amasario-graph/src/cycles.rs:242-246 | while the search goes on every cycle through the start is longer than the walk being tried; at its end there is none |
| ShortestCycle.NoEarlierHops | crates/amasario-graph/src/cycles.rs:242-246 | no walk to a node not found yet comes before the one by the hop at hand, in length and then in the places of its hops |
| ShortestCycle.WalkBack | crates/amasario-graph/src/cycles.rs:273-281 | the parents give back the walk that reached the node, in the order of travel |
| ShortestCycle.RepresentativeCycle | crates/amasario-graph/src/cycles.rs:247-306 | the least of the shortest cycles through the component's first node, hop by hop, or none exactly when the component has no cycle |
| CycleGraph.BuildAdjacency | crates/amasario-graph/src/cycles.rs:136-159 | the two loops compute each node's hops in canonical order |
| CycleGraph.HopIff | crates/amasario-graph/src/cycles.rs:136-159 | a node's hops are exactly the edges that leave it for a node |
| CycleGraph.HopsInOrder | crates/amasario-graph/src/cycles.rs:148-157 | a node's hops come in the order of the kinds and identifiers they lead to, and those to one entity in the order of the edges |
| Cycles.Find | crates/amasario-graph/src/cycles.rs:80-104 | of every group of entities that depend on each other exactly one cycle, of the shortest through the group's first node the one whose entities come first, over the first of any parallel edges, in the order of identifiers; every entity on a cycle is in such a group |
| Cycles.LeastLifted | crates/amasario-graph/src/cycles.rs:242-246 | the least walk of hops is the cycle whose entities come first, over the edges listed first |
| CycleOrder.CyclesInOrder | crates/amasario-graph/src/cycles.rs:98-104 | cycles come in the order of the identifiers they begin with, as texts |
| CycleOrder.ListingIff | crates/amasario-graph/src/cycles.rs:76-78 | listing the edges otherwise changes no cycle's entities; a cycle is reported for another listing exactly when its edges come first there among those with their ends |
| CycleOrder.ListingIrrelevant | crates/amasario-graph/src/cycles.rs:76-78 | without parallel edges the listing makes no difference to the cycles, nor to their order when they begin differently |
| Cycles.HasCycle | crates/amasario-graph/src/cycles.rs:111-120 | true exactly when following edges leads from some entity back to it |
| CyclicGroups.Components | crates/amasario-graph/src/cycles.rs:45-72 | exactly the entities on cycles, each in one group with exactly those it depends on and that depend on it |
| CyclicGroups.GroupsInOrder | crates/amasario-graph/src/cycles.rs:56-63 | groups come by size and then by the text of their first entity |
| CyclicGroups.DocumentedOrderIff | crates/amasario-graph/src/cycles.rs:56-63 | when exactly two groups come in the order documented |
| TraversalCycles.TraverseGraph | crates/amasario-graph/src/traversal.rs:222-316 | beside its result, of the graph's cycles, one for each group and in order, those whose entities were all found |
| TraversalCycles.ReachedGroupsReported | crates/amasario-graph/src/traversal.rs:292-303 | a result that misses nothing reports a cycle of every group it reaches, in either direction |
| TraversalCycles.ReportedIsFound | crates/amasario-graph/src/traversal.rs:292-303 | whatever is reported is a shortest cycle, the only one of its group, wholly among what was found |
| Identity.NewIdentity | crates/amasario-contract/src/identity.rs:308-350 | accepted exactly with a passphrase and a digest that agrees with the kind; what is accepted says of the contract exactly what was given, and nothing of observations |
| Identity.AcceptedComparedIff | crates/amasario-contract/src/identity.rs:400-433 | of two accepted records one is an upgrade exactly for one passphrase, one address and different modules; their texts agree exactly when network, address, kind and module do, for one-line network fields |
| Identity.AcceptedText | crates/amasario-contract/src/identity.rs:400-414 | the text whose digest is the fingerprint, line by line |
| Identity.CanonicalEqualIff | crates/amasario-contract/src/identity.rs:400-414 | two canonical texts agree exactly when address, kind and digest agree and the network lines run together do |
| Identity.FingerprintUniqueIff | crates/amasario-contract/src/identity.rs:400-414 | no other identity has this canonical text exactly when the network fields hold no newline |
| Identity.SameOrUpgraded | crates/amasario-contract/src/identity.rs:417-433 | same identity and upgrade exclude each other, and one holds exactly for one address on one chain, named alike if the modules agree |
| Identity.WindowIsTheRange | crates/amasario-contract/src/identity.rs:371-381 | after any observations the window is the least and greatest ledger ever observed; the identity text is untouched |
| Identity.ObservationOrderIrrelevant | crates/amasario-contract/src/identity.rs:365-381 | order and repetition of observations make no difference |
| Decimals.ParseU64Iff | crates/amasario-core/src/engine.rs:65-70 | a u64 is read exactly from its decimal digits after an optional plus sign and zeros, below 2^64 |
| Versions.SplitJoined | crates/amasario-core/src/engine.rs:59 | splitting at dots loses nothing |
| Versions.ParseIff | crates/amasario-core/src/engine.rs:58-86 | a version is read exactly from three spelled components between two dots |
| Versions.PrintedVersionIsRead | crates/amasario-core/src/engine.rs:107-111 | printing and reading any u64 triple gives it back, and the printed text is the only shortest one |
| Versions.SignsAndZerosAreRead | crates/amasario-core/src/engine.rs:65-70 | a leading plus sign and superfluous zeros are accepted |
| Versions.AcceptedIff | crates/amasario-core/src/engine.rs:146-301 | accepted exactly for the family and a spelled version of the same major and no newer minor; reduced exactly when strictly older |
| Versions.RaisingMinorKeepsDocuments | crates/amasario-core/src/engine.rs:146-192 | a newer minor version of the engine accepts all an older one did, as reduced |
| Versions.AcceptEachOtherIff | crates/amasario-core/src/engine.rs:146-301 | engines accept each other's documents exactly when major and minor agree, in full only when equal |
| Versions.ReducedPossibleIff | crates/amasario-core/src/engine.rs:292-301 | a reduced reading exists exactly when the engine's version is not a first release |
| Backoff.DelaysGrow | crates/amasario-core/src/configuration.rs:249-258 | delays never shrink and never exceed the ceiling, through shift and multiplication saturation |
| Backoff.DoublesIff | crates/amasario-core/src/configuration.rs:253-257 | when exactly the next delay is twice this one under the ceiling, by the policy and the attempt number |
| Backoff.DelayExactly | crates/amasario-core/src/configuration.rs:249-258 | no wait before the first retry, then the shortest doubled up to the 33rd attempt and fixed from the 34th, under the ceiling |
| Backoff.WaitsExactly | crates/amasario-network/src/rpc.rs:494-500 | the exact sum of the waits before the first 34 attempts: doubling under the ceiling, then the ceiling for each |
| Backoff.WaitsBeyond | crates/amasario-network/src/rpc.rs:494-500 | every wait after the 33rd attempt adds the same amount |
| Backoff.Attempt | crates/amasario-network/src/rpc.rs:148-203 | the request ends at the first attempt not retried, with its value, a refusal or the cancellation found before it or in the wait after it, and the exact time slept |
| Backoff.WorstCaseRetryWait | crates/amasario-network/src/rpc.rs:494-500 | the saturating sum of the permitted waits |
| Backoff.WaitsBounded | crates/amasario-network/src/rpc.rs:494-500 | all waits come to at most the ceiling for every retry but the first |
| Backoff.RequestBounded | crates/amasario-network/src/rpc.rs:148-203 | whatever the network does and whenever cancelled: permitted attempts only, never longer than the worst case, exactly that when every attempt fails transiently |
| Backoff.OneAnswer | crates/amasario-network/src/rpc.rs:148-203 | what happens around the attempts determines the attempt and the way a request ends |

## Left out

- Sessions, Horizon, the pages of an event scan, logging and clocks: a network answer is a
  function of the request, and cancellation is given by where the run notices it.
- SHA-256 and JSON: properties are stated on the text or value a digest is computed over.
- Error values: every failure is one constructor, so message texts and which check
  refused are not modelled.
- Wasm.Cursor.Take: positions are unbounded, so the overflow check on `usize` has nothing
  to refuse.
- EntryXdr.EntryCodecIsCanonical: the numbers and limits of Stellar's XDR files are not
  part of this repository; re-encoding a decoded entry cannot fail in the model.
- Two event names that differ only before the marker give one name, as in the code.
- Traversal.Traverse: gives the edges of a walk rather than their rendered labels; its
  cycles are attached by `TraverseGraph`. The same holds of the edges of a cycle.
- CycleGraph.BuildAdjacency: takes nodes as entities; reading an entity from a node's
  identifier is not modelled.
- TraversalCycles.TraverseGraph: visited entities are compared as values, not as rendered
  text, which is the same for kinds that hold no colon.
- The list of nodes on cycles, the common relationship of a cycle, impact propagation,
  snapshots, provenance and storage renderings.
- Configuration validation, command line, output files, fixtures and reports: one-branch
  facts.
- Inspection.ReadModule: names an anomaly but not the addresses and digests it carries.
- Backoff.Attempt: a cancellation noticed at the very end of a wait counts as after it.
