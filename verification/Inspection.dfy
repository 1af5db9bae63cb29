/** Reading a deployed module as a whole: its framing, then the interface its
    specification section declares, as `read_module` of `inspector.rs` does. */
module Inspection {
  import opened Basics
  import opened WasmSpec
  import opened WasmRoundTrip
  import opened WasmGrammar
  import opened WasmContents
  import opened InterfaceSpec
  import opened SpecSection
  import opened DeclaredInterface
  import Interface
  import InterfaceOrder
  import Wasm
  import Identity

  /** The ledger entry found under the recorded digest. */
  datatype Entry = NoEntry | OtherEntry | CodeEntry(code: seq<byte>)

  datatype Anomaly =
    | CodeEntryAbsent
    | UnexpectedEntry
    | DigestContradiction
    | MalformedModule
    | SpecSectionUndecodable

  /** What is read of a contract's deployed module. Nothing is a failure: a contract without
      a module has nothing to read, and whatever cannot be read is an anomaly that costs
      nothing else. */
  method ReadModule(
    c: Codec<SpecEntry>, sha256: seq<byte> -> Identity.Digest, recorded: Option<Identity.Digest>, entry: Entry)
    returns (parsed: Option<Contents>, verified: Option<bool>, interface_: Option<ContractInterface>,
             anomalies: seq<Anomaly>)
    requires Canonical(c)
    ensures verified == if recorded.Some? && entry.CodeEntry? then Some(sha256(entry.code) == recorded.value) else None
    ensures verified.None? ==> parsed.None? && interface_.None?
    ensures verified.None? ==>
              anomalies
                == if recorded.None? then [] else if entry.NoEntry? then [CodeEntryAbsent] else [UnexpectedEntry]
    ensures verified.Some? ==> ReadFully(c, entry.code, parsed, interface_)
    ensures verified.Some? ==>
              anomalies == (if verified.value then [] else [DigestContradiction])
                           + (if parsed.None? then [MalformedModule]
                              else if parsed.value.specSection.Some? && interface_.None? then [SpecSectionUndecodable]
                              else [])
  {
    hide ReadFully;
    parsed, verified, interface_, anomalies := None, None, None, [];
    if recorded.None? {
      return;
    }
    match entry {
      case NoEntry =>
        anomalies := [CodeEntryAbsent];
      case OtherEntry =>
        anomalies := [UnexpectedEntry];
      case CodeEntry(code) =>
        verified := Some(sha256(code) == recorded.value);
        if verified == Some(false) {
          anomalies := [DigestContradiction];
        }
        var problems;
        parsed, interface_, problems := ReadCode(c, code);
        anomalies := anomalies + problems;
    }
  }

  /** The code is parsed exactly when it is a module of the grammar, and read as what its
      sections hold; its interface is read exactly when it has a specification section that
      is empty or begins with an entry, and declares what the section's entries do. */
  ghost predicate ReadFully(
    c: Codec<SpecEntry>, code: seq<byte>, parsed: Option<Contents>, interface_: Option<ContractInterface>)
  {
    && (parsed.Some? <==> exists fs :: Module(code, fs))
    && (parsed.Some?
        ==> ParseModule(code) == Ok(parsed.value) && exists fs :: Module(code, fs) && Reads(parsed.value, fs))
    && (interface_.Some?
        <==> && parsed.Some? && parsed.value.specSection.Some?
             && (parsed.value.specSection.value == [] || c.decode(parsed.value.specSection.value).Some?))
    && (interface_.Some? ==>
          exists es :: ReadsAs(c, parsed.value.specSection.value, interface_.value, es)
            && Declares(interface_.value, es))
  }

  method ReadCode(c: Codec<SpecEntry>, code: seq<byte>)
    returns (parsed: Option<Contents>, interface_: Option<ContractInterface>, problems: seq<Anomaly>)
    requires Canonical(c)
    ensures ReadFully(c, code, parsed, interface_)
    ensures problems == if parsed.None? then [MalformedModule]
                        else if parsed.value.specSection.Some? && interface_.None? then [SpecSectionUndecodable]
                        else []
  {
    hide Module, ParseModule, ReadsAs, Declares, Reads, DecodeSection;
    parsed, interface_, problems := None, None, [];
    AcceptedIffInGrammar(code);
    var m := Wasm.Parse(code);
    if m.Err? {
      return None, None, [MalformedModule];
    }
    parsed := Some(m.value);
    ghost var fs :| Module(code, fs);
    ParsedReads(code, fs);
    if m.value.specSection.Some? {
      var section := m.value.specSection.value;
      SectionAccounting(c, section);
      var decoded := Interface.DecodeSpecSection(c, section);
      if decoded.Ok? {
        SectionDeclares(c, section);
        interface_ := Some(decoded.value);
      } else {
        problems := [SpecSectionUndecodable];
      }
    }
  }

  /** An interface survives being packaged in a module among any other sections: it is
      read back from the encoded module, but for a damaged end. */
  lemma InterfaceReadFromModule(c: Codec<SpecEntry>, ss: seq<Source>, es: seq<SpecEntry>, tail: seq<byte>)
    requires Canonical(c) && AllValid(c, es) && es != [] && (tail == [] || c.decode(tail).None?)
    requires WellFormed(ss) && FirstContents(ss, "contractspecv0") == Some(EncodeEntries(c, es) + tail)
    ensures ParseModule(EncodeModule(ss)).Ok? && ParseModule(EncodeModule(ss)).value.specSection.Some?
    ensures DecodeSection(c, ParseModule(EncodeModule(ss)).value.specSection.value)
         == Ok(Canonicalise(AddEntries(EMPTY_INTERFACE, es)).(
                 undecodableTrailingBytes := |tail|,
                 decodeDetail := if tail == [] then None else Some(Stop(|EncodeEntries(c, es)|, |es|))))
  {
    hide ParseModule, EncodeModule, DecodeSection, Canonicalise, AddEntries;
    ModuleRoundTrip(ss);
    DamagedTailKeepsEntries(c, es, tail);
  }

  /** Two modules that declare the same interface in different orders, whatever else they
      hold, have one canonical interface: rebuilding a contract does not change what
      its interface digest is computed over. */
  lemma RebuiltInterfaceIsTheSame(
      c: Codec<SpecEntry>, ss: seq<Source>, tt: seq<Source>, es: seq<SpecEntry>, mid: seq<SpecEntry>,
      fs: seq<SpecEntry>)
    requires Canonical(c) && AllValid(c, es) && AllValid(c, fs) && es != [] && fs != []
    requires WellFormed(ss) && FirstContents(ss, "contractspecv0") == Some(EncodeEntries(c, es))
    requires WellFormed(tt) && FirstContents(tt, "contractspecv0") == Some(EncodeEntries(c, fs))
    requires |es| == |mid| && forall n :: 0 <= n < |es| ==> InterfaceOrder.Reordered(es[n], mid[n])
    requires multiset(mid) == multiset(fs)
    requires InterfaceOrder.NamesIdentify(InterfaceOrder.InputsSorted(InterfaceOrder.All(es)))
    ensures ParseModule(EncodeModule(ss)).Ok? && ParseModule(EncodeModule(ss)).value.specSection.Some?
    ensures ParseModule(EncodeModule(tt)).Ok? && ParseModule(EncodeModule(tt)).value.specSection.Some?
    ensures var i, j := DecodeSection(c, ParseModule(EncodeModule(ss)).value.specSection.value),
                        DecodeSection(c, ParseModule(EncodeModule(tt)).value.specSection.value);
            i.Ok? && j.Ok? && DigestForm(i.value) == DigestForm(j.value)
  {
    hide ParseModule, EncodeModule, DecodeSection, Canonicalise, AddEntries, WellFormed, FirstContents, EncodeEntries,
         Canonical,
         InterfaceOrder.NamesIdentify, InterfaceOrder.Reordered, InterfaceOrder.All, InterfaceOrder.InputsSorted;
    assert EncodeEntries(c, es) + [] == EncodeEntries(c, es);
    assert EncodeEntries(c, fs) + [] == EncodeEntries(c, fs);
    InterfaceReadFromModule(c, ss, es, []);
    InterfaceReadFromModule(c, tt, fs, []);
    InterfaceOrder.DeclarationOrderIrrelevant(es, mid, fs);
  }
}
