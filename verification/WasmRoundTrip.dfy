/** The encoders of the repository's tests, extended to every descriptor, and the proof
    that parsing an encoded module recovers what was encoded. */
module WasmRoundTrip {
  import opened Basics
  import opened Utf8
  import opened WasmSpec
  import opened WasmIntegers

  const U32_RANGE: nat := 0x1_0000_0000

  datatype Limits = Minimum(min: nat) | Range(min: nat, max: nat)

  datatype ImportDesc =
    | FunctionDesc(typeIndex: nat)
    | TableDesc(reference: byte, limits: Limits)
    | MemoryDesc(limits: Limits)
    | GlobalDesc(valueType: byte, mutability: byte)
    | TagDesc(attribute: byte, typeIndex: nat)

  datatype ImportEntry = ImportEntry(module_: string, field: string, desc: ImportDesc)

  datatype ExportEntry = ExportEntry(name: string, kind: ExportKind, index: nat)

  /** A section before it is encoded. The decoders stop after the declared entries, so
      an import or export payload may carry further bytes. */
  datatype Source =
    | CustomSource(name: string, contents: seq<byte>)
    | ImportSource(imports: seq<ImportEntry>, trailing: seq<byte>)
    | ExportSource(exports: seq<ExportEntry>, trailing: seq<byte>)
    | OtherSource(other: SectionKind, payload: seq<byte>)
  {
    function Kind(): SectionKind {
      match this
      case CustomSource(_, _) => Custom
      case ImportSource(_, _) => Import
      case ExportSource(_, _) => Export
      case OtherSource(kind, _) => kind
    }

    function Name(): Option<string> {
      if CustomSource? then Some(name) else None
    }

    function Payload(): seq<byte> {
      match this
      case CustomSource(name, contents) => EncodeName(name) + contents
      case ImportSource(imports, trailing) => EncodeU32(|imports|) + (EncodeImports(imports) + trailing)
      case ExportSource(exports, trailing) => EncodeU32(|exports|) + (EncodeExports(exports) + trailing)
      case OtherSource(_, payload) => payload
    }

    /** The source fits the format: sizes and indices are 32-bit, tables hold one of the
        two reference types, and counts are within the parser's bound. */
    ghost predicate Valid() {
      && |Payload()| < U32_RANGE
      && match this
         case CustomSource(name, _) => |BytesOf(name)| < U32_RANGE
         case ImportSource(imports, _) =>
           |imports| <= 65536 && forall i :: 0 <= i < |imports| ==> ValidImport(imports[i])
         case ExportSource(exports, _) =>
           |exports| <= 65536 && forall i :: 0 <= i < |exports| ==> ValidExport(exports[i])
         case OtherSource(kind, _) => kind != Custom && kind != Import && kind != Export
    }
  }

  ghost predicate ValidLimits(l: Limits) {
    l.min < U32_RANGE && (l.Range? ==> l.max < U32_RANGE)
  }

  ghost predicate ValidDesc(d: ImportDesc) {
    match d
    case FunctionDesc(index) => index < U32_RANGE
    case TableDesc(reference, limits) => (reference == 0x70 || reference == 0x6f) && ValidLimits(limits)
    case MemoryDesc(limits) => ValidLimits(limits)
    case GlobalDesc(_, _) => true
    case TagDesc(_, index) => index < U32_RANGE
  }

  ghost predicate ValidImport(e: ImportEntry) {
    |BytesOf(e.module_)| < U32_RANGE && |BytesOf(e.field)| < U32_RANGE && ValidDesc(e.desc)
  }

  ghost predicate ValidExport(e: ExportEntry) {
    |BytesOf(e.name)| < U32_RANGE && e.index < U32_RANGE
  }

  // ----- Encoders -----

  function EncodeName(name: string): seq<byte> {
    EncodeU32(|BytesOf(name)|) + BytesOf(name)
  }

  function EncodeLimits(l: Limits): seq<byte> {
    match l
    case Minimum(min) => [0] + EncodeU32(min)
    case Range(min, max) => [1] + (EncodeU32(min) + EncodeU32(max))
  }

  function EncodeDesc(d: ImportDesc): seq<byte> {
    match d
    case FunctionDesc(index) => [0] + EncodeU32(index)
    case TableDesc(reference, limits) => [1] + ([reference] + EncodeLimits(limits))
    case MemoryDesc(limits) => [2] + EncodeLimits(limits)
    case GlobalDesc(valueType, mutability) => [3] + ([valueType] + [mutability])
    case TagDesc(attribute, index) => [4] + ([attribute] + EncodeU32(index))
  }

  function EncodeImport(e: ImportEntry): seq<byte> {
    EncodeName(e.module_) + (EncodeName(e.field) + EncodeDesc(e.desc))
  }

  function EncodeImports(es: seq<ImportEntry>): seq<byte> {
    if es == [] then [] else EncodeImport(es[0]) + EncodeImports(es[1..])
  }

  function ExportKindByte(kind: ExportKind): byte {
    match kind
    case FunctionExport => 0
    case TableExport => 1
    case MemoryExport => 2
    case GlobalExport => 3
  }

  function EncodeExport(e: ExportEntry): seq<byte> {
    EncodeName(e.name) + ([ExportKindByte(e.kind)] + EncodeU32(e.index))
  }

  function EncodeExports(es: seq<ExportEntry>): seq<byte> {
    if es == [] then [] else EncodeExport(es[0]) + EncodeExports(es[1..])
  }

  function EncodeSection(s: Source): seq<byte> {
    [s.Kind().Id()] + (EncodeU32(|s.Payload()|) + s.Payload())
  }

  function EncodeSections(ss: seq<Source>): seq<byte> {
    if ss == [] then [] else EncodeSection(ss[0]) + EncodeSections(ss[1..])
  }

  function EncodeModule(ss: seq<Source>): seq<byte> {
    WASM_MAGIC + WASM_VERSION + EncodeSections(ss)
  }

  // ----- What parsing keeps of a source -----

  function KindOf(d: ImportDesc): ImportKind {
    match d
    case FunctionDesc(index) => FunctionImport(index)
    case TableDesc(_, _) => TableImport
    case MemoryDesc(_) => MemoryImport
    case GlobalDesc(_, _) => GlobalImport
    case TagDesc(_, _) => TagImport
  }

  function ImportOf(e: ImportEntry): WasmImport {
    WasmImport(e.module_, e.field, KindOf(e.desc))
  }

  function ImportsOf(es: seq<ImportEntry>): seq<WasmImport> {
    seq(|es|, i requires 0 <= i < |es| => ImportOf(es[i]))
  }

  function ExportOf(e: ExportEntry): WasmExport {
    WasmExport(e.name, e.kind)
  }

  function ExportsOf(es: seq<ExportEntry>): seq<WasmExport> {
    seq(|es|, i requires 0 <= i < |es| => ExportOf(es[i]))
  }

  function SectionsOf(ss: seq<Source>, offset: nat): seq<WasmSection> {
    if ss == [] then []
    else
      [WasmSection(ss[0].Kind(), ss[0].Name(), offset, |ss[0].Payload()|)]
      + SectionsOf(ss[1..], offset + |EncodeSection(ss[0])|)
  }

  /** The first import section's entries, or `otherwise` when there is none. */
  function ImportsIn(ss: seq<Source>, otherwise: seq<WasmImport>): seq<WasmImport> {
    if ss == [] then otherwise
    else if ss[0].ImportSource? then ImportsOf(ss[0].imports)
    else ImportsIn(ss[1..], otherwise)
  }

  function ExportsIn(ss: seq<Source>, otherwise: seq<WasmExport>): seq<WasmExport> {
    if ss == [] then otherwise
    else if ss[0].ExportSource? then ExportsOf(ss[0].exports)
    else ExportsIn(ss[1..], otherwise)
  }

  /** The contents of the first custom section called `name`, without the name. */
  function FirstContents(ss: seq<Source>, name: string): Option<seq<byte>> {
    if ss == [] then None
    else if ss[0].CustomSource? && ss[0].name == name then Some(ss[0].contents)
    else FirstContents(ss[1..], name)
  }

  // ----- Each reader inverts its encoder -----

  lemma NameEncoded(b: seq<byte>, p: nat, name: string)
    requires |BytesOf(name)| < U32_RANGE && Occurs(b, p, EncodeName(name))
    ensures NameAt(b, p) == Got(name, p + |EncodeName(name)|)
  {
    hide BytesOf, TextOf;
    var raw := BytesOf(name);
    OccursSplit(b, p, EncodeU32(|raw|), raw);
    U32Encoded(b, p, |raw|);
    TextReadBack(name);
  }

  lemma ByteEncoded(b: seq<byte>, p: nat, x: byte)
    requires Occurs(b, p, [x])
    ensures ByteAt(b, p) == Got(x, p + 1)
  {
    assert b[p] == b[p..p + 1][0];
  }

  lemma LimitsEncoded(b: seq<byte>, p: nat, l: Limits)
    requires ValidLimits(l) && Occurs(b, p, EncodeLimits(l))
    ensures LimitsAt(b, p) == Got((), p + |EncodeLimits(l)|)
  {
    hide UnsignedAt, Occurs, EncodeU32;
    match l
    case Minimum(min) =>
      OccursSplit(b, p, [0], EncodeU32(min));
      ByteEncoded(b, p, 0);
      U32Encoded(b, p + 1, min);
    case Range(min, max) =>
      OccursSplit(b, p, [1], EncodeU32(min) + EncodeU32(max));
      ByteEncoded(b, p, 1);
      OccursSplit(b, p + 1, EncodeU32(min), EncodeU32(max));
      U32Encoded(b, p + 1, min);
      U32Encoded(b, p + 1 + |EncodeU32(min)|, max);
  }

  lemma DescEncoded(b: seq<byte>, p: nat, d: ImportDesc)
    requires ValidDesc(d) && Occurs(b, p, EncodeDesc(d))
    ensures ImportKindAt(b, p) == Got(KindOf(d), p + |EncodeDesc(d)|)
  {
    hide UnsignedAt, Occurs, LimitsAt, EncodeLimits, EncodeU32;
    match d
    case FunctionDesc(index) =>
      OccursSplit(b, p, [0], EncodeU32(index));
      ByteEncoded(b, p, 0);
      U32Encoded(b, p + 1, index);
    case TableDesc(reference, limits) =>
      OccursSplit(b, p, [1], [reference] + EncodeLimits(limits));
      ByteEncoded(b, p, 1);
      OccursSplit(b, p + 1, [reference], EncodeLimits(limits));
      ByteEncoded(b, p + 1, reference);
      LimitsEncoded(b, p + 2, limits);
    case MemoryDesc(limits) =>
      OccursSplit(b, p, [2], EncodeLimits(limits));
      ByteEncoded(b, p, 2);
      LimitsEncoded(b, p + 1, limits);
    case GlobalDesc(valueType, mutability) =>
      OccursSplit(b, p, [3], [valueType] + [mutability]);
      ByteEncoded(b, p, 3);
      OccursSplit(b, p + 1, [valueType], [mutability]);
      ByteEncoded(b, p + 1, valueType);
      ByteEncoded(b, p + 2, mutability);
    case TagDesc(attribute, index) =>
      OccursSplit(b, p, [4], [attribute] + EncodeU32(index));
      ByteEncoded(b, p, 4);
      OccursSplit(b, p + 1, [attribute], EncodeU32(index));
      ByteEncoded(b, p + 1, attribute);
      U32Encoded(b, p + 2, index);
  }

  lemma ImportEncoded(b: seq<byte>, p: nat, e: ImportEntry)
    requires ValidImport(e) && Occurs(b, p, EncodeImport(e))
    ensures ImportAt(b, p) == Got(ImportOf(e), p + |EncodeImport(e)|)
  {
    hide NameAt, Occurs, ImportKindAt, EncodeName, EncodeDesc;
    OccursSplit(b, p, EncodeName(e.module_), EncodeName(e.field) + EncodeDesc(e.desc));
    var q := p + |EncodeName(e.module_)|;
    OccursSplit(b, q, EncodeName(e.field), EncodeDesc(e.desc));
    NameEncoded(b, p, e.module_);
    NameEncoded(b, q, e.field);
    DescEncoded(b, q + |EncodeName(e.field)|, e.desc);
  }

  lemma {:induction false} ImportsEncoded(b: seq<byte>, p: nat, es: seq<ImportEntry>)
    requires (forall i :: 0 <= i < |es| ==> ValidImport(es[i])) && Occurs(b, p, EncodeImports(es))
    ensures ImportsAt(b, p, |es|) == Got(ImportsOf(es), p + |EncodeImports(es)|)
    decreases |es|
  {
    hide ImportAt, Occurs, EncodeImport, ImportOf, ValidImport;
    if es == [] {
      assert ImportsOf(es) == [];
    } else {
      OccursSplit(b, p, EncodeImport(es[0]), EncodeImports(es[1..]));
      ImportEncoded(b, p, es[0]);
      ImportsEncoded(b, p + |EncodeImport(es[0])|, es[1..]);
      assert ImportsOf(es) == [ImportOf(es[0])] + ImportsOf(es[1..]);
    }
  }

  lemma ExportEncoded(b: seq<byte>, p: nat, e: ExportEntry)
    requires ValidExport(e) && Occurs(b, p, EncodeExport(e))
    ensures ExportAt(b, p) == Got(ExportOf(e), p + |EncodeExport(e)|)
  {
    hide NameAt, Occurs, UnsignedAt, EncodeName, EncodeU32;
    var kind := ExportKindByte(e.kind);
    OccursSplit(b, p, EncodeName(e.name), [kind] + EncodeU32(e.index));
    var q := p + |EncodeName(e.name)|;
    OccursSplit(b, q, [kind], EncodeU32(e.index));
    NameEncoded(b, p, e.name);
    ByteEncoded(b, q, kind);
    U32Encoded(b, q + 1, e.index);
  }

  lemma {:induction false} ExportsEncoded(b: seq<byte>, p: nat, es: seq<ExportEntry>)
    requires (forall i :: 0 <= i < |es| ==> ValidExport(es[i])) && Occurs(b, p, EncodeExports(es))
    ensures ExportsAt(b, p, |es|) == Got(ExportsOf(es), p + |EncodeExports(es)|)
    decreases |es|
  {
    hide ExportAt, Occurs, EncodeExport, ExportOf, ValidExport;
    if es == [] {
      assert ExportsOf(es) == [];
    } else {
      OccursSplit(b, p, EncodeExport(es[0]), EncodeExports(es[1..]));
      ExportEncoded(b, p, es[0]);
      ExportsEncoded(b, p + |EncodeExport(es[0])|, es[1..]);
      assert ExportsOf(es) == [ExportOf(es[0])] + ExportsOf(es[1..]);
    }
  }

  lemma ImportPayload(es: seq<ImportEntry>, trailing: seq<byte>)
    requires ImportSource(es, trailing).Valid()
    ensures ImportSectionOf(ImportSource(es, trailing).Payload()) == Ok(ImportsOf(es))
  {
    hide ImportsAt, UnsignedAt, ImportsOf, EncodeImports, EncodeU32;
    var payload := ImportSource(es, trailing).Payload();
    OccursInItself(EncodeU32(|es|), EncodeImports(es) + trailing);
    OccursSplit(payload, |EncodeU32(|es|)|, EncodeImports(es), trailing);
    U32Encoded(payload, 0, |es|);
    ImportsEncoded(payload, |EncodeU32(|es|)|, es);
  }

  lemma ExportPayload(es: seq<ExportEntry>, trailing: seq<byte>)
    requires ExportSource(es, trailing).Valid()
    ensures ExportSectionOf(ExportSource(es, trailing).Payload()) == Ok(ExportsOf(es))
  {
    hide ExportsAt, UnsignedAt, ExportsOf, EncodeExports, EncodeU32;
    var payload := ExportSource(es, trailing).Payload();
    OccursInItself(EncodeU32(|es|), EncodeExports(es) + trailing);
    OccursSplit(payload, |EncodeU32(|es|)|, EncodeExports(es), trailing);
    U32Encoded(payload, 0, |es|);
    ExportsEncoded(payload, |EncodeU32(|es|)|, es);
  }

  lemma CustomPayload(name: string, contents: seq<byte>)
    requires |BytesOf(name)| < U32_RANGE
    ensures var payload := CustomSource(name, contents).Payload();
            NameAt(payload, 0) == Got(name, |EncodeName(name)|) && payload[|EncodeName(name)|..] == contents
  {
    hide NameAt, EncodeName;
    OccursInItself(EncodeName(name), contents);
    NameEncoded(EncodeName(name) + contents, 0, name);
  }

  lemma SectionEncoded(b: seq<byte>, p: nat, s: Source)
    requires s.Valid() && Occurs(b, p, EncodeSection(s))
    ensures FrameAt(b, p) == Got(Frame(s.Kind(), s.Payload()), p + |EncodeSection(s)|)
  {
    hide UnsignedAt, EncodeU32, EncodeName, EncodeImports, EncodeExports;
    var payload := s.Payload();
    OccursSplit(b, p, [s.Kind().Id()], EncodeU32(|payload|) + payload);
    ByteEncoded(b, p, s.Kind().Id());
    OccursSplit(b, p + 1, EncodeU32(|payload|), payload);
    U32Encoded(b, p + 1, |payload|);
  }

  // ----- The whole module -----

  /** What admitting one encoded section adds. */
  lemma SectionAdmitted(acc: Contents, s: Source, offset: nat)
    requires s.Valid() && (s.Kind() != Custom ==> !Seen(acc.sections, s.Kind()))
    ensures Admit(acc, Frame(s.Kind(), s.Payload()), offset) == Ok(Contents(
              acc.sections + [WasmSection(s.Kind(), s.Name(), offset, |s.Payload()|)],
              if s.ImportSource? then ImportsOf(s.imports) else acc.imports,
              if s.ExportSource? then ExportsOf(s.exports) else acc.exports,
              if acc.specSection.Some? then acc.specSection else FirstContents([s], CONTRACT_SPEC_SECTION),
              if acc.envMetaSection.Some? then acc.envMetaSection else FirstContents([s], CONTRACT_ENV_META_SECTION)))
  {
    hide NameAt, ImportSectionOf, ExportSectionOf, ImportsOf, ExportsOf, EncodeName;
    match s
    case CustomSource(name, contents) =>
      CustomAdmitted(acc, name, contents, offset);
    case ImportSource(imports, trailing) =>
      ImportPayload(imports, trailing);
    case ExportSource(exports, trailing) =>
      ExportPayload(exports, trailing);
    case OtherSource(_, _) =>
  }

  lemma CustomAdmitted(acc: Contents, name: string, contents: seq<byte>, offset: nat)
    requires |BytesOf(name)| < U32_RANGE
    ensures var s := CustomSource(name, contents);
            Admit(acc, Frame(Custom, s.Payload()), offset) == Ok(Contents(
              acc.sections + [WasmSection(Custom, Some(name), offset, |s.Payload()|)], acc.imports, acc.exports,
              if acc.specSection.Some? then acc.specSection else FirstContents([s], CONTRACT_SPEC_SECTION),
              if acc.envMetaSection.Some? then acc.envMetaSection else FirstContents([s], CONTRACT_ENV_META_SECTION)))
  {
    hide NameAt, EncodeName, BytesOf, FirstContents, Source.Payload, Admit;
    CustomPayload(name, contents);
    FirstOfOne(name, contents, CONTRACT_SPEC_SECTION);
    FirstOfOne(name, contents, CONTRACT_ENV_META_SECTION);
    AdmitNamed(acc, CustomSource(name, contents).Payload(), name, |EncodeName(name)|, offset);
  }

  lemma FirstOfOne(name: string, contents: seq<byte>, wanted: string)
    ensures FirstContents([CustomSource(name, contents)], wanted) == if name == wanted then Some(contents) else None
  {
  }

  lemma AdmitNamed(acc: Contents, payload: seq<byte>, name: string, q: nat, offset: nat)
    requires q <= |payload| && NameAt(payload, 0) == Got(name, q)
    ensures Admit(acc, Frame(Custom, payload), offset) == Ok(acc.(
              sections := acc.sections + [WasmSection(Custom, Some(name), offset, |payload|)],
              specSection :=
                if name == CONTRACT_SPEC_SECTION && acc.specSection.None? then Some(payload[q..]) else acc.specSection,
              envMetaSection :=
                if name == CONTRACT_ENV_META_SECTION && acc.envMetaSection.None? then Some(payload[q..])
                else acc.envMetaSection))
  {
    hide NameAt;
    assert |CONTRACT_SPEC_SECTION| != |CONTRACT_ENV_META_SECTION|;
  }

  ghost predicate WellFormed(ss: seq<Source>) {
    && (forall i :: 0 <= i < |ss| ==> ss[i].Valid())
    && (forall i, j :: 0 <= i < j < |ss| && ss[i].Kind() == ss[j].Kind() ==> ss[i].Kind() == Custom)
  }

  /** No section of `ss` repeats a non-custom kind already read. */
  ghost predicate Fresh(sections: seq<WasmSection>, ss: seq<Source>) {
    forall i :: 0 <= i < |ss| && ss[i].Kind() != Custom ==> !Seen(sections, ss[i].Kind())
  }

  lemma {:induction false} NoneLeft(
    ss: seq<Source>, kind: SectionKind, imports: seq<WasmImport>, exports: seq<WasmExport>)
    requires forall i :: 0 <= i < |ss| ==> ss[i].Kind() != kind
    ensures kind == Import ==> ImportsIn(ss, imports) == imports
    ensures kind == Export ==> ExportsIn(ss, exports) == exports
  {
    if ss != [] {
      assert ss[0].Kind() != kind;
      NoneLeft(ss[1..], kind, imports, exports);
    }
  }

  /** After a section of a kind other than custom no other of its kind follows. */
  lemma FirstOnly(ss: seq<Source>, imports: seq<WasmImport>, exports: seq<WasmExport>)
    requires WellFormed(ss) && ss != []
    ensures ss[0].ImportSource? ==> ImportsIn(ss[1..], imports) == imports
    ensures ss[0].ExportSource? ==> ExportsIn(ss[1..], exports) == exports
  {
    hide Source.Valid;
    if ss[0].Kind() != Custom {
      forall i | 0 <= i < |ss[1..]| ensures ss[1..][i].Kind() != ss[0].Kind() {
        assert ss[1..][i] == ss[i + 1];
      }
      NoneLeft(ss[1..], ss[0].Kind(), imports, exports);
    }
  }

  lemma FirstIsFresh(ss: seq<Source>, sections: seq<WasmSection>)
    requires WellFormed(ss) && Fresh(sections, ss) && ss != []
    ensures ss[0].Valid() && (ss[0].Kind() != Custom ==> !Seen(sections, ss[0].Kind()))
  {
    hide Source.Valid;
  }

  lemma NoSections(p: nat, imports: seq<WasmImport>, exports: seq<WasmExport>)
    ensures EncodeSections([]) == [] && SectionsOf([], p) == [] && ImportsIn([], imports) == imports
    ensures ExportsIn([], exports) == exports
  {
  }

  lemma FirstSection(ss: seq<Source>, p: nat, imports: seq<WasmImport>, exports: seq<WasmExport>)
    requires ss != []
    ensures EncodeSections(ss) == EncodeSection(ss[0]) + EncodeSections(ss[1..])
    ensures SectionsOf(ss, p) == [WasmSection(ss[0].Kind(), ss[0].Name(), p, |ss[0].Payload()|)]
                                 + SectionsOf(ss[1..], p + |EncodeSection(ss[0])|)
    ensures ImportsIn(ss, imports)
            == if ss[0].ImportSource? then ImportsOf(ss[0].imports) else ImportsIn(ss[1..], imports)
    ensures ExportsIn(ss, exports)
            == if ss[0].ExportSource? then ExportsOf(ss[0].exports) else ExportsIn(ss[1..], exports)
  {
    hide EncodeSection, ImportsOf, ExportsOf, Source.Payload, Source.Kind;
  }

  lemma NoContents()
    ensures forall name :: FirstContents([], name) == None
  {
  }

  lemma FirstContentsSplit(ss: seq<Source>, name: string)
    requires ss != []
    ensures FirstContents(ss, name) == if FirstContents([ss[0]], name).Some? then FirstContents([ss[0]], name)
                                       else FirstContents(ss[1..], name)
  {
  }

  lemma {:induction false} WalkEncoded(b: seq<byte>, p: nat, ss: seq<Source>, acc: Contents)
    requires WellFormed(ss) && Fresh(acc.sections, ss)
    requires Occurs(b, p, EncodeSections(ss)) && p + |EncodeSections(ss)| == |b|
    ensures Walk(b, p, acc) == Ok(Contents(
              acc.sections + SectionsOf(ss, p),
              ImportsIn(ss, acc.imports),
              ExportsIn(ss, acc.exports),
              if acc.specSection.Some? then acc.specSection else FirstContents(ss, CONTRACT_SPEC_SECTION),
              if acc.envMetaSection.Some? then acc.envMetaSection else FirstContents(ss, CONTRACT_ENV_META_SECTION)))
    decreases |ss|
  {
    hide FrameAt, Admit, EncodeSection, ImportsOf, ExportsOf, WellFormed, Fresh, Occurs, FirstContents, Source.Payload,
         Source.Kind,
         EncodeSections, SectionsOf, ImportsIn, ExportsIn;
    NoSections(p, acc.imports, acc.exports);
    if ss == [] {
      NoContents();
      assert acc.sections + [] == acc.sections;
    } else {
      var s, rest := ss[0], ss[1..];
      var q := p + |EncodeSection(s)|;
      FirstSection(ss, p, acc.imports, acc.exports);
      OccursSplit(b, p, EncodeSection(s), EncodeSections(rest));
      FirstIsFresh(ss, acc.sections);
      SectionEncoded(b, p, s);
      SectionAdmitted(acc, s, p);
      var grown := Admit(acc, Frame(s.Kind(), s.Payload()), p).value;
      StillFresh(ss, acc.sections, p);
      WalkEncoded(b, q, rest, grown);
      FirstOnly(ss, grown.imports, grown.exports);
      FirstContentsSplit(ss, CONTRACT_SPEC_SECTION);
      FirstContentsSplit(ss, CONTRACT_ENV_META_SECTION);
      assert acc.sections + SectionsOf(ss, p) == grown.sections + SectionsOf(rest, q);
    }
  }

  lemma StillFresh(ss: seq<Source>, sections: seq<WasmSection>, p: nat)
    requires WellFormed(ss) && Fresh(sections, ss) && ss != []
    ensures WellFormed(ss[1..])
    ensures Fresh(sections + [WasmSection(ss[0].Kind(), ss[0].Name(), p, |ss[0].Payload()|)], ss[1..])
  {
    hide Source.Valid;
    var grown := sections + [WasmSection(ss[0].Kind(), ss[0].Name(), p, |ss[0].Payload()|)];
    forall i | 0 <= i < |ss[1..]| && ss[1..][i].Kind() != Custom ensures !Seen(grown, ss[1..][i].Kind()) {
      assert ss[1..][i] == ss[i + 1];
    }
  }

  /** Parsing an encoded module recovers every section's kind, name, offset and length,
      the imports and exports, and the payloads of the first specification and the first
      environment section without their names. */
  lemma ModuleRoundTrip(ss: seq<Source>)
    requires WellFormed(ss)
    ensures ParseModule(EncodeModule(ss)) == Ok(Contents(
              SectionsOf(ss, 8),
              ImportsIn(ss, []),
              ExportsIn(ss, []),
              FirstContents(ss, "contractspecv0"),
              FirstContents(ss, "contractenvmetav0")))
  {
    hide Walk;
    var b := EncodeModule(ss);
    var header := WASM_MAGIC + WASM_VERSION;
    assert b[..4] == WASM_MAGIC && b[4..8] == WASM_VERSION;
    OccursInItself(header, EncodeSections(ss));
    WalkEncoded(b, 8, ss, NOTHING);
    assert [] + SectionsOf(ss, 8) == SectionsOf(ss, 8);
  }
}
