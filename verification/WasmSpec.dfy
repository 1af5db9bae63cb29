/** The WebAssembly binary framing that `wasm.rs` reads, as functions of a byte
    sequence and a position (WebAssembly Core Specification, sections 5.2.2, 5.2.4,
    5.5.2, 5.5.5 and 5.5.10). */
module WasmSpec {
  import opened Basics
  import opened Utf8

  const WASM_MAGIC: seq<byte> := [0x00, 0x61, 0x73, 0x6d]
  const WASM_VERSION: seq<byte> := [0x01, 0x00, 0x00, 0x00]
  const MAX_DECODED_ENTRIES: nat := 65536

  const CONTRACT_SPEC_SECTION := "contractspecv0"
  const CONTRACT_ENV_META_SECTION := "contractenvmetav0"

  datatype SectionKind =
    | Custom | Type | Import | Function | Table | Memory | Global | Export
    | Start | Element | Code | Data | DataCount | Tag
  {
    function Id(): byte {
      match this
      case Custom => 0
      case Type => 1
      case Import => 2
      case Function => 3
      case Table => 4
      case Memory => 5
      case Global => 6
      case Export => 7
      case Start => 8
      case Element => 9
      case Code => 10
      case Data => 11
      case DataCount => 12
      case Tag => 13
    }

    static function FromId(id: byte): Option<SectionKind> {
      match id
      case 0 => Some(Custom)
      case 1 => Some(Type)
      case 2 => Some(Import)
      case 3 => Some(Function)
      case 4 => Some(Table)
      case 5 => Some(Memory)
      case 6 => Some(Global)
      case 7 => Some(Export)
      case 8 => Some(Start)
      case 9 => Some(Element)
      case 10 => Some(Code)
      case 11 => Some(Data)
      case 12 => Some(DataCount)
      case 13 => Some(Tag)
      case _ => None
    }
  }

  datatype WasmSection = WasmSection(kind: SectionKind, name: Option<string>, offset: nat, payloadLen: nat)

  datatype ImportKind = FunctionImport(typeIndex: nat) | TableImport | MemoryImport | GlobalImport | TagImport

  datatype WasmImport = WasmImport(module_: string, field: string, kind: ImportKind)

  datatype ExportKind = FunctionExport | TableExport | MemoryExport | GlobalExport

  datatype WasmExport = WasmExport(name: string, kind: ExportKind)

  /** Everything `parse_module` returns except the digest and the size. */
  datatype Contents = Contents(
    sections: seq<WasmSection>,
    imports: seq<WasmImport>,
    exports: seq<WasmExport>,
    specSection: Option<seq<byte>>,
    envMetaSection: Option<seq<byte>>)

  const NOTHING := Contents([], [], [], None, None)

  // ----- Primitive readers -----

  function ByteAt(b: seq<byte>, p: nat): (r: Read<byte>)
    ensures r.Got? ==> p < r.next <= |b|
  {
    if p < |b| then Got(b[p], p + 1) else Fail
  }

  function TakeAt(b: seq<byte>, p: nat, len: nat): (r: Read<seq<byte>>)
    ensures r.Got? ==> p <= r.next <= |b| && |r.value| == r.next - p
  {
    if p + len <= |b| then Got(b[p..p + len], p + len) else Fail
  }

  /** An unsigned integer of at most `width` bits, read by the recursive grammar of
      section 5.2.2: a byte below 128 that fits the width ends the integer; a byte with
      its high bit set is followed by an integer of `width - 7` bits. */
  function UnsignedAt(b: seq<byte>, p: nat, width: int): (r: Read<nat>)
    ensures r.Got? ==> p < r.next <= |b|
    decreases |b| - p
  {
    if p >= |b| || width <= 0 then Fail
    else if b[p] < 128 then
      if b[p] < Pow2(width) then Got(b[p], p + 1) else Fail
    else if width <= 7 then Fail
    else
      var (m, q) :- UnsignedAt(b, p + 1, width - 7);
      Got(128 * m + (b[p] - 128), q)
  }

  function U32At(b: seq<byte>, p: nat): (r: Read<nat>)
    ensures r.Got? ==> p < r.next <= |b|
  {
    UnsignedAt(b, p, 32)
  }

  function NameAt(b: seq<byte>, p: nat): (r: Read<string>)
    ensures r.Got? ==> p < r.next <= |b|
  {
    var (len, q) :- U32At(b, p);
    var (raw, q1) :- TakeAt(b, q, len);
    Got(TextOf(raw), q1)
  }

  // ----- Imports and exports -----

  function LimitsAt(b: seq<byte>, p: nat): (r: Read<()>)
    ensures r.Got? ==> p < r.next <= |b|
  {
    var (flags, q) :- ByteAt(b, p);
    if flags > 1 then Fail
    else
      var (_, q1) :- U32At(b, q);
      if flags == 1 then
        var (_, q2) :- U32At(b, q1);
        Got((), q2)
      else Got((), q1)
  }

  function TableTypeAt(b: seq<byte>, p: nat): (r: Read<()>)
    ensures r.Got? ==> p < r.next <= |b|
  {
    var (reference, q) :- ByteAt(b, p);
    if reference != 0x70 && reference != 0x6f then Fail else LimitsAt(b, q)
  }

  function ImportKindAt(b: seq<byte>, p: nat): (r: Read<ImportKind>)
    ensures r.Got? ==> p < r.next <= |b|
  {
    var (kind, q) :- ByteAt(b, p);
    match kind
    case 0 => var (index, q1) :- U32At(b, q); Got(FunctionImport(index), q1)
    case 1 => var (_, q1) :- TableTypeAt(b, q); Got(TableImport, q1)
    case 2 => var (_, q1) :- LimitsAt(b, q); Got(MemoryImport, q1)
    case 3 => var (_, q1) :- ByteAt(b, q); var (_, q2) :- ByteAt(b, q1); Got(GlobalImport, q2)
    case 4 => var (_, q1) :- ByteAt(b, q); var (_, q2) :- U32At(b, q1); Got(TagImport, q2)
    case _ => Fail
  }

  function ImportAt(b: seq<byte>, p: nat): (r: Read<WasmImport>)
    ensures r.Got? ==> p < r.next <= |b|
  {
    var (module_, q) :- NameAt(b, p);
    var (field, q1) :- NameAt(b, q);
    var (kind, q2) :- ImportKindAt(b, q1);
    Got(WasmImport(module_, field, kind), q2)
  }

  function ImportsAt(b: seq<byte>, p: nat, count: nat): (r: Read<seq<WasmImport>>)
    ensures r.Got? ==> p <= r.next && |r.value| == count
    decreases count
  {
    if count == 0 then Got([], p)
    else
      var (first, q) :- ImportAt(b, p);
      var (rest, q1) :- ImportsAt(b, q, count - 1);
      Got([first] + rest, q1)
  }

  function ExportAt(b: seq<byte>, p: nat): (r: Read<WasmExport>)
    ensures r.Got? ==> p < r.next <= |b|
  {
    var (name, q) :- NameAt(b, p);
    var (kind, q1) :- ByteAt(b, q);
    if kind > 3 then Fail
    else
      var (_, q2) :- U32At(b, q1);
      Got(WasmExport(name, ExportKindOf(kind)), q2)
  }

  function ExportKindOf(kind: byte): ExportKind
    requires kind <= 3
  {
    if kind == 0 then FunctionExport
    else if kind == 1 then TableExport
    else if kind == 2 then MemoryExport
    else GlobalExport
  }

  function ExportsAt(b: seq<byte>, p: nat, count: nat): (r: Read<seq<WasmExport>>)
    ensures r.Got? ==> p <= r.next && |r.value| == count
    decreases count
  {
    if count == 0 then Got([], p)
    else
      var (first, q) :- ExportAt(b, p);
      var (rest, q1) :- ExportsAt(b, q, count - 1);
      Got([first] + rest, q1)
  }

  /** The import section's entries; bytes after the declared entries are not read. */
  function ImportSectionOf(payload: seq<byte>): Result<seq<WasmImport>> {
    match U32At(payload, 0)
    case Fail => Err
    case Got(count, p) =>
      if count > MAX_DECODED_ENTRIES then Err
      else match ImportsAt(payload, p, count)
        case Fail => Err
        case Got(imports, _) => Ok(imports)
  }

  function ExportSectionOf(payload: seq<byte>): Result<seq<WasmExport>> {
    match U32At(payload, 0)
    case Fail => Err
    case Got(count, p) =>
      if count > MAX_DECODED_ENTRIES then Err
      else match ExportsAt(payload, p, count)
        case Fail => Err
        case Got(exports, _) => Ok(exports)
  }

  // ----- The section walk -----

  /** A section as framed: its kind and its payload. */
  datatype Frame = Frame(kind: SectionKind, payload: seq<byte>)

  function FrameAt(b: seq<byte>, p: nat): (r: Read<Frame>)
    ensures r.Got? ==> p < r.next <= |b|
  {
    var (id, q) :- ByteAt(b, p);
    match SectionKind.FromId(id)
    case None => Fail
    case Some(kind) =>
      var (len, q1) :- U32At(b, q);
      var (payload, q2) :- TakeAt(b, q1, len);
      Got(Frame(kind, payload), q2)
  }

  predicate Seen(sections: seq<WasmSection>, kind: SectionKind) {
    exists i :: 0 <= i < |sections| && sections[i].kind == kind
  }

  /** What one framed section adds to what was read before it. */
  function Admit(acc: Contents, f: Frame, offset: nat): Result<Contents> {
    if f.kind != Custom && Seen(acc.sections, f.kind) then Err
    else if f.kind == Custom then
      match NameAt(f.payload, 0)
      case Fail => Err
      case Got(name, q) =>
        var rest := f.payload[q..];
        var section := WasmSection(Custom, Some(name), offset, |f.payload|);
        Ok(if name == CONTRACT_SPEC_SECTION && acc.specSection.None? then
             acc.(sections := acc.sections + [section], specSection := Some(rest))
           else if name == CONTRACT_ENV_META_SECTION && acc.envMetaSection.None? then
             acc.(sections := acc.sections + [section], envMetaSection := Some(rest))
           else
             acc.(sections := acc.sections + [section]))
    else
      var grown := acc.(sections := acc.sections + [WasmSection(f.kind, None, offset, |f.payload|)]);
      if f.kind == Import then
        var imports :- ImportSectionOf(f.payload);
        Ok(grown.(imports := imports))
      else if f.kind == Export then
        var exports :- ExportSectionOf(f.payload);
        Ok(grown.(exports := exports))
      else Ok(grown)
  }

  function Walk(b: seq<byte>, p: nat, acc: Contents): Result<Contents>
    decreases |b| - p
  {
    if p >= |b| then Ok(acc)
    else match FrameAt(b, p)
      case Fail => Err
      case Got(f, q) =>
        match Admit(acc, f, p)
        case Err => Err
        case Ok(acc') => Walk(b, q, acc')
  }

  function ParseModule(b: seq<byte>): Result<Contents> {
    if |b| >= 8 && b[..4] == WASM_MAGIC && b[4..8] == WASM_VERSION then Walk(b, 8, NOTHING)
    else Err
  }
}
