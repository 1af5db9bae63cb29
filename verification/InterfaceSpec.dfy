/** A contract's declared interface: the entries of its specification section, what
    `interface.rs` makes of each, and the canonical order of the result. */
module InterfaceSpec {
  import opened Basics
  import opened Ordering
  import opened TypeNames
  import opened Utf8

  // ----- Specification entries -----

  // Every field of an entry is kept, also those the interface drops, and names and
  // documentation are kept as bytes, so that an entry can re-encode to the bytes it was
  // read from.

  datatype Parameter = Parameter(name: string, type_: TypeDef, doc: string)

  datatype Field = Field(name: string, type_: TypeDef, doc: string)

  datatype UnionCase = VoidCase(name: string, doc: string) | TupleCase(name: string, types: seq<TypeDef>, doc: string)

  datatype EnumCase = EnumCase(name: string, value: nat, doc: string)

  datatype Location = TopicList | Data

  datatype DataFormat = SingleValue | VecFormat | MapFormat

  datatype EventParameter = EventParameter(name: string, type_: TypeDef, location: Location, doc: string)

  datatype SpecEntry =
    | FunctionV0(name: string, inputs: seq<Parameter>, outputs: seq<TypeDef>, doc: string)
    | UdtStructV0(name: string, lib: string, fields: seq<Field>, doc: string)
    | UdtUnionV0(name: string, lib: string, cases: seq<UnionCase>, doc: string)
    | UdtEnumV0(name: string, lib: string, values: seq<EnumCase>, doc: string)
    | UdtErrorEnumV0(name: string, lib: string, values: seq<EnumCase>, doc: string)
    | EventV0(
        name: string, lib: string, prefixTopics: seq<string>, params: seq<EventParameter>, dataFormat: DataFormat,
        doc: string)

  // ----- The text of an entry -----

  function TypeText(t: TypeDef): TypeDef
    decreases t
  {
    match t
    case OptionOf(value) => OptionOf(TypeText(value))
    case ResultOf(ok, error) => ResultOf(TypeText(ok), TypeText(error))
    case VecOf(element) => VecOf(TypeText(element))
    case MapOf(key, mapped) => MapOf(TypeText(key), TypeText(mapped))
    case TupleOf(values) => TupleOf(seq(|values|, i requires 0 <= i < |values| => TypeText(values[i])))
    case Udt(name) => Udt(Lossy(name))
    case _ => t
  }

  function TypeTexts(ts: seq<TypeDef>): seq<TypeDef> {
    seq(|ts|, i requires 0 <= i < |ts| => TypeText(ts[i]))
  }

  function ParamText(p: Parameter): Parameter {
    Parameter(Lossy(p.name), TypeText(p.type_), Lossy(p.doc))
  }

  function FieldText(f: Field): Field {
    Field(Lossy(f.name), TypeText(f.type_), Lossy(f.doc))
  }

  function CaseText(c: UnionCase): UnionCase {
    match c
    case VoidCase(name, doc) => VoidCase(Lossy(name), Lossy(doc))
    case TupleCase(name, types, doc) => TupleCase(Lossy(name), TypeTexts(types), Lossy(doc))
  }

  function ValueText(v: EnumCase): EnumCase {
    EnumCase(Lossy(v.name), v.value, Lossy(v.doc))
  }

  function EventParamText(p: EventParameter): EventParameter {
    EventParameter(Lossy(p.name), TypeText(p.type_), p.location, Lossy(p.doc))
  }

  /** An entry with all its names and documentation read as text. */
  function Texts(e: SpecEntry): SpecEntry {
    match e
    case FunctionV0(name, inputs, outputs, doc) =>
      FunctionV0(Lossy(name), seq(|inputs|, i requires 0 <= i < |inputs| => ParamText(inputs[i])), TypeTexts(outputs),
                 Lossy(doc))
    case UdtStructV0(name, lib, fields, doc) =>
      UdtStructV0(Lossy(name), Lossy(lib), seq(|fields|, i requires 0 <= i < |fields| => FieldText(fields[i])),
                  Lossy(doc))
    case UdtUnionV0(name, lib, cases, doc) =>
      UdtUnionV0(Lossy(name), Lossy(lib), seq(|cases|, i requires 0 <= i < |cases| => CaseText(cases[i])), Lossy(doc))
    case UdtEnumV0(name, lib, values, doc) =>
      UdtEnumV0(Lossy(name), Lossy(lib), seq(|values|, i requires 0 <= i < |values| => ValueText(values[i])),
                Lossy(doc))
    case UdtErrorEnumV0(name, lib, values, doc) =>
      UdtErrorEnumV0(Lossy(name), Lossy(lib), seq(|values|, i requires 0 <= i < |values| => ValueText(values[i])),
                     Lossy(doc))
    case EventV0(name, lib, prefixTopics, params, dataFormat, doc) =>
      EventV0(
        Lossy(name), Lossy(lib),
        seq(|prefixTopics|, i requires 0 <= i < |prefixTopics| => Lossy(prefixTopics[i])),
        seq(|params|, i requires 0 <= i < |params| => EventParamText(params[i])),
        dataFormat, Lossy(doc))
  }

  // ----- The interface -----

  datatype InterfaceParam = InterfaceParam(name: string, typeName: string, doc: Option<string>)

  datatype InterfaceFunction = InterfaceFunction(
    name: string, inputs: seq<InterfaceParam>, output: string, doc: Option<string>)

  datatype InterfaceField = InterfaceField(name: string, typeName: string)

  datatype InterfaceStruct = InterfaceStruct(name: string, lib: Option<string>, fields: seq<InterfaceField>)

  datatype InterfaceUnionCase = InterfaceUnionCase(name: string, kind: string, typeNames: seq<string>)

  datatype InterfaceUnion = InterfaceUnion(name: string, lib: Option<string>, cases: seq<InterfaceUnionCase>)

  datatype InterfaceEnumCase = InterfaceEnumCase(name: string, value: nat)

  datatype InterfaceEnum = InterfaceEnum(name: string, lib: Option<string>, cases: seq<InterfaceEnumCase>)

  datatype InterfaceEventParam = InterfaceEventParam(name: string, typeName: string, location: string)

  datatype InterfaceEvent = InterfaceEvent(
    name: string, prefixTopics: seq<string>, params: seq<InterfaceEventParam>, dataFormat: string, doc: Option<string>)

  /** Where decoding stopped: the offset and the number of entries before it. */
  datatype Stop = Stop(offset: nat, entries: nat)

  datatype ContractInterface = ContractInterface(
    functions: seq<InterfaceFunction>,
    structs: seq<InterfaceStruct>,
    unions: seq<InterfaceUnion>,
    enums: seq<InterfaceEnum>,
    errorEnums: seq<InterfaceEnum>,
    events: seq<InterfaceEvent>,
    undecodableTrailingBytes: nat,
    decodeDetail: Option<Stop>)

  const EMPTY_INTERFACE := ContractInterface([], [], [], [], [], [], 0, None)

  // ----- Converting one entry, read as text -----

  function OptionalText(text: string): Option<string> {
    if text == "" then None else Some(text)
  }

  function TypeNamesOf(ts: seq<TypeDef>): seq<string> {
    seq(|ts|, i requires 0 <= i < |ts| => TypeName(ts[i]))
  }

  function ParamOf(p: Parameter): InterfaceParam {
    InterfaceParam(p.name, TypeName(p.type_), OptionalText(p.doc))
  }

  function FunctionOf(e: SpecEntry): InterfaceFunction
    requires e.FunctionV0?
  {
    InterfaceFunction(
      e.name,
      seq(|e.inputs|, i requires 0 <= i < |e.inputs| => ParamOf(e.inputs[i])),
      if e.outputs == [] then "void" else TypeName(e.outputs[0]),
      OptionalText(e.doc))
  }

  function StructOf(e: SpecEntry): InterfaceStruct
    requires e.UdtStructV0?
  {
    InterfaceStruct(
      e.name, OptionalText(e.lib),
      seq(|e.fields|, i requires 0 <= i < |e.fields| => InterfaceField(e.fields[i].name, TypeName(e.fields[i].type_))))
  }

  function UnionCaseOf(c: UnionCase): InterfaceUnionCase {
    match c
    case VoidCase(name, _) => InterfaceUnionCase(name, "VOID", [])
    case TupleCase(name, types, _) => InterfaceUnionCase(name, "TUPLE", TypeNamesOf(types))
  }

  function UnionOf(e: SpecEntry): InterfaceUnion
    requires e.UdtUnionV0?
  {
    InterfaceUnion(
      e.name, OptionalText(e.lib), seq(|e.cases|, i requires 0 <= i < |e.cases| => UnionCaseOf(e.cases[i])))
  }

  function EnumOf(e: SpecEntry): InterfaceEnum
    requires e.UdtEnumV0? || e.UdtErrorEnumV0?
  {
    InterfaceEnum(
      e.name, OptionalText(e.lib),
      seq(|e.values|, i requires 0 <= i < |e.values| => InterfaceEnumCase(e.values[i].name, e.values[i].value)))
  }

  const EVENT_NAME_PREFIX := "STELLAR"

  /** The part of a name after the first occurrence of the SDK's marker, or the whole name
      when the marker does not occur. */
  function AfterMarker(whole: string, from: nat): string
    requires from <= |whole|
    decreases |whole| - from
  {
    if from + |EVENT_NAME_PREFIX| > |whole| then whole
    else if whole[from..from + |EVENT_NAME_PREFIX|] == EVENT_NAME_PREFIX then whole[from + |EVENT_NAME_PREFIX|..]
    else AfterMarker(whole, from + 1)
  }

  function EventOf(e: SpecEntry): InterfaceEvent
    requires e.EventV0?
  {
    InterfaceEvent(
      AfterMarker(e.name, 0), e.prefixTopics,
      seq(|e.params|, i requires 0 <= i < |e.params| =>
        InterfaceEventParam(
          e.params[i].name, TypeName(e.params[i].type_), if e.params[i].location.TopicList? then "topic" else "data")),
      match e.dataFormat case SingleValue => "SINGLE_VALUE" case VecFormat => "VEC" case MapFormat => "MAP",
      OptionalText(e.doc))
  }

  function AddEntry(i: ContractInterface, e: SpecEntry): ContractInterface {
    AddTexts(i, Texts(e))
  }

  function AddTexts(i: ContractInterface, e: SpecEntry): ContractInterface {
    match e
    case FunctionV0(_, _, _, _) => i.(functions := i.functions + [FunctionOf(e)])
    case UdtStructV0(_, _, _, _) => i.(structs := i.structs + [StructOf(e)])
    case UdtUnionV0(_, _, _, _) => i.(unions := i.unions + [UnionOf(e)])
    case UdtEnumV0(_, _, _, _) => i.(enums := i.enums + [EnumOf(e)])
    case UdtErrorEnumV0(_, _, _, _) => i.(errorEnums := i.errorEnums + [EnumOf(e)])
    case EventV0(_, _, _, _, _, _) => i.(events := i.events + [EventOf(e)])
  }

  function AddEntries(i: ContractInterface, es: seq<SpecEntry>): ContractInterface
    decreases |es|
  {
    if es == [] then i else AddEntries(AddEntry(i, es[0]), es[1..])
  }

  // ----- Canonical order -----

  function ByName(name: string): Row {
    [TextField(name)]
  }

  function ParamRow(p: InterfaceParam): Row { ByName(p.name) }
  function FunctionRow(f: InterfaceFunction): Row { ByName(f.name) }
  function StructRow(s: InterfaceStruct): Row { ByName(s.name) }
  function UnionRow(u: InterfaceUnion): Row { ByName(u.name) }
  function EnumRow(e: InterfaceEnum): Row { ByName(e.name) }
  function EventRow(e: InterfaceEvent): Row { ByName(e.name) }

  function SortInputs(f: InterfaceFunction): InterfaceFunction {
    f.(inputs := Sort(ParamRow, f.inputs))
  }

  function SortAllInputs(fs: seq<InterfaceFunction>): seq<InterfaceFunction> {
    seq(|fs|, i requires 0 <= i < |fs| => SortInputs(fs[i]))
  }

  function Canonicalise(i: ContractInterface): ContractInterface {
    i.(functions := SortAllInputs(Sort(FunctionRow, i.functions)),
       structs := Sort(StructRow, i.structs),
       unions := Sort(UnionRow, i.unions),
       enums := Sort(EnumRow, i.enums),
       errorEnums := Sort(EnumRow, i.errorEnums),
       events := Sort(EventRow, i.events))
  }

  /** What the interface digest is computed over: everything but how the section read. */
  function DigestForm(i: ContractInterface): ContractInterface {
    i.(undecodableTrailingBytes := 0, decodeDetail := None)
  }

  // ----- Decoding a section -----

  /** A codec: `decode` reads a value from the front of a byte string. */
  datatype Codec<!E> = Codec(decode: seq<byte> -> Option<E>, encode: E -> seq<byte>, valid: E -> bool)

  function SaturatingSub(a: nat, b: nat): nat {
    if b < a then a - b else 0
  }

  datatype Reading<E> = Reading(entries: seq<E>, end: nat, stopped: bool)

  /** Reads entries from `offset` on, stepping over each by the length it re-encodes to. */
  function ReadFrom<E>(c: Codec<E>, section: seq<byte>, offset: nat): Result<Reading<E>>
    decreases |section| - offset
  {
    if offset >= |section| then Ok(Reading([], offset, false))
    else match c.decode(section[offset..])
      case None => Ok(Reading([], offset, true))
      case Some(entry) =>
        var width := |c.encode(entry)|;
        if width == 0 then Err
        else
          var rest :- ReadFrom(c, section, offset + width);
          Ok(rest.(entries := [entry] + rest.entries))
  }

  function DecodeSection(c: Codec<SpecEntry>, section: seq<byte>): Result<ContractInterface> {
    if section == [] then Ok(EMPTY_INTERFACE)
    else
      var r :- ReadFrom(c, section, 0);
      if r.entries == [] && r.stopped then Err
      else Ok(Canonicalise(Collected(r, |section|)))
  }

  /** The interface of a reading, in the order the entries appear. */
  function Collected(r: Reading<SpecEntry>, size: nat): ContractInterface {
    AddEntries(EMPTY_INTERFACE, r.entries).(
      undecodableTrailingBytes := if r.stopped then SaturatingSub(size, r.end) else 0,
      decodeDetail := if r.stopped then Some(Stop(r.end, |r.entries|)) else None)
  }
}
