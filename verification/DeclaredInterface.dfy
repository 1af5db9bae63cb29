/** What an interface says of the entries of its section: which list each entry goes to,
    in which order, and what every field of it says. */
module DeclaredInterface {
  import opened Basics
  import opened Ordering
  import opened TextOrder
  import TypeNames
  import opened TypeSpelling
  import opened Utf8
  import opened InterfaceSpec
  import opened InterfaceOrder
  import opened InterfaceReading
  import opened SpecSection

  // ----- What a declaration says of its entry -----

  /** A text is kept, or nothing when it is empty. */
  ghost predicate KeepsText(kept: Option<string>, raw: string) {
    if Lossy(raw) == "" then kept == None else kept == Some(Lossy(raw))
  }

  ghost predicate SaysParam(x: InterfaceParam, p: Parameter) {
    x.name == Lossy(p.name) && x.typeName == Spelling(p.type_) && KeepsText(x.doc, p.doc)
  }

  /** A function's inputs come in the order of their names. */
  ghost predicate SaysFunction(x: InterfaceFunction, e: SpecEntry) {
    && e.FunctionV0? && x.name == Lossy(e.name) && KeepsText(x.doc, e.doc)
    && x.output == (if e.outputs == [] then "void" else Spelling(e.outputs[0]))
    && exists declared :: SaysParams(declared, e.inputs) && SortedByText(ParamName, declared, x.inputs)
  }

  ghost predicate SaysParams(xs: seq<InterfaceParam>, ps: seq<Parameter>) {
    |xs| == |ps| && forall n :: 0 <= n < |ps| ==> SaysParam(xs[n], ps[n])
  }

  ghost predicate SaysStruct(x: InterfaceStruct, e: SpecEntry) {
    && e.UdtStructV0? && x.name == Lossy(e.name) && KeepsText(x.lib, e.lib) && |x.fields| == |e.fields|
    && forall n :: 0 <= n < |e.fields| ==>
         x.fields[n].name == Lossy(e.fields[n].name) && x.fields[n].typeName == Spelling(e.fields[n].type_)
  }

  ghost predicate SaysCase(x: InterfaceUnionCase, c: UnionCase) {
    && x.name == Lossy(c.name)
    && match c
       case VoidCase(_, _) => x.kind == "VOID" && x.typeNames == []
       case TupleCase(_, types, _) =>
         && x.kind == "TUPLE" && |x.typeNames| == |types|
         && forall n :: 0 <= n < |types| ==> x.typeNames[n] == Spelling(types[n])
  }

  ghost predicate SaysUnion(x: InterfaceUnion, e: SpecEntry) {
    && e.UdtUnionV0? && x.name == Lossy(e.name) && KeepsText(x.lib, e.lib) && |x.cases| == |e.cases|
    && forall n :: 0 <= n < |e.cases| ==> SaysCase(x.cases[n], e.cases[n])
  }

  ghost predicate SaysValues(x: InterfaceEnum, name: string, lib: string, values: seq<EnumCase>) {
    && x.name == Lossy(name) && KeepsText(x.lib, lib) && |x.cases| == |values|
    && forall n :: 0 <= n < |values| ==>
         x.cases[n].name == Lossy(values[n].name) && x.cases[n].value == values[n].value
  }

  ghost predicate SaysEnum(x: InterfaceEnum, e: SpecEntry) {
    e.UdtEnumV0? && SaysValues(x, e.name, e.lib, e.values)
  }

  ghost predicate SaysErrorEnum(x: InterfaceEnum, e: SpecEntry) {
    e.UdtErrorEnumV0? && SaysValues(x, e.name, e.lib, e.values)
  }

  /** The name after the first marker, or all of it when there is none. */
  ghost predicate SaysEventName(name: string, whole: string) {
    && (forall i: nat :: MarkerAt(whole, i) && (forall j: nat :: j < i ==> !MarkerAt(whole, j))
                         ==> name == whole[i + 7..])
    && ((forall i: nat :: !MarkerAt(whole, i)) ==> name == whole)
  }

  ghost predicate SaysEvent(x: InterfaceEvent, e: SpecEntry) {
    && e.EventV0? && SaysEventName(x.name, Lossy(e.name)) && KeepsText(x.doc, e.doc)
    && |x.prefixTopics| == |e.prefixTopics|
    && (forall n :: 0 <= n < |e.prefixTopics| ==> x.prefixTopics[n] == Lossy(e.prefixTopics[n]))
    && |x.params| == |e.params|
    && (forall n :: 0 <= n < |e.params| ==> SaysEventParam(x.params[n], e.params[n]))
    && match e.dataFormat
       case SingleValue => x.dataFormat == "SINGLE_VALUE"
       case VecFormat => x.dataFormat == "VEC"
       case MapFormat => x.dataFormat == "MAP"
  }

  ghost predicate SaysEventParam(x: InterfaceEventParam, p: EventParameter) {
    && x.name == Lossy(p.name) && x.typeName == Spelling(p.type_)
    && x.location == match p.location case TopicList => "topic" case Data => "data"
  }

  // ----- What an interface lists -----

  datatype Kind = Functions | Structs | Unions | Enums | ErrorEnums | Events

  function KindOf(e: SpecEntry): Kind {
    match e
    case FunctionV0(_, _, _, _) => Functions
    case UdtStructV0(_, _, _, _) => Structs
    case UdtUnionV0(_, _, _, _) => Unions
    case UdtEnumV0(_, _, _, _) => Enums
    case UdtErrorEnumV0(_, _, _, _) => ErrorEnums
    case EventV0(_, _, _, _, _, _) => Events
  }

  /** The entries of one kind, in order. */
  function EntriesOf(es: seq<SpecEntry>, kind: Kind): seq<SpecEntry> {
    if es == [] then [] else (if KindOf(es[0]) == kind then [es[0]] else []) + EntriesOf(es[1..], kind)
  }

  ghost predicate OneForOne<X>(xs: seq<X>, es: seq<SpecEntry>, says: (X, SpecEntry) -> bool) {
    |xs| == |es| && forall n :: 0 <= n < |es| ==> says(xs[n], es[n])
  }

  /** `xs` lists the entries of one kind and nothing else, one declaration for each, in the
      order of their names; declarations of one name stay in the order of their entries. */
  ghost predicate Lists<X(!new)>(
    xs: seq<X>, name: X -> string, es: seq<SpecEntry>, kind: Kind, says: (X, SpecEntry) -> bool)
  {
    && |xs| == |EntriesOf(es, kind)|
    && (forall x :: x in xs <==> exists e :: e in es && says(x, e))
    && (forall i, j :: 0 <= i < j < |xs| ==> TextAtMost(name(xs[i]), name(xs[j])))
    && exists declared :: OneForOne(declared, EntriesOf(es, kind), says) && SortedByText(name, declared, xs)
  }

  function ParamName(x: InterfaceParam): string { x.name }
  function FunctionName(x: InterfaceFunction): string { x.name }
  function StructName(x: InterfaceStruct): string { x.name }
  function UnionName(x: InterfaceUnion): string { x.name }
  function EnumName(x: InterfaceEnum): string { x.name }
  function EventName(x: InterfaceEvent): string { x.name }

  /** The six lists of an interface are those of the entries. */
  ghost predicate Declares(i: ContractInterface, es: seq<SpecEntry>) {
    && Lists(i.functions, FunctionName, es, Functions, SaysFunction)
    && Lists(i.structs, StructName, es, Structs, SaysStruct)
    && Lists(i.unions, UnionName, es, Unions, SaysUnion)
    && Lists(i.enums, EnumName, es, Enums, SaysEnum)
    && Lists(i.errorEnums, EnumName, es, ErrorEnums, SaysErrorEnum)
    && Lists(i.events, EventName, es, Events, SaysEvent)
  }

  // ----- One entry -----

  lemma KeepsTextIff(kept: Option<string>, raw: string)
    ensures KeepsText(kept, raw) <==> kept == OptionalText(Lossy(raw))
  {
    hide Lossy;
  }

  lemma ParamIff(x: InterfaceParam, p: Parameter)
    ensures SaysParam(x, p) <==> x == ParamOf(ParamText(p))
  {
    hide Lossy, Spelling;
    SpellingPrinted(p.type_);
    KeepsTextIff(x.doc, p.doc);
  }

  lemma ParamsIff(xs: seq<InterfaceParam>, e: SpecEntry)
    requires e.FunctionV0?
    ensures SaysParams(xs, e.inputs) <==> xs == FunctionOf(Texts(e)).inputs
  {
    hide SaysParam, ParamOf, ParamText;
    var own := FunctionOf(Texts(e)).inputs;
    assert |own| == |e.inputs|;
    forall n | 0 <= n < |e.inputs| ensures own[n] == ParamOf(ParamText(e.inputs[n])) {
    }
    forall n, x | 0 <= n < |e.inputs| ensures SaysParam(x, e.inputs[n]) <==> x == own[n] {
      ParamIff(x, e.inputs[n]);
    }
  }

  lemma FunctionIff(x: InterfaceFunction, e: SpecEntry)
    ensures SaysFunction(x, e) <==> e.FunctionV0? && x == SortInputs(FunctionOf(Texts(e)))
  {
    hide Lossy, Spelling, SaysParams, SortedByText, Sort;
    if e.FunctionV0? {
      var own := FunctionOf(Texts(e));
      forall xs ensures SaysParams(xs, e.inputs) <==> xs == own.inputs {
        ParamsIff(xs, e);
      }
      SortsByText(ParamRow, ParamName, own.inputs, x.inputs);
      KeepsTextIff(x.doc, e.doc);
      OutputSpelled(e);
      assert own.name == Lossy(e.name) && own.doc == OptionalText(Lossy(e.doc));
    }
  }

  lemma OutputSpelled(e: SpecEntry)
    requires e.FunctionV0?
    ensures FunctionOf(Texts(e)).output == if e.outputs == [] then "void" else Spelling(e.outputs[0])
  {
    if e.outputs != [] {
      SpellingPrinted(e.outputs[0]);
      assert Texts(e).outputs[0] == TypeText(e.outputs[0]);
    }
  }

  lemma StructIff(x: InterfaceStruct, e: SpecEntry)
    ensures SaysStruct(x, e) <==> e.UdtStructV0? && x == StructOf(Texts(e))
  {
    hide Lossy, Spelling;
    if e.UdtStructV0? {
      var own := StructOf(Texts(e));
      KeepsTextIff(x.lib, e.lib);
      forall n | 0 <= n < |e.fields|
        ensures own.fields[n] == InterfaceField(Lossy(e.fields[n].name), Spelling(e.fields[n].type_))
      {
        SpellingPrinted(e.fields[n].type_);
      }
      if SaysStruct(x, e) {
        assert x.fields == own.fields;
      }
    }
  }

  lemma CaseIff(x: InterfaceUnionCase, c: UnionCase)
    ensures SaysCase(x, c) <==> x == UnionCaseOf(CaseText(c))
  {
    hide Lossy, Spelling;
    if c.TupleCase? {
      var own := UnionCaseOf(CaseText(c));
      forall n | 0 <= n < |c.types| ensures own.typeNames[n] == Spelling(c.types[n]) {
        SpellingPrinted(c.types[n]);
      }
      if SaysCase(x, c) {
        assert x.typeNames == own.typeNames;
      }
    }
  }

  lemma UnionIff(x: InterfaceUnion, e: SpecEntry)
    ensures SaysUnion(x, e) <==> e.UdtUnionV0? && x == UnionOf(Texts(e))
  {
    hide Lossy, SaysCase, UnionCaseOf, CaseText;
    if e.UdtUnionV0? {
      var own := UnionOf(Texts(e));
      KeepsTextIff(x.lib, e.lib);
      forall n, y | 0 <= n < |e.cases| ensures SaysCase(y, e.cases[n]) <==> y == own.cases[n] {
        CaseIff(y, e.cases[n]);
      }
      if SaysUnion(x, e) {
        assert x.cases == own.cases;
      }
    }
  }

  lemma ValuesIff(x: InterfaceEnum, e: SpecEntry)
    requires e.UdtEnumV0? || e.UdtErrorEnumV0?
    ensures SaysValues(x, e.name, e.lib, e.values) <==> x == EnumOf(Texts(e))
  {
    hide Lossy;
    var own := EnumOf(Texts(e));
    KeepsTextIff(x.lib, e.lib);
    forall n | 0 <= n < |e.values|
      ensures own.cases[n] == InterfaceEnumCase(Lossy(e.values[n].name), e.values[n].value)
    {
    }
    if SaysValues(x, e.name, e.lib, e.values) {
      assert x.cases == own.cases;
    }
  }

  lemma EventNameIff(name: string, whole: string)
    ensures SaysEventName(name, whole) <==> name == AfterMarker(whole, 0)
  {
    if i: nat :| MarkerAt(whole, i) {
      var first := FirstMarker(whole, i);
      NameAfterFirstMarker(whole, 0, first);
      forall k: nat | MarkerAt(whole, k) && forall j: nat :: j < k ==> !MarkerAt(whole, j) ensures k == first {
      }
    } else {
      NameWithoutMarker(whole, 0);
    }
  }

  lemma {:induction false} FirstMarker(whole: string, i: nat) returns (first: nat)
    requires MarkerAt(whole, i)
    ensures MarkerAt(whole, first) && forall j: nat :: j < first ==> !MarkerAt(whole, j)
    decreases i
  {
    if j: nat :| j < i && MarkerAt(whole, j) {
      first := FirstMarker(whole, j);
    } else {
      first := i;
    }
  }

  lemma EventParamIff(x: InterfaceEventParam, p: EventParameter)
    ensures SaysEventParam(x, p)
            <==> x == InterfaceEventParam(Lossy(p.name), TypeNames.TypeName(TypeText(p.type_)),
                                          if p.location.TopicList? then "topic" else "data")
  {
    hide Lossy, Spelling;
    SpellingPrinted(p.type_);
  }

  lemma EventIff(x: InterfaceEvent, e: SpecEntry)
    ensures SaysEvent(x, e) <==> e.EventV0? && x == EventOf(Texts(e))
  {
    hide Lossy, SaysEventParam, SaysEventName, AfterMarker, TypeNames.TypeName, TypeText;
    if e.EventV0? {
      var own := EventOf(Texts(e));
      KeepsTextIff(x.doc, e.doc);
      EventNameIff(x.name, Lossy(e.name));
      forall n, y | 0 <= n < |e.params| ensures SaysEventParam(y, e.params[n]) <==> y == own.params[n] {
        EventParamIff(y, e.params[n]);
      }
      assert forall n :: 0 <= n < |e.prefixTopics| ==> own.prefixTopics[n] == Lossy(e.prefixTopics[n]);
      if SaysEvent(x, e) {
        assert x.params == own.params && x.prefixTopics == own.prefixTopics;
      }
    }
  }

  // ----- All entries -----

  lemma KindKept(e: SpecEntry)
    ensures KindOf(Texts(e)) == KindOf(e)
  {
  }

  lemma OneLists(e: SpecEntry)
    ensures One(e).functions == (if e.FunctionV0? then [FunctionOf(Texts(e))] else [])
    ensures One(e).structs == (if e.UdtStructV0? then [StructOf(Texts(e))] else [])
    ensures One(e).unions == (if e.UdtUnionV0? then [UnionOf(Texts(e))] else [])
    ensures One(e).enums == (if e.UdtEnumV0? then [EnumOf(Texts(e))] else [])
    ensures One(e).errorEnums == (if e.UdtErrorEnumV0? then [EnumOf(Texts(e))] else [])
    ensures One(e).events == (if e.EventV0? then [EventOf(Texts(e))] else [])
  {
    hide FunctionOf, StructOf, UnionOf, EnumOf, EventOf;
  }

  /** The lists, before they are sorted, say what the entries of their kind do. */
  ghost predicate SaysAll(i: ContractInterface, es: seq<SpecEntry>) {
    && OneForOne(SortAllInputs(i.functions), EntriesOf(es, Functions), SaysFunction)
    && OneForOne(i.structs, EntriesOf(es, Structs), SaysStruct)
    && OneForOne(i.unions, EntriesOf(es, Unions), SaysUnion)
    && OneForOne(i.enums, EntriesOf(es, Enums), SaysEnum)
    && OneForOne(i.errorEnums, EntriesOf(es, ErrorEnums), SaysErrorEnum)
    && OneForOne(i.events, EntriesOf(es, Events), SaysEvent)
  }

  lemma EntriesOfOne(e: SpecEntry, kind: Kind)
    ensures EntriesOf([e], kind) == if KindOf(e) == kind then [e] else []
  {
    assert [e][1..] == [];
  }

  lemma FunctionSaid(e: SpecEntry)
    ensures OneForOne(SortAllInputs(One(e).functions), EntriesOf([e], Functions), SaysFunction)
  {
    hide SaysFunction, SortInputs, FunctionOf, Texts, One, EntriesOf;
    OneLists(e);
    KindKept(e);
    EntriesOfOne(e, Functions);
    if e.FunctionV0? {
      var f := FunctionOf(Texts(e));
      FunctionIff(SortInputs(f), e);
      assert SortAllInputs([f]) == [SortInputs(f)];
    }
  }

  lemma OneSays(e: SpecEntry)
    ensures SaysAll(One(e), [e])
  {
    hide SaysStruct, SaysUnion, SaysValues, SaysEvent, SortAllInputs, EntriesOf;
    hide FunctionOf, StructOf, UnionOf, EnumOf, EventOf, Texts, One;
    OneLists(e);
    KindKept(e);
    FunctionSaid(e);
    EntriesOfOne(e, Structs);
    EntriesOfOne(e, Unions);
    EntriesOfOne(e, Enums);
    EntriesOfOne(e, ErrorEnums);
    EntriesOfOne(e, Events);
    hide SaysFunction;
    match e
    case FunctionV0(_, _, _, _) =>
    case UdtStructV0(_, _, _, _) => StructIff(StructOf(Texts(e)), e);
    case UdtUnionV0(_, _, _, _) => UnionIff(UnionOf(Texts(e)), e);
    case UdtEnumV0(_, _, _, _) => ValuesIff(EnumOf(Texts(e)), e);
    case UdtErrorEnumV0(_, _, _, _) => ValuesIff(EnumOf(Texts(e)), e);
    case EventV0(_, _, _, _, _, _) => EventIff(EventOf(Texts(e)), e);
  }

  lemma Grown<X(!new)>(own: seq<X>, rest: seq<X>, es: seq<SpecEntry>, kind: Kind, says: (X, SpecEntry) -> bool)
    requires es != [] && OneForOne(own, EntriesOf([es[0]], kind), says)
    requires OneForOne(rest, EntriesOf(es[1..], kind), says)
    ensures OneForOne(own + rest, EntriesOf(es, kind), says)
  {
    hide EntriesOf;
    EntriesSplit(es, kind);
    OneForOneJoined(own, EntriesOf([es[0]], kind), rest, EntriesOf(es[1..], kind), says);
  }

  lemma EntriesSplit(es: seq<SpecEntry>, kind: Kind)
    requires es != []
    ensures EntriesOf(es, kind) == EntriesOf([es[0]], kind) + EntriesOf(es[1..], kind)
  {
    hide KindOf;
    EntriesOfOne(es[0], kind);
  }

  lemma OneForOneJoined<X(!new)>(
    xs: seq<X>, es: seq<SpecEntry>, ys: seq<X>, fs: seq<SpecEntry>, says: (X, SpecEntry) -> bool)
    requires OneForOne(xs, es, says) && OneForOne(ys, fs, says)
    ensures OneForOne(xs + ys, es + fs, says)
  {
  }

  lemma JoinedSays(i: ContractInterface, j: ContractInterface, es: seq<SpecEntry>)
    requires es != [] && SaysAll(i, [es[0]]) && SaysAll(j, es[1..])
    ensures SaysAll(Joined(i, j), es)
  {
    hide OneForOne, EntriesOf, SortInputs;
    hide SaysFunction, SaysStruct, SaysUnion, SaysEnum, SaysErrorEnum, SaysEvent;
    assert SortAllInputs(i.functions + j.functions) == SortAllInputs(i.functions) + SortAllInputs(j.functions);
    Grown(SortAllInputs(i.functions), SortAllInputs(j.functions), es, Functions, SaysFunction);
    Grown(i.structs, j.structs, es, Structs, SaysStruct);
    Grown(i.unions, j.unions, es, Unions, SaysUnion);
    Grown(i.enums, j.enums, es, Enums, SaysEnum);
    Grown(i.errorEnums, j.errorEnums, es, ErrorEnums, SaysErrorEnum);
    Grown(i.events, j.events, es, Events, SaysEvent);
  }

  lemma NothingSaid()
    ensures SaysAll(All([]), [])
  {
  }

  lemma {:induction false} AllSay(es: seq<SpecEntry>)
    ensures SaysAll(All(es), es)
  {
    hide One, SaysAll, Joined;
    if es == [] {
      NothingSaid();
    } else {
      OneSays(es[0]);
      AllSay(es[1..]);
      JoinedSays(One(es[0]), All(es[1..]), es);
    }
  }

  lemma {:induction false} EntriesOfMembers(es: seq<SpecEntry>, kind: Kind, e: SpecEntry)
    ensures e in EntriesOf(es, kind) <==> e in es && KindOf(e) == kind
  {
    if es != [] {
      EntriesOfMembers(es[1..], kind, e);
      assert es == [es[0]] + es[1..];
    }
  }

  /** A relation that says one thing of an entry, and of entries of one kind only. */
  ghost predicate Tells<X(!new)>(says: (X, SpecEntry) -> bool, kind: Kind) {
    forall x, y, e :: says(x, e) ==> KindOf(e) == kind && (says(y, e) ==> x == y)
  }

  lemma SortedLists<X(!new)>(
    row: X -> Row, name: X -> string, declared: seq<X>, es: seq<SpecEntry>, kind: Kind, says: (X, SpecEntry) -> bool)
    requires RowOfText(row, name) && Tells(says, kind) && OneForOne(declared, EntriesOf(es, kind), says)
    ensures Lists(Sort(row, declared), name, es, kind, says)
  {
    hide Sort, TextAtMost, KindOf;
    var xs, own := Sort(row, declared), EntriesOf(es, kind);
    SortsByText(row, name, declared, xs);
    assert |xs| == |multiset(xs)| == |declared|;
    SortedDiffer(row, declared);
    forall x ensures x in xs <==> exists e :: e in es && says(x, e) {
      if x in xs {
        var n :| 0 <= n < |declared| && declared[n] == x;
        EntriesOfMembers(es, kind, own[n]);
        assert says(x, own[n]);
      }
      if e :| e in es && says(x, e) {
        EntriesOfMembers(es, kind, e);
        var n :| 0 <= n < |own| && own[n] == e;
        assert says(declared[n], e);
      }
    }
  }

  lemma TellsAll()
    ensures Tells(SaysFunction, Functions) && Tells(SaysStruct, Structs) && Tells(SaysUnion, Unions)
    ensures Tells(SaysEnum, Enums) && Tells(SaysErrorEnum, ErrorEnums) && Tells(SaysEvent, Events)
  {
    hide FunctionOf, StructOf, UnionOf, EnumOf, EventOf, Texts, SortInputs;
    hide SaysFunction, SaysStruct, SaysUnion, SaysValues, SaysEvent;
    forall x: InterfaceFunction, e { FunctionIff(x, e); }
    forall x: InterfaceStruct, e { StructIff(x, e); }
    forall x: InterfaceUnion, e { UnionIff(x, e); }
    forall x: InterfaceEnum, e: SpecEntry | e.UdtEnumV0? || e.UdtErrorEnumV0? { ValuesIff(x, e); }
    forall x: InterfaceEvent, e { EventIff(x, e); }
  }

  /** The canonical interface of any entries lists exactly them. */
  lemma CanonicalDeclares(es: seq<SpecEntry>)
    ensures Declares(Canonicalise(AddEntries(EMPTY_INTERFACE, es)), es)
  {
    hide AddEntries, All, Sort, Lists, OneForOne, SortAllInputs, Tells;
    hide SaysFunction, SaysStruct, SaysUnion, SaysEnum, SaysErrorEnum, SaysEvent;
    var i := All(es);
    AddedAreAll(es);
    TellsAll();
    AllSay(es);
    FunctionsCanonical(i.functions);
    SortedLists(FunctionRow, FunctionName, SortAllInputs(i.functions), es, Functions, SaysFunction);
    SortedLists(StructRow, StructName, i.structs, es, Structs, SaysStruct);
    SortedLists(UnionRow, UnionName, i.unions, es, Unions, SaysUnion);
    SortedLists(EnumRow, EnumName, i.enums, es, Enums, SaysEnum);
    SortedLists(EnumRow, EnumName, i.errorEnums, es, ErrorEnums, SaysErrorEnum);
    SortedLists(EventRow, EventName, i.events, es, Events, SaysEvent);
  }

  /** What a section that decodes gives: the entries whose encodings make it up, but for
      the bytes after the stop, are listed, each in the list of its kind and saying what
      the entry says. */
  lemma SectionDeclares(c: Codec<SpecEntry>, section: seq<byte>)
    requires Canonical(c) && DecodeSection(c, section).Ok?
    ensures exists es ::
              ReadsAs(c, section, DecodeSection(c, section).value, es) && Declares(DecodeSection(c, section).value, es)
  {
    hide DecodeSection, Canonicalise, AddEntries, Declares;
    SectionAccounting(c, section);
    var i := DecodeSection(c, section).value;
    var es :| ReadsAs(c, section, i, es);
    CanonicalDeclares(es);
    DigestDeclares(i, Canonicalise(AddEntries(EMPTY_INTERFACE, es)), es);
  }

  lemma DigestDeclares(i: ContractInterface, j: ContractInterface, es: seq<SpecEntry>)
    requires DigestForm(i) == DigestForm(j) && Declares(j, es)
    ensures Declares(i, es)
  {
    hide Lists;
    assert i.functions == DigestForm(i).functions == j.functions;
  }
}
