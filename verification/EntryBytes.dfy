/** The bytes of a specification entry, field by field: the numbers of its kind and types,
    and the order its parts are written in. The layout is that of Stellar's
    contract-specification files. */
module EntryBytes {
  import opened Basics
  import opened TypeNames
  import opened InterfaceSpec
  import opened SpecSection
  import opened EntryXdr
  import Xdr

  // ----- The layout -----

  /** A number as four bytes, the most significant first. */
  function Word(n: nat): seq<byte> {
    [n / 0x100_0000 % 0x100, n / 0x1_0000 % 0x100, n / 0x100 % 0x100, n % 0x100]
  }

  /** A text: its length, its bytes, and zeros up to a multiple of four. */
  function Str(s: string): seq<byte> {
    Word(|s|) + (seq(|s|, i requires 0 <= i < |s| => s[i] as int % 256) + seq((4 - |s| % 4) % 4, _ => 0))
  }

  function Each<T>(bytes: T -> seq<byte>, xs: seq<T>): seq<byte> {
    if xs == [] then [] else bytes(xs[0]) + Each(bytes, xs[1..])
  }

  /** A list: its length and its items. */
  function Many<T>(bytes: T -> seq<byte>, xs: seq<T>): seq<byte> {
    Word(|xs|) + Each(bytes, xs)
  }

  function TypeBytes(t: TypeDef): seq<byte>
    decreases t, 1
  {
    match t
    case Val => Word(0)
    case Bool => Word(1)
    case Void => Word(2)
    case Error => Word(3)
    case U32 => Word(4)
    case I32 => Word(5)
    case U64 => Word(6)
    case I64 => Word(7)
    case Timepoint => Word(8)
    case Duration => Word(9)
    case U128 => Word(10)
    case I128 => Word(11)
    case U256 => Word(12)
    case I256 => Word(13)
    case Bytes => Word(14)
    case String => Word(16)
    case Symbol => Word(17)
    case Address => Word(19)
    case MuxedAddress => Word(20)
    case OptionOf(value) => Word(1000) + TypeBytes(value)
    case ResultOf(ok, error) => Word(1001) + (TypeBytes(ok) + TypeBytes(error))
    case VecOf(element) => Word(1002) + TypeBytes(element)
    case MapOf(key, mapped) => Word(1004) + (TypeBytes(key) + TypeBytes(mapped))
    case TupleOf(values) => Word(1005) + (Word(|values|) + TypesBytes(values))
    case BytesN(n) => Word(1006) + Word(n)
    case Udt(name) => Word(2000) + Str(name)
  }

  function TypesBytes(ts: seq<TypeDef>): seq<byte>
    decreases ts, 0
  {
    if ts == [] then [] else TypeBytes(ts[0]) + TypesBytes(ts[1..])
  }

  function ParameterBytes(p: Parameter): seq<byte> {
    Str(p.doc) + (Str(p.name) + TypeBytes(p.type_))
  }

  function FieldBytes(f: Field): seq<byte> {
    Str(f.doc) + (Str(f.name) + TypeBytes(f.type_))
  }

  function EnumCaseBytes(c: EnumCase): seq<byte> {
    Str(c.doc) + (Str(c.name) + Word(c.value))
  }

  function UnionCaseBytes(c: UnionCase): seq<byte> {
    match c
    case VoidCase(name, doc) => Word(0) + (Str(doc) + Str(name))
    case TupleCase(name, types, doc) => Word(1) + (Str(doc) + (Str(name) + (Word(|types|) + TypesBytes(types))))
  }

  function EventParameterBytes(p: EventParameter): seq<byte> {
    Str(p.doc) + (Str(p.name) + (TypeBytes(p.type_) + Word(match p.location case Data => 0 case TopicList => 1)))
  }

  function EntryBytes(e: SpecEntry): seq<byte> {
    match e
    case FunctionV0(name, inputs, outputs, doc) =>
      Word(0) + (Str(doc) + (Str(name) + (Many(ParameterBytes, inputs) + (Word(|outputs|) + TypesBytes(outputs)))))
    case UdtStructV0(name, lib, fields, doc) =>
      Word(1) + (Str(doc) + (Str(lib) + (Str(name) + Many(FieldBytes, fields))))
    case UdtUnionV0(name, lib, cases, doc) =>
      Word(2) + (Str(doc) + (Str(lib) + (Str(name) + Many(UnionCaseBytes, cases))))
    case UdtEnumV0(name, lib, values, doc) =>
      Word(3) + (Str(doc) + (Str(lib) + (Str(name) + Many(EnumCaseBytes, values))))
    case UdtErrorEnumV0(name, lib, values, doc) =>
      Word(4) + (Str(doc) + (Str(lib) + (Str(name) + Many(EnumCaseBytes, values))))
    case EventV0(name, lib, topics, params, format, doc) =>
      Word(5) + (Str(doc) + (Str(lib) + (Str(name) + (Many(Str, topics) + (Many(EventParameterBytes, params)
      + Word(match format case SingleValue => 0 case VecFormat => 1 case MapFormat => 2))))))
  }

  // ----- Encoding gives the layout -----

  lemma WordIs(n: nat)
    requires n < Xdr.U32_RANGE
    ensures Xdr.EncodeWord(n) == Word(n)
  {
  }

  lemma TextIs(s: string)
    requires Xdr.Encodable(TextOf(s))
    ensures Xdr.Encode(TextOf(s)) == Str(s)
  {
    WordIs(|s|);
  }

  lemma PartIs(first: Xdr.Value, rest: Xdr.Values)
    requires Xdr.AllEncodable(Xdr.MoreValues(first, rest))
    ensures Xdr.Encodable(first) && Xdr.AllEncodable(rest)
    ensures Xdr.EncodeAll(Xdr.MoreValues(first, rest)) == Xdr.Encode(first) + Xdr.EncodeAll(rest)
  {
  }

  lemma LastIs(last: Xdr.Value)
    requires Xdr.AllEncodable(Xdr.MoreValues(last, Xdr.NoValues))
    ensures Xdr.Encodable(last)
    ensures Xdr.EncodeAll(Xdr.MoreValues(last, Xdr.NoValues)) == Xdr.Encode(last)
  {
    assert Xdr.EncodeAll(Xdr.NoValues) == [];
  }

  lemma ArmIs(number: nat, parts: Xdr.Values)
    requires Xdr.Encodable(Xdr.UnionValue(number, Xdr.StructureValue(parts)))
    ensures number < Xdr.U32_RANGE && Xdr.AllEncodable(parts)
    ensures Xdr.Encode(Xdr.UnionValue(number, Xdr.StructureValue(parts))) == Word(number) + Xdr.EncodeAll(parts)
  {
    WordIs(number);
  }

  lemma ListIs(items: Xdr.Values)
    requires Xdr.Encodable(Xdr.ListValue(items))
    ensures items.Count() < Xdr.U32_RANGE && Xdr.AllEncodable(items)
    ensures Xdr.Encode(Xdr.ListValue(items)) == Word(items.Count()) + Xdr.EncodeAll(items)
  {
    WordIs(items.Count());
  }

  lemma NumberIs(n: nat)
    requires Xdr.Encodable(Xdr.IntValue(n))
    ensures Xdr.Encode(Xdr.IntValue(n)) == Word(n)
  {
    WordIs(n);
  }

  lemma {:induction false} TypesCounted(ts: seq<TypeDef>)
    ensures FromTypes(ts).Count() == |ts|
  {
    hide FromType;
    if ts != [] {
      TypesCounted(ts[1..]);
    }
  }

  lemma SimpleTypeIs(t: TypeDef)
    requires IsSimple(t)
    ensures TypeBytes(t) == Word(SimpleNumber(t))
    ensures FromType(t) == Xdr.UnionValue(SimpleNumber(t), Xdr.StructureValue(Xdr.NoValues))
  {
    hide Word;
  }

  lemma OneTypeIs(number: nat, x: TypeDef)
    requires Xdr.Encodable(Xdr.UnionValue(number, Xdr.StructureValue(Xdr.MoreValues(FromType(x), Xdr.NoValues))))
    requires Xdr.Encodable(FromType(x)) ==> Xdr.Encode(FromType(x)) == TypeBytes(x)
    ensures Xdr.Encode(Xdr.UnionValue(number, Xdr.StructureValue(Xdr.MoreValues(FromType(x), Xdr.NoValues))))
         == Word(number) + TypeBytes(x)
  {
    hide Word, FromType, TypeBytes, Xdr.Encode, Xdr.EncodeAll, Xdr.Encodable, Xdr.AllEncodable;
    ArmIs(number, Xdr.MoreValues(FromType(x), Xdr.NoValues));
    LastIs(FromType(x));
  }

  lemma TwoTypesAre(number: nat, x: TypeDef, y: TypeDef)
    requires var parts := Xdr.MoreValues(FromType(x), Xdr.MoreValues(FromType(y), Xdr.NoValues));
             Xdr.Encodable(Xdr.UnionValue(number, Xdr.StructureValue(parts)))
    requires Xdr.Encodable(FromType(x)) ==> Xdr.Encode(FromType(x)) == TypeBytes(x)
    requires Xdr.Encodable(FromType(y)) ==> Xdr.Encode(FromType(y)) == TypeBytes(y)
    ensures var parts := Xdr.MoreValues(FromType(x), Xdr.MoreValues(FromType(y), Xdr.NoValues));
            Xdr.Encode(Xdr.UnionValue(number, Xdr.StructureValue(parts)))
              == Word(number) + (TypeBytes(x) + TypeBytes(y))
  {
    hide Word, FromType, TypeBytes, Xdr.Encode, Xdr.EncodeAll, Xdr.Encodable, Xdr.AllEncodable;
    ArmIs(number, Xdr.MoreValues(FromType(x), Xdr.MoreValues(FromType(y), Xdr.NoValues)));
    TwoAre(FromType(x), FromType(y));
  }

  lemma SizedIs(n: nat)
    requires Xdr.Encodable(FromType(BytesN(n)))
    ensures Xdr.Encode(FromType(BytesN(n))) == Word(1006) + Word(n)
  {
    hide Word, Xdr.Encode, Xdr.EncodeAll, Xdr.Encodable, Xdr.AllEncodable;
    ArmIs(1006, Xdr.MoreValues(Xdr.IntValue(n), Xdr.NoValues));
    LastIs(Xdr.IntValue(n));
    NumberIs(n);
  }

  lemma UdtIs(name: string)
    requires Xdr.Encodable(FromType(Udt(name)))
    ensures Xdr.Encode(FromType(Udt(name))) == Word(2000) + Str(name)
  {
    hide Word, Str, Xdr.Encode, Xdr.EncodeAll, Xdr.Encodable, Xdr.AllEncodable, TextOf;
    ArmIs(2000, Xdr.MoreValues(TextOf(name), Xdr.NoValues));
    LastIs(TextOf(name));
    TextIs(name);
  }

  lemma SimpleIs(t: TypeDef)
    requires IsSimple(t) && Xdr.Encodable(FromType(t))
    ensures Xdr.Encode(FromType(t)) == TypeBytes(t)
  {
    SimpleTypeIs(t);
    hide Word, FromType, TypeBytes, SimpleNumber, Xdr.Encode, Xdr.EncodeAll, Xdr.Encodable, Xdr.AllEncodable;
    ArmIs(SimpleNumber(t), Xdr.NoValues);
    NothingIs();
  }

  lemma TupleIs(values: seq<TypeDef>)
    requires Xdr.Encodable(FromType(TupleOf(values)))
    requires var list := Xdr.ListValue(FromTypes(values));
             Xdr.Encodable(list) ==> Xdr.Encode(list) == Word(|values|) + TypesBytes(values)
    ensures Xdr.Encode(FromType(TupleOf(values))) == Word(1005) + (Word(|values|) + TypesBytes(values))
  {
    hide Word, FromTypes, TypesBytes, Xdr.Encode, Xdr.EncodeAll, Xdr.Encodable, Xdr.AllEncodable;
    ArmIs(1005, Xdr.MoreValues(Xdr.ListValue(FromTypes(values)), Xdr.NoValues));
    LastIs(Xdr.ListValue(FromTypes(values)));
  }

  lemma {:induction false} TypeIs(t: TypeDef)
    ensures Xdr.Encodable(FromType(t)) ==> Xdr.Encode(FromType(t)) == TypeBytes(t)
    decreases t, 1
  {
    hide Word, Str, Xdr.Encode, Xdr.Encodable, TextOf;
    if Xdr.Encodable(FromType(t)) {
      match t
      case OptionOf(value) =>
        TypeIs(value);
        OneTypeIs(1000, value);
      case VecOf(element) =>
        TypeIs(element);
        OneTypeIs(1002, element);
      case ResultOf(ok, error) =>
        TypeIs(ok);
        TypeIs(error);
        TwoTypesAre(1001, ok, error);
      case MapOf(key, mapped) =>
        TypeIs(key);
        TypeIs(mapped);
        TwoTypesAre(1004, key, mapped);
      case TupleOf(values) =>
        TypeListIs(values);
        TupleIs(values);
      case BytesN(n) => SizedIs(n);
      case Udt(name) => UdtIs(name);
      case _ => SimpleIs(t);
    }
  }

  lemma NothingIs()
    ensures Xdr.EncodeAll(Xdr.NoValues) == []
  {
  }

  lemma {:induction false} TypeListIs(ts: seq<TypeDef>)
    ensures Xdr.Encodable(Xdr.ListValue(FromTypes(ts))) ==>
              Xdr.Encode(Xdr.ListValue(FromTypes(ts))) == Word(|ts|) + TypesBytes(ts)
    decreases ts, 2
  {
    hide Word, Xdr.Encode, Xdr.EncodeAll, Xdr.Encodable, Xdr.AllEncodable, FromTypes, TypesBytes;
    if Xdr.Encodable(Xdr.ListValue(FromTypes(ts))) {
      ListIs(FromTypes(ts));
      TypesCounted(ts);
      TypesAre(ts);
    }
  }

  lemma {:induction false} TypesAre(ts: seq<TypeDef>)
    requires Xdr.AllEncodable(FromTypes(ts))
    ensures Xdr.EncodeAll(FromTypes(ts)) == TypesBytes(ts)
    decreases ts, 0
  {
    hide Xdr.Encode, Xdr.EncodeAll, Xdr.Encodable, Xdr.AllEncodable, FromType, TypeBytes;
    NothingIs();
    if ts != [] {
      PartIs(FromType(ts[0]), FromTypes(ts[1..]));
      TypeIs(ts[0]);
      TypesAre(ts[1..]);
    }
  }

  /** The items of a list are written as given. */
  ghost predicate WrittenAs<T(!new)>(from: T -> Xdr.Value, bytes: T -> seq<byte>) {
    forall x :: Xdr.Encodable(from(x)) ==> Xdr.Encode(from(x)) == bytes(x)
  }

  lemma {:induction false} ItemsAre<T(!new)>(from: T -> Xdr.Value, bytes: T -> seq<byte>, xs: seq<T>)
    requires WrittenAs(from, bytes) && Xdr.AllEncodable(FromList(from, xs))
    ensures FromList(from, xs).Count() == |xs| && Xdr.EncodeAll(FromList(from, xs)) == Each(bytes, xs)
  {
    hide Xdr.Encode, Xdr.EncodeAll, Xdr.Encodable, Xdr.AllEncodable;
    NothingIs();
    if xs != [] {
      PartIs(from(xs[0]), FromList(from, xs[1..]));
      ItemsAre(from, bytes, xs[1..]);
    }
  }

  lemma ManyAre<T(!new)>(from: T -> Xdr.Value, bytes: T -> seq<byte>, xs: seq<T>)
    requires WrittenAs(from, bytes) && Xdr.Encodable(Xdr.ListValue(FromList(from, xs)))
    ensures Xdr.Encode(Xdr.ListValue(FromList(from, xs))) == Many(bytes, xs)
  {
    hide Xdr.Encode, Xdr.EncodeAll, Xdr.Encodable, Xdr.AllEncodable, Word, FromList, Each;
    ListIs(FromList(from, xs));
    ItemsAre(from, bytes, xs);
  }

  lemma TwoAre(a: Xdr.Value, b: Xdr.Value)
    requires var parts := Xdr.MoreValues(a, Xdr.MoreValues(b, Xdr.NoValues)); Xdr.AllEncodable(parts)
    ensures Xdr.Encodable(a) && Xdr.Encodable(b)
    ensures Xdr.EncodeAll(Xdr.MoreValues(a, Xdr.MoreValues(b, Xdr.NoValues))) == Xdr.Encode(a) + Xdr.Encode(b)
  {
    hide Xdr.Encode, Xdr.EncodeAll, Xdr.Encodable, Xdr.AllEncodable;
    PartIs(a, Xdr.MoreValues(b, Xdr.NoValues));
    LastIs(b);
  }

  /** A documented name with a value after it. */
  lemma NamedIs<T(!new)>(from: T -> Xdr.Value, bytes: T -> seq<byte>, x: Named<T>)
    requires WrittenAs(from, bytes) && Xdr.Encodable(FromNamed(from, x))
    ensures Xdr.Encode(FromNamed(from, x)) == Str(x.doc) + (Str(x.name) + bytes(x.item))
  {
    var rest := Xdr.MoreValues(TextOf(x.name), Xdr.MoreValues(from(x.item), Xdr.NoValues));
    StructureIs(Xdr.MoreValues(TextOf(x.doc), rest));
    hide Xdr.Encode, Xdr.EncodeAll, Xdr.Encodable, Xdr.AllEncodable, TextOf, Str;
    PartIs(TextOf(x.doc), rest);
    TwoAre(TextOf(x.name), from(x.item));
    TextIs(x.doc);
    TextIs(x.name);
  }

  lemma StructureIs(parts: Xdr.Values)
    requires Xdr.Encodable(Xdr.StructureValue(parts))
    ensures Xdr.AllEncodable(parts) && Xdr.Encode(Xdr.StructureValue(parts)) == Xdr.EncodeAll(parts)
  {
  }

  lemma PartsWritten()
    ensures WrittenAs(FromType, TypeBytes) && WrittenAs(FromTypeList, (ts: seq<TypeDef>) => Word(|ts|) + TypesBytes(ts))
    ensures WrittenAs(NumberValue, Word) && WrittenAs(TextOf, Str)
  {
    hide Xdr.Encode, Xdr.Encodable, FromType, TypeBytes, Word, TextOf, Str, FromTypes, TypesBytes;
    forall t | Xdr.Encodable(FromType(t)) ensures Xdr.Encode(FromType(t)) == TypeBytes(t) {
      TypeIs(t);
    }
    forall ts | Xdr.Encodable(FromTypeList(ts)) ensures Xdr.Encode(FromTypeList(ts)) == Word(|ts|) + TypesBytes(ts) {
      TypeListIs(ts);
    }
    forall n | Xdr.Encodable(NumberValue(n)) ensures Xdr.Encode(NumberValue(n)) == Word(n) {
      NumberIs(n);
    }
    forall s | Xdr.Encodable(TextOf(s)) ensures Xdr.Encode(TextOf(s)) == Str(s) {
      TextIs(s);
    }
  }

  lemma NamesWritten()
    ensures WrittenAs(FromParameter, ParameterBytes) && WrittenAs(FromField, FieldBytes)
    ensures WrittenAs(FromEnumCase, EnumCaseBytes)
  {
    hide Xdr.Encode, Xdr.Encodable, FromType, TypeBytes, Word, TextOf, Str, FromNamed;
    PartsWritten();
    forall p | Xdr.Encodable(FromParameter(p)) ensures Xdr.Encode(FromParameter(p)) == ParameterBytes(p) {
      NamedIs(FromType, TypeBytes, Named(p.doc, p.name, p.type_));
    }
    forall f | Xdr.Encodable(FromField(f)) ensures Xdr.Encode(FromField(f)) == FieldBytes(f) {
      NamedIs(FromType, TypeBytes, Named(f.doc, f.name, f.type_));
    }
    forall c | Xdr.Encodable(FromEnumCase(c)) ensures Xdr.Encode(FromEnumCase(c)) == EnumCaseBytes(c) {
      NamedIs(NumberValue, Word, Named(c.doc, c.name, c.value));
    }
  }

  lemma UnionIs(number: nat, arm: Xdr.Value)
    requires Xdr.Encodable(Xdr.UnionValue(number, arm))
    ensures number < Xdr.U32_RANGE && Xdr.Encodable(arm)
    ensures Xdr.Encode(Xdr.UnionValue(number, arm)) == Word(number) + Xdr.Encode(arm)
  {
    WordIs(number);
  }

  lemma UnionCaseIs(c: UnionCase)
    requires Xdr.Encodable(FromUnionCase(c))
    ensures Xdr.Encode(FromUnionCase(c)) == UnionCaseBytes(c)
  {
    hide Xdr.Encode, Xdr.EncodeAll, Xdr.Encodable, Xdr.AllEncodable, Word, TextOf, Str, FromNamed, FromTypeList,
         TypesBytes;
    PartsWritten();
    match c
    case VoidCase(name, doc) =>
      ArmIs(0, Xdr.MoreValues(TextOf(doc), Xdr.MoreValues(TextOf(name), Xdr.NoValues)));
      TwoAre(TextOf(doc), TextOf(name));
      TextIs(doc);
      TextIs(name);
    case TupleCase(name, types, doc) =>
      UnionIs(1, FromNamed(FromTypeList, Named(doc, name, types)));
      NamedIs(FromTypeList, (ts: seq<TypeDef>) => Word(|ts|) + TypesBytes(ts), Named(doc, name, types));
  }

  lemma EventParameterIs(p: EventParameter)
    requires Xdr.Encodable(FromEventParameter(p))
    ensures Xdr.Encode(FromEventParameter(p)) == EventParameterBytes(p)
  {
    var number := match p.location case Data => 0 case TopicList => 1;
    var last := Xdr.MoreValues(Xdr.IntValue(number), Xdr.NoValues);
    var rest := Xdr.MoreValues(FromType(p.type_), last);
    assert FromLocated((p.type_, p.location)) == rest;
    StructureIs(Xdr.MoreValues(TextOf(p.doc), Xdr.MoreValues(TextOf(p.name), rest)));
    hide Xdr.Encode, Xdr.EncodeAll, Xdr.Encodable, Xdr.AllEncodable, Word, TextOf, Str, FromType, TypeBytes;
    PartIs(TextOf(p.doc), Xdr.MoreValues(TextOf(p.name), rest));
    PartIs(TextOf(p.name), rest);
    TwoAre(FromType(p.type_), Xdr.IntValue(number));
    TextIs(p.doc);
    TextIs(p.name);
    TypeIs(p.type_);
    NumberIs(number);
  }

  lemma MembersWritten()
    ensures WrittenAs(FromUnionCase, UnionCaseBytes) && WrittenAs(FromEventParameter, EventParameterBytes)
  {
    hide Xdr.Encode, Xdr.Encodable, FromUnionCase, UnionCaseBytes, FromEventParameter, EventParameterBytes;
    forall c | Xdr.Encodable(FromUnionCase(c)) ensures Xdr.Encode(FromUnionCase(c)) == UnionCaseBytes(c) {
      UnionCaseIs(c);
    }
    forall p | Xdr.Encodable(FromEventParameter(p))
      ensures Xdr.Encode(FromEventParameter(p)) == EventParameterBytes(p)
    {
      EventParameterIs(p);
    }
  }

  // ----- Whole entries -----

  lemma DeclaredIs<T(!new)>(from: T -> Xdr.Value, bytes: T -> seq<byte>, x: Declared<T>)
    requires WrittenAs(from, bytes) && Xdr.Encodable(FromDeclared(from, x))
    ensures Xdr.Encode(FromDeclared(from, x)) == Str(x.doc) + (Str(x.lib) + (Str(x.name) + Many(bytes, x.items)))
  {
    var items := Xdr.ListValue(FromList(from, x.items));
    var two := Xdr.MoreValues(TextOf(x.name), Xdr.MoreValues(items, Xdr.NoValues));
    StructureIs(Xdr.MoreValues(TextOf(x.doc), Xdr.MoreValues(TextOf(x.lib), two)));
    hide Xdr.Encode, Xdr.EncodeAll, Xdr.Encodable, Xdr.AllEncodable, TextOf, Str, FromList, Many;
    PartIs(TextOf(x.doc), Xdr.MoreValues(TextOf(x.lib), two));
    PartIs(TextOf(x.lib), two);
    TwoAre(TextOf(x.name), items);
    TextIs(x.doc);
    TextIs(x.lib);
    TextIs(x.name);
    ManyAre(from, bytes, x.items);
  }

  lemma FunctionIs(e: SpecEntry)
    requires e.FunctionV0? && Xdr.Encodable(FromFunction(e))
    ensures Word(0) + Xdr.Encode(FromFunction(e)) == EntryBytes(e)
  {
    var inputs, outputs := Xdr.ListValue(FromList(FromParameter, e.inputs)), FromTypeList(e.outputs);
    var two := Xdr.MoreValues(inputs, Xdr.MoreValues(outputs, Xdr.NoValues));
    StructureIs(Xdr.MoreValues(TextOf(e.doc), Xdr.MoreValues(TextOf(e.name), two)));
    hide Xdr.Encode, Xdr.EncodeAll, Xdr.Encodable, Xdr.AllEncodable, TextOf, Str, FromList, Many, Word, TypesBytes;
    PartIs(TextOf(e.doc), Xdr.MoreValues(TextOf(e.name), two));
    PartIs(TextOf(e.name), two);
    TwoAre(inputs, outputs);
    TextIs(e.doc);
    TextIs(e.name);
    NamesWritten();
    ManyAre(FromParameter, ParameterBytes, e.inputs);
    TypeListIs(e.outputs);
  }

  lemma EventIs(e: SpecEntry)
    requires e.EventV0? && Xdr.Encodable(FromEvent(e))
    ensures Word(5) + Xdr.Encode(FromEvent(e)) == EntryBytes(e)
  {
    var topics, params := Xdr.ListValue(FromList(TextOf, e.prefixTopics)),
                          Xdr.ListValue(FromList(FromEventParameter, e.params));
    var number := match e.dataFormat case SingleValue => 0 case VecFormat => 1 case MapFormat => 2;
    var two := Xdr.MoreValues(params, Xdr.MoreValues(Xdr.IntValue(number), Xdr.NoValues));
    var rest := Xdr.MoreValues(TextOf(e.name), Xdr.MoreValues(topics, two));
    StructureIs(Xdr.MoreValues(TextOf(e.doc), Xdr.MoreValues(TextOf(e.lib), rest)));
    hide Xdr.Encode, Xdr.EncodeAll, Xdr.Encodable, Xdr.AllEncodable, TextOf, Str, FromList, Many, Word;
    PartIs(TextOf(e.doc), Xdr.MoreValues(TextOf(e.lib), rest));
    PartIs(TextOf(e.lib), rest);
    PartIs(TextOf(e.name), Xdr.MoreValues(topics, two));
    PartIs(topics, two);
    TwoAre(params, Xdr.IntValue(number));
    TextIs(e.doc);
    TextIs(e.lib);
    TextIs(e.name);
    PartsWritten();
    MembersWritten();
    ManyAre(TextOf, Str, e.prefixTopics);
    ManyAre(FromEventParameter, EventParameterBytes, e.params);
    NumberIs(number);
  }

  /** An entry is written exactly in the layout, byte for byte. */
  lemma EntryIs(e: SpecEntry)
    requires Xdr.Encodable(FromEntry(e))
    ensures Xdr.Encode(FromEntry(e)) == EntryBytes(e)
  {
    hide Xdr.Encode, Xdr.Encodable, FromFunction, FromDeclared, FromEvent, Many, Word, Str;
    NamesWritten();
    MembersWritten();
    match e
    case FunctionV0(_, _, _, _) =>
      UnionIs(0, FromFunction(e));
      FunctionIs(e);
    case UdtStructV0(name, lib, fields, doc) =>
      UnionIs(1, FromDeclared(FromField, Declared(doc, lib, name, fields)));
      DeclaredIs(FromField, FieldBytes, Declared(doc, lib, name, fields));
    case UdtUnionV0(name, lib, cases, doc) =>
      UnionIs(2, FromDeclared(FromUnionCase, Declared(doc, lib, name, cases)));
      DeclaredIs(FromUnionCase, UnionCaseBytes, Declared(doc, lib, name, cases));
    case UdtEnumV0(name, lib, values, doc) =>
      UnionIs(3, FromDeclared(FromEnumCase, Declared(doc, lib, name, values)));
      DeclaredIs(FromEnumCase, EnumCaseBytes, Declared(doc, lib, name, values));
    case UdtErrorEnumV0(name, lib, values, doc) =>
      UnionIs(4, FromDeclared(FromEnumCase, Declared(doc, lib, name, values)));
      DeclaredIs(FromEnumCase, EnumCaseBytes, Declared(doc, lib, name, values));
    case EventV0(_, _, _, _, _, _) =>
      UnionIs(5, FromEvent(e));
      EventIs(e);
  }

  /** What the codec writes for an entry within the format's limits, and reads back from
      it whatever follows. */
  lemma EntryLaidOut(e: SpecEntry, rest: seq<byte>)
    requires EntryCodec().valid(e)
    ensures EntryCodec().encode(e) == EntryBytes(e)
    ensures EntryCodec().decode(EntryBytes(e) + rest) == Some(e)
  {
    hide ToEntry, FromEntry, Canonical, EntryBytes;
    var v := FromEntry(e);
    Xdr.TypedIsEncodable(SCHEMA, Xdr.Union(ENTRY), v);
    EntryIs(e);
    EntryCodecIsCanonical();
    CodecReads(EntryCodec(), e, rest);
  }

  lemma CodecReads(c: Codec<SpecEntry>, e: SpecEntry, rest: seq<byte>)
    requires Canonical(c) && c.valid(e)
    ensures c.decode(c.encode(e) + rest) == Some(e)
  {
  }
}
