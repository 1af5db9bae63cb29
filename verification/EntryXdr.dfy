/** Specification entries as XDR values: the unions of Stellar's contract-specification
    files, and the proof that nothing is lost between an entry and its value. The numbers
    and limits are those files'; they are not part of this repository. */
module EntryXdr {
  import opened Basics
  import opened TypeNames
  import opened InterfaceSpec
  import opened Xdr
  import opened SpecSection

  // ----- The schema -----

  const ENTRY: nat := 0
  const TYPE_DEF: nat := 1
  const UNION_CASE: nat := 2

  const DOC := Text(1024)
  const SYMBOL := Text(32)
  const NO_LIMIT: nat := 0xFFFF_FFFF

  function Struct(fields: seq<Ty>): Ty {
    Structure(TysOf(fields))
  }

  function TysOf(fields: seq<Ty>): Tys {
    if fields == [] then NoTys else MoreTys(fields[0], TysOf(fields[1..]))
  }

  const VOID_ARMS: seq<(nat, Ty)> :=
    [(0, Struct([])), (1, Struct([])), (2, Struct([])), (3, Struct([])), (4, Struct([])), (5, Struct([])),
     (6, Struct([])),
     (7, Struct([])), (8, Struct([])), (9, Struct([])), (10, Struct([])), (11, Struct([])), (12, Struct([])),
       (13, Struct([])),
     (14, Struct([])), (16, Struct([])), (17, Struct([])), (19, Struct([])), (20, Struct([]))]

  const TYPE_ARMS: seq<(nat, Ty)> :=
    VOID_ARMS
    + [(1000, Struct([Union(TYPE_DEF)])),
       (1001, Struct([Union(TYPE_DEF), Union(TYPE_DEF)])),
       (1002, Struct([Union(TYPE_DEF)])),
       (1004, Struct([Union(TYPE_DEF), Union(TYPE_DEF)])),
       (1005, Struct([List(12, Union(TYPE_DEF))])),
       (1006, Struct([UInt])),
       (2000, Struct([Text(60)]))]

  const CASE_ARMS: seq<(nat, Ty)> :=
    [(0, Struct([DOC, Text(60)])), (1, Struct([DOC, Text(60), List(NO_LIMIT, Union(TYPE_DEF))]))]

  const NAMED_TYPE := Struct([DOC, Text(30), Union(TYPE_DEF)])
  const NAMED_NUMBER := Struct([DOC, Text(60), UInt])
  const EVENT_PARAM := Struct([DOC, Text(30), Union(TYPE_DEF), UInt])

  const ENTRY_ARMS: seq<(nat, Ty)> :=
    [(0, Struct([DOC, SYMBOL, List(NO_LIMIT, NAMED_TYPE), List(1, Union(TYPE_DEF))])),
     (1, Struct([DOC, Text(80), Text(60), List(NO_LIMIT, NAMED_TYPE)])),
     (2, Struct([DOC, Text(80), Text(60), List(NO_LIMIT, Union(UNION_CASE))])),
     (3, Struct([DOC, Text(80), Text(60), List(NO_LIMIT, NAMED_NUMBER)])),
     (4, Struct([DOC, Text(80), Text(60), List(NO_LIMIT, NAMED_NUMBER)])),
     (5, Struct([DOC, Text(80), SYMBOL, List(2, SYMBOL), List(NO_LIMIT, EVENT_PARAM), UInt]))]

  const SCHEMA: Schema := [ENTRY_ARMS, TYPE_ARMS, CASE_ARMS]

  // ----- Texts and lists -----

  /** One character for every byte. */
  function Chars(b: seq<byte>): string {
    seq(|b|, i requires 0 <= i < |b| => b[i] as char)
  }

  function TextOf(s: string): Value {
    TextValue(seq(|s|, i requires 0 <= i < |s| => s[i] as int % 256))
  }

  function ToText(v: Value): Option<string> {
    if v.TextValue? then Some(Chars(v.text)) else None
  }

  /** Every character stands for a byte. */
  predicate IsBytes(s: string) {
    forall i :: 0 <= i < |s| ==> s[i] as int < 256
  }

  lemma TextBack(v: Value)
    ensures ToText(v).Some? ==> TextOf(ToText(v).value) == v
  {
    if v.TextValue? {
      assert TextOf(Chars(v.text)).text == v.text;
    }
  }

  lemma TextForth(s: string)
    requires IsBytes(s)
    ensures ToText(TextOf(s)) == Some(s)
  {
    assert Chars(TextOf(s).text) == s;
  }

  function ToList<T>(to: Value -> Option<T>, vs: Values): Option<seq<T>> {
    match vs
    case NoValues => Some([])
    case MoreValues(first, rest) =>
      var x :- to(first);
      var xs :- ToList(to, rest);
      Some([x] + xs)
  }

  function FromList<T>(from: T -> Value, xs: seq<T>): Values {
    if xs == [] then NoValues else MoreValues(from(xs[0]), FromList(from, xs[1..]))
  }

  lemma {:induction false} ListBack<T>(to: Value -> Option<T>, from: T -> Value, vs: Values)
    requires forall v :: to(v).Some? ==> from(to(v).value) == v
    ensures ToList(to, vs).Some? ==> FromList(from, ToList(to, vs).value) == vs
  {
    if vs.MoreValues? && ToList(to, vs).Some? {
      ListBack(to, from, vs.rest);
      var xs := ToList(to, vs).value;
      assert xs[1..] == ToList(to, vs.rest).value;
    }
  }

  lemma {:induction false} ListForth<T>(to: Value -> Option<T>, from: T -> Value, xs: seq<T>)
    requires forall i :: 0 <= i < |xs| ==> to(from(xs[i])) == Some(xs[i])
    ensures ToList(to, FromList(from, xs)) == Some(xs)
  {
    if xs != [] {
      ListForth(to, from, xs[1..]);
      assert xs == [xs[0]] + xs[1..];
    }
  }

  function Parts(fields: seq<Value>): Value {
    StructureValue(ValuesOf(fields))
  }

  function ValuesOf(fields: seq<Value>): Values {
    if fields == [] then NoValues else MoreValues(fields[0], ValuesOf(fields[1..]))
  }

  // ----- Types -----

  /** The number of a type printed as one word. */
  function SimpleNumber(t: TypeDef): nat {
    match t
    case Val => 0
    case Bool => 1
    case Void => 2
    case Error => 3
    case U32 => 4
    case I32 => 5
    case U64 => 6
    case I64 => 7
    case Timepoint => 8
    case Duration => 9
    case U128 => 10
    case I128 => 11
    case U256 => 12
    case I256 => 13
    case Bytes => 14
    case String => 16
    case Symbol => 17
    case Address => 19
    case _ => 20
  }

  function SimpleTypes(): seq<TypeDef> {
    [Val, Bool, Void, Error, U32, I32, U64, I64, Timepoint, Duration, U128, I128, U256, I256, Bytes, Bytes, String,
     Symbol,
     Symbol, Address, MuxedAddress]
  }

  function ToSimple(number: nat): Option<TypeDef> {
    if number <= 20 && number != 15 && number != 18 then Some(SimpleTypes()[number]) else None
  }

  lemma SimpleBack(number: nat)
    ensures ToSimple(number).Some?
            ==> IsSimple(ToSimple(number).value) && SimpleNumber(ToSimple(number).value) == number
  {
  }

  lemma SimpleForth(t: TypeDef)
    requires IsSimple(t)
    ensures ToSimple(SimpleNumber(t)) == Some(t)
  {
  }

  function FromType(t: TypeDef): Value
    decreases t, 1
  {
    match t
    case OptionOf(value) => UnionValue(1000, StructureValue(MoreValues(FromType(value), NoValues)))
    case ResultOf(ok, error) =>
      UnionValue(1001, StructureValue(MoreValues(FromType(ok), MoreValues(FromType(error), NoValues))))
    case VecOf(element) => UnionValue(1002, StructureValue(MoreValues(FromType(element), NoValues)))
    case MapOf(key, mapped) =>
      UnionValue(1004, StructureValue(MoreValues(FromType(key), MoreValues(FromType(mapped), NoValues))))
    case TupleOf(values) => UnionValue(1005, StructureValue(MoreValues(ListValue(FromTypes(values)), NoValues)))
    case BytesN(n) => UnionValue(1006, StructureValue(MoreValues(IntValue(n), NoValues)))
    case Udt(name) => UnionValue(2000, StructureValue(MoreValues(TextOf(name), NoValues)))
    case _ => UnionValue(SimpleNumber(t), StructureValue(NoValues))
  }

  function FromTypes(ts: seq<TypeDef>): Values
    decreases ts, 0
  {
    if ts == [] then NoValues else MoreValues(FromType(ts[0]), FromTypes(ts[1..]))
  }

  function ToType(v: Value): Option<TypeDef>
    decreases v, 1
  {
    match v
    case UnionValue(number, StructureValue(NoValues)) => ToSimple(number)
    case UnionValue(number, StructureValue(MoreValues(first, NoValues))) =>
      if number == 1000 then var value :- ToType(first); Some(OptionOf(value))
      else if number == 1002 then var element :- ToType(first); Some(VecOf(element))
      else if number == 1005 && first.ListValue? then var values :- ToTypes(first.items); Some(TupleOf(values))
      else if number == 1006 && first.IntValue? then Some(BytesN(first.n))
      else if number == 2000 then var name :- ToText(first); Some(Udt(name))
      else None
    case UnionValue(number, StructureValue(MoreValues(first, MoreValues(second, NoValues)))) =>
      if number == 1001 then
        var ok :- ToType(first);
        var error :- ToType(second);
        Some(ResultOf(ok, error))
      else if number == 1004 then
        var key :- ToType(first);
        var mapped :- ToType(second);
        Some(MapOf(key, mapped))
      else None
    case _ => None
  }

  function ToTypes(vs: Values): Option<seq<TypeDef>>
    decreases vs, 0
  {
    match vs
    case NoValues => Some([])
    case MoreValues(first, rest) =>
      var t :- ToType(first);
      var ts :- ToTypes(rest);
      Some([t] + ts)
  }

  lemma {:induction false} TypeBack(v: Value)
    ensures ToType(v).Some? ==> FromType(ToType(v).value) == v
    decreases v, 1
  {
    hide ToSimple, SimpleNumber, TextOf, ToText;
    match v
    case UnionValue(number, StructureValue(NoValues)) =>
      SimpleBack(number);
    case UnionValue(number, StructureValue(MoreValues(first, NoValues))) =>
      TypeBack(first);
      TextBack(first);
      if first.ListValue? {
        TypesBack(first.items);
      }
    case UnionValue(number, StructureValue(MoreValues(first, MoreValues(second, NoValues)))) =>
      TypeBack(first);
      TypeBack(second);
    case _ =>
  }

  lemma {:induction false} TypesBack(vs: Values)
    ensures ToTypes(vs).Some? ==> FromTypes(ToTypes(vs).value) == vs
    decreases vs, 0
  {
    hide ToType, FromType;
    if vs.MoreValues? && ToTypes(vs).Some? {
      TypeBack(vs.first);
      TypesBack(vs.rest);
      assert ToTypes(vs).value[1..] == ToTypes(vs.rest).value;
    }
  }

  /** Every name in the type is a byte string. */
  predicate TypeInBytes(t: TypeDef)
    decreases t
  {
    match t
    case OptionOf(value) => TypeInBytes(value)
    case ResultOf(ok, error) => TypeInBytes(ok) && TypeInBytes(error)
    case VecOf(element) => TypeInBytes(element)
    case MapOf(key, mapped) => TypeInBytes(key) && TypeInBytes(mapped)
    case TupleOf(values) => forall i :: 0 <= i < |values| ==> TypeInBytes(values[i])
    case Udt(name) => IsBytes(name)
    case _ => true
  }

  lemma {:induction false} TypeForth(t: TypeDef)
    requires TypeInBytes(t)
    ensures ToType(FromType(t)) == Some(t)
    decreases t, 1
  {
    hide ToType, FromType, IsBytes;
    match t
    case OptionOf(value) =>
      TypeForth(value);
      OneForth(t, value);
    case VecOf(element) =>
      TypeForth(element);
      OneForth(t, element);
    case ResultOf(ok, error) =>
      TypeForth(ok);
      TypeForth(error);
      TwoForth(t, ok, error);
    case MapOf(key, mapped) =>
      TypeForth(key);
      TypeForth(mapped);
      TwoForth(t, key, mapped);
    case TupleOf(values) =>
      TypesForth(values);
      TupleForth(values);
    case BytesN(n) =>
      SizedForth(n);
    case Udt(name) =>
      UdtForth(name);
    case _ =>
      SimpleTypeForth(t);
  }

  lemma OneForth(t: TypeDef, x: TypeDef)
    requires ToType(FromType(x)) == Some(x) && (t == OptionOf(x) || t == VecOf(x))
    ensures ToType(FromType(t)) == Some(t)
  {
  }

  lemma TwoForth(t: TypeDef, x: TypeDef, y: TypeDef)
    requires ToType(FromType(x)) == Some(x) && ToType(FromType(y)) == Some(y)
    requires (t == ResultOf(x, y) || t == MapOf(x, y))
    ensures ToType(FromType(t)) == Some(t)
  {
  }

  lemma TupleForth(values: seq<TypeDef>)
    requires ToTypes(FromTypes(values)) == Some(values)
    ensures ToType(FromType(TupleOf(values))) == Some(TupleOf(values))
  {
    hide ToTypes, FromTypes;
  }

  lemma SizedForth(n: nat)
    ensures ToType(FromType(BytesN(n))) == Some(BytesN(n))
  {
  }

  lemma UdtForth(name: string)
    requires IsBytes(name)
    ensures ToType(FromType(Udt(name))) == Some(Udt(name))
  {
    hide ToText, TextOf;
    TextForth(name);
  }

  lemma SimpleTypeForth(t: TypeDef)
    requires IsSimple(t)
    ensures ToType(FromType(t)) == Some(t)
  {
    hide ToSimple, SimpleNumber;
    SimpleForth(t);
  }

  lemma {:induction false} TypesForth(ts: seq<TypeDef>)
    requires forall i :: 0 <= i < |ts| ==> TypeInBytes(ts[i])
    ensures ToTypes(FromTypes(ts)) == Some(ts)
    decreases ts, 0
  {
    hide ToType, FromType;
    if ts != [] {
      TypeForth(ts[0]);
      TypesForth(ts[1..]);
      assert ts == [ts[0]] + ts[1..];
    }
  }

  // ----- The parts of an entry -----

  /** A documented name with a value after it, and what that value stands for. */
  datatype Named<T> = Named(doc: string, name: string, item: T)

  function FromNamed<T>(from: T -> Value, x: Named<T>): Value {
    StructureValue(MoreValues(TextOf(x.doc), MoreValues(TextOf(x.name), MoreValues(from(x.item), NoValues))))
  }

  function ToNamed<T>(to: Value -> Option<T>, v: Value): Option<Named<T>> {
    match v
    case StructureValue(MoreValues(doc, MoreValues(name, MoreValues(item, NoValues)))) =>
      var d :- ToText(doc);
      var n :- ToText(name);
      var x :- to(item);
      Some(Named(d, n, x))
    case _ => None
  }

  lemma NamedBack<T>(to: Value -> Option<T>, from: T -> Value, v: Value)
    requires forall u :: to(u).Some? ==> from(to(u).value) == u
    ensures ToNamed(to, v).Some? ==> FromNamed(from, ToNamed(to, v).value) == v
  {
    hide TextOf, ToText;
    match v
    case StructureValue(MoreValues(doc, MoreValues(name, MoreValues(item, NoValues)))) =>
      TextBack(doc);
      TextBack(name);
    case _ =>
  }

  lemma NamedForth<T>(to: Value -> Option<T>, from: T -> Value, x: Named<T>)
    requires IsBytes(x.doc) && IsBytes(x.name) && to(from(x.item)) == Some(x.item)
    ensures ToNamed(to, FromNamed(from, x)) == Some(x)
  {
    hide TextOf, ToText;
    TextForth(x.doc);
    TextForth(x.name);
  }

  function FromParameter(p: Parameter): Value {
    FromNamed(FromType, Named(p.doc, p.name, p.type_))
  }

  function ToParameter(v: Value): Option<Parameter> {
    var x :- ToNamed(ToType, v);
    Some(Parameter(x.name, x.item, x.doc))
  }

  function FromField(f: Field): Value {
    FromNamed(FromType, Named(f.doc, f.name, f.type_))
  }

  function ToField(v: Value): Option<Field> {
    var x :- ToNamed(ToType, v);
    Some(Field(x.name, x.item, x.doc))
  }

  function NumberValue(n: nat): Value {
    IntValue(n)
  }

  function ToNumber(v: Value): Option<nat> {
    if v.IntValue? then Some(v.n) else None
  }

  function FromEnumCase(c: EnumCase): Value {
    FromNamed(NumberValue, Named(c.doc, c.name, c.value))
  }

  function ToEnumCase(v: Value): Option<EnumCase> {
    var x :- ToNamed(ToNumber, v);
    Some(EnumCase(x.name, x.item, x.doc))
  }

  function FromUnionCase(c: UnionCase): Value {
    match c
    case VoidCase(name, doc) =>
      UnionValue(0, StructureValue(MoreValues(TextOf(doc), MoreValues(TextOf(name), NoValues))))
    case TupleCase(name, types, doc) => UnionValue(1, FromNamed(FromTypeList, Named(doc, name, types)))
  }

  function FromTypeList(ts: seq<TypeDef>): Value {
    ListValue(FromTypes(ts))
  }

  function ToTypeList(v: Value): Option<seq<TypeDef>> {
    if v.ListValue? then ToTypes(v.items) else None
  }

  function ToUnionCase(v: Value): Option<UnionCase> {
    match v
    case UnionValue(number, arm) =>
      if number == 0 then
        match arm
        case StructureValue(MoreValues(doc, MoreValues(name, NoValues))) =>
          var d :- ToText(doc);
          var n :- ToText(name);
          Some(VoidCase(n, d))
        case _ => None
      else if number == 1 then
        var x :- ToNamed(ToTypeList, arm);
        Some(TupleCase(x.name, x.item, x.doc))
      else None
    case _ => None
  }

  function FromLocated(x: (TypeDef, Location)): Values {
    MoreValues(FromType(x.0), MoreValues(IntValue(if x.1.Data? then 0 else 1), NoValues))
  }

  function FromEventParameter(p: EventParameter): Value {
    StructureValue(MoreValues(TextOf(p.doc), MoreValues(TextOf(p.name), FromLocated((p.type_, p.location)))))
  }

  function ToEventParameter(v: Value): Option<EventParameter> {
    match v
    case StructureValue(MoreValues(doc, MoreValues(name, MoreValues(ty, MoreValues(IntValue(n), NoValues))))) =>
      var d :- ToText(doc);
      var m :- ToText(name);
      var t :- ToType(ty);
      if n == 0 then Some(EventParameter(m, t, Data, d))
      else if n == 1 then Some(EventParameter(m, t, TopicList, d))
      else None
    case _ => None
  }

  function FormatNumber(f: DataFormat): nat {
    match f
    case SingleValue => 0
    case VecFormat => 1
    case MapFormat => 2
  }

  function ToFormat(n: nat): Option<DataFormat> {
    if n == 0 then Some(SingleValue) else if n == 1 then Some(VecFormat) else if n == 2 then Some(MapFormat) else None
  }

  lemma TypePartsBack()
    ensures forall v :: ToType(v).Some? ==> FromType(ToType(v).value) == v
    ensures forall v :: ToTypeList(v).Some? ==> FromTypeList(ToTypeList(v).value) == v
  {
    hide ToType, FromType, ToTypes, FromTypes;
    forall v ensures ToType(v).Some? ==> FromType(ToType(v).value) == v {
      TypeBack(v);
    }
    forall v ensures ToTypeList(v).Some? ==> FromTypeList(ToTypeList(v).value) == v {
      if v.ListValue? {
        TypesBack(v.items);
      }
    }
  }

  lemma PartBack(v: Value)
    ensures ToParameter(v).Some? ==> FromParameter(ToParameter(v).value) == v
    ensures ToField(v).Some? ==> FromField(ToField(v).value) == v
    ensures ToEnumCase(v).Some? ==> FromEnumCase(ToEnumCase(v).value) == v
  {
    hide ToType, FromType, ToNamed, FromNamed;
    TypePartsBack();
    NamedBack(ToType, FromType, v);
    NamedBack(ToNumber, NumberValue, v);
  }

  lemma CaseBack(v: Value)
    ensures ToUnionCase(v).Some? ==> FromUnionCase(ToUnionCase(v).value) == v
  {
    hide ToTypeList, FromTypeList, ToNamed, FromNamed, TextOf, ToText;
    TypePartsBack();
    match v
    case UnionValue(_, StructureValue(MoreValues(doc, MoreValues(name, NoValues)))) =>
      TextBack(doc);
      TextBack(name);
      NamedBack(ToTypeList, FromTypeList, v.arm);
    case UnionValue(_, arm) =>
      NamedBack(ToTypeList, FromTypeList, arm);
    case _ =>
  }

  lemma EventParameterBack(v: Value)
    ensures ToEventParameter(v).Some? ==> FromEventParameter(ToEventParameter(v).value) == v
  {
    hide ToType, FromType, TextOf, ToText;
    match v
    case StructureValue(MoreValues(doc, MoreValues(name, MoreValues(ty, MoreValues(IntValue(n), NoValues))))) =>
      TextBack(doc);
      TextBack(name);
      TypeBack(ty);
    case _ =>
  }

  // ----- Whole entries -----

  /** What structures, unions and enumerations have in common. */
  datatype Declared<T> = Declared(doc: string, lib: string, name: string, items: seq<T>)

  function FromDeclared<T>(from: T -> Value, x: Declared<T>): Value {
    StructureValue(
      MoreValues(TextOf(x.doc), MoreValues(TextOf(x.lib), MoreValues(TextOf(x.name),
      MoreValues(ListValue(FromList(from, x.items)), NoValues)))))
  }

  function ToDeclared<T>(to: Value -> Option<T>, v: Value): Option<Declared<T>> {
    match v
    case StructureValue(MoreValues(doc, MoreValues(lib, MoreValues(name, MoreValues(ListValue(items), NoValues))))) =>
      var d :- ToText(doc);
      var l :- ToText(lib);
      var n :- ToText(name);
      var xs :- ToList(to, items);
      Some(Declared(d, l, n, xs))
    case _ => None
  }

  lemma DeclaredBack<T>(to: Value -> Option<T>, from: T -> Value, v: Value)
    requires forall u :: to(u).Some? ==> from(to(u).value) == u
    ensures ToDeclared(to, v).Some? ==> FromDeclared(from, ToDeclared(to, v).value) == v
  {
    hide TextOf, ToText, ToList, FromList;
    match v
    case StructureValue(MoreValues(doc, MoreValues(lib, MoreValues(name, MoreValues(ListValue(items), NoValues))))) =>
      TextBack(doc);
      TextBack(lib);
      TextBack(name);
      ListBack(to, from, items);
    case _ =>
  }

  lemma DeclaredForth<T>(to: Value -> Option<T>, from: T -> Value, x: Declared<T>)
    requires IsBytes(x.doc) && IsBytes(x.lib) && IsBytes(x.name)
    requires forall i :: 0 <= i < |x.items| ==> to(from(x.items[i])) == Some(x.items[i])
    ensures ToDeclared(to, FromDeclared(from, x)) == Some(x)
  {
    hide TextOf, ToText, ToList, FromList;
    TextForth(x.doc);
    TextForth(x.lib);
    TextForth(x.name);
    ListForth(to, from, x.items);
  }

  function FromFunction(e: SpecEntry): Value
    requires e.FunctionV0?
  {
    StructureValue(
      MoreValues(TextOf(e.doc), MoreValues(TextOf(e.name), MoreValues(ListValue(FromList(FromParameter, e.inputs)),
      MoreValues(FromTypeList(e.outputs), NoValues)))))
  }

  function ToFunction(v: Value): Option<SpecEntry> {
    match v
    case StructureValue(MoreValues(doc,
                                   MoreValues(name, MoreValues(ListValue(inputs), MoreValues(outputs, NoValues))))) =>
      var d :- ToText(doc);
      var n :- ToText(name);
      var xs :- ToList(ToParameter, inputs);
      var ts :- ToTypeList(outputs);
      Some(FunctionV0(n, xs, ts, d))
    case _ => None
  }

  function FromEvent(e: SpecEntry): Value
    requires e.EventV0?
  {
    StructureValue(
      MoreValues(TextOf(e.doc), MoreValues(TextOf(e.lib), MoreValues(TextOf(e.name),
      MoreValues(ListValue(FromList(TextOf, e.prefixTopics)),
                 MoreValues(ListValue(FromList(FromEventParameter, e.params)),
      MoreValues(IntValue(FormatNumber(e.dataFormat)), NoValues)))))))
  }

  function ToEvent(v: Value): Option<SpecEntry> {
    match v
    case StructureValue(MoreValues(doc, MoreValues(lib, MoreValues(name, MoreValues(ListValue(topics),
           MoreValues(ListValue(params), MoreValues(IntValue(format), NoValues))))))) =>
      var d :- ToText(doc);
      var l :- ToText(lib);
      var n :- ToText(name);
      var ts :- ToList(ToText, topics);
      var ps :- ToList(ToEventParameter, params);
      var f :- ToFormat(format);
      Some(EventV0(n, l, ts, ps, f, d))
    case _ => None
  }

  function FromEntry(e: SpecEntry): Value {
    match e
    case FunctionV0(_, _, _, _) => UnionValue(0, FromFunction(e))
    case UdtStructV0(name, lib, fields, doc) => UnionValue(1, FromDeclared(FromField, Declared(doc, lib, name, fields)))
    case UdtUnionV0(name, lib, cases, doc) =>
      UnionValue(2, FromDeclared(FromUnionCase, Declared(doc, lib, name, cases)))
    case UdtEnumV0(name, lib, values, doc) =>
      UnionValue(3, FromDeclared(FromEnumCase, Declared(doc, lib, name, values)))
    case UdtErrorEnumV0(name, lib, values, doc) =>
      UnionValue(4, FromDeclared(FromEnumCase, Declared(doc, lib, name, values)))
    case EventV0(_, _, _, _, _, _) => UnionValue(5, FromEvent(e))
  }

  function ToEntry(v: Value): Option<SpecEntry> {
    match v
    case UnionValue(number, arm) =>
      if number == 0 then ToFunction(arm)
      else if number == 1 then
        var x :- ToDeclared(ToField, arm);
        Some(UdtStructV0(x.name, x.lib, x.items, x.doc))
      else if number == 2 then
        var x :- ToDeclared(ToUnionCase, arm);
        Some(UdtUnionV0(x.name, x.lib, x.items, x.doc))
      else if number == 3 then
        var x :- ToDeclared(ToEnumCase, arm);
        Some(UdtEnumV0(x.name, x.lib, x.items, x.doc))
      else if number == 4 then
        var x :- ToDeclared(ToEnumCase, arm);
        Some(UdtErrorEnumV0(x.name, x.lib, x.items, x.doc))
      else if number == 5 then ToEvent(arm)
      else None
    case _ => None
  }

  lemma PartsBack()
    ensures forall v :: ToText(v).Some? ==> TextOf(ToText(v).value) == v
    ensures forall v :: ToParameter(v).Some? ==> FromParameter(ToParameter(v).value) == v
    ensures forall v :: ToField(v).Some? ==> FromField(ToField(v).value) == v
    ensures forall v :: ToEnumCase(v).Some? ==> FromEnumCase(ToEnumCase(v).value) == v
    ensures forall v :: ToUnionCase(v).Some? ==> FromUnionCase(ToUnionCase(v).value) == v
    ensures forall v :: ToEventParameter(v).Some? ==> FromEventParameter(ToEventParameter(v).value) == v
  {
    hide ToText, TextOf, ToParameter, FromParameter, ToField, FromField, ToEnumCase, FromEnumCase, ToUnionCase,
         FromUnionCase,
         ToEventParameter, FromEventParameter;
    forall v ensures ToText(v).Some? ==> TextOf(ToText(v).value) == v {
      TextBack(v);
    }
    forall v ensures ToParameter(v).Some? ==> FromParameter(ToParameter(v).value) == v {
      PartBack(v);
    }
    forall v ensures ToField(v).Some? ==> FromField(ToField(v).value) == v {
      PartBack(v);
    }
    forall v ensures ToEnumCase(v).Some? ==> FromEnumCase(ToEnumCase(v).value) == v {
      PartBack(v);
    }
    forall v ensures ToUnionCase(v).Some? ==> FromUnionCase(ToUnionCase(v).value) == v {
      CaseBack(v);
    }
    forall v ensures ToEventParameter(v).Some? ==> FromEventParameter(ToEventParameter(v).value) == v {
      EventParameterBack(v);
    }
  }

  lemma FunctionBack(v: Value)
    ensures ToFunction(v).Some? ==> ToFunction(v).value.FunctionV0? && FromFunction(ToFunction(v).value) == v
  {
    hide TextOf, ToText, ToList, FromList, ToParameter, FromParameter, ToTypeList, FromTypeList;
    PartsBack();
    TypePartsBack();
    match v
    case StructureValue(MoreValues(doc,
                                   MoreValues(name, MoreValues(ListValue(inputs), MoreValues(outputs, NoValues))))) =>
      ListBack(ToParameter, FromParameter, inputs);
    case _ =>
  }

  lemma EventBack(v: Value)
    ensures ToEvent(v).Some? ==> ToEvent(v).value.EventV0? && FromEvent(ToEvent(v).value) == v
  {
    hide TextOf, ToText, ToList, FromList, ToEventParameter, FromEventParameter;
    PartsBack();
    match v
    case StructureValue(MoreValues(doc, MoreValues(lib, MoreValues(name, MoreValues(ListValue(topics),
           MoreValues(ListValue(params), MoreValues(IntValue(format), NoValues))))))) =>
      ListBack(ToText, TextOf, topics);
      ListBack(ToEventParameter, FromEventParameter, params);
    case _ =>
  }

  /** An entry read from a value is written as that value. */
  lemma EntryBack(v: Value)
    ensures ToEntry(v).Some? ==> FromEntry(ToEntry(v).value) == v
  {
    hide ToFunction, FromFunction, ToEvent, FromEvent, ToDeclared, FromDeclared;
    PartsBack();
    match v
    case UnionValue(_, arm) =>
      FunctionBack(arm);
      EventBack(arm);
      DeclaredBack(ToField, FromField, arm);
      DeclaredBack(ToUnionCase, FromUnionCase, arm);
      DeclaredBack(ToEnumCase, FromEnumCase, arm);
    case _ =>
  }

  /** Every text of the entry is a byte string. */
  predicate EntryInBytes(e: SpecEntry) {
    match e
    case FunctionV0(name, inputs, outputs, doc) =>
      && IsBytes(name) && IsBytes(doc) && (forall i :: 0 <= i < |outputs| ==> TypeInBytes(outputs[i]))
      && forall i :: 0 <= i < |inputs| ==>
           IsBytes(inputs[i].name) && IsBytes(inputs[i].doc) && TypeInBytes(inputs[i].type_)
    case UdtStructV0(name, lib, fields, doc) =>
      && IsBytes(name) && IsBytes(lib) && IsBytes(doc)
      && forall i :: 0 <= i < |fields| ==>
           IsBytes(fields[i].name) && IsBytes(fields[i].doc) && TypeInBytes(fields[i].type_)
    case UdtUnionV0(name, lib, cases, doc) =>
      && IsBytes(name) && IsBytes(lib) && IsBytes(doc)
      && forall i :: 0 <= i < |cases| ==>
           && IsBytes(cases[i].name) && IsBytes(cases[i].doc)
           && (cases[i].TupleCase? ==> forall k :: 0 <= k < |cases[i].types| ==> TypeInBytes(cases[i].types[k]))
    case UdtEnumV0(name, lib, values, doc) =>
      && IsBytes(name) && IsBytes(lib) && IsBytes(doc)
      && forall i :: 0 <= i < |values| ==> IsBytes(values[i].name) && IsBytes(values[i].doc)
    case UdtErrorEnumV0(name, lib, values, doc) =>
      && IsBytes(name) && IsBytes(lib) && IsBytes(doc)
      && forall i :: 0 <= i < |values| ==> IsBytes(values[i].name) && IsBytes(values[i].doc)
    case EventV0(name, lib, topics, params, _, doc) =>
      && IsBytes(name) && IsBytes(lib) && IsBytes(doc) && (forall i :: 0 <= i < |topics| ==> IsBytes(topics[i]))
      && forall i :: 0 <= i < |params| ==>
           IsBytes(params[i].name) && IsBytes(params[i].doc) && TypeInBytes(params[i].type_)
  }

  lemma ParameterForth(p: Parameter)
    requires IsBytes(p.name) && IsBytes(p.doc) && TypeInBytes(p.type_)
    ensures ToParameter(FromParameter(p)) == Some(p)
  {
    hide ToType, FromType, ToNamed, FromNamed;
    TypeForth(p.type_);
    NamedForth(ToType, FromType, Named(p.doc, p.name, p.type_));
  }

  lemma FieldForth(f: Field)
    requires IsBytes(f.name) && IsBytes(f.doc) && TypeInBytes(f.type_)
    ensures ToField(FromField(f)) == Some(f)
  {
    hide ToType, FromType, ToNamed, FromNamed;
    TypeForth(f.type_);
    NamedForth(ToType, FromType, Named(f.doc, f.name, f.type_));
  }

  lemma EnumCaseForth(c: EnumCase)
    requires IsBytes(c.name) && IsBytes(c.doc)
    ensures ToEnumCase(FromEnumCase(c)) == Some(c)
  {
    hide ToNamed, FromNamed;
    NamedForth(ToNumber, NumberValue, Named(c.doc, c.name, c.value));
  }

  lemma UnionCaseForth(c: UnionCase)
    requires IsBytes(c.name) && IsBytes(c.doc)
    requires c.TupleCase? ==> forall k :: 0 <= k < |c.types| ==> TypeInBytes(c.types[k])
    ensures ToUnionCase(FromUnionCase(c)) == Some(c)
  {
    hide ToText, TextOf, ToTypes, FromTypes, ToNamed, FromNamed;
    match c
    case VoidCase(name, doc) =>
      TextForth(name);
      TextForth(doc);
    case TupleCase(name, types, doc) =>
      TypesForth(types);
      NamedForth(ToTypeList, FromTypeList, Named(doc, name, types));
  }

  lemma EventParameterForth(p: EventParameter)
    requires IsBytes(p.name) && IsBytes(p.doc) && TypeInBytes(p.type_)
    ensures ToEventParameter(FromEventParameter(p)) == Some(p)
  {
    hide ToText, TextOf, ToType, FromType;
    TextForth(p.name);
    TextForth(p.doc);
    TypeForth(p.type_);
  }

  lemma FunctionForth(e: SpecEntry)
    requires e.FunctionV0? && EntryInBytes(e)
    ensures ToFunction(FromFunction(e)) == Some(e)
  {
    hide ToText, TextOf, ToList, FromList, ToParameter, FromParameter, ToTypes, FromTypes;
    TextForth(e.name);
    TextForth(e.doc);
    TypesForth(e.outputs);
    forall i | 0 <= i < |e.inputs| ensures ToParameter(FromParameter(e.inputs[i])) == Some(e.inputs[i]) {
      ParameterForth(e.inputs[i]);
    }
    ListForth(ToParameter, FromParameter, e.inputs);
  }

  lemma EventForth(e: SpecEntry)
    requires e.EventV0? && EntryInBytes(e)
    ensures ToEvent(FromEvent(e)) == Some(e)
  {
    hide ToText, TextOf, ToList, FromList, ToEventParameter, FromEventParameter;
    TextForth(e.name);
    TextForth(e.lib);
    TextForth(e.doc);
    forall i | 0 <= i < |e.prefixTopics| ensures ToText(TextOf(e.prefixTopics[i])) == Some(e.prefixTopics[i]) {
      TextForth(e.prefixTopics[i]);
    }
    ListForth(ToText, TextOf, e.prefixTopics);
    forall i | 0 <= i < |e.params| ensures ToEventParameter(FromEventParameter(e.params[i])) == Some(e.params[i]) {
      EventParameterForth(e.params[i]);
    }
    ListForth(ToEventParameter, FromEventParameter, e.params);
  }

  /** An entry whose texts are byte strings is read back from the value it is written as. */
  lemma EntryForth(e: SpecEntry)
    requires EntryInBytes(e)
    ensures ToEntry(FromEntry(e)) == Some(e)
  {
    hide ToFunction, FromFunction, ToEvent, FromEvent, ToDeclared, FromDeclared, ToField, FromField, ToUnionCase,
         FromUnionCase,
         ToEnumCase, FromEnumCase;
    match e
    case FunctionV0(_, _, _, _) => FunctionForth(e);
    case UdtStructV0(name, lib, fields, doc) =>
      forall i | 0 <= i < |fields| ensures ToField(FromField(fields[i])) == Some(fields[i]) {
        FieldForth(fields[i]);
      }
      DeclaredForth(ToField, FromField, Declared(doc, lib, name, fields));
    case UdtUnionV0(name, lib, cases, doc) =>
      forall i | 0 <= i < |cases| ensures ToUnionCase(FromUnionCase(cases[i])) == Some(cases[i]) {
        UnionCaseForth(cases[i]);
      }
      DeclaredForth(ToUnionCase, FromUnionCase, Declared(doc, lib, name, cases));
    case UdtEnumV0(name, lib, values, doc) =>
      forall i | 0 <= i < |values| ensures ToEnumCase(FromEnumCase(values[i])) == Some(values[i]) {
        EnumCaseForth(values[i]);
      }
      DeclaredForth(ToEnumCase, FromEnumCase, Declared(doc, lib, name, values));
    case UdtErrorEnumV0(name, lib, values, doc) =>
      forall i | 0 <= i < |values| ensures ToEnumCase(FromEnumCase(values[i])) == Some(values[i]) {
        EnumCaseForth(values[i]);
      }
      DeclaredForth(ToEnumCase, FromEnumCase, Declared(doc, lib, name, values));
    case EventV0(_, _, _, _, _, _) => EventForth(e);
  }

  // ----- The codec -----

  /** Specification entries as a deployed module carries them. */
  ghost function EntryCodec(): Codec<SpecEntry> {
    Represented(XdrCodec(SCHEMA, ENTRY), ToEntry, FromEntry)
  }

  /** The decoder's results hold of real entries, not of an assumed codec. */
  lemma EntryCodecIsCanonical()
    ensures Canonical(EntryCodec())
  {
    hide ToEntry, FromEntry, Canonical, XdrCodec, Represented;
    XdrIsCanonical(SCHEMA, ENTRY);
    forall v ensures ToEntry(v).Some? ==> FromEntry(ToEntry(v).value) == v {
      EntryBack(v);
    }
    RepresentedIsCanonical(XdrCodec(SCHEMA, ENTRY), ToEntry, FromEntry);
  }

  /** The entries the codec writes are those whose texts are byte strings and whose value
      keeps the format's limits. */
  lemma EntryWritten(e: SpecEntry)
    requires EntryInBytes(e) && HasType(SCHEMA, Union(ENTRY), FromEntry(e))
    ensures EntryCodec().valid(e)
  {
    hide ToEntry, FromEntry, EntryInBytes, HasType;
    EntryForth(e);
  }

  lemma {:induction false} ArmFound(arms: seq<(nat, Ty)>, i: nat)
    requires i < |arms| && forall j :: 0 <= j < i ==> arms[j].0 != arms[i].0
    ensures ArmOf(arms, arms[i].0) == Some(arms[i].1)
  {
    if i > 0 {
      ArmFound(arms[1..], i - 1);
    }
  }

  /** An entry such as the SDK writes for `fn ping() -> u32` is one of them. */
  lemma AnEntryIsWritten()
    ensures EntryCodec().valid(FunctionV0("ping", [], [U32], ""))
  {
    hide EntryCodec;
    var e := FunctionV0("ping", [], [U32], "");
    PingIsTyped(e);
    EntryWritten(e);
  }

  lemma PingIsTyped(e: SpecEntry)
    requires e == FunctionV0("ping", [], [U32], "")
    ensures EntryInBytes(e) && HasType(SCHEMA, Union(ENTRY), FromEntry(e))
  {
    ArmFound(ENTRY_ARMS, 0);
    U32IsTyped();
    var inputs, outputs := FromList(FromParameter, e.inputs), FromTypes(e.outputs);
    assert inputs == NoValues && outputs == MoreValues(FromType(U32), NoValues);
    var fields := [DOC, SYMBOL, List(NO_LIMIT, NAMED_TYPE), List(1, Union(TYPE_DEF))];
    FourFields(fields);
    hide FromType, TYPE_ARMS, CASE_ARMS, NAMED_TYPE;
    assert FromEntry(e) == UnionValue(0, StructureValue(
        MoreValues(TextOf(""),
                   MoreValues(TextOf("ping"),
                              MoreValues(ListValue(NoValues), MoreValues(ListValue(outputs), NoValues))))));
    assert outputs.Count() == 1 && AllHaveType(SCHEMA, Union(TYPE_DEF), outputs);
    assert HasType(SCHEMA, List(1, Union(TYPE_DEF)), ListValue(outputs));
    assert HasType(SCHEMA, List(NO_LIMIT, NAMED_TYPE), ListValue(NoValues));
  }

  lemma FourFields(fields: seq<Ty>)
    requires |fields| == 4
    ensures Struct(fields)
            == Structure(MoreTys(fields[0], MoreTys(fields[1], MoreTys(fields[2], MoreTys(fields[3], NoTys)))))
  {
    assert fields[1..][1..] == fields[2..] && fields[2..][1..] == fields[3..] && fields[3..][1..] == [];
    assert TysOf(fields[3..]) == MoreTys(fields[3], NoTys);
    assert TysOf(fields[2..]) == MoreTys(fields[2], TysOf(fields[3..]));
    assert TysOf(fields[1..]) == MoreTys(fields[1], TysOf(fields[2..]));
  }

  lemma U32IsTyped()
    ensures HasType(SCHEMA, Union(TYPE_DEF), FromType(U32))
  {
    ArmFound(TYPE_ARMS, 4);
  }
}
