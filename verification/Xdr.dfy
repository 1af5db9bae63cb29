/** XDR (RFC 4506) for any schema built of the forms a specification entry uses:
    unsigned integers and discriminants (sections 4.2 and 4.3), bounded strings (4.11),
    bounded variable-length arrays (4.13), structures (4.14) and discriminated unions
    (4.15), which may refer to each other recursively. */
module Xdr {
  import opened Basics

  /** A type. Unions are declared in a schema and referred to by number. */
  datatype Ty = UInt | Text(max: nat) | List(max: nat, element: Ty) | Structure(fields: Tys) | Union(number: nat)

  datatype Tys = NoTys | MoreTys(head: Ty, tail: Tys)

  /** The arms of each union: a discriminant and the type that follows it. */
  type Schema = seq<seq<(nat, Ty)>>

  datatype Value =
    | IntValue(n: nat)
    | TextValue(text: seq<byte>)
    | ListValue(items: Values)
    | StructureValue(parts: Values)
    | UnionValue(discriminant: nat, arm: Value)

  datatype Values = NoValues | MoreValues(first: Value, rest: Values) {
    function Count(): nat {
      if NoValues? then 0 else 1 + rest.Count()
    }
  }

  const U32_RANGE: nat := 0x1_0000_0000

  function ArmOf(arms: seq<(nat, Ty)>, discriminant: nat): Option<Ty> {
    if arms == [] then None
    else if arms[0].0 == discriminant then Some(arms[0].1)
    else ArmOf(arms[1..], discriminant)
  }

  // ----- Encoding -----

  function EncodeWord(n: nat): (e: seq<byte>)
    requires n < U32_RANGE
    ensures |e| == 4
  {
    [n / 0x100_0000, n / 0x1_0000 % 0x100, n / 0x100 % 0x100, n % 0x100]
  }

  /** The zero bytes that bring a length to a multiple of four. */
  function Padding(len: nat): (pad: seq<byte>)
    ensures |pad| == (4 - len % 4) % 4
  {
    seq((4 - len % 4) % 4, _ => 0)
  }

  /** Every number in the value is written in one word. */
  predicate Encodable(v: Value)
    decreases v, 1
  {
    match v
    case IntValue(n) => n < U32_RANGE
    case TextValue(text) => |text| < U32_RANGE
    case ListValue(items) => items.Count() < U32_RANGE && AllEncodable(items)
    case StructureValue(parts) => AllEncodable(parts)
    case UnionValue(discriminant, arm) => discriminant < U32_RANGE && Encodable(arm)
  }

  predicate AllEncodable(vs: Values)
    decreases vs, 0
  {
    vs.NoValues? || (Encodable(vs.first) && AllEncodable(vs.rest))
  }

  function Encode(v: Value): seq<byte>
    requires Encodable(v)
    decreases v, 1
  {
    match v
    case IntValue(n) => EncodeWord(n)
    case TextValue(text) => EncodeWord(|text|) + (text + Padding(|text|))
    case ListValue(items) => EncodeWord(items.Count()) + EncodeAll(items)
    case StructureValue(parts) => EncodeAll(parts)
    case UnionValue(discriminant, arm) => EncodeWord(discriminant) + Encode(arm)
  }

  function EncodeAll(vs: Values): seq<byte>
    requires AllEncodable(vs)
    decreases vs, 0
  {
    if vs.NoValues? then [] else Encode(vs.first) + EncodeAll(vs.rest)
  }

  // ----- Decoding -----

  function WordAt(b: seq<byte>, p: nat): (r: Read<nat>)
    ensures r.Got? ==> r.next == p + 4 <= |b| && r.value < U32_RANGE
  {
    if p + 4 <= |b| then
      var b0: int, b1: int, b2: int, b3: int := b[p], b[p + 1], b[p + 2], b[p + 3];
      Got(0x100_0000 * b0 + 0x1_0000 * b1 + 0x100 * b2 + b3, p + 4)
    else Fail
  }

  function TextAt(b: seq<byte>, p: nat, max: nat): (r: Read<Value>)
    ensures r.Got? ==> p <= r.next <= |b|
  {
    var (len, q) :- WordAt(b, p);
    var end := q + len + |Padding(len)|;
    if len > max || end > |b| || b[q + len..end] != Padding(len) then Fail
    else Got(TextValue(b[q..q + len]), end)
  }

  function DecodeAt(schema: Schema, ty: Ty, b: seq<byte>, p: nat): (r: Read<Value>)
    requires p <= |b|
    ensures r.Got? ==> p <= r.next <= |b|
    decreases |b| - p, ty, 0
  {
    match ty
    case UInt =>
      var (n, q) :- WordAt(b, p);
      Got(IntValue(n), q)
    case Text(max) => TextAt(b, p, max)
    case List(max, element) =>
      var (count, q) :- WordAt(b, p);
      if count > max then Fail
      else
        var (items, q1) :- ItemsAt(schema, element, count, b, q);
        Got(ListValue(items), q1)
    case Structure(fields) =>
      var (parts, q) :- FieldsAt(schema, fields, b, p);
      Got(StructureValue(parts), q)
    case Union(number) =>
      var (discriminant, q) :- WordAt(b, p);
      if number >= |schema| then Fail
      else match ArmOf(schema[number], discriminant)
        case None => Fail
        case Some(arm) =>
          var (value, q1) :- DecodeAt(schema, arm, b, q);
          Got(UnionValue(discriminant, value), q1)
  }

  function ItemsAt(schema: Schema, element: Ty, count: nat, b: seq<byte>, p: nat): (r: Read<Values>)
    requires p <= |b|
    ensures r.Got? ==> p <= r.next <= |b|
    decreases |b| - p, element, count
  {
    if count == 0 then Got(NoValues, p)
    else
      var (first, q) :- DecodeAt(schema, element, b, p);
      var (rest, q1) :- ItemsAt(schema, element, count - 1, b, q);
      Got(MoreValues(first, rest), q1)
  }

  function FieldsAt(schema: Schema, fields: Tys, b: seq<byte>, p: nat): (r: Read<Values>)
    requires p <= |b|
    ensures r.Got? ==> p <= r.next <= |b|
    decreases |b| - p, fields, 0
  {
    match fields
    case NoTys => Got(NoValues, p)
    case MoreTys(head, tail) =>
      var (first, q) :- DecodeAt(schema, head, b, p);
      var (rest, q1) :- FieldsAt(schema, tail, b, q);
      Got(MoreValues(first, rest), q1)
  }

  // ----- Well-typed values -----

  ghost predicate HasType(schema: Schema, ty: Ty, v: Value)
    decreases v, 1
  {
    match ty
    case UInt => v.IntValue? && v.n < U32_RANGE
    case Text(max) => v.TextValue? && |v.text| <= max && |v.text| < U32_RANGE
    case List(max, element) =>
      v.ListValue? && v.items.Count() <= max && v.items.Count() < U32_RANGE && AllHaveType(schema, element, v.items)
    case Structure(fields) => v.StructureValue? && HaveTypes(schema, fields, v.parts)
    case Union(number) =>
      && v.UnionValue? && v.discriminant < U32_RANGE && number < |schema|
      && ArmOf(schema[number], v.discriminant).Some?
      && HasType(schema, ArmOf(schema[number], v.discriminant).value, v.arm)
  }

  ghost predicate AllHaveType(schema: Schema, element: Ty, vs: Values)
    decreases vs, 0
  {
    vs.NoValues? || (HasType(schema, element, vs.first) && AllHaveType(schema, element, vs.rest))
  }

  ghost predicate HaveTypes(schema: Schema, fields: Tys, vs: Values)
    decreases vs, 0
  {
    match fields
    case NoTys => vs.NoValues?
    case MoreTys(head, tail) => vs.MoreValues? && HasType(schema, head, vs.first) && HaveTypes(schema, tail, vs.rest)
  }

  lemma {:induction false} TypedIsEncodable(schema: Schema, ty: Ty, v: Value)
    requires HasType(schema, ty, v)
    ensures Encodable(v)
    decreases v, 1
  {
    match ty
    case UInt =>
    case Text(_) =>
    case List(_, element) => AllTypedEncodable(schema, element, v.items);
    case Structure(fields) => FieldsEncodable(schema, fields, v.parts);
    case Union(number) => TypedIsEncodable(schema, ArmOf(schema[number], v.discriminant).value, v.arm);
  }

  lemma {:induction false} AllTypedEncodable(schema: Schema, element: Ty, vs: Values)
    requires AllHaveType(schema, element, vs)
    ensures AllEncodable(vs)
    decreases vs, 0
  {
    if vs.MoreValues? {
      TypedIsEncodable(schema, element, vs.first);
      AllTypedEncodable(schema, element, vs.rest);
    }
  }

  lemma {:induction false} FieldsEncodable(schema: Schema, fields: Tys, vs: Values)
    requires HaveTypes(schema, fields, vs)
    ensures AllEncodable(vs)
    decreases vs, 0
  {
    if fields.MoreTys? {
      TypedIsEncodable(schema, fields.head, vs.first);
      FieldsEncodable(schema, fields.tail, vs.rest);
    }
  }

  // ----- Words and strings -----

  /** A number is the sum of its four base-256 digits. */
  lemma WordDigits(n: nat)
    requires n < U32_RANGE
    ensures 0x100_0000 * (n / 0x100_0000) + 0x1_0000 * (n / 0x1_0000 % 0x100) + 0x100 * (n / 0x100 % 0x100) + n % 0x100
            == n
  {
    var a := n / 0x100;
    var c := a / 0x100;
    assert n / 0x1_0000 == c;
    assert n / 0x100_0000 == c / 0x100;
  }

  lemma WordEncoded(b: seq<byte>, p: nat, n: nat)
    requires n < U32_RANGE && Occurs(b, p, EncodeWord(n))
    ensures WordAt(b, p) == Got(n, p + 4)
  {
    var e := EncodeWord(n);
    WordDigits(n);
    assert b[p..p + 4] == e;
    assert b[p] == e[0] && b[p + 1] == e[1] && b[p + 2] == e[2] && b[p + 3] == e[3];
  }

  lemma WordDecoded(b: seq<byte>, p: nat)
    requires WordAt(b, p).Got?
    ensures Occurs(b, p, EncodeWord(WordAt(b, p).value))
  {
    var n := WordAt(b, p).value;
    var b0: int, b1: int, b2: int := b[p], b[p + 1], b[p + 2];
    assert n / 0x100_0000 == b0;
    assert n / 0x1_0000 == 0x100 * b0 + b1;
    assert n / 0x100 == 0x1_0000 * b0 + 0x100 * b1 + b2;
    assert b[p..p + 4] == [b[p], b[p + 1], b[p + 2], b[p + 3]];
  }

  lemma TextEncoded(b: seq<byte>, p: nat, text: seq<byte>, max: nat)
    requires |text| <= max && |text| < U32_RANGE && Occurs(b, p, Encode(TextValue(text)))
    ensures TextAt(b, p, max) == Got(TextValue(text), p + |Encode(TextValue(text))|)
  {
    OccursSplit(b, p, EncodeWord(|text|), text + Padding(|text|));
    WordEncoded(b, p, |text|);
    OccursSplit(b, p + 4, text, Padding(|text|));
  }

  lemma TextDecoded(b: seq<byte>, p: nat, max: nat)
    requires TextAt(b, p, max).Got?
    ensures var Got(v, q) := TextAt(b, p, max);
            && v.TextValue? && |v.text| <= max && |v.text| < U32_RANGE
            && Occurs(b, p, Encode(v)) && q == p + |Encode(v)|
  {
    var text := TextAt(b, p, max).value.text;
    WordDecoded(b, p);
    OccursSplit(b, p + 4, text, Padding(|text|));
    OccursSplit(b, p, EncodeWord(|text|), text + Padding(|text|));
  }

  // ----- XDR is canonical -----

  /** Every well-typed value is recovered from its encoding, wherever that stands. */
  lemma {:induction false} DecodesEncoded(schema: Schema, ty: Ty, v: Value, b: seq<byte>, p: nat)
    requires HasType(schema, ty, v) && Encodable(v) && p <= |b| && Occurs(b, p, Encode(v))
    ensures DecodeAt(schema, ty, b, p) == Got(v, p + |Encode(v)|)
    decreases v, 1
  {
    hide Occurs, EncodeWord, ItemsAt, FieldsAt, TextAt, WordAt, AllHaveType, HaveTypes, EncodeAll, AllEncodable;
    match ty
    case UInt =>
      WordEncoded(b, p, v.n);
    case Text(max) =>
      TextEncoded(b, p, v.text, max);
    case List(max, element) =>
      OccursSplit(b, p, EncodeWord(v.items.Count()), EncodeAll(v.items));
      WordEncoded(b, p, v.items.Count());
      ItemsEncoded(schema, element, v.items, b, p + 4);
    case Structure(fields) =>
      FieldsEncoded(schema, fields, v.parts, b, p);
    case Union(number) =>
      OccursSplit(b, p, EncodeWord(v.discriminant), Encode(v.arm));
      WordEncoded(b, p, v.discriminant);
      DecodesEncoded(schema, ArmOf(schema[number], v.discriminant).value, v.arm, b, p + 4);
  }

  lemma {:induction false} ItemsEncoded(schema: Schema, element: Ty, vs: Values, b: seq<byte>, p: nat)
    requires AllHaveType(schema, element, vs) && AllEncodable(vs) && p <= |b| && Occurs(b, p, EncodeAll(vs))
    ensures ItemsAt(schema, element, vs.Count(), b, p) == Got(vs, p + |EncodeAll(vs)|)
    decreases vs, 0
  {
    hide Occurs, DecodeAt, HasType, Encodable, Encode;
    if vs.MoreValues? {
      OccursSplit(b, p, Encode(vs.first), EncodeAll(vs.rest));
      DecodesEncoded(schema, element, vs.first, b, p);
      ItemsEncoded(schema, element, vs.rest, b, p + |Encode(vs.first)|);
    }
  }

  lemma {:induction false} FieldsEncoded(schema: Schema, fields: Tys, vs: Values, b: seq<byte>, p: nat)
    requires HaveTypes(schema, fields, vs) && AllEncodable(vs) && p <= |b| && Occurs(b, p, EncodeAll(vs))
    ensures FieldsAt(schema, fields, b, p) == Got(vs, p + |EncodeAll(vs)|)
    decreases vs, 0
  {
    hide Occurs, DecodeAt, HasType, Encodable, Encode;
    if fields.MoreTys? {
      OccursSplit(b, p, Encode(vs.first), EncodeAll(vs.rest));
      DecodesEncoded(schema, fields.head, vs.first, b, p);
      FieldsEncoded(schema, fields.tail, vs.rest, b, p + |Encode(vs.first)|);
    }
  }

  /** A value is well typed, and its own encoding is exactly the bytes it was read from. */
  ghost predicate ReadCanonically(schema: Schema, ty: Ty, b: seq<byte>, p: nat, r: Read<Value>) {
    r.Got? ==>
      && HasType(schema, ty, r.value) && Encodable(r.value)
      && Occurs(b, p, Encode(r.value)) && r.next == p + |Encode(r.value)|
  }

  /** There is one encoding of each value: what is decoded re-encodes to the bytes it was
      decoded from, whatever the schema. */
  lemma {:induction false} DecodedReencodes(schema: Schema, ty: Ty, b: seq<byte>, p: nat)
    requires p <= |b|
    ensures ReadCanonically(schema, ty, b, p, DecodeAt(schema, ty, b, p))
    decreases |b| - p, ty, 0
  {
    hide Occurs, EncodeWord, ItemsAt, FieldsAt, TextAt, WordAt, AllHaveType, HaveTypes, EncodeAll, AllEncodable;
    if DecodeAt(schema, ty, b, p).Got? {
      match ty
      case UInt =>
        WordDecoded(b, p);
      case Text(max) =>
        TextDecoded(b, p, max);
      case List(max, element) =>
        WordDecoded(b, p);
        var count := WordAt(b, p).value;
        ItemsDecoded(schema, element, count, b, p + 4);
        var items := ItemsAt(schema, element, count, b, p + 4).value;
        OccursSplit(b, p, EncodeWord(count), EncodeAll(items));
      case Structure(fields) =>
        FieldsDecoded(schema, fields, b, p);
      case Union(number) =>
        WordDecoded(b, p);
        var d := WordAt(b, p).value;
        var arm := ArmOf(schema[number], d).value;
        DecodedReencodes(schema, arm, b, p + 4);
        OccursSplit(b, p, EncodeWord(d), Encode(DecodeAt(schema, arm, b, p + 4).value));
    }
  }

  lemma {:induction false} ItemsDecoded(schema: Schema, element: Ty, count: nat, b: seq<byte>, p: nat)
    requires p <= |b|
    ensures var r := ItemsAt(schema, element, count, b, p);
            r.Got? ==>
              && r.value.Count() == count && AllHaveType(schema, element, r.value) && AllEncodable(r.value)
              && Occurs(b, p, EncodeAll(r.value)) && r.next == p + |EncodeAll(r.value)|
    decreases |b| - p, element, count
  {
    hide Occurs, DecodeAt, HasType, Encodable, Encode;
    OccursNothing(b, p);
    if count > 0 && ItemsAt(schema, element, count, b, p).Got? {
      DecodedReencodes(schema, element, b, p);
      var Got(first, q) := DecodeAt(schema, element, b, p);
      ItemsDecoded(schema, element, count - 1, b, q);
      OccursSplit(b, p, Encode(first), EncodeAll(ItemsAt(schema, element, count - 1, b, q).value));
    }
  }

  lemma {:induction false} FieldsDecoded(schema: Schema, fields: Tys, b: seq<byte>, p: nat)
    requires p <= |b|
    ensures var r := FieldsAt(schema, fields, b, p);
            r.Got? ==>
              && HaveTypes(schema, fields, r.value) && AllEncodable(r.value)
              && Occurs(b, p, EncodeAll(r.value)) && r.next == p + |EncodeAll(r.value)|
    decreases |b| - p, fields, 0
  {
    hide Occurs, DecodeAt, HasType, Encodable, Encode;
    OccursNothing(b, p);
    if fields.MoreTys? && FieldsAt(schema, fields, b, p).Got? {
      DecodedReencodes(schema, fields.head, b, p);
      var Got(first, q) := DecodeAt(schema, fields.head, b, p);
      FieldsDecoded(schema, fields.tail, b, q);
      OccursSplit(b, p, Encode(first), EncodeAll(FieldsAt(schema, fields.tail, b, q).value));
    }
  }
}
