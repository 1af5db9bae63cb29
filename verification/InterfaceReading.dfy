/** What an interface says of the entries it was made of: everything but the fields the
    source drops. */
module InterfaceReading {
  import opened TypeNames
  import opened InterfaceSpec
  import opened Utf8
  import opened InterfaceOrder

  ghost predicate TypesWithin(ts: seq<TypeDef>, names: iset<string>) {
    forall i :: 0 <= i < |ts| ==> NamesWithin(ts[i], names)
  }

  /** Every type of the entry is built from user-defined types called by `names`, and a
      function has at most the one output the format allows. */
  ghost predicate EntryWithin(e: SpecEntry, names: iset<string>) {
    match e
    case FunctionV0(_, inputs, outputs, _) =>
      |outputs| <= 1 && TypesWithin(outputs, names)
        && forall i :: 0 <= i < |inputs| ==> NamesWithin(inputs[i].type_, names)
    case UdtStructV0(_, _, fields, _) => forall i :: 0 <= i < |fields| ==> NamesWithin(fields[i].type_, names)
    case UdtUnionV0(_, _, cases, _) =>
      forall i :: 0 <= i < |cases| && cases[i].TupleCase? ==> TypesWithin(cases[i].types, names)
    case UdtEnumV0(_, _, _, _) => true
    case UdtErrorEnumV0(_, _, _, _) => true
    case EventV0(_, _, _, params, _, _) => forall i :: 0 <= i < |params| ==> NamesWithin(params[i].type_, names)
  }

  ghost predicate SameCase(c: UnionCase, d: UnionCase) {
    c.name == d.name && (c.TupleCase? <==> d.TupleCase?) && (c.TupleCase? ==> c.types == d.types)
  }

  ghost predicate SameParam(p: EventParameter, q: EventParameter) {
    p.name == q.name && p.type_ == q.type_ && p.location == q.location
  }

  /** The same entry but for what the interface leaves out: the documentation of anything
      but functions, their inputs and events; an event's library and what precedes the
      marker in its name; and whether a function declares no output or the empty type. */
  ghost predicate SameButDropped(e: SpecEntry, f: SpecEntry) {
    match e
    case FunctionV0(name, inputs, outputs, doc) =>
      && f.FunctionV0? && f.name == name && f.inputs == inputs && f.doc == doc
      && (f.outputs == outputs || (f.outputs in {[], [Void]} && outputs in {[], [Void]}))
    case UdtStructV0(name, lib, fields, _) =>
      && f.UdtStructV0? && f.name == name && f.lib == lib && |f.fields| == |fields|
      && forall i :: 0 <= i < |fields| ==> f.fields[i].name == fields[i].name && f.fields[i].type_ == fields[i].type_
    case UdtUnionV0(name, lib, cases, _) =>
      && f.UdtUnionV0? && f.name == name && f.lib == lib && |f.cases| == |cases|
      && forall i :: 0 <= i < |cases| ==> SameCase(f.cases[i], cases[i])
    case UdtEnumV0(name, lib, values, _) =>
      && f.UdtEnumV0? && f.name == name && f.lib == lib && |f.values| == |values|
      && forall i :: 0 <= i < |values| ==> f.values[i].name == values[i].name && f.values[i].value == values[i].value
    case UdtErrorEnumV0(name, lib, values, _) =>
      && f.UdtErrorEnumV0? && f.name == name && f.lib == lib && |f.values| == |values|
      && forall i :: 0 <= i < |values| ==> f.values[i].name == values[i].name && f.values[i].value == values[i].value
    case EventV0(name, _, prefixTopics, params, dataFormat, doc) =>
      && f.EventV0? && AfterMarker(f.name, 0) == AfterMarker(name, 0) && f.prefixTopics == prefixTopics
      && f.dataFormat == dataFormat && f.doc == doc && |f.params| == |params|
      && forall i :: 0 <= i < |params| ==> SameParam(f.params[i], params[i])
  }

  lemma SameType(a: TypeDef, b: TypeDef, names: iset<string>)
    requires Unambiguous(names) && NamesWithin(a, names) && NamesWithin(b, names) && TypeName(a) == TypeName(b)
    ensures a == b
  {
    hide TypeName, NamesWithin, Unambiguous;
    assert TypeName(a) + "" == TypeName(a) && TypeName(b) + "" == TypeName(b);
    PrintedOnce(a, b, "", "", names);
  }

  lemma SameText(a: string, b: string)
    requires OptionalText(a) == OptionalText(b)
    ensures a == b
  {
  }

  lemma FunctionRead(e: SpecEntry, f: SpecEntry, names: iset<string>)
    requires Unambiguous(names) && e.FunctionV0? && f.FunctionV0? && EntryWithin(e, names) && EntryWithin(f, names)
    requires FunctionOf(e) == FunctionOf(f)
    ensures SameButDropped(e, f)
  {
    hide TypeName, NamesWithin, Unambiguous, OptionalText;
    var a, b := FunctionOf(e).inputs, FunctionOf(f).inputs;
    SameText(e.doc, f.doc);
    forall i | 0 <= i < |e.inputs| ensures e.inputs[i] == f.inputs[i] {
      assert a[i] == b[i];
      SameType(e.inputs[i].type_, f.inputs[i].type_, names);
      SameText(e.inputs[i].doc, f.inputs[i].doc);
    }
    VoidPrints();
    assert NamesWithin(Void, names) by {
      VoidWithin(names);
    }
    var out, out' := if e.outputs == [] then Void else e.outputs[0], if f.outputs == [] then Void else f.outputs[0];
    SameType(out, out', names);
    assert e.outputs == [] || e.outputs == [out];
    assert f.outputs == [] || f.outputs == [out'];
  }

  lemma VoidPrints()
    ensures TypeName(Void) == "void"
  {
  }

  lemma VoidWithin(names: iset<string>)
    ensures NamesWithin(Void, names)
  {
  }

  lemma StructRead(e: SpecEntry, f: SpecEntry, names: iset<string>)
    requires Unambiguous(names) && e.UdtStructV0? && f.UdtStructV0? && EntryWithin(e, names) && EntryWithin(f, names)
    requires StructOf(e) == StructOf(f)
    ensures SameButDropped(e, f)
  {
    hide TypeName, NamesWithin, Unambiguous, OptionalText;
    var a, b := StructOf(e).fields, StructOf(f).fields;
    assert |a| == |b|;
    SameText(e.lib, f.lib);
    forall i | 0 <= i < |e.fields|
      ensures f.fields[i].name == e.fields[i].name && f.fields[i].type_ == e.fields[i].type_
    {
      assert a[i] == b[i];
      SameType(e.fields[i].type_, f.fields[i].type_, names);
    }
  }

  lemma CaseRead(c: UnionCase, d: UnionCase, names: iset<string>)
    requires Unambiguous(names) && (c.TupleCase? ==> TypesWithin(c.types, names))
    requires (d.TupleCase? ==> TypesWithin(d.types, names))
    requires UnionCaseOf(c) == UnionCaseOf(d)
    ensures SameCase(c, d)
  {
    hide TypeName, NamesWithin, Unambiguous;
    assert UnionCaseOf(c).kind[0] == UnionCaseOf(d).kind[0];
    if c.TupleCase? && d.TupleCase? {
      var a, b := TypeNamesOf(c.types), TypeNamesOf(d.types);
      assert |a| == |b|;
      forall i | 0 <= i < |c.types| ensures c.types[i] == d.types[i] {
        assert a[i] == b[i];
        SameType(c.types[i], d.types[i], names);
      }
      assert c.types == d.types;
    }
  }

  lemma UnionRead(e: SpecEntry, f: SpecEntry, names: iset<string>)
    requires Unambiguous(names) && e.UdtUnionV0? && f.UdtUnionV0? && EntryWithin(e, names) && EntryWithin(f, names)
    requires UnionOf(e) == UnionOf(f)
    ensures SameButDropped(e, f)
  {
    hide NamesWithin, Unambiguous, OptionalText, UnionCaseOf, SameCase, TypesWithin;
    var a, b := UnionOf(e).cases, UnionOf(f).cases;
    assert |a| == |b|;
    SameText(e.lib, f.lib);
    forall i | 0 <= i < |e.cases| ensures SameCase(f.cases[i], e.cases[i]) {
      assert a[i] == b[i];
      CaseRead(f.cases[i], e.cases[i], names);
    }
  }

  lemma EnumRead(e: SpecEntry, f: SpecEntry)
    requires (e.UdtEnumV0? && f.UdtEnumV0?) || (e.UdtErrorEnumV0? && f.UdtErrorEnumV0?)
    requires EnumOf(e) == EnumOf(f)
    ensures SameButDropped(e, f)
  {
    hide OptionalText;
    var a, b := EnumOf(e).cases, EnumOf(f).cases;
    assert |a| == |b|;
    SameText(e.lib, f.lib);
    forall i | 0 <= i < |e.values|
      ensures f.values[i].name == e.values[i].name && f.values[i].value == e.values[i].value
    {
      assert a[i] == b[i];
    }
  }

  lemma EventRead(e: SpecEntry, f: SpecEntry, names: iset<string>)
    requires Unambiguous(names) && e.EventV0? && f.EventV0? && EntryWithin(e, names) && EntryWithin(f, names)
    requires EventOf(e) == EventOf(f)
    ensures SameButDropped(e, f)
  {
    hide TypeName, NamesWithin, Unambiguous, OptionalText, AfterMarker;
    var a, b := EventOf(e).params, EventOf(f).params;
    assert |a| == |b|;
    SameText(e.doc, f.doc);
    forall i | 0 <= i < |e.params| ensures SameParam(f.params[i], e.params[i]) {
      assert a[i] == b[i] && a[i].location[0] == b[i].location[0];
      SameType(e.params[i].type_, f.params[i].type_, names);
    }
    assert EventOf(e).dataFormat[0] == EventOf(f).dataFormat[0];
  }

  /** An entry's part of the interface says exactly which entry it was, but for what is
      dropped: two entries give the same part exactly when, read as text, they differ in
      nothing else. */
  lemma EntryReadIff(e: SpecEntry, f: SpecEntry, names: iset<string>)
    requires Unambiguous(names) && EntryWithin(Texts(e), names) && EntryWithin(Texts(f), names)
    ensures One(e) == One(f) <==> SameButDropped(Texts(e), Texts(f))
  {
    hide EntryWithin, Unambiguous, SameButDropped, AddTexts, Texts;
    if One(e) == One(f) {
      EntryRead(Texts(e), Texts(f), names);
    }
    if SameButDropped(Texts(e), Texts(f)) {
      DroppedMakesNoDifference(Texts(e), Texts(f));
    }
  }

  /** Two functions whose names are different bytes that are not UTF-8 are one in the
      interface. */
  lemma StrayNamesAlike(inputs: seq<Parameter>, outputs: seq<TypeDef>, doc: string)
    ensures One(FunctionV0([0xFF as char], inputs, outputs, doc))
            == One(FunctionV0([0xFE as char], inputs, outputs, doc))
  {
    hide Lossy;
    StrayBytesAlike();
  }

  lemma DroppedMakesNoDifference(e: SpecEntry, f: SpecEntry)
    requires SameButDropped(e, f)
    ensures Part(e) == Part(f)
  {
    hide TypeName, OptionalText, AfterMarker;
    match e
    case FunctionV0(_, _, _, _) =>
      VoidPrints();
      assert FunctionOf(e) == FunctionOf(f);
    case UdtStructV0(_, _, _, _) =>
      assert StructOf(e) == StructOf(f);
    case UdtUnionV0(_, _, _, _) =>
      assert UnionOf(e) == UnionOf(f);
    case UdtEnumV0(_, _, _, _) =>
      assert EnumOf(e) == EnumOf(f);
    case UdtErrorEnumV0(_, _, _, _) =>
      assert EnumOf(e) == EnumOf(f);
    case EventV0(_, _, _, _, _, _) =>
      assert EventOf(e) == EventOf(f);
  }

  /** A function that declares no output and one that declares the empty type are the same
      in the interface. */
  lemma VoidAndNothingAlike(name: string, inputs: seq<Parameter>, doc: string)
    ensures FunctionV0(name, inputs, [], doc) != FunctionV0(name, inputs, [Void], doc)
    ensures One(FunctionV0(name, inputs, [], doc)) == One(FunctionV0(name, inputs, [Void], doc))
  {
    var e, f := Texts(FunctionV0(name, inputs, [], doc)), Texts(FunctionV0(name, inputs, [Void], doc));
    assert e.outputs == [] && f.outputs == [Void];
    hide Texts;
    VoidPrints();
    assert FunctionOf(e) == FunctionOf(f);
  }

  /** The part of the interface made of an entry already read as text. */
  function Part(e: SpecEntry): ContractInterface {
    AddTexts(EMPTY_INTERFACE, e)
  }

  /** An entry's part of the interface says which entry it was, but for what is dropped:
      its kind, its names and its types can all be read from it. */
  lemma EntryRead(e: SpecEntry, f: SpecEntry, names: iset<string>)
    requires Unambiguous(names) && EntryWithin(e, names) && EntryWithin(f, names)
    requires Part(e) == Part(f)
    ensures SameButDropped(e, f)
  {
    hide FunctionOf, StructOf, UnionOf, EnumOf, EventOf, EntryWithin, Unambiguous, SameButDropped;
    KindRead(e, f);
    match e
    case FunctionV0(_, _, _, _) =>
      assert Part(e).functions[0] == Part(f).functions[0];
      FunctionRead(e, f, names);
    case UdtStructV0(_, _, _, _) =>
      assert Part(e).structs[0] == Part(f).structs[0];
      StructRead(e, f, names);
    case UdtUnionV0(_, _, _, _) =>
      assert Part(e).unions[0] == Part(f).unions[0];
      UnionRead(e, f, names);
    case UdtEnumV0(_, _, _, _) =>
      assert Part(e).enums[0] == Part(f).enums[0];
      EnumRead(e, f);
    case UdtErrorEnumV0(_, _, _, _) =>
      assert Part(e).errorEnums[0] == Part(f).errorEnums[0];
      EnumRead(e, f);
    case EventV0(_, _, _, _, _, _) =>
      assert Part(e).events[0] == Part(f).events[0];
      EventRead(e, f, names);
  }

  lemma KindRead(e: SpecEntry, f: SpecEntry)
    requires Part(e) == Part(f)
    ensures (e.FunctionV0? <==> f.FunctionV0?) && (e.UdtStructV0? <==> f.UdtStructV0?)
    ensures (e.UdtUnionV0? <==> f.UdtUnionV0?)
    ensures (e.UdtEnumV0? <==> f.UdtEnumV0?) && (e.UdtErrorEnumV0? <==> f.UdtErrorEnumV0?)
    ensures (e.EventV0? <==> f.EventV0?)
  {
    hide FunctionOf, StructOf, UnionOf, EnumOf, EventOf;
    assert |Part(e).functions| == if e.FunctionV0? then 1 else 0;
    assert |Part(f).functions| == if f.FunctionV0? then 1 else 0;
  }

  /** What a digest is computed over is the same exactly when the declarations are,
      whatever their order, given that names identify declarations. */
  lemma DigestFormIff(i: ContractInterface, j: ContractInterface)
    requires NamesIdentify(InputsSorted(i))
    ensures DigestForm(Canonicalise(i)) == DigestForm(Canonicalise(j))
            <==> SameDeclarations(InputsSorted(i), InputsSorted(j))
  {
    hide Canonicalise, NamesIdentify, InputsSorted;
    if SameDeclarations(InputsSorted(i), InputsSorted(j)) {
      CanonicalForgetsOrder(i, j);
    }
    CanonicaliseKeepsDeclarations(i);
    CanonicaliseKeepsDeclarations(j);
  }

  ghost predicate MarkerAt(whole: string, i: nat) {
    i + 7 <= |whole| && whole[i..i + 7] == "STELLAR"
  }

  /** An event keeps what follows the first marker in its name. */
  lemma {:induction false} NameAfterFirstMarker(whole: string, from: nat, i: nat)
    requires from <= i && MarkerAt(whole, i) && forall j :: from <= j < i ==> !MarkerAt(whole, j)
    ensures AfterMarker(whole, from) == whole[i + 7..]
    decreases |whole| - from
  {
    if from < i {
      assert !MarkerAt(whole, from);
      NameAfterFirstMarker(whole, from + 1, i);
    }
  }

  /** An event whose name holds no marker keeps its name. */
  lemma {:induction false} NameWithoutMarker(whole: string, from: nat)
    requires from <= |whole| && forall i :: from <= i ==> !MarkerAt(whole, i)
    ensures AfterMarker(whole, from) == whole
    decreases |whole| - from
  {
    assert !MarkerAt(whole, from);
    if from + 7 <= |whole| {
      NameWithoutMarker(whole, from + 1);
    }
  }
}
