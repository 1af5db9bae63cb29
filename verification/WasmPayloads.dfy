/** The grammar of names and of import and export payloads (sections 5.2.4, 5.3, 5.5.5 and
    5.5.10 of the WebAssembly Core Specification), and the proof that the readers accept
    exactly it. */
module WasmPayloads {
  import opened Basics
  import opened Utf8
  import opened WasmSpec
  import opened WasmIntegers

  ghost predicate SpellsName(s: seq<byte>, name: string) {
    exists n, raw :: SpellsU32(n) && Base128(n) == |raw| && s == n + raw && TextOf(raw) == name
  }

  /** A flag and a minimum, or a flag, a minimum and a maximum. */
  ghost predicate SpellsLimits(s: seq<byte>) {
    (exists n :: SpellsU32(n) && s == [0] + n) || (exists n, m :: SpellsU32(n) && SpellsU32(m) && s == [1] + n + m)
  }

  ghost predicate SpellsDesc(s: seq<byte>, kind: ImportKind) {
    match kind
    case FunctionImport(index) => exists n :: SpellsU32(n) && Base128(n) == index && s == [0] + n
    case TableImport =>
      exists reference: byte, l :: reference in {0x70, 0x6f} && SpellsLimits(l) && s == [1, reference] + l
    case MemoryImport => exists l :: SpellsLimits(l) && s == [2] + l
    case GlobalImport => exists valueType: byte, mutability: byte :: s == [3, valueType, mutability]
    case TagImport => exists attribute: byte, n :: SpellsU32(n) && s == [4, attribute] + n
  }

  ghost predicate SpellsImport(s: seq<byte>, i: WasmImport) {
    exists m, f, desc :: SpellsName(m, i.module_) && SpellsName(f, i.field) && SpellsDesc(desc, i.kind)
      && s == m + f + desc
  }

  function KindOfExport(kind: ExportKind): byte {
    match kind
    case FunctionExport => 0
    case TableExport => 1
    case MemoryExport => 2
    case GlobalExport => 3
  }

  ghost predicate SpellsExport(s: seq<byte>, e: WasmExport) {
    exists m, n :: SpellsName(m, e.name) && SpellsU32(n) && s == m + [KindOfExport(e.kind)] + n
  }

  ghost predicate SpellsImports(s: seq<byte>, es: seq<WasmImport>)
    decreases |es|
  {
    if es == [] then s == []
    else exists first, rest :: SpellsImport(first, es[0]) && SpellsImports(rest, es[1..]) && s == first + rest
  }

  ghost predicate SpellsExports(s: seq<byte>, es: seq<WasmExport>)
    decreases |es|
  {
    if es == [] then s == []
    else exists first, rest :: SpellsExport(first, es[0]) && SpellsExports(rest, es[1..]) && s == first + rest
  }

  /** A name, and then anything. */
  ghost predicate CustomPayload(payload: seq<byte>) {
    exists s, name, contents :: SpellsName(s, name) && payload == s + contents
  }

  /** A count of at most 65536, as many entries, and then anything. */
  ghost predicate ImportPayload(payload: seq<byte>, es: seq<WasmImport>) {
    |es| <= 65536
    && exists n, entries, trailing ::
         SpellsU32(n) && Base128(n) == |es| && SpellsImports(entries, es) && payload == n + entries + trailing
  }

  ghost predicate ExportPayload(payload: seq<byte>, es: seq<WasmExport>) {
    |es| <= 65536
    && exists n, entries, trailing ::
         SpellsU32(n) && Base128(n) == |es| && SpellsExports(entries, es) && payload == n + entries + trailing
  }

  // ----- Readers that accept exactly a spelling -----

  /** `s` stands at `p` and ends at `q`. */
  ghost predicate From(b: seq<byte>, p: nat, q: nat, s: seq<byte>) {
    p <= q <= |b| && b[p..q] == s
  }

  lemma FromJoined(b: seq<byte>, p: nat, q: nat, first: seq<byte>, rest: seq<byte>)
    ensures From(b, p, q, first + rest) <==> From(b, p, p + |first|, first) && From(b, p + |first|, q, rest)
  {
    var k := p + |first|;
    if From(b, p, q, first + rest) {
      OccursSplit(b, p, first, rest);
    }
    if From(b, p, k, first) && From(b, k, q, rest) {
      OccursSplit(b, p, first, rest);
    }
  }

  lemma FromByte(b: seq<byte>, p: nat, x: byte)
    ensures From(b, p, p + 1, [x]) <==> p < |b| && b[p] == x
  {
    if p < |b| {
      assert b[p..p + 1] == [b[p]];
    }
  }

  lemma U32From(b: seq<byte>, p: nat, q: nat, n: seq<byte>)
    requires SpellsU32(n) && From(b, p, q, n)
    ensures U32At(b, p) == Got(Base128(n), q)
  {
    U32ReadExactly(b, p, Base128(n), q);
  }

  lemma U32Spelt(b: seq<byte>, p: nat) returns (n: seq<byte>)
    requires U32At(b, p).Got?
    ensures SpellsU32(n) && Base128(n) == U32At(b, p).value && From(b, p, U32At(b, p).next, n)
  {
    U32ReadExactly(b, p, U32At(b, p).value, U32At(b, p).next);
    n := b[p..U32At(b, p).next];
  }

  lemma NameFrom(b: seq<byte>, p: nat, q: nat, s: seq<byte>, name: string)
    requires SpellsName(s, name) && From(b, p, q, s)
    ensures NameAt(b, p) == Got(name, q)
  {
    hide SpellsU32, Base128, U32At, TextOf;
    var n, raw :| SpellsU32(n) && Base128(n) == |raw| && s == n + raw && TextOf(raw) == name;
    FromJoined(b, p, q, n, raw);
    U32From(b, p, p + |n|, n);
  }

  lemma NameSpelt(b: seq<byte>, p: nat) returns (s: seq<byte>)
    requires NameAt(b, p).Got?
    ensures SpellsName(s, NameAt(b, p).value) && From(b, p, NameAt(b, p).next, s)
  {
    hide SpellsU32, Base128, U32At, TextOf;
    var n := U32Spelt(b, p);
    var raw := TakeAt(b, U32At(b, p).next, U32At(b, p).value).value;
    s := n + raw;
    FromJoined(b, p, NameAt(b, p).next, n, raw);
  }

  lemma LimitsFrom(b: seq<byte>, p: nat, q: nat, s: seq<byte>)
    requires SpellsLimits(s) && From(b, p, q, s)
    ensures LimitsAt(b, p) == Got((), q)
  {
    hide SpellsU32, Base128, U32At, From;
    if n :| SpellsU32(n) && s == [0] + n {
      FromJoined(b, p, q, [0], n);
      FromByte(b, p, 0);
      U32From(b, p + 1, q, n);
    } else {
      var n, m :| SpellsU32(n) && SpellsU32(m) && s == [1] + n + m;
      FromJoined(b, p, q, [1] + n, m);
      FromJoined(b, p, p + |[1] + n|, [1], n);
      FromByte(b, p, 1);
      U32From(b, p + 1, p + 1 + |n|, n);
      U32From(b, p + 1 + |n|, q, m);
    }
  }

  lemma LimitsSpelt(b: seq<byte>, p: nat) returns (s: seq<byte>)
    requires LimitsAt(b, p).Got?
    ensures SpellsLimits(s) && From(b, p, LimitsAt(b, p).next, s)
  {
    hide SpellsU32, Base128, U32At, From;
    FromByte(b, p, b[p]);
    var n := U32Spelt(b, p + 1);
    var q := U32At(b, p + 1).next;
    FromJoined(b, p, q, [b[p]], n);
    s := [b[p]] + n;
    if b[p] == 1 {
      var m := U32Spelt(b, q);
      FromJoined(b, p, U32At(b, q).next, s, m);
      s := s + m;
    }
  }

  lemma DescFrom(b: seq<byte>, p: nat, q: nat, s: seq<byte>, kind: ImportKind)
    requires SpellsDesc(s, kind) && From(b, p, q, s)
    ensures ImportKindAt(b, p) == Got(kind, q)
  {
    hide SpellsU32, Base128, U32At, LimitsAt, SpellsLimits, From;
    match kind
    case FunctionImport(index) =>
      var n :| SpellsU32(n) && Base128(n) == index && s == [0] + n;
      FromJoined(b, p, q, [0], n);
      FromByte(b, p, 0);
      U32From(b, p + 1, q, n);
    case TableImport =>
      var reference: byte, l :| reference in {0x70, 0x6f} && SpellsLimits(l) && s == [1, reference] + l;
      FromJoined(b, p, q, [1, reference], l);
      TwoBytes(b, p, 1, reference);
      LimitsFrom(b, p + 2, q, l);
    case MemoryImport =>
      var l :| SpellsLimits(l) && s == [2] + l;
      FromJoined(b, p, q, [2], l);
      FromByte(b, p, 2);
      LimitsFrom(b, p + 1, q, l);
    case GlobalImport =>
      var valueType: byte, mutability: byte :| s == [3, valueType, mutability];
      assert s == [3, valueType] + [mutability];
      FromJoined(b, p, q, [3, valueType], [mutability]);
      TwoBytes(b, p, 3, valueType);
      FromEnd(b, p + 2, q, [mutability]);
      FromByte(b, p + 2, mutability);
    case TagImport =>
      var attribute: byte, n :| SpellsU32(n) && s == [4, attribute] + n;
      FromJoined(b, p, q, [4, attribute], n);
      TwoBytes(b, p, 4, attribute);
      U32From(b, p + 2, q, n);
  }

  lemma TwoBytes(b: seq<byte>, p: nat, x: byte, y: byte)
    ensures From(b, p, p + 2, [x, y]) <==> p + 1 < |b| && b[p] == x && b[p + 1] == y
  {
    if p + 1 < |b| {
      assert b[p..p + 2] == [b[p], b[p + 1]];
    }
  }

  lemma FromEnd(b: seq<byte>, p: nat, q: nat, s: seq<byte>)
    requires From(b, p, q, s)
    ensures q == p + |s| <= |b|
  {
  }

  lemma DescSpelt(b: seq<byte>, p: nat) returns (s: seq<byte>)
    requires ImportKindAt(b, p).Got?
    ensures SpellsDesc(s, ImportKindAt(b, p).value) && From(b, p, ImportKindAt(b, p).next, s)
  {
    hide SpellsU32, Base128, U32At, LimitsAt, SpellsLimits, From;
    var kind, q := ImportKindAt(b, p).value, ImportKindAt(b, p).next;
    match kind
    case FunctionImport(_) =>
      FromByte(b, p, 0);
      var n := U32Spelt(b, p + 1);
      FromJoined(b, p, q, [0], n);
      s := [0] + n;
    case TableImport =>
      TwoBytes(b, p, 1, b[p + 1]);
      var l := LimitsSpelt(b, p + 2);
      FromJoined(b, p, q, [1, b[p + 1]], l);
      s := [1, b[p + 1]] + l;
    case MemoryImport =>
      FromByte(b, p, 2);
      var l := LimitsSpelt(b, p + 1);
      FromJoined(b, p, q, [2], l);
      s := [2] + l;
    case GlobalImport =>
      TwoBytes(b, p, 3, b[p + 1]);
      FromByte(b, p + 2, b[p + 2]);
      FromJoined(b, p, q, [3, b[p + 1]], [b[p + 2]]);
      s := [3, b[p + 1]] + [b[p + 2]];
      assert s == [3, b[p + 1], b[p + 2]];
    case TagImport =>
      TwoBytes(b, p, 4, b[p + 1]);
      var n := U32Spelt(b, p + 2);
      FromJoined(b, p, q, [4, b[p + 1]], n);
      s := [4, b[p + 1]] + n;
  }

  lemma ImportFrom(b: seq<byte>, p: nat, q: nat, s: seq<byte>, i: WasmImport)
    requires SpellsImport(s, i) && From(b, p, q, s)
    ensures ImportAt(b, p) == Got(i, q)
  {
    hide NameAt, ImportKindAt, SpellsName, SpellsDesc, From;
    var m, f, desc :| SpellsName(m, i.module_) && SpellsName(f, i.field) && SpellsDesc(desc, i.kind)
                      && s == m + f + desc;
    FromJoined(b, p, q, m + f, desc);
    FromJoined(b, p, p + |m + f|, m, f);
    NameFrom(b, p, p + |m|, m, i.module_);
    NameFrom(b, p + |m|, p + |m + f|, f, i.field);
    DescFrom(b, p + |m + f|, q, desc, i.kind);
  }

  lemma ImportSpelt(b: seq<byte>, p: nat) returns (s: seq<byte>)
    requires ImportAt(b, p).Got?
    ensures SpellsImport(s, ImportAt(b, p).value) && From(b, p, ImportAt(b, p).next, s)
  {
    hide NameAt, ImportKindAt, SpellsName, SpellsDesc, From;
    var m := NameSpelt(b, p);
    var q := NameAt(b, p).next;
    var f := NameSpelt(b, q);
    var q1 := NameAt(b, q).next;
    var desc := DescSpelt(b, q1);
    FromEnd(b, p, q, m);
    FromEnd(b, q, q1, f);
    FromJoined(b, p, q1, m, f);
    FromJoined(b, p, ImportAt(b, p).next, m + f, desc);
    s := m + f + desc;
  }

  lemma ExportFrom(b: seq<byte>, p: nat, q: nat, s: seq<byte>, e: WasmExport)
    requires SpellsExport(s, e) && From(b, p, q, s)
    ensures ExportAt(b, p) == Got(e, q)
  {
    hide NameAt, U32At, SpellsName, SpellsU32, Base128, From;
    var kind := KindOfExport(e.kind);
    var m, n :| SpellsName(m, e.name) && SpellsU32(n) && s == m + [KindOfExport(e.kind)] + n;
    FromJoined(b, p, q, m + [kind], n);
    FromJoined(b, p, p + |m + [kind]|, m, [kind]);
    NameFrom(b, p, p + |m|, m, e.name);
    FromByte(b, p + |m|, kind);
    U32From(b, p + |m| + 1, q, n);
  }

  lemma ExportSpelt(b: seq<byte>, p: nat) returns (s: seq<byte>)
    requires ExportAt(b, p).Got?
    ensures SpellsExport(s, ExportAt(b, p).value) && From(b, p, ExportAt(b, p).next, s)
  {
    hide NameAt, U32At, SpellsName, SpellsU32, Base128, From;
    var e := ExportAt(b, p).value;
    var m := NameSpelt(b, p);
    var q := NameAt(b, p).next;
    var kind := KindOfExport(e.kind);
    FromEnd(b, p, q, m);
    FromByte(b, q, kind);
    var n := U32Spelt(b, q + 1);
    FromJoined(b, p, q + 1, m, [kind]);
    FromJoined(b, p, ExportAt(b, p).next, m + [kind], n);
    s := m + [kind] + n;
  }

  lemma {:induction false} ImportsFrom(b: seq<byte>, p: nat, q: nat, s: seq<byte>, es: seq<WasmImport>)
    requires SpellsImports(s, es) && From(b, p, q, s)
    ensures ImportsAt(b, p, |es|) == Got(es, q)
    decreases |es|
  {
    hide ImportAt, SpellsImport, From;
    if es == [] {
      FromEnd(b, p, q, s);
    } else {
      var first, rest :| SpellsImport(first, es[0]) && SpellsImports(rest, es[1..]) && s == first + rest;
      FromJoined(b, p, q, first, rest);
      ImportFrom(b, p, p + |first|, first, es[0]);
      ImportsFrom(b, p + |first|, q, rest, es[1..]);
      assert es == [es[0]] + es[1..];
    }
  }

  lemma {:induction false} ImportsSpelt(b: seq<byte>, p: nat, count: nat) returns (s: seq<byte>)
    requires p <= |b| && ImportsAt(b, p, count).Got?
    ensures SpellsImports(s, ImportsAt(b, p, count).value) && From(b, p, ImportsAt(b, p, count).next, s)
    decreases count
  {
    hide ImportAt, SpellsImport, From;
    if count == 0 {
      s := [];
      FromNothing(b, p);
    } else {
      var first := ImportSpelt(b, p);
      var q := ImportAt(b, p).next;
      FromEnd(b, p, q, first);
      var rest := ImportsSpelt(b, q, count - 1);
      var es := ImportsAt(b, p, count).value;
      assert es[1..] == ImportsAt(b, q, count - 1).value;
      FromJoined(b, p, ImportsAt(b, p, count).next, first, rest);
      s := first + rest;
    }
  }

  lemma FromNothing(b: seq<byte>, p: nat)
    requires p <= |b|
    ensures From(b, p, p, [])
  {
  }

  lemma {:induction false} ExportsFrom(b: seq<byte>, p: nat, q: nat, s: seq<byte>, es: seq<WasmExport>)
    requires SpellsExports(s, es) && From(b, p, q, s)
    ensures ExportsAt(b, p, |es|) == Got(es, q)
    decreases |es|
  {
    hide ExportAt, SpellsExport, From;
    if es == [] {
      FromEnd(b, p, q, s);
    } else {
      var first, rest :| SpellsExport(first, es[0]) && SpellsExports(rest, es[1..]) && s == first + rest;
      FromJoined(b, p, q, first, rest);
      ExportFrom(b, p, p + |first|, first, es[0]);
      ExportsFrom(b, p + |first|, q, rest, es[1..]);
      assert es == [es[0]] + es[1..];
    }
  }

  lemma {:induction false} ExportsSpelt(b: seq<byte>, p: nat, count: nat) returns (s: seq<byte>)
    requires p <= |b| && ExportsAt(b, p, count).Got?
    ensures SpellsExports(s, ExportsAt(b, p, count).value) && From(b, p, ExportsAt(b, p, count).next, s)
    decreases count
  {
    hide ExportAt, SpellsExport, From;
    if count == 0 {
      s := [];
      FromNothing(b, p);
    } else {
      var first := ExportSpelt(b, p);
      var q := ExportAt(b, p).next;
      FromEnd(b, p, q, first);
      var rest := ExportsSpelt(b, q, count - 1);
      var es := ExportsAt(b, p, count).value;
      assert es[1..] == ExportsAt(b, q, count - 1).value;
      FromJoined(b, p, ExportsAt(b, p, count).next, first, rest);
      s := first + rest;
    }
  }

  lemma FromWhole(b: seq<byte>, first: seq<byte>, second: seq<byte>, third: seq<byte>)
    ensures b == first + second + third
            <==> From(b, 0, |first|, first) && From(b, |first|, |first| + |second|, second)
                 && From(b, |first| + |second|, |b|, third)
  {
    FromJoined(b, 0, |b|, first + second, third);
    FromJoined(b, 0, |first + second|, first, second);
    assert b[0..|b|] == b;
  }

  /** The import reader accepts exactly its payload grammar and returns what is spelled. */
  lemma ImportPayloadIff(payload: seq<byte>, es: seq<WasmImport>)
    ensures ImportSectionOf(payload) == Ok(es) <==> ImportPayload(payload, es)
  {
    hide SpellsU32, Base128, U32At, ImportsAt, SpellsImports, From;
    if ImportSectionOf(payload) == Ok(es) {
      var n := U32Spelt(payload, 0);
      var p := U32At(payload, 0).next;
      var entries := ImportsSpelt(payload, p, |es|);
      var q := ImportsAt(payload, p, |es|).next;
      FromEnd(payload, 0, p, n);
      FromEnd(payload, p, q, entries);
      FromRest(payload, q);
      FromWhole(payload, n, entries, payload[q..]);
    }
    if ImportPayload(payload, es) {
      var n, entries, trailing :|
        SpellsU32(n) && Base128(n) == |es| && SpellsImports(entries, es) && payload == n + entries + trailing;
      FromWhole(payload, n, entries, trailing);
      U32From(payload, 0, |n|, n);
      ImportsFrom(payload, |n|, |n| + |entries|, entries, es);
    }
  }

  lemma FromRest(b: seq<byte>, q: nat)
    requires q <= |b|
    ensures From(b, q, |b|, b[q..])
  {
  }

  lemma ExportPayloadIff(payload: seq<byte>, es: seq<WasmExport>)
    ensures ExportSectionOf(payload) == Ok(es) <==> ExportPayload(payload, es)
  {
    hide SpellsU32, Base128, U32At, ExportsAt, SpellsExports, From;
    if ExportSectionOf(payload) == Ok(es) {
      var n := U32Spelt(payload, 0);
      var p := U32At(payload, 0).next;
      var entries := ExportsSpelt(payload, p, |es|);
      var q := ExportsAt(payload, p, |es|).next;
      FromEnd(payload, 0, p, n);
      FromEnd(payload, p, q, entries);
      FromRest(payload, q);
      FromWhole(payload, n, entries, payload[q..]);
    }
    if ExportPayload(payload, es) {
      var n, entries, trailing :|
        SpellsU32(n) && Base128(n) == |es| && SpellsExports(entries, es) && payload == n + entries + trailing;
      FromWhole(payload, n, entries, trailing);
      U32From(payload, 0, |n|, n);
      ExportsFrom(payload, |n|, |n| + |entries|, entries, es);
    }
  }

  /** A name can be read from the front of a payload exactly when the payload begins with
      the spelling of one. */
  lemma NamedIff(payload: seq<byte>)
    ensures NameAt(payload, 0).Got? <==> CustomPayload(payload)
  {
    hide NameAt, SpellsName, From;
    if NameAt(payload, 0).Got? {
      var s := NameSpelt(payload, 0);
      var q := NameAt(payload, 0).next;
      FromEnd(payload, 0, q, s);
      FromRest(payload, q);
      FromWhole(payload, s, [], payload[q..]);
      FromNothing(payload, q);
      assert payload == s + payload[q..];
    }
    if s, name, contents :| SpellsName(s, name) && payload == s + contents {
      FromNothing(payload, |s|);
      assert s + [] + contents == s + contents;
      FromWhole(payload, s, [], contents);
      NameFrom(payload, 0, |s|, s, name);
    }
  }
}
