/** Which byte strings the parser accepts, stated as a grammar rather than as a walk. */
module WasmGrammar {
  import opened Basics
  import opened WasmSpec
  import opened WasmIntegers
  import opened WasmFraming
  import opened WasmPayloads

  /** A section's spelling: its identifier, its payload's length, its payload. */
  ghost predicate SpellsSection(s: seq<byte>, f: Frame) {
    exists n: seq<byte> :: SpellsU32(n) && Base128(n) == |f.payload| && s == [f.kind.Id()] + n + f.payload
  }

  ghost predicate SpellsSections(s: seq<byte>, fs: seq<Frame>)
    decreases |fs|
  {
    if fs == [] then s == []
    else exists k :: 0 <= k <= |s| && SpellsSection(s[..k], fs[0]) && SpellsSections(s[k..], fs[1..])
  }

  /** A custom section's payload begins with a name, an import or export section's with its
      entries; any other payload may be anything. */
  ghost predicate Decodable(f: Frame) {
    && (f.kind == Custom ==> CustomPayload(f.payload))
    && (f.kind == Import ==> exists es :: ImportPayload(f.payload, es))
    && (f.kind == Export ==> exists es :: ExportPayload(f.payload, es))
  }

  lemma DecodableIff(f: Frame)
    ensures Decodable(f)
            <==> && (f.kind == Custom ==> NameAt(f.payload, 0).Got?)
                 && (f.kind == Import ==> ImportSectionOf(f.payload).Ok?)
                 && (f.kind == Export ==> ExportSectionOf(f.payload).Ok?)
  {
    hide NameAt, ImportSectionOf, ExportSectionOf, CustomPayload, ImportPayload, ExportPayload;
    NamedIff(f.payload);
    forall es ensures ImportSectionOf(f.payload) == Ok(es) <==> ImportPayload(f.payload, es) {
      ImportPayloadIff(f.payload, es);
    }
    forall es ensures ExportSectionOf(f.payload) == Ok(es) <==> ExportPayload(f.payload, es) {
      ExportPayloadIff(f.payload, es);
    }
    if ImportSectionOf(f.payload).Ok? {
      assert ImportPayload(f.payload, ImportSectionOf(f.payload).value);
    }
    if ExportSectionOf(f.payload).Ok? {
      assert ExportPayload(f.payload, ExportSectionOf(f.payload).value);
    }
  }

  ghost predicate KindsOnce(fs: seq<Frame>) {
    forall i, j :: 0 <= i < j < |fs| && fs[i].kind == fs[j].kind ==> fs[i].kind == Custom
  }

  ghost predicate Module(b: seq<byte>, fs: seq<Frame>) {
    && |b| >= 8 && b[..8] == [0x00, 0x61, 0x73, 0x6d, 0x01, 0x00, 0x00, 0x00]
    && SpellsSections(b[8..], fs)
    && KindsOnce(fs)
    && forall i :: 0 <= i < |fs| ==> Decodable(fs[i])
  }

  /** Section identifiers, as section 5.5.2 numbers them; no other is read. */
  const KINDS := [Custom, Type, Import, Function, Table, Memory, Global, Export, Start, Element, Code, Data, DataCount,
                  Tag]

  lemma IdOf(id: byte)
    ensures SectionKind.FromId(id) == if id < 14 then Some(KINDS[id]) else None
    ensures SectionKind.FromId(id).Some? ==> SectionKind.FromId(id).value.Id() == id
    ensures forall kind: SectionKind :: SectionKind.FromId(kind.Id()) == Some(kind)
  {
    forall kind: SectionKind ensures SectionKind.FromId(kind.Id()) == Some(kind) {
      KindRead(kind);
    }
  }

  lemma KindRead(kind: SectionKind)
    ensures SectionKind.FromId(kind.Id()) == Some(kind)
  {
    match kind
    case Custom => case Type => case Import => case Function => case Table => case Memory => case Global =>
    case Export => case Start => case Element => case Code => case Data => case DataCount => case Tag =>
  }

  /** A section is read at a position exactly when the bytes up to the next one spell it. */
  lemma FrameReadExactly(b: seq<byte>, p: nat, f: Frame, q: nat)
    ensures FrameAt(b, p) == Got(f, q) <==> p < q <= |b| && SpellsSection(b[p..q], f)
  {
    hide UnsignedAt, SpellsU32, Base128, SectionKind.FromId, SectionKind.Id;
    if FrameAt(b, p) == Got(f, q) {
      IdOf(b[p]);
      var start := U32At(b, p + 1).next;
      U32ReadExactly(b, p + 1, |f.payload|, start);
      assert b[p..q] == [b[p]] + b[p + 1..start] + b[start..q];
    }
    if p < q <= |b| && SpellsSection(b[p..q], f) {
      var s := b[p..q];
      var n: seq<byte> :| SpellsU32(n) && Base128(n) == |f.payload| && s == [f.kind.Id()] + n + f.payload;
      var start := p + 1 + |n|;
      IdOf(b[p]);
      assert b[p] == s[0];
      assert s[1..1 + |n|] == n && s[1 + |n|..] == f.payload;
      SliceOfSlice(b, p, q, 1, 1 + |n|);
      SliceOfSlice(b, p, q, 1 + |n|, q - p);
      SpellingNotEmpty(n);
      U32ReadExactly(b, p + 1, |f.payload|, start);
    }
  }

  lemma SliceOfSlice(b: seq<byte>, p: nat, q: nat, i: nat, j: nat)
    requires p <= q <= |b| && i <= j <= q - p
    ensures b[p..q][i..j] == b[p + i..p + j]
  {
    var s := b[p..q];
    forall k | 0 <= k < j - i ensures s[i..j][k] == b[p + i..p + j][k] {
      assert s[i..j][k] == s[i + k] == b[p + (i + k)];
    }
  }

  lemma SpellingNotEmpty(n: seq<byte>)
    requires SpellsU32(n)
    ensures |n| >= 1
  {
  }

  /** What may follow the sections already read. */
  ghost predicate Follows(sections: seq<WasmSection>, fs: seq<Frame>)
    decreases |fs|
  {
    fs == []
    || (&& Decodable(fs[0])
        && (fs[0].kind == Custom || !Seen(sections, fs[0].kind))
        && Follows(sections + [WasmSection(fs[0].kind, None, 0, 0)], fs[1..]))
  }

  lemma {:induction false} FollowsIff(sections: seq<WasmSection>, fs: seq<Frame>)
    ensures Follows(sections, fs)
            <==> && KindsOnce(fs)
                 && (forall i :: 0 <= i < |fs| ==>
                       Decodable(fs[i]) && (fs[i].kind == Custom || !Seen(sections, fs[i].kind)))
    decreases |fs|
  {
    hide Decodable;
    if fs != [] {
      var rest, grown := fs[1..], sections + [WasmSection(fs[0].kind, None, 0, 0)];
      FollowsIff(grown, rest);
      forall kind ensures Seen(grown, kind) <==> Seen(sections, kind) || kind == fs[0].kind {
        SeenAppended(sections, grown, kind);
      }
      assert forall i :: 0 < i < |fs| ==> fs[i] == rest[i - 1];
      assert forall i :: 0 <= i < |rest| ==> rest[i] == fs[i + 1];
    }
  }

  /** Only the kinds of the sections read matter to what may follow. */
  lemma {:induction false} OnlyKindsMatter(s: seq<WasmSection>, t: seq<WasmSection>, fs: seq<Frame>)
    requires forall kind :: Seen(s, kind) <==> Seen(t, kind)
    ensures Follows(s, fs) <==> Follows(t, fs)
  {
    FollowsIff(s, fs);
    FollowsIff(t, fs);
  }

  lemma AdmitIff(acc: Contents, f: Frame, offset: nat)
    ensures Admit(acc, f, offset).Ok? <==> Decodable(f) && (f.kind == Custom || !Seen(acc.sections, f.kind))
    ensures Admit(acc, f, offset).Ok? ==>
              forall kind :: Seen(Admit(acc, f, offset).value.sections, kind)
                <==> Seen(acc.sections, kind) || kind == f.kind
  {
    hide NameAt, ImportSectionOf, ExportSectionOf, Seen, Decodable;
    DecodableIff(f);
    if Admit(acc, f, offset).Ok? {
      var grown := Admit(acc, f, offset).value.sections;
      forall kind ensures Seen(grown, kind) <==> Seen(acc.sections, kind) || kind == f.kind {
        SeenAppended(acc.sections, grown, kind);
      }
    }
  }

  lemma {:induction false} WalkAcceptsOnly(b: seq<byte>, p: nat, acc: Contents) returns (fs: seq<Frame>)
    requires p <= |b| && Walk(b, p, acc).Ok?
    ensures SpellsSections(b[p..], fs) && Follows(acc.sections, fs)
    decreases |b| - p
  {
    hide FrameAt, Admit, SpellsSection, Decodable, Seen;
    if p == |b| {
      fs := [];
    } else {
      var Got(f, q) := FrameAt(b, p);
      var grown := Admit(acc, f, p).value;
      FrameReadExactly(b, p, f, q);
      var rest := WalkAcceptsOnly(b, q, grown);
      fs := [f] + rest;
      assert b[p..][..q - p] == b[p..q] && b[p..][q - p..] == b[q..];
      AdmitIff(acc, f, p);
      SameAfter(acc, f, p, rest);
    }
  }

  lemma SameAfter(acc: Contents, f: Frame, offset: nat, rest: seq<Frame>)
    requires Admit(acc, f, offset).Ok?
    ensures Follows(Admit(acc, f, offset).value.sections, rest)
            <==> Follows(acc.sections + [WasmSection(f.kind, None, 0, 0)], rest)
  {
    hide Admit, Seen, Follows;
    var grown := acc.sections + [WasmSection(f.kind, None, 0, 0)];
    AdmitIff(acc, f, offset);
    forall kind ensures Seen(grown, kind) <==> Seen(acc.sections, kind) || kind == f.kind {
      SeenAppended(acc.sections, grown, kind);
    }
    OnlyKindsMatter(Admit(acc, f, offset).value.sections, grown, rest);
  }

  lemma {:induction false} WalkAcceptsAll(b: seq<byte>, p: nat, acc: Contents, fs: seq<Frame>)
    requires p <= |b| && SpellsSections(b[p..], fs) && Follows(acc.sections, fs)
    ensures Walk(b, p, acc).Ok?
    decreases |fs|
  {
    hide FrameAt, Admit, SpellsSection, Decodable, Seen;
    if fs != [] {
      var k :| 0 <= k <= |b[p..]| && SpellsSection(b[p..][..k], fs[0]) && SpellsSections(b[p..][k..], fs[1..]);
      var q := p + k;
      assert b[p..][..k] == b[p..q] && b[p..][k..] == b[q..];
      SpelledIsLong(b[p..q], fs[0]);
      FrameReadExactly(b, p, fs[0], q);
      AdmitIff(acc, fs[0], p);
      SameAfter(acc, fs[0], p, fs[1..]);
      WalkAcceptsAll(b, q, Admit(acc, fs[0], p).value, fs[1..]);
    }
  }

  lemma SpelledIsLong(s: seq<byte>, f: Frame)
    requires SpellsSection(s, f)
    ensures |s| >= 2
  {
  }

  /** The parser accepts exactly the modules of the grammar: the header, then sections
      spelled one after the other to the very end, no kind but custom repeated, every
      custom section named and the import and export sections decodable. */
  lemma AcceptedIffInGrammar(b: seq<byte>)
    ensures ParseModule(b).Ok? <==> exists fs :: Module(b, fs)
  {
    hide Walk, Decodable, SpellsSections, Follows;
    if ParseModule(b).Ok? {
      assert b[..8] == b[..4] + b[4..8];
      var fs := WalkAcceptsOnly(b, 8, NOTHING);
      FollowsIff([], fs);
      assert Module(b, fs);
    }
    if exists fs :: Module(b, fs) {
      var fs :| Module(b, fs);
      assert b[..4] == b[..8][..4] == WASM_MAGIC && b[4..8] == b[..8][4..] == WASM_VERSION;
      FollowsIff([], fs);
      WalkAcceptsAll(b, 8, NOTHING, fs);
    }
  }
}
