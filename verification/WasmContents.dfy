/** What is read of any accepted module, in terms of the sections that spell it. */
module WasmContents {
  import opened Basics
  import opened WasmSpec
  import opened WasmIntegers
  import opened WasmFraming
  import opened WasmPayloads
  import opened WasmGrammar

  /** A custom section with a name, and what follows the name. */
  ghost predicate Named(f: Frame, name: string, contents: seq<byte>) {
    f.kind == Custom && exists s :: SpellsName(s, name) && f.payload == s + contents
  }

  ghost predicate HasName(f: Frame, name: string) {
    exists contents :: Named(f, name, contents)
  }

  /** What is listed of a section. */
  ghost predicate SectionSays(x: WasmSection, f: Frame) {
    && x.kind == f.kind && x.payloadLen == |f.payload|
    && if f.kind == Custom then x.name.Some? && HasName(f, x.name.value) else x.name.None?
  }

  /** The contents of the first custom section of a name. */
  ghost predicate FirstNamed(fs: seq<Frame>, name: string, contents: seq<byte>) {
    exists i :: 0 <= i < |fs| && Named(fs[i], name, contents) && forall j :: 0 <= j < i ==> !HasName(fs[j], name)
  }

  ghost predicate NoneOf(fs: seq<Frame>, kind: SectionKind) {
    forall i :: 0 <= i < |fs| ==> fs[i].kind != kind
  }

  /** Every section is listed; the imports and exports are those of the one section of the
      kind; and the two known payloads are those of the first section of the name. */
  ghost predicate Reads(m: Contents, fs: seq<Frame>) {
    && |m.sections| == |fs| && (forall i :: 0 <= i < |fs| ==> SectionSays(m.sections[i], fs[i]))
    && (forall f :: f in fs && f.kind == Import ==> ImportPayload(f.payload, m.imports))
    && (NoneOf(fs, Import) ==> m.imports == [])
    && (forall f :: f in fs && f.kind == Export ==> ExportPayload(f.payload, m.exports))
    && (NoneOf(fs, Export) ==> m.exports == [])
    && (forall c :: m.specSection == Some(c) <==> FirstNamed(fs, "contractspecv0", c))
    && (forall c :: m.envMetaSection == Some(c) <==> FirstNamed(fs, "contractenvmetav0", c))
  }

  // ----- One section -----

  lemma NamedOnly(f: Frame, name: string, contents: seq<byte>)
    ensures Named(f, name, contents)
            <==> && f.kind == Custom && NameAt(f.payload, 0).Got? && NameAt(f.payload, 0).value == name
                 && contents == f.payload[NameAt(f.payload, 0).next..]
  {
    hide NameAt, SpellsName;
    if Named(f, name, contents) {
      var s :| SpellsName(s, name) && f.payload == s + contents;
      assert f.payload[0..|s|] == s;
      NameFrom(f.payload, 0, |s|, s, name);
      assert f.payload[|s|..] == contents;
    }
    if f.kind == Custom && NameAt(f.payload, 0).Got? {
      var q := NameAt(f.payload, 0).next;
      var s := NameSpelt(f.payload, 0);
      assert f.payload == s + f.payload[q..];
    }
  }

  /** What one section changes of what was read before it. */
  ghost predicate Grows(before: Contents, f: Frame, after: Contents) {
    && |after.sections| == |before.sections| + 1 && after.sections[..|before.sections|] == before.sections
    && SectionSays(after.sections[|before.sections|], f)
    && (if f.kind == Import then ImportPayload(f.payload, after.imports) else after.imports == before.imports)
    && (if f.kind == Export then ExportPayload(f.payload, after.exports) else after.exports == before.exports)
    && KeepsFirst(before.specSection, f, "contractspecv0", after.specSection)
    && KeepsFirst(before.envMetaSection, f, "contractenvmetav0", after.envMetaSection)
  }

  ghost predicate KeepsFirst(before: Option<seq<byte>>, f: Frame, name: string, after: Option<seq<byte>>) {
    if before.Some? then after == before else forall c :: after == Some(c) <==> Named(f, name, c)
  }

  lemma AdmittedGrows(acc: Contents, f: Frame, offset: nat)
    requires Admit(acc, f, offset).Ok?
    ensures Grows(acc, f, Admit(acc, f, offset).value)
  {
    hide NameAt, ImportSectionOf, ExportSectionOf, Seen, Named, ImportPayload, ExportPayload;
    forall name, c
      ensures Named(f, name, c)
              <==> && f.kind == Custom && NameAt(f.payload, 0).Got? && NameAt(f.payload, 0).value == name
                   && c == f.payload[NameAt(f.payload, 0).next..]
    {
      NamedOnly(f, name, c);
    }
    if f.kind == Custom {
      CustomGrows(acc, f, offset);
    } else {
      var after := Admit(acc, f, offset).value;
      ImportPayloadIff(f.payload, after.imports);
      ExportPayloadIff(f.payload, after.exports);
    }
  }

  lemma CustomGrows(acc: Contents, f: Frame, offset: nat)
    requires Admit(acc, f, offset).Ok? && f.kind == Custom
    requires forall name, c ::
               Named(f, name, c)
               <==> && NameAt(f.payload, 0).Got? && NameAt(f.payload, 0).value == name
                    && c == f.payload[NameAt(f.payload, 0).next..]
    ensures Grows(acc, f, Admit(acc, f, offset).value)
  {
    hide NameAt, Named;
    var Got(name, q) := NameAt(f.payload, 0);
    assert Named(f, name, f.payload[q..]);
    assert |CONTRACT_SPEC_SECTION| != |CONTRACT_ENV_META_SECTION|;
  }

  // ----- All sections -----

  ghost predicate KeepsFirstOf(before: Option<seq<byte>>, fs: seq<Frame>, name: string, after: Option<seq<byte>>) {
    if before.Some? then after == before else forall c :: after == Some(c) <==> FirstNamed(fs, name, c)
  }

  ghost predicate ListsAfter(before: seq<WasmSection>, fs: seq<Frame>, after: seq<WasmSection>) {
    && |after| == |before| + |fs| && after[..|before|] == before
    && forall i :: 0 <= i < |fs| ==> SectionSays(after[|before| + i], fs[i])
  }

  /** What the sections after some others add to what was read of those. */
  ghost predicate ReadsAfter(acc: Contents, m: Contents, fs: seq<Frame>) {
    && ListsAfter(acc.sections, fs, m.sections)
    && (forall f :: f in fs && f.kind == Import ==> ImportPayload(f.payload, m.imports))
    && (NoneOf(fs, Import) ==> m.imports == acc.imports)
    && (forall f :: f in fs && f.kind == Export ==> ExportPayload(f.payload, m.exports))
    && (NoneOf(fs, Export) ==> m.exports == acc.exports)
    && KeepsFirstOf(acc.specSection, fs, "contractspecv0", m.specSection)
    && KeepsFirstOf(acc.envMetaSection, fs, "contractenvmetav0", m.envMetaSection)
  }

  lemma FirstNamedSplit(f: Frame, rest: seq<Frame>, name: string, c: seq<byte>)
    ensures FirstNamed([f] + rest, name, c) <==> Named(f, name, c) || (!HasName(f, name) && FirstNamed(rest, name, c))
  {
    hide Named;
    var fs := [f] + rest;
    if FirstNamed(fs, name, c) {
      var i :| 0 <= i < |fs| && Named(fs[i], name, c) && forall j :: 0 <= j < i ==> !HasName(fs[j], name);
      if i > 0 {
        assert !HasName(fs[0], name) && rest[i - 1] == fs[i];
        assert forall j :: 0 <= j < i - 1 ==> rest[j] == fs[j + 1];
      }
    }
    if Named(f, name, c) {
      assert fs[0] == f;
    }
    if !HasName(f, name) && FirstNamed(rest, name, c) {
      var i :| 0 <= i < |rest| && Named(rest[i], name, c) && forall j :: 0 <= j < i ==> !HasName(rest[j], name);
      assert fs[i + 1] == rest[i];
      assert forall j :: 1 <= j < i + 1 ==> fs[j] == rest[j - 1];
    }
  }

  lemma FirstKept(
    before: Option<seq<byte>>, f: Frame, name: string, mid: Option<seq<byte>>, rest: seq<Frame>,
    after: Option<seq<byte>>)
    requires KeepsFirst(before, f, name, mid) && KeepsFirstOf(mid, rest, name, after)
    ensures KeepsFirstOf(before, [f] + rest, name, after)
  {
    hide Named, FirstNamed;
    if before.None? {
      forall c ensures after == Some(c) <==> FirstNamed([f] + rest, name, c) {
        FirstNamedSplit(f, rest, name, c);
        if mid.Some? {
          assert Named(f, name, mid.value);
        } else {
          forall d ensures !Named(f, name, d) {
            assert mid != Some(d);
          }
        }
      }
    }
  }

  lemma ListsOneMore(
    before: seq<WasmSection>, f: Frame, mid: seq<WasmSection>, rest: seq<Frame>, after: seq<WasmSection>)
    requires |mid| == |before| + 1 && mid[..|before|] == before && SectionSays(mid[|before|], f)
    requires ListsAfter(mid, rest, after)
    ensures ListsAfter(before, [f] + rest, after)
  {
    hide SectionSays;
    var n, fs := |before|, [f] + rest;
    assert after[..n] == after[..n + 1][..n] == before;
    assert after[n] == after[..n + 1][n] == mid[n];
    forall i | 0 <= i < |fs| ensures SectionSays(after[n + i], fs[i]) {
      if i > 0 {
        assert fs[i] == rest[i - 1] && after[n + i] == after[|mid| + (i - 1)];
      }
    }
  }

  lemma GrowsThenReads(acc: Contents, f: Frame, mid: Contents, rest: seq<Frame>, m: Contents)
    requires Grows(acc, f, mid) && ReadsAfter(mid, m, rest)
    requires (f.kind == Import ==> NoneOf(rest, Import)) && (f.kind == Export ==> NoneOf(rest, Export))
    ensures ReadsAfter(acc, m, [f] + rest)
  {
    hide SectionSays, ImportPayload, ExportPayload, KeepsFirst, KeepsFirstOf, ListsAfter;
    var fs := [f] + rest;
    ListsOneMore(acc.sections, f, mid.sections, rest, m.sections);
    FirstKept(acc.specSection, f, "contractspecv0", mid.specSection, rest, m.specSection);
    FirstKept(acc.envMetaSection, f, "contractenvmetav0", mid.envMetaSection, rest, m.envMetaSection);
    NoneSplit(f, rest, Import);
    NoneSplit(f, rest, Export);
    hide NoneOf;
    forall g ensures g in fs <==> g == f || g in rest {
    }
  }

  lemma NoneSplit(f: Frame, rest: seq<Frame>, kind: SectionKind)
    ensures NoneOf([f] + rest, kind) <==> f.kind != kind && NoneOf(rest, kind)
    ensures NoneOf(rest, kind) ==> forall g :: g in rest ==> g.kind != kind
  {
    var fs := [f] + rest;
    assert fs[0] == f && forall i :: 0 <= i < |rest| ==> fs[i + 1] == rest[i];
  }

  lemma NothingAfter(acc: Contents)
    ensures ReadsAfter(acc, acc, [])
  {
  }

  lemma NotAgain(sections: seq<WasmSection>, fs: seq<Frame>, kind: SectionKind)
    requires Follows(sections, fs) && fs != [] && kind != Custom
    ensures fs[0].kind == kind ==> NoneOf(fs[1..], kind)
  {
    hide Decodable, Seen;
    FollowsIff(sections, fs);
  }

  lemma {:induction false} WalkReads(b: seq<byte>, p: nat, acc: Contents, fs: seq<Frame>)
    requires p <= |b| && SpellsSections(b[p..], fs) && Follows(acc.sections, fs)
    ensures Walk(b, p, acc).Ok? && ReadsAfter(acc, Walk(b, p, acc).value, fs)
    decreases |fs|
  {
    hide FrameAt, Admit, SpellsSection, Decodable, Seen, ReadsAfter, Grows, NoneOf;
    if fs == [] {
      NothingAfter(acc);
    } else {
      var k :| 0 <= k <= |b[p..]| && SpellsSection(b[p..][..k], fs[0]) && SpellsSections(b[p..][k..], fs[1..]);
      var q := p + k;
      assert b[p..][..k] == b[p..q] && b[p..][k..] == b[q..];
      SpelledIsLong(b[p..q], fs[0]);
      FrameReadExactly(b, p, fs[0], q);
      AdmitIff(acc, fs[0], p);
      SameAfter(acc, fs[0], p, fs[1..]);
      var grown := Admit(acc, fs[0], p).value;
      WalkReads(b, q, grown, fs[1..]);
      AdmittedGrows(acc, fs[0], p);
      NotAgain(acc.sections, fs, Import);
      NotAgain(acc.sections, fs, Export);
      GrowsThenReads(acc, fs[0], grown, fs[1..], Walk(b, q, grown).value);
      assert fs == [fs[0]] + fs[1..];
    }
  }

  /** Whatever sections spell an accepted module, what is read of it is what they hold:
      every one listed in order with its kind, name and length, the imports and exports in
      full, and the payloads of the first specification and the first environment
      section after their names. */
  lemma ParsedReads(b: seq<byte>, fs: seq<Frame>)
    requires Module(b, fs)
    ensures ParseModule(b).Ok? && Reads(ParseModule(b).value, fs)
  {
    hide Walk, SpellsSections, Follows, Decodable, SectionSays, FirstNamed, ImportPayload, ExportPayload;
    assert b[..4] == b[..8][..4] == WASM_MAGIC && b[4..8] == b[..8][4..] == WASM_VERSION;
    FollowsIff([], fs);
    WalkReads(b, 8, NOTHING, fs);
    var m := ParseModule(b).value;
    forall i | 0 <= i < |fs| ensures SectionSays(m.sections[i], fs[i]) {
      assert m.sections[|NOTHING.sections| + i] == m.sections[i];
    }
  }
}
