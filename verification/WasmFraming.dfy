/** Properties of whole modules: every read depends only on the bytes it consumed,
    sections tile the module, truncation is detected, and the decoded entries are
    bounded by the module's size. */
module WasmFraming {
  import opened Basics
  import opened WasmSpec

  /** `c` agrees with `b` on the part of `[p, q)` it has. */
  ghost predicate Agrees(b: seq<byte>, c: seq<byte>, p: nat, q: nat) {
    && q <= |b|
    && forall i :: p <= i < q && i < |c| ==> b[i] == c[i]
  }

  /** The reader's outcome on `c`, given what it read on `b`: the same when `c` reaches as
      far, a failure when it does not. */
  ghost predicate Local<T(!new)>(onB: Read<T>, onC: Read<T>, c: seq<byte>) {
    onB.Got? ==> if onB.next <= |c| then onC == onB else onC.Fail?
  }

  lemma ByteLocal(b: seq<byte>, c: seq<byte>, p: nat)
    requires ByteAt(b, p).Got? ==> Agrees(b, c, p, ByteAt(b, p).next)
    ensures Local(ByteAt(b, p), ByteAt(c, p), c)
  {
  }

  lemma TakeLocal(b: seq<byte>, c: seq<byte>, p: nat, len: nat)
    requires TakeAt(b, p, len).Got? ==> Agrees(b, c, p, TakeAt(b, p, len).next)
    ensures Local(TakeAt(b, p, len), TakeAt(c, p, len), c)
  {
    if p + len <= |b| && p + len <= |c| {
      assert b[p..p + len] == c[p..p + len];
    }
  }

  lemma {:induction false} UnsignedLocal(b: seq<byte>, c: seq<byte>, p: nat, width: int)
    requires UnsignedAt(b, p, width).Got? ==> Agrees(b, c, p, UnsignedAt(b, p, width).next)
    ensures Local(UnsignedAt(b, p, width), UnsignedAt(c, p, width), c)
    decreases |b| - p
  {
    if UnsignedAt(b, p, width).Got? && p < |c| && b[p] >= 128 {
      UnsignedLocal(b, c, p + 1, width - 7);
    }
  }

  lemma U32Local(b: seq<byte>, c: seq<byte>, p: nat)
    requires U32At(b, p).Got? ==> Agrees(b, c, p, U32At(b, p).next)
    ensures Local(U32At(b, p), U32At(c, p), c)
  {
    UnsignedLocal(b, c, p, 32);
  }

  lemma FrameLocal(b: seq<byte>, c: seq<byte>, p: nat)
    requires FrameAt(b, p).Got? ==> Agrees(b, c, p, FrameAt(b, p).next)
    ensures Local(FrameAt(b, p), FrameAt(c, p), c)
  {
    if FrameAt(b, p).Got? {
      ByteLocal(b, c, p);
      if p < |c| {
        U32Local(b, c, p + 1);
        var len := U32At(b, p + 1);
        if len.next <= |c| {
          TakeLocal(b, c, len.next, len.value);
        }
      }
    }
  }

  // ----- Tiling -----

  /** The end of section `i`: the offset of the next one, or the end of the module. */
  function EndOf(sections: seq<WasmSection>, i: nat, size: nat): nat
    requires i < |sections|
  {
    if i + 1 < |sections| then sections[i + 1].offset else size
  }

  /** Section `i` starts with its identifier and ends with its payload, and between them
      stands the payload's length. */
  ghost predicate Framed(b: seq<byte>, s: WasmSection, end: nat) {
    && s.offset < |b|
    && b[s.offset] == s.kind.Id()
    && end <= |b|
    && s.offset + 2 <= end - s.payloadLen
    && U32At(b, s.offset + 1) == Got(s.payloadLen, end - s.payloadLen)
  }

  /** The sections from index `n` on tile the bytes from `p` to the end, in order and
      without a gap. */
  ghost predicate Tiles(b: seq<byte>, p: nat, sections: seq<WasmSection>, n: nat) {
    && n <= |sections| && p <= |b|
    && (if n == |sections| then p == |b| else sections[n].offset == p)
    && forall i :: n <= i < |sections| ==> Framed(b, sections[i], EndOf(sections, i, |b|))
  }

  /** A read section is framed from where it was read to the next position. */
  lemma FrameIsFramed(b: seq<byte>, p: nat, name: Option<string>)
    requires FrameAt(b, p).Got?
    ensures var Got(f, q) := FrameAt(b, p);
            Framed(b, WasmSection(f.kind, name, p, |f.payload|), q)
  {
  }

  lemma AdmitAppends(acc: Contents, f: Frame, offset: nat)
    requires Admit(acc, f, offset).Ok?
    ensures var name := if f.kind == Custom then Some(NameAt(f.payload, 0).value) else None;
            Admit(acc, f, offset).value.sections == acc.sections + [WasmSection(f.kind, name, offset, |f.payload|)]
    ensures f.kind == Custom ==> NameAt(f.payload, 0).Got?
  {
    hide NameAt, ImportSectionOf, ExportSectionOf;
  }

  /** What a successful walk adds to what it started from. */
  lemma {:induction false} WalkTiles(b: seq<byte>, p: nat, acc: Contents)
    requires p <= |b| && Walk(b, p, acc).Ok?
    ensures acc.sections <= Walk(b, p, acc).value.sections
    ensures Tiles(b, p, Walk(b, p, acc).value.sections, |acc.sections|)
    decreases |b| - p
  {
    hide FrameAt, Admit, Framed;
    if p < |b| {
      var Got(f, q) := FrameAt(b, p);
      var grown := Admit(acc, f, p).value;
      AdmitAppends(acc, f, p);
      WalkTiles(b, q, grown);
      var all, n := Walk(b, p, acc).value.sections, |acc.sections|;
      assert all[n] == grown.sections[n];
      FrameIsFramed(b, p, all[n].name);
      assert EndOf(all, n, |b|) == q;
    }
  }

  /** The sections of an accepted module tile bytes 8 to its size with no gap and no
      overlap, each holding its identifier, its length and its payload. */
  lemma SectionsTile(b: seq<byte>)
    requires ParseModule(b).Ok?
    ensures |b| >= 8 && Tiles(b, 8, ParseModule(b).value.sections, 0)
  {
    WalkTiles(b, 8, NOTHING);
  }

  // ----- Truncation -----

  /** `k` is where section number `n` would start: the offset of one that is there, or
      the end of the module. */
  ghost predicate Boundary(sections: seq<WasmSection>, size: nat, n: nat, k: nat) {
    n <= |sections| && k == if n == |sections| then size else sections[n].offset
  }

  lemma {:induction false} WalkPrefix(b: seq<byte>, p: nat, acc: Contents, k: nat)
    requires p <= k <= |b| && Walk(b, p, acc).Ok?
    ensures var all, cut := Walk(b, p, acc).value.sections, Walk(b[..k], p, acc);
            && (cut.Ok? <==> exists n :: |acc.sections| <= n && Boundary(all, |b|, n, k))
            && (cut.Ok? ==> cut.value.sections <= all && Boundary(all, |b|, |cut.value.sections|, k))
    decreases |b| - p
  {
    hide FrameAt, Admit, Framed;
    var all := Walk(b, p, acc).value.sections;
    var n := |acc.sections|;
    WalkTiles(b, p, acc);
    if p == k {
      assert Boundary(all, |b|, n, k);
    } else {
      var c := b[..k];
      var Got(f, q) := FrameAt(b, p);
      FrameLocal(b, c, p);
      var grown := Admit(acc, f, p).value;
      AdmitAppends(acc, f, p);
      WalkTiles(b, q, grown);
      if q <= k {
        WalkPrefix(b, q, grown, k);
        assert !Boundary(all, |b|, n, k);
      } else {
        forall m | n <= m ensures !Boundary(all, |b|, m, k) {
          if n < m && Boundary(all, |b|, m, k) {
            LaterSectionsStartLater(b, q, all, n + 1, m);
          }
        }
      }
    }
  }

  lemma {:induction false} LaterSectionsStartLater(b: seq<byte>, p: nat, sections: seq<WasmSection>, n: nat, m: nat)
    requires Tiles(b, p, sections, n) && n <= m <= |sections|
    ensures p <= if m == |sections| then |b| else sections[m].offset
    decreases m
  {
    hide Framed;
    if n < m {
      LaterSectionsStartLater(b, p, sections, n, m - 1);
      FramedEndsLater(b, sections[m - 1], EndOf(sections, m - 1, |b|));
    }
  }

  lemma FramedEndsLater(b: seq<byte>, s: WasmSection, end: nat)
    requires Framed(b, s, end)
    ensures s.offset < end <= |b|
  {
  }

  /** A prefix of an accepted module is accepted exactly when it ends between two
      sections, and then it has the sections before the cut and no others. */
  lemma TruncationIsDetected(b: seq<byte>, k: nat)
    requires ParseModule(b).Ok? && k <= |b|
    ensures var all, cut := ParseModule(b).value.sections, ParseModule(b[..k]);
            && (cut.Ok? <==> exists n :: 0 <= n && Boundary(all, |b|, n, k))
            && (cut.Ok? ==> exists n :: 0 <= n && Boundary(all, |b|, n, k) && cut.value.sections == all[..n])
  {
    var all := ParseModule(b).value.sections;
    WalkTiles(b, 8, NOTHING);
    if k < 8 {
      forall n | 0 <= n ensures !Boundary(all, |b|, n, k) {
        if n <= |all| {
          LaterSectionsStartLater(b, 8, all, 0, n);
        }
      }
    } else {
      assert b[..k][..4] == b[..4] && b[..k][4..8] == b[4..8];
      WalkPrefix(b, 8, NOTHING, k);
      var cut := ParseModule(b[..k]);
      if cut.Ok? {
        assert cut.value.sections == all[..|cut.value.sections|];
      }
    }
  }

  // ----- Uniqueness and size -----

  ghost predicate KindsUnique(sections: seq<WasmSection>) {
    forall i, j :: 0 <= i < j < |sections| && sections[i].kind == sections[j].kind ==> sections[i].kind == Custom
  }

  /** What every step of the walk keeps. */
  ghost predicate Bounded(acc: Contents, p: nat) {
    && KindsUnique(acc.sections)
    && (acc.imports != [] ==> Seen(acc.sections, Import))
    && (acc.exports != [] ==> Seen(acc.sections, Export))
    && |acc.imports| <= MAX_DECODED_ENTRIES
    && |acc.exports| <= MAX_DECODED_ENTRIES
    && 8 + 2 * |acc.sections| + 4 * |acc.imports| + 3 * |acc.exports| <= p
  }

  lemma ImportTakesFourBytes(b: seq<byte>, p: nat)
    ensures ImportAt(b, p).Got? ==> ImportAt(b, p).next >= p + 4
  {
  }

  lemma {:induction false} ImportsSize(b: seq<byte>, p: nat, count: nat)
    ensures ImportsAt(b, p, count).Got? ==> ImportsAt(b, p, count).next >= p + 4 * count
    ensures ImportsAt(b, p, count).Got? && p <= |b| ==> ImportsAt(b, p, count).next <= |b|
    decreases count
  {
    hide ImportAt;
    if count > 0 && ImportAt(b, p).Got? {
      ImportTakesFourBytes(b, p);
      ImportsSize(b, ImportAt(b, p).next, count - 1);
    }
  }

  lemma ExportTakesThreeBytes(b: seq<byte>, p: nat)
    ensures ExportAt(b, p).Got? ==> ExportAt(b, p).next >= p + 3
  {
  }

  lemma {:induction false} ExportsSize(b: seq<byte>, p: nat, count: nat)
    ensures ExportsAt(b, p, count).Got? ==> ExportsAt(b, p, count).next >= p + 3 * count
    ensures ExportsAt(b, p, count).Got? && p <= |b| ==> ExportsAt(b, p, count).next <= |b|
    decreases count
  {
    hide ExportAt;
    if count > 0 && ExportAt(b, p).Got? {
      ExportTakesThreeBytes(b, p);
      ExportsSize(b, ExportAt(b, p).next, count - 1);
    }
  }

  /** A decoded section has as many entries as it declares, and room for them. */
  lemma DeclaredCountIsDecoded(payload: seq<byte>)
    ensures ImportSectionOf(payload).Ok? ==>
              && U32At(payload, 0).Got?
              && |ImportSectionOf(payload).value| == U32At(payload, 0).value <= 65536
              && 1 + 4 * |ImportSectionOf(payload).value| <= |payload|
    ensures ExportSectionOf(payload).Ok? ==>
              && U32At(payload, 0).Got?
              && |ExportSectionOf(payload).value| == U32At(payload, 0).value <= 65536
              && 1 + 3 * |ExportSectionOf(payload).value| <= |payload|
  {
    var count := U32At(payload, 0);
    if count.Got? {
      ImportsSize(payload, count.next, count.value);
      ExportsSize(payload, count.next, count.value);
    }
  }

  lemma SeenAppended(sections: seq<WasmSection>, grown: seq<WasmSection>, kind: SectionKind)
    requires |grown| == |sections| + 1 && grown[..|sections|] == sections
    ensures Seen(grown, kind) <==> Seen(sections, kind) || grown[|sections|].kind == kind
  {
    if Seen(sections, kind) {
      var i :| 0 <= i < |sections| && sections[i].kind == kind;
      assert grown[i].kind == kind;
    }
  }

  lemma UniqueAppended(sections: seq<WasmSection>, grown: seq<WasmSection>)
    requires |grown| == |sections| + 1 && grown[..|sections|] == sections && KindsUnique(sections)
    requires grown[|sections|].kind == Custom || !Seen(sections, grown[|sections|].kind)
    ensures KindsUnique(grown)
  {
    assert forall i :: 0 <= i < |sections| ==> grown[i] == sections[i];
  }

  lemma AdmitKeepsBounded(acc: Contents, f: Frame, offset: nat, end: nat)
    requires Bounded(acc, offset) && Admit(acc, f, offset).Ok? && offset + 2 + |f.payload| <= end
    ensures Bounded(Admit(acc, f, offset).value, end)
  {
    hide NameAt, ImportSectionOf, ExportSectionOf, U32At, Seen, KindsUnique;
    DeclaredCountIsDecoded(f.payload);
    var grown := Admit(acc, f, offset).value;
    SeenAppended(acc.sections, grown.sections, Import);
    SeenAppended(acc.sections, grown.sections, Export);
    UniqueAppended(acc.sections, grown.sections);
  }

  lemma {:induction false} WalkKeepsBounded(b: seq<byte>, p: nat, acc: Contents)
    requires p <= |b| && Bounded(acc, p) && Walk(b, p, acc).Ok?
    ensures Bounded(Walk(b, p, acc).value, |b|)
    decreases |b| - p
  {
    if p < |b| {
      var Got(f, q) := FrameAt(b, p);
      AdmitKeepsBounded(acc, f, p, q);
      WalkKeepsBounded(b, q, Admit(acc, f, p).value);
    }
  }

  /** In an accepted module no kind but `Custom` repeats, and what was decoded is linear
      in the module's size whatever counts its bytes declare. */
  lemma DecodedSizeIsLinear(b: seq<byte>)
    requires ParseModule(b).Ok?
    ensures var m := ParseModule(b).value;
            && KindsUnique(m.sections)
            && |m.imports| <= 65536 && |m.exports| <= 65536
            && 8 + 2 * |m.sections| + 4 * |m.imports| + 3 * |m.exports| <= |b|
  {
    WalkKeepsBounded(b, 8, NOTHING);
  }
}
