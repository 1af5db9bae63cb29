/** The bounds-checked reader and the parser of `wasm.rs`, advancing a position in
    place, proved against the functions of `WasmSpec`. */
module Wasm {
  import opened Basics
  import opened Utf8
  import opened WasmSpec

  class Cursor {
    const bytes: seq<byte>
    var position: nat

    ghost predicate Valid()
      reads this
    {
      position <= |bytes|
    }

    /** The cursor did what the reader `spec` says: the same value and the same
        position after it, or a failure. */
    ghost predicate Did<T(!new)>(r: Result<T>, spec: Read<T>)
      reads this
    {
      match spec
      case Got(value, next) => r == Ok(value) && position == next
      case Fail => r.Err? && position <= |bytes|
    }

    constructor (bytes: seq<byte>)
      ensures Valid() && this.bytes == bytes && position == 0
    {
      this.bytes := bytes;
      position := 0;
    }

    method HasRemaining() returns (more: bool)
      ensures more <==> position < |bytes|
    {
      more := position < |bytes|;
    }

    method Rest() returns (rest: seq<byte>)
      requires Valid()
      ensures rest == bytes[position..]
    {
      rest := bytes[position..];
    }

    method U8() returns (r: Result<byte>)
      requires Valid()
      modifies this
      ensures Did(r, ByteAt(bytes, old(position)))
    {
      if position >= |bytes| {
        return Err;
      }
      r := Ok(bytes[position]);
      position := position + 1;
    }

    method Take(len: nat) returns (r: Result<seq<byte>>)
      requires Valid()
      modifies this
      ensures Did(r, TakeAt(bytes, old(position), len))
    {
      var end := position + len;
      if end > |bytes| {
        return Err;
      }
      r := Ok(bytes[position..end]);
      position := end;
    }

    /** Reads an unsigned LEB128 integer of at most 32 bits. The shift drops the bits
        past the 32nd, as the source's `u32` does; the guard before it is what keeps
        anything from being dropped. */
    method U32Leb() returns (r: Result<nat>)
      requires Valid()
      modifies this
      ensures Did(r, U32At(bytes, old(position)))
    {
      hide UnsignedAt, Pow2, ShiftLeft, BitOr;
      ghost var start := position;
      AboveNothing(UnsignedAt(bytes, position, 32));
      var result: nat := 0;
      var shift: nat := 0;
      while true
        invariant Valid()
        invariant shift <= 35 && shift % 7 == 0
        invariant shift <= 28 ==> result < Pow2(shift)
        invariant U32At(bytes, start) == Above(result, shift, UnsignedAt(bytes, position, 32 - shift))
        decreases |bytes| - position
      {
        EndOfInput(bytes, position, 32 - shift);
        var next := U8();
        if next.Err? {
          return Err;
        }
        var b := next.value;
        DigitStep(bytes, position - 1, result, shift);
        var low := b % 128;
        if shift >= 32 || (shift == 28 && low > 0x0f) {
          return Err;
        }
        result := OrDigit(result, low, shift);
        if b < 128 {
          return Ok(result);
        }
        shift := shift + 7;
      }
    }

    method Name() returns (r: Result<string>)
      requires Valid()
      modifies this
      ensures Did(r, NameAt(bytes, old(position)))
    {
      hide TextOf;
      var len :- U32Leb();
      var raw :- Take(len);
      r := Ok(TextOf(raw));
    }
  }

  method SkipLimits(cursor: Cursor) returns (r: Result<()>)
    requires cursor.Valid()
    modifies cursor
    ensures cursor.Did(r, LimitsAt(cursor.bytes, old(cursor.position)))
  {
    var flags :- cursor.U8();
    if flags > 0x01 {
      return Err;
    }
    var _ :- cursor.U32Leb();
    if flags == 0x01 {
      var _ :- cursor.U32Leb();
    }
    r := Ok(());
  }

  method SkipTableType(cursor: Cursor) returns (r: Result<()>)
    requires cursor.Valid()
    modifies cursor
    ensures cursor.Did(r, TableTypeAt(cursor.bytes, old(cursor.position)))
  {
    var reference :- cursor.U8();
    if reference != 0x70 && reference != 0x6f {
      return Err;
    }
    r := SkipLimits(cursor);
  }

  /** One import's kind byte and descriptor, the `match` in the loop of `decode_imports`. */
  method DecodeImportKind(cursor: Cursor) returns (r: Result<ImportKind>)
    requires cursor.Valid()
    modifies cursor
    ensures cursor.Did(r, ImportKindAt(cursor.bytes, old(cursor.position)))
  {
    var kind :- cursor.U8();
    match kind {
      case 0x00 =>
        var index :- cursor.U32Leb();
        r := Ok(FunctionImport(index));
      case 0x01 =>
        var _ :- SkipTableType(cursor);
        r := Ok(TableImport);
      case 0x02 =>
        var _ :- SkipLimits(cursor);
        r := Ok(MemoryImport);
      case 0x03 =>
        var _ :- cursor.U8();
        var _ :- cursor.U8();
        r := Ok(GlobalImport);
      case 0x04 =>
        var _ :- cursor.U8();
        var _ :- cursor.U32Leb();
        r := Ok(TagImport);
      case _ =>
        return Err;
    }
  }

  method DecodeImports(payload: seq<byte>) returns (r: Result<seq<WasmImport>>)
    ensures r == ImportSectionOf(payload)
  {
    hide ImportsAt, NameAt, ImportKindAt, U32At;
    var cursor := new Cursor(payload);
    var count :- cursor.U32Leb();
    if count > MAX_DECODED_ENTRIES {
      return Err;
    }
    ghost var start := cursor.position;
    var imports: seq<WasmImport> := [];
    PrependNone(ImportsAt(payload, start, count));
    for index := 0 to count
      invariant cursor.Valid() && cursor.bytes == payload
      invariant ImportsAt(payload, start, count) == Prepend(imports, ImportsAt(payload, cursor.position, count - index))
    {
      OneMoreImport(payload, cursor.position, count - index);
      var module_ :- cursor.Name();
      var field :- cursor.Name();
      var kind :- DecodeImportKind(cursor);
      PrependOne(imports, WasmImport(module_, field, kind), ImportsAt(payload, cursor.position, count - index - 1));
      imports := imports + [WasmImport(module_, field, kind)];
    }
    NoMoreImports(payload, cursor.position);
    assert imports + [] == imports;
    r := Ok(imports);
  }

  method DecodeExports(payload: seq<byte>) returns (r: Result<seq<WasmExport>>)
    ensures r == ExportSectionOf(payload)
  {
    hide ExportsAt, NameAt, U32At;
    var cursor := new Cursor(payload);
    var count :- cursor.U32Leb();
    if count > MAX_DECODED_ENTRIES {
      return Err;
    }
    ghost var start := cursor.position;
    var exports: seq<WasmExport> := [];
    PrependNone(ExportsAt(payload, start, count));
    for index := 0 to count
      invariant cursor.Valid() && cursor.bytes == payload
      invariant ExportsAt(payload, start, count) == Prepend(exports, ExportsAt(payload, cursor.position, count - index))
    {
      OneMoreExport(payload, cursor.position, count - index);
      var name :- cursor.Name();
      var kindByte :- cursor.U8();
      if kindByte > 3 {
        return Err;
      }
      var _ :- cursor.U32Leb();
      PrependOne(exports, WasmExport(name, ExportKindOf(kindByte)),
                 ExportsAt(payload, cursor.position, count - index - 1));
      exports := exports + [WasmExport(name, ExportKindOf(kindByte))];
    }
    NoMoreExports(payload, cursor.position);
    assert exports + [] == exports;
    r := Ok(exports);
  }

  /** Parses a module's framing, imports and exports. */
  method Parse(bytes: seq<byte>) returns (r: Result<Contents>)
    ensures r == ParseModule(bytes)
  {
    var cursor := new Cursor(bytes);
    var magic :- cursor.Take(4);
    if magic != WASM_MAGIC {
      return Err;
    }
    var version :- cursor.Take(4);
    if version != WASM_VERSION {
      return Err;
    }
    var acc := NOTHING;
    var more := cursor.HasRemaining();
    while more
      invariant more <==> cursor.position < |bytes|
      invariant cursor.Valid() && cursor.bytes == bytes && fresh(cursor)
      invariant ParseModule(bytes) == Walk(bytes, cursor.position, acc)
      decreases |bytes| - cursor.position
    {
      var offset := cursor.position;
      var id := cursor.U8();
      var known := SectionKind.FromId(id.value);
      if known.None? {
        return Err;
      }
      var payloadLen :- cursor.U32Leb();
      var payload :- cursor.Take(payloadLen);
      assert FrameAt(bytes, offset) == Got(Frame(known.value, payload), cursor.position);
      acc :- AdmitSection(acc, known.value, payload, offset);
      more := cursor.HasRemaining();
    }
    r := Ok(acc);
  }

  /** The part of the parser's loop that follows the framing of one section. */
  method AdmitSection(acc: Contents, kind: SectionKind, payload: seq<byte>, offset: nat) returns (r: Result<Contents>)
    ensures r == Admit(acc, Frame(kind, payload), offset)
  {
    if kind != Custom {
      var seen := HasKind(acc.sections, kind);
      if seen {
        return Err;
      }
    }
    var Contents(sections, imports, exports, specSection, envMetaSection) := acc;
    var name: Option<string> := None;
    if kind == Custom {
      var inner := new Cursor(payload);
      var found :- inner.Name();
      var rest := inner.Rest();
      if found == CONTRACT_SPEC_SECTION && specSection.None? {
        specSection := Some(rest);
      } else if found == CONTRACT_ENV_META_SECTION && envMetaSection.None? {
        envMetaSection := Some(rest);
      }
      name := Some(found);
    }
    if kind == Import {
      imports :- DecodeImports(payload);
    } else if kind == Export {
      exports :- DecodeExports(payload);
    }
    sections := sections + [WasmSection(kind, name, offset, |payload|)];
    r := Ok(Contents(sections, imports, exports, specSection, envMetaSection));
  }

  method HasKind(sections: seq<WasmSection>, kind: SectionKind) returns (found: bool)
    ensures found <==> Seen(sections, kind)
  {
    for i := 0 to |sections|
      invariant forall j :: 0 <= j < i ==> sections[j].kind != kind
    {
      if sections[i].kind == kind {
        return true;
      }
    }
    found := false;
  }

  // ----- Facts the loops above use -----

  ghost function Prepend<T>(first: seq<T>, rest: Read<seq<T>>): Read<seq<T>> {
    match rest
    case Got(value, next) => Got(first + value, next)
    case Fail => Fail
  }

  lemma PrependNone<T>(rest: Read<seq<T>>)
    ensures Prepend([], rest) == rest
  {
    if rest.Got? {
      assert [] + rest.value == rest.value;
    }
  }

  lemma OneMoreImport(b: seq<byte>, p: nat, count: nat)
    requires count > 0
    ensures ImportsAt(b, p, count) == match ImportAt(b, p)
                                      case Fail => Fail
                                      case Got(first, q) => Prepend([first], ImportsAt(b, q, count - 1))
  {
    hide ImportAt;
  }

  lemma NoMoreImports(b: seq<byte>, p: nat)
    ensures ImportsAt(b, p, 0) == Got([], p)
  {
  }

  lemma OneMoreExport(b: seq<byte>, p: nat, count: nat)
    requires count > 0
    ensures ExportsAt(b, p, count) == match ExportAt(b, p)
                                      case Fail => Fail
                                      case Got(first, q) => Prepend([first], ExportsAt(b, q, count - 1))
  {
    hide ExportAt;
  }

  lemma NoMoreExports(b: seq<byte>, p: nat)
    ensures ExportsAt(b, p, 0) == Got([], p)
  {
  }

  lemma PrependOne<T>(first: seq<T>, x: T, rest: Read<seq<T>>)
    ensures Prepend(first, Prepend([x], rest)) == Prepend(first + [x], rest)
  {
    if rest.Got? {
      assert first + ([x] + rest.value) == first + [x] + rest.value;
    }
  }

  /** The integer whose low `shift` bits are `low` and whose remaining bits `high` gives. */
  ghost function Above(low: nat, shift: nat, high: Read<nat>): Read<nat> {
    match high
    case Got(value, next) => Got(low + ShiftLeft(value, shift), next)
    case Fail => Fail
  }

  lemma EndOfInput(b: seq<byte>, p: nat, width: int)
    ensures p >= |b| ==> UnsignedAt(b, p, width).Fail?
  {
  }

  lemma AboveNothing(high: Read<nat>)
    ensures Above(0, 0, high) == high && Pow2(0) == 1
  {
  }

  /** A digit that passes the guard loses no bits and stays below the next digit's place. */
  lemma DigitFits(result: nat, low: nat, shift: nat)
    requires shift <= 28 && shift % 7 == 0 && result < Pow2(shift) && low < 128
    requires shift == 28 ==> low < 16
    ensures ShiftLeft(low, shift) < 0x1_0000_0000
    ensures shift < 28 ==> result + ShiftLeft(low, shift) < Pow2(shift + 7)
  {
    PowersOfTwo();
    if shift == 28 {
      ShiftLeftBound(low, 4, 28);
    } else {
      ShiftLeftBound(low, 7, shift);
      Pow2Grows(shift + 7, 32);
    }
  }

  lemma ShiftLeftBySeven(v: nat)
    ensures ShiftLeft(v, 7) == 128 * v
  {
    assert ShiftLeft(v, 1) == 2 * v;
    assert ShiftLeft(v, 2) == 4 * v;
    assert ShiftLeft(v, 4) == 16 * v;
    assert ShiftLeft(v, 6) == 64 * v;
  }

  /** Reading one digit of seven bits moves it from the front of `high` into the low part. */
  lemma StepAbove(result: nat, low: nat, shift: nat, high: Read<nat>)
    ensures Above(result, shift, match high case Got(m, q) => Got(128 * m + low, q) case Fail => Fail)
         == Above(result + ShiftLeft(low, shift), shift + 7, high)
  {
    if high.Got? {
      ShiftLeftSum(128 * high.value, low, shift);
      ShiftLeftTwice(high.value, 7, shift);
      ShiftLeftBySeven(high.value);
    }
  }

  /** The statement `result |= low << shift` on 32-bit integers. */
  method OrDigit(result: nat, low: nat, shift: nat) returns (r: nat)
    requires shift <= 28 && shift % 7 == 0 && result < Pow2(shift) && low < 128
    requires shift == 28 ==> low < 16
    ensures r == result + ShiftLeft(low, shift)
    ensures shift < 28 ==> r < Pow2(shift + 7)
  {
    hide Pow2, ShiftLeft, BitOr;
    DigitFits(result, low, shift);
    OrDisjoint(result, low, shift);
    r := BitOr(result, ShiftLeft(low, shift) % 0x1_0000_0000);
  }

  /** What one more byte of an integer does to the part already read. */
  lemma DigitStep(b: seq<byte>, p: nat, result: nat, shift: nat)
    requires p < |b| && shift <= 35 && shift % 7 == 0
    ensures var low, here := b[p] % 128, Above(result, shift, UnsignedAt(b, p, 32 - shift));
            if shift >= 32 || (shift == 28 && low > 0x0f) then here.Fail?
            else if b[p] < 128 then here == Got(result + ShiftLeft(low, shift), p + 1)
            else here == Above(result + ShiftLeft(low, shift), shift + 7, UnsignedAt(b, p + 1, 25 - shift))
  {
    hide Pow2, ShiftLeft;
    PowersOfTwo();
    var low := b[p] % 128;
    if shift <= 28 {
      if b[p] < 128 {
        if shift < 28 {
          Pow2Grows(7, 32 - shift);
        }
      } else if shift < 28 {
        StepAbove(result, low, shift, UnsignedAt(b, p + 1, 25 - shift));
      }
    }
  }
}
