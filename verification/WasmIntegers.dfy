/** Unsigned LEB128 integers of section 5.2.2 of the WebAssembly Core Specification:
    which byte strings are read, what they denote, and the encoder's inverse. */
module WasmIntegers {
  import opened Basics
  import opened WasmSpec

  /** The value of little-endian base-128 digits, each byte's low seven bits. */
  function Base128(s: seq<byte>): nat {
    if s == [] then 0 else s[0] % 128 + 128 * Base128(s[1..])
  }

  /** The byte strings that spell a 32-bit integer: one to five bytes, all but the last
      with the high bit set, and a fifth byte below 16. */
  ghost predicate SpellsU32(s: seq<byte>) {
    && 1 <= |s| <= 5
    && (forall i :: 0 <= i < |s| - 1 ==> s[i] >= 128)
    && s[|s| - 1] < 128
    && (|s| == 5 ==> s[4] < 16)
  }

  /** The same strings by recursion, for an integer of at most `width` bits. */
  ghost predicate Spells(width: int, s: seq<byte>) {
    && |s| > 0 && width > 0
    && if s[0] < 128 then |s| == 1 && s[0] < Pow2(width)
       else width > 7 && Spells(width - 7, s[1..])
  }

  /** The encoder of the repository's tests. */
  function EncodeU32(v: nat): (s: seq<byte>)
    ensures |s| >= 1
  {
    if v < 128 then [v] else [v % 128 + 128] + EncodeU32(v / 128)
  }

  /** The encoder as the tests write it, a loop over the remaining value. */
  method Leb(value: nat) returns (out: seq<byte>)
    ensures out == EncodeU32(value)
  {
    out := [];
    var rest := value;
    while true
      invariant out + EncodeU32(rest) == EncodeU32(value)
      decreases rest
    {
      var b := rest % 128;
      ghost var was := out;
      if rest < 128 {
        out := out + [b];
        return;
      }
      assert was + ([b + 128] + EncodeU32(rest / 128)) == was + [b + 128] + EncodeU32(rest / 128);
      out := out + [b + 128];
      rest := rest / 128;
    }
  }

  lemma {:induction false} ReadsSpelling(b: seq<byte>, p: nat, width: int, q: nat)
    requires p < q <= |b| && Spells(width, b[p..q])
    ensures UnsignedAt(b, p, width) == Got(Base128(b[p..q]), q)
    decreases q - p
  {
    var s := b[p..q];
    if s[0] < 128 {
      assert Base128(s[1..]) == 0;
    } else {
      assert s[1..] == b[p + 1..q];
      ReadsSpelling(b, p + 1, width - 7, q);
    }
  }

  lemma {:induction false} SpellingRead(b: seq<byte>, p: nat, width: int)
    requires UnsignedAt(b, p, width).Got?
    ensures Spells(width, b[p..UnsignedAt(b, p, width).next])
    decreases |b| - p
  {
    var q := UnsignedAt(b, p, width).next;
    if b[p] >= 128 {
      SpellingRead(b, p + 1, width - 7);
      assert b[p..q][1..] == b[p + 1..q];
    }
  }

  lemma {:induction false} SpellsAnyWidth(width: nat, s: seq<byte>)
    requires width in {4, 11, 18, 25, 32}
    ensures Spells(width, s) <==>
            && 1 <= |s| <= (width + 3) / 7
            && (forall i :: 0 <= i < |s| - 1 ==> s[i] >= 128)
            && s[|s| - 1] < 128
            && (|s| == (width + 3) / 7 ==> s[|s| - 1] < 16)
    decreases width
  {
    PowersOfTwo();
    if width > 7 {
      Pow2Grows(7, width);
    }
    if |s| > 0 && s[0] >= 128 && width > 4 {
      SpellsAnyWidth(width - 7, s[1..]);
      if Spells(width, s) {
        forall i | 0 <= i < |s| - 1 ensures s[i] >= 128 {
          if i > 0 {
            assert s[1..][i - 1] == s[i];
          }
        }
      }
    }
  }

  /** An integer is read at a position exactly when the bytes up to the next position
      spell one, and then it is their base-128 value. */
  lemma U32ReadExactly(b: seq<byte>, p: nat, v: nat, q: nat)
    ensures U32At(b, p) == Got(v, q) <==> p < q <= |b| && SpellsU32(b[p..q]) && v == Base128(b[p..q])
  {
    if U32At(b, p) == Got(v, q) {
      SpellingRead(b, p, 32);
      SpellsAnyWidth(32, b[p..q]);
      ReadsSpelling(b, p, 32, q);
    }
    if p < q <= |b| && SpellsU32(b[p..q]) {
      SpellsAnyWidth(32, b[p..q]);
      ReadsSpelling(b, p, 32, q);
    }
  }

  lemma {:induction false} UnsignedBelow(b: seq<byte>, p: nat, width: int)
    requires UnsignedAt(b, p, width).Got?
    ensures width > 0 && UnsignedAt(b, p, width).value < Pow2(width)
    decreases |b| - p
  {
    if b[p] >= 128 {
      UnsignedBelow(b, p + 1, width - 7);
      Pow2PlusSeven(width - 7);
    }
  }

  lemma Pow2PlusSeven(e: nat)
    ensures Pow2(e + 7) == 128 * Pow2(e)
  {
    assert Pow2(e + 7) == 2 * Pow2(e + 6);
    assert Pow2(e + 5) == 2 * Pow2(e + 4);
    assert Pow2(e + 3) == 2 * Pow2(e + 2);
    assert Pow2(e + 1) == 2 * Pow2(e);
  }

  /** What is read fits 32 bits, so the source's `u32` arithmetic never overflows. */
  lemma U32Below(b: seq<byte>, p: nat)
    requires U32At(b, p).Got?
    ensures U32At(b, p).value < 0x1_0000_0000
  {
    UnsignedBelow(b, p, 32);
    PowersOfTwo();
  }

  lemma {:induction false} UnsignedEncoded(b: seq<byte>, p: nat, width: nat, v: nat)
    requires width > 0 && v < Pow2(width) && Occurs(b, p, EncodeU32(v))
    ensures UnsignedAt(b, p, width) == Got(v, p + |EncodeU32(v)|)
    decreases v
  {
    var e := EncodeU32(v);
    assert b[p] == b[p..p + |e|][0] == e[0];
    if v >= 128 {
      OccursSplit(b, p, [v % 128 + 128], EncodeU32(v / 128));
      if width <= 7 {
        Pow2AtMost128(width);
      } else {
        Pow2PlusSeven(width - 7);
      }
      UnsignedEncoded(b, p + 1, width - 7, v / 128);
    }
  }

  lemma Pow2AtMost128(e: nat)
    requires e <= 7
    ensures Pow2(e) <= 128
  {
    assert Pow2(0) == 1 && Pow2(1) == 2 && Pow2(2) == 4 && Pow2(3) == 8;
    assert Pow2(4) == 16 && Pow2(5) == 32 && Pow2(6) == 64 && Pow2(7) == 128;
  }

  /** Reading inverts the encoder for every 32-bit value, wherever the encoding stands. */
  lemma U32Encoded(b: seq<byte>, p: nat, v: nat)
    requires v < 0x1_0000_0000 && Occurs(b, p, EncodeU32(v))
    ensures U32At(b, p) == Got(v, p + |EncodeU32(v)|)
  {
    PowersOfTwo();
    UnsignedEncoded(b, p, 32, v);
  }

  lemma EncodedFirst(v: nat)
    ensures v >= 128 ==> EncodeU32(v) == [v % 128 + 128] + EncodeU32(v / 128)
    ensures v < 128 ==> |EncodeU32(v)| == 1
  {
  }

  /** The other direction holds exactly for the spellings without zero padding: the
      reader also accepts padded ones, which re-encode to fewer bytes. */
  lemma {:induction false} ReencodesIffUnpadded(s: seq<byte>)
    requires |s| > 0 && (forall i :: 0 <= i < |s| - 1 ==> s[i] >= 128) && s[|s| - 1] < 128
    ensures EncodeU32(Base128(s)) == s <==> |s| == 1 || s[|s| - 1] != 0
    ensures Base128(s) == 0 ==> s[|s| - 1] == 0
    ensures Base128(s) < 128 && |s| > 1 ==> s[|s| - 1] == 0
    decreases |s|
  {
    var rest := s[1..];
    if |s| == 1 {
      assert Base128(rest) == 0;
      assert Base128(s) == s[0];
    } else {
      ReencodesIffUnpadded(rest);
      assert rest[|rest| - 1] == s[|s| - 1];
      var v := Base128(s);
      assert v / 128 == Base128(rest) && v % 128 == s[0] - 128;
      hide Base128;
      EncodedFirst(v);
      assert s == [s[0]] + rest;
      if v >= 128 && EncodeU32(v) == s {
        assert EncodeU32(v)[1..] == EncodeU32(Base128(rest));
      }
    }
  }

  /** A padded zero is read but is not what the encoder writes. */
  lemma PaddedZeroIsRead()
    ensures U32At([0x80, 0x00], 0) == Got(0, 2)
    ensures EncodeU32(0) != [0x80, 0x00]
  {
    PowersOfTwo();
    Pow2PlusSeven(18);
    assert UnsignedAt([0x80, 0x00], 1, 25) == Got(0, 2);
  }
}
