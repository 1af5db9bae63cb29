/** Text from bytes as `from_utf8_lossy` of Rust's standard library reads it: UTF-8 as in
    section 4 of RFC 3629, with U+FFFD for every maximal part that is not. Byte strings are
    written as texts whose characters are the bytes. */
module Utf8 {
  import opened Basics

  const REPLACEMENT := 0xFFFD as char

  /** What stands at the front of a byte string: a character or not, and its width. */
  datatype Front = Char(c: char, width: nat) | Ill(width: nat)

  predicate Tail(s: string, i: nat) {
    i < |s| && 0x80 <= s[i] as int < 0xC0
  }

  predicate Within(s: string, i: nat, low: int, high: int) {
    i < |s| && low <= s[i] as int <= high
  }

  function Low6(s: string, i: nat): (n: nat)
    requires Tail(s, i)
    ensures n < 64
  {
    s[i] as int - 0x80
  }

  function First(s: string): (f: Front)
    requires s != ""
    ensures 0 < f.width <= |s|
    ensures f.Char? ==> f.width <= 4
  {
    var b := s[0] as int;
    if b < 0x80 then Char(s[0], 1)
    else if 0xC2 <= b <= 0xDF then
      if Tail(s, 1) then Char(((b - 0xC0) * 64 + Low6(s, 1)) as char, 2) else Ill(1)
    else if 0xE0 <= b <= 0xEF then
      if !Within(s, 1, if b == 0xE0 then 0xA0 else 0x80, if b == 0xED then 0x9F else 0xBF) then Ill(1)
      else if !Tail(s, 2) then Ill(2)
      else Char(((b - 0xE0) * 4096 + Low6(s, 1) * 64 + Low6(s, 2)) as char, 3)
    else if 0xF0 <= b <= 0xF4 then
      if !Within(s, 1, if b == 0xF0 then 0x90 else 0x80, if b == 0xF4 then 0x8F else 0xBF) then Ill(1)
      else if !Tail(s, 2) then Ill(2)
      else if !Tail(s, 3) then Ill(3)
      else Char(((b - 0xF0) * 262144 + Low6(s, 1) * 4096 + Low6(s, 2) * 64 + Low6(s, 3)) as char, 4)
    else Ill(1)
  }

  function Lossy(s: string): string
    decreases |s|
  {
    if s == "" then ""
    else
      var f := First(s);
      [if f.Char? then f.c else REPLACEMENT] + Lossy(s[f.width..])
  }

  predicate WellFormed(s: string)
    decreases |s|
  {
    s == "" || (First(s).Char? && WellFormed(s[First(s).width..]))
  }

  // ----- Encoding -----

  predicate AllBytes(s: string) {
    forall i :: 0 <= i < |s| ==> s[i] as int < 256
  }

  function Spelled(c: char): (s: string)
    ensures s != "" && AllBytes(s)
  {
    var n := c as int;
    if n < 0x80 then [c]
    else if n < 0x800 then [(0xC0 + n / 64) as char, (0x80 + n % 64) as char]
    else if n < 0x10000 then [(0xE0 + n / 4096) as char, (0x80 + n / 64 % 64) as char, (0x80 + n % 64) as char]
    else [(0xF0 + n / 262144) as char, (0x80 + n / 4096 % 64) as char, (0x80 + n / 64 % 64) as char,
          (0x80 + n % 64) as char]
  }

  function Encode(t: string): (s: string)
    ensures AllBytes(s)
  {
    if t == "" then "" else Spelled(t[0]) + Encode(t[1..])
  }

  // ----- Decoding inverts encoding -----

  lemma SpelledIsRead(c: char, rest: string)
    ensures First(Spelled(c) + rest) == Char(c, |Spelled(c)|)
  {
    hide First, Spelled;
    var n, s := c as int, Spelled(c) + rest;
    if n < 0x80 {
      SpelledInOne(c);
      ReadsOne(s, c);
    } else if n < 0x800 {
      SpelledInTwo(c, n / 64, n % 64);
      ReadsTwo(s, c, n / 64, n % 64);
    } else if n < 0x10000 {
      SpelledInThree(c, n / 64 / 64, n / 64 % 64, n % 64);
      ReadsThree(s, c, n / 64 / 64, n / 64 % 64, n % 64);
    } else {
      SpelledInFour(c, n / 64 / 64 / 64, n / 64 / 64 % 64, n / 64 % 64, n % 64);
      ReadsFour(s, c, n / 64 / 64 / 64, n / 64 / 64 % 64, n / 64 % 64, n % 64);
    }
  }

  lemma ReadsOne(s: string, c: char)
    requires c as int < 0x80 && [c] <= s
    ensures First(s) == Char(c, 1)
  {
  }

  lemma ReadsTwo(s: string, c: char, x: nat, y: nat)
    requires 2 <= x < 32 && y < 64 && c as int == x * 64 + y && [(0xC0 + x) as char, (0x80 + y) as char] <= s
    ensures First(s) == Char(c, 2)
  {
  }

  lemma ReadsThree(s: string, c: char, x: nat, y: nat, z: nat)
    requires x < 16 && y < 64 && z < 64 && c as int == x * 4096 + y * 64 + z >= 0x800
    requires [(0xE0 + x) as char, (0x80 + y) as char, (0x80 + z) as char] <= s
    ensures First(s) == Char(c, 3)
  {
  }

  lemma ReadsFour(s: string, c: char, x: nat, y: nat, z: nat, w: nat)
    requires x < 8 && y < 64 && z < 64 && w < 64 && c as int == x * 262144 + y * 4096 + z * 64 + w >= 0x10000
    requires [(0xF0 + x) as char, (0x80 + y) as char, (0x80 + z) as char, (0x80 + w) as char] <= s
    ensures First(s) == Char(c, 4)
  {
  }

  lemma ReadIsSpelled(s: string)
    requires s != ""
    ensures First(s).Char? ==> Spelled(First(s).c) == s[..First(s).width]
  {
    hide Spelled;
    var b, f := s[0] as int, First(s);
    if f.Char? {
      if f.width == 1 {
        SpelledInOne(s[0]);
      } else if f.width == 2 {
        SpelledInTwo(f.c, b - 0xC0, Low6(s, 1));
      } else if f.width == 3 {
        SpelledInThree(f.c, b - 0xE0, Low6(s, 1), Low6(s, 2));
      } else {
        SpelledInFour(f.c, b - 0xF0, Low6(s, 1), Low6(s, 2), Low6(s, 3));
      }
    }
  }

  lemma SpelledInOne(c: char)
    requires c as int < 0x80
    ensures Spelled(c) == [c]
  {
  }

  lemma SpelledInTwo(c: char, x: nat, y: nat)
    requires 2 <= x < 32 && y < 64 && c as int == x * 64 + y
    ensures Spelled(c) == [(0xC0 + x) as char, (0x80 + y) as char]
  {
  }

  lemma SpelledInThree(c: char, x: nat, y: nat, z: nat)
    requires x < 16 && y < 64 && z < 64 && c as int == x * 4096 + y * 64 + z >= 0x800
    ensures Spelled(c) == [(0xE0 + x) as char, (0x80 + y) as char, (0x80 + z) as char]
  {
    var n := c as int;
    Digits(x * 64 + y, z);
    Digits(x, y);
    assert n / 4096 == n / 64 / 64;
  }

  lemma SpelledInFour(c: char, x: nat, y: nat, z: nat, w: nat)
    requires x < 8 && y < 64 && z < 64 && w < 64 && c as int == x * 262144 + y * 4096 + z * 64 + w >= 0x10000
    ensures Spelled(c) == [(0xF0 + x) as char, (0x80 + y) as char, (0x80 + z) as char, (0x80 + w) as char]
  {
    var n := c as int;
    Digits((x * 64 + y) * 64 + z, w);
    Digits(x * 64 + y, z);
    Digits(x, y);
    assert n / 4096 == n / 64 / 64 && n / 262144 == n / 64 / 64 / 64;
  }

  lemma Digits(high: nat, low: nat)
    requires low < 64
    ensures (high * 64 + low) / 64 == high && (high * 64 + low) % 64 == low
  {
  }

  lemma ReadFront(s: string, c: char, width: nat)
    requires 0 < width <= |s| && First(s) == Char(c, width)
    ensures Lossy(s) == [c] + Lossy(s[width..])
    ensures WellFormed(s) <==> WellFormed(s[width..])
  {
    hide First;
  }

  /** Every text is read back from its encoding, whatever follows. */
  lemma {:induction false} EncodedIsRead(t: string, rest: string)
    ensures Lossy(Encode(t) + rest) == t + Lossy(rest)
    ensures WellFormed(Encode(t) + rest) <==> WellFormed(rest)
  {
    hide First, Spelled, Lossy, WellFormed, Encode, AllBytes;
    EncodeParts(t);
    if t == "" {
      assert Encode(t) + rest == rest && t + Lossy(rest) == Lossy(rest);
    } else {
      EncodedIsRead(t[1..], rest);
      EncodedFirst(t[0], t[1..], rest);
      assert t == [t[0]] + t[1..];
      assert [t[0]] + (t[1..] + Lossy(rest)) == t + Lossy(rest);
    }
  }

  lemma EncodeParts(t: string)
    ensures Encode(t) == if t == "" then "" else Spelled(t[0]) + Encode(t[1..])
  {
    hide Spelled;
  }

  lemma EncodedFirst(c: char, u: string, rest: string)
    ensures var later := Encode(u) + rest;
            && Lossy(Spelled(c) + Encode(u) + rest) == [c] + Lossy(later)
            && (WellFormed(Spelled(c) + Encode(u) + rest) <==> WellFormed(later))
  {
    hide First, Spelled, Lossy, WellFormed, Encode, AllBytes;
    var first, later := Spelled(c), Encode(u) + rest;
    assert Spelled(c) + Encode(u) + rest == first + later;
    assert (first + later)[|first|..] == later;
    SpelledIsRead(c, later);
    ReadFront(first + later, c, |first|);
  }

  /** Reading loses nothing exactly of well-formed bytes. */
  lemma {:induction false} ReencodesIff(s: string)
    ensures Encode(Lossy(s)) == s <==> WellFormed(s)
    decreases |s|
  {
    hide First, Spelled;
    if s != "" {
      var f := First(s);
      var c, rest := if f.Char? then f.c else REPLACEMENT, s[f.width..];
      assert s == s[..f.width] + rest;
      assert Lossy(s)[1..] == Lossy(rest);
      ReadIsSpelled(s);
      SpelledIsRead(c, Encode(Lossy(rest)));
      ReencodesIff(rest);
      if f.Char? && Encode(Lossy(s)) == s {
        assert s[f.width..] == Encode(Lossy(rest));
      }
    }
  }

  // ----- What is replaced -----

  /** What stands at the front is decided by its bytes and, when it is no character, by the
      one after them. */
  lemma FrontDecided(s: string, t: string)
    requires s != "" && t != ""
    requires First(s).Ill? && First(s).width < |s| && First(s).width < |t|
    requires t[..First(s).width + 1] == s[..First(s).width + 1]
    ensures First(t) == First(s)
  {
    var w := First(s).width;
    assert forall i :: 0 <= i <= w ==> t[i] == t[..w + 1][i] == s[..w + 1][i] == s[i];
  }

  /** The beginning of some character's encoding. */
  ghost predicate Begins(s: string) {
    exists c :: |s| < |Spelled(c)| && Spelled(c)[..|s|] == s
  }

  lemma BeginsTwo(s: string)
    requires s != "" && First(s) == Ill(2)
    ensures Begins(s[..2])
  {
    var x, y := s[0] as int, Low6(s, 1);
    if x <= 0xEF {
      var c := ((x - 0xE0) * 4096 + y * 64) as char;
      SpelledInThree(c, x - 0xE0, y, 0);
      assert Spelled(c)[..2] == s[..2];
    } else {
      var c := ((x - 0xF0) * 262144 + y * 4096) as char;
      SpelledInFour(c, x - 0xF0, y, 0, 0);
      assert Spelled(c)[..2] == s[..2];
    }
  }

  lemma BeginsThree(s: string)
    requires s != "" && First(s) == Ill(3)
    ensures Begins(s[..3])
  {
    var x, y, z := s[0] as int, Low6(s, 1), Low6(s, 2);
    var c := ((x - 0xF0) * 262144 + y * 4096 + z * 64) as char;
    SpelledInFour(c, x - 0xF0, y, z, 0);
    assert Spelled(c)[..3] == s[..3];
  }

  /** One replacement stands for a maximal part: no character's encoding is at the front; what
      is replaced is one byte or begins such an encoding; and no more bytes than that do. */
  lemma ReplacedIsMaximal(s: string)
    requires s != "" && First(s).Ill?
    ensures var w := First(s).width;
            && Lossy(s) == [REPLACEMENT] + Lossy(s[w..])
            && (forall c :: !(Spelled(c) <= s))
            && (w > 1 ==> Begins(s[..w]))
            && (w < |s| ==> !Begins(s[..w + 1]))
  {
    hide First, Spelled;
    var w := First(s).width;
    forall c ensures !(Spelled(c) <= s) {
      if Spelled(c) <= s {
        assert Spelled(c) + s[|Spelled(c)|..] == s;
        SpelledIsRead(c, s[|Spelled(c)|..]);
      }
    }
    if w == 2 {
      BeginsTwo(s);
    } else if w == 3 {
      BeginsThree(s);
    } else {
      IllWidth(s);
    }
    if w < |s| {
      forall c | w + 1 < |Spelled(c)| ensures Spelled(c)[..w + 1] != s[..w + 1] {
        SpelledIsRead(c, "");
        assert Spelled(c) + "" == Spelled(c);
        if Spelled(c)[..w + 1] == s[..w + 1] {
          FrontDecided(s, Spelled(c));
        }
      }
    }
  }

  lemma IllWidth(s: string)
    requires s != "" && First(s).Ill?
    ensures First(s).width <= 3
  {
  }

  lemma TextsApart(a: string, b: string)
    requires WellFormed(a) && WellFormed(b) && Lossy(a) == Lossy(b)
    ensures a == b
  {
    ReencodesIff(a);
    ReencodesIff(b);
  }

  lemma {:induction false} IllFormedIsReplaced(s: string)
    ensures WellFormed(s) || REPLACEMENT in Lossy(s)
    decreases |s|
  {
    hide First;
    if s != "" && First(s).Char? {
      IllFormedIsReplaced(s[First(s).width..]);
    }
  }

  lemma {:induction false} EncodeJoined(t: string, u: string)
    ensures Encode(t + u) == Encode(t) + Encode(u)
  {
    hide Spelled;
    if t == "" {
      assert t + u == u;
    } else {
      assert (t + u)[1..] == t[1..] + u;
      EncodeJoined(t[1..], u);
    }
  }

  /** No other bytes have the same text. */
  ghost predicate OnlyBytes(s: string) {
    forall z :: Lossy(z) == Lossy(s) ==> z == s
  }

  /** Bytes are the only ones of their text exactly when they are well-formed and their text
      does not hold the replacement character. */
  lemma OnlyBytesIff(s: string)
    ensures OnlyBytes(s) <==> WellFormed(s) && REPLACEMENT !in Lossy(s)
  {
    hide First, Lossy, WellFormed, Encode;
    if WellFormed(s) && REPLACEMENT !in Lossy(s) {
      forall z ensures Lossy(z) == Lossy(s) ==> z == s {
        if Lossy(z) == Lossy(s) {
          IllFormedIsReplaced(z);
          TextsApart(z, s);
        }
      }
    }
    if OnlyBytes(s) {
      var t := Lossy(s);
      EncodedIsRead(t, "");
      NothingRead();
      assert t + "" == t && Encode(t) + "" == Encode(t);
      assert Lossy(Encode(t)) == t;
      ReencodesIff(s);
      if REPLACEMENT in t {
        StrayBytesForText(t);
      }
    }
  }

  /** A text that holds the replacement character is also that of bytes with a stray one. */
  lemma StrayBytesForText(t: string)
    requires REPLACEMENT in t
    ensures exists z :: Lossy(z) == t && z != Encode(t)
  {
    hide Lossy, Encode;
    var k :| 0 <= k < |t| && t[k] == REPLACEMENT;
    var before, after := t[..k], t[k + 1..];
    assert t == before + ([REPLACEMENT] + after);
    StrayByteReads(before, after);
    EncodeJoined(before, [REPLACEMENT] + after);
    ReplacementSpelled(after);
    var z := Encode(before) + ([0xFF as char] + Encode(after));
    assert z[|Encode(before)|] == 0xFF as char;
    assert Encode(t)[|Encode(before)|] == 0xEF as char;
  }

  lemma NothingRead()
    ensures Lossy("") == "" && WellFormed("")
  {
  }

  lemma StrayByteReads(t: string, u: string)
    ensures Lossy(Encode(t) + ([0xFF as char] + Encode(u))) == t + ([REPLACEMENT] + u)
  {
    hide Encode;
    EncodedIsRead(t, [0xFF as char] + Encode(u));
    EncodedIsRead(u, "");
    assert Encode(u) + "" == Encode(u) && u + "" == u;
    assert ([0xFF as char] + Encode(u))[1..] == Encode(u);
  }

  lemma ReplacementSpelled(u: string)
    ensures |Encode([REPLACEMENT] + u)| > 0 && Encode([REPLACEMENT] + u)[0] == 0xEF as char
  {
  }

  /** An ASCII text is read from its own bytes and from no others. */
  lemma {:induction false} AsciiRead(s: string, name: string)
    requires forall i :: 0 <= i < |name| ==> name[i] as int < 0x80
    ensures Lossy(s) == name <==> s == name
  {
    AsciiEncoded(name);
    EncodedIsRead(name, "");
    assert name + "" == name;
    if Lossy(s) == name {
      IllFormedIsReplaced(s);
      ReencodesIff(s);
    }
  }

  lemma {:induction false} AsciiEncoded(name: string)
    requires forall i :: 0 <= i < |name| ==> name[i] as int < 0x80
    ensures Encode(name) == name
  {
    if name != "" {
      AsciiEncoded(name[1..]);
      assert name == [name[0]] + name[1..];
    }
  }

  /** Two names of one byte each that are one text. */
  lemma StrayBytesAlike()
    ensures Lossy([0xFF as char]) == Lossy([0xFE as char]) == [REPLACEMENT]
  {
    assert [0xFF as char][1..] == "" && [0xFE as char][1..] == "";
  }

  // ----- Byte sequences -----

  function Chars(b: seq<byte>): (s: string)
    ensures AllBytes(s)
  {
    seq(|b|, i requires 0 <= i < |b| => b[i] as char)
  }

  /** The text of a byte sequence. */
  function TextOf(b: seq<byte>): string {
    Lossy(Chars(b))
  }

  /** The bytes of a text. */
  function BytesOf(t: string): (b: seq<byte>)
    ensures |b| == |Encode(t)|
  {
    var s := Encode(t);
    seq(|s|, i requires 0 <= i < |s| => s[i] as byte)
  }

  lemma TextReadBack(t: string)
    ensures TextOf(BytesOf(t)) == t
  {
    hide Lossy, Encode;
    assert Chars(BytesOf(t)) == Encode(t);
    EncodedIsRead(t, "");
    NothingRead();
    assert Encode(t) + "" == Encode(t) && t + "" == t;
  }
}
