/** Numbers in decimal: how `format!` writes them and how Rust's `u64::from_str` reads
    them. */
module Decimals {
  import opened Basics

  function Digit(d: nat): char
    requires d < 10
  {
    ['0', '1', '2', '3', '4', '5', '6', '7', '8', '9'][d]
  }

  /** A number in decimal. */
  function Decimal(n: nat): string {
    if n < 10 then [Digit(n)] else Decimal(n / 10) + [Digit(n % 10)]
  }

  predicate AllDigits(s: string) {
    forall i :: 0 <= i < |s| ==> '0' <= s[i] <= '9'
  }

  /** The number a string of digits denotes, most significant first. */
  function Value(s: string): nat
    requires AllDigits(s)
    decreases |s|
  {
    if s == [] then 0 else 10 * Value(s[..|s| - 1]) + (s[|s| - 1] as int - '0' as int)
  }

  const U64_LIMIT := 0x1_0000_0000_0000_0000

  /** Reading a u64: one leading plus sign is dropped, at least one digit must remain, and
      a number that does not fit is refused. */
  function ParseU64(s: string): Result<nat> {
    var digits := if |s| > 0 && s[0] == '+' then s[1..] else s;
    if digits == "" || !AllDigits(digits) || Value(digits) >= U64_LIMIT then Err
    else Ok(Value(digits))
  }

  lemma {:induction false} DecimalRead(n: nat)
    ensures |Decimal(n)| > 0 && AllDigits(Decimal(n)) && Value(Decimal(n)) == n
    ensures n > 0 ==> Decimal(n)[0] != '0'
  {
    if n >= 10 {
      DecimalRead(n / 10);
      assert Decimal(n)[..|Decimal(n)| - 1] == Decimal(n / 10);
    }
  }

  lemma DecimalInjective(m: nat, n: nat)
    requires Decimal(m) == Decimal(n)
    ensures m == n
  {
    DecimalRead(m);
    DecimalRead(n);
  }

  function Zeros(k: nat): string {
    seq(k, _ => '0')
  }

  lemma DecimalParts(v: nat, d: nat)
    requires d < 10
    ensures Decimal(10 * v + d) == if v == 0 then [Digit(d)] else Decimal(v) + [Digit(d)]
    ensures Decimal(0) == "0"
  {
    assert (10 * v + d) / 10 == v && (10 * v + d) % 10 == d;
  }

  /** Every string of digits is its number in decimal after some zeros, except that zero
      may be written with no further digit. */
  lemma {:induction false} DigitsAreDecimal(s: string)
    requires s != "" && AllDigits(s)
    ensures |s| >= |Decimal(Value(s))| && s == Zeros(|s| - |Decimal(Value(s))|) + Decimal(Value(s))
    decreases |s|
  {
    hide Decimal, Value;
    var n := |s| - 1;
    var init, d := s[..n], s[n] as int - '0' as int;
    LastDigit(s, init, d);
    DecimalParts(Value(init), d);
    if n == 0 {
      assert s == Zeros(0) + [Digit(d)];
    } else {
      DigitsAreDecimal(init);
      ZerosThenDigit(init, Value(init), d);
    }
  }

  lemma LastDigit(s: string, init: string, d: nat)
    requires s != "" && AllDigits(s) && init == s[..|s| - 1] && d == s[|s| - 1] as int - '0' as int
    ensures d < 10 && s == init + [Digit(d)]
    ensures AllDigits(init) && Value(s) == 10 * Value(init) + d && (init == "" ==> Value(init) == 0)
  {
    hide Digit, Value;
    DigitChar(s[|s| - 1]);
    ValueParts(s);
    assert s == init + [s[|s| - 1]];
  }

  lemma ValueParts(s: string)
    requires s != "" && AllDigits(s)
    ensures Value(s) == 10 * Value(s[..|s| - 1]) + (s[|s| - 1] as int - '0' as int)
    ensures Value("") == 0
  {
  }

  lemma DigitChar(c: char)
    requires '0' <= c <= '9'
    ensures Digit(c as int - '0' as int) == c
  {
  }

  lemma ZerosThenDigit(init: string, v: nat, d: nat)
    requires d < 10 && |init| >= |Decimal(v)| && init == Zeros(|init| - |Decimal(v)|) + Decimal(v)
    ensures var whole := Decimal(10 * v + d);
            |init| + 1 >= |whole| && init + [Digit(d)] == Zeros(|init| + 1 - |whole|) + whole
  {
    DecimalParts(v, d);
    hide Decimal;
    if v == 0 {
      assert init == Zeros(|init| - 1) + "0" == Zeros(|init|);
    }
  }

  lemma {:induction false} ZerosAddNothing(k: nat, n: nat)
    ensures AllDigits(Zeros(k) + Decimal(n)) && Value(Zeros(k) + Decimal(n)) == n
    decreases n
  {
    DecimalRead(n);
    var s := Zeros(k) + Decimal(n);
    var init := s[..|s| - 1];
    if n < 10 {
      assert init == Zeros(k);
      ZerosAreZero(k);
    } else {
      assert init == Zeros(k) + Decimal(n / 10);
      ZerosAddNothing(k, n / 10);
    }
  }

  lemma {:induction false} ZerosAreZero(k: nat)
    ensures AllDigits(Zeros(k)) && Value(Zeros(k)) == 0
  {
    if k > 0 {
      assert Zeros(k)[..k - 1] == Zeros(k - 1);
      ZerosAreZero(k - 1);
    }
  }

  /** `s` writes `n` in decimal, after an optional plus sign and any number of zeros. */
  ghost predicate Spells(s: string, n: nat) {
    exists plus: bool, k: nat :: s == Spelling(plus, k, n)
  }

  function Spelling(plus: bool, k: nat, n: nat): string {
    (if plus then "+" else "") + (Zeros(k) + Decimal(n))
  }

  lemma EverySpellingSpells(plus: bool, k: nat, n: nat)
    ensures Spells(Spelling(plus, k, n), n)
  {
  }

  /** What is read as a u64 is exactly its spellings. */
  lemma ParseU64Iff(s: string, n: nat)
    ensures ParseU64(s) == Ok(n) <==> n <= 18_446_744_073_709_551_615 && Spells(s, n)
  {
    hide Spelling, Decimal, Zeros;
    if ParseU64(s) == Ok(n) {
      ReadIsSpelt(s, n);
    }
    if n < U64_LIMIT && Spells(s, n) {
      var plus: bool, k: nat :| s == Spelling(plus, k, n);
      SpeltIsRead(plus, k, n);
    }
  }

  lemma ReadIsSpelt(s: string, n: nat)
    requires ParseU64(s) == Ok(n)
    ensures Spells(s, n)
  {
    hide Decimal, Zeros, Value;
    var plus := |s| > 0 && s[0] == '+';
    var digits := if plus then s[1..] else s;
    DigitsAreDecimal(digits);
    assert s == (if plus then "+" else "") + digits;
    assert s == Spelling(plus, |digits| - |Decimal(n)|, n);
  }

  lemma SpeltIsRead(plus: bool, k: nat, n: nat)
    requires n < U64_LIMIT
    ensures ParseU64(Spelling(plus, k, n)) == Ok(n)
  {
    hide Decimal, Value;
    ZerosAddNothing(k, n);
    DecimalRead(n);
    var s, digits := Spelling(plus, k, n), Zeros(k) + Decimal(n);
    assert digits[0] == if k > 0 then '0' else Decimal(n)[0];
    assert (if plus then s[1..] else s) == digits;
    assert plus <==> s[0] == '+';
  }
}
