/** How an interface writes the declared types, word by word. */
module TypeSpelling {
  import opened Decimals
  import opened TypeNames
  import opened Utf8
  import opened InterfaceSpec

  ghost predicate IsNumeral(text: string, n: nat) {
    text != "" && AllDigits(text) && Value(text) == n && (text[0] == '0' ==> |text| == 1)
  }

  /** Texts with commas between them. */
  function WithCommas(parts: seq<string>): string {
    if parts == [] then "" else if |parts| == 1 then parts[0] else parts[0] + "," + WithCommas(parts[1..])
  }

  /** How a declared type is written in an interface. */
  function Spelling(t: TypeDef): string
    decreases t, 1
  {
    match t
    case Val => "val"
    case Bool => "bool"
    case Void => "void"
    case Error => "error"
    case U32 => "u32"
    case I32 => "i32"
    case U64 => "u64"
    case I64 => "i64"
    case Timepoint => "timepoint"
    case Duration => "duration"
    case U128 => "u128"
    case I128 => "i128"
    case U256 => "u256"
    case I256 => "i256"
    case Bytes => "bytes"
    case String => "string"
    case Symbol => "symbol"
    case Address => "address"
    case MuxedAddress => "muxed_address"
    case OptionOf(value) => "option[" + Spelling(value) + "]"
    case ResultOf(ok, error) => "result[" + Spelling(ok) + "," + Spelling(error) + "]"
    case VecOf(element) => "vec[" + Spelling(element) + "]"
    case MapOf(key, mapped) => "map[" + Spelling(key) + "," + Spelling(mapped) + "]"
    case TupleOf(values) =>
      "tuple[" + WithCommas(seq(|values|, i requires 0 <= i < |values| => Spelling(values[i]))) + "]"
    case BytesN(n) => "bytes[" + Decimal(n) + "]"
    case Udt(name) => Lossy(name)
  }

  lemma NumeralIff(text: string, n: nat)
    ensures IsNumeral(text, n) <==> text == Decimal(n)
  {
    DecimalRead(n);
    if n == 0 {
      assert Decimal(0) == "0";
    }
    if IsNumeral(text, n) {
      DigitsAreDecimal(text);
      if |text| > |Decimal(n)| {
        assert text[0] == Zeros(|text| - |Decimal(n)|)[0];
      }
      assert text == Decimal(n);
    }
  }

  lemma {:induction false} JoinedIsCommas(ts: seq<TypeDef>)
    ensures Joined(ts) == WithCommas(TypeNamesOf(ts))
    decreases |ts|
  {
    hide TypeName;
    if |ts| > 1 {
      JoinedIsCommas(ts[1..]);
      assert TypeNamesOf(ts)[1..] == TypeNamesOf(ts[1..]);
    }
  }

  lemma Regrouped(head: string, x: string, y: string)
    ensures head + x + "," + y + "]" == head + (x + ("," + (y + "]")))
  {
  }

  /** A type is printed, once its names are read as text, as it is spelled. */
  lemma {:induction false} SpellingPrinted(t: TypeDef)
    ensures TypeName(TypeText(t)) == Spelling(t)
    decreases t
  {
    match t
    case OptionOf(value) => SpellingPrinted(value);
    case VecOf(element) => SpellingPrinted(element);
    case ResultOf(ok, error) =>
      SpellingPrinted(ok);
      SpellingPrinted(error);
      Regrouped("result[", Spelling(ok), Spelling(error));
    case MapOf(key, mapped) =>
      SpellingPrinted(key);
      SpellingPrinted(mapped);
      Regrouped("map[", Spelling(key), Spelling(mapped));
    case TupleOf(values) => TuplePrinted(values);
    case BytesN(n) =>
    case _ =>
  }

  lemma {:induction false} TuplePrinted(values: seq<TypeDef>)
    ensures TypeName(TypeText(TupleOf(values))) == Spelling(TupleOf(values))
    decreases values
  {
    forall i | 0 <= i < |values| ensures TypeName(TypeText(values[i])) == Spelling(values[i]) {
      SpellingPrinted(values[i]);
    }
    JoinedIsCommas(TypeTexts(values));
    var parts := seq(|values|, i requires 0 <= i < |values| => Spelling(values[i]));
    assert TypeText(TupleOf(values)) == TupleOf(TypeTexts(values));
    assert Spelling(TupleOf(values)) == "tuple[" + WithCommas(parts) + "]";
    assert TypeName(TypeText(TupleOf(values))) == "tuple[" + (Joined(TypeTexts(values)) + "]");
    hide TypeName, TypeText, Spelling;
    assert TypeNamesOf(TypeTexts(values)) == parts;
  }
}
