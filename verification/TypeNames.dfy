/** The type printer of `interface.rs`, whose text feeds the interface digest, and the
    proof that it says which type it printed. */
module TypeNames {
  import opened Decimals

  datatype TypeDef =
    | Val | Bool | Void | Error | U32 | I32 | U64 | I64 | Timepoint | Duration
    | U128 | I128 | U256 | I256 | Bytes | String | Symbol | Address | MuxedAddress
    | OptionOf(value: TypeDef)
    | ResultOf(ok: TypeDef, error: TypeDef)
    | VecOf(element: TypeDef)
    | MapOf(key: TypeDef, mapped: TypeDef)
    | TupleOf(values: seq<TypeDef>)
    | BytesN(n: nat)
    | Udt(name: string)

  /** The types printed as one word. */
  predicate IsSimple(t: TypeDef) {
    !t.OptionOf? && !t.ResultOf? && !t.VecOf? && !t.MapOf? && !t.TupleOf? && !t.BytesN? && !t.Udt?
  }

  /** The word a printed type begins with. */
  function Head(t: TypeDef): string {
    match t
    case Val => "val"
    case Bool => "bool"
    case Void => "void"
    case Error => "error"
    case U32 => "u32"
    case I32 => "i32"
    case U64 => "u64"
    case I64 => "i64"
    case Timepoint => "timepoint"
    case Duration => "duration"
    case U128 => "u128"
    case I128 => "i128"
    case U256 => "u256"
    case I256 => "i256"
    case Bytes => "bytes"
    case String => "string"
    case Symbol => "symbol"
    case Address => "address"
    case MuxedAddress => "muxed_address"
    case OptionOf(_) => "option"
    case ResultOf(_, _) => "result"
    case VecOf(_) => "vec"
    case MapOf(_, _) => "map"
    case TupleOf(_) => "tuple"
    case BytesN(_) => "bytes"
    case Udt(name) => name
  }

  function TypeName(t: TypeDef): string
    decreases t, 1
  {
    match t
    case OptionOf(value) => "option[" + (TypeName(value) + "]")
    case ResultOf(ok, error) => "result[" + (TypeName(ok) + ("," + (TypeName(error) + "]")))
    case VecOf(element) => "vec[" + (TypeName(element) + "]")
    case MapOf(key, mapped) => "map[" + (TypeName(key) + ("," + (TypeName(mapped) + "]")))
    case TupleOf(values) => "tuple[" + (Joined(values) + "]")
    case BytesN(n) => "bytes[" + (Decimal(n) + "]")
    case _ => Head(t)
  }

  /** The printed types with commas between them. */
  function Joined(ts: seq<TypeDef>): string
    decreases ts, 0
  {
    if ts == [] then ""
    else if |ts| == 1 then TypeName(ts[0])
    else TypeName(ts[0]) + ("," + Joined(ts[1..]))
  }

  // ----- Reading a printed type back -----

  predicate IsDelimiter(c: char) {
    c == '[' || c == ']' || c == ','
  }

  /** A name a type can be called without being mistaken for punctuation. */
  ghost predicate IsWord(name: string) {
    name != "" && forall i :: 0 <= i < |name| ==> !IsDelimiter(name[i])
  }

  /** Every user-defined type in `t` is called by one of `names`. */
  ghost predicate NamesWithin(t: TypeDef, names: iset<string>)
    decreases t
  {
    match t
    case OptionOf(value) => NamesWithin(value, names)
    case ResultOf(ok, error) => NamesWithin(ok, names) && NamesWithin(error, names)
    case VecOf(element) => NamesWithin(element, names)
    case MapOf(key, mapped) => NamesWithin(key, names) && NamesWithin(mapped, names)
    case TupleOf(values) => forall i :: 0 <= i < |values| ==> NamesWithin(values[i], names)
    case Udt(name) => name in names
    case _ => true
  }

  /** The words printed alone by a built-in type. */
  ghost predicate IsBuiltInWord(word: string) {
    exists t :: IsSimple(t) && Head(t) == word
  }

  /** What may follow a printed type: nothing, a comma or a closing bracket. */
  ghost predicate Ends(s: string) {
    s == "" || s[0] == ',' || s[0] == ']'
  }

  /** Names a printer can tell apart from each other and from the built-in words. */
  ghost predicate Unambiguous(names: iset<string>) {
    forall name :: name in names ==> IsWord(name) && !IsBuiltInWord(name)
  }

  /** The part of a printed type after its first word: its bracketed arguments. */
  function Arguments(t: TypeDef): string {
    match t
    case OptionOf(value) => "[" + (TypeName(value) + "]")
    case ResultOf(ok, error) => "[" + (TypeName(ok) + ("," + (TypeName(error) + "]")))
    case VecOf(element) => "[" + (TypeName(element) + "]")
    case MapOf(key, mapped) => "[" + (TypeName(key) + ("," + (TypeName(mapped) + "]")))
    case TupleOf(values) => "[" + (Joined(values) + "]")
    case BytesN(n) => "[" + (Decimal(n) + "]")
    case _ => ""
  }

  lemma Bracketed(head: string, start: string, inner: string)
    requires start == head + "["
    ensures start + inner == head + ("[" + inner)
  {
  }

  lemma WordThenArguments(t: TypeDef)
    ensures TypeName(t) == Head(t) + Arguments(t)
  {
    match t
    case OptionOf(value) => Bracketed("option", "option[", TypeName(value) + "]");
    case ResultOf(ok, error) => Bracketed("result", "result[", TypeName(ok) + ("," + (TypeName(error) + "]")));
    case VecOf(element) => Bracketed("vec", "vec[", TypeName(element) + "]");
    case MapOf(key, mapped) => Bracketed("map", "map[", TypeName(key) + ("," + (TypeName(mapped) + "]")));
    case TupleOf(values) => Bracketed("tuple", "tuple[", Joined(values) + "]");
    case BytesN(n) => Bracketed("bytes", "bytes[", Decimal(n) + "]");
    case _ =>
  }

  /** How many characters come before the first delimiter. */
  function WordLength(s: string): nat {
    if s == "" || IsDelimiter(s[0]) then 0 else 1 + WordLength(s[1..])
  }

  lemma {:induction false} WordMeasured(word: string, s: string)
    requires forall i :: 0 <= i < |word| ==> !IsDelimiter(word[i])
    requires s == "" || IsDelimiter(s[0])
    ensures WordLength(word + s) == |word|
  {
    if word == "" {
      assert word + s == s;
    } else {
      assert (word + s)[1..] == word[1..] + s;
      WordMeasured(word[1..], s);
    }
  }

  /** Two words followed by delimiters, or by nothing, can only be equal together. */
  lemma WordsSplit(v: string, w: string, s: string, t: string)
    requires IsWord(v) && IsWord(w) && v + s == w + t
    requires (s == "" || IsDelimiter(s[0])) && (t == "" || IsDelimiter(t[0]))
    ensures v == w && s == t
  {
    WordMeasured(v, s);
    WordMeasured(w, t);
    assert v == (v + s)[..|v|] == w;
    assert s == (v + s)[|v|..] == t;
  }

  /** The type a word stands for when it is printed alone. */
  function SimpleOf(word: string): TypeDef {
    if word == "val" then Val
    else if word == "bool" then Bool
    else if word == "void" then Void
    else if word == "error" then Error
    else if word == "u32" then U32
    else if word == "i32" then I32
    else if word == "u64" then U64
    else if word == "i64" then I64
    else if word == "timepoint" then Timepoint
    else if word == "duration" then Duration
    else if word == "u128" then U128
    else if word == "i128" then I128
    else if word == "u256" then U256
    else if word == "i256" then I256
    else if word == "bytes" then Bytes
    else if word == "string" then String
    else if word == "symbol" then Symbol
    else if word == "address" then Address
    else if word == "muxed_address" then MuxedAddress
    else Udt(word)
  }

  lemma SimpleRead(t: TypeDef)
    requires IsSimple(t)
    ensures SimpleOf(Head(t)) == t
  {
    match t
    case Val => case Bool => case Void => case Error => case U32 => case I32 => case U64 => case I64 =>
    case Timepoint => case Duration => case U128 => case I128 => case U256 => case I256 => case Bytes =>
    case String => case Symbol => case Address => case MuxedAddress =>
  }

  /** The constructor a word stands for when arguments follow it. */
  function BracketOf(word: string): nat {
    if word == "option" then 0
    else if word == "result" then 1
    else if word == "vec" then 2
    else if word == "map" then 3
    else if word == "tuple" then 4
    else 5
  }

  lemma BracketRead(t: TypeDef)
    requires !IsSimple(t) && !t.Udt?
    ensures BracketOf(Head(t)) == match t
                                  case OptionOf(_) => 0
                                  case ResultOf(_, _) => 1
                                  case VecOf(_) => 2
                                  case MapOf(_, _) => 3
                                  case TupleOf(_) => 4
                                  case _ => 5
  {
  }

  lemma ArgumentsStart(t: TypeDef)
    ensures Arguments(t) == "" <==> IsSimple(t) || t.Udt?
    ensures Arguments(t) != "" ==> Arguments(t)[0] == '['
  {
  }

  lemma HeadIsWord(t: TypeDef, names: iset<string>)
    requires Unambiguous(names) && NamesWithin(t, names)
    ensures IsWord(Head(t))
  {
  }

  /** The first word and whether arguments follow decide the constructor. */
  lemma HeadDecides(a: TypeDef, b: TypeDef, names: iset<string>)
    requires Unambiguous(names) && NamesWithin(a, names) && NamesWithin(b, names)
    requires Head(a) == Head(b) && (Arguments(a) == "" <==> Arguments(b) == "")
    ensures IsSimple(a) || a.Udt? ==> a == b
    ensures a.OptionOf? <==> b.OptionOf?
    ensures a.ResultOf? <==> b.ResultOf?
    ensures a.VecOf? <==> b.VecOf?
    ensures a.MapOf? <==> b.MapOf?
    ensures a.TupleOf? <==> b.TupleOf?
    ensures a.BytesN? <==> b.BytesN?
  {
    hide Head, Arguments, SimpleOf, BracketOf, TypeName, Joined, Unambiguous, NamesWithin;
    ArgumentsStart(a);
    ArgumentsStart(b);
    if Arguments(a) == "" {
      if IsSimple(a) && IsSimple(b) {
        SimpleRead(a);
        SimpleRead(b);
      }
      UdtIsCalled(a, b, names);
      UdtIsCalled(b, a, names);
    } else {
      BracketRead(a);
      BracketRead(b);
    }
  }

  lemma UdtIsCalled(t: TypeDef, other: TypeDef, names: iset<string>)
    requires Unambiguous(names) && NamesWithin(t, names)
    ensures t.Udt? ==> Head(t) == t.name && (IsSimple(other) ==> Head(other) != t.name)
  {
    hide Head;
    if t.Udt? {
      assert Head(t) == t.name by {
        UdtHead(t);
      }
    }
  }

  lemma UdtHead(t: TypeDef)
    requires t.Udt?
    ensures Head(t) == t.name
  {
  }

  lemma DecimalIsWord(n: nat)
    ensures IsWord(Decimal(n)) && forall i :: 0 <= i < |Decimal(n)| ==> '0' <= Decimal(n)[i] <= '9'
  {
    DecimalRead(n);
  }

  lemma Regroup(x: string, y: string, z: string)
    ensures x + y + z == x + (y + z)
  {
  }

  lemma Tail(c: string, x: string, s: string, d: string, y: string, t: string)
    requires |c| == |d| == 1 && c + x + s == d + y + t
    ensures c == d && x + s == y + t
  {
    assert (c + x + s)[0] == c[0] && (d + y + t)[0] == d[0];
    assert (c + x + s)[1..] == x + s && (d + y + t)[1..] == y + t;
  }

  /** A type printed before other text is recovered together with that text. */
  lemma {:induction false} PrintedOnce(a: TypeDef, b: TypeDef, s: string, t: string, names: iset<string>)
    requires Unambiguous(names) && NamesWithin(a, names) && NamesWithin(b, names)
    requires Ends(s) && Ends(t) && TypeName(a) + s == TypeName(b) + t
    ensures a == b && s == t
    decreases a, 3
  {
    hide TypeName, Head, Arguments, Unambiguous, NamesWithin, Joined;
    WordThenArguments(a);
    WordThenArguments(b);
    HeadIsWord(a, names);
    HeadIsWord(b, names);
    ArgumentsStart(a);
    ArgumentsStart(b);
    Regroup(Head(a), Arguments(a), s);
    Regroup(Head(b), Arguments(b), t);
    WordsSplit(Head(a), Head(b), Arguments(a) + s, Arguments(b) + t);
    assert "" + s == s && "" + t == t;
    HeadDecides(a, b, names);
    if !IsSimple(a) && !a.Udt? {
      ArgumentsOnce(a, b, s, t, names);
    }
  }

  /** Removes the opening bracket of two argument lists and regroups what follows. */
  lemma Opened(x: string, y: string, s: string, t: string)
    requires "[" + x + s == "[" + y + t
    ensures x + s == y + t
  {
    Tail("[", x, s, "[", y, t);
  }

  lemma {:induction false} ArgumentsOnce(a: TypeDef, b: TypeDef, s: string, t: string, names: iset<string>)
    requires Unambiguous(names) && NamesWithin(a, names) && NamesWithin(b, names)
    requires Arguments(a) + s == Arguments(b) + t && !IsSimple(a) && !a.Udt?
    requires Ends(s) && Ends(t)
    requires a.OptionOf? <==> b.OptionOf?
    requires a.ResultOf? <==> b.ResultOf?
    requires a.VecOf? <==> b.VecOf?
    requires a.MapOf? <==> b.MapOf?
    requires a.TupleOf? <==> b.TupleOf?
    requires a.BytesN? <==> b.BytesN?
    ensures a == b && s == t
    decreases a, 2
  {
    match a
    case OptionOf(value) =>
      OneArgument(value, b.value, s, t, names);
    case VecOf(element) =>
      OneArgument(element, b.element, s, t, names);
    case ResultOf(ok, error) =>
      TwoArguments(a, ok, error, b.ok, b.error, s, t, names);
    case MapOf(key, mapped) =>
      TwoArguments(a, key, mapped, b.key, b.mapped, s, t, names);
    case TupleOf(values) =>
      Opened(Joined(values) + "]", Joined(b.values) + "]", s, t);
      JoinedOnce(values, b.values, s, t, names);
    case BytesN(n) =>
      Opened(Decimal(n) + "]", Decimal(b.n) + "]", s, t);
      DecimalIsWord(n);
      DecimalIsWord(b.n);
      Regroup(Decimal(n), "]", s);
      Regroup(Decimal(b.n), "]", t);
      WordsSplit(Decimal(n), Decimal(b.n), "]" + s, "]" + t);
      DecimalInjective(n, b.n);
      assert ("]" + s)[1..] == s && ("]" + t)[1..] == t;
  }

  lemma {:induction false} OneArgument(x: TypeDef, y: TypeDef, s: string, t: string, names: iset<string>)
    requires Unambiguous(names) && NamesWithin(x, names) && NamesWithin(y, names)
    requires "[" + (TypeName(x) + "]") + s == "[" + (TypeName(y) + "]") + t
    ensures x == y && s == t
    decreases x, 4
  {
    hide TypeName, NamesWithin, Unambiguous;
    Opened(TypeName(x) + "]", TypeName(y) + "]", s, t);
    Regroup(TypeName(x), "]", s);
    Regroup(TypeName(y), "]", t);
    PrintedOnce(x, y, "]" + s, "]" + t, names);
    assert ("]" + s)[1..] == s && ("]" + t)[1..] == t;
  }

  lemma {:induction false} TwoArguments(
    a: TypeDef, x: TypeDef, x': TypeDef, y: TypeDef, y': TypeDef, s: string, t: string, names: iset<string>)
    requires Unambiguous(names) && NamesWithin(x, names) && NamesWithin(y, names)
    requires NamesWithin(x', names) && NamesWithin(y', names)
    requires "[" + (TypeName(x) + ("," + (TypeName(x') + "]"))) + s
             == "[" + (TypeName(y) + ("," + (TypeName(y') + "]"))) + t
    requires a == ResultOf(x, x') || a == MapOf(x, x')
    ensures x == y && x' == y' && s == t
    decreases a, 1
  {
    hide TypeName, NamesWithin, Unambiguous;
    Opened(TypeName(x) + ("," + (TypeName(x') + "]")), TypeName(y) + ("," + (TypeName(y') + "]")), s, t);
    RegroupTwo(TypeName(x), TypeName(x'), s);
    RegroupTwo(TypeName(y), TypeName(y'), t);
    var u, v := TypeName(x') + ("]" + s), TypeName(y') + ("]" + t);
    PrintedOnce(x, y, "," + u, "," + v, names);
    Rest(",", u, v);
    PrintedOnce(x', y', "]" + s, "]" + t, names);
    Rest("]", s, t);
  }

  lemma RegroupTwo(x: string, y: string, s: string)
    ensures x + ("," + (y + "]")) + s == x + ("," + (y + ("]" + s)))
  {
    Regroup(x, "," + (y + "]"), s);
    Regroup(",", y + "]", s);
    Regroup(y, "]", s);
  }

  lemma Rest(c: string, s: string, t: string)
    requires |c| == 1 && c + s == c + t
    ensures s == t
  {
    assert s == (c + s)[1..] && t == (c + t)[1..];
  }

  lemma {:induction false} JoinedOnce(xs: seq<TypeDef>, ys: seq<TypeDef>, s: string, t: string, names: iset<string>)
    requires Unambiguous(names)
    requires forall i :: 0 <= i < |xs| ==> NamesWithin(xs[i], names)
    requires forall i :: 0 <= i < |ys| ==> NamesWithin(ys[i], names)
    requires Joined(xs) + "]" + s == Joined(ys) + "]" + t
    ensures xs == ys && s == t
    decreases xs, 0
  {
    JoinedStarts(xs, s, names);
    JoinedStarts(ys, t, names);
    if xs != [] && ys != [] {
      AfterFirstStarts(xs, s);
      AfterFirstStarts(ys, t);
      PrintedOnce(xs[0], ys[0], AfterFirst(xs) + "]" + s, AfterFirst(ys) + "]" + t, names);
      if |xs| > 1 && |ys| > 1 {
        JoinedOnce(xs[1..], ys[1..], s, t, names);
      }
      assert xs == [xs[0]] + xs[1..] && ys == [ys[0]] + ys[1..];
    }
  }

  lemma JoinedStarts(ts: seq<TypeDef>, s: string, names: iset<string>)
    requires Unambiguous(names) && (ts != [] ==> NamesWithin(ts[0], names))
    ensures ts == [] ==> Joined(ts) + "]" + s == "]" + s && (Joined(ts) + "]" + s)[1..] == s
    ensures ts == [] <==> (Joined(ts) + "]" + s)[0] == ']'
    ensures ts != [] ==> Joined(ts) + "]" + s == TypeName(ts[0]) + (AfterFirst(ts) + "]" + s)
  {
    if ts == [] {
      assert "" + "]" + s == "]" + s;
    } else {
      FirstOfJoined(ts, names);
      assert Joined(ts) == TypeName(ts[0]) + AfterFirst(ts);
      Regroup(TypeName(ts[0]), AfterFirst(ts), "]");
      Regroup(TypeName(ts[0]), AfterFirst(ts) + "]", s);
    }
  }

  lemma AfterFirstStarts(ts: seq<TypeDef>, s: string)
    requires ts != []
    ensures Ends(AfterFirst(ts) + "]" + s)
    ensures |ts| == 1 <==> (AfterFirst(ts) + "]" + s)[0] == ']'
    ensures |ts| == 1 ==> (AfterFirst(ts) + "]" + s)[1..] == s
    ensures |ts| > 1 ==> (AfterFirst(ts) + "]" + s)[1..] == Joined(ts[1..]) + "]" + s
  {
  }

  function AfterFirst(ts: seq<TypeDef>): string {
    if |ts| <= 1 then "" else "," + Joined(ts[1..])
  }

  lemma FirstOfJoined(ts: seq<TypeDef>, names: iset<string>)
    requires Unambiguous(names) && ts != [] && NamesWithin(ts[0], names)
    ensures Joined(ts) != "" && !IsDelimiter(Joined(ts)[0])
  {
    WordThenArguments(ts[0]);
    HeadIsWord(ts[0], names);
  }

  /** No two types over these names print alike. */
  ghost predicate PrintsApart(names: iset<string>) {
    forall a, b :: NamesWithin(a, names) && NamesWithin(b, names) && TypeName(a) == TypeName(b) ==> a == b
  }

  /** Printing is injective on the types named by words, exactly when no user-defined
      type is called by a word a built-in type is printed as. */
  lemma TypeNameInjectiveIff(names: iset<string>)
    requires forall name :: name in names ==> IsWord(name)
    ensures PrintsApart(names) <==> forall name :: name in names ==> !IsBuiltInWord(name)
  {
    if forall name :: name in names ==> !IsBuiltInWord(name) {
      forall a, b | NamesWithin(a, names) && NamesWithin(b, names) && TypeName(a) == TypeName(b) ensures a == b {
        PrintedOnce(a, b, "", "", names) by {
          assert TypeName(a) + "" == TypeName(a) && TypeName(b) + "" == TypeName(b);
        }
      }
    } else {
      var name :| name in names && IsBuiltInWord(name);
      var t :| IsSimple(t) && Head(t) == name;
      assert NamesWithin(t, names) && NamesWithin(Udt(name), names);
      assert TypeName(t) == name && TypeName(Udt(name)) == name;
      assert t != Udt(name);
    }
  }

  /** A name with a comma in it prints like two types. */
  lemma CommaInNameCollides()
    ensures TypeName(TupleOf([Udt("u32,u64")])) == TypeName(TupleOf([U32, U64]))
  {
    assert Joined([U32, U64][1..]) == "u64";
    assert Joined([U32, U64]) == "u32" + ("," + "u64") == "u32,u64";
  }
}
