/** The interface's canonical form does not depend on the order of declaration, and when
    exactly a sort by name achieves that. */
module InterfaceOrder {
  import opened Basics
  import opened Ordering
  import opened TextOrder
  import opened InterfaceSpec
  import opened Utf8

  /** Every rearrangement of `xs` sorts to the same list. */
  ghost predicate OrderForgotten<T(!new)>(row: T -> Row, xs: seq<T>) {
    forall ys :: multiset(ys) == multiset(xs) ==> Sort(row, ys) == Sort(row, xs)
  }

  lemma TakeOut<T>(xs: seq<T>, i: nat)
    requires i < |xs|
    ensures multiset(xs) == multiset{xs[i]} + multiset(xs[..i] + xs[i + 1..])
  {
    assert xs == xs[..i] + ([xs[i]] + xs[i + 1..]);
  }

  /** Sorting by a key makes a list independent of declaration order exactly when elements
      with the same key are the same: two different declarations with one name keep the
      order they were declared in. */
  lemma SortForgetsOrderIff<T(!new)>(row: T -> Row, xs: seq<T>)
    ensures OrderForgotten(row, xs) <==> KeyIdentifies(row, xs)
  {
    if KeyIdentifies(row, xs) {
      forall ys | multiset(ys) == multiset(xs) ensures Sort(row, ys) == Sort(row, xs) {
        SortForgetsOrder(row, xs, ys);
      }
    }
    if OrderForgotten(row, xs) {
      forall x, y | x in xs && y in xs && row(x) == row(y) ensures x == y {
        if x != y {
          var i :| 0 <= i < |xs| && xs[i] == x;
          var without := xs[..i] + xs[i + 1..];
          TakeOut(xs, i);
          assert y in multiset(without);
          var j :| 0 <= j < |without| && without[j] == y;
          var rest := without[..j] + without[j + 1..];
          TakeOut(without, j);
          SwapShows(row, xs, x, y, rest);
        }
      }
    }
  }

  lemma SwapShows<T(!new)>(row: T -> Row, xs: seq<T>, x: T, y: T, rest: seq<T>)
    requires OrderForgotten(row, xs) && row(x) == row(y)
    requires multiset(xs) == multiset{x} + (multiset{y} + multiset(rest))
    ensures x == y
  {
    hide Sort;
    var one, two := [x] + ([y] + rest), [y] + ([x] + rest);
    assert multiset(one) == multiset(xs) && multiset(two) == multiset(xs);
    assert Sort(row, one) == Sort(row, two);
    SortFacts(row, one);
    SortFacts(row, two);
    assert Having(row, row(x), one) == Having(row, row(x), two);
    hide Sorted;
    assert one[1..] == [y] + rest && two[1..] == [x] + rest;
    assert Having(row, row(x), one)[0] == x && Having(row, row(x), two)[0] == y;
  }

  /** A list keeps its order exactly when it is already in the order of its keys. */
  lemma SortKeepsOrderIff<T(!new)>(row: T -> Row, xs: seq<T>)
    ensures Sort(row, xs) == xs <==> Sorted(row, xs)
  {
    SortFacts(row, xs);
    if Sorted(row, xs) {
      SortIsTheStableSort(row, xs, xs);
    }
  }

  /** The first element of a list, found in a rearrangement of it. */
  lemma FindFirst<T(!new)>(xs: seq<T>, ys: seq<T>) returns (i: nat)
    requires multiset(xs) == multiset(ys) && xs != []
    ensures i < |ys| && ys[i] == xs[0] && multiset(xs[1..]) == multiset(ys[..i] + ys[i + 1..])
  {
    assert xs[0] in multiset(ys);
    i :| 0 <= i < |ys| && ys[i] == xs[0];
    TakeOut(ys, i);
    TakeOut(xs, 0);
    assert xs[..0] + xs[1..] == xs[1..];
    var a, b := multiset(xs[1..]), multiset(ys[..i] + ys[i + 1..]);
    assert multiset(xs) - multiset{xs[0]} == a;
    assert multiset(ys) - multiset{xs[0]} == b;
  }

  // ----- Sorting and mapping -----

  function Mapped<T, U>(f: T -> U, xs: seq<T>): seq<U> {
    seq(|xs|, i requires 0 <= i < |xs| => f(xs[i]))
  }

  lemma {:induction false} InsertMapped<T(!new), U>(f: T -> U, row: T -> Row, row': U -> Row, x: T, xs: seq<T>)
    requires forall t: T :: row'(f(t)) == row(t)
    ensures Mapped(f, Insert(row, x, xs)) == Insert(row', f(x), Mapped(f, xs))
  {
    if xs != [] && !AtMost(row(x), row(xs[0])) {
      InsertMapped(f, row, row', x, xs[1..]);
      assert Mapped(f, xs)[1..] == Mapped(f, xs[1..]);
      assert Mapped(f, Insert(row, x, xs)) == [f(xs[0])] + Mapped(f, Insert(row, x, xs[1..]));
    } else {
      assert Mapped(f, [x] + xs) == [f(x)] + Mapped(f, xs);
    }
  }

  /** A map that keeps keys can be applied before or after sorting. */
  lemma {:induction false} SortMapped<T(!new), U>(f: T -> U, row: T -> Row, row': U -> Row, xs: seq<T>)
    requires forall t: T :: row'(f(t)) == row(t)
    ensures Mapped(f, Sort(row, xs)) == Sort(row', Mapped(f, xs))
  {
    if xs != [] {
      SortMapped(f, row, row', xs[1..]);
      InsertMapped(f, row, row', xs[0], Sort(row, xs[1..]));
      assert Mapped(f, xs)[1..] == Mapped(f, xs[1..]);
    }
  }

  lemma {:induction false} MappedMultiset<T(!new), U>(f: T -> U, xs: seq<T>, ys: seq<T>)
    requires multiset(xs) == multiset(ys)
    ensures multiset(Mapped(f, xs)) == multiset(Mapped(f, ys))
  {
    if xs == [] {
      assert |multiset(ys)| == 0;
      assert ys == [];
    } else {
      var i := FindFirst(xs, ys);
      var rest := ys[..i] + ys[i + 1..];
      MappedMultiset(f, xs[1..], rest);
      assert Mapped(f, rest) == Mapped(f, ys)[..i] + Mapped(f, ys)[i + 1..];
      TakeOut(Mapped(f, ys), i);
      assert Mapped(f, xs) == [f(xs[0])] + Mapped(f, xs[1..]);
    }
  }

  // ----- The interface -----

  /** No two different declarations of one kind share a name. */
  ghost predicate NamesIdentify(i: ContractInterface) {
    && KeyIdentifies(FunctionRow, i.functions)
    && KeyIdentifies(StructRow, i.structs)
    && KeyIdentifies(UnionRow, i.unions)
    && KeyIdentifies(EnumRow, i.enums)
    && KeyIdentifies(EnumRow, i.errorEnums)
    && KeyIdentifies(EventRow, i.events)
  }

  /** The same declarations, in any order. */
  ghost predicate SameDeclarations(i: ContractInterface, j: ContractInterface) {
    && multiset(i.functions) == multiset(j.functions)
    && multiset(i.structs) == multiset(j.structs)
    && multiset(i.unions) == multiset(j.unions)
    && multiset(i.enums) == multiset(j.enums)
    && multiset(i.errorEnums) == multiset(j.errorEnums)
    && multiset(i.events) == multiset(j.events)
  }

  /** A function's inputs keep the order they are declared in exactly when it is the order
      of their names. */
  lemma DeclaredOrderKeptIff(f: InterfaceFunction)
    ensures SortInputs(f).inputs == f.inputs
            <==> forall i, j :: 0 <= i < j < |f.inputs| ==> TextAtMost(f.inputs[i].name, f.inputs[j].name)
  {
    hide Sort, AtMost, TextAtMost;
    SortKeepsOrderIff(ParamRow, f.inputs);
    forall i, j | 0 <= i < j < |f.inputs|
      ensures TextAtMost(f.inputs[i].name, f.inputs[j].name) <==> AtMost(ParamRow(f.inputs[i]), ParamRow(f.inputs[j]))
    {
      TextRowOrder(f.inputs[i].name, f.inputs[j].name);
    }
  }

  /** Two inputs declared as `to` and then `from` are reported the other way round. */
  lemma DeclaredOrderLost(first: InterfaceParam, second: InterfaceParam, f: InterfaceFunction)
    requires first.name == "to" && second.name == "from" && f.inputs == [first, second]
    ensures SortInputs(f).inputs == [second, first]
  {
    TextRowOrder("to", "from");
    assert !AtMost(ParamRow(first), ParamRow(second));
    assert [first, second][1..] == [second] && [second][1..] == [];
    assert Sort(ParamRow, [second]) == [second];
    assert Insert(ParamRow, first, [second]) == [second] + Insert(ParamRow, first, []);
  }

  /** The interface with each function's inputs in canonical order. */
  function InputsSorted(i: ContractInterface): ContractInterface {
    i.(functions := SortAllInputs(i.functions))
  }

  lemma FunctionsCanonical(fs: seq<InterfaceFunction>)
    ensures SortAllInputs(Sort(FunctionRow, fs)) == Sort(FunctionRow, SortAllInputs(fs))
  {
    SortMapped(SortInputs, FunctionRow, FunctionRow, fs);
    assert SortAllInputs(fs) == Mapped(SortInputs, fs);
    assert SortAllInputs(Sort(FunctionRow, fs)) == Mapped(SortInputs, Sort(FunctionRow, fs));
  }

  /** Canonicalising keeps every declaration and changes only the order of inputs. */
  lemma CanonicaliseKeepsDeclarations(i: ContractInterface)
    ensures SameDeclarations(Canonicalise(i), InputsSorted(i))
    ensures forall f :: f in i.functions ==> multiset(SortInputs(f).inputs) == multiset(f.inputs)
  {
    FunctionsCanonical(i.functions);
    SortFacts(FunctionRow, SortAllInputs(i.functions));
    SortFacts(StructRow, i.structs);
    SortFacts(UnionRow, i.unions);
    SortFacts(EnumRow, i.enums);
    SortFacts(EnumRow, i.errorEnums);
    SortFacts(EventRow, i.events);
    forall f | f in i.functions ensures multiset(SortInputs(f).inputs) == multiset(f.inputs) {
      SortFacts(ParamRow, f.inputs);
    }
  }

  /** Two interfaces with the same declarations have the same canonical form when names
      identify declarations. */
  lemma CanonicalForgetsOrder(i: ContractInterface, j: ContractInterface)
    requires SameDeclarations(InputsSorted(i), InputsSorted(j)) && NamesIdentify(InputsSorted(i))
    ensures DigestForm(Canonicalise(i)) == DigestForm(Canonicalise(j))
  {
    FunctionsCanonical(i.functions);
    FunctionsCanonical(j.functions);
    SortForgetsOrder(FunctionRow, SortAllInputs(i.functions), SortAllInputs(j.functions));
    SortForgetsOrder(StructRow, i.structs, j.structs);
    SortForgetsOrder(UnionRow, i.unions, j.unions);
    SortForgetsOrder(EnumRow, i.enums, j.enums);
    SortForgetsOrder(EnumRow, i.errorEnums, j.errorEnums);
    SortForgetsOrder(EventRow, i.events, j.events);
  }

  // ----- From the entries of a section -----

  /** The same entry, but for the order of a function's inputs, whose names differ as
      text. */
  ghost predicate Reordered(e: SpecEntry, f: SpecEntry) {
    if e.FunctionV0? then
      && f.FunctionV0? && f == e.(inputs := f.inputs) && multiset(e.inputs) == multiset(f.inputs)
      && forall p, q :: p in e.inputs && q in e.inputs && Lossy(p.name) == Lossy(q.name) ==> p == q
    else e == f
  }

  /** Reordering the inputs of a function, whose names differ as text, changes nothing that
      is kept in canonical order. */
  lemma ReorderedFunction(e: SpecEntry, f: SpecEntry)
    requires e.FunctionV0? && Reordered(e, f)
    ensures SortInputs(FunctionOf(Texts(e))) == SortInputs(FunctionOf(Texts(f)))
  {
    hide Lossy, TypeText;
    var a, b := Texts(e), Texts(f);
    assert a.inputs == Mapped(ParamText, e.inputs);
    assert b.inputs == Mapped(ParamText, f.inputs);
    MappedMultiset(ParamText, e.inputs, f.inputs);
    forall p, q | p in a.inputs && q in a.inputs && p.name == q.name ensures p == q {
      var i :| 0 <= i < |a.inputs| && a.inputs[i] == p;
      var j :| 0 <= j < |a.inputs| && a.inputs[j] == q;
      assert e.inputs[i] in e.inputs && e.inputs[j] in e.inputs;
    }
    ReorderedTexts(a, b);
  }

  lemma ReorderedTexts(e: SpecEntry, f: SpecEntry)
    requires e.FunctionV0? && f.FunctionV0? && f == e.(inputs := f.inputs) && multiset(e.inputs) == multiset(f.inputs)
    requires forall p, q :: p in e.inputs && q in e.inputs && p.name == q.name ==> p == q
    ensures SortInputs(FunctionOf(e)) == SortInputs(FunctionOf(f))
  {
    assert FunctionOf(e).inputs == Mapped(ParamOf, e.inputs);
    assert FunctionOf(f).inputs == Mapped(ParamOf, f.inputs);
    MappedMultiset(ParamOf, e.inputs, f.inputs);
    var params := FunctionOf(e).inputs;
    forall x, y | x in params && y in params && ParamRow(x) == ParamRow(y) ensures x == y {
      var i :| 0 <= i < |params| && params[i] == x;
      var j :| 0 <= j < |params| && params[j] == y;
      assert ParamRow(x)[0] == TextField(x.name) && ParamRow(y)[0] == TextField(y.name);
      TextFieldInjective(x.name, y.name);
      assert e.inputs[i].name == e.inputs[j].name;
    }
    SortForgetsOrder(ParamRow, FunctionOf(e).inputs, FunctionOf(f).inputs);
  }

  /** `i` followed by the declarations of `own`. */
  function Joined(i: ContractInterface, own: ContractInterface): ContractInterface {
    i.(functions := i.functions + own.functions,
       structs := i.structs + own.structs,
       unions := i.unions + own.unions,
       enums := i.enums + own.enums,
       errorEnums := i.errorEnums + own.errorEnums,
       events := i.events + own.events)
  }

  function One(e: SpecEntry): ContractInterface {
    AddEntry(EMPTY_INTERFACE, e)
  }

  function All(es: seq<SpecEntry>): ContractInterface {
    if es == [] then EMPTY_INTERFACE else Joined(One(es[0]), All(es[1..]))
  }

  lemma {:induction false} AddedAreJoined(i: ContractInterface, es: seq<SpecEntry>)
    ensures AddEntries(i, es) == Joined(i, All(es))
    decreases |es|
  {
    hide One, Joined, AddEntry;
    if es != [] {
      AddedAreJoined(AddEntry(i, es[0]), es[1..]);
      AddedOne(i, es[0]);
      JoinedTwice(i, One(es[0]), All(es[1..]));
    } else {
      JoinedNothing(i);
    }
  }

  lemma AddedOne(i: ContractInterface, e: SpecEntry)
    ensures AddEntry(i, e) == Joined(i, One(e))
  {
    hide FunctionOf, StructOf, UnionOf, EnumOf, EventOf, Texts;
  }

  lemma JoinedNothing(i: ContractInterface)
    ensures Joined(i, EMPTY_INTERFACE) == i
  {
  }

  lemma JoinedTwice(i: ContractInterface, j: ContractInterface, k: ContractInterface)
    ensures Joined(Joined(i, j), k) == Joined(i, Joined(j, k))
  {
  }

  /** Moving an entry to the front keeps the declarations. */
  lemma {:induction false} FrontKeepsDeclarations(es: seq<SpecEntry>, n: nat)
    requires n < |es|
    ensures SameDeclarations(All(es), Joined(One(es[n]), All(es[..n] + es[n + 1..])))
  {
    hide One, SameDeclarations, Joined;
    if n == 0 {
      assert es[..0] + es[1..] == es[1..];
      SameAsItself(All(es));
    } else {
      var rest := es[1..];
      FrontKeepsDeclarations(rest, n - 1);
      assert rest[n - 1] == es[n];
      assert (es[..n] + es[n + 1..])[1..] == rest[..n - 1] + rest[n..];
      assert (es[..n] + es[n + 1..])[0] == es[0];
      JoinedSwap(One(es[0]), One(es[n]), All(rest), All(rest[..n - 1] + rest[n..]));
    }
  }

  lemma JoinedSwap(i: ContractInterface, j: ContractInterface, k: ContractInterface, l: ContractInterface)
    requires SameDeclarations(k, Joined(j, l))
    ensures SameDeclarations(Joined(i, k), Joined(j, Joined(i, l)))
  {
  }

  lemma JoinedSame(i: ContractInterface, k: ContractInterface, l: ContractInterface, m: ContractInterface)
    requires SameDeclarations(k, l) && SameDeclarations(Joined(i, l), m)
    ensures SameDeclarations(Joined(i, k), m)
  {
  }

  lemma Flip(i: ContractInterface, j: ContractInterface)
    requires SameDeclarations(i, j)
    ensures SameDeclarations(j, i)
  {
  }

  /** Rearranging the entries of a section keeps the declarations. */
  lemma {:induction false} RearrangedEntries(es: seq<SpecEntry>, fs: seq<SpecEntry>)
    requires multiset(es) == multiset(fs)
    ensures SameDeclarations(All(es), All(fs))
    decreases |es|
  {
    hide One, SameDeclarations, Joined;
    if es == [] {
      assert |multiset(fs)| == 0;
      assert fs == [];
      SameAsItself(All(es));
    } else {
      var n := FindFirst(es, fs);
      var rest := fs[..n] + fs[n + 1..];
      RearrangedEntries(es[1..], rest);
      FrontKeepsDeclarations(fs, n);
      Flip(All(fs), Joined(One(fs[n]), All(rest)));
      JoinedSame(One(es[0]), All(es[1..]), All(rest), All(fs));
    }
  }

  lemma SameAsItself(i: ContractInterface)
    ensures SameDeclarations(i, i)
  {
  }

  lemma {:induction false} ReorderedEntries(es: seq<SpecEntry>, mid: seq<SpecEntry>)
    requires |es| == |mid| && forall n :: 0 <= n < |es| ==> Reordered(es[n], mid[n])
    ensures InputsSorted(All(es)) == InputsSorted(All(mid))
  {
    hide One, Joined, InputsSorted, Reordered;
    if es != [] {
      ReorderedEntries(es[1..], mid[1..]);
      ReorderedOne(es[0], mid[0]);
      SortedJoined(One(es[0]), All(es[1..]));
      SortedJoined(One(mid[0]), All(mid[1..]));
    }
  }

  lemma ReorderedOne(e: SpecEntry, f: SpecEntry)
    requires Reordered(e, f)
    ensures InputsSorted(One(e)) == InputsSorted(One(f))
  {
    hide SortInputs, FunctionOf, StructOf, UnionOf, EnumOf, EventOf;
    if e.FunctionV0? {
      ReorderedFunction(e, f);
      var a, b := Texts(e), Texts(f);
      assert a.FunctionV0? && b.FunctionV0?;
      hide Texts;
      assert SortAllInputs([FunctionOf(a)]) == [SortInputs(FunctionOf(a))];
      assert SortAllInputs([FunctionOf(b)]) == [SortInputs(FunctionOf(b))];
    }
  }

  lemma SortedJoined(i: ContractInterface, j: ContractInterface)
    ensures InputsSorted(Joined(i, j)) == Joined(InputsSorted(i), InputsSorted(j))
  {
    assert SortAllInputs(i.functions + j.functions) == SortAllInputs(i.functions) + SortAllInputs(j.functions);
  }

  /** The whole statement: reorder the inputs of each function whose inputs have distinct
      names, then rearrange the entries in any way; when the names of each kind of
      declaration identify them, the canonical interface and what its digest is computed
      over stay the same. */
  lemma DeclarationOrderIrrelevant(es: seq<SpecEntry>, mid: seq<SpecEntry>, fs: seq<SpecEntry>)
    requires |es| == |mid| && forall n :: 0 <= n < |es| ==> Reordered(es[n], mid[n])
    requires multiset(mid) == multiset(fs)
    requires NamesIdentify(InputsSorted(All(es)))
    ensures DigestForm(Canonicalise(AddEntries(EMPTY_INTERFACE, es)))
         == DigestForm(Canonicalise(AddEntries(EMPTY_INTERFACE, fs)))
  {
    hide Canonicalise, NamesIdentify, SameDeclarations, All, AddEntries, InputsSorted, DigestForm;
    AddedAreAll(es);
    AddedAreAll(fs);
    ReorderedEntries(es, mid);
    RearrangedEntries(mid, fs);
    SortedSame(All(mid), All(fs));
    CanonicalForgetsOrder(AddEntries(EMPTY_INTERFACE, es), AddEntries(EMPTY_INTERFACE, fs));
  }

  lemma {:induction false} AddedAreAll(es: seq<SpecEntry>)
    ensures AddEntries(EMPTY_INTERFACE, es) == All(es)
  {
    AddedAreJoined(EMPTY_INTERFACE, es);
    NoReadingIn(es);
    var j := All(es);
    assert [] + j.functions == j.functions && [] + j.structs == j.structs && [] + j.unions == j.unions;
    assert [] + j.enums == j.enums && [] + j.errorEnums == j.errorEnums && [] + j.events == j.events;
  }

  lemma NoReadingIn(es: seq<SpecEntry>)
    ensures All(es).undecodableTrailingBytes == 0 && All(es).decodeDetail == None
  {
  }

  lemma SortedSame(i: ContractInterface, j: ContractInterface)
    requires SameDeclarations(i, j)
    ensures SameDeclarations(InputsSorted(i), InputsSorted(j))
  {
    MappedMultiset(SortInputs, i.functions, j.functions);
    assert SortAllInputs(i.functions) == Mapped(SortInputs, i.functions);
    assert SortAllInputs(j.functions) == Mapped(SortInputs, j.functions);
  }
}
