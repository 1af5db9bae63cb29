/** What canonicalising a transaction's records keeps, and what it makes unique. */
module InvocationCanonical {
  import opened Basics
  import opened Ordering
  import opened TextOrder
  import opened InvocationSpec

  ghost predicate HasKey(xs: seq<ContractInvocation>, k: Row) {
    exists x :: x in xs && Key(x) == k
  }

  /** `y` is the earliest record of the strongest basis among those of its call. */
  ghost predicate Chosen(xs: seq<ContractInvocation>, y: ContractInvocation) {
    && FirstOfKey(KeyAndBasis, xs, y)
    && forall x :: x in xs && Key(x) == Key(y) ==> y.basis.Rank() <= x.basis.Rank()
  }

  /** `ys` holds the chosen record of every call and nothing else, in strictly increasing
      order of the call. */
  ghost predicate IsCanonical(xs: seq<ContractInvocation>, ys: seq<ContractInvocation>) {
    Strict(Key, ys) && forall y :: y in ys <==> Chosen(xs, y)
  }

  lemma KeyThenBasis(x: ContractInvocation, y: ContractInvocation)
    ensures AtMost(KeyAndBasis(x), KeyAndBasis(y))
            <==> Less(Key(x), Key(y)) || (Key(x) == Key(y) && x.basis.Rank() <= y.basis.Rank())
    ensures KeyAndBasis(x) == KeyAndBasis(y) <==> Key(x) == Key(y) && x.basis == y.basis
  {
    LessJoined(Key(x), [[x.basis.Rank()]], Key(y), [[y.basis.Rank()]]);
    OneFieldOrder([x.basis.Rank()], [y.basis.Rank()]);
    assert KeyAndBasis(x)[..4] == Key(x) && KeyAndBasis(y)[..4] == Key(y);
    assert KeyAndBasis(x)[4] == [x.basis.Rank()] && KeyAndBasis(y)[4] == [y.basis.Rank()];
    assert FieldLess([x.basis.Rank()], [y.basis.Rank()]) <==> x.basis.Rank() < y.basis.Rank();
    RowLaws(Key(x), Key(y), Key(x));
  }

  lemma {:induction false} FirstIsHead<T(!new)>(row: T -> Row, xs: seq<T>, y: T)
    ensures FirstOfKey(row, xs, y) <==> Having(row, row(y), xs) != [] && Having(row, row(y), xs)[0] == y
  {
    if xs != [] {
      FirstIsHead(row, xs[1..], y);
      assert xs == [xs[0]] + xs[1..];
      if row(xs[0]) == row(y) {
        if FirstOfKey(row, xs, y) {
          var i :| 0 <= i < |xs| && xs[i] == y && forall j :: 0 <= j < i ==> row(xs[j]) != row(y);
          assert i == 0;
        }
        assert xs[0] == y ==> FirstOfKey(row, xs, y);
      } else {
        if FirstOfKey(row, xs, y) {
          var i :| 0 <= i < |xs| && xs[i] == y && forall j :: 0 <= j < i ==> row(xs[j]) != row(y);
          assert xs[1..][i - 1] == y;
          forall j | 0 <= j < i - 1 ensures row(xs[1..][j]) != row(y) {
            assert xs[1..][j] == xs[j + 1];
          }
        }
        if FirstOfKey(row, xs[1..], y) {
          var i :| 0 <= i < |xs[1..]| && xs[1..][i] == y && forall j :: 0 <= j < i ==> row(xs[1..][j]) != row(y);
          assert xs[i + 1] == y;
          forall j | 0 <= j < i + 1 ensures row(xs[j]) != row(y) {
            assert j > 0 ==> xs[j] == xs[1..][j - 1];
          }
        }
      }
    }
  }

  lemma SameElements(xs: seq<ContractInvocation>, ss: seq<ContractInvocation>, x: ContractInvocation)
    requires multiset(xs) == multiset(ss)
    ensures x in xs <==> x in ss
  {
    assert x in xs <==> x in multiset(xs);
    assert x in ss <==> x in multiset(ss);
  }

  /** After the sort, the first record of a call is its earliest strongest one. */
  lemma FirstOfSorted(xs: seq<ContractInvocation>, ss: seq<ContractInvocation>, y: ContractInvocation)
    requires ss == Sort(KeyAndBasis, xs)
    ensures FirstOfKey(Key, ss, y) <==> Chosen(xs, y)
  {
    hide Sort, Key, KeyAndBasis, Less, AtMost, Having;
    SortFacts(KeyAndBasis, xs);
    FirstIsHead(KeyAndBasis, xs, y);
    FirstIsHead(KeyAndBasis, ss, y);
    assert FirstOfKey(KeyAndBasis, xs, y) <==> FirstOfKey(KeyAndBasis, ss, y);
    if FirstOfKey(Key, ss, y) {
      FirstIsStrongest(ss, y);
      forall x | x in xs && Key(x) == Key(y) ensures y.basis.Rank() <= x.basis.Rank() {
        SameElements(xs, ss, x);
      }
    }
    if Chosen(xs, y) {
      forall x | x in ss && Key(x) == Key(y) ensures y.basis.Rank() <= x.basis.Rank() {
        SameElements(xs, ss, x);
      }
      StrongestIsFirst(ss, y);
    }
  }

  lemma FirstIsStrongest(ss: seq<ContractInvocation>, y: ContractInvocation)
    requires Sorted(KeyAndBasis, ss) && FirstOfKey(Key, ss, y)
    ensures Chosen(ss, y)
  {
    hide Key, KeyAndBasis, Less, AtMost;
    var i :| 0 <= i < |ss| && ss[i] == y && forall j :: 0 <= j < i ==> Key(ss[j]) != Key(y);
    forall j | 0 <= j < i ensures KeyAndBasis(ss[j]) != KeyAndBasis(y) {
      KeyThenBasis(ss[j], y);
    }
    forall x | x in ss && Key(x) == Key(y) ensures y.basis.Rank() <= x.basis.Rank() {
      var j :| 0 <= j < |ss| && ss[j] == x;
      KeyThenBasis(y, x);
      RowLaws(Key(y), Key(x), Key(y));
      assert i <= j;
    }
  }

  lemma StrongestIsFirst(ss: seq<ContractInvocation>, y: ContractInvocation)
    requires Sorted(KeyAndBasis, ss) && Chosen(ss, y)
    ensures FirstOfKey(Key, ss, y)
  {
    hide Key, KeyAndBasis, Less, AtMost;
    var i :| 0 <= i < |ss| && ss[i] == y && forall j :: 0 <= j < i ==> KeyAndBasis(ss[j]) != KeyAndBasis(y);
    forall j | 0 <= j < i ensures Key(ss[j]) != Key(y) {
      if Key(ss[j]) == Key(y) {
        KeyThenBasis(ss[j], y);
        RowLaws(Key(y), Key(ss[j]), Key(y));
      }
    }
  }

  lemma CanonicalForm(xs: seq<ContractInvocation>)
    ensures IsCanonical(xs, Canonicalise(xs))
  {
    var ss := Sort(KeyAndBasis, xs);
    SortFacts(KeyAndBasis, xs);
    assert Sorted(Key, ss) by {
      forall i, j | 0 <= i < j < |ss| ensures AtMost(Key(ss[i]), Key(ss[j])) {
        KeyThenBasis(ss[i], ss[j]);
      }
    }
    DedupFacts(Key, ss);
    forall y ensures y in Canonicalise(xs) <==> Chosen(xs, y) {
      FirstOfSorted(xs, ss, y);
    }
  }

  /** No call is lost and none appears: the canonical list has exactly the calls recorded. */
  lemma {:induction false} EveryCallIsKept(xs: seq<ContractInvocation>, k: Row)
    ensures HasKey(Canonicalise(xs), k) <==> HasKey(xs, k)
  {
    CanonicalForm(xs);
    if HasKey(xs, k) {
      var x :| x in xs && Key(x) == k;
      var y := ChosenExists(xs, x);
      assert y in Canonicalise(xs);
    }
    if HasKey(Canonicalise(xs), k) {
      var y :| y in Canonicalise(xs) && Key(y) == k;
      assert Chosen(xs, y);
    }
  }

  /** The chosen record of the call that `x` records. */
  lemma {:induction false} ChosenExists(xs: seq<ContractInvocation>, x: ContractInvocation)
    returns (y: ContractInvocation)
    requires x in xs
    ensures Key(y) == Key(x) && Chosen(xs, y)
  {
    hide Sort, Key, KeyAndBasis, Having, Chosen;
    var ss := Sort(KeyAndBasis, xs);
    SortFacts(KeyAndBasis, xs);
    assert x in multiset(ss);
    var i :| 0 <= i < |ss| && ss[i] == x;
    var n := 0;
    while Key(ss[n]) != Key(x)
      invariant 0 <= n <= i && forall j :: 0 <= j < n ==> Key(ss[j]) != Key(x)
      decreases i - n
    {
      n := n + 1;
    }
    y := ss[n];
    assert FirstOfKey(Key, ss, y);
    FirstOfSorted(xs, ss, y);
  }

  /** A list is canonical for `xs` only if it is the one computed. */
  lemma CanonicalUnique(xs: seq<ContractInvocation>, ys: seq<ContractInvocation>)
    requires IsCanonical(xs, ys)
    ensures ys == Canonicalise(xs)
  {
    CanonicalForm(xs);
    StrictUnique(Key, ys, Canonicalise(xs));
  }

  lemma CanonicaliseIdempotent(xs: seq<ContractInvocation>)
    ensures Canonicalise(Canonicalise(xs)) == Canonicalise(xs)
  {
    var ys := Canonicalise(xs);
    CanonicalForm(xs);
    forall y ensures y in ys <==> Chosen(ys, y) {
      if y in ys {
        var i :| 0 <= i < |ys| && ys[i] == y;
        forall j | 0 <= j < |ys| && j != i ensures Key(ys[j]) != Key(y) {
          RowLaws(Key(y), Key(y), Key(y));
        }
        forall j | 0 <= j < i ensures KeyAndBasis(ys[j]) != KeyAndBasis(y) {
          KeyThenBasis(ys[j], y);
        }
      }
    }
    CanonicalUnique(ys, ys);
  }

  // ----- Independence of the order of the evidence -----

  function Rows(ys: seq<ContractInvocation>): seq<Row> {
    seq(|ys|, i requires 0 <= i < |ys| => KeyAndBasis(ys[i]))
  }

  /** Some record of the call with this basis, and none with a stronger one. */
  ghost predicate StrongestRow(xs: seq<ContractInvocation>, r: Row) {
    exists x :: x in xs && KeyAndBasis(x) == r
                && forall z :: z in xs && Key(z) == Key(x) ==> x.basis.Rank() <= z.basis.Rank()
  }

  lemma RowsOfCanonical(xs: seq<ContractInvocation>)
    ensures Strict((r: Row) => r, Rows(Canonicalise(xs)))
    ensures forall r :: r in Rows(Canonicalise(xs)) <==> StrongestRow(xs, r)
  {
    var ys := Canonicalise(xs);
    CanonicalForm(xs);
    forall i, j | 0 <= i < j < |ys| ensures Less(Rows(ys)[i], Rows(ys)[j]) {
      KeyThenBasis(ys[i], ys[j]);
      RowLaws(Key(ys[i]), Key(ys[j]), Key(ys[i]));
    }
    forall r ensures r in Rows(ys) <==> StrongestRow(xs, r) {
      if r in Rows(ys) {
        var i :| 0 <= i < |ys| && Rows(ys)[i] == r;
        assert Chosen(xs, ys[i]);
      }
      if StrongestRow(xs, r) {
        var x :| x in xs && KeyAndBasis(x) == r
                 && forall z :: z in xs && Key(z) == Key(x) ==> x.basis.Rank() <= z.basis.Rank();
        var y := ChosenExists(xs, x);
        KeyThenBasis(x, y);
        KeyThenBasis(y, x);
        assert y in ys;
        var i :| 0 <= i < |ys| && ys[i] == y;
        assert Rows(ys)[i] == r;
      }
    }
  }

  /** Reordering the evidence changes neither the calls found nor the basis each rests on. */
  lemma OrderOfEvidenceIrrelevant(xs: seq<ContractInvocation>, zs: seq<ContractInvocation>)
    requires multiset(xs) == multiset(zs)
    ensures Rows(Canonicalise(xs)) == Rows(Canonicalise(zs))
  {
    forall x ensures x in xs <==> x in zs {
      assert x in xs <==> x in multiset(xs);
      assert x in zs <==> x in multiset(zs);
    }
    RowsOfCanonical(xs);
    RowsOfCanonical(zs);
    StrictUnique((r: Row) => r, Rows(Canonicalise(xs)), Rows(Canonicalise(zs)));
  }

  // ----- A whole transaction -----

  function OperationRecords(o: Observation, tx: string): seq<ContractInvocation> {
    AllOperationInvocations(if o.envelope.Some? then o.envelope.value else [], tx, o.ledger, o.successful)
  }

  lemma {:induction false} OperationRecordFacts(
    ops: seq<Operation>, tx: string, ledger: Option<nat>, succeeded: bool, x: ContractInvocation)
    requires x in AllOperationInvocations(ops, tx, ledger, succeeded)
    ensures x.basis == ObservedInvocation && x.caller == None && x.transaction == tx && x.successful == Some(succeeded)
    decreases |ops|
  {
    var n := |ops| - 1;
    if x in AllOperationInvocations(ops[..n], tx, ledger, succeeded) {
      OperationRecordFacts(ops[..n], tx, ledger, succeeded, x);
    }
  }

  /** The merge of a transaction's operations with its replayed markers: exactly the calls
      either evidences, one record each; a call an operation names rests on the operation,
      any other on its marker; nesting was recovered exactly when a record has a caller;
      and nothing is marked successful in a transaction that was not. */
  lemma TransactionMerge(strkey: seq<byte> -> string, o: Observation)
    requires TransactionHash(o.hash).Ok?
    ensures var tx := TransactionHash(o.hash).value;
            var found := InvocationsFromTransaction(strkey, o).value;
            && Strict(Key, found.invocations)
            && (forall k :: HasKey(found.invocations, k)
                            <==> HasKey(OperationRecords(o, tx), k) || HasKey(Replayed(strkey, o, tx), k))
            && (forall y :: y in found.invocations ==>
                  && y.transaction == tx
                  && (y.successful == Some(true) ==> o.successful)
                  && if HasKey(OperationRecords(o, tx), Key(y))
                     then y in OperationRecords(o, tx) && y.basis == ObservedInvocation
                     else y in Replayed(strkey, o, tx) && y.basis == ObservedEvent)
            && (found.nestingRecovered <==> exists y :: y in found.invocations && y.caller.Some?)
  {
    var tx := TransactionHash(o.hash).value;
    var ops, replayed, all := OperationRecords(o, tx), Replayed(strkey, o, tx), Recorded(strkey, o, tx);
    forall x | x in ops
      ensures x.basis == ObservedInvocation && x.caller == None && x.transaction == tx
              && x.successful == Some(o.successful)
    {
      OperationRecordFacts(if o.envelope.Some? then o.envelope.value else [], tx, o.ledger, o.successful, x);
    }
    forall x | x in replayed
      ensures x.basis == ObservedEvent && x.transaction == tx && (x.successful == Some(true) ==> o.successful)
    {
    }
    assert all == ops + replayed;
    assert InvocationsFromTransaction(strkey, o).value.invocations == Canonicalise(all);
    hide InvocationsFromTransaction, OperationRecords, Replayed, Recorded, Canonicalise, Strict, Key;
    Merge(ops, replayed, Canonicalise(all));
    CallersKept(all, Canonicalise(all), ops, replayed);
  }

  /** Merging two lists of records, the first resting on the stronger basis. */
  lemma Merge(ops: seq<ContractInvocation>, replayed: seq<ContractInvocation>, ys: seq<ContractInvocation>)
    requires ys == Canonicalise(ops + replayed)
    requires forall x :: x in ops ==> x.basis == ObservedInvocation
    requires forall x :: x in replayed ==> x.basis == ObservedEvent
    ensures Strict(Key, ys)
    ensures forall k :: HasKey(ys, k) <==> HasKey(ops, k) || HasKey(replayed, k)
    ensures forall y :: y in ys ==> if HasKey(ops, Key(y)) then y in ops else y in replayed
  {
    hide Canonicalise, Strict, Key, FirstOfKey;
    var all := ops + replayed;
    CanonicalForm(all);
    forall k ensures HasKey(ys, k) <==> HasKey(ops, k) || HasKey(replayed, k) {
      EveryCallIsKept(all, k);
      if HasKey(ops, k) {
        var x :| x in ops && Key(x) == k;
        assert x in all;
      }
      if HasKey(replayed, k) {
        var x :| x in replayed && Key(x) == k;
        assert x in all;
      }
    }
    forall y | y in ys ensures if HasKey(ops, Key(y)) then y in ops else y in replayed {
      assert Chosen(all, y);
      assert y in all by {
        ChosenIsMember(all, y);
      }
      if HasKey(ops, Key(y)) {
        var x :| x in ops && Key(x) == Key(y);
        assert x in all;
      }
    }
  }

  lemma ChosenIsMember(xs: seq<ContractInvocation>, y: ContractInvocation)
    requires Chosen(xs, y)
    ensures y in xs
  {
  }

  /** A caller is part of the key, so the canonical list has one exactly when the replay did. */
  lemma CallersKept(
    all: seq<ContractInvocation>, ys: seq<ContractInvocation>, ops: seq<ContractInvocation>,
    replayed: seq<ContractInvocation>)
    requires all == ops + replayed && ys == Canonicalise(all)
    requires forall x :: x in ops ==> x.caller == None
    ensures AnyCaller(replayed) <==> exists y :: y in ys && y.caller.Some?
  {
    CanonicalForm(all);
    if AnyCaller(replayed) {
      var i :| 0 <= i < |replayed| && replayed[i].caller.Some?;
      assert replayed[i] in all;
      var y := ChosenExists(all, replayed[i]);
      assert Key(y)[1] == Key(replayed[i])[1];
      OptionalTextFieldInjective(y.caller, replayed[i].caller);
      assert y in ys;
    }
    if exists y :: y in ys && y.caller.Some? {
      var y :| y in ys && y.caller.Some?;
      assert Chosen(all, y);
      assert y in replayed;
    }
  }
}
