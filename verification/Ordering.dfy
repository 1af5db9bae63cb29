/** Rust's derived lexicographic orders, the stable sort and the adjacent
    de-duplication that the canonical forms are built from. */
module Ordering {
  import opened Basics

  /** A value's sort key, field by field. Each field is a list of integers: a text's
      code points, a number alone, and for an option nothing or a one before the value,
      which puts `None` first as the derived order does. */
  type Row = seq<seq<int>>

  function TextField(s: string): seq<int> {
    seq(|s|, i requires 0 <= i < |s| => s[i] as int)
  }

  function OptionalTextField(o: Option<string>): seq<int> {
    if o.None? then [] else [1] + TextField(o.value)
  }

  function OptionalNatField(o: Option<nat>): seq<int> {
    if o.None? then [] else [1, o.value]
  }

  lemma TextFieldInjective(a: string, b: string)
    requires TextField(a) == TextField(b)
    ensures a == b
  {
    assert |a| == |TextField(a)| == |b|;
    forall i | 0 <= i < |a| ensures a[i] == b[i] {
      assert TextField(a)[i] == TextField(b)[i];
    }
  }

  lemma OptionalTextFieldInjective(a: Option<string>, b: Option<string>)
    requires OptionalTextField(a) == OptionalTextField(b)
    ensures a == b
  {
    if a.Some? && b.Some? {
      assert OptionalTextField(a)[1..] == TextField(a.value);
      assert OptionalTextField(b)[1..] == TextField(b.value);
      TextFieldInjective(a.value, b.value);
    }
  }

  predicate FieldLess(a: seq<int>, b: seq<int>) {
    b != [] && (a == [] || a[0] < b[0] || (a[0] == b[0] && FieldLess(a[1..], b[1..])))
  }

  predicate Less(a: Row, b: Row) {
    b != [] && (a == [] || FieldLess(a[0], b[0]) || (a[0] == b[0] && Less(a[1..], b[1..])))
  }

  predicate AtMost(a: Row, b: Row) {
    a == b || Less(a, b)
  }

  // ----- The orders are strict and total -----

  lemma {:induction false} FieldLaws(a: seq<int>, b: seq<int>, c: seq<int>)
    ensures !FieldLess(a, a)
    ensures a == b || FieldLess(a, b) || FieldLess(b, a)
    ensures FieldLess(a, b) && FieldLess(b, c) ==> FieldLess(a, c)
    decreases |a|
  {
    if a != [] {
      var rb := if b == [] then [] else b[1..];
      var rc := if c == [] then [] else c[1..];
      FieldLaws(a[1..], rb, rc);
      if b != [] && a[0] == b[0] && a[1..] == b[1..] {
        assert a == [a[0]] + a[1..] == b;
      }
    }
  }

  lemma {:induction false} RowLaws(a: Row, b: Row, c: Row)
    ensures !Less(a, a)
    ensures a == b || Less(a, b) || Less(b, a)
    ensures Less(a, b) && Less(b, c) ==> Less(a, c)
    decreases |a|
  {
    if a != [] {
      var fb := if b == [] then [] else b[0];
      var fc := if c == [] then [] else c[0];
      FieldLaws(a[0], fb, fc);
      RowLaws(a[1..], if b == [] then [] else b[1..], if c == [] then [] else c[1..]);
      if b != [] && a[0] == b[0] && a[1..] == b[1..] {
        assert a == [a[0]] + a[1..] == b;
      }
    }
  }

  lemma Transitive(a: Row, b: Row, c: Row)
    requires AtMost(a, b) && AtMost(b, c)
    ensures AtMost(a, c)
    ensures Less(a, b) || Less(b, c) ==> Less(a, c)
  {
    RowLaws(a, b, c);
  }

  lemma Antisymmetric(a: Row, b: Row)
    ensures !(Less(a, b) && AtMost(b, a))
    ensures AtMost(a, b) || Less(b, a)
  {
    RowLaws(a, b, a);
  }

  // ----- Stable sorting -----

  ghost predicate Sorted<T(!new)>(row: T -> Row, xs: seq<T>) {
    forall i, j :: 0 <= i < j < |xs| ==> AtMost(row(xs[i]), row(xs[j]))
  }

  /** No two elements share a key, and the keys increase. */
  ghost predicate Strict<T(!new)>(row: T -> Row, xs: seq<T>) {
    forall i, j :: 0 <= i < j < |xs| ==> Less(row(xs[i]), row(xs[j]))
  }

  /** The elements with one key, in order. */
  function Having<T>(row: T -> Row, k: Row, xs: seq<T>): seq<T> {
    if xs == [] then []
    else (if row(xs[0]) == k then [xs[0]] else []) + Having(row, k, xs[1..])
  }

  function Insert<T>(row: T -> Row, x: T, xs: seq<T>): seq<T> {
    if xs == [] || AtMost(row(x), row(xs[0])) then [x] + xs
    else [xs[0]] + Insert(row, x, xs[1..])
  }

  /** The stable sort by a key. `SortIsTheStableSort` shows that any algorithm with the
      contract of Rust's `sort_by` computes this. */
  function Sort<T>(row: T -> Row, xs: seq<T>): seq<T> {
    if xs == [] then [] else Insert(row, xs[0], Sort(row, xs[1..]))
  }

  lemma {:induction false} InsertFacts<T(!new)>(row: T -> Row, x: T, xs: seq<T>)
    requires Sorted(row, xs)
    ensures Sorted(row, Insert(row, x, xs))
    ensures multiset(Insert(row, x, xs)) == multiset{x} + multiset(xs)
  {
    if xs == [] {
    } else if AtMost(row(x), row(xs[0])) {
      forall i | 0 <= i < |xs| ensures AtMost(row(x), row(xs[i])) {
        if i > 0 {
          Transitive(row(x), row(xs[0]), row(xs[i]));
        }
      }
    } else {
      Antisymmetric(row(x), row(xs[0]));
      var rest := Insert(row, x, xs[1..]);
      InsertFacts(row, x, xs[1..]);
      assert xs == [xs[0]] + xs[1..];
      forall i | 0 <= i < |rest| ensures AtMost(row(xs[0]), row(rest[i])) {
        assert rest[i] in multiset(rest);
        if rest[i] != x {
          assert rest[i] in xs[1..];
        }
      }
    }
  }

  lemma {:induction false} InsertHaving<T>(row: T -> Row, x: T, xs: seq<T>, k: Row)
    ensures Having(row, k, Insert(row, x, xs)) == (if row(x) == k then [x] else []) + Having(row, k, xs)
  {
    hide Less;
    if xs != [] && !AtMost(row(x), row(xs[0])) {
      InsertHaving(row, x, xs[1..], k);
      var first, rest := xs[0], Insert(row, x, xs[1..]);
      HavingFirst(row, first, rest, k);
      if row(first) == k {
        assert row(x) != k;
      }
    } else {
      HavingFirst(row, x, xs, k);
    }
  }

  lemma HavingFirst<T>(row: T -> Row, x: T, xs: seq<T>, k: Row)
    ensures Having(row, k, [x] + xs) == (if row(x) == k then [x] else []) + Having(row, k, xs)
  {
    assert ([x] + xs)[1..] == xs;
  }

  /** Sorting orders, keeps every element as often as it occurred, and keeps the order of
      elements with the same key. */
  lemma {:induction false} SortFacts<T(!new)>(row: T -> Row, xs: seq<T>)
    ensures Sorted(row, Sort(row, xs))
    ensures multiset(Sort(row, xs)) == multiset(xs)
    ensures forall k :: Having(row, k, Sort(row, xs)) == Having(row, k, xs)
  {
    if xs != [] {
      SortFacts(row, xs[1..]);
      InsertFacts(row, xs[0], Sort(row, xs[1..]));
      assert xs == [xs[0]] + xs[1..];
      forall k ensures Having(row, k, Sort(row, xs)) == Having(row, k, xs) {
        InsertHaving(row, xs[0], Sort(row, xs[1..]), k);
      }
    }
  }

  lemma {:induction false} HavingMembers<T>(row: T -> Row, k: Row, xs: seq<T>, x: T)
    ensures x in Having(row, k, xs) <==> x in xs && row(x) == k
  {
    if xs != [] {
      HavingMembers(row, k, xs[1..], x);
      assert xs == [xs[0]] + xs[1..];
    }
  }

  /** A sorted list is determined by its order within each key: the result of any stable
      sort is `Sort`. */
  lemma {:induction false} SortedUnique<T(!new)>(row: T -> Row, xs: seq<T>, ys: seq<T>)
    requires Sorted(row, xs) && Sorted(row, ys)
    requires forall k :: Having(row, k, xs) == Having(row, k, ys)
    ensures xs == ys
    decreases |xs|
  {
    if xs == [] || ys == [] {
      if xs != [] {
        HavingMembers(row, row(xs[0]), xs, xs[0]);
      }
      if ys != [] {
        HavingMembers(row, row(ys[0]), ys, ys[0]);
      }
    } else {
      SameFirstKey(row, xs, ys);
      SameFirstKey(row, ys, xs);
      Antisymmetric(row(xs[0]), row(ys[0]));
      var k := row(xs[0]);
      assert Having(row, k, xs)[0] == xs[0] && Having(row, k, ys)[0] == ys[0];
      assert xs[0] == ys[0];
      forall j ensures Having(row, j, xs[1..]) == Having(row, j, ys[1..]) {
        assert Having(row, j, xs) == Having(row, j, ys);
        if j == k {
          assert Having(row, j, xs[1..]) == Having(row, j, xs)[1..];
          assert Having(row, j, ys[1..]) == Having(row, j, ys)[1..];
        } else {
          assert Having(row, j, xs[1..]) == Having(row, j, xs);
          assert Having(row, j, ys[1..]) == Having(row, j, ys);
        }
      }
      SortedUnique(row, xs[1..], ys[1..]);
      assert xs == [xs[0]] + xs[1..] && ys == [ys[0]] + ys[1..];
    }
  }

  lemma SameFirstKey<T(!new)>(row: T -> Row, xs: seq<T>, ys: seq<T>)
    requires xs != [] && ys != [] && Sorted(row, xs)
    requires forall k :: Having(row, k, xs) == Having(row, k, ys)
    ensures AtMost(row(xs[0]), row(ys[0]))
  {
    HavingMembers(row, row(ys[0]), ys, ys[0]);
    HavingMembers(row, row(ys[0]), xs, ys[0]);
    var i :| 0 <= i < |xs| && xs[i] == ys[0];
  }

  /** Whatever sorts stably by the key computes `Sort`. */
  lemma SortIsTheStableSort<T(!new)>(row: T -> Row, xs: seq<T>, ys: seq<T>)
    requires Sorted(row, ys) && forall k :: Having(row, k, ys) == Having(row, k, xs)
    ensures ys == Sort(row, xs)
  {
    SortFacts(row, xs);
    SortedUnique(row, ys, Sort(row, xs));
  }

  lemma NoMembers<T(!new)>(xs: seq<T>)
    ensures xs == [] <==> forall x :: x !in xs
  {
    if xs != [] {
      assert xs[0] in xs;
    }
  }

  /** Two lists with strictly increasing keys and the same elements are equal. */
  lemma {:induction false} StrictUnique<T(!new)>(row: T -> Row, xs: seq<T>, ys: seq<T>)
    requires Strict(row, xs) && Strict(row, ys)
    requires forall x :: x in xs <==> x in ys
    ensures xs == ys
    decreases |xs|
  {
    if xs == [] || ys == [] {
      NoMembers(xs);
      NoMembers(ys);
    } else {
      assert xs[0] in ys;
      var i :| 0 <= i < |ys| && ys[i] == xs[0];
      assert ys[0] in xs;
      var j :| 0 <= j < |xs| && xs[j] == ys[0];
      Antisymmetric(row(xs[0]), row(ys[0]));
      assert xs[0] == ys[0];
      forall x ensures x in xs[1..] <==> x in ys[1..] {
        RowLaws(row(x), row(x), row(x));
        assert xs == [xs[0]] + xs[1..] && ys == [ys[0]] + ys[1..];
        if x in xs[1..] {
          assert x in ys;
          assert x != xs[0];
        }
        if x in ys[1..] {
          assert x in xs;
          assert x != ys[0];
        }
      }
      StrictUnique(row, xs[1..], ys[1..]);
      assert xs == [xs[0]] + xs[1..] && ys == [ys[0]] + ys[1..];
    }
  }

  // ----- Sorting by a key that identifies -----

  lemma NoneHaving<T(!new)>(row: T -> Row, k: Row, xs: seq<T>)
    requires forall x :: x in xs ==> row(x) != k
    ensures Having(row, k, xs) == []
  {
    if Having(row, k, xs) != [] {
      HavingMembers(row, k, xs, Having(row, k, xs)[0]);
    }
  }

  /** Elements sharing a key are the same element. */
  ghost predicate KeyIdentifies<T(!new)>(row: T -> Row, xs: seq<T>) {
    forall x, y :: x in xs && y in xs && row(x) == row(y) ==> x == y
  }

  lemma {:induction false} HavingRepeats<T(!new)>(row: T -> Row, xs: seq<T>, x: T)
    requires forall y :: y in xs && row(y) == row(x) ==> y == x
    ensures |Having(row, row(x), xs)| == multiset(xs)[x]
    ensures forall i :: 0 <= i < |Having(row, row(x), xs)| ==> Having(row, row(x), xs)[i] == x
  {
    if xs != [] {
      var rest := xs[1..];
      assert xs == [xs[0]] + rest;
      HavingFirst(row, xs[0], rest, row(x));
      hide Having;
      HavingRepeats(row, rest, x);
      assert multiset(xs) == multiset{xs[0]} + multiset(rest);
      assert xs[0] in xs;
    }
  }

  lemma SameMembers<T(!new)>(xs: seq<T>, ys: seq<T>)
    requires multiset(xs) == multiset(ys)
    ensures forall x :: x in xs <==> x in ys
  {
    forall x ensures x in xs <==> x in ys {
      assert x in xs <==> x in multiset(xs);
      assert x in ys <==> x in multiset(ys);
    }
  }

  /** When keys identify elements, sorting forgets the order the elements came in. */
  lemma SortForgetsOrder<T(!new)>(row: T -> Row, xs: seq<T>, ys: seq<T>)
    requires KeyIdentifies(row, xs) && multiset(xs) == multiset(ys)
    ensures Sort(row, xs) == Sort(row, ys)
  {
    SameMembers(xs, ys);
    forall k ensures Having(row, k, ys) == Having(row, k, xs) {
      if x :| x in xs && row(x) == k {
        HavingRepeats(row, xs, x);
        HavingRepeats(row, ys, x);
      } else {
        NoneHaving(row, k, xs);
        NoneHaving(row, k, ys);
      }
    }
    SortFacts(row, ys);
    SortIsTheStableSort(row, xs, Sort(row, ys));
  }

  // ----- Lists without repetition -----

  ghost predicate Differ<T>(xs: seq<T>) {
    forall i, j :: 0 <= i < j < |xs| ==> xs[i] != xs[j]
  }

  lemma {:induction false} OnceEach<T>(xs: seq<T>, x: T)
    requires Differ(xs)
    ensures multiset(xs)[x] <= 1
  {
    if xs != [] {
      assert xs == [xs[0]] + xs[1..];
      OnceEach(xs[1..], x);
      if x == xs[0] {
        assert x !in xs[1..];
      }
    }
  }

  lemma TwiceCounted<T>(xs: seq<T>, i: nat, j: nat)
    requires i < j < |xs| && xs[i] == xs[j]
    ensures multiset(xs)[xs[i]] >= 2
  {
    assert xs == xs[..i] + [xs[i]] + xs[i + 1..j] + [xs[j]] + xs[j + 1..];
  }

  /** Sorting keeps the members of a list, and introduces no repetition. */
  lemma SortedDiffer<T(!new)>(row: T -> Row, xs: seq<T>)
    ensures forall x :: x in Sort(row, xs) <==> x in xs
    ensures Differ(xs) ==> Differ(Sort(row, xs))
  {
    hide Sort;
    var ys := Sort(row, xs);
    SortFacts(row, xs);
    forall x ensures x in ys <==> x in xs {
      assert x in ys <==> x in multiset(ys);
      assert x in xs <==> x in multiset(xs);
    }
    if Differ(xs) {
      forall i, j | 0 <= i < j < |ys| ensures ys[i] != ys[j] {
        OnceEach(xs, ys[i]);
        if ys[i] == ys[j] {
          TwiceCounted(ys, i, j);
        }
      }
    }
  }

  // ----- Adjacent de-duplication -----

  /** Rust's `dedup_by` on equal keys: of each run of equal keys the first stays. */
  function Dedup<T>(key: T -> Row, xs: seq<T>): seq<T>
    decreases |xs|
  {
    if |xs| <= 1 then xs
    else if key(xs[0]) == key(xs[1]) then Dedup(key, [xs[0]] + xs[2..])
    else [xs[0]] + Dedup(key, xs[1..])
  }

  /** On a list sorted by the key, what remains has strictly increasing keys and is the
      first element of each key. */
  lemma {:induction false} DedupFacts<T(!new)>(key: T -> Row, xs: seq<T>)
    requires Sorted(key, xs)
    ensures Strict(key, Dedup(key, xs))
    ensures forall y :: y in Dedup(key, xs) <==> FirstOfKey(key, xs, y)
    ensures xs != [] ==> Dedup(key, xs) != [] && Dedup(key, xs)[0] == xs[0]
    decreases |xs|
  {
    hide Less, FirstOfKey;
    if |xs| <= 1 {
      forall y ensures y in xs <==> FirstOfKey(key, xs, y) {
        FirstOfOne(key, xs, y);
      }
    } else if key(xs[0]) == key(xs[1]) {
      var zs := [xs[0]] + xs[2..];
      DedupFacts(key, zs);
      forall y ensures FirstOfKey(key, zs, y) <==> FirstOfKey(key, xs, y) {
        SecondOfKeyDropped(key, xs, zs, y);
      }
    } else {
      var rest := xs[1..];
      DedupFacts(key, rest);
      var ys := Dedup(key, rest);
      forall i | 0 <= i < |ys| ensures Less(key(xs[0]), key(ys[i])) {
        assert ys[0] == xs[1] && Less(key(xs[0]), key(ys[0]));
        if i > 0 {
          Transitive(key(xs[0]), key(ys[0]), key(ys[i]));
        }
      }
      forall y ensures y in [xs[0]] + ys <==> FirstOfKey(key, xs, y) {
        assert y in ys ==> Less(key(xs[0]), key(y));
        RowLaws(key(y), key(y), key(y));
        FirstOfLonger(key, xs, y);
      }
    }
  }

  lemma FirstOfOne<T(!new)>(key: T -> Row, xs: seq<T>, y: T)
    requires |xs| <= 1
    ensures y in xs <==> FirstOfKey(key, xs, y)
  {
    if y in xs {
      assert xs[0] == y;
    }
  }

  /** Of two neighbours with one key, dropping the second changes no first element. */
  lemma SecondOfKeyDropped<T(!new)>(key: T -> Row, xs: seq<T>, zs: seq<T>, y: T)
    requires |xs| >= 2 && key(xs[0]) == key(xs[1]) && zs == [xs[0]] + xs[2..]
    ensures FirstOfKey(key, zs, y) <==> FirstOfKey(key, xs, y)
  {
    if FirstOfKey(key, zs, y) {
      var i :| 0 <= i < |zs| && zs[i] == y && forall j :: 0 <= j < i ==> key(zs[j]) != key(y);
      FirstShifts(key, xs, zs, i);
    }
    if FirstOfKey(key, xs, y) {
      var i :| 0 <= i < |xs| && xs[i] == y && forall j :: 0 <= j < i ==> key(xs[j]) != key(y);
      assert i != 1;
      var i' := if i == 0 then 0 else i - 1;
      assert zs[i'] == y;
      forall j | 0 <= j < i' ensures key(zs[j]) != key(y) {
        assert zs[j] == if j == 0 then xs[0] else xs[j + 1];
      }
    }
  }

  lemma FirstOfLonger<T(!new)>(key: T -> Row, xs: seq<T>, y: T)
    requires xs != []
    ensures FirstOfKey(key, xs, y) <==> y == xs[0] || (key(y) != key(xs[0]) && FirstOfKey(key, xs[1..], y))
  {
    var rest := xs[1..];
    if y == xs[0] {
      assert FirstOfKey(key, xs, y);
    }
    if FirstOfKey(key, xs, y) && y != xs[0] {
      var n :| 0 <= n < |xs| && xs[n] == y && forall j :: 0 <= j < n ==> key(xs[j]) != key(y);
      assert rest[n - 1] == y;
      forall j | 0 <= j < n - 1 ensures key(rest[j]) != key(y) {
        assert rest[j] == xs[j + 1];
      }
      assert FirstOfKey(key, rest, y);
    }
    if key(y) != key(xs[0]) && FirstOfKey(key, rest, y) {
      var n :| 0 <= n < |rest| && rest[n] == y && forall j :: 0 <= j < n ==> key(rest[j]) != key(y);
      assert xs[n + 1] == y;
      assert forall j :: 0 < j < n + 1 ==> xs[j] == rest[j - 1];
    }
  }

  /** `y` is in the list, and no earlier element has its key. */
  ghost predicate FirstOfKey<T(!new)>(key: T -> Row, xs: seq<T>, y: T) {
    exists i :: 0 <= i < |xs| && xs[i] == y && forall j :: 0 <= j < i ==> key(xs[j]) != key(y)
  }

  lemma FirstShifts<T(!new)>(key: T -> Row, xs: seq<T>, zs: seq<T>, i: nat)
    requires |xs| >= 2 && key(xs[0]) == key(xs[1]) && zs == [xs[0]] + xs[2..]
    requires i < |zs| && forall j :: 0 <= j < i ==> key(zs[j]) != key(zs[i])
    ensures FirstOfKey(key, xs, zs[i])
  {
    var n := if i == 0 then 0 else i + 1;
    assert xs[n] == zs[i];
    forall j | 0 <= j < n ensures key(xs[j]) != key(zs[i]) {
      if j >= 2 {
        assert zs[j - 1] == xs[j];
      } else {
        assert zs[0] == xs[0];
      }
    }
  }

  /** Sorting and then de-duplicating by a key that tells every two elements apart leaves
      each element once. */
  lemma SortedSet<T(!new)>(row: T -> Row, xs: seq<T>)
    requires forall x, y :: row(x) == row(y) ==> x == y
    ensures Strict(row, Dedup(row, Sort(row, xs)))
    ensures forall x :: x in Dedup(row, Sort(row, xs)) <==> x in xs
  {
    hide Sort, Dedup;
    var ss := Sort(row, xs);
    SortFacts(row, xs);
    DedupFacts(row, ss);
    forall x ensures FirstOfKey(row, ss, x) <==> x in xs {
      assert x in ss <==> x in multiset(ss);
      assert x in xs <==> x in multiset(xs);
      if x in ss {
        FirstOccurrence(ss, x);
      }
    }
  }

  lemma {:induction false} FirstOccurrence<T(!new)>(xs: seq<T>, x: T)
    requires x in xs
    ensures exists i :: 0 <= i < |xs| && xs[i] == x && x !in xs[..i]
  {
    if xs[0] == x {
      assert xs[0] == x && x !in xs[..0];
    } else {
      assert xs == [xs[0]] + xs[1..];
      FirstOccurrence(xs[1..], x);
      var i :| 0 <= i < |xs[1..]| && xs[1..][i] == x && x !in xs[1..][..i];
      assert xs[..i + 1] == [xs[0]] + xs[1..][..i];
      assert xs[i + 1] == x;
    }
  }
}
