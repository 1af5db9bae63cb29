/** The order of texts by their characters, and the canonical orders of the rows stated
    with it. */
module TextOrder {
  import opened Basics
  import opened Ordering

  /** One text comes before another: at the first character in which they differ it has the
      lesser one, or it is a beginning of the other. */
  predicate TextBefore(a: string, b: string) {
    b != [] && (a == [] || a[0] < b[0] || (a[0] == b[0] && TextBefore(a[1..], b[1..])))
  }

  predicate TextAtMost(a: string, b: string) {
    a == b || TextBefore(a, b)
  }

  /** Nothing comes before any text. */
  predicate OptionalBefore(a: Option<string>, b: Option<string>) {
    b.Some? && (a.None? || TextBefore(a.value, b.value))
  }

  /** The order of characters, in terms of the first difference. */
  lemma {:induction false} FirstDifference(a: string, b: string)
    ensures TextBefore(a, b)
            <==> exists n :: 0 <= n < |b| && n <= |a| && a[..n] == b[..n] && (n == |a| || a[n] < b[n])
    decreases |a|
  {
    if b != [] && (a == [] || a[0] < b[0]) {
      assert a[..0] == b[..0];
    } else if b != [] && a[0] == b[0] {
      FirstDifference(a[1..], b[1..]);
      if n :| 0 <= n < |b[1..]| && n <= |a[1..]| && a[1..][..n] == b[1..][..n]
              && (n == |a[1..]| || a[1..][n] < b[1..][n]) {
        assert a[..n + 1] == [a[0]] + a[1..][..n] && b[..n + 1] == [b[0]] + b[1..][..n];
        assert n + 1 == |a| || a[n + 1] < b[n + 1];
      }
      if n :| 0 <= n < |b| && n <= |a| && a[..n] == b[..n] && (n == |a| || a[n] < b[n]) {
        assert n > 0;
        assert a[1..][..n - 1] == a[..n][1..] && b[1..][..n - 1] == b[..n][1..];
      }
    } else if b != [] {
      forall n | 0 < n < |b| && n <= |a| ensures a[..n] != b[..n] {
        assert a[..n][0] != b[..n][0];
      }
    }
  }

  // ----- Fields and rows -----

  lemma {:induction false} TextFieldOrder(a: string, b: string)
    ensures FieldLess(TextField(a), TextField(b)) <==> TextBefore(a, b)
    ensures TextField(a) == TextField(b) <==> a == b
    decreases |a|
  {
    if a != [] && b != [] {
      assert TextField(a)[1..] == TextField(a[1..]) && TextField(b)[1..] == TextField(b[1..]);
      TextFieldOrder(a[1..], b[1..]);
    }
    if TextField(a) == TextField(b) {
      TextFieldInjective(a, b);
    }
  }

  lemma OptionalFieldOrder(a: Option<string>, b: Option<string>)
    ensures FieldLess(OptionalTextField(a), OptionalTextField(b)) <==> OptionalBefore(a, b)
    ensures OptionalTextField(a) == OptionalTextField(b) <==> a == b
  {
    if a.Some? && b.Some? {
      assert OptionalTextField(a)[1..] == TextField(a.value) && OptionalTextField(b)[1..] == TextField(b.value);
      TextFieldOrder(a.value, b.value);
    }
  }

  /** Rows are compared by their first field, and by the rest when it agrees. */
  lemma RowOrder(f: seq<int>, a: Row, g: seq<int>, b: Row)
    ensures Less([f] + a, [g] + b) <==> FieldLess(f, g) || (f == g && Less(a, b))
  {
    assert ([f] + a)[1..] == a && ([g] + b)[1..] == b;
  }

  /** The same for several fields. */
  lemma {:induction false} LessJoined(a: Row, c: Row, b: Row, d: Row)
    requires |a| == |b|
    ensures Less(a + c, b + d) <==> Less(a, b) || (a == b && Less(c, d))
  {
    if a == [] {
      assert a + c == c && b + d == d;
    } else {
      assert (a + c)[1..] == a[1..] + c && (b + d)[1..] == b[1..] + d;
      LessJoined(a[1..], c, b[1..], d);
      FieldLaws(a[0], b[0], a[0]);
      assert a == [a[0]] + a[1..] && b == [b[0]] + b[1..];
    }
  }

  lemma OneFieldOrder(f: seq<int>, g: seq<int>)
    ensures Less([f], [g]) <==> FieldLess(f, g)
  {
    assert [f][1..] == [] && [g][1..] == [];
  }

  lemma NumberOrder(m: int, n: int)
    ensures FieldLess([m], [n]) <==> m < n
    ensures [m] == [n] <==> m == n
  {
    assert [m][1..] == [] && [n][1..] == [];
  }

  /** Rows of one text each come in the order of the texts. */
  lemma TextRowOrder(a: string, b: string)
    ensures Less([TextField(a)], [TextField(b)]) <==> TextBefore(a, b)
    ensures AtMost([TextField(a)], [TextField(b)]) <==> TextAtMost(a, b)
  {
    TextFieldOrder(a, b);
    OneFieldOrder(TextField(a), TextField(b));
    assert [TextField(a)][0] == TextField(a) && [TextField(b)][0] == TextField(b);
  }

  lemma TextBeforeLaws(a: string, b: string, c: string)
    ensures !TextBefore(a, a)
    ensures a == b || TextBefore(a, b) || TextBefore(b, a)
    ensures TextBefore(a, b) && TextBefore(b, c) ==> TextBefore(a, c)
  {
    TextFieldOrder(a, a);
    TextFieldOrder(a, b);
    TextFieldOrder(b, a);
    TextFieldOrder(b, c);
    TextFieldOrder(a, c);
    FieldLaws(TextField(a), TextField(b), TextField(c));
  }

  // ----- Sorting by a text -----

  /** The elements with one text, in order. */
  function WithText<T>(text: T -> string, s: string, xs: seq<T>): seq<T> {
    if xs == [] then [] else (if text(xs[0]) == s then [xs[0]] else []) + WithText(text, s, xs[1..])
  }

  /** `ys` holds the elements of `xs` in the order of their texts, those of one text in the
      order they came in. */
  ghost predicate SortedByText<T(!new)>(text: T -> string, xs: seq<T>, ys: seq<T>) {
    && multiset(ys) == multiset(xs)
    && (forall i, j :: 0 <= i < j < |ys| ==> TextAtMost(text(ys[i]), text(ys[j])))
    && forall s :: WithText(text, s, ys) == WithText(text, s, xs)
  }

  ghost predicate RowOfText<T(!new)>(row: T -> Row, text: T -> string) {
    forall x :: row(x) == [TextField(text(x))]
  }

  lemma {:induction false} WithTextHaving<T(!new)>(row: T -> Row, text: T -> string, s: string, xs: seq<T>)
    requires RowOfText(row, text)
    ensures WithText(text, s, xs) == Having(row, [TextField(s)], xs)
  {
    if xs != [] {
      WithTextHaving(row, text, s, xs[1..]);
      TextFieldOrder(text(xs[0]), s);
      assert row(xs[0])[0] == TextField(text(xs[0]));
      assert row(xs[0]) == [TextField(s)] <==> TextField(text(xs[0])) == TextField(s);
    }
  }

  /** Sorting by a row of one text is exactly that. */
  lemma SortsByText<T(!new)>(row: T -> Row, text: T -> string, xs: seq<T>, ys: seq<T>)
    requires RowOfText(row, text)
    ensures SortedByText(text, xs, ys) <==> ys == Sort(row, xs)
  {
    hide Sort, Having, AtMost, TextAtMost, WithText;
    forall x, y ensures AtMost(row(x), row(y)) <==> TextAtMost(text(x), text(y)) {
      TextRowOrder(text(x), text(y));
    }
    forall s, zs: seq<T> ensures WithText(text, s, zs) == Having(row, [TextField(s)], zs) {
      WithTextHaving(row, text, s, zs);
    }
    SortFacts(row, xs);
    if SortedByText(text, xs, ys) {
      forall x ensures x in ys <==> x in xs {
        assert x in ys <==> x in multiset(ys);
        assert x in xs <==> x in multiset(xs);
      }
      forall k ensures Having(row, k, ys) == Having(row, k, xs) {
        if x :| x in xs && row(x) == k {
          assert WithText(text, text(x), ys) == WithText(text, text(x), xs);
        } else {
          NoneHaving(row, k, xs);
          NoneHaving(row, k, ys);
        }
      }
      SortIsTheStableSort(row, xs, ys);
    }
  }
}
