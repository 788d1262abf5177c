/** Order-insensitive comparison of decoded JSON arrays: pkg/analyze/json_compare.go. */
module JsonCompare {
  import opened Text
  import opened Sorting

  /** A decoded JSON value below the top level. */
  datatype Value =
    | Null
    | Bool(b: bool)
    | Number(n: real)
    | Str(s: string)
    | Arr(items: seq<Value>)
    | Obj(fields: map<string, Value>)

  /** fmt.Sprintf("%v"); render is what it prints for numbers and compound values. */
  function Printed(render: Value -> string, v: Value): string {
    match v
    case Null => "<nil>"
    case Bool(b) => if b then "true" else "false"
    case Str(s) => s
    case _ => render(v)
  }

  /** The order function: the text decides between values of different or compound types. */
  function Order(render: Value -> string): (Value, Value) -> bool {
    (a: Value, b: Value) =>
      match (a, b)
      case (Number(x), Number(y)) => x < y
      case (Str(x), Str(y)) => StringLess(x, y)
      case (Bool(x), Bool(y)) => !x && y
      case _ => StringLess(Printed(render, a), Printed(render, b))
  }

  /** Of two different elements one is less. */
  ghost predicate TotalOn<T>(less: (T, T) -> bool, s: seq<T>) {
    forall x, y :: x in s && y in s && x != y ==> less(x, y) || less(y, x)
  }

  /** All numbers, all strings, or all booleans. */
  predicate OneScalarType(s: seq<Value>) {
    || (forall x :: x in s ==> x.Number?)
    || (forall x :: x in s ==> x.Str?)
    || (forall x :: x in s ==> x.Bool?)
  }

  lemma ScalarsAreOrdered(render: Value -> string, s: seq<Value>)
    requires OneScalarType(s)
    ensures WeakOrderOn(Order(render), s) && TotalOn(Order(render), s)
  {
    var less := Order(render);
    if forall x :: x in s ==> x.Str? {
      forall x, y | x in s && y in s
        ensures less(x, y) ==> !less(y, x)
        ensures x != y ==> less(x, y) || less(y, x)
      {
        StringLessTrichotomy(x.s, y.s);
      }
      forall x, y, z | x in s && y in s && z in s && !less(y, x) && !less(z, y)
        ensures !less(z, x)
      {
        StringNotLessTransitive(x.s, y.s, z.s);
      }
    }
  }

  /** Sorting by a total order leaves no choice. */
  lemma {:induction false} SortedIsUnique<T>(less: (T, T) -> bool, s: seq<T>, t: seq<T>)
    requires TotalOn(less, s)
    requires multiset(s) == multiset(t) && Sorted(less, s) && Sorted(less, t)
    ensures s == t
  {
    assert |multiset(s)| == |s| && |multiset(t)| == |t|;
    if s != [] {
      SameFirst(less, s, t);
      assert forall x :: x in s[1..] ==> x in s;
      SortedIsUnique(less, s[1..], t[1..]);
      assert s == [s[0]] + s[1..] && t == [t[0]] + t[1..];
    }
  }

  lemma SameFirst<T>(less: (T, T) -> bool, s: seq<T>, t: seq<T>)
    requires TotalOn(less, s)
    requires multiset(s) == multiset(t) && Sorted(less, s) && Sorted(less, t) && s != [] && t != []
    ensures s[0] == t[0] && multiset(s[1..]) == multiset(t[1..])
  {
    FirstIsLeast(less, s, t);
    FirstIsLeast(less, t, s);
    assert s == [s[0]] + s[1..] && t == [t[0]] + t[1..];
    assert multiset(s[1..]) == multiset(s) - multiset{s[0]};
    assert multiset(t[1..]) == multiset(t) - multiset{t[0]};
  }

  lemma FirstIsLeast<T>(less: (T, T) -> bool, s: seq<T>, t: seq<T>)
    requires multiset(s) == multiset(t) && Sorted(less, s) && s != [] && t != []
    ensures t[0] in s && (t[0] == s[0] || !less(t[0], s[0]))
  {
    SameElements(s, t, t[0]);
  }

  /** Arrays of the elements of s have one sorted form at most exactly when the order is total on
      them: two different elements that are not ordered can be left either way round. */
  lemma OneSortedFormIffTotal<T(!new)>(less: (T, T) -> bool, s: seq<T>)
    ensures TotalOn(less, s) <==>
            forall t: seq<T>, u: seq<T> ::
              (forall x :: x in t ==> x in s) && multiset(t) == multiset(u) && Sorted(less, t) && Sorted(less, u) ==>
                t == u
  {
    if TotalOn(less, s) {
      forall t: seq<T>, u: seq<T> |
        (forall x :: x in t ==> x in s) && multiset(t) == multiset(u) && Sorted(less, t) && Sorted(less, u)
        ensures t == u
      {
        SortedIsUnique(less, t, u);
      }
    } else {
      var x, y :| x in s && y in s && x != y && !less(x, y) && !less(y, x);
      var t, u := [x, y], [y, x];
      assert multiset(t) == multiset(u) && Sorted(less, t) && Sorted(less, u) && t[0] != u[0];
    }
  }

  /** Different elements are printed differently, unless both are numbers; and no text stands
      between those of two numbers whose texts are the wrong way round. */
  predicate Distinguishable(render: Value -> string, s: seq<Value>) {
    && (forall x, y :: x in s && y in s && x != y && !(x.Number? && y.Number?) ==>
          Printed(render, x) != Printed(render, y))
    && (forall x, y, z :: x in s && y in s && z in s && Between(render, x, y, z) ==>
          !(x.Number? && y.Number? && x.n < y.n))
  }

  /** z is no number, and its text comes after that of y and before that of x. */
  predicate Between(render: Value -> string, x: Value, y: Value, z: Value) {
    && !z.Number?
    && StringLess(Printed(render, y), Printed(render, z))
    && StringLess(Printed(render, z), Printed(render, x))
  }

  /** But for two numbers the order is that of the texts. */
  lemma OrderIsThatOfTexts(render: Value -> string, a: Value, b: Value)
    requires !(a.Number? && b.Number?)
    ensures Order(render)(a, b) <==> StringLess(Printed(render, a), Printed(render, b))
  {
    if a.Bool? && b.Bool? {
      assert StringLess("false", "true") && !StringLess("true", "false");
      StringLessTrichotomy(Printed(render, a), Printed(render, b));
    }
  }

  lemma OrderIsAsymmetric(render: Value -> string, x: Value, y: Value)
    ensures Order(render)(x, y) ==> !Order(render)(y, x)
    ensures !(x.Number? && y.Number?) && Printed(render, x) != Printed(render, y) ==>
              Order(render)(x, y) || Order(render)(y, x)
  {
    if !(x.Number? && y.Number?) {
      OrderIsThatOfTexts(render, x, y);
      OrderIsThatOfTexts(render, y, x);
      StringLessTrichotomy(Printed(render, x), Printed(render, y));
    }
  }

  /** Three values are ordered in a circle only when one is no number and its text stands between
      those of two numbers. */
  lemma CircleHoldsText(render: Value -> string, x: Value, y: Value, z: Value)
    requires Order(render)(x, y) && Order(render)(y, z) && Order(render)(z, x)
    ensures || (x.Number? && y.Number? && x.n < y.n && Between(render, x, y, z))
            || (y.Number? && z.Number? && y.n < z.n && Between(render, y, z, x))
            || (z.Number? && x.Number? && z.n < x.n && Between(render, z, x, y))
  {
    var a, b, c := Printed(render, x), Printed(render, y), Printed(render, z);
    if !(x.Number? && y.Number?) {
      OrderIsThatOfTexts(render, x, y);
    }
    if !(y.Number? && z.Number?) {
      OrderIsThatOfTexts(render, y, z);
    }
    if !(z.Number? && x.Number?) {
      OrderIsThatOfTexts(render, z, x);
    }
    NoCircleOfTexts(a, b, c);
  }

  lemma NoCircleOfTexts(a: string, b: string, c: string)
    ensures !(StringLess(a, b) && StringLess(b, c) && StringLess(c, a))
  {
    StringLessTrichotomy(a, c);
    if StringLess(a, b) && StringLess(b, c) {
      StringLessTransitive(a, b, c);
    }
  }

  /** The elements are ordered, and totally, exactly when they are distinguishable. */
  lemma OrderedIffDistinguishable(render: Value -> string, s: seq<Value>)
    ensures WeakOrderOn(Order(render), s) && TotalOn(Order(render), s) <==> Distinguishable(render, s)
  {
    if Distinguishable(render, s) {
      DistinguishableIsOrdered(render, s);
    } else if WeakOrderOn(Order(render), s) && TotalOn(Order(render), s) {
      OrderedIsDistinguishable(render, s);
    }
  }

  lemma DistinguishableIsOrdered(render: Value -> string, s: seq<Value>)
    requires Distinguishable(render, s)
    ensures WeakOrderOn(Order(render), s) && TotalOn(Order(render), s)
  {
    var less := Order(render);
    forall x, y | x in s && y in s
      ensures less(x, y) ==> !less(y, x)
      ensures x != y ==> less(x, y) || less(y, x)
    {
      OrderIsAsymmetric(render, x, y);
    }
    forall x, y, z | x in s && y in s && z in s && !less(y, x) && !less(z, y)
      ensures !less(z, x)
    {
      if x != y && y != z && less(z, x) {
        CircleHoldsText(render, x, y, z);
      }
    }
  }

  lemma OrderedIsDistinguishable(render: Value -> string, s: seq<Value>)
    requires WeakOrderOn(Order(render), s) && TotalOn(Order(render), s)
    ensures Distinguishable(render, s)
  {
    var less := Order(render);
    forall x, y | x in s && y in s && x != y && !(x.Number? && y.Number?)
      ensures Printed(render, x) != Printed(render, y)
    {
      OrderIsThatOfTexts(render, x, y);
      OrderIsThatOfTexts(render, y, x);
      StringLessTrichotomy(Printed(render, x), Printed(render, y));
    }
    forall x, y, z | x in s && y in s && z in s && Between(render, x, y, z)
      ensures !(x.Number? && y.Number? && x.n < y.n)
    {
      OrderIsThatOfTexts(render, y, z);
      OrderIsThatOfTexts(render, z, x);
    }
  }

  /** Arrays without numbers are always ordered, and totally exactly when no two different elements
      are printed alike. */
  lemma TextsAreOrdered(render: Value -> string, s: seq<Value>)
    requires forall x :: x in s ==> !x.Number?
    ensures WeakOrderOn(Order(render), s)
    ensures TotalOn(Order(render), s) <==>
            forall x, y :: x in s && y in s && x != y ==> Printed(render, x) != Printed(render, y)
  {
    var less := Order(render);
    forall x, y | x in s && y in s
      ensures less(x, y) <==> StringLess(Printed(render, x), Printed(render, y))
      ensures less(x, y) || less(y, x) <==> Printed(render, x) != Printed(render, y)
      ensures less(x, y) ==> !less(y, x)
    {
      OrderIsThatOfTexts(render, x, y);
      OrderIsThatOfTexts(render, y, x);
      StringLessTrichotomy(Printed(render, x), Printed(render, y));
    }
    forall x, y, z | x in s && y in s && z in s && !less(y, x) && !less(z, y)
      ensures !less(z, x)
    {
      StringNotLessTransitive(Printed(render, x), Printed(render, y), Printed(render, z));
    }
  }

  /** Two short arrays of elements of s hold the same elements but are sorted differently. */
  ghost predicate SortedApart(less: (Value, Value) -> bool, s: seq<Value>, t: seq<Value>, u: seq<Value>) {
    && (forall x :: x in t ==> x in s)
    && multiset(t) == multiset(u) && |t| <= 12
    && InsertionSort(less, t) != InsertionSort(less, u)
  }

  /** Arrays of the elements of s are sorted alike, and so compared rightly, exactly when these are
      distinguishable. */
  lemma ComparedRightlyIff(render: Value -> string, s: seq<Value>)
    ensures (forall t, u :: !SortedApart(Order(render), s, t, u)) <==> Distinguishable(render, s)
  {
    if Distinguishable(render, s) {
      DistinguishableIsOrdered(render, s);
      forall t, u
        ensures !SortedApart(Order(render), s, t, u)
      {
        if (forall x :: x in t ==> x in s) && multiset(t) == multiset(u) {
          SameSortedForm(Order(render), s, t, u);
        }
      }
    } else {
      var t, u := Counterexample(render, s);
    }
  }

  lemma SameSortedForm(less: (Value, Value) -> bool, s: seq<Value>, t: seq<Value>, u: seq<Value>)
    requires WeakOrderOn(less, s) && TotalOn(less, s)
    requires (forall x :: x in t ==> x in s) && multiset(t) == multiset(u)
    ensures InsertionSort(less, t) == InsertionSort(less, u)
  {
    forall x | x in u
      ensures x in t
    {
      SameElements(t, u, x);
    }
    SortedOf(less, s, t);
    SortedOf(less, s, u);
    SortedIsUnique(less, InsertionSort(less, t), InsertionSort(less, u));
  }

  lemma SortedOf(less: (Value, Value) -> bool, s: seq<Value>, t: seq<Value>)
    requires WeakOrderOn(less, s) && TotalOn(less, s) && forall x :: x in t ==> x in s
    ensures Sorted(less, InsertionSort(less, t)) && TotalOn(less, InsertionSort(less, t))
    ensures multiset(InsertionSort(less, t)) == multiset(t)
  {
    InsertionSortPermutes(less, t);
    WeakOrderOnSome(less, s, t);
    InsertionSortSorts(less, t);
    forall x | x in InsertionSort(less, t)
      ensures x in s
    {
      SameElements(InsertionSort(less, t), t, x);
    }
  }

  /** Two elements that are printed alike, or two numbers with a text between theirs, in two orders. */
  lemma Counterexample(render: Value -> string, s: seq<Value>) returns (t: seq<Value>, u: seq<Value>)
    requires !Distinguishable(render, s)
    ensures SortedApart(Order(render), s, t, u)
  {
    if x, y :| x in s && y in s && x != y && !(x.Number? && y.Number?) && Printed(render, x) == Printed(render, y) {
      PairIsSortedApart(render, x, y);
      t, u := [x, y], [y, x];
    } else {
      var x, y, z :| x in s && y in s && z in s && Between(render, x, y, z) && x.Number? && y.Number? && x.n < y.n;
      CircleIsSortedApart(render, x, y, z);
      t, u := [x, y, z], [z, x, y];
    }
  }

  /** Arrays that are in order stay apart. */
  lemma StayApart(less: (Value, Value) -> bool, s: seq<Value>, t: seq<Value>, u: seq<Value>)
    requires forall i :: 0 < i < |t| ==> !less(t[i], t[i - 1])
    requires forall i :: 0 < i < |u| ==> !less(u[i], u[i - 1])
    requires multiset(t) == multiset(u) && t != u && |t| <= 12 && forall x :: x in t ==> x in s
    ensures SortedApart(less, s, t, u)
  {
    InsertionSortKeeps(less, t);
    InsertionSortKeeps(less, u);
  }

  lemma PairIsSortedApart(render: Value -> string, x: Value, y: Value)
    requires x != y && !(x.Number? && y.Number?) && Printed(render, x) == Printed(render, y)
    ensures SortedApart(Order(render), [x, y], [x, y], [y, x])
  {
    OrderIsThatOfTexts(render, x, y);
    OrderIsThatOfTexts(render, y, x);
    StringLessTrichotomy(Printed(render, x), Printed(render, y));
    assert [x, y][0] != [y, x][0];
    StayApart(Order(render), [x, y], [x, y], [y, x]);
  }

  lemma CircleIsSortedApart(render: Value -> string, x: Value, y: Value, z: Value)
    requires Between(render, x, y, z) && x.Number? && y.Number? && x.n < y.n
    ensures SortedApart(Order(render), [x, y, z], [x, y, z], [z, x, y])
  {
    OrderIsThatOfTexts(render, y, z);
    OrderIsThatOfTexts(render, z, x);
    OrderIsAsymmetric(render, y, z);
    OrderIsAsymmetric(render, z, x);
    TripleStaysApart(Order(render), x, y, z);
  }

  lemma TripleStaysApart(less: (Value, Value) -> bool, x: Value, y: Value, z: Value)
    requires !less(y, x) && !less(z, y) && !less(x, z) && x != z
    ensures SortedApart(less, [x, y, z], [x, y, z], [z, x, y])
  {
    Rotated(x, y, z);
    StayApart(less, [x, y, z], [x, y, z], [z, x, y]);
  }

  lemma Rotated(x: Value, y: Value, z: Value)
    requires x != z
    ensures multiset([x, y, z]) == multiset([z, x, y]) && [x, y, z] != [z, x, y]
  {
    assert [x, y, z][0] != [z, x, y][0];
    assert [x, y, z] == [x, y] + [z] && [z, x, y] == [z] + [x, y];
  }

  /** The number 1 and the text "1". */
  lemma OneIsSortedApart(render: Value -> string)
    requires render(Number(1.0)) == "1"
    ensures SortedApart(Order(render), [Number(1.0), Str("1")], [Number(1.0), Str("1")], [Str("1"), Number(1.0)])
  {
    PairIsSortedApart(render, Number(1.0), Str("1"));
  }

  /** null and the text "<nil>", true and the text "true", false and the text "false". */
  lemma WordsAreSortedApart(render: Value -> string)
    ensures SortedApart(Order(render), [Null, Str("<nil>")], [Null, Str("<nil>")], [Str("<nil>"), Null])
    ensures SortedApart(Order(render), [Bool(true), Str("true")], [Bool(true), Str("true")], [Str("true"), Bool(true)])
    ensures SortedApart(Order(render), [Bool(false), Str("false")], [Bool(false), Str("false")],
                        [Str("false"), Bool(false)])
  {
    PairIsSortedApart(render, Null, Str("<nil>"));
    PairIsSortedApart(render, Bool(true), Str("true"));
    PairIsSortedApart(render, Bool(false), Str("false"));
  }

  /** 2, 10 and the text "15", whose order is a circle. */
  lemma FifteenIsSortedApart(render: Value -> string, two: Value, ten: Value, fifteen: Value)
    requires two == Number(2.0) && ten == Number(10.0) && fifteen == Str("15")
    requires render(two) == "2" && render(ten) == "10"
    ensures SortedApart(Order(render), [two, ten, fifteen], [two, ten, fifteen], [fifteen, two, ten])
  {
    assert StringLess("10", "15") && StringLess("15", "2");
    CircleIsSortedApart(render, two, ten, fifteen);
  }

  /** compareSortedSlices. Both arrays may be reordered, and nothing else happens to them. */
  method CompareSortedSlices(render: Value -> string, actual: array<Value>, expected: array<Value>)
    returns (equal: bool)
    requires actual != expected
    modifies actual, expected
    ensures multiset(actual[..]) == old(multiset(actual[..])) && multiset(expected[..]) == old(multiset(expected[..]))
    ensures equal ==> old(multiset(actual[..]) == multiset(expected[..]))
    ensures old(Distinguishable(render, actual[..])) ==>
              (equal <==> old(multiset(actual[..]) == multiset(expected[..])))
    ensures actual.Length == expected.Length <= 12 ==>
              (equal <==> old(InsertionSort(Order(render), actual[..]) == InsertionSort(Order(render), expected[..])))
    ensures old(OneScalarType(actual[..]) && OneScalarType(expected[..])) ==>
              (equal <==> old(multiset(actual[..]) == multiset(expected[..])))
  {
    ghost var was, want := actual[..], expected[..];
    assert |multiset(was)| == |was| && |multiset(want)| == |want|;
    if actual.Length != expected.Length {
      return false;
    }
    SortSlice(actual, Order(render));
    SortSlice(expected, Order(render));
    equal := actual[..] == expected[..];
    if OneScalarType(was) {
      ScalarsAreOrdered(render, was);
    }
    OrderedIffDistinguishable(render, was);
    if Distinguishable(render, was) && multiset(was) == multiset(want) {
      BothSorted(Order(render), was, want, actual[..], expected[..]);
    }
  }

  lemma BothSorted(less: (Value, Value) -> bool, was: seq<Value>, want: seq<Value>, s: seq<Value>, t: seq<Value>)
    requires WeakOrderOn(less, was) && TotalOn(less, was)
    requires multiset(was) == multiset(want) == multiset(s) == multiset(t)
    requires Sorted(less, s) && (WeakOrderOn(less, want) ==> Sorted(less, t))
    ensures s == t
  {
    forall x
      ensures x in s <==> x in was
      ensures x in want <==> x in was
    {
      SameElements(s, was, x);
      SameElements(want, was, x);
    }
    WeakOrderOnSome(less, was, want);
    SortedIsUnique(less, s, t);
  }

  /** A decoded value as the comparison receives it: an array is a slice that can be sorted. */
  datatype Decoded = Slice(items: array<Value>) | Plain(value: Value)

  predicate SameKind(a: Value, b: Value) {
    (a.Null? && b.Null?) || (a.Bool? && b.Bool?) || (a.Number? && b.Number?) || (a.Str? && b.Str?) || (a.Obj? && b.Obj?)
  }

  /** deepEqualWithSlicesSorted: values of different kinds are different, arrays are compared
      sorted, and everything else, arrays inside it included, as it is. */
  method DeepEqualWithSlicesSorted(render: Value -> string, actual: Decoded, expected: Decoded) returns (equal: bool)
    requires actual.Slice? && expected.Slice? ==> actual.items != expected.items
    requires (actual.Plain? ==> !actual.value.Arr?) && (expected.Plain? ==> !expected.value.Arr?)
    modifies if actual.Slice? then {actual.items} else {}, if expected.Slice? then {expected.items} else {}
    ensures actual.Plain? && expected.Plain? ==> (equal <==> actual.value == expected.value)
    ensures actual.Slice? != expected.Slice? ==> !equal
    ensures actual.Slice? ==> multiset(actual.items[..]) == old(multiset(actual.items[..]))
    ensures expected.Slice? ==> multiset(expected.items[..]) == old(multiset(expected.items[..]))
    ensures actual.Slice? && expected.Slice? ==>
              && (equal ==> old(multiset(actual.items[..]) == multiset(expected.items[..])))
              && (old(OneScalarType(actual.items[..]) && OneScalarType(expected.items[..])) ==>
                    (equal <==> old(multiset(actual.items[..]) == multiset(expected.items[..]))))
              && (old(Distinguishable(render, actual.items[..])) ==>
                    (equal <==> old(multiset(actual.items[..]) == multiset(expected.items[..]))))
  {
    match (actual, expected) {
      case (Slice(a), Slice(e)) => equal := CompareSortedSlices(render, a, e);
      case (Plain(a), Plain(e)) => equal := SameKind(a, e) && a == e;
      case _ => equal := false;
    }
  }
}
