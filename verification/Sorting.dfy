/** What the modelled code needs of Go's sort package: sorting in place permutes the slice, and
    orders it when the comparison is a weak order on its elements; up to 12 elements it is
    insertion sort. Nothing else is promised, in particular not stability. */
module Sorting {

  /** On the elements of s, less is asymmetric and not-less is transitive. */
  ghost predicate WeakOrderOn<T>(less: (T, T) -> bool, s: seq<T>) {
    && (forall x, y :: x in s && y in s && less(x, y) ==> !less(y, x))
    && (forall x, y, z :: x in s && y in s && z in s && !less(y, x) && !less(z, y) ==> !less(z, x))
  }

  /** No later element is less than an earlier one. */
  ghost predicate Sorted<T>(less: (T, T) -> bool, s: seq<T>) {
    forall i, j :: 0 <= i < j < |s| ==> !less(s[j], s[i])
  }

  function Insert<T>(less: (T, T) -> bool, s: seq<T>, x: T): (r: seq<T>)
    ensures |r| == |s| + 1
  {
    if s == [] || !less(x, s[|s| - 1]) then s + [x]
    else Insert(less, s[..|s| - 1], x) + [s[|s| - 1]]
  }

  function InsertionSort<T>(less: (T, T) -> bool, s: seq<T>): (r: seq<T>)
    ensures |r| == |s|
  {
    if s == [] then [] else Insert(less, InsertionSort(less, s[..|s| - 1]), s[|s| - 1])
  }

  lemma {:induction false} InsertPermutes<T>(less: (T, T) -> bool, s: seq<T>, x: T)
    ensures multiset(Insert(less, s, x)) == multiset(s) + multiset{x}
  {
    if s == [] || !less(x, s[|s| - 1]) {
    } else {
      InsertPermutes(less, s[..|s| - 1], x);
      assert s == s[..|s| - 1] + [s[|s| - 1]];
    }
  }

  lemma SameElements<T>(s: seq<T>, t: seq<T>, x: T)
    requires multiset(s) == multiset(t)
    ensures x in s <==> x in t
  {
    assert x in s <==> x in multiset(s);
    assert x in t <==> x in multiset(t);
  }

  lemma {:induction false} InsertSorts<T>(less: (T, T) -> bool, s: seq<T>, x: T)
    requires Sorted(less, s) && WeakOrderOn(less, s + [x])
    ensures Sorted(less, Insert(less, s, x))
  {
    if s == [] {
    } else {
      var front, last := s[..|s| - 1], s[|s| - 1];
      if !less(x, last) {
        forall i | 0 <= i < |s|
          ensures !less(x, s[i])
        {
          assert s[i] in s + [x] && last in s + [x] && x in s + [x];
        }
      } else {
        forall y | y in front + [x]
          ensures y in s + [x]
        {
        }
        InsertSorts(less, front, x);
        InsertPermutes(less, front, x);
        var r := Insert(less, front, x);
        forall i | 0 <= i < |r|
          ensures !less(last, r[i])
        {
          assert r[i] in multiset(r);
          assert last in s + [x] && x in s + [x];
        }
      }
    }
  }

  lemma {:induction false} InsertionSortPermutes<T>(less: (T, T) -> bool, s: seq<T>)
    ensures multiset(InsertionSort(less, s)) == multiset(s)
  {
    if s == [] {
    } else {
      var front, last := s[..|s| - 1], s[|s| - 1];
      assert s == front + [last];
      InsertionSortPermutes(less, front);
      InsertPermutes(less, InsertionSort(less, front), last);
    }
  }

  lemma WeakOrderOnSome<T>(less: (T, T) -> bool, s: seq<T>, t: seq<T>)
    requires WeakOrderOn(less, s) && forall x :: x in t ==> x in s
    ensures WeakOrderOn(less, t)
  {
  }

  lemma {:induction false} InsertionSortSorts<T>(less: (T, T) -> bool, s: seq<T>)
    requires WeakOrderOn(less, s)
    ensures Sorted(less, InsertionSort(less, s))
  {
    if s == [] {
    } else {
      var front, last := s[..|s| - 1], s[|s| - 1];
      assert s == front + [last];
      WeakOrderOnSome(less, s, front);
      InsertionSortSorts(less, front);
      InsertionSortPermutes(less, front);
      var r := InsertionSort(less, front);
      forall x | x in r + [last]
        ensures x in s
      {
        SameElements(r, front, x);
      }
      WeakOrderOnSome(less, s, r + [last]);
      InsertSorts(less, r, last);
    }
  }

  /** Moves element i down to its place among the i elements before it. */
  method InsertInPlace<T>(a: array<T>, less: (T, T) -> bool, i: nat)
    requires i < a.Length
    modifies a
    ensures a[..i + 1] == old(Insert(less, a[..i], a[i])) && a[i + 1..] == old(a[i + 1..])
  {
    ghost var x, placed := a[i], Insert(less, a[..i], a[i]);
    ghost var after := a[i + 1..];
    var j := i;
    while j > 0 && less(a[j], a[j - 1])
      invariant 0 <= j <= i && a[j] == x && a[i + 1..] == after
      invariant Insert(less, a[..j], x) + a[j + 1..i + 1] == placed
    {
      ghost var before := a[..];
      assert before[..j][..j - 1] == before[..j - 1];
      assert Insert(less, before[..j], x) == Insert(less, before[..j - 1], x) + [before[j - 1]];
      a[j], a[j - 1] := a[j - 1], a[j];
      assert a[..j - 1] == before[..j - 1];
      assert a[j..i + 1] == [before[j - 1]] + before[j + 1..i + 1];
      j := j - 1;
    }
    assert Insert(less, a[..j], x) == a[..j] + [x];
    assert a[..i + 1] == a[..j] + [x] + a[j + 1..i + 1];
  }

  /** What is in order already is left as it is. */
  lemma {:induction false} InsertionSortKeeps<T>(less: (T, T) -> bool, s: seq<T>)
    requires forall i :: 0 < i < |s| ==> !less(s[i], s[i - 1])
    ensures InsertionSort(less, s) == s
  {
    if s != [] {
      InsertionSortKeeps(less, s[..|s| - 1]);
      assert s == s[..|s| - 1] + [s[|s| - 1]];
    }
  }

  /** sort.Slice. Up to 12 elements it is insertion sort. */
  method SortSlice<T>(a: array<T>, less: (T, T) -> bool)
    modifies a
    ensures multiset(a[..]) == old(multiset(a[..]))
    ensures old(WeakOrderOn(less, a[..])) ==> Sorted(less, a[..])
    ensures a.Length <= 12 ==> a[..] == old(InsertionSort(less, a[..]))
  {
    ghost var was := a[..];
    for i := 0 to a.Length
      invariant a[..i] == InsertionSort(less, was[..i]) && a[i..] == was[i..]
    {
      assert was[..i + 1][..i] == was[..i] && a[i] == a[i..][0];
      assert a[i + 1..] == a[i..][1..] && was[i + 1..] == was[i..][1..];
      InsertInPlace(a, less, i);
    }
    assert was[..a.Length] == was && a[..a.Length] == a[..];
    InsertionSortPermutes(less, was);
    if WeakOrderOn(less, was) {
      InsertionSortSorts(less, was);
    }
  }
}
